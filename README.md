# lakat, modelled in Dafny

lakat is a bot for the browser game Lords and Knights. For every account it
logs in and walks the account's habitats with the next-habitat arrow. In each
habitat it reads the habitat kind (castle, fortress or city) from the name of
the ore-store building. It then clicks the upgrade buttons of the configured
target buildings, one level at a time and in priority order, while a slot
is free and the button is enabled. Next it orders research in the Library
(castle) or the University (other kinds). It stops when the walk shows the
first habitat's name again. After the loop it sends the account's troops on
missions and barters resources for silver, each behind its own gate.

The project models the `Lakat` class of `lakat/bot.py` and the tables of
`lakat/constants.py`:

- `wrappers.dfy`: `Option`, `Result` and `Outcome`.
- `config.dfy`: the shapes of the account configuration (`lakat/config.py`),
  taken as given.
- `constants.dfy` (module `Constants`):
  - the habitat-kind and research-building enums with their string values;
  - the ore-store table;
  - the meaning of `re.compile(r"level (\d+)", re.IGNORECASE)` followed by
    `int(findall(...)[0])`, written as a first-match scanner with a round
    trip.
- `page.dfy` (module `Page`):
  - the page as values: habitats, each with a title, an ore-store name, a
    building list and research indicators, plus the account-wide
    indicators;
  - how the bot reads them: the upgradable-buildings dictionary, Python's
    `str.strip` with its full whitespace set, and the habitat kind.
- `rules.dfy` (module `Rules`): the bot's decisions as functions on values,
  each with its properties proved:
  - the target list and the research building;
  - the upgrade stepper (`Steps`, `Upgrade`);
  - the mission and silver-barter gates;
  - the log prefix;
  - the habitat walk and the step at which it stops (`ReturnStep`).
- `cycle.dfy` (module `Cycle`): one session of `run` as functions on the
  bot's state:
  - `Visit` is the work of one pass on the habitat on screen (kind, upgrade
    stepper, research).
  - `PassStep` adds the move to the next habitat.
  - `Loop` and `Continue` make the habitat loop.
  - `Session` reads the first name, runs the loop, then the mission and
    silver-barter steps.
  - The lemmas say what each of these adds to the log and the clicks, and
    where the arrow ends.
- `bot.dfy` (module `Bot`): the class `Lakat`.
  - Its fields are the page, the stored habitat name and kind, the log and
    the record of game clicks.
  - Its methods change them step by step with the source's loops.
  - The single steps are proved against the decision functions of `Rules`.
    Their postconditions give the new log, clicks and stored values.
  - `VisitHabitat`, `HabitatPass`, `VisitAll` and `Run` are proved to leave
    exactly the outcome and state that `Visit`, `PassStep`, `Loop` and
    `Session` compute from the old state. The lemmas of `Cycle` state what
    those functions promise.

The upgrade stepper is stated for any reader of building lists. The bot
instantiates it with `Upgradable`.

A disabled button returns from the whole of `do_upgrade`
(lakat/bot.py:164-166). It does not move on to the next target
(`DisabledButtonEndsStepper`).

Termination of the inner `while` of `do_upgrade` is not guaranteed by the
source, because the page is external. The model makes the missing fact an
explicit assumption, `Rules.Progressive(read, click)`. Every upgrade click
either fills an upgrade slot, or leaves the slots as they were and raises
the clicked building's level (or removes it from the list). The class
invariant `Bot.Lakat.Valid` carries this assumption. The termination
measure is the pair (free slots, missing levels) (`ClickLowersMeasure`).

## Model

| member | source | states |
|---|---|---|
| Constants.EnumValuesAreDistinct | lakat/constants.py:9-17 | the three habitat-kind values are pairwise different, and so are the research-building values, which are exactly "University" and "Library" |
| Constants.LookupHabitatType | lakat/constants.py:20-24 | exact, case-sensitive lookup: "Ore store" gives castle, "Ore Storage" fortress, "Ore Depot" city, and every other name gives nothing (the KeyError) |
| Constants.HabitatTypeMapIsBijective | lakat/constants.py:20-24 | the table has exactly the three names as keys, no two names share a kind, and every kind is told by some name |
| Constants.ParseLevelMeaning | lakat/bot.py:115 | no level exactly when the pattern matches nowhere; otherwise the level is the value of the greedy digit run after the first match |
| Constants.DigitRunOfDigits | lakat/constants.py:6 | `\d+` is greedy: digits followed by a non-digit are read whole |
| Constants.LevelFoundAfter | lakat/constants.py:6 | after text with no match, the keyword in any letter case followed by the decimal text of n and a non-digit parses to exactly n (the round trip), with `int()` taken without its digit limit |
| Constants.SublevelIsALevel | lakat/constants.py:6 | the pattern has no word boundary: "Sublevel 3" parses to level 3 |
| Constants.DecimalTextRoundTrip | lakat/bot.py:115 | `int()` of the decimal text of n is n, with `int()` taken without its digit limit |
| Constants.DigitsValue | lakat/bot.py:115 | `int()` of a digit string, taken without its digit limit, is zero exactly when every digit is `0` |
| Page.Upgradable | lakat/bot.py:105-120 | a failed read is always the missing-level failure, the IndexError of `findall(...)[0]` (the digit-limit ValueError of `int()` is not modelled) |
| Page.UpgradableOkIff | lakat/bot.py:105-120 | reading the list succeeds exactly when every construct row's description carries a level; one row without a level fails the whole read |
| Page.UpgradableKeys | lakat/bot.py:105-120 | a successful read has one entry per row name and no other |
| Page.UpgradableKeepsLastRow | lakat/bot.py:111-118 | the entry for a name is built from the last row of that name (later rows overwrite earlier ones), with the level its description carries |
| Page.Strip | lakat/bot.py:80 | `strip()` gives text no longer than the title, empty or starting and ending with a non-space |
| Page.StripShape | lakat/bot.py:80 | `strip()` keeps a slice of the title that is empty or starts and ends with a non-space, with only whitespace before and after it |
| Page.StripEmptyIffAllSpace | lakat/bot.py:80 | stripping leaves nothing exactly when the title is all whitespace |
| Page.StripIsIdempotent | lakat/bot.py:80 | stripping twice is stripping once |
| Page.StripsToIsStrip | lakat/bot.py:80 | the text `strip()` keeps is unique: a slice of the title with only whitespace before and after it, empty or starting and ending with a non-space, is `Strip(title)` and nothing else |
| Page.HabitatName | lakat/bot.py:74-80 | an empty title is an error; otherwise the stored name is the stripped title: the slice after the leading whitespace, followed only by whitespace, with non-space ends (`StripsTo`), already stripped and no longer than the title |
| Page.HabitatKind | lakat/bot.py:88-98 | the kind is the table's entry for the ore-store name, and a name outside the table is the KeyError carrying that name |
| Rules.TargetsFollowOreStore | lakat/bot.py:128-136 | before any kind is known there are no targets; a known ore store gives the castle, fortress or city list of its kind; any other ore store is the KeyError, raised before a list is chosen |
| Rules.ResearchBuildingFor | lakat/bot.py:190-193 | research goes to the Library exactly for a castle, and to the University otherwise |
| Rules.ContainsIffOccurs | lakat/bot.py:164 | `"disabled" in class_value`: the scan finds the word exactly when it occurs at some position of the class text |
| Rules.ClickLowersMeasure | lakat/bot.py:155-174 | under the progress assumption, a click with a free slot on a pending target lowers (free slots, missing levels) |
| Rules.Steps | lakat/bot.py:150-174 | the stepper never ends with "no buildings" or "unknown type", and it returns for busy slots only with two or more upgrades in progress |
| Rules.StepsSkip | lakat/bot.py:151-155 | an absent or already reached target is passed over |
| Rules.StepsStops | lakat/bot.py:156-166 | at the first pending target: two busy slots return with "no free upgrade slots"; a button without class raises; a disabled button returns with "no resource to upgrade" and that name |
| Rules.StepsClick | lakat/bot.py:168-174 | an enabled button is clicked and the upgrade logged at level+1; the stepper then rereads the list and looks at the same target again |
| Rules.StepsClickFails | lakat/bot.py:168-174 | when the list no longer reads after a click, the click stays recorded and the read's failure ends the stepper |
| Rules.StepsClicksAreGuardedAndOrdered | lakat/bot.py:150-168 | every click is for a target that was just read below its level, with a free slot and an enabled button, and clicks follow the target list's priority order |
| Rules.BusySlotsMeanNoClicks | lakat/bot.py:156-159 | with both slots busy nothing is clicked: the stepper returns at the first pending target, and finishes exactly when there is none |
| Rules.SettledTargetsAreSkipped | lakat/bot.py:150-155 | a run of absent or reached targets changes nothing |
| Rules.DisabledButtonEndsStepper | lakat/bot.py:164-166 | a disabled button at the first pending target ends the whole stepper, so later targets are never clicked |
| Rules.Upgrade | lakat/bot.py:138-174 | an empty dictionary logs "no buildings to upgrade" and an empty target list logs "unknown habitat type", both with no clicks; a failed read raises; all clicks are guarded and in priority order; busy slots mean no clicks |
| Rules.UpgradeStartsSteps | lakat/bot.py:138-150 | with buildings and targets present, the stepper starts at the first target |
| Rules.ClimbRaises | lakat/bot.py:168-174 | on a page where each click raises one level, k clicks raise the building k levels and change nothing else the stepper reads |
| Rules.EnabledTargetClimbsOneLevelPerClick | lakat/bot.py:155-174 | on such a page, a listed target with a free slot and an enabled button is clicked once per missing level, at each level in turn, then the stepper moves to the next target |
| Rules.BarracksClimbsTwoLevels | lakat/bot.py:150-174 | targets Barracks 5 then Wall 3, with Barracks listed at level 3: exactly two clicks, on Barracks at levels 3 and 4, then the stepper finishes |
| Rules.MissionDecision | lakat/bot.py:216-233 | missions start exactly when enabled, not under attack and the count is positive; they are skipped for an attack exactly when enabled and under attack; the step is off exactly when disabled |
| Rules.NoMissionsUnderAttack | lakat/bot.py:220-222 | missions never start while under attack |
| Rules.BarterDecision | lakat/bot.py:257-279 | the barter is ordered exactly when the threshold is nonzero, an Ox cart is offered and the amount reaches the threshold; the no-Ox-cart and off outcomes fire exactly on their conditions |
| Rules.LogLineShape | lakat/bot.py:288-291 | a prefixed line's `[...]` tag is the habitat kind's value (empty before any kind), then the habitat name and `: `; a bare line is the message, and every line ends with its message |
| Rules.HabitatLines | lakat/bot.py:288-291 | the lines logged for messages are, one for one, the prefixed lines of those messages |
| Rules.Next | lakat/bot.py:176-178 | on one of n habitats the arrow goes to (c + 1) mod n: it stays among the habitats and wraps from the last to the first |
| Rules.PosInOneRound | lakat/bot.py:176-178 | within one round, the arrow walk from `start` is at `start + j`, wrapped around once |
| Rules.WalkVisitsDistinct | lakat/bot.py:176-178 | fewer than n steps never show the same habitat twice, and n steps return to the start |
| Rules.WalkIsDistinct | lakat/bot.py:303-314 | the habitats one run visits are pairwise different |
| Rules.ReturnStep | lakat/bot.py:303-314 | the loop body runs at least once and at most once per habitat, and stops at the first step k ≥ 1 whose habitat has the first habitat's stripped name |
| Rules.DistinctNamesVisitAll | lakat/bot.py:303-314 | with pairwise different names, every habitat is visited exactly once |
| Rules.OneHabitatRunsOnce | lakat/bot.py:303-314 | with a single habitat, the loop body runs once |
| Rules.WalkStep | lakat/bot.py:310-314 | one more pass moves the arrow on, and a name other than the first means the walk has not yet come back |
| Cycle.VisitStoresKind | lakat/bot.py:305-306 | an unknown ore store fails the pass with the KeyError and changes nothing; a known one stores its kind, and the pass then fails exactly when the upgrade stepper raised, with that failure |
| Cycle.VisitKeepsHabitats | lakat/bot.py:305-307 | a pass changes only the building list on screen: an unknown ore store leaves the page as it was, and otherwise the page is the old page with the stepper's final list in place of the on-screen list, so every other habitat, every title, ore store and research flag and the account-wide values stay |
| Cycle.VisitAddsHabitatWork | lakat/bot.py:305-307 | a pass only appends to the log and the clicks, and every click it adds is made inside the habitat on screen |
| Cycle.ResearchFollowsUpgrade | lakat/bot.py:305-307 | a pass opens the research building exactly when it succeeds, and no upgrade click comes after that |
| Cycle.MoveOn | lakat/bot.py:310-314 | after a successful visit the arrow moves to the next habitat and the stored name becomes its stripped title; the loop ends exactly when that is the first name; the move fails exactly when the next habitat's title is empty, with the no-name failure; a failed visit is passed on unchanged; the log and clicks stay |
| Cycle.NextOnWalk | lakat/bot.py:310-314 | the arrow's next habitat is the walk's next step, and its name is the first name exactly at step `ReturnStep` |
| Cycle.MoveOnFollowsWalk | lakat/bot.py:310-314 | after step `passes` of the walk a successful move is at step `passes + 1`, and it ends the loop exactly when that step is `ReturnStep` |
| Cycle.PassStep | lakat/bot.py:304-314 | a pass ends the loop only when it succeeded |
| Cycle.PassExtends | lakat/bot.py:304-314 | a pass keeps the habitat names and account-wide values, and adds log lines and clicks inside the habitat on screen only |
| Cycle.PassFollowsWalk | lakat/bot.py:303-314 | pass `passes` keeps the names; when it succeeds the arrow is one step further along the walk, and the loop ends exactly at step `ReturnStep` |
| Cycle.LoopExtends | lakat/bot.py:303-314 | the habitat loop keeps the habitat names and account-wide values, keeps the old log and clicks, and adds clicks only inside the habitats of the walk's first `ReturnStep` steps |
| Cycle.LoopReturns | lakat/bot.py:303-314 | a successful habitat loop ends with the arrow at step `ReturnStep` of the walk, the habitat whose name is the first one |
| Cycle.MissionsThenBarter | lakat/bot.py:316-317 | the mission step and then the barter step add exactly the clicks and lines their gates decide, missions first |
| Cycle.SessionClicks | lakat/bot.py:296-319 | a session keeps the old clicks and adds clicks inside habitats of the walk. When it succeeds, it ends with exactly the mission click and then the barter click that the gates decide on the account-wide values at the start. A failed session adds neither |
| Cycle.SessionLog | lakat/bot.py:296-319 | a session keeps the old log lines, and when it succeeds its log ends with the mission step's lines and then the barter step's lines |
| Cycle.SessionReturnsToFirstName | lakat/bot.py:300-314 | a session keeps the habitat names, and a successful one leaves the arrow where the walk returns to the first name |
| Bot.Lakat.constructor | lakat/bot.py:26-34 | a new bot has an empty habitat name, no habitat kind, an empty log and no clicks |
| Bot.Lakat.Log | lakat/bot.py:288-291 | appends exactly one line, prefixed with `[kind]name: ` when asked, and changes nothing else |
| Bot.Lakat.UpdateActiveHabitatName | lakat/bot.py:74-80 | stores the stripped title of the habitat on screen, or fails on an empty title and leaves the stored name as it was |
| Bot.Lakat.UpdateHabitatType | lakat/bot.py:88-98 | stores the kind told by the ore store, or fails with the KeyError and leaves the stored kind as it was |
| Bot.Lakat.UpgradableBuildings | lakat/bot.py:105-120 | the row-by-row loop builds exactly the dictionary `Upgradable` describes, or fails as it does |
| Bot.Lakat.ClickUpgrade | lakat/bot.py:168 | the click is recorded, and the building list on screen becomes the page's answer to the click; nothing else on the page changes |
| Bot.Lakat.UpgradeStep | lakat/bot.py:155-174 | one pass of the inner loop is the stepper's next move: a stop with its log line, or a click after which the stepper continues from the reread list with a smaller measure |
| Bot.Lakat.UpgradeClick | lakat/bot.py:168-174 | the click, its log line and the reread are what the stepper prescribes |
| Bot.Lakat.UpgradeTarget | lakat/bot.py:150-174 | the inner `while` for one target performs the stepper at that target, then either stops as the stepper stops or moves on to the next target |
| Bot.Lakat.DoUpgrade | lakat/bot.py:138-174 | `do_upgrade` leaves the building list, the clicks, the prefixed log lines and the raised failure of `Upgrade` on the same list and targets |
| Bot.Lakat.DoResearch | lakat/bot.py:190-214 | opens the research building for the kind, and orders research, logging it, exactly when none runs and an option is enabled |
| Bot.Lakat.VisitHabitat | lakat/bot.py:305-307 | `update_habitat_type`, `do_upgrade` and `do_research` leave exactly the outcome and state of `Cycle.Visit`. An unknown ore store fails with nothing changed. Otherwise the kind is stored and the stepper's lines and clicks are appended. Unless the stepper raised, the research clicks follow |
| Bot.Lakat.SelectNextHabitat | lakat/bot.py:176-178 | the arrow moves to the next habitat, and from the last one to the first |
| Bot.Lakat.DoSendToMissions | lakat/bot.py:216-236 | clicks and logs exactly as `MissionDecision` decides, with no habitat prefix |
| Bot.Lakat.DoSilverBarter | lakat/bot.py:252-282 | clicks and logs exactly as `BarterDecision` decides, with no habitat prefix |
| Bot.Lakat.HabitatPass | lakat/bot.py:304-314 | one pass of the loop body leaves exactly the outcome, state and end flag of `Cycle.PassStep` |
| Bot.Lakat.VisitAll | lakat/bot.py:303-314 | the `while True` loop leaves exactly the outcome and state of `Cycle.Loop` from pass 0, which passes until a pass fails or step `ReturnStep` is reached |
| Bot.Lakat.Run | lakat/bot.py:300-317 | a session leaves exactly the outcome and state of `Cycle.Session`. An empty first title fails at once. Otherwise the first name is noted and the habitat loop runs. The mission and barter steps follow only when the loop succeeded |

## Left out

- Login, logout, `close_popup`, screenshots and the `__main__` scheduler:
  these are browser and process I/O. The model starts from a page that is
  already loaded.
- Selectors, waits and timeouts: the page is a value, and the bot reads it
  directly.
- A click on a building row is modelled by the `click` parameter, a function
  from the building list and the building name to the new list. Research,
  mission and barter clicks are recorded in `actions` but do not change the
  page. Time-driven page changes are not modelled.
- `active_upgrades_count` is the `inProgress` field of the building list.
- The button's class attribute is a string. A missing attribute and an empty
  one are both the empty string, which is what `not class_value` tests.
- Bot.Lakat.DoUpgrade: it terminates only under the assumption
  `Progressive(PageRead, click)` on the page's answer to clicks. The source
  would loop forever on a page that never advances.
- Constants.DigitsValue: it is Python's `int()` without the 4300-digit
  limit of Python 3.11 and later, which raises ValueError on a longer
  digit run. Levels are never that long on a real page.
- Constants.DecimalTextRoundTrip: it holds for every n. In Python 3.11 and
  later `int()` raises instead for n of more than 4300 digits, because of
  that digit limit.
- Constants.LevelFoundAfter: the round trip assumes `int()` without the
  4300-digit limit. Python 3.11 and later raise ValueError past it.
- Page.Upgradable: a level of more than 4300 digits parses in the model. In
  Python 3.11 and later, `int()` raises ValueError on it, so
  `upgradable_buildings` would fail.
- Rules.UpgradingMessage: the level is written as decimal text of any
  length. In Python 3.11 and later, formatting a level of more than 4300
  digits raises ValueError.
- Constants.ParseLevelMeaning: the value is `int()` without the 4300-digit
  limit described above.
- Constants.ParseLevelMeaning: `\d` is ASCII `0`–`9`. Python's `\d` also
  matches other Unicode decimal digits.
- Bot.Lakat.DoSendToMissions: the habitat count is taken as an integer. The
  ValueError of `int()` on text that is not a number is not modelled.
- Bot.Lakat.DoSilverBarter: the amount is taken as an integer and logged as
  its decimal text rather than the raw page text. The ValueError of `int()`
  is not modelled.
- Bot.Lakat.DoResearch: which research option is offered is a single flag,
  and failures of the research click are not modelled.
- `click_building_list` (lakat/bot.py:304 and 308): it opens and closes
  the building list in the browser. The model reads the list directly, so
  this step has no effect on its state.
- `mass_function_select_all_habitats`: a browser-only step with no effect on
  the model's state.
- `SECOND`, `MINUTE` and `SERVER_URL`: they only serve browser timing and
  navigation.
- Logging goes to `log`, a list of lines. The logger's own formatting is
  not modelled.
