/** The decision rules of the bot (lakat/bot.py) stated as functions on page
    values: which target list a habitat gets, the greedy upgrade stepper,
    the research building, the mission and silver-barter gates, the log
    prefix and where the habitat walk stops. The class in module Bot runs
    these rules step by step against the page and is proved to agree with
    them. */
module Rules {
  import opened Wrappers
  import opened Constants
  import opened Config
  import opened Page

  // ---------------------------------------------------------------------
  // Target list and research building

  /** The upgrade targets for the active habitat kind; no kind (the initial
      empty value) gives no targets. */
  function HabitatUpgrades(config: AccountConfig, kind: Option<HabitatType>): (r: seq<Building>)
  {
    match kind
    case Some(Castle) => config.castle.upgrades
    case Some(Fortress) => config.fortress.upgrades
    case Some(City) => config.city.upgrades
    case None => []
  }

  /** The targets a habitat gets are the configured list of the kind its ore
      store names. An ore store outside the table raises (the KeyError of
      `update_habitat_type`) before any list is chosen, and before the
      first kind is known the list is empty. */
  lemma TargetsFollowOreStore(config: AccountConfig, oreStoreName: string)
    ensures HabitatUpgrades(config, None) == []
    ensures match HabitatKind(oreStoreName)
      case Ok(kind) => HabitatUpgrades(config, Some(kind)) ==
        if oreStoreName == "Ore store" then config.castle.upgrades
        else if oreStoreName == "Ore Storage" then config.fortress.upgrades
        else config.city.upgrades
      case Err(e) =>
        e == UnknownOreStore(oreStoreName)
        && oreStoreName != "Ore store" && oreStoreName != "Ore Storage" && oreStoreName != "Ore Depot"
  {
  }

  /** Research is ordered in the Library of a castle and in the University
      of every other habitat (and before any kind is known). */
  function ResearchBuildingFor(kind: Option<HabitatType>): (r: ResearchBuilding)
    ensures r == Library <==> kind == Some(Castle)
    ensures r == University <==> kind != Some(Castle)
  {
    if kind == Some(Castle) then Library else University
  }

  // ---------------------------------------------------------------------
  // The upgrade stepper

  /** At most this many upgrades may run at once. */
  const SlotLimit := 2

  /** Python's `sub in s` on strings. */
  predicate Contains(s: string, sub: string)
    decreases |s|
  {
    |sub| <= |s| && (s[..|sub|] == sub || Contains(s[1..], sub))
  }

  /** `sub` occurs in `s` at position `i`. */
  predicate OccursAt(s: string, sub: string, i: nat) {
    i + |sub| <= |s| && s[i..i + |sub|] == sub
  }

  /** The scan of `Contains` finds `sub` exactly when it occurs somewhere. */
  lemma {:induction false} ContainsIffOccurs(s: string, sub: string)
    ensures Contains(s, sub) <==> exists i: nat :: OccursAt(s, sub, i)
    decreases |s|
  {
    if |sub| <= |s| && s[..|sub|] != sub {
      if |s| > 0 {
        ContainsIffOccurs(s[1..], sub);
        if Contains(s[1..], sub) {
          var i: nat :| OccursAt(s[1..], sub, i);
          assert s[i + 1..i + 1 + |sub|] == s[1..][i..i + |sub|];
          assert OccursAt(s, sub, i + 1);
        }
        if i: nat :| OccursAt(s, sub, i) {
          assert i != 0;
          assert s[1..][i - 1..i - 1 + |sub|] == s[i..i + |sub|];
          assert OccursAt(s[1..], sub, i - 1);
        }
      }
    } else if |sub| <= |s| {
      assert OccursAt(s, sub, 0);
    }
  }

  /** One upgrade click and what the stepper had just read before making it:
      the index of the target in the list, the building's name and level, the
      target level, the number of upgrades in progress and the class of the
      upgrade button. */
  datatype ClickEvent = ClickEvent(
    target: nat,
    name: string,
    level: nat,
    goal: int,
    inProgress: nat,
    buttonClass: string)

  /** How a run of the stepper ended (every end is a plain return in the
      source except `Raised`, which is an exception). */
  datatype UpgradeEnd =
    | Finished              // every target was handled
    | NoBuildings           // nothing upgradable on the page
    | UnknownType           // no targets for this habitat kind
    | NoFreeSlots           // both upgrade slots were busy
    | NoResource(name: string)  // the button of this target was disabled
    | Raised(failure: Failure)

  /** A run of the stepper: the building list it leaves, its clicks in order,
      the messages it logged and how it ended. */
  datatype UpgradeRun = UpgradeRun(list: BuildingList, clicks: seq<ClickEvent>, messages: seq<string>, end: UpgradeEnd)

  function Prepend(clicks: seq<ClickEvent>, messages: seq<string>, r: UpgradeRun): UpgradeRun {
    r.(clicks := clicks + r.clicks, messages := messages + r.messages)
  }

  lemma AppendAssociates<T>(a: seq<T>, b: seq<T>, c: seq<T>)
    ensures a + b + c == a + (b + c)
  {
  }

  /** Prepending in two steps is prepending the concatenations. */
  lemma PrependTwice(c1: seq<ClickEvent>, m1: seq<string>, c2: seq<ClickEvent>, m2: seq<string>, r: UpgradeRun)
    ensures Prepend(c1, m1, Prepend(c2, m2, r)) == Prepend(c1 + c2, m1 + m2, r)
  {
    assert c1 + (c2 + r.clicks) == c1 + c2 + r.clicks;
    assert m1 + (m2 + r.messages) == m1 + m2 + r.messages;
  }

  const NoBuildingsMessage := "no buildings to upgrade"
  const UnknownTypeMessage := "unknown habitat type"
  const NoFreeSlotsMessage := "no free upgrade slots"

  function NoResourceMessage(name: string): string {
    "no resource to upgrade " + name
  }

  function UpgradingMessage(p: ParsedBuilding): string {
    "upgrading " + p.name + " to level " + DecimalText(p.level + 1)
  }

  /** How the page answers an upgrade click on the named building: the
      building list after the click. */
  type ClickResponse = (BuildingList, string) -> BuildingList

  /** How the stepper reads a building list into the dictionary of
      upgradable buildings. The bot reads with `Upgradable`; the stepper's
      rules hold for any reader. */
  type Reader = BuildingList -> Result<map<string, ParsedBuilding>, Failure>

  /** The level of a named building in a building list, if the list reads
      without error and holds the building. */
  function LevelOf(read: Reader, b: BuildingList, name: string): Option<nat> {
    match read(b)
    case Ok(m) => if name in m then Some(m[name].level) else None
    case Err(_) => None
  }

  /** The termination assumption: clicking a building that is on the list
      never lowers the number of upgrades in progress, and when it does not
      raise it, the building's level rises or the building leaves the list
      (or the list no longer reads). The source's loop has no bound of its
      own; on a page that ignored clicks it would spin. */
  predicate ClickAdvances(read: Reader, b: BuildingList, name: string, b': BuildingList) {
    LevelOf(read, b, name).Some? ==>
      b.inProgress <= b'.inProgress
      && (b.inProgress < b'.inProgress || LevelOf(read, b', name).None? || LevelOf(read, b', name).value > LevelOf(read, b, name).value)
  }

  ghost predicate Progressive(read: Reader, click: ClickResponse) {
    forall b, name :: ClickAdvances(read, b, name, click(b, name))
  }

  /** Free upgrade slots. */
  function Slack(b: BuildingList): nat {
    if b.inProgress < SlotLimit then SlotLimit - b.inProgress else 0
  }

  /** Levels still missing to reach a target. */
  function Gap(read: Reader, b: BuildingList, t: Building): nat {
    match LevelOf(read, b, t.name)
    case Some(level) => if level < t.level then t.level - level else 0
    case None => 0
  }

  /** A click on a pending target with a free slot makes progress: a slot
      fills, or the slots stay and the target's missing levels shrink. */
  lemma ClickLowersMeasure(read: Reader, b: BuildingList, m: map<string, ParsedBuilding>, t: Building, b': BuildingList)
    requires read(b) == Ok(m) && t.name in m && m[t.name].level < t.level && b.inProgress < SlotLimit
    requires ClickAdvances(read, b, t.name, b')
    ensures Slack(b') < Slack(b) || (Slack(b') == Slack(b) && Gap(read, b', t) < Gap(read, b, t))
  {
  }

  /** The target is on the list and below its level: the stepper would click
      it (guards permitting). */
  predicate Pending(m: map<string, ParsedBuilding>, t: Building) {
    t.name in m && m[t.name].level < t.level
  }

  /** The stepper from target `i` on, with `m` the dictionary last read from
      the building list `b`: skip targets that are absent or reached; for the
      first pending one return when both slots are busy, fail when the button
      has no class, return when it is disabled, and otherwise click, re-read
      the whole list and look at the same target again. */
  function Steps(read: Reader, b: BuildingList, m: map<string, ParsedBuilding>, targets: seq<Building>, i: nat, click: ClickResponse): (r: UpgradeRun)
    requires Progressive(read, click)
    requires i <= |targets|
    requires read(b) == Ok(m)
    ensures !r.end.NoBuildings? && !r.end.UnknownType?
    ensures r.end.NoFreeSlots? ==> r.list.inProgress >= SlotLimit
    decreases |targets| - i, Slack(b), if i < |targets| then Gap(read, b, targets[i]) else 0
  {
    if i == |targets| then UpgradeRun(b, [], [], Finished)
    else
      var t := targets[i];
      if !Pending(m, t) then Steps(read, b, m, targets, i + 1, click)
      else if b.inProgress >= SlotLimit then UpgradeRun(b, [], [NoFreeSlotsMessage], NoFreeSlots)
      else
        var p := m[t.name];
        if p.buttonClass == "" then UpgradeRun(b, [], [], Raised(NoButtonStatus))
        else if Contains(p.buttonClass, "disabled") then
          UpgradeRun(b, [], [NoResourceMessage(t.name)], NoResource(t.name))
        else
          var b' := click(b, t.name);
          var event := ClickEvent(i, t.name, p.level, t.level, b.inProgress, p.buttonClass);
          match read(b')
          case Err(e) => UpgradeRun(b', [event], [UpgradingMessage(p)], Raised(e))
          case Ok(m') =>
            assert ClickAdvances(read, b, t.name, b');
            Prepend([event], [UpgradingMessage(p)], Steps(read, b', m', targets, i, click))
  }

  /** What the source promises of every click: it is for a target of the
      list, on a building that was just read below the target level, with a
      free slot and an enabled button. */
  predicate ClickGuarded(targets: seq<Building>, e: ClickEvent) {
    e.target < |targets| && targets[e.target].name == e.name && targets[e.target].level == e.goal
    && e.level < e.goal && e.inProgress < SlotLimit
    && e.buttonClass != "" && !Contains(e.buttonClass, "disabled")

  }
  /** Unfolding the stepper at a target that is absent or reached: it moves
      on to the next target. */
  lemma StepsSkip(read: Reader, b: BuildingList, m: map<string, ParsedBuilding>, targets: seq<Building>, i: nat, click: ClickResponse)
    requires Progressive(read, click)
    requires i < |targets|
    requires read(b) == Ok(m)
    requires !Pending(m, targets[i])
    ensures Steps(read, b, m, targets, i, click) == Steps(read, b, m, targets, i + 1, click)
  {
  }

  /** Unfolding the stepper at a click: the click is recorded with its
      message, and the stepper looks at the same target on the list the
      click left. */
  lemma StepsClick(read: Reader, b: BuildingList, m: map<string, ParsedBuilding>, targets: seq<Building>, i: nat, click: ClickResponse)
    requires Progressive(read, click)
    requires i < |targets|
    requires read(b) == Ok(m)
    requires Pending(m, targets[i]) && b.inProgress < SlotLimit
    requires m[targets[i].name].buttonClass != "" && !Contains(m[targets[i].name].buttonClass, "disabled")
    requires read(click(b, targets[i].name)).Ok?
    ensures var t := targets[i];
      var p := m[t.name];
      var b' := click(b, t.name);
      Steps(read, b, m, targets, i, click)
        == Prepend([ClickEvent(i, t.name, p.level, t.level, b.inProgress, p.buttonClass)], [UpgradingMessage(p)],
                   Steps(read, b', read(b').value, targets, i, click))
  {
  }

  /** Unfolding the stepper at a pending target where it stops: both slots
      busy, a button without class, or a disabled button. */
  lemma StepsStops(read: Reader, b: BuildingList, m: map<string, ParsedBuilding>, targets: seq<Building>, i: nat, click: ClickResponse)
    requires Progressive(read, click)
    requires i < |targets|
    requires read(b) == Ok(m)
    requires Pending(m, targets[i])
    ensures b.inProgress >= SlotLimit ==>
      Steps(read, b, m, targets, i, click) == UpgradeRun(b, [], [NoFreeSlotsMessage], NoFreeSlots)
    ensures b.inProgress < SlotLimit && m[targets[i].name].buttonClass == "" ==>
      Steps(read, b, m, targets, i, click) == UpgradeRun(b, [], [], Raised(NoButtonStatus))
    ensures (b.inProgress < SlotLimit && m[targets[i].name].buttonClass != ""
             && Contains(m[targets[i].name].buttonClass, "disabled")) ==>
      Steps(read, b, m, targets, i, click) == UpgradeRun(b, [], [NoResourceMessage(targets[i].name)], NoResource(targets[i].name))
  {
  }

  /** Unfolding the stepper at a click after which the list no longer reads:
      the click is recorded with its message and the read failure ends the
      stepper. */
  lemma StepsClickFails(read: Reader, b: BuildingList, m: map<string, ParsedBuilding>, targets: seq<Building>, i: nat, click: ClickResponse)
    requires Progressive(read, click)
    requires i < |targets|
    requires read(b) == Ok(m)
    requires Pending(m, targets[i]) && b.inProgress < SlotLimit
    requires m[targets[i].name].buttonClass != "" && !Contains(m[targets[i].name].buttonClass, "disabled")
    requires read(click(b, targets[i].name)).Err?
    ensures var t := targets[i];
      var p := m[t.name];
      var b' := click(b, t.name);
      Steps(read, b, m, targets, i, click)
        == UpgradeRun(b', [ClickEvent(i, t.name, p.level, t.level, b.inProgress, p.buttonClass)], [UpgradingMessage(p)],
                      Raised(read(b').error))
  {
  }

  /** Every click of the stepper is guarded, and the clicks follow the
      priority order of the targets: all clicks for one target come before
      any click for a later one. */
  lemma {:induction false} StepsClicksAreGuardedAndOrdered(
    read: Reader, b: BuildingList, m: map<string, ParsedBuilding>, targets: seq<Building>, i: nat, click: ClickResponse)
    requires Progressive(read, click)
    requires i <= |targets|
    requires read(b) == Ok(m)
    ensures var r := Steps(read, b, m, targets, i, click);
      (forall k :: 0 <= k < |r.clicks| ==> i <= r.clicks[k].target && ClickGuarded(targets, r.clicks[k]))
      && (forall j, k :: 0 <= j < k < |r.clicks| ==> r.clicks[j].target <= r.clicks[k].target)
    decreases |targets| - i, Slack(b), if i < |targets| then Gap(read, b, targets[i]) else 0
  {
    if i < |targets| {
      var t := targets[i];
      if !Pending(m, t) {
        StepsSkip(read, b, m, targets, i, click);
        StepsClicksAreGuardedAndOrdered(read, b, m, targets, i + 1, click);
      } else if b.inProgress < SlotLimit {
        var p := m[t.name];
        if p.buttonClass != "" && !Contains(p.buttonClass, "disabled") {
          var b' := click(b, t.name);
          if read(b').Ok? {
            assert ClickAdvances(read, b, t.name, b');
            StepsClick(read, b, m, targets, i, click);
            StepsClicksAreGuardedAndOrdered(read, b', read(b').value, targets, i, click);
          }
        }
      }
    }
  }

  /** With both slots busy the stepper clicks nothing, for any target, and
      either returns at the first pending target or runs out of targets. */
  lemma {:induction false} BusySlotsMeanNoClicks(
    read: Reader, b: BuildingList, m: map<string, ParsedBuilding>, targets: seq<Building>, i: nat, click: ClickResponse)
    requires Progressive(read, click)
    requires i <= |targets|
    requires read(b) == Ok(m)
    requires b.inProgress >= SlotLimit
    ensures var r := Steps(read, b, m, targets, i, click);
      r.clicks == [] && r.list == b
      && (r.end == NoFreeSlots <==> exists j :: i <= j < |targets| && Pending(m, targets[j]))
      && (r.end == Finished <==> forall j :: i <= j < |targets| ==> !Pending(m, targets[j]))
    decreases |targets| - i
  {
    if i < |targets| && !Pending(m, targets[i]) {
      StepsSkip(read, b, m, targets, i, click);
      BusySlotsMeanNoClicks(read, b, m, targets, i + 1, click);
    }
  }

  /** Targets that are absent or already reached are passed over without
      effect. */
  lemma {:induction false} SettledTargetsAreSkipped(
    read: Reader, b: BuildingList, m: map<string, ParsedBuilding>, targets: seq<Building>, i: nat, k: nat, click: ClickResponse)
    requires Progressive(read, click)
    requires i <= k <= |targets|
    requires read(b) == Ok(m)
    requires forall j :: i <= j < k ==> !Pending(m, targets[j])
    ensures Steps(read, b, m, targets, i, click) == Steps(read, b, m, targets, k, click)
    decreases k - i
  {
    if i < k {
      StepsSkip(read, b, m, targets, i, click);
      SettledTargetsAreSkipped(read, b, m, targets, i + 1, k, click);
    }
  }

  /** A disabled button ends the whole stepper: when the first pending
      target's button is disabled, no target is clicked, not even a later
      one whose button is enabled. */
  lemma DisabledButtonEndsStepper(
    read: Reader, b: BuildingList, m: map<string, ParsedBuilding>, targets: seq<Building>, i: nat, k: nat, click: ClickResponse)
    requires Progressive(read, click)
    requires i <= k < |targets|
    requires read(b) == Ok(m)
    requires forall j :: i <= j < k ==> !Pending(m, targets[j])
    requires Pending(m, targets[k]) && b.inProgress < SlotLimit
    requires m[targets[k].name].buttonClass != "" && Contains(m[targets[k].name].buttonClass, "disabled")
    ensures Steps(read, b, m, targets, i, click)
      == UpgradeRun(b, [], [NoResourceMessage(targets[k].name)], NoResource(targets[k].name))
  {
    SettledTargetsAreSkipped(read, b, m, targets, i, k, click);
  }

  /** The stepper on a fresh page: nothing upgradable comes first, then an
      empty target list, then the stepper proper, whose clicks are guarded
      and in priority order, and which clicks nothing when both slots are
      busy. */
  function Upgrade(read: Reader, b: BuildingList, targets: seq<Building>, click: ClickResponse): (r: UpgradeRun)
    requires Progressive(read, click)
    ensures r.end == NoBuildings <==> read(b) == Ok(map[])
    ensures r.end == NoBuildings ==> r.clicks == [] && r.messages == [NoBuildingsMessage]
    ensures r.end == UnknownType <==> read(b).Ok? && read(b).value != map[] && targets == []
    ensures r.end == UnknownType ==> r.clicks == [] && r.messages == [UnknownTypeMessage]
    ensures read(b).Err? ==> r.clicks == [] && r.end == Raised(read(b).error)
    ensures forall k :: 0 <= k < |r.clicks| ==> ClickGuarded(targets, r.clicks[k])
    ensures forall j, k :: 0 <= j < k < |r.clicks| ==> r.clicks[j].target <= r.clicks[k].target
    ensures b.inProgress >= SlotLimit ==> r.clicks == []
  {
    match read(b)
    case Err(e) => UpgradeRun(b, [], [], Raised(e))
    case Ok(m) =>
      if m == map[] then UpgradeRun(b, [], [NoBuildingsMessage], NoBuildings)
      else if targets == [] then UpgradeRun(b, [], [UnknownTypeMessage], UnknownType)
      else
        StepsClicksAreGuardedAndOrdered(read, b, m, targets, 0, click);
        if b.inProgress >= SlotLimit then
          BusySlotsMeanNoClicks(read, b, m, targets, 0, click);
          Steps(read, b, m, targets, 0, click)
        else
          Steps(read, b, m, targets, 0, click)
  }

  /** The stepper on a fresh page whose list reads with buildings, for a
      known habitat kind: the stepper from the first target. */
  lemma UpgradeStartsSteps(read: Reader, b: BuildingList, targets: seq<Building>, click: ClickResponse)
    requires Progressive(read, click)
    requires read(b).Ok? && read(b).value != map[] && targets != []
    ensures Upgrade(read, b, targets, click) == Steps(read, b, read(b).value, targets, 0, click)
  {
  }

  // ---------------------------------------------------------------------
  // A page on which every click raises the level by exactly one

  /** Clicking a listed building raises its level by one and changes nothing
      else the stepper reads. */
  predicate OneLevelUp(read: Reader, b: BuildingList, name: string, b': BuildingList) {
    match read(b)
    case Err(_) => true
    case Ok(m) =>
      name in m ==>
        b'.inProgress == b.inProgress
        && read(b') == Ok(m[name := m[name].(level := m[name].level + 1)])
  }

  ghost predicate RaisesOneLevel(read: Reader, click: ClickResponse) {
    forall b, name :: OneLevelUp(read, b, name, click(b, name))
  }

  /** The building list after `k` clicks on the named building. */
  function Climb(b: BuildingList, name: string, k: nat, click: ClickResponse): BuildingList
    decreases k
  {
    if k == 0 then b else Climb(click(b, name), name, k - 1, click)
  }

  /** Raising a level by one and then by `k - 1` is raising it by `k`. */
  lemma RaiseTwice(m: map<string, ParsedBuilding>, name: string, k: nat)
    requires name in m && k > 0
    ensures var m' := m[name := m[name].(level := m[name].level + 1)];
      m'[name := m'[name].(level := m'[name].level + (k - 1))] == m[name := m[name].(level := m[name].level + k)]
  {
    var q := m[name].(level := m[name].level + k);
    var m' := m[name := m[name].(level := m[name].level + 1)];
    assert m'[name].(level := m'[name].level + (k - 1)) == q;
  }

  lemma RaiseByZero(m: map<string, ParsedBuilding>, name: string)
    requires name in m
    ensures m[name := m[name].(level := m[name].level + 0)] == m
  {
    assert m[name].(level := m[name].level + 0) == m[name];
  }

  /** On such a page, `k` clicks raise the building `k` levels and change
      nothing else the stepper reads. */
  lemma {:induction false} ClimbRaises(read: Reader, b: BuildingList, m: map<string, ParsedBuilding>, name: string, k: nat, click: ClickResponse)
    requires RaisesOneLevel(read, click)
    requires read(b) == Ok(m) && name in m
    ensures Climb(b, name, k, click).inProgress == b.inProgress
    ensures read(Climb(b, name, k, click)) == Ok(m[name := m[name].(level := m[name].level + k)])
    decreases k
  {
    if k > 0 {
      var b' := click(b, name);
      assert OneLevelUp(read, b, name, b');
      var m' := m[name := m[name].(level := m[name].level + 1)];
      ClimbRaises(read, b', m', name, k - 1, click);
      RaiseTwice(m, name, k);
    } else {
      RaiseByZero(m, name);
    }
  }

  /** The clicks that take target `i` from level `from` to `goal`, one level
      at a time. */
  function ClimbEvents(i: nat, name: string, from: nat, goal: int, inProgress: nat, buttonClass: string): (r: seq<ClickEvent>)
    ensures |r| == if from < goal then goal - from else 0
    ensures forall k :: 0 <= k < |r| ==> r[k] == ClickEvent(i, name, from + k, goal, inProgress, buttonClass)
    decreases goal - from
  {
    if from >= goal then [] else [ClickEvent(i, name, from, goal, inProgress, buttonClass)] + ClimbEvents(i, name, from + 1, goal, inProgress, buttonClass)
  }

  /** Levels a parsed building lacks to reach a target. */
  function Missing(p: ParsedBuilding, t: Building): nat {
    if p.level < t.level then t.level - p.level else 0
  }

  /** On a page where each click raises the clicked building by exactly one
      level, a listed target `name` with a free slot and an enabled button is
      clicked exactly once per missing level, at each level in turn, and the
      stepper then goes on to the next target with the building at its
      target level. */
  lemma {:induction false} EnabledTargetClimbsOneLevelPerClick(
    read: Reader, b: BuildingList, m: map<string, ParsedBuilding>, targets: seq<Building>, i: nat, name: string, click: ClickResponse)
    requires Progressive(read, click) && RaisesOneLevel(read, click)
    requires i < |targets| && targets[i].name == name
    requires read(b) == Ok(m)
    requires name in m && b.inProgress < SlotLimit
    requires m[name].buttonClass != "" && !Contains(m[name].buttonClass, "disabled")
    ensures var k := Missing(m[name], targets[i]);
      read(Climb(b, name, k, click)) == Ok(m[name := m[name].(level := m[name].level + k)])
    ensures var p := m[name];
      var k := Missing(p, targets[i]);
      var r := Steps(read, b, m, targets, i, click);
      var r2 := Steps(read, Climb(b, name, k, click), m[name := p.(level := p.level + k)], targets, i + 1, click);
      r.clicks == ClimbEvents(i, name, p.level, targets[i].level, b.inProgress, p.buttonClass) + r2.clicks
      && r.end == r2.end && r.list == r2.list
    decreases Missing(m[name], targets[i])
  {
    var p := m[name];
    var k := Missing(p, targets[i]);
    ClimbRaises(read, b, m, name, k, click);
    if k == 0 {
      RaiseByZero(m, name);
      StepsSkip(read, b, m, targets, i, click);
    } else {
      var b' := click(b, name);
      assert OneLevelUp(read, b, name, b');
      var m' := m[name := p.(level := p.level + 1)];
      StepsClick(read, b, m, targets, i, click);
      EnabledTargetClimbsOneLevelPerClick(read, b', m', targets, i, name, click);
      assert Missing(m'[name], targets[i]) == k - 1;
      RaiseTwice(m, name, k);
      var goal := targets[i].level;
      var e := ClickEvent(i, name, p.level, goal, b.inProgress, p.buttonClass);
      var later := ClimbEvents(i, name, p.level + 1, goal, b.inProgress, p.buttonClass);
      var r2 := Steps(read, Climb(b, name, k, click), m[name := p.(level := p.level + k)], targets, i + 1, click);
      assert Climb(b', name, k - 1, click) == Climb(b, name, k, click);
      assert Steps(read, b', m', targets, i, click).clicks == later + r2.clicks;
      assert ClimbEvents(i, name, p.level, goal, b.inProgress, p.buttonClass) == [e] + later;
      AppendAssociates([e], later, r2.clicks);
    }
  }

  /** Example: targets Barracks to 5 then Wall to 3, only
      Barracks on the list at level 3, no upgrade in progress. Barracks is
      clicked exactly twice, at level 3 and at level 4, Wall is skipped and
      the stepper finishes. */
  lemma BarracksClimbsTwoLevels(read: Reader, b: BuildingList, buttonClass: string, click: ClickResponse)
    requires Progressive(read, click) && RaisesOneLevel(read, click)
    requires b.inProgress == 0
    requires buttonClass != "" && !Contains(buttonClass, "disabled")
    requires read(b) == Ok(map["Barracks" := ParsedBuilding("Barracks", 3, buttonClass)])
    ensures var r := Upgrade(read, b, [Building("Barracks", 5), Building("Wall", 3)], click);
      |r.clicks| == 2 && r.end == Finished
      && r.clicks[0].name == "Barracks" && r.clicks[0].level == 3
      && r.clicks[1].name == "Barracks" && r.clicks[1].level == 4
  {
    var targets := [Building("Barracks", 5), Building("Wall", 3)];
    var m := map["Barracks" := ParsedBuilding("Barracks", 3, buttonClass)];
    EnabledTargetClimbsOneLevelPerClick(read, b, m, targets, 0, "Barracks", click);
    var bc := Climb(b, "Barracks", 2, click);
    var m2 := m["Barracks" := ParsedBuilding("Barracks", 5, buttonClass)];
    assert "Wall" !in m2;
    StepsSkip(read, bc, m2, targets, 1, click);
  }

  // ---------------------------------------------------------------------
  // Mission and silver-barter gates

  datatype MissionOutcome = MissionsOff | UnderAttack | NoMissions | MissionsStarted

  /** The mission gate: missions enabled for the account, then no attack
      indicator, then a positive count of habitats that can go. */
  function MissionDecision(missions: bool, underAttack: bool, count: int): (r: MissionOutcome)
    ensures r == MissionsStarted <==> missions && !underAttack && count > 0
    ensures r == UnderAttack <==> missions && underAttack
    ensures r == MissionsOff <==> !missions
  {
    if !missions then MissionsOff
    else if underAttack then UnderAttack
    else if count > 0 then MissionsStarted
    else NoMissions
  }

  /** Missions never start while the habitat is under attack. */
  lemma NoMissionsUnderAttack(missions: bool, count: int)
    ensures MissionDecision(missions, true, count) != MissionsStarted
  {
  }

  datatype BarterOutcome = BarterOff | NoOxCart | NotEnoughSilver | BarterOrdered

  /** The silver-barter gate: a nonzero threshold, then an Ox cart on offer,
      then a projected amount at least the threshold. */
  function BarterDecision(threshold: int, oxCart: bool, amount: int): (r: BarterOutcome)
    ensures r == BarterOrdered <==> threshold != 0 && oxCart && amount >= threshold
    ensures r == NoOxCart <==> threshold != 0 && !oxCart
    ensures r == BarterOff <==> threshold == 0
  {
    if threshold == 0 then BarterOff
    else if !oxCart then NoOxCart
    else if amount >= threshold then BarterOrdered
    else NotEnoughSilver
  }

  const ResearchOrderedMessage := "research ordered"

  /** What the mission step logs (without the habitat prefix). */
  function MissionMessages(d: MissionOutcome): seq<string> {
    match d
    case MissionsOff => []
    case UnderAttack => ["missions skipped due to 'under attack' status"]
    case NoMissions => ["no available missions"]
    case MissionsStarted => ["missions started"]
  }

  /** What the silver-barter step logs (without the habitat prefix); the
      amount is printed as read. */
  function BarterMessages(d: BarterOutcome, amount: int): seq<string> {
    match d
    case BarterOff => []
    case NoOxCart => ["no Ox-cart found to barter a silver"]
    case NotEnoughSilver => ["no enough expected silver to exchange: " + IntText(amount)]
    case BarterOrdered => ["silver barter ordered"]
  }

  // ---------------------------------------------------------------------
  // Log lines

  /** What the prefix prints for the habitat kind: its value, or nothing
      before the first kind is known. */
  function TypeText(kind: Option<HabitatType>): string {
    match kind
    case Some(k) => k.Value()
    case None => ""
  }

  /** The text of `s` before the first `c` (all of `s` if there is none). */
  function UpTo(s: string, c: char): (r: string)
    ensures |r| <= |s| && r == s[..|r|] && c !in r
  {
    if s == [] || s[0] == c then [] else [s[0]] + UpTo(s[1..], c)
  }

  lemma {:induction false} UpToStopsAtFirst(a: string, c: char, rest: string)
    requires c !in a
    ensures UpTo(a + [c] + rest, c) == a
  {
    if a != [] {
      assert (a + [c] + rest)[1..] == a[1..] + [c] + rest;
      UpToStopsAtFirst(a[1..], c, rest);
    }
  }

  /** The habitat kind a log line names in its `[kind]` prefix. */
  function TagOf(line: string): string {
    if |line| > 0 && line[0] == '[' then UpTo(line[1..], ']') else ""
  }

  /** A log line: with the habitat prefix `[kind]name: ` or the bare
      message. */
  function LogLine(kind: Option<HabitatType>, name: string, message: string, withHabitat: bool): (r: string)
  {
    if withHabitat then "[" + TypeText(kind) + "]" + name + ": " + message else message
  }

  /** A prefixed line names the kind it was written for, then the habitat
      name and `: `; a bare line is the message, and every line ends with
      its message. */
  lemma LogLineShape(kind: Option<HabitatType>, name: string, message: string, withHabitat: bool)
    ensures var line := LogLine(kind, name, message, withHabitat);
      && (!withHabitat ==> line == message)
      && (withHabitat ==> TagOf(line) == TypeText(kind))
      && (withHabitat ==>
            && |line| == |TypeText(kind)| + 2 + |name| + 2 + |message|
            && line[|TypeText(kind)| + 2..|line| - |message|] == name + ": ")
      && |message| <= |line| && line[|line| - |message|..] == message
  {
    if withHabitat {
      var line := LogLine(kind, name, message, withHabitat);
      var tag := "[" + TypeText(kind) + "]";
      var rest := name + ": " + message;
      assert line == tag + (name + ": ") + message;
      assert line[|tag|..|line| - |message|] == name + ": ";
      assert "[" + TypeText(kind) + "]" + name + ": " + message == "[" + (TypeText(kind) + [']'] + rest);
      UpToStopsAtFirst(TypeText(kind), ']', rest);
    }
  }

  /** The lines logged for a list of messages with the habitat prefix. */
  function HabitatLines(kind: Option<HabitatType>, name: string, messages: seq<string>): (r: seq<string>)
    ensures |r| == |messages|
    ensures forall k :: 0 <= k < |r| ==> r[k] == LogLine(kind, name, messages[k], true)
  {
    if messages == [] then []
    else HabitatLines(kind, name, messages[..|messages| - 1]) + [LogLine(kind, name, messages[|messages| - 1], true)]
  }

  /** Logging one more message adds its line at the end. */
  lemma HabitatLinesAppend(kind: Option<HabitatType>, name: string, messages: seq<string>, message: string)
    ensures HabitatLines(kind, name, messages + [message])
      == HabitatLines(kind, name, messages) + [LogLine(kind, name, message, true)]
  {
    assert (messages + [message])[..|messages|] == messages;
  }

  /** The lines of two message lists, one after the other. */
  lemma HabitatLinesConcat(kind: Option<HabitatType>, name: string, m1: seq<string>, m2: seq<string>)
    ensures HabitatLines(kind, name, m1 + m2) == HabitatLines(kind, name, m1) + HabitatLines(kind, name, m2)
  {
  }

  // ---------------------------------------------------------------------
  // The habitat walk

  /** The habitat the next-habitat arrow leads to among `n`: the following
      one, and the first after the last. */
  function Next(c: nat, n: nat): (r: nat)
    ensures c < n ==> r < n && r == (c + 1) % n
  {
    if c + 1 < n then c + 1 else 0
  }

  /** Where the walk is after `j` steps from `start`. */
  function Pos(n: nat, start: nat, j: nat): (r: nat)
    ensures start < n ==> r < n
    decreases j
  {
    if j == 0 then start else Next(Pos(n, start, j - 1), n)
  }

  /** Within one round the walk is `start + j`, wrapped once. */
  lemma {:induction false} PosInOneRound(n: nat, start: nat, j: nat)
    requires start < n && j <= n
    ensures Pos(n, start, j) == if start + j < n then start + j else start + j - n
  {
    if j > 0 {
      PosInOneRound(n, start, j - 1);
    }
  }

  /** Fewer than `n` steps never show the same habitat twice, and `n` steps
      come back to the start. */
  lemma WalkVisitsDistinct(n: nat, start: nat, a: nat, b: nat)
    requires start < n && a < b <= n
    ensures Pos(n, start, a) != Pos(n, start, b) <==> b < n || a > 0
  {
    PosInOneRound(n, start, a);
    PosInOneRound(n, start, b);
  }

  /** The habitats the first `k` steps of the walk start from, in order. */
  function Walk(n: nat, start: nat, k: nat): (r: seq<nat>)
    ensures |r| == k
    ensures forall j :: 0 <= j < k ==> r[j] == Pos(n, start, j)
  {
    if k == 0 then [] else Walk(n, start, k - 1) + [Pos(n, start, k - 1)]
  }

  /** A walk of at most `n` steps works on no habitat twice. */
  lemma WalkIsDistinct(n: nat, start: nat, k: nat)
    requires start < n && k <= n
    ensures forall a, b :: 0 <= a < b < k ==> Walk(n, start, k)[a] != Walk(n, start, k)[b]
  {
    forall a, b | 0 <= a < b < k
      ensures Walk(n, start, k)[a] != Walk(n, start, k)[b]
    {
      WalkVisitsDistinct(n, start, a, b);
    }
  }

  /** The name the walk shows after `j` steps from habitat `start`. */
  function At(names: seq<string>, start: nat, j: nat): string
    requires start < |names|
  {
    names[Pos(|names|, start, j)]
  }

  /** The first step count from `from` on at which the walk shows the name
      it started from. */
  function ReturnStepFrom(names: seq<string>, start: nat, from: nat): (k: nat)
    requires start < |names| && 1 <= from <= |names|
    ensures from <= k <= |names|
    ensures At(names, start, k) == names[start]
    ensures forall j :: from <= j < k ==> At(names, start, j) != names[start]
    decreases |names| - from
  {
    if from == |names| then
      PosInOneRound(|names|, start, from);
      from
    else if At(names, start, from) == names[start] then from
    else ReturnStepFrom(names, start, from + 1)
  }

  /** How many habitats the walk visits: at least one, at most all, and it
      stops at the first step whose name repeats the first name. */
  function ReturnStep(names: seq<string>, start: nat): (k: nat)
    requires start < |names|
    ensures 1 <= k <= |names|
    ensures At(names, start, k) == names[start]
    ensures forall j :: 1 <= j < k ==> At(names, start, j) != names[start]
  {
    ReturnStepFrom(names, start, 1)
  }

  /** When the names are pairwise different the walk visits every habitat
      exactly once. */
  lemma DistinctNamesVisitAll(names: seq<string>, start: nat)
    requires start < |names|
    requires forall a, b :: 0 <= a < b < |names| ==> names[a] != names[b]
    ensures ReturnStep(names, start) == |names|
  {
    var k := ReturnStep(names, start);
    if k < |names| {
      WalkVisitsDistinct(|names|, start, 0, k);
    }
  }

  /** One more step of the walk: it records where it was and moves on; when
      the name it reaches is not the first name, it has not come back yet. */
  lemma WalkStep(names: seq<string>, start: nat, v: nat)
    requires start < |names| && v < ReturnStep(names, start)
    ensures Walk(|names|, start, v + 1) == Walk(|names|, start, v) + [Pos(|names|, start, v)]
    ensures Pos(|names|, start, v + 1) == Next(Pos(|names|, start, v), |names|)
    ensures At(names, start, v + 1) != names[start] ==> v + 1 < ReturnStep(names, start)
  {
  }

  /** With one habitat the loop body runs once. */
  lemma OneHabitatRunsOnce(names: seq<string>)
    requires |names| == 1
    ensures ReturnStep(names, 0) == 1
  {
  }
}
