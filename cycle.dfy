/** One session of the bot (lakat/bot.py:296-319) stated on values: the
    state the bot keeps between steps, the work of one pass on the habitat
    on screen, the habitat loop and the whole session with the mission and
    barter steps after the loop. The class in module Bot performs these
    steps against its fields and is proved to leave exactly the state
    described here. */
module Cycle {
  import opened Wrappers
  import opened Constants
  import opened Config
  import opened Page
  import opened Rules

  /** The clicks that change something in the game, in the order the bot
      makes them; `habitat` is the index of the habitat on screen. */
  datatype Action =
    | UpgradeClicked(habitat: nat, event: ClickEvent)
    | ResearchBuildingOpened(habitat: nat, building: ResearchBuilding)
    | ResearchOrdered(habitat: nat)
    | MissionsSent
    | SilverBartered

  /** The clicks made inside one habitat, as opposed to the account-wide
      mission and barter clicks. */
  predicate InHabitat(a: Action) {
    a.UpgradeClicked? || a.ResearchBuildingOpened? || a.ResearchOrdered?
  }

  /** How the bot reads a building list. */
  function PageRead(b: BuildingList): Result<map<string, ParsedBuilding>, Failure> {
    Upgradable(b.nodes)
  }

  /** The record of a run's upgrade clicks in habitat `h`. */
  function UpgradeActions(h: nat, clicks: seq<ClickEvent>): (r: seq<Action>)
    ensures |r| == |clicks|
    ensures forall k :: 0 <= k < |r| ==> r[k] == UpgradeClicked(h, clicks[k])
  {
    seq(|clicks|, k requires 0 <= k < |clicks| => UpgradeClicked(h, clicks[k]))
  }

  /** The record of two click lists, one after the other. */
  lemma UpgradeActionsConcat(h: nat, c1: seq<ClickEvent>, c2: seq<ClickEvent>)
    ensures UpgradeActions(h, c1 + c2) == UpgradeActions(h, c1) + UpgradeActions(h, c2)
  {
  }

  /** The research step's clicks: the research building is opened, then the
      first enabled option is ordered unless research is already running. */
  function ResearchActions(h: nat, kind: Option<HabitatType>, inProgress: bool, available: bool): seq<Action> {
    [ResearchBuildingOpened(h, ResearchBuildingFor(kind))]
    + (if !inProgress && available then [ResearchOrdered(h)] else [])
  }

  function MissionActions(d: MissionOutcome): seq<Action> {
    if d == MissionsStarted then [MissionsSent] else []
  }

  function BarterActions(d: BarterOutcome): seq<Action> {
    if d == BarterOrdered then [SilverBartered] else []
  }

  /** What the bot holds between steps: the page, the stored habitat name
      and kind, the log and the record of clicks. */
  datatype BotState = BotState(
    page: World,
    name: string,
    kind: Option<HabitatType>,
    log: seq<string>,
    actions: seq<Action>)

  /** How a step ended, and the state it left behind. */
  datatype After = After(outcome: Outcome<Failure>, state: BotState)

  /** The research step on the habitat on screen (lakat/bot.py:190-214). */
  function Research(s: BotState): BotState
    requires s.page.Valid()
  {
    var h := s.page.habitats[s.page.current];
    s.(actions := s.actions + ResearchActions(s.page.current, s.kind, h.researchInProgress, h.researchAvailable),
       log := s.log + if !h.researchInProgress && h.researchAvailable
         then [LogLine(s.kind, s.name, ResearchOrderedMessage, true)] else [])
  }

  /** The work of one pass on the habitat on screen (lakat/bot.py:305-307):
      read the kind from the ore store, run the upgrade stepper with that
      kind's targets, then the research step. An unknown ore store and a
      raised stepper end the pass with their failure, the latter keeping
      what the stepper did before it raised. */
  function Visit(config: AccountConfig, click: ClickResponse, s: BotState): (r: After)
    requires s.page.Valid() && Progressive(PageRead, click)
    ensures r.state.page.Valid() && r.state.page.current == s.page.current
    ensures r.state.name == s.name
  {
    var h := s.page.habitats[s.page.current];
    match HabitatKind(h.oreStoreName)
    case Err(e) => After(Fail(e), s)
    case Ok(kind) =>
      var run := Upgrade(PageRead, h.buildings, HabitatUpgrades(config, Some(kind)), click);
      var s' := s.(page := WithBuildings(s.page, run.list), kind := Some(kind),
                   log := s.log + HabitatLines(Some(kind), s.name, run.messages),
                   actions := s.actions + UpgradeActions(s.page.current, run.clicks));
      if run.end.Raised? then After(Fail(run.end.failure), s') else After(Pass, Research(s'))
  }

  /** A pass changes only the building list on screen: the number of
      habitats, every habitat name and the account-wide values stay. */
  lemma VisitKeepsHabitats(config: AccountConfig, click: ClickResponse, s: BotState)
    requires s.page.Valid() && Progressive(PageRead, click)
    ensures var p := Visit(config, click, s).state.page;
      && |p.habitats| == |s.page.habitats| && Names(p) == Names(s.page)
      && p.underAttack == s.page.underAttack && p.missionCount == s.page.missionCount
      && p.oxCart == s.page.oxCart && p.silverAmount == s.page.silverAmount
    ensures var p := Visit(config, click, s).state.page;
      var h := s.page.habitats[s.page.current];
      match HabitatKind(h.oreStoreName)
      case Err(_) => p == s.page
      case Ok(kind) => p == WithBuildings(s.page, Upgrade(PageRead, h.buildings, HabitatUpgrades(config, Some(kind)), click).list)
  {
    var h := s.page.habitats[s.page.current];
    match HabitatKind(h.oreStoreName)
    case Err(_) =>
    case Ok(kind) =>
      WithBuildingsKeepsNames(s.page, Upgrade(PageRead, h.buildings, HabitatUpgrades(config, Some(kind)), click).list);
  }

  /** A pass only adds: log lines after the old ones, and after the old
      clicks only clicks inside the habitat on screen. */
  lemma VisitAddsHabitatWork(config: AccountConfig, click: ClickResponse, s: BotState)
    requires s.page.Valid() && Progressive(PageRead, click)
    ensures var r := Visit(config, click, s);
      && s.log <= r.state.log && s.actions <= r.state.actions
      && forall k :: |s.actions| <= k < |r.state.actions| ==>
           InHabitat(r.state.actions[k]) && r.state.actions[k].habitat == s.page.current
  {
  }

  /** The habitat kind comes from the ore store's name first: an unknown
      one fails the visit with nothing done, a known one is remembered for
      the rest of the visit and for later log lines. With a known kind the
      visit fails exactly when the upgrade stepper raised, and with its
      failure. */
  lemma VisitStoresKind(config: AccountConfig, click: ClickResponse, s: BotState)
    requires s.page.Valid() && Progressive(PageRead, click)
    ensures var r := Visit(config, click, s);
      var h := s.page.habitats[s.page.current];
      match HabitatKind(h.oreStoreName)
      case Err(e) => r == After(Fail(e), s)
      case Ok(kind) =>
        && r.state.kind == Some(kind)
        && var run := Upgrade(PageRead, h.buildings, HabitatUpgrades(config, Some(kind)), click);
        && (r.outcome.Fail? <==> run.end.Raised?)
        && (run.end.Raised? ==> r.outcome == Fail(run.end.failure))
  {
  }

  /** Research comes after the stepper: a pass opens the research building
      exactly when it succeeds, which needs a known ore store and a stepper
      that did not raise, and no upgrade click follows the research
      building. */
  lemma ResearchFollowsUpgrade(config: AccountConfig, click: ClickResponse, s: BotState)
    requires s.page.Valid() && Progressive(PageRead, click)
    ensures var r := Visit(config, click, s);
      && s.actions <= r.state.actions
      && ResearchLast(r.state.actions[|s.actions|..], r.outcome.Pass?)
  {
    var ups, res := VisitClicks(config, click, s);
    ClicksThenResearch(ups, res);
  }

  /** The clicks of a visit are its upgrade clicks, then, when the upgrade
      step did not raise, the research clicks. */
  lemma VisitClicks(config: AccountConfig, click: ClickResponse, s: BotState) returns (ups: seq<Action>, res: seq<Action>)
    requires s.page.Valid() && Progressive(PageRead, click)
    ensures var r := Visit(config, click, s);
      && r.state.actions == s.actions + (ups + res)
      && (r.outcome.Pass? <==> res != [])
      && (forall k :: 0 <= k < |ups| ==> ups[k].UpgradeClicked?)
      && (res == [] || res[0].ResearchBuildingOpened?)
      && (forall k :: 0 <= k < |res| ==> !res[k].UpgradeClicked?)
  {
    var h := s.page.habitats[s.page.current];
    ups, res := [], [];
    match HabitatKind(h.oreStoreName)
    case Err(e) =>
    case Ok(kind) =>
      var run := Upgrade(PageRead, h.buildings, HabitatUpgrades(config, Some(kind)), click);
      ups := UpgradeActions(s.page.current, run.clicks);
      if !run.end.Raised? {
        var h' := WithBuildings(s.page, run.list).habitats[s.page.current];
        res := ResearchActions(s.page.current, Some(kind), h'.researchInProgress, h'.researchAvailable);
      }
  }

  /** The clicks `t` of a visit open the research building exactly when the
      visit got that far (`reached`), and no upgrade click follows that. */
  ghost predicate ResearchLast(t: seq<Action>, reached: bool) {
    && (reached <==> exists k :: 0 <= k < |t| && t[k].ResearchBuildingOpened?)
    && (forall j, k :: 0 <= j < k < |t| && t[j].ResearchBuildingOpened? ==> !t[k].UpgradeClicked?)
  }

  /** Upgrade clicks followed by research work that starts by opening the
      research building: research is opened exactly when that work is
      there, and no upgrade click comes after it. */
  lemma ClicksThenResearch(ups: seq<Action>, res: seq<Action>)
    requires forall k :: 0 <= k < |ups| ==> ups[k].UpgradeClicked?
    requires res == [] || res[0].ResearchBuildingOpened?
    requires forall k :: 0 <= k < |res| ==> !res[k].UpgradeClicked?
    ensures ResearchLast(ups + res, res != [])
  {
    var t := ups + res;
    if res != [] {
      assert t[|ups|].ResearchBuildingOpened?;
    }
    forall j, k | 0 <= j < k < |t| && t[j].ResearchBuildingOpened?
      ensures !t[k].UpgradeClicked?
    {
      assert j >= |ups|;
      assert t[k] == res[k - |ups|];
    }
  }

  /** `t` follows from `s` by work inside the habitats of `walk`: the
      habitat names and the account-wide values are unchanged, the log only
      grew, and every click added is made inside a habitat of `walk`. */
  ghost predicate Extends(s: BotState, t: BotState, walk: seq<nat>) {
    && Names(t.page) == Names(s.page)
    && t.page.underAttack == s.page.underAttack && t.page.missionCount == s.page.missionCount
    && t.page.oxCart == s.page.oxCart && t.page.silverAmount == s.page.silverAmount
    && s.log <= t.log && s.actions <= t.actions
    && forall k :: |s.actions| <= k < |t.actions| ==> InHabitat(t.actions[k]) && t.actions[k].habitat in walk
  }

  /** Work inside `walk` followed by more work inside `walk` is work inside
      `walk`. */
  lemma ExtendsTwice(s: BotState, t: BotState, u: BotState, walk: seq<nat>)
    requires Extends(s, t, walk) && Extends(t, u, walk)
    ensures Extends(s, u, walk)
  {
    forall k | |s.actions| <= k < |u.actions|
      ensures InHabitat(u.actions[k]) && u.actions[k].habitat in walk
    {
      if k < |t.actions| {
        assert u.actions[k] == t.actions[k];
      }
    }
  }

  /** Work inside the one habitat `h` of a walk is work inside that walk. */
  lemma ExtendsWithin(s: BotState, t: BotState, h: nat, walk: seq<nat>)
    requires Extends(s, t, [h]) && h in walk
    ensures Extends(s, t, walk)
  {
  }

  /** A pass works inside the habitat on screen. */
  lemma VisitExtends(config: AccountConfig, click: ClickResponse, s: BotState)
    requires s.page.Valid() && Progressive(PageRead, click)
    ensures Extends(s, Visit(config, click, s).state, [s.page.current])
  {
    VisitKeepsHabitats(config, click, s);
    VisitAddsHabitatWork(config, click, s);
  }

  /** What a pass does after the work on the habitat: unless that work
      failed, move to the next habitat and read its name. Only the arrow and
      the stored name change; the name is the stripped title of the habitat
      the arrow leads to, the flag says that it is `first`, which ends the
      loop, and an empty title raises. */
  function MoveOn(v: After, first: string): (r: (After, bool))
    requires v.state.page.Valid()
    ensures r.0.state.page.Valid()
    ensures r.0.state.page == v.state.page.(current := r.0.state.page.current)
    ensures r.0.state.log == v.state.log && r.0.state.actions == v.state.actions
    ensures v.outcome.Fail? ==> r == (v, false)
    ensures v.outcome.Pass? ==> r.0.state.page.current == Next(v.state.page.current, |v.state.page.habitats|)
    ensures r.0.outcome.Pass? ==>
      && r.0.state.name == Names(v.state.page)[r.0.state.page.current]
      && (r.1 <==> r.0.state.name == first)
    ensures r.1 ==> r.0.outcome.Pass?
    ensures v.outcome.Pass? ==>
      (r.0.outcome.Fail? <==> v.state.page.habitats[Next(v.state.page.current, |v.state.page.habitats|)].title == "")
    ensures v.outcome.Pass? && r.0.outcome.Fail? ==> r.0.outcome == Fail(NoHabitatName)
  {
    if v.outcome.Fail? then (v, false)
    else
      var p := v.state.page;
      var moved := v.state.(page := p.(current := Next(p.current, |p.habitats|)));
      match HabitatName(moved.page.habitats[moved.page.current].title)
      case Err(e) => (After(Fail(e), moved), false)
      case Ok(name) => (After(Pass, moved.(name := name)), name == first)
  }

  /** Turning the arrow changes no habitat name. */
  lemma NamesIgnoreArrow(w: World, c: nat)
    ensures Names(w.(current := c)) == Names(w)
  {
  }

  /** Moving on from the `passes`-th habitat of the walk from `start`: when
      it succeeds the arrow is one step further along the walk, and the
      loop ends exactly at step ReturnStep(names, start). */
  lemma MoveOnFollowsWalk(v: After, first: string, names: seq<string>, start: nat, passes: nat)
    requires v.state.page.Valid() && Names(v.state.page) == names && start < |names| && first == names[start]
    requires passes < ReturnStep(names, start) && v.state.page.current == Pos(|names|, start, passes)
    ensures var r := MoveOn(v, first);
      r.0.outcome.Pass? ==>
        && r.0.state.page.current == Pos(|names|, start, passes + 1)
        && (r.1 <==> passes + 1 == ReturnStep(names, start))
  {
    NextOnWalk(names, start, passes);
  }

  /** Moving on works inside no habitat at all. */
  lemma MoveOnExtends(v: After, first: string, walk: seq<nat>)
    requires v.state.page.Valid()
    ensures Extends(v.state, MoveOn(v, first).0.state, walk)
  {
    NamesIgnoreArrow(v.state.page, MoveOn(v, first).0.state.page.current);
  }

  /** The arrow's next habitat after step `passes` of the walk is step
      `passes + 1`, and its name is the first name exactly when that step
      is ReturnStep(names, start). */
  lemma NextOnWalk(names: seq<string>, start: nat, passes: nat)
    requires start < |names| && passes < ReturnStep(names, start)
    ensures Next(Pos(|names|, start, passes), |names|) == Pos(|names|, start, passes + 1)
    ensures names[Pos(|names|, start, passes + 1)] == names[start] <==> passes + 1 == ReturnStep(names, start)
  {
    WalkStep(names, start, passes);
    assert At(names, start, passes + 1) == names[Pos(|names|, start, passes + 1)];
  }

  /** `s` is at step `passes` of the walk from habitat `start` over the
      habitat names `names`, before the step at which the walk shows the
      first name `first` again. */
  ghost predicate OnWalk(s: BotState, first: string, names: seq<string>, start: nat, passes: nat) {
    && s.page.Valid() && Names(s.page) == names && start < |names| && first == names[start]
    && passes < ReturnStep(names, start) && s.page.current == Pos(|names|, start, passes)
  }

  /** One pass of the habitat loop (lakat/bot.py:305-314): the work on the
      habitat on screen, then the move to the next habitat. */
  function PassStep(config: AccountConfig, click: ClickResponse, s: BotState, first: string): (r: (After, bool))
    requires s.page.Valid() && Progressive(PageRead, click)
    ensures r.0.state.page.Valid()
    ensures r.1 ==> r.0.outcome.Pass?
  {
    MoveOn(Visit(config, click, s), first)
  }

  /** A pass works inside the habitat on screen: it keeps the habitat names
      and the account-wide values, only adds log lines, and only adds
      clicks inside that habitat. */
  lemma PassExtends(config: AccountConfig, click: ClickResponse, s: BotState, first: string)
    requires s.page.Valid() && Progressive(PageRead, click)
    ensures Extends(s, PassStep(config, click, s, first).0.state, [s.page.current])
  {
    var v := Visit(config, click, s);
    VisitExtends(config, click, s);
    MoveOnExtends(v, first, [s.page.current]);
    ExtendsTwice(s, v.state, MoveOn(v, first).0.state, [s.page.current]);
  }

  /** The `passes`-th pass of the walk from habitat `start`, when it
      succeeds, moves the arrow one step along the walk and ends the loop
      exactly at step ReturnStep(names, start). */
  lemma PassFollowsWalk(config: AccountConfig, click: ClickResponse, s: BotState, first: string,
                        names: seq<string>, start: nat, passes: nat)
    requires Progressive(PageRead, click) && OnWalk(s, first, names, start, passes)
    ensures var r := PassStep(config, click, s, first);
      && Names(r.0.state.page) == names
      && (r.0.outcome.Pass? ==>
            && r.0.state.page.current == Pos(|names|, start, passes + 1)
            && (r.1 <==> passes + 1 == ReturnStep(names, start)))
    ensures var r := PassStep(config, click, s, first);
      r.0.outcome.Pass? && !r.1 ==> OnWalk(r.0.state, first, names, start, passes + 1)
  {
    VisitKeepsHabitats(config, click, s);
    PassExtends(config, click, s, first);
    MoveOnFollowsWalk(Visit(config, click, s), first, names, start, passes);
  }

  /** The habitat loop from the `passes`-th pass of the walk from habitat
      `start` on (lakat/bot.py:303-314): one pass, then `Continue`. */
  function Loop(config: AccountConfig, click: ClickResponse, s: BotState, first: string,
                names: seq<string>, start: nat, passes: nat): (r: After)
    requires Progressive(PageRead, click) && OnWalk(s, first, names, start, passes)
    ensures r.state.page.Valid()
    decreases ReturnStep(names, start) - passes, 1
  {
    PassFollowsWalk(config, click, s, first, names, start, passes);
    Continue(config, click, PassStep(config, click, s, first), first, names, start, passes)
  }

  /** After pass `passes`: the loop stops when the pass failed or read the
      first name again, and otherwise makes the next pass. */
  function Continue(config: AccountConfig, click: ClickResponse, p: (After, bool), first: string,
                    names: seq<string>, start: nat, passes: nat): (r: After)
    requires Progressive(PageRead, click) && p.0.state.page.Valid() && start < |names|
    requires p.0.outcome.Pass? && !p.1 ==> OnWalk(p.0.state, first, names, start, passes + 1)
    ensures r.state.page.Valid()
    decreases ReturnStep(names, start) - passes, 0
  {
    if p.0.outcome.Fail? || p.1 then p.0
    else Loop(config, click, p.0.state, first, names, start, passes + 1)
  }

  /** The habitat loop keeps the habitat names and the account-wide values,
      only adds log lines, and every click it adds is made inside a habitat
      of the walk's first ReturnStep steps, which WalkIsDistinct shows to be
      pairwise different. */
  lemma {:induction false} LoopExtends(config: AccountConfig, click: ClickResponse, s: BotState, first: string,
                                       names: seq<string>, start: nat, passes: nat)
    requires Progressive(PageRead, click) && OnWalk(s, first, names, start, passes)
    ensures Extends(s, Loop(config, click, s, first, names, start, passes).state,
                    Walk(|names|, start, ReturnStep(names, start)))
    decreases ReturnStep(names, start) - passes, 1
  {
    var walk := Walk(|names|, start, ReturnStep(names, start));
    PassFollowsWalk(config, click, s, first, names, start, passes);
    PassExtends(config, click, s, first);
    assert walk[passes] == s.page.current;
    var p := PassStep(config, click, s, first);
    ExtendsWithin(s, p.0.state, s.page.current, walk);
    ContinueExtends(config, click, p, first, names, start, passes);
    ExtendsTwice(s, p.0.state, Continue(config, click, p, first, names, start, passes).state, walk);
  }

  /** What `Continue` adds is work inside the walk. */
  lemma {:induction false} ContinueExtends(config: AccountConfig, click: ClickResponse, p: (After, bool), first: string,
                                           names: seq<string>, start: nat, passes: nat)
    requires Progressive(PageRead, click) && p.0.state.page.Valid() && start < |names|
    requires p.0.outcome.Pass? && !p.1 ==> OnWalk(p.0.state, first, names, start, passes + 1)
    ensures Extends(p.0.state, Continue(config, click, p, first, names, start, passes).state,
                    Walk(|names|, start, ReturnStep(names, start)))
    decreases ReturnStep(names, start) - passes, 0
  {
    if !(p.0.outcome.Fail? || p.1) {
      LoopExtends(config, click, p.0.state, first, names, start, passes + 1);
    }
  }

  /** When the habitat loop succeeds, the arrow stands where the walk from
      `start` returns to the first name. */
  lemma {:induction false} LoopReturns(config: AccountConfig, click: ClickResponse, s: BotState, first: string,
                                       names: seq<string>, start: nat, passes: nat)
    requires Progressive(PageRead, click) && OnWalk(s, first, names, start, passes)
    ensures var r := Loop(config, click, s, first, names, start, passes);
      r.outcome.Pass? ==> r.state.page.current == Pos(|names|, start, ReturnStep(names, start))
    decreases ReturnStep(names, start) - passes, 1
  {
    PassFollowsWalk(config, click, s, first, names, start, passes);
    ContinueReturns(config, click, PassStep(config, click, s, first), first, names, start, passes);
  }

  /** `Continue` succeeds only where the walk returns to the first name. */
  lemma {:induction false} ContinueReturns(config: AccountConfig, click: ClickResponse, p: (After, bool), first: string,
                                           names: seq<string>, start: nat, passes: nat)
    requires Progressive(PageRead, click) && p.0.state.page.Valid() && start < |names|
    requires p.0.outcome.Pass? && !p.1 ==> OnWalk(p.0.state, first, names, start, passes + 1)
    requires p.0.outcome.Pass? && p.1 ==>
      p.0.state.page.current == Pos(|names|, start, passes + 1) && passes + 1 == ReturnStep(names, start)
    ensures var r := Continue(config, click, p, first, names, start, passes);
      r.outcome.Pass? ==> r.state.page.current == Pos(|names|, start, ReturnStep(names, start))
    decreases ReturnStep(names, start) - passes, 0
  {
    if !(p.0.outcome.Fail? || p.1) {
      LoopReturns(config, click, p.0.state, first, names, start, passes + 1);
    }
  }

  /** The mission step (lakat/bot.py:216-236), on no habitat in particular. */
  function Missions(config: AccountConfig, s: BotState): BotState {
    var d := MissionDecision(config.missions, s.page.underAttack, s.page.missionCount);
    s.(actions := s.actions + MissionActions(d), log := s.log + MissionMessages(d))
  }

  /** The silver-barter step (lakat/bot.py:252-282). */
  function Barter(config: AccountConfig, s: BotState): BotState {
    var d := BarterDecision(config.silverBarterThreshold, s.page.oxCart, s.page.silverAmount);
    s.(actions := s.actions + BarterActions(d), log := s.log + BarterMessages(d, s.page.silverAmount))
  }

  /** The mission step and then the barter step add exactly the clicks and
      lines their gates decide. */
  lemma MissionsThenBarter(config: AccountConfig, t: BotState)
    ensures var d := MissionDecision(config.missions, t.page.underAttack, t.page.missionCount);
      var e := BarterDecision(config.silverBarterThreshold, t.page.oxCart, t.page.silverAmount);
      var u := Barter(config, Missions(config, t));
      && u.actions == t.actions + (MissionActions(d) + BarterActions(e))
      && u.log == t.log + (MissionMessages(d) + BarterMessages(e, t.page.silverAmount))
  {
    var d := MissionDecision(config.missions, t.page.underAttack, t.page.missionCount);
    var e := BarterDecision(config.silverBarterThreshold, t.page.oxCart, t.page.silverAmount);
    var m := Missions(config, t);
    assert m.page == t.page;
    assert m.actions == t.actions + MissionActions(d);
    assert m.log == t.log + MissionMessages(d);
  }

  /** What follows the habitat loop (lakat/bot.py:316-317): when it
      succeeded, the mission step and then the silver-barter step. */
  function Finish(config: AccountConfig, a: After): After {
    if a.outcome.Fail? then a else After(Pass, Barter(config, Missions(config, a.state)))
  }

  /** One session (lakat/bot.py:296-319) once logged in: note the name of
      the habitat on screen, run the habitat loop from there, and finish.
      A raised failure ends the session where it happened. */
  function Session(config: AccountConfig, click: ClickResponse, s: BotState): (r: After)
    requires s.page.Valid() && Progressive(PageRead, click)
  {
    match HabitatName(s.page.habitats[s.page.current].title)
    case Err(e) => After(Fail(e), s)
    case Ok(name) =>
      assert OnWalk(s.(name := name), name, Names(s.page), s.page.current, 0);
      Finish(config, Loop(config, click, s.(name := name), name, Names(s.page), s.page.current, 0))
  }

  /** `r` keeps the clicks of `s`, then adds clicks inside habitats of
      `walk` only, and, when it succeeded, ends with exactly the clicks the
      mission gate and then the barter gate decide on the account-wide
      values of `s`. */
  ghost predicate ClicksThenSteps(config: AccountConfig, s: BotState, r: After, walk: seq<nat>) {
    var d := MissionDecision(config.missions, s.page.underAttack, s.page.missionCount);
    var e := BarterDecision(config.silverBarterThreshold, s.page.oxCart, s.page.silverAmount);
    var tail := if r.outcome.Pass? then MissionActions(d) + BarterActions(e) else [];
    && |s.actions| + |tail| <= |r.state.actions|
    && r.state.actions[..|s.actions|] == s.actions
    && r.state.actions[|r.state.actions| - |tail|..] == tail
    && (forall k :: |s.actions| <= k < |r.state.actions| - |tail| ==>
          InHabitat(r.state.actions[k]) && r.state.actions[k].habitat in walk)
  }

  /** `r` keeps the log lines of `s` and, when it succeeded, ends with the
      lines of the mission step and then the barter step on the
      account-wide values of `s`. */
  ghost predicate LinesThenSteps(config: AccountConfig, s: BotState, r: After) {
    var d := MissionDecision(config.missions, s.page.underAttack, s.page.missionCount);
    var e := BarterDecision(config.silverBarterThreshold, s.page.oxCart, s.page.silverAmount);
    var lines := if r.outcome.Pass? then MissionMessages(d) + BarterMessages(e, s.page.silverAmount) else [];
    && |s.log| + |lines| <= |r.state.log|
    && r.state.log[..|s.log|] == s.log
    && r.state.log[|r.state.log| - |lines|..] == lines
  }

  /** After work inside `walk`, finishing adds exactly the mission and
      barter clicks, and only when the work succeeded. */
  lemma FinishClicks(config: AccountConfig, s: BotState, a: After, walk: seq<nat>)
    requires Extends(s, a.state, walk)
    ensures Finish(config, a).outcome == a.outcome
    ensures ClicksThenSteps(config, s, Finish(config, a), walk)
  {
    if a.outcome.Pass? {
      MissionsThenBarter(config, a.state);
      var r := Finish(config, a);
      forall k | |s.actions| <= k < |a.state.actions|
        ensures r.state.actions[k] == a.state.actions[k]
      {
      }
    }
  }

  /** After work that extends `s`, finishing adds exactly the lines of the
      mission and barter steps, and only when the work succeeded. */
  lemma FinishLog(config: AccountConfig, s: BotState, a: After, walk: seq<nat>)
    requires Extends(s, a.state, walk)
    ensures LinesThenSteps(config, s, Finish(config, a))
  {
    if a.outcome.Pass? {
      MissionsThenBarter(config, a.state);
    }
  }

  /** The mission and barter steps run once each, after the habitat loop,
      and only when the loop succeeded: a session adds clicks inside the
      habitats of the walk and then, when it succeeds, exactly the clicks
      the mission gate and the barter gate decide on the account-wide
      values, which the loop leaves as they were. */
  lemma SessionClicks(config: AccountConfig, click: ClickResponse, s: BotState)
    requires s.page.Valid() && Progressive(PageRead, click)
    ensures ClicksThenSteps(config, s, Session(config, click, s),
                            Walk(|s.page.habitats|, s.page.current, ReturnStep(Names(s.page), s.page.current)))
  {
    match HabitatName(s.page.habitats[s.page.current].title)
    case Err(_) =>
    case Ok(name) =>
      var s1 := s.(name := name);
      var walk := Walk(|s.page.habitats|, s.page.current, ReturnStep(Names(s.page), s.page.current));
      assert OnWalk(s1, name, Names(s.page), s.page.current, 0);
      var a := Loop(config, click, s1, name, Names(s.page), s.page.current, 0);
      LoopExtends(config, click, s1, name, Names(s.page), s.page.current, 0);
      assert Extends(s, a.state, walk);
      FinishClicks(config, s, a, walk);
  }

  /** A session's log keeps the old lines and, when the session succeeds,
      ends with the lines of the mission step and then the barter step. */
  lemma SessionLog(config: AccountConfig, click: ClickResponse, s: BotState)
    requires s.page.Valid() && Progressive(PageRead, click)
    ensures LinesThenSteps(config, s, Session(config, click, s))
  {
    match HabitatName(s.page.habitats[s.page.current].title)
    case Err(_) =>
    case Ok(name) =>
      var s1 := s.(name := name);
      var walk := Walk(|s.page.habitats|, s.page.current, ReturnStep(Names(s.page), s.page.current));
      assert OnWalk(s1, name, Names(s.page), s.page.current, 0);
      var a := Loop(config, click, s1, name, Names(s.page), s.page.current, 0);
      LoopExtends(config, click, s1, name, Names(s.page), s.page.current, 0);
      assert Extends(s, a.state, walk);
      FinishLog(config, s, a, walk);
  }

  /** A successful session keeps the habitat names and leaves the arrow
      where the walk from the first habitat returns to its name. */
  lemma SessionReturnsToFirstName(config: AccountConfig, click: ClickResponse, s: BotState)
    requires s.page.Valid() && Progressive(PageRead, click)
    ensures var r := Session(config, click, s);
      && Names(r.state.page) == Names(s.page)
      && (r.outcome.Pass? ==>
            r.state.page.current == Pos(|s.page.habitats|, s.page.current, ReturnStep(Names(s.page), s.page.current)))
  {
    match HabitatName(s.page.habitats[s.page.current].title)
    case Err(_) =>
    case Ok(name) =>
      var s1 := s.(name := name);
      var walk := Walk(|s.page.habitats|, s.page.current, ReturnStep(Names(s.page), s.page.current));
      assert OnWalk(s1, name, Names(s.page), s.page.current, 0);
      LoopExtends(config, click, s1, name, Names(s.page), s.page.current, 0);
      LoopReturns(config, click, s1, name, Names(s.page), s.page.current, 0);
  }
}
