/** The bot itself (lakat/bot.py, class Lakat): one object holding the
    account configuration, the page it drives and what it has learnt about
    the habitat on screen. Its methods run the rules of module Rules step by
    step against the page, and each is proved to leave the page, the log and
    the record of clicks exactly as those rules say. */
module Bot {
  import opened Wrappers
  import opened Constants
  import opened Config
  import opened Page
  import opened Rules
  import opened Cycle

  class Lakat {
    const config: AccountConfig
    /** How the page answers upgrade clicks. */
    const click: ClickResponse
    var page: World
    var activeHabitatName: string
    /** `None` until the first habitat kind is read (the source's empty
        string). */
    var activeHabitatType: Option<HabitatType>
    var log: seq<string>
    var actions: seq<Action>

    ghost predicate Valid()
      reads this
    {
      page.Valid() && Progressive(PageRead, click)
    }

    constructor(config: AccountConfig, click: ClickResponse, page: World)
      requires page.Valid() && Progressive(PageRead, click)
      ensures Valid()
      ensures this.config == config && this.click == click && this.page == page
      ensures activeHabitatName == "" && activeHabitatType == None
      ensures log == [] && actions == []
    {
      this.config := config;
      this.click := click;
      this.page := page;
      activeHabitatName := "";
      activeHabitatType := None;
      log := [];
      actions := [];
    }

    /** The fields that change, as one value. */
    ghost function Snapshot(): BotState
      reads this
    {
      BotState(page, activeHabitatName, activeHabitatType, log, actions)
    }

    /** The habitat on screen. */
    function Current(): Habitat
      reads this
      requires page.Valid()
    {
      page.habitats[page.current]
    }

    /** Writes one log line, with the habitat prefix when asked. */
    method Log(message: string, withHabitat: bool)
      modifies this
      ensures log == old(log) + [LogLine(activeHabitatType, activeHabitatName, message, withHabitat)]
      ensures page == old(page) && actions == old(actions)
      ensures activeHabitatName == old(activeHabitatName) && activeHabitatType == old(activeHabitatType)
    {
      log := log + [LogLine(activeHabitatType, activeHabitatName, message, withHabitat)];
    }

    /** Stores the stripped title of the habitat on screen, or fails when the
        title is empty. */
    method UpdateActiveHabitatName() returns (o: Outcome<Failure>)
      requires Valid()
      modifies this
      ensures Valid() && page == old(page) && log == old(log) && actions == old(actions)
      ensures activeHabitatType == old(activeHabitatType)
      ensures match HabitatName(Current().title)
        case Ok(name) => o == Pass && activeHabitatName == name
        case Err(e) => o == Fail(e) && activeHabitatName == old(activeHabitatName)
    {
      var title := Current().title;
      if title == "" {
        return Fail(NoHabitatName);
      }
      activeHabitatName := Strip(title);
      return Pass;
    }

    /** Stores the kind the ore store of the habitat on screen tells, or fails
        when its name is not in the table. */
    method UpdateHabitatType() returns (o: Outcome<Failure>)
      requires Valid()
      modifies this
      ensures Valid() && page == old(page) && log == old(log) && actions == old(actions)
      ensures activeHabitatName == old(activeHabitatName)
      ensures match HabitatKind(Current().oreStoreName)
        case Ok(kind) => o == Pass && activeHabitatType == Some(kind)
        case Err(e) => o == Fail(e) && activeHabitatType == old(activeHabitatType)
    {
      var name := Current().oreStoreName;
      if name !in HabitatTypeMap {
        return Fail(UnknownOreStore(name));
      }
      activeHabitatType := Some(HabitatTypeMap[name]);
      return Pass;
    }

    /** Reads the building list on screen into the dictionary of upgradable
        buildings, row by row. */
    method UpgradableBuildings() returns (r: Result<map<string, ParsedBuilding>, Failure>)
      requires Valid()
      ensures r == PageRead(Current().buildings)
    {
      var nodes := Current().buildings.nodes;
      var found := map[];
      var i := 0;
      while i < |nodes|
        invariant 0 <= i <= |nodes|
        invariant Upgradable(nodes[..i]) == Ok(found)
      {
        var node := nodes[i];
        var level := ParseLevel(node.description);
        if level.None? {
          UpgradableOkIff(nodes);
          return Err(NoLevelInDescription);
        }
        found := found[node.name := ParsedBuilding(node.name, level.value, node.buttonClass)];
        assert nodes[..i + 1][..i] == nodes[..i];
        i := i + 1;
      }
      assert nodes[..i] == nodes;
      return Ok(found);
    }

    /** Clicks the upgrade button of the named building: the page answers
        with a new building list for the habitat on screen. */
    method ClickUpgrade(name: string, event: ClickEvent)
      requires Valid()
      modifies this
      ensures Valid() && page == WithBuildings(old(page), click(old(Current().buildings), name))
      ensures actions == old(actions) + [UpgradeClicked(page.current, event)]
      ensures log == old(log)
      ensures activeHabitatName == old(activeHabitatName) && activeHabitatType == old(activeHabitatType)
    {
      actions := actions + [UpgradeClicked(page.current, event)];
      page := WithBuildings(page, click(Current().buildings, name));
    }

    /** One pass of the inner loop of the stepper at target `i`, whose
        building was last read below its target level: return when both
        slots are busy, raise when the button has no class, return when it
        is disabled, and otherwise click it, log the upgrade and read the
        list again. `stop` says that the stepper ended here; otherwise the
        list was read again into `after`, and the stepper of module Rules
        at target `i` is this click followed by the stepper on the new
        list. */
    method UpgradeStep(targets: seq<Building>, i: nat, buildings: map<string, ParsedBuilding>)
      returns (o: Outcome<Failure>, stop: bool, after: map<string, ParsedBuilding>,
               ghost clicks: seq<ClickEvent>, ghost messages: seq<string>, ghost end: UpgradeEnd)
      requires Valid() && i < |targets|
      requires PageRead(Current().buildings) == Ok(buildings) && Pending(buildings, targets[i])
      modifies this
      ensures Valid() && page == WithBuildings(old(page), Current().buildings)
      ensures activeHabitatName == old(activeHabitatName) && activeHabitatType == old(activeHabitatType)
      ensures log == old(log) + HabitatLines(activeHabitatType, activeHabitatName, messages)
      ensures actions == old(actions) + UpgradeActions(page.current, clicks)
      ensures stop ==>
        && Steps(PageRead, old(Current().buildings), buildings, targets, i, click)
           == UpgradeRun(Current().buildings, clicks, messages, end)
        && o == (if end.Raised? then Fail(end.failure) else Pass)
      ensures !stop ==>
        && o == Pass && PageRead(Current().buildings) == Ok(after)
        && (|| Slack(Current().buildings) < Slack(old(Current().buildings))
            || (&& Slack(Current().buildings) == Slack(old(Current().buildings))
                && Gap(PageRead, Current().buildings, targets[i]) < Gap(PageRead, old(Current().buildings), targets[i])))
        && Steps(PageRead, old(Current().buildings), buildings, targets, i, click)
           == Prepend(clicks, messages, Steps(PageRead, Current().buildings, after, targets, i, click))
    {
      var building := targets[i];
      var p := buildings[building.name];
      var inProgress := Current().buildings.inProgress;
      StepsStops(PageRead, Current().buildings, buildings, targets, i, click);
      after := buildings;
      if inProgress >= SlotLimit {
        WithBuildingsTwice(page, Current().buildings, Current().buildings);
        Log(NoFreeSlotsMessage, true);
        return Pass, true, after, [], [NoFreeSlotsMessage], NoFreeSlots;
      }
      if p.buttonClass == "" {
        WithBuildingsTwice(page, Current().buildings, Current().buildings);
        return Fail(NoButtonStatus), true, after, [], [], Raised(NoButtonStatus);
      }
      if Contains(p.buttonClass, "disabled") {
        WithBuildingsTwice(page, Current().buildings, Current().buildings);
        Log(NoResourceMessage(building.name), true);
        return Pass, true, after, [], [NoResourceMessage(building.name)], NoResource(building.name);
      }
      o, stop, after, clicks, messages, end := UpgradeClick(targets, i, buildings);
    }

    /** The click of one pass of the inner loop, once neither busy slots nor
        the button's class stop the stepper: click, log the upgrade and read
        the list again. */
    method UpgradeClick(targets: seq<Building>, i: nat, buildings: map<string, ParsedBuilding>)
      returns (o: Outcome<Failure>, stop: bool, after: map<string, ParsedBuilding>,
               ghost clicks: seq<ClickEvent>, ghost messages: seq<string>, ghost end: UpgradeEnd)
      requires Valid() && i < |targets|
      requires PageRead(Current().buildings) == Ok(buildings) && Pending(buildings, targets[i])
      requires Current().buildings.inProgress < SlotLimit
      requires buildings[targets[i].name].buttonClass != ""
      requires !Contains(buildings[targets[i].name].buttonClass, "disabled")
      modifies this
      ensures Valid() && page == WithBuildings(old(page), Current().buildings)
      ensures activeHabitatName == old(activeHabitatName) && activeHabitatType == old(activeHabitatType)
      ensures log == old(log) + HabitatLines(activeHabitatType, activeHabitatName, messages)
      ensures actions == old(actions) + UpgradeActions(page.current, clicks)
      ensures stop ==>
        && Steps(PageRead, old(Current().buildings), buildings, targets, i, click)
           == UpgradeRun(Current().buildings, clicks, messages, end)
        && o == (if end.Raised? then Fail(end.failure) else Pass)
      ensures !stop ==>
        && o == Pass && PageRead(Current().buildings) == Ok(after)
        && (|| Slack(Current().buildings) < Slack(old(Current().buildings))
            || (&& Slack(Current().buildings) == Slack(old(Current().buildings))
                && Gap(PageRead, Current().buildings, targets[i]) < Gap(PageRead, old(Current().buildings), targets[i])))
        && Steps(PageRead, old(Current().buildings), buildings, targets, i, click)
           == Prepend(clicks, messages, Steps(PageRead, Current().buildings, after, targets, i, click))
    {
      ghost var w0 := page;
      ghost var b0 := Current().buildings;
      var building := targets[i];
      var p := buildings[building.name];
      var event := ClickEvent(i, building.name, p.level, building.level, Current().buildings.inProgress, p.buttonClass);
      ClickUpgrade(building.name, event);
      WithBuildingsTwice(w0, b0, click(b0, building.name));
      Log(UpgradingMessage(p), true);
      clicks, messages := [event], [UpgradingMessage(p)];
      assert ClickAdvances(PageRead, b0, building.name, click(b0, building.name));
      ClickLowersMeasure(PageRead, b0, buildings, building, click(b0, building.name));
      var found := UpgradableBuildings();
      if found.Err? {
        StepsClickFails(PageRead, b0, buildings, targets, i, click);
        return Fail(found.error), true, buildings, clicks, messages, Raised(found.error);
      }
      StepsClick(PageRead, b0, buildings, targets, i, click);
      return Pass, false, found.value, clicks, messages, Finished;
    }

    /** The inner loop of the stepper for target `i`: while the building is
        listed below its target level, take one step. `stop` says that the
        stepper ended here; otherwise it goes on to the next target with
        the dictionary `after` it read last. Either way this is the stepper
        of module Rules at target `i`, with the clicks and messages of this
        target in front. */
    method UpgradeTarget(targets: seq<Building>, i: nat, buildings: map<string, ParsedBuilding>)
      returns (o: Outcome<Failure>, stop: bool, after: map<string, ParsedBuilding>,
               ghost clicks: seq<ClickEvent>, ghost messages: seq<string>, ghost end: UpgradeEnd)
      requires Valid() && i < |targets|
      requires PageRead(Current().buildings) == Ok(buildings)
      modifies this
      ensures Valid() && page == WithBuildings(old(page), Current().buildings)
      ensures activeHabitatName == old(activeHabitatName) && activeHabitatType == old(activeHabitatType)
      ensures log == old(log) + HabitatLines(activeHabitatType, activeHabitatName, messages)
      ensures actions == old(actions) + UpgradeActions(page.current, clicks)
      ensures stop ==>
        && Steps(PageRead, old(Current().buildings), buildings, targets, i, click)
           == UpgradeRun(Current().buildings, clicks, messages, end)
        && o == (if end.Raised? then Fail(end.failure) else Pass)
      ensures !stop ==>
        && o == Pass && PageRead(Current().buildings) == Ok(after)
        && Steps(PageRead, old(Current().buildings), buildings, targets, i, click)
           == Prepend(clicks, messages, Steps(PageRead, Current().buildings, after, targets, i + 1, click))
    {
      ghost var w0 := page;
      ghost var b0 := Current().buildings;
      WithBuildingsTwice(w0, b0, b0);
      var building := targets[i];
      after := buildings;
      clicks, messages := [], [];
      var parsed := if building.name in after then Some(after[building.name]) else None;
      while parsed.Some? && parsed.value.level < building.level
        invariant Valid() && page == WithBuildings(w0, Current().buildings)
        invariant activeHabitatName == old(activeHabitatName) && activeHabitatType == old(activeHabitatType)
        invariant PageRead(Current().buildings) == Ok(after)
        invariant parsed == if building.name in after then Some(after[building.name]) else None
        invariant Steps(PageRead, b0, buildings, targets, i, click)
          == Prepend(clicks, messages, Steps(PageRead, Current().buildings, after, targets, i, click))
        invariant log == old(log) + HabitatLines(activeHabitatType, activeHabitatName, messages)
        invariant actions == old(actions) + UpgradeActions(w0.current, clicks)
        decreases Slack(Current().buildings), Gap(PageRead, Current().buildings, building)
      {
        ghost var b1 := Current().buildings;
        var stop1;
        ghost var c, m, e;
        o, stop1, after, c, m, e := UpgradeStep(targets, i, after);
        WithBuildingsTwice(w0, b1, Current().buildings);
        AppendAssociates(old(log), HabitatLines(activeHabitatType, activeHabitatName, messages),
                         HabitatLines(activeHabitatType, activeHabitatName, m));
        AppendAssociates(old(actions), UpgradeActions(w0.current, clicks), UpgradeActions(w0.current, c));
        HabitatLinesConcat(activeHabitatType, activeHabitatName, messages, m);
        UpgradeActionsConcat(w0.current, clicks, c);
        if stop1 {
          return o, true, after, clicks + c, messages + m, e;
        }
        PrependTwice(clicks, messages, c, m, Steps(PageRead, Current().buildings, after, targets, i, click));
        clicks, messages := clicks + c, messages + m;
        parsed := if building.name in after then Some(after[building.name]) else None;
      }
      StepsSkip(PageRead, Current().buildings, after, targets, i, click);
      return Pass, false, after, clicks, messages, Finished;
    }

    /** The upgrade stepper on the habitat on screen. It ends as the stepper
        of module Rules ends on the same building list and targets, leaving
        the building list that run leaves, with its clicks recorded and its
        messages logged with the habitat prefix; only a raised failure is
        returned as `Fail`. */
    method DoUpgrade() returns (o: Outcome<Failure>)
      requires Valid()
      modifies this
      ensures Valid()
      ensures activeHabitatName == old(activeHabitatName) && activeHabitatType == old(activeHabitatType)
      ensures var r := Upgrade(PageRead, old(Current().buildings), HabitatUpgrades(config, activeHabitatType), click);
        && page == WithBuildings(old(page), r.list)
        && log == old(log) + HabitatLines(activeHabitatType, activeHabitatName, r.messages)
        && actions == old(actions) + UpgradeActions(old(page.current), r.clicks)
        && o == (if r.end.Raised? then Fail(r.end.failure) else Pass)
    {
      ghost var w0 := page;
      ghost var b0 := Current().buildings;
      var targets := HabitatUpgrades(config, activeHabitatType);
      ghost var run := Upgrade(PageRead, b0, targets, click);
      WithBuildingsTwice(w0, b0, b0);
      var found := UpgradableBuildings();
      if found.Err? {
        return Fail(found.error);
      }
      var buildings := found.value;
      if buildings == map[] {
        Log(NoBuildingsMessage, true);
        return Pass;
      }
      if targets == [] {
        Log(UnknownTypeMessage, true);
        return Pass;
      }
      UpgradeStartsSteps(PageRead, b0, targets, click);
      ghost var clicks: seq<ClickEvent> := [];
      ghost var messages: seq<string> := [];
      var i := 0;
      while i < |targets|
        invariant 0 <= i <= |targets|
        invariant Valid() && page == WithBuildings(w0, Current().buildings)
        invariant activeHabitatName == old(activeHabitatName) && activeHabitatType == old(activeHabitatType)
        invariant PageRead(Current().buildings) == Ok(buildings)
        invariant run == Prepend(clicks, messages, Steps(PageRead, Current().buildings, buildings, targets, i, click))
        invariant log == old(log) + HabitatLines(activeHabitatType, activeHabitatName, messages)
        invariant actions == old(actions) + UpgradeActions(w0.current, clicks)
      {
        ghost var b1 := Current().buildings;
        var stop;
        ghost var c, m, e;
        o, stop, buildings, c, m, e := UpgradeTarget(targets, i, buildings);
        WithBuildingsTwice(w0, b1, Current().buildings);
        AppendAssociates(old(log), HabitatLines(activeHabitatType, activeHabitatName, messages),
                         HabitatLines(activeHabitatType, activeHabitatName, m));
        AppendAssociates(old(actions), UpgradeActions(w0.current, clicks), UpgradeActions(w0.current, c));
        HabitatLinesConcat(activeHabitatType, activeHabitatName, messages, m);
        UpgradeActionsConcat(w0.current, clicks, c);
        if stop {
          assert run == UpgradeRun(Current().buildings, clicks + c, messages + m, e);
          return;
        }
        PrependTwice(clicks, messages, c, m, Steps(PageRead, Current().buildings, buildings, targets, i + 1, click));
        clicks, messages := clicks + c, messages + m;
        i := i + 1;
      }
      assert run == UpgradeRun(Current().buildings, clicks, messages, Finished);
      return Pass;
    }

    /** The research step: open the research building of the habitat kind,
        and order research when none runs and an option is enabled. */
    method DoResearch()
      requires Valid()
      modifies this
      ensures Valid() && page == old(page)
      ensures activeHabitatName == old(activeHabitatName) && activeHabitatType == old(activeHabitatType)
      ensures var h := Current();
        && actions == old(actions) + ResearchActions(page.current, activeHabitatType, h.researchInProgress, h.researchAvailable)
        && log == old(log) + if !h.researchInProgress && h.researchAvailable
          then [LogLine(activeHabitatType, activeHabitatName, ResearchOrderedMessage, true)] else []
    {
      var building := ResearchBuildingFor(activeHabitatType);
      actions := actions + [ResearchBuildingOpened(page.current, building)];
      if Current().researchInProgress {
        return;
      }
      if Current().researchAvailable {
        actions := actions + [ResearchOrdered(page.current)];
        Log(ResearchOrderedMessage, true);
      }
    }

    /** The work of one pass of the habitat loop on the habitat on screen:
        read its kind, run the upgrade stepper, then the research step. A
        failure of the first two ends the pass. This is `Cycle.Visit`. */
    method VisitHabitat() returns (o: Outcome<Failure>)
      requires Valid()
      modifies this
      ensures Valid() && After(o, Snapshot()) == Visit(config, click, old(Snapshot()))
    {
      o := UpdateHabitatType();
      if o.Fail? {
        return;
      }
      o := DoUpgrade();
      if o.Fail? {
        return;
      }
      DoResearch();
    }

    /** Moves to the next habitat, wrapping around after the last. */
    method SelectNextHabitat()
      requires Valid()
      modifies this
      ensures Valid() && page == old(page).(current := Next(old(page.current), |page.habitats|))
      ensures log == old(log) && actions == old(actions)
      ensures activeHabitatName == old(activeHabitatName) && activeHabitatType == old(activeHabitatType)
    {
      page := page.(current := if page.current + 1 < |page.habitats| then page.current + 1 else 0);
    }

    /** The mission step, gated as MissionDecision says. */
    method DoSendToMissions()
      requires Valid()
      modifies this
      ensures Valid() && page == old(page)
      ensures activeHabitatName == old(activeHabitatName) && activeHabitatType == old(activeHabitatType)
      ensures var d := MissionDecision(config.missions, page.underAttack, page.missionCount);
        && actions == old(actions) + MissionActions(d)
        && log == old(log) + MissionMessages(d)
    {
      if !config.missions {
        return;
      }
      if page.underAttack {
        Log("missions skipped due to 'under attack' status", false);
        return;
      }
      var count := page.missionCount;
      if count > 0 {
        actions := actions + [MissionsSent];
        Log("missions started", false);
      } else {
        Log("no available missions", false);
      }
    }

    /** The silver-barter step, gated as BarterDecision says. */
    method DoSilverBarter()
      requires Valid()
      modifies this
      ensures Valid() && page == old(page)
      ensures activeHabitatName == old(activeHabitatName) && activeHabitatType == old(activeHabitatType)
      ensures var d := BarterDecision(config.silverBarterThreshold, page.oxCart, page.silverAmount);
        && actions == old(actions) + BarterActions(d)
        && log == old(log) + BarterMessages(d, page.silverAmount)
    {
      if config.silverBarterThreshold == 0 {
        return;
      }
      if !page.oxCart {
        Log("no Ox-cart found to barter a silver", false);
        return;
      }
      var amount := page.silverAmount;
      if amount >= config.silverBarterThreshold {
        actions := actions + [SilverBartered];
        Log("silver barter ordered", false);
      } else {
        Log("no enough expected silver to exchange: " + IntText(amount), false);
      }
    }

    /** One pass of the habitat loop: work on the habitat on screen, move
        to the next one and read its name. `done` says that the name read is
        `first`, which ends the loop. This is `Cycle.PassStep`. */
    method HabitatPass(first: string) returns (o: Outcome<Failure>, done: bool)
      requires Valid()
      modifies this
      ensures Valid() && (After(o, Snapshot()), done) == PassStep(config, click, old(Snapshot()), first)
    {
      done := false;
      o := VisitHabitat();
      if o.Fail? {
        return;
      }
      SelectNextHabitat();
      o := UpdateActiveHabitatName();
      if o.Fail? {
        return;
      }
      done := activeHabitatName == first;
    }

    /** The habitat loop from habitat `start`, whose name `first` was noted:
        one pass after another until a pass fails or reads `first` again.
        This is `Cycle.Loop` from the first step of the walk. */
    method VisitAll(ghost names: seq<string>, ghost start: nat, first: string) returns (o: Outcome<Failure>)
      requires Valid() && Names(page) == names && start < |names|
      requires first == names[start] && page.current == start
      modifies this
      ensures Valid() && After(o, Snapshot()) == Loop(config, click, old(Snapshot()), first, names, start, 0)
    {
      ghost var passes := 0;
      while true
        invariant Valid() && Names(page) == names
        invariant passes < ReturnStep(names, start) && page.current == Pos(|names|, start, passes)
        invariant Loop(config, click, old(Snapshot()), first, names, start, 0)
          == Loop(config, click, Snapshot(), first, names, start, passes)
        decreases ReturnStep(names, start) - passes
      {
        PassFollowsWalk(config, click, Snapshot(), first, names, start, passes);
        var done;
        o, done := HabitatPass(first);
        if o.Fail? || done {
          return;
        }
        passes := passes + 1;
      }
    }

    /** One session: note the name of the habitat on screen, run the habitat
        loop from there, then the account-wide mission and barter steps.
        This is `Cycle.Session`, whose lemmas say what a session does. */
    method Run() returns (o: Outcome<Failure>)
      requires Valid()
      modifies this
      ensures Valid() && After(o, Snapshot()) == Session(config, click, old(Snapshot()))
    {
      o := UpdateActiveHabitatName();
      if o.Fail? {
        return;
      }
      o := VisitAll(Names(page), page.current, activeHabitatName);
      if o.Fail? {
        return;
      }
      DoSendToMissions();
      DoSilverBarter();
    }
  }
}
