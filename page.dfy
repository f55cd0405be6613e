/** The browser page as the bot sees it, reduced to values: the habitats of
    the account, the building list of each, and the few account-wide
    indicators the bot reads. This module also holds how the bot reads those
    values: the upgradable-buildings dictionary (lakat/bot.py:105-120), the
    stripped habitat name (lakat/bot.py:74-80) and the habitat kind
    (lakat/bot.py:88-98). */
module Page {
  import opened Wrappers
  import opened Constants

  /** One row of the building list whose action button is a construct
      button: the building's name, its description text (which carries the
      level) and the class attribute of its upgrade button (empty when the
      attribute is missing or empty). */
  datatype BuildingNode = BuildingNode(name: string, description: string, buttonClass: string)

  /** The building list of one habitat: its construct rows in page order and
      the number of rows that show a finish button, i.e. upgrades in
      progress. */
  datatype BuildingList = BuildingList(nodes: seq<BuildingNode>, inProgress: nat)

  /** One habitat: the raw text of its title, the displayed name of its ore
      store, its building list and, for the research step, whether research
      is in progress and whether an enabled research option is offered. */
  datatype Habitat = Habitat(
    title: string,
    oreStoreName: string,
    buildings: BuildingList,
    researchInProgress: bool,
    researchAvailable: bool)

  /** The whole page: the habitats in the order the next-habitat arrow walks
      them, the one on screen, and the account-wide values read by the
      mission and barter steps. */
  datatype World = World(
    habitats: seq<Habitat>,
    current: nat,
    underAttack: bool,
    missionCount: int,
    oxCart: bool,
    silverAmount: int)
  {
    ghost predicate Valid() {
      current < |habitats|
    }
  }

  /** The raw titles of the habitats, in walking order. */
  function Titles(w: World): (r: seq<string>)
    ensures |r| == |w.habitats|
    ensures forall j :: 0 <= j < |r| ==> r[j] == w.habitats[j].title
  {
    seq(|w.habitats|, j requires 0 <= j < |w.habitats| => w.habitats[j].title)
  }

  /** The habitat names as the bot stores them (stripped titles), in
      walking order. */
  function Names(w: World): (r: seq<string>)
    ensures |r| == |w.habitats|
    ensures forall j :: 0 <= j < |r| ==> r[j] == Strip(w.habitats[j].title)
  {
    seq(|w.habitats|, j requires 0 <= j < |w.habitats| => Strip(w.habitats[j].title))
  }

  /** The page after the building list of the habitat on screen changed:
      the other habitats, every title and ore store, the habitat on screen
      and the account-wide values stay as they were. */
  function WithBuildings(w: World, b: BuildingList): (r: World)
    requires w.Valid()
    ensures r.Valid() && r.current == w.current && |r.habitats| == |w.habitats|
    ensures r.habitats[r.current].buildings == b
    ensures r.habitats[r.current] == w.habitats[w.current].(buildings := b)
    ensures forall j :: 0 <= j < |w.habitats| ==> r.habitats[j].oreStoreName == w.habitats[j].oreStoreName
    ensures forall j :: 0 <= j < |w.habitats| && j != w.current ==> r.habitats[j] == w.habitats[j]
    ensures r.underAttack == w.underAttack && r.missionCount == w.missionCount
    ensures r.oxCart == w.oxCart && r.silverAmount == w.silverAmount
  {
    w.(habitats := w.habitats[w.current := w.habitats[w.current].(buildings := b)])
  }

  /** A new building list leaves every habitat title, so every habitat
      name, as it was. */
  lemma WithBuildingsKeepsNames(w: World, b: BuildingList)
    requires w.Valid()
    ensures Titles(WithBuildings(w, b)) == Titles(w) && Names(WithBuildings(w, b)) == Names(w)
  {
  }

  /** Setting the list on screen twice keeps the second; setting it to what
      it is changes nothing. */
  lemma WithBuildingsTwice(w: World, b1: BuildingList, b2: BuildingList)
    requires w.Valid()
    ensures WithBuildings(WithBuildings(w, b1), b2) == WithBuildings(w, b2)
    ensures WithBuildings(w, w.habitats[w.current].buildings) == w
  {
    assert WithBuildings(WithBuildings(w, b1), b2).habitats == WithBuildings(w, b2).habitats;
    assert WithBuildings(w, w.habitats[w.current].buildings).habitats == w.habitats;
  }

  /** The errors the source raises while reading the page. */
  datatype Failure =
    | NoLevelInDescription       // no match of the level pattern (IndexError)
    | NoHabitatName              // the habitat title is empty
    | UnknownOreStore(name: string)  // ore-store name not in the table (KeyError)
    | NoButtonStatus             // the upgrade button has no class attribute

  /** A building seen as upgradable, with its level read from its
      description. */
  datatype ParsedBuilding = ParsedBuilding(name: string, level: nat, buttonClass: string)

  /** No later row of `nodes` has the name of row `k`: row `k` is the one a
      dictionary built in page order keeps for that name. */
  predicate IsLastWithName(nodes: seq<BuildingNode>, k: nat)
    requires k < |nodes|
  {
    forall j :: k < j < |nodes| ==> nodes[j].name != nodes[k].name
  }

  /** The dictionary of upgradable buildings, name to parsed building, built
      row by row in page order; a row whose description carries no level
      makes the whole read fail. */
  function Upgradable(nodes: seq<BuildingNode>): (r: Result<map<string, ParsedBuilding>, Failure>)
    ensures r.Err? ==> r.error == NoLevelInDescription
  {
    if nodes == [] then Ok(map[])
    else
      var front := nodes[..|nodes| - 1];
      var last := nodes[|nodes| - 1];
      match Upgradable(front)
      case Err(e) => Err(e)
      case Ok(m) =>
        match ParseLevel(last.description)
        case None => Err(NoLevelInDescription)
        case Some(level) => Ok(m[last.name := ParsedBuilding(last.name, level, last.buttonClass)])
  }

  /** The read succeeds exactly when every row's description carries a
      level. */
  lemma {:induction false} UpgradableOkIff(nodes: seq<BuildingNode>)
    ensures Upgradable(nodes).Ok? <==> forall k :: 0 <= k < |nodes| ==> ParseLevel(nodes[k].description).Some?
  {
    if nodes != [] {
      var front := nodes[..|nodes| - 1];
      assert forall k :: 0 <= k < |front| ==> front[k] == nodes[k];
      UpgradableOkIff(front);
    }
  }

  /** One step of a successful read: the entry of the last row is written
      over whatever the earlier rows left. */
  lemma UpgradableStep(nodes: seq<BuildingNode>)
    requires nodes != [] && Upgradable(nodes).Ok?
    ensures Upgradable(nodes[..|nodes| - 1]).Ok? && ParseLevel(nodes[|nodes| - 1].description).Some?
    ensures var last := nodes[|nodes| - 1];
      Upgradable(nodes).value == Upgradable(nodes[..|nodes| - 1]).value[
        last.name := ParsedBuilding(last.name, ParseLevel(last.description).value, last.buttonClass)]
  {
    var front := nodes[..|nodes| - 1];
    assert forall k :: 0 <= k < |front| ==> front[k] == nodes[k];
  }

  /** The names of the rows. */
  function RowNames(nodes: seq<BuildingNode>): (r: set<string>)
    ensures forall k :: 0 <= k < |nodes| ==> nodes[k].name in r
    ensures forall name :: name in r ==> exists k :: 0 <= k < |nodes| && nodes[k].name == name
  {
    if nodes == [] then {}
    else
      var front := nodes[..|nodes| - 1];
      assert forall k :: 0 <= k < |front| ==> front[k] == nodes[k];
      RowNames(front) + {nodes[|nodes| - 1].name}
  }

  /** A successful read has exactly one entry per row name. */
  lemma {:induction false} UpgradableKeys(nodes: seq<BuildingNode>)
    requires Upgradable(nodes).Ok?
    ensures Upgradable(nodes).value.Keys == RowNames(nodes)
  {
    if nodes != [] {
      UpgradableStep(nodes);
      UpgradableKeys(nodes[..|nodes| - 1]);
    }
  }

  /** In a successful read the entry for a name is the last row of that
      name, with the level its description carries. */
  lemma {:induction false} UpgradableKeepsLastRow(nodes: seq<BuildingNode>, k: nat)
    requires Upgradable(nodes).Ok?
    requires k < |nodes| && IsLastWithName(nodes, k)
    ensures nodes[k].name in Upgradable(nodes).value
    ensures ParseLevel(nodes[k].description).Some?
    ensures Upgradable(nodes).value[nodes[k].name]
      == ParsedBuilding(nodes[k].name, ParseLevel(nodes[k].description).value, nodes[k].buttonClass)
  {
    UpgradableOkIff(nodes);
    var front := nodes[..|nodes| - 1];
    UpgradableStep(nodes);
    if k < |front| {
      assert front[k] == nodes[k];
      assert nodes[k].name != nodes[|nodes| - 1].name;
      assert IsLastWithName(front, k) by {
        forall j | k < j < |front| ensures front[j].name != front[k].name {
          assert front[j] == nodes[j];
        }
      }
      UpgradableKeepsLastRow(front, k);
    }
  }

  // ---------------------------------------------------------------------
  // The habitat name and kind

  /** The character ranges Python's str.isspace() accepts, both ends included. */
  const SpaceRanges: seq<(char, char)> :=
    [(' ', ' '), ('\t', '\r'), ('\U{1C}', '\U{1F}'), ('\U{85}', '\U{85}'), ('\U{A0}', '\U{A0}'),
     ('\U{1680}', '\U{1680}'), ('\U{2000}', '\U{200A}'), ('\U{2028}', '\U{2029}'),
     ('\U{202F}', '\U{202F}'), ('\U{205F}', '\U{205F}'), ('\U{3000}', '\U{3000}')]

  predicate InRanges(c: char, ranges: seq<(char, char)>) {
    |ranges| > 0 && (ranges[0].0 <= c <= ranges[0].1 || InRanges(c, ranges[1..]))
  }

  /** Python's str.isspace() for one character. */
  predicate IsSpace(c: char) {
    InRanges(c, SpaceRanges)
  }

  /** How many leading characters str.strip() removes: the whitespace run at
      the front of `s`. */
  function StripOffset(s: string): (a: nat)
    ensures a <= |s|
    ensures forall k {:trigger IsSpace(s[k])} :: 0 <= k < a ==> IsSpace(s[k])
    ensures a == |s| || !IsSpace(s[a])
  {
    if |s| > 0 && IsSpace(s[0]) then 1 + StripOffset(s[1..]) else 0
  }

  /** Where the text str.strip() keeps ends, looking back from `e` no further
      than `a`: `s[r..e]` is the whitespace run at the back of `s[a..e]`. */
  function StripEndIndex(s: string, a: nat, e: nat): (r: nat)
    requires a <= e <= |s|
    ensures a <= r <= e
    ensures forall k {:trigger IsSpace(s[k])} :: r <= k < e ==> IsSpace(s[k])
    ensures r == a || !IsSpace(s[r - 1])
    decreases e
  {
    if e > a && IsSpace(s[e - 1]) then StripEndIndex(s, a, e - 1) else e
  }

  /** Python's str.strip(): `s` without its leading and trailing whitespace. */
  function Strip(s: string): (r: string)
    ensures |r| <= |s|
    ensures r == [] || (!IsSpace(r[0]) && !IsSpace(r[|r| - 1]))
  {
    var a := StripOffset(s);
    s[a..StripEndIndex(s, a, |s|)]
  }

  /** What str.strip() keeps: a slice of `s` that is empty or starts and
      ends with a non-space, with only whitespace before and after it. */
  lemma StripShape(s: string)
    ensures StripOffset(s) + |Strip(s)| <= |s|
    ensures Strip(s) == s[StripOffset(s)..StripOffset(s) + |Strip(s)|]
    ensures forall k {:trigger IsSpace(s[k])} :: 0 <= k < StripOffset(s) ==> IsSpace(s[k])
    ensures forall k {:trigger IsSpace(s[k])} :: StripOffset(s) + |Strip(s)| <= k < |s| ==> IsSpace(s[k])
    ensures Strip(s) == [] || (!IsSpace(Strip(s)[0]) && !IsSpace(Strip(s)[|Strip(s)| - 1]))
  {
  }

  /** str.strip() leaves nothing exactly when `s` is all whitespace. */
  lemma StripEmptyIffAllSpace(s: string)
    ensures Strip(s) == [] <==> forall k {:trigger IsSpace(s[k])} :: 0 <= k < |s| ==> IsSpace(s[k])
  {
  }

  /** Stripping twice is stripping once. */
  lemma StripIsIdempotent(s: string)
    ensures Strip(Strip(s)) == Strip(s)
  {
    StripShape(s);
    var r := Strip(s);
    assert StripOffset(r) == 0;
    assert StripEndIndex(r, 0, |r|) == |r|;
    assert r[0..|r|] == r;
  }

  /** `r` is what str.strip() keeps of `s`: the slice of `s` after its
      leading whitespace, with only whitespace after it, and empty or
      starting and ending with a non-space. */
  predicate StripsTo(s: string, r: string) {
    var a := StripOffset(s);
    && a + |r| <= |s| && r == s[a..a + |r|]
    && (forall k {:trigger IsSpace(s[k])} :: 0 <= k < a ==> IsSpace(s[k]))
    && (forall k {:trigger IsSpace(s[k])} :: a + |r| <= k < |s| ==> IsSpace(s[k]))
    && (r == [] || (!IsSpace(r[0]) && !IsSpace(r[|r| - 1])))
  }

  /** Only one text is what str.strip() keeps of `s`, namely `Strip(s)`. */
  lemma StripsToIsStrip(s: string, r: string)
    ensures StripsTo(s, r) <==> r == Strip(s)
  {
    StripShape(s);
  }

  /** What the bot stores as the active habitat name: the stripped title, or
      a failure when the title text is empty (a title of only whitespace is
      not empty, and is stored as the empty name). */
  function HabitatName(title: string): (r: Result<string, Failure>)
    ensures r.Err? <==> title == ""
    ensures r.Err? ==> r.error == NoHabitatName
    ensures r.Ok? ==> r.value == Strip(r.value) && |r.value| <= |title|
    ensures r.Ok? ==> StripsTo(title, r.value)
  {
    if title == "" then Err(NoHabitatName)
    else
      StripIsIdempotent(title);
      StripShape(title);
      Ok(Strip(title))
  }

  /** The habitat kind told by the ore-store name, or the KeyError the source
      raises for a name not in the table. */
  function HabitatKind(oreStoreName: string): (r: Result<HabitatType, Failure>)
    ensures r.Ok? <==> oreStoreName in HabitatTypeMap
    ensures r.Ok? ==> HabitatTypeMap[oreStoreName] == r.value
    ensures r.Err? ==> r.error == UnknownOreStore(oreStoreName)
  {
    match LookupHabitatType(oreStoreName)
    case Some(t) => Ok(t)
    case None => Err(UnknownOreStore(oreStoreName))
  }
}
