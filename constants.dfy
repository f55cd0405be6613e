/** The fixed tables of the bot: habitat kinds and their display values, the
    research buildings, the ore-store name table that tells the habitat kind,
    and the meaning of the case-insensitive pattern `level (\d+)` that pulls a
    building's level out of its description (lakat/constants.py). */
module Constants {
  import opened Wrappers

  /** The three kinds of habitat; `Value` is the string the source's string
      enum carries, which is also what a log prefix prints. */
  datatype HabitatType = Castle | Fortress | City {
    function Value(): string {
      match this
      case Castle => "castle"
      case Fortress => "fortress"
      case City => "city"
    }
  }

  /** The two buildings in which research is ordered. */
  datatype ResearchBuilding = University | Library {
    function Value(): string {
      match this
      case University => "University"
      case Library => "Library"
    }
  }

  /** Name of the ore-store building, as displayed in a habitat, to the kind
      of that habitat. */
  const HabitatTypeMap: map<string, HabitatType> :=
    map["Ore store" := Castle, "Ore Storage" := Fortress, "Ore Depot" := City]

  /** Exact, case-sensitive lookup in the table; `None` is the source's
      KeyError. */
  function LookupHabitatType(name: string): (r: Option<HabitatType>)
    ensures r == Some(Castle) <==> name == "Ore store"
    ensures r == Some(Fortress) <==> name == "Ore Storage"
    ensures r == Some(City) <==> name == "Ore Depot"
    ensures r == None <==> name !in {"Ore store", "Ore Storage", "Ore Depot"}
  {
    if name in HabitatTypeMap then Some(HabitatTypeMap[name]) else None
  }

  /** The table has exactly three entries and no two names share a kind, so
      every kind is told by exactly one name. */
  lemma HabitatTypeMapIsBijective()
    ensures HabitatTypeMap.Keys == {"Ore store", "Ore Storage", "Ore Depot"}
    ensures forall a, b :: a in HabitatTypeMap && b in HabitatTypeMap && HabitatTypeMap[a] == HabitatTypeMap[b] ==> a == b
    ensures forall t: HabitatType :: t in HabitatTypeMap.Values
  {
    forall t: HabitatType ensures t in HabitatTypeMap.Values {
      match t
      case Castle => assert HabitatTypeMap["Ore store"] == t;
      case Fortress => assert HabitatTypeMap["Ore Storage"] == t;
      case City => assert HabitatTypeMap["Ore Depot"] == t;
    }
  }

  /** The display values of the kinds are pairwise different, and so are the
      research building names. */
  lemma EnumValuesAreDistinct()
    ensures forall a: HabitatType, b: HabitatType :: a.Value() == b.Value() ==> a == b
    ensures forall a: ResearchBuilding, b: ResearchBuilding :: a.Value() == b.Value() ==> a == b
    ensures {University.Value(), Library.Value()} == {"University", "Library"}
  {
  }

  // ---------------------------------------------------------------------
  // Decimal text of numbers

  predicate IsDigit(c: char) {
    '0' <= c <= '9'
  }

  predicate AllDigits(d: string) {
    forall k :: 0 <= k < |d| ==> IsDigit(d[k])
  }

  function DigitChar(n: nat): (c: char)
    requires n < 10
    ensures IsDigit(c)
  {
    ('0' as int + n) as char
  }

  /** The value of a string of decimal digits, leading zeros allowed, as
      Python's int() reads it. */
  function DigitsValue(d: string): (r: nat)
    requires AllDigits(d)
    ensures r == 0 <==> forall k :: 0 <= k < |d| ==> d[k] == '0'
  {
    if d == [] then 0
    else DigitsValue(d[..|d| - 1]) * 10 + (d[|d| - 1] as int - '0' as int)
  }

  /** The decimal text of a natural number, as Python's str() writes it:
      no leading zero except for zero itself. */
  function DecimalText(n: nat): (r: string)
    ensures 0 < |r| && AllDigits(r)
    ensures |r| > 1 ==> r[0] != '0'
  {
    if n < 10 then [DigitChar(n)] else DecimalText(n / 10) + [DigitChar(n % 10)]
  }

  /** Reading back the decimal text of a number gives the number. */
  lemma {:induction false} DecimalTextRoundTrip(n: nat)
    ensures DigitsValue(DecimalText(n)) == n
  {
    var d := DecimalText(n);
    if n >= 10 {
      DecimalTextRoundTrip(n / 10);
      assert d[..|d| - 1] == DecimalText(n / 10);
    }
  }

  /** The decimal text of an integer, with a leading minus sign when negative. */
  function IntText(i: int): (r: string)
    ensures 0 < |r|
    ensures i < 0 <==> r[0] == '-'
  {
    if i < 0 then "-" + DecimalText(-i) else DecimalText(i)
  }

  // ---------------------------------------------------------------------
  // The pattern `level (\d+)` with re.IGNORECASE

  /** `c` is `lower` up to ASCII letter case. */
  predicate FoldEq(c: char, lower: char) {
    c == lower || ('a' <= lower <= 'z' && c as int == lower as int - 32)
  }

  /** The six characters `level ` start at `i`, the letters in any case, the
      space literal. */
  predicate KeywordAt(s: string, i: nat)
    requires i + 6 <= |s|
  {
    FoldEq(s[i], 'l') && FoldEq(s[i + 1], 'e') && FoldEq(s[i + 2], 'v')
    && FoldEq(s[i + 3], 'e') && FoldEq(s[i + 4], 'l') && s[i + 5] == ' '
  }

  /** The whole pattern matches at `i`: the keyword and at least one digit. */
  predicate MatchAt(s: string, i: nat) {
    i + 7 <= |s| && KeywordAt(s, i) && IsDigit(s[i + 6])
  }

  /** `i` is where the regular-expression search finds its first match. */
  predicate IsFirstMatch(s: string, i: nat) {
    MatchAt(s, i) && forall j: nat :: j < i ==> !MatchAt(s, j)
  }

  /** The longest run of digits at the start of `s` (the greedy `\d+`). */
  function DigitRun(s: string): (r: string)
    ensures |r| <= |s| && r == s[..|r|] && AllDigits(r)
    ensures |r| < |s| ==> !IsDigit(s[|r|])
  {
    if |s| > 0 && IsDigit(s[0]) then [s[0]] + DigitRun(s[1..]) else []
  }

  /** Digits followed by something that is not a digit form the whole run. */
  lemma {:induction false} DigitRunOfDigits(d: string, q: string)
    requires AllDigits(d)
    requires q == [] || !IsDigit(q[0])
    ensures DigitRun(d + q) == d
  {
    if d != [] {
      assert (d + q)[1..] == d[1..] + q;
      DigitRunOfDigits(d[1..], q);
    }
  }

  /** Scan from `from` for the first position where the pattern matches. */
  function FirstMatchFrom(s: string, from: nat): (r: Option<nat>)
    ensures r.Some? ==> from <= r.value && MatchAt(s, r.value)
    ensures r.Some? ==> forall j: nat :: from <= j < r.value ==> !MatchAt(s, j)
    ensures r.None? ==> forall j: nat :: from <= j ==> !MatchAt(s, j)
    decreases |s| - from
  {
    if from + 7 > |s| then None
    else if MatchAt(s, from) then Some(from)
    else FirstMatchFrom(s, from + 1)
  }

  /** The level written in a building description: the digits after the
      first match of the pattern, or `None` when the pattern does not match
      (the source then fails indexing an empty list of matches). */
  function ParseLevel(description: string): Option<nat> {
    match FirstMatchFrom(description, 0)
    case None => None
    case Some(i) => Some(DigitsValue(DigitRun(description[i + 6..])))
  }

  /** ParseLevel is `int(re.findall(...)[0])`: no level exactly when the
      pattern matches nowhere, and otherwise the value of the digit run at
      the first match. */
  lemma ParseLevelMeaning(description: string)
    ensures ParseLevel(description).None? <==> forall i: nat :: !MatchAt(description, i)
    ensures ParseLevel(description).Some? ==> exists i: nat ::
      IsFirstMatch(description, i)
      && ParseLevel(description).value == DigitsValue(DigitRun(description[i + 6..]))
  {
    match FirstMatchFrom(description, 0)
    case None =>
    case Some(i) =>
      assert IsFirstMatch(description, i);
  }

  /** The keyword cannot overlap itself: a window that starts before a
      keyword and reaches into it is no match. */
  lemma NoMatchStraddlingKeyword(s: string, at: nat, i: nat)
    requires at + 6 <= |s| && KeywordAt(s, at)
    requires i < at < i + 7
    ensures !MatchAt(s, i)
  {
  }

  /** A match inside `p` is unaffected by what is appended to `p`. */
  lemma MatchAtPrefix(p: string, t: string, i: nat)
    requires i + 7 <= |p|
    ensures MatchAt(p + t, i) == MatchAt(p, i)
  {
    var s := p + t;
    assert s[i] == p[i] && s[i + 1] == p[i + 1] && s[i + 2] == p[i + 2] && s[i + 3] == p[i + 3];
    assert s[i + 4] == p[i + 4] && s[i + 5] == p[i + 5] && s[i + 6] == p[i + 6];
  }

  /** The first match is where the scan from the start stops. */
  lemma FirstMatchIsFound(s: string, at: nat)
    requires IsFirstMatch(s, at)
    ensures FirstMatchFrom(s, 0) == Some(at)
  {
    var found := FirstMatchFrom(s, 0);
    assert found.Some? && found.value <= at;
  }

  /** A keyword followed by a digit, placed after text without a match, is
      the first match. */
  lemma KeywordAfterNoMatchIsFirst(p: string, t: string)
    requires forall i: nat :: !MatchAt(p, i)
    requires |t| >= 7 && KeywordAt(t, 0) && IsDigit(t[6])
    ensures IsFirstMatch(p + t, |p|)
  {
    var s := p + t;
    var at := |p|;
    assert KeywordAt(s, at) by {
      assert s[at] == t[0] && s[at + 1] == t[1] && s[at + 2] == t[2];
      assert s[at + 3] == t[3] && s[at + 4] == t[4] && s[at + 5] == t[5];
    }
    assert s[at + 6] == t[6];
    forall i: nat | i < at ensures !MatchAt(s, i) {
      if i + 7 <= at {
        MatchAtPrefix(p, t, i);
      } else {
        NoMatchStraddlingKeyword(s, at, i);
      }
    }
  }

  /** Parsing finds the level written after the keyword, in whatever letter
      case, when nothing before it matches and no digit follows it. With
      empty `p` and `q` and `kw == "level "` this is the round trip
      ParseLevel("level " + DecimalText(n)) == Some(n). */
  lemma LevelFoundAfter(p: string, kw: string, n: nat, q: string)
    requires ParseLevel(p).None?
    requires |kw| == 6 && KeywordAt(kw, 0)
    requires q == [] || !IsDigit(q[0])
    ensures ParseLevel(p + kw + DecimalText(n) + q) == Some(n)
  {
    ParseLevelMeaning(p);
    var d := DecimalText(n);
    var rest := d + q;
    var t := kw + rest;
    assert KeywordAt(t, 0) by {
      assert t[0] == kw[0] && t[1] == kw[1] && t[2] == kw[2];
      assert t[3] == kw[3] && t[4] == kw[4] && t[5] == kw[5];
    }
    assert t[6] == d[0];
    KeywordAfterNoMatchIsFirst(p, t);
    var s := p + t;
    FirstMatchIsFound(s, |p|);
    DropPrefix(p, kw, rest);
    DigitRunOfDigits(d, q);
    DecimalTextRoundTrip(n);
    assert ParseLevel(s) == Some(n);
    ConcatAssociates(p, kw, d, q);
  }

  /** What follows a prefix and a keyword. */
  lemma DropPrefix(p: string, kw: string, rest: string)
    ensures (p + (kw + rest))[|p| + |kw|..] == rest
  {
  }

  lemma ConcatAssociates(a: string, b: string, c: string, d: string)
    ensures a + b + c + d == a + (b + (c + d))
  {
  }

  /** There is no word boundary in the pattern: a level hidden in a longer
      word is still found. */
  lemma SublevelIsALevel()
    ensures ParseLevel("Sublevel 3") == Some(3)
  {
    assert MatchAt("Sublevel 3", 3);
    assert FirstMatchFrom("Sublevel 3", 0) == Some(3);
    assert "Sublevel 3"[9..] == "3";
  }
}
