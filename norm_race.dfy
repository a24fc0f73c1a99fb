/**
 * `NormRace.normalize`: cleans free-text race categories, looks them up in a
 * small abbreviation table, and relabels every entry that matches exactly one
 * of five category tests (and not the "multi" test) with that category's
 * label; entries containing "unknown" finally become "unknown". Entries that
 * match no test, several tests, or the multi test keep their cleaned text.
 */
module NormRace {
  import opened Text

  /** `astype(str)` of one cell; a missing value renders as "nan". */
  function RaceText(v: Raw): string
  {
    match v
    case Null => "nan"
    case Text(s) => s
    case Int(i) => IntToString(i)
  }

  /**
   * Length of the match of the noise pattern
   * `\(\)|-|^z|non-hispanic origin|non-hispanic|non hispanic|race\d|rac\d`
   * at index `i` (0 when none): the alternatives are tried in that order, and
   * `^z` matches only at index 0.
   */
  function NoiseAt(s: string, i: nat): (n: nat)
    requires i < |s|
    ensures i + n <= |s|
    ensures n == 0 ==> s[i] != '-'
  {
    if i + 2 <= |s| && MatchAt(s, "()", i) then 2
    else if s[i] == '-' then 1
    else if i == 0 && s[i] == 'z' then 1
    else if i + 19 <= |s| && MatchAt(s, "non-hispanic origin", i) then 19
    else if i + 12 <= |s| && MatchAt(s, "non-hispanic", i) then 12
    else if i + 12 <= |s| && MatchAt(s, "non hispanic", i) then 12
    else if i + 4 < |s| && MatchAt(s, "race", i) && IsDigit(s[i + 4]) then 5
    else if i + 3 < |s| && MatchAt(s, "rac", i) && IsDigit(s[i + 3]) then 4
    else 0
  }

  /** One left-to-right pass of the noise pattern from index `i`, deleting every match. */
  function RemoveNoiseFrom(s: string, i: nat): (r: string)
    requires i <= |s|
    ensures |r| <= |s| - i
    decreases |s| - i
  {
    if i == |s| then []
    else
      var n := NoiseAt(s, i);
      if n > 0 then RemoveNoiseFrom(s, i + n) else [s[i]] + RemoveNoiseFrom(s, i + 1)
  }

  /** Every hyphen is noise: none survives the pass. */
  lemma {:induction false} NoHyphenLeft(s: string, i: nat)
    requires i <= |s|
    ensures forall k :: 0 <= k < |RemoveNoiseFrom(s, i)| ==> RemoveNoiseFrom(s, i)[k] != '-'
    decreases |s| - i
  {
    if i < |s| {
      var n := NoiseAt(s, i);
      if n > 0 {
        NoHyphenLeft(s, i + n);
      } else {
        NoHyphenLeft(s, i + 1);
      }
    }
  }

  /** At index `k` no noise alternative can start, judged from two characters. */
  predicate QuietAt(s: string, k: int)
  {
    && 0 <= k < |s|
    && s[k] != '-'
    && !(k == 0 && s[k] == 'z')
    && (s[k] == '(' ==> k + 1 == |s| || s[k + 1] != ')')
    && (s[k] == 'n' ==> k + 1 == |s| || s[k + 1] != 'o')
    && (s[k] == 'r' ==> k + 1 == |s| || s[k + 1] != 'a')
  }

  lemma QuietNoNoise(s: string, k: nat)
    requires QuietAt(s, k)
    ensures NoiseAt(s, k) == 0
  {
  }

  /** A stretch where no noise can start is copied unchanged. */
  lemma {:induction false} CopyQuiet(s: string, i: nat, j: nat)
    requires i <= j <= |s|
    requires forall k | i <= k < j :: QuietAt(s, k)
    ensures RemoveNoiseFrom(s, i) == s[i..j] + RemoveNoiseFrom(s, j)
    decreases j - i
  {
    if i < j {
      QuietNoNoise(s, i);
      assert RemoveNoiseFrom(s, i) == [s[i]] + RemoveNoiseFrom(s, i + 1);
      CopyQuiet(s, i + 1, j);
      assert s[i..j] == [s[i]] + s[i + 1..j];
    }
  }

  /** Drops trailing whitespace. */
  function StripEnd(s: string): (r: string)
    ensures |r| <= |s| && r == s[..|r|]
    ensures r == [] || !IsSpace(r[|r| - 1])
  {
    if s != [] && IsSpace(s[|s| - 1]) then StripEnd(s[..|s| - 1]) else s
  }

  /** `str.strip()`: no leading or trailing whitespace remains. */
  function Strip(s: string): (r: string)
    ensures r == [] || (!IsSpace(r[0]) && !IsSpace(r[|r| - 1]))
    ensures |r| <= |s|
  {
    var t := SkipRun(s, IsSpace);
    var r := StripEnd(t);
    assert r != [] ==> r[0] == t[0];
    r
  }

  /** Noise removal then `strip`: the result holds no hyphen and no edge whitespace. */
  function Clean(s: string): (r: string)
    ensures forall k :: 0 <= k < |r| ==> r[k] != '-'
    ensures r == [] || (!IsSpace(r[0]) && !IsSpace(r[|r| - 1]))
  {
    var n := RemoveNoiseFrom(s, 0);
    NoHyphenLeft(s, 0);
    StripKeeps(n);
    Strip(n)
  }

  /** Every character `strip` keeps comes from its input. */
  lemma StripKeeps(s: string)
    ensures forall k :: 0 <= k < |Strip(s)| ==> Strip(s)[k] in s
  {
    var r := Strip(s);
    var t := SkipRun(s, IsSpace);
    assert forall k :: 0 <= k < |r| ==> r[k] == t[k];
    assert forall k :: 0 <= k < |t| ==> t[k] == s[|s| - |t| + k];
  }

  /** The abbreviation table; any other text maps to itself. */
  const RaceDict: map<string, string> := map[
    "as" := "asian", "pi" := "pacific islander", "hs" := "hispanic",
    "un" := "unknown", "am" := "native american", "bl" := "black",
    "mu" := "multiracial", "wh" := "white", "amind" := "native american",
    "an" := "native american", "pacif" := "pacific islander",
    "american indian" := "american native", "africanamerican" := "african american",
    "na" := "unknown", "n a" := "unknown", "n/a" := "unknown",
    "am. ind" := "native american"]

  function Lookup(s: string): (r: string)
    ensures s !in RaceDict ==> r == s
  {
    if s in RaceDict then RaceDict[s] else s
  }

  /** The text every category test is applied to: rendered, lower-cased, cleaned, looked up. */
  function Prepared(v: Raw): string
  {
    Lookup(Clean(LowerStr(RaceText(v))))
  }

  /** No newline lies in `s[lo..hi]` (regex `.` does not match a newline). */
  predicate NoNewline(s: string, lo: int, hi: int)
  {
    forall k :: lo <= k < hi && 0 <= k < |s| ==> s[k] != '\n'
  }

  /** Regex `a.*b`: an `a` followed, later on the same line, by a `b`. */
  predicate Ordered(s: string, a: string, b: string)
  {
    exists i, j | 0 <= i <= |s| && 0 <= j <= |s| ::
      i + |a| <= j && MatchAt(s, a, i) && MatchAt(s, b, j) && NoNewline(s, i + |a|, j)
  }

  lemma OrderedNeedsBoth(s: string, a: string, b: string)
    requires Ordered(s, a, b)
    ensures Contains(s, a) && Contains(s, b)
  {
  }

  /** The five category tests and the multi test. */
  predicate IsBlack(s: string)
  {
    (Contains(s, "african") || Contains(s, "bl")) && !Contains(s, "north")
  }

  predicate IsAmericanNative(s: string)
  {
    || Contains(s, "alaska")
    || Ordered(s, "american", "indian")
    || Ordered(s, "native", "american")
    || Ordered(s, "west", "indian")
    || Ordered(s, "american", "native")
  }

  predicate IsAsian(s: string)
  {
    (Contains(s, "asia") && !Contains(s, "cau")) || StartsWith(s, "indian")
  }

  predicate IsPacificIslander(s: string)
  {
    Contains(s, "hawai") || Contains(s, "paci") || Contains(s, "islander")
  }

  predicate IsWhite(s: string)
  {
    Contains(s, "white") || Contains(s, "cau") || Contains(s, "middle") || Contains(s, "north")
  }

  predicate IsMulti(s: string)
  {
    Contains(s, "multi") || Contains(s, "more") || Contains(s, "two") || StartsWith(s, "2")
  }

  /** The outcome of the six tests on one entry. */
  datatype Tests = Tests(black: bool, native: bool, asian: bool, islander: bool, white: bool, multi: bool)

  function TestsOf(s: string): Tests
  {
    Tests(IsBlack(s), IsAmericanNative(s), IsAsian(s), IsPacificIslander(s), IsWhite(s), IsMulti(s))
  }

  /** In how many of the five category tests an entry succeeds. */
  function Count(t: Tests): (n: nat)
    ensures n <= 5
  {
    (if t.black then 1 else 0) + (if t.native then 1 else 0) + (if t.asian then 1 else 0)
      + (if t.islander then 1 else 0) + (if t.white then 1 else 0)
  }

  /** The label of the single category an entry belongs to. */
  function Label(t: Tests): string
    requires Count(t) == 1
  {
    if t.black then "black"
    else if t.native then "american native"
    else if t.asian then "asian"
    else if t.islander then "hawaiian or pacific islander"
    else "white"
  }

  /** The outcome for an entry with text `s` and test results `t`. */
  function Decide(t: Tests, s: string): string
  {
    var u := if Unambiguous(t) then Label(t) else s;
    if Contains(u, "unknown") then "unknown" else u
  }

  function CategoryCount(s: string): nat { Count(TestsOf(s)) }

  function SingleLabel(s: string): string
    requires CategoryCount(s) == 1
  {
    Label(TestsOf(s))
  }

  /** The outcome for one prepared entry. */
  function RaceOf(s: string): string { Decide(TestsOf(s), s) }

  /** The labels themselves never contain "unknown". */
  lemma LabelsAreKnown(t: Tests)
    requires Count(t) == 1
    ensures !Contains(Label(t), "unknown")
  {
    if t.black {
      NoU("black");
    } else if t.native {
      NoU("american native");
    } else if t.asian {
      NoU("asian");
    } else if t.islander {
      NoU("hawaiian or pacific islander");
    } else {
      NoU("white");
    }
  }

  /** A text without the letter `u` does not contain "unknown". */
  lemma NoU(l: string)
    requires forall k :: 0 <= k < |l| ==> l[k] != 'u'
    ensures !Contains(l, "unknown")
  {
    forall i | 0 <= i <= |l|
      ensures !MatchAt(l, "unknown", i)
    {
      if MatchAt(l, "unknown", i) {
        MatchAtFirst(l, "unknown", i);
      }
    }
  }

  /**
   * Entries matching the multi test or two or more categories are not
   * relabelled: they keep their cleaned text unless it contains "unknown".
   */
  lemma AmbiguousKeepsText(s: string)
    requires IsMulti(s) || CategoryCount(s) >= 2
    ensures RaceOf(s) == (if Contains(s, "unknown") then "unknown" else s)
  {
  }

  /** An entry in exactly one category, and not multi, gets that category's label. */
  lemma SingleCategoryRelabelled(s: string)
    requires CategoryCount(s) == 1 && !IsMulti(s)
    ensures RaceOf(s) == SingleLabel(s)
    ensures RaceOf(s) in {"black", "american native", "asian", "hawaiian or pacific islander", "white"}
  {
    LabelsAreKnown(TestsOf(s));
  }

  /** An unambiguous entry is decided by its label alone. */
  lemma DecideSingle(t: Tests, s: string)
    requires Unambiguous(t)
    ensures Decide(t, s) == Label(t)
  {
    LabelsAreKnown(t);
  }

  /** Entries matching no category keep their cleaned text unless it contains "unknown". */
  lemma UnmatchedKeepsText(s: string)
    requires CategoryCount(s) == 0
    ensures RaceOf(s) == (if Contains(s, "unknown") then "unknown" else s)
  {
  }

  /** Writes `v` at every index of `idx`, as `x.loc[idx] = v` does. */
  method AssignAt(a: array<string>, idx: set<int>, v: string)
    modifies a
    ensures forall k :: 0 <= k < a.Length ==> a[k] == if k in idx then v else old(a[k])
  {
    var i := 0;
    while i < a.Length
      invariant 0 <= i <= a.Length
      invariant forall k :: 0 <= k < i ==> a[k] == if k in idx then v else old(a[k])
      invariant forall k :: i <= k < a.Length ==> a[k] == old(a[k])
    {
      if i in idx {
        a[i] := v;
      }
      i := i + 1;
    }
  }

  /** `duplicated()` on the concatenated index lists: an index's multiplicity is its number of sets. */
  lemma MultiplicityIsCount(b: set<int>, n: set<int>, a: set<int>, p: set<int>, w: set<int>, k: int)
    ensures (multiset(b) + multiset(n) + multiset(a) + multiset(p) + multiset(w))[k]
         == (if k in b then 1 else 0) + (if k in n then 1 else 0) + (if k in a then 1 else 0)
          + (if k in p then 1 else 0) + (if k in w then 1 else 0)
  {
  }

  /** An entry is relabelled only when it passes exactly one category test and not the multi test. */
  predicate Unambiguous(t: Tests)
  {
    Count(t) == 1 && !t.multi
  }

  /**
   * The index sets of `normalize`: the indices passing each category test,
   * less every index that passes the multi test or occurs in two or more
   * sets (`duplicated()` on the concatenated lists).
   */
  method CategoryIndices(tests: seq<Tests>)
    returns (black: set<int>, native: set<int>, asian: set<int>, islander: set<int>, white: set<int>)
    ensures forall k :: k in black <==> 0 <= k < |tests| && tests[k].black && Unambiguous(tests[k])
    ensures forall k :: k in native <==> 0 <= k < |tests| && tests[k].native && Unambiguous(tests[k])
    ensures forall k :: k in asian <==> 0 <= k < |tests| && tests[k].asian && Unambiguous(tests[k])
    ensures forall k :: k in islander <==> 0 <= k < |tests| && tests[k].islander && Unambiguous(tests[k])
    ensures forall k :: k in white <==> 0 <= k < |tests| && tests[k].white && Unambiguous(tests[k])
  {
    var n := |tests|;
    black := set k | 0 <= k < n && tests[k].black;
    native := set k | 0 <= k < n && tests[k].native;
    asian := set k | 0 <= k < n && tests[k].asian;
    islander := set k | 0 <= k < n && tests[k].islander;
    white := set k | 0 <= k < n && tests[k].white;
    var multi1 := set k | 0 <= k < n && tests[k].multi;

    var all := multiset(black) + multiset(native) + multiset(asian) + multiset(islander) + multiset(white);
    var multi2 := set k | k in all && all[k] >= 2;
    var multi := multi1 + multi2;
    forall k
      ensures k in multi <==> 0 <= k < n && (tests[k].multi || Count(tests[k]) >= 2)
    {
      MultiplicityIsCount(black, native, asian, islander, white, k);
    }

    black := black - multi;
    native := native - multi;
    asian := asian - multi;
    islander := islander - multi;
    white := white - multi;
  }

  /**
   * The in-place writes of `normalize`: every unambiguous entry receives its
   * category's label, then every entry containing "unknown" becomes "unknown".
   */
  method Relabel(cleaned: seq<string>, tests: seq<Tests>) returns (r: seq<string>)
    requires |tests| == |cleaned|
    ensures |r| == |cleaned|
    ensures forall k :: 0 <= k < |cleaned| ==> r[k] == Decide(tests[k], cleaned[k])
  {
    var n := |cleaned|;
    var a := new string[n](k requires 0 <= k < n => cleaned[k]);
    var black, native, asian, islander, white := CategoryIndices(tests);

    AssignAt(a, black, "black");
    AssignAt(a, native, "american native");
    AssignAt(a, asian, "asian");
    AssignAt(a, islander, "hawaiian or pacific islander");
    AssignAt(a, white, "white");
    forall k | 0 <= k < n
      ensures a[k] == if Unambiguous(tests[k]) then Label(tests[k]) else cleaned[k]
    {
    }

    var unknown := set k | 0 <= k < n && Contains(a[k], "unknown");
    AssignAt(a, unknown, "unknown");
    r := a[..];
  }

  /**
   * `normalize`: renders, lower-cases, cleans and looks up every entry, runs
   * the six tests on each, then relabels by index sets.
   */
  method Normalize(x: seq<Raw>) returns (r: seq<string>)
    ensures |r| == |x|
    ensures forall i :: 0 <= i < |x| ==> r[i] == RaceOf(Prepared(x[i]))
  {
    var prepared := seq(|x|, k requires 0 <= k < |x| => Prepared(x[k]));
    var tests := seq(|x|, k requires 0 <= k < |x| => TestsOf(prepared[k]));
    r := Relabel(prepared, tests);
  }
}

/** The expectations of the package's race test, entry by entry. */
module NormRaceExamples {
  import opened Text
  import opened NormRace

  /** Text without noise, already lower-case and stripped, is prepared as itself. */
  lemma PreparedPlain(s: string)
    requires forall k | 0 <= k < |s| :: QuietAt(s, k) && !IsUpper(s[k])
    requires s == [] || (!IsSpace(s[0]) && !IsSpace(s[|s| - 1]))
    requires s !in RaceDict
    ensures Prepared(Text(s)) == s
  {
    CopyQuiet(s, 0, |s|);
    assert s[0..|s|] == s;
    assert LowerStr(s) == s;
    PreparedFrom(s, s);
  }

  /** Lower-case text whose noise removal leaves `n`, stripped and not in the table, is prepared as `n`. */
  lemma PreparedFrom(s: string, n: string)
    requires LowerStr(s) == s
    requires RemoveNoiseFrom(s, 0) == n
    requires n == [] || (!IsSpace(n[0]) && !IsSpace(n[|n| - 1]))
    requires n !in RaceDict
    ensures Prepared(Text(s)) == n
  {
    StrippedStays(n);
  }

  lemma StrippedStays(n: string)
    requires n == [] || (!IsSpace(n[0]) && !IsSpace(n[|n| - 1]))
    ensures Strip(n) == n
  {
    if n != [] {
      assert SkipRun(n, IsSpace) == n;
    }
  }

  lemma NoiseBlackTail(s: string)
    requires s == "black (non-hispanic origin)"
    ensures RemoveNoiseFrom(s, 7) == ")"
  {
    MatchAtSlice(s, "non-hispanic origin", 7);
    assert NoiseAt(s, 7) == 19;
    CopyQuiet(s, 26, 27);
  }

  lemma NoiseBlack(s: string)
    requires s == "black (non-hispanic origin)"
    ensures RemoveNoiseFrom(s, 0) == "black ()"
  {
    CopyQuiet(s, 0, 7);
    NoiseBlackTail(s);
  }

  lemma PreparedBlack()
    ensures Prepared(Text("black (non-hispanic origin)")) == "black ()"
  {
    var s := "black (non-hispanic origin)";
    var n := "black ()";
    NoiseBlack(s);
    BlackLower(s);
    BlackCleaned(n);
    PreparedFrom(s, n);
  }

  lemma BlackCleaned(n: string)
    requires n == "black ()"
    ensures !IsSpace(n[0]) && !IsSpace(n[|n| - 1]) && n !in RaceDict
  {
  }

  lemma BlackLower(s: string)
    requires s == "black (non-hispanic origin)"
    ensures LowerStr(s) == s
  {
    forall k | 0 <= k < |s|
      ensures LowerStr(s)[k] == s[k]
    {
      assert !IsUpper(s[k]);
    }
  }

  lemma BlackBlack()
    ensures IsBlack("black ()")
  {
    assert MatchAt("black ()", "bl", 0);
  }

  lemma BlackAmericanNative()
    ensures !IsAmericanNative("black ()")
  {
  }

  lemma BlackAsian()
    ensures !IsAsian("black ()")
  {
  }

  lemma BlackPacificIslander()
    ensures !IsPacificIslander("black ()")
  {
  }

  lemma BlackWhite()
    ensures !IsWhite("black ()")
  {
  }

  lemma BlackMulti()
    ensures !IsMulti("black ()")
  {
  }

  lemma TestsBlack()
    ensures TestsOf("black ()") == Tests(true, false, false, false, false, false)
  {
    BlackBlack();
    BlackAmericanNative();
    BlackAsian();
    BlackPacificIslander();
    BlackWhite();
    BlackMulti();
  }

  lemma DecidedBlack()
    ensures RaceOf("black ()") == "black"
  {
    TestsBlack();
    DecideSingle(TestsOf("black ()"), "black ()");
  }

  /** The "(non-hispanic origin)" noise is removed; "black ()" is black. */
  lemma BlackEntry()
    ensures RaceOf(Prepared(Text("black (non-hispanic origin)"))) == "black"
  {
    PreparedBlack();
    DecidedBlack();
  }

  lemma PreparedAlaska()
    ensures Prepared(Text("american indian/alaska native")) == "american indian/alaska native"
  {
    PreparedPlain("american indian/alaska native");
  }

  lemma AlaskaBlack()
    ensures !IsBlack("american indian/alaska native")
  {
  }

  lemma AlaskaAmericanNative()
    ensures IsAmericanNative("american indian/alaska native")
  {
    var s := "american indian/alaska native";
    assert s[16] == 'a' && s[17] == 'l' && s[18] == 'a' && s[19] == 's' && s[20] == 'k' && s[21] == 'a';
    assert s[16..22] == "alaska";
    MatchAtSlice(s, "alaska", 16);
    assert MatchAt(s, "alaska", 16);
  }

  lemma AlaskaAsian()
    ensures !IsAsian("american indian/alaska native")
  {
  }

  lemma AlaskaPacificIslander()
    ensures !IsPacificIslander("american indian/alaska native")
  {
  }

  lemma AlaskaWhite()
    ensures !IsWhite("american indian/alaska native")
  {
  }

  lemma AlaskaMulti()
    ensures !IsMulti("american indian/alaska native")
  {
  }

  lemma TestsAlaska()
    ensures TestsOf("american indian/alaska native") == Tests(false, true, false, false, false, false)
  {
    AlaskaBlack();
    AlaskaAmericanNative();
    AlaskaAsian();
    AlaskaPacificIslander();
    AlaskaWhite();
    AlaskaMulti();
  }

  lemma DecidedAlaska()
    ensures RaceOf("american indian/alaska native") == "american native"
  {
    TestsAlaska();
    DecideSingle(TestsOf("american indian/alaska native"), "american indian/alaska native");
  }

  /** "alaska" marks the American native category. */
  lemma AlaskaEntry()
    ensures RaceOf(Prepared(Text("american indian/alaska native"))) == "american native"
  {
    PreparedAlaska();
    DecidedAlaska();
  }

  lemma PreparedHawaiian()
    ensures Prepared(Text("native hawaiian pacific island")) == "native hawaiian pacific island"
  {
    PreparedPlain("native hawaiian pacific island");
  }

  lemma HawaiianBlack()
    ensures !IsBlack("native hawaiian pacific island")
  {
  }

  lemma HawaiianAmericanNative()
    ensures !IsAmericanNative("native hawaiian pacific island")
  {
    assert !Contains("native hawaiian pacific island", "american");
    assert !Contains("native hawaiian pacific island", "west");
  }

  lemma HawaiianAsian()
    ensures !IsAsian("native hawaiian pacific island")
  {
  }

  lemma HawaiianPacificIslander()
    ensures IsPacificIslander("native hawaiian pacific island")
  {
    var s := "native hawaiian pacific island";
    assert s[7] == 'h' && s[8] == 'a' && s[9] == 'w' && s[10] == 'a' && s[11] == 'i';
    assert s[7..12] == "hawai";
    MatchAtSlice("native hawaiian pacific island", "hawai", 7);
    assert MatchAt("native hawaiian pacific island", "hawai", 7);
  }

  lemma HawaiianWhite()
    ensures !IsWhite("native hawaiian pacific island")
  {
  }

  lemma HawaiianMulti()
    ensures !IsMulti("native hawaiian pacific island")
  {
  }

  lemma TestsHawaiian()
    ensures TestsOf("native hawaiian pacific island") == Tests(false, false, false, true, false, false)
  {
    HawaiianBlack();
    HawaiianAmericanNative();
    HawaiianAsian();
    HawaiianPacificIslander();
    HawaiianWhite();
    HawaiianMulti();
  }

  lemma DecidedHawaiian()
    ensures RaceOf("native hawaiian pacific island") == "hawaiian or pacific islander"
  {
    TestsHawaiian();
    DecideSingle(TestsOf("native hawaiian pacific island"), "native hawaiian pacific island");
  }

  /** "hawai" marks the Pacific islander category. */
  lemma HawaiianEntry()
    ensures RaceOf(Prepared(Text("native hawaiian pacific island"))) == "hawaiian or pacific islander"
  {
    PreparedHawaiian();
    DecidedHawaiian();
  }

  lemma PreparedTwo()
    ensures Prepared(Text("238")) == "238"
  {
    PreparedPlain("238");
  }

  lemma TwoBlack()
    ensures !IsBlack("238")
  {
  }

  lemma TwoAmericanNative()
    ensures !IsAmericanNative("238")
  {
  }

  lemma TwoAsian()
    ensures !IsAsian("238")
  {
  }

  lemma TwoPacificIslander()
    ensures !IsPacificIslander("238")
  {
  }

  lemma TwoWhite()
    ensures !IsWhite("238")
  {
  }

  lemma TwoMulti()
    ensures IsMulti("238")
  {
  }

  lemma TestsTwo()
    ensures TestsOf("238") == Tests(false, false, false, false, false, true)
  {
    TwoBlack();
    TwoAmericanNative();
    TwoAsian();
    TwoPacificIslander();
    TwoWhite();
    TwoMulti();
  }

  lemma DecidedTwo()
    ensures RaceOf("238") == "238"
  {
    TestsTwo();
  }

  /** "238" starts with "2", the multi test, so it keeps its text. */
  lemma TwoEntry()
    ensures RaceOf(Prepared(Text("238"))) == "238"
  {
    PreparedTwo();
    DecidedTwo();
  }

  lemma PreparedInteger()
    ensures Prepared(Int(184)) == "184"
  {
    assert IntToString(184) == "184";
    PreparedPlain("184");
  }

  lemma IntegerBlack()
    ensures !IsBlack("184")
  {
  }

  lemma IntegerAmericanNative()
    ensures !IsAmericanNative("184")
  {
  }

  lemma IntegerAsian()
    ensures !IsAsian("184")
  {
  }

  lemma IntegerPacificIslander()
    ensures !IsPacificIslander("184")
  {
  }

  lemma IntegerWhite()
    ensures !IsWhite("184")
  {
  }

  lemma IntegerMulti()
    ensures !IsMulti("184")
  {
  }

  lemma TestsInteger()
    ensures TestsOf("184") == Tests(false, false, false, false, false, false)
  {
    IntegerBlack();
    IntegerAmericanNative();
    IntegerAsian();
    IntegerPacificIslander();
    IntegerWhite();
    IntegerMulti();
  }

  lemma DecidedInteger()
    ensures RaceOf("184") == "184"
  {
    TestsInteger();
  }

  /** An integer is rendered with `str` and kept. */
  lemma IntegerEntry()
    ensures RaceOf(Prepared(Int(184))) == "184"
  {
    PreparedInteger();
    DecidedInteger();
  }

  lemma PreparedEgyptian()
    ensures Prepared(Text("egyptian")) == "egyptian"
  {
    PreparedPlain("egyptian");
  }

  lemma EgyptianBlack()
    ensures !IsBlack("egyptian")
  {
  }

  lemma EgyptianAmericanNative()
    ensures !IsAmericanNative("egyptian")
  {
  }

  lemma EgyptianAsian()
    ensures !IsAsian("egyptian")
  {
  }

  lemma EgyptianPacificIslander()
    ensures !IsPacificIslander("egyptian")
  {
  }

  lemma EgyptianWhite()
    ensures !IsWhite("egyptian")
  {
  }

  lemma EgyptianMulti()
    ensures !IsMulti("egyptian")
  {
  }

  lemma TestsEgyptian()
    ensures TestsOf("egyptian") == Tests(false, false, false, false, false, false)
  {
    EgyptianBlack();
    EgyptianAmericanNative();
    EgyptianAsian();
    EgyptianPacificIslander();
    EgyptianWhite();
    EgyptianMulti();
  }

  lemma DecidedEgyptian()
    ensures RaceOf("egyptian") == "egyptian"
  {
    TestsEgyptian();
  }

  /** Text matching no test is kept. */
  lemma EgyptianEntry()
    ensures RaceOf(Prepared(Text("egyptian"))) == "egyptian"
  {
    PreparedEgyptian();
    DecidedEgyptian();
  }
}
