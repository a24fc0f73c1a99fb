/**
 * Column-name case converters. Each converter renames every column through a
 * function of the old name alone; the number and order of the columns never
 * change. Names are ASCII text; Python's `lower`, `upper` and `title` are
 * modelled on ASCII letters only.
 */
module CaseConvert {
  import opened Wrappers
  import opened Text

  predicate IsBlank(c: char) { c == ' ' }
  predicate IsUnderscore(c: char) { c == '_' }

  /** Regex `(_|-)`. */
  predicate IsUnderscoreOrDash(c: char) { c == '_' || c == '-' }

  /** Regex `( |-)`. */
  predicate IsBlankOrDash(c: char) { c == ' ' || c == '-' }

  /** Regex class `[A-z]`: the ASCII letters and the six signs between `Z` and `a`. */
  predicate InAtoz(c: char) { 'A' <= c <= 'z' }

  // Renaming the columns

  /** `dataframe.rename(columns={elem: f(elem) for elem in dataframe.columns})`. */
  function Rename(cols: seq<string>, f: string -> string): (r: seq<string>)
    ensures |r| == |cols|
    ensures forall i :: 0 <= i < |cols| ==> r[i] == f(cols[i])
  {
    seq(|cols|, i requires 0 <= i < |cols| => f(cols[i]))
  }

  /** The same renaming with a name function that may raise: one failure fails the whole call. */
  function RenameOrFail(cols: seq<string>, f: string -> Option<string>): (r: Option<seq<string>>)
    ensures r.Some? <==> forall i :: 0 <= i < |cols| ==> f(cols[i]).Some?
    ensures r.Some? ==> |r.value| == |cols|
    ensures r.Some? ==> forall i :: 0 <= i < |cols| ==> r.value[i] == f(cols[i]).value
  {
    if cols == [] then Some([])
    else if f(cols[0]).None? then None
    else
      var rest := RenameOrFail(cols[1..], f);
      if rest.None? then
        assert exists i :: 1 <= i < |cols| && f(cols[i]).None? by {
          var k :| 0 <= k < |cols[1..]| && f(cols[1..][k]).None?;
          assert cols[1..][k] == cols[k + 1];
        }
        None
      else
        Some([f(cols[0]).value] + rest.value)
  }

  // camel_to_snake

  /** Number of A–Z letters in `t`. */
  function CountUpper(t: string): nat
  {
    if t == [] then 0 else (if IsUpper(t[0]) then 1 else 0) + CountUpper(t[1..])
  }

  /** `_` inserted before every A–Z letter of `t`. */
  function Marked(t: string): string
  {
    if t == [] then []
    else if IsUpper(t[0]) then ['_', t[0]] + Marked(t[1..])
    else [t[0]] + Marked(t[1..])
  }

  lemma {:induction false} MarkedFacts(t: string)
    ensures |Marked(t)| == |t| + CountUpper(t)
    ensures RemoveAll(Marked(t), IsUnderscore) == RemoveAll(t, IsUnderscore)
    ensures NoneIn(t, IsUpper) ==> Marked(t) == t
    decreases |t|
  {
    if t != [] {
      var m := Marked(t[1..]);
      MarkedFacts(t[1..]);
      var r := Marked(t);
      if IsUpper(t[0]) {
        assert r == ['_', t[0]] + m;
        assert r[1..] == [t[0]] + m && ([t[0]] + m)[1..] == m;
      } else {
        assert r == [t[0]] + m;
        assert r[1..] == m;
        assert NoneIn(t, IsUpper) ==> NoneIn(t[1..], IsUpper);
      }
    }
  }

  /** Every capital of `r` at index `from` or later comes right after a `_`. */
  predicate UnderscoreBeforeCapitals(r: string, from: nat)
  {
    forall j :: from <= j < |r| && IsUpper(r[j]) ==> j > 0 && r[j - 1] == '_'
  }

  lemma {:induction false} MarkedCapitals(t: string)
    ensures UnderscoreBeforeCapitals(Marked(t), 0)
    decreases |t|
  {
    if t != [] {
      var m := Marked(t[1..]);
      MarkedCapitals(t[1..]);
      var r := Marked(t);
      if IsUpper(t[0]) {
        assert r == ['_', t[0]] + m;
        forall j | 0 <= j < |r| && IsUpper(r[j])
          ensures j > 0 && r[j - 1] == '_'
        {
          if j >= 2 {
            assert r[j] == m[j - 2] && r[j - 1] == m[j - 3];
          }
        }
      } else {
        assert r == [t[0]] + m;
        forall j | 0 <= j < |r| && IsUpper(r[j])
          ensures j > 0 && r[j - 1] == '_'
        {
          if j >= 1 {
            assert r[j] == m[j - 1];
            if j >= 2 {
              assert r[j - 1] == m[j - 2];
            }
          }
        }
      }
    }
  }

  /** `re.sub(r"(?<!^)(?=[A-Z])", "_", s)`. */
  function InsertUnderscores(s: string): string
  {
    if s == [] then [] else [s[0]] + Marked(s[1..])
  }

  /**
   * The regex puts one `_` before every A–Z letter that is not the first
   * character, and changes nothing else.
   */
  lemma InsertUnderscoresFacts(s: string)
    ensures |InsertUnderscores(s)| == |s| + (if s == [] then 0 else CountUpper(s[1..]))
    ensures UnderscoreBeforeCapitals(InsertUnderscores(s), 1)
    ensures s != [] ==> InsertUnderscores(s)[0] == s[0]
    ensures RemoveAll(InsertUnderscores(s), IsUnderscore) == RemoveAll(s, IsUnderscore)
    ensures NoneIn(s, IsUpper) ==> InsertUnderscores(s) == s
  {
    if s != [] {
      var m := Marked(s[1..]);
      var r := InsertUnderscores(s);
      MarkedFacts(s[1..]);
      MarkedCapitals(s[1..]);
      assert r == [s[0]] + m;
      assert r[1..] == m;
      forall j | 1 <= j < |r| && IsUpper(r[j])
        ensures r[j - 1] == '_'
      {
        assert r[j] == m[j - 1];
      }
      assert NoneIn(s, IsUpper) ==> NoneIn(s[1..], IsUpper);
    }
  }

  lemma {:induction false} LowerStrRemoveUnderscores(s: string)
    ensures RemoveAll(LowerStr(s), IsUnderscore) == LowerStr(RemoveAll(s, IsUnderscore))
    decreases |s|
  {
    if s != [] {
      assert LowerStr(s)[1..] == LowerStr(s[1..]);
      LowerStrRemoveUnderscores(s[1..]);
      if !IsUnderscore(s[0]) {
        assert LowerStr([s[0]] + RemoveAll(s[1..], IsUnderscore))
            == [Lower(s[0])] + LowerStr(RemoveAll(s[1..], IsUnderscore));
      }
    }
  }

  /** `camel_to_snake` on one name: the underscores of `InsertUnderscores`, then `lower()`. */
  function CamelToSnakeName(s: string): string
  {
    LowerStr(InsertUnderscores(s))
  }

  /**
   * Apart from the new underscores a name is only lower-cased, no capital
   * is left, and a name without capitals is returned as it is.
   */
  lemma CamelToSnakeFacts(s: string)
    ensures NoneIn(CamelToSnakeName(s), IsUpper)
    ensures |CamelToSnakeName(s)| == |s| + (if s == [] then 0 else CountUpper(s[1..]))
    ensures RemoveAll(CamelToSnakeName(s), IsUnderscore) == LowerStr(RemoveAll(s, IsUnderscore))
    ensures NoneIn(s, IsUpper) ==> CamelToSnakeName(s) == s
  {
    InsertUnderscoresFacts(s);
    LowerStrRemoveUnderscores(InsertUnderscores(s));
    if NoneIn(s, IsUpper) {
      LowerStrNoUpper(s);
    }
  }

  lemma CamelToSnakeExample(s: string, t: string)
    requires s == "HelloWorld" && t == "hello_world"
    ensures CamelToSnakeName(s) == t
  {
    InsertHello(s, "Hello_World");
    LowerHello("Hello_World", t);
  }

  lemma InsertHello(s: string, u: string)
    requires s == "HelloWorld" && u == "Hello_World"
    ensures InsertUnderscores(s) == u
  {
    HelloMarked(s[1..], u[1..]);
  }

  lemma LowerHello(u: string, t: string)
    requires u == "Hello_World" && t == "hello_world"
    ensures LowerStr(u) == t
  {
  }

  lemma HelloMarked(t: string, m: string)
    requires t == "elloWorld" && m == "ello_World"
    ensures Marked(t) == m
  {
    var head, tail := t[..4], t[5..];
    assert t == head + ([t[4]] + tail);
    MarkedCons(t[4], tail);
    MarkedNoUpper(tail, []);
    assert tail + [] == tail;
    MarkedNoUpper(head, [t[4]] + tail);
    assert m == head + (['_', t[4]] + tail);
  }

  lemma MarkedCons(c: char, t: string)
    ensures Marked([c] + t) == (if IsUpper(c) then ['_', c] else [c]) + Marked(t)
  {
    assert ([c] + t)[1..] == t;
  }

  lemma {:induction false} MarkedNoUpper(u: string, w: string)
    requires NoneIn(u, IsUpper)
    ensures Marked(u + w) == u + Marked(w)
    decreases |u|
  {
    if u != [] {
      assert u + w == [u[0]] + (u[1..] + w);
      MarkedCons(u[0], u[1..] + w);
      MarkedNoUpper(u[1..], w);
      assert u == [u[0]] + u[1..];
    } else {
      assert u + w == w;
    }
  }

  // space_to_snake and snake_to_space

  /** `re.sub(r" +", "_", s).lower()`: every run of spaces becomes one `_`. */
  function SpaceToSnakeName(s: string): (r: string)
    ensures NoneIn(r, IsBlank) && NoneIn(r, IsUpper)
    ensures NoneIn(s, IsBlank) ==> r == LowerStr(s)
  {
    var t := SubRuns(s, IsBlank, "_");
    SubRunsRemovesClass(s, IsBlank, "_");
    if NoneIn(s, IsBlank) then SubRunsNoRun(s, IsBlank, "_"); LowerStr(t) else LowerStr(t)
  }

  /** `re.sub(r"_+", " ", s)`: every run of underscores becomes one space. */
  function SnakeToSpaceName(s: string): (r: string)
    ensures NoneIn(r, IsUnderscore)
    ensures NoneIn(s, IsUnderscore) ==> r == s
  {
    SubRunsRemovesClass(s, IsUnderscore, " ");
    if NoneIn(s, IsUnderscore) then
      SubRunsNoRun(s, IsUnderscore, " ");
      SubRuns(s, IsUnderscore, " ")
    else
      SubRuns(s, IsUnderscore, " ")
  }

  // camel_to_space

  /**
   * `re.sub(r"([a-z])([A-Z])+", "\g<1> \g<2>", s)` as written: a lower-case
   * letter and the run of capitals after it become the letter, a space and
   * only the LAST capital of the run, because a repeated group keeps its last
   * repetition.
   */
  function CamelToSpaceNameAsWritten(s: string): (r: string)
    ensures s != [] ==> r != [] && r[0] == s[0]
    decreases |s|
  {
    if |s| < 2 then s
    else if IsLower(s[0]) && IsUpper(s[1]) then
      var n := RunLength(s[1..], IsUpper);
      [s[0], ' ', s[n]] + CamelToSpaceNameAsWritten(s[n + 1..])
    else
      [s[0]] + CamelToSpaceNameAsWritten(s[1..])
  }

  /** The as-written rule on one lower-case letter followed by a maximal run of capitals. */
  lemma CamelRunAsWritten(a: char, run: string, rest: string)
    requires IsLower(a) && run != []
    requires forall i :: 0 <= i < |run| ==> IsUpper(run[i])
    requires rest == [] || !IsUpper(rest[0])
    ensures CamelToSpaceNameAsWritten([a] + run + rest)
         == [a, ' ', run[|run| - 1]] + CamelToSpaceNameAsWritten(rest)
  {
    var s := [a] + run + rest;
    assert s[1..] == run + rest;
    RunLengthConcat(run, rest, IsUpper);
    assert s[|run|] == run[|run| - 1];
    assert s[|run| + 1..] == rest;
  }

  /** The as-written rule loses capitals: "myID" becomes "my D", not "my ID". */
  lemma CamelToSpaceDropsLetters(s: string, t: string)
    requires s == "myID" && t == "my D"
    ensures CamelToSpaceNameAsWritten(s) == t
    ensures RemoveAll(t, IsBlank) != RemoveAll(s, IsBlank)
  {
    CamelRunAsWritten('y', "ID", "");
    assert s == ['m'] + ("y" + "ID" + "");
    assert CamelToSpaceNameAsWritten(s) == ['m'] + CamelToSpaceNameAsWritten("y" + "ID" + "");
    assert NoneIn(s, IsBlank);
    assert |RemoveAll(t, IsBlank)| < |s| by {
      assert t == "my" + " D";
      RemoveAllConcat("my", " D", IsBlank);
      assert RemoveAll(" D", IsBlank) == "D";
    }
  }

  /**
   * `re.sub(r"([a-z])([A-Z]+)", "\g<1> \g<2>", s)`, the evidently intended
   * rule: a space goes between a lower-case letter and a capital after it,
   * and every letter is kept.
   */
  function CamelToSpaceName(s: string): string
    decreases |s|
  {
    if |s| < 2 then s
    else if IsLower(s[0]) && IsUpper(s[1]) then [s[0], ' '] + CamelToSpaceName(s[1..])
    else [s[0]] + CamelToSpaceName(s[1..])
  }

  /** Only spaces are added: with spaces removed, the name is the one given. */
  lemma {:induction false} CamelToSpaceKeepsLetters(s: string)
    ensures RemoveAll(CamelToSpaceName(s), IsBlank) == RemoveAll(s, IsBlank)
    ensures s != [] ==> CamelToSpaceName(s) != [] && CamelToSpaceName(s)[0] == s[0]
    decreases |s|
  {
    if |s| >= 2 {
      var m := CamelToSpaceName(s[1..]);
      CamelToSpaceKeepsLetters(s[1..]);
      RemoveAllConcat([s[0]], m, IsBlank);
      assert [s[0]][1..] == [];
      if IsLower(s[0]) && IsUpper(s[1]) {
        RemoveAllConcat([s[0], ' '], m, IsBlank);
        assert RemoveAll([s[0], ' '], IsBlank) == [s[0]] by {
          assert [s[0], ' '][1..] == [' '];
          assert [' '][1..] == [];
        }
      }
    }
  }

  /**
   * The two rules agree on names where no lower-case letter is followed by
   * two capitals: only a run of capitals after a lower-case letter loses letters.
   */
  lemma {:induction false} CamelToSpaceAgrees(s: string)
    requires forall i :: 0 <= i < |s| - 2 ==> !(IsLower(s[i]) && IsUpper(s[i + 1]) && IsUpper(s[i + 2]))
    ensures CamelToSpaceNameAsWritten(s) == CamelToSpaceName(s)
    decreases |s|
  {
    if |s| >= 2 {
      if IsLower(s[0]) && IsUpper(s[1]) {
        var t := s[1..];
        assert |t| >= 2 ==> !IsUpper(t[1]);
        assert RunLength(t, IsUpper) == 1 by {
          RunLengthConcat([t[0]], t[1..], IsUpper);
          assert [t[0]] + t[1..] == t;
        }
        assert s[2..] == t[1..];
        CamelToSpaceAgrees(s[2..]);
        if |t| >= 2 {
          assert CamelToSpaceName(t) == [t[0]] + CamelToSpaceName(t[1..]);
        }
      } else {
        CamelToSpaceAgrees(s[1..]);
      }
    }
  }

  /** As written, no lower-case letter is left directly before a capital. */
  lemma {:induction false} CamelToSpaceSplitsWords(s: string)
    ensures forall i :: 0 <= i < |CamelToSpaceNameAsWritten(s)| - 1
              ==> !(IsLower(CamelToSpaceNameAsWritten(s)[i]) && IsUpper(CamelToSpaceNameAsWritten(s)[i + 1]))
    decreases |s|
  {
    if |s| >= 2 {
      var r := CamelToSpaceNameAsWritten(s);
      if IsLower(s[0]) && IsUpper(s[1]) {
        var n := RunLength(s[1..], IsUpper);
        var m := CamelToSpaceNameAsWritten(s[n + 1..]);
        CamelToSpaceSplitsWords(s[n + 1..]);
        assert r == [s[0], ' ', s[n]] + m;
        assert forall i :: 3 <= i < |r| ==> r[i] == m[i - 3];
        assert m != [] ==> !IsUpper(m[0]) by {
          if n + 1 < |s| {
            assert s[1..][n] == s[n + 1];
          }
        }
      } else {
        var m := CamelToSpaceNameAsWritten(s[1..]);
        CamelToSpaceSplitsWords(s[1..]);
        assert r == [s[0]] + m;
        assert forall i :: 1 <= i < |r| ==> r[i] == m[i - 1];
      }
    }
  }

  /** As written, every character of the result is a space or a character of `s`. */
  lemma {:induction false} CamelToSpaceChars(s: string, keep: char -> bool)
    requires keep(' ')
    requires forall i :: 0 <= i < |s| ==> keep(s[i])
    ensures forall i :: 0 <= i < |CamelToSpaceNameAsWritten(s)| ==> keep(CamelToSpaceNameAsWritten(s)[i])
    decreases |s|
  {
    if |s| >= 2 {
      var r := CamelToSpaceNameAsWritten(s);
      if IsLower(s[0]) && IsUpper(s[1]) {
        var n := RunLength(s[1..], IsUpper);
        var m := CamelToSpaceNameAsWritten(s[n + 1..]);
        CamelToSpaceChars(s[n + 1..], keep);
        assert r == [s[0], ' ', s[n]] + m;
        assert forall i :: 3 <= i < |r| ==> r[i] == m[i - 3];
      } else {
        var m := CamelToSpaceNameAsWritten(s[1..]);
        CamelToSpaceChars(s[1..], keep);
        assert r == [s[0]] + m;
        assert forall i :: 1 <= i < |r| ==> r[i] == m[i - 1];
      }
    }
  }

  // Helpers of to_space and to_camel

  /** Character `i` of `_to_title`'s result, stated position by position. */
  function TitleChar(s: string, i: nat, atStart: bool): char
    requires i < |s|
  {
    if (i == 0 && atStart) || (i > 0 && IsSpace(s[i - 1])) then Upper(s[i]) else s[i]
  }

  /**
   * `_to_title`: `re.sub(r"(^|\s+)(?P<letter>[A-z])", ...)` upper-casing the
   * letter, scanned left to right; `atStart` tells whether `^` can still match.
   */
  function TitleScan(s: string, atStart: bool): string
    decreases |s|
  {
    if s == [] then []
    else if atStart && InAtoz(s[0]) then [Upper(s[0])] + TitleScan(s[1..], false)
    else if IsSpace(s[0]) then
      var n := RunLength(s, IsSpace);
      if n < |s| && InAtoz(s[n]) then s[..n] + [Upper(s[n])] + TitleScan(s[n + 1..], false)
      else s[..n] + TitleScan(s[n..], false)
    else [s[0]] + TitleScan(s[1..], false)
  }

  function ToTitle(s: string): string
  {
    TitleScan(s, true)
  }

  /**
   * The scan upper-cases exactly the characters at the start or right after
   * whitespace, and leaves every other character alone.
   */
  lemma {:induction false} TitleScanChars(s: string, atStart: bool)
    ensures |TitleScan(s, atStart)| == |s|
    ensures forall i :: 0 <= i < |s| ==> TitleScan(s, atStart)[i] == TitleChar(s, i, atStart)
    decreases |s|, 2
  {
    if s == [] {
    } else if atStart && InAtoz(s[0]) {
      TitleJoin(s, atStart, 1, [Upper(s[0])]);
    } else if IsSpace(s[0]) {
      TitleSpaceRun(s, atStart);
    } else {
      TitleJoin(s, atStart, 1, [s[0]]);
    }
  }

  /** The case of `TitleScanChars` where `s` starts with whitespace. */
  lemma {:induction false} TitleSpaceRun(s: string, atStart: bool)
    requires s != [] && IsSpace(s[0])
    ensures |TitleScan(s, atStart)| == |s|
    ensures forall i :: 0 <= i < |s| ==> TitleScan(s, atStart)[i] == TitleChar(s, i, atStart)
    decreases |s|, 1
  {
    var n := RunLength(s, IsSpace);
    if n < |s| && InAtoz(s[n]) {
      var prefix := s[..n] + [Upper(s[n])];
      forall i | 0 <= i < n + 1
        ensures prefix[i] == TitleChar(s, i, atStart)
      {
        if i < n {
          assert prefix[i] == s[i];
        }
      }
      TitleJoin(s, atStart, n + 1, prefix);
    } else {
      TitleJoin(s, atStart, n, s[..n]);
    }
  }

  /** The first `k` characters are `prefix`; the rest come from the recursive call on `s[k..]`. */
  lemma {:induction false} TitleJoin(s: string, atStart: bool, k: nat, prefix: string)
    requires 0 < k <= |s| && |prefix| == k
    requires TitleScan(s, atStart) == prefix + TitleScan(s[k..], false)
    requires forall i :: 0 <= i < k ==> prefix[i] == TitleChar(s, i, atStart)
    requires k == |s| || !IsSpace(s[k - 1]) || !IsLower(s[k])
    ensures |TitleScan(s, atStart)| == |s|
    ensures forall i :: 0 <= i < |s| ==> TitleScan(s, atStart)[i] == TitleChar(s, i, atStart)
    decreases |s|, 0
  {
    var t := s[k..];
    TitleScanChars(t, false);
    forall i | k <= i < |s|
      ensures TitleScan(s, atStart)[i] == TitleChar(s, i, atStart)
    {
      TitleJoinAt(s, atStart, k, prefix, i);
    }
  }

  /** One character past the prefix: the recursive call's character at `i - k`. */
  lemma TitleJoinAt(s: string, atStart: bool, k: nat, prefix: string, i: nat)
    requires 0 < k <= i < |s| && |prefix| == k
    requires TitleScan(s, atStart) == prefix + TitleScan(s[k..], false)
    requires |TitleScan(s[k..], false)| == |s| - k
    requires TitleScan(s[k..], false)[i - k] == TitleChar(s[k..], i - k, false)
    requires k == |s| || !IsSpace(s[k - 1]) || !IsLower(s[k])
    ensures TitleScan(s, atStart)[i] == TitleChar(s, i, atStart)
  {
    var t := s[k..];
    assert TitleScan(s, atStart)[i] == TitleScan(t, false)[i - k];
    assert t[i - k] == s[i];
    if i > k {
      assert t[i - k - 1] == s[i - 1];
    }
  }

  /** `_to_title` upper-cases only lower-case letters, so whitespace and other signs stay in place. */
  lemma TitleKeeps(t: string)
    ensures |ToTitle(t)| == |t|
    ensures forall i :: 0 <= i < |t| ==> ToTitle(t)[i] == t[i] || (IsLower(t[i]) && IsUpper(ToTitle(t)[i]))
    ensures forall i :: 0 <= i < |t| && (i == 0 || IsSpace(t[i - 1])) ==> !IsLower(ToTitle(t)[i])
  {
    TitleScanChars(t, true);
  }

  // _onedown

  /**
   * `_onedown(x, lower)`: with `lower` the first character is lower-cased and
   * the rest kept; `x[0]` on an empty name raises, modelled as `None`.
   */
  function OneDown(x: string, lower: bool): (r: Option<string>)
    ensures !lower ==> r == Some(x)
    ensures lower ==> (r.None? <==> x == [])
    ensures r.Some? ==> |r.value| == |x|
    ensures lower && x != [] ==> r.value[0] == Lower(x[0]) && r.value[1..] == x[1..]
  {
    if !lower then Some(x)
    else if x == [] then None
    else Some([Lower(x[0])] + x[1..])
  }

  // to_snake

  /** `to_snake` on one name: `camel_to_snake`, `space_to_snake`, then `re.sub("_+", "_", s)`. */
  function ToSnakeName(s: string): string
  {
    SubRuns(SpaceToSnakeName(CamelToSnakeName(s)), IsUnderscore, "_")
  }

  /** A snake-case name has no space, no capital and no doubled `_`. */
  lemma ToSnakeFacts(s: string)
    ensures NoneIn(ToSnakeName(s), IsBlank) && NoneIn(ToSnakeName(s), IsUpper)
    ensures NoDoubleRun(ToSnakeName(s), IsUnderscore)
  {
    var a := SpaceToSnakeName(CamelToSnakeName(s));
    SubRunsChars(a, IsUnderscore, "_", c => !IsBlank(c) && !IsUpper(c));
    SubRunsSingle(a, IsUnderscore, '_');
  }

  /** Converting a converted name again changes nothing. */
  lemma ToSnakeIdempotent(s: string)
    ensures ToSnakeName(ToSnakeName(s)) == ToSnakeName(s)
  {
    var t := ToSnakeName(s);
    ToSnakeFacts(s);
    CamelToSnakeFacts(t);
    assert SpaceToSnakeName(t) == LowerStr(t);
    LowerStrNoUpper(t);
    SubRunsSingleFixed(t, IsUnderscore, '_');
  }

  // to_space

  /**
   * `to_space` on one name: `snake_to_space`, `camel_to_space` (the rule
   * as written), whitespace runs to one space, then `_to_title` when `upper`
   * is set.
   */
  function ToSpaceName(s: string, upper: bool): string
  {
    var t := SubRuns(CamelToSpaceNameAsWritten(SnakeToSpaceName(s)), IsSpace, " ");
    if upper then ToTitle(t) else t
  }

  /** Collapsing whitespace after `camel_to_space` leaves single plain spaces and no `_`. */
  lemma SpacedFacts(s: string)
    ensures var t := SubRuns(CamelToSpaceNameAsWritten(SnakeToSpaceName(s)), IsSpace, " ");
      NoneIn(t, IsUnderscore) && NoDoubleRun(t, IsSpace) &&
      forall i :: 0 <= i < |t| && IsSpace(t[i]) ==> t[i] == ' '
  {
    var a := SnakeToSpaceName(s);
    CamelToSpaceChars(a, c => !IsUnderscore(c));
    var b := CamelToSpaceNameAsWritten(a);
    SubRunsChars(b, IsSpace, " ", c => !IsUnderscore(c));
    SubRunsChars(b, IsSpace, " ", c => !IsSpace(c) || c == ' ');
    SubRunsSingle(b, IsSpace, ' ');
  }

  /** No lower-case letter starts the name or follows a space. */
  predicate StartsCapitalised(r: string)
  {
    forall i :: 0 <= i < |r| && (i == 0 || r[i - 1] == ' ') ==> !IsLower(r[i])
  }

  /**
   * A space-case name has no `_`, no two whitespace characters in a row and
   * no whitespace but plain spaces; with `upper`, no lower-case letter starts
   * the name or follows a space.
   */
  lemma ToSpaceFacts(s: string, upper: bool)
    ensures NoneIn(ToSpaceName(s, upper), IsUnderscore)
    ensures NoDoubleRun(ToSpaceName(s, upper), IsSpace)
    ensures forall i :: 0 <= i < |ToSpaceName(s, upper)| && IsSpace(ToSpaceName(s, upper)[i])
              ==> ToSpaceName(s, upper)[i] == ' '
    ensures upper ==> StartsCapitalised(ToSpaceName(s, upper))
  {
    var t := SubRuns(CamelToSpaceNameAsWritten(SnakeToSpaceName(s)), IsSpace, " ");
    SpacedFacts(s);
    if upper {
      var r := ToTitle(t);
      TitleKeeps(t);
      forall i | 0 <= i < |r| - 1
        ensures !(IsSpace(r[i]) && IsSpace(r[i + 1]))
      {
        assert IsSpace(r[i]) ==> r[i] == t[i];
      }
      forall i | 0 <= i < |r| && (i == 0 || r[i - 1] == ' ')
        ensures !IsLower(r[i])
      {
        if i > 0 {
          assert t[i - 1] == ' ';
        }
      }
    }
  }

  // to_camel

  /**
   * `to_camel` on one name: `snake_to_space`, `_to_title`, whitespace
   * removed, then `_onedown` when `upper` is not set.
   */
  function ToCamelName(s: string, upper: bool): Option<string>
  {
    var t := RemoveAll(ToTitle(SnakeToSpaceName(s)), IsSpace);
    if upper then Some(t) else OneDown(t, true)
  }

  /** The first character kept when whitespace is removed from a `_to_title` result is not lower-case. */
  lemma TitledHead(a: string)
    requires RemoveAll(ToTitle(a), IsSpace) != []
    ensures !IsLower(RemoveAll(ToTitle(a), IsSpace)[0])
  {
    var x := ToTitle(a);
    TitleKeeps(a);
    var k := RemoveAllHead(x, IsSpace);
    if k > 0 {
      assert IsSpace(x[k - 1]);
      assert IsSpace(a[k - 1]);
    }
  }

  /**
   * A camel-case name has no whitespace and no `_`; its first character is
   * not lower-case with `upper` and not a capital without it. Only an empty
   * result with `upper` unset fails.
   */
  lemma ToCamelFacts(s: string, upper: bool)
    ensures upper ==> ToCamelName(s, upper).Some?
    ensures ToCamelName(s, upper).Some? ==>
      NoneIn(ToCamelName(s, upper).value, IsSpace) && NoneIn(ToCamelName(s, upper).value, IsUnderscore)
    ensures ToCamelName(s, upper).Some? && ToCamelName(s, upper).value != [] ==>
      if upper then !IsLower(ToCamelName(s, upper).value[0]) else !IsUpper(ToCamelName(s, upper).value[0])
  {
    var a := SnakeToSpaceName(s);
    var x := ToTitle(a);
    TitleKeeps(a);
    var t := RemoveAll(x, IsSpace);
    RemoveAllChars(x, IsSpace, c => !IsUnderscore(c));
    if upper && t != [] {
      TitledHead(a);
    }
  }

  // space_to_camel and snake_to_camel

  /**
   * `space_to_camel` on one name: `_`/`-` runs to one space, `title()`,
   * spaces removed, then `_onedown` unless `upper`.
   */
  function SpaceToCamelName(s: string, upper: bool): Option<string>
  {
    OneDown(RemoveAll(PyTitle(SubRuns(s, IsUnderscoreOrDash, " ")), IsBlank), !upper)
  }

  /**
   * `snake_to_camel` on one name: space/`-` runs to one `_`, `title()`,
   * underscores removed, then `_onedown` unless `upper`.
   */
  function SnakeToCamelName(s: string, upper: bool): Option<string>
  {
    OneDown(RemoveAll(PyTitle(SubRuns(s, IsBlankOrDash, "_")), IsUnderscore), !upper)
  }

  /** The first character kept when a class of non-letters is removed from a `title()` result is not lower-case. */
  lemma PyTitledHead(a: string, cls: char -> bool)
    requires forall c :: cls(c) ==> !IsLetter(c)
    requires RemoveAll(PyTitle(a), cls) != []
    ensures !IsLower(RemoveAll(PyTitle(a), cls)[0])
  {
    var x := PyTitle(a);
    PyTitleKeeps(a);
    var k := RemoveAllHead(x, cls);
    if k > 0 {
      assert !IsLetter(x[k - 1]);
    }
  }

  /** The separators are all gone; the first character is lower-cased exactly when `upper` is unset. */
  lemma SpaceToCamelFacts(s: string, upper: bool)
    ensures upper ==> SpaceToCamelName(s, upper).Some?
    ensures SpaceToCamelName(s, upper).Some? ==>
      NoneIn(SpaceToCamelName(s, upper).value, IsBlank) &&
      NoneIn(SpaceToCamelName(s, upper).value, IsUnderscoreOrDash)
    ensures SpaceToCamelName(s, upper).Some? && SpaceToCamelName(s, upper).value != [] ==>
      if upper then !IsLower(SpaceToCamelName(s, upper).value[0])
      else !IsUpper(SpaceToCamelName(s, upper).value[0])
  {
    var a := SubRuns(s, IsUnderscoreOrDash, " ");
    SubRunsRemovesClass(s, IsUnderscoreOrDash, " ");
    var x := PyTitle(a);
    PyTitleKeeps(a);
    assert NoneIn(x, IsUnderscoreOrDash);
    var t := RemoveAll(x, IsBlank);
    RemoveAllChars(x, IsBlank, c => !IsUnderscoreOrDash(c));
    if upper && t != [] {
      PyTitledHead(a, IsBlank);
    }
  }

  lemma SnakeToCamelFacts(s: string, upper: bool)
    ensures upper ==> SnakeToCamelName(s, upper).Some?
    ensures SnakeToCamelName(s, upper).Some? ==>
      NoneIn(SnakeToCamelName(s, upper).value, IsUnderscore) &&
      NoneIn(SnakeToCamelName(s, upper).value, IsBlankOrDash)
    ensures SnakeToCamelName(s, upper).Some? && SnakeToCamelName(s, upper).value != [] ==>
      if upper then !IsLower(SnakeToCamelName(s, upper).value[0])
      else !IsUpper(SnakeToCamelName(s, upper).value[0])
  {
    var a := SubRuns(s, IsBlankOrDash, "_");
    SubRunsRemovesClass(s, IsBlankOrDash, "_");
    var x := PyTitle(a);
    PyTitleKeeps(a);
    assert NoneIn(x, IsBlankOrDash);
    var t := RemoveAll(x, IsUnderscore);
    RemoveAllChars(x, IsUnderscore, c => !IsBlankOrDash(c));
    if upper && t != [] {
      PyTitledHead(a, IsUnderscore);
    }
  }

  // The data-frame converters: every one renames each column by its name alone.

  function CamelToSnake(cols: seq<string>): seq<string> { Rename(cols, CamelToSnakeName) }
  function SpaceToSnake(cols: seq<string>): seq<string> { Rename(cols, SpaceToSnakeName) }
  function SnakeToSpace(cols: seq<string>): seq<string> { Rename(cols, SnakeToSpaceName) }
  function CamelToSpace(cols: seq<string>): seq<string> { Rename(cols, CamelToSpaceNameAsWritten) }
  function ToSnake(cols: seq<string>): seq<string> { Rename(cols, ToSnakeName) }

  function ToSpace(cols: seq<string>, upper: bool): seq<string>
  {
    Rename(cols, s => ToSpaceName(s, upper))
  }

  function ToCamel(cols: seq<string>, upper: bool): Option<seq<string>>
  {
    RenameOrFail(cols, s => ToCamelName(s, upper))
  }

  function SpaceToCamel(cols: seq<string>, upper: bool): Option<seq<string>>
  {
    RenameOrFail(cols, s => SpaceToCamelName(s, upper))
  }

  function SnakeToCamel(cols: seq<string>, upper: bool): Option<seq<string>>
  {
    RenameOrFail(cols, s => SnakeToCamelName(s, upper))
  }
}
