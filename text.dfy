/** Option and Result: the source's `None` and the exceptions it raises. */
module Wrappers {
  datatype Option<+T> = None | Some(value: T)

  /** `Err` carries the message of the exception the source raises. */
  datatype Result<+T> = Ok(value: T) | Err(message: string)
}

/**
 * ASCII character classes and the Python string operations the packages use
 * (`str.lower`, `str.title`, substring search, `re.sub` of a character run).
 * Unicode case mapping is outside the model: only ASCII letters change case.
 */
module Text {
  import opened Wrappers

  predicate IsUpper(c: char) { 'A' <= c <= 'Z' }
  predicate IsLower(c: char) { 'a' <= c <= 'z' }
  predicate IsLetter(c: char) { IsUpper(c) || IsLower(c) }
  predicate IsDigit(c: char) { '0' <= c <= '9' }

  /** Regex `\w` restricted to ASCII. */
  predicate IsWordChar(c: char) { IsLetter(c) || IsDigit(c) || c == '_' }

  /** Python's `str.isspace` (and regex `\s`) on ASCII: space, \t..\r and \x1c..\x1f. */
  predicate IsSpace(c: char) { c == ' ' || 9 <= c as int <= 13 || 28 <= c as int <= 31 }

  function Lower(c: char): (r: char)
    ensures !IsUpper(r)
    ensures IsLetter(c) <==> IsLetter(r)
    ensures !IsUpper(c) ==> r == c
  {
    if IsUpper(c) then (c as int + 32) as char else c
  }

  function Upper(c: char): (r: char)
    ensures !IsLower(r)
    ensures IsLetter(c) <==> IsLetter(r)
    ensures !IsLower(c) ==> r == c
  {
    if IsLower(c) then (c as int - 32) as char else c
  }

  /** `str.lower()` for ASCII text. */
  function LowerStr(s: string): (r: string)
    ensures |r| == |s|
    ensures forall i :: 0 <= i < |s| ==> r[i] == Lower(s[i])
  {
    seq(|s|, i requires 0 <= i < |s| => Lower(s[i]))
  }

  lemma LowerStrNoUpper(s: string)
    requires NoneIn(s, IsUpper)
    ensures LowerStr(s) == s
  {
  }

  /**
   * `str.title()` for ASCII text: a letter that starts a run of letters is
   * upper-cased, every other letter lower-cased, other characters kept.
   */
  function PyTitle(s: string): (r: string)
    ensures |r| == |s|
  {
    seq(|s|, i requires 0 <= i < |s| =>
      if !IsLetter(s[i]) then s[i]
      else if i > 0 && IsLetter(s[i - 1]) then Lower(s[i])
      else Upper(s[i]))
  }

  /** `title()` changes only letters, and only their case. */
  lemma PyTitleKeeps(s: string)
    ensures forall i :: 0 <= i < |s| ==> (IsLetter(PyTitle(s)[i]) <==> IsLetter(s[i]))
    ensures forall i :: 0 <= i < |s| && !IsLetter(s[i]) ==> PyTitle(s)[i] == s[i]
  {
  }

  /** `p[j..]` occurs in `s` starting at index `i + j`. */
  predicate MatchFrom(s: string, p: string, i: int, j: nat)
    decreases |p| - j
  {
    j >= |p| || (0 <= i + j < |s| && s[i + j] == p[j] && MatchFrom(s, p, i, j + 1))
  }

  /** `p` occurs in `s` starting at index `i`. */
  predicate MatchAt(s: string, p: string, i: int)
  {
    MatchFrom(s, p, i, 0)
  }

  lemma {:induction false} MatchFromSlice(s: string, p: string, i: int, j: nat)
    requires j <= |p|
    ensures MatchFrom(s, p, i, j) <==> j == |p| || (0 <= i + j && i + |p| <= |s| && s[i + j..i + |p|] == p[j..])
    decreases |p| - j
  {
    if j < |p| {
      MatchFromSlice(s, p, i, j + 1);
      if 0 <= i + j && i + |p| <= |s| && s[i + j..i + |p|] == p[j..] {
        assert s[i + j] == s[i + j..i + |p|][0];
        assert s[i + j + 1..i + |p|] == s[i + j..i + |p|][1..];
        assert p[j + 1..] == p[j..][1..];
      }
      if MatchFrom(s, p, i, j) && j + 1 < |p| {
        assert s[i + j..i + |p|] == [s[i + j]] + s[i + j + 1..i + |p|];
        assert p[j..] == [p[j]] + p[j + 1..];
      }
    }
  }

  lemma MatchAtSlice(s: string, p: string, i: int)
    ensures MatchAt(s, p, i) <==> (0 <= i && i + |p| <= |s| && s[i..i + |p|] == p) || p == []
  {
    MatchFromSlice(s, p, i, 0);
  }

  /** Substring search: `p in s`, `re.search` of a plain word. */
  predicate Contains(s: string, p: string)
  {
    exists i | 0 <= i <= |s| :: MatchAt(s, p, i)
  }

  /** `s.startswith(p)`, `re.match` of a plain word. */
  predicate StartsWith(s: string, p: string) { MatchAt(s, p, 0) }

  /** A match lies inside the text, so it also occurs in any text extending it. */
  lemma MatchAtAppend(s: string, t: string, p: string, i: int)
    requires MatchAt(s, p, i)
    ensures MatchAt(s + t, p, i)
  {
    MatchAtSlice(s, p, i);
    MatchAtSlice(s + t, p, i);
    if p != [] {
      assert (s + t)[i..i + |p|] == s[i..i + |p|];
    }
  }

  lemma MatchAtPrepend(s: string, t: string, p: string, i: int)
    requires MatchAt(s, p, i)
    ensures MatchAt(t + s, p, |t| + i)
  {
    MatchAtSlice(s, p, i);
    MatchAtSlice(t + s, p, |t| + i);
    if p != [] {
      assert (t + s)[|t| + i..|t| + i + |p|] == s[i..i + |p|];
    }
  }

  /** A match of a non-empty pattern starts with the pattern's first character. */
  lemma MatchAtFirst(s: string, p: string, i: int)
    requires MatchAt(s, p, i) && |p| > 0
    ensures 0 <= i < |s| && s[i] == p[0] && i + |p| <= |s|
  {
    MatchAtSlice(s, p, i);
  }

  /** `sep.join(parts)`. */
  function Join(parts: seq<string>, sep: string): string
  {
    if |parts| == 0 then ""
    else if |parts| == 1 then parts[0]
    else parts[0] + sep + Join(parts[1..], sep)
  }

  lemma {:induction false} JoinAppend(parts: seq<string>, p: string, sep: string)
    requires |parts| > 0
    ensures Join(parts + [p], sep) == Join(parts, sep) + sep + p
  {
    if |parts| == 1 {
      assert parts + [p] == [parts[0], p];
    } else {
      assert (parts + [p])[1..] == parts[1..] + [p];
      JoinAppend(parts[1..], p, sep);
    }
  }

  /** Every character of `s` lies outside the class `cls`. */
  predicate NoneIn(s: string, cls: char -> bool)
  {
    forall i :: 0 <= i < |s| ==> !cls(s[i])
  }

  /** Length of the leading run of characters of class `cls`. */
  function RunLength(s: string, cls: char -> bool): (n: nat)
    ensures n <= |s|
    ensures forall i :: 0 <= i < n ==> cls(s[i])
    ensures n < |s| ==> !cls(s[n])
  {
    if s == [] || !cls(s[0]) then 0
    else
      var m := RunLength(s[1..], cls);
      assert forall i :: 1 <= i < 1 + m ==> s[i] == s[1..][i - 1];
      1 + m
  }

  /** The leading run of `run + rest` is `run` when `rest` does not continue it. */
  lemma RunLengthConcat(run: string, rest: string, cls: char -> bool)
    requires forall i :: 0 <= i < |run| ==> cls(run[i])
    requires rest == [] || !cls(rest[0])
    ensures RunLength(run + rest, cls) == |run|
  {
    assert forall i :: 0 <= i < |run| ==> cls((run + rest)[i]);
    assert |run| < |run + rest| ==> !cls((run + rest)[|run|]);
  }

  /** A run that ends inside `s`, or ends it where `rest` does not continue it, ignores `rest`. */
  lemma RunLengthStops(s: string, rest: string, cls: char -> bool)
    requires rest == [] || !cls(rest[0])
    ensures RunLength(s + rest, cls) == RunLength(s, cls)
  {
    var n := RunLength(s, cls);
    assert forall i :: 0 <= i < n ==> cls((s + rest)[i]);
    assert n < |s + rest| ==> !cls((s + rest)[n]);
  }

  /** Drops the leading run of characters of class `cls`. */
  function SkipRun(s: string, cls: char -> bool): (r: string)
    ensures |r| <= |s| && r == s[|s| - |r|..]
    ensures r == [] || !cls(r[0])
    ensures s != [] && cls(s[0]) ==> |r| < |s|
  {
    s[RunLength(s, cls)..]
  }

  /**
   * `re.sub("<cls>+", rep, s)`: every maximal run of characters of class `cls`
   * becomes one copy of `rep`.
   */
  function SubRuns(s: string, cls: char -> bool, rep: string): string
    decreases |s|
  {
    if s == [] then []
    else if cls(s[0]) then rep + SubRuns(SkipRun(s, cls), cls, rep)
    else [s[0]] + SubRuns(s[1..], cls, rep)
  }

  /** A text with no character of the class is left as it is. */
  lemma {:induction false} SubRunsNoRun(s: string, cls: char -> bool, rep: string)
    requires NoneIn(s, cls)
    ensures SubRuns(s, cls, rep) == s
    decreases |s|
  {
    if s != [] {
      SubRunsNoRun(s[1..], cls, rep);
    }
  }

  /** If `rep` holds no character of the class, neither does the result. */
  lemma {:induction false} SubRunsRemovesClass(s: string, cls: char -> bool, rep: string)
    requires NoneIn(rep, cls)
    ensures NoneIn(SubRuns(s, cls, rep), cls)
    decreases |s|
  {
    if s != [] {
      if cls(s[0]) {
        SubRunsRemovesClass(SkipRun(s, cls), cls, rep);
      } else {
        SubRunsRemovesClass(s[1..], cls, rep);
      }
    }
  }

  /** Every character of the result comes from `s` or from `rep`. */
  lemma {:induction false} SubRunsChars(s: string, cls: char -> bool, rep: string, keep: char -> bool)
    requires forall i :: 0 <= i < |s| ==> cls(s[i]) || keep(s[i])
    requires forall i :: 0 <= i < |rep| ==> keep(rep[i])
    ensures forall i :: 0 <= i < |SubRuns(s, cls, rep)| ==> keep(SubRuns(s, cls, rep)[i])
    decreases |s|
  {
    if s != [] {
      if cls(s[0]) {
        SubRunsChars(SkipRun(s, cls), cls, rep, keep);
      } else {
        SubRunsChars(s[1..], cls, rep, keep);
      }
    }
  }

  /** No two neighbouring characters of `s` are both in the class. */
  predicate NoDoubleRun(s: string, cls: char -> bool)
  {
    forall i :: 0 <= i < |s| - 1 ==> !(cls(s[i]) && cls(s[i + 1]))
  }

  /**
   * Replacing runs with a single class character leaves no two class
   * characters side by side (e.g. no "__" after `re.sub("_+", "_", s)`).
   */
  lemma {:induction false} SubRunsSingle(s: string, cls: char -> bool, c: char)
    requires cls(c)
    ensures NoDoubleRun(SubRuns(s, cls, [c]), cls)
    ensures SubRuns(s, cls, [c]) != [] && s != [] ==> (cls(SubRuns(s, cls, [c])[0]) <==> cls(s[0]))
    decreases |s|
  {
    if s != [] {
      var r := SubRuns(s, cls, [c]);
      if cls(s[0]) {
        var t := SkipRun(s, cls);
        SubRunsSingle(t, cls, c);
        var rt := SubRuns(t, cls, [c]);
        assert r == [c] + rt;
        if rt != [] {
          assert t != [];
          assert !cls(rt[0]);
        }
      } else {
        SubRunsSingle(s[1..], cls, c);
      }
    }
  }

  /** Text already free of doubled class characters, all equal to `c`, is a fixed point. */
  lemma {:induction false} SubRunsSingleFixed(s: string, cls: char -> bool, c: char)
    requires NoDoubleRun(s, cls)
    requires forall i :: 0 <= i < |s| && cls(s[i]) ==> s[i] == c
    ensures SubRuns(s, cls, [c]) == s
    decreases |s|
  {
    if s != [] {
      if cls(s[0]) {
        var t := SkipRun(s, cls);
        assert t == s[1..] by {
          if |s| > 1 {
            assert !cls(s[1]);
          }
        }
        SubRunsSingleFixed(s[1..], cls, c);
        assert s == [c] + s[1..];
      } else {
        SubRunsSingleFixed(s[1..], cls, c);
        assert s == [s[0]] + s[1..];
      }
    }
  }

  /** Removes every character of the class (`s.replace(c, "")`, `re.sub("\s+", "", s)`). */
  function RemoveAll(s: string, cls: char -> bool): (r: string)
    ensures NoneIn(r, cls)
    ensures |r| <= |s|
    ensures NoneIn(s, cls) ==> r == s
  {
    if s == [] then []
    else if cls(s[0]) then RemoveAll(s[1..], cls)
    else [s[0]] + RemoveAll(s[1..], cls)
  }

  lemma {:induction false} RemoveAllConcat(a: string, b: string, cls: char -> bool)
    ensures RemoveAll(a + b, cls) == RemoveAll(a, cls) + RemoveAll(b, cls)
    decreases |a|
  {
    if a != [] {
      assert (a + b)[1..] == a[1..] + b;
      RemoveAllConcat(a[1..], b, cls);
    } else {
      assert a + b == b;
    }
  }

  /** Every character of the result is a character of `s`. */
  lemma {:induction false} RemoveAllChars(s: string, cls: char -> bool, keep: char -> bool)
    requires forall i :: 0 <= i < |s| ==> keep(s[i])
    ensures forall i :: 0 <= i < |RemoveAll(s, cls)| ==> keep(RemoveAll(s, cls)[i])
    decreases |s|
  {
    if s != [] {
      RemoveAllChars(s[1..], cls, keep);
    }
  }

  /** The first character kept by `RemoveAll` is the first one outside the class. */
  lemma {:induction false} RemoveAllHead(s: string, cls: char -> bool) returns (k: nat)
    requires RemoveAll(s, cls) != []
    ensures k < |s| && !cls(s[k]) && RemoveAll(s, cls)[0] == s[k]
    ensures forall j :: 0 <= j < k ==> cls(s[j])
    decreases |s|
  {
    if cls(s[0]) {
      var k' := RemoveAllHead(s[1..], cls);
      k := k' + 1;
      assert forall j :: 1 <= j < k ==> s[j] == s[1..][j - 1];
    } else {
      k := 0;
    }
  }

  lemma {:induction false} SubRunsEmptyIsRemoveAll(s: string, cls: char -> bool)
    ensures SubRuns(s, cls, "") == RemoveAll(s, cls)
    decreases |s|
  {
    if s != [] {
      if cls(s[0]) {
        var t := SkipRun(s, cls);
        SubRunsEmptyIsRemoveAll(t, cls);
        RemoveAllSkipRun(s, cls);
      } else {
        SubRunsEmptyIsRemoveAll(s[1..], cls);
      }
    }
  }

  lemma {:induction false} RemoveAllSkipRun(s: string, cls: char -> bool)
    ensures RemoveAll(SkipRun(s, cls), cls) == RemoveAll(s, cls)
    decreases |s|
  {
    if s != [] && cls(s[0]) {
      RemoveAllSkipRun(s[1..], cls);
    }
  }

  /** `"'{}'".format(s)`. */
  function Quote(s: string): string { "'" + s + "'" }

  function QuoteAll(ns: seq<string>): (r: seq<string>)
    ensures |r| == |ns|
    ensures forall i :: 0 <= i < |ns| ==> r[i] == Quote(ns[i])
  {
    seq(|ns|, i requires 0 <= i < |ns| => Quote(ns[i]))
  }

  /** No occurrence of a non-empty `p` starts at or after `start`. */
  lemma NoMatchPastEnd(s: string, p: string, start: int)
    requires |p| > 0 && start + |p| > |s|
    ensures forall j | start <= j :: !MatchAt(s, p, j)
  {
    forall j | start <= j
      ensures !MatchAt(s, p, j)
    {
      MatchAtSlice(s, p, j);
    }
  }

  /** `s.find(p, start)`: the first index at or after `start` where `p` occurs. */
  function FindFrom(s: string, p: string, start: nat): (r: Option<nat>)
    requires |p| > 0
    ensures r.Some? ==> start <= r.value && MatchAt(s, p, r.value)
    ensures r.Some? ==> forall j | start <= j < r.value :: !MatchAt(s, p, j)
    ensures r.None? ==> forall j | start <= j :: !MatchAt(s, p, j)
    decreases |s| - start
  {
    if start + |p| > |s| then NoMatchPastEnd(s, p, start); None
    else if MatchAt(s, p, start) then Some(start)
    else FindFrom(s, p, start + 1)
  }

  /** The first occurrence is the one `FindFrom` reports. */
  lemma {:induction false} FindFromFirst(s: string, p: string, start: nat, q: nat)
    requires |p| > 0 && start <= q && MatchAt(s, p, q)
    requires forall j | start <= j < q :: !MatchAt(s, p, j)
    ensures FindFrom(s, p, start) == Some(q)
    decreases q - start
  {
    MatchAtFirst(s, p, q);
    if start < q {
      FindFromFirst(s, p, start + 1, q);
    }
  }

  /** `s.replace("", r)`: `r` before every character and at the end. */
  function InsertEverywhere(s: string, r: string): (t: string)
    ensures |t| == |s| + (|s| + 1) * |r|
  {
    if s == [] then r else r + [s[0]] + InsertEverywhere(s[1..], r)
  }

  /**
   * `s.replace(p, r)`, equivalently `re.sub` of a pattern without special
   * characters: the leftmost occurrence is replaced, scanning resumes after
   * it, and replacements are never rescanned.
   */
  function ReplaceAll(s: string, p: string, r: string): string
    decreases |s|
  {
    if p == [] then InsertEverywhere(s, r)
    else if |s| < |p| then s
    else if s[..|p|] == p then r + ReplaceAll(s[|p|..], p, r)
    else [s[0]] + ReplaceAll(s[1..], p, r)
  }

  /** Dropping the first character shifts every occurrence one place left. */
  lemma MatchAtTail(s: string, p: string, i: int)
    requires |s| > 0 && 0 <= i
    ensures MatchAt(s[1..], p, i) <==> MatchAt(s, p, i + 1)
  {
    MatchAtSlice(s[1..], p, i);
    MatchAtSlice(s, p, i + 1);
    if i + 1 + |p| <= |s| {
      assert s[1..][i..i + |p|] == s[i + 1..i + 1 + |p|];
    }
  }

  /** A text in which the pattern does not occur is returned unchanged. */
  lemma {:induction false} ReplaceAllAbsent(s: string, p: string, r: string)
    requires p != [] && !Contains(s, p)
    ensures ReplaceAll(s, p, r) == s
    decreases |s|
  {
    if |s| >= |p| {
      MatchAtSlice(s, p, 0);
      assert !MatchAt(s, p, 0);
      forall i | 0 <= i <= |s[1..]|
        ensures !MatchAt(s[1..], p, i)
      {
        MatchAtTail(s, p, i);
      }
      ReplaceAllAbsent(s[1..], p, r);
    }
  }

  /** Replacing a pattern by itself changes nothing. */
  lemma {:induction false} ReplaceAllSelf(s: string, p: string)
    requires p != []
    ensures ReplaceAll(s, p, p) == s
    decreases |s|
  {
    if |s| >= |p| {
      if s[..|p|] == p {
        ReplaceAllSelf(s[|p|..], p);
        assert s == s[..|p|] + s[|p|..];
      } else {
        ReplaceAllSelf(s[1..], p);
        assert s == [s[0]] + s[1..];
      }
    }
  }

  /** An occurrence of `p` in `u + w` at `i` that starts in `u` and ends in `w`. */
  predicate Crosses(u: string, w: string, p: string, i: int)
  {
    0 <= i < |u| < i + |p| <= |u| + |w| && (u + w)[i..i + |p|] == p
  }

  /** Dropping `k` characters from the front keeps every crossing occurrence out. */
  lemma CrossesDrop(u: string, w: string, p: string, k: nat)
    requires k <= |u|
    requires forall i :: !Crosses(u, w, p, i)
    ensures (u + w)[k..] == u[k..] + w
    ensures forall i :: !Crosses(u[k..], w, p, i)
  {
    var v := u[k..];
    assert (u + w)[k..] == v + w;
    forall i
      ensures !Crosses(v, w, p, i)
    {
      if 0 <= i < |v| < i + |p| <= |v| + |w| {
        assert (v + w)[i..i + |p|] == (u + w)[i + k..i + k + |p|];
        assert !Crosses(u, w, p, i + k);
      }
    }
  }

  /** No occurrence crosses a cut when the last character before it is not in the pattern's body. */
  lemma NoCrossingBefore(u: string, w: string, p: string, c: char)
    requires |u| > 0 && u[|u| - 1] == c && |p| > 0 && c !in p[..|p| - 1]
    ensures forall i :: !Crosses(u, w, p, i)
  {
    forall i
      ensures !Crosses(u, w, p, i)
    {
      if 0 <= i < |u| < i + |p| <= |u| + |w| {
        var k := |u| - 1 - i;
        assert (u + w)[i..i + |p|][k] == c;
        assert p[k] == p[..|p| - 1][k];
      }
    }
  }

  /** No occurrence crosses a cut when the first character after it is not in the pattern's tail. */
  lemma NoCrossingAfter(u: string, w: string, p: string, c: char)
    requires |w| > 0 && w[0] == c && |p| > 0 && c !in p[1..]
    ensures forall i :: !Crosses(u, w, p, i)
  {
    forall i
      ensures !Crosses(u, w, p, i)
    {
      if 0 <= i < |u| < i + |p| <= |u| + |w| {
        var k := |u| - i;
        assert (u + w)[i..i + |p|][k] == c;
        assert p[k] == p[1..][k - 1];
      }
    }
  }

  /** Where no occurrence of the pattern crosses a cut, each side is replaced on its own. */
  lemma {:induction false} ReplaceAllSplit(u: string, w: string, p: string, r: string)
    requires p != []
    requires forall i :: !Crosses(u, w, p, i)
    ensures ReplaceAll(u + w, p, r) == ReplaceAll(u, p, r) + ReplaceAll(w, p, r)
    decreases |u|
  {
    if u == [] {
      assert u + w == w;
    } else if |u + w| < |p| {
    } else if (u + w)[..|p|] == p {
      if |u| < |p| {
        assert (u + w)[0..0 + |p|] == p;
        assert Crosses(u, w, p, 0);
      }
      CrossesDrop(u, w, p, |p|);
      ReplaceAllSplit(u[|p|..], w, p, r);
      SplitAtMatch(u, w, p, r);
    } else {
      CrossesDrop(u, w, p, 1);
      ReplaceAllSplit(u[1..], w, p, r);
      SplitPastChar(u, w, p, r);
    }
  }

  /** The step of `ReplaceAllSplit` where the text starts with an occurrence inside `u`. */
  lemma SplitAtMatch(u: string, w: string, p: string, r: string)
    requires p != [] && |p| <= |u| && u[..|p|] == p
    requires ReplaceAll(u[|p|..] + w, p, r) == ReplaceAll(u[|p|..], p, r) + ReplaceAll(w, p, r)
    ensures ReplaceAll(u + w, p, r) == ReplaceAll(u, p, r) + ReplaceAll(w, p, r)
  {
    assert (u + w)[..|p|] == p;
    assert (u + w)[|p|..] == u[|p|..] + w;
  }

  /** The step of `ReplaceAllSplit` where the text does not start with an occurrence. */
  lemma SplitPastChar(u: string, w: string, p: string, r: string)
    requires p != [] && u != [] && |u + w| >= |p| && (u + w)[..|p|] != p
    requires ReplaceAll(u[1..] + w, p, r) == ReplaceAll(u[1..], p, r) + ReplaceAll(w, p, r)
    ensures ReplaceAll(u + w, p, r) == ReplaceAll(u, p, r) + ReplaceAll(w, p, r)
  {
    FrontCopied(u, w, p, r);
    HeadCopied(u, p, r);
    ConsAssoc(u[0], ReplaceAll(u[1..], p, r), ReplaceAll(w, p, r));
  }

  /** Prepending a character regroups a concatenation. */
  lemma ConsAssoc(c: char, x: string, y: string)
    ensures [c] + (x + y) == ([c] + x) + y
  {
  }

  /** Without an occurrence at the front of `u + w`, its first character, from `u`, is copied. */
  lemma FrontCopied(u: string, w: string, p: string, r: string)
    requires p != [] && u != [] && |u + w| >= |p| && (u + w)[..|p|] != p
    ensures ReplaceAll(u + w, p, r) == [u[0]] + ReplaceAll(u[1..] + w, p, r)
    ensures |u| < |p| || u[..|p|] != p
  {
    assert (u + w)[1..] == u[1..] + w;
    if |u| >= |p| {
      assert u[..|p|] == (u + w)[..|p|];
    }
  }

  /** Without an occurrence at its front, the first character of `u` is copied. */
  lemma HeadCopied(u: string, p: string, r: string)
    requires p != [] && u != [] && (|u| < |p| || u[..|p|] != p)
    ensures ReplaceAll(u, p, r) == [u[0]] + ReplaceAll(u[1..], p, r)
  {
    if |u| < |p| {
      assert ReplaceAll(u[1..], p, r) == u[1..];
      assert u == [u[0]] + u[1..];
    }
  }

  /** Python `str(n)` for an integer. */
  function NatToString(n: nat): (r: string)
    ensures |r| > 0
    ensures forall i :: 0 <= i < |r| ==> IsDigit(r[i])
    decreases n
  {
    if n < 10 then ['0' + n as char]
    else NatToString(n / 10) + ['0' + (n % 10) as char]
  }

  function IntToString(i: int): (r: string)
    ensures |r| > 0
    ensures i >= 0 <==> IsDigit(r[0])
  {
    if i < 0 then "-" + NatToString(-i) else NatToString(i)
  }

  /**
   * A cell of a pandas Series before cleaning: missing (`None`/`NaN`),
   * a string, or an integer. Floats and booleans are not modelled.
   */
  datatype Raw = Null | Text(s: string) | Int(i: int)

  /** `Series.map(str, na_action="ignore")`: missing stays missing, the rest is `str(x)`. */
  function AsText(v: Raw): (r: Option<string>)
    ensures r.None? <==> v.Null?
    ensures v.Text? ==> r == Some(v.s)
  {
    match v
    case Null => None
    case Text(s) => Some(s)
    case Int(i) => Some(IntToString(i))
  }

  /** `pd.Series(x).fillna(value=np.nan).map(str, na_action="ignore")`, cell by cell. */
  function AsTexts(x: seq<Raw>): (r: seq<Option<string>>)
    ensures |r| == |x|
    ensures forall i | 0 <= i < |x| :: r[i] == AsText(x[i])
  {
    seq(|x|, i requires 0 <= i < |x| => AsText(x[i]))
  }
}
