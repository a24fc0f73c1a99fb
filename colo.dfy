/**
 * `colo(*regexes, fail=None, copy2clip=False)`: a regular expression that
 * finds strings in which every one of `regexes` occurs (in any order), and
 * optionally none of `fail`. The regexes are pasted in verbatim.
 * With `copy2clip`, the pattern is also written to the clipboard as a
 * double-quoted Python string literal. The clipboard is modelled as the
 * text it receives, carried in the result.
 */
module Colo {
  import opened Wrappers

  /** The returned pattern and the text copied to the clipboard, if any. */
  datatype Outcome = Outcome(pattern: string, clipboard: Option<string>)

  /** `"".join([open + r + close for r in regexes])`. */
  function Join(regexes: seq<string>, open: string, close: string): string
  {
    if regexes == [] then [] else open + regexes[0] + close + Join(regexes[1..], open, close)
  }

  /** Sum of the lengths of the regexes. */
  function Total(regexes: seq<string>): nat
  {
    if regexes == [] then 0 else |regexes[0]| + Total(regexes[1..])
  }

  /** `(x.*y)`: x, then later y. */
  function Ordered(x: string, y: string): string
  {
    "(" + x + ".*" + y + ")"
  }

  /** `_cooc`: the two-way alternation for a pair, lookaheads otherwise. */
  function Cooc(regexes: seq<string>): string
  {
    if |regexes| == 2 then
      "(" + Ordered(regexes[0], regexes[1]) + "|" + Ordered(regexes[1], regexes[0]) + ")"
    else
      "^" + Join(regexes, "(?=.*", ")")
  }

  /** `_cooc_fail`: a negative lookahead for `fail`, then one group per regex. */
  function CoocFail(regexes: seq<string>, fail: string): string
  {
    "^(?!.*(" + fail + "))" + Join(regexes, "(?=.*(", "))")
  }

  /** The pattern `colo` returns; `fail=None` and an omitted `fail` are both `None`. */
  function Pattern(regexes: seq<string>, fail: Option<string>): string
  {
    match fail
    case None => if |regexes| == 1 then regexes[0] else Cooc(regexes)
    case Some(f) => CoocFail(regexes, f)
  }

  /** `z.replace("\\", "\\\\")`: every backslash doubled, nothing else touched. */
  function Escape(z: string): (r: string)
    ensures |r| >= |z|
    ensures '\\' !in z ==> r == z
  {
    if z == [] then []
    else (if z[0] == '\\' then "\\\\" else [z[0]]) + Escape(z[1..])
  }

  /** Backslashes and double quotes escaped, as a double-quoted literal needs. */
  function EscapeLiteral(z: string): (r: string)
    ensures |r| >= |z|
    ensures '\\' !in z && '"' !in z ==> r == z
  {
    if z == [] then []
    else (if z[0] == '\\' || z[0] == '"' then ['\\', z[0]] else [z[0]]) + EscapeLiteral(z[1..])
  }

  /**
   * The value of the body of a double-quoted Python string literal, for the
   * escapes `\\` and `\"`; `None` when the literal would end early at an
   * unescaped quote or holds any other escape.
   */
  function Unescape(t: string): Option<string>
  {
    if t == [] then Some([])
    else if t[0] == '"' then None
    else if t[0] == '\\' then
      if |t| >= 2 && (t[1] == '\\' || t[1] == '"') then
        match Unescape(t[2..])
        case None => None
        case Some(u) => Some([t[1]] + u)
      else None
    else
      match Unescape(t[1..])
      case None => None
      case Some(u) => Some([t[0]] + u)
  }

  /** The value of a double-quoted literal `"..."`, as Python reads it back. */
  function PyLiteral(q: string): Option<string>
  {
    if |q| >= 2 && q[0] == '"' && q[|q| - 1] == '"' then Unescape(q[1..|q| - 1]) else None
  }

  /**
   * The clipboard text as written: quotes around the backslash-doubled
   * pattern. It reads back as the pattern only when the pattern has no
   * double quote (`EscapeAgrees`, `ClipAsWrittenBreaks`).
   */
  function ClipAsWritten(z: string): (r: string)
    ensures |r| >= |z| + 2 && r[0] == '"' && r[|r| - 1] == '"'
  {
    "\"" + Escape(z) + "\""
  }

  /** The clipboard text with quotes escaped as well. */
  function Clip(z: string): (r: string)
    ensures PyLiteral(r) == Some(z)
  {
    var r := "\"" + EscapeLiteral(z) + "\"";
    EscapeLiteralRoundTrip(z);
    assert r[1..|r| - 1] == EscapeLiteral(z);
    r
  }

  /**
   * `colo`: `copy2clip=None` counts as `False`. The clipboard receives the
   * as-written text, which reads back as the pattern only when the pattern
   * has no double quote.
   */
  function ColoCall(regexes: seq<string>, fail: Option<string>, copy2clip: Option<bool>): (r: Outcome)
    ensures r.clipboard.Some? <==> copy2clip == Some(true)
    ensures r.clipboard.Some? ==> |r.clipboard.value| >= |r.pattern| + 2
    ensures r.clipboard.Some? && '"' !in r.pattern ==> PyLiteral(r.clipboard.value) == Some(r.pattern)
  {
    var z := Pattern(regexes, fail);
    if '"' !in z then EscapeAgrees(z); Outcome(z, if copy2clip == Some(true) then Some(ClipAsWritten(z)) else None)
    else Outcome(z, if copy2clip == Some(true) then Some(ClipAsWritten(z)) else None)
  }

  lemma {:induction false} EscapeLiteralRoundTrip(z: string)
    ensures Unescape(EscapeLiteral(z)) == Some(z)
  {
    if z != [] {
      EscapeLiteralRoundTrip(z[1..]);
      var e := EscapeLiteral(z);
      if z[0] == '\\' || z[0] == '"' {
        assert e == ['\\', z[0]] + EscapeLiteral(z[1..]);
        assert e[2..] == EscapeLiteral(z[1..]);
      } else {
        assert e == [z[0]] + EscapeLiteral(z[1..]);
        assert e[1..] == EscapeLiteral(z[1..]);
      }
      assert z == [z[0]] + z[1..];
    }
  }

  /** Where the pattern has no double quote, both clipboard texts agree. */
  lemma {:induction false} EscapeAgrees(z: string)
    requires '"' !in z
    ensures Escape(z) == EscapeLiteral(z)
    ensures ClipAsWritten(z) == Clip(z)
  {
    if z != [] {
      EscapeAgrees(z[1..]);
    }
  }

  /** Plain characters up to an unescaped quote: the literal ends early. */
  lemma {:induction false} UnescapeStops(t: string, k: int)
    requires 0 <= k < |t| && t[k] == '"'
    requires forall j :: 0 <= j < k ==> t[j] != '"' && t[j] != '\\'
    ensures Unescape(t) == None
    decreases k
  {
    if k > 0 {
      UnescapeStops(t[1..], k - 1);
    }
  }

  /** A pattern with a double quote makes the as-written clipboard text an invalid literal. */
  lemma ClipAsWrittenBreaks(z: string)
    requires z == "say \"hi\""
    ensures PyLiteral(ClipAsWritten(z)) == None
  {
    assert Escape(z) == z;
    var q := ClipAsWritten(z);
    assert q[1..|q| - 1] == z;
    UnescapeStops(z, 4);
  }

  /** Copying to the clipboard never changes the returned pattern. */
  lemma ClipKeepsPattern(regexes: seq<string>, fail: Option<string>, copy2clip: Option<bool>)
    ensures ColoCall(regexes, fail, copy2clip).pattern == ColoCall(regexes, fail, None).pattern
    ensures ColoCall(regexes, fail, copy2clip).pattern == Pattern(regexes, fail)
  {
  }

  lemma {:induction false} JoinConcat(a: seq<string>, b: seq<string>, open: string, close: string)
    ensures Join(a + b, open, close) == Join(a, open, close) + Join(b, open, close)
  {
    if a == [] {
      assert a + b == b;
    } else {
      JoinConcat(a[1..], b, open, close);
      JoinConcatStep(a, b, open, close);
    }
  }

  lemma JoinConcatStep(a: seq<string>, b: seq<string>, open: string, close: string)
    requires a != []
    requires Join(a[1..] + b, open, close) == Join(a[1..], open, close) + Join(b, open, close)
    ensures Join(a + b, open, close) == Join(a, open, close) + Join(b, open, close)
  {
    var x := open + a[0] + close;
    JoinHead(a + b, open, close);
    assert (a + b)[1..] == a[1..] + b;
    assert (a + b)[0] == a[0];
    JoinHead(a, open, close);
    Assoc(x, Join(a[1..], open, close), Join(b, open, close));
  }

  lemma JoinHead(rs: seq<string>, open: string, close: string)
    requires rs != []
    ensures Join(rs, open, close) == (open + rs[0] + close) + Join(rs[1..], open, close)
  {
  }

  lemma Assoc(x: string, y: string, z: string)
    ensures x + (y + z) == (x + y) + z
  {
  }

  lemma {:induction false} JoinLength(regexes: seq<string>, open: string, close: string)
    ensures |Join(regexes, open, close)| == |regexes| * (|open| + |close|) + Total(regexes)
  {
    if regexes != [] {
      JoinLength(regexes[1..], open, close);
    }
  }

  /**
   * The join holds regex i verbatim, wrapped in `open` and `close`, after the
   * wrapped regexes before it and before the ones after it.
   */
  lemma JoinAt(regexes: seq<string>, open: string, close: string, i: int)
    requires 0 <= i < |regexes|
    ensures Join(regexes, open, close)
      == Join(regexes[..i], open, close) + open + regexes[i] + close + Join(regexes[i + 1..], open, close)
  {
    var one := [regexes[i]];
    assert regexes == regexes[..i] + (one + regexes[i + 1..]);
    JoinConcat(regexes[..i], one + regexes[i + 1..], open, close);
    JoinConcat(one, regexes[i + 1..], open, close);
    assert Join(one, open, close) == open + regexes[i] + close + Join([], open, close);
  }

  /**
   * Wrapped regex i sits at offset `before + i * (|open| + |close|)` plus the
   * lengths of the regexes before it, verbatim between `open` and `close`.
   */
  lemma WrappedAt(regexes: seq<string>, before: string, open: string, close: string, i: int)
    requires 0 <= i < |regexes|
    ensures var p := before + Join(regexes, open, close);
      var k := |before| + i * (|open| + |close|) + Total(regexes[..i]) + |open|;
      k + |regexes[i]| + |close| <= |p|
      && p[k - |open|..k] == open
      && p[k..k + |regexes[i]|] == regexes[i]
      && p[k + |regexes[i]|..k + |regexes[i]| + |close|] == close
  {
    var k := WrappedInJoin(regexes, open, close, i);
    ShiftPieces(before, Join(regexes, open, close), k, open, regexes[i], close);
  }

  /** Pieces found at offset `k` of `x` lie at offset `|before| + k` of `before + x`. */
  lemma ShiftPieces(before: string, x: string, k: int, o: string, r: string, c: string)
    requires |o| <= k && k + |r| + |c| <= |x|
    requires x[k - |o|..k] == o && x[k..k + |r|] == r && x[k + |r|..k + |r| + |c|] == c
    ensures var p := before + x;
      var q := |before| + k;
      q + |r| + |c| <= |p|
      && p[q - |o|..q] == o
      && p[q..q + |r|] == r
      && p[q + |r|..q + |r| + |c|] == c
  {
    var p := before + x;
    var q := |before| + k;
    assert p[q - |o|..q] == x[k - |o|..k];
    assert p[q..q + |r|] == x[k..k + |r|];
    assert p[q + |r|..q + |r| + |c|] == x[k + |r|..k + |r| + |c|];
  }

  /** WrappedAt without a prefix: the offsets inside the join itself. */
  lemma WrappedInJoin(regexes: seq<string>, open: string, close: string, i: int) returns (k: int)
    requires 0 <= i < |regexes|
    ensures k == i * (|open| + |close|) + Total(regexes[..i]) + |open|
    ensures var x := Join(regexes, open, close);
      |open| <= k && k + |regexes[i]| + |close| <= |x|
      && x[k - |open|..k] == open
      && x[k..k + |regexes[i]|] == regexes[i]
      && x[k + |regexes[i]|..k + |regexes[i]| + |close|] == close
  {
    var j1 := Join(regexes[..i], open, close);
    var j2 := Join(regexes[i + 1..], open, close);
    JoinAt(regexes, open, close, i);
    PrefixLength(regexes, open, close, i);
    Pieces(j1, open, regexes[i], close, j2);
    k := |j1| + |open|;
  }

  /** The join of the first i regexes is as long as JoinLength says. */
  lemma PrefixLength(regexes: seq<string>, open: string, close: string, i: int)
    requires 0 <= i <= |regexes|
    ensures |Join(regexes[..i], open, close)| == i * (|open| + |close|) + Total(regexes[..i])
  {
    JoinLength(regexes[..i], open, close);
    assert |regexes[..i]| == i;
  }

  /** The pieces of a concatenation sit at the sums of the lengths before them. */
  lemma Pieces(h: string, o: string, r: string, c: string, t: string)
    ensures var p := h + o + r + c + t;
      var k := |h| + |o|;
      k + |r| + |c| <= |p|
      && p[k - |o|..k] == o
      && p[k..k + |r|] == r
      && p[k + |r|..k + |r| + |c|] == c
  {
    var p := h + o + r + c + t;
    var k := |h| + |o|;
    assert p[k - |o|..k] == (h + o)[|h|..];
    assert p[k..k + |r|] == (h + o + r)[k..];
    assert p[k + |r|..k + |r| + |c|] == (h + o + r + c)[k + |r|..];
  }

  /** A slice past a prefix is the same slice of the rest. */
  lemma Shift(before: string, x: string, lo: int, hi: int)
    requires 0 <= lo <= hi <= |x|
    ensures (before + x)[|before| + lo..|before| + hi] == x[lo..hi]
  {
  }

  /**
   * Without `fail`, and with other than one or two regexes: `^` then one
   * lookahead `(?=.*r)` per regex, in order, each regex verbatim.
   */
  lemma LookaheadForm(regexes: seq<string>, i: int)
    requires |regexes| != 1 && |regexes| != 2
    requires 0 <= i < |regexes|
    ensures var p := Pattern(regexes, None);
      var k := 1 + 6 * i + Total(regexes[..i]) + 5;
      |p| == 1 + 6 * |regexes| + Total(regexes)
      && k + |regexes[i]| < |p|
      && p[0] == '^'
      && p[k - 5..k] == "(?=.*"
      && p[k..k + |regexes[i]|] == regexes[i]
      && p[k + |regexes[i]|] == ')'
  {
    var p := Pattern(regexes, None);
    WrappedAt(regexes, "^", "(?=.*", ")", i);
    JoinLength(regexes, "(?=.*", ")");
    var k := 1 + 6 * i + Total(regexes[..i]) + 5;
    assert p[k + |regexes[i]|..k + |regexes[i]| + 1] == ")";
  }

  /** No regexes and no `fail`: the pattern `^`, which every string matches. */
  lemma NoRegexes()
    ensures Pattern([], None) == "^"
  {
    assert Join([], "(?=.*", ")") == [];
  }

  /** One regex and no `fail`: the regex itself. */
  lemma SingleRegex(r: string)
    ensures Pattern([r], None) == r
    ensures ColoCall([r], None, Some(true)).clipboard == Some(ClipAsWritten(r))
  {
  }

  /** `colo('say "hi"', copy2clip=True)` copies a text that does not read back as a literal. */
  lemma QuotedRegexBreaks(r: string)
    requires r == "say \"hi\""
    ensures ColoCall([r], None, Some(true)).clipboard.Some?
    ensures PyLiteral(ColoCall([r], None, Some(true)).clipboard.value) == None
  {
    SingleRegex(r);
    ClipAsWrittenBreaks(r);
  }

  /** Two regexes and no `fail`: either order, as two alternatives; swapping the regexes swaps them. */
  lemma TwoRegexes(a: string, b: string)
    ensures Pattern([a, b], None) == "(" + Ordered(a, b) + "|" + Ordered(b, a) + ")"
    ensures Pattern([b, a], None) == "(" + Ordered(b, a) + "|" + Ordered(a, b) + ")"
    ensures |Pattern([a, b], None)| == 11 + 2 * (|a| + |b|)
  {
  }

  /**
   * With `fail`, whatever the number of regexes: the negative lookahead for
   * `fail`, then one group `(?=.*(r))` per regex, in order, each verbatim.
   */
  lemma FailForm(regexes: seq<string>, fail: string)
    ensures var p := Pattern(regexes, Some(fail));
      |p| == 9 + |fail| + 8 * |regexes| + Total(regexes)
      && p[..9 + |fail|] == "^(?!.*(" + fail + "))"
  {
    var p := Pattern(regexes, Some(fail));
    JoinLength(regexes, "(?=.*(", "))");
    assert p == ("^(?!.*(" + fail + "))") + Join(regexes, "(?=.*(", "))");
  }

  lemma FailRegexAt(regexes: seq<string>, fail: string, i: int)
    requires 0 <= i < |regexes|
    ensures var p := Pattern(regexes, Some(fail));
      var k := 9 + |fail| + 8 * i + Total(regexes[..i]) + 6;
      k + |regexes[i]| + 2 <= |p|
      && p[k - 6..k] == "(?=.*("
      && p[k..k + |regexes[i]|] == regexes[i]
      && p[k + |regexes[i]|..k + |regexes[i]| + 2] == "))"
  {
    WrappedAt(regexes, "^(?!.*(" + fail + "))", "(?=.*(", "))", i);
  }

  lemma JoinThree(a: string, b: string, c: string, open: string, close: string)
    ensures Join([a, b, c], open, close) == (open + a + close) + (open + b + close) + (open + c + close)
  {
    assert [a, b, c][1..] == [b, c];
    assert [b, c][1..] == [c];
    assert [c][1..] == [];
    assert Join([c], open, close) == open + c + close + Join([], open, close);
    assert Join([b, c], open, close) == open + b + close + Join([c], open, close);
  }

  lemma JoinTwo(a: string, b: string, open: string, close: string)
    ensures Join([a, b], open, close) == (open + a + close) + (open + b + close)
  {
    assert [a, b][1..] == [b];
    assert [b][1..] == [];
    assert Join([b], open, close) == open + b + close + Join([], open, close);
  }

  /** `colo('cat', 'dog', 'fish')`. */
  lemma ThreeExample(rs: seq<string>)
    requires rs == ["cat", "dog", "fish"]
    ensures Pattern(rs, None) == "^(?=.*cat)(?=.*dog)(?=.*fish)"
  {
    JoinThree("cat", "dog", "fish", "(?=.*", ")");
  }

  /** `colo('cat', 'dog', 'fish', fail = 'I Wish')`. */
  lemma ThreeFailExample(rs: seq<string>)
    requires rs == ["cat", "dog", "fish"]
    ensures Pattern(rs, Some("I Wish")) == "^(?!.*(I Wish))" + "(?=.*(cat))" + "(?=.*(dog))" + "(?=.*(fish))"
  {
    JoinThree("cat", "dog", "fish", "(?=.*(", "))");
  }

  /** `colo('cat', 'fish')`, with or without `fail = None`. */
  lemma TwoExample(rs: seq<string>)
    requires rs == ["cat", "fish"]
    ensures Pattern(rs, None) == "((cat.*fish)|(fish.*cat))"
  {
  }

  /** `colo('cat', 'fish', fail = 'I Wish')`. */
  lemma TwoFailExample(rs: seq<string>)
    requires rs == ["cat", "fish"]
    ensures Pattern(rs, Some("I Wish")) == "^(?!.*(I Wish))(?=.*(cat))(?=.*(fish))"
  {
    JoinTwo("cat", "fish", "(?=.*(", "))");
  }

  /** `colo('cat\\b', 'fish(\\b|es)')`: the backslashes pass through unescaped. */
  lemma VerbatimExample(rs: seq<string>)
    requires rs == ["cat\\b", "fish(\\b|es)"]
    ensures Pattern(rs, None) == "(" + "(cat\\b.*fish(\\b|es))" + "|" + "(fish(\\b|es).*cat\\b)" + ")"
  {
  }

  /** `colo('cat')` and `colo('cat', fail = 'I Wish')`. */
  lemma OneExamples(rs: seq<string>)
    requires rs == ["cat"]
    ensures Pattern(rs, None) == "cat"
    ensures Pattern(rs, Some("I Wish")) == "^(?!.*(I Wish))(?=.*(cat))"
  {
    assert Join(rs, "(?=.*(", "))") == "(?=.*(cat))" + Join([], "(?=.*(", "))");
  }
}
