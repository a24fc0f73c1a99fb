/**
 * The literal substitution toolkit of `ds/clean/sub.py`: applying an ordered
 * dictionary of replacements one pair after another (`_replace_dict`,
 * `Sub.many` and its two wrappers), the optional reordering of the keys by
 * length, the HTML-escape table, and the key check of `Sub.update_regex`.
 *
 * Regular expressions are outside the model: whether a pattern compiles is a
 * predicate `valid` supplied by the caller, and `re.sub` of a real pattern is
 * a function `engine` supplied by the caller.
 */
module CleanSub {
  import opened Wrappers
  import opened Text

  /** A Python dict from strings to strings, in insertion order. */
  type Pairs = seq<(string, string)>

  /** The keys, in order: `list(d.keys())`. */
  function Keys(d: Pairs): (r: seq<string>)
    ensures |r| == |d|
    ensures forall i | 0 <= i < |d| :: r[i] == d[i].0
  {
    seq(|d|, i requires 0 <= i < |d| => d[i].0)
  }

  /** `d.get(k)`: the value of the first entry with key `k`. */
  function Get(d: Pairs, k: string): (r: Option<string>)
    ensures r.Some? <==> k in Keys(d)
    decreases |d|
  {
    if d == [] then None
    else if d[0].0 == k then Some(d[0].1)
    else
      assert Keys(d) == [d[0].0] + Keys(d[1..]);
      Get(d[1..], k)
  }

  /**
   * `d[k] = v`: an existing key keeps its place and takes the new value,
   * a new key goes at the end.
   */
  function DictSet(d: Pairs, k: string, v: string): Pairs
    decreases |d|
  {
    if d == [] then [(k, v)]
    else if d[0].0 == k then [(k, v)] + d[1..]
    else [d[0]] + DictSet(d[1..], k, v)
  }

  /** `d[k] = v` for a present key keeps every key in its place. */
  lemma DictSetPresent(d: Pairs, k: string, v: string)
    requires k in Keys(d)
    ensures Keys(DictSet(d, k, v)) == Keys(d)
  {
    var i :| 0 <= i < |d| && Keys(d)[i] == k;
    DictSetKeepsKeys(d, k, v, i);
  }

  lemma {:induction false} DictSetKeepsKeys(d: Pairs, k: string, v: string, i: nat)
    requires i < |d| && d[i].0 == k
    ensures var r := DictSet(d, k, v);
      |r| == |d| && forall j :: 0 <= j < |d| ==> r[j].0 == d[j].0
  {
    if d[0].0 != k {
      DictSetKeepsKeys(d[1..], k, v, i - 1);
      assert DictSet(d, k, v) == [d[0]] + DictSet(d[1..], k, v);
    }
  }

  /** `d[k] = v` for a new key appends the entry. */
  lemma {:induction false} DictSetAbsent(d: Pairs, k: string, v: string)
    requires k !in Keys(d)
    ensures DictSet(d, k, v) == d + [(k, v)]
    decreases |d|
  {
    if d != [] {
      assert Keys(d) == [d[0].0] + Keys(d[1..]);
      DictSetAbsent(d[1..], k, v);
      assert d == [d[0]] + d[1..];
    }
  }

  /** After `d[k] = v`, `d.get(k)` is `v`. */
  lemma {:induction false} DictSetGet(d: Pairs, k: string, v: string)
    ensures Get(DictSet(d, k, v), k) == Some(v)
    decreases |d|
  {
    if d != [] && d[0].0 != k {
      DictSetGet(d[1..], k, v);
      assert DictSet(d, k, v)[1..] == DictSet(d[1..], k, v);
    }
  }

  /** `d[k] = v` leaves the value of every other key as it was. */
  lemma {:induction false} DictSetOthers(d: Pairs, k: string, v: string, j: string)
    requires j != k
    ensures Get(DictSet(d, k, v), j) == Get(d, j)
    decreases |d|
  {
    if d != [] && d[0].0 != k {
      DictSetOthers(d[1..], k, v, j);
      assert DictSet(d, k, v)[1..] == DictSet(d[1..], k, v);
    }
  }

  /** A dict display `{k1: v1, k2: v2, ...}`: the entries are assigned left to right. */
  function DictLiteral(entries: Pairs): Pairs
  {
    if entries == [] then []
    else
      var n := |entries| - 1;
      DictSet(DictLiteral(entries[..n]), entries[n].0, entries[n].1)
  }

  /** A key written twice in a display keeps the value written last. */
  lemma LastValueWins(entries: Pairs, k: string, v: string)
    ensures Get(DictLiteral(entries + [(k, v)]), k) == Some(v)
  {
    assert (entries + [(k, v)])[..|entries|] == entries;
    DictSetGet(DictLiteral(entries), k, v);
  }

  /** A display has an entry for exactly the keys written in it. */
  lemma {:induction false} DictLiteralKeys(entries: Pairs, k: string)
    ensures k in Keys(DictLiteral(entries)) <==> k in Keys(entries)
    decreases |entries|
  {
    if entries != [] {
      var n := |entries| - 1;
      var prev := DictLiteral(entries[..n]);
      DictLiteralKeys(entries[..n], k);
      if entries[n].0 in Keys(prev) {
        DictSetPresent(prev, entries[n].0, entries[n].1);
      } else {
        DictSetAbsent(prev, entries[n].0, entries[n].1);
      }
      assert Keys(entries) == Keys(entries[..n]) + [entries[n].0];
      if entries[n].0 !in Keys(prev) {
        assert Keys(prev + [entries[n]]) == Keys(prev) + [entries[n].0];
      }
    }
  }

  // Case-insensitive literal replacement

  /**
   * `re.sub(re.escape(p), r, s, flags=re.IGNORECASE)`, which pandas runs for a
   * literal pattern when a case flag is set: like `ReplaceAll`, but a window
   * matches when it equals the pattern up to ASCII case.
   */
  function ReplaceAllIgnoreCase(s: string, p: string, r: string): string
    decreases |s|
  {
    if p == [] then InsertEverywhere(s, r)
    else if |s| < |p| then s
    else if LowerStr(s[..|p|]) == LowerStr(p) then r + ReplaceAllIgnoreCase(s[|p|..], p, r)
    else [s[0]] + ReplaceAllIgnoreCase(s[1..], p, r)
  }

  /** On texts and patterns without capitals, ignoring case changes nothing. */
  lemma {:induction false} IgnoreCaseWithoutCapitals(s: string, p: string, r: string)
    requires NoneIn(s, IsUpper) && NoneIn(p, IsUpper)
    ensures ReplaceAllIgnoreCase(s, p, r) == ReplaceAll(s, p, r)
    decreases |s|
  {
    if p != [] && |s| >= |p| {
      LowerStrNoUpper(p);
      assert NoneIn(s[..|p|], IsUpper);
      LowerStrNoUpper(s[..|p|]);
      if s[..|p|] == p {
        assert NoneIn(s[|p|..], IsUpper);
        IgnoreCaseWithoutCapitals(s[|p|..], p, r);
      } else {
        assert NoneIn(s[1..], IsUpper);
        IgnoreCaseWithoutCapitals(s[1..], p, r);
      }
    }
  }

  lemma LowerStrTwice(s: string)
    ensures LowerStr(LowerStr(s)) == LowerStr(s)
  {
  }

  /** Ignoring case, the pattern's own capitals do not matter. */
  lemma {:induction false} IgnoreCasePattern(s: string, p: string, r: string)
    ensures ReplaceAllIgnoreCase(s, p, r) == ReplaceAllIgnoreCase(s, LowerStr(p), r)
    decreases |s|
  {
    LowerStrTwice(p);
    if p != [] && |s| >= |p| {
      if LowerStr(s[..|p|]) == LowerStr(p) {
        IgnoreCasePattern(s[|p|..], p, r);
      } else {
        IgnoreCasePattern(s[1..], p, r);
      }
    }
  }

  // Applying a dictionary of replacements

  /** What `Series.str.replace(key, value, ...)` does to one text: `step(text, key, value)`. */
  type Step = (string, string, string) -> string

  /** `re.sub(pattern, replacement, text, flags)` of a real regular expression. */
  type RegexEngine = (string, string, string, bool) -> string

  /** `str.replace(key, value, regex=False)`, case-insensitive when `ignoreCase`. */
  function LiteralStep(ignoreCase: bool): Step
  {
    if ignoreCase then (s: string, k: string, v: string) => ReplaceAllIgnoreCase(s, k, v)
    else (s: string, k: string, v: string) => ReplaceAll(s, k, v)
  }

  /** `str.replace(key, value, regex=True)`, handed to the regular-expression engine. */
  function RegexStep(ignoreCase: bool, engine: RegexEngine): Step
  {
    (s: string, k: string, v: string) => engine(k, v, s, ignoreCase)
  }

  /** The pairs applied in order, each one to the text the previous one produced. */
  function Substitute(s: string, d: Pairs, step: Step): string
    decreases |d|
  {
    if d == [] then s
    else
      var n := |d| - 1;
      step(Substitute(s, d[..n], step), d[n].0, d[n].1)
  }

  /** Applying `d1 + d2` is applying `d1`, then `d2` to its output. */
  lemma {:induction false} SubstituteConcat(s: string, d1: Pairs, d2: Pairs, step: Step)
    ensures Substitute(s, d1 + d2, step) == Substitute(Substitute(s, d1, step), d2, step)
    decreases |d2|
  {
    if d2 == [] {
      assert d1 + d2 == d1;
    } else {
      var n := |d2| - 1;
      assert (d1 + d2)[..|d1| + n] == d1 + d2[..n];
      SubstituteConcat(s, d1, d2[..n], step);
    }
  }

  /** The first pair is applied to the original text, the rest to its output. */
  lemma SubstituteFirst(s: string, k: string, v: string, d: Pairs, step: Step)
    ensures Substitute(s, [(k, v)] + d, step) == Substitute(step(s, k, v), d, step)
  {
    SubstituteConcat(s, [(k, v)], d, step);
    assert [(k, v)][..0] == [];
  }

  /** A text in which no key occurs comes back unchanged from literal replacement. */
  lemma {:induction false} SubstituteAbsent(s: string, d: Pairs)
    requires forall i | 0 <= i < |d| :: d[i].0 != [] && !Contains(s, d[i].0)
    ensures Substitute(s, d, LiteralStep(false)) == s
    decreases |d|
  {
    if d != [] {
      var n := |d| - 1;
      SubstituteAbsent(s, d[..n]);
      ReplaceAllAbsent(s, d[n].0, d[n].1);
    }
  }

  /**
   * When the keys before pair `i` do not occur in the text, and the keys after
   * it do not occur in what pair `i` leaves, only pair `i` has an effect.
   */
  lemma OnlyOnePair(s: string, d: Pairs, i: nat)
    requires i < |d|
    requires forall j | 0 <= j < |d| :: d[j].0 != []
    requires forall j | 0 <= j < i :: !Contains(s, d[j].0)
    requires forall j | i < j < |d| :: !Contains(ReplaceAll(s, d[i].0, d[i].1), d[j].0)
    ensures Substitute(s, d, LiteralStep(false)) == ReplaceAll(s, d[i].0, d[i].1)
  {
    var t := ReplaceAll(s, d[i].0, d[i].1);
    assert d == d[..i] + ([d[i]] + d[i + 1..]);
    SubstituteConcat(s, d[..i], [d[i]] + d[i + 1..], LiteralStep(false));
    SubstituteAbsent(s, d[..i]);
    SubstituteFirst(s, d[i].0, d[i].1, d[i + 1..], LiteralStep(false));
    SubstituteAbsent(t, d[i + 1..]);
  }

  /** A series cell by cell: missing cells stay missing, texts get every pair applied. */
  function SubstituteSeries(xs: seq<Option<string>>, d: Pairs, step: Step): (r: seq<Option<string>>)
    ensures |r| == |xs|
    ensures forall i | 0 <= i < |xs| :: r[i].None? <==> xs[i].None?
  {
    seq(|xs|, i requires 0 <= i < |xs| =>
      if xs[i].None? then None else Some(Substitute(xs[i].value, d, step)))
  }

  /** One pass of the loop: `input.str.replace(k, v, ...)` over the whole series. */
  function ReplaceSeries(xs: seq<Option<string>>, k: string, v: string, step: Step): (r: seq<Option<string>>)
    ensures |r| == |xs|
  {
    seq(|xs|, i requires 0 <= i < |xs| =>
      if xs[i].None? then None else Some(step(xs[i].value, k, v)))
  }

  lemma SeriesStep(input: seq<Option<string>>, d: Pairs, k: nat, step: Step)
    requires k < |d|
    ensures ReplaceSeries(SubstituteSeries(input, d[..k], step), d[k].0, d[k].1, step)
      == SubstituteSeries(input, d[..k + 1], step)
  {
    assert d[..k + 1][..k] == d[..k];
  }

  /**
   * `_replace_dict`: each (old, new) pair of the dictionary, in order, as a
   * literal replace-all over the series produced by the previous pair.
   */
  method ReplaceDict(input: seq<Option<string>>, d: Pairs) returns (out: seq<Option<string>>)
    ensures out == SubstituteSeries(input, d, LiteralStep(false))
  {
    out := input;
    for k := 0 to |d|
      invariant out == SubstituteSeries(input, d[..k], LiteralStep(false))
    {
      SeriesStep(input, d, k, LiteralStep(false));
      out := ReplaceSeries(out, d[k].0, d[k].1, LiteralStep(false));
    }
    assert d[..|d|] == d;
  }

  // Ordering the keys by length

  /** Longer keys come first. */
  predicate LongestFirst(d: Pairs)
  {
    forall i, j | 0 <= i < j < |d| :: |d[i].0| >= |d[j].0|
  }

  /** An entry at least as long as every entry of a longest-first list can go in front. */
  lemma PrependLongest(x: (string, string), t: Pairs)
    requires LongestFirst(t)
    requires forall j | 0 <= j < |t| :: |t[j].0| <= |x.0|
    ensures LongestFirst([x] + t)
  {
    forall i, j | 0 <= i < j < |[x] + t|
      ensures |([x] + t)[i].0| >= |([x] + t)[j].0|
    {
      if i > 0 {
        assert ([x] + t)[i] == t[i - 1];
      }
      assert ([x] + t)[j] == t[j - 1];
    }
  }

  /** Places `p` after every entry whose key is at least as long as its own. */
  function InsertByLength(p: (string, string), d: Pairs): (r: Pairs)
    requires LongestFirst(d)
    ensures LongestFirst(r)
    ensures multiset(r) == multiset(d) + multiset{p}
    decreases |d|
  {
    if d == [] || |d[0].0| < |p.0| then
      PrependLongest(p, d);
      [p] + d
    else
      var t := InsertByLength(p, d[1..]);
      assert d == [d[0]] + d[1..];
      forall j | 0 <= j < |t|
        ensures |t[j].0| <= |d[0].0|
      {
        assert t[j] in multiset(d[1..]) + multiset{p};
        if t[j] != p {
          var k :| 1 <= k < |d| && d[k] == t[j];
        }
      }
      PrependLongest(d[0], t);
      [d[0]] + t
  }

  /**
   * `np.argsort([len(k) for k in keys])[::-1]`, then rebuilding the dict in
   * that order: the pairs sorted by key length, longest first. Among keys of
   * one length this model puts later keys first, which is what a stable
   * ascending argsort reversed gives.
   */
  function OrderByLength(d: Pairs): (r: Pairs)
    ensures LongestFirst(r)
    ensures multiset(r) == multiset(d)
    decreases |d|
  {
    if d == [] then []
    else
      assert d == [d[0]] + d[1..];
      InsertByLength(d[0], OrderByLength(d[1..]))
  }

  // Sub.many

  /** `_check_regex` over the keys in order: the first key that is not a valid pattern. */
  function FirstInvalid(d: Pairs, valid: string -> bool): (r: Option<string>)
    ensures r.None? <==> forall i | 0 <= i < |d| :: valid(d[i].0)
    ensures r.Some? ==> exists i | 0 <= i < |d| ::
      d[i].0 == r.value && !valid(r.value) && forall j | 0 <= j < i :: valid(d[j].0)
    decreases |d|
  {
    if d == [] then None
    else if !valid(d[0].0) then Some(d[0].0)
    else
      var r := FirstInvalid(d[1..], valid);
      assert forall i | 1 <= i < |d| :: d[1..][i - 1] == d[i];
      r
  }

  /** The message `_check_regex` raises. */
  function InvalidMessage(pattern: string): string
  {
    Quote(pattern) + " is not a valid `regex`"
  }

  /** `ignore_case`, which defaults to the value of `regex` when not given. */
  function CaseFlag(ignoreCase: Option<bool>, regex: bool): bool
  {
    if ignoreCase.None? then regex else ignoreCase.value
  }

  /** The pairs in the order `many` applies them: by length only for literal keys with `order_pattern`. */
  function ManyOrder(d: Pairs, regex: bool, orderPattern: bool): (r: Pairs)
    ensures multiset(r) == multiset(d)
    ensures !regex && orderPattern ==> LongestFirst(r)
    ensures regex || !orderPattern ==> r == d
  {
    if !regex && orderPattern then OrderByLength(d) else d
  }

  /** What `many` does to one text. */
  function ManyStep(ignoreCase: bool, regex: bool, engine: RegexEngine): Step
  {
    if regex then RegexStep(ignoreCase, engine) else LiteralStep(ignoreCase)
  }

  /**
   * `Sub.many(x, regex_dict, ignore_case, regex, order_pattern)`. Every key is
   * checked first; the pairs are then applied one after another to the series
   * of texts, so a later key also rewrites what an earlier one produced.
   * `order_pattern=None` is modelled as `false`.
   */
  function ManyResult(x: seq<Raw>, d: Pairs, ignoreCase: Option<bool>, regex: bool, orderPattern: bool,
                      valid: string -> bool, engine: RegexEngine): (r: Result<seq<Option<string>>>)
    ensures r.Err? <==> exists i | 0 <= i < |d| :: !valid(d[i].0)
    ensures r.Err? ==> r == Err(InvalidMessage(FirstInvalid(d, valid).value))
    ensures r.Ok? ==> |r.value| == |x|
    ensures r.Ok? ==> forall i | 0 <= i < |x| :: r.value[i].None? <==> x[i].Null?
    ensures r.Ok? && !regex ==> forall i | 0 <= i < |x| && x[i].Text? ::
      r.value[i] == Some(Substitute(x[i].s, ManyOrder(d, regex, orderPattern), LiteralStep(CaseFlag(ignoreCase, regex))))
  {
    var bad := FirstInvalid(d, valid);
    if bad.Some? then Err(InvalidMessage(bad.value))
    else
      Ok(SubstituteSeries(AsTexts(x), ManyOrder(d, regex, orderPattern), ManyStep(CaseFlag(ignoreCase, regex), regex, engine)))
  }

  /** `Sub.many`: the checks, then the loop over the (possibly reordered) pairs. */
  method Many(x: seq<Raw>, d: Pairs, ignoreCase: Option<bool>, regex: bool, orderPattern: bool,
              valid: string -> bool, engine: RegexEngine) returns (r: Result<seq<Option<string>>>)
    ensures r == ManyResult(x, d, ignoreCase, regex, orderPattern, valid, engine)
  {
    var flag := if ignoreCase.None? then regex else ignoreCase.value;
    var input := AsTexts(x);
    var bad := FirstInvalid(d, valid);
    if bad.Some? {
      return Err(InvalidMessage(bad.value));
    }
    var pairs := d;
    if !regex && orderPattern {
      pairs := OrderByLength(d);
    }
    var step := ManyStep(flag, regex, engine);
    for k := 0 to |pairs|
      invariant input == SubstituteSeries(AsTexts(x), pairs[..k], step)
    {
      SeriesStep(AsTexts(x), pairs, k, step);
      input := ReplaceSeries(input, pairs[k].0, pairs[k].1, step);
    }
    assert pairs[..|pairs|] == pairs;
    return Ok(input);
  }

  /** `Sub.many_fixed`: `many` with literal keys and case kept by default. */
  method ManyFixed(x: seq<Raw>, d: Pairs, valid: string -> bool, engine: RegexEngine,
                   ignoreCase: Option<bool> := Some(false), regex: bool := false, orderPattern: bool := false)
    returns (r: Result<seq<Option<string>>>)
    ensures r == ManyResult(x, d, ignoreCase, regex, orderPattern, valid, engine)
  {
    r := Many(x, d, ignoreCase, regex, orderPattern, valid, engine);
  }

  /** `Sub.many_regex`: `many` with regular-expression keys and case ignored by default. */
  method ManyRegex(x: seq<Raw>, d: Pairs, valid: string -> bool, engine: RegexEngine,
                   ignoreCase: Option<bool> := Some(true), regex: bool := true, orderPattern: bool := false)
    returns (r: Result<seq<Option<string>>>)
    ensures r == ManyResult(x, d, ignoreCase, regex, orderPattern, valid, engine)
  {
    r := Many(x, d, ignoreCase, regex, orderPattern, valid, engine);
  }

  // The HTML-escape table

  /** A display with a single entry for key `k` maps `k` to that entry's value. */
  lemma {:induction false} DictLiteralSingle(entries: Pairs, i: nat, k: string, v: string)
    requires i < |entries| && entries[i] == (k, v)
    requires forall j | 0 <= j < |entries| && j != i :: entries[j].0 != k
    ensures Get(DictLiteral(entries), k) == Some(v)
    decreases |entries|
  {
    var n := |entries| - 1;
    if i < n {
      DictLiteralSingle(entries[..n], i, k, v);
      DictSetOthers(DictLiteral(entries[..n]), entries[n].0, entries[n].1, k);
    } else {
      DictSetGet(DictLiteral(entries[..n]), k, v);
    }
  }

  /**
   * The entries of the `_html_escapes` display as Python reads them. The value
   * for "&ldquo;" opens a triple-quoted string that runs to the end of the
   * next line, so it swallows the "&rdquo;" entry; "&#153;" and "&trade;" are
   * each written twice.
   */
  function HtmlEscapeEntries(): Pairs
  {
    [("&copy;", "(c)"), ("&reg;", "(r)"), ("&trade;", "tm"), ("&ldquo;", ",\n\t\"&rdquo;\": "),
     ("&lsquo;", "'"), ("&rsquo;", "'"), ("&bull;", "-"), ("&middot;", "-"), ("&sdot;", "[]"),
     ("&ndash;", "-"), ("&mdash;", "-"), ("&cent;", "cents"), ("&#162;", "cents"),
     ("&pound;", "pounds"), ("&#163;", "pounds"), ("&euro;", "euro"), ("&ne;", "!="),
     ("&frac12;", "half"), ("&frac14;", "quarter"), ("&frac34;", "three fourths"),
     ("&deg;", "degrees"), ("&larr;", "<-"), ("&rarr;", "->"), ("&hellip;", "..."),
     ("&nbsp;", " "), ("&lt;", "<"), ("&gt;", ">"), ("&laquo;", "<<"), ("&raquo;", ">>"),
     ("&amp;", "&"), ("&quot;", "\""), ("&apos;", "'"), ("&yen;", "yen"), ("&#133;", "..."),
     ("&#149;", "-"), ("&#151;", "---"), ("&#150;", "--"), ("&#153;", "trademark"),
     ("&#153;", "trademark"), ("&trade;", "+/-")]
  }

  /** `_html_escapes` as written. */
  function HtmlEscapesAsWritten(): Pairs
  {
    DictLiteral(HtmlEscapeEntries())
  }

  /** As written, "&ldquo;" is replaced by a fragment of source text. */
  lemma LdquoAsWritten()
    ensures Get(HtmlEscapesAsWritten(), "&ldquo;") == Some(",\n\t\"&rdquo;\": ")
  {
    LdquoEntry(HtmlEscapeEntries());
  }

  lemma LdquoEntry(e: Pairs)
    requires e == HtmlEscapeEntries()
    ensures Get(DictLiteral(e), "&ldquo;") == Some(",\n\t\"&rdquo;\": ")
  {
    LdquoOnce(e);
    DictLiteralSingle(e, 3, "&ldquo;", ",\n\t\"&rdquo;\": ");
  }

  lemma LdquoOnce(e: Pairs)
    requires e == HtmlEscapeEntries()
    ensures |e| == 40 && e[3] == ("&ldquo;", ",\n\t\"&rdquo;\": ")
    ensures forall j | 0 <= j < |e| && j != 3 :: e[j].0 != "&ldquo;"
  {
    LdquoOnceLow(e);
    LdquoOnceHigh(e);
  }

  lemma LdquoOnceLow(e: Pairs)
    requires e == HtmlEscapeEntries()
    ensures forall j | 0 <= j < 20 && j != 3 :: e[j].0 != "&ldquo;"
  {
  }

  lemma LdquoOnceHigh(e: Pairs)
    requires e == HtmlEscapeEntries()
    ensures forall j | 20 <= j < |e| :: e[j].0 != "&ldquo;"
  {
  }

  /** As written, "&rdquo;" has no entry. */
  lemma RdquoAsWritten()
    ensures Get(HtmlEscapesAsWritten(), "&rdquo;") == None
  {
    var e := HtmlEscapeEntries();
    assert "&rdquo;" !in Keys(e);
    DictLiteralKeys(e, "&rdquo;");
  }

  /** As written, "&trade;" becomes "+/-": its second entry wins. */
  lemma TradeAsWritten()
    ensures Get(HtmlEscapesAsWritten(), "&trade;") == Some("+/-")
  {
    var e := HtmlEscapeEntries();
    assert e == e[..39] + [("&trade;", "+/-")];
    LastValueWins(e[..39], "&trade;", "+/-");
  }

  /**
   * The table with both quotation marks decoding to '"', "&trade;" to "tm",
   * and "+/-" under "&plusmn;", the entity it stands for.
   */
  function HtmlEscapes(): Pairs
  {
    [("&copy;", "(c)"), ("&reg;", "(r)"), ("&trade;", "tm"), ("&ldquo;", "\""), ("&rdquo;", "\""),
     ("&lsquo;", "'"), ("&rsquo;", "'"), ("&bull;", "-"), ("&middot;", "-"), ("&sdot;", "[]"),
     ("&ndash;", "-"), ("&mdash;", "-"), ("&cent;", "cents"), ("&#162;", "cents"),
     ("&pound;", "pounds"), ("&#163;", "pounds"), ("&euro;", "euro"), ("&ne;", "!="),
     ("&frac12;", "half"), ("&frac14;", "quarter"), ("&frac34;", "three fourths"),
     ("&deg;", "degrees"), ("&larr;", "<-"), ("&rarr;", "->"), ("&hellip;", "..."),
     ("&nbsp;", " "), ("&lt;", "<"), ("&gt;", ">"), ("&laquo;", "<<"), ("&raquo;", ">>"),
     ("&amp;", "&"), ("&quot;", "\""), ("&apos;", "'"), ("&yen;", "yen"), ("&#133;", "..."),
     ("&#149;", "-"), ("&#151;", "---"), ("&#150;", "--"), ("&#153;", "trademark"),
     ("&plusmn;", "+/-")]
  }

  /** A non-empty pattern can only occur where the text has its first character. */
  lemma MatchAtFirstChar(s: string, k: string, i: int)
    requires |k| > 0
    ensures MatchAt(s, k, i) ==> 0 <= i < |s| && s[i] == k[0]
  {
    if MatchAt(s, k, i) {
      MatchAtFirst(s, k, i);
    }
  }

  /** Every key of the table is an entity: it starts with '&'. */
  lemma EscapeKeysAreEntities()
    ensures forall j | 0 <= j < |HtmlEscapes()| :: |HtmlEscapes()[j].0| > 1 && HtmlEscapes()[j].0[0] == '&'
  {
  }

  /** A text with no '&' is left as it is. */
  lemma HtmlEscapeWithoutAmpersand(s: string)
    requires '&' !in s
    ensures Substitute(s, HtmlEscapes(), LiteralStep(false)) == s
  {
    var d := HtmlEscapes();
    EscapeKeysAreEntities();
    forall j | 0 <= j < |d|
      ensures !Contains(s, d[j].0)
    {
      forall i | 0 <= i <= |s|
        ensures !MatchAt(s, d[j].0, i)
      {
        MatchAtFirstChar(s, d[j].0, i);
      }
    }
    SubstituteAbsent(s, d);
  }

  /** An entity key occurs in a text whose only '&' is its first character only as a prefix. */
  lemma EntityAbsent(s: string, k: string)
    requires |k| > 0 && k[0] == '&'
    requires forall c | 0 < c < |s| :: s[c] != '&'
    requires !StartsWith(s, k)
    ensures !Contains(s, k)
  {
    forall i | 0 <= i <= |s|
      ensures !MatchAt(s, k, i)
    {
      MatchAtFirstChar(s, k, i);
    }
  }

  /** "&ldquo;" decodes to a double quotation mark. */
  lemma LdquoDecoded()
    ensures Substitute("&ldquo;", HtmlEscapes(), LiteralStep(false)) == "\""
  {
    var d := HtmlEscapes();
    EscapeKeysAreEntities();
    forall j | 0 <= j < 3
      ensures !Contains("&ldquo;", d[j].0)
    {
      EntityAbsent("&ldquo;", d[j].0);
    }
    assert ReplaceAll("&ldquo;", d[3].0, d[3].1) == "\"";
    forall j | 3 < j < |d|
      ensures !Contains("\"", d[j].0)
    {
      EntityAbsent("\"", d[j].0);
    }
    OnlyOnePair("&ldquo;", d, 3);
  }

  /** "&rdquo;" decodes to a double quotation mark too. */
  lemma RdquoDecoded()
    ensures Substitute("&rdquo;", HtmlEscapes(), LiteralStep(false)) == "\""
  {
    var d := HtmlEscapes();
    EscapeKeysAreEntities();
    forall j | 0 <= j < 4
      ensures !Contains("&rdquo;", d[j].0)
    {
      EntityAbsent("&rdquo;", d[j].0);
    }
    assert ReplaceAll("&rdquo;", d[4].0, d[4].1) == "\"";
    forall j | 4 < j < |d|
      ensures !Contains("\"", d[j].0)
    {
      EntityAbsent("\"", d[j].0);
    }
    OnlyOnePair("&rdquo;", d, 4);
  }

  /** "&trade;" decodes to "tm". */
  lemma TradeDecoded()
    ensures Substitute("&trade;", HtmlEscapes(), LiteralStep(false)) == "tm"
  {
    var d := HtmlEscapes();
    EscapeKeysAreEntities();
    forall j | 0 <= j < 2
      ensures !Contains("&trade;", d[j].0)
    {
      EntityAbsent("&trade;", d[j].0);
    }
    assert ReplaceAll("&trade;", d[2].0, d[2].1) == "tm";
    forall j | 2 < j < |d|
      ensures !Contains("tm", d[j].0)
    {
      EntityAbsent("tm", d[j].0);
    }
    OnlyOnePair("&trade;", d, 2);
  }

  lemma KeysBeforeAmp(s: string)
    requires s == "&amp;lt;"
    ensures forall j | 0 <= j < 30 :: !Contains(s, HtmlEscapes()[j].0)
  {
    var d := HtmlEscapes();
    EscapeKeysAreEntities();
    forall j | 0 <= j < 30
      ensures !Contains(s, d[j].0)
    {
      EntityAbsent(s, d[j].0);
    }
  }

  lemma KeysAfterAmp(s: string)
    requires s == "&lt;"
    ensures forall j | 30 < j < |HtmlEscapes()| :: !Contains(s, HtmlEscapes()[j].0)
  {
    var d := HtmlEscapes();
    EscapeKeysAreEntities();
    forall j | 30 < j < |d|
      ensures !Contains(s, d[j].0)
    {
      EntityAbsent(s, d[j].0);
    }
  }

  /**
   * "&lt;" is replaced before "&amp;", so decoding goes one level deep:
   * "&amp;lt;" becomes "&lt;", not "<".
   */
  lemma EscapeOneLevelDeep()
    ensures Substitute("&amp;lt;", HtmlEscapes(), LiteralStep(false)) == "&lt;"
  {
    var d := HtmlEscapes();
    EscapeKeysAreEntities();
    assert d[26].0 == "&lt;" && d[30] == ("&amp;", "&");
    KeysBeforeAmp("&amp;lt;");
    assert ReplaceAll("&amp;lt;", "&amp;", "&") == "&lt;";
    KeysAfterAmp("&lt;");
    OnlyOnePair("&amp;lt;", d, 30);
  }

  // Examples of `many`

  /** Text before the first occurrence of the pattern is copied unchanged. */
  lemma {:induction false} ReplaceAllSkip(u: string, w: string, p: string, r: string)
    requires p != []
    requires forall i | 0 <= i < |u| :: !MatchAt(u + w, p, i)
    ensures ReplaceAll(u + w, p, r) == u + ReplaceAll(w, p, r)
    decreases |u|
  {
    if u != [] {
      var s := u + w;
      assert s[1..] == u[1..] + w;
      forall i | 0 <= i < |u[1..]|
        ensures !MatchAt(u[1..] + w, p, i)
      {
        MatchAtTail(s, p, i);
      }
      ReplaceAllSkip(u[1..], w, p, r);
      if |s| >= |p| {
        MatchAtSlice(s, p, 0);
        assert s[..|p|] != p;
        assert ReplaceAll(s, p, r) == [s[0]] + ReplaceAll(s[1..], p, r);
        assert s[0] == u[0] && u == [u[0]] + u[1..];
      } else {
        assert ReplaceAll(w, p, r) == w;
      }
    } else {
      assert u + w == w;
    }
  }

  /** Text without the pattern's first character is copied unchanged. */
  lemma ReplaceAllSkipNoFirst(u: string, w: string, p: string, r: string)
    requires p != [] && p[0] !in u
    ensures ReplaceAll(u + w, p, r) == u + ReplaceAll(w, p, r)
  {
    forall i | 0 <= i < |u|
      ensures !MatchAt(u + w, p, i)
    {
      MatchAtFirstChar(u + w, p, i);
      assert (u + w)[i] == u[i];
    }
    ReplaceAllSkip(u, w, p, r);
  }

  /** An occurrence at the front is replaced and scanning resumes after it. */
  lemma ReplaceAllHit(p: string, w: string, r: string)
    requires p != []
    ensures ReplaceAll(p + w, p, r) == r + ReplaceAll(w, p, r)
  {
    assert (p + w)[..|p|] == p;
    assert (p + w)[|p|..] == w;
  }

  /** The dictionary of the `many` examples. */
  function ExampleDict(): Pairs
  {
    [("there", "truck"), ("the", "then"), ("world", "hello")]
  }

  lemma ThereStep(s: string, t: string)
    requires s == "I see the dog over there the2" && t == "I see the dog over truck the2"
    ensures ReplaceAll(s, "there", "truck") == t
  {
    var u, w := "I see the dog over ", " the2";
    assert u + ("there" + w) == "I see the dog over there the2";
    assert u + ("truck" + w) == "I see the dog over truck the2";
    assert forall i | 0 <= i < |u| :: !MatchAt(u + ("there" + w), "there", i);
    ReplaceAllSkip(u, "there" + w, "there", "truck");
    ReplaceAllHit("there", w, "truck");
    assert !Contains(w, "there");
    ReplaceAllAbsent(w, "there", "truck");
  }

  lemma TheStepTail(s: string, t: string)
    requires s == " dog over truck the2" && t == " dog over truck then2"
    ensures ReplaceAll(s, "the", "then") == t
  {
    var w, w' := "truck the2", "truck then2";
    TailSplit(s, w, t, w');
    ReplaceAllSkipNoFirst(" dog over ", w, "the", "then");
    TruckStep(w, w');
  }

  lemma TailSplit(s: string, w: string, t: string, w': string)
    requires s == " dog over truck the2" && w == "truck the2"
    requires t == " dog over truck then2" && w' == "truck then2"
    ensures s == " dog over " + w && t == " dog over " + w'
  {
  }

  lemma TruckStep(w: string, w': string)
    requires w == "truck the2" && w' == "truck then2"
    ensures ReplaceAll(w, "the", "then") == w'
  {
    var p, r := "the", "then";
    assert w[..|p|] != p by { assert w[..|p|][1] == 'r' && p[1] == 'h'; }
    assert ReplaceAll(w, p, r) == [w[0]] + ReplaceAll(w[1..], p, r);
    assert w[1..] == "ruck " + (p + "2");
    ReplaceAllSkipNoFirst("ruck ", p + "2", p, r);
    ReplaceAllHit(p, "2", r);
    assert ReplaceAll("2", p, r) == "2";
    assert w' == [w[0]] + ("ruck " + (r + "2"));
  }

  lemma TheSplit(s: string)
    requires s == "I see the dog over truck the2"
    ensures s == "I see " + ("the" + " dog over truck the2")
  {
  }

  lemma ThenSplit(t: string)
    requires t == "I see then dog over truck then2"
    ensures t == "I see " + ("then" + " dog over truck then2")
  {
  }

  lemma TheStep(s: string, t: string)
    requires s == "I see the dog over truck the2" && t == "I see then dog over truck then2"
    ensures ReplaceAll(s, "the", "then") == t
  {
    var p, r := "the", "then";
    var a, w, w' := "I see ", " dog over truck the2", " dog over truck then2";
    TheSplit(s);
    ThenSplit(t);
    ReplaceAllSkipNoFirst(a, p + w, p, r);
    ReplaceAllHit(p, w, r);
    TheStepTail(w, w');
  }

  /** A text without the pattern's first character is left as it is. */
  lemma ReplaceAllNoFirst(s: string, p: string, r: string)
    requires p != [] && p[0] !in s
    ensures ReplaceAll(s, p, r) == s
  {
    ReplaceAllSkipNoFirst(s, [], p, r);
    assert s + [] == s;
  }

  /** Substitution with three pairs, one step at a time. */
  lemma SubstituteThree(s: string, d: Pairs, step: Step)
    requires |d| == 3
    ensures Substitute(s, d, step) == step(step(step(s, d[0].0, d[0].1), d[1].0, d[1].1), d[2].0, d[2].1)
  {
    var s1 := step(s, d[0].0, d[0].1);
    assert d[..2][..1] == d[..1] && d[..1][..0] == [];
    assert Substitute(s, d[..1], step) == s1;
    assert d[..2][1] == d[1];
    assert Substitute(s, d[..2], step) == step(s1, d[1].0, d[1].1);
  }

  lemma WorldStep(s: string)
    requires s == "I see then dog over truck then2"
    ensures ReplaceAll(s, "world", "hello") == s
  {
    ReplaceAllNoFirst(s, "world", "hello");
  }

  /**
   * Keys are applied one after another, each to the previous output: "there"
   * becomes "truck", then every remaining "the" becomes "then".
   */
  lemma ManyLiteralExample(s: string, t: string)
    requires s == "I see the dog over there the2" && t == "I see then dog over truck then2"
    ensures Substitute(s, ExampleDict(), LiteralStep(false)) == t
  {
    var u := "I see the dog over truck the2";
    ThereStep(s, u);
    TheStep(u, t);
    WorldStep(t);
    SubstituteThree(s, ExampleDict(), LiteralStep(false));
  }

  /** While case is kept, "world" does not match "World". */
  lemma HelloWorldExample(h: string)
    requires h == "Hello World"
    ensures Substitute(h, ExampleDict(), LiteralStep(false)) == h
  {
    ReplaceAllNoFirst(h, "there", "truck");
    ReplaceAllNoFirst(h, "the", "then");
    ReplaceAllNoFirst(h, "world", "hello");
    SubstituteThree(h, ExampleDict(), LiteralStep(false));
  }

  /** Characters that differ from the pattern's first one up to case are copied unchanged. */
  lemma {:induction false} IgnoreCaseSkip(u: string, w: string, p: string, r: string)
    requires p != []
    requires forall i | 0 <= i < |u| :: Lower(u[i]) != Lower(p[0])
    ensures ReplaceAllIgnoreCase(u + w, p, r) == u + ReplaceAllIgnoreCase(w, p, r)
    decreases |u|
  {
    if u != [] {
      var s := u + w;
      assert s[1..] == u[1..] + w;
      IgnoreCaseSkip(u[1..], w, p, r);
      if |s| >= |p| {
        assert LowerStr(s[..|p|])[0] != LowerStr(p)[0];
        assert ReplaceAllIgnoreCase(s, p, r) == [s[0]] + ReplaceAllIgnoreCase(s[1..], p, r);
        assert s[0] == u[0] && u == [u[0]] + u[1..];
      } else {
        assert ReplaceAllIgnoreCase(w, p, r) == w;
      }
    } else {
      assert u + w == w;
    }
  }

  /** A window equal to the pattern up to case is replaced. */
  lemma IgnoreCaseHit(q: string, w: string, p: string, r: string)
    requires p != [] && |q| == |p| && LowerStr(q) == LowerStr(p)
    ensures ReplaceAllIgnoreCase(q + w, p, r) == r + ReplaceAllIgnoreCase(w, p, r)
  {
    assert (q + w)[..|p|] == q;
    assert (q + w)[|p|..] == w;
  }

  /** A text none of whose characters equals the pattern's first one up to case is left as it is. */
  lemma IgnoreCaseNoFirst(s: string, p: string, r: string)
    requires p != []
    requires forall i | 0 <= i < |s| :: Lower(s[i]) != Lower(p[0])
    ensures ReplaceAllIgnoreCase(s, p, r) == s
  {
    IgnoreCaseSkip(s, [], p, r);
    assert s + [] == s;
  }

  lemma HelloNoT(h: string)
    requires h == "Hello World"
    ensures ReplaceAllIgnoreCase(h, "there", "truck") == h
    ensures ReplaceAllIgnoreCase(h, "the", "then") == h
  {
    IgnoreCaseNoFirst(h, "there", "truck");
    IgnoreCaseNoFirst(h, "the", "then");
  }

  lemma WorldIgnoreCase(b: string)
    requires b == "World"
    ensures LowerStr(b) == LowerStr("world")
  {
    assert LowerStr(b) == "world";
  }

  lemma HelloWorldIgnoreCase(h: string, t: string)
    requires h == "Hello World" && t == "Hello hello"
    ensures ReplaceAllIgnoreCase(h, "world", "hello") == t
  {
    var a, b, e := "Hello ", "World", "";
    assert a + (b + e) == h;
    IgnoreCaseSkip(a, b + e, "world", "hello");
    WorldIgnoreCase(b);
    IgnoreCaseHit(b, e, "world", "hello");
    assert a + ("hello" + e) == t;
  }

  /** With case ignored, "world" also replaces "World". */
  lemma ManyIgnoreCaseExample(h: string, t: string)
    requires h == "Hello World" && t == "Hello hello"
    ensures Substitute(h, ExampleDict(), LiteralStep(true)) == t
  {
    HelloNoT(h);
    HelloWorldIgnoreCase(h, t);
    SubstituteThree(h, ExampleDict(), LiteralStep(true));
  }

  /** The replacements are sequential, not simultaneous: "a" -> "b" -> "c". */
  lemma NotSimultaneous()
    ensures Substitute("a", [("a", "b"), ("b", "c")], LiteralStep(false)) == "c"
  {
    var a, b, c, e := "a", "b", "c", "";
    var d := [(a, b), (b, c)];
    ReplaceAllHit(a, e, b);
    ReplaceAllHit(b, e, c);
    assert a + e == a && b + e == b && b + "" == b && c + "" == c;
    assert d[..1] == [(a, b)] && d[..1][..0] == [];
  }

  /** `order_pattern` puts "then" before "the". */
  lemma OrderExample()
    ensures OrderByLength([("the", "a"), ("then", "b")]) == [("then", "b"), ("the", "a")]
  {
    var d := [("the", "a"), ("then", "b")];
    assert d[1..] == [("then", "b")];
    assert OrderByLength([("then", "b")]) == [("then", "b")];
  }

  /** Substitution with two pairs, one step at a time. */
  lemma SubstituteTwo(s: string, d: Pairs, step: Step)
    requires |d| == 2
    ensures Substitute(s, d, step) == step(step(s, d[0].0, d[0].1), d[1].0, d[1].1)
  {
    assert d[..1][..0] == [];
    assert Substitute(s, d[..1], step) == step(s, d[0].0, d[0].1);
  }

  /** Tried first, "the" cuts "then" up; tried after "then", it finds nothing left. */
  lemma LongerKeyFirstExample(s: string)
    requires s == "then"
    ensures Substitute(s, [("the", "a"), ("then", "b")], LiteralStep(false)) == "an"
    ensures Substitute(s, [("then", "b"), ("the", "a")], LiteralStep(false)) == "b"
  {
    var k3, a, b, n := "the", "a", "b", "n";
    ReplaceAllHit(k3, n, a);
    assert k3 + n == s;
    assert ReplaceAll(a + n, s, b) == a + n;
    ReplaceAllHit(s, "", b);
    assert s + "" == s;
    ReplaceAllNoFirst(b, k3, a);
    SubstituteTwo(s, [("the", "a"), ("then", "b")], LiteralStep(false));
    SubstituteTwo(s, [("then", "b"), ("the", "a")], LiteralStep(false));
  }

  /** `ignore_case=None` means: ignore case exactly when the keys are regular expressions. */
  lemma IgnoreCaseDefault(x: seq<Raw>, d: Pairs, regex: bool, orderPattern: bool,
                          valid: string -> bool, engine: RegexEngine)
    ensures ManyResult(x, d, None, regex, orderPattern, valid, engine)
      == ManyResult(x, d, Some(regex), regex, orderPattern, valid, engine)
  {
  }

  // The Sub object

  /** The patterns `Sub.__init__` stores in `self.regex`. */
  function DefaultPatterns(): Pairs
  {
    [("hash", "((?<!/)((?:#)(?:\\w+)))"),
     ("mention", "((?<![@\\w])@([A-z0-9_.]+))"),
     ("url", "((?:https?|ftp|www\\.)[^ ]*)"),
     ("html_tag", "(<[^>]*>)"),
     ("email", "([_+A-z0-9-]+(?:\\.[_+A-z0-9-]+)*@[A-z0-9-]+(?:\\.[A-z0-9-]+)*(?:\\.[A-z]{2,14}))")]
  }

  /** The message `update_regex` raises for a key it does not have. */
  function UnknownKeyMessage(key: string): string
  {
    Quote(key) + " is not a `key` in the regex dictionary"
  }

  /**
   * `Sub`: its named patterns, which `update_regex` changes in place, and the
   * HTML-escape table (`dict_replace_regex` holds that table and nothing else,
   * and nothing changes it). `many` and its wrappers read neither and are
   * modelled above as stand-alone methods.
   */
  class Sub {
    var regex: Pairs
    const htmlEscapes: Pairs

    /** `Sub()`, holding the corrected escape table; the one the source writes is `HtmlEscapesAsWritten`. */
    constructor()
      ensures regex == DefaultPatterns()
      ensures htmlEscapes == HtmlEscapes()
    {
      regex := DefaultPatterns();
      htmlEscapes := HtmlEscapes();
    }

    /**
     * `update_regex(key, regex)`: an unknown key is an error, so is a pattern
     * that does not compile; otherwise only that key's pattern changes.
     */
    method UpdateRegex(key: string, pattern: string, valid: string -> bool) returns (r: Result<()>)
      modifies this
      ensures key !in Keys(old(regex)) ==> r == Err(UnknownKeyMessage(key)) && regex == old(regex)
      ensures key in Keys(old(regex)) && !valid(pattern) ==> r == Err(InvalidMessage(pattern)) && regex == old(regex)
      ensures key in Keys(old(regex)) && valid(pattern) ==> r == Ok(()) && regex == DictSet(old(regex), key, pattern)
    {
      if Get(regex, key).None? {
        return Err(UnknownKeyMessage(key));
      }
      if !valid(pattern) {
        return Err(InvalidMessage(pattern));
      }
      regex := DictSet(regex, key, pattern);
      return Ok(());
    }

    /** `html_escape(x)`: the escape table applied to every text of the series. */
    method HtmlEscape(x: seq<Raw>) returns (r: seq<Option<string>>)
      ensures r == SubstituteSeries(AsTexts(x), htmlEscapes, LiteralStep(false))
    {
      r := ReplaceDict(AsTexts(x), htmlEscapes);
    }
  }
}
