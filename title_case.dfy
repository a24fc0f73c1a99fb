/**
 * Headline casing: `str.title()`, then the small words of a headline that
 * follow whitespace are turned back to lower case.
 */
module TitleCase {
  import opened Wrappers
  import opened Text

  /**
   * The words of the small-word pattern. Its alternatives `V[.]?` and
   * `Vs[.]?` are written as `V` and `Vs`: the first letter is the only one the
   * substitution changes, and `V.` or `Vs.` can only match where `V` or `Vs`
   * also matches, because a `.` after a letter is always a word boundary.
   */
  function SmallWords(): set<string>
  {
    ShortSmallWords() + LongSmallWords()
  }

  function ShortSmallWords(): set<string>
  {
    {"A", "An", "As", "At", "Be", "By", "En", "If", "In", "Is", "Of", "On", "Or", "So", "To", "V", "Vs"}
  }

  function LongSmallWords(): set<string>
  {
    {"And", "Are", "But", "For", "Nor", "Not", "Per", "The", "Via", "From", "Into", "Than", "That", "With"}
  }

  /** Every small word is a capital followed by at most three lower-case letters. */
  lemma SmallWordsShape()
    ensures forall w :: w in SmallWords() ==> 1 <= |w| <= 4 && IsUpper(w[0])
    ensures forall w :: w in SmallWords() ==> forall k :: 1 <= k < |w| ==> IsLower(w[k])
  {
    ShortSmallWordsShape();
    LongSmallWordsShape();
  }

  lemma ShortSmallWordsShape()
    ensures forall w :: w in ShortSmallWords() ==> 1 <= |w| <= 2 && IsUpper(w[0])
    ensures forall w :: w in ShortSmallWords() ==> forall k :: 1 <= k < |w| ==> IsLower(w[k])
  {
  }

  lemma LongSmallWordsShape()
    ensures forall w :: w in LongSmallWords() ==> 3 <= |w| <= 4 && IsUpper(w[0])
    ensures forall w :: w in LongSmallWords() ==> forall k :: 1 <= k < |w| ==> IsLower(w[k])
  {
  }

  /** The run of word characters (ASCII `\w`) that starts at `i`. */
  function WholeWord(t: string, i: nat): string
    requires i <= |t|
  {
    t[i..i + RunLength(t[i..], IsWordChar)]
  }

  /**
   * The regex `(?<=\s)(w1|w2|...)\b` matches at `i`: whitespace before it,
   * then one of `words` followed by a word boundary. When every word is made
   * of word characters, the boundary means that the whole run of word
   * characters at `i` is that word.
   */
  predicate WordStart(t: string, i: nat, words: set<string>)
  {
    0 < i < |t| && IsSpace(t[i - 1]) && WholeWord(t, i) in words
  }

  /**
   * The substitution of `title_case`: the first letter of every match of
   * the pattern above is lower-cased. A match starts right after whitespace
   * and holds none, so no match can hide another, and the substitution is
   * stated position by position.
   */
  function LowerWords(t: string, words: set<string>): (r: string)
    ensures |r| == |t|
  {
    seq(|t|, i requires 0 <= i < |t| => if WordStart(t, i, words) then Lower(t[i]) else t[i])
  }

  predicate SmallWordStart(t: string, i: nat)
  {
    WordStart(t, i, SmallWords())
  }

  /** `title()`, then the first letters of the given words after whitespace lower-cased. */
  function TitleCaseWith(s: string, words: set<string>): string
  {
    LowerWords(PyTitle(s), words)
  }

  /** `title_case` on one text. */
  function TitleCaseText(s: string): string
  {
    TitleCaseWith(s, SmallWords())
  }

  /** `title_case` on a series: missing entries stay missing. */
  function TitleCaseSeries(x: seq<Option<string>>): (r: seq<Option<string>>)
    ensures |r| == |x|
    ensures forall i :: 0 <= i < |x| ==> (r[i].None? <==> x[i].None?)
    ensures forall i :: 0 <= i < |x| && x[i].Some? ==> r[i] == Some(TitleCaseText(x[i].value))
  {
    seq(|x|, i requires 0 <= i < |x| => if x[i].None? then None else Some(TitleCaseText(x[i].value)))
  }

  /**
   * Character by character: non-letters are kept; a letter after a letter is
   * lower-case; a letter that starts a word is a capital, unless it starts a
   * small word right after whitespace, which is lower-case. The first letter
   * of the text is therefore always a capital.
   */
  lemma TitleCaseChars(s: string)
    ensures |TitleCaseText(s)| == |s|
    ensures forall i :: 0 <= i < |s| && !IsLetter(s[i]) ==> TitleCaseText(s)[i] == s[i]
    ensures forall i :: 0 < i < |s| && IsLetter(s[i]) && IsLetter(s[i - 1]) ==> IsLower(TitleCaseText(s)[i])
    ensures forall i :: 0 <= i < |s| && IsLetter(s[i]) && (i == 0 || !IsLetter(s[i - 1])) ==>
      (SmallWordStart(PyTitle(s), i) ==> IsLower(TitleCaseText(s)[i])) &&
      (!SmallWordStart(PyTitle(s), i) ==> IsUpper(TitleCaseText(s)[i]))
    ensures s != [] && IsLetter(s[0]) ==> IsUpper(TitleCaseText(s)[0])
  {
    var t := PyTitle(s);
    var r := TitleCaseText(s);
    PyTitleKeeps(s);
    assert r == LowerWords(t, SmallWords());
    forall i | 0 <= i < |s| && IsLetter(s[i]) && (i == 0 || !IsLetter(s[i - 1]))
      ensures (SmallWordStart(t, i) ==> IsLower(r[i])) && (!SmallWordStart(t, i) ==> IsUpper(r[i]))
    {
      assert t[i] == Upper(s[i]);
      assert r[i] == if SmallWordStart(t, i) then Lower(t[i]) else t[i];
    }
  }

  lemma LowerLower(c: char)
    ensures Lower(Lower(c)) == Lower(c) && Upper(Lower(c)) == Upper(c)
  {
  }

  /** `title()` does not care about the case it is given and is a fixed point of itself. */
  lemma PyTitleOfRecased(t: string, u: string)
    requires |u| == |t|
    requires forall i :: 0 <= i < |t| ==> u[i] == t[i] || u[i] == Lower(t[i])
    ensures PyTitle(u) == PyTitle(t)
  {
    forall i | 0 <= i < |t|
      ensures PyTitle(u)[i] == PyTitle(t)[i]
    {
      LowerLower(t[i]);
      if i > 0 {
        LowerLower(t[i - 1]);
      }
    }
  }

  lemma PyTitleTwice(s: string)
    ensures PyTitle(PyTitle(s)) == PyTitle(s)
  {
    var t := PyTitle(s);
    forall i | 0 <= i < |s|
      ensures PyTitle(t)[i] == t[i]
    {
      LowerLower(s[i]);
    }
  }

  /** Headline casing a headline changes nothing. */
  lemma TitleCaseIdempotent(s: string)
    ensures TitleCaseText(TitleCaseText(s)) == TitleCaseText(s)
  {
    var t := PyTitle(s);
    var r := LowerWords(t, SmallWords());
    PyTitleOfRecased(t, r);
    PyTitleTwice(s);
  }

  /** `title()` works word by word: text splits where a letter does not touch a letter. */
  lemma PyTitleConcat(a: string, b: string)
    requires a == [] || b == [] || !IsLetter(a[|a| - 1]) || !IsLetter(b[0])
    ensures PyTitle(a + b) == PyTitle(a) + PyTitle(b)
  {
    var ab := a + b;
    forall i | 0 <= i < |ab|
      ensures PyTitle(ab)[i] == (PyTitle(a) + PyTitle(b))[i]
    {
      if i >= |a| {
        assert ab[i] == b[i - |a|];
        if i > |a| {
          assert ab[i - 1] == b[i - |a| - 1];
        }
      } else {
        assert ab[i] == a[i];
      }
    }
  }

  /** The word at `i` is `w` when `rest`, which follows it, does not continue it. */
  lemma WordIs(t: string, i: nat, w: string, rest: string)
    requires i <= |t| && t[i..] == w + rest
    requires forall k :: 0 <= k < |w| ==> IsWordChar(w[k])
    requires rest == [] || !IsWordChar(rest[0])
    ensures WholeWord(t, i) == w
  {
    RunLengthConcat(w, rest, IsWordChar);
    assert t[i..i + |w|] == (w + rest)[..|w|];
  }

  /**
   * Headline casing works piece by piece: a text splits wherever the next
   * piece does not begin with a word character.
   */
  lemma TitleCaseConcat(a: string, b: string)
    requires b == [] || !IsWordChar(b[0])
    ensures TitleCaseText(a + b) == TitleCaseText(a) + TitleCaseText(b)
  {
    EmptyNotSmall();
    TitleCaseWithConcat(a, b, SmallWords());
  }

  lemma {:induction false} TitleCaseWithConcat(a: string, b: string, words: set<string>)
    requires b == [] || !IsWordChar(b[0])
    requires [] !in words
    ensures TitleCaseWith(a + b, words) == TitleCaseWith(a, words) + TitleCaseWith(b, words)
  {
    PyTitleConcat(a, b);
    PyTitleKeeps(b);
    LowerWordsConcat(PyTitle(a), PyTitle(b), words);
  }

  lemma {:induction false} LowerWordsConcat(a: string, b: string, words: set<string>)
    requires b == [] || !IsWordChar(b[0])
    requires [] !in words
    ensures LowerWords(a + b, words) == LowerWords(a, words) + LowerWords(b, words)
  {
    var ab := a + b;
    forall i | 0 <= i < |ab|
      ensures LowerWords(ab, words)[i] == (LowerWords(a, words) + LowerWords(b, words))[i]
    {
      LowerWordsConcatAt(a, b, i, words);
    }
  }

  lemma LowerWordsConcatAt(a: string, b: string, i: nat, words: set<string>)
    requires b == [] || !IsWordChar(b[0])
    requires [] !in words
    requires i < |a| + |b|
    ensures LowerWords(a + b, words)[i] == (LowerWords(a, words) + LowerWords(b, words))[i]
  {
    if i < |a| {
      StartBefore(a, b, i, words);
      assert (a + b)[i] == a[i];
    } else if i == |a| {
      StartAtJoin(a, b, words);
      if i < |a + b| {
        assert (a + b)[i] == b[0];
      }
    } else {
      StartAfter(a, b, i - |a|, words);
      assert (a + b)[i] == b[i - |a|];
    }
  }

  lemma StartBefore(a: string, b: string, i: nat, words: set<string>)
    requires b == [] || !IsWordChar(b[0])
    requires i < |a|
    ensures WordStart(a + b, i, words) == WordStart(a, i, words)
  {
    assert (a + b)[i..] == a[i..] + b;
    RunLengthStops(a[i..], b, IsWordChar);
    assert WholeWord(a + b, i) == WholeWord(a, i);
  }

  lemma StartAtJoin(a: string, b: string, words: set<string>)
    requires b == [] || !IsWordChar(b[0])
    requires [] !in words
    ensures !WordStart(a + b, |a|, words)
  {
    if b != [] {
      assert WholeWord(a + b, |a|) == [];
    }
  }

  lemma StartAfter(a: string, b: string, j: nat, words: set<string>)
    requires 0 < j < |b|
    ensures WordStart(a + b, |a| + j, words) == WordStart(b, j, words)
  {
    assert (a + b)[|a| + j..] == b[j..];
    assert (a + b)[|a| + j - 1] == b[j - 1];
    assert WholeWord(a + b, |a| + j) == WholeWord(b, j);
  }

  lemma EmptyNotSmall()
    ensures [] !in SmallWords()
  {
    SmallWordsShape();
  }

  /** A text with no whitespace holds no word to lower: it is `title()` of itself. */
  lemma FirstWord(w: string, words: set<string>)
    requires NoneIn(w, IsSpace)
    ensures TitleCaseWith(w, words) == PyTitle(w)
  {
  }

  /** A word after a space loses the capital of its first letter exactly when it is one of `words`. */
  lemma SpacedWordLowered(w: string, words: set<string>)
    requires w != [] && forall k :: 0 <= k < |w| ==> IsWordChar(w[k])
    ensures w in words ==> LowerWords(" " + w, words) == " " + [Lower(w[0])] + w[1..]
    ensures w !in words ==> LowerWords(" " + w, words) == " " + w
  {
    var t := " " + w;
    assert t[1..] == w + [];
    WordIs(t, 1, w, []);
    forall i | 1 < i < |t|
      ensures !WordStart(t, i, words)
    {
      assert t[i - 1] == w[i - 2];
    }
  }

  /**
   * A word of letters after a space is title-cased, and then lower-cased
   * again at its first letter exactly when it is one of `words`.
   */
  lemma SpacedWord(w: string, words: set<string>)
    requires w != [] && forall k :: 0 <= k < |w| ==> IsLetter(w[k])
    ensures PyTitle(w) in words ==> TitleCaseWith(" " + w, words) == " " + [Lower(PyTitle(w)[0])] + PyTitle(w)[1..]
    ensures PyTitle(w) !in words ==> TitleCaseWith(" " + w, words) == " " + PyTitle(w)
  {
    PyTitleConcat(" ", w);
    assert PyTitle(" ") == " ";
    PyTitleKeeps(w);
    SpacedWordLowered(PyTitle(w), words);
    assert TitleCaseWith(" " + w, words) == LowerWords(" " + PyTitle(w), words);
  }

  /** "Often" begins with "Of", but no word boundary follows "Of", so it keeps its capital. */
  lemma OftenKept(s: string, r: string)
    requires s == "stay often" && r == "Stay Often"
    ensures TitleCaseText(s) == r
  {
    assert s == "stay" + " often";
    assert r == "Stay" + " Often";
    OftenNotSmall();
    EmptyNotSmall();
    TitleCaseWithConcat("stay", " often", SmallWords());
    Stay(SmallWords());
    Often(SmallWords());
  }

  lemma OftenNotSmall()
    ensures "Often" !in SmallWords()
  {
    SmallWordsShape();
  }

  lemma Stay(words: set<string>)
    ensures TitleCaseWith("stay", words) == "Stay"
  {
    FirstWord("stay", words);
    PyTitleWord("stay");
  }

  lemma Often(words: set<string>)
    requires "Often" !in words
    ensures TitleCaseWith(" often", words) == " Often"
  {
    assert " often" == " " + "often";
    SpacedWord("often", words);
    PyTitleWord("often");
    assert PyTitle("often") == "Often";
    assert " " + "Often" == " Often";
  }

  /**
   * A lower-case word after a space: a small word comes out as it went in,
   * any other word with its first letter capitalised.
   */
  lemma SpacedLower(w: string, words: set<string>)
    requires w != [] && forall k :: 0 <= k < |w| ==> IsLower(w[k])
    ensures [Upper(w[0])] + w[1..] in words ==> TitleCaseWith(" " + w, words) == " " + w
    ensures [Upper(w[0])] + w[1..] !in words ==> TitleCaseWith(" " + w, words) == " " + [Upper(w[0])] + w[1..]
  {
    PyTitleWord(w);
    var t := PyTitle(w);
    assert t[0] == Upper(w[0]) && t[1..] == w[1..];
    assert Lower(Upper(w[0])) == w[0];
    assert [w[0]] + w[1..] == w;
    assert forall k :: 0 <= k < |w| ==> IsLetter(w[k]);
    SpacedWord(w, words);
  }

  /** Appends a piece that starts with a space to a headline-cased text. */
  lemma Append(a: string, ta: string, b: string, tb: string, words: set<string>)
    requires [] !in words && b != [] && b[0] == ' '
    requires TitleCaseWith(a, words) == ta && TitleCaseWith(b, words) == tb
    ensures TitleCaseWith(a + b, words) == ta + tb
  {
    TitleCaseWithConcat(a, b, words);
  }

  /** The first example of `title_case`, on any words that sort its words as the small words do. */
  lemma FarmerWith(words: set<string>)
    requires "Farmer" !in words && "Dell" !in words && "And" in words && "The" in words && [] !in words
    ensures TitleCaseWith("the" + " farmer" + " and" + " the" + " dell", words)
         == "The" + " Farmer" + " and" + " the" + " Dell"
  {
    FirstWord("the", words);
    PyTitleWord("the");
    assert TitleCaseWith("the", words) == "The";
    SpacedFarmer(words);
    Append("the", "The", " farmer", " Farmer", words);
    SpacedAnd(words);
    Append("the" + " farmer", "The" + " Farmer", " and", " and", words);
    SpacedThe(words);
    Append("the" + " farmer" + " and", "The" + " Farmer" + " and", " the", " the", words);
    SpacedDell(words);
    Append("the" + " farmer" + " and" + " the", "The" + " Farmer" + " and" + " the", " dell", " Dell", words);
  }

  /** The second example: "After" is capitalised already, "to" is small. */
  lemma SeeWith(words: set<string>)
    requires "See" !in words && "To" in words && "Him" !in words && "Go" !in words && "After" !in words
    requires [] !in words
    ensures TitleCaseWith(("I" + " see" + " to" + " see") + (" him" + " go" + " After" + " him"), words)
         == ("I" + " See" + " to" + " See") + (" Him" + " Go" + " After" + " Him")
  {
    FirstWord("I", words);
    assert TitleCaseWith("I", words) == "I";
    SpacedSee(words);
    Append("I", "I", " see", " See", words);
    SpacedTo(words);
    Append("I" + " see", "I" + " See", " to", " to", words);
    Append("I" + " see" + " to", "I" + " See" + " to", " see", " See", words);
    SpacedHim(words);
    SpacedGo(words);
    Append(" him", " Him", " go", " Go", words);
    SpacedAfter(words);
    Append(" him" + " go", " Him" + " Go", " After", " After", words);
    Append(" him" + " go" + " After", " Him" + " Go" + " After", " him", " Him", words);
    Append("I" + " see" + " to" + " see", "I" + " See" + " to" + " See",
      " him" + " go" + " After" + " him", " Him" + " Go" + " After" + " Him", words);
  }

  lemma SpacedAfter(words: set<string>)
    requires "After" !in words
    ensures TitleCaseWith(" After", words) == " After"
  {
    assert " After" == " " + "After";
    SpacedWord("After", words);
    assert PyTitle("After") == "After";
  }

  lemma SpacedFarmer(words: set<string>)
    requires "Farmer" !in words
    ensures TitleCaseWith(" farmer", words) == " Farmer"
  {
    assert " farmer" == " " + "farmer";
    SpacedLower("farmer", words);
    assert [Upper('f')] + "armer" == "Farmer";
  }

  lemma SpacedAnd(words: set<string>)
    requires "And" in words
    ensures TitleCaseWith(" and", words) == " and"
  {
    assert " and" == " " + "and";
    SpacedLower("and", words);
    assert [Upper('a')] + "nd" == "And";
  }

  lemma SpacedThe(words: set<string>)
    requires "The" in words
    ensures TitleCaseWith(" the", words) == " the"
  {
    assert " the" == " " + "the";
    SpacedLower("the", words);
    assert [Upper('t')] + "he" == "The";
  }

  lemma SpacedDell(words: set<string>)
    requires "Dell" !in words
    ensures TitleCaseWith(" dell", words) == " Dell"
  {
    assert " dell" == " " + "dell";
    SpacedLower("dell", words);
    assert [Upper('d')] + "ell" == "Dell";
  }

  lemma SpacedSee(words: set<string>)
    requires "See" !in words
    ensures TitleCaseWith(" see", words) == " See"
  {
    assert " see" == " " + "see";
    SpacedLower("see", words);
    assert [Upper('s')] + "ee" == "See";
  }

  lemma SpacedTo(words: set<string>)
    requires "To" in words
    ensures TitleCaseWith(" to", words) == " to"
  {
    assert " to" == " " + "to";
    SpacedLower("to", words);
    assert [Upper('t')] + "o" == "To";
  }

  lemma SpacedHim(words: set<string>)
    requires "Him" !in words
    ensures TitleCaseWith(" him", words) == " Him"
  {
    assert " him" == " " + "him";
    SpacedLower("him", words);
    assert [Upper('h')] + "im" == "Him";
  }

  lemma SpacedGo(words: set<string>)
    requires "Go" !in words
    ensures TitleCaseWith(" go", words) == " Go"
  {
    assert " go" == " " + "go";
    SpacedLower("go", words);
    assert [Upper('g')] + "o" == "Go";
  }

  /** The examples of `title_case` give the results its tests expect. */
  lemma FarmerKept(s: string, r: string)
    requires s == "the farmer and the dell" && r == "The Farmer and the Dell"
    ensures TitleCaseText(s) == r
  {
    FarmerWords(s, r);
    EmptyNotSmall();
    SmallExamples();
    NotSmallExamples();
    FarmerWith(SmallWords());
  }

  lemma SeeKept(s: string, r: string)
    requires s == "I see to see him go After him" && r == "I See to See Him Go After Him"
    ensures TitleCaseText(s) == r
  {
    SeeWords(s, r);
    EmptyNotSmall();
    SmallExamples();
    NotSmallExamples();
    SeeWith(SmallWords());
  }

  lemma FarmerWords(s: string, r: string)
    requires s == "the farmer and the dell" && r == "The Farmer and the Dell"
    ensures s == "the" + " farmer" + " and" + " the" + " dell"
    ensures r == "The" + " Farmer" + " and" + " the" + " Dell"
  {
  }

  lemma SeeWords(s: string, r: string)
    requires s == "I see to see him go After him" && r == "I See to See Him Go After Him"
    ensures s == ("I" + " see" + " to" + " see") + (" him" + " go" + " After" + " him")
    ensures r == ("I" + " See" + " to" + " See") + (" Him" + " Go" + " After" + " Him")
  {
    SeeHalves(s, r);
    SeeHead("I see to see", "I See to See");
    SeeTail(" him go After him", " Him Go After Him");
  }

  lemma SeeHalves(s: string, r: string)
    requires s == "I see to see him go After him" && r == "I See to See Him Go After Him"
    ensures s == "I see to see" + " him go After him" && r == "I See to See" + " Him Go After Him"
  {
  }

  lemma SeeHead(s: string, r: string)
    requires s == "I see to see" && r == "I See to See"
    ensures s == "I" + " see" + " to" + " see" && r == "I" + " See" + " to" + " See"
  {
  }

  lemma SeeTail(s: string, r: string)
    requires s == " him go After him" && r == " Him Go After Him"
    ensures s == " him" + " go" + " After" + " him" && r == " Him" + " Go" + " After" + " Him"
  {
  }

  lemma SmallExamples()
    ensures "And" in SmallWords() && "The" in SmallWords() && "To" in SmallWords()
  {
  }

  lemma NotSmallExamples()
    ensures "Farmer" !in SmallWords() && "After" !in SmallWords()
    ensures "Dell" !in SmallWords() && "See" !in SmallWords() && "Him" !in SmallWords() && "Go" !in SmallWords()
  {
    LongNotSmall();
    NotShortSmall();
    NotLongSmall();
  }

  lemma LongNotSmall()
    ensures "Farmer" !in SmallWords() && "After" !in SmallWords()
  {
    SmallWordsShape();
  }

  lemma NotShortSmall()
    ensures "Go" !in ShortSmallWords() && "Dell" !in ShortSmallWords()
    ensures "See" !in ShortSmallWords() && "Him" !in ShortSmallWords()
  {
    ShortSmallWordsShape();
  }

  lemma NotLongSmall()
    ensures "Go" !in LongSmallWords() && "Dell" !in LongSmallWords()
    ensures "See" !in LongSmallWords() && "Him" !in LongSmallWords()
  {
    LongSmallWordsShape();
  }

  /** `title()` of a lower-case word capitalises its first letter only. */
  lemma PyTitleWord(w: string)
    requires w != [] && forall k :: 0 <= k < |w| ==> IsLower(w[k])
    ensures PyTitle(w) == [Upper(w[0])] + w[1..]
  {
    forall k | 0 < k < |w|
      ensures PyTitle(w)[k] == w[k]
    {
    }
  }
}
