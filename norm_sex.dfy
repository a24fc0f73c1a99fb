/**
 * `NormSex`: normalises free-text sex categories to "Male", "Female" or
 * "Unknown" and maps normalised values to the other formats of its table
 * (a strict label, a 0/1 `is_female` code, a sign) through a left join.
 * The same class appears in the package module and in its documentation
 * template; both copies behave identically and share this model.
 */
module NormSex {
  import opened Wrappers
  import opened Text

  /** A cell of the mapping table or of a join result: missing, text or integer. */
  datatype Cell = NA | Str(s: string) | Num(n: int)

  /** Column names of the mapping table; the first is the join key. */
  const Columns: seq<string> := ["normed", "label_strict", "is_female", "sign"]

  /** The mapping table, one row per normalised value. */
  const Table: seq<seq<Cell>> := [
    [Str("Male"), Str("Male"), Num(0), Str("♂")],
    [Str("Female"), Str("Female"), Num(1), Str("♀")],
    [Str("Unknown"), NA, NA, Str("Unknown")]
  ]

  /** The formats a caller may ask for: every column but the key. */
  const Formats: seq<string> := ["label_strict", "is_female", "sign"]

  /** Lower-cased spellings recognised as male and as female. */
  const MaleSpellings: set<string> := {"man", "m", "male"}
  const FemaleSpellings: set<string> := {"woman", "f", "female"}

  /** The lookup dictionary of `normalize`; anything else maps to "Unknown". */
  const SexDict: map<string, string> :=
    map["man" := "Male", "woman" := "Female", "m" := "Male",
        "f" := "Female", "male" := "Male", "female" := "Female"]

  /** Reference meaning of one lower-cased key. */
  function SexLabel(key: string): string
  {
    if key in MaleSpellings then "Male"
    else if key in FemaleSpellings then "Female"
    else "Unknown"
  }

  /**
   * `normalize`: missing values stay missing; every other value is rendered
   * with `str`, lower-cased and looked up, with "Unknown" as the default.
   */
  function Normalize(x: seq<Raw>): (r: seq<Option<string>>)
    ensures |r| == |x|
    ensures forall i :: 0 <= i < |x| ==>
      r[i] == (if x[i].Null? then None else Some(SexLabel(LowerStr(AsText(x[i]).value))))
  {
    seq(|x|, i requires 0 <= i < |x| =>
      match AsText(x[i])
      case None => None
      case Some(t) =>
        var key := LowerStr(t);
        Some(if key in SexDict then SexDict[key] else "Unknown"))
  }

  /** Only the lower-cased text matters, and every result is a key of the table. */
  lemma NormalizeCaseInsensitive(a: string, b: string)
    requires LowerStr(a) == LowerStr(b)
    ensures Normalize([Text(a)]) == Normalize([Text(b)])
    ensures Normalize([Text(a)])[0].value in {"Male", "Female", "Unknown"}
  {
  }

  /** The mixed labels of the package's tests. */
  lemma NormalizeUncommonLabels(x: seq<Raw>)
    requires x == [Text("man"), Text("men"), Text("women"), Text("woman"), Text("boy")]
    ensures Normalize(x) == [Some("Male"), Some("Unknown"), Some("Unknown"), Some("Female"), Some("Unknown")]
  {
    TextAt(x, 0, "man");
    TextAt(x, 1, "men");
    TextAt(x, 2, "women");
    TextAt(x, 3, "woman");
    TextAt(x, 4, "boy");
  }

  /** The rest of the mixed labels: a symbol, an integer, empty text and a dash. */
  lemma NormalizeOddLabels(x: seq<Raw>)
    requires x == [Text("girl"), Text("♂"), Int(3), Text(""), Text("-")]
    ensures Normalize(x) == [Some("Unknown"), Some("Unknown"), Some("Unknown"), Some("Unknown"), Some("Unknown")]
  {
    TextAt(x, 0, "girl");
    TextAt(x, 1, "♂");
    assert LowerStr("3") == "3";
    TextAt(x, 3, "");
    TextAt(x, 4, "-");
  }

  /** An entry already in lower case is labelled by its own text. */
  lemma TextAt(x: seq<Raw>, i: int, t: string)
    requires 0 <= i < |x| && x[i] == Text(t)
    requires forall k :: 0 <= k < |t| ==> !IsUpper(t[k])
    ensures Normalize(x)[i] == Some(SexLabel(t))
  {
    assert LowerStr(t) == t;
  }

  /** The `to` argument of `map_to`: omitted, a single string, or a list of names. */
  datatype ToArg = AllFormats | Scalar(name: string) | Names(names: seq<string>)

  /** Drops every "normed" entry, keeping the order of the rest. */
  function DropNormed(ns: seq<string>): (r: seq<string>)
    ensures "normed" !in r
    ensures forall n :: n in r <==> n in ns && n != "normed"
  {
    if ns == [] then []
    else if ns[0] == "normed" then DropNormed(ns[1..])
    else [ns[0]] + DropNormed(ns[1..])
  }

  /**
   * The requested formats: `None` when `to` is omitted; a scalar string is
   * split into its characters (`list(to)`), as `np.isscalar` accepts strings.
   */
  function Requested(to: ToArg): Option<seq<string>>
  {
    match to
    case AllFormats => None
    case Scalar(s) => Some(DropNormed(seq(|s|, i requires 0 <= i < |s| => [s[i]])))
    case Names(ns) => Some(DropNormed(ns))
  }

  /** The requested names that are not formats, in request order. */
  function Unavailable(ns: seq<string>): (r: seq<string>)
    ensures forall n :: n in r <==> n in ns && n !in Formats
  {
    if ns == [] then []
    else if ns[0] !in Formats then [ns[0]] + Unavailable(ns[1..])
    else Unavailable(ns[1..])
  }

  function UnavailableMessage(bad: seq<string>): string
  {
    "The following are not available `to` formats: " + Join(QuoteAll(bad), ", ")
  }

  /** Index of a column of the mapping table. */
  function ColIndex(name: string): (c: nat)
    requires name in Formats
    ensures 1 <= c < |Columns| && Columns[c] == name
  {
    if name == "label_strict" then 1
    else if name == "is_female" then 2
    else 3
  }

  /** The join key of a normalised value; a missing value joins as missing. */
  function KeyCell(v: Option<string>): Cell
  {
    if v.None? then NA else Str(v.value)
  }

  /** The table row whose key equals `key`, searched from row `j`. */
  function FindRow(key: Cell, j: nat): (r: Option<nat>)
    requires j <= |Table|
    ensures r.Some? ==> j <= r.value < |Table| && Table[r.value][0] == key
    ensures r.None? ==> forall k :: j <= k < |Table| ==> Table[k][0] != key
    decreases |Table| - j
  {
    if j == |Table| then None
    else if Table[j][0] == key then Some(j)
    else FindRow(key, j + 1)
  }

  /** The left join of one value with one column: the matching row's cell, or NA. */
  function JoinCell(v: Option<string>, c: nat): Cell
    requires c < |Columns|
  {
    match FindRow(KeyCell(v), 0)
    case None => NA
    case Some(j) => Table[j][c]
  }

  /**
   * One row of the left join: the value itself, then for each requested format
   * the cell of the table row whose key matches, or NA when no row matches.
   */
  function JoinRow(v: Option<string>, names: seq<string>): (row: seq<Cell>)
    requires forall n :: n in names ==> n in Formats
    ensures |row| == 1 + |names| && row[0] == KeyCell(v)
    ensures forall k, j :: 1 <= k <= |names| && 0 <= j < |Table| && Table[j][0] == KeyCell(v) ==>
      row[k] == Table[j][ColIndex(names[k - 1])]
    ensures (forall j :: 0 <= j < |Table| ==> Table[j][0] != KeyCell(v)) ==>
      forall k :: 1 <= k <= |names| ==> row[k] == NA
  {
    [KeyCell(v)] + seq(|names|, k requires 0 <= k < |names| => JoinCell(v, ColIndex(names[k])))
  }

  /** A result of `map_to`: column names and rows. */
  datatype Frame = Frame(columns: seq<string>, rows: seq<seq<Cell>>)

  /**
   * `map_to`: rejects unknown formats, listing all of them; otherwise left-joins
   * the values with the key column and the requested columns of the table.
   */
  function MapTo(x: seq<Option<string>>, to: ToArg): (r: Result<Frame>)
    ensures r.Err? <==> Requested(to).Some? && exists n :: n in Requested(to).value && n !in Formats
    ensures r.Err? ==> r.message == UnavailableMessage(Unavailable(Requested(to).value))
    ensures r.Ok? ==>
      var names := if Requested(to).None? then Formats else Requested(to).value;
      && (forall n :: n in names ==> n in Formats)
      && r.value.columns == ["normed"] + names
      && |r.value.rows| == |x|
      && forall i :: 0 <= i < |x| ==> r.value.rows[i] == JoinRow(x[i], names)
  {
    var req := Requested(to);
    if req.Some? && |Unavailable(req.value)| > 0 then
      assert Unavailable(req.value)[0] in Unavailable(req.value);
      Err(UnavailableMessage(Unavailable(req.value)))
    else
      var names := if req.None? then Formats else req.value;
      assert forall n :: n in names ==> n in Formats;
      Ok(Frame(["normed"] + names, seq(|x|, i requires 0 <= i < |x| => JoinRow(x[i], names))))
  }

  /**
   * The accessor `to_<c>` (the functions `_make_map_fn` builds): the cells of
   * column `c` for each value, i.e. column 1 of `map_to(x, [c])`.
   */
  function ToFormat(x: seq<Option<string>>, c: string): (r: seq<Cell>)
    requires c in Formats
    ensures |r| == |x|
    ensures MapTo(x, Names([c])).Ok?
    ensures forall i :: 0 <= i < |x| ==> r[i] == MapTo(x, Names([c])).value.rows[i][1]
  {
    assert DropNormed([c]) == [c];
    seq(|x|, i requires 0 <= i < |x| => JoinCell(x[i], ColIndex(c)))
  }

  /** The normalised keys are distinct, so the left join yields one row per value. */
  lemma TableKeysDistinct()
    ensures Formats == Columns[1..]
    ensures forall j, k :: 0 <= j < k < |Table| ==> Table[j][0] != Table[k][0]
    ensures forall j :: 0 <= j < |Table| ==> |Table[j]| == |Columns|
  {
  }

  /**
   * Every value `normalize` produces finds its row: the sign of a normalised,
   * non-missing value is never missing, and its strict label is missing exactly
   * for "Unknown".
   */
  lemma NormalizedValuesJoin(x: seq<Raw>, i: nat)
    requires i < |x| && !x[i].Null?
    ensures MapTo(Normalize(x), AllFormats).Ok?
    ensures MapTo(Normalize(x), AllFormats).value.rows[i][3] != NA
    ensures MapTo(Normalize(x), AllFormats).value.rows[i][1] == NA
        <==> Normalize(x)[i] == Some("Unknown")
  {
    var v := Normalize(x)[i];
    var r := MapTo(Normalize(x), AllFormats).value;
    assert v.value in {"Male", "Female", "Unknown"};
    var j := if v.value == "Male" then 0 else if v.value == "Female" then 1 else 2;
    assert Table[j][0] == KeyCell(v);
    assert r.rows[i][3] == Table[j][ColIndex(Formats[2])];
    assert r.rows[i][1] == Table[j][ColIndex(Formats[0])];
  }

  /** A scalar `to` is split into characters, so "sign" asks for formats "s", "i", "g", "n". */
  lemma ScalarToIsSplit()
    ensures MapTo([Some("Male")], Scalar("sign"))
         == Err("The following are not available `to` formats: 's', 'i', 'g', 'n'")
  {
    SignIsSplit();
    SignMessage();
  }

  lemma SignIsSplit()
    ensures Requested(Scalar("sign")) == Some(["s", "i", "g", "n"])
    ensures Unavailable(["s", "i", "g", "n"]) == ["s", "i", "g", "n"]
  {
    var chars := seq(|"sign"|, i requires 0 <= i < |"sign"| => ["sign"[i]]);
    assert chars == ["s", "i", "g", "n"];
    assert DropNormed(["s", "i", "g", "n"]) == ["s", "i", "g", "n"];
    assert "n" !in Formats && "g" !in Formats && "i" !in Formats && "s" !in Formats;
  }

  lemma SignMessage()
    ensures UnavailableMessage(["s", "i", "g", "n"])
         == "The following are not available `to` formats: 's', 'i', 'g', 'n'"
  {
    SignQuoted(["s", "i", "g", "n"], ["'s'", "'i'", "'g'", "'n'"]);
    SignJoined(["'s'", "'i'", "'g'", "'n'"], "'s', 'i', 'g', 'n'");
  }

  lemma SignQuoted(b: seq<string>, q: seq<string>)
    requires b == ["s", "i", "g", "n"] && q == ["'s'", "'i'", "'g'", "'n'"]
    ensures QuoteAll(b) == q
  {
    assert Quote("s") == "'s'" && Quote("i") == "'i'" && Quote("g") == "'g'" && Quote("n") == "'n'";
  }

  lemma SignJoined(q: seq<string>, j: string)
    requires q == ["'s'", "'i'", "'g'", "'n'"] && j == "'s', 'i', 'g', 'n'"
    ensures Join(q, ", ") == j
  {
    assert Join(q[3..], ", ") == "'n'";
    assert Join(q[2..], ", ") == "'g', 'n'" by { assert q[2..][1..] == q[3..]; }
    assert Join(q[1..], ", ") == "'i', 'g', 'n'" by { assert q[1..][1..] == q[2..]; }
  }

  /**
   * The constructor's loop: one accessor name `to_<c>` for every column after
   * the first.
   */
  method AccessorNames(columns: seq<string>) returns (names: seq<string>)
    ensures |names| == if columns == [] then 0 else |columns| - 1
    ensures forall k :: 0 <= k < |names| ==> names[k] == "to_" + columns[k + 1]
  {
    names := [];
    var i := 1;
    while i < |columns|
      invariant 1 <= i <= if columns == [] then 1 else |columns|
      invariant |names| == i - 1
      invariant forall k :: 0 <= k < |names| ==> names[k] == "to_" + columns[k + 1]
    {
      names := names + ["to_" + columns[i]];
      i := i + 1;
    }
  }

  /** Distinct columns give distinct accessors, one per format. */
  lemma AccessorNamesDistinct(a: string, b: string)
    requires "to_" + a == "to_" + b
    ensures a == b
  {
    assert a == ("to_" + a)[3..];
    assert b == ("to_" + b)[3..];
  }
}
