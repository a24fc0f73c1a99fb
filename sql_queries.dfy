/**
 * The query builders of `ds.connect.database`: the `DECLARE ... TABLE`
 * schema (`_make_sql_schema_query`) and the batched `insert into ... values`
 * rows (`_make_sql_table_rows_query`). A data frame is a sequence of columns
 * (name, pandas dtype as text, cells already rendered as text or missing).
 */
module SqlQueries {
  import opened Wrappers
  import opened Text

  function Min(a: int, b: int): int { if a <= b then a else b }

  // ---------------------------------------------------------------------
  // Arithmetic used by the batching proofs
  // ---------------------------------------------------------------------

  lemma MulLe(d: int, a: int, b: int)
    requires d > 0 && a <= b
    ensures d * a <= d * b
  {
    assert d * b == d * a + d * (b - a);
  }

  lemma DivIs(x: int, d: int, q: int)
    requires d > 0 && q * d <= x < (q + 1) * d
    ensures x / d == q
  {
    var t := x / d;
    assert x == d * t + x % d && 0 <= x % d < d;
    if t >= q + 1 {
      MulLe(d, q + 1, t);
    } else if t <= q - 1 {
      MulLe(d, t + 1, q);
    }
  }

  lemma DivAtLeast(x: int, d: int, q: int)
    requires d > 0 && q * d <= x
    ensures q <= x / d
  {
    var t := x / d;
    assert x == d * t + x % d && 0 <= x % d < d;
    if t <= q - 1 {
      MulLe(d, t + 1, q);
    }
  }

  // ---------------------------------------------------------------------
  // Schema
  // ---------------------------------------------------------------------

  /** A data-frame column: its name, `str(dtype)` and its rendered cells. */
  datatype Column = Column(name: string, dtype: string, cells: seq<Option<string>>)

  /** One step of `sql_type`. */
  function SqlType(dtype: string): string
  {
    if dtype == "float64" || dtype == "float32" then "NUMERIC(32, 5)"
    else if dtype == "int32" || dtype == "int64" then "INT"
    else if dtype == "datetime64" then "DATETIME"
    else if dtype == "datetime64[ns]" then "DATETIME"
    else if dtype == "bool" then "INT"
    else "VARCHAR({})"
  }

  /** `sql_type`: the loop that appends one SQL type per dtype. */
  method SqlTypes(dtypes: seq<string>) returns (out: seq<string>)
    ensures |out| == |dtypes|
    ensures forall i | 0 <= i < |dtypes| :: out[i] == SqlType(dtypes[i])
  {
    out := [];
    var i := 0;
    while i < |dtypes|
      invariant 0 <= i <= |dtypes| && |out| == i
      invariant forall j | 0 <= j < i :: out[j] == SqlType(dtypes[j])
    {
      out := out + [SqlType(dtypes[i])];
      i := i + 1;
    }
  }

  /** Numbers, dates and booleans get a fixed type; every other dtype becomes `VARCHAR`. */
  lemma SqlTypeClasses(dtype: string)
    ensures SqlType(dtype) == "NUMERIC(32, 5)" <==> dtype in ["float64", "float32"]
    ensures SqlType(dtype) == "INT" <==> dtype in ["int32", "int64", "bool"]
    ensures SqlType(dtype) == "DATETIME" <==> dtype in ["datetime64", "datetime64[ns]"]
    ensures SqlType(dtype) == "VARCHAR({})" <==> dtype !in ["float64", "float32", "int32", "int64", "bool", "datetime64", "datetime64[ns]"]
  {
  }

  /** `.apply(len(str(r)) if r != None).max()`: the longest present cell, `NaN` when none is present. */
  function MaxLen(cells: seq<Option<string>>): (r: Option<nat>)
    ensures r.None? <==> forall i | 0 <= i < |cells| :: cells[i].None?
    ensures r.Some? ==> forall i | 0 <= i < |cells| && cells[i].Some? :: |cells[i].value| <= r.value
    ensures r.Some? ==> exists i | 0 <= i < |cells| && cells[i].Some? :: |cells[i].value| == r.value
  {
    if cells == [] then None
    else
      var rest := MaxLen(cells[1..]);
      assert forall i | 1 <= i < |cells| :: cells[i] == cells[1..][i - 1];
      match cells[0]
      case None => rest
      case Some(s) =>
        if rest.Some? && rest.value >= |s| then rest else Some(|s|)
  }

  const MaxVarchar := 7000

  /** The `lookup` entry of a column: 200 more than its longest cell, `Max` from 7000 on, object columns only. */
  function Width(c: Column): (w: Option<string>)
    ensures w.Some? <==> c.dtype == "object" && exists i | 0 <= i < |c.cells| :: c.cells[i].Some?
  {
    if c.dtype != "object" then None
    else
      match MaxLen(c.cells)
      case None => None
      case Some(m) => if m + 200 < MaxVarchar then Some(NatToString(m + 200)) else Some("Max")
  }

  /** A width is either `Max` or a number from 200 to 6999 that fits every cell with 200 to spare. */
  lemma WidthBounds(c: Column)
    requires Width(c).Some?
    ensures Width(c).value == "Max" || exists m: nat | 200 <= m < MaxVarchar :: Width(c).value == NatToString(m)
    ensures Width(c).value == "Max" <==> MaxLen(c.cells).value + 200 >= MaxVarchar
    ensures Width(c).value != "Max" ==> forall i | 0 <= i < |c.cells| && c.cells[i].Some? :: |c.cells[i].value| + 200 < MaxVarchar
  {
    var m := MaxLen(c.cells).value;
    if m + 200 < MaxVarchar {
      assert Width(c).value == NatToString(m + 200);
      assert IsDigit(NatToString(m + 200)[0]);
    }
  }

  /** `VARCHAR({})`.format(width) where a width exists, the bare type otherwise. */
  function ColumnType(c: Column): (t: string)
    ensures Width(c).Some? ==> t == "VARCHAR(" + Width(c).value + ")"
    ensures Width(c).None? ==> t == SqlType(c.dtype)
  {
    match Width(c)
    case Some(w) => assert SqlType(c.dtype) == "VARCHAR({})"; "VARCHAR(" + w + ")"
    case None => SqlType(c.dtype)
  }

  /** A one-element `nullable` list stands for every column. */
  function Broadcast(nullable: seq<bool>, n: nat): (r: seq<bool>)
    ensures |nullable| == 1 ==> |r| == n && forall i | 0 <= i < n :: r[i] == nullable[0]
    ensures |nullable| != 1 ==> r == nullable
  {
    if |nullable| == 1 then seq(n, _ => nullable[0]) else nullable
  }

  function NullSuffix(nullable: bool): string
  {
    if nullable then "" else " NOT NULL"
  }

  /** The loop that turns each flag into `""` or `" NOT NULL"`. */
  method NullSuffixes(nullable: seq<bool>) returns (nn: seq<string>)
    ensures |nn| == |nullable|
    ensures forall i | 0 <= i < |nullable| :: nn[i] == NullSuffix(nullable[i])
  {
    nn := [];
    var i := 0;
    while i < |nullable|
      invariant 0 <= i <= |nullable| && |nn| == i
      invariant forall j | 0 <= j < i :: nn[j] == NullSuffix(nullable[j])
    {
      if nullable[i] {
        nn := nn + [""];
      } else {
        nn := nn + [" NOT NULL"];
      }
      i := i + 1;
    }
  }

  function ColumnLine(c: Column, suffix: string): string
  {
    "    [" + c.name + "] " + ColumnType(c) + suffix
  }

  /** `zip(columns, types, nullable)`: as many lines as the shorter list. */
  function SchemaLines(cols: seq<Column>, nullable: seq<bool>): (lines: seq<string>)
    ensures |lines| == Min(|cols|, |Broadcast(nullable, |cols|)|)
    ensures forall i | 0 <= i < |lines| ::
              lines[i] == ColumnLine(cols[i], NullSuffix(Broadcast(nullable, |cols|)[i]))
  {
    var flags := Broadcast(nullable, |cols|);
    seq(Min(|cols|, |flags|), i requires 0 <= i < Min(|cols|, |flags|) => ColumnLine(cols[i], NullSuffix(flags[i])))
  }

  /** With a single flag (the default `[True]`), every column gets its line, in column order. */
  lemma OneLinePerColumn(cols: seq<Column>, flag: bool)
    ensures |SchemaLines(cols, [flag])| == |cols|
    ensures forall i | 0 <= i < |cols| ::
              SchemaLines(cols, [flag])[i] == "    [" + cols[i].name + "] " + ColumnType(cols[i]) + NullSuffix(flag)
  {
  }

  /** A line ends in ` NOT NULL` exactly when its column's flag is false. */
  lemma NotNullMeansFalse(cols: seq<Column>, nullable: seq<bool>, i: int)
    requires 0 <= i < |SchemaLines(cols, nullable)|
    ensures Broadcast(nullable, |cols|)[i] ==> SchemaLines(cols, nullable)[i] == ColumnLine(cols[i], "")
    ensures !Broadcast(nullable, |cols|)[i] ==>
              SchemaLines(cols, nullable)[i] == "    [" + cols[i].name + "] " + ColumnType(cols[i]) + " NOT NULL"
  {
  }

  /** `_make_sql_schema_query` as written: the `"\n" + additional` statement has no effect. */
  function SchemaQueryAsWritten(command: string, name: string, command2: string,
                                cols: seq<Column>, nullable: seq<bool>, additional: string): string
  {
    command + " " + name + " " + command2 + "(\n" + Join(SchemaLines(cols, nullable), ",\n") + additional + "\n)"
  }

  /** `_make_sql_schema_query` with `additional` placed on its own line when given. */
  function SchemaQuery(command: string, name: string, command2: string,
                       cols: seq<Column>, nullable: seq<bool>, additional: string): (q: string)
    ensures additional == "" ==> q == SchemaQueryAsWritten(command, name, command2, cols, nullable, additional)
  {
    var extra := if additional != "" then "\n" + additional else additional;
    command + " " + name + " " + command2 + "(\n" + Join(SchemaLines(cols, nullable), ",\n") + extra + "\n)"
  }

  /** The head of the statement and the closing parenthesis around the column lines. */
  lemma SchemaShape(command: string, name: string, command2: string,
                    cols: seq<Column>, nullable: seq<bool>, additional: string)
    ensures var q := SchemaQuery(command, name, command2, cols, nullable, additional);
            StartsWith(q, command + " " + name + " " + command2 + "(\n") && q[|q| - 2..] == "\n)"
  {
    var q := SchemaQuery(command, name, command2, cols, nullable, additional);
    var head := command + " " + name + " " + command2 + "(\n";
    assert q[..|head|] == head;
    MatchAtSlice(q, head, 0);
  }

  /** An extra clause starts on a line of its own, right before the closing line. */
  lemma AdditionalOnOwnLine(command: string, name: string, command2: string,
                            cols: seq<Column>, nullable: seq<bool>, additional: string)
    requires additional != ""
    ensures var q := SchemaQuery(command, name, command2, cols, nullable, additional);
            var tail := "\n" + additional + "\n)";
            |q| >= |tail| && q[|q| - |tail|..] == tail
  {
  }

  /** As written, the extra clause is glued to the last column line. */
  lemma AdditionalGlued(command: string, name: string, command2: string,
                        cols: seq<Column>, nullable: seq<bool>, additional: string)
    requires additional != ""
    ensures var q := SchemaQueryAsWritten(command, name, command2, cols, nullable, additional);
            var body := Join(SchemaLines(cols, nullable), ",\n");
            q == command + " " + name + " " + command2 + "(\n" + body + additional + "\n)"
    ensures |SchemaQueryAsWritten(command, name, command2, cols, nullable, additional)|
            == |SchemaQuery(command, name, command2, cols, nullable, additional)| - 1
  {
  }

  /** The loops of `_make_sql_schema_query`, then the statement. */
  method MakeSchemaQuery(command: string, name: string, command2: string,
                         cols: seq<Column>, nullable: seq<bool>, additional: string) returns (q: string)
    ensures q == SchemaQuery(command, name, command2, cols, nullable, additional)
  {
    var types := SqlTypes(seq(|cols|, i requires 0 <= i < |cols| => cols[i].dtype));
    types := seq(|cols|, i requires 0 <= i < |cols| =>
                   match Width(cols[i]) case Some(w) => "VARCHAR(" + w + ")" case None => types[i]);
    var flags := if |nullable| == 1 then seq(|cols|, _ => nullable[0]) else nullable;
    var nn := NullSuffixes(flags);
    var n := Min(|cols|, |nn|);
    var lines := seq(n, i requires 0 <= i < n => "    [" + cols[i].name + "] " + types[i] + nn[i]);
    assert lines == SchemaLines(cols, nullable);
    var extra := if additional != "" then "\n" + additional else additional;
    q := command + " " + name + " " + command2 + "(\n" + Join(lines, ",\n") + extra + "\n)";
  }

  // ---------------------------------------------------------------------
  // Rows
  // ---------------------------------------------------------------------

  /** `"NULL"` for a missing cell, the quoted text otherwise. */
  function CellText(x: Option<string>): string
  {
    match x
    case None => "NULL"
    case Some(s) => Quote(s)
  }

  function RowTuple(row: seq<Option<string>>): (t: string)
    ensures |t| >= 2 && t[0] == '(' && t[|t| - 1] == ')'
  {
    "(" + Join(seq(|row|, i requires 0 <= i < |row| => CellText(row[i])), ", ") + ")"
  }

  /** The loop that renders one tuple per data-frame row. */
  method BuildTuples(table: seq<seq<Option<string>>>) returns (rows: seq<string>)
    ensures |rows| == |table|
    ensures forall i | 0 <= i < |table| :: rows[i] == RowTuple(table[i])
  {
    rows := [];
    var i := 0;
    while i < |table|
      invariant 0 <= i <= |table| && |rows| == i
      invariant forall j | 0 <= j < i :: rows[j] == RowTuple(table[j])
    {
      rows := rows + [RowTuple(table[i])];
      i := i + 1;
    }
  }

  /** `list.insert(i, x)`: an index past the end appends. */
  function PyInsert(s: seq<string>, i: nat, x: string): seq<string>
  {
    if i <= |s| then s[..i] + [x] + s[i..] else s + [x]
  }

  lemma PyInsertShift(p: seq<string>, t: seq<string>, j: nat, x: string)
    ensures PyInsert(p + t, |p| + j, x) == p + PyInsert(t, j, x)
  {
    if j <= |t| {
      assert (p + t)[..|p| + j] == p + t[..j];
      assert (p + t)[|p| + j..] == t[j..];
    }
  }

  /** `rows` with a marker after each of its first `m` blocks of `b` rows. */
  function Marked(rows: seq<string>, b: nat, m: nat, marker: string): seq<string>
    decreases m
  {
    if m == 0 || |rows| < b then rows
    else rows[..b] + [marker] + Marked(rows[b..], b, m - 1, marker)
  }

  lemma {:induction false} MarkedLength(rows: seq<string>, b: nat, m: nat, marker: string)
    requires m * b <= |rows|
    ensures |Marked(rows, b, m, marker)| == |rows| + m
    decreases m
  {
    if m > 0 {
      assert m * b == (m - 1) * b + b;
      MarkedLength(rows[b..], b, m - 1, marker);
    }
  }

  /** Inserting at `b + k*(b+1)` adds the marker after the next block. */
  lemma {:induction false} InsertNextMarker(rows: seq<string>, b: nat, k: nat, marker: string)
    requires (k + 1) * b < |rows|
    ensures PyInsert(Marked(rows, b, k, marker), b + k * (b + 1), marker) == Marked(rows, b, k + 1, marker)
    decreases k
  {
    if k == 0 {
      assert Marked(rows[b..], b, 0, marker) == rows[b..];
    } else {
      assert (k + 1) * b == k * b + b;
      InsertNextMarker(rows[b..], b, k - 1, marker);
      var j := b + (k - 1) * (b + 1);
      assert b + k * (b + 1) == b + 1 + j;
      InsertNextStep(rows, b, k, marker, j);
    }
  }

  /** One block further in: the insertion point moves past the block and its marker. */
  lemma InsertNextStep(rows: seq<string>, b: nat, k: nat, marker: string, j: nat)
    requires k > 0 && b < |rows|
    requires PyInsert(Marked(rows[b..], b, k - 1, marker), j, marker) == Marked(rows[b..], b, k, marker)
    ensures PyInsert(Marked(rows, b, k, marker), b + 1 + j, marker) == Marked(rows, b, k + 1, marker)
  {
    var head := rows[..b] + [marker];
    assert Marked(rows, b, k, marker) == head + Marked(rows[b..], b, k - 1, marker);
    assert Marked(rows, b, k + 1, marker) == head + Marked(rows[b..], b, k, marker);
    PyInsertShift(head, Marked(rows[b..], b, k - 1, marker), j, marker);
  }

  /** Number of markers the as-written loop places inside the rows. */
  function ProperCount(n: nat, b: nat): nat
  {
    if n <= b then 0
    else if b == 0 then n
    else Min((n + b) / (b + 1), (n - 1) / b)
  }

  /** The as-written loop appends one marker after the last row. */
  predicate Trailing(n: nat, b: nat)
  {
    n > b && b > 0 && (n - 1) / b < (n + b) / (b + 1) && n % b != 0
  }

  /** The layout the as-written loop produces, in closed form. */
  function AsWrittenLayout(rows: seq<string>, b: nat, marker: string): seq<string>
  {
    Marked(rows, b, ProperCount(|rows|, b), marker) + (if Trailing(|rows|, b) then [marker] else [])
  }

  lemma ExitByRange(n: nat, b: nat, k: nat)
    requires n > b && k * b < n && k * (b + 1) >= n && (k == 0 || (k - 1) * (b + 1) < n)
    ensures ProperCount(n, b) == k && !Trailing(n, b)
  {
    if b > 0 {
      assert k >= 1;
      assert (k - 1) * (b + 1) == k * (b + 1) - (b + 1);
      assert (k + 1) * (b + 1) == k * (b + 1) + (b + 1);
      DivIs(n + b, b + 1, k);
      DivAtLeast(n - 1, b, k);
    }
  }

  lemma ExitByBreak(n: nat, b: nat, k: nat)
    requires n > b && k * b < n && k * (b + 1) < n && (k + 1) * b == n
    ensures ProperCount(n, b) == k && !Trailing(n, b)
  {
    assert (k + 1) * (b + 1) == k * (b + 1) + (b + 1);
    DivAtLeast(n + b, b + 1, k + 1);
    assert b > 0;
    DivIs(n - 1, b, k);
    DivIs(n, b, k + 1);
  }

  lemma ExitByAppend(n: nat, b: nat, k: nat)
    requires n > b && k * b < n < (k + 1) * b && k * (b + 1) < n
    ensures ProperCount(n, b) == k && Trailing(n, b)
  {
    assert (k + 1) * (b + 1) == k * (b + 1) + (b + 1);
    DivAtLeast(n + b, b + 1, k + 1);
    assert b > 0;
    DivIs(n - 1, b, k);
    DivIs(n, b, k);
  }

  /** One pass of the as-written loop while its index lies inside the list. */
  lemma InsideStep(rows: seq<string>, b: nat, k: nat, i: nat, marker: string)
    requires i == b + k * (b + 1) && k * b < |rows| && i < |rows| + k && i < |rows| + b
    ensures PyInsert(Marked(rows, b, k, marker), i, marker) == Marked(rows, b, k + 1, marker)
    ensures |Marked(rows, b, k + 1, marker)| == |rows| + k + 1
    ensures (k + 1) * b < |rows| && k * (b + 1) < |rows| && i + b + 1 == b + (k + 1) * (b + 1)
  {
    assert (k + 1) * b == k * b + b && (k + 1) * (b + 1) == k * (b + 1) + b + 1;
    InsertNextMarker(rows, b, k, marker);
    MarkedLength(rows, b, k + 1, marker);
  }

  /** One pass of the as-written loop once its index is past the end of the list. */
  lemma PastStep(n: nat, b: nat, k: nat, i: nat)
    requires i == b + k * (b + 1) && k * b < n && i > n + k && i < n + b
    ensures k * b < n < (k + 1) * b && k * (b + 1) < n
    ensures i + b + 1 >= n + b && i + b + 1 == b + (k + 1) * (b + 1)
  {
    assert (k + 1) * b == k * b + b && (k + 1) * (b + 1) == k * (b + 1) + b + 1;
  }

  /**
   * The batching loop of `_make_sql_table_rows_query` as written: `range`
   * bounds fixed from the original length, a stop when the index equals the
   * current length, and `insert` appending when the index is past it.
   * `break_length` is any integer: every list is longer than a negative one,
   * so -1 reaches `range` with step 0, which raises, and a smaller value gives
   * a negative step from `b` up to `len(rows) + b`, an empty range.
   */
  method InsertMarkersAsWritten(rows: seq<string>, breakLength: int, marker: string)
    returns (result: Result<seq<string>>)
    ensures result.Err? <==> breakLength == -1
    ensures breakLength < -1 ==> result == Ok(rows)
    ensures breakLength >= 0 ==> result == Ok(AsWrittenLayout(rows, breakLength, marker))
  {
    if breakLength == -1 {
      result := Err("range() arg 3 must not be zero");
    } else if breakLength < -1 {
      result := Ok(rows);
    } else {
      var r := MarkBlocks(rows, breakLength, marker);
      result := Ok(r);
    }
  }

  /** The loop of `InsertMarkersAsWritten` for a block size of zero or more. */
  method MarkBlocks(rows: seq<string>, b: nat, marker: string) returns (r: seq<string>)
    ensures r == AsWrittenLayout(rows, b, marker)
  {
    var n := |rows|;
    r := rows;
    if n > b {
      var i := b;
      ghost var k: nat := 0;
      ghost var appended := false;
      while i < n + b
        invariant i == b + k * (b + 1)
        invariant !appended ==> k * b < n && r == Marked(rows, b, k, marker) && |r| == n + k
        invariant !appended ==> k == 0 || (k - 1) * (b + 1) < n
        invariant appended ==> k >= 1 && (k - 1) * b < n < k * b && (k - 1) * (b + 1) < n
        invariant appended ==> r == Marked(rows, b, k - 1, marker) + [marker] && i >= n + b
        decreases n + b - i
      {
        if i == |r| {
          break;
        }
        if i < |r| {
          InsideStep(rows, b, k, i, marker);
        } else {
          PastStep(n, b, k, i);
          appended := true;
        }
        r := PyInsert(r, i, marker);
        i := i + b + 1;
        k := k + 1;
      }
      if appended {
        ExitByAppend(n, b, k - 1);
      } else if i == |r| && i < n + b {
        assert (k + 1) * b == k * b + b;
        ExitByBreak(n, b, k);
      } else {
        ExitByRange(n, b, k);
      }
    }
  }

  /** The intended layout: a marker after every block of `b` rows that more rows follow. */
  function Chunked(rows: seq<string>, b: nat, marker: string): seq<string>
    requires b > 0
    decreases |rows|
  {
    if |rows| <= b then rows else rows[..b] + [marker] + Chunked(rows[b..], b, marker)
  }

  lemma {:induction false} ChunkedIsMarked(rows: seq<string>, b: nat, marker: string)
    requires b > 0 && |rows| > 0
    ensures Chunked(rows, b, marker) == Marked(rows, b, (|rows| - 1) / b, marker)
    decreases |rows|
  {
    var n := |rows|;
    if n <= b {
      DivIs(n - 1, b, 0);
    } else {
      var m := (n - 1) / b;
      DivAtLeast(n - 1, b, 1);
      assert m * b <= n - 1 < (m + 1) * b by {
        assert n - 1 == b * m + (n - 1) % b;
      }
      DivIs(n - 1 - b, b, m - 1);
      ChunkedIsMarked(rows[b..], b, marker);
    }
  }

  /**
   * The batching loop with the bound it evidently intends: it runs while the
   * next index lies inside the current list.
   */
  method InsertMarkers(rows: seq<string>, breakLength: nat, marker: string) returns (r: seq<string>)
    requires breakLength > 0
    ensures r == Chunked(rows, breakLength, marker)
  {
    var n := |rows|;
    var b := breakLength;
    r := rows;
    var i := b;
    ghost var k: nat := 0;
    while i < |r|
      invariant i == b + k * (b + 1)
      invariant k * b < n || n == 0
      invariant r == Marked(rows, b, k, marker) && |r| == n + k
      decreases n + k - i
    {
      assert (k + 1) * b == k * b + b && (k + 1) * (b + 1) == k * (b + 1) + b + 1;
      InsertNextMarker(rows, b, k, marker);
      MarkedLength(rows, b, k + 1, marker);
      r := PyInsert(r, i, marker);
      i := i + b + 1;
      k := k + 1;
    }
    if n > 0 {
      assert (k + 1) * b == k * b + b;
      DivIs(n - 1, b, k);
      ChunkedIsMarked(rows, b, marker);
    }
  }

  /** `str.split` on a marker, for lists: the blocks between markers. */
  function Split(r: seq<string>, marker: string): (chunks: seq<seq<string>>)
    ensures |chunks| >= 1
    decreases |r|
  {
    if r == [] then [[]]
    else
      var rest := Split(r[1..], marker);
      if r[0] == marker then [[]] + rest
      else [[r[0]] + rest[0]] + rest[1..]
  }

  lemma {:induction false} SplitPlain(p: seq<string>, x: seq<string>, marker: string)
    requires marker !in p
    ensures Split(p + x, marker) == [p + Split(x, marker)[0]] + Split(x, marker)[1..]
    decreases |p|
  {
    var sx := Split(x, marker);
    if p == [] {
      assert p + x == x;
      assert p + sx[0] == sx[0];
      assert sx == [sx[0]] + sx[1..];
    } else {
      assert p[0] in p;
      assert (p + x)[1..] == p[1..] + x;
      SplitPlain(p[1..], x, marker);
      var rest := Split(p[1..] + x, marker);
      assert rest == [p[1..] + sx[0]] + sx[1..];
      assert rest[0] == p[1..] + sx[0] && rest[1..] == sx[1..];
      assert Split(p + x, marker) == [[p[0]] + rest[0]] + rest[1..];
      assert [p[0]] + (p[1..] + sx[0]) == p + sx[0];
    }
  }

  /** A block followed by a marker is one chunk. */
  lemma SplitBlock(p: seq<string>, x: seq<string>, marker: string)
    requires marker !in p
    ensures Split(p + [marker] + x, marker) == [p] + Split(x, marker)
  {
    var mx := [marker] + x;
    SplitPlain(p, mx, marker);
    assert p + [marker] + x == p + mx;
    assert mx[0] == marker && mx[1..] == x;
    var sm := Split(mx, marker);
    assert sm == [[]] + Split(x, marker);
    assert sm[0] == [] && sm[1..] == Split(x, marker);
    assert p + sm[0] == p;
  }

  lemma SplitNone(p: seq<string>, marker: string)
    requires marker !in p
    ensures Split(p, marker) == [p]
  {
    SplitPlain(p, [], marker);
    assert p + [] == p;
  }

  function Concat(chunks: seq<seq<string>>): seq<string>
  {
    if chunks == [] then [] else chunks[0] + Concat(chunks[1..])
  }

  /**
   * With the intended bound, every `insert` statement gets between one and
   * `b` rows, and the statements hold all the rows in order.
   */
  lemma {:induction false} ChunkedBlocks(rows: seq<string>, b: nat, marker: string)
    requires b > 0 && |rows| > 0 && marker !in rows
    ensures forall c | c in Split(Chunked(rows, b, marker), marker) :: 1 <= |c| <= b
    ensures Concat(Split(Chunked(rows, b, marker), marker)) == rows
    decreases |rows|
  {
    if |rows| <= b {
      SplitNone(rows, marker);
      assert Concat([rows]) == rows + Concat([]);
    } else {
      assert marker !in rows[..b] && marker !in rows[b..] by {
        assert rows == rows[..b] + rows[b..];
      }
      ChunkedBlocks(rows[b..], b, marker);
      SplitBlock(rows[..b], Chunked(rows[b..], b, marker), marker);
      var chunks := [rows[..b]] + Split(Chunked(rows[b..], b, marker), marker);
      assert chunks[1..] == Split(Chunked(rows[b..], b, marker), marker);
      assert rows == rows[..b] + rows[b..];
    }
  }

  /** Up to `break_length` rows need no marker at all. */
  lemma NoMarkersWhenShort(rows: seq<string>, b: nat, marker: string)
    requires |rows| <= b
    ensures AsWrittenLayout(rows, b, marker) == rows
    ensures b > 0 ==> Chunked(rows, b, marker) == rows
  {
  }

  /**
   * As written, `b + 2` rows (`b` at least 3; 1002 rows with the default
   * 1000) end with a marker: the last `insert` statement has no rows.
   */
  lemma AsWrittenTrailingMarker(rows: seq<string>, b: nat, marker: string)
    requires b >= 3 && |rows| == b + 2 && marker !in rows
    ensures AsWrittenLayout(rows, b, marker) == rows[..b] + [marker] + rows[b..] + [marker]
    ensures |Split(AsWrittenLayout(rows, b, marker), marker)| == 3
    ensures Split(AsWrittenLayout(rows, b, marker), marker)[2] == []
  {
    var n := b + 2;
    DivIs(n + b, b + 1, 2);
    DivIs(n - 1, b, 1);
    DivIs(n, b, 1);
    assert ProperCount(n, b) == 1 && Trailing(n, b);
    assert Marked(rows[b..], b, 0, marker) == rows[b..];
    var layout := rows[..b] + [marker] + (rows[b..] + [marker]);
    assert AsWrittenLayout(rows, b, marker) == layout;
    assert marker !in rows[..b] && marker !in rows[b..] by {
      assert rows == rows[..b] + rows[b..];
    }
    SplitBlock(rows[..b], rows[b..] + [marker], marker);
    SplitBlock(rows[b..], [], marker);
    assert rows[b..] + [marker] == rows[b..] + [marker] + [];
  }

  /** As written, 5 rows with `break_length` 1 leave 2 rows in the last statement. */
  lemma AsWrittenOversizedBlock(rows: seq<string>, marker: string)
    requires |rows| == 5 && marker !in rows
    ensures AsWrittenLayout(rows, 1, marker) == [rows[0], marker, rows[1], marker, rows[2], marker, rows[3], rows[4]]
    ensures |Split(AsWrittenLayout(rows, 1, marker), marker)| == 4
    ensures |Split(AsWrittenLayout(rows, 1, marker), marker)[3]| == 2
  {
    assert ProperCount(5, 1) == 3 && !Trailing(5, 1);
    var layout := [rows[0], marker, rows[1], marker, rows[2], marker, rows[3], rows[4]];
    assert Marked(rows[3..], 1, 0, marker) == rows[3..];
    assert AsWrittenLayout(rows, 1, marker) == layout;
    assert layout == [rows[0]] + [marker] + ([rows[1]] + [marker] + ([rows[2]] + [marker] + [rows[3], rows[4]]));
    assert marker !in [rows[3], rows[4]];
    SplitNone([rows[3], rows[4]], marker);
    SplitBlock([rows[2]], [rows[3], rows[4]], marker);
    SplitBlock([rows[1]], [rows[2]] + [marker] + [rows[3], rows[4]], marker);
    SplitBlock([rows[0]], [rows[1]] + [marker] + ([rows[2]] + [marker] + [rows[3], rows[4]]), marker);
  }

  /** The statement text after the marker's place holder. */
  function Statement(name: string): string
  {
    "insert into [" + name + "] valuesDELETEME123321"
  }

  /** The text that splits one `insert into` statement from the next. */
  function Marker(name: string): string
  {
    "REMOVEME123321" + Statement(name)
  }

  /** The joined list with the place holders removed. */
  function RowsText(name: string, layout: seq<string>): string
  {
    var head := ReplaceAll(Marker(name), "REMOVEME123321", "");
    ReplaceAll(ReplaceAll(Join([head] + layout, ",\n"), "DELETEME123321,", ""), ",\nREMOVEME123321", "\n")
  }

  /** One rendered tuple per data-frame row. */
  function Tuples(table: seq<seq<Option<string>>>): (rows: seq<string>)
    ensures |rows| == |table|
    ensures forall i | 0 <= i < |rows| :: |rows[i]| >= 2 && rows[i][0] == '(' && rows[i][|rows[i]| - 1] == ')'
  {
    seq(|table|, i requires 0 <= i < |table| => RowTuple(table[i]))
  }

  /**
   * `_make_sql_table_rows_query` as written: the batching loop of
   * `InsertMarkersAsWritten`, so a `break_length` of -1 raises and a smaller
   * one leaves every row in one statement.
   */
  method MakeRowsQueryAsWritten(name: string, table: seq<seq<Option<string>>>, breakLength: int)
    returns (tab: Result<string>)
    ensures tab.Err? <==> breakLength == -1
    ensures breakLength < -1 ==> tab == Ok(RowsText(name, Tuples(table)))
    ensures breakLength >= 0 ==> tab == Ok(RowsText(name, AsWrittenLayout(Tuples(table), breakLength, Marker(name))))
  {
    var rows := BuildTuples(table);
    assert rows == Tuples(table);
    var layout := InsertMarkersAsWritten(rows, breakLength, Marker(name));
    match layout
    case Err(m) => tab := Err(m);
    case Ok(l) => tab := Ok(RowsText(name, l));
  }

  /** The marker holds no comma when the table name holds none. */
  lemma MarkerNoComma(name: string)
    requires ',' !in name
    ensures forall j | 0 <= j < |Marker(name)| :: Marker(name)[j] != ','
    ensures Marker(name)[0] == 'R'
  {
    assert ',' !in "REMOVEME123321" + "insert into [" && ',' !in "] valuesDELETEME123321";
    assert ',' !in Marker(name);
  }

  /** A text in which character `k` of the pattern never appears from position `k` on holds no occurrence. */
  lemma MissingCharPattern(w: string, p: string, k: nat)
    requires k < |p|
    requires forall j | k <= j < |w| :: w[j] != p[k]
    ensures !Contains(w, p)
  {
    forall i | 0 <= i <= |w|
      ensures !MatchAt(w, p, i)
    {
      MatchAtSlice(w, p, i);
      if i + |p| <= |w| {
        assert w[i..i + |p|][k] == w[i + k];
      }
    }
  }

  /**
   * As written, for `b + 2` rows the joined statement list is some text
   * ending in the last tuple's `)`, then `",\n"` and the trailing marker.
   */
  lemma TrailingJoin(head: string, name: string, table: seq<seq<Option<string>>>, b: nat) returns (u: string)
    requires b >= 3 && |table| == b + 2
    ensures |u| > 0 && u[|u| - 1] == ')'
    ensures Join([head] + AsWrittenLayout(Tuples(table), b, Marker(name)), ",\n") == u + (",\n" + Marker(name))
  {
    var rows := Tuples(table);
    var m := Marker(name);
    MarkerNotRow(name, table);
    AsWrittenTrailingMarker(rows, b, m);
    var body := rows[..b] + [m] + rows[b..];
    assert AsWrittenLayout(rows, b, m) == body + [m];
    var x := [head] + body;
    assert [head] + (body + [m]) == x + [m];
    JoinAppend(x, m, ",\n");
    u := Join(x, ",\n");
    assert x[|x| - 1] == body[|body| - 1] == rows[b + 1];
    JoinLastChar(x, ",\n");
  }

  /** No rendered tuple is a marker: tuples start with `(`. */
  lemma MarkerNotRow(name: string, table: seq<seq<Option<string>>>)
    ensures Marker(name) !in Tuples(table)
  {
    var rows := Tuples(table);
    forall i | 0 <= i < |rows|
      ensures rows[i] != Marker(name)
    {
      assert rows[i][0] != Marker(name)[0];
    }
  }

  /** A join ends with the last character of its last part. */
  lemma JoinLastChar(x: seq<string>, sep: string)
    requires |x| >= 2 && |x[|x| - 1]| > 0
    ensures var j := Join(x, sep);
      |j| > 0 && j[|j| - 1] == x[|x| - 1][|x[|x| - 1]| - 1]
  {
    var last := x[|x| - 1];
    assert x == x[..|x| - 1] + [last];
    JoinAppend(x[..|x| - 1], last, sep);
  }

  /**
   * The text of the as-written statement list for `b + 2` rows (1002 rows
   * with the default 1000): the trailing marker keeps its place holder,
   * because no comma follows it, so the text ends with an `insert into`
   * statement that has no rows and still holds `DELETEME123321`.
   */
  lemma AsWrittenTrailingText(name: string, table: seq<seq<Option<string>>>, b: nat)
    requires b >= 3 && |table| == b + 2 && ',' !in name
    ensures var t := RowsText(name, AsWrittenLayout(Tuples(table), b, Marker(name)));
      var tail := "\n" + Statement(name);
      |t| >= |tail| && t[|t| - |tail|..] == tail
  {
    var layout := AsWrittenLayout(Tuples(table), b, Marker(name));
    var u := TrailingJoin(ReplaceAll(Marker(name), "REMOVEME123321", ""), name, table, b);
    var w := ",\n" + Marker(name);
    RowsTextOf(name, layout, u + w);
    MarkerNoComma(name);
    RemoveDelete(u, w, "DELETEME123321,");
    var a := ReplaceAll(u, "DELETEME123321,", "");
    RemoveRemoveMe(a, w, ",\nREMOVEME123321", name);
    EndsWith(ReplaceAll(a, ",\nREMOVEME123321", "\n"), "\n" + Statement(name));
  }

  /** `x + y` ends with `y`. */
  lemma EndsWith(x: string, y: string)
    ensures |x + y| >= |y| && (x + y)[|x + y| - |y|..] == y
  {
  }

  /** `RowsText` is the two substitutions applied to the joined list. */
  lemma RowsTextOf(name: string, layout: seq<string>, x: string)
    requires Join([ReplaceAll(Marker(name), "REMOVEME123321", "")] + layout, ",\n") == x
    ensures RowsText(name, layout) == ReplaceAll(ReplaceAll(x, "DELETEME123321,", ""), ",\nREMOVEME123321", "\n")
  {
  }

  /** First substitution: `DELETEME123321,` never crosses into `",\n" + marker`, and is not in it. */
  lemma RemoveDelete(u: string, w: string, p: string)
    requires p == "DELETEME123321,"
    requires |u| > 0 && u[|u| - 1] == ')'
    requires |w| > 0 && w[0] == ',' && forall j | 1 <= j < |w| :: w[j] != ','
    ensures ReplaceAll(u + w, p, "") == ReplaceAll(u, p, "") + w
  {
    assert ')' !in p[..|p| - 1];
    NoCrossingBefore(u, w, p, ')');
    ReplaceAllSplit(u, w, p, "");
    MissingCharPattern(w, p, 14);
    ReplaceAllAbsent(w, p, "");
  }

  /** The marker, after its `",\n"`, loses its place holder and nothing else. */
  lemma RemoveMeInMarker(w: string, p: string, name: string)
    requires ',' !in name
    requires p == ",\nREMOVEME123321" && w == ",\n" + Marker(name)
    ensures ReplaceAll(w, p, "\n") == "\n" + Statement(name)
  {
    MarkerNoComma(name);
    var rest := Statement(name);
    assert w == p + rest;
    assert w[..|p|] == p && w[|p|..] == rest;
    assert ',' !in rest;
    MissingCharPattern(rest, p, 0);
    ReplaceAllAbsent(rest, p, "\n");
  }

  /** Second substitution: only the marker's own `,\nREMOVEME123321` is replaced. */
  lemma RemoveRemoveMe(a: string, w: string, p: string, name: string)
    requires ',' !in name
    requires p == ",\nREMOVEME123321" && w == ",\n" + Marker(name)
    ensures ReplaceAll(a + w, p, "\n") == ReplaceAll(a, p, "\n") + ("\n" + Statement(name))
  {
    assert ',' !in p[1..];
    NoCrossingAfter(a, w, p, ',');
    ReplaceAllSplit(a, w, p, "\n");
    RemoveMeInMarker(w, p, name);
  }

  /** `_make_sql_table_rows_query`, with the intended batching bound. */
  method MakeRowsQuery(name: string, table: seq<seq<Option<string>>>, breakLength: nat) returns (tab: string)
    requires breakLength > 0
    ensures exists rows: seq<string> | |rows| == |table| && (forall i | 0 <= i < |table| :: rows[i] == RowTuple(table[i])) ::
              tab == RowsText(name, Chunked(rows, breakLength, Marker(name)))
  {
    var rows := BuildTuples(table);
    var layout := InsertMarkers(rows, breakLength, Marker(name));
    tab := RowsText(name, layout);
  }
}
