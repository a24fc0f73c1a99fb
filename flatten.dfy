/**
 * `flatten` (a column of lists, or missing entries, to one list) and
 * `unnest` (a dictionary of lists to a two-column frame).
 */
module Flatten {
  import opened Wrappers

  /** An entry of the list column: a missing value or a list of integers. */
  datatype Entry = NoEntry | Items(items: seq<int>)

  /** Python truthiness of an entry: `None` and `[]` are false. */
  predicate Truthy(e: Entry)
  {
    e.Items? && e.items != []
  }

  /** `[i for i in dataframe if i]`. */
  function Kept(entries: seq<Entry>): (r: seq<Entry>)
    ensures forall k :: 0 <= k < |r| ==> Truthy(r[k])
    ensures |r| <= |entries|
  {
    if entries == [] then []
    else if Truthy(entries[0]) then [entries[0]] + Kept(entries[1..])
    else Kept(entries[1..])
  }

  /** `sum(lists, [])`: the lists, one after the other. */
  function Concat(lists: seq<Entry>): seq<int>
  {
    if lists == [] then []
    else (if lists[0].Items? then lists[0].items else []) + Concat(lists[1..])
  }

  /** Every element of every entry, in order; a missing entry holds none. */
  function AllItems(entries: seq<Entry>): seq<int>
  {
    Concat(entries)
  }

  /** Dropping the falsy entries before concatenating changes nothing. */
  lemma {:induction false} KeptConcat(entries: seq<Entry>)
    ensures Concat(Kept(entries)) == AllItems(entries)
  {
    if entries != [] {
      KeptConcat(entries[1..]);
    }
  }

  lemma {:induction false} ConcatEmpty(entries: seq<Entry>)
    ensures Concat(entries) == [] <==> forall k :: 0 <= k < |entries| ==> !Truthy(entries[k])
  {
    if entries != [] {
      ConcatEmpty(entries[1..]);
      assert forall k :: 1 <= k < |entries| ==> entries[k] == entries[1..][k - 1];
    }
  }

  predicate Distinct(xs: seq<int>)
  {
    forall i, j :: 0 <= i < j < |xs| ==> xs[i] != xs[j]
  }

  predicate Sorted(xs: seq<int>)
  {
    forall i, j :: 0 <= i < j < |xs| ==> xs[i] <= xs[j]
  }

  /** Index of the first occurrence of `x` in `xs`. */
  function FirstIndex(xs: seq<int>, x: int): (n: nat)
    requires x in xs
    ensures n < |xs| && xs[n] == x && x !in xs[..n]
  {
    if xs[0] == x then 0
    else
      var n := 1 + FirstIndex(xs[1..], x);
      assert xs[..n] == [xs[0]] + xs[1..][..n - 1];
      n
  }

  /** `list(dict.fromkeys(xs))`: each value once, where it first occurs. */
  function Dedup(xs: seq<int>): (r: seq<int>)
    ensures forall x :: x in r <==> x in xs
    ensures Distinct(r)
    ensures |r| <= |xs|
  {
    if xs == [] then []
    else
      var d := Dedup(xs[..|xs| - 1]);
      if xs[|xs| - 1] in d then d else d + [xs[|xs| - 1]]
  }

  /** Occurrences before the last element are found in the prefix without it. */
  lemma {:induction false} FirstIndexPrefix(xs: seq<int>, x: int)
    requires xs != [] && x in xs[..|xs| - 1]
    ensures FirstIndex(xs, x) == FirstIndex(xs[..|xs| - 1], x)
  {
    if xs[0] != x {
      var p := xs[..|xs| - 1];
      assert p[1..] == xs[1..][..|xs[1..]| - 1];
      FirstIndexPrefix(xs[1..], x);
    }
  }

  /** The values `Dedup` keeps appear in the order of their first occurrences. */
  lemma {:induction false} DedupOrder(xs: seq<int>)
    ensures forall i, j :: 0 <= i < j < |Dedup(xs)| ==>
      FirstIndex(xs, Dedup(xs)[i]) < FirstIndex(xs, Dedup(xs)[j])
  {
    if xs != [] {
      var p := xs[..|xs| - 1];
      var d := Dedup(p);
      DedupOrder(p);
      forall y | y in d
        ensures FirstIndex(xs, y) == FirstIndex(p, y) < |p|
      {
        FirstIndexPrefix(xs, y);
      }
      if xs[|xs| - 1] !in d {
        assert xs[|xs| - 1] !in p;
        assert FirstIndex(xs, xs[|xs| - 1]) == |p|;
      }
    }
  }

  /** Inserts `x` before the first larger value. */
  function Insert(x: int, s: seq<int>): (r: seq<int>)
    ensures |r| == |s| + 1 && (r[0] == x || (s != [] && r[0] == s[0]))
  {
    if s == [] || x <= s[0] then [x] + s
    else [s[0]] + Insert(x, s[1..])
  }

  lemma {:induction false} InsertPermutation(x: int, s: seq<int>)
    ensures multiset(Insert(x, s)) == multiset(s) + multiset{x}
  {
    if s != [] && x > s[0] {
      InsertPermutation(x, s[1..]);
      assert s == [s[0]] + s[1..];
    }
  }

  lemma {:induction false} InsertSorted(x: int, s: seq<int>)
    requires Sorted(s)
    ensures Sorted(Insert(x, s))
  {
    if s != [] && x > s[0] {
      InsertSorted(x, s[1..]);
      var t := Insert(x, s[1..]);
      assert s[0] <= t[0] by {
        if t[0] != x {
          assert t[0] == s[1];
        }
      }
      assert forall k :: 0 <= k < |t| ==> s[0] <= t[k];
      assert Insert(x, s) == [s[0]] + t;
    }
  }

  /** Inserting a new value into a list without duplicates leaves none. */
  lemma {:induction false} InsertDistinct(x: int, s: seq<int>)
    requires Distinct(s) && x !in s
    ensures Distinct(Insert(x, s))
  {
    if s != [] && x > s[0] {
      InsertDistinct(x, s[1..]);
      var t := Insert(x, s[1..]);
      InsertPermutation(x, s[1..]);
      assert s[0] !in multiset(s[1..]) + multiset{x};
      assert s[0] !in multiset(t);
    }
  }

  /** `sorted(xs)`, ascending. */
  function Sort(xs: seq<int>): (r: seq<int>)
    ensures |r| == |xs|
  {
    if xs == [] then [] else Insert(xs[0], Sort(xs[1..]))
  }

  /** `sorted` returns a permutation of its argument. */
  lemma {:induction false} SortPermutation(xs: seq<int>)
    ensures multiset(Sort(xs)) == multiset(xs)
  {
    if xs != [] {
      SortPermutation(xs[1..]);
      InsertPermutation(xs[0], Sort(xs[1..]));
      assert xs == [xs[0]] + xs[1..];
    }
  }

  /** `sorted` returns its values in ascending order. */
  lemma {:induction false} SortSorted(xs: seq<int>)
    ensures Sorted(Sort(xs))
  {
    if xs != [] {
      SortSorted(xs[1..]);
      InsertSorted(xs[0], Sort(xs[1..]));
    }
  }

  /**
   * `flatten(dataframe, unique, sort)`: the falsy entries dropped and the
   * rest concatenated; `None` when that leaves nothing; otherwise duplicates
   * dropped first if `unique`, then sorted if `sort`.
   */
  function FlattenEntries(entries: seq<Entry>, unique: bool, sort: bool): Option<seq<int>>
  {
    var m := Concat(Kept(entries));
    if |m| == 0 then None
    else
      var u := if unique then Dedup(m) else m;
      Some(if sort then Sort(u) else u)
  }

  /** What `flatten` returns, in terms of all the elements of the column. */
  lemma FlattenFacts(entries: seq<Entry>, unique: bool, sort: bool)
    ensures FlattenEntries(entries, unique, sort).None? <==> forall k :: 0 <= k < |entries| ==> !Truthy(entries[k])
    ensures FlattenEntries(entries, unique, sort).Some? ==>
      forall x :: x in FlattenEntries(entries, unique, sort).value <==> x in AllItems(entries)
    ensures FlattenEntries(entries, unique, sort).Some? && !unique ==>
      multiset(FlattenEntries(entries, unique, sort).value) == multiset(AllItems(entries))
    ensures FlattenEntries(entries, unique, sort).Some? && !unique && !sort ==>
      FlattenEntries(entries, unique, sort).value == AllItems(entries)
    ensures FlattenEntries(entries, unique, sort).Some? && unique ==>
      Distinct(FlattenEntries(entries, unique, sort).value)
    ensures FlattenEntries(entries, unique, sort).Some? && sort ==>
      Sorted(FlattenEntries(entries, unique, sort).value)
  {
    KeptConcat(entries);
    ConcatEmpty(entries);
    var m := AllItems(entries);
    if m != [] && unique {
      var u := Dedup(m);
      if sort {
        SortedDistinct(u);
      }
    }
    if m != [] {
      var u := if unique then Dedup(m) else m;
      SortKeepsElements(u);
      SortSorted(u);
      SortPermutation(u);
    }
  }

  /** Without sorting, `unique` keeps each value where it first occurs. */
  lemma FlattenUniqueOrder(entries: seq<Entry>)
    requires FlattenEntries(entries, true, false).Some?
    ensures var r := FlattenEntries(entries, true, false).value;
      forall i, j :: 0 <= i < j < |r| ==>
        r[i] in AllItems(entries) && r[j] in AllItems(entries) &&
        FirstIndex(AllItems(entries), r[i]) < FirstIndex(AllItems(entries), r[j])
  {
    KeptConcat(entries);
    DedupOrder(AllItems(entries));
  }

  lemma SortKeepsElements(u: seq<int>)
    ensures forall x :: x in Sort(u) <==> x in u
  {
    SortPermutation(u);
    forall x
      ensures x in Sort(u) <==> x in multiset(u)
    {
      assert x in Sort(u) <==> x in multiset(Sort(u));
    }
  }

  /** Sorting a list without duplicates leaves none. */
  lemma {:induction false} SortedDistinct(u: seq<int>)
    requires Distinct(u)
    ensures Distinct(Sort(u))
  {
    if u != [] {
      SortedDistinct(u[1..]);
      var t := Sort(u[1..]);
      SortPermutation(u[1..]);
      assert u[0] !in multiset(u[1..]);
      assert u[0] !in multiset(t);
      InsertDistinct(u[0], t);
    }
  }


  /** Groups of entries, each flattened on its own, as `groupby(...).agg(flatten)` does. */
  function FlattenGroups(groups: seq<seq<Entry>>, unique: bool, sort: bool): (r: seq<Option<seq<int>>>)
    ensures |r| == |groups|
    ensures forall g :: 0 <= g < |groups| ==> r[g] == FlattenEntries(groups[g], unique, sort)
  {
    seq(|groups|, g requires 0 <= g < |groups| => FlattenEntries(groups[g], unique, sort))
  }

  /** The rows `explode` makes of one cell: one per element, one missing row for `None` or `[]`. */
  function ExplodeCell(cell: Option<seq<int>>): (r: seq<Option<int>>)
    ensures cell.Some? && cell.value != [] ==> |r| == |cell.value| && forall k :: 0 <= k < |r| ==> r[k] == Some(cell.value[k])
    ensures cell.None? || cell.value == [] ==> r == [None]
  {
    if cell.None? || cell.value == [] then [None]
    else seq(|cell.value|, k requires 0 <= k < |cell.value| => Some(cell.value[k]))
  }

  /** `explode` on a column of lists. */
  function Explode(column: seq<Option<seq<int>>>): seq<Option<int>>
  {
    if column == [] then [] else ExplodeCell(column[0]) + Explode(column[1..])
  }

  lemma ExplodeFive(a: Option<seq<int>>, b: Option<seq<int>>, c: Option<seq<int>>, d: Option<seq<int>>, e: Option<seq<int>>)
    ensures Explode([a, b, c, d, e])
      == ExplodeCell(a) + (ExplodeCell(b) + (ExplodeCell(c) + (ExplodeCell(d) + ExplodeCell(e))))
  {
    assert [a, b, c, d, e][1..] == [b, c, d, e];
    assert [b, c, d, e][1..] == [c, d, e];
    assert [c, d, e][1..] == [d, e];
    assert [d, e][1..] == [e];
    assert [e][1..] == [];
    assert Explode([e]) == ExplodeCell(e) + Explode([]);
    assert Explode([d, e]) == ExplodeCell(d) + Explode([e]);
    assert Explode([c, d, e]) == ExplodeCell(c) + Explode([d, e]);
    assert Explode([b, c, d, e]) == ExplodeCell(b) + Explode([c, d, e]);
  }

  /** The grouped list column of the tests, one group per key '0' to '4'. */
  function TestGroups(): seq<seq<Entry>>
  {
    [[Items([1, 2]), NoEntry, Items([1])], [NoEntry, NoEntry], [Items([1, 2, 3])],
     [Items([4, 5]), Items([3])], [Items([5])]]
  }

  /** `flatten` once the concatenated elements are known. */
  lemma FlattenOf(entries: seq<Entry>, m: seq<int>, unique: bool, sort: bool)
    requires AllItems(entries) == m && m != []
    ensures FlattenEntries(entries, unique, sort)
      == Some(if sort then Sort(if unique then Dedup(m) else m) else if unique then Dedup(m) else m)
  {
    KeptConcat(entries);
  }

  lemma SortOne(x: int)
    ensures Sort([x]) == [x]
  {
    assert [x][1..] == [];
  }

  lemma SortTwo(x: int, y: int)
    ensures Sort([x, y]) == if x <= y then [x, y] else [y, x]
  {
    assert [x, y][1..] == [y];
    SortOne(y);
    assert Insert(x, [y]) == if x <= y then [x, y] else [y] + Insert(x, []);
  }

  lemma DedupOne(x: int)
    ensures Dedup([x]) == [x]
  {
    assert [x][..0] == [];
  }

  lemma DedupTwo(x: int, y: int)
    requires x != y
    ensures Dedup([x, y]) == [x, y]
  {
    assert [x, y][..1] == [x];
    DedupOne(x);
  }

  lemma ConcatTwo(a: seq<int>, b: seq<int>)
    ensures Concat([Items(a), Items(b)]) == a + b
  {
    assert [Items(a), Items(b)][1..] == [Items(b)];
    assert [Items(b)][1..] == [];
    assert Concat([Items(b)]) == b + Concat([]);
  }

  lemma DedupThree(x: int, y: int, z: int)
    requires x != y && y != z && x != z
    ensures Dedup([x, y, z]) == [x, y, z]
  {
    assert [x, y, z][..2] == [x, y];
    DedupTwo(x, y);
  }

  lemma DedupRepeat(x: int, y: int)
    requires x != y
    ensures Dedup([x, y, x]) == [x, y]
  {
    assert [x, y, x][..2] == [x, y];
    DedupTwo(x, y);
  }

  lemma SortThree(x: int, y: int, z: int)
    ensures Sort([x, y, z]) == Insert(x, if y <= z then [y, z] else [z, y])
  {
    assert [x, y, z][1..] == [y, z];
    SortTwo(y, z);
  }

  lemma InsertTwo(x: int, a: int, b: int)
    ensures Insert(x, [a, b]) == if x <= a then [x, a, b] else if x <= b then [a, x, b] else [a, b, x]
  {
    assert [a, b][1..] == [b];
    assert [b][1..] == [];
  }

  lemma GroupItems()
    ensures AllItems(TestGroups()[0]) == [1, 2, 1]
    ensures AllItems(TestGroups()[2]) == [1, 2, 3]
    ensures AllItems(TestGroups()[3]) == [4, 5, 3]
    ensures AllItems(TestGroups()[4]) == [5]
  {
    GroupZeroItems();
    assert TestGroups()[2] == [Items([1, 2, 3])];
    assert AllItems([Items([1, 2, 3])]) == [1, 2, 3] + Concat([]);
    assert TestGroups()[3] == [Items([4, 5]), Items([3])];
    ConcatTwo([4, 5], [3]);
    assert TestGroups()[4] == [Items([5])];
    assert AllItems([Items([5])]) == [5] + Concat([]);
  }

  lemma GroupOne(u: bool, s: bool)
    ensures FlattenEntries(TestGroups()[1], u, s) == None
  {
    ConcatEmpty(TestGroups()[1]);
    KeptConcat(TestGroups()[1]);
  }

  lemma GroupTwo(u: bool, s: bool)
    ensures FlattenEntries(TestGroups()[2], u, s) == Some([1, 2, 3])
  {
    GroupItems();
    FlattenOf(TestGroups()[2], [1, 2, 3], u, s);
    DedupThree(1, 2, 3);
    SortThree(1, 2, 3);
    InsertTwo(1, 2, 3);
  }

  lemma GroupFour(u: bool, s: bool)
    ensures FlattenEntries(TestGroups()[4], u, s) == Some([5])
  {
    GroupItems();
    FlattenOf(TestGroups()[4], [5], u, s);
    DedupOne(5);
    SortOne(5);
  }

  lemma GroupZeroItems()
    ensures AllItems(TestGroups()[0]) == [1, 2, 1]
  {
    var g := TestGroups()[0];
    assert g == [Items([1, 2]), NoEntry, Items([1])];
    assert g[1..] == [NoEntry, Items([1])];
    assert g[1..][1..] == [Items([1])];
  }

  lemma GroupZero(u: bool, s: bool)
    ensures FlattenEntries(TestGroups()[0], u, s)
      == Some(if u then [1, 2] else if s then [1, 1, 2] else [1, 2, 1])
  {
    GroupItems();
    FlattenOf(TestGroups()[0], [1, 2, 1], u, s);
    DedupRepeat(1, 2);
    SortTwo(1, 2);
    SortThree(1, 2, 1);
    InsertTwo(1, 1, 2);
  }

  lemma GroupThree(u: bool, s: bool)
    ensures FlattenEntries(TestGroups()[3], u, s) == Some(if s then [3, 4, 5] else [4, 5, 3])
  {
    GroupItems();
    FlattenOf(TestGroups()[3], [4, 5, 3], u, s);
    DedupThree(4, 5, 3);
    SortThree(4, 5, 3);
    InsertTwo(4, 3, 5);
  }

  lemma GroupsFive(u: bool, s: bool)
    ensures FlattenGroups(TestGroups(), u, s)
      == [FlattenEntries(TestGroups()[0], u, s), FlattenEntries(TestGroups()[1], u, s),
          FlattenEntries(TestGroups()[2], u, s), FlattenEntries(TestGroups()[3], u, s),
          FlattenEntries(TestGroups()[4], u, s)]
  {
  }

  lemma ExplodeCells()
    ensures ExplodeCell(Some([1, 2])) == [Some(1), Some(2)]
    ensures ExplodeCell(Some([1, 1, 2])) == [Some(1), Some(1), Some(2)]
    ensures ExplodeCell(Some([1, 2, 1])) == [Some(1), Some(2), Some(1)]
    ensures ExplodeCell(Some([1, 2, 3])) == [Some(1), Some(2), Some(3)]
    ensures ExplodeCell(Some([3, 4, 5])) == [Some(3), Some(4), Some(5)]
    ensures ExplodeCell(Some([4, 5, 3])) == [Some(4), Some(5), Some(3)]
    ensures ExplodeCell(Some([5])) == [Some(5)]
  {
  }

  /** The exploded rows of the five groups, one after the other; the group '1' gives the missing row. */
  lemma Assemble(g0: seq<Option<int>>, g2: seq<Option<int>>, g3: seq<Option<int>>, r: seq<Option<int>>)
    requires |r| == |g0| + 1 + |g2| + |g3| + 1
    requires forall k :: 0 <= k < |g0| ==> r[k] == g0[k]
    requires r[|g0|] == None && r[|r| - 1] == Some(5)
    requires forall k :: 0 <= k < |g2| ==> r[|g0| + 1 + k] == g2[k]
    requires forall k :: 0 <= k < |g3| ==> r[|g0| + 1 + |g2| + k] == g3[k]
    ensures g0 + ([None] + (g2 + (g3 + [Some(5)]))) == r
  {
  }

  /** The grouped-and-exploded columns the tests expect, for each setting of `unique` and `sort`. */
  lemma FlattenTestUniqueSorted()
    ensures Explode(FlattenGroups(TestGroups(), true, true))
      == [Some(1), Some(2), None, Some(1), Some(2), Some(3), Some(3), Some(4), Some(5), Some(5)]
  {
    GroupsFive(true, true);
    GroupZero(true, true);
    GroupOne(true, true);
    GroupTwo(true, true);
    GroupThree(true, true);
    GroupFour(true, true);
    ExplodeUniqueSorted([Some([1, 2]), None, Some([1, 2, 3]), Some([3, 4, 5]), Some([5])]);
  }

  lemma ExplodeUniqueSorted(c: seq<Option<seq<int>>>)
    requires c == [Some([1, 2]), None, Some([1, 2, 3]), Some([3, 4, 5]), Some([5])]
    ensures Explode(c) == [Some(1), Some(2), None, Some(1), Some(2), Some(3), Some(3), Some(4), Some(5), Some(5)]
  {
    ExplodeFive(Some([1, 2]), None, Some([1, 2, 3]), Some([3, 4, 5]), Some([5]));
    ExplodeCells();
    Assemble([Some(1), Some(2)], [Some(1), Some(2), Some(3)], [Some(3), Some(4), Some(5)],
      [Some(1), Some(2), None, Some(1), Some(2), Some(3), Some(3), Some(4), Some(5), Some(5)]);
  }

  lemma FlattenTestDupedSorted()
    ensures Explode(FlattenGroups(TestGroups(), false, true))
      == [Some(1), Some(1), Some(2), None, Some(1), Some(2), Some(3), Some(3), Some(4), Some(5), Some(5)]
  {
    GroupsFive(false, true);
    GroupZero(false, true);
    GroupOne(false, true);
    GroupTwo(false, true);
    GroupThree(false, true);
    GroupFour(false, true);
    ExplodeDupedSorted([Some([1, 1, 2]), None, Some([1, 2, 3]), Some([3, 4, 5]), Some([5])]);
  }

  lemma ExplodeDupedSorted(c: seq<Option<seq<int>>>)
    requires c == [Some([1, 1, 2]), None, Some([1, 2, 3]), Some([3, 4, 5]), Some([5])]
    ensures Explode(c) == [Some(1), Some(1), Some(2), None, Some(1), Some(2), Some(3), Some(3), Some(4), Some(5), Some(5)]
  {
    ExplodeFive(Some([1, 1, 2]), None, Some([1, 2, 3]), Some([3, 4, 5]), Some([5]));
    ExplodeCells();
    Assemble([Some(1), Some(1), Some(2)], [Some(1), Some(2), Some(3)], [Some(3), Some(4), Some(5)],
      [Some(1), Some(1), Some(2), None, Some(1), Some(2), Some(3), Some(3), Some(4), Some(5), Some(5)]);
  }

  lemma FlattenTestDupedUnsorted()
    ensures Explode(FlattenGroups(TestGroups(), false, false))
      == [Some(1), Some(2), Some(1), None, Some(1), Some(2), Some(3), Some(4), Some(5), Some(3), Some(5)]
  {
    GroupsFive(false, false);
    GroupZero(false, false);
    GroupOne(false, false);
    GroupTwo(false, false);
    GroupThree(false, false);
    GroupFour(false, false);
    ExplodeDupedUnsorted([Some([1, 2, 1]), None, Some([1, 2, 3]), Some([4, 5, 3]), Some([5])]);
  }

  lemma ExplodeDupedUnsorted(c: seq<Option<seq<int>>>)
    requires c == [Some([1, 2, 1]), None, Some([1, 2, 3]), Some([4, 5, 3]), Some([5])]
    ensures Explode(c) == [Some(1), Some(2), Some(1), None, Some(1), Some(2), Some(3), Some(4), Some(5), Some(3), Some(5)]
  {
    ExplodeFive(Some([1, 2, 1]), None, Some([1, 2, 3]), Some([4, 5, 3]), Some([5]));
    ExplodeCells();
    Assemble([Some(1), Some(2), Some(1)], [Some(1), Some(2), Some(3)], [Some(4), Some(5), Some(3)],
      [Some(1), Some(2), Some(1), None, Some(1), Some(2), Some(3), Some(4), Some(5), Some(3), Some(5)]);
  }

  /** A cell of `unnest`'s value column: missing (`None`, `NaN`) or an integer. */
  datatype Cell = Missing | Int(n: int)

  /** A dictionary value: a list of cells or a single cell. */
  datatype Value = List(cells: seq<Cell>) | Scalar(cell: Cell)

  /** A column of the resulting frame. */
  datatype Column = KeyColumn(keys: seq<string>) | ValueColumn(values: seq<Cell>)

  /**
   * The list a dictionary value becomes: a non-empty list stays, an empty
   * list becomes `[None]`, or nothing when `drop`, and any other value `v`
   * becomes `[v]`.
   */
  function Rows(v: Value, drop: bool): (r: seq<Cell>)
    ensures r == [] <==> drop && v == List([])
    ensures |r| <= 1 ==> v.Scalar? || |v.cells| <= 1
    ensures v.List? && v.cells != [] ==> r == v.cells
  {
    match v
    case List(cells) => if cells != [] then cells else if drop then [] else [Missing]
    case Scalar(c) => [c]
  }

  /** `[k] * n`. */
  function Repeat(k: string, n: nat): (r: seq<string>)
    ensures |r| == n && forall i :: 0 <= i < n ==> r[i] == k
  {
    seq(n, _ => k)
  }

  /** The key column: each key once per row of its value, in dictionary order. */
  function Keys(d: seq<(string, Value)>, drop: bool): seq<string>
  {
    if d == [] then []
    else Repeat(d[0].0, |Rows(d[0].1, drop)|) + Keys(d[1..], drop)
  }

  /** The value column: the rows of every value, in dictionary order. */
  function Values(d: seq<(string, Value)>, drop: bool): seq<Cell>
  {
    if d == [] then [] else Rows(d[0].1, drop) + Values(d[1..], drop)
  }

  /**
   * `unnest(dict, nms, drop)`: a frame with the key column named `nms[0]` and
   * the value column named `nms[1]`. A dictionary literal with two equal keys
   * keeps one entry, in the first key's place with the later value, so equal
   * names leave only the value column; fewer than two names is an `IndexError`.
   */
  function Unnest(d: seq<(string, Value)>, nms: seq<string>, drop: bool): (r: Result<seq<(string, Column)>>)
    ensures r.Ok? <==> |nms| >= 2
    ensures r.Ok? ==> |r.value| >= 1 && r.value[|r.value| - 1] == (nms[1], ValueColumn(Values(d, drop)))
    ensures r.Ok? && nms[0] != nms[1] ==> r.value == [(nms[0], KeyColumn(Keys(d, drop))), (nms[1], ValueColumn(Values(d, drop)))]
  {
    if |nms| < 2 then Err("list index out of range")
    else if nms[0] == nms[1] then Ok([(nms[0], ValueColumn(Values(d, drop)))])
    else Ok([(nms[0], KeyColumn(Keys(d, drop))), (nms[1], ValueColumn(Values(d, drop)))])
  }

  /** Both columns have one entry per row. */
  lemma {:induction false} ColumnsAligned(d: seq<(string, Value)>, drop: bool)
    ensures |Keys(d, drop)| == |Values(d, drop)|
  {
    if d != [] {
      ColumnsAligned(d[1..], drop);
    }
  }

  /** Rows follow dictionary order: the frame of two dictionaries one after the other is theirs one after the other. */
  lemma {:induction false} ColumnsConcat(d1: seq<(string, Value)>, d2: seq<(string, Value)>, drop: bool)
    ensures Keys(d1 + d2, drop) == Keys(d1, drop) + Keys(d2, drop)
    ensures Values(d1 + d2, drop) == Values(d1, drop) + Values(d2, drop)
  {
    if d1 == [] {
      assert d1 + d2 == d2;
    } else {
      assert (d1 + d2)[0] == d1[0];
      assert (d1 + d2)[1..] == d1[1..] + d2;
      ColumnsConcat(d1[1..], d2, drop);
    }
  }

  /** One dictionary entry gives its key once per row of its value. */
  lemma EntryRows(k: string, v: Value, drop: bool)
    ensures |Keys([(k, v)], drop)| == |Rows(v, drop)|
    ensures forall i :: 0 <= i < |Keys([(k, v)], drop)| ==> Keys([(k, v)], drop)[i] == k
    ensures Values([(k, v)], drop) == Rows(v, drop)
  {
    assert [(k, v)][1..] == [];
  }

  /** The number of empty lists among the values. */
  function EmptyLists(d: seq<(string, Value)>): nat
  {
    if d == [] then 0 else (if d[0].1 == List([]) then 1 else 0) + EmptyLists(d[1..])
  }

  /** `drop=True` loses exactly the one row each empty list gives otherwise. */
  lemma {:induction false} DropRows(d: seq<(string, Value)>)
    ensures |Values(d, false)| == |Values(d, true)| + EmptyLists(d)
  {
    if d != [] {
      DropRows(d[1..]);
    }
  }

  lemma KeysFour(e0: (string, Value), e1: (string, Value), e2: (string, Value), e3: (string, Value), drop: bool)
    ensures Keys([e0, e1, e2, e3], drop) == Keys([e0], drop) + Keys([e1], drop) + Keys([e2], drop) + Keys([e3], drop)
  {
    FourEntries(e0, e1, e2, e3, drop);
  }

  lemma ValuesFour(e0: (string, Value), e1: (string, Value), e2: (string, Value), e3: (string, Value), drop: bool)
    ensures Values([e0, e1, e2, e3], drop) == Values([e0], drop) + Values([e1], drop) + Values([e2], drop) + Values([e3], drop)
  {
    FourEntries(e0, e1, e2, e3, drop);
  }

  lemma FourEntries(e0: (string, Value), e1: (string, Value), e2: (string, Value), e3: (string, Value), drop: bool)
    ensures Keys([e0, e1, e2, e3], drop) == Keys([e0], drop) + (Keys([e1], drop) + (Keys([e2], drop) + Keys([e3], drop)))
    ensures Values([e0, e1, e2, e3], drop) == Values([e0], drop) + (Values([e1], drop) + (Values([e2], drop) + Values([e3], drop)))
  {
    ColumnsConcat([e0], [e1, e2, e3], drop);
    ColumnsConcat([e1], [e2, e3], drop);
    ColumnsConcat([e2], [e3], drop);
    assert [e0, e1, e2, e3] == [e0] + [e1, e2, e3];
    assert [e1, e2, e3] == [e1] + [e2, e3];
    assert [e2, e3] == [e2] + [e3];
  }

  /** The dictionary of the tests: {'a': [1, 2, 3], 'b': [3, 5], 'c': 1, 'd': None}. */
  function TestDict(): seq<(string, Value)>
  {
    [("a", List([Int(1), Int(2), Int(3)])), ("b", List([Int(3), Int(5)])), ("c", Scalar(Int(1))), ("d", Scalar(Missing))]
  }

  lemma UnnestTest()
    ensures Keys(TestDict(), false) == ["a", "a", "a", "b", "b", "c", "d"]
    ensures Values(TestDict(), false) == [Int(1), Int(2), Int(3), Int(3), Int(5), Int(1), Missing]
  {
    KeysFour(TestDict()[0], TestDict()[1], TestDict()[2], TestDict()[3], false);
    ValuesFour(TestDict()[0], TestDict()[1], TestDict()[2], TestDict()[3], false);
    assert TestDict() == [TestDict()[0], TestDict()[1], TestDict()[2], TestDict()[3]];
    EntryRows("a", List([Int(1), Int(2), Int(3)]), false);
    EntryRows("b", List([Int(3), Int(5)]), false);
    EntryRows("c", Scalar(Int(1)), false);
    EntryRows("d", Scalar(Missing), false);
  }

  /** The docstring's {'w': [2, 3, 4], 'x': [1, 2], 'y': [], 'z': NaN}. */
  function DocDict(): seq<(string, Value)>
  {
    [("w", List([Int(2), Int(3), Int(4)])), ("x", List([Int(1), Int(2)])), ("y", List([])), ("z", Scalar(Missing))]
  }

  /** The empty list of 'y' gives a missing row, or none with `drop`. */
  lemma UnnestKeepExample()
    ensures Keys(DocDict(), false) == ["w", "w", "w", "x", "x", "y", "z"]
    ensures Values(DocDict(), false) == [Int(2), Int(3), Int(4), Int(1), Int(2), Missing, Missing]
  {
    var d := DocDict();
    assert d == [d[0], d[1], d[2], d[3]];
    KeysFour(d[0], d[1], d[2], d[3], false);
    ValuesFour(d[0], d[1], d[2], d[3], false);
    EntryRows("w", List([Int(2), Int(3), Int(4)]), false);
    EntryRows("x", List([Int(1), Int(2)]), false);
    EntryRows("y", List([]), false);
    EntryRows("z", Scalar(Missing), false);
  }

  lemma UnnestDropExample()
    ensures Keys(DocDict(), true) == ["w", "w", "w", "x", "x", "z"]
    ensures Values(DocDict(), true) == [Int(2), Int(3), Int(4), Int(1), Int(2), Missing]
  {
    var d := DocDict();
    assert d == [d[0], d[1], d[2], d[3]];
    KeysFour(d[0], d[1], d[2], d[3], true);
    ValuesFour(d[0], d[1], d[2], d[3], true);
    EntryRows("w", List([Int(2), Int(3), Int(4)]), true);
    EntryRows("x", List([Int(1), Int(2)]), true);
    EntryRows("y", List([]), true);
    EntryRows("z", Scalar(Missing), true);
  }
}
