/**
 * `make_batch(length, batch_size)`: the (start, end, i) index triples that
 * break `range(length)` into consecutive batches of `batch_size` items, built
 * from Python's `range` and a three-way `zip`.
 */
module MakeBatch {
  import opened Wrappers

  /** One zipped triple: a slice `[start:end]` and its position `index`. */
  datatype Batch = Batch(start: int, end: int, index: int)

  /** Python's `range(start, stop, step)` as a list; a zero step raises. */
  function PyRange(start: int, stop: int, step: int): (r: seq<int>)
    requires step != 0
    ensures step > 0 && stop <= start ==> r == []
    ensures step < 0 && start <= stop ==> r == []
    ensures r != [] ==> r[0] == start
    decreases if step > 0 then stop - start else start - stop
  {
    if (step > 0 && start < stop) || (step < 0 && stop < start) then
      [start] + PyRange(start + step, stop, step)
    else
      []
  }

  /** Python's `zip` of three lists: it stops at the shortest. */
  function Zip3(a: seq<int>, b: seq<int>, c: seq<int>): (r: seq<Batch>)
    ensures |r| <= |a| && |r| <= |b| && |r| <= |c|
    ensures |r| == |a| || |r| == |b| || |r| == |c|
    ensures forall i :: 0 <= i < |r| ==> r[i] == Batch(a[i], b[i], c[i])
  {
    if a == [] || b == [] || c == [] then []
    else [Batch(a[0], b[0], c[0])] + Zip3(a[1..], b[1..], c[1..])
  }

  /**
   * `make_batch`. A zero `batch_size` makes the first `range` raise; every
   * other size is accepted, and the zip silently truncates.
   */
  function Batches(length: int, batchSize: int): (r: Result<seq<Batch>>)
    ensures r.Err? <==> batchSize == 0
  {
    if batchSize == 0 then
      Err("range() arg 3 must not be zero")
    else
      var starts := PyRange(0, length, batchSize);
      var ends := PyRange(batchSize, length, batchSize) + [length];
      Ok(Zip3(starts, ends, PyRange(0, |starts|, 1)))
  }

  lemma MulMono(x: int, y: int, b: int)
    requires x <= y && 0 <= b
    ensures x * b <= y * b
  {
    assert y * b - x * b == (y - x) * b;
  }

  /** An ascending range holds start, start + step, ... below stop, and no more. */
  lemma {:induction false} RangeUp(start: int, stop: int, step: int)
    requires step > 0
    ensures var r := PyRange(start, stop, step);
      (forall i :: 0 <= i < |r| ==> r[i] == start + i * step && r[i] < stop)
      && start + |r| * step >= stop
    decreases stop - start
  {
    var r := PyRange(start, stop, step);
    if start < stop {
      var t := PyRange(start + step, stop, step);
      RangeUp(start + step, stop, step);
      assert r == [start] + t;
      forall i | 0 < i < |r|
        ensures r[i] == start + i * step
      {
        assert r[i] == t[i - 1] == start + step + (i - 1) * step;
      }
      assert start + |r| * step == start + step + |t| * step;
    }
  }

  /** `range(0, n)` for n >= 0 is exactly 0, 1, ..., n - 1. */
  lemma Indices(n: int)
    requires n >= 0
    ensures var r := PyRange(0, n, 1);
      |r| == n && forall i :: 0 <= i < n ==> r[i] == i
  {
    var r := PyRange(0, n, 1);
    RangeUp(0, n, 1);
    if |r| > 0 {
      assert r[|r| - 1] < n;
    }
  }

  /**
   * Every batch of a positive size: batch i starts at i * b and ends where
   * batch i + 1 starts, except the last, which ends at `length`.
   */
  lemma BatchesShape(length: int, b: int)
    requires b > 0
    ensures var r := Batches(length, b).value;
      (r == [] <==> length <= 0)
      && (forall i :: 0 <= i < |r| ==> r[i].start == i * b && r[i].index == i && r[i].start < length)
      && (forall i :: 0 <= i < |r| - 1 ==> r[i].end == r[i + 1].start)
      && (r != [] ==> r[|r| - 1].end == length && |r| * b >= length)
  {
    var starts := PyRange(0, length, b);
    var tail := PyRange(b, length, b);
    var ends := tail + [length];
    var r := Batches(length, b).value;
    RangeUp(0, length, b);
    Indices(|starts|);
    if length > 0 {
      assert starts == [0] + tail;
      assert |ends| == |starts|;
      assert |r| == |starts|;
      forall i | 0 <= i < |r| - 1
        ensures r[i].end == r[i + 1].start
      {
        assert ends[i] == tail[i] == starts[i + 1];
      }
    } else {
      assert starts == [];
    }
  }

  /** Every batch is non-empty and holds at most `batch_size` items. */
  lemma BatchSizes(length: int, b: int)
    requires b > 0
    ensures var r := Batches(length, b).value;
      forall i :: 0 <= i < |r| ==> 1 <= r[i].end - r[i].start <= b
  {
    var r := Batches(length, b).value;
    BatchesShape(length, b);
    forall i | 0 <= i < |r|
      ensures 1 <= r[i].end - r[i].start <= b
    {
      if i < |r| - 1 {
        assert r[i + 1].start == (i + 1) * b;
      } else {
        assert r[i].start < length;
        MulMono(i, |r| - 1, b);
        assert (|r| - 1) * b == |r| * b - b;
      }
    }
  }

  lemma CeilUnique(length: int, b: int, n: int)
    requires b > 0 && length > 0 && n >= 1
    requires (n - 1) * b < length <= n * b
    ensures n == (length + b - 1) / b
  {
    var q := (length + b - 1) / b;
    var m := (length + b - 1) % b;
    assert q * b + m == length + b - 1;
    if n < q {
      MulMono(n, q - 1, b);
    } else if q < n {
      MulMono(q, n - 1, b);
    }
  }

  /** There are ceil(length / batch_size) batches; a non-positive length gives none. */
  lemma BatchCount(length: int, b: int)
    requires b > 0
    ensures var r := Batches(length, b).value;
      |r| == if length <= 0 then 0 else (length + b - 1) / b
  {
    var r := Batches(length, b).value;
    BatchesShape(length, b);
    if length > 0 {
      assert r[|r| - 1].start == (|r| - 1) * b;
      CeilUnique(length, b, |r|);
    }
  }

  lemma DivUnique(x: int, b: int, i: int)
    requires b > 0 && i * b <= x < (i + 1) * b
    ensures x / b == i
  {
    var q := x / b;
    assert q * b + x % b == x;
    if q < i {
      MulMono(q + 1, i, b);
    } else if i < q {
      MulMono(i + 1, q, b);
    }
  }

  /** Item x of `range(length)` lies in batch x / batch_size. */
  lemma BatchOf(length: int, b: int)
    requires b > 0
    ensures var r := Batches(length, b).value;
      forall x :: 0 <= x < length ==>
        x / b < |r| && r[x / b].start <= x < r[x / b].end
  {
    var r := Batches(length, b).value;
    BatchesShape(length, b);
    forall x | 0 <= x < length
      ensures x / b < |r| && r[x / b].start <= x < r[x / b].end
    {
      BatchOfOne(r, length, b, x);
    }
  }

  lemma BatchOfOne(r: seq<Batch>, length: int, b: int, x: int)
    requires b > 0 && 0 <= x < length
    requires forall i :: 0 <= i < |r| ==> r[i].start == i * b
    requires forall i :: 0 <= i < |r| - 1 ==> r[i].end == r[i + 1].start
    requires r != [] && r[|r| - 1].end == length && |r| * b >= length
    ensures x / b < |r| && r[x / b].start <= x < r[x / b].end
  {
    var q := x / b;
    assert q * b + x % b == x;
    if |r| <= q {
      MulMono(|r|, q, b);
    }
    if q < |r| - 1 {
      assert r[q].end == r[q + 1].start == (q + 1) * b;
    }
  }

  /** No other batch holds it: batch i holds exactly the items whose quotient is i. */
  lemma BatchUnique(length: int, b: int)
    requires b > 0
    ensures var r := Batches(length, b).value;
      forall i :: 0 <= i < |r| ==>
        forall x :: r[i].start <= x < r[i].end ==> x / b == i
  {
    var r := Batches(length, b).value;
    BatchesShape(length, b);
    forall i | 0 <= i < |r|
      ensures forall x :: r[i].start <= x < r[i].end ==> x / b == i
    {
      if i < |r| - 1 {
        assert r[i].end == r[i + 1].start == (i + 1) * b;
      } else {
        MulMono(|r|, i + 1, b);
      }
      forall x | r[i].start <= x < r[i].end
        ensures x / b == i
      {
        DivUnique(x, b, i);
      }
    }
  }

  /** The slices `xs[s:e]` of a list of batches, joined in order. */
  function Joined(xs: seq<int>, bs: seq<Batch>): seq<int>
    requires forall i :: 0 <= i < |bs| ==> 0 <= bs[i].start <= bs[i].end <= |xs|
  {
    if bs == [] then [] else xs[bs[0].start..bs[0].end] + Joined(xs, bs[1..])
  }

  /** Contiguous slices from s to e join into `xs[s..e]`. */
  lemma {:induction false} JoinChain(xs: seq<int>, bs: seq<Batch>, s: int, e: int)
    requires forall i :: 0 <= i < |bs| ==> 0 <= bs[i].start <= bs[i].end <= |xs|
    requires forall i :: 0 <= i < |bs| - 1 ==> bs[i].end == bs[i + 1].start
    requires bs == [] ==> 0 <= s == e <= |xs|
    requires bs != [] ==> bs[0].start == s && bs[|bs| - 1].end == e
    ensures 0 <= s <= e <= |xs| && Joined(xs, bs) == xs[s..e]
  {
    if bs != [] {
      if |bs| == 1 {
        assert Joined(xs, bs[1..]) == [];
      } else {
        JoinChain(xs, bs[1..], bs[1].start, e);
        assert xs[s..e] == xs[s..bs[0].end] + xs[bs[0].end..e];
      }
    }
  }

  /** Every batch is a valid slice `[start:end]` of `range(length)`. */
  lemma BatchBounds(length: int, b: int)
    requires b > 0
    ensures var r := Batches(length, b).value;
      forall i :: 0 <= i < |r| ==> 0 <= r[i].start <= r[i].end <= length
  {
    var r := Batches(length, b).value;
    BatchesShape(length, b);
    BatchSizes(length, b);
    forall i | 0 <= i < |r|
      ensures 0 <= r[i].start <= r[i].end <= length
    {
      MulMono(0, i, b);
      if i < |r| - 1 {
        assert r[i].end == r[i + 1].start;
      }
    }
  }

  /**
   * Slicing a list of `length` items with every batch and joining the slices
   * gives the list back: the batches cover it once each, in order.
   */
  lemma SlicesRejoin(xs: seq<int>, b: int)
    requires b > 0
    ensures var r := Batches(|xs|, b).value;
      (forall i :: 0 <= i < |r| ==> 0 <= r[i].start <= r[i].end <= |xs|)
      && Joined(xs, r) == xs
  {
    var r := Batches(|xs|, b).value;
    BatchBounds(|xs|, b);
    BatchesShape(|xs|, b);
    JoinChain(xs, r, 0, |xs|);
    assert xs[0..|xs|] == xs;
  }

  /** The docstring's 125 rows in batches of 50: 0-50, 50-100, 100-125. */
  lemma FiftyBatches()
    ensures Batches(125, 50) == Ok([Batch(0, 50, 0), Batch(50, 100, 1), Batch(100, 125, 2)])
  {
    var r := Batches(125, 50).value;
    BatchesShape(125, 50);
    BatchCount(125, 50);
    assert |r| == 3;
    assert r[0] == Batch(0, 50, 0);
    assert r[1] == Batch(50, 100, 1);
    assert r[2] == Batch(100, 125, 2);
    assert r == [Batch(0, 50, 0), Batch(50, 100, 1), Batch(100, 125, 2)];
  }

  /** Batches of 40 over 125 items: the fourth batch holds the last five. */
  lemma FortyBatches()
    ensures Batches(125, 40) == Ok([Batch(0, 40, 0), Batch(40, 80, 1), Batch(80, 120, 2), Batch(120, 125, 3)])
  {
    var r := Batches(125, 40).value;
    BatchesShape(125, 40);
    BatchCount(125, 40);
    assert r[0].end == r[1].start && r[1].end == r[2].start && r[2].end == r[3].start;
    assert r == [Batch(0, 40, 0), Batch(40, 80, 1), Batch(80, 120, 2), Batch(120, 125, 3)];
  }

  /** Batches of 25 over 125 items: five full batches. */
  lemma TwentyFiveBatches()
    ensures Batches(125, 25) == Ok([Batch(0, 25, 0), Batch(25, 50, 1), Batch(50, 75, 2), Batch(75, 100, 3), Batch(100, 125, 4)])
  {
    var r := Batches(125, 25).value;
    BatchesShape(125, 25);
    BatchCount(125, 25);
    assert r[0].end == r[1].start && r[1].end == r[2].start && r[2].end == r[3].start && r[3].end == r[4].start;
    assert r == [Batch(0, 25, 0), Batch(25, 50, 1), Batch(50, 75, 2), Batch(75, 100, 3), Batch(100, 125, 4)];
  }

  /** A negative batch size over a non-negative length yields no batches. */
  lemma NegativeSize(length: int, b: int)
    requires b < 0 && length >= 0
    ensures Batches(length, b) == Ok([])
  {
    assert PyRange(0, length, b) == [];
  }
}
