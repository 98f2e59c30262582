/** Half-open intervals as sets, for counting words and bytes. */
module Intervals {

  ghost function Span(lo: int, hi: int): (s: set<int>)
    requires lo <= hi
    ensures |s| == hi - lo
    ensures forall v :: v in s <==> lo <= v < hi
    decreases hi - lo
  {
    if lo == hi then {} else Span(lo, hi - 1) + {hi - 1}
  }

  /** The intervals `[start, start + size)` do not overlap; an empty one overlaps nothing. */
  predicate Apart(start: nat, size: nat, start': nat, size': nat) {
    size == 0 || size' == 0 || start + size <= start' || start' + size' <= start
  }

  function SumFrom(sizes: seq<nat>, k: nat): nat
    requires k <= |sizes|
    decreases |sizes| - k
  {
    if k == |sizes| then 0 else sizes[k] + SumFrom(sizes, k + 1)
  }

  ghost predicate ApartIn(starts: seq<nat>, sizes: seq<nat>, from: nat, to: nat) {
    && |starts| == |sizes| && from <= to
    && (forall i :: 0 <= i < |sizes| ==> from <= starts[i] && starts[i] + sizes[i] <= to)
    && (forall i, j :: 0 <= i < j < |sizes| ==> Apart(starts[i], sizes[i], starts[j], sizes[j]))
  }

  /** The points of the intervals from `k` on. */
  ghost function Covered(starts: seq<nat>, sizes: seq<nat>, k: nat): set<int>
    requires |starts| == |sizes| && k <= |sizes|
    decreases |sizes| - k
  {
    if k == |sizes| then {} else Span(starts[k], starts[k] + sizes[k]) + Covered(starts, sizes, k + 1)
  }

  lemma {:induction false} CoveredPoint(starts: seq<nat>, sizes: seq<nat>, k: nat, b: int) returns (j: nat)
    requires |starts| == |sizes| && k <= |sizes| && b in Covered(starts, sizes, k)
    ensures k <= j < |sizes| && starts[j] <= b < starts[j] + sizes[j]
    decreases |sizes| - k
  {
    if b in Span(starts[k], starts[k] + sizes[k]) {
      j := k;
    } else {
      j := CoveredPoint(starts, sizes, k + 1, b);
    }
  }

  lemma {:induction false} CoveredSize(starts: seq<nat>, sizes: seq<nat>, from: nat, to: nat)
    requires ApartIn(starts, sizes, from, to)
    ensures |Covered(starts, sizes, 0)| == SumFrom(sizes, 0)
  {
    var counts := seq(|sizes| + 1, k requires 0 <= k <= |sizes| => |Covered(starts, sizes, k)|);
    forall k | 0 <= k < |sizes|
      ensures counts[k] == sizes[k] + counts[k + 1]
    {
      CoveredStep(starts, sizes, from, to, k);
    }
    CoveredNone(starts, sizes);
    CountsAreSums(counts, sizes, 0);
  }

  lemma {:induction false} CountsAreSums(counts: seq<nat>, sizes: seq<nat>, k: nat)
    requires |counts| == |sizes| + 1 && counts[|sizes|] == 0 && k <= |sizes|
    requires forall i :: 0 <= i < |sizes| ==> counts[i] == sizes[i] + counts[i + 1]
    ensures counts[k] == SumFrom(sizes, k)
    decreases |sizes| - k
  {
    if k < |sizes| {
      CountsAreSums(counts, sizes, k + 1);
    }
  }

  lemma {:induction false} CoveredNone(starts: seq<nat>, sizes: seq<nat>)
    requires |starts| == |sizes|
    ensures |Covered(starts, sizes, |sizes|)| == 0
  {
  }

  lemma {:induction false} CoveredStep(starts: seq<nat>, sizes: seq<nat>, from: nat, to: nat, k: nat)
    requires ApartIn(starts, sizes, from, to) && k < |sizes|
    ensures |Covered(starts, sizes, k)| == sizes[k] + |Covered(starts, sizes, k + 1)|
  {
    FirstApart(starts, sizes, from, to, k);
    DisjointUnionSize(Span(starts[k], starts[k] + sizes[k]), Covered(starts, sizes, k + 1));
  }

  lemma {:induction false} FirstApart(starts: seq<nat>, sizes: seq<nat>, from: nat, to: nat, k: nat)
    requires ApartIn(starts, sizes, from, to) && k < |sizes|
    ensures Span(starts[k], starts[k] + sizes[k]) !! Covered(starts, sizes, k + 1)
  {
    var both := Span(starts[k], starts[k] + sizes[k]) * Covered(starts, sizes, k + 1);
    if both != {} {
      var b: int :| b in both;
      var j := CoveredPoint(starts, sizes, k + 1, b);
      assert false;
    }
  }

  lemma {:induction false} DisjointUnionSize(a: set<int>, b: set<int>)
    requires a !! b
    ensures |a + b| == |a| + |b|
  {
  }

  lemma {:induction false} SubsetSize(a: set<int>, b: set<int>)
    requires a <= b
    ensures |a| <= |b|
  {
    assert b == a + (b - a);
  }

  /** Intervals that do not overlap need at least the sum of their sizes. */
  lemma {:induction false} ApartNeedsSum(starts: seq<nat>, sizes: seq<nat>, from: nat, to: nat)
    requires ApartIn(starts, sizes, from, to)
    ensures from + SumFrom(sizes, 0) <= to
  {
    CoveredSize(starts, sizes, from, to);
    var points := Covered(starts, sizes, 0);
    forall b: int | b in points
      ensures b in Span(from, to)
    {
      var j := CoveredPoint(starts, sizes, 0, b);
    }
    SubsetSize(points, Span(from, to));
  }
}
