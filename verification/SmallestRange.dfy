/** The narrowest wrap-around range that holds a list of words
    (`WrappingRange::smallest_range_containing`).
 */
module SmallestRange {
  import opened PowersOfTwo
  import opened Wrappers
  import opened WrappingRanges

  // ----- what the search promises

  ghost predicate ContainsAll(r: WrappingRange, values: seq<nat>) {
    forall i :: 0 <= i < |values| ==> r.Contains(values[i])
  }

  ghost predicate AllInWidth(values: seq<nat>, n: nat) {
    forall i :: 0 <= i < |values| ==> values[i] < Pow2(n)
  }

  /** `r` holds every value, no range that does is narrower, and `r` wraps only when every
      range that does not wrap is strictly wider. */
  ghost predicate IsNarrowest(r: WrappingRange, values: seq<nat>, n: nat) {
    && r.InWidth(n)
    && ContainsAll(r, values)
    && (forall w: WrappingRange :: w.InWidth(n) && ContainsAll(w, values) ==> r.Width(n) <= w.Width(n))
    && (r.start > r.end ==>
          forall w: WrappingRange :: w.InWidth(n) && ContainsAll(w, values) && w.start <= w.end
                                     ==> r.Width(n) < w.Width(n))
  }

  // ----- sorting, as `sort_unstable` promises it

  ghost predicate Sorted(s: seq<nat>) {
    forall i, j :: 0 <= i < j < |s| ==> s[i] <= s[j]
  }

  function Insert(x: nat, s: seq<nat>): (r: seq<nat>)
    ensures multiset(r) == multiset(s) + multiset{x}
  {
    if s == [] then [x]
    else if x <= s[0] then [x] + s
    else
      assert s == [s[0]] + s[1..];
      [s[0]] + Insert(x, s[1..])
  }

  lemma {:induction false} InsertMembers(x: nat, s: seq<nat>)
    ensures forall y :: y in Insert(x, s) ==> y == x || y in s
  {
    forall y | y in Insert(x, s)
      ensures y == x || y in s
    {
      assert y in multiset(Insert(x, s));
    }
  }

  lemma {:induction false} InsertSorted(x: nat, s: seq<nat>)
    requires Sorted(s)
    ensures Sorted(Insert(x, s))
  {
    if s != [] && s[0] < x {
      var t := Insert(x, s[1..]);
      InsertSorted(x, s[1..]);
      InsertMembers(x, s[1..]);
      forall i | 0 <= i < |t|
        ensures s[0] <= t[i]
      {
        assert t[i] in t;
      }
    }
  }

  function Sort(s: seq<nat>): (r: seq<nat>)
    ensures Sorted(r) && multiset(r) == multiset(s)
  {
    if s == [] then []
    else
      assert s == [s[0]] + s[1..];
      InsertSorted(s[0], Sort(s[1..]));
      Insert(s[0], Sort(s[1..]))
  }

  // ----- the exhaustive search over a sorted list

  /** The first narrowest range among the non-wrapping one and the wrap-around ranges of the
      first `k` windows. */
  function BestOfWindows(s: seq<nat>, n: nat, k: nat): WrappingRange
    requires 0 <= k < |s|
  {
    if k == 0 then WrappingRange(s[0], s[|s| - 1])
    else
      var best := BestOfWindows(s, n, k - 1);
      var candidate := WrappingRange(s[k], s[k - 1]);
      if s[k] != s[k - 1] && candidate.Width(n) < best.Width(n) then candidate else best
  }

  /** The search without the half-range shortcut. */
  function SearchAll(values: seq<nat>, n: nat): WrappingRange
    requires values != []
  {
    var s := Sort(values);
    assert |multiset(s)| == |multiset(values)|;
    BestOfWindows(s, n, |s| - 1)
  }

  lemma {:induction false} SameElements(values: seq<nat>, s: seq<nat>)
    requires multiset(s) == multiset(values)
    ensures |s| == |values|
    ensures forall r: WrappingRange :: ContainsAll(r, values) <==> ContainsAll(r, s)
    ensures forall n: nat :: AllInWidth(values, n) <==> AllInWidth(s, n)
  {
    assert |s| == |multiset(s)| == |multiset(values)| == |values|;
    assert forall i :: 0 <= i < |s| ==> s[i] in multiset(values);
    assert forall i :: 0 <= i < |values| ==> values[i] in multiset(s);
  }

  /** Every candidate holds the whole list, and the chosen one is the narrowest of them. */
  lemma {:induction false} BestOfWindowsIsCandidate(s: seq<nat>, n: nat, k: nat)
    requires 0 <= k < |s| && Sorted(s) && AllInWidth(s, n) && n <= 128
    ensures var best := BestOfWindows(s, n, k);
            && best.InWidth(n) && ContainsAll(best, s)
            && best.Width(n) <= s[|s| - 1] - s[0]
            && (best.start > best.end ==> best.Width(n) < s[|s| - 1] - s[0])
            && (forall j :: 1 <= j <= k && s[j - 1] != s[j] ==>
                  best.Width(n) <= Pow2(n) - (s[j] - s[j - 1]))
  {
    WidthValue(WrappingRange(s[0], s[|s| - 1]), n);
    if k > 0 {
      BestOfWindowsIsCandidate(s, n, k - 1);
      WidthValue(WrappingRange(s[k], s[k - 1]), n);
    }
  }

  /** A sorted list with an element up to `cut` and one beyond it crosses `cut` in one window. */
  lemma {:induction false} CrossingWindow(s: seq<nat>, cut: nat, hi: nat) returns (j: nat)
    requires 0 < hi < |s| && s[0] <= cut < s[hi]
    ensures 1 <= j < |s| && s[j - 1] <= cut < s[j]
  {
    if s[hi - 1] <= cut {
      j := hi;
    } else {
      j := CrossingWindow(s, cut, hi - 1);
    }
  }

  lemma {:induction false} WiderThanBest(s: seq<nat>, n: nat, w: WrappingRange)
    requires s != [] && Sorted(s) && AllInWidth(s, n) && n <= 128
    requires w.InWidth(n) && ContainsAll(w, s)
    ensures BestOfWindows(s, n, |s| - 1).Width(n) <= w.Width(n)
    ensures w.start <= w.end ==> s[|s| - 1] - s[0] <= w.Width(n)
  {
    var last := |s| - 1;
    BestOfWindowsIsCandidate(s, n, last);
    WidthValue(w, n);
    assert w.Contains(s[0]) && w.Contains(s[last]);
    if w.start > w.end && s[0] <= w.end < s[last] {
      var j := CrossingWindow(s, w.end, last);
      assert w.Contains(s[j]) && w.Contains(s[j - 1]);
    }
  }

  lemma {:induction false} BestIsNarrowest(s: seq<nat>, n: nat)
    requires s != [] && Sorted(s) && AllInWidth(s, n) && n <= 128
    ensures IsNarrowest(BestOfWindows(s, n, |s| - 1), s, n)
  {
    BestOfWindowsIsCandidate(s, n, |s| - 1);
    forall w: WrappingRange | w.InWidth(n) && ContainsAll(w, s)
      ensures BestOfWindows(s, n, |s| - 1).Width(n) <= w.Width(n)
      ensures w.start <= w.end ==> s[|s| - 1] - s[0] <= w.Width(n)
    {
      WiderThanBest(s, n, w);
    }
  }

  /** The exhaustive search finds a narrowest range, preferring one that does not wrap. */
  lemma {:induction false} SearchAllIsNarrowest(values: seq<nat>, n: nat)
    requires values != [] && AllInWidth(values, n) && n <= 128
    ensures IsNarrowest(SearchAll(values, n), values, n)
  {
    SameElements(values, Sort(values));
    BestIsNarrowest(Sort(values), n);
  }

  /** The shortcut is sound: when the values span at most half the words, no window beats the
      non-wrapping range. */
  lemma {:induction false} ShortcutAgrees(s: seq<nat>, n: nat, k: nat)
    requires 0 <= k < |s| && Sorted(s) && AllInWidth(s, n) && ValidWidth(n)
    requires s[|s| - 1] - s[0] <= Pow2(n - 1)
    ensures BestOfWindows(s, n, k) == WrappingRange(s[0], s[|s| - 1])
  {
    if k > 0 {
      ShortcutAgrees(s, n, k - 1);
      WidthValue(WrappingRange(s[0], s[|s| - 1]), n);
      WidthValue(WrappingRange(s[k], s[k - 1]), n);
    }
  }

  // ----- the method of the source

  method MinMax(values: seq<nat>) returns (min: nat, max: nat)
    requires values != []
    ensures min in values && max in values
    ensures forall j :: 0 <= j < |values| ==> min <= values[j] <= max
  {
    min, max := values[0], values[0];
    for i := 1 to |values|
      invariant forall j :: 0 <= j < i ==> min <= values[j] <= max
      invariant min in values && max in values
    {
      if values[i] < min {
        min := values[i];
      }
      if max < values[i] {
        max := values[i];
      }
    }
  }

  lemma {:induction false} SortedEnds(values: seq<nat>, s: seq<nat>, min: nat, max: nat)
    requires values != [] && Sorted(s) && multiset(s) == multiset(values)
    requires min in values && max in values
    requires forall j :: 0 <= j < |values| ==> min <= values[j] <= max
    ensures |s| == |values| && s[0] == min && s[|s| - 1] == max
  {
    SameElements(values, s);
    assert min in multiset(s) && max in multiset(s);
    assert s[0] in multiset(values) && s[|s| - 1] in multiset(values);
  }

  method SmallestRangeContaining(values: seq<nat>, n: nat) returns (r: Option<WrappingRange>)
    requires ValidWidth(n) && AllInWidth(values, n)
    ensures r.None? <==> values == []
    ensures r.Some? ==> r.value == SearchAll(values, n)
    ensures r.Some? ==> IsNarrowest(r.value, values, n)
  {
    if values == [] {
      return None;
    }
    SearchAllIsNarrowest(values, n);
    SameElements(values, Sort(values));
    var min, max := MinMax(values);
    SortedEnds(values, Sort(values), min, max);
    var best := WrappingRange(min, max);
    if max - min <= Pow2(n - 1) {
      ShortcutAgrees(Sort(values), n, |values| - 1);
      return Some(best);
    }
    var sorted := Sort(values);
    for k := 1 to |sorted|
      invariant best == BestOfWindows(sorted, n, k - 1)
    {
      var candidate := WrappingRange(sorted[k], sorted[k - 1]);
      if sorted[k] != sorted[k - 1] && candidate.Width(n) < best.Width(n) {
        best := candidate;
      }
    }
    return Some(best);
  }
}
