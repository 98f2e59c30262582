/** Sorting of field indices by a key, as the stable `slice::sort_by_key` promises it. */
module StableSort {

  /** A sort key: a triple compared lexicographically. */
  datatype Key = Key(first: int, second: int, third: int) {

    predicate Less(other: Key) {
      || first < other.first
      || (first == other.first && second < other.second)
      || (first == other.first && second == other.second && third < other.third)
    }
  }

  /** Index `x` comes before index `y`: by key, and among equal keys by position. */
  predicate Before(keys: seq<Key>, x: nat, y: nat) {
    && x < |keys| && y < |keys|
    && (keys[x].Less(keys[y]) || (keys[x] == keys[y] && x < y))
  }

  /** `s` lists exactly the indices `lo..hi`, in sorted order and stably. */
  ghost predicate SortedRange(s: seq<nat>, keys: seq<Key>, lo: nat, hi: nat) {
    && lo <= hi <= |keys| && |s| == hi - lo
    && (forall i :: 0 <= i < |s| ==> lo <= s[i] < hi)
    && (forall x :: lo <= x < hi ==> x in s)
    && Ordered(s, keys)
  }

  /** Places `x` before the first index whose key is not smaller. */
  function Insert(x: nat, s: seq<nat>, keys: seq<Key>): seq<nat>
    requires x < |keys| && forall i :: 0 <= i < |s| ==> s[i] < |keys|
  {
    if s == [] then [x]
    else if keys[s[0]].Less(keys[x]) then [s[0]] + Insert(x, s[1..], keys)
    else [x] + s
  }

  /** The indices `lo..hi` in stable key order. */
  function SortRange(keys: seq<Key>, lo: nat, hi: nat): (s: seq<nat>)
    requires lo <= hi <= |keys|
    ensures SortedRange(s, keys, lo, hi)
    decreases hi - lo
  {
    if lo == hi then []
    else
      var rest := SortRange(keys, lo + 1, hi);
      InsertElements(lo, rest, keys);
      InsertSorts(lo, rest, keys);
      var s := Insert(lo, rest, keys);
      assert forall i :: 0 <= i < |s| ==> s[i] in s;
      s
  }

  lemma {:induction false} BeforeTransitive(keys: seq<Key>, x: nat, y: nat, z: nat)
    requires Before(keys, x, y) && Before(keys, y, z)
    ensures Before(keys, x, z)
  {
  }

  ghost predicate Ordered(s: seq<nat>, keys: seq<Key>) {
    forall i, j :: 0 <= i < j < |s| ==> Before(keys, s[i], s[j])
  }

  /** An index that comes before the head of an ordered list comes before all of it. */
  lemma {:induction false} ConsOrdered(x: nat, s: seq<nat>, keys: seq<Key>)
    requires Ordered(s, keys) && (s != [] ==> Before(keys, x, s[0]))
    ensures Ordered([x] + s, keys)
  {
    forall i | 0 <= i < |s|
      ensures Before(keys, x, s[i])
    {
      if i > 0 {
        BeforeTransitive(keys, x, s[0], s[i]);
      }
    }
  }

  lemma {:induction false} InsertElements(x: nat, s: seq<nat>, keys: seq<Key>)
    requires x < |keys| && forall i :: 0 <= i < |s| ==> s[i] < |keys|
    ensures |Insert(x, s, keys)| == |s| + 1
    ensures forall y :: y in Insert(x, s, keys) <==> y == x || y in s
  {
    if s != [] && keys[s[0]].Less(keys[x]) {
      InsertElements(x, s[1..], keys);
      assert s == [s[0]] + s[1..];
    }
  }

  /** Inserting an index smaller than all listed ones keeps the order sorted and stable. */
  lemma {:induction false} InsertSorts(x: nat, s: seq<nat>, keys: seq<Key>)
    requires x < |keys| && forall i :: 0 <= i < |s| ==> x < s[i] < |keys|
    requires Ordered(s, keys)
    ensures Ordered(Insert(x, s, keys), keys)
  {
    if s == [] {
    } else if keys[s[0]].Less(keys[x]) {
      var t := Insert(x, s[1..], keys);
      InsertElements(x, s[1..], keys);
      InsertSorts(x, s[1..], keys);
      assert t[0] in t;
      ConsOrdered(s[0], t, keys);
    } else {
      ConsOrdered(x, s, keys);
    }
  }

  /** There is only one way to list a range in stable key order. */
  lemma {:induction false} SortedRangeIsUnique(s: seq<nat>, t: seq<nat>, keys: seq<Key>, lo: nat, hi: nat)
    requires SortedRange(s, keys, lo, hi) && SortedRange(t, keys, lo, hi)
    ensures s == t
  {
    SameOrder(s, t, keys);
  }

  lemma {:induction false} SameOrder(s: seq<nat>, t: seq<nat>, keys: seq<Key>)
    requires Ordered(s, keys) && Ordered(t, keys) && |s| == |t| && forall x :: x in s <==> x in t
    ensures s == t
  {
    if s != [] {
      assert s[0] in s && t[0] in t;
      FirstIsLeast(s, t[0], keys);
      FirstIsLeast(t, s[0], keys);
      TailsAlike(s, t, keys);
      SameOrder(s[1..], t[1..], keys);
    }
  }

  lemma {:induction false} FirstIsLeast(s: seq<nat>, x: nat, keys: seq<Key>)
    requires Ordered(s, keys) && x in s
    ensures x == s[0] || Before(keys, s[0], x)
  {
    var i :| 0 <= i < |s| && s[i] == x;
    assert i > 0 ==> Before(keys, s[0], s[i]);
  }

  lemma {:induction false} TailsAlike(s: seq<nat>, t: seq<nat>, keys: seq<Key>)
    requires Ordered(s, keys) && Ordered(t, keys) && s != [] && t != [] && s[0] == t[0]
    requires forall x :: x in s <==> x in t
    ensures forall x :: x in s[1..] <==> x in t[1..]
  {
    InTail(s, keys);
    InTail(t, keys);
  }

  lemma {:induction false} InTail(s: seq<nat>, keys: seq<Key>)
    requires Ordered(s, keys) && s != []
    ensures forall x :: x in s[1..] <==> x in s && x != s[0]
  {
    assert s == [s[0]] + s[1..];
    forall i | 0 <= i < |s[1..]|
      ensures s[1..][i] != s[0]
    {
      assert Before(keys, s[0], s[i + 1]);
    }
  }

  // ----- in place

  /** Moves `a[i]` up to where it belongs in the sorted elements behind it. */
  method InsertInPlace(a: array<nat>, i: nat, end: nat, keys: seq<Key>)
    requires i < end <= a.Length && forall j :: i <= j < end ==> a[j] < |keys|
    modifies a
    ensures a[i..end] == Insert(old(a[i]), old(a[i + 1..end]), keys)
    ensures forall j :: 0 <= j < i || end <= j < a.Length ==> a[j] == old(a[j])
  {
    var x, j := a[i], i;
    ghost var before := a[..];
    while j + 1 < end && keys[a[j + 1]].Less(keys[x])
      invariant i <= j < end
      invariant a[..] == Shifted(before, i, j)
      invariant forall k :: i < k <= j ==> keys[before[k]].Less(keys[x])
    {
      ShiftOne(before, i, j);
      assert a[j + 1] == a[..][j + 1];
      a[j] := a[j + 1];
      j := j + 1;
    }
    assert j + 1 < end ==> a[j + 1] == a[..][j + 1] == before[j + 1];
    FillInserts(before, i, j, end, x, keys);
    a[j] := x;
    assert a[..] == Shifted(before, i, j)[j := x];
  }

  /** The elements behind `i` up to `j`, each moved down by one place. */
  function Shifted(a: seq<nat>, i: nat, j: nat): (r: seq<nat>)
    requires i <= j < |a|
    ensures |r| == |a|
  {
    a[..i] + a[i + 1..j + 1] + a[j..]
  }

  lemma {:induction false} ShiftOne(a: seq<nat>, i: nat, j: nat)
    requires i <= j && j + 1 < |a|
    ensures Shifted(a, i, j)[j + 1] == a[j + 1]
    ensures Shifted(a, i, j)[j := a[j + 1]] == Shifted(a, i, j + 1)
  {
  }

  lemma {:induction false} Fill(a: seq<nat>, i: nat, j: nat, end: nat, x: nat)
    requires i <= j < end <= |a|
    ensures var r, s := Shifted(a, i, j)[j := x], a[i + 1..end];
            && r[i..end] == s[..j - i] + ([x] + s[j - i..])
            && (forall k :: 0 <= k < i || end <= k < |a| ==> r[k] == a[k])
  {
    var r, s := Shifted(a, i, j)[j := x], a[i + 1..end];
    assert s[..j - i] == a[i + 1..j + 1] && s[j - i..] == a[j + 1..end];
    assert r[i..j] == a[i + 1..j + 1] && r[j + 1..end] == a[j + 1..end];
    assert r[i..end] == r[i..j] + ([r[j]] + r[j + 1..end]);
  }

  lemma {:induction false} FillInserts(a: seq<nat>, i: nat, j: nat, end: nat, x: nat, keys: seq<Key>)
    requires i <= j < end <= |a| && x < |keys| && forall k :: i < k < end ==> a[k] < |keys|
    requires forall k :: i < k <= j ==> keys[a[k]].Less(keys[x])
    requires j + 1 < end ==> !keys[a[j + 1]].Less(keys[x])
    ensures Shifted(a, i, j)[j := x][i..end] == Insert(x, a[i + 1..end], keys)
    ensures forall k :: 0 <= k < i || end <= k < |a| ==> Shifted(a, i, j)[j := x][k] == a[k]
  {
    Fill(a, i, j, end, x);
    InsertAt(x, a[i + 1..end], keys, j - i);
  }

  /** The insertion stops at the first index whose key is not smaller. */
  lemma {:induction false} InsertAt(x: nat, s: seq<nat>, keys: seq<Key>, p: nat)
    requires x < |keys| && p <= |s| && forall i :: 0 <= i < |s| ==> s[i] < |keys|
    requires forall i :: 0 <= i < p ==> keys[s[i]].Less(keys[x])
    requires p < |s| ==> !keys[s[p]].Less(keys[x])
    ensures Insert(x, s, keys) == s[..p] + ([x] + s[p..])
  {
    if p > 0 {
      InsertAt(x, s[1..], keys, p - 1);
      assert s[..p] == [s[0]] + s[1..][..p - 1] && s[p..] == s[1..][p - 1..];
    }
  }

  /** `slice::sort_by_key` on the first `end` elements of an index vector. */
  method SortByKey(a: array<nat>, end: nat, keys: seq<Key>)
    requires end <= a.Length && end <= |keys| && forall j :: 0 <= j < end ==> a[j] == j
    modifies a
    ensures a[..end] == SortRange(keys, 0, end) && a[end..] == old(a[end..])
  {
    var i: nat := end;
    while i > 0
      invariant i <= end && forall j :: 0 <= j < i ==> a[j] == j
      invariant a[i..end] == SortRange(keys, i, end)
      invariant forall j :: end <= j < a.Length ==> a[j] == old(a[j])
    {
      i := i - 1;
      ghost var rest := a[i + 1..end];
      assert forall j :: i < j < end ==> a[j] == rest[j - i - 1];
      InsertInPlace(a, i, end, keys);
    }
  }
}
