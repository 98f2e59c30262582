/** Sorting by alignment group packs fields without waste, whichever end niches are biased to. */
module Packing {
  import opened PowersOfTwo
  import opened StableSort
  import opened Layouts
  import opened Univariant

  predicate InRange(order: seq<nat>, n: nat) {
    forall j :: 0 <= j < |order| ==> order[j] < n
  }

  // ----- the running offset, apart from the size check

  function Running(s: Struct, order: seq<nat>, k: nat): nat
    requires InRange(order, |s.fields|) && k <= |order|
  {
    if k == 0 then s.Initial().offset
    else AlignTo(Running(s, order, k - 1), s.EffectiveAlign(order[k - 1])) + s.fields[order[k - 1]].size
  }

  lemma {:induction false} RunningIsOffset(s: Struct, order: seq<nat>, bias: NicheBias, k: nat)
    requires InRange(order, |s.fields|) && k <= |order| && s.PlaceUpTo(order, bias, k).Ok?
    ensures s.PlaceUpTo(order, bias, k).value.offset == Running(s, order, k)
    ensures k > 0 ==> Running(s, order, k) < s.dl.objSizeBound
    ensures !s.kind.MaybeUnsized? ==>
              && s.PlaceUpTo(order, bias, k).value.unsizedField.None?
              && forall j :: 0 <= j < k ==> s.fields[order[j]].sized
  {
    if k > 0 {
      RunningIsOffset(s, order, bias, k - 1);
    }
  }

  /** Sized fields are placed without error as soon as the end of the last one is in bounds. */
  lemma {:induction false} PlacesInBounds(s: Struct, order: seq<nat>, bias: NicheBias, k: nat)
    requires InRange(order, |s.fields|) && k <= |order|
    requires forall j :: 0 <= j < k ==> s.fields[order[j]].sized
    requires k > 0 ==> Running(s, order, k) < s.dl.objSizeBound
    ensures s.PlaceUpTo(order, bias, k).Ok?
    ensures s.PlaceUpTo(order, bias, k).value.unsizedField.None?
  {
    if k > 0 {
      PlacesInBounds(s, order, bias, k - 1);
      RunningIsOffset(s, order, bias, k - 1);
    }
  }

  // ----- sums of field sizes

  function Sum(fields: seq<Layout>, order: seq<nat>): nat
    requires InRange(order, |fields|)
  {
    if order == [] then 0 else fields[order[0]].size + Sum(fields, order[1..])
  }

  function Total(fields: seq<Layout>, lo: nat): nat
    requires lo <= |fields|
    decreases |fields| - lo
  {
    if lo == |fields| then 0 else fields[lo].size + Total(fields, lo + 1)
  }

  lemma {:induction false} SumAppend(fields: seq<Layout>, order: seq<nat>, x: nat)
    requires InRange(order, |fields|) && x < |fields|
    ensures Sum(fields, order + [x]) == Sum(fields, order) + fields[x].size
  {
    if order != [] {
      SumAppend(fields, order[1..], x);
      assert (order + [x])[1..] == order[1..] + [x];
    }
  }

  lemma {:induction false} SumInsert(fields: seq<Layout>, x: nat, order: seq<nat>, keys: seq<Key>)
    requires |keys| == |fields| && InRange(order, |fields|) && x < |fields|
    ensures InRange(Insert(x, order, keys), |fields|)
    ensures Sum(fields, Insert(x, order, keys)) == Sum(fields, order) + fields[x].size
  {
    if order != [] && keys[order[0]].Less(keys[x]) {
      SumInsert(fields, x, order[1..], keys);
      var t := Insert(x, order[1..], keys);
      assert ([order[0]] + t)[1..] == t;
    } else {
      assert ([x] + order)[1..] == order;
    }
  }

  lemma {:induction false} SumSorted(fields: seq<Layout>, keys: seq<Key>, lo: nat)
    requires |keys| == |fields| && lo <= |fields|
    ensures InRange(SortRange(keys, lo, |fields|), |fields|)
    ensures Sum(fields, SortRange(keys, lo, |fields|)) == Total(fields, lo)
    decreases |fields| - lo
  {
    if lo < |fields| {
      SumSorted(fields, keys, lo + 1);
      SumInsert(fields, lo, SortRange(keys, lo + 1, |fields|), keys);
    }
  }

  // ----- alignment groups

  /** `g[i]` is the exponent of a power of two that the size of field `i` is a multiple of, and
      that its alignment divides. */
  ghost predicate Divisible(s: Struct, g: seq<nat>) {
    && |g| == |s.fields|
    && forall i :: 0 <= i < |g| ==> s.EffectiveAlign(i) <= g[i] && IsMultiple(s.fields[i].size, g[i])
  }

  predicate Ascending(order: seq<nat>, g: seq<nat>)
    requires InRange(order, |g|)
  {
    forall j, l :: 0 <= j < l < |order| ==> g[order[j]] <= g[order[l]]
  }

  predicate Descending(order: seq<nat>, g: seq<nat>)
    requires InRange(order, |g|)
  {
    forall j, l :: 0 <= j < l < |order| ==> g[order[l]] <= g[order[j]]
  }

  /** Largest groups first, from offset zero: there is no padding at all. */
  lemma {:induction false} DescendingPacks(s: Struct, order: seq<nat>, g: seq<nat>, k: nat)
    requires Divisible(s, g) && InRange(order, |g|) && Descending(order, g) && k <= |order|
    requires s.Initial().offset == 0
    ensures Running(s, order, k) == Sum(s.fields, order[..k])
    ensures forall j :: 0 <= j < |order| && k <= j + 1 ==> IsMultiple(Running(s, order, k), g[order[j]])
  {
    if k > 0 {
      DescendingPacks(s, order, g, k - 1);
      var i := order[k - 1];
      var before := Running(s, order, k - 1);
      MultipleWeaken(before, s.EffectiveAlign(i), g[i]);
      AlignToFixed(before, s.EffectiveAlign(i));
      assert order[..k] == order[..k - 1] + [i];
      SumAppend(s.fields, order[..k - 1], i);
      MultipleAdd(before, s.fields[i].size, g[i]);
      forall j | 0 <= j < |order| && k <= j + 1
        ensures IsMultiple(Running(s, order, k), g[order[j]])
      {
        MultipleWeaken(Running(s, order, k), g[order[j]], g[i]);
      }
    } else {
      assert order[..0] == [];
      forall j | 0 <= j < |order|
        ensures IsMultiple(0, g[order[j]])
      {
        ProductIsMultiple(0, g[order[j]]);
      }
    }
  }

  /** Placing a field whose size is a multiple of `2^a` does not change what rounding up to
      `2^a` gives. */
  lemma {:induction false} PadLater(offset: nat, align: nat, size: nat, unpadded: nat, a: nat)
    requires align <= a && IsMultiple(size, a) && AlignTo(offset, a) == AlignTo(unpadded, a)
    ensures AlignTo(AlignTo(offset, align) + size, a) == AlignTo(unpadded + size, a)
  {
    AlignToAbsorb(offset, align, a);
    AlignToShift(AlignTo(offset, align), size, a);
    AlignToShift(unpadded, size, a);
  }

  /** Smallest groups first, from any offset: padding inside never costs more than padding
      everything at the end. */
  lemma {:induction false} AscendingPacks(s: Struct, order: seq<nat>, g: seq<nat>, k: nat, a: nat)
    requires Divisible(s, g) && InRange(order, |g|) && Ascending(order, g) && k <= |order|
    requires forall j :: 0 <= j < k ==> s.EffectiveAlign(order[j]) <= a
    ensures AlignTo(Running(s, order, k), a) == AlignTo(s.Initial().offset + Sum(s.fields, order[..k]), a)
  {
    if k > 0 {
      var i := order[k - 1];
      var from := s.Initial().offset;
      var size := s.fields[i].size;
      assert order[..k] == order[..k - 1] + [i];
      SumAppend(s.fields, order[..k - 1], i);
      var b := Min(a, g[i]);
      MultipleWeaken(size, b, g[i]);
      forall j | 0 <= j < k
        ensures s.EffectiveAlign(order[j]) <= b
      {
        assert g[order[j]] <= g[i];
      }
      AscendingPacks(s, order, g, k - 1, b);
      PadLater(Running(s, order, k - 1), s.EffectiveAlign(i), size, from + Sum(s.fields, order[..k - 1]), b);
      AlignToAbsorb(Running(s, order, k), b, a);
      AlignToAbsorb(from + Sum(s.fields, order[..k]), b, a);
    } else {
      assert order[..0] == [];
    }
  }
}
