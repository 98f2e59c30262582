/** What the placement loop guarantees: fields aligned, in bounds, in order and disjoint;
    alignment and niche independent of the order.
 */
module Placement {
  import opened PowersOfTwo
  import opened Niches
  import opened StableSort
  import opened Layouts
  import opened Univariant

  ghost predicate IsPermutation(order: seq<nat>, n: nat) {
    && |order| == n
    && (forall j :: 0 <= j < n ==> order[j] < n)
    && (forall j, k :: 0 <= j < k < n ==> order[j] != order[k])
    && (forall i :: 0 <= i < n ==> i in order)
  }

  lemma {:induction false} OrderIsPermutation(s: Struct, bias: NicheBias)
    requires s.Accepted()
    ensures IsPermutation(s.Order(bias), |s.fields|)
  {
    var order, n := s.Order(bias), |s.fields|;
    if s.Reorders() {
      var m := s.SizedCount();
      var keys := s.SortKeys(bias);
      var sorted := SortRange(keys, 0, m);
      assert order[..m] == sorted;
      forall j, k | 0 <= j < k < n
        ensures order[j] != order[k]
      {
        if k < m {
          assert Before(keys, sorted[j], sorted[k]);
        }
      }
      forall i | 0 <= i < n
        ensures i in order
      {
        if i < m {
          assert i in sorted;
        } else {
          assert order[m] == i;
        }
      }
    } else {
      forall i | 0 <= i < n
        ensures i in order
      {
        assert order[i] == i;
      }
    }
  }

  /** Each field is aligned and lies in `[from, to)`, after all fields before it in `order`. */
  ghost predicate PlacedInOrder(s: Struct, offsets: seq<nat>, order: seq<nat>, k: nat, from: nat, to: nat) {
    && |offsets| == |s.fields| && k <= |order|
    && (forall j :: 0 <= j < |order| ==> order[j] < |s.fields|)
    && (forall j :: 0 <= j < k ==>
          && IsMultiple(offsets[order[j]], s.EffectiveAlign(order[j]))
          && from <= offsets[order[j]]
          && offsets[order[j]] + s.fields[order[j]].size <= to)
    && (forall j, l :: 0 <= j < l < k ==>
          offsets[order[j]] + s.fields[order[j]].size <= offsets[order[l]])
  }

  lemma {:induction false} PlacedUpTo(s: Struct, order: seq<nat>, bias: NicheBias, k: nat)
    requires IsPermutation(order, |s.fields|) && k <= |order|
    requires s.PlaceUpTo(order, bias, k).Ok?
    ensures var st, from := s.PlaceUpTo(order, bias, k).value, s.Initial().offset;
            from <= st.offset && PlacedInOrder(s, st.offsets, order, k, from, st.offset)
  {
    if k > 0 {
      PlacedUpTo(s, order, bias, k - 1);
      PlacedRound(s, order, bias, k, s.PlaceUpTo(order, bias, k - 1).value, s.Initial().offset);
    }
  }

  lemma {:induction false} PlacedRound(s: Struct, order: seq<nat>, bias: NicheBias, k: nat, before: Placed, from: nat)
    requires IsPermutation(order, |s.fields|) && 0 < k <= |order| && |before.offsets| == |s.fields|
    requires from <= before.offset && PlacedInOrder(s, before.offsets, order, k - 1, from, before.offset)
    requires s.Place(before, order[k - 1], bias).Ok?
    ensures var st := s.Place(before, order[k - 1], bias).value;
            from <= st.offset && PlacedInOrder(s, st.offsets, order, k, from, st.offset)
  {
    var st := s.Place(before, order[k - 1], bias).value;
    assert forall j :: 0 <= j < k - 1 ==> st.offsets[order[j]] == before.offsets[order[j]];
    assert st.offsets[order[k - 1]] == AlignTo(before.offset, s.EffectiveAlign(order[k - 1]));
  }

  // ----- the alignment

  lemma {:induction false} AlignUpTo(s: Struct, order: seq<nat>, bias: NicheBias, k: nat, bound: nat)
    requires k <= |order| && forall j :: 0 <= j < |order| ==> order[j] < |s.fields|
    requires s.PlaceUpTo(order, bias, k).Ok?
    ensures var align := s.PlaceUpTo(order, bias, k).value.align;
            && s.Initial().align <= align
            && (forall j :: 0 <= j < k ==> s.EffectiveAlign(order[j]) <= align)
            && ((s.Initial().align <= bound && forall j :: 0 <= j < k ==> s.EffectiveAlign(order[j]) <= bound)
                ==> align <= bound)
  {
    if k > 0 {
      AlignUpTo(s, order, bias, k - 1, bound);
    }
  }

  // ----- the niche

  /** `niche` is the niche of field `i`, moved to where the field is placed. */
  ghost predicate NicheOfField(s: Struct, offsets: seq<nat>, niche: Niche, i: nat) {
    && i < |s.fields| == |offsets|
    && s.fields[i].largestNiche.Some?
    && niche == s.fields[i].largestNiche.value.(offset := s.fields[i].largestNiche.value.offset + offsets[i])
  }

  /** The niche of the loop is the first `k` fields' largest one. */
  ghost predicate NicheOfFirst(s: Struct, order: seq<nat>, bias: NicheBias, k: nat, st: Placed)
    requires k <= |order| && forall j :: 0 <= j < |order| ==> order[j] < |s.fields|
  {
    && (st.largestNiche.None? ==> st.largestNicheAvailable == 0)
    && (st.largestNiche.Some? ==>
          exists j :: 0 <= j < k && NicheOfField(s, st.offsets, st.largestNiche.value, order[j])
                      && s.fields[order[j]].NicheSize() == st.largestNicheAvailable)
    && (forall j :: 0 <= j < k ==> s.fields[order[j]].NicheSize() <= st.largestNicheAvailable)
    && (bias.End? && st.largestNiche.None? ==>
          forall j :: 0 <= j < k ==> s.fields[order[j]].largestNiche.None?)
  }

  lemma {:induction false} NicheUpTo(s: Struct, order: seq<nat>, bias: NicheBias, k: nat)
    requires IsPermutation(order, |s.fields|) && k <= |order|
    requires s.PlaceUpTo(order, bias, k).Ok?
    ensures NicheOfFirst(s, order, bias, k, s.PlaceUpTo(order, bias, k).value)
  {
    if k > 0 {
      NicheUpTo(s, order, bias, k - 1);
      NicheRound(s, order, bias, k, s.PlaceUpTo(order, bias, k - 1).value);
    }
  }

  lemma {:induction false} NicheRound(s: Struct, order: seq<nat>, bias: NicheBias, k: nat, before: Placed)
    requires IsPermutation(order, |s.fields|) && 0 < k <= |order| && |before.offsets| == |s.fields|
    requires NicheOfFirst(s, order, bias, k - 1, before) && s.Place(before, order[k - 1], bias).Ok?
    ensures NicheOfFirst(s, order, bias, k, s.Place(before, order[k - 1], bias).value)
  {
    var st := s.Place(before, order[k - 1], bias).value;
    if st.largestNiche.Some? {
      if st.largestNiche == before.largestNiche && st.largestNicheAvailable == before.largestNicheAvailable {
        var j :| 0 <= j < k - 1 && NicheOfField(s, before.offsets, before.largestNiche.value, order[j])
                 && s.fields[order[j]].NicheSize() == before.largestNicheAvailable;
        assert NicheOfField(s, st.offsets, st.largestNiche.value, order[j]);
      } else {
        assert NicheOfField(s, st.offsets, st.largestNiche.value, order[k - 1]);
      }
    }
  }
}
