/** What `univariant_biased` returns and when it succeeds, said of the fields alone
    (compiler/rustc_abi/src/layout.rs).
 */
module StructLayouts {
  import opened PowersOfTwo
  import opened Wrappers
  import opened Niches
  import opened Layouts
  import opened Univariant
  import opened Placement
  import opened Packing
  import opened UnivariantTheorems

  // ----- offsets

  /** `y` is the least multiple of `2^k` that is not below `x`. */
  predicate IsRoundedUp(x: int, k: nat, y: int) {
    IsMultiple(y, k) && x <= y < x + Pow2(k)
  }

  /** Where the first field may start: at zero, or behind the prefix. */
  predicate IsStart(s: Struct, start: nat) {
    match s.kind
    case Prefixed(size, align) => IsRoundedUp(size, Packed(align, s.repr), start)
    case _ => start == 0
  }

  /** Where the field at position `p` of the memory order may start. */
  function EndBefore(s: Struct, offsets: seq<nat>, order: seq<nat>, start: nat, p: nat): nat
    requires p <= |order| && InRange(order, |s.fields|) && |offsets| == |s.fields|
  {
    if p == 0 then start else offsets[order[p - 1]] + s.fields[order[p - 1]].size
  }

  /** Each of the first `k` fields is at the first place behind the one before that suits it. */
  ghost predicate IsTight(s: Struct, offsets: seq<nat>, order: seq<nat>, start: nat, k: nat)
    requires k <= |order| && InRange(order, |s.fields|) && |offsets| == |s.fields|
  {
    forall p :: 0 <= p < k ==>
      IsRoundedUp(EndBefore(s, offsets, order, start, p), Packed(s.fields[order[p]].align, s.repr), offsets[order[p]])
  }

  lemma {:induction false} RoundsUp(x: nat, k: nat)
    ensures IsRoundedUp(x, k, AlignTo(x, k))
  {
  }

  lemma {:induction false} TightUpTo(s: Struct, order: seq<nat>, bias: NicheBias, k: nat)
    requires IsPermutation(order, |s.fields|) && k <= |order| && s.PlaceUpTo(order, bias, k).Ok?
    ensures var st, start := s.PlaceUpTo(order, bias, k).value, s.Initial().offset;
            IsTight(s, st.offsets, order, start, k) && st.offset == EndBefore(s, st.offsets, order, start, k)
  {
    if k > 0 {
      TightUpTo(s, order, bias, k - 1);
      OneRound(s, order, bias, k - 1);
      TightRound(s, order, bias, k, s.PlaceUpTo(order, bias, k - 1).value, s.Initial().offset);
    }
  }

  lemma {:induction false} TightRound(s: Struct, order: seq<nat>, bias: NicheBias, k: nat, before: Placed, start: nat)
    requires IsPermutation(order, |s.fields|) && 0 < k <= |order| && |before.offsets| == |s.fields|
    requires IsTight(s, before.offsets, order, start, k - 1)
    requires before.offset == EndBefore(s, before.offsets, order, start, k - 1)
    requires s.Place(before, order[k - 1], bias).Ok?
    ensures var st := s.Place(before, order[k - 1], bias).value;
            IsTight(s, st.offsets, order, start, k) && st.offset == EndBefore(s, st.offsets, order, start, k)
  {
    var st, last := s.Place(before, order[k - 1], bias).value, order[k - 1];
    var at := AlignTo(before.offset, s.EffectiveAlign(last));
    RoundsUp(before.offset, s.EffectiveAlign(last));
    TightWithNext(s, before.offsets, order, start, k, at);
    assert st.offsets == before.offsets[last := at];
  }

  lemma {:induction false} TightWithNext(
    s: Struct, offsets: seq<nat>, order: seq<nat>, start: nat, k: nat, at: nat)
    requires InRange(order, |s.fields|) && 0 < k <= |order| && |offsets| == |s.fields|
    requires (forall j :: 0 <= j < k - 1 ==> order[j] != order[k - 1]) && IsTight(s, offsets, order, start, k - 1)
    requires IsRoundedUp(EndBefore(s, offsets, order, start, k - 1), Packed(s.fields[order[k - 1]].align, s.repr), at)
    ensures IsTight(s, offsets[order[k - 1] := at], order, start, k)
  {
    var more := offsets[order[k - 1] := at];
    forall p | 0 <= p < k
      ensures EndBefore(s, more, order, start, p) == EndBefore(s, offsets, order, start, p)
      ensures p < k - 1 ==> more[order[p]] == offsets[order[p]]
    {
    }
  }

  // ----- alignment

  /** Something asks for alignment `a`: the target of all aggregates, the prefix, a field, or a
      representation hint. */
  predicate AsksForAlign(s: Struct, a: nat) {
    || a == (if s.repr.pack.Some? then s.dl.i8Align else s.dl.aggregateAlign)
    || (s.kind.Prefixed? && a == Packed(s.kind.prefixAlign, s.repr))
    || (exists i :: 0 <= i < |s.fields| && a == Packed(s.fields[i].align, s.repr))
    || s.repr.align == Some(a)
  }

  /** The largest alignment that is asked for. */
  ghost predicate IsStructAlign(s: Struct, align: nat) {
    AsksForAlign(s, align) && forall a: nat :: AsksForAlign(s, a) ==> a <= align
  }

  lemma {:induction false} AlignIsAskedFor(s: Struct, order: seq<nat>, bias: NicheBias, k: nat)
    requires k <= |order| && InRange(order, |s.fields|) && s.PlaceUpTo(order, bias, k).Ok?
    ensures AsksForAlign(s, s.PlaceUpTo(order, bias, k).value.align)
  {
    if k > 0 {
      AlignIsAskedFor(s, order, bias, k - 1);
    }
  }

  lemma {:induction false} InitialAlignIs(s: Struct)
    ensures (if s.repr.pack.Some? then s.dl.i8Align else s.dl.aggregateAlign) <= s.Initial().align
    ensures s.kind.Prefixed? ==> Packed(s.kind.prefixAlign, s.repr) <= s.Initial().align
    ensures IsStart(s, s.Initial().offset)
  {
  }

  lemma {:induction false} FinalAlignIs(s: Struct, bias: NicheBias)
    requires s.Accepted() && s.PlaceUpTo(s.Order(bias), bias, |s.fields|).Ok?
    ensures IsStructAlign(s, s.FinalAlign(s.PlaceUpTo(s.Order(bias), bias, |s.fields|).value))
  {
    var st := s.PlaceUpTo(s.Order(bias), bias, |s.fields|).value;
    AlignAtLeast(s, bias);
    AlignIsAskedFor(s, s.Order(bias), bias, |s.fields|);
    AsksAreMet(s, st);
  }

  lemma {:induction false} AsksAreMet(s: Struct, st: Placed)
    requires AsksForAlign(s, st.align) && s.Initial().align <= st.align
    requires forall i :: 0 <= i < |s.fields| ==> s.EffectiveAlign(i) <= st.align
    ensures IsStructAlign(s, s.FinalAlign(st))
  {
    InitialAlignIs(s);
    var align := s.FinalAlign(st);
    forall a: nat | AsksForAlign(s, a)
      ensures a <= align
    {
      if i :| 0 <= i < |s.fields| && a == Packed(s.fields[i].align, s.repr) {
        assert s.EffectiveAlign(i) == a;
      }
    }
  }

  // ----- the niche

  /** The field at position `p` has a largest niche: of equally large ones that of the first field in
      memory with start bias, and that of the last with end bias. */
  ghost predicate IsPreferred(s: Struct, bias: NicheBias, order: seq<nat>, k: nat, p: nat)
    requires p < k <= |order| && InRange(order, |s.fields|)
  {
    var available := s.fields[order[p]].NicheSize();
    && (forall q :: 0 <= q < k ==> s.fields[order[q]].NicheSize() <= available)
    && (bias.Start? ==> forall q :: 0 <= q < p ==> s.fields[order[q]].NicheSize() < available)
    && (bias.End? ==> forall q :: p < q < k ==> s.fields[order[q]].NicheSize() < available)
  }

  /** The niche is that of the preferred field, where it was placed. */
  ghost predicate IsKeptNiche(
    s: Struct, bias: NicheBias, offsets: seq<nat>, order: seq<nat>, k: nat, niche: Option<Niche>)
    requires k <= |order| && InRange(order, |s.fields|)
  {
    match niche
    case None => forall q :: 0 <= q < k ==> s.fields[order[q]].largestNiche.None?
    case Some(n) => exists p :: 0 <= p < k && IsPreferred(s, bias, order, k, p)
                                && NicheOfField(s, offsets, n, order[p])
  }

  lemma {:induction false} KeptUpTo(s: Struct, order: seq<nat>, bias: NicheBias, k: nat)
    requires IsPermutation(order, |s.fields|) && k <= |order| && AllWellFormed(s.fields)
    requires s.PlaceUpTo(order, bias, k).Ok?
    ensures var st := s.PlaceUpTo(order, bias, k).value;
            && IsKeptNiche(s, bias, st.offsets, order, k, st.largestNiche)
            && NicheOfFirst(s, order, bias, k, st)
  {
    NicheUpTo(s, order, bias, k);
    if k > 0 {
      KeptUpTo(s, order, bias, k - 1);
      KeptRound(s, order, bias, k, s.PlaceUpTo(order, bias, k - 1).value);
    }
  }

  lemma {:induction false} KeptRound(s: Struct, order: seq<nat>, bias: NicheBias, k: nat, before: Placed)
    requires IsPermutation(order, |s.fields|) && 0 < k <= |order| && |before.offsets| == |s.fields|
    requires AllWellFormed(s.fields) && NicheOfFirst(s, order, bias, k - 1, before)
    requires IsKeptNiche(s, bias, before.offsets, order, k - 1, before.largestNiche)
    requires s.Place(before, order[k - 1], bias).Ok?
    ensures var st := s.Place(before, order[k - 1], bias).value;
            IsKeptNiche(s, bias, st.offsets, order, k, st.largestNiche)
  {
    var st, i := s.Place(before, order[k - 1], bias).value, order[k - 1];
    if PrefersNiche(before, s.fields[i], bias) {
      assert NicheOfField(s, st.offsets, st.largestNiche.value, i);
      NewIsPreferred(s, order, bias, k, before);
    } else if before.largestNiche.Some? {
      var p := OldIsPreferred(s, order, bias, k, before);
      assert st.offsets[order[p]] == before.offsets[order[p]];
      assert NicheOfField(s, st.offsets, st.largestNiche.value, order[p]);
    }
  }

  lemma {:induction false} NewIsPreferred(s: Struct, order: seq<nat>, bias: NicheBias, k: nat, before: Placed)
    requires 0 < k <= |order| && InRange(order, |s.fields|) && NicheOfFirst(s, order, bias, k - 1, before)
    requires PrefersNiche(before, s.fields[order[k - 1]], bias)
    ensures IsPreferred(s, bias, order, k, k - 1)
  {
  }

  lemma {:induction false} OldIsPreferred(
    s: Struct, order: seq<nat>, bias: NicheBias, k: nat, before: Placed) returns (p: nat)
    requires IsPermutation(order, |s.fields|) && 0 < k <= |order| && |before.offsets| == |s.fields|
    requires AllWellFormed(s.fields) && NicheOfFirst(s, order, bias, k - 1, before) && before.largestNiche.Some?
    requires IsKeptNiche(s, bias, before.offsets, order, k - 1, before.largestNiche)
    requires !PrefersNiche(before, s.fields[order[k - 1]], bias)
    ensures p < k - 1 && IsPreferred(s, bias, order, k, p)
    ensures NicheOfField(s, before.offsets, before.largestNiche.value, order[p])
  {
    p :| p < k - 1 && IsPreferred(s, bias, order, k - 1, p)
         && NicheOfField(s, before.offsets, before.largestNiche.value, order[p]);
    PreferredIsAvailable(s, order, bias, k - 1, before, p);
    SomeNicheIsPositive(s.fields[order[p]]);
    SomeNicheIsPositive(s.fields[order[k - 1]]);
    StaysPreferred(s, bias, order, k, p);
  }

  lemma {:induction false} SomeNicheIsPositive(f: Layout)
    requires f.WellFormed()
    ensures f.largestNiche.Some? <==> f.NicheSize() > 0
  {
  }

  lemma {:induction false} StaysPreferred(s: Struct, bias: NicheBias, order: seq<nat>, k: nat, p: nat)
    requires p < k - 1 && k <= |order| && InRange(order, |s.fields|) && IsPreferred(s, bias, order, k - 1, p)
    requires var last, available := s.fields[order[k - 1]].NicheSize(), s.fields[order[p]].NicheSize();
             if bias.Start? then last <= available else last < available
    ensures IsPreferred(s, bias, order, k, p)
  {
  }

  lemma {:induction false} PreferredIsAvailable(
    s: Struct, order: seq<nat>, bias: NicheBias, k: nat, st: Placed, p: nat)
    requires p < k <= |order| && InRange(order, |s.fields|) && IsPreferred(s, bias, order, k, p)
    requires NicheOfFirst(s, order, bias, k, st) && st.largestNiche.Some?
    ensures s.fields[order[p]].NicheSize() == st.largestNicheAvailable
  {
    var j :| 0 <= j < k && s.fields[order[j]].NicheSize() == st.largestNicheAvailable;
  }

  // ----- the layout

  /** The fields are tight in memory order from `start` on, and the struct ends with the last of them,
      rounded up. */
  ghost predicate IsPackedFrom(s: Struct, layout: Layout, start: nat) {
    && layout.shape.Arbitrary? && IsPermutation(layout.shape.order, |s.fields|)
    && |layout.shape.offsets| == |s.fields|
    && var Arbitrary(offsets, order) := layout.shape;
       && IsTight(s, offsets, order, start, |order|)
       && IsRoundedUp(EndBefore(s, offsets, order, start, |order|), layout.align, layout.size)
  }

  /** Everything about the layout, given the order of the fields in memory: where they are, the least
      size and alignment, the niche, and whether it is sized and inhabited. */
  ghost predicate IsLayoutOf(s: Struct, bias: NicheBias, layout: Layout) {
    && (exists start :: IsStart(s, start) && IsPackedFrom(s, layout, start))
    && IsStructAlign(s, layout.align)
    && IsKeptNiche(s, bias, layout.shape.offsets, layout.shape.order, |s.fields|, layout.largestNiche)
    && (layout.sized <==> forall i :: 0 <= i < |s.fields| ==> s.fields[i].sized)
    && (layout.uninhabited <==> exists i :: 0 <= i < |s.fields| && s.fields[i].uninhabited)
    && layout.variants == Single(0)
  }

  /** Only the tail of a possibly unsized struct may be unsized. */
  predicate SizedButTail(s: Struct) {
    forall i :: 0 <= i < |s.fields| && !s.fields[i].sized ==> s.kind.MaybeUnsized? && i == |s.fields| - 1
  }

  lemma {:induction false} SizedUpTo(s: Struct, order: seq<nat>, bias: NicheBias, k: nat)
    requires k <= |order| && InRange(order, |s.fields|) && s.PlaceUpTo(order, bias, k).Ok?
    ensures var st := s.PlaceUpTo(order, bias, k).value;
            && (forall j :: 0 <= j < k && !s.fields[order[j]].sized ==> s.kind.MaybeUnsized? && j == k - 1)
            && (st.unsizedField.None? <==> forall j :: 0 <= j < k ==> s.fields[order[j]].sized)
  {
    if k > 0 {
      SizedUpTo(s, order, bias, k - 1);
    }
  }

  lemma {:induction false} PositionOf(order: seq<nat>, n: nat, i: nat) returns (j: nat)
    requires IsPermutation(order, n) && i < n
    ensures j < n && order[j] == i
  {
    assert i in order;
    j :| j < n && order[j] == i;
  }

  lemma {:induction false} SizedInAnyOrder(s: Struct, order: seq<nat>)
    requires IsPermutation(order, |s.fields|)
    ensures (forall j :: 0 <= j < |order| ==> s.fields[order[j]].sized)
       <==> (forall i :: 0 <= i < |s.fields| ==> s.fields[i].sized)
  {
    if i: nat :| i < |s.fields| && !s.fields[i].sized {
      var j := PositionOf(order, |s.fields|, i);
      assert !s.fields[order[j]].sized;
    }
  }

  lemma {:induction false} FinishedIs(s: Struct, order: seq<nat>, st: Placed)
    requires IsPermutation(order, |s.fields|) && |st.offsets| == |s.fields| && s.Finish(st, order).Ok?
    requires IsTight(s, st.offsets, order, s.Initial().offset, |order|)
    requires st.offset == EndBefore(s, st.offsets, order, s.Initial().offset, |order|)
    requires st.unsizedField.None? <==> forall i :: 0 <= i < |s.fields| ==> s.fields[i].sized
    ensures var layout := s.Finish(st, order).value;
            && IsPackedFrom(s, layout, s.Initial().offset)
            && layout.align == s.FinalAlign(st)
            && layout.largestNiche == st.largestNiche && layout.shape == Arbitrary(st.offsets, order)
            && (layout.sized <==> forall i :: 0 <= i < |s.fields| ==> s.fields[i].sized)
            && (layout.uninhabited <==> exists i :: 0 <= i < |s.fields| && s.fields[i].uninhabited)
            && layout.variants == Single(0)
  {
  }

  lemma {:induction false} BiasedIsFinished(s: Struct, bias: NicheBias) returns (st: Placed)
    requires s.Accepted() && s.Biased(bias).Ok?
    ensures s.PlaceUpTo(s.Order(bias), bias, |s.fields|) == Ok(st)
    ensures s.Biased(bias) == s.Finish(st, s.Order(bias))
  {
    st := s.PlaceUpTo(s.Order(bias), bias, |s.fields|).value;
  }

  /** Each field is at the first place that suits it behind the one before it in memory; size and
      alignment are the least that suit all fields; the niche is a largest one, the first or last by
      bias; only an unsized field makes the struct unsized, and any uninhabited one uninhabited. */
  lemma {:induction false} BiasedIsLayoutOf(s: Struct, bias: NicheBias)
    requires s.Accepted() && AllWellFormed(s.fields) && s.Biased(bias).Ok?
    ensures IsLayoutOf(s, bias, s.Biased(bias).value)
  {
    var order := s.Order(bias);
    var st := BiasedIsFinished(s, bias);
    OrderIsPermutation(s, bias);
    TightUpTo(s, order, bias, |order|);
    KeptUpTo(s, order, bias, |order|);
    SizedUpTo(s, order, bias, |order|);
    SizedInAnyOrder(s, order);
    FinalAlignIs(s, bias);
    FinishedIs(s, order, st);
    InitialAlignIs(s);
  }

  /** So is what `univariant` returns. */
  lemma {:induction false} UnivariantIsLayoutOf(s: Struct) returns (bias: NicheBias)
    requires s.Accepted() && AllWellFormed(s.fields) && s.Compute().Ok?
    ensures s.Compute() == s.Biased(bias) && IsLayoutOf(s, bias, s.Compute().value)
    ensures bias.End? <==> EndBiasPays(s)
  {
    UnivariantChooses(s);
    bias := if EndBiasPays(s) then End else Start;
    BiasedIsLayoutOf(s, bias);
  }

  // ----- success

  lemma {:induction false} RunningGrows(s: Struct, order: seq<nat>, j: nat, k: nat)
    requires InRange(order, |s.fields|) && j <= k <= |order|
    ensures Running(s, order, j) <= Running(s, order, k)
  {
    if j < k {
      RunningGrows(s, order, j, k - 1);
    }
  }

  /** Fields that are sized, but for the last, are placed without error as soon as the end is in bounds. */
  lemma {:induction false} PlacesUnlessUnsized(s: Struct, order: seq<nat>, bias: NicheBias, k: nat)
    requires InRange(order, |s.fields|) && k <= |order|
    requires forall j :: 0 <= j < k && !s.fields[order[j]].sized ==> s.kind.MaybeUnsized? && j == k - 1
    requires k > 0 ==> Running(s, order, k) < s.dl.objSizeBound
    ensures s.PlaceUpTo(order, bias, k).Ok?
  {
    if k > 0 {
      PlacesInBounds(s, order, bias, k - 1);
      RunningIsOffset(s, order, bias, k - 1);
    }
  }

  /** The tail of a possibly unsized struct is last in memory. */
  ghost predicate EndsWithTail(s: Struct, order: seq<nat>) {
    s.kind.MaybeUnsized? ==> |order| == |s.fields| > 0 && order[|order| - 1] == |s.fields| - 1
  }

  lemma {:induction false} OrderEndsWithTail(s: Struct, bias: NicheBias)
    requires s.Accepted()
    ensures IsPermutation(s.Order(bias), |s.fields|) && EndsWithTail(s, s.Order(bias))
  {
    OrderIsPermutation(s, bias);
  }

  /** Only the last field in `order` is unsized, and that of a possibly unsized struct. */
  predicate SizedButLast(s: Struct, order: seq<nat>)
    requires InRange(order, |s.fields|)
  {
    forall j :: 0 <= j < |order| && !s.fields[order[j]].sized ==> s.kind.MaybeUnsized? && j == |order| - 1
  }

  lemma {:induction false} UnsizedIsLast(s: Struct, order: seq<nat>)
    requires IsPermutation(order, |s.fields|) && EndsWithTail(s, order)
    ensures SizedButTail(s) <==> SizedButLast(s, order)
  {
    if SizedButTail(s) {
      forall j | 0 <= j < |order| && !s.fields[order[j]].sized
        ensures s.kind.MaybeUnsized? && j == |order| - 1
      {
        assert order[j] == |s.fields| - 1;
      }
    }
    if SizedButLast(s, order) {
      forall i: nat | i < |s.fields| && !s.fields[i].sized
        ensures s.kind.MaybeUnsized? && i == |s.fields| - 1
      {
        var j := PositionOf(order, |s.fields|, i);
        assert !s.fields[order[j]].sized;
      }
    }
  }

  /** A struct has a layout exactly when only its tail may be unsized and is, and the end of its last
      field, padded to its alignment, stays below the target's bound. */
  lemma {:induction false} BiasedExactlyWhen(s: Struct, bias: NicheBias, align: nat)
    requires s.Accepted() && IsStructAlign(s, align)
    ensures InRange(s.Order(bias), |s.fields|)
    ensures s.Biased(bias).Ok? <==>
              SizedButTail(s) && AlignTo(Running(s, s.Order(bias), |s.fields|), align) < s.dl.objSizeBound
  {
    var order, n := s.Order(bias), |s.fields|;
    OrderEndsWithTail(s, bias);
    UnsizedIsLast(s, order);
    if s.PlaceUpTo(order, bias, n).Ok? {
      SizedUpTo(s, order, bias, n);
      RunningIsOffset(s, order, bias, n);
      FinalAlignIs(s, bias);
      assert s.FinalAlign(s.PlaceUpTo(order, bias, n).value) == align;
    } else if SizedButTail(s) && AlignTo(Running(s, order, n), align) < s.dl.objSizeBound {
      PlacesUnlessUnsized(s, order, bias, n);
    }
  }

  /** Field `i` may not be unsized and is. */
  predicate IsUnexpected(s: Struct, i: nat) {
    i < |s.fields| && !s.fields[i].sized && !(s.kind.MaybeUnsized? && i == |s.fields| - 1)
  }

  lemma {:induction false} FailsUpTo(s: Struct, order: seq<nat>, bias: NicheBias, k: nat)
    requires InRange(order, |s.fields|) && k <= |order| && s.PlaceUpTo(order, bias, k).Err?
    ensures match s.PlaceUpTo(order, bias, k).error
            case UnexpectedUnsized(i) =>
              exists j :: 0 <= j < k && order[j] == i && !s.fields[i].sized && (s.kind.MaybeUnsized? ==> j < k - 1)
            case SizeOverflow => Running(s, order, k) >= s.dl.objSizeBound
            case _ => false
  {
    if s.PlaceUpTo(order, bias, k - 1).Err? {
      FailsUpTo(s, order, bias, k - 1);
      RunningGrows(s, order, k - 1, k);
    } else {
      RoundFails(s, order, bias, k, s.PlaceUpTo(order, bias, k - 1).value);
    }
  }

  lemma {:induction false} RoundFails(s: Struct, order: seq<nat>, bias: NicheBias, k: nat, before: Placed)
    requires InRange(order, |s.fields|) && 0 < k <= |order| && s.PlaceUpTo(order, bias, k - 1) == Ok(before)
    requires s.Place(before, order[k - 1], bias).Err?
    ensures match s.Place(before, order[k - 1], bias).error
            case UnexpectedUnsized(i) =>
              exists j :: 0 <= j < k && order[j] == i && !s.fields[i].sized && (s.kind.MaybeUnsized? ==> j < k - 1)
            case SizeOverflow => Running(s, order, k) >= s.dl.objSizeBound
            case _ => false
  {
    UnsizedIsRemembered(s, order, bias, k - 1);
    OffsetIsRunning(s, order, bias, k - 1);
    if before.unsizedField.Some? {
      assert order[k - 2] == before.unsizedField.value;
    } else if !s.fields[order[k - 1]].sized && !s.kind.MaybeUnsized? {
      assert order[k - 1] < |s.fields|;
    }
  }

  lemma {:induction false} UnsizedIsRemembered(s: Struct, order: seq<nat>, bias: NicheBias, k: nat)
    requires InRange(order, |s.fields|) && k <= |order| && s.PlaceUpTo(order, bias, k).Ok?
    ensures match s.PlaceUpTo(order, bias, k).value.unsizedField
            case None => true
            case Some(i) => k > 0 && order[k - 1] == i && !s.fields[i].sized
  {
  }

  lemma {:induction false} OffsetIsRunning(s: Struct, order: seq<nat>, bias: NicheBias, k: nat)
    requires InRange(order, |s.fields|) && k <= |order| && s.PlaceUpTo(order, bias, k).Ok?
    ensures s.PlaceUpTo(order, bias, k).value.offset == Running(s, order, k)
  {
    if k > 0 {
      OffsetIsRunning(s, order, bias, k - 1);
    }
  }

  /** A failure names a field that is unsized and may not be, or else the end of the fields, padded,
      reaches the target's bound. */
  lemma {:induction false} BiasedFailsWith(s: Struct, bias: NicheBias, align: nat)
    requires s.Accepted() && IsStructAlign(s, align) && !s.Biased(bias).Ok?
    ensures InRange(s.Order(bias), |s.fields|) && s.Biased(bias).Err?
    ensures match s.Biased(bias).error
            case UnexpectedUnsized(i) => IsUnexpected(s, i)
            case SizeOverflow => AlignTo(Running(s, s.Order(bias), |s.fields|), align) >= s.dl.objSizeBound
            case _ => false
  {
    var order, n := s.Order(bias), |s.fields|;
    OrderEndsWithTail(s, bias);
    if s.PlaceUpTo(order, bias, n).Err? {
      FailsUpTo(s, order, bias, n);
      if s.PlaceUpTo(order, bias, n).error.UnexpectedUnsized? {
        var i := s.PlaceUpTo(order, bias, n).error.field;
        var j :| 0 <= j < n && order[j] == i && !s.fields[i].sized && (s.kind.MaybeUnsized? ==> j < n - 1);
        assert s.kind.MaybeUnsized? ==> order[n - 1] == n - 1 != order[j];
      }
    } else {
      OffsetIsRunning(s, order, bias, n);
      FinalAlignIs(s, bias);
      assert s.FinalAlign(s.PlaceUpTo(order, bias, n).value) == align;
    }
  }
}
