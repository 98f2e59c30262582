/** The main results about `univariant`: sound placement, optimal size, a safe end-biased
    rerun, and independence of the unsized tail.
 */
module UnivariantTheorems {
  import opened PowersOfTwo
  import opened Intervals
  import opened Niches
  import opened StableSort
  import opened Layouts
  import opened Univariant
  import opened Placement
  import opened Packing

  // ----- keys

  /** Over well-formed fields the subtraction in the end-biased key does not underflow, and the
      complements are taken of words. */
  lemma {:induction false} SortKeyIsWords(
    s: Struct, f: Layout, bias: NicheBias, maxFieldAlign: nat, largestNicheSize: nat)
    requires f.WellFormed() && f.size < U64
    ensures f.largestNiche.Some? ==> f.size - f.largestNiche.value.bytes - f.largestNiche.value.offset >= 0
    ensures var key := s.SortKey(f, bias, maxFieldAlign, largestNicheSize);
            0 <= key.second < U128 && 0 <= key.third < U64
  {
    if f.largestNiche.Some? {
      AvailableIsWord(f.largestNiche.value);
    }
  }

  lemma {:induction false} AvailableIsWord(niche: Niche)
    requires niche.Valid()
    ensures niche.Available() < U128
  {
    AvailableValue(niche);
    Pow2Monotone(niche.Bits(), 128);
    WordCounts();
  }

  // ----- groups

  /** The exponent of the sort key's alignment group. */
  function GroupExponent(s: Struct, f: Layout, bias: NicheBias, maxFieldAlign: nat, largestNicheSize: nat): nat {
    if s.repr.pack.Some? then Min(f.align, s.repr.pack.value)
    else s.GroupKey(f, bias, maxFieldAlign, largestNicheSize)
  }

  function Groups(s: Struct, bias: NicheBias): (g: seq<nat>)
    ensures |g| == |s.fields|
  {
    seq(|s.fields|, i requires 0 <= i < |s.fields| =>
      GroupExponent(s, s.fields[i], bias, MaxAlign(s.fields), MaxNicheSize(s.fields)))
  }

  /** The effective alignment divides the group's power of two, which divides the field size,
      for both biases and under `repr(packed)`. */
  lemma {:induction false} GroupDivides(s: Struct, i: nat, bias: NicheBias, maxFieldAlign: nat, largestNicheSize: nat)
    requires i < |s.fields| && s.fields[i].WellFormed() && s.fields[i].align <= maxFieldAlign
    ensures var g := GroupExponent(s, s.fields[i], bias, maxFieldAlign, largestNicheSize);
            s.EffectiveAlign(i) <= g && IsMultiple(s.fields[i].size, g)
  {
    var f := s.fields[i];
    var g := GroupExponent(s, f, bias, maxFieldAlign, largestNicheSize);
    var t := TrailingZeros(Max(Pow2(f.align), f.size));
    SizeAsAlignDivides(f);
    if g <= f.align {
      MultipleWeaken(f.size, g, f.align);
    } else {
      MultipleWeaken(f.size, g, t);
    }
  }

  lemma {:induction false} SizeAsAlignDivides(f: Layout)
    requires f.WellFormed()
    ensures var t := TrailingZeros(Max(Pow2(f.align), f.size));
            f.align <= t && IsMultiple(f.size, t)
  {
    ProductIsMultiple(0, f.align);
    if f.size == 0 {
      TrailingZerosOfPow2(f.align);
    } else {
      MultiplesApart(0, f.size, f.align);
      TrailingZerosGreatest(f.size, f.align);
    }
  }

  lemma {:induction false} GroupsDivide(s: Struct, bias: NicheBias)
    requires AllWellFormed(s.fields)
    ensures Divisible(s, Groups(s, bias))
  {
    forall i | 0 <= i < |s.fields|
      ensures s.EffectiveAlign(i) <= Groups(s, bias)[i] && IsMultiple(s.fields[i].size, Groups(s, bias)[i])
    {
      GroupDivides(s, i, bias, MaxAlign(s.fields), MaxNicheSize(s.fields));
    }
  }

  /** The key of a field that sorts before another one orders their groups. */
  lemma {:induction false} KeysOrderGroups(s: Struct, bias: NicheBias, i: nat, l: nat)
    requires !s.kind.MaybeUnsized? && i < |s.fields| && l < |s.fields| && Before(s.SortKeys(bias), i, l)
    ensures var g := Groups(s, bias);
            if s.kind.Prefixed? then g[i] <= g[l] else g[l] <= g[i]
  {
    assert s.fields[..s.SizedCount()] == s.fields;
    var g := Groups(s, bias);
    if g[i] < g[l] {
      Pow2Monotone(g[i], g[l]);
    } else if g[l] < g[i] {
      Pow2Monotone(g[l], g[i]);
    }
  }

  lemma {:induction false} OrderIsSorted(s: Struct, bias: NicheBias)
    requires !s.kind.MaybeUnsized? && s.Reorders()
    ensures s.Order(bias) == SortRange(s.SortKeys(bias), 0, |s.fields|)
  {
  }

  /** The sort orders the groups: ascending behind a prefix, descending otherwise. */
  lemma {:induction false} OrderSortsGroups(s: Struct, bias: NicheBias)
    requires !s.kind.MaybeUnsized? && !s.repr.InhibitStructFieldReordering()
    ensures InRange(s.Order(bias), |s.fields|)
    ensures s.kind.Prefixed? ==> Ascending(s.Order(bias), Groups(s, bias))
    ensures s.kind.AlwaysSized? ==> Descending(s.Order(bias), Groups(s, bias))
  {
    if s.Reorders() {
      var order, g, keys := s.Order(bias), Groups(s, bias), s.SortKeys(bias);
      OrderIsSorted(s, bias);
      forall j, l | 0 <= j < l < |order|
        ensures s.kind.Prefixed? ==> g[order[j]] <= g[order[l]]
        ensures s.kind.AlwaysSized? ==> g[order[l]] <= g[order[j]]
      {
        assert Before(keys, order[j], order[l]);
        KeysOrderGroups(s, bias, order[j], order[l]);
      }
    }
  }

  lemma {:induction false} PacksEitherWay(s: Struct, order: seq<nat>, g: seq<nat>, k: nat, a: nat)
    requires Divisible(s, g) && InRange(order, |g|) && k <= |order|
    requires if s.kind.Prefixed? then Ascending(order, g) else Descending(order, g) && s.kind.AlwaysSized?
    requires forall j :: 0 <= j < k ==> s.EffectiveAlign(order[j]) <= a
    ensures AlignTo(Running(s, order, k), a) == AlignTo(s.Initial().offset + Sum(s.fields, order[..k]), a)
  {
    if s.kind.Prefixed? {
      AscendingPacks(s, order, g, k, a);
    } else {
      DescendingPacks(s, order, g, k);
    }
  }

  /** Groups that divide the fields and that the chosen order sorts. */
  lemma {:induction false} SortedGroups(s: Struct, bias: NicheBias) returns (order: seq<nat>, g: seq<nat>)
    requires !s.kind.MaybeUnsized? && !s.repr.InhibitStructFieldReordering() && AllWellFormed(s.fields)
    ensures order == s.Order(bias) && Divisible(s, g) && InRange(order, |g|)
    ensures if s.kind.Prefixed? then Ascending(order, g) else Descending(order, g)
  {
    order, g := s.Order(bias), Groups(s, bias);
    GroupsDivide(s, bias);
    OrderSortsGroups(s, bias);
  }

  /** However the fields are reordered, they end where one padding at the end would end. */
  lemma {:induction false} PacksWhole(s: Struct, order: seq<nat>, g: seq<nat>, a: nat)
    requires Divisible(s, g) && InRange(order, |g|)
    requires if s.kind.Prefixed? then Ascending(order, g) else Descending(order, g) && s.kind.AlwaysSized?
    requires forall i :: 0 <= i < |s.fields| ==> s.EffectiveAlign(i) <= a
    ensures AlignTo(Running(s, order, |order|), a) == AlignTo(s.Initial().offset + Sum(s.fields, order), a)
  {
    PacksEitherWay(s, order, g, |order|, a);
    assert order[..|order|] == order;
  }

  lemma {:induction false} OrderSum(s: Struct, bias: NicheBias)
    requires !s.kind.MaybeUnsized? && !s.repr.InhibitStructFieldReordering()
    ensures InRange(s.Order(bias), |s.fields|)
    ensures Sum(s.fields, s.Order(bias)) == Total(s.fields, 0)
  {
    var order := s.Order(bias);
    if s.Reorders() {
      assert order == SortRange(s.SortKeys(bias), 0, |s.fields|);
      SumSorted(s.fields, s.SortKeys(bias), 0);
    } else if |s.fields| == 1 {
      assert order == [0];
    }
  }

  // ----- sound placement

  /** The layout of the fields is sound: they are a permutation, each aligned and inside the
      struct behind its prefix, and each ends before the next one in memory starts. */
  ghost predicate SoundStruct(s: Struct, layout: Layout) {
    && layout.shape.Arbitrary?
    && IsPermutation(layout.shape.order, |s.fields|)
    && PlacedInOrder(s, layout.shape.offsets, layout.shape.order, |s.fields|, s.Initial().offset, layout.size)
    && IsMultiple(layout.size, layout.align)
    && layout.size < s.dl.objSizeBound
    && s.Initial().align <= layout.align
    && (s.repr.align.Some? ==> s.repr.align.value <= layout.align)
    && (forall i :: 0 <= i < |s.fields| ==> s.EffectiveAlign(i) <= layout.align)
    && (layout.largestNiche.Some? ==>
          exists i: nat :: NicheOfField(s, layout.shape.offsets, layout.largestNiche.value, i)
                           && s.fields[i].NicheSize() == layout.NicheSize())
    && (forall i :: 0 <= i < |s.fields| ==> s.fields[i].NicheSize() <= layout.NicheSize())
  }

  lemma {:induction false} NicheKeepsAvailable(niche: Niche, offset: nat)
    ensures niche.(offset := offset).Available() == niche.Available()
    ensures niche.(offset := offset).Valid() == niche.Valid()
  {
  }

  lemma {:induction false} BiasedIsSound(s: Struct, bias: NicheBias)
    requires s.Accepted() && s.Biased(bias).Ok?
    ensures SoundStruct(s, s.Biased(bias).value)
  {
    OrderIsPermutation(s, bias);
    FinishedIsSound(s, s.Order(bias), bias);
  }

  lemma {:induction false} FinishedIsSound(s: Struct, order: seq<nat>, bias: NicheBias)
    requires IsPermutation(order, |s.fields|) && s.PlaceUpTo(order, bias, |order|).Ok?
    requires s.Finish(s.PlaceUpTo(order, bias, |order|).value, order).Ok?
    ensures SoundStruct(s, s.Finish(s.PlaceUpTo(order, bias, |order|).value, order).value)
  {
    PlacedUpTo(s, order, bias, |order|);
    AlignUpTo(s, order, bias, |order|, 0);
    NicheIsLargest(s, order, bias);
    FinishIsSound(s, s.PlaceUpTo(order, bias, |order|).value, order);
  }

  /** Rounding the size up keeps what the loop has established. */
  lemma {:induction false} FinishIsSound(s: Struct, st: Placed, order: seq<nat>)
    requires IsPermutation(order, |s.fields|) && s.Finish(st, order).Ok?
    requires PlacedInOrder(s, st.offsets, order, |order|, s.Initial().offset, st.offset)
    requires s.Initial().align <= st.align && forall j :: 0 <= j < |order| ==> s.EffectiveAlign(order[j]) <= st.align
    requires HasLargestNiche(s, st)
    ensures SoundStruct(s, s.Finish(st, order).value)
  {
    var layout := s.Finish(st, order).value;
    assert st.align <= layout.align;
    assert st.offset <= layout.size;
    forall i | 0 <= i < |s.fields|
      ensures s.EffectiveAlign(i) <= layout.align
    {
      assert i in order;
    }
  }

  /** The niche is a field's and as large as any field's. */
  ghost predicate HasLargestNiche(s: Struct, st: Placed) {
    && st.largestNicheAvailable == (if st.largestNiche.Some? then st.largestNiche.value.Available() else 0)
    && (st.largestNiche.Some? ==>
          exists i: nat :: NicheOfField(s, st.offsets, st.largestNiche.value, i)
                           && s.fields[i].NicheSize() == st.largestNicheAvailable)
    && (forall i :: 0 <= i < |s.fields| ==> s.fields[i].NicheSize() <= st.largestNicheAvailable)
  }

  lemma {:induction false} NicheIsLargest(s: Struct, order: seq<nat>, bias: NicheBias)
    requires IsPermutation(order, |s.fields|) && s.PlaceUpTo(order, bias, |order|).Ok?
    ensures var st := s.PlaceUpTo(order, bias, |order|).value;
            && HasLargestNiche(s, st)
            && (bias.End? && st.largestNiche.None? ==>
                  forall i :: 0 <= i < |s.fields| ==> s.fields[i].largestNiche.None?)
  {
    var n := |s.fields|;
    var st := s.PlaceUpTo(order, bias, n).value;
    NicheUpTo(s, order, bias, n);
    forall i | 0 <= i < n
      ensures s.fields[i].NicheSize() <= st.largestNicheAvailable
      ensures bias.End? && st.largestNiche.None? ==> s.fields[i].largestNiche.None?
    {
      assert i in order;
    }
    if st.largestNiche.Some? {
      var j :| 0 <= j < n && NicheOfField(s, st.offsets, st.largestNiche.value, order[j])
               && s.fields[order[j]].NicheSize() == st.largestNicheAvailable;
      NicheKeepsAvailable(s.fields[order[j]].largestNiche.value, st.largestNiche.value.offset);
    }
  }

  /** A sound struct over well-formed fields is well-formed. */
  lemma {:induction false} SoundIsWellFormed(s: Struct, layout: Layout)
    requires SoundStruct(s, layout) && AllWellFormed(s.fields)
    ensures layout.WellFormed()
  {
    if layout.largestNiche.Some? {
      var i: nat :| NicheOfField(s, layout.shape.offsets, layout.largestNiche.value, i)
                    && s.fields[i].NicheSize() == layout.NicheSize();
      NicheKeepsAvailable(s.fields[i].largestNiche.value, layout.largestNiche.value.offset);
      assert i in layout.shape.order;
      var j :| 0 <= j < |s.fields| && layout.shape.order[j] == i;
      assert layout.shape.offsets[layout.shape.order[j]] + s.fields[i].size <= layout.size;
    }
  }

  /** Two placed fields never overlap, whatever their source order. */
  lemma {:induction false} SoundFieldsDisjoint(s: Struct, layout: Layout, x: nat, y: nat)
    requires SoundStruct(s, layout) && x < |s.fields| && y < |s.fields| && x != y
    ensures var offsets := layout.shape.offsets;
            || offsets[x] + s.fields[x].size <= offsets[y]
            || offsets[y] + s.fields[y].size <= offsets[x]
  {
    assert x in layout.shape.order && y in layout.shape.order;
    var j :| 0 <= j < |s.fields| && layout.shape.order[j] == x;
    var l :| 0 <= l < |s.fields| && layout.shape.order[l] == y;
    var offsets, order := layout.shape.offsets, layout.shape.order;
    if j < l {
      assert offsets[order[j]] + s.fields[x].size <= offsets[order[l]];
    } else {
      assert offsets[order[l]] + s.fields[y].size <= offsets[order[j]];
    }
  }

  // ----- optimal size

  function Sizes(fields: seq<Layout>): (sizes: seq<nat>)
    ensures |sizes| == |fields|
  {
    seq(|fields|, i requires 0 <= i < |fields| => fields[i].size)
  }

  /** An arrangement of the fields: anywhere from `from` on, without overlap, inside `size`. */
  ghost predicate Arrangement(fields: seq<Layout>, offsets: seq<nat>, from: nat, size: nat) {
    ApartIn(offsets, Sizes(fields), from, size)
  }

  lemma {:induction false} TotalIsSum(fields: seq<Layout>, k: nat)
    requires k <= |fields|
    ensures Total(fields, k) == SumFrom(Sizes(fields), k)
    decreases |fields| - k
  {
    if k < |fields| {
      TotalIsSum(fields, k + 1);
    }
  }

  /** When reordering is allowed, the size is the prefix plus the field sizes, rounded up once. */
  lemma {:induction false} ReorderingPacks(s: Struct, bias: NicheBias)
    requires !s.kind.MaybeUnsized? && !s.repr.InhibitStructFieldReordering() && AllWellFormed(s.fields)
    requires s.Biased(bias).Ok?
    ensures var layout := s.Biased(bias).value;
            layout.size == AlignTo(s.Initial().offset + Total(s.fields, 0), layout.align)
  {
    var layout := s.Biased(bias).value;
    BiasedIsSound(s, bias);
    ReorderedTotal(s, bias, layout.align);
    RunningIsOffset(s, s.Order(bias), bias, |s.fields|);
  }

  /** ... and no arrangement of the fields without overlap, of any order, is smaller. */
  lemma {:induction false} ReorderingIsOptimal(s: Struct, bias: NicheBias, offsets: seq<nat>, size: nat)
    requires !s.kind.MaybeUnsized? && !s.repr.InhibitStructFieldReordering() && AllWellFormed(s.fields)
    requires s.Biased(bias).Ok?
    requires Arrangement(s.fields, offsets, s.Initial().offset, size)
    requires IsMultiple(size, s.Biased(bias).value.align)
    ensures s.Biased(bias).value.size <= size
  {
    ReorderingPacks(s, bias);
    PackedIsLeast(s, s.Biased(bias).value, offsets, size);
  }

  lemma {:induction false} PackedIsLeast(s: Struct, layout: Layout, offsets: seq<nat>, size: nat)
    requires layout.size == AlignTo(s.Initial().offset + Total(s.fields, 0), layout.align)
    requires Arrangement(s.fields, offsets, s.Initial().offset, size) && IsMultiple(size, layout.align)
    ensures layout.size <= size
  {
    NeedsTotal(s.fields, offsets, s.Initial().offset, size);
    AlignToLeast(s.Initial().offset + Total(s.fields, 0), layout.align, size);
  }

  lemma {:induction false} NeedsTotal(fields: seq<Layout>, offsets: seq<nat>, from: nat, size: nat)
    requires Arrangement(fields, offsets, from, size)
    ensures from + Total(fields, 0) <= size
  {
    TotalIsSum(fields, 0);
    ApartNeedsSum(offsets, Sizes(fields), from, size);
  }

  // ----- the end-biased rerun

  lemma {:induction false} AllFieldsSized(s: Struct, bias: NicheBias)
    requires s.Accepted() && !s.kind.MaybeUnsized? && s.Biased(bias).Ok?
    ensures forall i :: 0 <= i < |s.fields| ==> s.fields[i].sized
  {
    var order := s.Order(bias);
    OrderIsPermutation(s, bias);
    RunningIsOffset(s, order, bias, |order|);
    forall i | 0 <= i < |s.fields|
      ensures s.fields[i].sized
    {
      assert i in order;
    }
  }

  lemma {:induction false} ReorderedTotal(s: Struct, bias: NicheBias, a: nat)
    requires !s.kind.MaybeUnsized? && !s.repr.InhibitStructFieldReordering() && AllWellFormed(s.fields)
    requires forall i :: 0 <= i < |s.fields| ==> s.EffectiveAlign(i) <= a
    ensures InRange(s.Order(bias), |s.fields|)
    ensures AlignTo(Running(s, s.Order(bias), |s.fields|), a) == AlignTo(s.Initial().offset + Total(s.fields, 0), a)
  {
    var order, g := SortedGroups(s, bias);
    PacksWhole(s, order, g, a);
    OrderSum(s, bias);
  }

  /** Both biases end, once padded to any alignment the fields divide, at the same offset. */
  lemma {:induction false} BothEndAlike(s: Struct, a: nat)
    requires !s.kind.MaybeUnsized? && AllWellFormed(s.fields)
    requires forall i :: 0 <= i < |s.fields| ==> s.EffectiveAlign(i) <= a
    ensures InRange(s.Order(Start), |s.fields|) && InRange(s.Order(End), |s.fields|)
    ensures AlignTo(Running(s, s.Order(Start), |s.fields|), a) == AlignTo(Running(s, s.Order(End), |s.fields|), a)
  {
    if s.repr.InhibitStructFieldReordering() {
      assert s.Order(Start) == s.Order(End);
    } else {
      ReorderedTotal(s, Start, a);
      ReorderedTotal(s, End, a);
    }
  }

  lemma {:induction false} AlignAtMost(s: Struct, bias: NicheBias, bound: nat)
    requires s.Accepted() && s.PlaceUpTo(s.Order(bias), bias, |s.fields|).Ok?
    requires s.Initial().align <= bound && forall i :: 0 <= i < |s.fields| ==> s.EffectiveAlign(i) <= bound
    ensures s.PlaceUpTo(s.Order(bias), bias, |s.fields|).value.align <= bound
  {
    AlignUpTo(s, s.Order(bias), bias, |s.fields|, bound);
  }

  lemma {:induction false} AlignAtLeast(s: Struct, bias: NicheBias)
    requires s.Accepted() && s.PlaceUpTo(s.Order(bias), bias, |s.fields|).Ok?
    ensures var align := s.PlaceUpTo(s.Order(bias), bias, |s.fields|).value.align;
            s.Initial().align <= align && forall i :: 0 <= i < |s.fields| ==> s.EffectiveAlign(i) <= align
  {
    var order := s.Order(bias);
    OrderIsPermutation(s, bias);
    AlignUpTo(s, order, bias, |s.fields|, 0);
    var align := s.PlaceUpTo(order, bias, |s.fields|).value.align;
    forall i | 0 <= i < |s.fields|
      ensures s.EffectiveAlign(i) <= align
    {
      assert i in order;
    }
  }

  lemma {:induction false} SameAlign(s: Struct)
    requires s.Accepted()
    requires s.PlaceUpTo(s.Order(Start), Start, |s.fields|).Ok? && s.PlaceUpTo(s.Order(End), End, |s.fields|).Ok?
    ensures s.PlaceUpTo(s.Order(Start), Start, |s.fields|).value.align
         == s.PlaceUpTo(s.Order(End), End, |s.fields|).value.align
  {
    AlignAtLeast(s, Start);
    AlignAtLeast(s, End);
    AlignAtMost(s, Start, s.PlaceUpTo(s.Order(End), End, |s.fields|).value.align);
    AlignAtMost(s, End, s.PlaceUpTo(s.Order(Start), Start, |s.fields|).value.align);
  }

  /** When the start-biased run places every field, so does the end-biased one, with the same
      alignment and the same padded end. */
  lemma {:induction false} EndBiasedPlaces(s: Struct)
    requires !s.kind.MaybeUnsized? && AllWellFormed(s.fields) && s.Biased(Start).Ok?
    ensures var n := |s.fields|;
            && s.PlaceUpTo(s.Order(Start), Start, n).Ok? && s.PlaceUpTo(s.Order(End), End, n).Ok?
            && var first := s.PlaceUpTo(s.Order(Start), Start, n).value;
               var second := s.PlaceUpTo(s.Order(End), End, n).value;
               && first.align == second.align
               && AlignTo(first.offset, s.FinalAlign(first)) == AlignTo(second.offset, s.FinalAlign(first))
  {
    var n := |s.fields|;
    var first := s.PlaceUpTo(s.Order(Start), Start, n).value;
    AlignAtLeast(s, Start);
    BothEndAlike(s, s.FinalAlign(first));
    RunningIsOffset(s, s.Order(Start), Start, n);
    AllFieldsSized(s, Start);
    PlacesInBounds(s, s.Order(End), End, n);
    RunningIsOffset(s, s.Order(End), End, n);
    SameAlign(s);
  }

  lemma {:induction false} NicheSizeAtMost(s: Struct, layout: Layout, other: Layout)
    requires SoundStruct(s, layout) && SoundStruct(s, other)
    ensures layout.NicheSize() <= other.NicheSize()
  {
    if layout.largestNiche.Some? {
      var i: nat :| NicheOfField(s, layout.shape.offsets, layout.largestNiche.value, i)
                    && s.fields[i].NicheSize() == layout.NicheSize();
    }
  }

  /** The end-biased rerun is safe: it succeeds whenever the start-biased run does, with the
      same size and alignment and a niche as large. */
  lemma {:induction false} EndBiasedRerunIsSafe(s: Struct)
    requires !s.kind.MaybeUnsized? && AllWellFormed(s.fields) && s.Biased(Start).Ok?
    ensures s.Biased(End).Ok?
    ensures var layout, alt := s.Biased(Start).value, s.Biased(End).value;
            && alt.size == layout.size && alt.align == layout.align
            && alt.NicheSize() == layout.NicheSize()
            && (layout.largestNiche.Some? ==> alt.largestNiche.Some?)
  {
    EndBiasedPlaces(s);
    BiasedIsSound(s, Start);
    BiasedIsSound(s, End);
    var layout, alt := s.Biased(Start).value, s.Biased(End).value;
    NicheSizeAtMost(s, layout, alt);
    NicheSizeAtMost(s, alt, layout);
    SoundIsWellFormed(s, layout);
  }

  // ----- `univariant`

  /** How far the larger of the spaces beside the niche reaches. */
  function WidestSide(layout: Layout): int {
    if layout.largestNiche.None? then 0
    else
      var niche := layout.largestNiche.value;
      var tail := layout.size - niche.offset - niche.bytes;
      if tail < niche.offset then niche.offset else tail
  }

  /** No `expect`, subtraction or assertion of `univariant` can fail over well-formed fields;
      its result is one of the two biased layouts and has a niche whenever a field has one. */
  lemma {:induction false} UnivariantIsSound(s: Struct)
    requires s.Accepted() && AllWellFormed(s.fields)
    ensures !s.Compute().Panic?
    ensures s.Compute().Ok? <==> s.Biased(Start).Ok?
    ensures s.Compute().Ok? ==>
              && SoundStruct(s, s.Compute().value) && s.Compute().value.WellFormed()
              && s.Compute().value.sized == s.Biased(Start).value.sized
              && (s.Compute() == s.Biased(Start) || (!s.kind.MaybeUnsized? && s.Compute() == s.Biased(End)))
  {
    if s.Biased(Start).Ok? {
      BiasedIsSound(s, Start);
      SoundIsWellFormed(s, s.Biased(Start).value);
      if !s.kind.MaybeUnsized? {
        EndBiasedRerunIsSafe(s);
        BiasedIsSound(s, End);
        SoundIsWellFormed(s, s.Biased(End).value);
        AllFieldsSized(s, Start);
        AllFieldsSized(s, End);
        RunningIsOffset(s, s.Order(Start), Start, |s.fields|);
        RunningIsOffset(s, s.Order(End), End, |s.fields|);
      }
    }
  }

  /** The end-biased layout is worth taking: the start-biased one leaves space on both sides of its niche,
      and the end-biased one has its niche farther from the start than either space is wide. */
  ghost predicate EndBiasPays(s: Struct)
    requires s.Accepted()
  {
    && !s.kind.MaybeUnsized? && |s.fields| > 1 && s.Biased(Start).Ok? && s.Biased(End).Ok?
    && var layout, alt := s.Biased(Start).value, s.Biased(End).value;
       && layout.largestNiche.Some? && alt.largestNiche.Some?
       && var niche := layout.largestNiche.value;
          && 0 < niche.offset && niche.offset + niche.bytes < layout.size
          && WidestSide(layout) < alt.largestNiche.value.offset
  }

  /** The end-biased layout is taken whenever it is worth it, and only then. */
  lemma {:induction false} UnivariantChooses(s: Struct)
    requires s.Accepted() && AllWellFormed(s.fields)
    ensures s.Compute() == if EndBiasPays(s) then s.Biased(End) else s.Biased(Start)
  {
    UnivariantIsSound(s);
    if s.Biased(Start).Ok? && WantsRerun(s, s.Biased(Start).value) {
      EndBiasedRerunIsSafe(s);
      Compares(s, s.Biased(Start).value, s.Biased(End).value);
      PaysByComparing(s, s.Biased(Start).value, s.Biased(End).value);
    } else {
      KeepsFirst(s);
      if EndBiasPays(s) {
        PaysAfterRerun(s);
      }
    }
  }

  lemma {:induction false} PaysByComparing(s: Struct, layout: Layout, alt: Layout)
    requires s.Accepted() && s.Biased(Start) == Ok(layout) && s.Biased(End) == Ok(alt)
    requires WantsRerun(s, layout) && alt.largestNiche.Some?
    ensures var head, altHead := layout.largestNiche.value.offset, alt.largestNiche.value.offset;
            EndBiasPays(s) <==> altHead > head && altHead > layout.size - head - layout.largestNiche.value.bytes
  {
  }

  lemma {:induction false} PaysAfterRerun(s: Struct)
    requires s.Accepted() && EndBiasPays(s)
    ensures s.Biased(Start).Ok? && WantsRerun(s, s.Biased(Start).value)
  {
  }

  /** Choosing the end-biased layout never gives up space: the larger of the spaces beside the
      niche, which other variants can be packed into, is at least what the start-biased layout
      leaves. */
  lemma {:induction false} UnivariantKeepsWidestSide(s: Struct)
    requires s.Accepted() && AllWellFormed(s.fields) && s.Biased(Start).Ok? && !s.kind.MaybeUnsized?
    requires s.Biased(Start).value.largestNiche.Some?
    ensures s.Compute().Ok? && s.Biased(End).Ok? && s.Biased(End).value.largestNiche.Some?
    ensures s.Compute().value.largestNiche.Some?
    ensures WidestSide(s.Biased(Start).value) <= WidestSide(s.Compute().value)
  {
    EndBiasedRerunIsSafe(s);
    UnivariantChooses(s);
    HeadIsOneSide(s.Biased(End).value);
  }

  lemma {:induction false} HeadIsOneSide(layout: Layout)
    requires layout.largestNiche.Some?
    ensures layout.largestNiche.value.offset <= WidestSide(layout)
  {
  }

  /** The layout `univariant` settles on is optimal too when reordering is allowed. */
  lemma {:induction false} UnivariantIsOptimal(s: Struct, offsets: seq<nat>, size: nat)
    requires !s.kind.MaybeUnsized? && !s.repr.InhibitStructFieldReordering() && AllWellFormed(s.fields)
    requires s.Compute().Ok?
    requires Arrangement(s.fields, offsets, s.Initial().offset, size) && IsMultiple(size, s.Compute().value.align)
    ensures s.Compute().value.size == AlignTo(s.Initial().offset + Total(s.fields, 0), s.Compute().value.align)
    ensures s.Compute().value.size <= size
  {
    UnivariantIsSound(s);
    var bias := if s.Compute() == s.Biased(Start) then Start else End;
    ReorderingPacks(s, bias);
    ReorderingIsOptimal(s, bias, offsets, size);
  }

  // ----- unsizing

  /** Two possibly unsized structs that differ in their tails only. */
  ghost predicate SameButTail(s: Struct, t: Struct) {
    && s.kind.MaybeUnsized? && t.kind.MaybeUnsized? && s.repr == t.repr && s.dl == t.dl
    && |s.fields| == |t.fields| > 0
    && s.fields[..|s.fields| - 1] == t.fields[..|t.fields| - 1]
  }

  lemma {:induction false} TailStaysLast(s: Struct)
    requires s.kind.MaybeUnsized? && s.fields != []
    ensures var n := |s.fields|;
            s.Order(Start)[n - 1] == n - 1 && forall j :: 0 <= j < n - 1 ==> s.Order(Start)[j] < n - 1
  {
    var n := |s.fields|;
    if s.Reorders() {
      var sorted := SortRange(s.SortKeys(Start), 0, n - 1);
      assert forall j :: 0 <= j < n - 1 ==> s.Order(Start)[j] == sorted[j];
    }
  }

  lemma {:induction false} SamePlacementUpTo(s: Struct, t: Struct, order: seq<nat>, k: nat)
    requires SameButTail(s, t) && InRange(order, |s.fields|) && k <= |order|
    requires forall j :: 0 <= j < k ==> order[j] < |s.fields| - 1
    ensures s.PlaceUpTo(order, Start, k) == t.PlaceUpTo(order, Start, k)
  {
    if k > 0 {
      SamePlacementUpTo(s, t, order, k - 1);
      if s.PlaceUpTo(order, Start, k - 1).Ok? {
        SamePlace(s, t, s.PlaceUpTo(order, Start, k - 1).value, order[k - 1]);
        OneRound(s, order, Start, k - 1);
        OneRound(t, order, Start, k - 1);
      }
    }
  }

  lemma {:induction false} SamePlace(s: Struct, t: Struct, st: Placed, i: nat)
    requires SameButTail(s, t) && i < |s.fields| - 1 && |st.offsets| == |s.fields|
    ensures s.Place(st, i, Start) == t.Place(st, i, Start)
  {
    assert s.fields[i] == s.fields[..|s.fields| - 1][i] == t.fields[i];
  }

  lemma {:induction false} SameOrder(s: Struct, t: Struct)
    requires SameButTail(s, t)
    ensures s.Order(Start) == t.Order(Start)
  {
    assert s.SortKeys(Start) == t.SortKeys(Start);
  }

  lemma {:induction false} LastPlaceKeepsOthers(s: Struct, order: seq<nat>)
    requires s.fields != [] && |order| == |s.fields| && InRange(order, |s.fields|)
    requires order[|order| - 1] == |order| - 1
    requires s.PlaceUpTo(order, Start, |order|).Ok?
    ensures s.PlaceUpTo(order, Start, |order| - 1).Ok?
    ensures var last, before := s.PlaceUpTo(order, Start, |order|).value, s.PlaceUpTo(order, Start, |order| - 1).value;
            forall i :: 0 <= i < |order| - 1 ==> last.offsets[i] == before.offsets[i]
  {
  }

  /** Unsizing does not move fields: the offsets of all fields but the tail are the same
      whatever the tails' sizes, alignments and niches. */
  lemma {:induction false} UnsizingKeepsOffsets(s: Struct, t: Struct)
    requires SameButTail(s, t) && s.Compute().Ok? && t.Compute().Ok?
    ensures s.Compute().value.shape.Arbitrary? && t.Compute().value.shape.Arbitrary?
    ensures var first, second := s.Compute().value.shape, t.Compute().value.shape;
            && |first.offsets| == |second.offsets| == |s.fields|
            && first.order == second.order
            && forall i :: 0 <= i < |s.fields| - 1 ==> first.offsets[i] == second.offsets[i]
  {
    UnsizedShape(s);
    UnsizedShape(t);
    SameOrder(s, t);
    TailStaysLast(s);
    SamePlaces(s, t, s.Order(Start));
  }

  lemma {:induction false} UnsizedShape(s: Struct)
    requires s.kind.MaybeUnsized? && s.fields != [] && s.Compute().Ok?
    ensures s.PlaceUpTo(s.Order(Start), Start, |s.fields|).Ok?
    ensures s.Compute().value.shape
         == Arbitrary(s.PlaceUpTo(s.Order(Start), Start, |s.fields|).value.offsets, s.Order(Start))
  {
  }

  lemma {:induction false} SamePlaces(s: Struct, t: Struct, order: seq<nat>)
    requires SameButTail(s, t) && |order| == |s.fields| && InRange(order, |s.fields|)
    requires order[|order| - 1] == |order| - 1 && forall j :: 0 <= j < |order| - 1 ==> order[j] < |order| - 1
    requires s.PlaceUpTo(order, Start, |order|).Ok? && t.PlaceUpTo(order, Start, |order|).Ok?
    ensures var first, second := s.PlaceUpTo(order, Start, |order|).value, t.PlaceUpTo(order, Start, |order|).value;
            forall i :: 0 <= i < |order| - 1 ==> first.offsets[i] == second.offsets[i]
  {
    SamePlacementUpTo(s, t, order, |order| - 1);
    LastPlaceKeepsOthers(s, order);
    LastPlaceKeepsOthers(t, order);
  }

  // ----- the method of the source

  /** When `univariant` looks at an end-biased layout. */
  predicate WantsRerun(s: Struct, layout: Layout) {
    && !s.kind.MaybeUnsized? && layout.largestNiche.Some?
    && var niche := layout.largestNiche.value;
       |s.fields| > 1 && niche.offset != 0 && layout.size - niche.offset - niche.bytes > 0
  }

  lemma {:induction false} KeepsFirst(s: Struct)
    requires s.Accepted() && !s.Compute().Panic?
    requires s.Biased(Start).Ok? ==> !WantsRerun(s, s.Biased(Start).value)
    ensures s.Compute() == s.Biased(Start)
  {
  }

  lemma {:induction false} Compares(s: Struct, layout: Layout, alt: Layout)
    requires s.Accepted() && !s.Compute().Panic? && s.Biased(Start) == Ok(layout) && s.Biased(End) == Ok(alt)
    requires WantsRerun(s, layout) && alt.largestNiche.Some?
    ensures var head, altHead := layout.largestNiche.value.offset, alt.largestNiche.value.offset;
            var tail := layout.size - head - layout.largestNiche.value.bytes;
            s.Compute() == Ok(if altHead > head && altHead > tail then alt else layout)
  {
  }

  /** The second attempt. Its `expect`s, subtraction and size assertion are proved here. */
  method PreferEndBiased(s: Struct, layout: Layout) returns (r: Layout)
    requires s.Accepted() && AllWellFormed(s.fields) && s.Biased(Start) == Ok(layout) && !s.Compute().Panic?
    requires WantsRerun(s, layout)
    ensures s.Compute() == Ok(r)
  {
    EndBiasedRerunIsSafe(s);
    var headSpace := layout.largestNiche.value.offset;
    var tailSpace: nat := layout.size - headSpace - layout.largestNiche.value.bytes;
    var result := UnivariantBiased(s, End);
    var alt := result.value;
    assert alt.largestNiche.Some? && alt.size == layout.size;
    var altHeadSpace := alt.largestNiche.value.offset;
    BiasedIsSound(s, End);
    SoundIsWellFormed(s, alt);
    var altTailSpace: nat := alt.size - altHeadSpace - alt.largestNiche.value.bytes;
    Compares(s, layout, alt);
    r := if altHeadSpace > headSpace && altHeadSpace > tailSpace then alt else layout;
  }

  /** `univariant`. */
  method UnivariantLayout(s: Struct) returns (r: Result<Layout>)
    requires s.Accepted() && AllWellFormed(s.fields)
    ensures r == s.Compute() && !r.Panic?
    ensures r.Ok? ==> SoundStruct(s, r.value) && r.value.WellFormed()
  {
    UnivariantIsSound(s);
    r := UnivariantBiased(s, Start);
    if r.Ok? && WantsRerun(s, r.value) {
      var better := PreferEndBiased(s, r.value);
      return Ok(better);
    }
    KeepsFirst(s);
  }
}
