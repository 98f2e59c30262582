/** `layout_of_enum` as the source runs it: loops over the variants that collect layouts and
    maxima, and that move field offsets in place.
 */
module EnumMethods {
  import opened PowersOfTwo
  import opened Wrappers
  import opened WrappingRanges
  import opened SmallestRange
  import opened Niches
  import opened Layouts
  import opened Univariant
  import opened UnivariantTheorems
  import opened Discriminants
  import opened Enums
  import opened NicheFilling
  import opened TaggedEnums
  import opened EnumTheorems

  lemma {:induction false} CollectStops(rs: seq<Result<Layout>>, j: nat, k: nat)
    requires j <= k <= |rs| && !Collect(rs, j).Ok?
    ensures Collect(rs, k) == Collect(rs, j)
  {
    if j < k {
      CollectStops(rs, j, k - 1);
    }
  }

  lemma {:induction false} MaximaAppend(sts: seq<Layout>, st: Layout)
    ensures MaxAlign(sts + [st]) == Max(MaxAlign(sts), st.align)
    ensures MaxSize(sts + [st]) == Max(MaxSize(sts), st.size)
  {
    if sts != [] {
      MaximaAppend(sts[1..], st);
      assert (sts + [st])[1..] == sts[1..] + [st];
    }
  }

  /** Keeps the largest alignment and size. */
  method Widest(dl: DataLayout, ghost sts: seq<Layout>, align: nat, size: nat, st: Layout)
    returns (align': nat, size': nat)
    requires align == Max(dl.aggregateAlign, MaxAlign(sts)) && size == MaxSize(sts)
    ensures align' == Max(dl.aggregateAlign, MaxAlign(sts + [st])) && size' == MaxSize(sts + [st])
  {
    MaximaAppend(sts, st);
    align', size' := Max(align, st.align), Max(size, st.size);
  }

  predicate IsVariant(e: EnumDef, v: nat) {
    v < |e.variants|
  }

  /** `rs` holds the result of laying out each variant on its own. */
  ghost predicate EachAlone(e: EnumDef, kind: StructKind, rs: seq<Result<Layout>>)
    requires !kind.MaybeUnsized?
  {
    && |rs| == |e.variants|
    && forall v: nat {:trigger IsVariant(e, v)} ::
         IsVariant(e, v) ==> rs[v] == Struct(e.variants[v], e.repr, kind, e.dl).Compute()
  }

  /** Lays out variant `v`, all before it having been laid out. */
  method LayOutVariant(e: EnumDef, kind: StructKind, v: nat, ghost rs: seq<Result<Layout>>, ghost sts: seq<Layout>)
    returns (st: Result<Layout>)
    requires !kind.MaybeUnsized? && AllVariantsWellFormed(e) && v < |e.variants|
    requires EachAlone(e, kind, rs) && Collect(rs, v) == Ok(sts)
    ensures !st.Panic?
    ensures st.Ok? ==> Collect(rs, v + 1) == Ok(sts + [st.value])
    ensures st.Err? ==> Collect(rs, |rs|) == Err(st.error)
  {
    st := UnivariantLayout(Struct(e.variants[v], e.repr, kind, e.dl));
    assert IsVariant(e, v);
    CollectNext(rs, sts, v);
  }

  method LayOutEach(e: EnumDef, kind: StructKind, ghost rs: seq<Result<Layout>>)
    returns (r: Result<seq<Layout>>, align: nat, size: nat)
    requires !kind.MaybeUnsized? && AllVariantsWellFormed(e) && EachAlone(e, kind, rs)
    ensures r == Collect(rs, |rs|) && !r.Panic?
    ensures r.Ok? ==> align == Max(e.dl.aggregateAlign, MaxAlign(r.value)) && size == MaxSize(r.value)
  {
    var sts: seq<Layout> := [];
    align, size := e.dl.aggregateAlign, 0;
    for v := 0 to |e.variants|
      invariant Collect(rs, v) == Ok(sts)
      invariant align == Max(e.dl.aggregateAlign, MaxAlign(sts)) && size == MaxSize(sts)
    {
      var st := LayOutVariant(e, kind, v, rs, sts);
      if !st.Ok? {
        return Err(st.error), align, size;
      }
      align, size := Widest(e.dl, sts, align, size, st.value);
      sts := sts + [st.value];
    }
    return Ok(sts), align, size;
  }

  /** Lays out the variants one by one and keeps the largest size and alignment. */
  method LayOutVariants(e: EnumDef, kind: StructKind) returns (r: Result<seq<Layout>>, align: nat, size: nat)
    requires !kind.MaybeUnsized? && AllVariantsWellFormed(e)
    ensures r == e.Structs(kind) && !r.Panic?
    ensures r.Ok? ==> align == Max(e.dl.aggregateAlign, MaxAlign(r.value)) && size == MaxSize(r.value)
  {
    r, align, size := LayOutEach(e, kind, e.Alone(kind));
  }

  lemma {:induction false} CollectNext(rs: seq<Result<Layout>>, sts: seq<Layout>, k: nat)
    requires k < |rs| && Collect(rs, k) == Ok(sts)
    ensures rs[k].Ok? ==> Collect(rs, k + 1) == Ok(sts + [rs[k].value])
    ensures rs[k].Err? ==> Collect(rs, |rs|) == Err(rs[k].error)
  {
    if rs[k].Err? {
      CollectStops(rs, k + 1, |rs|);
    }
  }

  method FindLargest(sts: seq<Layout>) returns (largest: nat)
    requires sts != []
    ensures largest == LargestVariant(sts, |sts|)
  {
    largest := 0;
    for v := 1 to |sts|
      invariant largest == LargestVariant(sts, v)
    {
      if sts[v].size >= sts[largest].size {
        largest := v;
      }
    }
  }

  /** The first and the last variant that need a discriminant. */
  method FindNicheVariants(e: EnumDef, largest: nat) returns (first: Option<nat>, last: Option<nat>)
    ensures first == e.FirstNeeded(largest, 0) && last == e.LastNeeded(largest, |e.variants|)
  {
    var v := 0;
    while v < |e.variants| && !e.NeedsDiscriminant(largest, v)
      invariant v <= |e.variants| && e.FirstNeeded(largest, v) == e.FirstNeeded(largest, 0)
    {
      v := v + 1;
    }
    first := if v < |e.variants| then Some(v) else None;
    var w: nat := |e.variants|;
    while w > 0 && !e.NeedsDiscriminant(largest, w - 1)
      invariant w <= |e.variants| && e.LastNeeded(largest, w) == e.LastNeeded(largest, |e.variants|)
    {
      w := w - 1;
    }
    last := if w > 0 then Some(w - 1) else None;
  }

  method ShiftOffsets(offsets: array<nat>, shift: nat)
    modifies offsets
    ensures offsets[..] == ShiftAll(old(offsets[..]), shift)
  {
    for i := 0 to offsets.Length
      invariant forall j :: 0 <= j < i ==> offsets[j] == old(offsets[j]) + shift
      invariant forall j :: i <= j < offsets.Length ==> offsets[j] == old(offsets[j])
    {
      offsets[i] := offsets[i] + shift;
    }
  }

  /** A copy of `s` that can be changed in place. */
  method ToArray(s: seq<nat>) returns (a: array<nat>)
    ensures fresh(a) && a[..] == s
  {
    a := new nat[|s|](i requires 0 <= i < |s| => s[i]);
    assert a[..] == s;
  }

  lemma {:induction false} FitStops(sts: seq<Layout>, largest: nat, niche: Niche, size: nat, j: nat, k: nat)
    requires j <= k <= |sts| && AllArbitrary(sts) && FitVariants(sts, largest, niche, size, j).None?
    ensures FitVariants(sts, largest, niche, size, k).None?
  {
    if j < k {
      FitStops(sts, largest, niche, size, j, k - 1);
    }
  }

  method PlaceAroundNiche(
      sts: seq<Layout>, largest: nat, niche: Niche, size: nat) returns (r: Option<seq<VariantLayout>>)
    requires AllArbitrary(sts)
    ensures r == FitVariants(sts, largest, niche, size, |sts|)
  {
    var variants: seq<VariantLayout> := [];
    for v := 0 to |sts|
      invariant FitVariants(sts, largest, niche, size, v) == Some(variants)
    {
      var variant := FromLayout(sts[v]);
      if v != largest {
        variant := variant.(largestNiche := None);
        if variant.size > niche.offset {
          var shift := AlignTo(niche.offset + niche.bytes, sts[v].align);
          if shift + variant.size > size {
            FitStops(sts, largest, niche, size, v + 1, |sts|);
            return None;
          }
          var offsets := ToArray(variant.offsets);
          ShiftOffsets(offsets, shift);
          variant := variant.(offsets := offsets[..], size := variant.size + shift);
        }
      }
      variants := variants + [variant];
    }
    return Some(variants);
  }

  method NicheFillingLayout(e: EnumDef) returns (r: Option<Layout>)
    requires AllVariantsWellFormed(e) && (e.repr.InhibitEnumLayoutOpt() || TwoPresent(e))
    ensures e.NicheFilling() == Ok(r)
  {
    NicheFillingNeverPanics(e);
    if e.repr.InhibitEnumLayoutOpt() || |e.variants| < 2 {
      return None;
    }
    var structs, align, _ := LayOutVariants(e, AlwaysSized);
    if !structs.Ok? {
      return None;
    }
    r := FillNiche(e, structs.value, align);
  }

  method FillNiche(e: EnumDef, sts: seq<Layout>, align: nat) returns (r: Option<Layout>)
    requires |sts| == |e.variants| > 0 && AllArbitrary(sts) && align == Max(e.dl.aggregateAlign, MaxAlign(sts))
    requires e.NicheFillingOf(sts).Ok?
    ensures e.NicheFillingOf(sts) == Ok(r)
  {
    var largest := FindLargest(sts);
    var first, last := FindNicheVariants(e, largest);
    if sts[largest].largestNiche.None? {
      return None;
    }
    var niche := sts[largest].largestNiche.value;
    var reserved := niche.Reserve(last.value - first.value + 1);
    if reserved.None? {
      return None;
    }
    var size := AlignTo(sts[largest].size, align);
    var variants := PlaceAroundNiche(sts, largest, niche, size);
    if variants.None? {
      return None;
    }
    var range := reserved.value.1;
    var uninhabited := forall i :: 0 <= i < |sts| ==> sts[i].uninhabited;
    return Some(Layout(size, align, FromScalar(niche.offset, niche.bytes, range), uninhabited, true,
                       Arbitrary([niche.offset], [0]),
                       Multiple(Tag(niche.offset, niche.bytes, range),
                                NicheEncoding(largest, first.value, last.value, reserved.value.0),
                                variants.value)));
  }

  // ----- tagging

  method CollectDiscriminants(e: EnumDef) returns (ds: seq<nat>)
    requires e.Accepted()
    ensures ds == e.NecessaryDiscriminants(|e.variants|)
  {
    ds := [];
    for v := 0 to |e.variants|
      invariant ds == e.NecessaryDiscriminants(v)
    {
      if e.repr.c || e.Inhabited(v) {
        ds := ds + [e.discriminants[v]];
      }
    }
  }

  method DiscriminantRange(ds: seq<nat>, signed: bool, bits: nat) returns (min: int, max: nat)
    ensures min == MinNegative(ds, signed, bits, |ds|) && max == MaxPositive(ds, signed, bits, |ds|)
  {
    min, max := 0, 0;
    for i := 0 to |ds|
      invariant min == MinNegative(ds, signed, bits, i) && max == MaxPositive(ds, signed, bits, i)
    {
      if signed {
        var v := SignExtend(ds[i], bits);
        if v < min {
          min := v;
        }
        if v > max {
          max := v;
        }
      } else if ds[i] > max {
        max := ds[i];
      }
    }
  }

  method PrefixOf(e: EnumDef, ity: Integer) returns (kind: StructKind)
    ensures kind == e.TagPrefix(ity)
  {
    var fieldAlign := 0;
    if e.repr.c {
      for v := 0 to |e.variants|
        invariant fieldAlign == e.MaxFieldAlign(v)
      {
        fieldAlign := Max(fieldAlign, MaxAlign(e.variants[v]));
      }
    }
    return Prefixed(ity.Bytes(), Max(ity.Align(e.dl), fieldAlign));
  }

  method FindStartAlign(e: EnumDef, sts: seq<Layout>) returns (startAlign: nat)
    requires |sts| == |e.variants| && AllArbitrary(sts)
    ensures startAlign == e.StartAlign(sts, |sts|)
  {
    startAlign := 8;
    NoIntegerIsThatAligned(e.dl);
    for v := 0 to |sts|
      invariant startAlign == e.StartAlign(sts, v)
    {
      var fields, order := e.variants[v], sts[v].shape.order;
      var j := 0;
      while j < |order| && (order[j] >= |fields| || fields[order[j]].Is1Zst())
        invariant j <= |order| && FirstImmovable(fields, order, j) == FirstImmovable(fields, order, 0)
      {
        j := j + 1;
      }
      if j < |order| {
        startAlign := Min(startAlign, fields[order[j]].align);
      }
    }
  }

  /** Moves the offsets at the end of the narrow tag behind the wide one. The assertion of the
      source is the precondition. */
  method WidenInPlace(offsets: array<nat>, oldSize: nat, newSize: nat)
    requires forall i :: 0 <= i < offsets.Length ==> offsets[i] >= oldSize
    modifies offsets
    ensures offsets[..] == WidenOffsets(old(offsets[..]), oldSize, newSize)
  {
    for i := 0 to offsets.Length
      invariant forall j :: 0 <= j < i ==>
                  offsets[j] == if old(offsets[j]) <= oldSize then newSize else old(offsets[j])
      invariant forall j :: i <= j < offsets.Length ==> offsets[j] == old(offsets[j])
    {
      if offsets[i] <= oldSize {
        assert offsets[i] == oldSize;
        offsets[i] := newSize;
      }
    }
  }

  lemma {:induction false} WidenFails(sts: seq<Layout>, oldSize: nat, newSize: nat, v: nat, k: nat)
    requires v < k <= |sts| && AllArbitrary(sts) && WidenVariants(sts, oldSize, newSize, k).Some?
    ensures WidenVariant(FromLayout(sts[v]), oldSize, newSize).Some?
  {
    if v < k - 1 {
      WidenFails(sts, oldSize, newSize, v, k - 1);
    }
  }

  method WidenTag(sts: seq<Layout>, oldSize: nat, newSize: nat) returns (variants: seq<VariantLayout>)
    requires AllArbitrary(sts) && WidenVariants(sts, oldSize, newSize, |sts|).Some?
    ensures WidenVariants(sts, oldSize, newSize, |sts|) == Some(variants)
  {
    variants := [];
    for v := 0 to |sts|
      invariant WidenVariants(sts, oldSize, newSize, v) == Some(variants)
    {
      WidenFails(sts, oldSize, newSize, v, |sts|);
      var variant := FromLayout(sts[v]);
      var offsets := ToArray(variant.offsets);
      WidenInPlace(offsets, oldSize, newSize);
      variant := variant.(offsets := offsets[..]);
      if variant.size <= oldSize {
        variant := variant.(size := newSize);
      }
      variants := variants + [variant];
    }
  }

  method ComputeTagRange(e: EnumDef, ds: seq<nat>, ity: Integer) returns (range: WrappingRange)
    requires e.Accepted() && ds == e.NecessaryDiscriminants(|e.variants|)
    ensures range == e.TagRange(ity)
  {
    var smallest := SmallestRangeContaining(Tags(ds, ity), ity.Bits());
    range := if smallest.Some? then smallest.value else WrappingRange(0, 0);
  }

  method TaggedLayout(e: EnumDef) returns (r: Result<Layout>)
    requires e.Accepted() && AllVariantsWellFormed(e) && e.repr.pack.None? && DiscriminantsInWidth(e)
    ensures r == e.Tagged() && (r.Panic? <==> TagTooWide(e))
  {
    TaggedIsSound(e);
    ghost var minIty', signed' := MinIntegerIsSome(e);
    TaggedByStructs(e, minIty', signed') by {
      StructsAre(e, e.TagPrefix(minIty'));
    }
    var discrType := e.repr.DiscrType();
    var ds := CollectDiscriminants(e);
    var min, max := DiscriminantRange(ds, discrType.signed, discrType.ToInteger(e.dl).Bits());
    var picked := DiscrRange(e.repr, e.dl, min, max);
    var minIty, signed := picked.value.0, picked.value.1;
    var prefix := PrefixOf(e, minIty);
    var structs, align, maxSize := LayOutVariants(e, prefix);
    if !structs.Ok? {
      return Err(structs.error);
    }
    WidensVariants(e, minIty, structs.value);
    r := TagVariants(e, ds, minIty, signed, structs.value, align, maxSize);
  }

  lemma {:induction false} WidensVariants(e: EnumDef, minIty: Integer, sts: seq<Layout>)
    requires e.Accepted() && AllVariantsWellFormed(e) && e.repr.pack.None?
    requires e.Structs(e.TagPrefix(minIty)) == Ok(sts)
    ensures e.TaggedVariants(minIty, sts).Some?
  {
    TaggedVariantsSound(e, minIty, sts, MaxSize(sts), MaxAlign(sts));
  }

  /** Picks the final tag, and makes room for it where it is wider. */
  method PickTag(e: EnumDef, minIty: Integer, sts: seq<Layout>) returns (ity: Integer, variants: seq<VariantLayout>)
    requires |sts| == |e.variants| && AllArbitrary(sts) && e.TaggedVariants(minIty, sts).Some?
    ensures ity == e.FinalInteger(minIty, sts) && e.TaggedVariants(minIty, sts) == Some(variants)
  {
    ity := minIty;
    if !e.repr.c && e.repr.intType.None? {
      var startAlign := FindStartAlign(e, sts);
      var wanted := ForAlign(e.dl, startAlign);
      ity := if wanted.None? then minIty else Wider(minIty, wanted.value);
    }
    variants := FromLayouts(sts);
    if ity != minIty {
      variants := WidenTag(sts, minIty.Bytes(), ity.Bytes());
    }
  }

  method TagVariants(
      e: EnumDef, ds: seq<nat>, minIty: Integer, signed: bool, sts: seq<Layout>, align: nat, maxSize: nat)
    returns (r: Result<Layout>)
    requires e.Accepted() && |sts| == |e.variants| && AllArbitrary(sts) && ds == e.NecessaryDiscriminants(|e.variants|)
    requires align == Max(e.dl.aggregateAlign, MaxAlign(sts)) && maxSize == MaxSize(sts)
    requires e.TaggedVariants(minIty, sts).Some?
    ensures r == e.TaggedOf(minIty, signed, sts)
  {
    var size := AlignTo(maxSize, align);
    if size >= e.dl.objSizeBound {
      return Err(SizeOverflow);
    }
    if e.repr.DiscrType().ToInteger(e.dl).Log() < minIty.Log() {
      return Panic;
    }
    var ity, variants := PickTag(e, minIty, sts);
    var layout := Assemble(e, ds, ity, signed, sts, variants, size, align);
    return Ok(layout);
  }

  method Assemble(
      e: EnumDef, ds: seq<nat>, ity: Integer, signed: bool, sts: seq<Layout>, variants: seq<VariantLayout>,
      size: nat, align: nat)
    returns (layout: Layout)
    requires e.Accepted() && |sts| == |e.variants| && ds == e.NecessaryDiscriminants(|e.variants|)
    requires align == Max(e.dl.aggregateAlign, MaxAlign(sts)) && size == AlignTo(MaxSize(sts), align)
    ensures layout == e.Assembled(ity, signed, sts, variants)
  {
    var range := ComputeTagRange(e, ds, ity);
    var uninhabited := forall i :: 0 <= i < |sts| ==> sts[i].uninhabited;
    layout := Layout(size, align, FromScalar(0, ity.Bytes(), range), uninhabited, true, Arbitrary([0], [0]),
                     Multiple(Tag(0, ity.Bytes(), range), Direct(signed), variants));
  }

  /** `layout_of_enum`. */
  method EnumLayout(e: EnumDef) returns (r: Result<Layout>)
    requires LaidOutAsEnum(e)
    ensures r == e.Compute() && (r.Panic? <==> EnumPanics(e))
    ensures r.Ok? ==> SoundEnum(e, r.value)
  {
    EnumIsSound(e);
    if e.repr.pack.Some? {
      return Err(ReprConflict);
    }
    var filling := NicheFillingLayout(e);
    r := TaggedLayout(e);
    if r.Ok? && filling.Some? {
      var tagged, niched := r.value, filling.value;
      if tagged.size > niched.size || (tagged.size == niched.size && tagged.NicheSize() < niched.NicheSize()) {
        return Ok(niched);
      }
    }
  }
}
