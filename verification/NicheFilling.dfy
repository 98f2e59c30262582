/** Niche filling never clobbers the niche, and never panics once two variants are present. */
module NicheFilling {
  import opened PowersOfTwo
  import opened Wrappers
  import opened Intervals
  import opened Niches
  import opened Layouts
  import opened Univariant
  import opened Placement
  import opened UnivariantTheorems
  import opened Enums

  ghost predicate AllVariantsWellFormed(e: EnumDef) {
    forall v :: 0 <= v < |e.variants| ==> AllWellFormed(e.variants[v])
  }

  /** The fields of a variant are aligned, inside an enum of the given size and alignment, and
      do not overlap. */
  ghost predicate SoundVariant(fields: seq<Layout>, variant: VariantLayout, size: nat, align: nat) {
    && |variant.offsets| == |fields|
    && (forall f :: 0 <= f < |fields| ==>
          && IsMultiple(variant.offsets[f], fields[f].align)
          && fields[f].align <= align
          && variant.offsets[f] + fields[f].size <= size)
    && (forall f, g :: 0 <= f < g < |fields| ==>
          Apart(variant.offsets[f], fields[f].size, variant.offsets[g], fields[g].size))
  }

  /** No field of the variant overlaps the `len` bytes at `from`. */
  ghost predicate ClearOf(fields: seq<Layout>, variant: VariantLayout, from: nat, len: nat)
    requires |variant.offsets| == |fields|
  {
    forall f :: 0 <= f < |fields| ==> Apart(variant.offsets[f], fields[f].size, from, len)
  }

  /** `niche` is the niche of a field of the variant, where the variant places it. */
  ghost predicate IsFieldNiche(fields: seq<Layout>, variant: VariantLayout, niche: Niche)
    requires |variant.offsets| == |fields|
  {
    exists f :: 0 <= f < |fields| && fields[f].largestNiche.Some?
                && var inner := fields[f].largestNiche.value;
                   niche == inner.(offset := inner.offset + variant.offsets[f])
  }

  // ----- the variants on their own

  lemma {:induction false} StructsAre(e: EnumDef, kind: StructKind)
    requires !kind.MaybeUnsized? && AllVariantsWellFormed(e)
    ensures !e.Structs(kind).Panic?
    ensures e.Structs(kind).Ok? ==>
              forall v :: 0 <= v < |e.variants| ==> e.Alone(kind)[v] == Ok(e.Structs(kind).value[v])
  {
    CollectIsComplete(e.Alone(kind), |e.variants|);
    forall v | 0 <= v < |e.variants|
      ensures !e.Alone(kind)[v].Panic?
    {
      UnivariantIsSound(Struct(e.variants[v], e.repr, kind, e.dl));
    }
  }

  lemma {:induction false} StructIsSound(e: EnumDef, kind: StructKind, v: nat)
    requires !kind.MaybeUnsized? && AllVariantsWellFormed(e) && v < |e.variants|
    requires e.Structs(kind).Ok?
    ensures var st := e.Structs(kind).value[v];
            && SoundStruct(Struct(e.variants[v], e.repr, kind, e.dl), st) && st.WellFormed()
            && st.uninhabited == (exists f :: 0 <= f < |e.variants[v]| && e.variants[v][f].uninhabited)
  {
    StructsAre(e, kind);
    assert e.Alone(kind)[v] == Struct(e.variants[v], e.repr, kind, e.dl).Compute();
    ComputedIsSound(Struct(e.variants[v], e.repr, kind, e.dl), e.Structs(kind).value[v]);
  }

  lemma {:induction false} ComputedIsSound(s: Struct, layout: Layout)
    requires !s.kind.MaybeUnsized? && AllWellFormed(s.fields) && s.Compute() == Ok(layout)
    ensures SoundStruct(s, layout) && layout.WellFormed()
    ensures layout.uninhabited == exists f :: 0 <= f < |s.fields| && s.fields[f].uninhabited
  {
    UnivariantIsSound(s);
    var bias := if s.Compute() == s.Biased(Start) then Start else End;
    BiasedIsUninhabited(s, bias);
  }

  lemma {:induction false} BiasedIsUninhabited(s: Struct, bias: NicheBias)
    requires s.Accepted() && s.Biased(bias).Ok?
    ensures s.Biased(bias).value.uninhabited == exists f :: 0 <= f < |s.fields| && s.fields[f].uninhabited
  {
  }

  ghost predicate NoneInhabited(e: EnumDef) {
    forall v :: 0 <= v < |e.variants| ==> !e.Inhabited(v)
  }

  ghost predicate AllUninhabited(sts: seq<Layout>) {
    forall v :: 0 <= v < |sts| ==> sts[v].uninhabited
  }

  lemma {:induction false} UninhabitedStructs(e: EnumDef, kind: StructKind, sts: seq<Layout>)
    requires !kind.MaybeUnsized? && AllVariantsWellFormed(e) && e.Structs(kind) == Ok(sts)
    ensures AllUninhabited(sts) <==> NoneInhabited(e)
  {
    forall v | 0 <= v < |sts|
      ensures sts[v].uninhabited <==> !e.Inhabited(v)
    {
      StructIsSound(e, kind, v);
    }
  }

  /** A sound, unpacked struct is a sound variant of any larger enum. */
  lemma {:induction false} StructIsVariant(s: Struct, layout: Layout, size: nat, align: nat)
    requires SoundStruct(s, layout) && s.repr.pack.None? && layout.size <= size && layout.align <= align
    ensures SoundVariant(s.fields, FromLayout(layout), size, align)
    ensures forall f :: 0 <= f < |s.fields| ==> s.Initial().offset <= layout.shape.offsets[f]
    ensures forall f :: 0 <= f < |s.fields| ==> layout.shape.offsets[f] + s.fields[f].size <= layout.size
    ensures forall f :: 0 <= f < |s.fields| ==> s.fields[f].align <= layout.align
  {
    var shape := layout.shape;
    forall f | 0 <= f < |s.fields|
      ensures IsMultiple(shape.offsets[f], s.fields[f].align) && s.fields[f].align <= layout.align
      ensures s.Initial().offset <= shape.offsets[f] && shape.offsets[f] + s.fields[f].size <= layout.size
    {
      assert f in shape.order;
      var j :| 0 <= j < |s.fields| && shape.order[j] == f;
      assert IsMultiple(shape.offsets[shape.order[j]], s.EffectiveAlign(f));
    }
    forall f, g | 0 <= f < g < |s.fields|
      ensures Apart(shape.offsets[f], s.fields[f].size, shape.offsets[g], s.fields[g].size)
    {
      SoundFieldsDisjoint(s, layout, f, g);
    }
  }

  // ----- moving the other variants around the niche

  lemma {:induction false} FittedVariants(sts: seq<Layout>, largest: nat, niche: Niche, size: nat, k: nat)
    requires k <= |sts| && AllArbitrary(sts)
    requires FitVariants(sts, largest, niche, size, k).Some?
    ensures var fitted := FitVariants(sts, largest, niche, size, k).value;
            forall v :: 0 <= v < k ==>
              if v == largest then fitted[v] == FromLayout(sts[v])
              else FitVariant(sts[v], niche, size) == Some(fitted[v])
  {
    if k > 0 {
      FittedVariants(sts, largest, niche, size, k - 1);
    }
  }

  lemma {:induction false} FitVariantIsSound(s: Struct, st: Layout, niche: Niche, size: nat, align: nat)
    requires SoundStruct(s, st) && s.repr.pack.None? && st.align <= align && niche.offset <= size
    requires FitVariant(st, niche, size).Some?
    ensures var variant := FitVariant(st, niche, size).value;
            && SoundVariant(s.fields, variant, size, align)
            && ClearOf(s.fields, variant, niche.offset, niche.bytes)
  {
    StructIsVariant(s, st, st.size, align);
    var variant := FitVariant(st, niche, size).value;
    if st.size > niche.offset {
      var shift := AlignTo(niche.offset + niche.bytes, st.align);
      forall f | 0 <= f < |s.fields|
        ensures IsMultiple(variant.offsets[f], s.fields[f].align)
      {
        MultipleWeaken(shift, s.fields[f].align, st.align);
        MultipleAdd(st.shape.offsets[f], shift, s.fields[f].align);
      }
      forall f, g | 0 <= f < g < |s.fields|
        ensures Apart(variant.offsets[f], s.fields[f].size, variant.offsets[g], s.fields[g].size)
      {
        assert Apart(st.shape.offsets[f], s.fields[f].size, st.shape.offsets[g], s.fields[g].size);
      }
    }
  }

  // ----- the whole layout

  /** `niche` is the niche that the tag is stored in: a field of the untagged variant has it,
      the tag's range is the niche's range extended by one reserved word for each variant from
      `nicheFirst` to `nicheLast`, and these include all that need a discriminant. */
  ghost predicate IsTagNiche(e: EnumDef, layout: Layout, niche: Niche)
    requires layout.variants.Multiple? && layout.variants.encoding.NicheEncoding?
    requires layout.variants.encoding.untaggedVariant < |e.variants| == |layout.variants.variants|
  {
    var tag, enc := layout.variants.tag, layout.variants.encoding;
    var untagged := layout.variants.variants[enc.untaggedVariant];
    && niche.Valid() && tag.offset == niche.offset && tag.bytes == niche.bytes
    && |untagged.offsets| == |e.variants[enc.untaggedVariant]|
    && IsFieldNiche(e.variants[enc.untaggedVariant], untagged, niche)
    && enc.nicheFirst <= enc.nicheLast < |e.variants|
    && Reserved(niche, enc.nicheLast - enc.nicheFirst + 1, enc.nicheStart, tag.range)
    && (forall v :: 0 <= v < |e.variants| && e.NeedsDiscriminant(enc.untaggedVariant, v) ==>
          enc.nicheFirst <= v <= enc.nicheLast)
  }

  /** What niche filling promises about the layout it returns. */
  ghost predicate SoundFilling(e: EnumDef, layout: Layout) {
    && layout.WellFormed()
    && layout.variants.Multiple? && layout.variants.encoding.NicheEncoding?
    && var tag, variants := layout.variants.tag, layout.variants.variants;
       var untagged := layout.variants.encoding.untaggedVariant;
       && |variants| == |e.variants| && untagged < |variants|
       && tag.offset + tag.bytes <= layout.size
       && (forall v :: 0 <= v < |variants| ==> SoundVariant(e.variants[v], variants[v], layout.size, layout.align))
       && (forall v :: 0 <= v < |variants| ==> (variants[v].uninhabited <==> !e.Inhabited(v)))
       && (forall v :: 0 <= v < |variants| && v != untagged ==>
             ClearOf(e.variants[v], variants[v], tag.offset, tag.bytes))
       && (exists niche: Niche :: IsTagNiche(e, layout, niche))
       && (layout.uninhabited <==> NoneInhabited(e))
  }

  lemma {:induction false} FillingVariantsSound(
      e: EnumDef, sts: seq<Layout>, largest: nat, niche: Niche, size: nat, align: nat)
    requires AllVariantsWellFormed(e) && e.repr.pack.None?
    requires e.Structs(AlwaysSized) == Ok(sts)
    requires largest < |sts| && sts[largest].size <= size && niche.offset <= size
    requires forall v :: 0 <= v < |sts| ==> sts[v].align <= align
    requires FitVariants(sts, largest, niche, size, |sts|).Some?
    ensures var variants := FitVariants(sts, largest, niche, size, |sts|).value;
            && (forall v :: 0 <= v < |sts| ==> SoundVariant(e.variants[v], variants[v], size, align))
            && (forall v :: 0 <= v < |sts| ==> (variants[v].uninhabited <==> !e.Inhabited(v)))
            && (forall v :: 0 <= v < |sts| && v != largest ==>
                  ClearOf(e.variants[v], variants[v], niche.offset, niche.bytes))
            && variants[largest] == FromLayout(sts[largest])
  {
    var variants := FitVariants(sts, largest, niche, size, |sts|).value;
    FittedVariants(sts, largest, niche, size, |sts|);
    forall v | 0 <= v < |sts|
      ensures SoundVariant(e.variants[v], variants[v], size, align)
      ensures variants[v].uninhabited <==> !e.Inhabited(v)
      ensures v != largest ==> ClearOf(e.variants[v], variants[v], niche.offset, niche.bytes)
    {
      FilledVariantIsSound(e, sts, v, v == largest, niche, size, align, variants[v]);
    }
  }

  lemma {:induction false} FilledVariantIsSound(
      e: EnumDef, sts: seq<Layout>, v: nat, isLargest: bool, niche: Niche, size: nat, align: nat,
      variant: VariantLayout)
    requires AllVariantsWellFormed(e) && e.repr.pack.None? && e.Structs(AlwaysSized) == Ok(sts)
    requires v < |sts| && niche.offset <= size && sts[v].align <= align
    requires if isLargest then sts[v].size <= size && variant == FromLayout(sts[v])
             else FitVariant(sts[v], niche, size) == Some(variant)
    ensures SoundVariant(e.variants[v], variant, size, align) && (variant.uninhabited <==> !e.Inhabited(v))
    ensures !isLargest ==> ClearOf(e.variants[v], variant, niche.offset, niche.bytes)
  {
    StructIsSound(e, AlwaysSized, v);
    var s := Struct(e.variants[v], e.repr, AlwaysSized, e.dl);
    if isLargest {
      StructIsVariant(s, sts[v], size, align);
    } else {
      FitVariantIsSound(s, sts[v], niche, size, align);
    }
  }

  lemma {:induction false} LargestHoldsNiche(e: EnumDef, sts: seq<Layout>, largest: nat)
    requires AllVariantsWellFormed(e) && e.Structs(AlwaysSized) == Ok(sts)
    requires largest < |sts| && sts[largest].largestNiche.Some?
    ensures var niche := sts[largest].largestNiche.value;
            && niche.Valid() && niche.offset + niche.bytes <= sts[largest].size
            && |sts[largest].shape.offsets| == |e.variants[largest]|
            && IsFieldNiche(e.variants[largest], FromLayout(sts[largest]), niche)
  {
    StructIsSound(e, AlwaysSized, largest);
    var s := Struct(e.variants[largest], e.repr, AlwaysSized, e.dl);
    var f: nat :| NicheOfField(s, sts[largest].shape.offsets, sts[largest].largestNiche.value, f)
                  && s.fields[f].NicheSize() == sts[largest].NicheSize();
  }

  /** The niche that is left after a reservation is inside whatever the old one was inside. */
  lemma {:induction false} LeftoverNiche(niche: Niche, count: nat, size: nat)
    requires niche.Valid() && count > 0 && niche.offset + niche.bytes <= size && niche.Reserve(count).Some?
    ensures var left := FromScalar(niche.offset, niche.bytes, niche.Reserve(count).value.1);
            left.Some? ==>
              && left.value.Valid() && left.value.Available() > 0
              && left.value.offset + left.value.bytes <= size
  {
    ReserveContract(niche, count);
  }

  /** The parts of a niche-filled layout. */
  ghost predicate FillingHasParts(
      e: EnumDef, sts: seq<Layout>, layout: Layout, largest: nat, niche: Niche, first: nat, last: nat) {
    && e.variants != [] && |sts| == |e.variants| && AllArbitrary(sts)
    && largest == LargestVariant(sts, |sts|)
    && e.FirstNeeded(largest, 0) == Some(first) && e.LastNeeded(largest, |e.variants|) == Some(last) && first <= last
    && sts[largest].largestNiche == Some(niche) && niche.Reserve(last - first + 1).Some?
    && layout.align == Max(e.dl.aggregateAlign, MaxAlign(sts))
    && layout.size == AlignTo(sts[largest].size, layout.align)
    && (layout.uninhabited <==> AllUninhabited(sts))
    && layout.sized && layout.shape == Arbitrary([niche.offset], [0])
    && var (nicheStart, range) := niche.Reserve(last - first + 1).value;
       && layout.largestNiche == FromScalar(niche.offset, niche.bytes, range)
       && FitVariants(sts, largest, niche, layout.size, |sts|).Some?
       && layout.variants == Multiple(
            Tag(niche.offset, niche.bytes, range),
            NicheEncoding(largest, first, last, nicheStart),
            FitVariants(sts, largest, niche, layout.size, |sts|).value)
  }

  lemma {:induction false} FillingParts(
      e: EnumDef, sts: seq<Layout>) returns (layout: Layout, largest: nat, niche: Niche, first: nat, last: nat)
    requires e.variants != [] && |sts| == |e.variants| && AllArbitrary(sts)
    requires e.NicheFillingOf(sts).Ok? && e.NicheFillingOf(sts).value.Some?
    ensures layout == e.NicheFillingOf(sts).value.value
    ensures FillingHasParts(e, sts, layout, largest, niche, first, last)
  {
    layout := e.NicheFillingOf(sts).value.value;
    largest := LargestVariant(sts, |sts|);
    niche := sts[largest].largestNiche.value;
    first, last := e.FirstNeeded(largest, 0).value, e.LastNeeded(largest, |e.variants|).value;
  }

  // ----- the range of niche variants

  lemma {:induction false} FirstNeededIsFirst(e: EnumDef, largest: nat, i: nat)
    requires i <= |e.variants|
    ensures var r := e.FirstNeeded(largest, i);
            && (r.Some? ==> e.NeedsDiscriminant(largest, r.value))
            && (forall v :: i <= v < |e.variants| && e.NeedsDiscriminant(largest, v) ==> r.Some? && r.value <= v)
    decreases |e.variants| - i
  {
    if i < |e.variants| {
      FirstNeededIsFirst(e, largest, i + 1);
    }
  }

  lemma {:induction false} LastNeededIsLast(e: EnumDef, largest: nat, i: nat)
    requires i <= |e.variants|
    ensures var r := e.LastNeeded(largest, i);
            && (r.Some? ==> e.NeedsDiscriminant(largest, r.value))
            && (forall v :: 0 <= v < i && e.NeedsDiscriminant(largest, v) ==> r.Some? && v <= r.value)
  {
    if i > 0 {
      LastNeededIsLast(e, largest, i - 1);
    }
  }

  // ----- the sound layout

  lemma {:induction false} TagNicheOfFilling(e: EnumDef, layout: Layout, niche: Niche, first: nat, last: nat)
    requires layout.variants.Multiple? && layout.variants.encoding.NicheEncoding?
    requires var tag, enc := layout.variants.tag, layout.variants.encoding;
             && enc.untaggedVariant < |e.variants| == |layout.variants.variants|
             && enc.nicheFirst == first <= last == enc.nicheLast
             && e.FirstNeeded(enc.untaggedVariant, 0) == Some(first)
             && e.LastNeeded(enc.untaggedVariant, |e.variants|) == Some(last)
             && niche.Valid() && tag.offset == niche.offset && tag.bytes == niche.bytes
             && niche.Reserve(last - first + 1) == Some((enc.nicheStart, tag.range))
             && |layout.variants.variants[enc.untaggedVariant].offsets| == |e.variants[enc.untaggedVariant]|
             && IsFieldNiche(e.variants[enc.untaggedVariant], layout.variants.variants[enc.untaggedVariant], niche)
    ensures IsTagNiche(e, layout, niche)
  {
    ReserveContract(niche, last - first + 1);
    FirstNeededIsFirst(e, layout.variants.encoding.untaggedVariant, 0);
    LastNeededIsLast(e, layout.variants.encoding.untaggedVariant, |e.variants|);
  }

  lemma {:induction false} SoundFromParts(
      e: EnumDef, sts: seq<Layout>, layout: Layout, largest: nat, niche: Niche, first: nat, last: nat)
    requires AllVariantsWellFormed(e) && e.repr.pack.None? && e.Structs(AlwaysSized) == Ok(sts)
    requires FillingHasParts(e, sts, layout, largest, niche, first, last)
    ensures SoundFilling(e, layout)
  {
    LargestHoldsNiche(e, sts, largest);
    FillingVariantsSound(e, sts, largest, niche, layout.size, layout.align);
    LeftoverNiche(niche, last - first + 1, layout.size);
    TagNicheOfFilling(e, layout, niche, first, last);
    UninhabitedStructs(e, AlwaysSized, sts);
  }

  lemma {:induction false} FillingOfIsSound(e: EnumDef, sts: seq<Layout>)
    requires AllVariantsWellFormed(e) && e.repr.pack.None? && e.variants != []
    requires e.Structs(AlwaysSized) == Ok(sts)
    requires e.NicheFillingOf(sts).Ok? && e.NicheFillingOf(sts).value.Some?
    ensures SoundFilling(e, e.NicheFillingOf(sts).value.value)
  {
    var layout, largest, niche, first, last := FillingParts(e, sts);
    SoundFromParts(e, sts, layout, largest, niche, first, last);
  }

  /** A niche-filled layout is well-formed; no field of a variant other than the largest
      touches the niche, and the niche is one of the largest variant's fields' own. */
  lemma {:induction false} NicheFillingIsSound(e: EnumDef)
    requires AllVariantsWellFormed(e) && e.repr.pack.None?
    requires e.NicheFilling().Ok? && e.NicheFilling().value.Some?
    ensures SoundFilling(e, e.NicheFilling().value.value)
  {
    FillingOfIsSound(e, e.Structs(AlwaysSized).value);
  }

  /** Niche filling costs no space: no smaller multiple of the alignment holds the variants on
      their own, without any tag. */
  lemma {:induction false} FillingIsLeast(e: EnumDef, sts: seq<Layout>, size: nat)
    requires e.variants != [] && e.Structs(AlwaysSized) == Ok(sts)
    requires e.NicheFilling().Ok? && e.NicheFilling().value.Some?
    requires IsMultiple(size, e.NicheFilling().value.value.align) && forall v :: 0 <= v < |sts| ==> sts[v].size <= size
    ensures e.NicheFilling().value.value.size <= size
  {
    var layout, largest, _, _, _ := FillingParts(e, sts);
    AlignToLeast(sts[largest].size, layout.align, size);
  }

  /** A variant is no larger than any arrangement of its fields. */
  lemma {:induction false} VariantIsOptimal(
      e: EnumDef, kind: StructKind, sts: seq<Layout>, v: nat, align: nat, offsets: seq<nat>, from: nat, size: nat)
    requires !kind.MaybeUnsized? && AllVariantsWellFormed(e) && !e.repr.InhibitStructFieldReordering()
    requires e.Structs(kind) == Ok(sts) && v < |sts| && sts[v].align <= align && IsMultiple(size, align)
    requires from == Struct(e.variants[v], e.repr, kind, e.dl).Initial().offset
    requires Arrangement(e.variants[v], offsets, from, size)
    ensures sts[v].size <= size
  {
    StructsAre(e, kind);
    assert e.Alone(kind)[v] == Struct(e.variants[v], e.repr, kind, e.dl).Compute();
    MultipleWeaken(size, sts[v].align, align);
    UnivariantIsOptimal(Struct(e.variants[v], e.repr, kind, e.dl), offsets, size);
  }

  /** When fields may be reordered, nothing beats niche filling: the largest variant alone, however
      its fields are arranged, needs a size that is at least the enum's. */
  lemma {:induction false} FillingIsOptimal(e: EnumDef, sts: seq<Layout>, offsets: seq<seq<nat>>, size: nat)
    requires e.variants != [] && AllVariantsWellFormed(e) && !e.repr.InhibitStructFieldReordering()
    requires e.NicheFilling().Ok? && e.NicheFilling().value.Some? && e.Structs(AlwaysSized) == Ok(sts)
    requires IsMultiple(size, e.NicheFilling().value.value.align) && |offsets| == |e.variants|
    requires var largest := LargestVariant(sts, |sts|);
             Arrangement(e.variants[largest], offsets[largest], 0, size)
    ensures e.NicheFilling().value.value.size <= size
  {
    var layout, largest, _, _, _ := FillingParts(e, sts);
    VariantIsOptimal(e, AlwaysSized, sts, largest, layout.align, offsets[largest], 0, size);
    AlignToLeast(sts[largest].size, layout.align, size);
  }

  /** At least two variants are present, as the callers of `layout_of_enum` see to. */
  ghost predicate TwoPresent(e: EnumDef) {
    exists v, w :: 0 <= v < w < |e.variants| && !Absent(e.variants[v]) && !Absent(e.variants[w])
  }

  /** Once two variants are present, the `unwrap`s of niche filling cannot fail. */
  lemma {:induction false} NicheFillingNeverPanics(e: EnumDef)
    requires AllVariantsWellFormed(e) && (e.repr.InhibitEnumLayoutOpt() || TwoPresent(e))
    ensures e.NicheFilling().Ok?
  {
    StructsAre(e, AlwaysSized);
    if !e.repr.InhibitEnumLayoutOpt() && e.Structs(AlwaysSized).Ok? {
      var sts := e.Structs(AlwaysSized).value;
      OthersAreNeeded(e, LargestVariant(sts, |sts|));
      NeededRangeSuffices(e, sts);
    }
  }

  lemma {:induction false} OthersAreNeeded(e: EnumDef, largest: nat)
    requires TwoPresent(e)
    ensures var first, last := e.FirstNeeded(largest, 0), e.LastNeeded(largest, |e.variants|);
            first.Some? && last.Some? && first.value <= last.value
  {
    var v, w :| 0 <= v < w < |e.variants| && !Absent(e.variants[v]) && !Absent(e.variants[w]);
    assert e.NeedsDiscriminant(largest, if v == largest then w else v);
    FirstNeededIsFirst(e, largest, 0);
    LastNeededIsLast(e, largest, |e.variants|);
  }

  lemma {:induction false} NeededRangeSuffices(e: EnumDef, sts: seq<Layout>)
    requires |sts| == |e.variants| > 0 && AllArbitrary(sts)
    requires var largest := LargestVariant(sts, |sts|);
             var first, last := e.FirstNeeded(largest, 0), e.LastNeeded(largest, |e.variants|);
             first.Some? && last.Some? && first.value <= last.value
    ensures e.NicheFillingOf(sts).Ok?
  {
  }
}
