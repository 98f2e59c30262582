/** When niche filling succeeds, and what it then returns, said of the variants' own layouts
    (`calculate_niche_filling_layout` in compiler/rustc_abi/src/layout.rs).
 */
module FillingSucceeds {
  import opened PowersOfTwo
  import opened Wrappers
  import opened Niches
  import opened Layouts
  import opened Univariant
  import opened Enums
  import opened NicheFilling

  /** The variants' own layouts, as structs that are always sized. */
  ghost predicate LaidOutAlone(e: EnumDef, sts: seq<Layout>) {
    && |sts| == |e.variants|
    && forall v :: 0 <= v < |sts| ==> Struct(e.variants[v], e.repr, AlwaysSized, e.dl).Compute() == Ok(sts[v])
  }

  /** The last of the largest variants. */
  predicate IsLargest(sts: seq<Layout>, largest: nat) {
    && largest < |sts|
    && (forall v :: 0 <= v < |sts| ==> sts[v].size <= sts[largest].size)
    && (forall v :: largest < v < |sts| ==> sts[v].size < sts[largest].size)
  }

  /** Some field is uninhabited and all of them are sized, without size and unaligned. */
  predicate CannotBe(fields: seq<Layout>) {
    && (exists f :: 0 <= f < |fields| && fields[f].uninhabited)
    && (forall f :: 0 <= f < |fields| ==> fields[f].sized && fields[f].size == 0 && fields[f].align == 0)
  }

  /** The first and the last variant besides the largest that there can be values of. */
  predicate AreOuterNeeded(e: EnumDef, largest: nat, first: nat, last: nat) {
    && first < |e.variants| && last < |e.variants|
    && first != largest && !CannotBe(e.variants[first]) && last != largest && !CannotBe(e.variants[last])
    && forall v :: 0 <= v < |e.variants| && v != largest && !CannotBe(e.variants[v]) ==> first <= v <= last
  }

  /** The least alignment that suits the variants and the target's aggregates. */
  predicate IsEnumAlign(e: EnumDef, sts: seq<Layout>, align: nat) {
    && e.dl.aggregateAlign <= align && (forall v :: 0 <= v < |sts| ==> sts[v].align <= align)
    && (align == e.dl.aggregateAlign || exists v :: 0 <= v < |sts| && sts[v].align == align)
  }

  /** The variant ends at or before the niche, or some aligned place at or behind the niche's end
      leaves it inside the enum. */
  ghost predicate Fits(st: Layout, niche: Niche, size: nat) {
    || st.size <= niche.offset
    || exists at: nat :: IsMultiple(at, st.align) && niche.offset + niche.bytes <= at && at + st.size <= size
  }

  /** The largest variant has a niche with enough free words, and the others fit around it. */
  ghost predicate CanFill(e: EnumDef, sts: seq<Layout>, largest: nat, first: nat, last: nat, align: nat) {
    && |sts| == |e.variants| && IsLargest(sts, largest) && IsEnumAlign(e, sts, align)
    && AreOuterNeeded(e, largest, first, last)
    && sts[largest].largestNiche.Some?
    && var niche := sts[largest].largestNiche.value;
       && last - first + 1 <= niche.Available()
       && forall v :: 0 <= v < |sts| && v != largest ==> Fits(sts[v], niche, AlignTo(sts[largest].size, align))
  }

  /** The variant `st` moved by `at`, its niche given up. */
  predicate IsMovedBy(st: Layout, variant: VariantLayout, at: nat) {
    && st.shape.Arbitrary?
    && variant.size == st.size + at && variant.order == st.shape.order
    && variant.largestNiche.None? && variant.uninhabited == st.uninhabited
    && |variant.offsets| == |st.shape.offsets|
    && forall f :: 0 <= f < |variant.offsets| ==> variant.offsets[f] == st.shape.offsets[f] + at
  }

  /** A variant that ends before the niche stays; any other moves to the first place behind it. */
  ghost predicate IsPlaced(st: Layout, niche: Niche, variant: VariantLayout) {
    if st.size <= niche.offset then IsMovedBy(st, variant, 0)
    else
      exists at: nat :: IsMovedBy(st, variant, at) && IsMultiple(at, st.align) && niche.offset + niche.bytes <= at
                        && forall b: nat :: IsMultiple(b, st.align) && niche.offset + niche.bytes <= b ==> at <= b
  }

  /** The tag is the niche, with the words for the variants from `first` to `last` reserved; the words
      that are left are the niche of the enum. */
  predicate IsTaggedByNiche(layout: Layout, niche: Niche, largest: nat, first: nat, last: nat) {
    && first <= last && layout.shape == Arbitrary([niche.offset], [0]) && layout.variants.Multiple?
    && layout.variants.encoding.NicheEncoding?
    && var Multiple(tag, encoding, _) := layout.variants;
    && tag.offset == niche.offset && tag.bytes == niche.bytes
    && encoding.untaggedVariant == largest && encoding.nicheFirst == first && encoding.nicheLast == last
    && niche.Reserve(last - first + 1) == Some((encoding.nicheStart, tag.range))
    && layout.largestNiche
       == if last - first + 1 == niche.Available() then None else Some(Niche(niche.offset, niche.bytes, tag.range))
  }

  /** The largest variant is left as it is, and the others make way for the niche. */
  ghost predicate AreAround(sts: seq<Layout>, largest: nat, niche: Niche, variants: seq<VariantLayout>) {
    && |variants| == |sts| && largest < |sts|
    && (forall v :: 0 <= v < |sts| && v != largest ==> IsPlaced(sts[v], niche, variants[v]))
    && sts[largest].shape == Arbitrary(variants[largest].offsets, variants[largest].order)
    && variants[largest].size == sts[largest].size
    && variants[largest].largestNiche == sts[largest].largestNiche
    && variants[largest].uninhabited == sts[largest].uninhabited
  }

  /** The layout with the discriminant in the niche of the largest variant. */
  ghost predicate IsFilled(
    e: EnumDef, sts: seq<Layout>, largest: nat, first: nat, last: nat, align: nat, layout: Layout)
  {
    && CanFill(e, sts, largest, first, last, align)
    && layout.align == align && layout.sized
    && IsMultiple(layout.size, align) && sts[largest].size <= layout.size < sts[largest].size + Pow2(align)
    && IsTaggedByNiche(layout, sts[largest].largestNiche.value, largest, first, last)
    && AreAround(sts, largest, sts[largest].largestNiche.value, layout.variants.variants)
  }

  // ----- the parts

  lemma {:induction false} AloneAreStructs(e: EnumDef, sts: seq<Layout>)
    ensures LaidOutAlone(e, sts) <==> e.Structs(AlwaysSized) == Ok(sts)
  {
    var rs := e.Alone(AlwaysSized);
    CollectIsComplete(rs, |rs|);
    if LaidOutAlone(e, sts) {
      assert forall v :: 0 <= v < |rs| ==> rs[v] == Ok(sts[v]);
      assert e.Structs(AlwaysSized).value == sts;
    }
    if e.Structs(AlwaysSized) == Ok(sts) {
      forall v | 0 <= v < |sts|
        ensures Struct(e.variants[v], e.repr, AlwaysSized, e.dl).Compute() == Ok(sts[v])
      {
        assert rs[v] == Ok(sts[v]);
      }
    }
  }

  lemma {:induction false} LargestIsUnique(sts: seq<Layout>, largest: nat)
    requires sts != []
    ensures IsLargest(sts, largest) <==> largest == LargestVariant(sts, |sts|)
  {
  }

  lemma {:induction false} MaxAlignIsAttained(sts: seq<Layout>)
    ensures MaxAlign(sts) == 0 || exists v :: 0 <= v < |sts| && sts[v].align == MaxAlign(sts)
  {
    if sts != [] && MaxAlign(sts) != 0 {
      MaxAlignIsAttained(sts[1..]);
      if sts[0].align != MaxAlign(sts) {
        var v :| 0 <= v < |sts[1..]| && sts[1..][v].align == MaxAlign(sts[1..]);
        assert sts[v + 1].align == MaxAlign(sts);
      }
    }
  }

  lemma {:induction false} EnumAlignIsUnique(e: EnumDef, sts: seq<Layout>, align: nat)
    ensures IsEnumAlign(e, sts, align) <==> align == Max(e.dl.aggregateAlign, MaxAlign(sts))
  {
    MaxAlignIsAttained(sts);
  }

  lemma {:induction false} NeededAreNeeded(e: EnumDef, largest: nat, v: nat)
    requires v < |e.variants|
    ensures e.NeedsDiscriminant(largest, v) <==> v != largest && !CannotBe(e.variants[v])
  {
  }

  lemma {:induction false} OuterNeededAre(e: EnumDef, largest: nat, first: nat, last: nat)
    ensures AreOuterNeeded(e, largest, first, last) <==>
              e.FirstNeeded(largest, 0) == Some(first) && e.LastNeeded(largest, |e.variants|) == Some(last)
  {
    FirstNeededIsFirst(e, largest, 0);
    LastNeededIsLast(e, largest, |e.variants|);
    forall v | 0 <= v < |e.variants|
      ensures e.NeedsDiscriminant(largest, v) <==> v != largest && !CannotBe(e.variants[v])
    {
      NeededAreNeeded(e, largest, v);
    }
  }

  /** A variant is placed whenever there is a place for it. */
  lemma {:induction false} FitsIsFound(st: Layout, niche: Niche, size: nat)
    requires st.shape.Arbitrary?
    ensures FitVariant(st, niche, size).Some? <==> Fits(st, niche, size)
    ensures FitVariant(st, niche, size).Some? ==> IsPlaced(st, niche, FitVariant(st, niche, size).value)
  {
    var behind := AlignTo(niche.offset + niche.bytes, st.align);
    forall at: nat | IsMultiple(at, st.align) && niche.offset + niche.bytes <= at
      ensures behind <= at
    {
      AlignToLeast(niche.offset + niche.bytes, st.align, at);
    }
    if FitVariant(st, niche, size).Some? && st.size > niche.offset {
      assert IsMovedBy(st, FitVariant(st, niche, size).value, behind);
    }
  }

  lemma {:induction false} AllAreFound(sts: seq<Layout>, largest: nat, niche: Niche, size: nat, k: nat)
    requires k <= |sts| && AllArbitrary(sts)
    ensures FitVariants(sts, largest, niche, size, k).Some? <==>
              forall v :: 0 <= v < k && v != largest ==> Fits(sts[v], niche, size)
  {
    if k > 0 {
      AllAreFound(sts, largest, niche, size, k - 1);
      FitsIsFound(sts[k - 1], niche, size);
    }
  }

  // ----- success

  lemma {:induction false} FillsFrom(e: EnumDef, sts: seq<Layout>, largest: nat, first: nat, last: nat, align: nat)
    requires |sts| == |e.variants| > 0 && AllArbitrary(sts) && forall v :: 0 <= v < |sts| ==> sts[v].WellFormed()
    requires CanFill(e, sts, largest, first, last, align)
    ensures e.NicheFillingOf(sts).Ok? && e.NicheFillingOf(sts).value.Some?
  {
    LargestIsUnique(sts, largest);
    EnumAlignIsUnique(e, sts, align);
    OuterNeededAre(e, largest, first, last);
    var niche := sts[largest].largestNiche.value;
    ReserveContract(niche, last - first + 1);
    AllAreFound(sts, largest, niche, AlignTo(sts[largest].size, align), |sts|);
  }

  lemma {:induction false} PartsCanFill(
    e: EnumDef, sts: seq<Layout>, layout: Layout, largest: nat, niche: Niche, first: nat, last: nat)
    requires FillingHasParts(e, sts, layout, largest, niche, first, last) && sts[largest].WellFormed()
    ensures CanFill(e, sts, largest, first, last, layout.align)
  {
    LargestIsUnique(sts, largest);
    EnumAlignIsUnique(e, sts, layout.align);
    OuterNeededAre(e, largest, first, last);
    ReserveContract(niche, last - first + 1);
    AllAreFound(sts, largest, niche, layout.size, |sts|);
  }

  lemma {:induction false} PartsAreTagged(
    e: EnumDef, sts: seq<Layout>, layout: Layout, largest: nat, niche: Niche, first: nat, last: nat)
    requires FillingHasParts(e, sts, layout, largest, niche, first, last) && niche.Valid()
    ensures IsTaggedByNiche(layout, niche, largest, first, last)
  {
    ReserveContract(niche, last - first + 1);
  }

  lemma {:induction false} PartsAreAround(
    e: EnumDef, sts: seq<Layout>, layout: Layout, largest: nat, niche: Niche, first: nat, last: nat)
    requires FillingHasParts(e, sts, layout, largest, niche, first, last)
    ensures AreAround(sts, largest, niche, layout.variants.variants)
  {
    var variants := layout.variants.variants;
    FittedVariants(sts, largest, niche, layout.size, |sts|);
    forall v | 0 <= v < |sts| && v != largest
      ensures IsPlaced(sts[v], niche, variants[v])
    {
      FitsIsFound(sts[v], niche, layout.size);
    }
  }

  lemma {:induction false} FilledIs(e: EnumDef, sts: seq<Layout>)
    returns (largest: nat, first: nat, last: nat, align: nat)
    requires |sts| == |e.variants| > 0 && AllArbitrary(sts) && forall v :: 0 <= v < |sts| ==> sts[v].WellFormed()
    requires e.NicheFillingOf(sts).Ok? && e.NicheFillingOf(sts).value.Some?
    ensures IsFilled(e, sts, largest, first, last, align, e.NicheFillingOf(sts).value.value)
  {
    var layout, m, niche, f, l := FillingParts(e, sts);
    largest, first, last, align := m, f, l, layout.align;
    PartsCanFill(e, sts, layout, largest, niche, first, last);
    PartsAreTagged(e, sts, layout, largest, niche, first, last);
    PartsAreAround(e, sts, layout, largest, niche, first, last);
  }

  /** Optimization is allowed, there are at least two variants, and they lay out and can be filled. */
  ghost predicate Fillable(e: EnumDef) {
    && !e.repr.c && e.repr.intType.None? && |e.variants| >= 2
    && exists sts, largest, first, last, align ::
         LaidOutAlone(e, sts) && CanFill(e, sts, largest, first, last, align)
  }

  lemma {:induction false} FillableFills(e: EnumDef)
    requires AllVariantsWellFormed(e) && Fillable(e)
    ensures e.NicheFilling().Ok? && e.NicheFilling().value.Some?
  {
    var sts, largest, first, last, align :|
      LaidOutAlone(e, sts) && CanFill(e, sts, largest, first, last, align);
    AloneAreWellFormed(e, sts);
    FillingOfStructs(e, sts);
    FillsFrom(e, sts, largest, first, last, align);
  }

  lemma {:induction false} FillingOfStructs(e: EnumDef, sts: seq<Layout>)
    requires !e.repr.c && e.repr.intType.None? && |e.variants| >= 2 && e.Structs(AlwaysSized) == Ok(sts)
    ensures e.NicheFilling() == e.NicheFillingOf(sts)
  {
  }

  /** Niche filling succeeds exactly when layout optimization is allowed, there are at least two
      variants, all of them lay out, the largest has a niche with at least as many free words as the
      range of the variants that need one, and every other variant fits before or behind it. */
  lemma {:induction false} FillsExactlyWhen(e: EnumDef)
    requires AllVariantsWellFormed(e)
    ensures e.NicheFilling().Ok? && e.NicheFilling().value.Some? <==> Fillable(e)
  {
    if e.NicheFilling().Ok? && e.NicheFilling().value.Some? {
      var sts, largest, first, last, align := FillingIs(e);
    } else if Fillable(e) {
      FillableFills(e);
    }
  }

  lemma {:induction false} AloneAreWellFormed(e: EnumDef, sts: seq<Layout>)
    requires AllVariantsWellFormed(e) && LaidOutAlone(e, sts)
    ensures e.Structs(AlwaysSized) == Ok(sts) && forall v :: 0 <= v < |sts| ==> sts[v].WellFormed()
  {
    AloneAreStructs(e, sts);
    forall v | 0 <= v < |sts|
      ensures sts[v].WellFormed()
    {
      StructIsSound(e, AlwaysSized, v);
    }
  }

  /** What it then returns: the discriminant in the niche of the last of the largest variants, which
      stays as it is; the others at the first place behind the niche, or where they were. */
  lemma {:induction false} FillingIs(e: EnumDef)
    returns (sts: seq<Layout>, largest: nat, first: nat, last: nat, align: nat)
    requires AllVariantsWellFormed(e) && e.NicheFilling().Ok? && e.NicheFilling().value.Some?
    ensures LaidOutAlone(e, sts) && IsFilled(e, sts, largest, first, last, align, e.NicheFilling().value.value)
    ensures !e.repr.c && e.repr.intType.None? && |e.variants| >= 2
  {
    sts := e.Structs(AlwaysSized).value;
    AloneAreStructs(e, sts);
    AloneAreWellFormed(e, sts);
    largest, first, last, align := FilledIs(e, sts);
  }
}
