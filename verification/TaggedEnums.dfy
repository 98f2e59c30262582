/** The tagged layout of an enum is sound, also after its tag has been widened. */
module TaggedEnums {
  import opened PowersOfTwo
  import opened Wrappers
  import opened Intervals
  import opened WrappingRanges
  import opened SmallestRange
  import opened Niches
  import opened Layouts
  import opened Univariant
  import opened Placement
  import opened UnivariantTheorems
  import opened Discriminants
  import opened Enums
  import opened NicheFilling

  // ----- the first immovable field

  lemma {:induction false} FirstImmovableAt(fields: seq<Layout>, order: seq<nat>, j: nat) returns (p: nat)
    requires j <= |order| && forall i :: 0 <= i < |order| ==> order[i] < |fields|
    ensures j <= p <= |order|
    ensures forall i :: j <= i < p ==> fields[order[i]].Is1Zst()
    ensures p < |order| ==> FirstImmovable(fields, order, j) == Some(order[p]) && !fields[order[p]].Is1Zst()
    ensures p == |order| ==> FirstImmovable(fields, order, j).None?
    decreases |order| - j
  {
    if j == |order| || !fields[order[j]].Is1Zst() {
      p := j;
    } else {
      p := FirstImmovableAt(fields, order, j + 1);
    }
  }

  /** A field that cannot be moved starts at or behind any tag as wide as the least alignment
      of such a field. */
  lemma {:induction false} ImmovableStartsBehind(s: Struct, st: Layout, log: nat, f: nat)
    requires SoundStruct(s, st) && s.repr.pack.None? && s.Initial().offset > 0
    requires var first := FirstImmovable(s.fields, st.shape.order, 0);
             first.Some? ==> log <= s.fields[first.value].align
    requires f < |s.fields| && !s.fields[f].Is1Zst()
    ensures Pow2(log) <= st.shape.offsets[f]
  {
    var order, offsets := st.shape.order, st.shape.offsets;
    var p := FirstImmovableAt(s.fields, order, 0);
    assert f in order;
    var j :| 0 <= j < |order| && order[j] == f;
    var g := order[p];
    assert IsMultiple(offsets[order[p]], s.EffectiveAlign(g));
    ProductIsMultiple(0, s.fields[g].align);
    MultiplesApart(0, offsets[g], s.fields[g].align);
    Pow2Monotone(log, s.fields[g].align);
    if p < j {
      assert offsets[order[p]] + s.fields[order[p]].size <= offsets[order[j]];
    }
  }

  /** Widening a tag from `oldSize` to `2^log` bytes: the assertion about moved offsets holds,
      only 1-ZSTs move, and afterwards the variant is sound and clear of the tag. */
  lemma {:induction false} WidenVariantIsSound(s: Struct, st: Layout, oldSize: nat, log: nat, size: nat, align: nat)
    requires SoundStruct(s, st) && s.repr.pack.None? && st.size <= size && st.align <= align
    requires 0 < oldSize <= s.Initial().offset && oldSize < Pow2(log) <= size
    requires var first := FirstImmovable(s.fields, st.shape.order, 0);
             first.Some? ==> log <= s.fields[first.value].align
    ensures WidenVariant(FromLayout(st), oldSize, Pow2(log)).Some?
    ensures var widened := WidenVariant(FromLayout(st), oldSize, Pow2(log)).value;
            && SoundVariant(s.fields, widened, size, align)
            && ClearOf(s.fields, widened, 0, Pow2(log))
            && (forall f :: 0 <= f < |s.fields| && !s.fields[f].Is1Zst() ==>
                  widened.offsets[f] == st.shape.offsets[f] >= Pow2(log))
  {
    var offsets := st.shape.offsets;
    StructIsVariant(s, st, size, align);
    var widened := WidenVariant(FromLayout(st), oldSize, Pow2(log)).value;
    forall f | 0 <= f < |s.fields|
      ensures IsMultiple(widened.offsets[f], s.fields[f].align)
      ensures widened.offsets[f] == offsets[f] || s.fields[f].Is1Zst()
      ensures !s.fields[f].Is1Zst() ==> Pow2(log) <= offsets[f]
      ensures widened.offsets[f] + s.fields[f].size <= size
    {
      if !s.fields[f].Is1Zst() {
        ImmovableStartsBehind(s, st, log, f);
      } else {
        Pow2IsMultiple(0, log);
      }
    }
    forall f, g | 0 <= f < g < |s.fields|
      ensures Apart(widened.offsets[f], s.fields[f].size, widened.offsets[g], s.fields[g].size)
    {
      assert Apart(offsets[f], s.fields[f].size, offsets[g], s.fields[g].size);
    }
  }

  // ----- the width of the final tag

  lemma {:induction false} StartAlignIsLeast(e: EnumDef, sts: seq<Layout>, k: nat)
    requires |sts| == |e.variants| && k <= |sts| && AllArbitrary(sts)
    ensures e.StartAlign(sts, k) <= 8
    ensures forall v :: 0 <= v < k ==>
              var first := FirstImmovable(e.variants[v], sts[v].shape.order, 0);
              first.Some? ==> e.StartAlign(sts, k) <= e.variants[v][first.value].align
    ensures e.StartAlign(sts, k) < 8 ==>
              exists v :: 0 <= v < k
                          && var first := FirstImmovable(e.variants[v], sts[v].shape.order, 0);
                             first.Some? && e.variants[v][first.value].align == e.StartAlign(sts, k)
  {
    if k > 0 {
      StartAlignIsLeast(e, sts, k - 1);
    }
  }

  lemma {:induction false} TaggedStruct(e: EnumDef, minIty: Integer, sts: seq<Layout>, v: nat)
    requires AllVariantsWellFormed(e) && e.repr.pack.None? && v < |e.variants|
    requires e.Structs(e.TagPrefix(minIty)) == Ok(sts)
    ensures var s := Struct(e.variants[v], e.repr, e.TagPrefix(minIty), e.dl);
            && SoundStruct(s, sts[v])
            && s.Initial().offset >= minIty.Bytes()
            && sts[v].size >= minIty.Bytes()
            && sts[v].align >= minIty.Align(e.dl)
  {
    StructIsSound(e, e.TagPrefix(minIty), v);
    StructsAre(e, e.TagPrefix(minIty));
    TaggedStructAlone(e, minIty, v, sts[v]);
  }

  lemma {:induction false} TaggedStructAlone(e: EnumDef, minIty: Integer, v: nat, st: Layout)
    requires AllVariantsWellFormed(e) && e.repr.pack.None? && v < |e.variants|
    requires e.Alone(e.TagPrefix(minIty))[v] == Ok(st)
    requires SoundStruct(Struct(e.variants[v], e.repr, e.TagPrefix(minIty), e.dl), st)
    ensures Struct(e.variants[v], e.repr, e.TagPrefix(minIty), e.dl).Initial().offset >= minIty.Bytes()
    ensures st.size >= minIty.Bytes() && st.align >= minIty.Align(e.dl)
  {
    StructEndsBehindPrefix(Struct(e.variants[v], e.repr, e.TagPrefix(minIty), e.dl));
  }

  lemma {:induction false} StructEndsBehindPrefix(s: Struct)
    requires s.kind.Prefixed? && AllWellFormed(s.fields) && s.Compute().Ok?
    ensures s.Compute().value.size >= s.Initial().offset
  {
    UnivariantIsSound(s);
    var bias := if s.Compute() == s.Biased(Start) then Start else End;
    BiasedEndsBehindPrefix(s, bias);
  }

  lemma {:induction false} BiasedEndsBehindPrefix(s: Struct, bias: NicheBias)
    requires s.Accepted() && s.Biased(bias).Ok?
    ensures s.Biased(bias).value.size >= s.Initial().offset
  {
    OrderIsPermutation(s, bias);
    OffsetGrows(s, s.Order(bias), bias, |s.fields|);
  }

  lemma {:induction false} OffsetGrows(s: Struct, order: seq<nat>, bias: NicheBias, k: nat)
    requires k <= |order| && forall j :: 0 <= j < |order| ==> order[j] < |s.fields|
    requires s.PlaceUpTo(order, bias, k).Ok?
    ensures s.PlaceUpTo(order, bias, k).value.offset >= s.Initial().offset
  {
    if k > 0 {
      OffsetGrows(s, order, bias, k - 1);
    }
  }

  /** The final tag fits inside the enum and the enum is aligned for it. */
  lemma {:induction false} FinalTagFits(e: EnumDef, minIty: Integer, sts: seq<Layout>, size: nat, align: nat)
    requires AllVariantsWellFormed(e) && e.repr.pack.None? && e.variants != []
    requires e.Structs(e.TagPrefix(minIty)) == Ok(sts)
    requires forall v :: 0 <= v < |sts| ==> sts[v].size <= size && sts[v].align <= align
    ensures var ity := e.FinalInteger(minIty, sts);
            && ity.Bytes() <= size && ity.Align(e.dl) <= align && minIty.Log() <= ity.Log()
            && (ity != minIty ==>
                  && minIty.Bytes() < ity.Bytes() && ity.Log() == ity.Align(e.dl) == e.StartAlign(sts, |sts|))
  {
    if e.FinalInteger(minIty, sts) == minIty {
      TaggedStruct(e, minIty, sts, 0);
    } else {
      var v, f := FirstToMove(e, minIty, sts);
      ImmovableInside(e, minIty, sts, v, f);
      Pow2Monotone(minIty.Log(), e.FinalInteger(minIty, sts).Log());
    }
  }

  /** A wider tag takes its size from the first immovable field of some variant. */
  lemma {:induction false} FirstToMove(e: EnumDef, minIty: Integer, sts: seq<Layout>) returns (v: nat, f: nat)
    requires |sts| == |e.variants| && AllArbitrary(sts) && e.FinalInteger(minIty, sts) != minIty
    ensures v < |sts| && FirstImmovable(e.variants[v], sts[v].shape.order, 0) == Some(f)
    ensures f < |e.variants[v]| && e.variants[v][f].align == e.StartAlign(sts, |sts|)
    ensures var ity := e.FinalInteger(minIty, sts);
            ity.Log() == ity.Align(e.dl) == e.StartAlign(sts, |sts|) && minIty.Log() < ity.Log()
  {
    StartAlignIsLeast(e, sts, |sts|);
    v :| 0 <= v < |sts|
         && var first := FirstImmovable(e.variants[v], sts[v].shape.order, 0);
            first.Some? && e.variants[v][first.value].align == e.StartAlign(sts, |sts|);
    f := FirstImmovable(e.variants[v], sts[v].shape.order, 0).value;
  }

  lemma {:induction false} ImmovableInside(e: EnumDef, minIty: Integer, sts: seq<Layout>, v: nat, f: nat)
    requires AllVariantsWellFormed(e) && e.repr.pack.None? && v < |e.variants|
    requires e.Structs(e.TagPrefix(minIty)) == Ok(sts)
    requires FirstImmovable(e.variants[v], sts[v].shape.order, 0) == Some(f)
    ensures Pow2(e.variants[v][f].align) <= sts[v].size && e.variants[v][f].align <= sts[v].align
  {
    TaggedStruct(e, minIty, sts, v);
    var s := Struct(e.variants[v], e.repr, e.TagPrefix(minIty), e.dl);
    StructIsVariant(s, sts[v], sts[v].size, sts[v].align);
    var p := FirstImmovableAt(s.fields, sts[v].shape.order, 0);
    ImmovableStartsBehind(s, sts[v], s.fields[f].align, f);
  }

  // ----- the variants behind the final tag

  lemma {:induction false} WidenedVariants(sts: seq<Layout>, oldSize: nat, newSize: nat, k: nat)
    requires k <= |sts| && AllArbitrary(sts)
    requires forall v :: 0 <= v < k ==> WidenVariant(FromLayout(sts[v]), oldSize, newSize).Some?
    ensures WidenVariants(sts, oldSize, newSize, k).Some?
    ensures forall v :: 0 <= v < k ==>
              WidenVariant(FromLayout(sts[v]), oldSize, newSize)
              == Some(WidenVariants(sts, oldSize, newSize, k).value[v])
  {
    if k > 0 {
      WidenedVariants(sts, oldSize, newSize, k - 1);
    }
  }

  /** Variant `v` behind the final tag. */
  lemma {:induction false} WidenedVariantIsSound(
      e: EnumDef, minIty: Integer, sts: seq<Layout>, size: nat, align: nat, v: nat)
    requires AllVariantsWellFormed(e) && e.repr.pack.None? && v < |e.variants|
    requires e.Structs(e.TagPrefix(minIty)) == Ok(sts)
    requires forall w :: 0 <= w < |sts| ==> sts[w].size <= size && sts[w].align <= align
    requires e.FinalInteger(minIty, sts) != minIty
    ensures var ity := e.FinalInteger(minIty, sts);
            var widened := WidenVariant(FromLayout(sts[v]), minIty.Bytes(), ity.Bytes());
            && widened.Some?
            && SoundVariant(e.variants[v], widened.value, size, align)
            && ClearOf(e.variants[v], widened.value, 0, ity.Bytes())
            && (forall f :: 0 <= f < |e.variants[v]| && !e.variants[v][f].Is1Zst() ==>
                  widened.value.offsets[f] == sts[v].shape.offsets[f] >= ity.Bytes())
  {
    var ity := e.FinalInteger(minIty, sts);
    FinalTagFits(e, minIty, sts, size, align);
    StartAlignIsLeast(e, sts, |sts|);
    TaggedStruct(e, minIty, sts, v);
    WidenVariantIsSound(Struct(e.variants[v], e.repr, e.TagPrefix(minIty), e.dl), sts[v],
                        minIty.Bytes(), ity.Log(), size, align);
  }

  lemma {:induction false} UnwidenedVariantIsSound(
      e: EnumDef, minIty: Integer, sts: seq<Layout>, size: nat, align: nat, v: nat)
    requires AllVariantsWellFormed(e) && e.repr.pack.None? && v < |e.variants|
    requires e.Structs(e.TagPrefix(minIty)) == Ok(sts)
    requires sts[v].size <= size && sts[v].align <= align
    ensures SoundVariant(e.variants[v], FromLayout(sts[v]), size, align)
    ensures ClearOf(e.variants[v], FromLayout(sts[v]), 0, minIty.Bytes())
  {
    TaggedStruct(e, minIty, sts, v);
    StructIsVariant(Struct(e.variants[v], e.repr, e.TagPrefix(minIty), e.dl), sts[v], size, align);
  }

  /** The variant is sound, clear of the tag, and uninhabited when one of its fields is. */
  ghost predicate SoundTaggedVariant(e: EnumDef, v: nat, variant: VariantLayout, size: nat, align: nat, tagBytes: nat)
    requires v < |e.variants|
  {
    && SoundVariant(e.variants[v], variant, size, align)
    && ClearOf(e.variants[v], variant, 0, tagBytes)
    && (variant.uninhabited <==> !e.Inhabited(v))
  }

  lemma {:induction false} TaggedVariantsSound(e: EnumDef, minIty: Integer, sts: seq<Layout>, size: nat, align: nat)
    requires AllVariantsWellFormed(e) && e.repr.pack.None? && e.variants != []
    requires e.Structs(e.TagPrefix(minIty)) == Ok(sts)
    requires forall v :: 0 <= v < |sts| ==> sts[v].size <= size && sts[v].align <= align
    ensures e.TaggedVariants(minIty, sts).Some?
    ensures var variants, ity := e.TaggedVariants(minIty, sts).value, e.FinalInteger(minIty, sts);
            && |variants| == |sts|
            && (forall v :: 0 <= v < |sts| ==> SoundTaggedVariant(e, v, variants[v], size, align, ity.Bytes()))
  {
    if e.FinalInteger(minIty, sts) == minIty {
      forall v | 0 <= v < |sts|
        ensures SoundTaggedVariant(e, v, FromLayout(sts[v]), size, align, minIty.Bytes())
      {
        StructIsSound(e, e.TagPrefix(minIty), v);
        UnwidenedVariantIsSound(e, minIty, sts, size, align, v);
      }
    } else {
      WidenedVariantsSound(e, minIty, sts, size, align);
    }
  }

  lemma {:induction false} WidenedVariantsSound(e: EnumDef, minIty: Integer, sts: seq<Layout>, size: nat, align: nat)
    requires AllVariantsWellFormed(e) && e.repr.pack.None?
    requires e.Structs(e.TagPrefix(minIty)) == Ok(sts)
    requires forall v :: 0 <= v < |sts| ==> sts[v].size <= size && sts[v].align <= align
    requires e.FinalInteger(minIty, sts) != minIty
    ensures e.TaggedVariants(minIty, sts).Some?
    ensures var ity := e.FinalInteger(minIty, sts);
            forall v :: 0 <= v < |sts| ==>
              SoundTaggedVariant(e, v, e.TaggedVariants(minIty, sts).value[v], size, align, ity.Bytes())
  {
    var ity := e.FinalInteger(minIty, sts);
    forall v | 0 <= v < |sts|
      ensures WidenVariant(FromLayout(sts[v]), minIty.Bytes(), ity.Bytes()).Some?
      ensures SoundTaggedVariant(e, v, WidenVariant(FromLayout(sts[v]), minIty.Bytes(), ity.Bytes()).value,
                                 size, align, ity.Bytes())
    {
      StructIsSound(e, e.TagPrefix(minIty), v);
      WidenedVariantIsSound(e, minIty, sts, size, align, v);
    }
    WidenedVariants(sts, minIty.Bytes(), ity.Bytes(), |sts|);
  }

  // ----- the whole layout

  /** Every discriminant is a word of the discriminant type. */
  ghost predicate DiscriminantsInWidth(e: EnumDef) {
    forall v :: 0 <= v < |e.discriminants| ==> e.discriminants[v] < Pow2(e.repr.DiscrType().ToInteger(e.dl).Bits())
  }

  lemma {:induction false} NecessaryAre(e: EnumDef, k: nat)
    requires e.Accepted() && k <= |e.variants|
    ensures forall d :: d in e.NecessaryDiscriminants(k)
              <==> exists v :: 0 <= v < k && (e.repr.c || e.Inhabited(v)) && e.discriminants[v] == d
  {
    if k > 0 {
      NecessaryAre(e, k - 1);
      var before := e.NecessaryDiscriminants(k - 1);
      if e.repr.c || e.Inhabited(k - 1) {
        assert e.NecessaryDiscriminants(k) == before + [e.discriminants[k - 1]];
      }
    }
  }

  /** The tag's range holds the tag of every variant that needs one, and is the narrowest such. */
  lemma {:induction false} TagRangeIsNarrowest(e: EnumDef, ity: Integer)
    requires e.Accepted()
    ensures e.TagRange(ity).InWidth(ity.Bits())
    ensures var ds := e.NecessaryDiscriminants(|e.variants|);
            ds != [] ==> IsNarrowest(e.TagRange(ity), Tags(ds, ity), ity.Bits())
    ensures forall v :: 0 <= v < |e.variants| && (e.repr.c || e.Inhabited(v)) ==>
              e.TagRange(ity).Contains(DirectTag(e.discriminants[v], ity.Bits()))
  {
    var ds := e.NecessaryDiscriminants(|e.variants|);
    if ds != [] {
      TagsAreNarrowest(ds, ity);
    }
    NecessaryAre(e, |e.variants|);
    forall v | 0 <= v < |e.variants| && (e.repr.c || e.Inhabited(v))
      ensures e.TagRange(ity).Contains(DirectTag(e.discriminants[v], ity.Bits()))
    {
      assert e.discriminants[v] in ds;
    }
  }

  lemma {:induction false} TagsAreNarrowest(ds: seq<nat>, ity: Integer)
    requires ds != []
    ensures var range := SearchAll(Tags(ds, ity), ity.Bits());
            && IsNarrowest(range, Tags(ds, ity), ity.Bits())
            && forall d :: d in ds ==> range.Contains(DirectTag(d, ity.Bits()))
  {
    var tags := Tags(ds, ity);
    SearchAllIsNarrowest(tags, ity.Bits());
    InAllTags(SearchAll(tags, ity.Bits()), ds, ity);
  }

  lemma {:induction false} InAllTags(range: WrappingRange, ds: seq<nat>, ity: Integer)
    requires ContainsAll(range, Tags(ds, ity))
    ensures forall d :: d in ds ==> range.Contains(DirectTag(d, ity.Bits()))
  {
    forall d | d in ds
      ensures range.Contains(DirectTag(d, ity.Bits()))
    {
      var i :| 0 <= i < |ds| && ds[i] == d;
      assert Tags(ds, ity)[i] in Tags(ds, ity);
    }
  }

  /** What the tagged layout promises. */
  ghost predicate SoundTagged(e: EnumDef, layout: Layout) {
    && layout.WellFormed()
    && layout.variants.Multiple? && layout.variants.encoding.Direct?
    && var tag, variants := layout.variants.tag, layout.variants.variants;
       && |variants| == |e.variants|
       && tag.offset == 0 && tag.bytes <= layout.size
       && (exists ity: Integer :: tag.bytes == ity.Bytes() && ity.Align(e.dl) <= layout.align)
       && (forall v :: 0 <= v < |variants| ==>
             SoundTaggedVariant(e, v, variants[v], layout.size, layout.align, tag.bytes))
       && (layout.uninhabited <==> NoneInhabited(e))
  }

  lemma {:induction false} TagNicheIsInside(ity: Integer, range: WrappingRange, size: nat)
    requires range.InWidth(ity.Bits()) && ity.Bytes() <= size
    ensures var niche := FromScalar(0, ity.Bytes(), range);
            niche.Some? ==>
              && niche.value.Valid() && niche.value.Available() > 0
              && niche.value.offset + niche.value.bytes <= size
  {
  }

  lemma {:induction false} TaggedOfParts(
      e: EnumDef, minIty: Integer, signed: bool, sts: seq<Layout>) returns (size: nat, align: nat)
    requires e.Accepted() && |sts| == |e.variants| && AllArbitrary(sts) && e.TaggedVariants(minIty, sts).Some?
    ensures align == Max(e.dl.aggregateAlign, MaxAlign(sts)) && size == AlignTo(MaxSize(sts), align)
    ensures var ity, r := e.FinalInteger(minIty, sts), e.TaggedOf(minIty, signed, sts);
            && (r.Panic? <==> e.repr.DiscrType().ToInteger(e.dl).Log() < minIty.Log() && size < e.dl.objSizeBound)
            && (r.Ok? ==>
                  && r.value.size == size && r.value.align == align
                  && (r.value.uninhabited <==> AllUninhabited(sts))
                  && r.value.largestNiche == FromScalar(0, ity.Bytes(), e.TagRange(ity))
                  && r.value.variants == Multiple(Tag(0, ity.Bytes(), e.TagRange(ity)), Direct(signed),
                                                  e.TaggedVariants(minIty, sts).value))
  {
    align := Max(e.dl.aggregateAlign, MaxAlign(sts));
    size := AlignTo(MaxSize(sts), align);
  }

  /** The variants, put on top of each other, stay below the target's bound on sizes. */
  predicate FitsTarget(e: EnumDef, sts: seq<Layout>) {
    AlignTo(MaxSize(sts), Max(e.dl.aggregateAlign, MaxAlign(sts))) < e.dl.objSizeBound
  }

  lemma {:induction false} TaggedOfIsSound(e: EnumDef, minIty: Integer, signed: bool, sts: seq<Layout>)
    requires e.Accepted() && AllVariantsWellFormed(e) && e.repr.pack.None?
    requires e.Structs(e.TagPrefix(minIty)) == Ok(sts)
    ensures e.TaggedOf(minIty, signed, sts).Ok? ==> SoundTagged(e, e.TaggedOf(minIty, signed, sts).value)
    ensures e.TaggedOf(minIty, signed, sts).Panic?
       <==> e.repr.DiscrType().ToInteger(e.dl).Log() < minIty.Log() && FitsTarget(e, sts)
  {
    var ity := e.FinalInteger(minIty, sts);
    var align := Max(e.dl.aggregateAlign, MaxAlign(sts));
    TaggedVariantsSound(e, minIty, sts, AlignTo(MaxSize(sts), align), align);
    var size, _ := TaggedOfParts(e, minIty, signed, sts);
    FinalTagFits(e, minIty, sts, size, align);
    TagRangeIsNarrowest(e, ity);
    TagNicheIsInside(ity, e.TagRange(ity), size);
    UninhabitedStructs(e, e.TagPrefix(minIty), sts);
  }

  /** The parts of a tagged layout. */
  lemma {:induction false} TaggedParts(
      e: EnumDef) returns (layout: Layout, minIty: Integer, signed: bool, ity: Integer, sts: seq<Layout>)
    requires e.Accepted() && e.Tagged().Ok?
    ensures layout == e.Tagged().value && e.MinInteger() == Some((minIty, signed))
    ensures e.Structs(e.TagPrefix(minIty)) == Ok(sts) && ity == e.FinalInteger(minIty, sts)
    ensures layout.largestNiche == FromScalar(0, ity.Bytes(), e.TagRange(ity))
    ensures layout.align == Max(e.dl.aggregateAlign, MaxAlign(sts))
    ensures layout.size == AlignTo(MaxSize(sts), layout.align)
    ensures e.TaggedVariants(minIty, sts).Some? && layout.sized && layout.shape == Arbitrary([0], [0])
    ensures layout.variants ==
              Multiple(Tag(0, ity.Bytes(), e.TagRange(ity)), Direct(signed), e.TaggedVariants(minIty, sts).value)
  {
    layout := e.Tagged().value;
    minIty, signed := e.MinInteger().value.0, e.MinInteger().value.1;
    sts := e.Structs(e.TagPrefix(minIty)).value;
    ity := e.FinalInteger(minIty, sts);
  }

  /** No smaller multiple of the alignment holds every variant behind the tag. */
  lemma {:induction false} TaggedIsLeast(e: EnumDef, minIty: Integer, signed: bool, sts: seq<Layout>, size: nat)
    requires e.Accepted() && e.Tagged().Ok? && e.MinInteger() == Some((minIty, signed))
    requires e.Structs(e.TagPrefix(minIty)) == Ok(sts)
    requires IsMultiple(size, e.Tagged().value.align) && forall v :: 0 <= v < |sts| ==> sts[v].size <= size
    ensures e.Tagged().value.size <= size
  {
    var layout, _, _, _, _ := TaggedParts(e);
    AlignToLeast(MaxSize(sts), layout.align, size);
  }

  lemma {:induction false} TaggedVariantIsOptimal(
      e: EnumDef, minIty: Integer, sts: seq<Layout>, v: nat, align: nat, offsets: seq<nat>, size: nat)
    requires AllVariantsWellFormed(e) && e.repr.pack.None? && !e.repr.InhibitStructFieldReordering()
    requires e.Structs(e.TagPrefix(minIty)) == Ok(sts) && v < |sts| && sts[v].align <= align && IsMultiple(size, align)
    requires Arrangement(e.variants[v], offsets, AlignTo(minIty.Bytes(), minIty.Align(e.dl)), size)
    ensures sts[v].size <= size
  {
    var from := AlignTo(minIty.Bytes(), minIty.Align(e.dl));
    VariantIsOptimal(e, e.TagPrefix(minIty), sts, v, align, offsets, from, size);
  }

  /** When fields may be reordered, nothing beats the tagged layout: however the fields of each
      variant are arranged behind the tag, they need a size that is at least the enum's. */
  lemma {:induction false} TaggedIsOptimal(
      e: EnumDef, minIty: Integer, signed: bool, sts: seq<Layout>, offsets: seq<seq<nat>>, size: nat)
    requires e.Accepted() && AllVariantsWellFormed(e) && e.repr.pack.None? && !e.repr.InhibitStructFieldReordering()
    requires e.Tagged().Ok? && e.MinInteger() == Some((minIty, signed)) && e.Structs(e.TagPrefix(minIty)) == Ok(sts)
    requires IsMultiple(size, e.Tagged().value.align) && |offsets| == |e.variants|
    requires var from := AlignTo(minIty.Bytes(), minIty.Align(e.dl));
             forall v :: 0 <= v < |e.variants| ==> Arrangement(e.variants[v], offsets[v], from, size)
    ensures e.Tagged().value.size <= size
  {
    var layout, _, _, _, _ := TaggedParts(e);
    forall v | 0 <= v < |sts|
      ensures sts[v].size <= size
    {
      TaggedVariantIsOptimal(e, minIty, sts, v, layout.align, offsets[v], size);
    }
    TaggedIsLeast(e, minIty, signed, sts, size);
  }

  /** The target's smallest `repr(C)` enum is no wider than a pointer. */
  predicate CEnumsFit(e: EnumDef) {
    e.repr.c && e.repr.intType.None? ==> e.dl.cEnumMinSize.Log() <= e.dl.pointerInteger.Log()
  }

  lemma {:induction false} MinIntegerIsSome(e: EnumDef) returns (ity: Integer, signed: bool)
    requires e.Accepted() && DiscriminantsInWidth(e)
    ensures e.MinInteger() == Some((ity, signed))
    ensures CEnumsFit(e) <==> ity.Log() <= e.repr.DiscrType().ToInteger(e.dl).Log()
    ensures !CEnumsFit(e) ==> ity == e.dl.cEnumMinSize
    ensures var ty, discr := e.repr.DiscrType(), e.repr.DiscrType().ToInteger(e.dl);
            || ity.Log() >= discr.Log()
            || forall v :: 0 <= v < |e.variants| && (e.repr.c || e.Inhabited(v)) ==>
                 Holds(ity, signed, DiscrValue(e.discriminants[v], ty.signed, discr.Bits()))
  {
    var ds := e.NecessaryDiscriminants(|e.variants|);
    NecessaryAre(e, |e.variants|);
    forall i | 0 <= i < |ds|
      ensures ds[i] < Pow2(e.repr.DiscrType().ToInteger(e.dl).Bits())
    {
      assert ds[i] in ds;
    }
    ity, signed := DiscrRangeHolds(e.repr, e.dl, ds);
    if e.repr.c && e.repr.intType.None? {
      var ty, bits := e.repr.DiscrType(), e.repr.DiscrType().ToInteger(e.dl).Bits();
      AtLeastTheMinimum(e.repr, e.dl, MinNegative(ds, ty.signed, bits, |ds|), MaxPositive(ds, ty.signed, bits, |ds|));
    }
    forall v | 0 <= v < |e.variants| && (e.repr.c || e.Inhabited(v))
      ensures exists i :: 0 <= i < |ds| && ds[i] == e.discriminants[v]
    {
      assert e.discriminants[v] in ds;
    }
  }

  /** When the source panics about the tag's type: the target's smallest `repr(C)` enum is wider
      than a pointer, and the enum would have a layout with a tag of that size. */
  ghost predicate TagTooWide(e: EnumDef) {
    && !CEnumsFit(e)
    && var structs := e.Structs(e.TagPrefix(e.dl.cEnumMinSize));
       structs.Ok? && FitsTarget(e, structs.value)
  }

  /** The tagged layout panics exactly when the tag is too wide for the discriminant type; no
      assertion about moved offsets fails. Otherwise every field of every variant is aligned,
      inside the enum, and clear of the other fields and of the final tag. */
  lemma {:induction false} TaggedIsSound(e: EnumDef)
    requires e.Accepted() && AllVariantsWellFormed(e) && e.repr.pack.None? && DiscriminantsInWidth(e)
    ensures e.Tagged().Panic? <==> TagTooWide(e)
    ensures e.Tagged().Ok? ==> SoundTagged(e, e.Tagged().value)
  {
    var minIty, signed := MinIntegerIsSome(e);
    StructsAre(e, e.TagPrefix(minIty));
    TaggedByStructs(e, minIty, signed);
    if e.Structs(e.TagPrefix(minIty)).Ok? {
      TaggedOfIsSound(e, minIty, signed, e.Structs(e.TagPrefix(minIty)).value);
    }
  }

  lemma {:induction false} TaggedByStructs(e: EnumDef, minIty: Integer, signed: bool)
    requires e.Accepted() && e.MinInteger() == Some((minIty, signed)) && !e.Structs(e.TagPrefix(minIty)).Panic?
    ensures var structs := e.Structs(e.TagPrefix(minIty));
            e.Tagged() == if structs.Ok? then e.TaggedOf(minIty, signed, structs.value) else Err(structs.error)
  {
  }
}
