/** A small enum, laid out by the model: `Option<bool>` takes one byte, and `None` is the word 2.
    It also shows that what the theorems about structs and enums ask for can be met.
 */
module Examples {
  import opened PowersOfTwo
  import opened Wrappers
  import opened WrappingRanges
  import opened Niches
  import opened Layouts
  import opened Univariant
  import opened Discriminants
  import opened Enums
  import opened NicheFilling
  import opened TaggedEnums
  import opened EnumTheorems

  /** A target with 32-bit pointers. */
  const TARGET := DataLayout(0, 1, 2, 3, 4, 0, 0x8000_0000, I32, I32)

  const RUST := Repr(false, false, false, false, None, None, None)

  const BOOL_NICHE := Niche(0, 1, WrappingRange(0, 1))

  const BOOL := Layout(1, 0, Some(BOOL_NICHE), false, true, Primitive, Single(0))

  const OPTION_BOOL := EnumDef([[], [BOOL]], [0, 1], RUST, TARGET)

  lemma {:induction false} BoolIsWellFormed()
    ensures BOOL.WellFormed() && BOOL_NICHE.Available() == 254 && BOOL_NICHE.Valid()
  {
    WordCounts();
    AvailableValue(BOOL_NICHE);
  }

  /** A struct without fields, behind a prefix of `prefix` bytes. */
  lemma {:induction false} NoneAlone(kind: StructKind, prefix: nat)
    requires if prefix == 0 then kind == AlwaysSized else kind == Prefixed(prefix, 0)
    requires prefix < 2
    ensures Struct([], RUST, kind, TARGET).Compute() == Ok(NoneLayout(prefix))
  {
    var s := Struct([], RUST, kind, TARGET);
    assert s.Initial().offset == prefix && s.Initial().align == 0;
    EmptyStruct(s, prefix, 0);
  }

  /** A struct without fields ends where its prefix does. */
  lemma {:induction false} EmptyStruct(s: Struct, offset: nat, align: nat)
    requires s.fields == [] && !s.kind.MaybeUnsized? && s.repr.align.None?
    requires s.Initial().offset == offset && s.Initial().align == align
    requires IsMultiple(offset, align) && offset < s.dl.objSizeBound
    ensures s.Compute() == Ok(Layout(offset, align, None, false, true, Arbitrary([], []), Single(0)))
  {
    AlignToFixed(offset, align);
    assert s.Order(Start) == [];
    assert s.PlaceUpTo([], Start, 0) == Ok(Placed(offset, [], align, None, 0, None));
  }

  function NoneLayout(prefix: nat): Layout {
    Layout(prefix, 0, None, false, true, Arbitrary([], []), Single(0))
  }

  function SomeLayout(prefix: nat): Layout {
    Layout(prefix + 1, 0, Some(BOOL_NICHE.(offset := prefix)), false, true, Arbitrary([prefix], [0]), Single(0))
  }

  lemma {:induction false} SomeAlone(kind: StructKind, prefix: nat)
    requires if prefix == 0 then kind == AlwaysSized else kind == Prefixed(prefix, 0)
    requires prefix < 2
    ensures Struct([BOOL], RUST, kind, TARGET).Compute() == Ok(SomeLayout(prefix))
  {
    var s := Struct([BOOL], RUST, kind, TARGET);
    SomePlaced(s, prefix);
    OneInOrder(s);
    SomeFinished(s, Placed(prefix + 1, [prefix], 0, Some(BOOL_NICHE.(offset := prefix)), 254, None), prefix);
    OneIsNotRerun(s, SomeLayout(prefix));
  }

  lemma {:induction false} OneInOrder(s: Struct)
    requires |s.fields| == 1 && !s.kind.MaybeUnsized?
    ensures s.Order(Start) == [0]
  {
  }

  lemma {:induction false} SomeFinished(s: Struct, placed: Placed, prefix: nat)
    requires s.fields == [BOOL] && s.repr == RUST && s.dl == TARGET && prefix < 2
    requires placed == Placed(prefix + 1, [prefix], 0, Some(BOOL_NICHE.(offset := prefix)), 254, None)
    ensures s.Finish(placed, [0]) == Ok(SomeLayout(prefix))
  {
  }

  /** A single field is not laid out a second time. */
  lemma {:induction false} OneIsNotRerun(s: Struct, layout: Layout)
    requires s.Accepted() && |s.fields| <= 1 && s.Biased(Start) == Ok(layout)
    requires layout.largestNiche.Some? ==>
               layout.largestNiche.value.offset + layout.largestNiche.value.bytes <= layout.size
    ensures s.Compute() == Ok(layout)
  {
  }

  lemma {:induction false} SomePlaced(s: Struct, prefix: nat)
    requires s.fields == [BOOL] && s.repr == RUST && s.dl == TARGET && prefix < 2
    requires if prefix == 0 then s.kind == AlwaysSized else s.kind == Prefixed(prefix, 0)
    ensures s.PlaceUpTo([0], Start, 1)
         == Ok(Placed(prefix + 1, [prefix], 0, Some(BOOL_NICHE.(offset := prefix)), 254, None))
  {
    BoolIsWellFormed();
    var initial := Placed(prefix, [0], 0, None, 0, None);
    assert s.Initial().offsets == [0];
    assert s.PlaceUpTo([0], Start, 0) == Ok(initial);
    assert initial.offsets[0 := prefix] == [prefix];
  }

  lemma {:induction false} BothAlone(kind: StructKind, prefix: nat)
    requires if prefix == 0 then kind == AlwaysSized else kind == Prefixed(prefix, 0)
    requires prefix < 2
    ensures OPTION_BOOL.Structs(kind) == Ok([NoneLayout(prefix), SomeLayout(prefix)])
  {
    NoneAlone(kind, prefix);
    SomeAlone(kind, prefix);
    CollectTwo(OPTION_BOOL.Alone(kind), NoneLayout(prefix), SomeLayout(prefix));
  }

  lemma {:induction false} CollectTwo(rs: seq<Result<Layout>>, first: Layout, second: Layout)
    requires rs == [Ok(first), Ok(second)]
    ensures Collect(rs, 2) == Ok([first, second])
  {
    assert Collect(rs, 0) == Ok([]);
    assert [] + [first] == [first];
    assert Collect(rs, 1) == Ok([first]);
    assert [first] + [second] == [first, second];
  }

  lemma {:induction false} OptionBoolFills()
    ensures OPTION_BOOL.NicheFilling().Ok? && OPTION_BOOL.NicheFilling().value.Some?
    ensures var layout := OPTION_BOOL.NicheFilling().value.value;
            && layout.size == 1 && layout.variants.encoding == NicheEncoding(1, 0, 0, 2)
            && layout.variants.tag == Tag(0, 1, WrappingRange(0, 2))
  {
    BothAlone(AlwaysSized, 0);
    FillingOfTwo([NoneLayout(0), SomeLayout(0)]);
  }

  lemma {:induction false} FillingOfTwo(sts: seq<Layout>)
    requires sts == [NoneLayout(0), SomeLayout(0)]
    ensures OPTION_BOOL.NicheFillingOf(sts).Ok? && OPTION_BOOL.NicheFillingOf(sts).value.Some?
    ensures var layout := OPTION_BOOL.NicheFillingOf(sts).value.value;
            && layout.size == 1 && layout.variants.encoding == NicheEncoding(1, 0, 0, 2)
            && layout.variants.tag == Tag(0, 1, WrappingRange(0, 2))
  {
    assert LargestVariant(sts, 2) == 1;
    OnlyNoneIsNeeded();
    ReserveTwo();
    assert FitVariants(sts, 1, BOOL_NICHE, 1, 1).Some?;
    MaximaOfTwo(sts);
  }

  lemma {:induction false} OnlyNoneIsNeeded()
    ensures OPTION_BOOL.FirstNeeded(1, 0) == Some(0) && OPTION_BOOL.LastNeeded(1, 2) == Some(0)
  {
    assert OPTION_BOOL.NeedsDiscriminant(1, 0);
    assert OPTION_BOOL.LastNeeded(1, 2) == OPTION_BOOL.LastNeeded(1, 1);
  }

  lemma {:induction false} ReserveTwo()
    ensures BOOL_NICHE.Reserve(1) == Some((2, WrappingRange(0, 2)))
  {
    BoolIsWellFormed();
    WordCounts();
    ReserveAvoidsPassingZero(BOOL_NICHE, 1);
  }

  lemma {:induction false} MaximaOfTwo(sts: seq<Layout>)
    requires |sts| == 2
    ensures MaxAlign(sts) == Max(sts[0].align, sts[1].align) && MaxSize(sts) == Max(sts[0].size, sts[1].size)
  {
    assert sts[1..] == [sts[1]] && sts[1..][1..] == [];
    assert MaxAlign(sts[1..]) == sts[1].align && MaxSize(sts[1..]) == sts[1].size;
  }

  lemma {:induction false} OptionBoolInteger()
    ensures OPTION_BOOL.MinInteger() == Some((I8, false))
  {
    NecessaryOfTwo(OPTION_BOOL);
    IntegerOfZeroAndOne(OPTION_BOOL);
  }

  lemma {:induction false} IntegerOfZeroAndOne(e: EnumDef)
    requires e.Accepted() && e.NecessaryDiscriminants(|e.variants|) == [0, 1]
    requires e.repr.intType.None? && !e.repr.c
    ensures e.MinInteger() == Some((I8, false))
  {
    RangeOfZeroAndOne(e.dl.pointerInteger.Bits());
    IntegerOfRange(e, [0, 1], 0, 1);
    ZeroAndOneFitByte(e.repr, e.dl);
  }

  lemma {:induction false} IntegerOfRange(e: EnumDef, ds: seq<nat>, min: int, max: nat)
    requires e.Accepted() && e.NecessaryDiscriminants(|e.variants|) == ds && Holds(I128, true, min)
    requires var ty := e.repr.DiscrType();
             && min == MinNegative(ds, ty.signed, ty.ToInteger(e.dl).Bits(), |ds|)
             && max == MaxPositive(ds, ty.signed, ty.ToInteger(e.dl).Bits(), |ds|)
    ensures e.MinInteger() == DiscrRange(e.repr, e.dl, min, max)
  {
  }

  lemma {:induction false} ZeroAndOneFitByte(repr: Repr, dl: DataLayout)
    requires repr.intType.None? && !repr.c
    ensures DiscrRange(repr, dl, 0, 1) == Some((I8, false))
  {
  }

  lemma {:induction false} NecessaryOfTwo(e: EnumDef)
    requires e.Accepted() && |e.variants| == 2 && e.Inhabited(0) && e.Inhabited(1)
    ensures e.NecessaryDiscriminants(2) == e.discriminants
  {
    assert e.NecessaryDiscriminants(0) == [];
    assert e.NecessaryDiscriminants(1) == [e.discriminants[0]];
  }

  lemma {:induction false} RangeOfZeroAndOne(bits: nat)
    requires bits > 1
    ensures MinNegative([0, 1], true, bits, 2) == 0 && MaxPositive([0, 1], true, bits, 2) == 1
  {
    Pow2Monotone(1, bits - 1);
    RangeGrows([0, 1], bits, 0);
    RangeGrows([0, 1], bits, 1);
  }

  lemma {:induction false} RangeGrows(ds: seq<nat>, bits: nat, k: nat)
    requires k < |ds| && bits > 0 && ds[k] < Pow2(bits - 1) && MinNegative(ds, true, bits, k) == 0
    ensures MinNegative(ds, true, bits, k + 1) == 0
    ensures MaxPositive(ds, true, bits, k + 1) == Max(MaxPositive(ds, true, bits, k), ds[k])
  {
    SignExtendBounds(ds[k], bits);
  }

  lemma {:induction false} OptionBoolTags()
    ensures OPTION_BOOL.Tagged().Ok? && OPTION_BOOL.Tagged().value.size == 2
  {
    OptionBoolInteger();
    assert OPTION_BOOL.TagPrefix(I8) == Prefixed(1, 0);
    BothAlone(Prefixed(1, 0), 1);
    TaggedFrom(OPTION_BOOL, I8, false, [NoneLayout(1), SomeLayout(1)]);
    TaggedOfTwo([NoneLayout(1), SomeLayout(1)]);
  }

  lemma {:induction false} TaggedFrom(e: EnumDef, minIty: Integer, signed: bool, sts: seq<Layout>)
    requires e.Accepted() && e.MinInteger() == Some((minIty, signed)) && e.Structs(e.TagPrefix(minIty)) == Ok(sts)
    ensures e.Tagged() == e.TaggedOf(minIty, signed, sts)
  {
  }

  lemma {:induction false} TaggedOfTwo(sts: seq<Layout>)
    requires sts == [NoneLayout(1), SomeLayout(1)]
    ensures OPTION_BOOL.TaggedOf(I8, false, sts).Ok? && OPTION_BOOL.TaggedOf(I8, false, sts).value.size == 2
  {
    MaximaOfTwo(sts);
    assert OPTION_BOOL.FinalInteger(I8, sts) == I8;
  }

  lemma {:induction false} BitsAreWords(e: EnumDef)
    requires forall v :: 0 <= v < |e.discriminants| ==> e.discriminants[v] < 2
    ensures DiscriminantsInWidth(e)
  {
    Pow2Monotone(1, e.repr.DiscrType().ToInteger(e.dl).Bits());
  }

  lemma {:induction false} OptionBoolIsLaidOut()
    ensures LaidOutAsEnum(OPTION_BOOL) && DistinctDiscriminants(OPTION_BOOL)
  {
    BoolIsWellFormed();
    assert AllVariantsWellFormed(OPTION_BOOL);
    BitsAreWords(OPTION_BOOL);
    assert TwoPresent(OPTION_BOOL) by {
      assert !Absent(OPTION_BOOL.variants[0]) && !Absent(OPTION_BOOL.variants[1]);
    }
  }

  lemma {:induction false} ChosenWhenSmaller(e: EnumDef)
    requires e.Accepted() && e.repr.pack.None? && e.Tagged().Ok? && e.NicheFilling().Ok? && e.NicheFilling().value.Some?
    requires e.NicheFilling().value.value.size < e.Tagged().value.size
    ensures e.Compute() == Ok(e.NicheFilling().value.value)
  {
    ChosenIsCandidate(e);
  }

  /** `Option<bool>` takes one byte: `None` is stored as 2, and read back from it. */
  lemma {:induction false} OptionBool() returns (layout: Layout)
    ensures LaidOutAsEnum(OPTION_BOOL) && DistinctDiscriminants(OPTION_BOOL)
    ensures OPTION_BOOL.Compute() == Ok(layout) && SoundEnum(OPTION_BOOL, layout) && layout.size == 1
    ensures layout.variants.Multiple? && |layout.variants.variants| == 2
    ensures TagForVariant(layout, [0, 1], 0) == Explicit(2) && ReadVariant(layout, [0, 1], 32, 2) == Some(0)
  {
    OptionBoolIsLaidOut();
    OptionBoolFills();
    OptionBoolTags();
    ChosenWhenSmaller(OPTION_BOOL);
    layout := OPTION_BOOL.NicheFilling().value.value;
    EnumRoundTrip(OPTION_BOOL, 0);
    NoneIsTwo(layout);
  }

  lemma {:induction false} NoneIsTwo(layout: Layout)
    requires layout.variants.Multiple? && |layout.variants.variants| == 2
    requires layout.variants.encoding == NicheEncoding(1, 0, 0, 2) && layout.variants.tag.bytes == 1
    requires RoundTrips(OPTION_BOOL, layout, 0)
    ensures TagForVariant(layout, [0, 1], 0) == Explicit(2) && ReadVariant(layout, [0, 1], 32, 2) == Some(0)
  {
    WordCounts();
    ModNear(2, 0x100);
  }

  // ----- the panic

  /** A target with 16-bit pointers whose data layout leaves the smallest `repr(C)` enum at 32 bits. */
  const NARROW := DataLayout(0, 1, 1, 1, 1, 0, 0x8000, I16, I32)

  /** `#[repr(C)] enum E { A }` */
  const UNIT_ENUM := EnumDef([[]], [0], RUST.(c := true), NARROW)

  /** The panic about a tag that is too wide is met by the smallest `repr(C)` enum. */
  lemma {:induction false} NarrowTargetPanics()
    ensures LaidOutAsEnum(UNIT_ENUM) && EnumPanics(UNIT_ENUM)
    ensures UNIT_ENUM.Tagged().Panic? && UNIT_ENUM.Compute().Panic?
  {
    BitsAreWords(UNIT_ENUM);
    UnitTagTooWide();
    TaggedIsSound(UNIT_ENUM);
    EnumIsSound(UNIT_ENUM);
  }

  lemma {:induction false} UnitTagTooWide()
    ensures TagTooWide(UNIT_ENUM)
  {
    var st := Layout(4, 1, None, false, true, Arbitrary([], []), Single(0));
    assert UNIT_ENUM.TagPrefix(I32) == Prefixed(4, 1);
    AlignToFixed(4, 1);
    EmptyStruct(Struct([], RUST.(c := true), Prefixed(4, 1), NARROW), 4, 1);
    CollectOne(UNIT_ENUM.Alone(Prefixed(4, 1)), st);
    OneFitsTarget(UNIT_ENUM, [st]);
  }

  lemma {:induction false} CollectOne(rs: seq<Result<Layout>>, st: Layout)
    requires rs == [Ok(st)]
    ensures Collect(rs, 1) == Ok([st])
  {
    assert Collect(rs, 0) == Ok([]);
    assert [] + [st] == [st];
  }

  lemma {:induction false} OneFitsTarget(e: EnumDef, sts: seq<Layout>)
    requires |sts| == 1 && IsMultiple(sts[0].size, Max(e.dl.aggregateAlign, sts[0].align))
    requires sts[0].size < e.dl.objSizeBound
    ensures FitsTarget(e, sts)
  {
    assert sts[1..] == [];
    assert MaxAlign(sts[1..]) == 0 && MaxSize(sts[1..]) == 0;
    assert MaxAlign(sts) == sts[0].align;
    assert MaxSize(sts) == sts[0].size;
    AlignToFixed(sts[0].size, Max(e.dl.aggregateAlign, sts[0].align));
  }
}
