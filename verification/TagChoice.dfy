/** Which tag an enum gets, and what is behind it, said of the discriminants and of the variants' own
    layouts (`discr_range_of_repr` in compiler/rustc_middle/src/ty/layout.rs, the tagged half of
    `layout_of_enum` in compiler/rustc_abi/src/layout.rs).
 */
module TagChoice {
  import opened PowersOfTwo
  import opened Wrappers
  import opened WrappingRanges
  import opened SmallestRange
  import opened Niches
  import opened Layouts
  import opened Univariant
  import opened Discriminants
  import opened Enums
  import opened NicheFilling
  import opened TaggedEnums
  import opened FillingSucceeds

  // ----- the smallest integer

  /** The tag must be able to hold the discriminant of variant `v`. */
  predicate IsNecessary(e: EnumDef, v: nat) {
    v < |e.variants| && (e.repr.c || forall f :: 0 <= f < |e.variants[v]| ==> !e.variants[v][f].uninhabited)
  }

  /** The value of a word of an integer type. */
  function Value(d: nat, ity: Integer, signed: bool): int {
    if signed && d >= Pow2(ity.Bits() - 1) then d - Pow2(ity.Bits()) else d
  }

  predicate Represents(ity: Integer, signed: bool, value: int) {
    var half: int := Pow2(ity.Bits() - 1);
    if signed then -half <= value < half else 0 <= value < 2 * half
  }

  /** `x` is the value of a necessary discriminant, read as an `isize`. */
  ghost predicate IsNecessaryValue(e: EnumDef, x: int)
    requires e.Accepted()
  {
    exists v: nat :: IsNecessary(e, v) && Value(e.discriminants[v], e.dl.pointerInteger, true) == x
  }

  ghost predicate RepresentsAll(e: EnumDef, ity: Integer, signed: bool)
    requires e.Accepted()
  {
    forall x :: IsNecessaryValue(e, x) ==> Represents(ity, signed, x)
  }

  ghost predicate SomeNegative(e: EnumDef)
    requires e.Accepted()
  {
    exists x :: IsNecessaryValue(e, x) && x < 0
  }

  lemma {:induction false} RepresentsIsHolds(ity: Integer, signed: bool, value: int)
    ensures Represents(ity, signed, value) <==> Holds(ity, signed, value)
  {
    HalfIsPow2(ity);
  }

  lemma {:induction false} MinIsAttained(ds: seq<nat>, signed: bool, bits: nat, k: nat)
    requires k <= |ds|
    ensures var min := MinNegative(ds, signed, bits, k);
            min == 0 || exists i :: 0 <= i < k && DiscrValue(ds[i], signed, bits) == min
  {
    if k > 0 && signed {
      MinIsAttained(ds, signed, bits, k - 1);
    }
  }

  lemma {:induction false} MaxIsAttained(ds: seq<nat>, signed: bool, bits: nat, k: nat)
    requires k <= |ds|
    ensures var max := MaxPositive(ds, signed, bits, k);
            max == 0 || exists i :: 0 <= i < k && DiscrValue(ds[i], signed, bits) == max
  {
    if k > 0 {
      MaxIsAttained(ds, signed, bits, k - 1);
    }
  }

  lemma {:induction false} ValueIsDiscrValue(d: nat, ity: Integer)
    requires d < Pow2(ity.Bits())
    ensures DiscrValue(d, true, ity.Bits()) == Value(d, ity, true)
  {
    SignExtendBounds(d, ity.Bits());
  }

  lemma {:induction false} NecessaryValuesAre(e: EnumDef) returns (ds: seq<nat>, n: nat)
    requires e.Accepted() && DiscriminantsInWidth(e) && e.repr.intType.None?
    ensures ds == e.NecessaryDiscriminants(|e.variants|) && n == e.dl.pointerInteger.Bits()
    ensures forall i :: 0 <= i < |ds| ==> ds[i] < Pow2(n)
    ensures forall i :: 0 <= i < |ds| ==> IsNecessaryValue(e, DiscrValue(ds[i], true, n))
    ensures forall x :: IsNecessaryValue(e, x) ==> exists i :: 0 <= i < |ds| && DiscrValue(ds[i], true, n) == x
  {
    ds, n := e.NecessaryDiscriminants(|e.variants|), e.dl.pointerInteger.Bits();
    NecessaryAre(e, |e.variants|);
    forall i | 0 <= i < |ds|
      ensures ds[i] < Pow2(n) && IsNecessaryValue(e, DiscrValue(ds[i], true, n))
    {
      assert ds[i] in ds;
      var v :| 0 <= v < |e.variants| && (e.repr.c || e.Inhabited(v)) && e.discriminants[v] == ds[i];
      ValueIsDiscrValue(ds[i], e.dl.pointerInteger);
      assert IsNecessary(e, v);
    }
    forall x | IsNecessaryValue(e, x)
      ensures exists i :: 0 <= i < |ds| && DiscrValue(ds[i], true, n) == x
    {
      var v: nat :| IsNecessary(e, v) && Value(e.discriminants[v], e.dl.pointerInteger, true) == x;
      assert e.Inhabited(v) || e.repr.c;
      assert e.discriminants[v] in ds;
      var i :| 0 <= i < |ds| && ds[i] == e.discriminants[v];
      ValueIsDiscrValue(ds[i], e.dl.pointerInteger);
    }
  }

  /** The least negative and the greatest nonnegative value of the necessary discriminants. */
  lemma {:induction false} OuterValues(e: EnumDef) returns (min: int, max: nat, ds: seq<nat>, n: nat)
    requires e.Accepted() && DiscriminantsInWidth(e) && e.repr.intType.None?
    ensures ds == e.NecessaryDiscriminants(|e.variants|) && n == e.dl.pointerInteger.Bits()
    ensures min == MinNegative(ds, true, n, |ds|) && max == MaxPositive(ds, true, n, |ds|)
    ensures RangeOf(PointerSized(true), e.dl, min, max)
    ensures forall x :: IsNecessaryValue(e, x) ==> min <= x <= max
    ensures (min == 0 || IsNecessaryValue(e, min)) && (max == 0 || IsNecessaryValue(e, max))
  {
    ds, n := NecessaryValuesAre(e);
    min, max := OuterOf(ds, e.dl, n);
    OuterAreNecessary(e, ds, n, min, max);
  }

  lemma {:induction false} OuterAreNecessary(e: EnumDef, ds: seq<nat>, n: nat, min: int, max: int)
    requires e.Accepted()
    requires forall i :: 0 <= i < |ds| ==> IsNecessaryValue(e, DiscrValue(ds[i], true, n))
    requires forall x :: IsNecessaryValue(e, x) ==> exists i :: 0 <= i < |ds| && DiscrValue(ds[i], true, n) == x
    requires forall i :: 0 <= i < |ds| ==> min <= DiscrValue(ds[i], true, n) <= max
    requires min == 0 || exists i :: 0 <= i < |ds| && DiscrValue(ds[i], true, n) == min
    requires max == 0 || exists i :: 0 <= i < |ds| && DiscrValue(ds[i], true, n) == max
    ensures forall x :: IsNecessaryValue(e, x) ==> min <= x <= max
    ensures (min == 0 || IsNecessaryValue(e, min)) && (max == 0 || IsNecessaryValue(e, max))
  {
  }

  lemma {:induction false} OuterOf(ds: seq<nat>, dl: DataLayout, n: nat) returns (min: int, max: nat)
    requires n == dl.pointerInteger.Bits() && forall i :: 0 <= i < |ds| ==> ds[i] < Pow2(n)
    ensures min == MinNegative(ds, true, n, |ds|) && max == MaxPositive(ds, true, n, |ds|)
    ensures RangeOf(PointerSized(true), dl, min, max)
    ensures forall i :: 0 <= i < |ds| ==> min <= DiscrValue(ds[i], true, n) <= max
    ensures min == 0 || exists i :: 0 <= i < |ds| && DiscrValue(ds[i], true, n) == min
    ensures max == 0 || exists i :: 0 <= i < |ds| && DiscrValue(ds[i], true, n) == max
  {
    HalfIsPow2(dl.pointerInteger);
    RangeBounds(ds, true, n, |ds|);
    MinIsAttained(ds, true, n, |ds|);
    MaxIsAttained(ds, true, n, |ds|);
    min, max := MinNegative(ds, true, n, |ds|), MaxPositive(ds, true, n, |ds|);
  }

  /** Without a hint the smallest integer type holds the necessary discriminants, and no smaller type
      of either signedness does, from the target's minimum for `repr(C)` on; it is signed exactly
      when a value is negative. (No target has pointers of 128 bits.) */
  lemma {:induction false} SmallestIntegerIsLeast(e: EnumDef, other: Integer, otherSigned: bool)
    returns (ity: Integer, signed: bool)
    requires e.Accepted() && DiscriminantsInWidth(e) && e.repr.intType.None? && e.dl.pointerInteger != I128
    ensures e.MinInteger() == Some((ity, signed))
    ensures RepresentsAll(e, ity, signed) && (e.repr.c ==> e.dl.cEnumMinSize.Log() <= ity.Log())
    ensures signed <==> SomeNegative(e)
    ensures RepresentsAll(e, other, otherSigned) && (e.repr.c ==> e.dl.cEnumMinSize.Log() <= other.Log()) ==>
              ity.Bytes() <= other.Bytes()
  {
    var min, max, ds, n := OuterValues(e);
    ity, signed := PickedIsLeast(e.repr, e.dl, min, max, other, otherSigned);
    forall x | IsNecessaryValue(e, x)
      ensures Represents(ity, signed, x)
    {
      HoldsBetween(ity, signed, min, x, max);
      RepresentsIsHolds(ity, signed, x);
    }
    if RepresentsAll(e, other, otherSigned) {
      HoldsOuter(other, otherSigned, min);
      HoldsOuter(other, otherSigned, max);
      BytesOrdered(ity, other);
    }
  }

  lemma {:induction false} HoldsOuter(ity: Integer, signed: bool, x: int)
    requires x == 0 || Represents(ity, signed, x)
    ensures Holds(ity, signed, x)
  {
    RepresentsIsHolds(ity, signed, x);
  }

  lemma {:induction false} BytesOrdered(narrow: Integer, wide: Integer)
    ensures narrow.Bytes() <= wide.Bytes() <==> narrow.Log() <= wide.Log()
  {
    if narrow.Log() <= wide.Log() {
      Pow2Monotone(narrow.Log(), wide.Log());
    } else {
      Pow2Monotone(wide.Log(), narrow.Log());
    }
  }

  lemma {:induction false} PickedIsLeast(
    repr: Repr, dl: DataLayout, min: int, max: nat, other: Integer, otherSigned: bool)
    returns (ity: Integer, signed: bool)
    requires repr.intType.None? && RangeOf(PointerSized(true), dl, min, max) && dl.pointerInteger != I128
    ensures Holds(I128, true, min) && DiscrRange(repr, dl, min, max) == Some((ity, signed))
    ensures Holds(ity, signed, min) && Holds(ity, signed, max) && (repr.c ==> dl.cEnumMinSize.Log() <= ity.Log())
    ensures signed <==> min < 0
    ensures Holds(other, otherSigned, min) && Holds(other, otherSigned, max) ==>
              (repr.c ==> dl.cEnumMinSize.Log() <= other.Log()) ==> ity.Log() <= other.Log()
  {
    WiderHolds(dl.pointerInteger, I128, true, min);
    WiderHolds(dl.pointerInteger, I128, true, max);
    var unsignedFit, signedFit := FitsOfRange(dl.pointerInteger, min, max);
    var pair := DiscrRange(repr, dl, min, max).value;
    ity, signed := pair.0, pair.1;
    if min == 0 {
      UnsignedIsNarrower(min, max, unsignedFit, signedFit);
    }
    if signed {
      WiderHolds(signedFit, ity, true, min);
      WiderHolds(signedFit, ity, true, max);
    } else {
      WiderHolds(unsignedFit, ity, false, max);
    }
    if Holds(other, otherSigned, min) && Holds(other, otherSigned, max) {
      FitIsLeast(min, true, other);
      FitIsLeast(max, otherSigned, other);
    }
  }

  lemma {:induction false} UnsignedIsNarrower(min: int, max: nat, unsignedFit: Integer, signedFit: Integer)
    requires min == 0 && Holds(I128, true, max)
    requires unsignedFit == FitUnsigned(Max(CastUnsigned(min), max))
    requires signedFit == Wider(FitSigned(min), FitSigned(CastSigned(max)))
    ensures unsignedFit.Log() <= signedFit.Log()
  {
  }

  /** With a hint the tag is of the hinted type. */
  lemma {:induction false} HintIsTaken(e: EnumDef)
    requires e.Accepted() && DiscriminantsInWidth(e) && e.repr.intType.Some?
    ensures e.MinInteger() == Some(match e.repr.intType.value
                                   case PointerSized(signed) => (e.dl.pointerInteger, signed)
                                   case Fixed(ity, signed) => (ity, signed))
  {
    var ds, ty := e.NecessaryDiscriminants(|e.variants|), e.repr.DiscrType();
    var discr := ty.ToInteger(e.dl);
    NecessaryAre(e, |e.variants|);
    forall i | 0 <= i < |ds|
      ensures ds[i] < Pow2(discr.Bits())
    {
      assert ds[i] in ds;
    }
    HintedRange(e.repr, e.dl, ds, discr.Bits());
  }

  lemma {:induction false} HintedRange(repr: Repr, dl: DataLayout, ds: seq<nat>, n: nat)
    requires repr.intType.Some? && n == repr.intType.value.ToInteger(dl).Bits()
    requires forall i :: 0 <= i < |ds| ==> ds[i] < Pow2(n)
    ensures var ty := repr.intType.value;
            var min, max := MinNegative(ds, ty.signed, n, |ds|), MaxPositive(ds, ty.signed, n, |ds|);
            Holds(I128, true, min) && DiscrRange(repr, dl, min, max) == Some((ty.ToInteger(dl), ty.signed))
  {
    var ty := repr.intType.value;
    HalfIsPow2(ty.ToInteger(dl));
    RangeBounds(ds, ty.signed, n, |ds|);
    RangeBoundsZero(ds, ty.signed, n, |ds|);
    FixedRangeHolds(repr, dl, MinNegative(ds, ty.signed, n, |ds|), MaxPositive(ds, ty.signed, n, |ds|));
  }

  // ----- the width of the tag

  predicate Takes(field: Layout) {
    field.size > 0 || field.align > 0 || !field.sized
  }

  /** `align` is the alignment of the first field in memory that takes space or needs alignment. */
  ghost predicate StartsWith(fields: seq<Layout>, order: seq<nat>, align: nat) {
    exists p :: 0 <= p < |order| && order[p] < |fields| && Takes(fields[order[p]]) && fields[order[p]].align == align
                && forall q :: 0 <= q < p ==> order[q] < |fields| && !Takes(fields[order[q]])
  }

  ghost predicate VariantStartsWith(e: EnumDef, sts: seq<Layout>, v: nat, align: nat) {
    v < |sts| && v < |e.variants| && sts[v].shape.Arbitrary?
    && StartsWith(e.variants[v], sts[v].shape.order, align)
  }

  /** The least alignment that a variant starts with. */
  ghost predicate IsLeastStart(e: EnumDef, sts: seq<Layout>, align: nat) {
    && (exists v: nat :: VariantStartsWith(e, sts, v, align))
    && (forall v: nat, a: nat :: VariantStartsWith(e, sts, v, a) ==> align <= a)
  }

  /** The tag can be widened to `ity`: no representation is asked for, and the integer's size and
      alignment are the least alignment that a variant starts with, above the smallest tag's size. */
  ghost predicate CanWiden(e: EnumDef, minIty: Integer, sts: seq<Layout>, ity: Integer) {
    && !e.repr.c && e.repr.intType.None?
    && IsLeastStart(e, sts, ity.Align(e.dl)) && ity.Bytes() == Pow2(ity.Align(e.dl)) && minIty.Bytes() < ity.Bytes()
  }

  lemma {:induction false} StartIsFirstImmovable(fields: seq<Layout>, order: seq<nat>, align: nat)
    requires forall j :: 0 <= j < |order| ==> order[j] < |fields|
    ensures StartsWith(fields, order, align) <==>
              var first := FirstImmovable(fields, order, 0);
              first.Some? && fields[first.value].align == align
  {
    var p := FirstImmovableAt(fields, order, 0);
    if StartsWith(fields, order, align) {
      var q :| 0 <= q < |order| && Takes(fields[order[q]]) && fields[order[q]].align == align
               && forall r :: 0 <= r < q ==> !Takes(fields[order[r]]);
      assert p == q;
    }
  }

  ghost predicate OrdersOk(e: EnumDef, sts: seq<Layout>) {
    && |sts| == |e.variants| && AllArbitrary(sts)
    && forall v, j :: 0 <= v < |sts| && 0 <= j < |sts[v].shape.order| ==> sts[v].shape.order[j] < |e.variants[v]|
  }

  lemma {:induction false} LeastStartIsStartAlign(e: EnumDef, sts: seq<Layout>, align: nat)
    requires OrdersOk(e, sts) && align < 8
    ensures IsLeastStart(e, sts, align) <==> e.StartAlign(sts, |sts|) == align
  {
    StartAlignIsLeast(e, sts, |sts|);
    forall v: nat, a: nat | v < |sts|
      ensures VariantStartsWith(e, sts, v, a) <==>
                var first := FirstImmovable(e.variants[v], sts[v].shape.order, 0);
                first.Some? && e.variants[v][first.value].align == a
    {
      StartIsFirstImmovable(e.variants[v], sts[v].shape.order, a);
    }
    var least := e.StartAlign(sts, |sts|);
    if least < 8 {
      var w: nat :| w < |sts|
                    && var first := FirstImmovable(e.variants[w], sts[w].shape.order, 0);
                       first.Some? && e.variants[w][first.value].align == least;
      assert VariantStartsWith(e, sts, w, least);
    }
  }

  lemma {:induction false} BytesArePowers(ity: Integer, k: nat)
    ensures ity.Bytes() == Pow2(k) <==> ity.Log() == k
  {
    if ity.Log() < k {
      Pow2Monotone(ity.Log(), k);
    } else if k < ity.Log() {
      Pow2Monotone(k, ity.Log());
    }
  }

  lemma {:induction false} ForAlignFinds(dl: DataLayout, wanted: nat, ity: Integer)
    requires ity.Align(dl) == wanted == ity.Log()
    ensures ForAlign(dl, wanted) == Some(ity)
  {
  }

  /** The tag is widened exactly when it can be, and then to that integer. */
  lemma {:induction false} FinalIsWidest(e: EnumDef, minIty: Integer, sts: seq<Layout>, ity: Integer)
    requires OrdersOk(e, sts)
    ensures CanWiden(e, minIty, sts, ity) <==> e.FinalInteger(minIty, sts) == ity != minIty
  {
    BytesArePowers(ity, ity.Align(e.dl));
    BytesOrdered(minIty, ity);
    BytesOrdered(ity, minIty);
    if ity.Align(e.dl) == ity.Log() {
      LeastStartIsStartAlign(e, sts, ity.Log());
      ForAlignFinds(e.dl, ity.Log(), ity);
    }
  }

  // ----- behind the tag

  /** The alignment that the variants get at least: the tag's, and under `repr(C)` that of a union of
      all fields. */
  ghost predicate IsPrefixAlign(e: EnumDef, minIty: Integer, a: nat) {
    && minIty.Align(e.dl) <= a
    && (e.repr.c ==> forall v, f :: 0 <= v < |e.variants| && 0 <= f < |e.variants[v]| ==> e.variants[v][f].align <= a)
    && (|| a == minIty.Align(e.dl)
        || (e.repr.c
            && exists v, f :: 0 <= v < |e.variants| && 0 <= f < |e.variants[v]| && e.variants[v][f].align == a))
  }

  /** The variants laid out behind a tag of the smallest type. */
  ghost predicate LaidOutBehind(e: EnumDef, minIty: Integer, sts: seq<Layout>) {
    && |sts| == |e.variants|
    && exists a :: IsPrefixAlign(e, minIty, a) && BehindPrefix(e, minIty.Bytes(), a, sts)
  }

  ghost predicate BehindPrefix(e: EnumDef, prefix: nat, a: nat, sts: seq<Layout>) {
    && |sts| == |e.variants|
    && forall v :: 0 <= v < |sts| ==> Struct(e.variants[v], e.repr, Prefixed(prefix, a), e.dl).Compute() == Ok(sts[v])
  }

  /** The variant `st` once the tag is widened: what started or ended right behind the narrow tag does
      so behind the wide one, and everything else stays. */
  predicate MakesRoom(st: Layout, variant: VariantLayout, narrow: nat, wide: nat) {
    && st.shape.Arbitrary? && |variant.offsets| == |st.shape.offsets| && variant.order == st.shape.order
    && (forall f :: 0 <= f < |variant.offsets| ==>
          variant.offsets[f] == if st.shape.offsets[f] == narrow then wide else st.shape.offsets[f])
    && variant.size == (if st.size == narrow then wide else st.size)
    && variant.largestNiche == st.largestNiche && variant.uninhabited == st.uninhabited
  }

  /** The range holds the tag of every variant whose discriminant is necessary. */
  ghost predicate HoldsNecessary(e: EnumDef, range: WrappingRange, n: nat)
    requires e.Accepted()
  {
    range.InWidth(n) && forall v: nat :: IsNecessary(e, v) ==> range.Contains(Truncate(e.discriminants[v], n))
  }

  /** ... and is the narrowest that does; of equally wide ones, one that does not wrap. */
  ghost predicate IsTagRange(e: EnumDef, range: WrappingRange, n: nat)
    requires e.Accepted()
  {
    && HoldsNecessary(e, range, n)
    && (if exists v: nat :: IsNecessary(e, v) then
          forall r: WrappingRange :: HoldsNecessary(e, r, n) ==>
            && range.Width(n) <= r.Width(n)
            && (range.end < range.start && r.start <= r.end ==> range.Width(n) < r.Width(n))
        else range == WrappingRange(0, 0))
  }

  /** The final tag's type: widened if it can be, and otherwise the smallest. */
  ghost predicate IsFinal(e: EnumDef, minIty: Integer, sts: seq<Layout>, ity: Integer) {
    && (ity == minIty || CanWiden(e, minIty, sts, ity))
    && forall other :: CanWiden(e, minIty, sts, other) ==> ity == other
  }

  /** The layout with a tag of type `ity` in front. */
  ghost predicate IsTagged(e: EnumDef, minIty: Integer, signed: bool, ity: Integer, sts: seq<Layout>, layout: Layout)
    requires e.Accepted()
  {
    && LaidOutBehind(e, minIty, sts) && IsFinal(e, minIty, sts, ity)
    && IsEnumAlign(e, sts, layout.align) && layout.sized && layout.shape == Arbitrary([0], [0])
    && IsLeastSize(sts, layout.size, layout.align)
    && layout.variants.Multiple? && layout.variants.encoding == Direct(signed)
    && IsTag(e, layout.variants.tag, ity, layout.largestNiche)
    && |layout.variants.variants| == |sts|
    && forall v :: 0 <= v < |sts| ==> MakesRoom(sts[v], layout.variants.variants[v], minIty.Bytes(), ity.Bytes())
  }

  /** The size is the least multiple of the alignment that holds every variant. */
  ghost predicate IsLeastSize(sts: seq<Layout>, size: nat, align: nat) {
    && IsMultiple(size, align) && (forall v :: 0 <= v < |sts| ==> sts[v].size <= size)
    && exists v :: 0 <= v < |sts| && size < sts[v].size + Pow2(align)
  }

  lemma {:induction false} MaxSizeIsLeast(sts: seq<Layout>, align: nat)
    requires sts != []
    ensures IsLeastSize(sts, AlignTo(MaxSize(sts), align), align)
  {
    var v :| 0 <= v < |sts| && sts[v].size == MaxSize(sts);
    assert AlignTo(MaxSize(sts), align) < sts[v].size + Pow2(align);
  }

  ghost predicate IsTag(e: EnumDef, tag: Tag, ity: Integer, left: Option<Niche>)
    requires e.Accepted()
  {
    && tag.offset == 0 && tag.bytes == ity.Bytes() && IsTagRange(e, tag.range, ity.Bits())
    && var niche := Niche(0, ity.Bytes(), tag.range);
       left == if niche.Available() == 0 then None else Some(niche)
  }

  lemma {:induction false} MaxFieldAlignIs(e: EnumDef, k: nat)
    requires k <= |e.variants|
    ensures forall v, f :: 0 <= v < k && 0 <= f < |e.variants[v]| ==> e.variants[v][f].align <= e.MaxFieldAlign(k)
    ensures e.MaxFieldAlign(k) == 0
         || exists v, f :: 0 <= v < k && 0 <= f < |e.variants[v]| && e.variants[v][f].align == e.MaxFieldAlign(k)
  {
    if k > 0 {
      MaxFieldAlignIs(e, k - 1);
      MaxAlignIsAttained(e.variants[k - 1]);
    }
  }

  lemma {:induction false} PrefixIs(e: EnumDef, minIty: Integer, a: nat)
    ensures IsPrefixAlign(e, minIty, a) <==> e.TagPrefix(minIty) == Prefixed(minIty.Bytes(), a)
  {
    MaxFieldAlignIs(e, |e.variants|);
  }

  lemma {:induction false} BehindAreStructs(e: EnumDef, minIty: Integer, sts: seq<Layout>)
    ensures LaidOutBehind(e, minIty, sts) <==> e.Structs(e.TagPrefix(minIty)) == Ok(sts)
  {
    var kind := e.TagPrefix(minIty);
    PrefixIs(e, minIty, kind.prefixAlign);
    AlignedStructs(e, kind, sts);
    if LaidOutBehind(e, minIty, sts) {
      var a :| IsPrefixAlign(e, minIty, a) && BehindPrefix(e, minIty.Bytes(), a, sts);
      PrefixIs(e, minIty, a);
    }
  }

  lemma {:induction false} AlignedStructs(e: EnumDef, kind: StructKind, sts: seq<Layout>)
    requires kind.Prefixed?
    ensures e.Structs(kind) == Ok(sts) <==> BehindPrefix(e, kind.prefixSize, kind.prefixAlign, sts)
  {
    var rs := e.Alone(kind);
    CollectIsComplete(rs, |rs|);
    if BehindPrefix(e, kind.prefixSize, kind.prefixAlign, sts) {
      assert forall v :: 0 <= v < |rs| ==> rs[v] == Ok(sts[v]);
      assert e.Structs(kind).value == sts;
    }
    if e.Structs(kind) == Ok(sts) {
      forall v | 0 <= v < |sts|
        ensures Struct(e.variants[v], e.repr, kind, e.dl).Compute() == Ok(sts[v])
      {
        assert rs[v] == Ok(sts[v]);
      }
    }
  }

  /** The list of necessary discriminants is that of the variants that need them. */
  ghost predicate ListsNecessary(e: EnumDef, ds: seq<nat>)
    requires e.Accepted()
  {
    && (forall v: nat :: IsNecessary(e, v) ==> e.discriminants[v] in ds)
    && (forall d :: d in ds ==> exists v: nat :: IsNecessary(e, v) && e.discriminants[v] == d)
  }

  lemma {:induction false} NecessaryAreListed(e: EnumDef) returns (ds: seq<nat>)
    requires e.Accepted()
    ensures ds == e.NecessaryDiscriminants(|e.variants|) && ListsNecessary(e, ds)
  {
    ds := e.NecessaryDiscriminants(|e.variants|);
    NecessaryAre(e, |e.variants|);
    forall v: nat | IsNecessary(e, v)
      ensures e.discriminants[v] in ds
    {
      assert e.repr.c || e.Inhabited(v);
    }
    forall d | d in ds
      ensures exists v: nat :: IsNecessary(e, v) && e.discriminants[v] == d
    {
      var v :| 0 <= v < |e.variants| && (e.repr.c || e.Inhabited(v)) && e.discriminants[v] == d;
      assert IsNecessary(e, v);
    }
  }

  lemma {:induction false} TagsContained(ds: seq<nat>, range: WrappingRange, ity: Integer)
    ensures ContainsAll(range, Tags(ds, ity)) <==> forall d :: d in ds ==> range.Contains(Truncate(d, ity.Bits()))
  {
    var tags := Tags(ds, ity);
    assert forall i :: 0 <= i < |ds| ==> tags[i] == Truncate(ds[i], ity.Bits());
    if ContainsAll(range, tags) {
      InAllTags(range, ds, ity);
    }
  }

  lemma {:induction false} HoldingIsContaining(e: EnumDef, ds: seq<nat>, range: WrappingRange, ity: Integer)
    requires e.Accepted() && ListsNecessary(e, ds)
    ensures HoldsNecessary(e, range, ity.Bits()) <==> range.InWidth(ity.Bits()) && ContainsAll(range, Tags(ds, ity))
  {
    TagsContained(ds, range, ity);
  }

  lemma {:induction false} TagRangeIs(e: EnumDef, ity: Integer)
    requires e.Accepted()
    ensures IsTagRange(e, e.TagRange(ity), ity.Bits())
  {
    var ds := NecessaryAreListed(e);
    TagRangeIsNarrowest(e, ity);
    forall r: WrappingRange
      ensures HoldsNecessary(e, r, ity.Bits()) <==> r.InWidth(ity.Bits()) && ContainsAll(r, Tags(ds, ity))
    {
      HoldingIsContaining(e, ds, r, ity);
    }
    if ds != [] {
      assert ds[0] in ds;
    }
  }

  /** Every variant makes room for the final tag. */
  lemma {:induction false} VariantsMakeRoom(e: EnumDef, minIty: Integer, sts: seq<Layout>)
    requires AllVariantsWellFormed(e) && e.repr.pack.None?
    requires e.Structs(e.TagPrefix(minIty)) == Ok(sts) && e.TaggedVariants(minIty, sts).Some?
    ensures var ity, variants := e.FinalInteger(minIty, sts), e.TaggedVariants(minIty, sts).value;
            && |variants| == |sts|
            && forall v :: 0 <= v < |sts| ==> MakesRoom(sts[v], variants[v], minIty.Bytes(), ity.Bytes())
  {
    var ity := e.FinalInteger(minIty, sts);
    if ity != minIty {
      WidenedAre(sts, minIty.Bytes(), ity.Bytes(), |sts|);
    }
    forall v | 0 <= v < |sts|
      ensures MakesRoom(sts[v], e.TaggedVariants(minIty, sts).value[v], minIty.Bytes(), ity.Bytes())
    {
      TaggedStruct(e, minIty, sts, v);
      if ity != minIty {
        WidenedMakesRoom(sts[v], minIty.Bytes(), ity.Bytes());
      }
    }
  }

  lemma {:induction false} WidenedAre(sts: seq<Layout>, narrow: nat, wide: nat, k: nat)
    requires k <= |sts| && AllArbitrary(sts) && WidenVariants(sts, narrow, wide, k).Some?
    ensures var variants := WidenVariants(sts, narrow, wide, k).value;
            forall v :: 0 <= v < k ==> WidenVariant(FromLayout(sts[v]), narrow, wide) == Some(variants[v])
  {
    if k > 0 {
      WidenedAre(sts, narrow, wide, k - 1);
    }
  }

  lemma {:induction false} WidenedMakesRoom(st: Layout, narrow: nat, wide: nat)
    requires st.shape.Arbitrary? && narrow <= st.size && WidenVariant(FromLayout(st), narrow, wide).Some?
    ensures MakesRoom(st, WidenVariant(FromLayout(st), narrow, wide).value, narrow, wide)
  {
  }

  /** What the tagged layout is: the variants laid out behind the smallest tag, making room for the
      final one; the least aligned size that holds them; and the narrowest range of tags. */
  lemma {:induction false} TaggedLayoutIs(e: EnumDef)
    returns (minIty: Integer, signed: bool, ity: Integer, sts: seq<Layout>)
    requires e.Accepted() && AllVariantsWellFormed(e) && e.repr.pack.None? && e.Tagged().Ok?
    ensures e.MinInteger() == Some((minIty, signed))
    ensures IsTagged(e, minIty, signed, ity, sts, e.Tagged().value)
  {
    var layout, i, s, j, structs := TaggedParts(e);
    minIty, signed, ity, sts := i, s, j, structs;
    BehindAreStructs(e, minIty, sts);
    EnumAlignIsUnique(e, sts, layout.align);
    MaxSizeIsLeast(sts, layout.align);
    TagIs(e, ity);
    VariantsMakeRoom(e, minIty, sts);
    FinalIs(e, minIty, sts);
  }

  lemma {:induction false} TagIs(e: EnumDef, ity: Integer)
    requires e.Accepted()
    ensures var range := e.TagRange(ity);
            IsTag(e, Tag(0, ity.Bytes(), range), ity, FromScalar(0, ity.Bytes(), range))
  {
    TagRangeIs(e, ity);
  }

  lemma {:induction false} FinalIs(e: EnumDef, minIty: Integer, sts: seq<Layout>)
    requires AllVariantsWellFormed(e) && e.repr.pack.None? && e.Structs(e.TagPrefix(minIty)) == Ok(sts)
    ensures IsFinal(e, minIty, sts, e.FinalInteger(minIty, sts))
  {
    forall v | 0 <= v < |sts|
      ensures forall j :: 0 <= j < |sts[v].shape.order| ==> sts[v].shape.order[j] < |e.variants[v]|
    {
      TaggedStruct(e, minIty, sts, v);
    }
    forall other
      ensures CanWiden(e, minIty, sts, other) <==> e.FinalInteger(minIty, sts) == other != minIty
    {
      FinalIsWidest(e, minIty, sts, other);
    }
  }

  /** Every variant, rounded up to the enum's alignment, stays below the target's bound on sizes. */
  ghost predicate StaysInBounds(e: EnumDef, sts: seq<Layout>) {
    forall align, v :: IsEnumAlign(e, sts, align) && 0 <= v < |sts| ==> AlignTo(sts[v].size, align) < e.dl.objSizeBound
  }

  /** There is a tagged layout exactly when the smallest tag is not wider than the discriminant type and
      the variants can be laid out behind it within the target's bound. */
  lemma {:induction false} TaggedExactlyWhen(e: EnumDef) returns (minIty: Integer, signed: bool)
    requires e.Accepted() && AllVariantsWellFormed(e) && e.repr.pack.None? && DiscriminantsInWidth(e)
    ensures e.MinInteger() == Some((minIty, signed))
    ensures e.Tagged().Ok? <==>
              CEnumsFit(e) && exists sts :: LaidOutBehind(e, minIty, sts) && StaysInBounds(e, sts)
  {
    minIty, signed := MinIntegerIsSome(e);
    StructsAre(e, e.TagPrefix(minIty));
    TaggedByStructs(e, minIty, signed);
    forall sts: seq<Layout>
      ensures LaidOutBehind(e, minIty, sts) <==> e.Structs(e.TagPrefix(minIty)) == Ok(sts)
    {
      BehindAreStructs(e, minIty, sts);
    }
    if e.Structs(e.TagPrefix(minIty)).Ok? {
      var sts := e.Structs(e.TagPrefix(minIty)).value;
      BoundsAreFitting(e, sts);
      TaggedOfIsSound(e, minIty, signed, sts);
      TaggedOfFails(e, minIty, signed, sts);
    }
  }

  lemma {:induction false} BoundsAreFitting(e: EnumDef, sts: seq<Layout>)
    requires sts != []
    ensures StaysInBounds(e, sts) <==> FitsTarget(e, sts)
  {
    var align := Max(e.dl.aggregateAlign, MaxAlign(sts));
    EnumAlignIsUnique(e, sts, align);
    forall a: nat
      ensures IsEnumAlign(e, sts, a) <==> a == align
    {
      EnumAlignIsUnique(e, sts, a);
    }
    forall v | 0 <= v < |sts|
      ensures AlignTo(sts[v].size, align) <= AlignTo(MaxSize(sts), align)
    {
      AlignToMonotone(sts[v].size, MaxSize(sts), align);
    }
  }

  lemma {:induction false} TaggedOfFails(e: EnumDef, minIty: Integer, signed: bool, sts: seq<Layout>)
    requires e.Accepted() && |sts| == |e.variants| && AllArbitrary(sts)
    ensures e.TaggedOf(minIty, signed, sts).Err? <==> !FitsTarget(e, sts)
  {
  }
}
