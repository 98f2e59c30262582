/** Picking the integer type of an enum's tag, and storing discriminants in it
    (`discr_range_of_repr` in compiler/rustc_middle/src/ty/layout.rs, the tagged half of
    compiler/rustc_const_eval/src/interpret/discriminant.rs).
 */
module Discriminants {
  import opened PowersOfTwo
  import opened Wrappers
  import opened WrappingRanges
  import opened Niches
  import opened Layouts

  /** Half the number of words of an integer type. */
  function Half(ity: Integer): nat {
    match ity
    case I8 => 0x80
    case I16 => 0x8000
    case I32 => 0x8000_0000
    case I64 => 0x8000_0000_0000_0000
    case I128 => 0x8000_0000_0000_0000_0000_0000_0000_0000
  }

  lemma {:induction false} HalfIsPow2(ity: Integer)
    ensures Pow2(ity.Bits() - 1) == Half(ity) && Pow2(ity.Bits()) == 2 * Half(ity)
  {
    WordCounts();
    HalfOf(ity.Bits());
  }

  lemma {:induction false} HalfOf(n: nat)
    requires n > 0
    ensures Pow2(n) == 2 * Pow2(n - 1)
  {
  }

  /** The values an integer type can hold. */
  predicate Holds(ity: Integer, signed: bool, v: int) {
    if signed then 0 <= v + Half(ity) < 2 * Half(ity) else 0 <= v < 2 * Half(ity)
  }

  /** `Integer::fit_unsigned`. */
  function FitUnsigned(x: nat): Integer {
    if Holds(I8, false, x) then I8
    else if Holds(I16, false, x) then I16
    else if Holds(I32, false, x) then I32
    else if Holds(I64, false, x) then I64
    else I128
  }

  /** `Integer::fit_signed`. */
  function FitSigned(x: int): Integer {
    if Holds(I8, true, x) then I8
    else if Holds(I16, true, x) then I16
    else if Holds(I32, true, x) then I32
    else if Holds(I64, true, x) then I64
    else I128
  }

  function Wider(a: Integer, b: Integer): Integer {
    if a.Log() < b.Log() then b else a
  }

  /** `i128::cast_unsigned` and `u128::cast_signed`. */
  function CastUnsigned(x: int): nat
    requires Holds(I128, true, x)
  {
    if x < 0 then x + U128 else x
  }

  function CastSigned(x: nat): int {
    if x < Half(I128) then x else x - U128
  }

  /** `discr_range_of_repr`; `None` where the source reports a bug. */
  function DiscrRange(repr: Repr, dl: DataLayout, minNegative: int, maxPositive: nat): Option<(Integer, bool)>
    requires Holds(I128, true, minNegative)
  {
    if minNegative < 0 && maxPositive >= Half(I128) then None
    else
      PickInteger(repr, dl,
        FitUnsigned(Max(CastUnsigned(minNegative), maxPositive)),
        Wider(FitSigned(minNegative), FitSigned(CastSigned(maxPositive))))
  }

  /** The choice between the fits, by the representation hint or by size. */
  function PickInteger(repr: Repr, dl: DataLayout, unsignedFit: Integer, signedFit: Integer): Option<(Integer, bool)> {
    if repr.intType.Some? then
      var discr := repr.intType.value.ToInteger(dl);
      var fit := if repr.intType.value.signed then signedFit else unsignedFit;
      if discr.Log() < fit.Log() then None else Some((discr, repr.intType.value.signed))
    else
      var atLeast := if repr.c then dl.cEnumMinSize else I8;
      if unsignedFit.Log() <= signedFit.Log() then Some((Wider(unsignedFit, atLeast), false))
      else Some((Wider(signedFit, atLeast), true))
  }

  /** The value that a discriminant stands for in the type checker's discriminant type. */
  function DiscrValue(d: nat, signed: bool, bits: nat): int {
    if signed then SignExtend(d, bits) else d
  }

  /** The least negative and greatest nonnegative value of the first `k` discriminants, both
      starting from zero. */
  function MinNegative(ds: seq<nat>, signed: bool, bits: nat, k: nat): int
    requires k <= |ds|
  {
    if k == 0 || !signed then 0
    else
      var v, m := SignExtend(ds[k - 1], bits), MinNegative(ds, signed, bits, k - 1);
      if v < m then v else m
  }

  function MaxPositive(ds: seq<nat>, signed: bool, bits: nat, k: nat): nat
    requires k <= |ds|
  {
    if k == 0 then 0
    else
      var v, m := DiscrValue(ds[k - 1], signed, bits), MaxPositive(ds, signed, bits, k - 1);
      if v > m then v else m
  }

  /** A wider integer type of the same signedness holds at least as much. */
  lemma {:induction false} WiderHolds(narrow: Integer, wide: Integer, signed: bool, v: int)
    requires narrow.Log() <= wide.Log() && Holds(narrow, signed, v)
    ensures Holds(wide, signed, v)
  {
  }

  lemma {:induction false} BitsOrdered(narrow: Integer, wide: Integer)
    requires narrow.Log() <= wide.Log()
    ensures narrow.Bits() <= wide.Bits() <= 128
  {
  }

  /** The fitting types are exactly the ones that hold the value. */
  lemma {:induction false} FitIsLeast(x: int, signed: bool, ity: Integer)
    requires Holds(I128, signed, x)
    ensures var fit := if signed then FitSigned(x) else FitUnsigned(x);
            fit.Log() <= ity.Log() <==> Holds(ity, signed, x)
  {
    var fit := if signed then FitSigned(x) else FitUnsigned(x);
    assert Holds(fit, signed, x);
    if fit.Log() <= ity.Log() {
      WiderHolds(fit, ity, signed, x);
    }
  }

  lemma {:induction false} SignExtendBounds(d: nat, n: nat)
    requires 1 <= n
    ensures 0 <= SignExtend(d, n) + Pow2(n - 1) < 2 * Pow2(n - 1)
    ensures d < Pow2(n) ==> SignExtend(d, n) == if d < Pow2(n - 1) then d else d - Pow2(n)
  {
    assert Pow2(n) == 2 * Pow2(n - 1);
    if d < Pow2(n) {
      ModNear(d, Pow2(n));
    }
  }

  lemma {:induction false} RangeBounds(ds: seq<nat>, signed: bool, bits: nat, k: nat)
    requires k <= |ds| && 1 <= bits && forall i :: 0 <= i < |ds| ==> ds[i] < Pow2(bits)
    ensures MinNegative(ds, signed, bits, k) <= 0
    ensures signed ==> 0 <= MinNegative(ds, signed, bits, k) + Pow2(bits - 1)
    ensures MaxPositive(ds, signed, bits, k) < if signed then Pow2(bits - 1) else Pow2(bits)
    ensures forall i :: 0 <= i < k ==>
              MinNegative(ds, signed, bits, k) <= DiscrValue(ds[i], signed, bits) <= MaxPositive(ds, signed, bits, k)
  {
    if k > 0 {
      RangeBounds(ds, signed, bits, k - 1);
      SignExtendBounds(ds[k - 1], bits);
    }
  }

  /** `min..=max` is a range of values of the discriminant type. */
  predicate RangeOf(ty: IntegerType, dl: DataLayout, min: int, max: nat) {
    && min <= 0
    && (if ty.signed then Holds(ty.ToInteger(dl), true, min) && Holds(ty.ToInteger(dl), true, max)
        else min == 0 && Holds(ty.ToInteger(dl), false, max))
  }

  lemma {:induction false} FixedRangeHolds(repr: Repr, dl: DataLayout, min: int, max: nat)
    requires repr.intType.Some? && RangeOf(repr.intType.value, dl, min, max)
    ensures Holds(I128, true, min)
    ensures DiscrRange(repr, dl, min, max) == Some((repr.intType.value.ToInteger(dl), repr.intType.value.signed))
  {
    var ty, discr := repr.intType.value, repr.intType.value.ToInteger(dl);
    WiderHolds(discr, I128, ty.signed, min);
    WiderHolds(discr, I128, ty.signed, max);
    FitIsLeast(max, ty.signed, discr);
    if ty.signed {
      FitIsLeast(min, true, discr);
    }
  }

  /** The choice without a hint, given what the two fits hold. */
  lemma {:induction false} FreeChoiceHolds(
      repr: Repr, dl: DataLayout, unsignedFit: Integer, signedFit: Integer, min: int, max: nat)
    requires repr.intType.None? && min <= 0
    requires signedFit.Log() <= dl.pointerInteger.Log()
    requires Holds(signedFit, true, min) && Holds(signedFit, true, max)
    requires if min == 0 then Holds(unsignedFit, false, max) else unsignedFit == I128
    ensures PickInteger(repr, dl, unsignedFit, signedFit).Some?
    ensures var (ity, signed) := PickInteger(repr, dl, unsignedFit, signedFit).value;
            && (ity == I128 || (Holds(ity, signed, min) && Holds(ity, signed, max)))
            && (ity.Log() <= dl.pointerInteger.Log() || (repr.c && ity == dl.cEnumMinSize))
  {
    var (ity, signed) := PickInteger(repr, dl, unsignedFit, signedFit).value;
    if signed {
      WiderHolds(signedFit, ity, true, min);
      WiderHolds(signedFit, ity, true, max);
    } else if min == 0 {
      WiderHolds(unsignedFit, ity, false, max);
    }
  }

  lemma {:induction false} FreeRangeHolds(repr: Repr, dl: DataLayout, min: int, max: nat)
    requires repr.intType.None? && RangeOf(PointerSized(true), dl, min, max)
    ensures Holds(I128, true, min) && DiscrRange(repr, dl, min, max).Some?
    ensures var (ity, signed) := DiscrRange(repr, dl, min, max).value;
            && (ity == I128 || (Holds(ity, signed, min) && Holds(ity, signed, max)))
            && (ity.Log() <= dl.pointerInteger.Log() || (repr.c && ity == dl.cEnumMinSize))
  {
    WiderHolds(dl.pointerInteger, I128, true, min);
    WiderHolds(dl.pointerInteger, I128, true, max);
    var unsignedFit, signedFit := FitsOfRange(dl.pointerInteger, min, max);
    FreeChoiceHolds(repr, dl, unsignedFit, signedFit, min, max);
  }

  lemma {:induction false} FitsOfRange(
      discr: Integer, min: int, max: nat) returns (unsignedFit: Integer, signedFit: Integer)
    requires min <= 0 && Holds(discr, true, min) && Holds(discr, true, max)
    requires Holds(I128, true, min) && Holds(I128, true, max)
    ensures unsignedFit == FitUnsigned(Max(CastUnsigned(min), max))
    ensures signedFit == Wider(FitSigned(min), FitSigned(CastSigned(max)))
    ensures signedFit.Log() <= discr.Log()
    ensures Holds(signedFit, true, min) && Holds(signedFit, true, max)
    ensures if min == 0 then Holds(unsignedFit, false, max) else unsignedFit == I128
  {
    signedFit := SignedFitOfRange(discr, min, max);
    unsignedFit := UnsignedFitOfRange(min, max);
  }

  lemma {:induction false} SignedFitOfRange(discr: Integer, min: int, max: nat) returns (fit: Integer)
    requires Holds(discr, true, min) && Holds(discr, true, max)
    requires Holds(I128, true, min) && Holds(I128, true, max)
    ensures fit == Wider(FitSigned(min), FitSigned(CastSigned(max)))
    ensures fit.Log() <= discr.Log() && Holds(fit, true, min) && Holds(fit, true, max)
  {
    assert CastSigned(max) == max;
    var low, high := FitSigned(min), FitSigned(max);
    FitIsLeast(min, true, discr);
    FitIsLeast(max, true, discr);
    FitIsLeast(min, true, low);
    FitIsLeast(max, true, high);
    fit := Wider(low, high);
    WiderHolds(low, fit, true, min);
    WiderHolds(high, fit, true, max);
  }

  /** A negative value, read as unsigned, needs the widest type. */
  lemma {:induction false} UnsignedFitOfRange(min: int, max: nat) returns (fit: Integer)
    requires Holds(I128, true, min) && Holds(I128, true, max) && min <= 0
    ensures fit == FitUnsigned(Max(CastUnsigned(min), max))
    ensures if min == 0 then Holds(fit, false, max) else fit == I128
  {
    var x := Max(CastUnsigned(min), max);
    fit := FitUnsigned(x);
    FitIsLeast(x, false, fit);
    if min < 0 {
      FitIsLeast(x, false, I64);
    }
  }

  lemma {:induction false} RangeHolds(
      repr: Repr, dl: DataLayout, min: int, max: nat) returns (ity: Integer, signed: bool)
    requires RangeOf(repr.DiscrType(), dl, min, max)
    ensures Holds(I128, true, min) && DiscrRange(repr, dl, min, max) == Some((ity, signed))
    ensures var discr := repr.DiscrType().ToInteger(dl);
            && (ity.Log() >= discr.Log() || (Holds(ity, signed, min) && Holds(ity, signed, max)))
            && (ity.Log() <= discr.Log() || (repr.c && repr.intType.None? && ity == dl.cEnumMinSize))
  {
    if repr.intType.Some? {
      FixedRangeHolds(repr, dl, min, max);
    } else {
      FreeRangeHolds(repr, dl, min, max);
    }
    var pair := DiscrRange(repr, dl, min, max).value;
    ity, signed := pair.0, pair.1;
  }

  /** The chosen integer type holds every discriminant value, unless it is as wide as the
      discriminant type itself; it is never wider than that type except by `repr(C)`. */
  lemma {:induction false} DiscrRangeHolds(
      repr: Repr, dl: DataLayout, ds: seq<nat>) returns (ity: Integer, signed: bool)
    requires forall i :: 0 <= i < |ds| ==> ds[i] < Pow2(repr.DiscrType().ToInteger(dl).Bits())
    ensures var ty, bits := repr.DiscrType(), repr.DiscrType().ToInteger(dl).Bits();
            && Holds(I128, true, MinNegative(ds, ty.signed, bits, |ds|))
            && DiscrRange(repr, dl, MinNegative(ds, ty.signed, bits, |ds|), MaxPositive(ds, ty.signed, bits, |ds|))
               == Some((ity, signed))
    ensures var ty, discr := repr.DiscrType(), repr.DiscrType().ToInteger(dl);
            && (ity.Log() >= discr.Log()
                || forall i :: 0 <= i < |ds| ==> Holds(ity, signed, DiscrValue(ds[i], ty.signed, discr.Bits())))
            && (ity.Log() <= discr.Log() || (repr.c && repr.intType.None? && ity == dl.cEnumMinSize))
  {
    var ty, discr := repr.DiscrType(), repr.DiscrType().ToInteger(dl);
    var bits := discr.Bits();
    HalfIsPow2(discr);
    RangeBounds(ds, ty.signed, bits, |ds|);
    RangeBoundsZero(ds, ty.signed, bits, |ds|);
    var min, max := MinNegative(ds, ty.signed, bits, |ds|), MaxPositive(ds, ty.signed, bits, |ds|);
    ity, signed := RangeHolds(repr, dl, min, max);
    if ity.Log() < discr.Log() {
      forall i | 0 <= i < |ds|
        ensures Holds(ity, signed, DiscrValue(ds[i], ty.signed, bits))
      {
        HoldsBetween(ity, signed, min, DiscrValue(ds[i], ty.signed, bits), max);
      }
    }
  }

  /** `repr(C)` never goes below the target's minimum. */
  lemma {:induction false} AtLeastTheMinimum(repr: Repr, dl: DataLayout, min: int, max: nat)
    requires repr.c && repr.intType.None? && Holds(I128, true, min) && DiscrRange(repr, dl, min, max).Some?
    ensures dl.cEnumMinSize.Log() <= DiscrRange(repr, dl, min, max).value.0.Log()
  {
  }

  lemma {:induction false} HoldsBetween(ity: Integer, signed: bool, low: int, v: int, high: int)
    requires low <= v <= high && Holds(ity, signed, low) && Holds(ity, signed, high)
    ensures Holds(ity, signed, v)
  {
  }

  lemma {:induction false} RangeBoundsZero(ds: seq<nat>, signed: bool, bits: nat, k: nat)
    requires k <= |ds|
    ensures !signed ==> MinNegative(ds, signed, bits, k) == 0
  {
  }

  // ----- a tag that stores the discriminant directly

  /** `tag_for_variant`: the low bits of the discriminant. */
  function DirectTag(d: nat, tagBits: nat): nat {
    Truncate(d, tagBits)
  }

  /** `read_discriminant`: the tag cast to the discriminant type. */
  function DirectDiscriminant(tag: nat, signed: bool, tagBits: nat, discrBits: nat): nat {
    (if signed then SignExtend(tag, tagBits) else tag) % Pow2(discrBits)
  }

  /** Storing a discriminant in a tag that holds its value, and reading it back. */
  lemma {:induction false} DirectRoundTrip(d: nat, discrSigned: bool, discr: Integer, tag: Integer, tagSigned: bool)
    requires d < Pow2(discr.Bits())
    requires tag.Log() >= discr.Log() || Holds(tag, tagSigned, DiscrValue(d, discrSigned, discr.Bits()))
    ensures DirectTag(d, tag.Bits()) < Pow2(tag.Bits())
    ensures DirectDiscriminant(DirectTag(d, tag.Bits()), tagSigned, tag.Bits(), discr.Bits()) == d
  {
    if tag.Log() >= discr.Log() {
      BitsOrdered(discr, tag);
      WideRoundTrip(d, discr.Bits(), tag.Bits(), tagSigned);
    } else {
      BitsOrdered(tag, discr);
      NarrowRoundTrip(d, discrSigned, discr.Bits(), tag, tagSigned);
    }
  }

  lemma {:induction false} WideRoundTrip(d: nat, n: nat, t: nat, tagSigned: bool)
    requires d < Pow2(n) && 1 <= n <= t
    ensures DirectTag(d, t) == d < Pow2(t)
    ensures DirectDiscriminant(d, tagSigned, t, n) == d
  {
    Pow2Monotone(n, t);
    ModNear(d, Pow2(t));
    ModNear(d, Pow2(n));
    SignExtendBounds(d, t);
    TurnsVanish(d, -1, t, n);
  }

  lemma {:induction false} NarrowRoundTrip(d: nat, discrSigned: bool, n: nat, tag: Integer, tagSigned: bool)
    requires d < Pow2(n) && tag.Bits() <= n && Holds(tag, tagSigned, DiscrValue(d, discrSigned, n))
    ensures var stored := DirectTag(d, tag.Bits());
            stored < Pow2(tag.Bits()) && DirectDiscriminant(stored, tagSigned, tag.Bits(), n) == d
  {
    // `d` is its value up to one turn of the discriminant type, hence up to turns of the tag.
    var v := DiscrValue(d, discrSigned, n);
    SignExtendBounds(d, n);
    SameWords(d, v, n, tag.Bits());
    TagIsValue(v, tag, tagSigned);
  }

  lemma {:induction false} SameWords(d: nat, v: int, n: nat, t: nat)
    requires t <= n && d < Pow2(n) && (d == v || d == v + Pow2(n))
    ensures v % Pow2(t) == d % Pow2(t) && v % Pow2(n) == d
  {
    if d != v {
      TurnsVanish(v, 1, n, t);
      TurnsVanish(v, 1, n, n);
    }
    ModNear(d, Pow2(n));
  }

  lemma {:induction false} TagIsValue(v: int, tag: Integer, tagSigned: bool)
    requires Holds(tag, tagSigned, v)
    ensures 0 <= v % Pow2(tag.Bits()) < Pow2(tag.Bits())
    ensures (if tagSigned then SignExtend(v % Pow2(tag.Bits()), tag.Bits()) else v % Pow2(tag.Bits())) == v
  {
    HalfIsPow2(tag);
    var m := Pow2(tag.Bits());
    ModNear(v, m);
    SignExtendBounds(v % m, tag.Bits());
  }

  lemma {:induction false} TurnsOfProduct(x: int, turns: int, a: int, m: int)
    requires m > 0
    ensures (x + turns * (a * m)) % m == x % m
  {
    assert turns * (a * m) == (turns * a) * m;
    ModTurns(x, turns * a, m);
  }

  /** Turns of a wider word are invisible to a narrower one. */
  lemma {:induction false} TurnsVanish(x: int, turns: int, wide: nat, narrow: nat)
    requires narrow <= wide
    ensures (x + turns * Pow2(wide)) % Pow2(narrow) == x % Pow2(narrow)
  {
    Pow2Add(wide - narrow, narrow);
    TurnsOfProduct(x, turns, Pow2(wide - narrow), Pow2(narrow));
  }
}
