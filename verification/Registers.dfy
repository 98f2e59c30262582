/** What the registers of a homogeneous aggregate are, said of the values it holds
    (compiler/rustc_abi/src/callconv.rs).
 */
module Registers {
  import opened Wrappers
  import opened Homogeneous

  /** A value of this representation and size is passed in register `r`: floats in float registers,
      integers and pointers in integer registers, vectors in vector registers. */
  predicate IsPassedIn(backend: Backend, size: nat, r: Reg) {
    && size == r.size
    && match r.kind
       case FloatReg => backend == Scalar(true)
       case IntegerReg => backend == Scalar(false)
       case VectorReg(element) => backend == SimdVector(element)
  }

  /** `t` is such a value or holds one, at any depth. */
  ghost predicate Holds(t: TyLayout, backend: Backend, size: nat)
    decreases t, 0
  {
    if !t.backend.Aggregate? then t.backend == backend && t.size == size
    else
      || (match t.shape
          case Primitive => false
          case Array(count, element) => count > 0 && Holds(element, backend, size)
          case Union(fields) => FieldsHold(fields, backend, size)
          case Arbitrary(_, fields) => FieldsHold(fields, backend, size))
      || (exists v :: 0 <= v < |t.variants| && VariantHolds(t.variants[v], backend, size))
  }

  ghost predicate VariantHolds(variant: Variant, backend: Backend, size: nat)
    decreases variant, 2
  {
    match variant
    case Variant(_, fields) => FieldsHold(fields, backend, size)
  }

  ghost predicate FieldsHold(fields: seq<TyLayout>, backend: Backend, size: nat)
    decreases fields, 1
  {
    exists i :: 0 <= i < |fields| && Holds(fields[i], backend, size)
  }

  // ----- every value it holds is passed in the unit

  lemma {:induction false} HeldIsPassed(t: TyLayout, base: int, r: Reg, backend: Backend, size: nat)
    requires LeavesAre(t, base, r) && Holds(t, backend, size)
    ensures IsPassedIn(backend, size, r)
    decreases t, 0
  {
    if t.backend.Aggregate? {
      if v :| 0 <= v < |t.variants| && VariantHolds(t.variants[v], backend, size) {
        assert VariantLeavesAre(t.variants[v], base, r);
        HeldInVariantIsPassed(t.variants[v], base, r, backend, size);
      } else {
        match t.shape
        case Array(count, element) =>
          assert LeavesAre(element, base + 0 * element.size, r);
          HeldIsPassed(element, base + 0 * element.size, r, backend, size);
        case Union(fields) => HeldInFieldIsPassed([], fields, base, r, backend, size);
        case Arbitrary(offsets, fields) => HeldInFieldIsPassed(offsets, fields, base, r, backend, size);
      }
    }
  }

  lemma {:induction false} HeldInVariantIsPassed(variant: Variant, base: int, r: Reg, backend: Backend, size: nat)
    requires VariantLeavesAre(variant, base, r) && VariantHolds(variant, backend, size)
    ensures IsPassedIn(backend, size, r)
    decreases variant, 2
  {
    match variant
    case Variant(offsets, fields) => HeldInFieldIsPassed(offsets, fields, base, r, backend, size);
  }

  lemma {:induction false} HeldInFieldIsPassed(
    offsets: seq<nat>, fields: seq<TyLayout>, base: int, r: Reg, backend: Backend, size: nat)
    requires FieldLeavesAre(offsets, fields, base, r) && FieldsHold(fields, backend, size)
    ensures IsPassedIn(backend, size, r)
    decreases fields, 1
  {
    var i :| 0 <= i < |fields| && Holds(fields[i], backend, size);
    HeldIsPassed(fields[i], base + OffsetAt(offsets, i), r, backend, size);
  }

  // ----- the unit is that of some value it holds

  lemma {:induction false} UnitIsHeld(t: TyLayout, r: Reg, backend: Backend, size: nat)
    requires HomogeneousAggregate(t) == Ok(Some(r)) && IsPassedIn(backend, size, r)
    ensures Holds(t, backend, size)
    decreases t, 3
  {
    if t.backend.Aggregate? {
      var own := OwnFields(t).value;
      if own.unit.Some? {
        VariantsKeepOwn(own, t.variants, |t.variants|);
        OwnUnitIsHeld(t, r, backend, size);
      } else {
        var v := VariantWithUnit(own, t.variants, |t.variants|, r);
        VariantUnitIsHeld(own, t.variants[v], r, backend, size);
      }
    }
  }

  lemma {:induction false} OwnUnitIsHeld(t: TyLayout, r: Reg, backend: Backend, size: nat)
    requires t.backend.Aggregate? && OwnFields(t).Ok? && OwnFields(t).value.unit == Some(r)
    requires IsPassedIn(backend, size, r)
    ensures Holds(t, backend, size)
    decreases t, 2
  {
    match t.shape
    case Array(_, element) => UnitIsHeld(element, r, backend, size);
    case Union(fields) => FieldUnitIsHeld([], fields, true, 0, |fields|, r, backend, size);
    case Arbitrary(offsets, fields) => FieldUnitIsHeld(offsets, fields, false, 0, |fields|, r, backend, size);
  }

  lemma {:induction false} FieldUnitIsHeld(
    offsets: seq<nat>, fields: seq<TyLayout>, isUnion: bool, start: nat, k: nat, r: Reg, backend: Backend, size: nat)
    requires k <= |fields| && FieldsUpTo(offsets, fields, isUnion, start, k).Ok?
    requires FieldsUpTo(offsets, fields, isUnion, start, k).value.unit == Some(r) && IsPassedIn(backend, size, r)
    ensures FieldsHold(fields, backend, size)
    decreases fields, 1, k
  {
    if k > 0 {
      var before := FieldsUpTo(offsets, fields, isUnion, start, k - 1);
      if before.value.unit.Some? {
        FieldUnitIsHeld(offsets, fields, isUnion, start, k - 1, r, backend, size);
      } else {
        UnitIsHeld(fields[k - 1], r, backend, size);
      }
    }
  }

  lemma {:induction false} VariantWithUnit(own: Fold, variants: seq<Variant>, k: nat, r: Reg) returns (v: nat)
    requires k <= |variants| && VariantsUpTo(own, variants, k).Ok? && own.unit.None?
    requires VariantsUpTo(own, variants, k).value.unit == Some(r)
    ensures v < k && VariantFold(own, variants[v]).Ok? && VariantFold(own, variants[v]).value.unit == Some(r)
  {
    if VariantsUpTo(own, variants, k - 1).value.unit.Some? {
      v := VariantWithUnit(own, variants, k - 1, r);
    } else {
      v := k - 1;
    }
  }

  lemma {:induction false} VariantUnitIsHeld(own: Fold, variant: Variant, r: Reg, backend: Backend, size: nat)
    requires VariantFold(own, variant).Ok? && VariantFold(own, variant).value.unit == Some(r)
    requires IsPassedIn(backend, size, r)
    ensures VariantHolds(variant, backend, size)
    decreases variant, 2
  {
    match variant
    case Variant(offsets, fields) =>
      FieldUnitIsHeld(offsets, fields, false, own.total, |fields|, r, backend, size);
  }

  // ----- main results

  /** A layout without size holds no registers. */
  lemma {:induction false} EmptyHoldsNothing(t: TyLayout, backend: Backend, size: nat)
    requires WellFormed(t) && t.size == 0
    ensures !Holds(t, backend, size)
  {
    if Holds(t, backend, size) {
      EmptyHasNoLeaves(t, 0, Reg(FloatReg, size + 1));
      HeldIsPassed(t, 0, Reg(FloatReg, size + 1), backend, size);
    }
  }

  /** A homogeneous aggregate holds values of exactly one representation and size, those that are
      passed in its unit; without a unit it holds none. */
  lemma {:induction false} HoldsItsUnit(t: TyLayout, backend: Backend, size: nat)
    requires WellFormed(t) && HomogeneousAggregate(t).Ok?
    ensures var unit := HomogeneousAggregate(t).value;
            Holds(t, backend, size) <==> unit.Some? && IsPassedIn(backend, size, unit.value)
  {
    HomogeneousAggregateIsHomogeneous(t);
    match HomogeneousAggregate(t).value {
      case None => EmptyHoldsNothing(t, backend, size);
      case Some(r) =>
        if Holds(t, backend, size) {
          HeldIsPassed(t, 0, r, backend, size);
        }
        if IsPassedIn(backend, size, r) {
          UnitIsHeld(t, r, backend, size);
        }
    }
  }

  /** What holds two different kinds of value, and what is not sized, is heterogeneous. */
  lemma {:induction false} MixedIsHeterogeneous(t: TyLayout, b1: Backend, s1: nat, b2: Backend, s2: nat)
    requires WellFormed(t)
    requires t.backend == Aggregate(false) || (Holds(t, b1, s1) && Holds(t, b2, s2) && (b1 != b2 || s1 != s2))
    ensures HomogeneousAggregate(t) == Heterogeneous
  {
    if t.backend != Aggregate(false) {
      HomogeneousAggregateIsHomogeneous(t);
      if OverNever(t) {
        NeverHoldsNothing(t, b1, s1);
      }
      if HomogeneousAggregate(t).Ok? {
        HoldsItsUnit(t, b1, s1);
        HoldsItsUnit(t, b2, s2);
      }
    }
  }

  lemma {:induction false} NeverHoldsNothing(t: TyLayout, backend: Backend, size: nat)
    requires WellFormed(t) && OverNever(t)
    ensures !Holds(t, backend, size)
  {
    OverNeverIsPassedOver(t);
    EmptyHoldsNothing(t, backend, size);
  }
}
