/** Aggregates that are passed like an array of one register type (`homogeneous_aggregate` in
    compiler/rustc_abi/src/callconv.rs).
 */
module Homogeneous {
  import opened PowersOfTwo
  import opened Wrappers

  datatype RegKind = IntegerReg | FloatReg | VectorReg(element: nat)

  datatype Reg = Reg(kind: RegKind, size: nat)

  /** How a value is represented: as one register, or as an aggregate (a scalar pair is one). */
  datatype Backend = Scalar(isFloat: bool) | SimdVector(element: nat) | Aggregate(sized: bool)

  datatype Shape =
    | Primitive
    | Array(count: nat, element: TyLayout)
    | Union(fields: seq<TyLayout>)
    | Arbitrary(offsets: seq<nat>, fields: seq<TyLayout>)

  datatype Variant = Variant(offsets: seq<nat>, fields: seq<TyLayout>)

  /** A layout together with those of its fields; `variants` is empty unless the type is an
      enum with several variants. */
  datatype TyLayout = TyLayout(backend: Backend, size: nat, align: nat, shape: Shape, variants: seq<Variant>) {

    predicate Is1Zst() {
      (backend.Aggregate? ==> backend.sized) && size == 0 && align == 0
    }

    predicate IsAggregate() {
      backend == Aggregate(true)
    }
  }

  /** Errors are heterogeneous layouts; `Panic` stands for the assertions of the source. */
  datatype Outcome<+T> = Ok(value: T) | Heterogeneous | Panic

  /** `HomogeneousAggregate`: the unit, or `None` without data. */
  type Unit = Option<Reg>

  /** `HomogeneousAggregate::merge`. */
  function Merge(a: Unit, b: Unit): Outcome<Unit> {
    if b.None? then Ok(a)
    else if a.None? then Ok(b)
    else if a != b then Heterogeneous
    else Ok(a)
  }

  datatype Fold = Fold(unit: Unit, total: nat)

  function RegOf(t: TyLayout): Reg
    requires !t.backend.Aggregate?
  {
    match t.backend
    case Scalar(isFloat) => Reg(if isFloat then FloatReg else IntegerReg, t.size)
    case SimdVector(element) => Reg(VectorReg(element), t.size)
  }

  /** `FieldsShape::offset`; the fields of a union, given without offsets, are all at zero. */
  function OffsetAt(offsets: seq<nat>, i: nat): nat {
    if i < |offsets| then offsets[i] else 0
  }

  /** The loop of `from_fields_at` over the first `k` fields. */
  function FieldsUpTo(offsets: seq<nat>, fields: seq<TyLayout>, isUnion: bool, start: nat, k: nat): Outcome<Fold>
    requires k <= |fields|
    decreases fields, 1, k
  {
    if k == 0 then Ok(Fold(None, start))
    else
      var before := FieldsUpTo(offsets, fields, isUnion, start, k - 1);
      var field := fields[k - 1];
      if !before.Ok? || field.Is1Zst() then before
      else if !isUnion && before.value.total != OffsetAt(offsets, k - 1) then Heterogeneous
      else
        var inner := HomogeneousAggregate(field);
        if !inner.Ok? then (if inner.Panic? then Panic else Heterogeneous)
        else
          var merged := Merge(before.value.unit, inner.value);
          if !merged.Ok? then Heterogeneous
          else
            var total := if isUnion then Max(before.value.total, field.size) else before.value.total + field.size;
            Ok(Fold(merged.value, total))
  }

  /** `from_fields_at` for the layout itself. */
  function OwnFields(t: TyLayout): Outcome<Fold>
    decreases t, 2
  {
    match t.shape
    case Primitive => Panic
    case Array(count, element) =>
      if count == 0 then Ok(Fold(None, t.size))
      else
        var inner := HomogeneousAggregate(element);
        if inner.Ok? then Ok(Fold(inner.value, t.size)) else if inner.Panic? then Panic else Heterogeneous
    case Union(fields) => FieldsUpTo([], fields, true, 0, |fields|)
    case Arbitrary(offsets, fields) => FieldsUpTo(offsets, fields, false, 0, |fields|)
  }

  /** The loop over the first `k` variants, each from `start` on. */
  function VariantsUpTo(own: Fold, variants: seq<Variant>, k: nat): Outcome<Fold>
    requires k <= |variants|
    decreases variants, 1, k
  {
    if k == 0 then Ok(own)
    else
      var before := VariantsUpTo(own, variants, k - 1);
      var Variant(offsets, fields) := variants[k - 1];
      var variant := FieldsUpTo(offsets, fields, false, own.total, |fields|);
      if !before.Ok? then before
      else if !variant.Ok? then variant
      else
        var merged := Merge(before.value.unit, variant.value.unit);
        if !merged.Ok? then Heterogeneous
        else Ok(Fold(merged.value, Max(before.value.total, variant.value.total)))
  }

  /** `homogeneous_aggregate`. */
  function HomogeneousAggregate(t: TyLayout): Outcome<Unit>
    decreases t, 3
  {
    if !t.backend.Aggregate? then Ok(Some(RegOf(t)))
    else if !t.backend.sized then Heterogeneous
    else
      var own := OwnFields(t);
      if !own.Ok? then (if own.Panic? then Panic else Heterogeneous)
      else
        var all := VariantsUpTo(own.value, t.variants, |t.variants|);
        if !all.Ok? then (if all.Panic? then Panic else Heterogeneous)
        else if all.value.total != t.size then Heterogeneous
        else if all.value.unit.Some? <==> all.value.total == 0 then Panic
        else Ok(all.value.unit)
  }

  // ----- layouts as the layout calculator makes them

  /** Registers have a size, the only other primitive layout is that of the never type, arrays
      are made of their elements, and fields lie inside. */
  predicate WellFormed(t: TyLayout)
    decreases t, 0
  {
    if !t.backend.Aggregate? then t.size > 0
    else
      && (match t.shape
          case Primitive => t.backend.sized && t.size == 0 && t.align == 0 && t.variants == []
          case Array(count, element) =>
            && t.size == count * element.size && t.align == element.align
            && WellFormed(element)
          case Union(fields) => WellFormedFields([], fields, t.size)
          case Arbitrary(offsets, fields) => WellFormedFields(offsets, fields, t.size))
      && (forall v :: 0 <= v < |t.variants| ==> WellFormedVariant(t.variants[v], t.size))
  }

  predicate WellFormedVariant(variant: Variant, size: nat)
    decreases variant, 2
  {
    match variant
    case Variant(offsets, fields) => WellFormedFields(offsets, fields, size)
  }

  predicate WellFormedFields(offsets: seq<nat>, fields: seq<TyLayout>, size: nat)
    decreases fields, 1
  {
    forall i :: 0 <= i < |fields| ==> WellFormed(fields[i]) && OffsetAt(offsets, i) + fields[i].size <= size
  }

  /** Every register of `t`, placed at `base`, is a `unit` at a multiple of its size. */
  ghost predicate LeavesAre(t: TyLayout, base: int, unit: Reg)
    decreases t, 0
  {
    if !t.backend.Aggregate? then RegOf(t) == unit && unit.size > 0 && base % unit.size == 0
    else
      && (match t.shape
          case Primitive => true
          case Array(count, element) => forall i: nat :: i < count ==> LeavesAre(element, base + i * element.size, unit)
          case Union(fields) => FieldLeavesAre([], fields, base, unit)
          case Arbitrary(offsets, fields) => FieldLeavesAre(offsets, fields, base, unit))
      && (forall v :: 0 <= v < |t.variants| ==> VariantLeavesAre(t.variants[v], base, unit))
  }

  ghost predicate VariantLeavesAre(variant: Variant, base: int, unit: Reg)
    decreases variant, 2
  {
    match variant
    case Variant(offsets, fields) => FieldLeavesAre(offsets, fields, base, unit)
  }

  ghost predicate FieldLeavesAre(offsets: seq<nat>, fields: seq<TyLayout>, base: int, unit: Reg)
    decreases fields, 1
  {
    forall i :: 0 <= i < |fields| ==> LeavesAre(fields[i], base + OffsetAt(offsets, i), unit)
  }

  // ----- a homogeneous aggregate really is one

  lemma {:induction false} MultiplesAdd(x: int, y: int, m: int)
    requires m > 0 && x % m == 0 && y % m == 0
    ensures (x + y) % m == 0 && (x - y) % m == 0
  {
    ModInner(x, y, m);
  }

  lemma {:induction false} MultipleTimes(i: nat, x: int, m: int)
    requires m > 0 && x % m == 0
    ensures i * x % m == 0
  {
    var q := x / m;
    assert i * x == (i * q) * m;
    DivModUnique(i * q, m, 0);
  }

  /** A layout without size has no registers. */
  lemma {:induction false} EmptyHasNoLeaves(t: TyLayout, base: int, unit: Reg)
    requires WellFormed(t) && t.size == 0
    ensures t.backend.Aggregate? && LeavesAre(t, base, unit)
    decreases t, 0
  {
    match t.shape {
      case Primitive =>
      case Array(count, element) =>
        ProductBounds(count, if element.size > 0 then element.size else 1);
        forall i: nat | i < count
          ensures LeavesAre(element, base + i * element.size, unit)
        {
          EmptyHasNoLeaves(element, base + i * element.size, unit);
        }
      case Union(fields) => EmptyFieldsHaveNoLeaves([], fields, base, unit);
      case Arbitrary(offsets, fields) => EmptyFieldsHaveNoLeaves(offsets, fields, base, unit);
    }
    forall v | 0 <= v < |t.variants|
      ensures VariantLeavesAre(t.variants[v], base, unit)
    {
      EmptyVariantHasNoLeaves(t.variants[v], base, unit);
    }
  }

  lemma {:induction false} EmptyVariantHasNoLeaves(variant: Variant, base: int, unit: Reg)
    requires WellFormedVariant(variant, 0)
    ensures VariantLeavesAre(variant, base, unit)
    decreases variant, 2
  {
    match variant
    case Variant(offsets, fields) => EmptyFieldsHaveNoLeaves(offsets, fields, base, unit);
  }

  lemma {:induction false} EmptyFieldsHaveNoLeaves(offsets: seq<nat>, fields: seq<TyLayout>, base: int, unit: Reg)
    requires WellFormedFields(offsets, fields, 0)
    ensures FieldLeavesAre(offsets, fields, base, unit)
    decreases fields, 1
  {
    forall i | 0 <= i < |fields|
      ensures LeavesAre(fields[i], base + OffsetAt(offsets, i), unit)
    {
      EmptyHasNoLeaves(fields[i], base + OffsetAt(offsets, i), unit);
    }
  }

  // ----- sizes are multiples of the unit

  /** A length that a unit fills: without a unit it is zero, otherwise a positive multiple. */
  predicate Fills(unit: Unit, length: int) {
    match unit
    case None => length == 0
    case Some(r) => r.size > 0 && length > 0 && length % r.size == 0
  }

  /** `unit` can be merged into `whole` without changing it. */
  predicate Within(unit: Unit, whole: Unit) {
    unit.None? || unit == whole
  }

  lemma {:induction false} FillsAdd(a: Unit, x: int, b: Unit, y: int)
    requires Fills(a, x) && Fills(b, y) && Merge(a, b).Ok?
    ensures Fills(Merge(a, b).value, x + y)
    ensures Within(a, Merge(a, b).value) && Within(b, Merge(a, b).value)
  {
    if a.Some? && b.Some? {
      MultiplesAdd(x, y, a.value.size);
    }
  }

  lemma {:induction false} FillsMax(a: Unit, x: int, b: Unit, y: int)
    requires Fills(a, x) && Fills(b, y) && Merge(a, b).Ok?
    ensures Fills(Merge(a, b).value, if x < y then y else x)
    ensures Within(a, Merge(a, b).value) && Within(b, Merge(a, b).value)
  {
  }

  /** The never type, or a nonempty array of it, nested however deep. */
  predicate OverNever(t: TyLayout)
    decreases t
  {
    && t.IsAggregate()
    && match t.shape
       case Primitive => true
       case Array(count, element) => count > 0 && OverNever(element)
       case _ => false
  }

  /** As a field such a layout is passed over. */
  lemma {:induction false} OverNeverIsPassedOver(t: TyLayout)
    requires WellFormed(t) && OverNever(t)
    ensures t.size == 0 && t.align == 0 && t.Is1Zst()
  {
    match t.shape
    case Primitive =>
    case Array(_, element) => OverNeverIsPassedOver(element);
  }

  /** The source panics exactly on the never type and arrays of it; otherwise the size is filled
      by the unit. */
  lemma {:induction false} AggregateFills(t: TyLayout)
    requires WellFormed(t)
    ensures HomogeneousAggregate(t).Panic? <==> OverNever(t)
    ensures HomogeneousAggregate(t).Ok? ==> Fills(HomogeneousAggregate(t).value, t.size)
    decreases t, 3
  {
    if !t.backend.Aggregate? {
      DivModUnique(1, t.size, 0);
    } else if t.backend.sized {
      OwnFieldsFill(t);
      if OwnFields(t).Ok? {
        VariantsFill(OwnFields(t).value, t.variants, |t.variants|, t.size);
      }
    }
  }

  lemma {:induction false} OwnFieldsFill(t: TyLayout)
    requires WellFormed(t) && t.IsAggregate()
    ensures OwnFields(t).Panic? <==> OverNever(t)
    ensures OwnFields(t).Ok? ==> Fills(OwnFields(t).value.unit, OwnFields(t).value.total)
    decreases t, 2
  {
    match t.shape
    case Primitive =>
    case Array(count, element) =>
      if count > 0 {
        AggregateFills(element);
        ArrayFills(count, element.size, HomogeneousAggregate(element));
      }
    case Union(fields) => FieldsFill([], fields, true, 0, |fields|, t.size);
    case Arbitrary(offsets, fields) => FieldsFill(offsets, fields, false, 0, |fields|, t.size);
  }

  lemma {:induction false} ArrayFills(count: nat, size: nat, inner: Outcome<Unit>)
    requires count > 0 && (inner.Ok? ==> Fills(inner.value, size))
    ensures inner.Ok? ==> Fills(inner.value, count * size)
  {
    if inner.Ok? && inner.value.Some? {
      MultipleTimes(count, size, inner.value.value.size);
      ProductBounds(count, size);
    }
  }

  lemma {:induction false} FieldsFill(
      offsets: seq<nat>, fields: seq<TyLayout>, isUnion: bool, start: nat, k: nat, size: nat)
    requires k <= |fields| && WellFormedFields(offsets, fields, size) && (isUnion ==> start == 0)
    ensures !FieldsUpTo(offsets, fields, isUnion, start, k).Panic?
    ensures FieldsUpTo(offsets, fields, isUnion, start, k).Ok? ==>
              var fold := FieldsUpTo(offsets, fields, isUnion, start, k).value;
              Fills(fold.unit, fold.total - start)
    decreases fields, 1, k
  {
    if k > 0 {
      FieldsFill(offsets, fields, isUnion, start, k - 1, size);
      AggregateFills(fields[k - 1]);
      if OverNever(fields[k - 1]) {
        OverNeverIsPassedOver(fields[k - 1]);
      }
      var before := FieldsUpTo(offsets, fields, isUnion, start, k - 1);
      var inner := HomogeneousAggregate(fields[k - 1]);
      if before.Ok? && inner.Ok? && Merge(before.value.unit, inner.value).Ok? {
        FillsAdd(before.value.unit, before.value.total - start, inner.value, fields[k - 1].size);
        FillsMax(before.value.unit, before.value.total - start, inner.value, fields[k - 1].size);
      }
    }
  }

  lemma {:induction false} VariantsFill(own: Fold, variants: seq<Variant>, k: nat, size: nat)
    requires k <= |variants| && forall v :: 0 <= v < |variants| ==> WellFormedVariant(variants[v], size)
    requires Fills(own.unit, own.total)
    ensures !VariantsUpTo(own, variants, k).Panic?
    ensures VariantsUpTo(own, variants, k).Ok? ==>
              var fold := VariantsUpTo(own, variants, k).value;
              Fills(fold.unit, fold.total) && Within(own.unit, fold.unit)
    decreases variants, 3, k
  {
    if k > 0 {
      VariantsFill(own, variants, k - 1, size);
      VariantFills(own, variants[k - 1], size);
      var before, variant := VariantsUpTo(own, variants, k - 1), VariantFold(own, variants[k - 1]);
      if before.Ok? && variant.Ok? && Merge(before.value.unit, variant.value.unit).Ok? {
        MergedVariantFills(own, before.value, variant.value);
      }
    }
  }

  /** One variant behind the fields that all variants share. */
  function VariantFold(own: Fold, variant: Variant): Outcome<Fold> {
    FieldsUpTo(variant.offsets, variant.fields, false, own.total, |variant.fields|)
  }

  lemma {:induction false} VariantFills(own: Fold, variant: Variant, size: nat)
    requires WellFormedVariant(variant, size)
    ensures !VariantFold(own, variant).Panic?
    ensures VariantFold(own, variant).Ok? ==>
              Fills(VariantFold(own, variant).value.unit, VariantFold(own, variant).value.total - own.total)
    decreases variant, 2
  {
    match variant
    case Variant(offsets, fields) => FieldsFill(offsets, fields, false, own.total, |fields|, size);
  }

  lemma {:induction false} MergedVariantFills(own: Fold, before: Fold, variant: Fold)
    requires Fills(own.unit, own.total) && Fills(before.unit, before.total) && Within(own.unit, before.unit)
    requires Fills(variant.unit, variant.total - own.total) && Merge(before.unit, variant.unit).Ok?
    ensures Fills(Merge(before.unit, variant.unit).value, Max(before.total, variant.total))
    ensures Within(before.unit, Merge(before.unit, variant.unit).value)
    ensures Within(variant.unit, Merge(before.unit, variant.unit).value)
  {
    assert Merge(own.unit, variant.unit).Ok?;
    FillsAdd(own.unit, own.total, variant.unit, variant.total - own.total);
    var whole := Merge(own.unit, variant.unit).value;
    assert Merge(before.unit, whole).Ok? && Merge(before.unit, whole) == Merge(before.unit, variant.unit);
    FillsMax(before.unit, before.total, whole, variant.total);
  }

  // ----- registers are units at multiples of the unit

  /** Every register of a homogeneous aggregate is the unit, at a multiple of its size from a
      start that is one. */
  lemma {:induction false} AggregateLeaves(t: TyLayout, base: int, r: Reg)
    requires WellFormed(t) && HomogeneousAggregate(t).Ok? && Within(HomogeneousAggregate(t).value, Some(r))
    requires r.size > 0 && base % r.size == 0
    ensures LeavesAre(t, base, r)
    decreases t, 3
  {
    AggregateFills(t);
    if t.size == 0 {
      EmptyHasNoLeaves(t, base, r);
    } else if t.backend.Aggregate? {
      var own := OwnFields(t).value;
      OwnFieldsFill(t);
      VariantsFill(own, t.variants, |t.variants|, t.size);
      match t.shape {
        case Array(count, element) => ArrayLeaves(t, base, r);
        case Union(fields) => FieldsLeaves([], fields, true, 0, |fields|, t.size, base, r);
        case Arbitrary(offsets, fields) => FieldsLeaves(offsets, fields, false, 0, |fields|, t.size, base, r);
      }
      forall v | 0 <= v < |t.variants|
        ensures VariantLeavesAre(t.variants[v], base, r)
      {
        VariantWithin(own, t.variants, v, |t.variants|, t.size);
        if own.unit.Some? {
          MultiplesAdd(base, own.total, r.size);
        }
        VariantLeaves(own, t.variants[v], t.size, base, r);
      }
    }
  }

  lemma {:induction false} ArrayLeaves(t: TyLayout, base: int, r: Reg)
    requires WellFormed(t) && t.backend.Aggregate? && t.shape.Array?
    requires OwnFields(t).Ok? && Within(OwnFields(t).value.unit, Some(r)) && r.size > 0 && base % r.size == 0
    ensures forall i: nat :: i < t.shape.count ==> LeavesAre(t.shape.element, base + i * t.shape.element.size, r)
    decreases t, 2
  {
    match t.shape
    case Array(count, element) =>
      if count > 0 {
        AggregateFills(element);
        forall i: nat | i < count
          ensures LeavesAre(element, base + i * element.size, r)
        {
          if element.size > 0 {
            MultipleTimes(i, element.size, r.size);
            MultiplesAdd(base, i * element.size, r.size);
          }
          AggregateLeaves(element, base + i * element.size, r);
        }
      }
  }

  lemma {:induction false} FieldsLeaves(
    offsets: seq<nat>, fields: seq<TyLayout>, isUnion: bool, start: nat, k: nat, size: nat, base: int, r: Reg)
    requires k <= |fields| && WellFormedFields(offsets, fields, size) && (isUnion ==> start == 0 && offsets == [])
    requires FieldsUpTo(offsets, fields, isUnion, start, k).Ok?
    requires Within(FieldsUpTo(offsets, fields, isUnion, start, k).value.unit, Some(r))
    requires r.size > 0 && (base + start) % r.size == 0
    ensures forall i :: 0 <= i < k ==> LeavesAre(fields[i], base + OffsetAt(offsets, i), r)
    decreases fields, 1, k
  {
    if k > 0 {
      var before := FieldsUpTo(offsets, fields, isUnion, start, k - 1).value;
      FieldsLeaves(offsets, fields, isUnion, start, k - 1, size, base, r);
      FieldsFill(offsets, fields, isUnion, start, k - 1, size);
      var field, offset := fields[k - 1], OffsetAt(offsets, k - 1);
      if field.Is1Zst() {
        EmptyHasNoLeaves(field, base + offset, r);
      } else {
        if !isUnion && before.unit.Some? {
          MultiplesAdd(base + start, before.total - start, r.size);
        }
        AggregateLeaves(field, base + offset, r);
      }
    }
  }

  lemma {:induction false} VariantLeaves(own: Fold, variant: Variant, size: nat, base: int, r: Reg)
    requires WellFormedVariant(variant, size) && VariantFold(own, variant).Ok?
    requires Within(VariantFold(own, variant).value.unit, Some(r)) && r.size > 0 && (base + own.total) % r.size == 0
    ensures VariantLeavesAre(variant, base, r)
    decreases variant, 2
  {
    match variant
    case Variant(offsets, fields) => FieldsLeaves(offsets, fields, false, own.total, |fields|, size, base, r);
  }

  /** The unit of each variant is that of the whole, or none. */
  lemma {:induction false} VariantWithin(own: Fold, variants: seq<Variant>, v: nat, k: nat, size: nat)
    requires v < k <= |variants| && forall w :: 0 <= w < |variants| ==> WellFormedVariant(variants[w], size)
    requires Fills(own.unit, own.total) && VariantsUpTo(own, variants, k).Ok?
    ensures VariantFold(own, variants[v]).Ok?
    ensures Within(VariantFold(own, variants[v]).value.unit, VariantsUpTo(own, variants, k).value.unit)
  {
    if v < k - 1 {
      VariantWithin(own, variants, v, k - 1, size);
    }
  }

  /** A homogeneous aggregate is a positive number of units: its size is a multiple of the
      unit's, and every register in it is the unit at a multiple of its size. Without a unit it
      has no size. The closing assertions never fail; the one panic is on the never type and
      arrays of it. */
  lemma {:induction false} HomogeneousAggregateIsHomogeneous(t: TyLayout)
    requires WellFormed(t)
    ensures HomogeneousAggregate(t).Panic? <==> OverNever(t)
    ensures HomogeneousAggregate(t).Ok? ==>
              match HomogeneousAggregate(t).value
              case None => t.size == 0
              case Some(r) => r.size > 0 && t.size > 0 && t.size % r.size == 0 && LeavesAre(t, 0, r)
  {
    AggregateFills(t);
    if HomogeneousAggregate(t).Ok? && HomogeneousAggregate(t).value.Some? {
      AggregateLeaves(t, 0, HomogeneousAggregate(t).value.value);
    }
  }

  /** `LayoutData::never_type`. */
  const NEVER := TyLayout(Aggregate(true), 0, 0, Primitive, [])

  const ARRAY_OF_NEVER := TyLayout(Aggregate(true), 0, 0, Array(1, NEVER), [])

  /** The panic is met by `[!; 1]`; a struct that has such a field is homogeneous all the same. */
  lemma {:induction false} ArrayOfNeverPanics(float: TyLayout)
    requires float == TyLayout(Scalar(true), 4, 2, Primitive, [])
    ensures WellFormed(ARRAY_OF_NEVER) && HomogeneousAggregate(ARRAY_OF_NEVER).Panic?
    ensures var s := TyLayout(Aggregate(true), 4, 2, Arbitrary([0, 4], [float, ARRAY_OF_NEVER]), []);
            WellFormed(s) && HomogeneousAggregate(s) == Ok(Some(Reg(FloatReg, 4)))
  {
    assert WellFormed(NEVER) && OverNever(NEVER);
    AggregateFills(ARRAY_OF_NEVER);
    var offsets, fields := [0, 4], [float, ARRAY_OF_NEVER];
    assert FieldsUpTo(offsets, fields, false, 0, 1) == Ok(Fold(Some(Reg(FloatReg, 4)), 4)) by {
      assert FieldsUpTo(offsets, fields, false, 0, 0) == Ok(Fold(None, 0));
    }
    assert FieldsUpTo(offsets, fields, false, 0, 2) == Ok(Fold(Some(Reg(FloatReg, 4)), 4));
  }

  // ----- which aggregates are homogeneous

  /** A field that takes no space, needs no alignment and is sized has no part in the aggregate. */
  predicate TakesNoPart(field: TyLayout) {
    field.size == 0 && field.align == 0 && field.backend != Aggregate(false)
  }

  /** Where the first `k` fields end when the ones that count follow each other from `start`
      on, or, in a union, share their start. */
  function EndOf(fields: seq<TyLayout>, isUnion: bool, start: nat, k: nat): nat
    requires k <= |fields|
  {
    if k == 0 then start
    else
      var before := EndOf(fields, isUnion, start, k - 1);
      if TakesNoPart(fields[k - 1]) then before
      else if isUnion then Max(before, fields[k - 1].size)
      else before + fields[k - 1].size
  }

  /** Field `i` counts for nothing, or follows the one before without padding and is itself
      made of `r` or without data. */
  predicate Follows(offsets: seq<nat>, fields: seq<TyLayout>, isUnion: bool, start: nat, i: nat, r: Reg)
    requires i < |fields|
  {
    || TakesNoPart(fields[i])
    || (&& (isUnion || OffsetAt(offsets, i) == EndOf(fields, isUnion, start, i))
        && HomogeneousAggregate(fields[i]).Ok?
        && Within(HomogeneousAggregate(fields[i]).value, Some(r)))
  }

  predicate Chained(offsets: seq<nat>, fields: seq<TyLayout>, isUnion: bool, start: nat, k: nat, r: Reg)
    requires k <= |fields|
  {
    forall i :: 0 <= i < k ==> Follows(offsets, fields, isUnion, start, i, r)
  }

  predicate HoldsUnit(field: TyLayout, r: Reg) {
    !TakesNoPart(field) && HomogeneousAggregate(field) == Ok(Some(r))
  }

  predicate HasData(fields: seq<TyLayout>, k: nat, r: Reg)
    requires k <= |fields|
  {
    exists i :: 0 <= i < k && HoldsUnit(fields[i], r)
  }

  /** One round of the loop. */
  lemma {:induction false} FieldExact(
      offsets: seq<nat>, fields: seq<TyLayout>, isUnion: bool, start: nat, k: nat, r: Reg, before: Fold)
    requires 0 < k <= |fields| && FieldsUpTo(offsets, fields, isUnion, start, k - 1) == Ok(before)
    requires before.total == EndOf(fields, isUnion, start, k - 1) && Within(before.unit, Some(r))
    ensures var fold := FieldsUpTo(offsets, fields, isUnion, start, k);
            && (fold.Ok? && Within(fold.value.unit, Some(r)) <==> Follows(offsets, fields, isUnion, start, k - 1, r))
            && (Follows(offsets, fields, isUnion, start, k - 1, r) ==>
                  && fold.value.total == EndOf(fields, isUnion, start, k)
                  && (fold.value.unit.Some? <==> before.unit.Some? || HoldsUnit(fields[k - 1], r)))
  {
  }

  lemma {:induction false} MergeKeepsOutsiders(
      offsets: seq<nat>, fields: seq<TyLayout>, isUnion: bool, start: nat, k: nat, r: Reg)
    requires 0 < k <= |fields| && FieldsUpTo(offsets, fields, isUnion, start, k).Ok?
    requires Within(FieldsUpTo(offsets, fields, isUnion, start, k).value.unit, Some(r))
    ensures FieldsUpTo(offsets, fields, isUnion, start, k - 1).Ok?
    ensures Within(FieldsUpTo(offsets, fields, isUnion, start, k - 1).value.unit, Some(r))
  {
  }

  lemma {:induction false} HasDataStep(fields: seq<TyLayout>, k: nat, r: Reg)
    requires 0 < k <= |fields|
    ensures HasData(fields, k, r) <==> HasData(fields, k - 1, r) || HoldsUnit(fields[k - 1], r)
  {
    if HasData(fields, k, r) {
      var i :| 0 <= i < k && HoldsUnit(fields[i], r);
    }
  }

  /** The loop accepts exactly the chained fields. */
  lemma {:induction false} FieldsUpToExact(
    offsets: seq<nat>, fields: seq<TyLayout>, isUnion: bool, start: nat, k: nat, r: Reg)
    requires k <= |fields|
    ensures var fold := FieldsUpTo(offsets, fields, isUnion, start, k);
            && (fold.Ok? && Within(fold.value.unit, Some(r)) <==> Chained(offsets, fields, isUnion, start, k, r))
            && (Chained(offsets, fields, isUnion, start, k, r) ==>
                  && fold.value.total == EndOf(fields, isUnion, start, k)
                  && (fold.value.unit.Some? <==> HasData(fields, k, r)))
  {
    if k > 0 {
      FieldsUpToExact(offsets, fields, isUnion, start, k - 1, r);
      HasDataStep(fields, k, r);
      assert Chained(offsets, fields, isUnion, start, k, r) <==>
               Chained(offsets, fields, isUnion, start, k - 1, r) && Follows(offsets, fields, isUnion, start, k - 1, r);
      if Chained(offsets, fields, isUnion, start, k - 1, r) {
        FieldExact(offsets, fields, isUnion, start, k, r, FieldsUpTo(offsets, fields, isUnion, start, k - 1).value);
      } else if FieldsUpTo(offsets, fields, isUnion, start, k).Ok?
                && Within(FieldsUpTo(offsets, fields, isUnion, start, k).value.unit, Some(r)) {
        MergeKeepsOutsiders(offsets, fields, isUnion, start, k, r);
      }
    }
  }

  // ----- enums

  /** The fields of a variant follow each other from the end of the enum's own fields on. */
  predicate VariantChained(variant: Variant, start: nat, r: Reg) {
    Chained(variant.offsets, variant.fields, false, start, |variant.fields|, r)
  }

  function VariantEnd(variant: Variant, start: nat): nat {
    EndOf(variant.fields, false, start, |variant.fields|)
  }

  predicate VariantHasData(variant: Variant, r: Reg) {
    HasData(variant.fields, |variant.fields|, r)
  }

  /** The greatest end of the first `k` variants, or of the enum's own fields. */
  function GreatestEnd(variants: seq<Variant>, start: nat, k: nat): nat
    requires k <= |variants|
  {
    if k == 0 then start else Max(GreatestEnd(variants, start, k - 1), VariantEnd(variants[k - 1], start))
  }

  predicate VariantsChained(variants: seq<Variant>, start: nat, k: nat, r: Reg)
    requires k <= |variants|
  {
    forall v :: 0 <= v < k ==> VariantChained(variants[v], start, r)
  }

  predicate VariantsHaveData(variants: seq<Variant>, k: nat, r: Reg)
    requires k <= |variants|
  {
    exists v :: 0 <= v < k && VariantHasData(variants[v], r)
  }

  lemma {:induction false} VariantExact(own: Fold, variant: Variant, r: Reg)
    ensures var fold := VariantFold(own, variant);
            && (fold.Ok? && Within(fold.value.unit, Some(r)) <==> VariantChained(variant, own.total, r))
            && (VariantChained(variant, own.total, r) ==>
                  && fold.value.total == VariantEnd(variant, own.total)
                  && (fold.value.unit.Some? <==> VariantHasData(variant, r)))
  {
    FieldsUpToExact(variant.offsets, variant.fields, false, own.total, |variant.fields|, r);
  }

  lemma {:induction false} VariantsKeepOwn(own: Fold, variants: seq<Variant>, k: nat)
    requires k <= |variants| && VariantsUpTo(own, variants, k).Ok?
    ensures Within(own.unit, VariantsUpTo(own, variants, k).value.unit)
  {
    if k > 0 {
      VariantsKeepOwn(own, variants, k - 1);
    }
  }

  /** One round of the loop over the variants. */
  lemma {:induction false} VariantRound(own: Fold, variants: seq<Variant>, k: nat, r: Reg)
    requires 0 < k <= |variants|
    ensures var before, variant := VariantsUpTo(own, variants, k - 1), VariantFold(own, variants[k - 1]);
            var all := VariantsUpTo(own, variants, k);
            && (all.Ok? && Within(all.value.unit, Some(r))
                <==> before.Ok? && Within(before.value.unit, Some(r))
                     && variant.Ok? && Within(variant.value.unit, Some(r)))
            && (all.Ok? && Within(all.value.unit, Some(r)) ==>
                  && all.value.total == Max(before.value.total, variant.value.total)
                  && (all.value.unit.Some? <==> before.value.unit.Some? || variant.value.unit.Some?))
  {
  }

  /** The loop accepts exactly the variants that are chained. */
  lemma {:induction false} VariantsUpToExact(own: Fold, variants: seq<Variant>, k: nat, r: Reg)
    requires k <= |variants| && Within(own.unit, Some(r))
    ensures var all := VariantsUpTo(own, variants, k);
            && (all.Ok? && Within(all.value.unit, Some(r)) <==> VariantsChained(variants, own.total, k, r))
            && (VariantsChained(variants, own.total, k, r) ==>
                  && all.value.total == GreatestEnd(variants, own.total, k)
                  && (all.value.unit.Some? <==> own.unit.Some? || VariantsHaveData(variants, k, r)))
  {
    if k > 0 {
      VariantsUpToExact(own, variants, k - 1, r);
      VariantExact(own, variants[k - 1], r);
      VariantRound(own, variants, k, r);
      assert VariantsChained(variants, own.total, k, r) <==>
               VariantsChained(variants, own.total, k - 1, r) && VariantChained(variants[k - 1], own.total, r);
      assert VariantsHaveData(variants, k, r) <==>
               VariantsHaveData(variants, k - 1, r) || VariantHasData(variants[k - 1], r);
    }
  }

  /** A struct, union or enum is homogeneous in `r` exactly when its own fields are chained, the
      fields of each variant are chained behind them, something has data, and there is no padding
      at the end. */
  lemma {:induction false} AggregateExact(t: TyLayout, r: Reg)
    requires WellFormed(t) && t.IsAggregate() && (t.shape.Union? || t.shape.Arbitrary?)
    ensures var fields, isUnion := t.shape.fields, t.shape.Union?;
            var offsets := if isUnion then [] else t.shape.offsets;
            var end := EndOf(fields, isUnion, 0, |fields|);
            HomogeneousAggregate(t) == Ok(Some(r)) <==>
              && Chained(offsets, fields, isUnion, 0, |fields|, r)
              && VariantsChained(t.variants, end, |t.variants|, r)
              && (HasData(fields, |fields|, r) || VariantsHaveData(t.variants, |t.variants|, r))
              && GreatestEnd(t.variants, end, |t.variants|) == t.size
  {
    AggregateFills(t);
    var offsets := if t.shape.Union? then [] else t.shape.offsets;
    FieldsUpToExact(offsets, t.shape.fields, t.shape.Union?, 0, |t.shape.fields|, r);
    if OwnFields(t).Ok? {
      var own := OwnFields(t).value;
      if VariantsUpTo(own, t.variants, |t.variants|).Ok? {
        VariantsKeepOwn(own, t.variants, |t.variants|);
      }
      if Within(own.unit, Some(r)) {
        VariantsUpToExact(own, t.variants, |t.variants|, r);
      }
    }
  }

  /** An array is what its elements are. */
  lemma {:induction false} ArrayExact(t: TyLayout)
    requires WellFormed(t) && t.IsAggregate() && t.variants == [] && t.shape.Array?
    ensures HomogeneousAggregate(t) == if t.shape.count == 0 then Ok(None) else HomogeneousAggregate(t.shape.element)
  {
    AggregateFills(t);
    AggregateFills(t.shape.element);
  }

  // ----- the recursion of the source

  lemma {:induction false} FieldsStop(
      offsets: seq<nat>, fields: seq<TyLayout>, isUnion: bool, start: nat, j: nat, k: nat)
    requires j <= k <= |fields| && !FieldsUpTo(offsets, fields, isUnion, start, j).Ok?
    ensures FieldsUpTo(offsets, fields, isUnion, start, k) == FieldsUpTo(offsets, fields, isUnion, start, j)
  {
    if j < k {
      FieldsStop(offsets, fields, isUnion, start, j, k - 1);
    }
  }

  lemma {:induction false} VariantsStop(own: Fold, variants: seq<Variant>, j: nat, k: nat)
    requires j <= k <= |variants| && !VariantsUpTo(own, variants, j).Ok?
    ensures VariantsUpTo(own, variants, k) == VariantsUpTo(own, variants, j)
  {
    if j < k {
      VariantsStop(own, variants, j, k - 1);
    }
  }

  /** The field loop of `from_fields_at`. */
  method FromFieldsAt(offsets: seq<nat>, fields: seq<TyLayout>, isUnion: bool, start: nat) returns (r: Outcome<Fold>)
    ensures r == FieldsUpTo(offsets, fields, isUnion, start, |fields|)
    decreases fields, 1
  {
    var result: Unit, total: nat := None, start;
    for i := 0 to |fields|
      invariant FieldsUpTo(offsets, fields, isUnion, start, i) == Ok(Fold(result, total))
    {
      var field := fields[i];
      if !field.Is1Zst() {
        if !FieldsUpTo(offsets, fields, isUnion, start, i + 1).Ok? {
          FieldsStop(offsets, fields, isUnion, start, i + 1, |fields|);
        }
        if !isUnion && total != OffsetAt(offsets, i) {
          return Heterogeneous;
        }
        var inner := TestHomogeneous(field);
        if !inner.Ok? {
          return if inner.Panic? then Panic else Heterogeneous;
        }
        var merged := Merge(result, inner.value);
        if !merged.Ok? {
          return Heterogeneous;
        }
        result := merged.value;
        total := if isUnion then Max(total, field.size) else total + field.size;
      }
    }
    return Ok(Fold(result, total));
  }

  method FromOwnFields(t: TyLayout) returns (r: Outcome<Fold>)
    ensures r == OwnFields(t)
    decreases t, 2
  {
    match t.shape {
      case Primitive => r := Panic;
      case Array(count, element) =>
        if count == 0 {
          r := Ok(Fold(None, t.size));
        } else {
          var inner := TestHomogeneous(element);
          r := if inner.Ok? then Ok(Fold(inner.value, t.size)) else if inner.Panic? then Panic else Heterogeneous;
        }
      case Union(fields) => r := FromFieldsAt([], fields, true, 0);
      case Arbitrary(offsets, fields) => r := FromFieldsAt(offsets, fields, false, 0);
    }
  }

  method FromVariants(own: Fold, variants: seq<Variant>) returns (r: Outcome<Fold>)
    ensures r == VariantsUpTo(own, variants, |variants|)
    decreases variants, 3
  {
    var result, total: nat := own.unit, own.total;
    for v := 0 to |variants|
      invariant VariantsUpTo(own, variants, v) == Ok(Fold(result, total))
    {
      var variant := FromVariant(own, variants[v]);
      if !VariantsUpTo(own, variants, v + 1).Ok? {
        VariantsStop(own, variants, v + 1, |variants|);
      }
      if !variant.Ok? {
        return variant;
      }
      var merged := Merge(result, variant.value.unit);
      if !merged.Ok? {
        return Heterogeneous;
      }
      result := merged.value;
      total := Max(total, variant.value.total);
    }
    return Ok(Fold(result, total));
  }

  method FromVariant(own: Fold, variant: Variant) returns (r: Outcome<Fold>)
    ensures r == VariantFold(own, variant)
    decreases variant, 2
  {
    match variant {
      case Variant(offsets, fields) => r := FromFieldsAt(offsets, fields, false, own.total);
    }
  }

  /** `homogeneous_aggregate`. */
  method TestHomogeneous(t: TyLayout) returns (r: Outcome<Unit>)
    ensures r == HomogeneousAggregate(t)
    decreases t, 3
  {
    if !t.backend.Aggregate? {
      return Ok(Some(RegOf(t)));
    }
    if !t.backend.sized {
      return Heterogeneous;
    }
    var own := FromOwnFields(t);
    if !own.Ok? {
      return if own.Panic? then Panic else Heterogeneous;
    }
    var all := TestVariants(t, own.value);
    if !all.Ok? {
      return if all.Panic? then Panic else Heterogeneous;
    }
    if all.value.total != t.size {
      return Heterogeneous;
    }
    if all.value.unit.Some? <==> all.value.total == 0 {
      return Panic;
    }
    return Ok(all.value.unit);
  }

  method TestVariants(t: TyLayout, own: Fold) returns (r: Outcome<Fold>)
    ensures r == VariantsUpTo(own, t.variants, |t.variants|)
    decreases t, 1
  {
    match t {
      case TyLayout(_, _, _, _, variants) => r := FromVariants(own, variants);
    }
  }
}
