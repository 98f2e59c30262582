/** Arrays, unions, structs and enums (`array_like`, `layout_of_union`, `layout_of_struct` and
    `layout_of_struct_or_enum`), and the closure of well-formed layouts under all of them.
 */
module Aggregates {
  import opened PowersOfTwo
  import opened Wrappers
  import opened Layouts
  import opened Univariant
  import opened UnivariantTheorems
  import opened Enums
  import opened NicheFilling
  import opened FillingSucceeds
  import opened TaggedEnums
  import opened EnumTheorems
  import opened EnumMethods

  // ----- arrays

  /** `array_like`; a slice has no count. */
  function ArrayLike(element: Layout, countIfSized: Option<nat>, dl: DataLayout): Result<Layout> {
    var count := if countIfSized.Some? then countIfSized.value else 0;
    var size := element.size * count;
    if size >= dl.objSizeBound then Err(SizeOverflow)
    else Ok(Layout(
      size, element.align,
      if count != 0 then element.largestNiche else None,
      element.uninhabited && count != 0,
      countIfSized.Some?,
      Array(element.size, count),
      Single(0)))
  }

  /** The array is the one that was asked for: that many elements (none in a slice, which is not
      sized), each aligned and inside, one after the other without space between or behind them; the
      niche is that of the first element, and it takes an element to be uninhabited. */
  ghost predicate SoundArray(element: Layout, countIfSized: Option<nat>, whole: Layout) {
    var count := match countIfSized case None => 0 case Some(n) => n;
    && whole.shape == Array(element.size, count)
    && whole.size == count * element.size && whole.align == element.align
    && (forall i: nat :: i < count ==>
          IsMultiple(i * element.size, element.align) && (i + 1) * element.size <= whole.size)
    && (whole.sized <==> countIfSized != None)
    && (whole.uninhabited <==> count > 0 && element.uninhabited)
    && (if count > 0 then whole.largestNiche == element.largestNiche else whole.largestNiche.None?)
  }

  /** An array is as requested and is well-formed, unless its elements reach the size bound. */
  lemma {:induction false} ArrayIsWellFormed(element: Layout, countIfSized: Option<nat>, dl: DataLayout)
    requires element.WellFormed()
    ensures var r := ArrayLike(element, countIfSized, dl);
            && (r.Ok? <==> (match countIfSized case None => 0 case Some(n) => n) * element.size < dl.objSizeBound)
            && (if r.Ok? then r.value.WellFormed() && SoundArray(element, countIfSized, r.value)
                else r == Err(SizeOverflow))
  {
    var count: nat := match countIfSized case None => 0 case Some(n) => n;
    ElementsAreInside(element.size, count, element.align);
  }

  lemma {:induction false} ElementsAreInside(size: nat, count: nat, align: nat)
    requires IsMultiple(size, align)
    ensures size * count == count * size && IsMultiple(count * size, align)
    ensures count > 0 ==> size <= count * size
    ensures forall i: nat :: i < count ==> IsMultiple(i * size, align) && (i + 1) * size <= count * size
  {
    WholeArray(size, count, align);
    ProductAtLeast(size, if count > 0 then 1 else 0, count);
    forall i: nat | i < count
      ensures IsMultiple(i * size, align) && (i + 1) * size <= count * size
    {
      WholeArray(size, i, align);
      ProductAtLeast(size, i + 1, count);
    }
  }

  lemma {:induction false} WholeArray(size: nat, count: nat, align: nat)
    requires IsMultiple(size, align)
    ensures IsMultiple(size * count, align) && IsMultiple(count * size, align)
  {
    MultipleScale(size, count, align);
  }

  lemma {:induction false} ProductAtLeast(x: nat, a: nat, b: nat)
    requires a <= b
    ensures a * x <= x * b
  {
    assert x * (b - a) >= 0;
  }

  // ----- unions

  datatype UnionState = UnionState(size: nat, align: nat)

  /** The union loop over the first `k` fields. */
  function UnionUpTo(fields: seq<Layout>, repr: Repr, dl: DataLayout, k: nat): (r: Result<UnionState>)
    requires k <= |fields|
    ensures !r.Panic?
  {
    if k == 0 then Ok(UnionState(0, if repr.pack.Some? then dl.i8Align else dl.aggregateAlign))
    else
      var before := UnionUpTo(fields, repr, dl, k - 1);
      if !before.Ok? then before
      else if !fields[k - 1].sized then Err(UnexpectedUnsized(k - 1))
      else Ok(UnionState(Max(before.value.size, fields[k - 1].size), Max(before.value.align, fields[k - 1].align)))
  }

  function UnionAlign(st: UnionState, repr: Repr): nat {
    var packed := if repr.pack.Some? then Min(st.align, repr.pack.value) else st.align;
    if repr.align.Some? then Max(packed, repr.align.value) else packed
  }

  /** `layout_of_union`. */
  function LayoutOfUnion(fields: seq<Layout>, repr: Repr, dl: DataLayout): (r: Result<Layout>)
    ensures !r.Panic?
  {
    var st := UnionUpTo(fields, repr, dl, |fields|);
    if !st.Ok? then Err(st.error)
    else if fields == [] then Err(EmptyUnion)
    else
      var align := UnionAlign(st.value, repr);
      Ok(Layout(AlignTo(st.value.size, align), align, None, false, true, Union(|fields|), Single(0)))
  }

  lemma {:induction false} UnionStops(fields: seq<Layout>, repr: Repr, dl: DataLayout, j: nat, k: nat)
    requires j <= k <= |fields| && !UnionUpTo(fields, repr, dl, j).Ok?
    ensures UnionUpTo(fields, repr, dl, k) == UnionUpTo(fields, repr, dl, j)
  {
    if j < k {
      UnionStops(fields, repr, dl, j, k - 1);
    }
  }

  /** The loop keeps upper bounds of the fields' sizes and alignments, and attains them. */
  lemma {:induction false} UnionHolds(fields: seq<Layout>, repr: Repr, dl: DataLayout, k: nat)
    requires k <= |fields| && UnionUpTo(fields, repr, dl, k).Ok?
    ensures var st := UnionUpTo(fields, repr, dl, k).value;
            && (forall i :: 0 <= i < k ==> fields[i].sized && fields[i].size <= st.size && fields[i].align <= st.align)
            && (st.size == 0 || exists i :: 0 <= i < k && fields[i].size == st.size)
            && UnionUpTo(fields, repr, dl, 0).value.align <= st.align
            && (|| st.align == UnionUpTo(fields, repr, dl, 0).value.align
                || exists i :: 0 <= i < k && fields[i].align == st.align)
  {
    if k > 0 {
      UnionHolds(fields, repr, dl, k - 1);
    }
  }

  /** Every field fits into the union and is aligned in it, up to packing. Bytes of a union may be
      anything, so whatever its fields are it has no niche and is not uninhabited. */
  ghost predicate SoundUnion(fields: seq<Layout>, repr: Repr, union: Layout) {
    && union.shape == Union(|fields|) && union.sized && !union.uninhabited && union.largestNiche.None?
    && (forall i :: 0 <= i < |fields| ==>
          && fields[i].sized && fields[i].size <= union.size
          && Packed(fields[i].align, repr) <= union.align)
    && (repr.align.Some? ==> repr.align.value <= union.align)
  }

  lemma {:induction false} UnionIsSound(fields: seq<Layout>, repr: Repr, dl: DataLayout)
    requires LayoutOfUnion(fields, repr, dl).Ok?
    ensures LayoutOfUnion(fields, repr, dl).value.WellFormed()
    ensures SoundUnion(fields, repr, LayoutOfUnion(fields, repr, dl).value)
  {
    UnionHolds(fields, repr, dl, |fields|);
  }

  /** Any number of sized fields but none make a union; the first unsized field is reported. */
  lemma {:induction false} UnionFailsWhen(fields: seq<Layout>, repr: Repr, dl: DataLayout)
    ensures var r := LayoutOfUnion(fields, repr, dl);
            && (r.Ok? <==> fields != [] && forall i :: 0 <= i < |fields| ==> fields[i].sized)
            && (r == Err(EmptyUnion) <==> fields == [])
            && (forall i: nat :: r == Err(UnexpectedUnsized(i)) <==>
                                   i < |fields| && !fields[i].sized && forall j :: 0 <= j < i ==> fields[j].sized)
  {
    UnionGoesUpTo(fields, repr, dl, |fields|);
  }

  lemma {:induction false} UnionGoesUpTo(fields: seq<Layout>, repr: Repr, dl: DataLayout, k: nat)
    requires k <= |fields|
    ensures match UnionUpTo(fields, repr, dl, k)
            case Ok(_) => forall i :: 0 <= i < k ==> fields[i].sized
            case Err(e) => e.UnexpectedUnsized? && e.field < k && !fields[e.field].sized
                           && forall j :: 0 <= j < e.field ==> fields[j].sized
            case Panic => false
  {
    if k > 0 {
      UnionGoesUpTo(fields, repr, dl, k - 1);
    }
  }

  /** No smaller alignment holds the fields, and no smaller multiple of the alignment does. */
  lemma {:induction false} UnionIsLeast(fields: seq<Layout>, repr: Repr, dl: DataLayout, size: nat, align: nat)
    requires LayoutOfUnion(fields, repr, dl).Ok?
    requires forall i :: 0 <= i < |fields| ==> fields[i].size <= size && Packed(fields[i].align, repr) <= align
    requires Packed(if repr.pack.Some? then dl.i8Align else dl.aggregateAlign, repr) <= align
    requires repr.align.Some? ==> repr.align.value <= align
    ensures var union := LayoutOfUnion(fields, repr, dl).value;
            union.align <= align && (IsMultiple(size, union.align) ==> union.size <= size)
  {
    UnionHolds(fields, repr, dl, |fields|);
    var st, union := UnionUpTo(fields, repr, dl, |fields|).value, LayoutOfUnion(fields, repr, dl).value;
    if IsMultiple(size, union.align) {
      AlignToLeast(st.size, union.align, size);
    }
  }

  method UnionLayout(fields: seq<Layout>, repr: Repr, dl: DataLayout) returns (r: Result<Layout>)
    ensures r == LayoutOfUnion(fields, repr, dl)
  {
    var align: nat := if repr.pack.Some? then dl.i8Align else dl.aggregateAlign;
    var size: nat := 0;
    for i := 0 to |fields|
      invariant UnionUpTo(fields, repr, dl, i) == Ok(UnionState(size, align))
    {
      if !fields[i].sized {
        UnionStops(fields, repr, dl, i + 1, |fields|);
        return Err(UnexpectedUnsized(i));
      }
      align := Max(align, fields[i].align);
      size := Max(size, fields[i].size);
    }
    if repr.pack.Some? {
      align := Min(align, repr.pack.value);
    }
    if repr.align.Some? {
      align := Max(align, repr.align.value);
    }
    if fields == [] {
      return Err(EmptyUnion);
    }
    return Ok(Layout(AlignTo(size, align), align, None, false, true, Union(|fields|), Single(0)));
  }

  // ----- structs and enums

  /** `LayoutData::never_type`. */
  function Never(dl: DataLayout): Layout {
    Layout(0, dl.i8Align, None, true, true, Primitive, Empty)
  }

  /** An algebraic data type: its variants (one for a struct) and how to lay them out. */
  datatype Adt = Adt(def: EnumDef, isEnum: bool, isSpecialNoNiche: bool, alwaysSized: bool) {

    /** A struct has one variant, an enum one discriminant for each variant. */
    predicate Accepted() {
      if isEnum then |def.discriminants| == |def.variants| else |def.variants| == 1
    }

    /** A variant is passed over only when it is absent and layout optimization is allowed. */
    predicate Present(v: nat)
      requires v < |def.variants|
    {
      def.repr.InhibitEnumLayoutOpt() || !Absent(def.variants[v])
    }

    function NextPresent(v: nat): (r: Option<nat>)
      requires v <= |def.variants|
      ensures r.Some? ==> v <= r.value < |def.variants| && Present(r.value)
      decreases |def.variants| - v
    {
      if v == |def.variants| then None else if Present(v) then Some(v) else NextPresent(v + 1)
    }

    function Kind(v: nat): StructKind
      requires v < |def.variants|
    {
      if isEnum || def.variants[v] == [] || alwaysSized then AlwaysSized else MaybeUnsized
    }

    /** `layout_of_struct`. */
    function LayoutOfStruct(v: nat): Result<Layout>
      requires v < |def.variants|
    {
      var st := Struct(def.variants[v], def.repr, Kind(v), def.dl).Compute();
      if !st.Ok? then st
      else
        var single := st.value.(variants := Single(v));
        Ok(if isSpecialNoNiche then single.(largestNiche := None) else single)
    }

    /** The struct path is taken for structs, and for enums with one variant present unless
        optimization is inhibited. */
    predicate TakesStructPath(v: nat)
      requires v < |def.variants|
    {
      !isEnum || (NextPresent(v + 1).None? && !def.repr.InhibitEnumLayoutOpt())
    }

    /** `layout_of_struct_or_enum`. */
    function Compute(): Result<Layout>
      requires Accepted()
    {
      var first := NextPresent(0);
      if first.None? && isEnum then Ok(Never(def.dl))
      else
        var v := if first.Some? then first.value else 0;
        if TakesStructPath(v) then LayoutOfStruct(v) else def.Compute()
    }
  }

  /** The discriminants are words of their type. */
  ghost predicate SensibleDiscriminants(a: Adt) {
    a.isEnum ==> DiscriminantsInWidth(a.def)
  }

  /** When `layout_of_struct_or_enum` panics: on an enum with variants whose tag is too wide. */
  ghost predicate AdtPanics(a: Adt) {
    a.isEnum && a.def.variants != [] && EnumPanics(a.def)
  }

  lemma {:induction false} EnumPathIsLaidOut(a: Adt, v: nat)
    requires a.Accepted() && a.isEnum && AllVariantsWellFormed(a.def) && SensibleDiscriminants(a)
    requires a.NextPresent(0) == Some(v)
    requires a.NextPresent(v + 1).Some? || a.def.repr.InhibitEnumLayoutOpt()
    ensures LaidOutAsEnum(a.def)
  {
    if !a.def.repr.InhibitEnumLayoutOpt() {
      var w := a.NextPresent(v + 1).value;
      assert !Absent(a.def.variants[v]) && !Absent(a.def.variants[w]);
    }
  }

  lemma {:induction false} StructIsWellFormed(a: Adt, v: nat)
    requires v < |a.def.variants| && AllWellFormed(a.def.variants[v])
    ensures !a.LayoutOfStruct(v).Panic?
    ensures a.LayoutOfStruct(v).Ok? ==> a.LayoutOfStruct(v).value.WellFormed()
  {
    UnivariantIsSound(Struct(a.def.variants[v], a.def.repr, a.Kind(v), a.def.dl));
  }

  lemma {:induction false} NextPresentIsNext(a: Adt, v: nat)
    requires v <= |a.def.variants|
    ensures var r := a.NextPresent(v);
            forall u :: v <= u < (if r.Some? then r.value else |a.def.variants|) ==> !a.Present(u)
    decreases |a.def.variants| - v
  {
    if v < |a.def.variants| && !a.Present(v) {
      NextPresentIsNext(a, v + 1);
    }
  }

  /** There can be values of variant `u`, or its representation must be laid out all the same. */
  predicate CanBe(a: Adt, u: nat) {
    u < |a.def.variants| && (a.def.repr.c || a.def.repr.intType.Some? || !CannotBe(a.def.variants[u]))
  }

  lemma {:induction false} PresentCanBe(a: Adt, u: nat)
    requires u < |a.def.variants|
    ensures a.Present(u) <==> CanBe(a, u)
  {
  }

  /** Variant `v` as a struct, possibly unsized unless it is an enum's, has no field, or is known to be
      sized. */
  function StructOf(a: Adt, v: nat): Struct
    requires v < |a.def.variants|
  {
    var unsizable := !a.isEnum && a.def.variants[v] != [] && !a.alwaysSized;
    Struct(a.def.variants[v], a.def.repr, if unsizable then MaybeUnsized else AlwaysSized, a.def.dl)
  }

  /** The layout is that of variant `v` as a struct, soundly placed, up to a niche that is hidden. */
  ghost predicate IsStructOf(a: Adt, v: nat, layout: Layout)
    requires v < |a.def.variants|
  {
    && StructOf(a, v).Compute().Ok?
    && var plain := StructOf(a, v).Compute().value;
       && SoundStruct(StructOf(a, v), plain)
       && layout == plain.(variants := Single(v),
                           largestNiche := if a.isSpecialNoNiche then None else plain.largestNiche)
  }

  ghost predicate OnlyOneCanBe(a: Adt, v: nat) {
    CanBe(a, v) && forall u :: CanBe(a, u) ==> u == v
  }

  /** The layout of a type without values: empty, sized, byte-aligned, and uninhabited. */
  predicate IsNever(layout: Layout, dl: DataLayout) {
    && layout.size == 0 && layout.align == dl.i8Align && layout.sized && layout.uninhabited
    && layout.largestNiche.None? && layout.shape.Primitive? && layout.variants.Empty?
  }

  /** What a layout is, decided by the variants that there can be values of: the never type without
      any, a struct with one, and with more (or without optimization) an enum. */
  ghost predicate SoundAdt(a: Adt, layout: Layout)
    requires a.Accepted()
  {
    if !a.isEnum then IsStructOf(a, 0, layout)
    else if forall u: nat :: !CanBe(a, u) then IsNever(layout, a.def.dl)
    else if !a.def.repr.c && a.def.repr.intType.None? && exists v :: OnlyOneCanBe(a, v) then
      exists v :: OnlyOneCanBe(a, v) && IsStructOf(a, v, layout)
    else
      && (a.def.repr.c || a.def.repr.intType.Some? || exists v, w :: v != w && CanBe(a, v) && CanBe(a, w))
      && a.def.Compute() == Ok(layout) && SoundEnum(a.def, layout)
  }

  /** When there is no layout: the same way, when the struct or the enum has none. */
  ghost predicate AdtFails(a: Adt, error: LayoutError)
    requires a.Accepted()
  {
    if !a.isEnum then StructOf(a, 0).Compute() == Err(error)
    else if forall u: nat :: !CanBe(a, u) then false
    else if !a.def.repr.c && a.def.repr.intType.None? && exists v :: OnlyOneCanBe(a, v) then
      exists v :: OnlyOneCanBe(a, v) && StructOf(a, v).Compute() == Err(error)
    else a.def.Compute() == Err(error)
  }

  lemma {:induction false} StructIsSoundAdt(a: Adt, v: nat)
    requires v < |a.def.variants| && AllWellFormed(a.def.variants[v]) && a.LayoutOfStruct(v).Ok?
    ensures IsStructOf(a, v, a.LayoutOfStruct(v).value)
  {
    UnivariantIsSound(StructOf(a, v));
  }

  /** Which way `layout_of_struct_or_enum` goes. */
  lemma {:induction false} AdtPath(a: Adt) returns (v: nat)
    requires a.Accepted() && (a.NextPresent(0).Some? || !a.isEnum)
    ensures v < |a.def.variants| && v == if a.NextPresent(0).Some? then a.NextPresent(0).value else 0
    ensures !a.isEnum ==> v == 0
    ensures a.isEnum && a.NextPresent(v + 1).None? ==> OnlyOneCanBe(a, v)
    ensures a.isEnum && a.NextPresent(v + 1).Some? ==>
              v < a.NextPresent(v + 1).value && CanBe(a, v) && CanBe(a, a.NextPresent(v + 1).value)
  {
    v := if a.NextPresent(0).Some? then a.NextPresent(0).value else 0;
    NextPresentIsNext(a, 0);
    NextPresentIsNext(a, v + 1);
    forall u: nat | u < |a.def.variants|
      ensures a.Present(u) <==> CanBe(a, u)
    {
      PresentCanBe(a, u);
    }
  }

  lemma {:induction false} ComputeAsStruct(a: Adt, v: nat)
    requires a.Accepted() && (a.NextPresent(0).Some? || !a.isEnum) && v < |a.def.variants|
    requires v == (if a.NextPresent(0).Some? then a.NextPresent(0).value else 0) && a.TakesStructPath(v)
    ensures a.Compute() == a.LayoutOfStruct(v)
  {
  }

  lemma {:induction false} ComputeAsEnum(a: Adt, v: nat)
    requires a.Accepted() && a.NextPresent(0) == Some(v) && !a.TakesStructPath(v)
    ensures a.def.Accepted() && a.Compute() == a.def.Compute()
  {
  }

  lemma {:induction false} NoPathIsSound(a: Adt)
    requires a.Accepted() && a.isEnum && a.NextPresent(0).None?
    ensures a.Compute() == Ok(Never(a.def.dl)) && SoundAdt(a, Never(a.def.dl)) && Never(a.def.dl).WellFormed()
  {
    ProductIsMultiple(0, a.def.dl.i8Align);
    NextPresentIsNext(a, 0);
    forall u: nat | u < |a.def.variants|
      ensures !CanBe(a, u)
    {
      PresentCanBe(a, u);
    }
  }

  lemma {:induction false} StructPathIsSound(a: Adt, v: nat, layout: Layout)
    requires a.Accepted() && v < |a.def.variants| && IsStructOf(a, v, layout)
    requires if a.isEnum then OnlyOneCanBe(a, v) && !a.def.repr.InhibitEnumLayoutOpt() else v == 0
    ensures SoundAdt(a, layout)
  {
    if a.isEnum {
      assert OnlyOneCanBe(a, v) && IsStructOf(a, v, layout);
    }
  }

  lemma {:induction false} EnumPathIsSound(a: Adt, v: nat, w: nat, layout: Layout)
    requires a.Accepted() && a.isEnum && CanBe(a, v) && a.def.Compute() == Ok(layout) && SoundEnum(a.def, layout)
    requires a.def.repr.InhibitEnumLayoutOpt() || (v < w && CanBe(a, w))
    ensures SoundAdt(a, layout) && layout.WellFormed()
  {
    assert !a.def.repr.InhibitEnumLayoutOpt() ==> forall u :: OnlyOneCanBe(a, u) ==> u == v && u == w;
  }

  lemma {:induction false} StructFails(a: Adt, v: nat)
    requires a.Accepted() && v < |a.def.variants| && a.LayoutOfStruct(v).Err?
    requires if a.isEnum then OnlyOneCanBe(a, v) && !a.def.repr.InhibitEnumLayoutOpt() else v == 0
    ensures AdtFails(a, a.LayoutOfStruct(v).error)
  {
    if a.isEnum {
      assert OnlyOneCanBe(a, v) && StructOf(a, v).Compute() == Err(a.LayoutOfStruct(v).error);
    }
  }

  lemma {:induction false} EnumFails(a: Adt, v: nat, w: nat)
    requires a.Accepted() && a.isEnum && CanBe(a, v) && a.def.Compute().Err?
    requires a.def.repr.InhibitEnumLayoutOpt() || (v < w && CanBe(a, w))
    ensures AdtFails(a, a.def.Compute().error)
  {
    assert !a.def.repr.InhibitEnumLayoutOpt() ==> forall u :: OnlyOneCanBe(a, u) ==> u == v && u == w;
  }

  lemma {:induction false} LaidOutAsStruct(a: Adt, v: nat)
    requires a.Accepted() && v < |a.def.variants| && AllWellFormed(a.def.variants[v])
    requires if a.isEnum then OnlyOneCanBe(a, v) && !a.def.repr.InhibitEnumLayoutOpt() else v == 0
    ensures !a.LayoutOfStruct(v).Panic?
    ensures a.LayoutOfStruct(v).Ok? ==>
              a.LayoutOfStruct(v).value.WellFormed() && SoundAdt(a, a.LayoutOfStruct(v).value)
    ensures a.LayoutOfStruct(v).Err? ==> AdtFails(a, a.LayoutOfStruct(v).error)
  {
    StructIsWellFormed(a, v);
    if a.LayoutOfStruct(v).Ok? {
      StructIsSoundAdt(a, v);
      StructPathIsSound(a, v, a.LayoutOfStruct(v).value);
    } else {
      StructFails(a, v);
    }
  }

  lemma {:induction false} LaidOutAsSoundEnum(a: Adt, v: nat)
    requires a.Accepted() && a.isEnum && AllVariantsWellFormed(a.def) && SensibleDiscriminants(a)
    requires a.NextPresent(0) == Some(v) && !a.TakesStructPath(v)
    ensures a.def.Compute().Panic? <==> AdtPanics(a)
    ensures a.def.Compute().Ok? ==> a.def.Compute().value.WellFormed() && SoundAdt(a, a.def.Compute().value)
    ensures a.def.Compute().Err? ==> AdtFails(a, a.def.Compute().error)
  {
    EnumPathIsLaidOut(a, v);
    EnumIsSound(a.def);
    var w := if a.NextPresent(v + 1).Some? then a.NextPresent(v + 1).value else v;
    PresentCanBe(a, v);
    PresentCanBe(a, w);
    if a.def.Compute().Ok? {
      EnumPathIsSound(a, v, w, a.def.Compute().value);
    } else if a.def.Compute().Err? {
      EnumFails(a, v, w);
    }
  }

  /** A tag that is too wide comes from `repr(C)`, under which no variant is passed over. */
  lemma {:induction false} PanicsOnEnumPath(a: Adt)
    requires a.Accepted() && AdtPanics(a)
    ensures a.isEnum && a.NextPresent(0) == Some(0) && !a.TakesStructPath(0)
  {
  }

  /** `layout_of_struct_or_enum` panics only about a tag that is too wide, and exactly then; it
      returns well-formed layouts for well-formed fields, of the kind that the present variants
      decide: two of them are exactly what its enum path relies on. */
  lemma {:induction false} AdtIsWellFormed(a: Adt)
    requires a.Accepted() && AllVariantsWellFormed(a.def) && SensibleDiscriminants(a)
    ensures a.Compute().Panic? <==> AdtPanics(a)
    ensures a.Compute().Ok? ==> a.Compute().value.WellFormed() && SoundAdt(a, a.Compute().value)
    ensures a.Compute().Err? ==> AdtFails(a, a.Compute().error)
  {
    if AdtPanics(a) {
      PanicsOnEnumPath(a);
    }
    if a.NextPresent(0).None? && a.isEnum {
      NoPathIsSound(a);
    } else {
      var v := AdtPath(a);
      SomePathIsSound(a, v);
    }
  }

  lemma {:induction false} SomePathIsSound(a: Adt, v: nat)
    requires a.Accepted() && AllVariantsWellFormed(a.def) && SensibleDiscriminants(a)
    requires (a.NextPresent(0).Some? || !a.isEnum) && v < |a.def.variants|
    requires v == if a.NextPresent(0).Some? then a.NextPresent(0).value else 0
    requires a.TakesStructPath(v) ==> !AdtPanics(a)
    requires !a.isEnum ==> v == 0
    requires a.isEnum && a.NextPresent(v + 1).None? ==> OnlyOneCanBe(a, v)
    ensures a.Compute().Panic? <==> AdtPanics(a)
    ensures a.Compute().Ok? ==> a.Compute().value.WellFormed() && SoundAdt(a, a.Compute().value)
    ensures a.Compute().Err? ==> AdtFails(a, a.Compute().error)
  {
    if a.TakesStructPath(v) {
      ComputeAsStruct(a, v);
      LaidOutAsStruct(a, v);
    } else {
      ComputeAsEnum(a, v);
      LaidOutAsSoundEnum(a, v);
    }
  }

  method StructLayout(a: Adt, v: nat) returns (r: Result<Layout>)
    requires v < |a.def.variants| && AllWellFormed(a.def.variants[v])
    ensures r == a.LayoutOfStruct(v)
  {
    r := UnivariantLayout(Struct(a.def.variants[v], a.def.repr, a.Kind(v), a.def.dl));
    if r.Ok? {
      var st := r.value.(variants := Single(v));
      if a.isSpecialNoNiche {
        st := st.(largestNiche := None);
      }
      r := Ok(st);
    }
  }

  /** `layout_of_struct_or_enum`, dispatching to the methods of its parts. */
  method AdtLayout(a: Adt) returns (r: Result<Layout>)
    requires a.Accepted() && AllVariantsWellFormed(a.def) && SensibleDiscriminants(a)
    ensures r == a.Compute() && (r.Panic? <==> AdtPanics(a))
    ensures r.Ok? ==> r.value.WellFormed()
  {
    AdtIsWellFormed(a);
    var present := a.NextPresent(0);
    if present.None? && a.isEnum {
      return Ok(Never(a.def.dl));
    }
    var v := if present.Some? then present.value else 0;
    r := LayOutByPath(a, v);
  }

  method LayOutByPath(a: Adt, v: nat) returns (r: Result<Layout>)
    requires a.Accepted() && AllVariantsWellFormed(a.def) && SensibleDiscriminants(a) && v < |a.def.variants|
    requires a.NextPresent(0) == Some(v) || (!a.isEnum && a.NextPresent(0).None? && v == 0)
    ensures r == a.Compute()
  {
    if a.TakesStructPath(v) {
      ComputeAsStruct(a, v);
      r := StructLayout(a, v);
    } else {
      ComputeAsEnum(a, v);
      EnumPathIsLaidOut(a, v);
      r := EnumLayout(a.def);
    }
  }

  // ----- closure

  /** A type: a leaf with a given layout, or built from other types. */
  datatype Ty =
    | Leaf(layout: Layout)
    | ArrayOf(element: Ty, count: Option<nat>)
    | UnionOf(repr: Repr, fields: seq<Ty>)
    | AdtOf(repr: Repr, variants: seq<Variant>, discriminants: seq<nat>,
            isEnum: bool, isSpecialNoNiche: bool, alwaysSized: bool)

  datatype Variant = Variant(fields: seq<Ty>)

  /** Structs have one variant, enums one discriminant for each. */
  predicate Shaped(ty: Ty) {
    match ty
    case Leaf(_) => true
    case ArrayOf(element, _) => Shaped(element)
    case UnionOf(_, fields) => forall i :: 0 <= i < |fields| ==> Shaped(fields[i])
    case AdtOf(_, variants, discriminants, isEnum, _, _) =>
      && (if isEnum then |discriminants| == |variants| else |variants| == 1)
      && (forall v :: 0 <= v < |variants| ==> ShapedAll(variants[v]))
  }

  predicate ShapedAll(variant: Variant) {
    forall i :: 0 <= i < |variant.fields| ==> Shaped(variant.fields[i])
  }

  function LayoutOf(ty: Ty, dl: DataLayout): Result<Layout>
    requires Shaped(ty)
    decreases ty, 0
  {
    match ty
    case Leaf(layout) => Ok(layout)
    case ArrayOf(element, count) =>
      var e := LayoutOf(element, dl);
      if e.Ok? then ArrayLike(e.value, count, dl) else e
    case UnionOf(repr, fields) =>
      var fs := LayoutsOf(fields, dl);
      if fs.Ok? then LayoutOfUnion(fs.value, repr, dl) else if fs.Err? then Err(fs.error) else Panic
    case AdtOf(repr, variants, discriminants, isEnum, noNiche, alwaysSized) =>
      var vs := VariantsOf(variants, dl);
      if vs.Ok? then Adt(EnumDef(vs.value, discriminants, repr, dl), isEnum, noNiche, alwaysSized).Compute()
      else if vs.Err? then Err(vs.error) else Panic
  }

  /** The layouts of several types, up to the first failure. */
  function LayoutsOf(tys: seq<Ty>, dl: DataLayout): (r: Result<seq<Layout>>)
    requires forall i :: 0 <= i < |tys| ==> Shaped(tys[i])
    ensures r.Ok? ==> |r.value| == |tys|
    decreases tys, 1
  {
    if tys == [] then Ok([])
    else
      match LayoutOf(tys[0], dl)
      case Err(error) => Err(error)
      case Panic => Panic
      case Ok(first) =>
        var rest := LayoutsOf(tys[1..], dl);
        if rest.Ok? then Ok([first] + rest.value) else rest
  }

  function VariantsOf(variants: seq<Variant>, dl: DataLayout): (r: Result<seq<seq<Layout>>>)
    requires forall v :: 0 <= v < |variants| ==> ShapedAll(variants[v])
    ensures r.Ok? ==> |r.value| == |variants|
    decreases variants, 1
  {
    if variants == [] then Ok([])
    else
      assert ShapedAll(variants[0]);
      match LayoutsOf(variants[0].fields, dl)
      case Err(error) => Err(error)
      case Panic => Panic
      case Ok(first) =>
        var rest := VariantsOf(variants[1..], dl);
        if rest.Ok? then Ok([first] + rest.value) else rest
  }

  /** The leaves are well-formed and the discriminants of the enums sensible. */
  ghost predicate WellLeaved(ty: Ty, dl: DataLayout)
    decreases ty, 0
  {
    match ty
    case Leaf(layout) => layout.WellFormed()
    case ArrayOf(element, _) => WellLeaved(element, dl)
    case UnionOf(_, fields) => forall i :: 0 <= i < |fields| ==> WellLeaved(fields[i], dl)
    case AdtOf(repr, variants, discriminants, isEnum, noNiche, alwaysSized) =>
      && SensibleDiscriminants(Adt(EnumDef([], discriminants, repr, dl), isEnum, noNiche, alwaysSized))
      && (forall v :: 0 <= v < |variants| ==> WellLeavedAll(variants[v], dl))
  }

  ghost predicate WellLeavedAll(variant: Variant, dl: DataLayout)
    decreases variant, 1
  {
    forall i :: 0 <= i < |variant.fields| ==> WellLeaved(variant.fields[i], dl)
  }

  /** When the layout of a type panics: some type in it is an enum whose tag is too wide, and no
      type that is laid out before it has an error. */
  ghost predicate Panics(ty: Ty, dl: DataLayout)
    requires Shaped(ty)
    decreases ty, 0
  {
    match ty
    case Leaf(_) => false
    case ArrayOf(element, _) => Panics(element, dl)
    case UnionOf(_, fields) => FieldsPanic(fields, dl)
    case AdtOf(repr, variants, discriminants, isEnum, noNiche, alwaysSized) =>
      || VariantsPanic(variants, dl)
      || (&& VariantsOf(variants, dl).Ok?
          && AdtPanics(Adt(EnumDef(VariantsOf(variants, dl).value, discriminants, repr, dl),
                           isEnum, noNiche, alwaysSized)))
  }

  ghost predicate FieldsPanic(tys: seq<Ty>, dl: DataLayout)
    requires forall i :: 0 <= i < |tys| ==> Shaped(tys[i])
    decreases tys, 1
  {
    exists i :: 0 <= i < |tys| && Panics(tys[i], dl) && LayoutsOf(tys[..i], dl).Ok?
  }

  ghost predicate VariantPanics(variant: Variant, dl: DataLayout)
    requires ShapedAll(variant)
    decreases variant, 2
  {
    match variant
    case Variant(fields) => FieldsPanic(fields, dl)
  }

  ghost predicate VariantsPanic(variants: seq<Variant>, dl: DataLayout)
    requires forall v :: 0 <= v < |variants| ==> ShapedAll(variants[v])
    decreases variants, 3
  {
    exists v :: 0 <= v < |variants| && VariantPanics(variants[v], dl) && VariantsOf(variants[..v], dl).Ok?
  }

  lemma {:induction false} FieldsPanicStep(tys: seq<Ty>, dl: DataLayout)
    requires tys != [] && forall i :: 0 <= i < |tys| ==> Shaped(tys[i])
    ensures FieldsPanic(tys, dl) <==>
              Panics(tys[0], dl) || (LayoutOf(tys[0], dl).Ok? && FieldsPanic(tys[1..], dl))
  {
    assert tys[..0] == [];
    if FieldsPanic(tys, dl) {
      var i :| 0 <= i < |tys| && Panics(tys[i], dl) && LayoutsOf(tys[..i], dl).Ok?;
      if i > 0 {
        LayoutsStep(tys, dl, i);
        assert Panics(tys[1..][i - 1], dl);
      }
    }
    if LayoutOf(tys[0], dl).Ok? && FieldsPanic(tys[1..], dl) {
      var i :| 0 <= i < |tys[1..]| && Panics(tys[1..][i], dl) && LayoutsOf(tys[1..][..i], dl).Ok?;
      LayoutsStep(tys, dl, i + 1);
      assert Panics(tys[i + 1], dl);
    }
  }

  lemma {:induction false} LayoutsStep(tys: seq<Ty>, dl: DataLayout, i: nat)
    requires 0 < i <= |tys| && forall j :: 0 <= j < |tys| ==> Shaped(tys[j])
    ensures LayoutsOf(tys[..i], dl).Ok? <==> LayoutOf(tys[0], dl).Ok? && LayoutsOf(tys[1..][..i - 1], dl).Ok?
  {
    assert tys[..i][0] == tys[0] && tys[..i][1..] == tys[1..][..i - 1];
  }

  lemma {:induction false} VariantsPanicStep(variants: seq<Variant>, dl: DataLayout)
    requires variants != [] && forall v :: 0 <= v < |variants| ==> ShapedAll(variants[v])
    ensures VariantsPanic(variants, dl) <==>
              || VariantPanics(variants[0], dl)
              || (LayoutsOf(variants[0].fields, dl).Ok? && VariantsPanic(variants[1..], dl))
  {
    assert variants[..0] == [];
    if VariantsPanic(variants, dl) {
      var v :| 0 <= v < |variants| && VariantPanics(variants[v], dl) && VariantsOf(variants[..v], dl).Ok?;
      if v > 0 {
        VariantsStep(variants, dl, v);
        assert VariantPanics(variants[1..][v - 1], dl);
      }
    }
    if LayoutsOf(variants[0].fields, dl).Ok? && VariantsPanic(variants[1..], dl) {
      LaterVariantPanics(variants, dl);
    }
  }

  lemma {:induction false} LaterVariantPanics(variants: seq<Variant>, dl: DataLayout)
    requires variants != [] && forall v :: 0 <= v < |variants| ==> ShapedAll(variants[v])
    requires ShapedAll(variants[0]) && LayoutsOf(variants[0].fields, dl).Ok? && VariantsPanic(variants[1..], dl)
    ensures VariantsPanic(variants, dl)
  {
    var v :| 0 <= v < |variants[1..]|
             && VariantPanics(variants[1..][v], dl) && VariantsOf(variants[1..][..v], dl).Ok?;
    VariantsStep(variants, dl, v + 1);
    assert VariantPanics(variants[v + 1], dl);
  }

  lemma {:induction false} VariantsStep(variants: seq<Variant>, dl: DataLayout, v: nat)
    requires 0 < v <= |variants| && forall w :: 0 <= w < |variants| ==> ShapedAll(variants[w])
    ensures VariantsOf(variants[..v], dl).Ok?
       <==> LayoutsOf(variants[0].fields, dl).Ok? && VariantsOf(variants[1..][..v - 1], dl).Ok?
  {
    assert variants[..v][0] == variants[0] && variants[..v][1..] == variants[1..][..v - 1];
  }

  /** Over well-formed leaves, every type that has a layout has a well-formed one, and the one panic
      is that about a tag that is too wide. */
  lemma {:induction false} LayoutOfIsWellFormed(ty: Ty, dl: DataLayout)
    requires Shaped(ty) && WellLeaved(ty, dl)
    ensures LayoutOf(ty, dl).Panic? <==> Panics(ty, dl)
    ensures LayoutOf(ty, dl).Ok? ==> LayoutOf(ty, dl).value.WellFormed()
    decreases ty, 0
  {
    match ty
    case Leaf(_) =>
    case ArrayOf(element, count) =>
      LayoutOfIsWellFormed(element, dl);
      if LayoutOf(ty, dl).Ok? {
        ArrayIsWellFormed(LayoutOf(element, dl).value, count, dl);
      }
    case UnionOf(repr, fields) =>
      LayoutsOfAreWellFormed(fields, dl);
      if LayoutOf(ty, dl).Ok? {
        UnionIsSound(LayoutsOf(fields, dl).value, repr, dl);
      }
    case AdtOf(repr, variants, discriminants, isEnum, noNiche, alwaysSized) =>
      VariantsOfAreWellFormed(variants, dl);
      if VariantsOf(variants, dl).Ok? {
        var def := EnumDef(VariantsOf(variants, dl).value, discriminants, repr, dl);
        AdtIsWellFormed(Adt(def, isEnum, noNiche, alwaysSized));
      }
  }

  lemma {:induction false} LayoutsOfAreWellFormed(tys: seq<Ty>, dl: DataLayout)
    requires forall i :: 0 <= i < |tys| ==> Shaped(tys[i]) && WellLeaved(tys[i], dl)
    ensures LayoutsOf(tys, dl).Panic? <==> FieldsPanic(tys, dl)
    ensures LayoutsOf(tys, dl).Ok? ==> AllWellFormed(LayoutsOf(tys, dl).value)
    decreases tys, 1
  {
    if tys != [] {
      LayoutOfIsWellFormed(tys[0], dl);
      LayoutsOfAreWellFormed(tys[1..], dl);
      FieldsPanicStep(tys, dl);
    }
  }

  lemma {:induction false} VariantsOfAreWellFormed(variants: seq<Variant>, dl: DataLayout)
    requires forall v :: 0 <= v < |variants| ==> ShapedAll(variants[v]) && WellLeavedAll(variants[v], dl)
    ensures VariantsOf(variants, dl).Panic? <==> VariantsPanic(variants, dl)
    ensures VariantsOf(variants, dl).Ok? ==>
              forall v :: 0 <= v < |variants| ==> AllWellFormed(VariantsOf(variants, dl).value[v])
    decreases variants, 1
  {
    if variants != [] {
      LayoutsOfAreWellFormed(variants[0].fields, dl);
      VariantsOfAreWellFormed(variants[1..], dl);
      VariantsPanicStep(variants, dl);
    }
  }

  /** On a target whose smallest `repr(C)` enum is no wider than a pointer, nothing panics. */
  lemma {:induction false} NothingPanics(ty: Ty, dl: DataLayout)
    requires Shaped(ty) && WellLeaved(ty, dl) && dl.cEnumMinSize.Log() <= dl.pointerInteger.Log()
    ensures !LayoutOf(ty, dl).Panic?
    decreases ty
  {
    LayoutOfIsWellFormed(ty, dl);
    if Panics(ty, dl) {
      match ty
      case ArrayOf(element, _) => NothingPanics(element, dl);
      case UnionOf(_, fields) =>
        var i :| 0 <= i < |fields| && Panics(fields[i], dl);
        LayoutOfIsWellFormed(fields[i], dl);
        NothingPanics(fields[i], dl);
      case AdtOf(_, variants, _, _, _, _) =>
        assert VariantsPanic(variants, dl);
        var v :| 0 <= v < |variants| && VariantPanics(variants[v], dl);
        assert FieldsPanic(variants[v].fields, dl);
        var i :| 0 <= i < |variants[v].fields| && Panics(variants[v].fields[i], dl);
        LayoutOfIsWellFormed(variants[v].fields[i], dl);
        NothingPanics(variants[v].fields[i], dl);
    }
  }

  // ----- placement at every node

  /** A node that is built from others has a layout only if they have, and then exactly when its
      elements stay below the size bound, a union has fields and they are all sized, and the variants
      of a struct or enum can be laid out; array elements, union fields, struct fields and the fields
      of enum variants are then placed soundly. */
  ghost predicate SoundTy(ty: Ty, dl: DataLayout)
    requires Shaped(ty)
    decreases ty, 0
  {
    match ty
    case Leaf(layout) => LayoutOf(ty, dl) == Ok(layout)
    case ArrayOf(element, count) =>
      && SoundTy(element, dl)
      && (if LayoutOf(element, dl).Ok? then SoundArrayOf(LayoutOf(element, dl).value, count, dl, LayoutOf(ty, dl))
          else !LayoutOf(ty, dl).Ok?)
    case UnionOf(repr, fields) =>
      && (forall i :: 0 <= i < |fields| ==> SoundTy(fields[i], dl))
      && (if LayoutsOf(fields, dl).Ok? then SoundUnionOf(LayoutsOf(fields, dl).value, repr, LayoutOf(ty, dl))
          else !LayoutOf(ty, dl).Ok?)
    case AdtOf(repr, variants, discriminants, isEnum, noNiche, alwaysSized) =>
      && (forall v :: 0 <= v < |variants| ==> SoundTys(variants[v], dl))
      && (if VariantsOf(variants, dl).Ok? then
            var def := EnumDef(VariantsOf(variants, dl).value, discriminants, repr, dl);
            SoundAdtOf(Adt(def, isEnum, noNiche, alwaysSized), LayoutOf(ty, dl))
          else !LayoutOf(ty, dl).Ok?)
  }

  ghost predicate SoundArrayOf(element: Layout, count: Option<nat>, dl: DataLayout, r: Result<Layout>) {
    && (r.Ok? <==> (match count case None => 0 case Some(n) => n) * element.size < dl.objSizeBound)
    && (r.Ok? ==> SoundArray(element, count, r.value))
  }

  ghost predicate SoundUnionOf(fields: seq<Layout>, repr: Repr, r: Result<Layout>) {
    && (r.Ok? <==> fields != [] && forall i :: 0 <= i < |fields| ==> fields[i].sized)
    && (r.Ok? ==> SoundUnion(fields, repr, r.value))
  }

  ghost predicate SoundAdtOf(a: Adt, r: Result<Layout>)
    requires a.Accepted()
  {
    && (r.Panic? ==> AdtPanics(a))
    && (r.Err? ==> AdtFails(a, r.error))
    && (r.Ok? ==> SoundAdt(a, r.value))
  }

  ghost predicate SoundTys(variant: Variant, dl: DataLayout)
    requires ShapedAll(variant)
    decreases variant, 1
  {
    forall i :: 0 <= i < |variant.fields| ==> SoundTy(variant.fields[i], dl)
  }

  /** Over well-formed leaves, every type that has a layout has a well-formed one, the one panic is
      that about a tag that is too wide, and at every node the parts are placed soundly. */
  lemma {:induction false} LayoutOfIsSound(ty: Ty, dl: DataLayout)
    requires Shaped(ty) && WellLeaved(ty, dl)
    ensures LayoutOf(ty, dl).Panic? <==> Panics(ty, dl)
    ensures LayoutOf(ty, dl).Ok? ==> LayoutOf(ty, dl).value.WellFormed()
    ensures SoundTy(ty, dl)
    decreases ty, 0
  {
    LayoutOfIsWellFormed(ty, dl);
    match ty
    case Leaf(_) =>
    case ArrayOf(element, count) =>
      LayoutOfIsSound(element, dl);
      if LayoutOf(element, dl).Ok? {
        ArrayIsWellFormed(LayoutOf(element, dl).value, count, dl);
      }
    case UnionOf(repr, fields) =>
      forall i | 0 <= i < |fields|
        ensures SoundTy(fields[i], dl)
      {
        LayoutOfIsSound(fields[i], dl);
      }
      if LayoutsOf(fields, dl).Ok? {
        UnionFailsWhen(LayoutsOf(fields, dl).value, repr, dl);
        if LayoutOf(ty, dl).Ok? {
          UnionIsSound(LayoutsOf(fields, dl).value, repr, dl);
        }
      }
    case AdtOf(repr, variants, discriminants, isEnum, noNiche, alwaysSized) =>
      forall v | 0 <= v < |variants|
        ensures SoundTys(variants[v], dl)
      {
        VariantIsSound(variants[v], dl);
      }
      VariantsOfAreWellFormed(variants, dl);
      if VariantsOf(variants, dl).Ok? {
        var def := EnumDef(VariantsOf(variants, dl).value, discriminants, repr, dl);
        AdtIsWellFormed(Adt(def, isEnum, noNiche, alwaysSized));
      }
  }

  lemma {:induction false} VariantIsSound(variant: Variant, dl: DataLayout)
    requires ShapedAll(variant) && WellLeavedAll(variant, dl)
    ensures SoundTys(variant, dl)
    decreases variant, 1
  {
    forall i | 0 <= i < |variant.fields|
      ensures SoundTy(variant.fields[i], dl)
    {
      LayoutOfIsSound(variant.fields[i], dl);
    }
  }
}
