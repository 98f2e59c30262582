/** Laying out an enum with several variants (`layout_of_enum` in
    compiler/rustc_abi/src/layout.rs): once with the discriminant in a niche of the largest
    variant, once with a tag in front, and the better of the two.
 */
module Enums {
  import opened PowersOfTwo
  import opened Wrappers
  import opened WrappingRanges
  import opened SmallestRange
  import opened Niches
  import opened Layouts
  import opened Univariant
  import opened Discriminants

  datatype EnumDef = EnumDef(variants: seq<seq<Layout>>, discriminants: seq<nat>, repr: Repr, dl: DataLayout) {

    /** `layout_of_enum` is reached with at least one variant, each with its discriminant. */
    predicate Accepted() {
      variants != [] && |discriminants| == |variants|
    }

    /** The variants laid out each on its own. */
    function Alone(kind: StructKind): (rs: seq<Result<Layout>>)
      requires !kind.MaybeUnsized?
      ensures |rs| == |variants|
      ensures forall i :: 0 <= i < |rs| && rs[i].Ok? ==> rs[i].value.shape.Arbitrary?
    {
      seq(|variants|, i requires 0 <= i < |variants| => Struct(variants[i], repr, kind, dl).Compute())
    }

    /** The layouts of all variants, or the first failure. */
    function Structs(kind: StructKind): (r: Result<seq<Layout>>)
      requires !kind.MaybeUnsized?
      ensures r.Ok? ==> |r.value| == |variants| && AllArbitrary(r.value)
    {
      CollectIsComplete(Alone(kind), |variants|);
      Collect(Alone(kind), |variants|)
    }

    // ----- niche filling

    /** A variant that is neither the untagged one nor absent. */
    predicate NeedsDiscriminant(largest: nat, i: nat)
      requires i < |variants|
    {
      i != largest && !Absent(variants[i])
    }

    function FirstNeeded(largest: nat, i: nat): (r: Option<nat>)
      requires i <= |variants|
      ensures r.Some? ==> i <= r.value < |variants|
      decreases |variants| - i
    {
      if i == |variants| then None
      else if NeedsDiscriminant(largest, i) then Some(i)
      else FirstNeeded(largest, i + 1)
    }

    function LastNeeded(largest: nat, i: nat): (r: Option<nat>)
      requires i <= |variants|
      ensures r.Some? ==> r.value < i
    {
      if i == 0 then None
      else if NeedsDiscriminant(largest, i - 1) then Some(i - 1)
      else LastNeeded(largest, i - 1)
    }

    /** `calculate_niche_filling_layout`. */
    function NicheFilling(): Result<Option<Layout>> {
      if repr.InhibitEnumLayoutOpt() || |variants| < 2 then Ok(None)
      else
        var structs := Structs(AlwaysSized);
        if structs.Panic? then Panic
        else if structs.Err? then Ok(None)
        else NicheFillingOf(structs.value)
    }

    function NicheFillingOf(sts: seq<Layout>): Result<Option<Layout>>
      requires |sts| == |variants| > 0 && AllArbitrary(sts)
    {
      var align := Max(dl.aggregateAlign, MaxAlign(sts));
      var largest := LargestVariant(sts, |sts|);
      var first, last := FirstNeeded(largest, 0), LastNeeded(largest, |variants|);
      if first.None? || last.None? || last.value < first.value then Panic
      else if sts[largest].largestNiche.None? then Ok(None)
      else
        var niche := sts[largest].largestNiche.value;
        var reserved := niche.Reserve(last.value - first.value + 1);
        if reserved.None? then Ok(None)
        else
          var (nicheStart, range) := reserved.value;
          var size := AlignTo(sts[largest].size, align);
          var fitted := FitVariants(sts, largest, niche, size, |sts|);
          if fitted.None? then Ok(None)
          else Ok(Some(Layout(
            size, align, FromScalar(niche.offset, niche.bytes, range),
            forall i :: 0 <= i < |sts| ==> sts[i].uninhabited,
            true,
            Arbitrary([niche.offset], [0]),
            Multiple(Tag(niche.offset, niche.bytes, range),
                     NicheEncoding(largest, first.value, last.value, nicheStart),
                     fitted.value))))
    }

    // ----- tagging

    predicate Inhabited(i: nat)
      requires i < |variants|
    {
      forall f :: 0 <= f < |variants[i]| ==> !variants[i][f].uninhabited
    }

    /** The discriminants of the first `k` variants that the tag must be able to store. */
    function NecessaryDiscriminants(k: nat): (ds: seq<nat>)
      requires |discriminants| == |variants| && k <= |variants|
    {
      if k == 0 then []
      else
        var before := NecessaryDiscriminants(k - 1);
        if repr.c || Inhabited(k - 1) then before + [discriminants[k - 1]] else before
    }

    /** The smallest integer type for the tag, and its signedness. */
    function MinInteger(): Option<(Integer, bool)>
      requires Accepted()
    {
      var ds, ty := NecessaryDiscriminants(|variants|), repr.DiscrType();
      var bits := ty.ToInteger(dl).Bits();
      var min := MinNegative(ds, ty.signed, bits, |ds|);
      if !Holds(I128, true, min) then None
      else DiscrRange(repr, dl, min, MaxPositive(ds, ty.signed, bits, |ds|))
    }

    function MaxFieldAlign(k: nat): nat
      requires k <= |variants|
    {
      if k == 0 then 0 else Max(MaxFieldAlign(k - 1), MaxAlign(variants[k - 1]))
    }

    /** `repr(C)` asks for a (tag, union) layout, so the payload is aligned as a union. */
    function TagPrefix(ity: Integer): StructKind {
      Prefixed(ity.Bytes(), Max(ity.Align(dl), if repr.c then MaxFieldAlign(|variants|) else 0))
    }

    /** The least alignment among the first immovable fields of the first `k` variants. */
    function StartAlign(sts: seq<Layout>, k: nat): nat
      requires |sts| == |variants| && k <= |sts| && AllArbitrary(sts)
    {
      if k == 0 then 8
      else
        var first := FirstImmovable(variants[k - 1], sts[k - 1].shape.order, 0);
        var before := StartAlign(sts, k - 1);
        if first.Some? then Min(before, variants[k - 1][first.value].align) else before
    }

    /** The integer type that the tag is widened to. */
    function FinalInteger(minIty: Integer, sts: seq<Layout>): Integer
      requires |sts| == |variants| && AllArbitrary(sts)
    {
      if repr.c || repr.intType.Some? then minIty
      else
        var wanted := ForAlign(dl, StartAlign(sts, |sts|));
        if wanted.None? then minIty else Wider(minIty, wanted.value)
    }

    /** The variants behind the final tag. */
    function TaggedVariants(minIty: Integer, sts: seq<Layout>): (r: Option<seq<VariantLayout>>)
      requires |sts| == |variants| && AllArbitrary(sts)
      ensures r.Some? ==> |r.value| == |sts|
    {
      var ity := FinalInteger(minIty, sts);
      if ity == minIty then Some(FromLayouts(sts)) else WidenVariants(sts, minIty.Bytes(), ity.Bytes(), |sts|)
    }

    /** The narrowest range that holds every necessary tag. */
    function TagRange(ity: Integer): WrappingRange
      requires |discriminants| == |variants|
    {
      var tags := Tags(NecessaryDiscriminants(|variants|), ity);
      if tags == [] then WrappingRange(0, 0) else SearchAll(tags, ity.Bits())
    }

    /** The layout with a tag in front. */
    function Tagged(): Result<Layout>
      requires Accepted()
    {
      var min := MinInteger();
      if min.None? then Panic
      else
        var (minIty, signed) := min.value;
        var structs := Structs(TagPrefix(minIty));
        if structs.Panic? then Panic
        else if structs.Err? then Err(structs.error)
        else TaggedOf(minIty, signed, structs.value)
    }

    function TaggedOf(minIty: Integer, signed: bool, sts: seq<Layout>): Result<Layout>
      requires Accepted() && |sts| == |variants| && AllArbitrary(sts)
    {
      var align := Max(dl.aggregateAlign, MaxAlign(sts));
      var size := AlignTo(MaxSize(sts), align);
      if size >= dl.objSizeBound then Err(SizeOverflow)
      else if repr.DiscrType().ToInteger(dl).Log() < minIty.Log() then Panic
      else
        var ity := FinalInteger(minIty, sts);
        var widened := TaggedVariants(minIty, sts);
        if widened.None? then Panic
        else Ok(Assembled(ity, signed, sts, widened.value))
    }

    /** The layout of the variants behind a tag of type `ity`. */
    function Assembled(ity: Integer, signed: bool, sts: seq<Layout>, laidOut: seq<VariantLayout>): Layout
      requires |discriminants| == |variants|
    {
      var align := Max(dl.aggregateAlign, MaxAlign(sts));
      var range := TagRange(ity);
      Layout(
        AlignTo(MaxSize(sts), align), align, FromScalar(0, ity.Bytes(), range),
        forall i :: 0 <= i < |sts| ==> sts[i].uninhabited,
        true,
        Arbitrary([0], [0]),
        Multiple(Tag(0, ity.Bytes(), range), Direct(signed), laidOut))
    }

    // ----- the choice

    /** `layout_of_enum`. */
    function Compute(): Result<Layout>
      requires Accepted()
    {
      if repr.pack.Some? then Err(ReprConflict)
      else
        var filling := NicheFilling();
        var tagged := Tagged();
        if !filling.Ok? then Panic
        else if !tagged.Ok? then tagged
        else if filling.value.None? then tagged
        else Ok(Better(tagged.value, filling.value.value))
    }
  }

  /** The values of the first `k` results, or the first failure among them, as `collect`
      gathers them. */
  function Collect(rs: seq<Result<Layout>>, k: nat): Result<seq<Layout>>
    requires k <= |rs|
  {
    if k == 0 then Ok([])
    else
      var before := Collect(rs, k - 1);
      if !before.Ok? then before
      else
        match rs[k - 1]
        case Ok(st) => Ok(before.value + [st])
        case Err(e) => Err(e)
        case Panic => Panic
  }

  lemma {:induction false} CollectIsComplete(rs: seq<Result<Layout>>, k: nat)
    requires k <= |rs|
    ensures Collect(rs, k).Ok? ==>
              |Collect(rs, k).value| == k && forall i :: 0 <= i < k ==> rs[i] == Ok(Collect(rs, k).value[i])
    ensures Collect(rs, k).Panic? ==> exists i :: 0 <= i < k && rs[i].Panic?
    ensures (forall i :: 0 <= i < k ==> rs[i].Ok?) ==> Collect(rs, k).Ok?
  {
    if k > 0 {
      CollectIsComplete(rs, k - 1);
    }
  }

  /** The smaller layout; of equal sizes the one with the larger niche; else the tagged one. */
  function Better(tagged: Layout, filling: Layout): Layout {
    if tagged.size > filling.size then filling
    else if tagged.size == filling.size && tagged.NicheSize() < filling.NicheSize() then filling
    else tagged
  }

  /** Every variant on its own is laid out as a struct. */
  predicate AllArbitrary(sts: seq<Layout>) {
    forall i :: 0 <= i < |sts| ==> sts[i].shape.Arbitrary?
  }

  /** `VariantLayout::from_layout`. */
  function FromLayout(st: Layout): VariantLayout
    requires st.shape.Arbitrary?
  {
    VariantLayout(st.size, st.shape.offsets, st.shape.order, st.largestNiche, st.uninhabited)
  }

  function FromLayouts(sts: seq<Layout>): (r: seq<VariantLayout>)
    requires AllArbitrary(sts)
    ensures |r| == |sts|
  {
    seq(|sts|, i requires 0 <= i < |sts| => FromLayout(sts[i]))
  }

  /** The last of the largest among the first `k` variants, as `max_by_key` picks it. */
  function LargestVariant(sts: seq<Layout>, k: nat): (m: nat)
    requires 0 < k <= |sts|
    ensures m < k
    ensures forall i :: 0 <= i < k ==> sts[i].size <= sts[m].size
    ensures forall i :: m < i < k ==> sts[i].size < sts[m].size
  {
    if k == 1 then 0
    else
      var m := LargestVariant(sts, k - 1);
      if sts[k - 1].size >= sts[m].size then k - 1 else m
  }

  function MaxSize(sts: seq<Layout>): (s: nat)
    ensures forall i :: 0 <= i < |sts| ==> sts[i].size <= s
    ensures sts != [] ==> exists i :: 0 <= i < |sts| && sts[i].size == s
  {
    if sts == [] then 0 else Max(sts[0].size, MaxSize(sts[1..]))
  }

  /** Moves a variant behind the niche unless it fits before it. */
  function FitVariant(st: Layout, niche: Niche, size: nat): Option<VariantLayout>
    requires st.shape.Arbitrary?
  {
    var variant := FromLayout(st).(largestNiche := None);
    if st.size <= niche.offset then Some(variant)
    else
      var shift := AlignTo(niche.offset + niche.bytes, st.align);
      if shift + st.size > size then None
      else Some(variant.(offsets := ShiftAll(st.shape.offsets, shift), size := st.size + shift))
  }

  /** The first `k` variants with the others than the largest moved before or behind the
      niche; `None` when one does not fit. */
  function FitVariants(sts: seq<Layout>, largest: nat, niche: Niche, size: nat, k: nat): (r: Option<seq<VariantLayout>>)
    requires k <= |sts| && AllArbitrary(sts)
    ensures r.Some? ==> |r.value| == k
  {
    if k == 0 then Some([])
    else
      var before := FitVariants(sts, largest, niche, size, k - 1);
      var fitted := if k - 1 == largest then Some(FromLayout(sts[k - 1])) else FitVariant(sts[k - 1], niche, size);
      if before.None? || fitted.None? then None else Some(before.value + [fitted.value])
  }

  function ShiftAll(offsets: seq<nat>, shift: nat): (r: seq<nat>)
    ensures |r| == |offsets|
  {
    seq(|offsets|, i requires 0 <= i < |offsets| => offsets[i] + shift)
  }

  /** The first field from position `j` of the memory order that is not a 1-ZST. */
  function FirstImmovable(fields: seq<Layout>, order: seq<nat>, j: nat): (r: Option<nat>)
    requires j <= |order|
    ensures r.Some? ==> r.value < |fields|
    decreases |order| - j
  {
    if j == |order| then None
    else if order[j] < |fields| && !fields[order[j]].Is1Zst() then Some(order[j])
    else FirstImmovable(fields, order, j + 1)
  }

  /** `Integer::for_align`: the integer type whose size and alignment are both as asked. */
  function ForAlign(dl: DataLayout, wanted: nat): (r: Option<Integer>)
    ensures r.Some? ==> r.value.Align(dl) == wanted && r.value.Log() == wanted
  {
    if I8.Align(dl) == wanted && I8.Log() == wanted then Some(I8)
    else if I16.Align(dl) == wanted && I16.Log() == wanted then Some(I16)
    else if I32.Align(dl) == wanted && I32.Log() == wanted then Some(I32)
    else if I64.Align(dl) == wanted && I64.Log() == wanted then Some(I64)
    else if I128.Align(dl) == wanted && I128.Log() == wanted then Some(I128)
    else None
  }

  /** The assertion on the alignment that the search for a start alignment begins with. */
  lemma {:induction false} NoIntegerIsThatAligned(dl: DataLayout)
    ensures ForAlign(dl, 8).None?
  {
  }

  /** Moves the offsets inside the wider tag behind it; `None` when one lay inside the narrow
      tag already. */
  function WidenVariant(variant: VariantLayout, oldSize: nat, newSize: nat): Option<VariantLayout> {
    if exists i :: 0 <= i < |variant.offsets| && variant.offsets[i] < oldSize then None
    else
      Some(variant.(offsets := WidenOffsets(variant.offsets, oldSize, newSize),
                    size := if variant.size <= oldSize then newSize else variant.size))
  }

  /** The first `k` variants behind the widened tag; `None` when the assertion about moved
      offsets fails. */
  function WidenVariants(sts: seq<Layout>, oldSize: nat, newSize: nat, k: nat): (r: Option<seq<VariantLayout>>)
    requires k <= |sts| && AllArbitrary(sts)
    ensures r.Some? ==> |r.value| == k
  {
    if k == 0 then Some([])
    else
      var before := WidenVariants(sts, oldSize, newSize, k - 1);
      var widened := WidenVariant(FromLayout(sts[k - 1]), oldSize, newSize);
      if before.None? || widened.None? then None else Some(before.value + [widened.value])
  }

  function WidenOffsets(offsets: seq<nat>, oldSize: nat, newSize: nat): (r: seq<nat>)
    ensures |r| == |offsets|
  {
    seq(|offsets|, i requires 0 <= i < |offsets| => if offsets[i] <= oldSize then newSize else offsets[i])
  }

  function Tags(ds: seq<nat>, ity: Integer): (tags: seq<nat>)
    ensures |tags| == |ds|
  {
    seq(|ds|, i requires 0 <= i < |ds| => Truncate(ds[i], ity.Bits()))
  }
}
