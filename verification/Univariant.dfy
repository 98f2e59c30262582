/** Placing the fields of one variant (`univariant` and `univariant_biased` in
    compiler/rustc_abi/src/layout.rs).
 */
module Univariant {
  import opened PowersOfTwo
  import opened Wrappers
  import opened Niches
  import opened StableSort
  import opened Layouts

  /** The local variables of the placement loop. */
  datatype Placed = Placed(
    offset: nat, offsets: seq<nat>, align: nat,
    largestNiche: Option<Niche>, largestNicheAvailable: nat, unsizedField: Option<nat>)

  /** The input of `univariant`: the fields in source order and how to lay them out. */
  datatype Struct = Struct(fields: seq<Layout>, repr: Repr, kind: StructKind, dl: DataLayout) {

    /** A possibly unsized struct has a tail. */
    predicate Accepted() {
      kind.MaybeUnsized? ==> fields != []
    }

    /** How many leading fields may be reordered. */
    function SizedCount(): nat
      requires Accepted()
    {
      if kind.MaybeUnsized? then |fields| - 1 else |fields|
    }

    /** The alignment a field gets under `repr(packed)`. */
    function EffectiveAlign(i: nat): nat
      requires i < |fields|
    {
      if repr.pack.Some? then Min(fields[i].align, repr.pack.value) else fields[i].align
    }

    // ----- the order of the fields in memory

    /** `alignment_group_key`. */
    function GroupKey(f: Layout, bias: NicheBias, maxFieldAlign: nat, largestNicheSize: nat): nat {
      if repr.pack.Some? then Pow2(Min(f.align, repr.pack.value))
      else
        var sizeAsAlign := TrailingZeros(Max(Pow2(f.align), f.size));
        if largestNicheSize > 0 then
          match bias
          case Start => Min(maxFieldAlign, sizeAsAlign)
          case End => if f.NicheSize() == largestNicheSize then f.align else sizeAsAlign
        else sizeAsAlign
    }

    /** The key that a field is sorted by; `!x` of a word is `MAX - x`. */
    function SortKey(f: Layout, bias: NicheBias, maxFieldAlign: nat, largestNicheSize: nat): Key {
      var group: int := GroupKey(f, bias, maxFieldAlign, largestNicheSize);
      match kind
      case Prefixed(_, _) => Key(group, f.NicheSize(), 0)
      case _ =>
        match bias
        case Start =>
          Key(-group, U128 - 1 - f.NicheSize(),
              if f.largestNiche.Some? then f.largestNiche.value.offset else 0)
        case End =>
          Key(-group, f.NicheSize(),
              if f.largestNiche.Some? then
                U64 - 1 - (f.size - f.largestNiche.value.bytes - f.largestNiche.value.offset)
              else 0)
    }

    predicate Reorders() {
      !repr.InhibitStructFieldReordering() && |fields| > 1
    }

    function SortKeys(bias: NicheBias): (keys: seq<Key>)
      requires Accepted()
      ensures |keys| == SizedCount()
    {
      var sized := fields[..SizedCount()];
      var maxFieldAlign, largestNicheSize := MaxAlign(sized), MaxNicheSize(sized);
      seq(|sized|, i requires 0 <= i < |sized| => SortKey(sized[i], bias, maxFieldAlign, largestNicheSize))
    }

    /** The fields by increasing memory offset. The tail of a possibly unsized struct stays last. */
    function Order(bias: NicheBias): (order: seq<nat>)
      requires Accepted()
      ensures |order| == |fields|
      ensures forall j :: 0 <= j < |order| ==> order[j] < |fields|
    {
      if Reorders() then
        SortRange(SortKeys(bias), 0, SizedCount()) + seq(|fields| - SizedCount(), _ => |fields| - 1)
      else seq(|fields|, j => j)
    }

    // ----- the placement loop

    function Initial(): Placed {
      var align := if repr.pack.Some? then dl.i8Align else dl.aggregateAlign;
      var offsets := seq(|fields|, _ => 0);
      match kind
      case Prefixed(prefixSize, prefixAlign) =>
        var packed := if repr.pack.Some? then Min(prefixAlign, repr.pack.value) else prefixAlign;
        Placed(AlignTo(prefixSize, packed), offsets, Max(align, packed), None, 0, None)
      case _ => Placed(0, offsets, align, None, 0, None)
    }

    /** One round of the loop: places field `i`. */
    function Place(st: Placed, i: nat, bias: NicheBias): (r: Result<Placed>)
      requires i < |fields| == |st.offsets|
      ensures r.Ok? ==> |r.value.offsets| == |fields|
    {
      var field := fields[i];
      if st.unsizedField.Some? then Err(UnexpectedUnsized(st.unsizedField.value))
      else if !field.sized && !kind.MaybeUnsized? then Err(UnexpectedUnsized(i))
      else
        var start := AlignTo(st.offset, EffectiveAlign(i));
        var takes := PrefersNiche(st, field, bias);
        if start + field.size >= dl.objSizeBound then Err(SizeOverflow)
        else Ok(Placed(
          start + field.size,
          st.offsets[i := start],
          Max(st.align, EffectiveAlign(i)),
          if takes then Some(field.largestNiche.value.(offset := field.largestNiche.value.offset + start))
          else st.largestNiche,
          if takes then field.NicheSize() else st.largestNicheAvailable,
          if field.sized then None else Some(i)))
    }

    /** The loop variables after the first `k` fields in `order`. */
    function PlaceUpTo(order: seq<nat>, bias: NicheBias, k: nat): (r: Result<Placed>)
      requires k <= |order| && forall j :: 0 <= j < |order| ==> order[j] < |fields|
      ensures r.Ok? ==> |r.value.offsets| == |fields|
      ensures !r.Panic?
    {
      if k == 0 then Ok(Initial())
      else
        var before := PlaceUpTo(order, bias, k - 1);
        if before.Ok? then Place(before.value, order[k - 1], bias) else before
    }

    function FinalAlign(st: Placed): nat {
      if repr.align.Some? then Max(st.align, repr.align.value) else st.align
    }

    function Finish(st: Placed, order: seq<nat>): (r: Result<Layout>)
      ensures r.Ok? ==> r.value.shape == Arbitrary(st.offsets, order)
      ensures !r.Panic?
    {
      var align := FinalAlign(st);
      var size := AlignTo(st.offset, align);
      if size >= dl.objSizeBound then Err(SizeOverflow)
      else Ok(Layout(
        size, align, st.largestNiche,
        exists i :: 0 <= i < |fields| && fields[i].uninhabited,
        st.unsizedField.None?,
        Arbitrary(st.offsets, order),
        Single(0)))
    }

    /** `univariant_biased`. */
    function Biased(bias: NicheBias): (r: Result<Layout>)
      requires Accepted()
      ensures r.Ok? ==> r.value.shape.Arbitrary?
      ensures !r.Panic?
    {
      var order := Order(bias);
      var placed := PlaceUpTo(order, bias, |order|);
      if placed.Ok? then Finish(placed.value, order) else Err(placed.error)
    }

    /** `univariant`: the start-biased layout, unless the end-biased one keeps more space on
        one side of its niche. */
    function Compute(): (r: Result<Layout>)
      requires Accepted()
      ensures r.Ok? ==> r.value.shape.Arbitrary?
    {
      var first := Biased(Start);
      if !first.Ok? || kind.MaybeUnsized? || first.value.largestNiche.None? then first
      else
        var layout, niche := first.value, first.value.largestNiche.value;
        var head, tail := niche.offset, layout.size - niche.offset - niche.bytes;
        if tail < 0 then Panic
        else if |fields| <= 1 || head == 0 || tail == 0 then first
        else
          match Biased(End)
          case Ok(alt) =>
            if alt.largestNiche.None? then Panic
            else
              var altHead := alt.largestNiche.value.offset;
              if alt.size - altHead - alt.largestNiche.value.bytes < 0 || alt.size != layout.size then Panic
              else if altHead > head && altHead > tail then Ok(alt)
              else first
          case _ => Panic
    }
  }

  /** Larger niches are picked up; with end bias, of several equally large ones the last. */
  predicate PrefersNiche(st: Placed, field: Layout, bias: NicheBias) {
    && field.largestNiche.Some?
    && (if bias.Start? then field.NicheSize() > st.largestNicheAvailable
        else field.NicheSize() >= st.largestNicheAvailable)
  }

  /** A failed round fails the whole loop. */
  lemma {:induction false} FailureStays(s: Struct, order: seq<nat>, bias: NicheBias, j: nat, k: nat)
    requires j <= k <= |order| && forall i :: 0 <= i < |order| ==> order[i] < |s.fields|
    requires !s.PlaceUpTo(order, bias, j).Ok?
    ensures s.PlaceUpTo(order, bias, k) == s.PlaceUpTo(order, bias, j)
  {
    if j < k {
      FailureStays(s, order, bias, j, k - 1);
    }
  }

  /** Round `k` is decided by the loop variables alone, and a failure in it by nothing later. */
  lemma {:induction false} OneRound(s: Struct, order: seq<nat>, bias: NicheBias, k: nat)
    requires k < |order| && forall i :: 0 <= i < |order| ==> order[i] < |s.fields|
    requires s.PlaceUpTo(order, bias, k).Ok?
    ensures var round := s.Place(s.PlaceUpTo(order, bias, k).value, order[k], bias);
            && s.PlaceUpTo(order, bias, k + 1) == round
            && (!round.Ok? ==> s.PlaceUpTo(order, bias, |order|) == round)
  {
    if !s.PlaceUpTo(order, bias, k + 1).Ok? {
      FailureStays(s, order, bias, k + 1, |order|);
    }
  }

  /** The niche of field `field`, placed at `offset`, if it is preferred. */
  method PickUpNiche(before: Placed, field: Layout, offset: nat, bias: NicheBias) returns (st: Placed)
    ensures st == if PrefersNiche(before, field, bias) then
                    var niche := field.largestNiche.value;
                    before.(largestNicheAvailable := field.NicheSize(),
                            largestNiche := Some(niche.(offset := niche.offset + offset)))
                  else before
  {
    st := before;
    if field.largestNiche.Some? {
      var niche, available := field.largestNiche.value, field.NicheSize();
      var preferNewNiche :=
        if bias.Start? then available > st.largestNicheAvailable else available >= st.largestNicheAvailable;
      if preferNewNiche {
        st := st.(largestNicheAvailable := available,
                  largestNiche := Some(niche.(offset := niche.offset + offset)));
      }
    }
  }

  /** The body of the placement loop: updates the loop variables for field `i`. */
  method PlaceField(s: Struct, before: Placed, i: nat, bias: NicheBias) returns (r: Result<Placed>)
    requires i < |s.fields| == |before.offsets|
    ensures r == s.Place(before, i, bias)
  {
    var st, field, pack := before, s.fields[i], s.repr.pack;
    if st.unsizedField.Some? {
      return Err(UnexpectedUnsized(st.unsizedField.value));
    }
    if !field.sized {
      if !s.kind.MaybeUnsized? {
        return Err(UnexpectedUnsized(i));
      }
      st := st.(unsizedField := Some(i));
    }
    var fieldAlign := if pack.Some? then Min(field.align, pack.value) else field.align;
    var offset := AlignTo(st.offset, fieldAlign);
    st := st.(align := Max(st.align, fieldAlign), offsets := st.offsets[i := offset]);
    st := PickUpNiche(st, field, offset, bias);
    if offset + field.size >= s.dl.objSizeBound {
      return Err(SizeOverflow);
    }
    return Ok(st.(offset := offset + field.size));
  }

  /** The placement loop over the fields in memory order. */
  method PlaceFields(s: Struct, inMemoryOrder: seq<nat>, bias: NicheBias) returns (r: Result<Placed>)
    requires forall j :: 0 <= j < |inMemoryOrder| ==> inMemoryOrder[j] < |s.fields|
    ensures r == s.PlaceUpTo(inMemoryOrder, bias, |inMemoryOrder|)
  {
    var st := Placed(0, seq(|s.fields|, _ => 0),
                     if s.repr.pack.Some? then s.dl.i8Align else s.dl.aggregateAlign, None, 0, None);
    if s.kind.Prefixed? {
      var prefixAlign :=
        if s.repr.pack.Some? then Min(s.kind.prefixAlign, s.repr.pack.value) else s.kind.prefixAlign;
      st := st.(align := Max(st.align, prefixAlign), offset := AlignTo(s.kind.prefixSize, prefixAlign));
    }
    for k := 0 to |inMemoryOrder|
      invariant s.PlaceUpTo(inMemoryOrder, bias, k) == Ok(st)
    {
      OneRound(s, inMemoryOrder, bias, k);
      r := PlaceField(s, st, inMemoryOrder[k], bias);
      if !r.Ok? {
        return;
      }
      st := r.value;
    }
    return Ok(st);
  }

  /** The field indices, sorted in place where the representation allows it. */
  method MemoryOrder(s: Struct, bias: NicheBias) returns (inMemoryOrder: seq<nat>)
    requires s.Accepted()
    ensures inMemoryOrder == s.Order(bias)
  {
    var indices := new nat[|s.fields|](j => j);
    if s.Reorders() {
      SortByKey(indices, s.SizedCount(), s.SortKeys(bias));
    }
    inMemoryOrder := indices[..];
    OrderFromParts(s, bias, inMemoryOrder);
  }

  lemma {:induction false} OrderFromParts(s: Struct, bias: NicheBias, order: seq<nat>)
    requires s.Accepted() && |order| == |s.fields|
    requires s.Reorders() ==> order[..s.SizedCount()] == SortRange(s.SortKeys(bias), 0, s.SizedCount())
    requires forall j :: (if s.Reorders() then s.SizedCount() else 0) <= j < |order| ==> order[j] == j
    ensures order == s.Order(bias)
  {
  }

  method UnivariantBiased(s: Struct, bias: NicheBias) returns (r: Result<Layout>)
    requires s.Accepted()
    ensures r == s.Biased(bias)
  {
    var inMemoryOrder := MemoryOrder(s, bias);
    var placed := PlaceFields(s, inMemoryOrder, bias);
    if !placed.Ok? {
      return Err(placed.error);
    }
    var st := placed.value;
    var align := st.align;
    if s.repr.align.Some? {
      align := Max(align, s.repr.align.value);
    }
    var size := AlignTo(st.offset, align);
    if size >= s.dl.objSizeBound {
      return Err(SizeOverflow);
    }
    var uninhabited := exists i :: 0 <= i < |s.fields| && s.fields[i].uninhabited;
    return Ok(Layout(size, align, st.largestNiche, uninhabited, st.unsizedField.None?,
                     Arbitrary(st.offsets, inMemoryOrder), Single(0)));
  }
}
