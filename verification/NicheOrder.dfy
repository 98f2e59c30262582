/** Where `univariant_biased` puts each field, said of the fields themselves: by alignment group,
    then by niche, then by where the niche is in its field, then by source order
    (compiler/rustc_abi/src/layout.rs).
 */
module NicheOrder {
  import opened PowersOfTwo
  import opened StableSort
  import opened Layouts
  import opened Univariant
  import opened UnivariantTheorems
  import opened StructLayouts

  /** The representations under which fields stay in source order. */
  predicate KeepsSourceOrder(s: Struct) {
    s.repr.c || s.repr.simd || s.repr.scalable || s.repr.linear || s.repr.intType.Some?
  }

  /** The fields that may be reordered: all but the tail of a possibly unsized struct. */
  predicate Movable(s: Struct, i: nat) {
    i < |s.fields| && (s.kind.MaybeUnsized? ==> i < |s.fields| - 1)
  }

  // ----- groups, by alignment, size and niche

  /** `2^k` is the largest power of two that divides the size; that of the alignment without one. */
  predicate LargestPower(f: Layout, k: nat) {
    if f.size == 0 then k == f.align else IsMultiple(f.size, k) && !IsMultiple(f.size, k + 1)
  }

  ghost predicate IsMaxAlign(s: Struct, a: nat) {
    && (forall i: nat :: Movable(s, i) ==> s.fields[i].align <= a)
    && (exists i: nat :: Movable(s, i) && s.fields[i].align == a)
  }

  ghost predicate SomeNiche(s: Struct) {
    exists i: nat :: Movable(s, i) && s.fields[i].NicheSize() > 0
  }

  ghost predicate NoneLarger(s: Struct, i: nat)
    requires Movable(s, i)
  {
    forall j: nat :: Movable(s, j) ==> s.fields[j].NicheSize() <= s.fields[i].NicheSize()
  }

  /** The lesser of the largest power of two and the largest alignment. */
  ghost predicate CappedPower(s: Struct, f: Layout, g: nat) {
    exists k: nat, a: nat :: LargestPower(f, k) && IsMaxAlign(s, a) && g == if a < k then a else k
  }

  /** Field `i` is in the group of exponent `g`. */
  ghost predicate InGroup(s: Struct, bias: NicheBias, i: nat, g: nat)
    requires Movable(s, i)
  {
    var f := s.fields[i];
    if s.repr.pack.Some? then g == if f.align < s.repr.pack.value then f.align else s.repr.pack.value
    else if SomeNiche(s) && bias.Start? then CappedPower(s, f, g)
    else if SomeNiche(s) && NoneLarger(s, i) then g == f.align
    else LargestPower(f, g)
  }

  // ----- the order

  /** How far the niche is from the start, and from the end, of its field. */
  function FromStart(f: Layout): int {
    if f.largestNiche.Some? then f.largestNiche.value.offset else 0
  }

  function FromEnd(f: Layout): int {
    if f.largestNiche.Some? then f.size - (f.largestNiche.value.offset + f.largestNiche.value.bytes) else 0
  }

  /** Field `i` of group `g` comes before field `l` of group `h`. Behind a prefix smaller groups come
      first, and large niches last; otherwise larger groups come first. Then with start bias large
      niches come first, those near the start of their field before others, and with end bias they
      come last, those near the end of their field behind others. */
  predicate ComesBefore(s: Struct, bias: NicheBias, i: nat, g: nat, l: nat, h: nat)
    requires i < |s.fields| && l < |s.fields|
  {
    var x, y := s.fields[i], s.fields[l];
    if s.kind.Prefixed? then
      g < h || (g == h && (x.NicheSize() < y.NicheSize() || (x.NicheSize() == y.NicheSize() && i < l)))
    else if g != h then h < g
    else if x.NicheSize() != y.NicheSize() then
      if bias.Start? then y.NicheSize() < x.NicheSize() else x.NicheSize() < y.NicheSize()
    else if bias.Start? then FromStart(x) < FromStart(y) || (FromStart(x) == FromStart(y) && i < l)
    else FromEnd(y) < FromEnd(x) || (FromEnd(x) == FromEnd(y) && i < l)
  }

  // ----- groups are what the keys are made of

  lemma {:induction false} PowerIsUnique(x: nat, j: nat, k: nat)
    requires x > 0 && IsMultiple(x, j) && !IsMultiple(x, j + 1) && IsMultiple(x, k) && !IsMultiple(x, k + 1)
    ensures j == k
  {
    if j < k {
      MultipleWeaken(x, j + 1, k);
    } else if k < j {
      MultipleWeaken(x, k + 1, j);
    }
  }

  lemma {:induction false} LargestPowerIsZeros(f: Layout, k: nat)
    requires f.WellFormed() && LargestPower(f, k)
    ensures TrailingZeros(Max(Pow2(f.align), f.size)) == k
  {
    if f.size == 0 {
      TrailingZerosOfPow2(f.align);
    } else {
      ProductIsMultiple(0, f.align);
      MultiplesApart(0, f.size, f.align);
      PowerIsUnique(f.size, TrailingZeros(f.size), k);
    }
  }

  lemma {:induction false} MaxAlignAt(fields: seq<Layout>) returns (i: nat)
    requires fields != []
    ensures i < |fields| && fields[i].align == MaxAlign(fields)
  {
    i := 0;
    if |fields| > 1 && fields[0].align < MaxAlign(fields[1..]) {
      var j := MaxAlignAt(fields[1..]);
      i := j + 1;
    } else if |fields| == 1 {
      assert fields[1..] == [];
    }
  }

  lemma {:induction false} MaxNicheAt(fields: seq<Layout>) returns (i: nat)
    requires fields != []
    ensures i < |fields| && fields[i].NicheSize() == MaxNicheSize(fields)
  {
    i := 0;
    if |fields| > 1 && fields[0].NicheSize() < MaxNicheSize(fields[1..]) {
      var j := MaxNicheAt(fields[1..]);
      i := j + 1;
    } else if |fields| == 1 {
      assert fields[1..] == [];
    }
  }

  /** The group that the sort key computes is the field's group. */
  lemma {:induction false} GroupIsKey(s: Struct, bias: NicheBias, i: nat, g: nat)
    requires s.Accepted() && Movable(s, i) && s.fields[i].WellFormed() && InGroup(s, bias, i, g)
    ensures var sized := s.fields[..s.SizedCount()];
            GroupExponent(s, s.fields[i], bias, MaxAlign(sized), MaxNicheSize(sized)) == g
  {
    var sized := s.fields[..s.SizedCount()];
    assert sized[i] == s.fields[i];
    if s.repr.pack.None? {
      NichesOfMovable(s, i);
      if SomeNiche(s) && bias.Start? {
        var k: nat, a: nat :| LargestPower(s.fields[i], k) && IsMaxAlign(s, a) && g == if a < k then a else k;
        LargestPowerIsZeros(s.fields[i], k);
        MaxAlignOfMovable(s, a);
      } else if !(SomeNiche(s) && NoneLarger(s, i)) {
        LargestPowerIsZeros(s.fields[i], g);
      }
    }
  }

  lemma {:induction false} MaxAlignOfMovable(s: Struct, a: nat)
    requires s.Accepted() && IsMaxAlign(s, a)
    ensures MaxAlign(s.fields[..s.SizedCount()]) == a
  {
    var sized := s.fields[..s.SizedCount()];
    var j: nat :| Movable(s, j) && s.fields[j].align == a;
    assert sized[j] == s.fields[j];
    var m := MaxAlignAt(sized);
    assert Movable(s, m);
  }

  lemma {:induction false} NichesOfMovable(s: Struct, i: nat)
    requires s.Accepted() && Movable(s, i)
    ensures var largest := MaxNicheSize(s.fields[..s.SizedCount()]);
            && (SomeNiche(s) <==> largest > 0)
            && (NoneLarger(s, i) <==> s.fields[i].NicheSize() == largest)
  {
    var sized := s.fields[..s.SizedCount()];
    assert sized[i] == s.fields[i];
    var m := MaxNicheAt(sized);
    assert Movable(s, m) && sized[m] == s.fields[m];
    forall j: nat | Movable(s, j)
      ensures s.fields[j].NicheSize() <= MaxNicheSize(sized)
    {
      assert sized[j] == s.fields[j];
    }
  }

  function GroupValue(s: Struct, g: nat): nat {
    if s.repr.pack.Some? then Pow2(g) else g
  }

  lemma {:induction false} GroupsCompare(s: Struct, g: nat, h: nat)
    ensures g < h <==> GroupValue(s, g) < GroupValue(s, h)
    ensures g == h <==> GroupValue(s, g) == GroupValue(s, h)
  {
    if g < h {
      Pow2Monotone(g, h);
    } else if h < g {
      Pow2Monotone(h, g);
    }
  }

  /** The key of a field of group `g`. */
  function KeyInGroup(s: Struct, f: Layout, bias: NicheBias, g: nat): Key {
    var group: int := GroupValue(s, g);
    if s.kind.Prefixed? then Key(group, f.NicheSize(), 0)
    else if bias.Start? then Key(-group, U128 - 1 - f.NicheSize(), FromStart(f))
    else Key(-group, f.NicheSize(), if f.largestNiche.Some? then U64 - 1 - FromEnd(f) else 0)
  }

  lemma {:induction false} KeyIsInGroup(s: Struct, f: Layout, bias: NicheBias, a: nat, n: nat, g: nat)
    requires GroupExponent(s, f, bias, a, n) == g
    ensures s.SortKey(f, bias, a, n) == KeyInGroup(s, f, bias, g)
  {
  }

  lemma {:induction false} KeysInGroupsCompare(s: Struct, bias: NicheBias, i: nat, g: nat, l: nat, h: nat)
    requires i < |s.fields| && l < |s.fields| && s.fields[i].WellFormed() && s.fields[l].WellFormed()
    requires ComesBefore(s, bias, i, g, l, h)
    ensures var k, m := KeyInGroup(s, s.fields[i], bias, g), KeyInGroup(s, s.fields[l], bias, h);
            k.Less(m) || (k == m && i < l)
  {
    GroupsCompare(s, g, h);
    SomeNicheIsPositive(s.fields[i]);
    SomeNicheIsPositive(s.fields[l]);
  }

  lemma {:induction false} KeyAt(s: Struct, bias: NicheBias, i: nat, g: nat)
    requires s.Accepted() && Movable(s, i) && s.fields[i].WellFormed() && InGroup(s, bias, i, g)
    ensures s.SortKeys(bias)[i] == KeyInGroup(s, s.fields[i], bias, g)
  {
    var sized := s.fields[..s.SizedCount()];
    GroupIsKey(s, bias, i, g);
    KeyIsInGroup(s, s.fields[i], bias, MaxAlign(sized), MaxNicheSize(sized), g);
    assert sized[i] == s.fields[i];
  }

  /** The keys order two fields as their groups, niches and places in source order do. */
  lemma {:induction false} KeysCompare(s: Struct, bias: NicheBias, i: nat, g: nat, l: nat, h: nat)
    requires s.Accepted() && Movable(s, i) && Movable(s, l) && s.fields[i].WellFormed() && s.fields[l].WellFormed()
    requires InGroup(s, bias, i, g) && InGroup(s, bias, l, h) && ComesBefore(s, bias, i, g, l, h)
    ensures Before(s.SortKeys(bias), i, l)
  {
    KeyAt(s, bias, i, g);
    KeyAt(s, bias, l, h);
    KeysInGroupsCompare(s, bias, i, g, l, h);
  }

  // ----- the layout

  lemma {:induction false} SortedBefore(s: Struct, bias: NicheBias, i: nat, l: nat)
    requires s.Accepted() && s.Reorders() && i < s.SizedCount() && l < s.SizedCount() && Before(s.SortKeys(bias), i, l)
    ensures exists p, q :: 0 <= p < q < |s.fields| && s.Order(bias)[p] == i && s.Order(bias)[q] == l
  {
    var sorted := SortRange(s.SortKeys(bias), 0, s.SizedCount());
    var p, q := PositionsOf(sorted, s.SortKeys(bias), i, l);
    assert s.Order(bias)[p] == sorted[p] && s.Order(bias)[q] == sorted[q];
  }

  /** In an ordered list, an index that comes before another one is listed before it. */
  lemma {:induction false} PositionsOf(sorted: seq<nat>, keys: seq<Key>, i: nat, l: nat) returns (p: nat, q: nat)
    requires Ordered(sorted, keys) && i in sorted && l in sorted && Before(keys, i, l)
    ensures p < q < |sorted| && sorted[p] == i && sorted[q] == l
  {
    p :| p < |sorted| && sorted[p] == i;
    q :| q < |sorted| && sorted[q] == l;
    assert !Before(keys, l, i);
  }

  /** Where fields keep their source order, that is the order in memory. */
  lemma {:induction false} SourceOrderIsKept(s: Struct, bias: NicheBias, j: nat)
    requires s.Accepted() && s.Biased(bias).Ok? && KeepsSourceOrder(s) && j < |s.fields|
    ensures |s.Biased(bias).value.shape.order| == |s.fields| && s.Biased(bias).value.shape.order[j] == j
  {
  }

  /** The tail of a possibly unsized struct is last in memory. */
  lemma {:induction false} TailIsLast(s: Struct)
    requires s.kind.MaybeUnsized? && s.fields != [] && s.Biased(Start).Ok?
    ensures var order := s.Biased(Start).value.shape.order;
            |order| == |s.fields| && order[|order| - 1] == |order| - 1
  {
    TailStaysLast(s);
  }

  /** Otherwise, of two movable fields the one that comes before the other by group, niche and source
      order is placed before it in memory. */
  lemma {:induction false} FieldsAreOrdered(s: Struct, bias: NicheBias, i: nat, g: nat, l: nat, h: nat)
    requires s.Accepted() && s.Biased(bias).Ok? && !KeepsSourceOrder(s)
    requires Movable(s, i) && Movable(s, l) && s.fields[i].WellFormed() && s.fields[l].WellFormed()
    requires InGroup(s, bias, i, g) && InGroup(s, bias, l, h) && ComesBefore(s, bias, i, g, l, h)
    ensures var layout := s.Biased(bias).value;
            && (exists p, q :: 0 <= p < q < |layout.shape.order|
                               && layout.shape.order[p] == i && layout.shape.order[q] == l)
            && layout.shape.offsets[i] + s.fields[i].size <= layout.shape.offsets[l]
  {
    KeysCompare(s, bias, i, g, l, h);
    SortedBefore(s, bias, i, l);
    BiasedIsSound(s, bias);
    var layout := s.Biased(bias).value;
    BiasedOrder(s, bias);
    var p, q :| 0 <= p < q < |s.fields| && s.Order(bias)[p] == i && s.Order(bias)[q] == l;
    assert layout.shape.order[p] == i && layout.shape.order[q] == l;
    EndsBefore(s, layout, p, q);
  }

  lemma {:induction false} BiasedOrder(s: Struct, bias: NicheBias)
    requires s.Accepted() && s.Biased(bias).Ok?
    ensures s.Biased(bias).value.shape.order == s.Order(bias)
  {
  }

  lemma {:induction false} EndsBefore(s: Struct, layout: Layout, p: nat, q: nat)
    requires SoundStruct(s, layout) && p < q < |s.fields|
    ensures var i, l := layout.shape.order[p], layout.shape.order[q];
            layout.shape.offsets[i] + s.fields[i].size <= layout.shape.offsets[l]
  {
  }

  /** Two fields are always comparable, so the order is determined. */
  lemma {:induction false} OneComesBefore(s: Struct, bias: NicheBias, i: nat, g: nat, l: nat, h: nat)
    requires i < |s.fields| && l < |s.fields| && i != l
    ensures ComesBefore(s, bias, i, g, l, h) <==> !ComesBefore(s, bias, l, h, i, g)
  {
  }

  /** Every movable field has a group. */
  lemma {:induction false} HasGroup(s: Struct, bias: NicheBias, i: nat) returns (g: nat)
    requires s.Accepted() && Movable(s, i) && s.fields[i].WellFormed()
    ensures InGroup(s, bias, i, g)
  {
    var f, sized := s.fields[i], s.fields[..s.SizedCount()];
    if s.repr.pack.Some? {
      g := if f.align < s.repr.pack.value then f.align else s.repr.pack.value;
    } else if SomeNiche(s) && bias.End? && NoneLarger(s, i) {
      g := f.align;
    } else {
      var k := if f.size == 0 then f.align else TrailingZeros(f.size);
      assert LargestPower(f, k);
      g := k;
      if SomeNiche(s) && bias.Start? {
        var m := MaxAlignAt(sized);
        assert Movable(s, m) && sized[m] == s.fields[m];
        forall j: nat | Movable(s, j)
          ensures s.fields[j].align <= s.fields[m].align
        {
          assert sized[j] == s.fields[j];
        }
        assert IsMaxAlign(s, s.fields[m].align);
        g := if s.fields[m].align < k then s.fields[m].align else k;
        assert CappedPower(s, f, g);
      }
    }
  }
}
