/** The enum layout that is chosen: sound, no larger than its rival, and able to tell its
    variants apart (the encoding and decoding of
    compiler/rustc_const_eval/src/interpret/discriminant.rs).
 */
module EnumTheorems {
  import opened PowersOfTwo
  import opened Wrappers
  import opened WrappingRanges
  import opened Niches
  import opened Layouts
  import opened Discriminants
  import opened Enums
  import opened NicheFilling
  import opened TaggedEnums

  /** What the callers of `layout_of_enum` see to. */
  ghost predicate LaidOutAsEnum(e: EnumDef) {
    && e.Accepted() && AllVariantsWellFormed(e) && DiscriminantsInWidth(e)
    && (e.repr.InhibitEnumLayoutOpt() || TwoPresent(e))
  }

  ghost predicate SoundEnum(e: EnumDef, layout: Layout) {
    SoundTagged(e, layout) || SoundFilling(e, layout)
  }

  /** When `layout_of_enum` panics. */
  ghost predicate EnumPanics(e: EnumDef) {
    e.repr.pack.None? && TagTooWide(e)
  }

  /** `layout_of_enum` panics exactly when the tag is too wide for the discriminant type, and
      nowhere else; the layout it returns is sound, no candidate is
      smaller, and none of the same size has a larger niche; a tie goes to the tag in front. */
  lemma {:induction false} EnumIsSound(e: EnumDef)
    requires LaidOutAsEnum(e)
    ensures e.Compute().Panic? <==> EnumPanics(e)
    ensures e.Compute().Ok? <==> e.repr.pack.None? && e.Tagged().Ok?
    ensures e.repr.pack.Some? ==> e.Compute() == Err(ReprConflict)
    ensures e.repr.pack.None? && e.Tagged().Err? ==> e.Compute() == e.Tagged()
    ensures e.Compute().Ok? ==>
              && SoundEnum(e, e.Compute().value) && e.repr.pack.None?
              && e.Tagged().Ok? && e.NicheFilling().Ok?
              && (e.Compute() == e.Tagged() || e.NicheFilling().value == Some(e.Compute().value))
              && (e.Compute() == e.Tagged() || !BetterOrEqual(e.Tagged().value, e.Compute().value))
              && BetterOrEqual(e.Compute().value, e.Tagged().value)
              && (e.NicheFilling().value.Some? ==> BetterOrEqual(e.Compute().value, e.NicheFilling().value.value))
  {
    if e.repr.pack.None? {
      NicheFillingNeverPanics(e);
      TaggedIsSound(e);
      ChosenIsCandidate(e);
      if e.NicheFilling().value.Some? {
        NicheFillingIsSound(e);
      }
    }
  }

  predicate BetterOrEqual(chosen: Layout, rival: Layout) {
    chosen.size < rival.size || (chosen.size == rival.size && chosen.NicheSize() >= rival.NicheSize())
  }

  lemma {:induction false} ChosenIsCandidate(e: EnumDef)
    requires e.Accepted() && e.repr.pack.None? && e.NicheFilling().Ok?
    ensures e.Compute().Ok? <==> e.Tagged().Ok?
    ensures e.Compute().Panic? <==> e.Tagged().Panic?
    ensures e.Compute().Ok? ==>
              && (e.Compute() == e.Tagged() || e.NicheFilling().value == Some(e.Compute().value))
              && (e.Compute() == e.Tagged() || !BetterOrEqual(e.Tagged().value, e.Compute().value))
              && BetterOrEqual(e.Compute().value, e.Tagged().value)
              && (e.NicheFilling().value.Some? ==> BetterOrEqual(e.Compute().value, e.NicheFilling().value.value))
  {
  }

  // ----- storing and reading the active variant

  /** What has to be stored to make a variant the active one. */
  datatype Stored = Unrepresentable | Implicit | Explicit(tag: nat)

  /** `tag_for_variant`. */
  function TagForVariant(layout: Layout, discriminants: seq<nat>, v: nat): Stored
    requires layout.variants.Multiple? && |discriminants| == |layout.variants.variants|
  {
    var tag, variants := layout.variants.tag, layout.variants.variants;
    if v >= |variants| || variants[v].uninhabited then Unrepresentable
    else
      match layout.variants.encoding
      case Direct(_) => Explicit(DirectTag(discriminants[v], 8 * tag.bytes))
      case NicheEncoding(untagged, first, last, nicheStart) =>
        if v == untagged then Implicit
        else if v < first || last < v then Unrepresentable
        else Explicit(Nth(nicheStart, v - first, 8 * tag.bytes))
  }

  function FindDiscriminant(discriminants: seq<nat>, d: nat, v: nat): (r: Option<nat>)
    requires v <= |discriminants|
    ensures r.Some? ==> v <= r.value < |discriminants| && discriminants[r.value] == d
    ensures r.None? ==> forall w :: v <= w < |discriminants| ==> discriminants[w] != d
    decreases |discriminants| - v
  {
    if v == |discriminants| then None
    else if discriminants[v] == d then Some(v)
    else FindDiscriminant(discriminants, d, v + 1)
  }

  /** `read_discriminant`: the variant that a tag stands for; `None` is undefined behaviour. */
  function ReadVariant(layout: Layout, discriminants: seq<nat>, discrBits: nat, word: nat): Option<nat>
    requires layout.variants.Multiple? && |discriminants| == |layout.variants.variants|
  {
    var tag, variants := layout.variants.tag, layout.variants.variants;
    var n := 8 * tag.bytes;
    var found :=
      match layout.variants.encoding
      case Direct(signed) =>
        if !tag.range.Contains(word) then None
        else FindDiscriminant(discriminants, DirectDiscriminant(word, signed, n, discrBits), 0)
      case NicheEncoding(untagged, first, last, nicheStart) =>
        var relative := (word - nicheStart) % Pow2(n);
        if relative <= last - first then
          if first + relative == untagged || !tag.range.Contains(word) then None else Some(first + relative)
        else if tag.range.Contains(word) then Some(untagged)
        else None;
    if found.Some? && (found.value >= |variants| || variants[found.value].uninhabited) then None else found
  }

  ghost predicate DistinctDiscriminants(e: EnumDef) {
    forall v, w :: 0 <= v < w < |e.discriminants| ==> e.discriminants[v] != e.discriminants[w]
  }

  function DiscrBits(e: EnumDef): nat {
    e.repr.DiscrType().ToInteger(e.dl).Bits()
  }

  // ----- the niche encoding

  /** The tag of a niche variant is a reserved word, and subtracting the start recovers it. */
  lemma {:induction false} NicheWordRoundTrip(start: nat, i: nat, n: nat)
    requires start < Pow2(n) && i < Pow2(n)
    ensures Nth(start, i, n) < Pow2(n)
    ensures (Nth(start, i, n) - start) % Pow2(n) == i
  {
    ModNear(start + i, Pow2(n));
    ModNear(Nth(start, i, n) - start, Pow2(n));
  }

  lemma {:induction false} ReservedWordReads(niche: Niche, count: nat, start: nat, range: WrappingRange, i: nat)
    requires niche.Valid() && Reserved(niche, count, start, range) && i < count
    ensures var word, n := Nth(start, i, niche.Bits()), niche.Bits();
            word < Pow2(n) && !niche.range.Contains(word) && range.Contains(word) && (word - start) % Pow2(n) == i
  {
    AvailableValue(niche);
    NicheWordRoundTrip(start, i, niche.Bits());
  }

  lemma {:induction false} OtherWordReads(niche: Niche, count: nat, start: nat, range: WrappingRange, word: nat)
    requires niche.Valid() && Reserved(niche, count, start, range) && word < Pow2(niche.Bits())
    ensures niche.range.Contains(word) <==> range.Contains(word) && count <= (word - start) % Pow2(niche.Bits())
  {
    var n := niche.Bits();
    var relative := (word - start) % Pow2(n);
    ModNear(word - start, Pow2(n));
    ModNear(start + relative, Pow2(n));
    assert Nth(start, relative, n) == word;
    if range.Contains(word) && !niche.range.Contains(word) {
      var i: nat :| i < count && word == Nth(start, i, n);
      ReservedWordReads(niche, count, start, range, i);
    }
  }

  /** A variant that needs a discriminant has its place in the niche. */
  lemma {:induction false} NichePlace(e: EnumDef, layout: Layout, niche: Niche, v: nat)
    requires SoundFilling(e, layout) && IsTagNiche(e, layout, niche)
    requires v < |e.variants| && e.Inhabited(v) && v != layout.variants.encoding.untaggedVariant
    ensures var enc := layout.variants.encoding;
            enc.nicheFirst <= v <= enc.nicheLast && !layout.variants.variants[v].uninhabited
  {
    assert e.NeedsDiscriminant(layout.variants.encoding.untaggedVariant, v);
  }

  lemma {:induction false} NicheEncodingRoundTrip(e: EnumDef, layout: Layout, niche: Niche, v: nat)
    requires SoundFilling(e, layout) && IsTagNiche(e, layout, niche) && e.Accepted()
    requires v < |e.variants| && e.Inhabited(v) && v != layout.variants.encoding.untaggedVariant
    ensures var stored := TagForVariant(layout, e.discriminants, v);
            && stored.Explicit? && stored.tag < Pow2(8 * layout.variants.tag.bytes)
            && !niche.range.Contains(stored.tag)
            && ReadVariant(layout, e.discriminants, DiscrBits(e), stored.tag) == Some(v)
  {
    NichePlace(e, layout, niche, v);
    assert TagInNiche(layout, niche);
    NicheReadsBack(layout, e.discriminants, DiscrBits(e), niche, v);
  }

  /** The tag is the niche with the words of the niche variants reserved. */
  ghost predicate TagInNiche(layout: Layout, niche: Niche) {
    && layout.variants.Multiple? && layout.variants.encoding.NicheEncoding?
    && var tag, enc := layout.variants.tag, layout.variants.encoding;
       && niche.Valid() && tag.bytes == niche.bytes && enc.nicheFirst <= enc.nicheLast
       && Reserved(niche, enc.nicheLast - enc.nicheFirst + 1, enc.nicheStart, tag.range)
  }

  lemma {:induction false} NicheReadsBack(layout: Layout, discriminants: seq<nat>, discrBits: nat, niche: Niche, v: nat)
    requires TagInNiche(layout, niche) && |discriminants| == |layout.variants.variants|
    requires var enc := layout.variants.encoding;
             && v < |layout.variants.variants| && v != enc.untaggedVariant && enc.nicheFirst <= v <= enc.nicheLast
             && !layout.variants.variants[v].uninhabited
    ensures var stored := TagForVariant(layout, discriminants, v);
            && stored.Explicit? && stored.tag < Pow2(8 * layout.variants.tag.bytes)
            && !niche.range.Contains(stored.tag)
            && ReadVariant(layout, discriminants, discrBits, stored.tag) == Some(v)
  {
    var enc, tag := layout.variants.encoding, layout.variants.tag;
    ReservedWordReads(niche, enc.nicheLast - enc.nicheFirst + 1, enc.nicheStart, tag.range, v - enc.nicheFirst);
    StoredNicheReads(layout, discriminants, discrBits, v);
  }

  lemma {:induction false} StoredNicheReads(layout: Layout, discriminants: seq<nat>, discrBits: nat, v: nat)
    requires layout.variants.Multiple? && |discriminants| == |layout.variants.variants|
    requires layout.variants.encoding.NicheEncoding? && v < |layout.variants.variants|
    requires var enc, n := layout.variants.encoding, 8 * layout.variants.tag.bytes;
             && v != enc.untaggedVariant && enc.nicheFirst <= v <= enc.nicheLast
             && !layout.variants.variants[v].uninhabited
             && var word := Nth(enc.nicheStart, v - enc.nicheFirst, n);
                layout.variants.tag.range.Contains(word) && (word - enc.nicheStart) % Pow2(n) == v - enc.nicheFirst
    ensures var enc := layout.variants.encoding;
            var word := Nth(enc.nicheStart, v - enc.nicheFirst, 8 * layout.variants.tag.bytes);
            && TagForVariant(layout, discriminants, v) == Explicit(word)
            && ReadVariant(layout, discriminants, discrBits, word) == Some(v)
  {
  }

  /** A word of the niche reads as the untagged variant exactly when it was valid there before
      the reservation. */
  lemma {:induction false} UntaggedWords(e: EnumDef, layout: Layout, niche: Niche, word: nat)
    requires SoundFilling(e, layout) && IsTagNiche(e, layout, niche) && e.Accepted()
    requires word < Pow2(8 * layout.variants.tag.bytes) && e.Inhabited(layout.variants.encoding.untaggedVariant)
    ensures ReadVariant(layout, e.discriminants, DiscrBits(e), word) == Some(layout.variants.encoding.untaggedVariant)
       <==> niche.range.Contains(word)
  {
    assert TagInNiche(layout, niche);
    UntaggedWordsOf(layout, e.discriminants, DiscrBits(e), niche, word);
  }

  lemma {:induction false} UntaggedWordsOf(
      layout: Layout, discriminants: seq<nat>, discrBits: nat, niche: Niche, word: nat)
    requires TagInNiche(layout, niche) && |discriminants| == |layout.variants.variants|
    requires var u := layout.variants.encoding.untaggedVariant;
             u < |layout.variants.variants| && !layout.variants.variants[u].uninhabited
    requires word < Pow2(8 * layout.variants.tag.bytes)
    ensures ReadVariant(layout, discriminants, discrBits, word) == Some(layout.variants.encoding.untaggedVariant)
       <==> niche.range.Contains(word)
  {
    var enc, tag := layout.variants.encoding, layout.variants.tag;
    OtherWordReads(niche, enc.nicheLast - enc.nicheFirst + 1, enc.nicheStart, tag.range, word);
    UntaggedReads(layout, discriminants, discrBits, word);
  }

  lemma {:induction false} UntaggedReads(layout: Layout, discriminants: seq<nat>, discrBits: nat, word: nat)
    requires layout.variants.Multiple? && |discriminants| == |layout.variants.variants|
    requires layout.variants.encoding.NicheEncoding?
    requires layout.variants.encoding.nicheFirst <= layout.variants.encoding.nicheLast
    requires var u := layout.variants.encoding.untaggedVariant;
             u < |layout.variants.variants| && !layout.variants.variants[u].uninhabited
    ensures var enc, tag := layout.variants.encoding, layout.variants.tag;
            (ReadVariant(layout, discriminants, discrBits, word) == Some(enc.untaggedVariant))
            <==>
            (&& tag.range.Contains(word)
             && enc.nicheLast - enc.nicheFirst + 1 <= (word - enc.nicheStart) % Pow2(8 * tag.bytes))
  {
  }

  /** The assertions of `read_discriminant` hold for every word: what lies in the range of niche
      variants is a variant, and its word is in the tag's range. */
  lemma {:induction false} ReadAssertionsHold(e: EnumDef, layout: Layout, niche: Niche, word: nat)
    requires SoundFilling(e, layout) && IsTagNiche(e, layout, niche) && word < Pow2(8 * layout.variants.tag.bytes)
    ensures var enc, tag := layout.variants.encoding, layout.variants.tag;
            var relative := (word - enc.nicheStart) % Pow2(8 * tag.bytes);
            relative <= enc.nicheLast - enc.nicheFirst ==>
              enc.nicheFirst + relative < |layout.variants.variants| && tag.range.Contains(word)
  {
    assert TagInNiche(layout, niche);
    NicheWordIsInRange(layout, niche, word);
  }

  lemma {:induction false} NicheWordIsInRange(layout: Layout, niche: Niche, word: nat)
    requires TagInNiche(layout, niche) && word < Pow2(8 * layout.variants.tag.bytes)
    ensures var enc, tag := layout.variants.encoding, layout.variants.tag;
            (word - enc.nicheStart) % Pow2(8 * tag.bytes) <= enc.nicheLast - enc.nicheFirst ==>
              tag.range.Contains(word)
  {
    var start, n := layout.variants.encoding.nicheStart, niche.Bits();
    var relative := (word - start) % Pow2(n);
    ModNear(word - start, Pow2(n));
    NthNear(start, relative, n);
    assert Nth(start, relative, n) == word;
  }

  // ----- the direct encoding

  lemma {:induction false} StoredDirectReads(layout: Layout, discriminants: seq<nat>, discrBits: nat, v: nat)
    requires layout.variants.Multiple? && |discriminants| == |layout.variants.variants|
    requires layout.variants.encoding.Direct? && v < |discriminants| && !layout.variants.variants[v].uninhabited
    requires forall u, w :: 0 <= u < w < |discriminants| ==> discriminants[u] != discriminants[w]
    requires var n := 8 * layout.variants.tag.bytes;
             var word := DirectTag(discriminants[v], n);
             && layout.variants.tag.range.Contains(word)
             && DirectDiscriminant(word, layout.variants.encoding.signed, n, discrBits) == discriminants[v]
    ensures var word := DirectTag(discriminants[v], 8 * layout.variants.tag.bytes);
            && TagForVariant(layout, discriminants, v) == Explicit(word)
            && ReadVariant(layout, discriminants, discrBits, word) == Some(v)
  {
    var found := FindDiscriminant(discriminants, discriminants[v], 0);
    assert found == Some(v);
  }

  /** The final tag type still holds every necessary discriminant. */
  lemma {:induction false} FinalTagHolds(e: EnumDef, minIty: Integer, signed: bool, ity: Integer, v: nat)
    requires e.Accepted() && DiscriminantsInWidth(e) && e.MinInteger() == Some((minIty, signed))
    requires minIty.Log() <= ity.Log() && v < |e.variants| && e.Inhabited(v)
    ensures var word := DirectTag(e.discriminants[v], ity.Bits());
            word < Pow2(ity.Bits()) && DirectDiscriminant(word, signed, ity.Bits(), DiscrBits(e)) == e.discriminants[v]
  {
    var minIty', signed' := MinIntegerIsSome(e);
    var ty, discr := e.repr.DiscrType(), e.repr.DiscrType().ToInteger(e.dl);
    if ity.Log() < discr.Log() {
      WiderHolds(minIty, ity, signed, DiscrValue(e.discriminants[v], ty.signed, discr.Bits()));
    }
    DirectRoundTrip(e.discriminants[v], ty.signed, discr, ity, signed);
  }

  lemma {:induction false} DirectEncodingRoundTrip(e: EnumDef, v: nat)
    requires LaidOutAsEnum(e) && e.repr.pack.None? && DistinctDiscriminants(e) && e.Tagged().Ok?
    requires v < |e.variants| && e.Inhabited(v)
    ensures e.Tagged().value.variants.Multiple? && |e.Tagged().value.variants.variants| == |e.variants|
    ensures var layout := e.Tagged().value;
            var stored := TagForVariant(layout, e.discriminants, v);
            && stored.Explicit? && stored.tag < Pow2(8 * layout.variants.tag.bytes)
            && ReadVariant(layout, e.discriminants, DiscrBits(e), stored.tag) == Some(v)
  {
    TaggedIsSound(e);
    var layout, minIty, signed, ity, sts := TaggedParts(e);
    FinalTagFits(e, minIty, sts, layout.size, layout.align);
    TagRangeIsNarrowest(e, ity);
    FinalTagHolds(e, minIty, signed, ity, v);
    StoredDirectReads(layout, e.discriminants, DiscrBits(e), v);
  }

  // ----- both

  /** Every inhabited variant can be stored and is read back: by its tag, or, for the untagged
      variant of a niche, by each word that its own niche allows and by no other. */
  ghost predicate RoundTrips(e: EnumDef, layout: Layout, v: nat)
    requires layout.variants.Multiple? && |e.discriminants| == |e.variants| == |layout.variants.variants|
  {
    match TagForVariant(layout, e.discriminants, v)
    case Unrepresentable => false
    case Explicit(tag) =>
      && tag < Pow2(8 * layout.variants.tag.bytes)
      && ReadVariant(layout, e.discriminants, DiscrBits(e), tag) == Some(v)
    case Implicit =>
      && layout.variants.encoding.NicheEncoding? && v == layout.variants.encoding.untaggedVariant < |e.variants|
      && exists niche: Niche :: IsTagNiche(e, layout, niche) && OnlyValidWordsRead(e, layout, niche, v)
  }

  ghost predicate OnlyValidWordsRead(e: EnumDef, layout: Layout, niche: Niche, v: nat)
    requires layout.variants.Multiple? && |e.discriminants| == |layout.variants.variants|
  {
    forall word: nat :: word < Pow2(8 * layout.variants.tag.bytes) ==>
      (ReadVariant(layout, e.discriminants, DiscrBits(e), word) == Some(v) <==> niche.range.Contains(word))
  }

  lemma {:induction false} FillingRoundTrips(e: EnumDef, layout: Layout, v: nat)
    requires SoundFilling(e, layout) && e.Accepted() && v < |e.variants| && e.Inhabited(v)
    ensures RoundTrips(e, layout, v)
  {
    var niche: Niche :| IsTagNiche(e, layout, niche);
    if v == layout.variants.encoding.untaggedVariant {
      forall word: nat | word < Pow2(8 * layout.variants.tag.bytes)
        ensures ReadVariant(layout, e.discriminants, DiscrBits(e), word) == Some(v) <==> niche.range.Contains(word)
      {
        UntaggedWords(e, layout, niche, word);
      }
      assert OnlyValidWordsRead(e, layout, niche, v);
    } else {
      NicheEncodingRoundTrip(e, layout, niche, v);
    }
  }

  /** The chosen layout tells its inhabited variants apart. */
  lemma {:induction false} EnumRoundTrip(e: EnumDef, v: nat)
    requires LaidOutAsEnum(e) && DistinctDiscriminants(e) && e.Compute().Ok?
    requires v < |e.variants| && e.Inhabited(v)
    ensures SoundEnum(e, e.Compute().value)
    ensures RoundTrips(e, e.Compute().value, v)
  {
    EnumIsSound(e);
    if e.Compute() == e.Tagged() {
      DirectEncodingRoundTrip(e, v);
    } else {
      NicheFillingIsSound(e);
      FillingRoundTrips(e, e.Compute().value, v);
    }
  }
}
