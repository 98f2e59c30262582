# Layouts, wrapping ranges and arenas of the Rust compiler, in Dafny

This project models, in Dafny 4.11, the parts of the Rust compiler that decide where data lives,
together with the code those decisions rest on, and proves what that code promises.

* **The layout calculator** (`compiler/rustc_abi/src/layout.rs`): structs with reordered fields and
  a second, end-biased attempt; unions; arrays; enums with the discriminant in a niche or in a tag,
  the widening of that tag, and the choice between the two. Modules `Layouts`, `StableSort`,
  `Univariant`, `Placement`, `Packing`, `UnivariantTheorems`, `StructLayouts`, `NicheOrder`,
  `Discriminants`, `Enums`, `NicheFilling`, `FillingSucceeds`, `TaggedEnums`, `TagChoice`,
  `EnumTheorems`, `EnumMethods`, `Aggregates`.
* **Wrapping ranges and niches** (`compiler/rustc_abi/src/wrapping_range.rs`, `Niche` in
  `compiler/rustc_abi/src/lib.rs`): the subset test, the smallest circular range, `available` and
  `reserve`. Modules `WrappingRanges`, `SmallestRange`, `Niches`.
* **The arenas** (`compiler/rustc_arena/src/lib.rs`): the dropless arena with reentrant iterators,
  and the typed arena that drops its contents. Modules `DroplessArena`, `DroplessGrowth`,
  `DroplessIterators`, `DroplessRequests`, `ReentrantArena`, `TypedArena`, `TypedGrowth`,
  `TypedIterators`, `TypedArenaObject`.
* **The homogeneous-aggregate test** (`compiler/rustc_abi/src/callconv.rs`), modules `Homogeneous`
  and `Registers`.
* **The power-of-five table** (`src/etc/dec2flt_table.py`), module `PowersOfFive`.
* **External visibility in rustdoc** (`src/librustdoc/visit_lib.rs`), module `Visibility`.

`Examples` lays out `Option<bool>` in the model, which also shows that the premises of the theorems
about structs and enums can be met. `PowersOfTwo`, `Intervals` and `Wrappers` hold shared
arithmetic, counting and `Option`.

## How it is modelled

* Code that computes a value by branching is a function; what it promises is a lemma about that
  function. Loops and in-place updates of the source are methods (over arrays where the source
  patches offsets) proved equal to those functions, and the arenas and the visitor are classes.
* An alignment is its exponent, as in `Align { pow2 }`. Rounding is by multiples of `2^k`;
  `PowersOfTwo.RoundingIsMasking` proves it equal to what the bit operations of the source compute.
  `u128` arithmetic wraps modulo `2^128` and `Size::truncate` reduces modulo `2^n`.
* Sizes and offsets are unbounded naturals; the bound `obj_size_bound` of the target and the errors
  it causes are modelled, the overflow of `u64` beyond it is not.
* An `expect`, `unwrap`, `assert!`, `panic!` or underflowing subtraction of the modelled code is a
  `Panic` result (or `None` where only one step can fail), and theorems show that it cannot happen, or
  (for two, named below) exactly when it does. The assertions of `read_discriminant` hold by
  `EnumTheorems.ReadAssertionsHold`, that of `tag_for_variant` by `NicheEncodingRoundTrip`; that of `smallest_range_containing` is the precondition
  `AllInWidth`, which the layout code meets by truncating.
* The subtraction in the end-biased sort key is one of integers; for well-formed fields it does not
  underflow (`UnivariantTheorems.SortKeyIsWords`).
* A niche keeps the width of its primitive, not its kind. A layout is well-formed when its size is
  a multiple of its alignment and its largest niche is valid, nonempty and inside the value.
* `sort_by_key` is a stable insertion sort by the exact keys, in place on an array of indices; there
  is only one stable order (`StableSort.SortedRangeIsUnique`). `sort_unstable` is a sort of numbers.
* `discr_range_of_repr`, a parameter of `layout_of_enum`, is the function of
  `compiler/rustc_middle/src/ty/layout.rs`. The theorems about enums take that discriminants
  are words of the discriminant type, and that they are distinct where values are read back.
* The global allocator is an environment: it answers each request for a chunk with a base address.
  A run in which there is no answer, or one that overlaps a live chunk, aborts there. In the typed
  arena the bases are unconstrained, but for the result about addresses, `TypedArena.SlicesAreApart`.
* A reentrant iterator is a tree: each call of `next` does some actions on the arena (which may
  themselves iterate) and then yields. What such uses do to an arena is specified by the recursive
  functions of `DroplessIterators` and `TypedIterators`, and the methods are proved to do just that.
* What the specification functions compute is said once more in terms that do not call them: the order
  of fields (`NicheOrder`), a whole struct layout and when there is one (`StructLayouts`), niche filling
  and when it succeeds (`FillingSucceeds`), the tag and what is behind it (`TagChoice`), the registers of
  an aggregate (`Registers`), and when and by how much the arenas grow (`DroplessGrowth`, `TypedGrowth`).

## Where code and documentation differ

* `src/etc/dec2flt_table.py` says (lines 10-11) that its entries are within 0.5 ULP. That is false:
  `PowersOfFive.NotRoundedToNearest` gives the entry for `5^-3`. All entries are normalized and
  within one unit: small negative exponents are rounded up, all others down. `NearEntry`, `FarEntry`
  and `PositiveEntry` say for each branch exactly when an entry is within half a unit.
* `alloc_raw` says that its loop runs once or twice. This needs chunks that are aligned to
  `DROPLESS_ALIGNMENT`, which the source does not check: `DroplessArena.OneGrowExactly` shows that
  alignment of the chunk is exactly the condition, and `UnalignedNeverServes` that without it some
  requests make the loop grow for ever.
* `layout_of_enum` calls it a bug when its tag is wider than the discriminant type (lines 849-862 of
  `compiler/rustc_abi/src/layout.rs`) and panics. This is met without any bug in the enum: on a target
  whose `c_enum_min_size` is wider than a pointer, by every `repr(C)` enum without an integer type that
  otherwise has a layout, and by nothing else (`TaggedEnums.TaggedIsSound`, `EnumTheorems.EnumIsSound`,
  `Aggregates.LayoutOfIsSound`). Data layouts that are parsed from LLVM's string leave that minimum at
  32 bits (`compiler/rustc_abi/src/lib.rs`, lines 433-434), also for 16-bit pointers;
  `Examples.NarrowTargetPanics` shows the panic there.
* `homogeneous_aggregate` says that aggregates cannot have `FieldsShape::Primitive`. The never type
  is such an aggregate: `Homogeneous.HomogeneousAggregateIsHomogeneous` shows that the call panics
  exactly on the never type and nonempty arrays of it, and `ArrayOfNeverPanics` shows it at `[!; 1]`.
  As a field, such a layout is skipped and does no harm.

## Model

| member | source | states |
|---|---|---|
| `PowersOfTwo.AlignTo` | compiler/rustc_abi/src/lib.rs:910-913 | the result is a multiple of the alignment, not below the size and less than one alignment above it |
| `PowersOfTwo.AlignToLeast` | compiler/rustc_abi/src/lib.rs:910-913 | no multiple of the alignment between the size and the result |
| `PowersOfTwo.AlignDown` | compiler/rustc_arena/src/lib.rs:333-336 | the result is a multiple, not above the address and less than one alignment below it |
| `PowersOfTwo.RoundingIsMasking` | compiler/rustc_arena/src/lib.rs:333-342 | for words of any width, `align_down` is the bitwise conjunction with the complement of the mask, and `align_up` that of the sum with the mask |
| `PowersOfTwo.ClearsLowBits` | compiler/rustc_abi/src/lib.rs:910-913 | conjunction with a complemented mask subtracts the remainder |
| `WrappingRanges.FullRangesContainEverything` | compiler/rustc_abi/src/wrapping_range.rs:106-116 | `is_full_for` holds if and only if every word of the width is contained, canonical range or not |
| `WrappingRanges.ContainsRangeIsSubset` | compiler/rustc_abi/src/wrapping_range.rs:57-85 | for every width and all in-width ranges, `contains_range` holds if and only if every word in the other range is in this one |
| `WrappingRanges.ContainsByWidth` | compiler/rustc_abi/src/wrapping_range.rs:55-104 | a word is contained if and only if it is no farther from the start, going up and around, than the end is |
| `SmallestRange.SearchAllIsNarrowest` | compiler/rustc_abi/src/wrapping_range.rs:184-210 | the search over all windows contains all values, no in-width range that does is narrower, and it wraps only if every non-wrapping one is strictly wider |
| `SmallestRange.ShortcutAgrees` | compiler/rustc_abi/src/wrapping_range.rs:187-199 | when the values span at most half the words, the full search also ends with the obvious range |
| `SmallestRange.SmallestRangeContaining` | compiler/rustc_abi/src/wrapping_range.rs:169-211 | the method with its early return gives `None` exactly for no values, and otherwise the narrowest range, the same as the full search |
| `Niches.AvailableCountsInvalidWords` | compiler/rustc_abi/src/lib.rs:2052-2061 | `available` is the number of words outside the valid range, as the cardinality of that set |
| `Niches.ReserveContract` | compiler/rustc_abi/src/lib.rs:2063-2129 | fails if and only if fewer words are free; otherwise hands out `count` consecutive formerly invalid words, makes exactly them valid, and leaves `available` less by `count` |
| `Niches.ReserveOneIsClosestToZero` | compiler/rustc_abi/src/lib.rs:2099-2108 | a single reservation (other than of `bool`) takes the free neighbour that is closest to zero in absolute value |
| `Niches.ReserveAvoidsPassingZero` | compiler/rustc_abi/src/lib.rs:2082-2128 | other reservations from a range that does not wrap pass zero only if moving either bound would, and else prefer the bound closer to zero |
| `Niches.ReserveMovesOneBound` | compiler/rustc_abi/src/lib.rs:2063-2129 | for every valid niche and count, ranges that wrap included, which bound moves and to where, ties included, in unbounded numbers |
| `StableSort.SortRange` | compiler/rustc_abi/src/layout.rs:1193-1232 | the sorted indices are exactly those of the range, each once, in key order, equal keys in their old order |
| `StableSort.InsertSorts` | compiler/rustc_abi/src/layout.rs:1193-1232 | inserting an index into sorted ones keeps them sorted and stable |
| `StableSort.SortedRangeIsUnique` | compiler/rustc_abi/src/layout.rs:1193-1232 | there is only one stable order of the indices, so any stable sort gives this one |
| `StableSort.SortByKey` | compiler/rustc_abi/src/layout.rs:1193-1232 | sorting the first indices of an array in place gives the stable order and leaves the rest alone |
| `Univariant.PlaceField` | compiler/rustc_abi/src/layout.rs:1255-1299 | the statements of one round of the loop compute the round of the specification, errors included |
| `Univariant.PlaceFields` | compiler/rustc_abi/src/layout.rs:1244-1299 | the loop over the memory order, with its early returns, computes the specified placement |
| `Univariant.MemoryOrder` | compiler/rustc_abi/src/layout.rs:1097-1239 | filling an index array and sorting its prefix in place, where reordering is allowed, gives the memory order of the specification, the one that `NicheOrder` is about |
| `Univariant.UnivariantBiased` | compiler/rustc_abi/src/layout.rs:1081-1316 | the method computes the biased layout of the specification, the one that `NicheOrder` and `StructLayouts` are about |
| `Placement.OrderIsPermutation` | compiler/rustc_abi/src/layout.rs:1097-1242 | the memory order is a permutation of the fields for both biases and all kinds |
| `Placement.PlacedUpTo` | compiler/rustc_abi/src/layout.rs:1255-1299 | after any number of rounds, fields are aligned, behind the prefix, inside, and each ends before the next in memory order starts |
| `Placement.AlignUpTo` | compiler/rustc_abi/src/layout.rs:1252-1276 | the alignment is the least bound of the initial one and the fields' effective ones |
| `Placement.NicheUpTo` | compiler/rustc_abi/src/layout.rs:1282-1295 | the niche kept is that of a field at its place, no field has a larger one, and with end bias none is missed |
| `Packing.DescendingPacks` | compiler/rustc_abi/src/layout.rs:1184-1220 | fields whose groups divide their sizes need no padding in descending order of groups |
| `Packing.AscendingPacks` | compiler/rustc_abi/src/layout.rs:1223-1233 | in ascending order behind a prefix, padding before a field only anticipates the padding at the end |
| `UnivariantTheorems.SortKeyIsWords` | compiler/rustc_abi/src/layout.rs:1196-1208 | over well-formed fields no subtraction in the keys underflows, and the complements are taken of words |
| `UnivariantTheorems.GroupDivides` | compiler/rustc_abi/src/layout.rs:1143-1181 | the effective alignment divides the group's power of two, which divides the size, for both biases and under `pack` |
| `UnivariantTheorems.OrderSortsGroups` | compiler/rustc_abi/src/layout.rs:1183-1234 | the sort orders the groups, ascending behind a prefix and descending otherwise; the order inside a group is that of `NicheOrder.FieldsAreOrdered` |
| `UnivariantTheorems.BiasedIsSound` | compiler/rustc_abi/src/layout.rs:1240-1316 | a biased layout is sound: permutation, aligned, disjoint, in bounds, size a multiple of the alignment, largest niche of any field |
| `UnivariantTheorems.SoundIsWellFormed` | compiler/rustc_abi/src/layout.rs:1153-1154 | a sound struct of well-formed fields is well-formed, which is what the sort key assumes of its fields |
| `UnivariantTheorems.SoundFieldsDisjoint` | compiler/rustc_abi/src/layout.rs:1255-1299 | any two fields are disjoint, whatever their source order |
| `UnivariantTheorems.ReorderingPacks` | compiler/rustc_abi/src/layout.rs:1107-1312 | with reordering, the size is the aligned prefix plus the sum of the field sizes, rounded up once |
| `UnivariantTheorems.ReorderingIsOptimal` | compiler/rustc_abi/src/layout.rs:1107-1312 | no arrangement of the fields without overlap behind the prefix has a smaller size that is a multiple of the alignment |
| `UnivariantTheorems.UnivariantIsOptimal` | compiler/rustc_abi/src/layout.rs:278-338 | the same for the layout that `univariant` settles on |
| `UnivariantTheorems.EndBiasedRerunIsSafe` | compiler/rustc_abi/src/layout.rs:284-309 | whenever the start-biased run succeeds, so does the end-biased one, with the same size, alignment and number of niche values, and with a niche if there was one |
| `UnivariantTheorems.UnivariantIsSound` | compiler/rustc_abi/src/layout.rs:278-338 | no `expect`, subtraction or size assertion fails; the result is sound, well-formed and one of the two biased layouts |
| `UnivariantTheorems.UnivariantKeepsWidestSide` | compiler/rustc_abi/src/layout.rs:279-333 | the choice never leaves less room on the wider side of the niche than the start-biased layout |
| `UnivariantTheorems.UnivariantChooses` | compiler/rustc_abi/src/layout.rs:278-338 | the end-biased layout is taken if and only if the start-biased one leaves space on both sides of its niche and the end-biased niche starts farther from the front than either space is wide |
| `UnivariantTheorems.UnsizingKeepsOffsets` | compiler/rustc_abi/src/layout.rs:285-288 | two possibly unsized structs that differ in the tail only give all other fields the same offsets and the same order |
| `NicheOrder.FieldsAreOrdered` | compiler/rustc_abi/src/layout.rs:1107-1242 | for both biases and all kinds, stated over sizes, alignments and niches: of two fields that may move, the one whose group comes first is placed first; in a group large niches come first with start bias and last with end bias or behind a prefix, of equal niches those nearest that end of their field, and otherwise source order holds |
| `NicheOrder.OneComesBefore` | compiler/rustc_abi/src/layout.rs:1193-1232 | of any two fields one comes before the other in that order, so it determines the layout |
| `NicheOrder.HasGroup` | compiler/rustc_abi/src/layout.rs:1143-1181 | every field that may move is in a group |
| `NicheOrder.SourceOrderIsKept` | compiler/rustc_abi/src/layout.rs:1096-1107 | under `repr(C)`, `simd`, `scalable`, `linear` or an integer type, memory order is source order |
| `NicheOrder.TailIsLast` | compiler/rustc_abi/src/layout.rs:1098-1101 | the tail of a possibly unsized struct is last in memory |
| `StructLayouts.BiasedIsLayoutOf` | compiler/rustc_abi/src/layout.rs:1240-1316 | given the order, everything else: each field at the first place behind the one before that suits its packed alignment, from the rounded-up prefix on; the largest alignment asked for and the least size; a largest niche, the first or last one by bias; unsized only with an unsized field, uninhabited with an uninhabited one |
| `StructLayouts.UnivariantIsLayoutOf` | compiler/rustc_abi/src/layout.rs:278-338 | the same for what `univariant` returns, with the bias it chose |
| `StructLayouts.BiasedExactlyWhen` | compiler/rustc_abi/src/layout.rs:1255-1316 | there is a layout if and only if no field but the tail of a possibly unsized struct is unsized and the padded end is below the target's bound |
| `StructLayouts.BiasedFailsWith` | compiler/rustc_abi/src/layout.rs:1255-1316 | a failure names a field that is unsized and may not be, or else the padded end reaches the bound |
| `UnivariantTheorems.PreferEndBiased` | compiler/rustc_abi/src/layout.rs:297-334 | the second attempt passes its `expect`s, subtraction and size assertion, and picks the specified layout |
| `UnivariantTheorems.UnivariantLayout` | compiler/rustc_abi/src/layout.rs:266-339 | the method computes the specified result without panicking, and the result is sound |
| `Discriminants.FitIsLeast` | compiler/rustc_abi/src/lib.rs:1339-1362 | `fit_signed` and `fit_unsigned` give the least type: a type is at least that wide if and only if it holds the value |
| `Discriminants.DiscrRangeHolds` | compiler/rustc_middle/src/ty/layout.rs:80-132 | for discriminants of the discriminant type, nothing panics; the type picked holds every value unless it is as wide as the discriminant type, and is wider than that only by `repr(C)` |
| `TagChoice.SmallestIntegerIsLeast` | compiler/rustc_middle/src/ty/layout.rs:92-131 | without a hint, the type holds the value of every necessary discriminant, no type of either signedness that does (and is not below the `repr(C)` minimum) is smaller, and it is signed if and only if a value is negative |
| `TagChoice.HintIsTaken` | compiler/rustc_middle/src/ty/layout.rs:103-114 | with a hint it is the hinted type, with its signedness |
| `Discriminants.DirectRoundTrip` | compiler/rustc_const_eval/src/interpret/discriminant.rs:119-123 | truncating a discriminant to a tag that holds its value and casting back recovers it, for all widths and signs |
| `Enums.LargestVariant` | compiler/rustc_abi/src/layout.rs:627-630 | the last of the variants of maximal size |
| `Enums.ForAlign` | compiler/rustc_abi/src/lib.rs:1364-1372 | the integer found has both the size and the alignment asked for |
| `NicheFilling.NicheFillingNeverPanics` | compiler/rustc_abi/src/layout.rs:632-638 | with two present variants the `unwrap`s find a variant that needs a discriminant |
| `NicheFilling.FirstNeededIsFirst` | compiler/rustc_abi/src/layout.rs:632-638 | no variant that needs a discriminant comes before the range of niche variants |
| `NicheFilling.LastNeededIsLast` | compiler/rustc_abi/src/layout.rs:632-638 | no variant that needs a discriminant comes after the range of niche variants |
| `NicheFilling.FitVariantIsSound` | compiler/rustc_abi/src/layout.rs:657-682 | a variant placed before or moved behind the niche stays aligned, disjoint and inside, and clear of the niche |
| `NicheFilling.NicheFillingIsSound` | compiler/rustc_abi/src/layout.rs:645-750 | a niche-filled layout is well-formed, all variants are sound, all but the largest are clear of the niche bytes, and the tag's range is a field's niche with one word reserved for each niche variant |
| `FillingSucceeds.FillsExactlyWhen` | compiler/rustc_abi/src/layout.rs:594-692 | niche filling succeeds if and only if no representation inhibits it, there are two variants, all lay out, the last largest one has a niche with as many free words as the range of variants that need one, and every other variant ends before the niche or has an aligned place behind it that leaves it inside |
| `FillingSucceeds.FillingIs` | compiler/rustc_abi/src/layout.rs:645-751 | what it returns: largest variant, range, tag, leftover niche, least size and alignment, the largest variant untouched, and every other one unmoved if it ends before the niche and else at the first aligned place behind it |
| `FillingSucceeds.FitsIsFound` | compiler/rustc_abi/src/layout.rs:651-688 | a variant is placed if and only if there is a place for it, and then at the first one |
| `NicheFilling.FillingIsLeast` | compiler/rustc_abi/src/layout.rs:649 | the size is the least multiple of the alignment that holds each variant as laid out on its own |
| `NicheFilling.FillingIsOptimal` | compiler/rustc_abi/src/layout.rs:612-649 | when fields may be reordered, no arrangement of the largest variant's fields, without any tag, fits a smaller multiple of the alignment |
| `TaggedEnums.StartAlignIsLeast` | compiler/rustc_abi/src/layout.rs:796-831 | the least alignment of the first immovable fields, attained by one of them |
| `TaggedEnums.WidenVariantIsSound` | compiler/rustc_abi/src/layout.rs:886-903 | the assertion on moved offsets holds, only 1-ZSTs move, every other field starts behind the wide tag already, and the variant stays sound |
| `TaggedEnums.WidenedVariantIsSound` | compiler/rustc_abi/src/layout.rs:874-903 | the same for each variant of every enum whose tag is widened |
| `TaggedEnums.FinalTagFits` | compiler/rustc_abi/src/layout.rs:874-885 | the final tag is inside the enum and the enum is aligned for it; a wider tag's size and alignment are the start alignment (when it is widened is the row of `TagChoice.FinalIs`) |
| `TagChoice.FinalIs` | compiler/rustc_abi/src/layout.rs:874-903 | the tag is widened if and only if neither `repr(C)` nor an integer type is given and an integer above the smallest one has as its size and alignment the least alignment of the fields that variants start with, 1-ZSTs aside; it is then that integer |
| `TagChoice.TaggedLayoutIs` | compiler/rustc_abi/src/layout.rs:786-1054 | what the tagged layout is: the variants laid out behind the smallest tag (for `repr(C)` aligned as a union of all fields), what touched that tag moved behind the final one, least size and alignment, the narrowest tag range and its leftover niche |
| `TagChoice.TaggedExactlyWhen` | compiler/rustc_abi/src/layout.rs:753-903 | there is one if and only if the tag is not too wide, all variants lay out behind it and stay below the bound when padded |
| `TaggedEnums.TagRangeIsNarrowest` | compiler/rustc_abi/src/layout.rs:905-911 | the tag's range is the narrowest one with every necessary tag in it |
| `TaggedEnums.TaggedIsSound` | compiler/rustc_abi/src/layout.rs:755-1045 | the tagged layout panics if and only if the target's smallest `repr(C)` enum is wider than a pointer and the enum would have a layout with such a tag; otherwise it is well-formed, and its variants are sound and clear of the tag |
| `TaggedEnums.TaggedIsLeast` | compiler/rustc_abi/src/layout.rs:842-847 | no smaller multiple of the alignment holds every variant as laid out behind its tag |
| `TaggedEnums.TaggedIsOptimal` | compiler/rustc_abi/src/layout.rs:814-847 | when fields may be reordered, no arrangements of the variants' fields behind the tag fit a smaller multiple of the alignment |
| `EnumTheorems.EnumIsSound` | compiler/rustc_abi/src/layout.rs:576-1078 | `layout_of_enum` panics exactly when its tag is too wide in that sense, rejects packed enums, and otherwise has a result exactly when there is a tagged layout; its result is sound and one of the candidates, no candidate is smaller or as small with a larger niche, and a tie goes to the tag |
| `EnumTheorems.NicheEncodingRoundTrip` | compiler/rustc_const_eval/src/interpret/discriminant.rs:299-324 | every inhabited niche variant gets a tag that was not valid in the niche, and that tag reads as the variant |
| `EnumTheorems.UntaggedWords` | compiler/rustc_const_eval/src/interpret/discriminant.rs:141-208 | a word reads as the untagged variant if and only if it was a valid word of the niche |
| `EnumTheorems.ReadAssertionsHold` | compiler/rustc_const_eval/src/interpret/discriminant.rs:171-185 | for every word, a relative index within the range of niche variants is that of a variant, and the word is in the tag's range |
| `EnumTheorems.DirectEncodingRoundTrip` | compiler/rustc_const_eval/src/interpret/discriminant.rs:272-288 | every inhabited variant of a tagged enum is read back from its tag, after widening too |
| `EnumTheorems.FillingRoundTrips` | compiler/rustc_abi/src/layout.rs:727-737 | every inhabited variant of a niche-filled enum can be stored and is read back |
| `EnumTheorems.EnumRoundTrip` | compiler/rustc_abi/src/layout.rs:1056-1077 | the chosen layout tells all inhabited variants apart |
| `Examples.OptionBool` | compiler/rustc_abi/src/layout.rs:594-751 | `Option<bool>` meets the premises, takes one byte by niche filling, stores `None` as 2 and reads it back |
| `Examples.NarrowTargetPanics` | compiler/rustc_abi/src/layout.rs:849-862 | a `repr(C)` enum with one variant panics on a 16-bit target whose smallest `repr(C)` enum is left at 32 bits |
| `EnumMethods.LayOutVariants` | compiler/rustc_abi/src/layout.rs:612-626 | laying out the variants in a loop gives all layouts or the first error, with the largest size and alignment |
| `EnumMethods.FindLargest` | compiler/rustc_abi/src/layout.rs:627-630 | the loop finds the last largest variant |
| `EnumMethods.FindNicheVariants` | compiler/rustc_abi/src/layout.rs:632-638 | the searches from both ends find the first and last variant that need a discriminant |
| `EnumMethods.ShiftOffsets` | compiler/rustc_abi/src/layout.rs:672-675 | every offset is moved in place by the same shift |
| `EnumMethods.PlaceAroundNiche` | compiler/rustc_abi/src/layout.rs:651-688 | patching the variants' offsets in place gives the variants of the specification, or `None` when one does not fit; when that is, `FillingSucceeds.FitsIsFound` says |
| `EnumMethods.NicheFillingLayout` | compiler/rustc_abi/src/layout.rs:594-751 | the method computes the niche-filled layout of the specification without panicking, the one that `FillingSucceeds` is about |
| `EnumMethods.CollectDiscriminants` | compiler/rustc_abi/src/layout.rs:758-761 | collects the discriminants that the tag must store |
| `EnumMethods.DiscriminantRange` | compiler/rustc_abi/src/layout.rs:763-779 | folds them to the least negative and the greatest nonnegative value |
| `EnumMethods.FindStartAlign` | compiler/rustc_abi/src/layout.rs:796-831 | the nested loops find the specified start alignment |
| `Enums.NoIntegerIsThatAligned` | compiler/rustc_abi/src/layout.rs:796-798 | the assertion on the alignment that the search starts from holds on every target |
| `EnumMethods.WidenInPlace` | compiler/rustc_abi/src/layout.rs:891-897 | the offsets inside the wide tag are moved behind it in place, under the source's assertion |
| `EnumMethods.WidenTag` | compiler/rustc_abi/src/layout.rs:886-903 | patching all variants gives the specified ones |
| `EnumMethods.PickTag` | compiler/rustc_abi/src/layout.rs:874-903 | picks the final tag and the variants behind it that the specification has; which these are, `TagChoice.FinalIs` and `TaggedLayoutIs` say |
| `EnumMethods.ComputeTagRange` | compiler/rustc_abi/src/layout.rs:905-911 | the tag range with its fallback for no necessary discriminants |
| `EnumMethods.TaggedLayout` | compiler/rustc_abi/src/layout.rs:753-1054 | the method computes the specified tagged layout, and panics exactly when the tag is too wide |
| `EnumMethods.TagVariants` | compiler/rustc_abi/src/layout.rs:842-1054 | its second half, with the size check, the panic, the patching and the tag's range in the order of the source |
| `EnumMethods.EnumLayout` | compiler/rustc_abi/src/layout.rs:576-1078 | the method computes the specified choice, panics exactly when the tag is too wide, and its result is sound |
| `Aggregates.ArrayIsWellFormed` | compiler/rustc_abi/src/layout.rs:181-202 | an array has a layout if and only if count times element size is below the bound; it is then well-formed, has just the elements that were asked for, each aligned and inside without space between, is sized if it has a count, and has the niche and the values of its elements if it has elements |
| `Aggregates.UnionIsSound` | compiler/rustc_abi/src/layout.rs:419-519 | a union is well-formed and holds each of its fields, aligned up to packing; whatever they are, it is sized and inhabited and has no niche |
| `Aggregates.UnionFailsWhen` | compiler/rustc_abi/src/layout.rs:419-505 | there is a layout if and only if there are fields and all are sized; otherwise the first unsized field is reported, or that there are none |
| `Aggregates.UnionIsLeast` | compiler/rustc_abi/src/layout.rs:419-519 | neither a smaller alignment nor a smaller multiple of it holds the fields |
| `Aggregates.UnionLayout` | compiler/rustc_abi/src/layout.rs:395-520 | the method computes the specified union, with its errors |
| `Aggregates.StructLayout` | compiler/rustc_abi/src/layout.rs:523-574 | the method computes the specified struct or single-variant enum |
| `Aggregates.AdtIsWellFormed` | compiler/rustc_abi/src/layout.rs:341-393 | `layout_of_struct_or_enum` panics exactly on an enum whose tag is too wide; its layouts are well-formed and, as the variants that there can be values of decide, the never type, the layout of that variant as a struct (with its niche hidden where asked), or a sound enum, the last only with two such variants or without optimization; it fails only as the struct or enum fails |
| `Aggregates.AdtLayout` | compiler/rustc_abi/src/layout.rs:341-393 | the method computes the specified layout, and panics exactly when specified |
| `Aggregates.LayoutOfIsWellFormed` | compiler/rustc_abi/src/layout.rs:176-574 | for every finite tree of arrays, structs, unions and enums over well-formed leaves, each layout is well-formed, and there is a panic if and only if some enum in the tree has a tag that is too wide and nothing laid out before it is in error |
| `Aggregates.NothingPanics` | compiler/rustc_abi/src/layout.rs:849-862 | on targets whose smallest `repr(C)` enum is no wider than a pointer no tree panics at all |
| `Aggregates.LayoutOfIsSound` | compiler/rustc_abi/src/layout.rs:176-1078 | and at every node of the tree there is a layout exactly when its parts have one and the node can be laid out, with the requested elements, struct fields, union fields and fields of enum variants placed soundly: permutation, aligned, in bounds, disjoint, clear of tag or niche |
| `Homogeneous.HomogeneousAggregateIsHomogeneous` | compiler/rustc_abi/src/callconv.rs:65-192 | for every tree, never types included: it panics if and only if the layout is the never type or a nonempty array over it; a unit means a size that is a positive multiple of it with every register being the unit at a multiple of its size, no unit means size zero; what the unit is, `Registers.HoldsItsUnit` says |
| `Homogeneous.ArrayOfNeverPanics` | compiler/rustc_abi/src/callconv.rs:99-112 | `[!; 1]` is well-formed and panics, while a struct of a float and that array is homogeneous |
| `Homogeneous.OverNeverIsPassedOver` | compiler/rustc_abi/src/callconv.rs:122-126 | the layouts that panic are 1-ZSTs, so no field of one is examined |
| `Homogeneous.AggregateFills` | compiler/rustc_abi/src/callconv.rs:175-188 | the size is filled by the unit, at every level of the tree, and the panic condition is exact at every level |
| `Homogeneous.AggregateLeaves` | compiler/rustc_abi/src/callconv.rs:92-173 | wherever a homogeneous aggregate is placed at a multiple of the unit, all its registers are units at multiples |
| `Homogeneous.FieldsUpToExact` | compiler/rustc_abi/src/callconv.rs:117-144 | the field loop accepts exactly the fields that follow each other without padding and agree on the unit |
| `Homogeneous.VariantsUpToExact` | compiler/rustc_abi/src/callconv.rs:149-173 | the loop over variants accepts exactly the variants that are chained from the end of the own fields on |
| `Homogeneous.AggregateExact` | compiler/rustc_abi/src/callconv.rs:147-188 | a struct, union or enum is homogeneous in a unit if and only if its own fields are chained, those of each variant behind them too, something has data, and the greatest end is the size |
| `Registers.HoldsItsUnit` | compiler/rustc_abi/src/callconv.rs:65-192 | a homogeneous aggregate holds, at any depth, values of exactly one representation and size: floats if the unit is a float register, integers or pointers for an integer register, vectors of that element for a vector register; without a unit it holds none |
| `Registers.MixedIsHeterogeneous` | compiler/rustc_abi/src/callconv.rs:33-50 | an aggregate that holds values of two representations or sizes, and one that is not sized, is heterogeneous |
| `Homogeneous.ArrayExact` | compiler/rustc_abi/src/callconv.rs:103-112 | a nonempty array is what its element is, an empty one has no data |
| `Homogeneous.FromFieldsAt` | compiler/rustc_abi/src/callconv.rs:95-145 | the loop with its early returns computes the specified fold |
| `Homogeneous.FromVariants` | compiler/rustc_abi/src/callconv.rs:149-173 | the loop over variants computes the specified fold |
| `Homogeneous.TestHomogeneous` | compiler/rustc_abi/src/callconv.rs:65-192 | the recursive method computes for every tree the answer of the specification, the one that `Registers` is about |
| `DroplessArena.FitIsFree` | compiler/rustc_arena/src/lib.rs:429-448 | a block that fits is inside the free space, aligned as asked, and leaves `end` aligned |
| `DroplessArena.GrowKeepsValid` | compiler/rustc_arena/src/lib.rs:386-421 | growing keeps the invariant: chunks apart, blocks disjoint and inside chunks, free space apart from blocks; the assertion that `end` stays behind `start` holds |
| `DroplessArena.AllocKeepsValid` | compiler/rustc_arena/src/lib.rs:424-457 | an allocation keeps it and adds its own block |
| `DroplessArena.EveryRunIsSafe` | compiler/rustc_arena/src/lib.rs:383-457 | over every run, each returned block is aligned, inside a chunk and disjoint from all others ever returned |
| `DroplessArena.HintIsTrue` | compiler/rustc_arena/src/lib.rs:436-439 | the unchecked hint about `end` holds in every valid state |
| `DroplessArena.OneGrowSuffices` | compiler/rustc_arena/src/lib.rs:427-456 | with an aligned chunk, every nonempty request fits after one grow |
| `DroplessArena.AtMostOneGrow` | compiler/rustc_arena/src/lib.rs:427-456 | then the loop asks for at most one chunk |
| `DroplessArena.UnalignedGrowFails` | compiler/rustc_arena/src/lib.rs:386-419 | with any chunk that is not aligned, a first request of a page less the padding still does not fit |
| `DroplessArena.UnalignedNeverServes` | compiler/rustc_arena/src/lib.rs:427-456 | with chunks that are never aligned, a request of a huge page less the padding is never served, however often the loop grows |
| `DroplessArena.OneGrowExactly` | compiler/rustc_arena/src/lib.rs:386-457 | one grow suffices for all arenas and requests if and only if the chunk is aligned |
| `DroplessGrowth.FitIsHighest` | compiler/rustc_arena/src/lib.rs:429-448 | a block fits if and only if it can start somewhere in the free space, aligned as asked and to `DROPLESS_ALIGNMENT`, and then starts at the highest such place |
| `DroplessGrowth.NoGrowWhileRoom` | compiler/rustc_arena/src/lib.rs:424-457 | a chunk is asked for only when there is no such place |
| `DroplessGrowth.NextCapIsLeast` | compiler/rustc_arena/src/lib.rs:386-411 | the next chunk is the least number of whole pages that holds the request with its padding and is one page at first, then twice the last chunk up to a huge page |
| `DroplessGrowth.EveryRunDoubles` | compiler/rustc_arena/src/lib.rs:100-106 | in every run chunk `c` has at least `2^c` pages, or is at least a huge page |
| `DroplessRequests.ActionIsServed` | compiler/rustc_arena/src/lib.rs:424-598 | reentrant use to any depth leaves the arena as a flat sequence of requests to `alloc_raw` does, which the iterators' calls determine: the room first with an exact hint, last without one |
| `ReentrantArena.Arena.Grow` | compiler/rustc_arena/src/lib.rs:386-421 | the fields after growing are the specified ones and the invariant is kept |
| `ReentrantArena.Arena.AllocRaw` | compiler/rustc_arena/src/lib.rs:424-457 | the retry loop computes the specified allocation; nothing handed out before changes |
| `ReentrantArena.Arena.AllocSlice` | compiler/rustc_arena/src/lib.rs:481-495 | a new block holds the bytes and nothing else changes; it fails exactly when the allocator gives up on this request |
| `ReentrantArena.Arena.WriteItems` | compiler/rustc_arena/src/lib.rs:523-540 | while items are written and the iterator allocates, all other blocks keep their contents, and the first min(len, yielded) items are in place; it fails exactly when one of the iterator's own requests does, and else leaves the arena where these requests leave it |
| `DroplessIterators.JoinedItems` | compiler/rustc_arena/src/lib.rs:523-540 | item `i` is at `i` times the item size in what a slice is said to hold |
| `ReentrantArena.Arena.WriteFromIter` | compiler/rustc_arena/src/lib.rs:517-541 | the same including the last call of the iterator, which is made only if there was room for all |
| `ReentrantArena.Arena.AllocExact` | compiler/rustc_arena/src/lib.rs:555-569 | the slice returned holds the first min(len, yielded) items, aligned for them, in a block of its own with room for `len`; it fails exactly when the reservation or a request of the iterator does |
| `ReentrantArena.Arena.TryAllocFromIter` | compiler/rustc_arena/src/lib.rs:575-597 | an error among the items is reported and nothing is kept, otherwise the slice holds all items, aligned, in a block of just their size; it runs out of memory exactly when a request of the iterator or the final one does |
| `ReentrantArena.Arena.AllocFromIter` | compiler/rustc_arena/src/lib.rs:544-572 | both paths return the items announced and yielded, aligned for their type, hence the same bytes when the hint is honest; success and the final arena are those of the specification `DroplessIterators.AfterFromIter` |
| `TypedArena.GrowKeepsSound` | compiler/rustc_arena/src/lib.rs:256-288 | growing makes room, and recording `entries` keeps what will be dropped |
| `TypedArena.PutKeepsSound` | compiler/rustc_arena/src/lib.rs:183-198 | writing behind the pointer adds exactly the objects to what will be dropped, overwrites nothing, and starts at the old pointer |
| `TypedArena.AllocKeepsSound` | compiler/rustc_arena/src/lib.rs:142-157 | `alloc` always finds room, adds its object right before the new pointer, and overwrites nothing |
| `TypedArena.SliceKeepsSound` | compiler/rustc_arena/src/lib.rs:160-253 | slices, gaps at chunk ends included, add exactly their objects and overwrite nothing |
| `TypedArena.SlicesAreApart` | compiler/rustc_arena/src/lib.rs:142-253 | when chunks are aligned for the element and do not overlap, all slices ever handed out are aligned, inside their chunks and pairwise disjoint in memory |
| `TypedGrowth.NextCapIsUsual` | compiler/rustc_arena/src/lib.rs:256-288 | the next chunk has the slots asked for, or if these are more, as many as a page holds at first, then twice the last chunk's up to the even number that a huge page holds |
| `TypedGrowth.UsualIsUnique` | compiler/rustc_arena/src/lib.rs:271-281 | that usual number of slots is determined |
| `TypedGrowth.AllocGrowsWhenFull` | compiler/rustc_arena/src/lib.rs:142-157 | `alloc` asks for a chunk if and only if the last one has no room for the object |
| `TypedGrowth.SliceGrowsWhenFull` | compiler/rustc_arena/src/lib.rs:160-205 | a slice asks for one if and only if it is not empty and the last one has no room for it |
| `TypedIterators.ActionMoves` | compiler/rustc_arena/src/lib.rs:142-253 | an allocation, its iterator allocating to any depth, adds exactly the objects it moves in and overwrites nothing |
| `TypedIterators.FromIterMoves` | compiler/rustc_arena/src/lib.rs:214-253 | so does collecting an iterator: what it allocated stays, and its items join unless one was an error |
| `TypedIterators.DropsExactlyOnce` | compiler/rustc_arena/src/lib.rs:142-328 | over any sequence of allocations, reentrant ones included, the multiset dropped equals the multiset moved in, or nothing is dropped without a destructor |
| `TypedIterators.CallsMadeAre` | compiler/rustc_arena/src/lib.rs:232-233 | an iterator is called up to its first error, or to its end |
| `TypedIterators.ItemsAre` | compiler/rustc_arena/src/lib.rs:232-233 | what is collected without an error is every item, in order |
| `TypedArenaObject.Cell.Grow` | compiler/rustc_arena/src/lib.rs:256-288 | the object's fields after growing are the specified ones, and there is room |
| `TypedArenaObject.Cell.AllocObject` | compiler/rustc_arena/src/lib.rs:142-157 | the object is moved in where `at` says, joins the history, and nothing is overwritten |
| `TypedArenaObject.Cell.Collect` | compiler/rustc_arena/src/lib.rs:232-235 | the iterator may allocate at every call; collecting stops at the first error; slices handed out before stay recorded |
| `TypedArenaObject.Cell.TryAllocFromIter` | compiler/rustc_arena/src/lib.rs:214-253 | the slice lies at `at` up to the pointer and holds the items; an error keeps none of them but what the iterator allocated itself; nothing is overwritten |
| `TypedArenaObject.Cell.Destroy` | compiler/rustc_arena/src/lib.rs:65-78 | drops the first `len` slots, which its callers have to have initialized |
| `TypedArenaObject.Cell.ClearLastChunk` | compiler/rustc_arena/src/lib.rs:292-309 | drops the last chunk by the pointer difference and resets the pointer |
| `TypedArenaObject.Cell.Drop` | compiler/rustc_arena/src/lib.rs:312-328 | drops every object ever moved in exactly once |
| `PowersOfFive.NearEntry` | src/etc/dec2flt_table.py:73-76 | for -27 <= q < 0 the entry has 128 bits, is the exact quotient rounded up, and is within half a unit if and only if the remainder is at least half the divisor |
| `PowersOfFive.FarEntry` | src/etc/dec2flt_table.py:77-83 | for q < -27 the entry has 128 bits and is the exact quotient rounded down, hence within one unit, and within half a unit if and only if the remainder is at most half the divisor |
| `PowersOfFive.PositiveEntry` | src/etc/dec2flt_table.py:86-94 | for q >= 0 the entry is the leading 128 bits, exact below `2^128`, within one unit, and within half a unit if and only if the part cut off is at most half |
| `PowersOfFive.CutPower` | src/etc/dec2flt_table.py:91-93 | cutting low bits off stays within one unit, and within half a unit exactly when the rest is at most half |
| `PowersOfFive.NotRoundedToNearest` | src/etc/dec2flt_table.py:10-11 | the entry for `5^-3` is more than half a unit off |
| `PowersOfFive.NegativePower` | src/etc/dec2flt_table.py:69-83 | the loops for a negative exponent terminate with the specified entry |
| `PowersOfFive.PositivePower` | src/etc/dec2flt_table.py:87-93 | the loops for a nonnegative exponent terminate with the specified entry |
| `PowersOfFive.ProperPowers` | src/etc/dec2flt_table.py:62-94 | the table lists the entries of all exponents in order |
| `Visibility.ReachesThrough` | src/librustdoc/visit_lib.rs:60-66 | what a public child reaches, its module reaches |
| `Visibility.ClosedCoversPath` | src/librustdoc/visit_lib.rs:55-76 | once all visited modules are closed, every path from the root is recorded, on cyclic graphs too |
| `Visibility.Visitor.VisitMod` | src/librustdoc/visit_lib.rs:55-67 | terminates, adds only items reachable from the module, and closes every module it newly visits |
| `Visibility.Visitor.VisitItem` | src/librustdoc/visit_lib.rs:69-76 | records the item unless hidden, and what it adds is reachable from it |
| `Visibility.EffectiveVisibilities.VisitItem` | src/librustdoc/visit_lib.rs:31-41 | afterwards exactly the items recorded before or reachable from the root are recorded |
| `Visibility.EffectiveVisibilities.VisitItems` | src/librustdoc/core.rs:396-398 | repeated calls accumulate the union of what the roots reach |

## Left out

- `-Z randomize-layout` and the randomization seeds: they depend on a foreign random generator.
- The backend representation of layouts (`Scalar`, `ScalarPair`, SIMD), the assertion on it in `layout_of_union`, and the enlarging of a variant's size that goes with it: the memory layout does not depend on it.
- `max_repr_align` and `unadjusted_abi_align`: running maxima that nothing here reads.
- The kind of a niche's primitive (integer, float, pointer): only its width matters to the code modelled.
- Coroutine layouts, SIMD and scalable vector layouts.
- Reading a tag that is a pointer during constant evaluation: tags are words.
- The global allocator, pointer provenance, exhaustion of `usize` addresses, and zero-sized element types of the typed arena, which the source asserts away.
- Iterators and destructors that panic.
- `declare_arena` and the per-type dispatch of the arenas: only plumbing.
- The floating-point computation of the exponent range and the printing in `dec2flt_table.py`.
- The assertion in `lib_embargo_visit_item` that the item is not local, and the queries on the recorded set: easy members.
- `no_unsigned_wraparound`, `no_signed_wraparound` and debug formatting of wrapping ranges: easy members.
