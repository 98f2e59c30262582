/** The data of the layout calculator (compiler/rustc_abi/src/lib.rs): target description,
    representation options, and layouts.

    Sizes and offsets are bytes; alignments are exponents of two.
 */
module Layouts {
  import opened PowersOfTwo
  import opened Wrappers
  import opened WrappingRanges
  import opened Niches

  datatype Integer = I8 | I16 | I32 | I64 | I128 {

    function Bytes(): (b: nat)
      ensures 1 <= b <= 16 && b == Pow2(Log())
    {
      match this
      case I8 => 1
      case I16 => 2
      case I32 => 4
      case I64 => assert Pow2(3) == 8; 8
      case I128 => assert Pow2(4) == 16; 16
    }

    function Bits(): nat {
      8 * Bytes()
    }

    /** The exponent of the size; also the order of the integer types. */
    function Log(): nat {
      match this
      case I8 => 0
      case I16 => 1
      case I32 => 2
      case I64 => 3
      case I128 => 4
    }

    function Align(dl: DataLayout): nat {
      match this
      case I8 => dl.i8Align
      case I16 => dl.i16Align
      case I32 => dl.i32Align
      case I64 => dl.i64Align
      case I128 => dl.i128Align
    }
  }

  /** The parts of `TargetDataLayout` that the calculator reads. */
  datatype DataLayout = DataLayout(
    i8Align: nat, i16Align: nat, i32Align: nat, i64Align: nat, i128Align: nat,
    aggregateAlign: nat, objSizeBound: nat, pointerInteger: Integer, cEnumMinSize: Integer)

  /** `ReprOptions`, without the randomization flag and seed. */
  datatype Repr = Repr(
    c: bool, simd: bool, scalable: bool, linear: bool,
    intType: Option<IntegerType>, align: Option<nat>, pack: Option<nat>)
  {
    predicate InhibitEnumLayoutOpt() {
      c || intType.Some?
    }

    predicate InhibitStructFieldReordering() {
      c || simd || scalable || linear || intType.Some?
    }

    function DiscrType(): IntegerType {
      if intType.Some? then intType.value else PointerSized(true)
    }
  }

  datatype IntegerType = PointerSized(signed: bool) | Fixed(integer: Integer, signed: bool) {

    /** `Integer::from_attr`. */
    function ToInteger(dl: DataLayout): Integer {
      match this
      case PointerSized(_) => dl.pointerInteger
      case Fixed(integer, _) => integer
    }
  }

  datatype StructKind =
    | AlwaysSized
    | MaybeUnsized
    | Prefixed(prefixSize: nat, prefixAlign: nat)

  datatype NicheBias = Start | End

  datatype LayoutError =
    | UnexpectedUnsized(field: nat)
    | SizeOverflow
    | EmptyUnion
    | ReprConflict

  /** What a calculation comes to: a value, an error, or a failed assertion, `expect` or
      `unwrap` of the source. */
  datatype Result<+T> = Ok(value: T) | Err(error: LayoutError) | Panic

  /** Where the fields of a layout are. `order` lists the fields by increasing memory offset. */
  datatype FieldsShape =
    | Primitive
    | Union(fieldCount: nat)
    | Array(stride: nat, count: nat)
    | Arbitrary(offsets: seq<nat>, order: seq<nat>)

  datatype TagEncoding =
    | Direct(signed: bool)
    | NicheEncoding(untaggedVariant: nat, nicheFirst: nat, nicheLast: nat, nicheStart: nat)

  /** The scalar that stores the discriminant. */
  datatype Tag = Tag(offset: nat, bytes: nat, range: WrappingRange)

  datatype VariantLayout = VariantLayout(
    size: nat, offsets: seq<nat>, order: seq<nat>, largestNiche: Option<Niche>, uninhabited: bool)

  datatype Variants =
    | Empty
    | Single(index: nat)
    | Multiple(tag: Tag, encoding: TagEncoding, variants: seq<VariantLayout>)

  datatype Layout = Layout(
    size: nat, align: nat, largestNiche: Option<Niche>, uninhabited: bool, sized: bool,
    shape: FieldsShape, variants: Variants)
  {
    predicate Is1Zst() {
      sized && size == 0 && align == 0
    }

    /** What every layout the calculator takes or returns satisfies. */
    predicate WellFormed() {
      && IsMultiple(size, align)
      && (largestNiche.Some? ==>
            && largestNiche.value.Valid()
            && largestNiche.value.Available() > 0
            && largestNiche.value.offset + largestNiche.value.bytes <= size)
    }

    function NicheSize(): nat {
      if largestNiche.Some? then largestNiche.value.Available() else 0
    }
  }

  ghost predicate AllWellFormed(fields: seq<Layout>) {
    forall i :: 0 <= i < |fields| ==> fields[i].WellFormed()
  }

  /** The alignment that remains under `repr(packed)`. */
  function Packed(align: nat, repr: Repr): nat {
    if repr.pack.Some? && repr.pack.value < align then repr.pack.value else align
  }

  /** `absent`: uninhabited, and nothing but fields that occupy no space and need no alignment. */
  predicate Absent(fields: seq<Layout>) {
    && (exists i :: 0 <= i < |fields| && fields[i].uninhabited)
    && (forall i :: 0 <= i < |fields| ==> fields[i].Is1Zst())
  }

  function MaxAlign(fields: seq<Layout>): (a: nat)
    ensures forall i :: 0 <= i < |fields| ==> fields[i].align <= a
  {
    if fields == [] then 0 else Max(fields[0].align, MaxAlign(fields[1..]))
  }

  function MaxNicheSize(fields: seq<Layout>): (a: nat)
    ensures forall i :: 0 <= i < |fields| ==> fields[i].NicheSize() <= a
  {
    if fields == [] then 0 else Max(fields[0].NicheSize(), MaxNicheSize(fields[1..]))
  }
}
