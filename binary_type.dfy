/**
 * The type-length-value format shared by both versions of `PackUnpack`
 * (pack_unpack.hpp and pack_unpack.cpp): a one-byte tag, the
 * `BinaryType` enumerator's character, followed by the payload.
 */
module BinaryTypes {
  import opened Wrappers
  import opened Bytes

  /** `enum class BinaryType : char`. */
  datatype BinaryType = Integer | Real | Boolean | String | Null | Error

  /** The tag byte: the enumerator's character. */
  function TagByte(t: BinaryType): (b: uint8)
    ensures TagType(b) == Some(t)
  {
    match t
    case Integer => 'i' as int
    case Real => 'd' as int
    case Boolean => 'b' as int
    case String => 's' as int
    case Null => 'N' as int
    case Error => 'E' as int
  }

  /** The enumerator a tag byte names, if any. */
  function TagType(b: uint8): Option<BinaryType>
  {
    if b == 'i' as int then Some(Integer)
    else if b == 'd' as int then Some(Real)
    else if b == 'b' as int then Some(Boolean)
    else if b == 's' as int then Some(String)
    else if b == 'N' as int then Some(Null)
    else if b == 'E' as int then Some(Error)
    else None
  }

  /** A byte names an enumerator only if it is that enumerator's tag. */
  lemma TagTypeInverse(b: uint8)
    ensures TagType(b).Some? ==> b == TagByte(TagType(b).value)
    ensures TagType(b).None? <==> b !in {'i' as int, 'd' as int, 'b' as int, 's' as int, 'N' as int, 'E' as int}
  {
  }

  /**
   * A value handed to `pack` together with its `BinaryType`: the template
   * argument after the `static_cast` of its case (`int64_t`, the bits of a
   * `double`, `bool`, `std::string`, nothing, an `int` error code).
   */
  datatype Item =
    | IntegerItem(i: int64)
    | RealItem(bits: uint64)
    | BooleanItem(b: bool)
    | StringItem(s: seq<uint8>)
    | NullItem
    | ErrorItem(code: int32)
  {
    function Type(): BinaryType
    {
      match this
      case IntegerItem(_) => Integer
      case RealItem(_) => Real
      case BooleanItem(_) => Boolean
      case StringItem(_) => String
      case NullItem => Null
      case ErrorItem(_) => Error
    }
  }

  /** The exceptions `unpack` throws, one per message. */
  datatype UnpackError =
    | BufferOverflow       // std::out_of_range("Buffer overflow")
    | JsonError            // std::runtime_error("JSON error")
    | UnknownBinaryType    // std::runtime_error("Unknown binary type")
    | NoMoreData           // std::out_of_range("No more data in buffer")
    | BufferTooSmall       // std::out_of_range("Buffer too small")
    | StringTooLong        // std::out_of_range("String length exceeds buffer size")
    | UnsupportedType      // std::invalid_argument("Unsupported binary type")

  /** What `unpack` leaves behind: the value or the exception, and the cursor `pos` as the caller then sees it. */
  type Unpacked = (Result<Item, UnpackError>, nat)

  /** The signed value of an `n`-byte two's complement field. */
  function SignedField(u: nat, n: nat): (v: int)
    requires n > 0 && u < Pow256(n)
    ensures 0 <= 2 * v + Pow256(n) && 2 * v < Pow256(n)
  {
    Signed(u, n)
  }

  lemma Int64Range(v: int)
    requires 0 <= 2 * v + Pow256(8) && 2 * v < Pow256(8)
    ensures -0x8000_0000_0000_0000 <= v < 0x8000_0000_0000_0000
  {
    Pow256Values();
  }

  lemma Int32Range(v: int)
    requires 0 <= 2 * v + Pow256(4) && 2 * v < Pow256(4)
    ensures -0x8000_0000 <= v < 0x8000_0000
  {
    Pow256Values();
  }

  /** The `int64_t` whose eight bytes read as the unsigned `u`. */
  function Int64Of(u: nat): int64
    requires u < Pow256(8)
  {
    var v := SignedField(u, 8);
    Int64Range(v);
    v
  }

  /** The `int` whose four bytes read as the unsigned `u`. */
  function Int32Of(u: nat): int32
    requires u < Pow256(4)
  {
    var v := SignedField(u, 4);
    Int32Range(v);
    v
  }

  /** Writing a signed value out as its two's complement bytes and reading them back gives the value. */
  lemma SignedRoundTrip(v: int, n: nat)
    requires n > 0 && 0 <= 2 * v + Pow256(n) && 2 * v < Pow256(n)
    ensures SignedField(Unsigned(v, n), n) == v
  {
    TwosComplementRoundTrip(v, n);
  }
}
