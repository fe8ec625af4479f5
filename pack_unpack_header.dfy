/**
 * `PackUnpack` of pack_unpack.hpp: every multi-byte field is written most
 * significant byte first with explicit shifts, and read back the same way.
 * The buffer is a `std::vector<std::byte>`, here a `seq<uint8>`; the cursor
 * `pos`, passed by reference, is returned as `pos'`.
 */
module PackUnpackHeader {
  import opened Wrappers
  import opened Bytes
  import opened BinaryTypes

  /**
   * The bytes `pack` produces: the tag, then the payload.  A string's length
   * field holds `size()` reduced to 32 bits (each shifted byte is cast to
   * `std::byte`), and the error tag carries nothing.
   */
  function Encoded(item: Item): (buf: seq<uint8>)
    ensures |buf| >= 1 && buf[0] == TagByte(item.Type())
    ensures item.IntegerItem? || item.RealItem? ==> |buf| == 9
    ensures item.BooleanItem? ==> buf == [TagByte(Boolean), if item.b then 1 else 0]
    ensures item.StringItem? ==> |buf| == 5 + |item.s| && buf[5..] == item.s
    ensures item.NullItem? || item.ErrorItem? ==> |buf| == 1
  {
    match item
    case IntegerItem(v) => [TagByte(Integer)] + BigEndian(Unsigned(v, 8), 8)
    case RealItem(bits) => [TagByte(Real)] + BigEndian(bits, 8)
    case BooleanItem(b) => [TagByte(Boolean), if b then 1 else 0]
    case StringItem(s) => [TagByte(String)] + BigEndian(|s| % 0x1_0000_0000, 4) + s
    case NullItem => [TagByte(Null)]
    case ErrorItem(_) => [TagByte(Error)]
  }

  /**
   * What `unpack` makes of the bytes at `pos`: the decoded value and the
   * advanced cursor, or the exception and the cursor as far as it got (the
   * tag is consumed before the payload is checked).
   */
  function Decoded(buffer: seq<uint8>, pos: nat): (r: Unpacked)
    ensures r.0.Ok? ==> pos < r.1 <= |buffer|
  {
    if pos >= |buffer| then (Err(BufferOverflow), pos)
    else
      var p := pos + 1;
      match TagType(buffer[pos])
      case Some(Integer) =>
        if p + 8 > |buffer| then (Err(BufferOverflow), p)
        else
          FromBigEndianBound(buffer[p..p + 8]);
          (Ok(IntegerItem(Int64Of(FromBigEndian(buffer[p..p + 8])))), p + 8)
      case Some(Real) =>
        if p + 8 > |buffer| then (Err(BufferOverflow), p)
        else
          FromBigEndianBound(buffer[p..p + 8]);
          Pow256Values();
          (Ok(RealItem(FromBigEndian(buffer[p..p + 8]))), p + 8)
      case Some(Boolean) =>
        if p >= |buffer| then (Err(BufferOverflow), p)
        else (Ok(BooleanItem(buffer[p] != 0)), p + 1)
      case Some(String) =>
        if p + 4 > |buffer| then (Err(BufferOverflow), p)
        else
          var length := FromBigEndian(buffer[p..p + 4]);
          var q := p + 4;
          if q + length > |buffer| then (Err(BufferOverflow), q)
          else (Ok(StringItem(buffer[q..q + length])), q + length)
      case Some(Null) => (Ok(NullItem), p)
      case Some(Error) => (Err(JsonError), p)
      case None => (Err(UnknownBinaryType), p)
  }

  /** `static_cast<std::byte>(v >> k)`: the arithmetic shift floors, the cast keeps the low eight bits. */
  function ShiftedByte(v: int, bytes: nat): uint8
  {
    (v / Pow256(bytes)) % 256
  }

  /** `PackUnpack::pack`: pushes the tag, then the payload byte by byte. */
  method Pack(item: Item) returns (buffer: seq<uint8>)
    ensures buffer == Encoded(item)
  {
    match item {
      case IntegerItem(v) =>
        buffer := PackInteger(v);
      case RealItem(bits) =>
        buffer := PackReal(bits);
      case BooleanItem(b) =>
        buffer := [];
        buffer := buffer + [TagByte(Boolean)];
        buffer := buffer + [if b then 1 else 0];
      case StringItem(s) =>
        buffer := PackString(s);
      case NullItem =>
        buffer := [];
        buffer := buffer + [TagByte(Null)];
      case ErrorItem(_) =>
        buffer := [];
        buffer := buffer + [TagByte(Error)];
    }
  }

  /** The `Integer` case: eight explicit shifts of the signed value. */
  method PackInteger(v: int64) returns (buffer: seq<uint8>)
    ensures buffer == Encoded(IntegerItem(v))
  {
    buffer := [];
    buffer := buffer + [TagByte(Integer)];
    buffer := buffer + [ShiftedByte(v, 7)];
    buffer := buffer + [ShiftedByte(v, 6)];
    buffer := buffer + [ShiftedByte(v, 5)];
    buffer := buffer + [ShiftedByte(v, 4)];
    buffer := buffer + [ShiftedByte(v, 3)];
    buffer := buffer + [ShiftedByte(v, 2)];
    buffer := buffer + [ShiftedByte(v, 1)];
    buffer := buffer + [ShiftedByte(v, 0)];
    ShiftedBytesAreBigEndian(v, 8, buffer[1..]);
  }

  /** The `Real` case: a loop over the eight bytes of the bit pattern. */
  method PackReal(bits: uint64) returns (buffer: seq<uint8>)
    ensures buffer == Encoded(RealItem(bits))
  {
    buffer := [];
    buffer := buffer + [TagByte(Real)];
    for i := 0 to 8
      invariant |buffer| == 1 + i && buffer[0] == TagByte(Real)
      invariant buffer[1..] == BigEndian(bits, 8)[..i]
    {
      BigEndianAt(bits, 8, i);
      buffer := buffer + [ShiftedByte(bits, 7 - i)];
    }
  }

  /** The `String` case: four shifted bytes of `size()`, then the characters. */
  method PackString(s: seq<uint8>) returns (buffer: seq<uint8>)
    ensures buffer == Encoded(StringItem(s))
  {
    var size := |s|;
    buffer := [];
    buffer := buffer + [TagByte(String)];
    buffer := buffer + [ShiftedByte(size, 3)];
    buffer := buffer + [ShiftedByte(size, 2)];
    buffer := buffer + [ShiftedByte(size, 1)];
    buffer := buffer + [ShiftedByte(size, 0)];
    ShiftedBytesAreBigEndian(size, 4, buffer[1..]);
    buffer := buffer + s;
  }

  /** The shifted bytes of `v`, most significant first, are the big-endian bytes of its `n`-byte image. */
  lemma ShiftedBytesAreBigEndian(v: int, n: nat, bs: seq<uint8>)
    requires |bs| == n && forall k | 0 <= k < n :: bs[k] == ShiftedByte(v, n - 1 - k)
    ensures bs == BigEndian(Unsigned(v, n), n)
  {
    forall k | 0 <= k < n
      ensures bs[k] == BigEndian(Unsigned(v, n), n)[k]
    {
      BigEndianAt(Unsigned(v, n), n, k);
      ShiftedUnsigned(v, n, n - 1 - k);
    }
  }

  /** Shifting the signed value or its unsigned image gives the same low byte. */
  lemma ShiftedUnsigned(v: int, n: nat, k: nat)
    requires k < n
    ensures ShiftedByte(v, k) == (Unsigned(v, n) / Pow256(k)) % 256
  {
    var p: int, q: int := Pow256(k), Pow256(n - 1 - k);
    PowSplit(k, n - 1 - k);
    var u: int := Unsigned(v, n);
    var m: int := v / Pow256(n);
    var a: int, b: int := u / p, u % p;
    DivMod(v, Pow256(n));
    DivMod(u, p);
    Regroup(p, q, m, a, b);
    DivUnique(v, p, 256 * (q * m) + a, b);
    DivUnique(256 * (q * m) + a, 256, q * m + a / 256, a % 256);
  }

  lemma DivMod(x: int, d: int)
    requires d > 0
    ensures x == d * (x / d) + x % d
  {
  }

  lemma Regroup(p: int, q: int, m: int, a: int, b: int)
    ensures (p * (256 * q)) * m + (p * a + b) == p * (256 * (q * m) + a) + b
  {
    assert (p * (256 * q)) * m == p * (256 * (q * m));
  }

  lemma {:induction false} PowSplit(a: nat, b: nat)
    ensures Pow256(a + b + 1) == Pow256(a) * (256 * Pow256(b))
  {
    if a > 0 {
      PowSplit(a - 1, b);
    }
  }

  /** `PackUnpack::unpack`: reads the tag at `pos`, then the payload it announces. */
  method Unpack(buffer: seq<uint8>, pos: nat) returns (r: Result<Item, UnpackError>, pos': nat)
    ensures (r, pos') == Decoded(buffer, pos)
  {
    pos' := pos;
    if pos' >= |buffer| {
      return Err(BufferOverflow), pos';
    }
    var t := TagType(buffer[pos']);
    pos' := pos' + 1;
    match t {
      case Some(Integer) =>
        if pos' + 8 > |buffer| {
          return Err(BufferOverflow), pos';
        }
        var result := ReadBigEndian(buffer, pos', 8);
        FromBigEndianBound(buffer[pos'..pos' + 8]);
        pos' := pos' + 8;
        // `(result << 8) | byte` wraps in `int64_t`; the final bits read as two's complement.
        r := Ok(IntegerItem(Int64Of(result)));
      case Some(Real) =>
        if pos' + 8 > |buffer| {
          return Err(BufferOverflow), pos';
        }
        var bits := ReadBigEndian(buffer, pos', 8);
        FromBigEndianBound(buffer[pos'..pos' + 8]);
        Pow256Values();
        pos' := pos' + 8;
        r := Ok(RealItem(bits));
      case Some(Boolean) =>
        if pos' >= |buffer| {
          return Err(BufferOverflow), pos';
        }
        r := Ok(BooleanItem(buffer[pos'] != 0));
        pos' := pos' + 1;
      case Some(String) =>
        if pos' + 4 > |buffer| {
          return Err(BufferOverflow), pos';
        }
        var length := ReadBigEndian(buffer, pos', 4);
        pos' := pos' + 4;
        if pos' + length > |buffer| {
          return Err(BufferOverflow), pos';
        }
        r := Ok(StringItem(buffer[pos'..pos' + length]));
        pos' := pos' + length;
      case Some(Null) =>
        r := Ok(NullItem);
      case Some(Error) =>
        r := Err(JsonError);
      case None =>
        r := Err(UnknownBinaryType);
    }
  }

  /** The shift-and-or loop over `n` bytes at `pos`, most significant first. */
  method ReadBigEndian(buffer: seq<uint8>, pos: nat, n: nat) returns (x: nat)
    requires pos + n <= |buffer|
    ensures x == FromBigEndian(buffer[pos..pos + n])
  {
    x := 0;
    for i := 0 to n
      invariant x == FromBigEndian(buffer[pos..pos + i])
    {
      assert buffer[pos..pos + i + 1][..i] == buffer[pos..pos + i];
      x := x * 256 + buffer[pos + i];
    }
  }

  /**
   * `unpack` reads back what `pack` wrote, whatever follows it, and moves
   * past exactly those bytes; the error tag is refused.  Strings must be
   * shorter than 2^32 bytes, the reach of the length field.
   */
  lemma PackThenUnpack(item: Item, rest: seq<uint8>)
    requires item.StringItem? ==> |item.s| < 0x1_0000_0000
    ensures Decoded(Encoded(item) + rest, 0)
         == if item.ErrorItem? then (Err(JsonError), 1) else (Ok(item), |Encoded(item)|)
  {
    match item
    case IntegerItem(v) => IntegerThenUnpack(v, rest);
    case RealItem(bits) => RealThenUnpack(bits, rest);
    case StringItem(s) => StringThenUnpack(s, rest);
    case _ =>
  }

  lemma IntegerThenUnpack(v: int64, rest: seq<uint8>)
    ensures Decoded(Encoded(IntegerItem(v)) + rest, 0) == (Ok(IntegerItem(v)), 9)
  {
    var buf := Encoded(IntegerItem(v)) + rest;
    Pow256Values();
    assert buf[1..9] == BigEndian(Unsigned(v, 8), 8);
    BigEndianRoundTrip(Unsigned(v, 8), 8);
    SignedRoundTrip(v, 8);
  }

  lemma RealThenUnpack(bits: uint64, rest: seq<uint8>)
    ensures Decoded(Encoded(RealItem(bits)) + rest, 0) == (Ok(RealItem(bits)), 9)
  {
    var buf := Encoded(RealItem(bits)) + rest;
    Pow256Values();
    assert buf[1..9] == BigEndian(bits, 8);
    BigEndianRoundTrip(bits, 8);
  }

  lemma StringThenUnpack(s: seq<uint8>, rest: seq<uint8>)
    requires |s| < 0x1_0000_0000
    ensures Decoded(Encoded(StringItem(s)) + rest, 0) == (Ok(StringItem(s)), 5 + |s|)
  {
    var len := BigEndian(|s|, 4);
    assert Encoded(StringItem(s)) == [TagByte(String)] + len + s by {
      assert |s| % 0x1_0000_0000 == |s|;
    }
    var buf := [TagByte(String)] + len + s + rest;
    assert buf[1..5] == len && buf[5..5 + |s|] == s;
    assert FromBigEndian(len) == |s| by {
      Pow256Values();
      BigEndianRoundTrip(|s|, 4);
    }
  }
}
