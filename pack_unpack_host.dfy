/**
 * `PackUnpack` of pack_unpack.cpp: the payload is the raw object
 * representation of the value, copied with `insert` and `memcpy`, so
 * multi-byte fields are in the host's byte order.  The byte order is the
 * parameter `host`.  The buffer is a `seq<uint8>` and the cursor `pos`,
 * passed by reference, is returned as `pos'`.
 */
module PackUnpackHost {
  import opened Wrappers
  import opened Bytes
  import opened BinaryTypes
  import PackUnpackHeader

  /**
   * The bytes `pack` produces: the tag, then the object representation of
   * the payload: eight bytes for `json_int_t` and `double`, one for `bool`,
   * a four-byte `uint32_t` length and the characters for a string, nothing
   * for null, and the four bytes of an `int` for an error code.
   */
  function EncodedHost(host: Endian, item: Item): (buf: seq<uint8>)
    ensures |buf| >= 1 && buf[0] == TagByte(item.Type())
    ensures item.IntegerItem? || item.RealItem? ==> |buf| == 9
    ensures item.BooleanItem? ==> buf == [TagByte(Boolean), if item.b then 1 else 0]
    ensures item.StringItem? ==> |buf| == 5 + |item.s| && buf[5..] == item.s
    ensures item.NullItem? ==> |buf| == 1
    ensures item.ErrorItem? ==> |buf| == 5
  {
    match item
    case IntegerItem(v) => [TagByte(Integer)] + ToBytes(host, Unsigned(v, 8), 8)
    case RealItem(bits) => [TagByte(Real)] + ToBytes(host, bits, 8)
    case BooleanItem(b) => [TagByte(Boolean)] + [if b then 1 else 0]
    case StringItem(s) => [TagByte(String)] + ToBytes(host, |s| % 0x1_0000_0000, 4) + s
    case NullItem => [TagByte(Null)]
    case ErrorItem(code) => [TagByte(Error)] + ToBytes(host, Unsigned(code, 4), 4)
  }

  /**
   * What `unpack` makes of the bytes at `pos`: the value and the advanced
   * cursor, or the exception and the cursor as far as it got.  A `bool`
   * copied from a byte other than 0 or 1 is read as true.
   */
  function DecodedHost(host: Endian, buffer: seq<uint8>, pos: nat): (r: Unpacked)
    ensures r.0.Ok? ==> pos < r.1 <= |buffer|
  {
    if pos >= |buffer| then (Err(NoMoreData), pos)
    else
      var p := pos + 1;
      match TagType(buffer[pos])
      case Some(Integer) =>
        if p + 8 > |buffer| then (Err(BufferTooSmall), p)
        else
          FromBytesBound(host, buffer[p..p + 8]);
          (Ok(IntegerItem(Int64Of(FromBytes(host, buffer[p..p + 8])))), p + 8)
      case Some(Real) =>
        if p + 8 > |buffer| then (Err(BufferTooSmall), p)
        else
          FromBytesBound(host, buffer[p..p + 8]);
          Pow256Values();
          (Ok(RealItem(FromBytes(host, buffer[p..p + 8]))), p + 8)
      case Some(Boolean) =>
        if p + 1 > |buffer| then (Err(BufferTooSmall), p)
        else (Ok(BooleanItem(buffer[p] != 0)), p + 1)
      case Some(String) =>
        if p + 4 > |buffer| then (Err(BufferTooSmall), p)
        else
          var length := FromBytes(host, buffer[p..p + 4]);
          var q := p + 4;
          if q + length > |buffer| then (Err(StringTooLong), q)
          else (Ok(StringItem(buffer[q..q + length])), q + length)
      case Some(Null) => (Ok(NullItem), p)
      case Some(Error) =>
        if p + 4 > |buffer| then (Err(BufferTooSmall), p)
        else
          FromBytesBound(host, buffer[p..p + 4]);
          (Ok(ErrorItem(Int32Of(FromBytes(host, buffer[p..p + 4])))), p + 4)
      case None => (Err(UnsupportedType), p)
  }

  /** `detail::append_to_buffer`: inserts the `n` bytes of an object holding `x` at the end. */
  method AppendToBuffer(buffer: seq<uint8>, host: Endian, x: nat, n: nat) returns (buffer': seq<uint8>)
    ensures buffer' == buffer + ToBytes(host, x, n)
  {
    buffer' := buffer + ToBytes(host, x, n);
  }

  /**
   * `detail::read_from_buffer`: the `size` bytes at `pos` and the cursor
   * past them, or "Buffer too small" with the cursor where it was.
   */
  method ReadFromBuffer(buffer: seq<uint8>, pos: nat, size: nat) returns (r: Result<seq<uint8>, UnpackError>, pos': nat)
    ensures pos + size > |buffer| ==> r == Err(BufferTooSmall) && pos' == pos
    ensures pos + size <= |buffer| ==> r == Ok(buffer[pos..pos + size]) && pos' == pos + size
  {
    if pos + size > |buffer| {
      return Err(BufferTooSmall), pos;
    }
    r := Ok(buffer[pos..pos + size]);
    pos' := pos + size;
  }

  /** `PackUnpack::pack`: the tag, then the payload's bytes. */
  method Pack(host: Endian, item: Item) returns (buffer: seq<uint8>)
    ensures buffer == EncodedHost(host, item)
  {
    buffer := [TagByte(item.Type())];
    match item {
      case IntegerItem(v) =>
        buffer := AppendToBuffer(buffer, host, Unsigned(v, 8), 8);
      case RealItem(bits) =>
        buffer := AppendToBuffer(buffer, host, bits, 8);
      case BooleanItem(b) =>
        buffer := AppendToBuffer(buffer, host, if b then 1 else 0, 1);
        assert ToBytes(host, if b then 1 else 0, 1) == [if b then 1 else 0];
      case StringItem(s) =>
        buffer := AppendToBuffer(buffer, host, |s| % 0x1_0000_0000, 4);
        buffer := buffer + s;
      case NullItem =>
      case ErrorItem(code) =>
        buffer := AppendToBuffer(buffer, host, Unsigned(code, 4), 4);
    }
  }

  /** `PackUnpack::unpack`: reads the tag at `pos`, then the payload it announces. */
  method Unpack(host: Endian, buffer: seq<uint8>, pos: nat) returns (r: Result<Item, UnpackError>, pos': nat)
    ensures (r, pos') == DecodedHost(host, buffer, pos)
  {
    pos' := pos;
    if pos' >= |buffer| {
      return Err(NoMoreData), pos';
    }
    var t := TagType(buffer[pos']);
    pos' := pos' + 1;
    match t {
      case Some(Integer) =>
        var bytes;
        bytes, pos' := ReadFromBuffer(buffer, pos', 8);
        if bytes.Err? {
          return Err(bytes.error), pos';
        }
        FromBytesBound(host, bytes.value);
        r := Ok(IntegerItem(Int64Of(FromBytes(host, bytes.value))));
      case Some(Real) =>
        var bytes;
        bytes, pos' := ReadFromBuffer(buffer, pos', 8);
        if bytes.Err? {
          return Err(bytes.error), pos';
        }
        FromBytesBound(host, bytes.value);
        Pow256Values();
        r := Ok(RealItem(FromBytes(host, bytes.value)));
      case Some(Boolean) =>
        var bytes;
        bytes, pos' := ReadFromBuffer(buffer, pos', 1);
        if bytes.Err? {
          return Err(bytes.error), pos';
        }
        r := Ok(BooleanItem(bytes.value[0] != 0));
      case Some(String) =>
        var bytes;
        bytes, pos' := ReadFromBuffer(buffer, pos', 4);
        if bytes.Err? {
          return Err(bytes.error), pos';
        }
        var length := FromBytes(host, bytes.value);
        if pos' + length > |buffer| {
          return Err(StringTooLong), pos';
        }
        r := Ok(StringItem(buffer[pos'..pos' + length]));
        pos' := pos' + length;
      case Some(Null) =>
        r := Ok(NullItem);
      case Some(Error) =>
        var bytes;
        bytes, pos' := ReadFromBuffer(buffer, pos', 4);
        if bytes.Err? {
          return Err(bytes.error), pos';
        }
        FromBytesBound(host, bytes.value);
        r := Ok(ErrorItem(Int32Of(FromBytes(host, bytes.value))));
      case None =>
        r := Err(UnsupportedType);
    }
  }

  /**
   * With the byte order fixed, `unpack` reads back what `pack` wrote,
   * whatever follows it, and moves past exactly those bytes.  Unlike the
   * header version, an error code survives the round trip.  Strings must
   * be shorter than 2^32 bytes.
   */
  lemma HostPackThenUnpack(host: Endian, item: Item, rest: seq<uint8>)
    requires item.StringItem? ==> |item.s| < 0x1_0000_0000
    ensures DecodedHost(host, EncodedHost(host, item) + rest, 0) == (Ok(item), |EncodedHost(host, item)|)
  {
    match item
    case IntegerItem(v) => HostIntegerThenUnpack(host, v, rest);
    case RealItem(bits) => HostRealThenUnpack(host, bits, rest);
    case StringItem(s) => HostStringThenUnpack(host, s, rest);
    case ErrorItem(code) => HostErrorThenUnpack(host, code, rest);
    case _ =>
  }

  lemma HostIntegerThenUnpack(host: Endian, v: int64, rest: seq<uint8>)
    ensures DecodedHost(host, EncodedHost(host, IntegerItem(v)) + rest, 0) == (Ok(IntegerItem(v)), 9)
  {
    var field := ToBytes(host, Unsigned(v, 8), 8);
    var buf := [TagByte(Integer)] + field + rest;
    assert buf[1..9] == field;
    assert FromBytes(host, field) == Unsigned(v, 8) by {
      BytesRoundTrip(host, Unsigned(v, 8), 8);
    }
    Pow256Values();
    SignedRoundTrip(v, 8);
  }

  lemma HostRealThenUnpack(host: Endian, bits: uint64, rest: seq<uint8>)
    ensures DecodedHost(host, EncodedHost(host, RealItem(bits)) + rest, 0) == (Ok(RealItem(bits)), 9)
  {
    var field := ToBytes(host, bits, 8);
    var buf := [TagByte(Real)] + field + rest;
    assert buf[1..9] == field;
    assert FromBytes(host, field) == bits by {
      Pow256Values();
      BytesRoundTrip(host, bits, 8);
    }
  }

  lemma HostStringThenUnpack(host: Endian, s: seq<uint8>, rest: seq<uint8>)
    requires |s| < 0x1_0000_0000
    ensures DecodedHost(host, EncodedHost(host, StringItem(s)) + rest, 0) == (Ok(StringItem(s)), 5 + |s|)
  {
    var len := ToBytes(host, |s|, 4);
    assert EncodedHost(host, StringItem(s)) == [TagByte(String)] + len + s by {
      assert |s| % 0x1_0000_0000 == |s|;
    }
    var buf := [TagByte(String)] + len + s + rest;
    assert buf[1..5] == len && buf[5..5 + |s|] == s;
    assert FromBytes(host, len) == |s| by {
      Pow256Values();
      BytesRoundTrip(host, |s|, 4);
    }
  }

  lemma HostErrorThenUnpack(host: Endian, code: int32, rest: seq<uint8>)
    ensures DecodedHost(host, EncodedHost(host, ErrorItem(code)) + rest, 0) == (Ok(ErrorItem(code)), 5)
  {
    var field := ToBytes(host, Unsigned(code, 4), 4);
    var buf := [TagByte(Error)] + field + rest;
    assert buf[1..5] == field;
    assert FromBytes(host, field) == Unsigned(code, 4) by {
      BytesRoundTrip(host, Unsigned(code, 4), 4);
    }
    Pow256Values();
    SignedRoundTrip(code, 4);
  }

  /**
   * On a big-endian host the two versions write the same bytes for every
   * value but an error code, which only this version writes out.
   */
  lemma BigEndianHostAgrees(item: Item)
    ensures !item.ErrorItem? ==> EncodedHost(Big, item) == PackUnpackHeader.Encoded(item)
    ensures item.ErrorItem? ==> EncodedHost(Big, item)[..1] == PackUnpackHeader.Encoded(item)
  {
  }
}
