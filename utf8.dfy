/**
 * utf.cpp: validation, encoding and decoding of UTF-8 held in a
 * `std::string`.  Every character of a string stands for one byte; the
 * byte is what `static_cast<unsigned char>` gives.
 *
 * The validator and the decoder mask every byte of a sequence with 0x3F,
 * the lead byte included.  `SequenceAt` models that arithmetic as it is
 * written; `IntendedSequenceAt` masks the lead byte by the length of the
 * sequence, as UTF-8 (RFC 3629, section 3) prescribes.
 */
module Utf8 {
  import opened Wrappers
  import opened Bytes

  /** The byte a character stands for. */
  function ByteOf(c: char): uint8
  {
    (c as int) % 256
  }

  /**
   * The UTF-8 bytes of `v`: one byte below 0x80, then a lead byte carrying
   * the high bits and 6-bit continuation bytes.  Both `Utf8::encode`
   * (utf.cpp:60-78) and the inline encoder of `parseString`
   * (load.cpp:153-167) compute these bytes with the same shifts and masks.
   */
  function Utf8Of(v: nat): seq<uint8>
  {
    if v <= 0x7F then [v]
    else if v <= 0x7FF then [0xC0 + (v / 64) % 32] + Continuation(v, 1)
    else if v <= 0xFFFF then [0xE0 + (v / 4096) % 16] + Continuation(v, 2)
    else [0xF0 + (v / 262144) % 8] + Continuation(v, 3)
  }

  /** The `n` continuation bytes carrying the low 6n bits of `v`, most significant first. */
  function Continuation(v: nat, n: nat): seq<uint8>
  {
    if n == 0 then [] else Continuation(v / 64, n - 1) + [0x80 + v % 64]
  }

  lemma Utf8Of2(v: nat)
    requires 0x7F < v <= 0x7FF
    ensures Utf8Of(v) == [0xC0 + v / 64, 0x80 + v % 64]
    ensures (v / 64) * 64 + v % 64 == v
  {
    assert Continuation(v, 1) == Continuation(v / 64, 0) + [0x80 + v % 64];
  }

  lemma Utf8Of3(v: nat)
    requires 0x7FF < v <= 0xFFFF
    ensures Utf8Of(v) == [0xE0 + v / 4096, 0x80 + (v / 64) % 64, 0x80 + v % 64]
    ensures (v / 4096) * 4096 + ((v / 64) % 64) * 64 + v % 64 == v
  {
    DivDiv(v, 64, 64);
    var q := v / 64;
    assert Continuation(q, 1) == Continuation(q / 64, 0) + [0x80 + q % 64];
    assert Continuation(v, 2) == Continuation(q, 1) + [0x80 + v % 64];
    assert q == (q / 64) * 64 + q % 64;
    assert v == q * 64 + v % 64;
  }

  lemma Utf8Of4(v: nat)
    requires 0xFFFF < v < 0x20_0000
    ensures Utf8Of(v) == [0xF0 + v / 262144, 0x80 + (v / 4096) % 64, 0x80 + (v / 64) % 64, 0x80 + v % 64]
    ensures (v / 262144) * 262144 + ((v / 4096) % 64) * 4096 + ((v / 64) % 64) * 64 + v % 64 == v
  {
    DivDiv(v, 64, 64);
    DivDiv(v, 4096, 64);
    var q := v / 64;
    var t := v / 4096;
    assert t == q / 64;
    assert Continuation(t, 1) == Continuation(t / 64, 0) + [0x80 + t % 64];
    assert Continuation(q, 2) == Continuation(t, 1) + [0x80 + q % 64];
    assert Continuation(v, 3) == Continuation(q, 2) + [0x80 + v % 64];
    assert v / 262144 == t / 64;
    assert t == (t / 64) * 64 + t % 64;
    assert q == t * 64 + q % 64;
    assert v == q * 64 + v % 64;
  }

  /**
   * The encoder writes 1, 2, 3 or 4 bytes for values up to 0x7F, 0x7FF,
   * 0xFFFF and beyond.  A surrogate half (0xD800-0xDFFF) is encoded on its
   * own as three bytes led by 0xED, so a `\u` surrogate pair becomes two
   * three-byte sequences and is never combined.
   */
  lemma Utf8OfLength(v: nat)
    ensures v <= 0x7F ==> |Utf8Of(v)| == 1
    ensures 0x7F < v <= 0x7FF ==> |Utf8Of(v)| == 2
    ensures 0x7FF < v <= 0xFFFF ==> |Utf8Of(v)| == 3
    ensures 0xFFFF < v ==> |Utf8Of(v)| == 4
    ensures 0xD800 <= v <= 0xDFFF ==> Utf8Of(v)[0] == 0xED
  {
    ContinuationLength(v, 1);
    ContinuationLength(v, 2);
    ContinuationLength(v, 3);
  }

  lemma {:induction false} ContinuationLength(v: nat, n: nat)
    ensures |Continuation(v, n)| == n
  {
    if n > 0 {
      ContinuationLength(v / 64, n - 1);
    }
  }

  /** The characters standing for the bytes `bs`. */
  function ByteChars(bs: seq<uint8>): (s: string)
    ensures |s| == |bs|
  {
    seq(|bs|, k requires 0 <= k < |bs| => bs[k] as char)
  }

  lemma ByteCharsBytes(bs: seq<uint8>)
    ensures forall k | 0 <= k < |bs| :: ByteOf(ByteChars(bs)[k]) == bs[k]
  {
  }

  // ---------------------------------------------------------------------
  // Reading: `isValid` and `decode`.

  /** The length of the sequence a byte leads (utf.cpp:13-23, 90-100); 0 when it cannot lead one. */
  function LeadLength(c: uint8): (len: nat)
    ensures len <= 4
    ensures len == 0 <==> (0x80 <= c <= 0xBF || 0xF5 <= c)
  {
    if c < 0x80 then 1
    else if 0xC0 <= c <= 0xDF then 2
    else if 0xE0 <= c <= 0xEF then 3
    else if 0xF0 <= c <= 0xF4 then 4
    else 0
  }

  predicate IsContinuation(b: uint8)
  {
    0x80 <= b <= 0xBF
  }

  /** Every byte after the lead byte of the `len`-byte sequence at `i` is a continuation byte. */
  predicate ContinuationsOk(s: string, i: nat, len: nat)
    requires i + len <= |s|
  {
    forall p | i + 1 <= p < i + len :: IsContinuation(ByteOf(s[p]))
  }

  /** The shift-and-add loop over the first `n` bytes at `i`, each masked with 0x3F (`cp = (cp << 6) + (b & 0x3F)`). */
  function Masked(s: string, i: nat, n: nat): nat
    requires i + n <= |s|
  {
    if n == 0 then 0 else Masked(s, i, n - 1) * 64 + ByteOf(s[i + n - 1]) % 64
  }

  /** The checks that reject a computed code point: overlong, beyond 0x10FFFF, or a surrogate. */
  predicate Rejected(len: nat, cp: int)
  {
    || (len == 2 && cp < 0x80)
    || (len == 3 && cp < 0x800)
    || (len == 4 && cp < 0x10000)
    || cp > 0x10FFFF
    || (0xD800 <= cp <= 0xDFFF)
  }

  /**
   * The sequence at `i` as the source reads it: its code point and its
   * length, or None for the end of the string, a bad lead byte, a
   * truncated sequence, a bad continuation byte or a rejected value.
   */
  function SequenceAt(s: string, i: nat): (r: Option<(nat, nat)>)
    ensures r.Some? ==> 1 <= r.value.1 <= 4 && i + r.value.1 <= |s|
  {
    if i >= |s| then None
    else
      var len := LeadLength(ByteOf(s[i]));
      if len == 0 || i + len > |s| || !ContinuationsOk(s, i, len) then None
      else
        var cp := Masked(s, i, len);
        if Rejected(len, cp) then None else Some((cp, len))
  }

  /** Every sequence from `i` on reads, one after the other, up to the end. */
  predicate ValidFrom(s: string, i: nat)
    decreases |s| - i
  {
    i >= |s| || (SequenceAt(s, i).Some? && ValidFrom(s, i + SequenceAt(s, i).value.1))
  }

  predicate Valid(s: string)
  {
    ValidFrom(s, 0)
  }

  /** The lead-byte classification shared by `isValid` and `decode`. */
  method SequenceLength(c: uint8) returns (len: nat)
    ensures len == LeadLength(c)
  {
    if c < 0x80 {
      len := 1;
    } else if 0xC0 <= c <= 0xDF {
      len := 2;
    } else if 0xE0 <= c <= 0xEF {
      len := 3;
    } else if 0xF0 <= c <= 0xF4 {
      len := 4;
    } else {
      len := 0;
    }
  }

  /** The loop over the continuation bytes (utf.cpp:30-35, 107-112). */
  method CheckContinuations(str: string, i: nat, len: nat) returns (ok: bool)
    requires 1 <= len && i + len <= |str|
    ensures ok == ContinuationsOk(str, i, len)
  {
    for j := 1 to len
      invariant forall p | i + 1 <= p < i + j :: IsContinuation(ByteOf(str[p]))
    {
      var cont := ByteOf(str[i + j]);
      if !(0x80 <= cont <= 0xBF) {
        assert !IsContinuation(ByteOf(str[i + j]));
        return false;
      }
    }
    return true;
  }

  /** The shift-and-add loop (utf.cpp:38-41, 115-118); the value stays below 2^24, well inside `int32_t`. */
  method Accumulate(str: string, i: nat, len: nat) returns (cp: nat)
    requires i + len <= |str|
    ensures cp == Masked(str, i, len)
  {
    cp := 0;
    for j := 0 to len
      invariant cp == Masked(str, i, j)
    {
      cp := cp * 64 + ByteOf(str[i + j]) % 64;
    }
  }

  /** `Utf8::isValid`. */
  method IsValid(str: string) returns (ok: bool)
    ensures ok == Valid(str)
  {
    var i: nat := 0;
    while i < |str|
      invariant i <= |str|
      invariant Valid(str) == ValidFrom(str, i)
      decreases |str| - i
    {
      var len := SequenceLength(ByteOf(str[i]));
      if len == 0 {
        return false;
      }
      if i + len > |str| {
        return false;
      }
      var cont := CheckContinuations(str, i, len);
      if !cont {
        return false;
      }
      var cp := Accumulate(str, i, len);
      if len == 2 && cp < 0x80 {
        return false;
      }
      if len == 3 && cp < 0x800 {
        return false;
      }
      if len == 4 && cp < 0x10000 {
        return false;
      }
      if cp > 0x10FFFF {
        return false;
      }
      if cp >= 0xD800 && cp <= 0xDFFF {
        return false;
      }
      i := i + len;
    }
    return true;
  }

  /**
   * `Utf8::decode`: the code point at `index` and the index after it; on
   * failure nothing and the index unchanged.
   */
  method Decode(str: string, index: nat) returns (r: Option<nat>, index': nat)
    ensures SequenceAt(str, index).None? ==> r.None? && index' == index
    ensures SequenceAt(str, index).Some? ==>
      r == Some(SequenceAt(str, index).value.0) && index' == index + SequenceAt(str, index).value.1
  {
    index' := index;
    if index >= |str| {
      return None, index';
    }
    var len := SequenceLength(ByteOf(str[index]));
    if len == 0 {
      return None, index';
    }
    if index + len > |str| {
      return None, index';
    }
    var cont := CheckContinuations(str, index, len);
    if !cont {
      return None, index';
    }
    var cp := Accumulate(str, index, len);
    if (len == 2 && cp < 0x80) || (len == 3 && cp < 0x800) || (len == 4 && cp < 0x10000)
      || cp > 0x10FFFF || (cp >= 0xD800 && cp <= 0xDFFF)
    {
      return None, index';
    }
    index' := index + len;
    return Some(cp), index';
  }

  /**
   * `isValid("")` holds, and a string is not valid from `i` when the byte
   * there cannot lead a sequence, when the sequence it leads runs past the
   * end, or when one of its continuation bytes lies outside 0x80-0xBF.
   */
  lemma ValidRejects(s: string, i: nat, p: nat)
    requires i < |s|
    ensures Valid("")
    ensures (0x80 <= ByteOf(s[i]) <= 0xBF || 0xF5 <= ByteOf(s[i])) ==> !ValidFrom(s, i)
    ensures i + LeadLength(ByteOf(s[i])) > |s| ==> !ValidFrom(s, i)
    ensures i < p < i + LeadLength(ByteOf(s[i])) <= |s| && !IsContinuation(ByteOf(s[p])) ==> !ValidFrom(s, i)
  {
  }

  /**
   * The lead byte of a four-byte sequence (0xF0-0xF4) keeps its bits 0x30
   * under the 0x3F mask, so the computed value is at least 0xC00000, beyond
   * 0x10FFFF: no four-byte sequence is ever accepted.
   */
  lemma FourByteRejected(s: string, i: nat)
    requires i + 4 <= |s| && 0xF0 <= ByteOf(s[i]) <= 0xF4
    ensures Masked(s, i, 4) >= 0xC0_0000
    ensures SequenceAt(s, i).None? && !ValidFrom(s, i)
  {
    assert Masked(s, i, 1) >= 0x30;
    assert Masked(s, i, 2) >= 0xC00;
    assert Masked(s, i, 3) >= 0x3_0000;
  }

  /** A one-byte character reads as its low six bits: 'A' (0x41) reads as 0x01. */
  lemma AsciiMasked(c: char)
    requires ByteOf(c) < 0x80
    ensures SequenceAt([c], 0) == Some((ByteOf(c) % 64, 1))
    ensures ByteOf(c) >= 0x40 ==> SequenceAt([c], 0) != Some((ByteOf(c), 1))
  {
    assert Masked([c], 0, 1) == ByteOf(c) % 64;
  }

  /** Below 0x40, and from 0x80 to 0x7FF, decoding the encoded bytes gives the code point back. */
  lemma EncodeDecodeExact(cp: nat)
    requires cp < 0x40 || 0x80 <= cp < 0x800
    ensures SequenceAt(ByteChars(Utf8Of(cp)), 0) == Some((cp, |Utf8Of(cp)|))
  {
    var s := ByteChars(Utf8Of(cp));
    ByteCharsBytes(Utf8Of(cp));
    if cp >= 0x80 {
      Utf8Of2(cp);
      assert Masked(s, 0, 1) == cp / 64;
      assert Masked(s, 0, 2) == cp;
    } else {
      assert Masked(s, 0, 1) == cp;
    }
  }

  /**
   * Every three-byte encoding (0x800-0xFFFF) reads 0x20000 too high: the
   * lead byte 0xE0-0xEF keeps its bit 0x20 under the 0x3F mask.  The value
   * read is never rejected, so the overlong and surrogate checks of the
   * three-byte case never fire; the encoded surrogate 0xD800 is valid.
   */
  lemma ThreeByteOffset(cp: nat)
    requires 0x800 <= cp <= 0xFFFF
    ensures SequenceAt(ByteChars(Utf8Of(cp)), 0) == Some((cp + 0x2_0000, 3))
    ensures Valid(ByteChars(Utf8Of(cp)))
  {
    var s := ByteChars(Utf8Of(cp));
    ByteCharsBytes(Utf8Of(cp));
    Utf8Of3(cp);
    assert Masked(s, 0, 1) == 0x20 + cp / 4096;
    assert Masked(s, 0, 2) == (0x20 + cp / 4096) * 64 + (cp / 64) % 64;
    assert Masked(s, 0, 3) == cp + 0x2_0000;
    assert ValidFrom(s, 3);
  }

  /** The bits a lead byte contributes in UTF-8: 7, 5, 4 or 3 by the length of its sequence. */
  function LeadBits(c: uint8, len: nat): nat
  {
    if len == 1 then c % 128 else if len == 2 then c % 32 else if len == 3 then c % 16 else c % 8
  }

  /** The lead byte's bits followed by the six-bit payloads of the `n` continuation bytes after it. */
  function Payload(s: string, i: nat, len: nat, n: nat): nat
    requires i + n < |s|
  {
    if n == 0 then LeadBits(ByteOf(s[i]), len) else Payload(s, i, len, n - 1) * 64 + ByteOf(s[i + n]) % 64
  }

  /** The sequence at `i` with the lead byte masked by the length of its sequence. */
  function IntendedSequenceAt(s: string, i: nat): (r: Option<(nat, nat)>)
    ensures r.Some? ==> 1 <= r.value.1 <= 4 && i + r.value.1 <= |s|
  {
    if i >= |s| then None
    else
      var len := LeadLength(ByteOf(s[i]));
      if len == 0 || i + len > |s| || !ContinuationsOk(s, i, len) then None
      else
        var cp := Payload(s, i, len, len - 1);
        if Rejected(len, cp) then None else Some((cp, len))
  }

  /**
   * With the lead byte masked by length, every code point up to 0x10FFFF
   * reads back from its encoding, and exactly the surrogates are refused.
   */
  lemma IntendedRoundTrip(cp: nat)
    requires cp <= 0x10FFFF
    ensures IntendedSequenceAt(ByteChars(Utf8Of(cp)), 0)
         == if 0xD800 <= cp <= 0xDFFF then None else Some((cp, |Utf8Of(cp)|))
  {
    var s := ByteChars(Utf8Of(cp));
    ByteCharsBytes(Utf8Of(cp));
    Utf8OfLength(cp);
    if cp < 0x80 {
      assert Payload(s, 0, 1, 0) == cp;
    } else if cp < 0x800 {
      IntendedTwoBytes(cp);
    } else if cp < 0x10000 {
      IntendedThreeBytes(cp);
    } else {
      IntendedFourBytes(cp);
    }
  }

  lemma IntendedTwoBytes(cp: nat)
    requires 0x80 <= cp < 0x800
    ensures |Utf8Of(cp)| == 2 && Payload(ByteChars(Utf8Of(cp)), 0, 2, 1) == cp
    ensures IntendedSequenceAt(ByteChars(Utf8Of(cp)), 0) == Some((cp, 2))
  {
    Utf8OfLength(cp);
    var s := ByteChars(Utf8Of(cp));
    ByteCharsBytes(Utf8Of(cp));
    Utf8Of2(cp);
    assert Payload(s, 0, 2, 0) == cp / 64;
  }

  lemma IntendedThreeBytes(cp: nat)
    requires 0x800 <= cp < 0x10000
    ensures |Utf8Of(cp)| == 3 && Payload(ByteChars(Utf8Of(cp)), 0, 3, 2) == cp
    ensures IntendedSequenceAt(ByteChars(Utf8Of(cp)), 0) == if 0xD800 <= cp <= 0xDFFF then None else Some((cp, 3))
  {
    Utf8OfLength(cp);
    var s := ByteChars(Utf8Of(cp));
    ByteCharsBytes(Utf8Of(cp));
    Utf8Of3(cp);
    assert Payload(s, 0, 3, 0) == cp / 4096;
    assert Payload(s, 0, 3, 1) == (cp / 4096) * 64 + (cp / 64) % 64;
  }

  lemma IntendedFourBytes(cp: nat)
    requires 0x10000 <= cp <= 0x10FFFF
    ensures |Utf8Of(cp)| == 4 && Payload(ByteChars(Utf8Of(cp)), 0, 4, 3) == cp
    ensures IntendedSequenceAt(ByteChars(Utf8Of(cp)), 0) == Some((cp, 4))
  {
    var bs := Utf8Of(cp);
    var s := ByteChars(bs);
    FourBytePayload(cp);
    assert LeadLength(ByteOf(s[0])) == 4 && ContinuationsOk(s, 0, 4) by {
      ByteCharsBytes(bs);
      Utf8Of4(cp);
      assert ByteOf(s[0]) == bs[0] == 0xF0 + cp / 262144;
      assert IsContinuation(ByteOf(s[1])) && IsContinuation(ByteOf(s[2])) && IsContinuation(ByteOf(s[3]));
    }
    assert !Rejected(4, cp);
  }

  /** The four-byte encoding's lead bits and continuation payloads put back together give the code point. */
  lemma FourBytePayload(cp: nat)
    requires 0x10000 <= cp <= 0x10FFFF
    ensures |Utf8Of(cp)| == 4 && Payload(ByteChars(Utf8Of(cp)), 0, 4, 3) == cp
  {
    Utf8OfLength(cp);
    var s := ByteChars(Utf8Of(cp));
    ByteCharsBytes(Utf8Of(cp));
    Utf8Of4(cp);
    var a, b, c, d := cp / 262144, (cp / 4096) % 64, (cp / 64) % 64, cp % 64;
    PayloadOfFour(s, a, b, c, d);
  }

  lemma PayloadOfFour(s: string, a: nat, b: nat, c: nat, d: nat)
    requires |s| == 4 && a < 8 && b < 64 && c < 64 && d < 64
    requires ByteOf(s[0]) == 0xF0 + a && ByteOf(s[1]) == 0x80 + b && ByteOf(s[2]) == 0x80 + c && ByteOf(s[3]) == 0x80 + d
    ensures Payload(s, 0, 4, 3) == a * 262144 + b * 4096 + c * 64 + d
  {
    assert Payload(s, 0, 4, 0) == a;
    assert Payload(s, 0, 4, 1) == a * 64 + b;
    assert Payload(s, 0, 4, 2) == (a * 64 + b) * 64 + c;
  }

  // ---------------------------------------------------------------------
  // Writing: `encode`.

  /** `std::out_of_range("Code point out of range")`. */
  datatype EncodeError = CodePointOutOfRange

  /**
   * `Utf8::encode`: appends the bytes of `cp` to `out` and returns their
   * number; a value outside 0..0x10FFFF throws before anything is written.
   */
  method Encode(cp: int32, out: string) returns (r: Result<nat, EncodeError>, out': string)
    ensures (cp < 0 || cp > 0x10FFFF) ==> r == Err(CodePointOutOfRange) && out' == out
    ensures 0 <= cp <= 0x10FFFF ==> r == Ok(|Utf8Of(cp)|) && out' == out + ByteChars(Utf8Of(cp))
  {
    if cp < 0 || cp > 0x10FFFF {
      return Err(CodePointOutOfRange), out;
    }
    out' := out;
    if cp < 0x80 {
      out' := out' + [cp as char];
      r := Ok(1);
    } else if cp < 0x800 {
      EncodeChars2(cp);
      out' := out' + [(0xC0 + (cp / 64) % 32) as char];
      out' := out' + [(0x80 + cp % 64) as char];
      r := Ok(2);
    } else if cp < 0x10000 {
      EncodeChars3(cp);
      out' := out' + [(0xE0 + (cp / 4096) % 16) as char];
      out' := out' + [(0x80 + (cp / 64) % 64) as char];
      out' := out' + [(0x80 + cp % 64) as char];
      r := Ok(3);
    } else {
      EncodeChars4(cp);
      out' := out' + [(0xF0 + (cp / 262144) % 8) as char];
      out' := out' + [(0x80 + (cp / 4096) % 64) as char];
      out' := out' + [(0x80 + (cp / 64) % 64) as char];
      out' := out' + [(0x80 + cp % 64) as char];
      r := Ok(4);
    }
  }

  /** The two characters the two-byte branch of `encode` appends. */
  lemma EncodeChars2(cp: int32)
    requires 0x80 <= cp < 0x800
    ensures |Utf8Of(cp)| == 2
    ensures ByteChars(Utf8Of(cp)) == [(0xC0 + (cp / 64) % 32) as char, (0x80 + cp % 64) as char]
  {
    Utf8Of2(cp as nat);
  }

  /** The three characters the three-byte branch of `encode` appends. */
  lemma EncodeChars3(cp: int32)
    requires 0x800 <= cp < 0x10000
    ensures |Utf8Of(cp)| == 3
    ensures ByteChars(Utf8Of(cp))
         == [(0xE0 + (cp / 4096) % 16) as char, (0x80 + (cp / 64) % 64) as char, (0x80 + cp % 64) as char]
  {
    Utf8Of3(cp as nat);
  }

  /** The four characters the four-byte branch of `encode` appends. */
  lemma EncodeChars4(cp: int32)
    requires 0x10000 <= cp <= 0x10FFFF
    ensures |Utf8Of(cp)| == 4
    ensures ByteChars(Utf8Of(cp))
         == [(0xF0 + (cp / 262144) % 8) as char, (0x80 + (cp / 4096) % 64) as char,
             (0x80 + (cp / 64) % 64) as char, (0x80 + cp % 64) as char]
  {
    Utf8Of4(cp as nat);
  }
}
