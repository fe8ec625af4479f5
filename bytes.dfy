/**
 * Fixed-width integers and their byte images.  The C++ code stores integers
 * in `std::byte` vectors either most significant byte first (explicit
 * shifts) or in the host's byte order (`memcpy`); both orders are defined
 * here once, with their decoders and round-trip lemmas.
 */
module Bytes {

  type uint8 = x: int | 0 <= x < 0x100
  type uint32 = x: int | 0 <= x < 0x1_0000_0000
  type uint64 = x: int | 0 <= x < 0x1_0000_0000_0000_0000
  type int32 = x: int | -0x8000_0000 <= x < 0x8000_0000
  type int64 = x: int | -0x8000_0000_0000_0000 <= x < 0x8000_0000_0000_0000

  /** Byte order of a multi-byte field. */
  datatype Endian = Little | Big

  function Pow256(n: nat): (r: nat)
    ensures r > 0
  {
    if n == 0 then 1 else 256 * Pow256(n - 1)
  }

  lemma Pow256Values()
    ensures Pow256(1) == 0x100 && Pow256(4) == 0x1_0000_0000
    ensures Pow256(8) == 0x1_0000_0000_0000_0000
  {
    assert Pow256(2) == 0x1_0000;
    assert Pow256(3) == 0x100_0000;
    assert Pow256(5) == 0x100_0000_0000;
    assert Pow256(6) == 0x1_0000_0000_0000;
    assert Pow256(7) == 0x100_0000_0000_0000;
  }

  /** The low `n` bytes of `x`, most significant first. */
  function BigEndian(x: nat, n: nat): (r: seq<uint8>)
    ensures |r| == n
  {
    if n == 0 then [] else BigEndian(x / 256, n - 1) + [x % 256]
  }

  /** The number whose bytes, most significant first, are `bs`. */
  function FromBigEndian(bs: seq<uint8>): nat
  {
    if bs == [] then 0 else FromBigEndian(bs[..|bs| - 1]) * 256 + bs[|bs| - 1]
  }

  /** The low `n` bytes of `x`, least significant first. */
  function LittleEndian(x: nat, n: nat): (r: seq<uint8>)
    ensures |r| == n
  {
    if n == 0 then [] else [x % 256] + LittleEndian(x / 256, n - 1)
  }

  /** The number whose bytes, least significant first, are `bs`. */
  function FromLittleEndian(bs: seq<uint8>): nat
  {
    if bs == [] then 0 else bs[0] + 256 * FromLittleEndian(bs[1..])
  }

  /** The bytes `memcpy` copies out of an `n`-byte unsigned object holding `x`. */
  function ToBytes(order: Endian, x: nat, n: nat): (r: seq<uint8>)
    ensures |r| == n
  {
    match order
    case Little => LittleEndian(x, n)
    case Big => BigEndian(x, n)
  }

  /** The unsigned value `memcpy` rebuilds from the bytes `bs`. */
  function FromBytes(order: Endian, bs: seq<uint8>): nat
  {
    match order
    case Little => FromLittleEndian(bs)
    case Big => FromBigEndian(bs)
  }

  lemma MulPositive(d: int, k: int)
    requires d > 0 && k > 0
    ensures d * k >= d
  {
    assert d * k == d * (k - 1) + d;
    assert d * (k - 1) >= 0;
  }

  lemma DivUnique(x: int, d: int, q: int, r: int)
    requires d > 0 && 0 <= r < d && x == d * q + r
    ensures x / d == q && x % d == r
  {
    var q', r' := x / d, x % d;
    assert d * q' + r' == d * q + r;
    if q' < q {
      assert d * (q - q') == r' - r;
      MulPositive(d, q - q');
    } else if q' > q {
      assert d * (q' - q) == r - r';
      MulPositive(d, q' - q);
    }
  }

  lemma MulNonNegative(a: int, b: int)
    requires a >= 0 && b >= 0
    ensures a * b >= 0
  {
  }

  lemma MulDistributes(a: int, b: int, q: int, r: int)
    ensures a * (b * q + r) == (a * b) * q + a * r
  {
  }

  lemma DivDiv(x: nat, a: nat, b: nat)
    requires a > 0 && b > 0
    ensures x / a / b == x / (a * b)
  {
    var q, r := x / a, x % a;
    var q2, r2 := q / b, q % b;
    assert x == a * q + r;
    assert q == b * q2 + r2;
    MulDistributes(a, b, q2, r2);
    MulNonNegative(a, b - 1 - r2);
    assert a * (b - 1 - r2) == a * b - a - a * r2;
    DivUnique(x, a * b, q2, a * r2 + r);
  }

  lemma {:induction false} BigEndianRoundTrip(x: nat, n: nat)
    requires x < Pow256(n)
    ensures FromBigEndian(BigEndian(x, n)) == x
  {
    if n > 0 {
      FromBigEndianSnoc(BigEndian(x / 256, n - 1), x % 256);
      QuotientBound(x, Pow256(n - 1));
      BigEndianRoundTrip(x / 256, n - 1);
    }
  }

  lemma FromBigEndianSnoc(hi: seq<uint8>, b: uint8)
    ensures FromBigEndian(hi + [b]) == FromBigEndian(hi) * 256 + b
  {
    assert (hi + [b])[..|hi|] == hi;
  }

  lemma QuotientBound(x: nat, p: nat)
    requires x < 256 * p
    ensures x / 256 < p
  {
  }

  lemma {:induction false} LittleEndianRoundTrip(x: nat, n: nat)
    requires x < Pow256(n)
    ensures FromLittleEndian(LittleEndian(x, n)) == x
  {
    if n > 0 {
      var bs := LittleEndian(x, n);
      assert bs[1..] == LittleEndian(x / 256, n - 1);
      LittleEndianRoundTrip(x / 256, n - 1);
    }
  }

  /** Whatever the host's byte order, reading back what was copied out gives the value. */
  lemma BytesRoundTrip(order: Endian, x: nat, n: nat)
    requires x < Pow256(n)
    ensures FromBytes(order, ToBytes(order, x, n)) == x
  {
    match order
    case Little => LittleEndianRoundTrip(x, n);
    case Big => BigEndianRoundTrip(x, n);
  }

  lemma {:induction false} FromBigEndianBound(bs: seq<uint8>)
    ensures FromBigEndian(bs) < Pow256(|bs|)
  {
    if bs != [] {
      FromBigEndianBound(bs[..|bs| - 1]);
    }
  }

  lemma {:induction false} FromLittleEndianBound(bs: seq<uint8>)
    ensures FromLittleEndian(bs) < Pow256(|bs|)
  {
    if bs != [] {
      FromLittleEndianBound(bs[1..]);
    }
  }

  lemma FromBytesBound(order: Endian, bs: seq<uint8>)
    ensures FromBytes(order, bs) < Pow256(|bs|)
  {
    match order
    case Little => FromLittleEndianBound(bs);
    case Big => FromBigEndianBound(bs);
  }

  /**
   * Byte `k` of the big-endian image is the value shifted right by
   * 8 * (n - 1 - k) bits and masked with 0xFF, which is how the C++ code
   * computes it.
   */
  lemma {:induction false} BigEndianAt(x: nat, n: nat, k: nat)
    requires k < n
    ensures BigEndian(x, n)[k] == (x / Pow256(n - 1 - k)) % 256
  {
    if k < n - 1 {
      BigEndianAt(x / 256, n - 1, k);
      DivDiv(x, 256, Pow256(n - 2 - k));
    }
  }

  /** Two's complement image of a signed value in `n` bytes. */
  function Unsigned(v: int, n: nat): (u: nat)
    ensures u < Pow256(n)
  {
    v % Pow256(n)
  }

  /** Signed value of an `n`-byte two's complement image. */
  function Signed(u: nat, n: nat): int
  {
    if 2 * u >= Pow256(n) then u - Pow256(n) else u
  }

  lemma TwosComplementRoundTrip(v: int, n: nat)
    requires n > 0 && 0 <= 2 * v + Pow256(n) && 2 * v < Pow256(n)
    ensures Signed(Unsigned(v, n), n) == v
  {
    var p := Pow256(n);
    if v < 0 {
      DivUnique(v, p, -1, v + p);
    } else {
      DivUnique(v, p, 0, v);
    }
  }
}
