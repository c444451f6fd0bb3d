/** Fixed-width integer fields read from a byte stream, and the C integer
    conversions the decoders apply to them. The decoders read multi-byte
    fields in two ways: explicit big-endian arithmetic (PNG, JPEG lengths)
    and host-order struct overlays, which this model fixes to little-endian. */
module Bytes {

  /** One octet, as an `unsigned char` holds it. */
  type byte = b: int | 0 <= b < 0x100

  function Min(a: int, b: int): (m: int)
    ensures m <= a && m <= b && (m == a || m == b)
  {
    if a <= b then a else b
  }

  /** Little-endian unsigned 16-bit field (an `unsigned short` overlay). */
  function U16LE(b: seq<byte>): (r: nat)
    requires |b| == 2
    ensures r < 0x1_0000
  {
    b[0] as int + 0x100 * (b[1] as int)
  }

  /** Big-endian unsigned 16-bit field, as `b[0]*256 + b[1]`. */
  function U16BE(b: seq<byte>): (r: nat)
    requires |b| == 2
    ensures r < 0x1_0000
  {
    0x100 * (b[0] as int) + b[1] as int
  }

  /** Little-endian unsigned 32-bit field (an `int` overlay, before the sign). */
  function U32LE(b: seq<byte>): (r: nat)
    requires |b| == 4
    ensures r < 0x1_0000_0000
  {
    b[0] as int + 0x100 * (b[1] as int) + 0x1_0000 * (b[2] as int) + 0x100_0000 * (b[3] as int)
  }

  /** Big-endian unsigned 32-bit field, as `b[0]*16777216 + ... + b[3]`. */
  function U32BE(b: seq<byte>): (r: nat)
    requires |b| == 4
    ensures r < 0x1_0000_0000
  {
    0x100_0000 * (b[0] as int) + 0x1_0000 * (b[1] as int) + 0x100 * (b[2] as int) + b[3] as int
  }

  /** Two's-complement reading of a 16-bit pattern (a `short`). */
  function Signed16(u: nat): (r: int)
    requires u < 0x1_0000
    ensures -0x8000 <= r < 0x8000
    ensures r % 0x1_0000 == u
  {
    if u < 0x8000 then u else u - 0x1_0000
  }

  /** Two's-complement reading of a 32-bit pattern (an `int`). */
  function Signed32(u: nat): (r: int)
    requires u < 0x1_0000_0000
    ensures -0x8000_0000 <= r < 0x8000_0000
    ensures r % 0x1_0000_0000 == u
  {
    if u < 0x8000_0000 then u else u - 0x1_0000_0000
  }

  /** Conversion of any integer to a 64-bit `size_t`: reduction modulo 2^64,
      so a negative value wraps to a large one. */
  function SizeT(x: int): (r: nat)
    ensures r < 0x1_0000_0000_0000_0000
    ensures 0 <= x < 0x1_0000_0000_0000_0000 ==> r == x
    ensures -0x1_0000_0000_0000_0000 <= x < 0 ==> r == x + 0x1_0000_0000_0000_0000
  {
    x % 0x1_0000_0000_0000_0000
  }

  /** Adding one after the conversion is the same as converting the sum. */
  lemma SizeTSucc(x: int)
    ensures SizeT(SizeT(x) + 1) == SizeT(x + 1)
  {
    var m := 0x1_0000_0000_0000_0000;
    var q := x / m;
    assert x == q * m + SizeT(x);
    assert x + 1 == q * m + (SizeT(x) + 1);
    if SizeT(x) + 1 < m {
      assert SizeT(x + 1) == SizeT(x) + 1;
    } else {
      assert x + 1 == (q + 1) * m;
      assert SizeT(x + 1) == 0;
    }
  }

  // Encoders: the inverse of each field reader, used to state round trips.

  function LE16(x: nat): (b: seq<byte>)
    requires x < 0x1_0000
    ensures |b| == 2
  {
    [x % 0x100, x / 0x100]
  }

  function BE16(x: nat): (b: seq<byte>)
    requires x < 0x1_0000
    ensures |b| == 2
  {
    [x / 0x100, x % 0x100]
  }

  function LE32(x: nat): (b: seq<byte>)
    requires x < 0x1_0000_0000
    ensures |b| == 4
  {
    [x % 0x100, (x / 0x100) % 0x100, (x / 0x1_0000) % 0x100, x / 0x100_0000]
  }

  function BE32(x: nat): (b: seq<byte>)
    requires x < 0x1_0000_0000
    ensures |b| == 4
  {
    [x / 0x100_0000, (x / 0x1_0000) % 0x100, (x / 0x100) % 0x100, x % 0x100]
  }

  /** The 16-bit pattern of a `short` value. */
  function Unsigned16(x: int): (u: nat)
    ensures u < 0x1_0000
  {
    x % 0x1_0000
  }

  /** The 32-bit pattern of an `int` value. */
  function Unsigned32(x: int): (u: nat)
    ensures u < 0x1_0000_0000
  {
    x % 0x1_0000_0000
  }

  lemma LE16RoundTrip(x: nat)
    requires x < 0x1_0000
    ensures U16LE(LE16(x)) == x
  {
  }

  lemma BE16RoundTrip(x: nat)
    requires x < 0x1_0000
    ensures U16BE(BE16(x)) == x
  {
  }

  lemma U16LERoundTrip(b: seq<byte>)
    requires |b| == 2
    ensures LE16(U16LE(b)) == b
  {
  }

  lemma U16BERoundTrip(b: seq<byte>)
    requires |b| == 2
    ensures BE16(U16BE(b)) == b
  {
  }

  /** Splitting off the low byte of `lo + 256 * hi`. */
  lemma LowByte(lo: int, hi: nat)
    requires 0 <= lo < 0x100
    ensures (lo + 0x100 * hi) % 0x100 == lo
    ensures (lo + 0x100 * hi) / 0x100 == hi
  {
  }

  /** Dividing by 2^16 or 2^24 is dividing by 256 two or three times. */
  lemma ShiftTwice(x: nat)
    ensures x / 0x1_0000 == x / 0x100 / 0x100
    ensures x / 0x100_0000 == x / 0x100 / 0x100 / 0x100
  {
    var q1, q2, q3 := x / 0x100, x / 0x100 / 0x100, x / 0x100 / 0x100 / 0x100;
    assert x == x % 0x100 + 0x100 * q1;
    assert q1 == q1 % 0x100 + 0x100 * q2;
    assert q2 == q2 % 0x100 + 0x100 * q3;
    assert x == (x % 0x100 + 0x100 * (q1 % 0x100)) + 0x1_0000 * q2;
    assert x == (x % 0x100 + 0x100 * (q1 % 0x100) + 0x1_0000 * (q2 % 0x100)) + 0x100_0000 * q3;
  }

  /** A value below 2^32 is its four base-256 digits. */
  lemma Digits(x: nat)
    requires x < 0x1_0000_0000
    ensures x == x % 0x100 + 0x100 * ((x / 0x100) % 0x100)
                 + 0x1_0000 * ((x / 0x1_0000) % 0x100) + 0x100_0000 * (x / 0x100_0000)
    ensures x / 0x100_0000 < 0x100
  {
    ShiftTwice(x);
    var q1, q2, q3 := x / 0x100, x / 0x1_0000, x / 0x100_0000;
    assert x == x % 0x100 + 0x100 * q1;
    assert q1 == q1 % 0x100 + 0x100 * q2;
    assert q2 == q2 % 0x100 + 0x100 * q3;
  }

  lemma LE32RoundTrip(x: nat)
    requires x < 0x1_0000_0000
    ensures U32LE(LE32(x)) == x
  {
    Digits(x);
  }

  lemma BE32RoundTrip(x: nat)
    requires x < 0x1_0000_0000
    ensures U32BE(BE32(x)) == x
  {
    Digits(x);
  }

  lemma U32LERoundTrip(b: seq<byte>)
    requires |b| == 4
    ensures LE32(U32LE(b)) == b
  {
    var x := U32LE(b);
    var hi2: nat := b[2] as int + 0x100 * (b[3] as int);
    var hi1: nat := b[1] as int + 0x100 * hi2;
    assert x == b[0] as int + 0x100 * hi1;
    LowByte(b[0], hi1);
    LowByte(b[1], hi2);
    LowByte(b[2], b[3]);
    ShiftTwice(x);
  }

  lemma U32BERoundTrip(b: seq<byte>)
    requires |b| == 4
    ensures BE32(U32BE(b)) == b
  {
    var x := U32BE(b);
    var hi2: nat := b[1] as int + 0x100 * (b[0] as int);
    var hi1: nat := b[2] as int + 0x100 * hi2;
    assert x == b[3] as int + 0x100 * hi1;
    LowByte(b[3], hi1);
    LowByte(b[2], hi2);
    LowByte(b[1], b[0]);
    ShiftTwice(x);
  }

  lemma Signed16RoundTrip(x: int)
    requires -0x8000 <= x < 0x8000
    ensures Signed16(Unsigned16(x)) == x
  {
  }

  lemma Signed32RoundTrip(x: int)
    requires -0x8000_0000 <= x < 0x8000_0000
    ensures Signed32(Unsigned32(x)) == x
  {
  }
}
