/** Big-endian integer decoding of the payload header fields: the extension
    functions `ByteArray.toLong` and `ByteArray.toInt`, with Kotlin's 64-bit
    `Long` and 32-bit `Int` arithmetic written out. */
module Bytes {

  const TWO_31: int := 0x8000_0000
  const TWO_32: int := 0x1_0000_0000
  const TWO_63: int := 0x8000_0000_0000_0000
  const TWO_64: int := 0x1_0000_0000_0000_0000

  /** One byte of a file, as its unsigned value: what `b.toLong() and 0xFF` yields. */
  type byte = b: int | 0 <= b < 256

  /** Kotlin `Long`: a signed 64-bit integer. */
  type Long = x: int | -0x8000_0000_0000_0000 <= x < 0x8000_0000_0000_0000

  /** Kotlin `Int`: a signed 32-bit integer. */
  type Int = x: int | -0x8000_0000 <= x < 0x8000_0000

  /** The 64-bit pattern held by a `Long` variable. */
  type Bits64 = u: int | 0 <= u < 0x1_0000_0000_0000_0000

  function Pow256(n: nat): (p: nat)
    ensures p > 0
  {
    if n == 0 then 1 else 256 * Pow256(n - 1)
  }

  /** The unsigned value of a byte string read most significant byte first. */
  function BigEndian(s: seq<byte>): (v: nat)
    ensures v < Pow256(|s|)
  {
    if s == [] then 0
    else
      var prefix := BigEndian(s[..|s| - 1]);
      assert prefix * 256 <= (Pow256(|s| - 1) - 1) * 256;
      prefix * 256 + s[|s| - 1]
  }

  /** The `n` bytes that represent `v` modulo 256^n, most significant first. */
  function EncodeBE(v: nat, n: nat): (s: seq<byte>)
    ensures |s| == n
  {
    if n == 0 then [] else EncodeBE(v / 256, n - 1) + [v % 256]
  }

  /** Reading a 64-bit pattern as a two's-complement `Long`. */
  function AsLong(u: Bits64): (x: Long)
    ensures x % TWO_64 == u
    ensures x < 0 <==> u >= TWO_63
  {
    if u < TWO_63 then u else u - TWO_64
  }

  /** `Long.toInt()`: keeps the low 32 bits and reads them as a signed `Int`. */
  function LowInt(x: int): (r: Int)
    ensures r % TWO_32 == x % TWO_32
    ensures r < 0 <==> x % TWO_32 >= TWO_31
  {
    var u := x % TWO_32;
    if u < TWO_31 then u else u - TWO_32
  }

  /** 64-bit wrap-around of a `Long` sum or product. */
  function WrapLong(x: int): (r: Long)
    ensures r % TWO_64 == x % TWO_64
    ensures -TWO_63 <= x < TWO_63 ==> r == x
  {
    AsLong(x % TWO_64)
  }

  /** `shl 8` on a `Long`: the pattern moves up one byte, the top byte falls
      off and the low byte is zero. */
  function Shl8(u: Bits64): (r: Bits64)
    ensures r == (u % 0x100_0000_0000_0000) * 256
    ensures r % 256 == 0
  {
    DropTopByte(u);
    (u * 256) % TWO_64
  }

  lemma DropTopByte(u: Bits64)
    ensures (u * 256) % TWO_64 == (u % 0x100_0000_0000_0000) * 256
    ensures ((u % 0x100_0000_0000_0000) * 256) % 256 == 0
  {
    var m := 0x100_0000_0000_0000;
    assert m * 256 == TWO_64;
    var hi, low := u / m, u % m;
    assert 0 <= low * 256 < TWO_64;
    ScaleSplit(u, hi, m, low, 256);
    DivModOfSplit(u * 256, TWO_64, hi, low * 256);
    DivModOfSplit(low * 256, 256, low, 0);
  }

  /** Bitwise `or` of two non-negative integers: at least each operand and at
      most their sum. */
  function Or(a: nat, b: nat): (r: nat)
    ensures a <= r && b <= r
    ensures r <= a + b
    decreases a + b
  {
    if a == 0 then b
    else if b == 0 then a
    else 2 * Or(a / 2, b / 2) + (if a % 2 == 1 || b % 2 == 1 then 1 else 0)
  }

  function Pow2(k: nat): (p: nat)
    ensures p > 0
  {
    if k == 0 then 1 else 2 * Pow2(k - 1)
  }

  /** `or` with a value whose bits all lie below the lowest set bit of the other adds. */
  lemma {:induction false} OrDisjoint(c: nat, b: nat, k: nat)
    requires b < Pow2(k)
    ensures Or(c * Pow2(k), b) == c * Pow2(k) + b
    decreases k
  {
    var a := c * Pow2(k);
    if a == 0 || b == 0 {
    } else {
      var p := Pow2(k - 1);
      var h := c * p;
      assert a == 2 * h by {
        assert Pow2(k) == 2 * p;
      }
      OrDisjoint(c, b / 2, k - 1);
      assert Or(a, b) == 2 * Or(h, b / 2) + b % 2;
    }
  }

  /** After `shl 8` the low byte is zero, so `or`-ing in a byte adds it. */
  lemma OrLowByte(a: nat, b: byte)
    requires a % 256 == 0
    ensures Or(a, b) == a + b
  {
    assert Pow2(8) == 256;
    assert a == (a / 256) * 256;
    OrDisjoint(a / 256, b, 8);
  }

  /** The value `toLong` returns: the big-endian value, wrapped to 64 bits and
      read as two's complement; below 2^63 it is the value itself. */
  function DecodeLong(s: seq<byte>): (r: Long)
    ensures r % TWO_64 == BigEndian(s) % TWO_64
    ensures r < 0 <==> BigEndian(s) % TWO_64 >= TWO_63
    ensures BigEndian(s) < TWO_63 ==> r == BigEndian(s)
  {
    AsLong(BigEndian(s) % TWO_64)
  }

  /** The value `toInt` returns: the low 32 bits of the big-endian value, read
      as signed; below 2^31 it is the value itself. */
  function DecodeInt(s: seq<byte>): (r: Int)
    ensures r % TWO_32 == BigEndian(s) % TWO_32
    ensures r < 0 <==> BigEndian(s) % TWO_32 >= TWO_31
    ensures BigEndian(s) < TWO_31 ==> r == BigEndian(s)
  {
    LowInt(BigEndian(s))
  }

  /** x == q * m + r with 0 <= r < m fixes the quotient and the remainder. */
  lemma DivModOfSplit(x: int, m: int, q: int, r: int)
    requires m > 0 && 0 <= r < m && x == q * m + r
    ensures x / m == q && x % m == r
  {
    var d := x / m - q;
    assert d * m == r - x % m;
    NonzeroMultiple(d, m);
  }

  lemma NonzeroMultiple(d: int, m: int)
    requires m > 0
    ensures d >= 1 ==> d * m >= m
    ensures d <= -1 ==> d * m <= -m
  {
  }

  lemma ScaleSplit(x: int, q: int, m: int, r: int, k: int)
    requires x == q * m + r
    ensures x * k == q * (m * k) + r * k
  {
  }

  lemma ShiftInStep(acc: nat, b: byte)
    ensures Or(Shl8(acc % TWO_64), b) == (acc * 256 + b) % TWO_64
  {
    var m := 0x100_0000_0000_0000;
    assert m * 256 == TWO_64;
    var q, u := acc / TWO_64, acc % TWO_64;
    var hi, low := u / m, u % m;
    assert Shl8(u) == low * 256;
    OrLowByte(low * 256, b);
    ScaleSplit(u, hi, m, low, 256);
    ScaleSplit(acc, q, TWO_64, u, 256);
    ScaleSplit(u * 256, hi, TWO_64, low * 256, 1);
    assert acc * 256 + b == (q * 256 + hi) * TWO_64 + (low * 256 + b);
    DivModOfSplit(acc * 256 + b, TWO_64, q * 256 + hi, low * 256 + b);
  }

  /** `ByteArray.toLong`: shift the accumulator left a byte and `or` in the next byte. */
  method ToLong(bytes: seq<byte>) returns (r: Long)
    ensures r == DecodeLong(bytes)
  {
    var result: Bits64 := 0;
    for i := 0 to |bytes|
      invariant result == BigEndian(bytes[..i]) % TWO_64
    {
      assert bytes[..i + 1][..i] == bytes[..i];
      ShiftInStep(BigEndian(bytes[..i]), bytes[i]);
      result := Or(Shl8(result), bytes[i]);
    }
    assert bytes[..|bytes|] == bytes;
    r := AsLong(result);
  }

  /** `ByteArray.toInt`: `toLong` followed by `Long.toInt()`. */
  method ToInt(bytes: seq<byte>) returns (r: Int)
    ensures r == DecodeInt(bytes)
  {
    var x := ToLong(bytes);
    LowIntOfWrapped(BigEndian(bytes));
    r := LowInt(x);
  }

  /** Truncating to 32 bits after wrapping to 64 bits is truncating to 32 bits. */
  lemma LowIntOfWrapped(v: nat)
    ensures LowInt(AsLong(v % TWO_64)) == LowInt(v)
  {
    var x := AsLong(v % TWO_64);
    assert x % TWO_32 == v % TWO_32 by {
      assert TWO_64 == TWO_32 * TWO_32;
      assert v == (v / TWO_64) * TWO_64 + v % TWO_64;
      assert x == v % TWO_64 || x == v % TWO_64 - TWO_64;
    }
    SameLowInt(LowInt(x), LowInt(v));
  }

  lemma SameLowInt(r: Int, q: Int)
    requires r % TWO_32 == q % TWO_32
    ensures r == q
  {
  }

  /** Splitting a byte string splits its big-endian value. */
  lemma {:induction false} BigEndianConcat(a: seq<byte>, b: seq<byte>)
    ensures BigEndian(a + b) == BigEndian(a) * Pow256(|b|) + BigEndian(b)
    decreases |b|
  {
    if b == [] {
      assert a + b == a;
    } else {
      var c := b[..|b| - 1];
      assert (a + b)[..|a + b| - 1] == a + c;
      BigEndianConcat(a, c);
      assert BigEndian(a + b) == BigEndian(a + c) * 256 + b[|b| - 1];
      assert BigEndian(b) == BigEndian(c) * 256 + b[|b| - 1];
      assert Pow256(|b|) == Pow256(|c|) * 256;
      ShiftDistributes(BigEndian(a), Pow256(|c|), BigEndian(c), b[|b| - 1]);
    }
  }

  lemma ShiftDistributes(x: int, p: int, y: int, t: int)
    ensures (x * p + y) * 256 + t == x * (p * 256) + (y * 256 + t)
  {
  }

  /** Encoding a value that fits in `n` bytes and decoding it gives the value back. */
  lemma {:induction false} DecodeEncode(v: nat, n: nat)
    requires v < Pow256(n)
    ensures BigEndian(EncodeBE(v, n)) == v
  {
    if n > 0 {
      DecodeEncode(v / 256, n - 1);
      var s := EncodeBE(v, n);
      assert s[..n - 1] == EncodeBE(v / 256, n - 1);
    }
  }

  /** Decoding `n` bytes and encoding the value in `n` bytes gives the bytes back. */
  lemma {:induction false} EncodeDecode(s: seq<byte>)
    ensures EncodeBE(BigEndian(s), |s|) == s
    decreases |s|
  {
    if s != [] {
      var p := s[..|s| - 1];
      var v := BigEndian(s);
      assert v / 256 == BigEndian(p) && v % 256 == s[|s| - 1];
      EncodeDecode(p);
      assert s == p + [s[|s| - 1]];
    }
  }

  lemma Pow256Values()
    ensures Pow256(3) == 0x100_0000
    ensures Pow256(4) == TWO_32
    ensures Pow256(7) == 0x100_0000_0000_0000
    ensures Pow256(8) == TWO_64
  {
  }

  /** Any 0 <= v < 2^63 written as 8 big-endian bytes reads back through `toLong` as v. */
  lemma LongRoundTrip(v: nat)
    requires v < TWO_63
    ensures DecodeLong(EncodeBE(v, 8)) == v
  {
    Pow256Values();
    DecodeEncode(v, 8);
  }

  /** The leading byte carries weight 256^(n-1). */
  lemma {:induction false} BigEndianHead(s: seq<byte>)
    requires |s| > 0
    ensures BigEndian(s) == s[0] * Pow256(|s| - 1) + BigEndian(s[1..])
  {
    BigEndianConcat([s[0]], s[1..]);
    assert [s[0]] + s[1..] == s;
    assert BigEndian([s[0]]) == s[0] by {
      assert [s[0]][..0] == [];
    }
  }

  /** An 8-byte field decodes to a negative `Long` exactly when its top bit is set. */
  lemma LongSignBit(s: seq<byte>)
    requires |s| == 8
    ensures DecodeLong(s) < 0 <==> s[0] >= 128
  {
    Pow256Values();
    BigEndianHead(s);
    var rest := BigEndian(s[1..]);
    assert 0 <= rest < 0x100_0000_0000_0000;
    assert BigEndian(s) == (s[0] as int) * 0x100_0000_0000_0000 + rest;
    assert BigEndian(s) % TWO_64 == BigEndian(s);
  }

  /** Fewer than 8 bytes never reach the sign bit: `toLong` is the unsigned value. */
  lemma ShortLongIsUnsigned(s: seq<byte>)
    requires |s| < 8
    ensures DecodeLong(s) == BigEndian(s) >= 0
  {
    Pow256Monotone(|s|, 7);
    Pow256Values();
    var v := BigEndian(s);
    assert v < 0x100_0000_0000_0000;
    DivModOfSplit(v, TWO_64, 0, v);
    assert AsLong(v) == v;
  }

  lemma {:induction false} Pow256Monotone(m: nat, n: nat)
    requires m <= n
    ensures Pow256(m) <= Pow256(n)
    decreases n
  {
    if m < n {
      Pow256Monotone(m, n - 1);
    }
  }

  /** `toInt` only sees the last four bytes of a longer field. */
  lemma IntUsesLastFourBytes(s: seq<byte>)
    requires |s| >= 4
    ensures DecodeInt(s) == DecodeInt(s[|s| - 4..])
  {
    var a, b := s[..|s| - 4], s[|s| - 4..];
    assert a + b == s;
    BigEndianConcat(a, b);
    Pow256Values();
    var hi, lo := BigEndian(a), BigEndian(b);
    assert BigEndian(s) == hi * TWO_32 + lo;
    DivModOfSplit(BigEndian(s), TWO_32, hi, lo);
    DivModOfSplit(lo, TWO_32, 0, lo);
    SameLowInt(DecodeInt(s), DecodeInt(b));
  }

  /** A 4-byte field below 2^31 is read by `toInt` as its unsigned value. */
  lemma SmallIntIsUnsigned(s: seq<byte>)
    requires |s| == 4 && s[0] < 128
    ensures DecodeInt(s) == BigEndian(s)
  {
    BigEndianHead(s);
    Pow256Values();
    var rest := BigEndian(s[1..]);
    assert 0 <= rest < 0x100_0000;
    assert BigEndian(s) == (s[0] as int) * 0x100_0000 + rest;
    assert BigEndian(s) < TWO_31;
  }

  /** An all-zero field reads as 0. */
  lemma {:induction false} ZeroBytesDecodeToZero(s: seq<byte>)
    requires forall i :: 0 <= i < |s| ==> s[i] == 0
    ensures BigEndian(s) == 0
    decreases |s|
  {
    if s != [] {
      ZeroBytesDecodeToZero(s[..|s| - 1]);
    }
  }
}
