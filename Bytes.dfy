/** Bytes, Java's narrowing casts and multi-byte big-endian fields.
    A byte is kept as its unsigned value 0..255; Java reads a byte back as a
    signed value, which `Signed` recovers. */
module Bytes {

  type Byte = x: int | 0 <= x < 256

  /** 256 to the power n: the number of distinct n-byte patterns. */
  function Pow256(n: nat): (p: int)
    ensures p >= 1
  {
    if n == 0 then 1 else 256 * Pow256(n - 1)
  }

  /** The n-byte two's-complement pattern of x, most significant byte first.
      This is what Java's `ByteBuffer.putShort`/`putInt` write for n = 2, 4 in
      the default (big-endian) order after the `(short)`/`(int)` cast, and what
      `put((byte) x)` writes for n = 1. */
  function BigEndian(x: int, n: nat): (bs: seq<Byte>)
    ensures |bs| == n
  {
    if n == 0 then [] else [(x / Pow256(n - 1)) % 256] + BigEndian(x, n - 1)
  }

  /** The unsigned value of a big-endian byte string. */
  function FromBigEndian(bs: seq<Byte>): (v: nat)
    ensures v < Pow256(|bs|)
  {
    if bs == [] then 0
    else
      assert FromBigEndian(bs[1..]) < Pow256(|bs| - 1);
      MulBound(bs[0], 255, Pow256(|bs| - 1));
      bs[0] * Pow256(|bs| - 1) + FromBigEndian(bs[1..])
  }

  /** The unsigned value of a little-endian byte string. */
  function FromLittleEndian(bs: seq<Byte>): (v: nat)
  {
    if bs == [] then 0 else bs[0] + 256 * FromLittleEndian(bs[1..])
  }

  /** Two's-complement reading of an n-byte unsigned value: what Java's
      `get`, `getShort`, `getInt` return, and what the casts `(byte)`,
      `(short)`, `(int)` produce from x mod 256^n. */
  function Signed(u: int, n: nat): (r: int)
    requires n >= 1 && 0 <= u < Pow256(n)
    ensures -Pow256(n) <= 2 * r < Pow256(n)
    ensures r == u || r == u - Pow256(n)
    ensures r < 0 <==> 2 * u >= Pow256(n)
  {
    if 2 * u >= Pow256(n) then u - Pow256(n) else u
  }

  /** Java's narrowing cast of x to an n-byte integer type. */
  function Narrow(x: int, n: nat): int
    requires n >= 1
  {
    Signed(x % Pow256(n), n)
  }

  /** The signed value Java reads from a big-endian byte string. */
  function SignedBigEndian(bs: seq<Byte>): int
    requires |bs| >= 1
  {
    Signed(FromBigEndian(bs), |bs|)
  }

  lemma {:induction false} MulBound(a: int, b: int, m: nat)
    requires a <= b
    ensures a * m <= b * m
  {
  }

  /** x = d*a + c with 0 <= c < d pins down x / d and x % d. */
  lemma {:induction false} DivModUnique(x: int, d: int, a: int, c: int)
    requires d > 0 && x == d * a + c && 0 <= c < d
    ensures x / d == a && x % d == c
  {
    var q, r := x / d, x % d;
    assert d * q + r == d * a + c;
    if q > a {
      MulBound(a + 1, q, d);
    } else if q < a {
      MulBound(q + 1, a, d);
    }
  }

  /** Splitting off the top byte of an (n+1)-byte residue. */
  lemma {:induction false} TopByteSplit(x: int, p: nat)
    requires p >= 1
    ensures ((x / p) % 256) * p + x % p == x % (256 * p)
  {
    var q, r := x / p, x % p;
    var a, b := q / 256, q % 256;
    assert x == p * q + r;
    assert q == 256 * a + b;
    assert x == (256 * p) * a + (b * p + r) by {
      assert p * q == p * (256 * a + b) == (256 * p) * a + b * p;
    }
    MulBound(b, 255, p);
    DivModUnique(x, 256 * p, a, b * p + r);
  }

  /** Reading back what `BigEndian` wrote yields x modulo 256^n. */
  lemma {:induction false} BigEndianRoundTrip(x: int, n: nat)
    ensures FromBigEndian(BigEndian(x, n)) == x % Pow256(n)
  {
    if n > 0 {
      var bs := BigEndian(x, n);
      assert bs[1..] == BigEndian(x, n - 1);
      BigEndianRoundTrip(x, n - 1);
      TopByteSplit(x, Pow256(n - 1));
    }
  }

  /** Equal values of equal-length byte strings mean equal strings. */
  lemma {:induction false} FromBigEndianInjective(a: seq<Byte>, b: seq<Byte>)
    requires |a| == |b| && FromBigEndian(a) == FromBigEndian(b)
    ensures a == b
  {
    if a != [] {
      TopByte(a);
      TopByte(b);
      FromBigEndianInjective(a[1..], b[1..]);
      assert a == [a[0]] + a[1..];
      assert b == [b[0]] + b[1..];
    }
  }

  /** The first byte and the rest of a big-endian string, recovered from its
      value. */
  lemma {:induction false} TopByte(bs: seq<Byte>)
    requires bs != []
    ensures FromBigEndian(bs) / Pow256(|bs| - 1) == bs[0]
    ensures FromBigEndian(bs) % Pow256(|bs| - 1) == FromBigEndian(bs[1..])
  {
    var p := Pow256(|bs| - 1);
    DivModUnique(FromBigEndian(bs), p, bs[0], FromBigEndian(bs[1..]));
  }

  /** Writing the value of a byte string reproduces the string. */
  lemma {:induction false} FromBigEndianInverse(bs: seq<Byte>)
    ensures BigEndian(FromBigEndian(bs), |bs|) == bs
  {
    var v := FromBigEndian(bs);
    BigEndianRoundTrip(v, |bs|);
    DivModUnique(v, Pow256(|bs|), 0, v);
    FromBigEndianInjective(BigEndian(v, |bs|), bs);
  }

  /** Writing n bytes and reading them back as a signed value is Java's
      narrowing cast: the value written by `putShort((short) x)` and read by
      `getShort()` is `(short) x`, and likewise for `int` and `byte`. */
  lemma {:induction false} BigEndianSignedRoundTrip(x: int, n: nat)
    requires n >= 1
    ensures SignedBigEndian(BigEndian(x, n)) == Narrow(x, n)
  {
    BigEndianRoundTrip(x, n);
  }

  /** The sign of a big-endian value is the top bit of its first byte. */
  lemma {:induction false} SignIsTopBit(bs: seq<Byte>)
    requires |bs| >= 1
    ensures SignedBigEndian(bs) < 0 <==> bs[0] >= 128
  {
    var p := Pow256(|bs| - 1);
    var rest := FromBigEndian(bs[1..]);
    assert FromBigEndian(bs) == bs[0] * p + rest;
    assert Pow256(|bs|) == 256 * p;
    if bs[0] >= 128 {
      MulBound(128, bs[0], p);
    } else {
      MulBound(bs[0], 127, p);
    }
  }
}
