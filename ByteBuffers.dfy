/** The part of java.nio.ByteBuffer that the meter code relies on: a fixed
    backing array, a cursor (`position`) bounded by `limit`, and a byte order
    for the multi-byte accessors. A relative put or get that does not fit
    before `limit` changes nothing (Java throws BufferOverflowException or
    BufferUnderflowException); the model reports it as `false` / `None`. */
module ByteBuffers {
  import opened Bytes

  datatype Option<T> = None | Some(value: T)

  /** n zero bytes: the content of a freshly allocated Java byte array. */
  function Zeros(n: nat): (z: seq<Byte>)
    ensures |z| == n && forall i :: 0 <= i < n ==> z[i] == 0
  {
    seq(n, _ => 0)
  }

  /** The n bytes a multi-byte put writes for x in the given order. */
  function Field(x: int, n: nat, bigEndian: bool): (bs: seq<Byte>)
    ensures |bs| == n
  {
    if bigEndian then BigEndian(x, n) else Reversed(BigEndian(x, n))
  }

  function Reversed(s: seq<Byte>): (r: seq<Byte>)
    ensures |r| == |s|
  {
    if s == [] then [] else Reversed(s[1..]) + [s[0]]
  }

  /** The signed value a multi-byte get reads from bs in the given order. */
  function FieldValue(bs: seq<Byte>, bigEndian: bool): int
    requires |bs| >= 1
  {
    if bigEndian then SignedBigEndian(bs)
    else
      assert FromLittleEndian(bs) == FromBigEndian(Reversed(bs)) by {
        LittleEndianIsReversed(bs);
      }
      Signed(FromLittleEndian(bs), |bs|)
  }

  lemma {:induction false} LittleEndianIsReversed(bs: seq<Byte>)
    ensures FromLittleEndian(bs) == FromBigEndian(Reversed(bs))
  {
    if bs != [] {
      LittleEndianIsReversed(bs[1..]);
      AppendLowByte(Reversed(bs[1..]), bs[0]);
    }
  }

  /** Appending a byte at the low end of a big-endian string. */
  lemma {:induction false} AppendLowByte(s: seq<Byte>, b: Byte)
    ensures FromBigEndian(s + [b]) == 256 * FromBigEndian(s) + b
  {
    if s != [] {
      var t := s + [b];
      var p, low := Pow256(|s| - 1), FromBigEndian(s[1..]);
      assert t[0] == s[0] && t[1..] == s[1..] + [b];
      AppendLowByte(s[1..], b);
      calc {
        FromBigEndian(t);
        t[0] * Pow256(|s|) + FromBigEndian(t[1..]);
        s[0] * (256 * p) + (256 * low + b);
        { MulAssoc(s[0], 256, p); }
        256 * (s[0] * p + low) + b;
        256 * FromBigEndian(s) + b;
      }
    }
  }

  lemma {:induction false} MulAssoc(a: int, b: int, c: int)
    ensures a * (b * c) == b * (a * c)
  {
  }

  /** s with bs written over it from index at on. */
  function Overwrite(s: seq<Byte>, at: nat, bs: seq<Byte>): (r: seq<Byte>)
    requires at + |bs| <= |s|
    ensures |r| == |s|
    ensures forall k :: 0 <= k < |s| ==> r[k] == if at <= k < at + |bs| then bs[k - at] else s[k]
  {
    s[..at] + bs + s[at + |bs|..]
  }

  lemma {:induction false} OverwriteStep(s: seq<Byte>, at: nat, bs: seq<Byte>, i: nat)
    requires i < |bs| && at + |bs| <= |s|
    ensures Overwrite(s, at, bs[..i])[at + i := bs[i]] == Overwrite(s, at, bs[..i + 1])
  {
    var x, y := Overwrite(s, at, bs[..i])[at + i := bs[i]], Overwrite(s, at, bs[..i + 1]);
    assert |x| == |y|;
    forall k | 0 <= k < |x| ensures x[k] == y[k] {
      if at <= k < at + i {
        assert bs[..i][k - at] == bs[k - at] == bs[..i + 1][k - at];
      }
    }
  }

  class ByteBuffer {
    const hb: array<Byte>
    var position: nat
    var limit: nat
    var bigEndian: bool

    ghost predicate Valid()
      reads this
    {
      position <= limit <= hb.Length
    }

    /** `ByteBuffer.wrap(a)`: the whole array, cursor at 0, big-endian. */
    constructor Wrap(a: array<Byte>)
      ensures Valid() && hb == a
      ensures position == 0 && limit == a.Length && bigEndian
    {
      hb := a;
      position := 0;
      limit := a.Length;
      bigEndian := true;
    }

    /** `ByteBuffer.allocate(n)`: a fresh zero-filled array. */
    constructor Allocate(n: nat)
      ensures Valid() && fresh(hb) && hb.Length == n && hb[..] == Zeros(n)
      ensures position == 0 && limit == n && bigEndian
    {
      hb := new Byte[n](_ => 0);
      position := 0;
      limit := n;
      bigEndian := true;
    }

    function Remaining(): (r: nat)
      reads this
      requires Valid()
      ensures position + r == limit
    {
      limit - position
    }

    /** `order(...)`: choose the byte order of later multi-byte accesses. */
    method Order(big: bool)
      modifies this`bigEndian
      ensures bigEndian == big
    {
      bigEndian := big;
    }

    /** `rewind()`: cursor back to 0, limit kept. */
    method Rewind()
      requires Valid()
      modifies this`position
      ensures Valid() && position == 0
    {
      position := 0;
    }

    /** `flip()`: limit at the cursor, cursor back to 0. */
    method Flip()
      requires Valid()
      modifies this`position, this`limit
      ensures Valid() && limit == old(position) && position == 0
    {
      limit := position;
      position := 0;
    }

    /** `put(byte[])`: write bs at the cursor and advance past it. */
    method PutBytes(bs: seq<Byte>) returns (ok: bool)
      requires Valid()
      modifies this`position, hb
      ensures Valid() && limit == old(limit) && bigEndian == old(bigEndian)
      ensures ok == (old(position) + |bs| <= limit)
      ensures ok ==> position == old(position) + |bs|
      ensures ok ==> hb[..] == Overwrite(old(hb[..]), old(position), bs)
      ensures !ok ==> position == old(position) && hb[..] == old(hb[..])
    {
      ok := position + |bs| <= limit;
      if !ok {
        return;
      }
      var i := 0;
      while i < |bs|
        invariant 0 <= i <= |bs| && position == old(position) + i
        invariant hb[..] == Overwrite(old(hb[..]), old(position), bs[..i])
      {
        OverwriteStep(old(hb[..]), old(position), bs, i);
        hb[position] := bs[i];
        position := position + 1;
        i := i + 1;
      }
      assert bs[..i] == bs;
    }

    /** `put((byte) x)`. */
    method Put(x: int) returns (ok: bool)
      requires Valid()
      modifies this`position, hb
      ensures Valid() && limit == old(limit) && bigEndian == old(bigEndian)
      ensures ok == (old(position) + 1 <= limit)
      ensures ok ==> position == old(position) + 1
      ensures ok ==> hb[..] == Overwrite(old(hb[..]), old(position), [x % 256])
      ensures !ok ==> position == old(position) && hb[..] == old(hb[..])
    {
      ok := PutBytes([x % 256]);
    }

    /** `putShort((short) x)` (n = 2), `putInt(x)` (n = 4). */
    method PutField(x: int, n: nat) returns (ok: bool)
      requires Valid()
      modifies this`position, hb
      ensures Valid() && limit == old(limit) && bigEndian == old(bigEndian)
      ensures ok == (old(position) + n <= limit)
      ensures ok ==> position == old(position) + n
      ensures ok ==> hb[..] == Overwrite(old(hb[..]), old(position), Field(x, n, bigEndian))
      ensures !ok ==> position == old(position) && hb[..] == old(hb[..])
    {
      ok := PutBytes(Field(x, n, bigEndian));
    }

    /** `get(dst, 0, n)`: copy n bytes from the cursor and advance. */
    method GetBytes(n: nat) returns (r: Option<seq<Byte>>)
      requires Valid()
      modifies this`position
      ensures Valid()
      ensures r.Some? == (old(position) + n <= limit)
      ensures r.Some? ==> position == old(position) + n && r.value == hb[old(position)..old(position) + n]
      ensures r.None? ==> position == old(position)
    {
      if position + n > limit {
        return None;
      }
      r := Some(hb[position..position + n]);
      position := position + n;
    }

    /** `get()` (n = 1), `getShort()` (n = 2), `getInt()` (n = 4): the
        signed value of the next n bytes in the buffer's order. */
    method GetField(n: nat) returns (r: Option<int>)
      requires Valid() && n >= 1
      modifies this`position
      ensures Valid()
      ensures r.Some? == (old(position) + n <= limit)
      ensures r.Some? ==> position == old(position) + n
      ensures r.Some? ==> r.value == FieldValue(hb[old(position)..old(position) + n], bigEndian)
      ensures r.None? ==> position == old(position)
    {
      var bs := GetBytes(n);
      if bs.None? {
        return None;
      }
      r := Some(FieldValue(bs.value, bigEndian));
    }
  }
}
