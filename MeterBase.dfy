/** The helpers of `MooshimeterDeviceBase`: the 24-bit integer codec on a
    byte buffer, the OAD-mode decision, the initialised flag around
    discover/disconnect, and the integer part of `formatReading`. */
module MeterBase {
  import opened Bytes
  import opened ByteBuffers

  // ---------------------------------------------------------------------
  // putInt24 / getInt24

  /** The three bytes `putInt24` writes for arg: `putInt` fills a fresh
      four-byte buffer in the default (big-endian) order, and the first three
      of those bytes are copied out. */
  function Int24Bytes(arg: int): (bs: seq<Byte>)
    ensures |bs| == 3
  {
    BigEndian(arg, 4)[..3]
  }

  /** The bytes written are the three most significant bytes of arg's 32-bit
      pattern, most significant first: the low byte is dropped. */
  lemma {:induction false} Int24BytesAreHigh(arg: int)
    ensures FromBigEndian(Int24Bytes(arg)) == (arg % Pow256(4)) / 256
    ensures Int24Bytes(arg) == BigEndian((arg % Pow256(4)) / 256, 3)
  {
    var all := BigEndian(arg, 4);
    var top := all[..3];
    BigEndianRoundTrip(arg, 4);
    assert all == top + [all[3]];
    AppendLowByte(top, all[3]);
    assert Pow256(3) == 0x100_0000 && Pow256(4) == 256 * Pow256(3);
    DivModUnique(arg % Pow256(4), 256, FromBigEndian(top), all[3]);
    FromBigEndianInverse(top);
  }

  /** So the bytes are not the bottom three bytes of arg, which the comment
      in the source promises: for 1 they are all zero. */
  lemma {:induction false} Int24BytesNotLowBytes()
    ensures Int24Bytes(1) == [0, 0, 0]
    ensures BigEndian(1, 3) == [0, 0, 1]
  {
    Int24BytesAreHigh(1);
    assert Pow256(4) == 0x1_0000_0000;
    assert (1 % Pow256(4)) / 256 == 0;
    var z := BigEndian(0, 3);
    assert z == [0, 0, 0] by {
      assert Pow256(2) == 0x1_0000 && Pow256(1) == 256;
    }
    assert Pow256(2) == 0x1_0000 && Pow256(1) == 256;
  }

  /** The value `getInt24` reads from three bytes: little-endian, with the
      top bit of the third byte extended as the sign. */
  function Int24Value(bs: seq<Byte>): (v: int)
    requires |bs| == 3
    ensures -0x80_0000 <= v < 0x80_0000
    ensures v < 0 <==> bs[2] >= 128
  {
    assert FromLittleEndian(bs) == bs[0] as int + 256 * (bs[1] as int) + 0x1_0000 * (bs[2] as int) by {
      LittleEndian3(bs);
    }
    FromLittleEndian(bs) - (if bs[2] >= 128 then 0x100_0000 else 0)
  }

  lemma {:induction false} LittleEndian3(bs: seq<Byte>)
    requires |bs| == 3
    ensures FromLittleEndian(bs) == bs[0] as int + 256 * (bs[1] as int) + 0x1_0000 * (bs[2] as int)
  {
    assert bs[1..][1..][1..] == [];
    assert FromLittleEndian(bs[1..][1..]) == bs[2];
  }

  /** The value read is the 24-bit two's-complement reading of the bytes. */
  lemma {:induction false} Int24ValueIsSigned(bs: seq<Byte>)
    requires |bs| == 3
    ensures Pow256(3) == 0x100_0000 && FromLittleEndian(bs) < Pow256(3)
    ensures Int24Value(bs) == Signed(FromLittleEndian(bs), 3)
  {
    LittleEndian3(bs);
    assert Pow256(3) == 0x100_0000 by {
      assert Pow256(2) == 0x1_0000 && Pow256(1) == 256;
    }
  }

  /** Four little-endian bytes whose last one is the sign extension of the
      third read as a signed 32-bit value give the 24-bit value. */
  lemma {:induction false} SignExtended(bs: seq<Byte>, tb: seq<Byte>)
    requires |bs| == 3 && tb == bs + [if bs[2] >= 128 then 255 else 0]
    ensures FieldValue(tb, false) == Int24Value(bs)
  {
    LittleEndian3(bs);
    var t1 := tb[1..];
    var t2 := t1[1..];
    var t3 := t2[1..];
    assert t3 == [tb[3]] && t3[1..] == [];
    assert FromLittleEndian(t3) == tb[3];
    assert FromLittleEndian(t2) == bs[2] as int + 256 * (tb[3] as int);
    assert FromLittleEndian(t1) == bs[1] as int + 256 * (bs[2] as int) + 0x1_0000 * (tb[3] as int);
    assert FromLittleEndian(tb) == bs[0] as int + 256 * (bs[1] as int) + 0x1_0000 * (bs[2] as int) + 0x100_0000 * (tb[3] as int);
    assert Pow256(4) == 0x1_0000_0000 by {
      assert Pow256(2) == 0x1_0000 && Pow256(1) == 256;
    }
  }

  /** `putInt24(b, arg)`: the three bytes go in at b's cursor, which moves
      past them. When fewer than three bytes remain, `put` throws before
      writing anything; the model reports that as `false`. */
  method PutInt24(b: ByteBuffer, arg: int) returns (ok: bool)
    requires b.Valid()
    modifies b`position, b.hb
    ensures b.Valid() && b.limit == old(b.limit)
    ensures ok == (old(b.position) + 3 <= b.limit)
    ensures ok ==> b.position == old(b.position) + 3
    ensures ok ==> b.hb[..] == Overwrite(old(b.hb[..]), old(b.position), Int24Bytes(arg))
    ensures !ok ==> b.position == old(b.position) && b.hb[..] == old(b.hb[..])
  {
    var tmp := new ByteBuffer.Allocate(4);
    var fits := tmp.PutField(arg, 4);
    assert tmp.hb[..] == BigEndian(arg, 4) by {
      assert Overwrite(Zeros(4), 0, BigEndian(arg, 4)) == BigEndian(arg, 4);
    }
    tmp.Flip();
    var tb := tmp.GetBytes(3);
    ok := b.PutBytes(tb.value);
  }

  /** `getInt24(b)`: three bytes from b's cursor, which moves past them, read
      as described by `Int24Value`. When fewer than three bytes remain, `get`
      throws and the cursor stays; the model returns `None`. */
  method GetInt24(b: ByteBuffer) returns (r: Option<int>)
    requires b.Valid()
    modifies b`position
    ensures b.Valid()
    ensures r.Some? == (old(b.position) + 3 <= b.limit)
    ensures r.Some? ==> b.position == old(b.position) + 3
    ensures r.Some? ==> r.value == Int24Value(b.hb[old(b.position)..old(b.position) + 3])
    ensures r.None? ==> b.position == old(b.position)
  {
    var got := b.GetBytes(3);
    if got.None? {
      return None;
    }
    var tb := new Byte[4](_ => 0);
    tb[0], tb[1], tb[2] := got.value[0], got.value[1], got.value[2];
    if tb[2] >= 128 {
      tb[3] := 0xFF;
    } else {
      tb[3] := 0x00;
    }
    SignExtended(got.value, tb[..]);
    var tmp := new ByteBuffer.Wrap(tb);
    tmp.Order(false);
    var v := tmp.GetField(4);
    assert tmp.hb[0..4] == tb[..];
    r := Some(v.value);
  }

  // ---------------------------------------------------------------------
  // isInOADMode, discover, disconnect

  /** The service UUIDs the mode decision looks for. */
  const MeterService := "1BC5FFA0-0200-62AB-E411-F254E005DBD4"
  const OadService := "1BC5FFC0-0200-62AB-E411-F254E005DBD4"

  /** The mode `isInOADMode` settles on, given the previous mode and the
      services discovered so far. */
  function OadDecision(previous: bool, services: set<string>): (r: bool)
    ensures OadService in services ==> r
    ensures OadService !in services && MeterService in services ==> !r
    ensures OadService !in services && MeterService !in services ==> r == previous
  {
    var afterMeter := if MeterService in services then false else previous;
    if OadService in services then true else afterMeter
  }

  /** Asking again with the same services gives the same answer. */
  lemma OadDecisionStable(previous: bool, services: set<string>)
    ensures OadDecision(OadDecision(previous, services), services) == OadDecision(previous, services)
  {
  }

  /** The fields of a meter that these helpers update. */
  class MeterState {
    var oadMode: bool
    var initialized: bool

    /** A new device: `mOADMode` and `mInitialized` start false. */
    constructor ()
      ensures !oadMode && !initialized
    {
      oadMode := false;
      initialized := false;
    }

    /** `isInOADMode`: the meter service clears the mode, then the OAD
        service sets it; the result is stored and returned. */
    method IsInOADMode(services: set<string>) returns (r: bool)
      modifies this`oadMode
      ensures oadMode == r && r == OadDecision(old(oadMode), services)
    {
      if MeterService in services {
        oadMode := false;
      }
      if OadService in services {
        oadMode := true;
      }
      r := oadMode;
    }

    /** `discover`: the result of the underlying discovery (a parameter
        here) is passed on; only 0 marks the device initialised. */
    method Discover(superResult: int) returns (rval: int)
      modifies this`initialized
      ensures rval == superResult
      ensures initialized == (superResult == 0 || old(initialized))
    {
      rval := superResult;
      if rval != 0 {
        return;
      }
      initialized := true;
    }

    /** `disconnect`: always clears the flag, then passes on the result of
        the underlying disconnect. */
    method Disconnect(superResult: int) returns (rval: int)
      modifies this`initialized
      ensures !initialized && rval == superResult
    {
      initialized := false;
      rval := superResult;
    }
  }

  // ---------------------------------------------------------------------
  // formatReading

  /** `SignificantDigits`: `high` digits left of the decimal point out of
      `nDigits` significant ones. */
  class SignificantDigits {
    var high: int
    var nDigits: int

    constructor (high: int, nDigits: int)
      ensures this.high == high && this.nDigits == nDigits
    {
      this.high := high;
      this.nDigits := nDigits;
    }
  }

  /** Where the two loops of `formatReading` leave `high`: steps of 3 down
      while above 4, then steps of 3 up while not positive. */
  function NormalHigh(h: int): (r: int)
    ensures 1 <= r <= 4
    ensures (r - h) % 3 == 0
    decreases if h > 4 then h else 1 - h
  {
    if h > 4 then NormalHigh(h - 3) else if h <= 0 then NormalHigh(h + 3) else h
  }

  /** Closed form: from above 4 the value lands in 2..4, from below 1 in
      1..3, and 1..4 are kept. */
  lemma {:induction false} NormalHighClosedForm(h: int)
    ensures NormalHigh(h) == if h > 4 then (h - 5) % 3 + 2 else if h <= 0 then (h - 1) % 3 + 1 else h
    decreases if h > 4 then h else 1 - h
  {
    if h > 4 {
      NormalHighClosedForm(h - 3);
      ModThreeShift(h - 8);
    } else if h <= 0 {
      NormalHighClosedForm(h + 3);
      ModThreeShift(h - 1);
    }
  }

  /** Three more leaves the remainder modulo 3 as it was. */
  lemma ModThreeShift(a: int)
    ensures (a + 3) % 3 == a % 3
  {
    DivModUnique(a + 3, 3, a / 3 + 1, a % 3);
  }

  /** A normalised value stays as it is. */
  lemma {:induction false} NormalHighIdempotent(h: int)
    ensures NormalHigh(NormalHigh(h)) == NormalHigh(h)
  {
  }

  /** 1000 to the n-th power. */
  function Pow1000(n: nat): (p: real)
    ensures p > 0.0
  {
    if n == 0 then 1.0 else 1000.0 * Pow1000(n - 1)
  }

  /** The reading after k multiplications by 1000 (k >= 0) or -k divisions
      by 1000 (k < 0). */
  function Scaled(val: real, k: int): real
  {
    if k >= 0 then val * Pow1000(k) else val / Pow1000(-k)
  }

  /** Scaling by a power of 1000 keeps the sign of the reading. */
  lemma {:induction false} ScaledSign(val: real, k: int)
    ensures Scaled(val, k) < 0.0 <==> val < 0.0
    ensures Scaled(val, k) == 0.0 <==> val == 0.0
  {
    var p := Pow1000(if k >= 0 then k else -k);
    if k >= 0 {
      PositiveProduct(val, p);
    } else {
      PositiveQuotient(val, p);
    }
  }

  lemma {:induction false} PositiveProduct(x: real, p: real)
    requires p > 0.0
    ensures x * p < 0.0 <==> x < 0.0
    ensures x * p == 0.0 <==> x == 0.0
  {
    if x < 0.0 {
      assert x * p == -((-x) * p);
    }
  }

  lemma {:induction false} PositiveQuotient(x: real, p: real)
    requires p > 0.0
    ensures x / p < 0.0 <==> x < 0.0
    ensures x / p == 0.0 <==> x == 0.0
  {
    PositiveProduct(x / p, p);
    assert (x / p) * p == x;
  }

  /** One more division by 1000 of a reading already divided -k times. */
  lemma {:induction false} ScaledDown(val: real, k: int)
    requires k <= 0
    ensures Scaled(val, k) / 1000.0 == Scaled(val, k - 1)
  {
    var p := Pow1000(-k);
    assert Pow1000(-k + 1) == 1000.0 * p;
    assert (val / p) / 1000.0 == val / (1000.0 * p);
  }

  /** One more multiplication by 1000 of a reading already multiplied k
      times. */
  lemma {:induction false} ScaledUp(val: real, k: int)
    requires k >= 0
    ensures Scaled(val, k) * 1000.0 == Scaled(val, k + 1)
  {
    var p := Pow1000(k);
    assert Pow1000(k + 1) == 1000.0 * p;
    assert (val * p) * 1000.0 == val * (1000.0 * p);
  }

  /** How many powers of 1000 the two loops scale a reading by, for a
      starting `high` of h. */
  function ScaleOf(h: int): int
  {
    (NormalHigh(h) - h) / 3
  }

  /** The two normalisation loops, which change the caller's object and
      scale the reading with every step of 3 digits: divided by 1000 while
      above 4, multiplied by 1000 while not positive. */
  method NormaliseDigits(digits: SignificantDigits, val: real) returns (scale: int, scaled: real)
    modifies digits`high
    ensures digits.high == NormalHigh(old(digits.high))
    ensures digits.high == old(digits.high) + 3 * scale && scale == ScaleOf(old(digits.high))
    ensures scaled == Scaled(val, scale)
    ensures old(digits.high) > 4 ==> scale < 0
    ensures old(digits.high) <= 0 ==> scale > 0
    ensures 1 <= old(digits.high) <= 4 ==> scale == 0
  {
    scale := 0;
    scaled := val;
    while digits.high > 4
      invariant NormalHigh(digits.high) == NormalHigh(old(digits.high))
      invariant digits.high == old(digits.high) + 3 * scale
      invariant scale <= 0 && scaled == Scaled(val, scale)
      invariant old(digits.high) > 4 ==> digits.high >= 2
      invariant old(digits.high) > 4 && digits.high <= 4 ==> scale < 0
      invariant old(digits.high) <= 4 ==> scale == 0
      decreases digits.high
    {
      ScaledDown(val, scale);
      digits.high := digits.high - 3;
      scaled := scaled / 1000.0;
      scale := scale - 1;
    }
    while digits.high <= 0
      invariant NormalHigh(digits.high) == NormalHigh(old(digits.high))
      invariant digits.high == old(digits.high) + 3 * scale
      invariant scaled == Scaled(val, scale)
      invariant scale < 0 ==> digits.high >= 2
      invariant digits.high <= 4
      invariant old(digits.high) > 4 ==> scale < 0
      invariant old(digits.high) <= 0 && digits.high > 0 ==> scale > 0
      invariant 1 <= old(digits.high) <= 4 ==> scale == 0
      decreases -digits.high
    {
      ScaledUp(val, scale);
      digits.high := digits.high + 3;
      scaled := scaled * 1000.0;
      scale := scale + 1;
    }
  }

  /** The final truncation to at most 8 characters. */
  function Truncate(s: string): (r: string)
    ensures |r| <= 8 && |r| <= |s| && r == s[..|r|]
    ensures |s| <= 8 ==> r == s
    ensures |s| > 8 ==> |r| == 8
  {
    s[..if |s| < 8 then |s| else 8]
  }

  /** Width and precision of the `%0<width>.<precision>f` conversion: the
      digits left and right of the point, plus one for the minus sign. */
  function FormatFields(high: int, nDigits: int, negative: bool): (wp: (int, int))
    ensures wp.0 == nDigits + (if negative then 1 else 0)
    ensures wp.0 - wp.1 == high + (if negative then 1 else 0)
  {
    var left, right := high, nDigits - high;
    (left + right + (if negative then 1 else 0), right)
  }

  /** `formatReading`: normalise the digits (changing the caller's object)
      while scaling the reading, then format and truncate. `render` stands
      for the two `String.format` calls (and the fallback on a bad format
      string): given the sign, the width and the precision of the format
      and the scaled reading, it returns the text. */
  method FormatReading(digits: SignificantDigits, val: real, render: (bool, int, int, real) -> string)
    returns (r: string)
    modifies digits`high
    ensures 1 <= digits.high <= 4 && digits.high == NormalHigh(old(digits.high))
    ensures var v := Scaled(val, ScaleOf(old(digits.high)));
      var wp := FormatFields(digits.high, digits.nDigits, val < 0.0);
      r == Truncate(render(val < 0.0, wp.0, wp.1, v))
    ensures |r| <= 8
  {
    var scale, v := NormaliseDigits(digits, val);
    ScaledSign(val, scale);
    var neg := v < 0.0;
    var left := digits.high;
    var right := digits.nDigits - digits.high;
    var text := render(neg, left + right + (if neg then 1 else 0), right, v);
    r := text[..if |text| < 8 then |text| else 8];
  }
}
