/** SCALE compact integers (Polkadot Protocol Specification, appendix A.2.2): the encoder of the
    address hashing code and the separately written decoder of the parser. */
module Scale {
  import opened Bits
  import opened Bytes
  import opened Errors

  const MAX_UINT6: nat := 0x3F
  const MAX_UINT14: nat := 0x3FFF
  const MAX_UINT30: nat := 0x3FFF_FFFF
  const MAX_UINT62: nat := 0x3FFF_FFFF_FFFF_FFFF
  const MAX_UINT64: nat := 0xFFFF_FFFF_FFFF_FFFF

  // ---------- Encoding ----------

  /** The compact encoding: two mode bits, then the value in 1, 2, 4 or a counted number of bytes. */
  function Encode(v: nat): (r: seq<byte>)
    requires v <= MAX_UINT64
    ensures r != []
  {
    if v <= MAX_UINT6 then [4 * v]
    else if v <= MAX_UINT14 then LeBytes(4 * v + 1, 2)
    else if v <= MAX_UINT30 then LeBytes(4 * v + 2, 4)
    else
      BigLength(v);
      [4 * (ByteLen(v) - 4) + 3] + LeBytes(v, ByteLen(v))
  }

  lemma BigLength(v: nat)
    requires MAX_UINT30 < v <= MAX_UINT64
    ensures 4 <= ByteLen(v) <= 8
  {
    Pow256Values();
    ByteLenBound(v, 3);
    ByteLenBound(v, 8);
  }

  /** The encoding fits the eight-byte buffer of the hashing code exactly below 2^56. */
  lemma EncodeFits(v: nat)
    requires v <= MAX_UINT64
    ensures |Encode(v)| <= 9
    ensures |Encode(v)| <= 8 <==> v < 0x100_0000_0000_0000
  {
    Pow256Values();
    if v > MAX_UINT30 {
      BigLength(v);
      ByteLenBound(v, 7);
    }
  }

  lemma {:induction false} ByteLenOfTopBit(v: nat, h: nat)
    requires v > 0 && Pow2(h) == Pow2Floor(v)
    ensures ByteLen(v) == h / 8 + 1
  {
    if h < 8 {
      TopBitBelow(v, h);
      assert v / 256 == 0;
    } else {
      TopBitShift(v, h);
      ByteLenOfTopBit(v / 256, h - 8);
    }
  }

  lemma TopBitBelow(v: nat, h: nat)
    requires v > 0 && Pow2(h) == Pow2Floor(v) && h < 8
    ensures v < 256
  {
    assert Pow2(1) == 2 && Pow2(2) == 4 && Pow2(3) == 8;
    assert Pow2(4) == 16 && Pow2(5) == 32;
    assert Pow2(6) == 64 && Pow2(7) == 128;
  }

  lemma TopBitShift(v: nat, h: nat)
    requires v > 0 && Pow2(h) == Pow2Floor(v) && h >= 8
    ensures v / 256 > 0 && Pow2(h - 8) == Pow2Floor(v / 256)
  {
    assert Pow2(4) == 16;
    Pow2Adds(4, 4);
    assert Pow2(8) == 256;
    Pow2Adds(h - 8, 8);
    Pow2IsPow2(8);
    Pow2FloorShift(v, 256);
  }

  /** The loop of scaleEncodeBigUint: the bytes by shifting, behind the first one. */
  method WriteShifted(v: nat, needed: nat, out: array<byte>)
    requires needed + 1 <= out.Length
    modifies out
    ensures out[0] == old(out[0]) && out[1..needed + 1] == LeBytes(v, needed)
    ensures out[needed + 1..] == old(out[needed + 1..])
  {
    hide *;
    var x := v;
    var i := 1;
    while i <= needed
      invariant 1 <= i <= needed + 1 && out[0] == old(out[0])
      invariant out[1..i] + LeBytes(x, needed + 1 - i) == LeBytes(v, needed)
      invariant out[needed + 1..] == old(out[needed + 1..])
    {
      LeBytesUnfold(x, needed + 1 - i);
      ghost var done, rest := out[1..i], LeBytes(x / 256, needed - i);
      out[i] := x % 256;
      assert out[1..i + 1] == done + [x % 256];
      Regroup(done, x % 256, rest);
      x := x / 256;
      i := i + 1;
    }
    LeBytesEmpty(x);
  }

  lemma Regroup(a: seq<byte>, b: byte, c: seq<byte>)
    ensures a + ([b] + c) == (a + [b]) + c
  {
  }

  /** scaleEncodeBigUint: byte count from the leading zeros, then the bytes by shifting. */
  method ScaleEncodeBigUint(v: nat, out: array<byte>) returns (size: nat)
    requires MAX_UINT30 < v <= MAX_UINT64 && out.Length >= |Encode(v)|
    modifies out
    ensures size == |Encode(v)| && out[..size] == Encode(v)
    ensures out[size..] == old(out[size..])
  {
    hide Encode, LeBytes, ByteLen, Pow2Floor, Pow2;
    var h := HighestOne(v);
    ByteLenOfTopBit(v, h);
    BigLength(v);
    BigEncoding(v);
    var leadingZeros := 63 - h;
    var needed := 8 - leadingZeros / 8;
    NeededBytes(h);
    out[0] := 4 * (needed - 4) + 3;
    WriteShifted(v, needed, out);
    size := needed + 1;
    assert out[..size] == [out[0]] + out[1..size];
  }

  lemma NeededBytes(h: nat)
    requires h / 8 + 1 <= 8
    ensures 8 - (63 - h) / 8 == h / 8 + 1
  {
  }

  lemma BigEncoding(v: nat)
    requires MAX_UINT30 < v <= MAX_UINT64
    ensures 4 <= ByteLen(v) <= 8
    ensures Encode(v) == [4 * (ByteLen(v) - 4) + 3] + LeBytes(v, ByteLen(v))
  {
    BigLength(v);
  }

  lemma LeBytesUnfold(v: nat, n: nat)
    requires n > 0
    ensures LeBytes(v, n) == [v % 256] + LeBytes(v / 256, n - 1)
  {
  }

  lemma LeBytesEmpty(v: nat)
    ensures LeBytes(v, 0) == []
  {
  }

  /** scaleEncodeUint64: pick the mode by range and write the encoding at the start of out. */
  method ScaleEncodeUint64(v: nat, out: array<byte>) returns (size: nat)
    requires v <= MAX_UINT64 && out.Length >= |Encode(v)|
    modifies out
    ensures size == |Encode(v)| && out[..size] == Encode(v)
    ensures out[size..] == old(out[size..])
  {
    if v <= MAX_UINT6 {
      size := ScaleEncodeUint8(v, out);
    } else if v <= MAX_UINT14 {
      size := ScaleEncodeUint16(v, out);
    } else if v <= MAX_UINT30 {
      size := ScaleEncodeUint32(v, out);
    } else {
      size := ScaleEncodeBigUint(v, out);
    }
  }

  /** scaleEncodeUint8 */
  method ScaleEncodeUint8(v: nat, out: array<byte>) returns (size: nat)
    requires v <= MAX_UINT6 && out.Length >= 1
    modifies out
    ensures size == 1 && out[..1] == Encode(v) && out[1..] == old(out[1..])
  {
    out[0] := v * 4 % 256;
    size := 1;
  }

  /** scaleEncodeUint16 */
  method ScaleEncodeUint16(v: nat, out: array<byte>) returns (size: nat)
    requires MAX_UINT6 < v <= MAX_UINT14 && out.Length >= 2
    modifies out
    ensures size == 2 && out[..2] == Encode(v) && out[2..] == old(out[2..])
  {
    var x := v * 4 + 1;
    out[0], out[1] := x % 256, x / 0x100 % 256;
    LeBytesTwo(x);
    size := 2;
  }

  lemma LeBytesTwo(x: nat)
    ensures LeBytes(x, 2) == [x % 256, x / 0x100 % 256]
  {
  }

  lemma LeBytesFour(x: nat)
    ensures LeBytes(x, 4) == [x % 256, x / 0x100 % 256, x / 0x1_0000 % 256, x / 0x100_0000 % 256]
  {
    LeBytesUnfold(x, 4);
    LeBytesUnfold(x / 0x100, 3);
    LeBytesTwo(x / 0x1_0000);
    assert x / 0x100 / 256 == x / 0x1_0000 && x / 0x1_0000 / 0x100 == x / 0x100_0000;
  }

  /** scaleEncodeUint32 */
  method ScaleEncodeUint32(v: nat, out: array<byte>) returns (size: nat)
    requires MAX_UINT14 < v <= MAX_UINT30 && out.Length >= 4
    modifies out
    ensures size == 4 && out[..4] == Encode(v) && out[4..] == old(out[4..])
  {
    var x := v * 4 + 2;
    out[0], out[1], out[2], out[3] := x % 256, x / 0x100 % 256, x / 0x1_0000 % 256, x / 0x100_0000 % 256;
    LeBytesFour(x);
    size := 4;
  }

  /** The four modes, byte by byte: two low bits of the first byte for the mode, and the value in
      the rest, least significant first. */
  lemma EncodeBytes(v: nat)
    requires v <= MAX_UINT64
    ensures v < 0x40 ==> Encode(v) == [4 * v]
    ensures 0x40 <= v < 0x4000 ==> Encode(v) == [(4 * v + 1) % 256, (4 * v + 1) / 0x100]
    ensures 0x4000 <= v < 0x4000_0000 ==>
      Encode(v) == [(4 * v + 2) % 256, (4 * v + 2) / 0x100 % 256, (4 * v + 2) / 0x1_0000 % 256, (4 * v + 2) / 0x100_0000]
    ensures v >= 0x4000_0000 ==>
      5 <= |Encode(v)| <= 9 && Encode(v)[0] as int == 4 * (|Encode(v)| - 5) + 3
      && Encode(v)[|Encode(v)| - 1] != 0 && Le(Encode(v)[1..]) == v
  {
    hide *;
    if v < 0x40 {
      EncodeOneByte(v);
    } else if v < 0x4000 {
      EncodeTwoBytes(v);
    } else if v < 0x4000_0000 {
      EncodeFourBytes(v);
    } else {
      EncodeMoreBytes(v);
    }
  }

  lemma EncodeOneByte(v: nat)
    requires v < 0x40
    ensures Encode(v) == [4 * v]
  {
  }

  lemma EncodeTwoBytes(v: nat)
    requires 0x40 <= v < 0x4000
    ensures Encode(v) == [(4 * v + 1) % 256, (4 * v + 1) / 0x100]
  {
    hide *;
    TwoByteMode(v);
    LeBytesTwo(4 * v + 1);
  }

  lemma TwoByteMode(v: nat)
    requires 0x40 <= v < 0x4000
    ensures Encode(v) == LeBytes(4 * v + 1, 2)
  {
    hide LeBytes, ByteLen;
  }

  lemma EncodeFourBytes(v: nat)
    requires 0x4000 <= v < 0x4000_0000
    ensures Encode(v) == [(4 * v + 2) % 256, (4 * v + 2) / 0x100 % 256, (4 * v + 2) / 0x1_0000 % 256, (4 * v + 2) / 0x100_0000]
  {
    hide *;
    FourByteMode(v);
    LeBytesFour(4 * v + 2);
    TopOfFour(4 * v + 2);
  }

  lemma FourByteMode(v: nat)
    requires 0x4000 <= v < 0x4000_0000
    ensures Encode(v) == LeBytes(4 * v + 2, 4)
  {
    hide LeBytes, ByteLen;
  }

  lemma TopOfFour(x: nat)
    requires x < 0x1_0000_0000
    ensures x / 0x100_0000 < 256 && x / 0x100_0000 % 256 == x / 0x100_0000
  {
  }

  lemma EncodeMoreBytes(v: nat)
    requires 0x4000_0000 <= v <= MAX_UINT64
    ensures 5 <= |Encode(v)| <= 9 && Encode(v)[0] as int == 4 * (|Encode(v)| - 5) + 3
    ensures Encode(v)[|Encode(v)| - 1] != 0 && Le(Encode(v)[1..]) == v
  {
    hide LeBytes, ByteLen, Le, Encode;
    BigEncoding(v);
    ByteLenBound(v, ByteLen(v));
    LeRoundTrip(v, ByteLen(v));
    assert Encode(v)[1..] == LeBytes(v, ByteLen(v));
    TopByte(v);
  }

  /** No more bytes than needed. */
  lemma {:induction false} TopByte(v: nat)
    requires v > 0
    ensures ByteLen(v) > 0 && LeBytes(v, ByteLen(v))[ByteLen(v) - 1] != 0
  {
    if v >= 256 {
      TopByte(v / 256);
    }
  }

  // ---------- Decoding ----------

  /** The result of reading a value from the front of some bytes. */
  datatype Parsed<+T> = Fail(error: ParserError) | Done(value: T, rest: seq<byte>) {
    predicate IsFailure() {
      Fail?
    }

    function PropagateFailure<U>(): Parsed<U>
      requires Fail?
    {
      Fail(error)
    }

    function Extract(): (T, seq<byte>)
      requires Done?
    {
      (value, rest)
    }
  }

  /** Bytes a compact integer takes, told by its first byte. */
  function CompactLen(first: byte): nat {
    if first % 4 == 0 then 1 else if first % 4 == 1 then 2 else if first % 4 == 2 then 4 else first / 4 + 5
  }

  /** The value of the bytes of one compact integer; None where the decoder finds it out of range. */
  function CompactValue(c: seq<byte>): Option<nat>
    requires c != [] && |c| == CompactLen(c[0])
  {
    if |c| == 1 then Some(c[0] / 4)
    else if |c| == 2 then
      var v := c[0] as int / 4 + 0x40 * c[1] as int;
      if v < 64 then None else Some(v)
    else if |c| == 4 then
      var v := c[0] as int / 4 + 0x40 * c[1] as int + 0x4000 * c[2] as int + 0x40_0000 * c[3] as int;
      if v < 16383 then None else Some(v)
    else if |c| > 9 || Le(c[1..]) > MAX_UINT62 then None
    else Some(Le(c[1..]))
  }

  /** Reading one compact integer off the front. */
  function TakeCompact(s: seq<byte>): Parsed<nat> {
    if s == [] || |s| < CompactLen(s[0]) then Fail(UnexpectedBufferEnd)
    else
      var n := CompactLen(s[0]);
      match CompactValue(s[..n])
      case None => Fail(ValueOutOfRange)
      case Some(v) => Done(v, s[n..])
  }

  /** Reading one compact integer that has to fit a narrower field. */
  function TakeCompactUpTo(s: seq<byte>, max: nat): Parsed<nat> {
    var (v, rest) :- TakeCompact(s);
    if v > max then Fail(ValueOutOfRange) else Done(v, rest)
  }

  /** _getValue: the value of a compact integer's bytes, the big mode accumulated in 64 bits. */
  method GetValue(c: seq<byte>) returns (e: ParserError, value: nat)
    requires c != [] && |c| == CompactLen(c[0])
    ensures e == ParserOk <==> CompactValue(c).Some?
    ensures e == ParserOk ==> CompactValue(c) == Some(value)
    ensures e != ParserOk ==> e == ValueOutOfRange
  {
    if |c| == 1 {
      return ParserOk, c[0] / 4;
    } else if |c| == 2 {
      value := c[0] as int / 4 + 0x40 * c[1] as int;
      return if value < 64 then ValueOutOfRange else ParserOk, value;
    } else if |c| == 4 {
      value := c[0] as int / 4 + 0x40 * c[1] as int + 0x4000 * c[2] as int + 0x40_0000 * c[3] as int;
      return if value < 16383 then ValueOutOfRange else ParserOk, value;
    }
    var byteLength := c[0] / 4 + 4;
    if byteLength > 8 {
      return ValueOutOfRange, 0;
    }
    value := BigValue(c[1..]);
    e := if value > MAX_UINT62 then ValueOutOfRange else ParserOk;
  }

  /** The big mode's loop: or in the next byte, shift left by eight, most significant first.
      Eight bytes never leave the 64-bit range. */
  method BigValue(b: seq<byte>) returns (value: nat)
    requires 4 <= |b| <= 8
    ensures value == Le(b)
  {
    hide Le;
    value := 0;
    var i := |b|;
    LeEmpty();
    assert b[i..] == [];
    while i > 1
      invariant 1 <= i <= |b|
      invariant value == 256 * Le(b[i..])
    {
      assert b[i - 1..] == [b[i - 1]] + b[i..];
      LeUnfold(b[i - 1], b[i..]);
      value := value + b[i - 1];
      ShiftStays64(b[i - 1..]);
      value := value * 256 % (MAX_UINT64 + 1);
      i := i - 1;
    }
    assert b == [b[0]] + b[1..];
    LeUnfold(b[0], b[1..]);
    value := value + b[0];
  }

  lemma ShiftStays64(t: seq<byte>)
    requires |t| <= 7
    ensures 256 * Le(t) <= MAX_UINT64
  {
    LeBound(t);
    Pow256Values();
    Pow256Monotone(|t|, 7);
  }

  lemma {:induction false} Pow256Monotone(a: nat, b: nat)
    requires a <= b
    ensures Pow256(a) <= Pow256(b)
  {
    if a < b {
      Pow256Monotone(a, b - 1);
    }
  }

  // ---------- Encoder and decoder together ----------

  /** The encoder's output announces its own length, and below 2^62 the decoder gives the
      value back; above, it finds the value out of range. */
  lemma DecodeEncode(v: nat)
    requires v <= MAX_UINT64
    ensures CompactLen(Encode(v)[0]) == |Encode(v)|
    ensures CompactValue(Encode(v)) == if v <= MAX_UINT62 then Some(v) else None
  {
    hide Encode, CompactValue, CompactLen;
    if v <= MAX_UINT14 {
      DecodeEncodeShort(v);
    } else if v <= MAX_UINT30 {
      DecodeEncodeFour(v);
    } else {
      DecodeEncodeBig(v);
    }
  }

  lemma DecodeEncodeShort(v: nat)
    requires v <= MAX_UINT14
    ensures CompactLen(Encode(v)[0]) == |Encode(v)| && CompactValue(Encode(v)) == Some(v)
  {
    if v < 0x40 {
      hide LeBytes, ByteLen, Le;
      EncodeOneByte(v);
    } else {
      hide Encode, LeBytes, ByteLen, Le, CompactValue, CompactLen;
      EncodeTwoBytes(v);
      TwoDigits(4 * v + 1);
      TwoValue(Encode(v), v);
    }
  }

  lemma TwoDigits(x: nat)
    requires x < 0x1_0000
    ensures x / 0x100 < 256 && x == x % 256 + 0x100 * (x / 0x100)
  {
  }

  lemma DecodeEncodeFour(v: nat)
    requires MAX_UINT14 < v <= MAX_UINT30
    ensures CompactLen(Encode(v)[0]) == |Encode(v)| && CompactValue(Encode(v)) == Some(v)
  {
    hide Encode, LeBytes, ByteLen, Le, CompactValue, CompactLen;
    var x := 4 * v + 2;
    EncodeFourBytes(v);
    var c := Encode(v);
    TopOfFour(x);
    FourBytes(x, c[0], c[1], c[2], c[3]);
    FourValue(c, v);
  }

  /** The value of four bytes, from the number they make. */
  lemma FourValue(c: seq<byte>, v: nat)
    requires |c| == 4
    requires c[0] as int + 0x100 * c[1] as int + 0x1_0000 * c[2] as int + 0x100_0000 * c[3] as int == 4 * v + 2
    ensures CompactLen(c[0]) == 4
    ensures CompactValue(c) == if v < 16383 then None else Some(v)
  {
    hide *;
    var b0: nat, high: nat := c[0], 0x40 * c[1] as int + 0x4000 * c[2] as int + 0x40_0000 * c[3] as int;
    LowTwoBits(b0, high, v, 2);
    FourUnfold(c, b0 / 4 + high);
  }

  lemma FourUnfold(c: seq<byte>, v: nat)
    requires |c| == 4 && c[0] as int % 4 == 2
    requires v == c[0] as int / 4 + (0x40 * c[1] as int + 0x4000 * c[2] as int + 0x40_0000 * c[3] as int)
    ensures CompactLen(c[0]) == 4
    ensures CompactValue(c) == if v < 16383 then None else Some(v)
  {
    hide Le;
  }

  /** The value of two bytes, from the number they make. */
  lemma TwoValue(c: seq<byte>, v: nat)
    requires |c| == 2 && c[0] as int + 0x100 * c[1] as int == 4 * v + 1
    ensures CompactLen(c[0]) == 2
    ensures CompactValue(c) == if v < 64 then None else Some(v)
  {
    hide *;
    var b0: nat, high: nat := c[0], 0x40 * c[1] as int;
    LowTwoBits(b0, high, v, 1);
    TwoUnfold(c, b0 / 4 + high);
  }

  lemma TwoUnfold(c: seq<byte>, v: nat)
    requires |c| == 2 && c[0] as int % 4 == 1 && v == c[0] as int / 4 + 0x40 * c[1] as int
    ensures CompactLen(c[0]) == 2
    ensures CompactValue(c) == if v < 64 then None else Some(v)
  {
    hide Le;
  }

  /** Mode bits and value of a number. */
  lemma LowTwoBits(b0: nat, high: nat, v: nat, mode: nat)
    requires b0 + 4 * high == 4 * v + mode && mode < 4
    ensures b0 % 4 == mode && b0 / 4 + high == v
  {
    ModUnique(b0, 4, v - high, mode);
  }

  lemma DecodeEncodeBig(v: nat)
    requires MAX_UINT30 < v <= MAX_UINT64
    ensures CompactLen(Encode(v)[0]) == |Encode(v)|
    ensures CompactValue(Encode(v)) == if v <= MAX_UINT62 then Some(v) else None
  {
    hide LeBytes, ByteLen, Le, Encode;
    BigEncoding(v);
    ByteLenBound(v, ByteLen(v));
    LeRoundTrip(v, ByteLen(v));
    assert Encode(v)[1..] == LeBytes(v, ByteLen(v));
  }

  /** SCALE round trip: reading an encoded value followed by anything gives the value and
      consumes exactly its encoding; values from 2^62 on are refused. */
  lemma RoundTrip(v: nat, suffix: seq<byte>)
    requires v <= MAX_UINT64
    ensures TakeCompact(Encode(v) + suffix) == if v < 0x4000_0000_0000_0000 then Done(v, suffix) else Fail(ValueOutOfRange)
  {
    hide Encode, CompactValue;
    DecodeEncode(v);
    var s := Encode(v) + suffix;
    assert s[..|Encode(v)|] == Encode(v) && s[|Encode(v)|..] == suffix;
  }

  /** Encodings differ for different values, over the whole 64-bit range. */
  lemma EncodeInjective(v: nat, w: nat)
    requires v <= MAX_UINT64 && w <= MAX_UINT64 && Encode(v) == Encode(w)
    ensures v == w
  {
    if v <= MAX_UINT62 || w <= MAX_UINT62 {
      hide Encode, CompactValue;
      DecodeEncode(v);
      DecodeEncode(w);
    } else {
      hide LeBytes, ByteLen;
      BigEncoding(v);
      BigEncoding(w);
      assert Encode(v)[1..] == LeBytes(v, ByteLen(v)) && Encode(w)[1..] == LeBytes(w, ByteLen(w));
      ByteLenBound(v, ByteLen(v));
      ByteLenBound(w, ByteLen(w));
      LeRoundTrip(v, ByteLen(v));
      LeRoundTrip(w, ByteLen(w));
    }
  }

  // ---------- Accepted spellings ----------

  /** The spellings the decoder accepts for a value: the encoding; four bytes for 16383, which has
      a two-byte encoding; and the big mode with four to eight value bytes, zeros on top or not. */
  predicate Spelling(c: seq<byte>, v: nat) {
    && v < 0x4000_0000_0000_0000
    && (c == Encode(v)
        || (v == 16383 && c == LeBytes(4 * v + 2, 4))
        || (5 <= |c| <= 9 && c[0] as int == 4 * (|c| - 5) + 3 && Le(c[1..]) == v))
  }

  /** The decoder accepts exactly these spellings, and hands over what follows. */
  lemma SpellingIff(s: seq<byte>, v: nat, rest: seq<byte>)
    ensures TakeCompact(s) == Done(v, rest) <==>
      |rest| <= |s| && s[|s| - |rest|..] == rest && Spelling(s[..|s| - |rest|], v)
  {
    hide Spelling, CompactValue;
    if TakeCompact(s) == Done(v, rest) {
      var c := s[..CompactLen(s[0])];
      assert c[0] == s[0];
      DecodedIsSpelling(c, v);
    }
    if |rest| <= |s| && s[|s| - |rest|..] == rest && Spelling(s[..|s| - |rest|], v) {
      var c := s[..|s| - |rest|];
      SpellingDecodes(c, v);
      assert s[0] == c[0];
    }
  }

  /** Where no value is read: the bytes announced by the first one are not there, or they are and
      spell no value. */
  lemma RefusedNumber(s: seq<byte>)
    ensures TakeCompact(s) == Fail(UnexpectedBufferEnd) <==>
      s == [] || |s| < (match s[0] % 4 case 0 => 1 case 1 => 2 case 2 => 4 case _ => s[0] as nat / 4 + 5)
    ensures TakeCompact(s).Fail? ==> TakeCompact(s).error in {UnexpectedBufferEnd, ValueOutOfRange}
  {
    hide CompactValue;
  }

  lemma SpellingDecodes(c: seq<byte>, v: nat)
    requires Spelling(c, v)
    ensures c != [] && |c| == CompactLen(c[0]) && CompactValue(c) == Some(v)
  {
    hide Encode, LeBytes, Le;
    if c == Encode(v) {
      DecodeEncode(v);
    } else if v == MAX_UINT14 && c == LeBytes(4 * v + 2, 4) {
      LeBytesFour(4 * v + 2);
    }
  }

  lemma DecodedIsSpelling(c: seq<byte>, v: nat)
    requires c != [] && |c| == CompactLen(c[0]) && CompactValue(c) == Some(v)
    ensures Spelling(c, v)
  {
    hide Encode, LeBytes, Le;
    if |c| == 1 {
      DecodedShort(c, v);
    } else if |c| == 2 {
      DecodedTwo(c, v);
    } else if |c| == 4 {
      DecodedFour(c, v);
    }
  }

  lemma DecodedShort(c: seq<byte>, v: nat)
    requires |c| == 1 && CompactLen(c[0]) == 1 && CompactValue(c) == Some(v)
    ensures v <= MAX_UINT62 && c == Encode(v)
  {
    hide LeBytes, ByteLen, Le;
  }

  lemma DecodedTwo(c: seq<byte>, v: nat)
    requires |c| == 2 && CompactLen(c[0]) == 2 && CompactValue(c) == Some(v)
    ensures v <= MAX_UINT62 && c == Encode(v)
  {
    hide LeBytes, ByteLen, Le, Encode;
    TwoMode(c);
    var w := c[0] as int / 4 + 0x40 * c[1] as int;
    TwoValue(c, w);
    assert v == w && 0x40 <= v < 0x4000;
    hide *;
    EncodeTwoBytes(v);
    ModUnique(4 * v + 1, 0x100, c[1], c[0]);
  }

  lemma TwoMode(c: seq<byte>)
    requires |c| == 2 && CompactLen(c[0]) == 2
    ensures c[0] as int == 4 * (c[0] as int / 4) + 1
  {
  }

  lemma DecodedFour(c: seq<byte>, v: nat)
    requires |c| == 4 && CompactLen(c[0]) == 4 && CompactValue(c) == Some(v)
    ensures v <= MAX_UINT62 && c == LeBytes(4 * v + 2, 4) && (v != MAX_UINT14 ==> c == Encode(v))
  {
    hide LeBytes, ByteLen, Le, Encode;
    FourMode(c);
    var w := c[0] as int / 4 + 0x40 * c[1] as int + 0x4000 * c[2] as int + 0x40_0000 * c[3] as int;
    FourValue(c, w);
    assert v == w;
    hide CompactValue, CompactLen;
    SpelledFour(c, v);
    if v != MAX_UINT14 {
      FourByteMode(v);
    }
  }

  lemma FourMode(c: seq<byte>)
    requires |c| == 4 && CompactLen(c[0]) == 4
    ensures c[0] as int == 4 * (c[0] as int / 4) + 2
  {
  }

  lemma SpelledFour(c: seq<byte>, v: nat)
    requires |c| == 4
    requires c[0] as int + 0x100 * c[1] as int + 0x1_0000 * c[2] as int + 0x100_0000 * c[3] as int == 4 * v + 2
    ensures c == LeBytes(4 * v + 2, 4)
  {
    hide *;
    var b0: nat, b1: nat, b2: nat, b3: nat := c[0], c[1], c[2], c[3];
    LeBytesFour(4 * v + 2);
    FourDigits(4 * v + 2, b0, b1, b2, b3);
  }

  /** The encoding is prefix-free: what follows an encoded value never blurs its end. */
  lemma PrefixFree(v: nat, w: nat, x: seq<byte>, y: seq<byte>)
    requires v <= MAX_UINT64 && w <= MAX_UINT64 && Encode(v) + x == Encode(w) + y
    ensures v == w && x == y
  {
    hide Encode, CompactLen;
    DecodeEncode(v);
    DecodeEncode(w);
    var s := Encode(v) + x;
    assert s[0] == Encode(v)[0] && s[0] == Encode(w)[0];
    assert s[..|Encode(v)|] == Encode(v) && s[..|Encode(w)|] == Encode(w);
    assert s[|Encode(v)|..] == x && s[|Encode(w)|..] == y;
    EncodeInjective(v, w);
  }
}
