/** Bytes and little-endian numbers. */
module Bytes {
  type byte = x: int | 0 <= x < 256

  ghost function Pow256(n: nat): (r: nat)
    ensures 1 <= r
  {
    if n == 0 then 1 else 256 * Pow256(n - 1)
  }

  /** The number a little-endian byte string stands for. */
  function Le(bytes: seq<byte>): nat {
    if bytes == [] then 0 else bytes[0] + 256 * Le(bytes[1..])
  }

  /** The n low bytes of v, least significant first. */
  function LeBytes(v: nat, n: nat): (r: seq<byte>)
    ensures |r| == n
  {
    if n == 0 then [] else [v % 256] + LeBytes(v / 256, n - 1)
  }

  /** Bytes needed for v: none for zero. */
  function ByteLen(v: nat): nat {
    if v == 0 then 0 else 1 + ByteLen(v / 256)
  }

  lemma {:induction false} LeRoundTrip(v: nat, n: nat)
    requires v < Pow256(n)
    ensures Le(LeBytes(v, n)) == v
  {
    if n != 0 {
      LeRoundTrip(v / 256, n - 1);
      assert LeBytes(v, n)[1..] == LeBytes(v / 256, n - 1);
    }
  }

  lemma {:induction false} LeBound(bytes: seq<byte>)
    ensures Le(bytes) < Pow256(|bytes|)
  {
    if bytes != [] {
      LeBound(bytes[1..]);
    }
  }

  lemma {:induction false} ByteLenBound(v: nat, n: nat)
    ensures ByteLen(v) <= n <==> v < Pow256(n)
  {
    if v != 0 && n != 0 {
      ByteLenBound(v / 256, n - 1);
    }
  }

  lemma Pow256Values()
    ensures Pow256(2) == 0x1_0000 && Pow256(3) == 0x100_0000 && Pow256(4) == 0x1_0000_0000
    ensures Pow256(7) == 0x100_0000_0000_0000 && Pow256(8) == 0x1_0000_0000_0000_0000
  {
  }

  /** The four bytes of a 32-bit number. */
  lemma FourBytes(x: nat, b0: nat, b1: nat, b2: nat, b3: nat)
    requires b0 == x % 256 && b1 == x / 0x100 % 256 && b2 == x / 0x1_0000 % 256 && b3 == x / 0x100_0000
    ensures x == b0 + 0x100 * b1 + 0x1_0000 * b2 + 0x100_0000 * b3
  {
    var y := x / 0x100;
    var z := y / 0x100;
    assert z == x / 0x1_0000 && z / 0x100 == b3;
  }

  /** And back: four digits to the base 256 are the bytes of their number. */
  lemma FourDigits(w: nat, b0: nat, b1: nat, b2: nat, b3: nat)
    requires b0 < 256 && b1 < 256 && b2 < 256 && b3 < 256
    requires w == b0 + 0x100 * b1 + 0x1_0000 * b2 + 0x100_0000 * b3
    ensures w % 256 == b0 && w / 0x100 % 256 == b1 && w / 0x1_0000 % 256 == b2 && w / 0x100_0000 == b3
  {
    var z := b2 + 0x100 * b3;
    var y := b1 + 0x100 * z;
    assert w == b0 + 0x100 * y && w / 0x100 == y;
    assert w / 0x1_0000 == z && w / 0x100_0000 == b3;
  }

  lemma LeUnfold(b: byte, rest: seq<byte>)
    ensures Le([b] + rest) == b + 256 * Le(rest)
  {
  }

  /** The number of four bytes, least significant first. */
  lemma LeFour(s: seq<byte>)
    requires |s| == 4
    ensures Le(s) == s[0] as int + 0x100 * s[1] as int + 0x1_0000 * s[2] as int + 0x100_0000 * s[3] as int
  {
    hide *;
    LeUnfold(s[0], s[1..]);
    LeUnfold(s[1], s[2..]);
    LeUnfold(s[2], s[3..]);
    LeUnfold(s[3], s[4..]);
    LeEmpty();
    assert s == [s[0]] + s[1..] && s[1..] == [s[1]] + s[2..] && s[2..] == [s[2]] + s[3..] && s[3..] == [s[3]] + s[4..];
    assert s[4..] == [];
  }

  lemma LeEmpty()
    ensures Le([]) == 0
  {
  }

  lemma LeEight(s: seq<byte>)
    requires |s| == 8
    ensures Le(s) == Le(s[..4]) + 0x1_0000_0000 * Le(s[4..])
  {
    hide *;
    LeUnfold(s[0], s[1..]);
    LeUnfold(s[1], s[2..]);
    LeUnfold(s[2], s[3..]);
    LeUnfold(s[3], s[4..]);
    assert s == [s[0]] + s[1..] && s[1..] == [s[1]] + s[2..] && s[2..] == [s[2]] + s[3..] && s[3..] == [s[3]] + s[4..];
    LeFour(s[..4]);
  }
}
