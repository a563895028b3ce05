/** Bit-level helpers of the BLAKE3 library, on natural numbers: bitwise and, population
    count, highest set bit and the largest power of two not above a number. */
module Bits {

  // ---------- Specification functions ----------

  function Pow2(k: nat): (r: nat)
    ensures 1 <= r
  {
    if k == 0 then 1 else 2 * Pow2(k - 1)
  }

  ghost predicate IsPow2(n: nat) {
    n == 1 || (n > 1 && n % 2 == 0 && IsPow2(n / 2))
  }

  /** The power of two p divides a, read off the low bits of a. */
  ghost predicate Aligned(a: nat, p: nat)
    decreases p
  {
    p <= 1 || (a % 2 == 0 && Aligned(a / 2, p / 2))
  }

  /** The largest power of two that is at most n. */
  ghost function Pow2Floor(n: nat): (r: nat)
    requires 1 <= n
    ensures IsPow2(r) && r <= n < 2 * r
  {
    if n == 1 then 1 else 2 * Pow2Floor(n / 2)
  }

  /** Number of one bits. */
  ghost function PopCount(n: nat): nat {
    if n == 0 then 0 else n % 2 + PopCount(n / 2)
  }

  /** Bitwise and, bit by bit. */
  function BitAnd(x: nat, y: nat): nat {
    if x == 0 || y == 0 then 0
    else 2 * BitAnd(x / 2, y / 2) + (if x % 2 == 1 && y % 2 == 1 then 1 else 0)
  }

  // ---------- Powers of two ----------

  lemma {:induction false} Pow2IsPow2(k: nat)
    ensures IsPow2(Pow2(k))
  {
    if k != 0 {
      Pow2IsPow2(k - 1);
    }
  }

  /** Pow2Floor is the only power of two p with p <= n < 2p. */
  lemma {:induction false} Pow2FloorUnique(n: nat, p: nat)
    requires IsPow2(p) && p <= n < 2 * p
    ensures Pow2Floor(n) == p
  {
    if p != 1 {
      Pow2FloorUnique(n / 2, p / 2);
    }
  }

  lemma Pow2Positive(p: nat)
    requires IsPow2(p)
    ensures 1 <= p && IsPow2(2 * p)
  {
  }

  lemma Pow2Doubles(p: nat, q: nat)
    requires IsPow2(p) && IsPow2(q) && p < q
    ensures 2 * p <= q
  {
  }

  // ---------- Divisibility by a power of two ----------

  lemma {:induction false} AlignedIsMod(a: nat, p: nat)
    requires IsPow2(p)
    ensures Aligned(a, p) <==> a % p == 0
  {
    if p != 1 {
      AlignedIsMod(a / 2, p / 2);
      ModHalves(a, p / 2);
    }
  }

  lemma ModHalves(a: nat, h: nat)
    requires h > 0
    ensures a % (2 * h) == 2 * ((a / 2) % h) + a % 2
  {
    var q, r := (a / 2) / h, (a / 2) % h;
    assert a == 2 * (h * q + r) + a % 2;
    assert a == (2 * h) * q + (2 * r + a % 2);
    ModUnique(a, 2 * h, q, 2 * r + a % 2);
  }

  lemma ModUnique(a: nat, n: nat, q: nat, r: nat)
    requires a == n * q + r && r < n
    ensures a / n == q && a % n == r
  {
    var q', r' := a / n, a % n;
    assert n * (q - q') == r' - r by {
      assert n * (q - q') == n * q - n * q';
    }
    if q > q' {
      MulAtLeast(n, q - q');
    } else if q < q' {
      MulAtLeast(n, q' - q);
    }
  }

  lemma MulAtLeast(n: nat, d: nat)
    requires d >= 1
    ensures n * d >= n
  {
  }

  lemma {:induction false} AlignedZero(p: nat)
    requires IsPow2(p)
    ensures Aligned(0, p)
  {
    if p != 1 {
      AlignedZero(p / 2);
    }
  }

  lemma {:induction false} AlignedSum(a: nat, b: nat, p: nat)
    requires IsPow2(p) && Aligned(a, p) && Aligned(b, p)
    ensures Aligned(a + b, p)
    ensures b <= a ==> Aligned(a - b, p)
  {
    if p != 1 {
      AlignedSum(a / 2, b / 2, p / 2);
    }
  }

  /** A power of two divides every larger one. */
  lemma {:induction false} Pow2Aligned(q: nat, p: nat)
    requires IsPow2(p) && IsPow2(q) && p <= q
    ensures Aligned(q, p)
  {
    if p != 1 {
      Pow2Aligned(q / 2, p / 2);
    }
  }

  lemma {:induction false} AlignedWeaken(a: nat, q: nat, p: nat)
    requires IsPow2(p) && IsPow2(q) && p <= q && Aligned(a, q)
    ensures Aligned(a, p)
  {
    if p != 1 {
      AlignedWeaken(a / 2, q / 2, p / 2);
    }
  }

  /** Two different multiples of p are at least p apart. */
  lemma {:induction false} AlignedGap(a: nat, b: nat, p: nat)
    requires IsPow2(p) && Aligned(a, p) && Aligned(b, p) && a < b
    ensures a + p <= b
  {
    if p != 1 {
      AlignedGap(a / 2, b / 2, p / 2);
    }
  }

  lemma AlignedHalf(a: nat, p: nat, h: nat)
    requires IsPow2(h) && p == 2 * h
    ensures IsPow2(p) && (Aligned(a, p) <==> a % 2 == 0 && Aligned(a / 2, h))
  {
  }

  /** A multiple of p is either a multiple of 2p or p above (and below) one. */
  lemma {:induction false} AlignedSplit(a: nat, p: nat)
    requires IsPow2(p) && Aligned(a, p)
    ensures IsPow2(2 * p)
    ensures Aligned(a, 2 * p) || (p <= a && Aligned(a - p, 2 * p))
    ensures !Aligned(a, 2 * p) ==> Aligned(a + p, 2 * p)
  {
    if p == 1 {
      AlignedTwo(a);
      AlignedTwo(a + 1);
      if a > 0 { AlignedTwo(a - 1); }
    } else {
      var h := p / 2;
      assert IsPow2(h) && p == 2 * h;
      hide *;
      AlignedHalf(a, p, h);
      AlignedSplit(a / 2, h);
      AlignedHalf(a, 2 * p, p);
      AlignedHalf(a + p, 2 * p, p);
      assert (a + p) / 2 == a / 2 + h;
      if p <= a {
        AlignedHalf(a - p, 2 * p, p);
        assert (a - p) / 2 == a / 2 - h;
      }
    }
  }

  lemma AlignedTwo(a: nat)
    ensures IsPow2(2) && (Aligned(a, 2) <==> a % 2 == 0)
  {
  }

  /** Half way between two multiples of 2p is not a multiple of 2p. */
  lemma HalfwayIsNotAligned(a: nat, p: nat)
    requires IsPow2(p) && Aligned(a, 2 * p)
    ensures !Aligned(a + p, 2 * p) && Aligned(a, p) && Aligned(a + p, p)
  {
    AlignedWeaken(a, 2 * p, p);
    Pow2Aligned(p, p);
    AlignedSum(a, p, p);
    if Aligned(a + p, 2 * p) {
      AlignedSum(a + p, a, 2 * p);
      AlignedZero(2 * p);
      AlignedGap(0, p, 2 * p);
    }
  }

  // ---------- Population count ----------

  /** Ten trailing zero bits do not count: the bits of a length in bytes are those of its
      length in chunks. */
  lemma PopCountChunks(chunks: nat)
    ensures PopCount(1024 * chunks) == PopCount(chunks)
  {
    hide PopCount;
    PopCount32(chunks);
    PopCount32(32 * chunks);
  }

  lemma PopCount32(n: nat)
    ensures PopCount(32 * n) == PopCount(n)
  {
    hide PopCount;
    PopCountEven(2 * n, n);
    PopCountEven(4 * n, 2 * n);
    PopCountEven(8 * n, 4 * n);
    PopCountEven(16 * n, 8 * n);
    PopCountEven(32 * n, 16 * n);
  }

  lemma PopCountEven(d: nat, n: nat)
    requires d == 2 * n
    ensures PopCount(d) == PopCount(n)
  {
    assert d / 2 == n;
  }

  lemma {:induction false} PopCountSucc(n: nat)
    ensures PopCount(n + 1) <= PopCount(n) + 1
  {
    if n % 2 == 1 {
      PopCountSucc(n / 2);
    }
  }

  /** Adding a power of two that divides a: the count goes up by one exactly when the
      bit was clear, and never goes up when it was set. */
  lemma {:induction false} PopCountAdd(a: nat, p: nat)
    requires IsPow2(p) && Aligned(a, p)
    ensures Aligned(a, 2 * p) ==> PopCount(a + p) == PopCount(a) + 1
    ensures !Aligned(a, 2 * p) ==> PopCount(a + p) <= PopCount(a)
  {
    hide *;
    if p == 1 {
      PopCountAddOne(a);
    } else {
      var h := p / 2;
      HalfOfPow2(p);
      AlignedHalf(a, p, h);
      AlignedHalf(a, 2 * p, p);
      PopCountAdd(a / 2, h);
      PopCountEven(a, a / 2);
      PopCountEven(a + p, a / 2 + h);
    }
  }

  lemma HalfOfPow2(p: nat)
    requires IsPow2(p) && p != 1
    ensures IsPow2(p / 2) && p == 2 * (p / 2) && 1 <= p / 2
  {
  }

  lemma PopCountAddOne(a: nat)
    ensures Aligned(a, 2) ==> PopCount(a + 1) == PopCount(a) + 1
    ensures !Aligned(a, 2) ==> PopCount(a + 1) <= PopCount(a)
  {
    hide *;
    AlignedTwo(a);
    var h := a / 2;
    if a % 2 == 0 {
      PopCountEven(a, h);
      PopCountOdd(a + 1, h);
    } else {
      PopCountOdd(a, h);
      PopCountEven(a + 1, h + 1);
      PopCountSucc(h);
    }
  }

  lemma PopCountOdd(d: nat, n: nat)
    requires d == 2 * n + 1
    ensures PopCount(d) == 1 + PopCount(n)
  {
    assert d / 2 == n;
  }

  /** The top bit of n counts one. */
  lemma {:induction false} PopCountTop(n: nat)
    requires 1 <= n
    ensures PopCount(n) == 1 + PopCount(n - Pow2Floor(n))
  {
    hide *;
    var h := n / 2;
    if n == 1 {
      TopOfOne(0);
      PopCountOdd(1, 0);
    } else {
      Pow2FloorHalf(n);
      PopCountTop(h);
      var rest := h - Pow2Floor(h);
      if n % 2 == 0 {
        PopCountEven(n, h);
        PopCountEven(2 * rest, rest);
      } else {
        PopCountOdd(n, h);
        PopCountOdd(2 * rest + 1, rest);
      }
    }
  }

  /** A number below 2^k has at most k one bits. */
  lemma {:induction false} PopCountBound(n: nat, k: nat)
    requires n < Pow2(k)
    ensures PopCount(n) <= k
  {
    if n != 0 {
      PopCountBound(n / 2, k - 1);
    }
  }

  /** Of the numbers below 2^(k+1) only the last one has more than k one bits. */
  lemma {:induction false} PopCountStrict(n: nat, k: nat)
    requires n + 1 < Pow2(k + 1)
    ensures PopCount(n) <= k
  {
    if n != 0 {
      if n % 2 == 1 {
        PopCountStrict(n / 2, k - 1);
      } else {
        PopCountBound(n / 2, k);
      }
    }
  }

  lemma {:induction false} PopCountAllOnes(k: nat)
    ensures PopCount(Pow2(k) - 1) == k
  {
    if k != 0 {
      PopCountAllOnes(k - 1);
      assert (Pow2(k) - 1) / 2 == Pow2(k - 1) - 1;
    }
  }

  // ---------- Masks ----------

  /** Masking with 2^k - 1 is the remainder by 2^k. */
  lemma {:induction false} MaskIsMod(p: nat, n: nat)
    requires IsPow2(p)
    ensures BitAnd(p - 1, n) == n % p
  {
    if p == 1 || n == 0 {
    } else {
      MaskIsMod(p / 2, n / 2);
      ModHalves(n, p / 2);
      assert (p - 1) / 2 == p / 2 - 1;
    }
  }

  lemma {:induction false} BitAndBelow(x: nat, y: nat)
    ensures BitAnd(x, y) <= x
  {
    if x != 0 && y != 0 {
      BitAndBelow(x / 2, y / 2);
    }
  }

  lemma {:induction false} BitAndSelf(x: nat)
    ensures BitAnd(x, x) == x
  {
    if x != 0 {
      BitAndSelf(x / 2);
    }
  }

  /** x & (x - 1) clears the lowest one bit. */
  lemma {:induction false} ClearLowestBit(x: nat)
    requires x > 0
    ensures BitAnd(x, x - 1) < x
    ensures PopCount(BitAnd(x, x - 1)) == PopCount(x) - 1
  {
    if x % 2 == 1 {
      assert (x - 1) / 2 == x / 2;
      BitAndSelf(x / 2);
      assert BitAnd(x, x - 1) == x - 1;
    } else {
      ClearLowestBit(x / 2);
      assert (x - 1) / 2 == x / 2 - 1;
    }
  }

  lemma DivHalves(x: nat, h: nat)
    requires h > 0
    ensures x / (2 * h) == (x / 2) / h
  {
    var q, r := (x / 2) / h, (x / 2) % h;
    assert x == (2 * h) * q + (2 * r + x % 2);
    ModUnique(x, 2 * h, q, 2 * r + x % 2);
  }

  lemma BitAndEven(x: nat, k: nat)
    ensures BitAnd(x, 2 * k) == 2 * BitAnd(x / 2, k)
  {
    hide *;
    BitAndDouble(x, x / 2, 2 * k, k);
  }

  lemma BitAndDouble(x: nat, h: nat, d: nat, k: nat)
    requires h == x / 2 && d == 2 * k
    ensures BitAnd(x, d) == 2 * BitAnd(h, k)
  {
    assert d / 2 == k && d % 2 == 0;
    if x == 0 || d == 0 {
      assert BitAnd(h, k) == 0;
    }
  }

  lemma MulHalf(h: nat, n: nat)
    ensures (2 * h) * n == 2 * (h * n)
  {
  }

  lemma MaskKeepsSmall(q: nat, p: nat)
    requires IsPow2(p) && q < p
    ensures BitAnd(q, p - 1) == q
  {
    BitAndSym(q, p - 1);
    MaskIsMod(p, q);
    ModUnique(q, p, 0, q);
  }

  /** A mask with one bits exactly at and above p clears the bits below p. */
  lemma {:induction false} HighMask(x: nat, p: nat, n: nat, mask: nat)
    requires IsPow2(p) && IsPow2(n) && mask == p * (n - 1) && x / p < n
    ensures BitAnd(x, mask) == x - x % p
  {
    if p == 1 {
      MaskKeepsSmall(x, n);
    } else {
      var h := p / 2;
      MulHalf(h, n - 1);
      BitAndEven(x, h * (n - 1));
      DivHalves(x, h);
      ModHalves(x, h);
      HighMask(x / 2, h, n, h * (n - 1));
    }
  }

  lemma ModBelow(x: nat, p: nat)
    requires 0 < p
    ensures x - x % p != 0 <==> x >= p
  {
  }

  lemma {:induction false} BitAndSym(x: nat, y: nat)
    ensures BitAnd(x, y) == BitAnd(y, x)
  {
    if x != 0 && y != 0 {
      BitAndSym(x / 2, y / 2);
    }
  }

  lemma Pow2FloorHalf(x: nat)
    requires x >= 2
    ensures Pow2Floor(x) == 2 * Pow2Floor(x / 2)
  {
  }

  /** Shifting right by log2(p) divides the top bit by p. */
  lemma {:induction false} Pow2FloorShift(x: nat, p: nat)
    requires IsPow2(p) && x >= p
    ensures 1 <= x / p && Pow2Floor(x) == p * Pow2Floor(x / p)
  {
    hide Pow2Floor;
    if p == 1 {
      assert x / p == x;
    } else {
      var h := p / 2;
      assert p == 2 * h;
      hide *;
      Pow2FloorShift(x / 2, h);
      DivHalves(x, h);
      Pow2FloorHalf(x);
      MulHalf(h, Pow2Floor((x / 2) / h));
    }
  }

  lemma {:induction false} Pow2Adds(j: nat, k: nat)
    ensures Pow2(j + k) == Pow2(j) * Pow2(k)
  {
    hide *;
    Pow2Unfold(j);
    if j != 0 {
      Pow2Adds(j - 1, k);
      Pow2Unfold(j + k);
      MulHalf(Pow2(j - 1), Pow2(k));
    }
  }

  lemma Pow2Unfold(k: nat)
    ensures Pow2(k) == if k == 0 then 1 else 2 * Pow2(k - 1)
  {
  }

  /** Shifting out k bits keeps Pow2(c) times the top bit, when c grows by k. */
  lemma ShiftKeepsTopBit(x: nat, c: nat, k: nat)
    requires x >= Pow2(k)
    ensures 1 <= x / Pow2(k)
    ensures Pow2(c) * Pow2Floor(x) == Pow2(c + k) * Pow2Floor(x / Pow2(k))
  {
    var p := Pow2(k);
    Pow2IsPow2(k);
    Pow2FloorShift(x, p);
    Pow2Adds(c, k);
    MulAssoc(Pow2(c), p, Pow2Floor(x / p));
  }

  lemma MulAssoc(a: nat, b: nat, c: nat)
    ensures a * (b * c) == (a * b) * c
  {
  }

  /** One halving step of highest_one: test the upper half of the bits and shift it down. */
  method HighestOneStep(x: nat, c: nat, mask: nat, k: nat, ghost value: nat) returns (y: nat, d: nat)
    requires 0 < x && x / Pow2(k) < Pow2(k) && mask == Pow2(k) * (Pow2(k) - 1)
    requires 1 <= value && Pow2Floor(value) == Pow2(c) * Pow2Floor(x)
    ensures 0 < y < Pow2(k) && Pow2Floor(value) == Pow2(d) * Pow2Floor(y)
  {
    Pow2IsPow2(k);
    HighMask(x, Pow2(k), Pow2(k), mask);
    ModBelow(x, Pow2(k));
    y, d := x, c;
    if BitAnd(x, mask) != 0 {
      ShiftKeepsTopBit(x, c, k);
      y, d := x / Pow2(k), c + k;
    }
  }

  // ---------- The header's helpers ----------

  /** popcnt: clear the lowest one bit until nothing is left. */
  method Popcnt(value: nat) returns (count: nat)
    ensures count == PopCount(value)
  {
    var x := value;
    count := 0;
    while x != 0
      invariant count + PopCount(x) == PopCount(value)
    {
      count := count + 1;
      ClearLowestBit(x);
      x := BitAnd(x, x - 1);
    }
  }

  lemma Pow2Values()
    ensures Pow2(0) == 1 && Pow2(1) == 2 && Pow2(2) == 4 && Pow2(4) == 16
    ensures Pow2(8) == 0x100 && Pow2(16) == 0x1_0000 && Pow2(32) == 0x1_0000_0000
  {
    assert Pow2(1) == 2 && Pow2(2) == 4;
    hide Pow2;
    Pow2Adds(2, 2);
    Pow2Adds(4, 4);
    Pow2Adds(8, 8);
    Pow2Adds(16, 16);
  }

  lemma MulOne(n: nat)
    ensures Pow2(0) * n == n
  {
  }

  lemma TopOfOne(c: nat)
    ensures Pow2Floor(1) == 1 && Pow2(c) * Pow2Floor(1) == Pow2(c)
  {
  }

  /** highest_one, in its portable form: six mask tests, each halving the range. */
  method HighestOne(value: nat) returns (c: nat)
    requires 0 < value < 0x1_0000_0000_0000_0000
    ensures Pow2(c) == Pow2Floor(value)
  {
    hide *;
    Pow2Values();
    MulOne(Pow2Floor(value));
    var x := value;
    x, c := HighestOneStep(x, 0, 0xffff_ffff_0000_0000, 32, value);
    x, c := HighestOneStep(x, c, 0xffff_0000, 16, value);
    x, c := HighestOneStep(x, c, 0xff00, 8, value);
    x, c := HighestOneStep(x, c, 0xf0, 4, value);
    x, c := HighestOneStep(x, c, 0xc, 2, value);
    x, c := HighestOneStep(x, c, 0x2, 1, value);
    assert x == 1;
    TopOfOne(c);
  }

  /** round_down_to_power_of_2: shift one left by the highest bit of x | 1. */
  method RoundDownToPowerOf2(x: nat) returns (r: nat)
    requires x < 0x1_0000_0000_0000_0000
    ensures r == if x == 0 then 1 else Pow2Floor(x)
  {
    var orOne := if x % 2 == 0 then x + 1 else x;
    var h := HighestOne(orOne);
    r := Pow2(h);
  }
}
