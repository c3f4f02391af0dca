/** bits.h: powers of two, alignment, counting zero bits and logarithms. */
module Bits {
  import opened BitArith

  // ------------------------------------------------------------ powers of two

  predicate IsPowerOfTwo(value: int) {
    value > 0 && And(value, value - 1) == 0
  }

  lemma {:induction false} PowerHasOneBit(k: nat)
    ensures And(Pow2(k), Pow2(k) - 1) == 0
  {
    if k > 0 {
      hide And;
      var m := Pow2(k - 1);
      assert Pow2(k) == 2 * m;
      hide Pow2;
      PowerHasOneBit(k - 1);
      AndOdd(2 * m, m);
    }
  }

  lemma {:induction false} OneBitIsPower(x: nat) returns (k: nat)
    requires x > 0 && And(x, x - 1) == 0
    ensures x == Pow2(k)
  {
    if x == 1 {
      k := 0;
    } else {
      if x % 2 == 1 {
        assert (x - 1) / 2 == x / 2;
        AndSelf(x / 2);
      }
      assert (x - 1) / 2 == x / 2 - 1;
      var j := OneBitIsPower(x / 2);
      k := j + 1;
    }
  }

  lemma {:induction false} AndSelf(x: nat)
    ensures And(x, x) == x
  {
    if x > 0 {
      AndSelf(x / 2);
    }
  }

  /** Exactly the powers of two are accepted; zero and negative numbers are not. */
  lemma IsPowerOfTwoExact(value: int)
    ensures IsPowerOfTwo(value) <==> exists k: nat :: value == Pow2(k)
  {
    if IsPowerOfTwo(value) {
      var k := OneBitIsPower(value);
    }
    if k: nat :| value == Pow2(k) {
      PowerHasOneBit(k);
    }
  }

  // ---------------------------------------------------------------- alignment

  /** Align on words of `w` bits: the sum wraps around. */
  function Align(size: nat, alignment: nat, w: nat): nat
    requires 0 < alignment <= Pow2(w)
  {
    And((size + alignment - 1) % Pow2(w), Not(alignment - 1, w))
  }

  function AlignDown(size: nat, alignment: nat, w: nat): nat
    requires 0 < alignment <= Pow2(w)
  {
    And(size, Not(alignment - 1, w))
  }

  predicate MultipleOf(x: nat, a: nat)
    requires a > 0
  {
    x % a == 0
  }

  ghost predicate LeastAbove(r: nat, size: nat, a: nat)
    requires a > 0
  {
    r >= size && MultipleOf(r, a) && forall m: nat :: MultipleOf(m, a) && m >= size ==> r <= m
  }

  ghost predicate GreatestBelow(r: nat, size: nat, a: nat)
    requires a > 0
  {
    r <= size && MultipleOf(r, a) && forall m: nat :: MultipleOf(m, a) && m <= size ==> m <= r
  }

  lemma {:induction false} MaskRounds(x: nat, a: nat, w: nat)
    requires IsPowerOfTwo(a) && a < Pow2(w) && x < Pow2(w)
    ensures And(x, Not(a - 1, w)) == x - x % a
  {
    IsPowerOfTwoExact(a);
    var k: nat :| a == Pow2(k);
    if k >= w {
      Pow2AtLeast(w, k);
    }
    AndHighMask(x, k, w);
  }

  lemma Pow2AtLeast(j: nat, k: nat)
    requires j <= k
    ensures Pow2(j) <= Pow2(k)
  {
    if j < k {
      Pow2Monotone(j, k);
    }
  }

  lemma {:induction false} RoundedDown(x: nat, a: nat)
    requires a > 0
    ensures GreatestBelow(x - x % a, x, a)
  {
    var q := x / a;
    assert x - x % a == q * a;
    DivUnique(q * a, a, q, 0);
    forall m: nat | MultipleOf(m, a) && m <= x ensures m <= q * a {
      assert m == m / a * a;
      if m / a > q {
        MulLess(q, m / a, a);
      } else if m / a < q {
        MulLess(m / a, q, a);
      }
    }
  }

  /** AlignDown is the greatest multiple at or below the size. */
  lemma {:induction false} AlignDownExact(size: nat, a: nat, w: nat)
    requires IsPowerOfTwo(a) && a < Pow2(w) && size < Pow2(w)
    ensures GreatestBelow(AlignDown(size, a, w), size, a)
  {
    assert a > 0;
    hide And, IsPowerOfTwo, Pow2, GreatestBelow;
    MaskRounds(size, a, w);
    RoundedDown(size, a);
  }

  lemma {:induction false} RoundedUp(size: nat, a: nat)
    requires a > 0
    ensures var x := size + a - 1; LeastAbove(x - x % a, size, a)
  {
    var x := size + a - 1;
    var q := x / a;
    assert x - x % a == q * a;
    DivUnique(q * a, a, q, 0);
    forall m: nat | MultipleOf(m, a) && m >= size ensures q * a <= m {
      assert m == m / a * a;
      if m / a < q {
        MulLess(m / a, q, a);
      } else if m / a > q {
        MulLess(q, m / a, a);
      }
    }
  }

  lemma {:induction false} AlignNoWrap(size: nat, a: nat, w: nat)
    requires IsPowerOfTwo(a) && a < Pow2(w) && size < Pow2(w) && size + a - 1 < Pow2(w)
    ensures LeastAbove(Align(size, a, w), size, a)
  {
    assert a > 0;
    hide And, IsPowerOfTwo, LeastAbove, Pow2;
    var x := size + a - 1;
    SmallMod(x, Pow2(w));
    MaskRounds(x, a, w);
    RoundedUp(size, a);
  }

  lemma {:induction false} AlignWraps(size: nat, a: nat, w: nat)
    requires IsPowerOfTwo(a) && a < Pow2(w) && size < Pow2(w) && size + a - 1 >= Pow2(w)
    ensures Align(size, a, w) == 0 < size
  {
    hide And, IsPowerOfTwo, Pow2;
    var x := size + a - 1;
    DivUnique(x, Pow2(w), 1, x - Pow2(w));
    MaskRounds(x - Pow2(w), a, w);
    SmallMod(x - Pow2(w), a);
  }

  /** Align is the least multiple at or above the size exactly when the sum it forms does
      not overflow; otherwise it wraps around to zero. */
  lemma {:induction false} AlignExact(size: nat, a: nat, w: nat)
    requires IsPowerOfTwo(a) && a < Pow2(w) && size < Pow2(w)
    ensures LeastAbove(Align(size, a, w), size, a) <==> size + a - 1 < Pow2(w)
    ensures size + a - 1 >= Pow2(w) ==> Align(size, a, w) == 0
  {
    hide Align, IsPowerOfTwo;
    if size + a - 1 < Pow2(w) {
      AlignNoWrap(size, a, w);
    } else {
      AlignWraps(size, a, w);
    }
  }

  // ------------------------------------------------------- counting zero bits

  /** The index of the highest one bit (_BitScanReverse). */
  function HighBit(x: nat): (h: nat)
    requires x > 0
    ensures Pow2(h) <= x < Pow2(h + 1)
  {
    if x == 1 then 0 else HighBit(x / 2) + 1
  }

  /** The index of the lowest one bit (_BitScanForward). */
  function LowBit(x: nat): nat
    requires x > 0
  {
    if x % 2 == 1 then 0 else LowBit(x / 2) + 1
  }

  /** Types of up to 32 bits, scanned as 32-bit words. */
  function CountLeadingZeroBits(x: nat, bits: nat): int {
    if x != 0 then 31 - HighBit(x) - (32 - bits) else bits
  }

  function CountLeadingZeroBits64(x: nat): int {
    if x != 0 then 63 - HighBit(x) else 64
  }

  const HALF := 0x1_0000_0000

  /** The 64-bit count where only 32-bit words can be scanned. */
  function CountLeadingZeroBitsInHalves(x: nat): int {
    var left, right := x / HALF, x % HALF;
    if left != 0 then 31 - HighBit(left)
    else if right != 0 then 63 - HighBit(right)
    else 64
  }

  function CountTrailingZeroBits(x: nat, bits: nat): nat {
    if x != 0 then LowBit(x) else bits
  }

  function CountTrailingZeroBits64(x: nat): nat {
    if x != 0 then LowBit(x) else 64
  }

  function CountTrailingZeroBitsInHalves(x: nat): nat {
    var right, left := x % HALF, x / HALF;
    if right != 0 then LowBit(right)
    else if left != 0 then 32 + LowBit(left)
    else 64
  }

  lemma {:induction false} HighBitUnique(x: nat, h: nat)
    requires Pow2(h) <= x < Pow2(h + 1)
    ensures HighBit(x) == h
  {
    var g := HighBit(x);
    if g < h {
      Pow2AtLeast(g + 1, h);
    } else if h < g {
      Pow2AtLeast(h + 1, g);
    }
  }

  lemma {:induction false} HighBitShifted(x: nat, k: nat)
    requires x / Pow2(k) > 0
    ensures x > 0 && HighBit(x) == HighBit(x / Pow2(k)) + k
  {
    if k > 0 {
      var m := Pow2(k - 1);
      HalfDiv(x, m);
      HighBitShifted(x / 2, k - 1);
    }
  }

  lemma {:induction false} LowBitShifted(x: nat, k: nat)
    requires x > 0 && x % Pow2(k) == 0
    ensures x / Pow2(k) > 0 && LowBit(x) == LowBit(x / Pow2(k)) + k
  {
    if k > 0 {
      var m := Pow2(k - 1);
      HalfDiv(x, m);
      LowBitShifted(x / 2, k - 1);
    }
  }

  lemma {:induction false} LowBitOfRemainder(x: nat, k: nat)
    requires x % Pow2(k) > 0
    ensures x > 0 && LowBit(x) == LowBit(x % Pow2(k))
  {
    if k > 0 {
      var m := Pow2(k - 1);
      HalfDiv(x, m);
      if x % 2 == 0 {
        LowBitOfRemainder(x / 2, k - 1);
        assert x % (2 * m) / 2 == x / 2 % m;
      }
    }
  }

  lemma {:induction false} Pow2Of32()
    ensures Pow2(32) == HALF
  {
    assert Pow2(8) == 256;
    Pow2Sum(8, 8);
    Pow2Sum(16, 16);
  }

  /** Scanning in halves gives the same counts as scanning the whole word. */
  lemma {:induction false} HalvesAgree(x: nat)
    requires x < HALF * HALF
    ensures CountLeadingZeroBitsInHalves(x) == CountLeadingZeroBits64(x)
    ensures CountTrailingZeroBitsInHalves(x) == CountTrailingZeroBits64(x)
  {
    hide HighBit, LowBit, Pow2;
    Pow2Of32();
    var left, right := x / HALF, x % HALF;
    assert x == left * HALF + right;
    if left != 0 {
      HighBitShifted(x, 32);
    } else {
      assert right == x;
    }
    if right != 0 {
      LowBitOfRemainder(x, 32);
    } else if x != 0 {
      LowBitShifted(x, 32);
    }
  }

  /** The count is the number of bits above the highest one bit: all of them for zero. */
  lemma {:induction false} LeadingZerosExact(x: nat, bits: nat)
    requires x < Pow2(bits)
    ensures var n := CountLeadingZeroBits(x, bits);
      && 0 <= n <= bits && x < Pow2(bits - n) && (x > 0 ==> n < bits && Pow2(bits - n - 1) <= x)
  {
    if x > 0 && HighBit(x) >= bits {
      Pow2AtLeast(bits, HighBit(x));
    }
  }

  lemma {:induction false} LowBitExact(x: nat)
    requires x > 0
    ensures x % Pow2(LowBit(x)) == 0 && x / Pow2(LowBit(x)) % 2 == 1 && Pow2(LowBit(x)) <= x
  {
    if x % 2 == 0 {
      LowBitExact(x / 2);
      HalfDiv(x, Pow2(LowBit(x / 2)));
    }
  }

  /** The count is the exponent of the largest power of two that divides the value, below
      the width, and the width for zero. */
  lemma TrailingZerosExact(x: nat, bits: nat)
    requires x < Pow2(bits)
    ensures var n := CountTrailingZeroBits(x, bits);
      && n <= bits && (n == bits <==> x == 0)
      && (x > 0 ==> x % Pow2(n) == 0 && x / Pow2(n) % 2 == 1)
  {
    hide LowBit;
    if x > 0 {
      LowBitExact(x);
      if LowBit(x) >= bits {
        Pow2AtLeast(bits, LowBit(x));
      }
    }
  }

  /** The 64-bit counts are those counts for 64 bits. */
  lemma {:induction false} ZerosOf64(x: nat)
    requires x < Pow2(64)
    ensures var n := CountLeadingZeroBits64(x);
      0 <= n <= 64 && x < Pow2(64 - n) && (x > 0 ==> n < 64 && Pow2(64 - n - 1) <= x)
    ensures var n := CountTrailingZeroBits64(x);
      n <= 64 && (n == 64 <==> x == 0) && (x > 0 ==> x % Pow2(n) == 0 && x / Pow2(n) % 2 == 1)
  {
    hide LowBit, HighBit, Pow2;
    LeadingZerosExact(x, 64);
    TrailingZerosExact(x, 64);
  }

  // --------------------------------------------------------------- logarithms

  function Log2Floor(n: nat): int {
    31 - CountLeadingZeroBits(n, 32)
  }

  /** The subtraction wraps around for zero. */
  function Log2Ceiling(n: nat): int {
    (if n != 0 then 32 else -1) - CountLeadingZeroBits(if n == 0 then HALF - 1 else n - 1, 32)
  }

  /** Both logarithms bracket every positive number between adjacent powers of two, and are
      -1 for zero. */
  lemma {:induction false} LogarithmsBracket(n: nat)
    requires n < HALF
    ensures n == 0 ==> Log2Floor(n) == -1 && Log2Ceiling(n) == -1
    ensures n > 0 ==> var f := Log2Floor(n); 0 <= f < 32 && Pow2(f) <= n < Pow2(f + 1)
    ensures n > 0 ==> var c := Log2Ceiling(n); 0 <= c <= 32 && n <= Pow2(c) && (c > 0 ==> Pow2(c - 1) < n)
    ensures n > 0 ==> Log2Ceiling(n) == Log2Floor(n) + if IsPowerOfTwo(n) then 0 else 1
  {
    hide IsPowerOfTwo, HighBit;
    Pow2Of32();
    if n == 0 {
      HighBitOfAll();
    } else {
      hide Pow2;
      LeadingZerosExact(n, 32);
      LeadingZerosExact(n - 1, 32);
      CeilingAboveFloor(n);
    }
  }

  lemma {:induction false} HighBitOfAll()
    ensures HighBit(HALF - 1) == 31
  {
    hide HighBit;
    Pow2Of32();
    HighBitUnique(HALF - 1, 31);
  }

  lemma {:induction false} CeilingAboveFloor(n: nat)
    requires 0 < n < HALF
    ensures Log2Ceiling(n) == Log2Floor(n) + if IsPowerOfTwo(n) then 0 else 1
  {
    hide And;
    var f := HighBit(n);
    if IsPowerOfTwo(n) {
      IsPowerOfTwoExact(n);
      var k: nat :| n == Pow2(k);
      HighBitUnique(n, k);
      if k > 0 {
        HighBitUnique(n - 1, k - 1);
      }
    } else {
      if n == Pow2(f) {
        IsPowerOfTwoExact(n);
      }
      HighBitUnique(n - 1, f);
    }
  }
}
