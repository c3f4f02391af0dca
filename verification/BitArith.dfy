/** The bitwise operators on words of any width, as functions on natural numbers. */
module BitArith {

  function Pow2(k: nat): (p: nat)
    ensures p > 0
  {
    if k == 0 then 1 else 2 * Pow2(k - 1)
  }

  function And(x: nat, y: nat): (r: nat)
    ensures r <= x && r <= y
  {
    if x == 0 || y == 0 then 0
    else 2 * And(x / 2, y / 2) + if x % 2 == 1 && y % 2 == 1 then 1 else 0
  }

  function Or(x: nat, y: nat): nat {
    if x == 0 then y else if y == 0 then x
    else 2 * Or(x / 2, y / 2) + if x % 2 == 1 || y % 2 == 1 then 1 else 0
  }

  /** The complement within a word of `w` bits. */
  function Not(x: nat, w: nat): nat
    requires x < Pow2(w)
  {
    Pow2(w) - 1 - x
  }

  lemma {:induction false} Pow2Monotone(j: nat, k: nat)
    requires j < k
    ensures Pow2(j) < Pow2(k) && 2 * Pow2(j) <= Pow2(k)
  {
    if j + 1 < k {
      Pow2Monotone(j, k - 1);
    }
  }

  lemma {:induction false} Pow2Sum(j: nat, k: nat)
    ensures Pow2(j + k) == Pow2(j) * Pow2(k)
  {
    if k > 0 {
      Pow2Sum(j, k - 1);
      assert j + k - 1 == j + (k - 1);
      assert Pow2(j + k) == 2 * Pow2(j + (k - 1));
      assert Pow2(j) * (2 * Pow2(k - 1)) == 2 * (Pow2(j) * Pow2(k - 1));
    }
  }

  /** Dividing out a factor two keeps quotient and remainder apart. */
  lemma {:induction false} HalfDiv(x: nat, m: nat)
    requires m > 0
    ensures x % (2 * m) == x / 2 % m * 2 + x % 2 && x / (2 * m) == x / 2 / m
  {
    var h, q, r := x / 2, x / 2 / m, x / 2 % m;
    assert h == q * m + r;
    assert x == 2 * h + x % 2;
    assert x == q * (2 * m) + (2 * r + x % 2);
    DivUnique(x, 2 * m, q, 2 * r + x % 2);
  }

  lemma {:induction false} MulLess(a: nat, b: nat, m: nat)
    requires a < b
    ensures a * m + m <= b * m
  {
    if m > 0 {
      MulLess(a, b, m - 1);
      assert a * m == a * (m - 1) + a && b * m == b * (m - 1) + b;
    }
  }

  lemma {:induction false} DivUnique(x: nat, m: nat, q: nat, r: nat)
    requires x == q * m + r && r < m
    ensures x / m == q && x % m == r
  {
    var q' := x / m;
    assert x == q' * m + x % m;
    if q' < q {
      MulLess(q', q, m);
    } else if q < q' {
      MulLess(q, q', m);
    }
  }

  lemma SmallMod(x: nat, m: nat)
    requires x < m
    ensures x % m == x
  {
  }

  lemma AndStep(x: nat, y: nat)
    ensures And(x, y) == 2 * And(x / 2, y / 2) + if x % 2 == 1 && y % 2 == 1 then 1 else 0
  {
  }

  lemma AndOdd(x: nat, m: nat)
    requires m > 0
    ensures And(x, 2 * m - 1) == 2 * And(x / 2, m - 1) + x % 2
  {
    hide And;
    AndStep(x, 2 * m - 1);
    assert (2 * m - 1) / 2 == m - 1 && (2 * m - 1) % 2 == 1;
  }

  lemma AndEven(x: nat, m: nat)
    ensures And(x, 2 * m) == 2 * And(x / 2, m)
  {
    hide And;
    AndStep(x, 2 * m);
  }

  /** Masking with the `k` low bits is the remainder modulo 2^k. */
  lemma {:induction false} AndLowMask(x: nat, k: nat)
    ensures And(x, Pow2(k) - 1) == x % Pow2(k)
  {
    hide And;
    if k == 0 {
      AndZero(x);
      DivUnique(x, 1, x, 0);
    } else {
      var m := Pow2(k - 1);
      assert Pow2(k) == 2 * m;
      hide Pow2;
      AndLowMask(x / 2, k - 1);
      LowMaskStep(x, m);
    }
  }

  lemma AndZero(x: nat)
    ensures And(x, 0) == 0
  {
  }

  lemma {:induction false} LowMaskStep(x: nat, m: nat)
    requires m > 0 && And(x / 2, m - 1) == x / 2 % m
    ensures And(x, 2 * m - 1) == x % (2 * m)
  {
    hide And;
    AndOdd(x, m);
    HalfDiv(x, m);
  }

  /** Masking with all bits but the `k` low ones rounds down to a multiple of 2^k. */
  lemma {:induction false} AndHighMask(x: nat, k: nat, w: nat)
    requires k <= w && x < Pow2(w)
    ensures Pow2(k) <= Pow2(w) && And(x, Pow2(w) - Pow2(k)) == x - x % Pow2(k)
  {
    hide And;
    if k == 0 {
      AndAllBits(x, w);
    } else {
      var m, n := Pow2(k - 1), Pow2(w - 1);
      assert Pow2(k) == 2 * m && Pow2(w) == 2 * n;
      hide Pow2;
      AndHighMask(x / 2, k - 1, w - 1);
      HighMaskStep(x, m, n);
    }
  }

  lemma AndAllBits(x: nat, w: nat)
    requires x < Pow2(w)
    ensures And(x, Pow2(w) - Pow2(0)) == x - x % Pow2(0)
  {
    hide And;
    AndLowMask(x, w);
    SmallMod(x, Pow2(w));
    DivUnique(x, 1, x, 0);
  }

  lemma {:induction false} HighMaskStep(x: nat, m: nat, n: nat)
    requires 0 < m <= n && And(x / 2, n - m) == x / 2 - x / 2 % m
    ensures And(x, 2 * n - 2 * m) == x - x % (2 * m)
  {
    hide And;
    AndEven(x, n - m);
    assert 2 * (n - m) == 2 * n - 2 * m;
    HalfDiv(x, m);
  }

  /** Or-ing into bits that are zero is adding. */
  lemma {:induction false} OrIntoZeros(x: nat, y: nat, k: nat)
    requires x % Pow2(k) == 0 && y < Pow2(k)
    ensures Or(x, y) == x + y
  {
    if k > 0 && x > 0 && y > 0 {
      var m := Pow2(k - 1);
      HalfDiv(x, m);
      OrIntoZeros(x / 2, y / 2, k - 1);
    }
  }
}
