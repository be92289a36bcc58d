/** Bitwise operations on unsigned integers, and what masks mean arithmetically. */
module Bits {
  import opened Numbers

  function Or(a: nat, b: nat): nat
    decreases a + b
  {
    if a == 0 && b == 0 then 0
    else 2 * Or(a / 2, b / 2) + (if a % 2 == 1 || b % 2 == 1 then 1 else 0)
  }

  function And(a: nat, b: nat): nat
    decreases a + b
  {
    if a == 0 && b == 0 then 0
    else 2 * And(a / 2, b / 2) + (if a % 2 == 1 && b % 2 == 1 then 1 else 0)
  }

  lemma {:induction false} OrZero(a: nat)
    ensures Or(a, 0) == a
  {
    if a > 0 {
      OrZero(a / 2);
    }
  }

  lemma {:induction false} AndZero(a: nat)
    ensures And(a, 0) == 0
  {
    if a > 0 {
      AndZero(a / 2);
    }
  }

  /** Setting bits that are clear is addition. */
  lemma {:induction false} OrIsSum(a: nat, b: nat, k: nat)
    requires b < Pow2(k)
    ensures Or(Pow2(k) * a, b) == Pow2(k) * a + b
  {
    if k == 0 {
      OrZero(a);
    } else {
      MulAssociates(2, Pow2(k - 1), a);
      OrIsSum(a, b / 2, k - 1);
      var x := Pow2(k - 1) * a;
      DoubleHalves(x);
      if x == 0 && b == 0 {
        assert Or(2 * x, b) == 0;
      } else {
        assert Or(2 * x, b) == 2 * Or(2 * x / 2, b / 2) + (if b % 2 == 1 then 1 else 0);
      }
    }
  }

  lemma DoubleHalves(x: int)
    ensures 2 * x / 2 == x && 2 * x % 2 == 0
  {
  }

  /** Masking with k low ones is the remainder. */
  lemma {:induction false} AndLowMask(x: nat, k: nat)
    ensures And(x, Pow2(k) - 1) == x % Pow2(k)
  {
    if k == 0 {
      AndZero(x);
      DivModUnique(x, 1, x, 0);
    } else {
      var m := Pow2(k - 1);
      AndLowMask(x / 2, k - 1);
      assert (2 * m - 1) / 2 == m - 1 && (2 * m - 1) % 2 == 1;
      DivModEquation(x / 2, m);
      MulAssociates(2, m, x / 2 / m);
      DivModUnique(x, 2 * m, x / 2 / m, 2 * (x / 2 % m) + x % 2);
    }
  }

  /** Masking with a shifted mask is masking the shifted number. */
  lemma {:induction false} AndShifted(x: nat, m: nat, k: nat)
    ensures And(x, Pow2(k) * m) == Pow2(k) * And(Quot(x, Pow2(k)), m)
  {
    if k == 0 {
      DivModUnique(x, 1, x, 0);
    } else {
      var p := Pow2(k - 1);
      AndShifted(x / 2, m, k - 1);
      MulAssociates(2, p, m);
      HalfThenDivide(x, p);
      MulAssociates(2, p, And(Quot(x, 2 * p), m));
      if x == 0 && p * m == 0 {
        AndZero(x);
        assert m == 0 || p == 0;
        AndZero(Quot(x, 2 * p));
      } else {
        AndUnfolds(x, p * m);
      }
    }
  }

  lemma AndUnfolds(x: nat, y: nat)
    requires x != 0 || y != 0
    ensures And(x, 2 * y) == 2 * And(x / 2, y)
  {
    hide And;
    AndHalves(x, 2 * y);
    DoubleHalves(y);
  }

  lemma AndHalves(x: nat, y: nat)
    requires x != 0 || y != 0
    ensures And(x, y) == 2 * And(x / 2, y / 2) + (if x % 2 == 1 && y % 2 == 1 then 1 else 0)
  {
  }

  lemma HalfThenDivide(x: nat, p: nat)
    requires p > 0
    ensures Quot(x, 2 * p) == Quot(x / 2, p)
  {
    DivModEquation(x / 2, p);
    MulAssociates(2, p, x / 2 / p);
    DivModUnique(x, 2 * p, x / 2 / p, 2 * (x / 2 % p) + x % 2);
  }

  /** Clearing the k low bits of a number below 2^n. */
  lemma AndHighMask(x: nat, k: nat, n: nat)
    requires k <= n && x < Pow2(n)
    ensures Pow2(k) <= Pow2(n) && And(x, Pow2(n) - Pow2(k)) == x - x % Pow2(k)
  {
    Pow2Ordered(k, n);
    var p, c := Pow2(k), Pow2(n - k);
    Pow2Sum(k, n - k);
    MulDistributes(p, c, -1);
    DivModEquation(x, p);
    AndShifted(x, c - 1, k);
    AndLowMask(x / p, n - k);
    QuotientBelow(x, p, c);
    DivModUnique(x / p, c, 0, x / p);
  }

  lemma QuotientBelow(x: nat, p: nat, c: nat)
    requires p > 0 && x < p * c
    ensures 0 <= x / p < c
  {
    DivModEquation(x, p);
    if x / p >= c {
      MulMonotone(p, c, x / p);
    }
  }
}
