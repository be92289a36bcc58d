/** Machine integers, powers of two, and the few facts of nonlinear arithmetic
    that the other modules share. */
module Numbers {

  const U16_SIZE := 0x1_0000
  const U32_SIZE := 0x1_0000_0000
  const U64_SIZE := 0x1_0000_0000_0000_0000

  type u8 = x: int | 0 <= x < 0x100
  type u16 = x: int | 0 <= x < 0x1_0000
  type u32 = x: int | 0 <= x < 0x1_0000_0000
  type u64 = x: int | 0 <= x < 0x1_0000_0000_0000_0000
  type i16 = x: int | -0x8000 <= x < 0x8000
  type i32 = x: int | -0x8000_0000 <= x < 0x8000_0000
  type i64 = x: int | -0x8000_0000_0000_0000 <= x < 0x8000_0000_0000_0000

  function Pow2(k: nat): (p: nat)
    ensures p > 0
  {
    if k == 0 then 1 else 2 * Pow2(k - 1)
  }

  lemma Pow2Values()
    ensures Pow2(4) == 0x10 && Pow2(8) == 0x100 && Pow2(10) == 0x400 && Pow2(12) == 0x1000
    ensures Pow2(16) == 0x1_0000 && Pow2(22) == 0x40_0000 && Pow2(30) == 0x4000_0000 && Pow2(31) == 0x8000_0000
    ensures Pow2(32) == 0x1_0000_0000 && Pow2(64) == 0x1_0000_0000_0000_0000
  {
    assert Pow2(8) == 0x100;
    assert Pow2(16) == 0x1_0000;
    Pow2Sum(16, 16);
    assert Pow2(14) == 0x4000;
    Pow2Sum(16, 14);
    Pow2Sum(16, 15);
    Pow2Sum(32, 32);
  }

  lemma {:induction false} Pow2Sum(i: nat, j: nat)
    ensures Pow2(i + j) == Pow2(i) * Pow2(j)
  {
    if i > 0 {
      Pow2Sum(i - 1, j);
      assert Pow2(i + j) == 2 * Pow2(i - 1 + j);
      MulAssociates(2, Pow2(i - 1), Pow2(j));
    }
  }

  lemma {:induction false} Pow2Increases(i: nat, j: nat)
    requires i < j
    ensures 2 * Pow2(i) <= Pow2(j)
  {
    if i + 1 < j {
      Pow2Increases(i, j - 1);
    }
  }

  lemma {:induction false} Pow2Ordered(i: nat, j: nat)
    requires i <= j
    ensures Pow2(i) <= Pow2(j)
  {
    if i < j {
      Pow2Increases(i, j);
    }
  }

  lemma MulMonotone(a: int, b: int, c: int)
    requires a >= 0 && b <= c
    ensures a * b <= a * c
  {
  }

  /** Unsigned division; the shift n >> k is Quot(n, Pow2(k)). */
  function Quot(n: nat, d: nat): nat
    requires d > 0
  {
    n / d
  }

  lemma MulAssociates(a: int, b: int, c: int)
    ensures a * (b * c) == (a * b) * c
  {
  }

  lemma MulDistributes(a: int, b: int, c: int)
    ensures a * (b + c) == a * b + a * c
    ensures (b + c) * a == b * a + c * a
  {
  }

  /** Quotient and remainder are determined by their defining equation. */
  lemma DivModUnique(x: int, d: int, q: int, r: int)
    requires d > 0 && 0 <= r < d
    requires x == d * q + r
    ensures x / d == q && x % d == r
  {
    var e := x / d - q;
    assert x == d * (x / d) + x % d;
    assert d * e == d * (x / d) - d * q by { MulDistributes(d, x / d, -q); }
    if e > 0 {
      MulGrows(d, e);
      assert false;
    } else if e < 0 {
      MulGrows(d, -e);
      assert false;
    }
  }

  lemma MulGrows(a: int, b: int)
    requires a > 0 && b > 0
    ensures a * b >= a
  {
  }

  lemma ModPlusMultiple(x: int, d: int, k: int)
    requires d > 0
    ensures (x + d * k) % d == x % d
    ensures (x + d * k) / d == x / d + k
  {
    assert x == d * (x / d) + x % d;
    MulDistributes(d, x / d, k);
    DivModUnique(x + d * k, d, x / d + k, x % d);
  }

  lemma DivModEquation(x: int, d: int)
    requires d > 0
    ensures x == d * (x / d) + x % d && 0 <= x % d < d
  {
  }

  /** Two numbers leave the same remainder exactly when their difference is a multiple. */
  lemma SameRemainder(x: int, y: int, d: int)
    requires d > 0
    ensures x % d == y % d <==> (y - x) % d == 0
  {
    DivModEquation(y - x, d);
    var s := (y - x) / d;
    if (y - x) % d == 0 {
      assert y == x + d * s;
      ModPlusMultiple(x, d, s);
    }
    if x % d == y % d {
      DifferenceOfMultiples(x, y, d);
    }
  }

  lemma DifferenceOfMultiples(x: int, y: int, d: int)
    requires d > 0 && x % d == y % d
    ensures (y - x) % d == 0
  {
    var q, r := x / d, y / d;
    DivModEquation(x, d);
    DivModEquation(y, d);
    assert y - x == d * (r - q) by {
      MulDistributes(d, r, -q);
    }
    MultipleModZero(d, r - q);
  }

  lemma MultipleModZero(d: int, q: int)
    requires d > 0
    ensures (d * q) % d == 0 && (d * q) / d == q
  {
    DivModUnique(d * q, d, q, 0);
  }

  /** Reducing modulo a multiple of d first does not matter. */
  lemma ModOfMod(x: int, d: int, c: int)
    requires d > 0 && c > 0 && d * c > 0
    ensures x % (d * c) % d == x % d
  {
    var m := d * c;
    assert x == x % m + m * (x / m);
    MulAssociates(d, c, x / m);
    ModPlusMultiple(x % m, d, c * (x / m));
  }

  ghost function Image<T>(g: int -> T, size: nat): set<T> {
    set w | 0 <= w < size :: g(w)
  }

  /** A function that is one-to-one on 0..size-1 has that many values there. */
  lemma {:induction false} ImageSize<T>(g: int -> T, size: nat)
    requires forall v, w | 0 <= v < w < size :: g(v) != g(w)
    ensures |Image(g, size)| == size
  {
    if size > 0 {
      ImageSize(g, size - 1);
      assert g(size - 1) !in Image(g, size - 1);
      assert Image(g, size) == Image(g, size - 1) + {g(size - 1)};
    }
  }
}
