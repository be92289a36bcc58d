/** The linear congruential generator of src/main.c: one 32-bit state word, of
    which a call returns bits 16 to 30. */
module Random {
  import opened Numbers

  const MULTIPLIER := 1103515245
  const INCREMENT := 12345

  function Next(x: u32): u32 {
    (x * MULTIPLIER + INCREMENT) % U32_SIZE
  }

  function Output(x: u32): u32 {
    x / 65536 % 32768
  }

  class Generator {
    var nextRand: u32

    constructor ()
      ensures nextRand == 1
    {
      nextRand := 1;
    }

    method Krand() returns (r: u32)
      modifies this
      ensures nextRand == Next(old(nextRand))
      ensures r == Output(nextRand)
    {
      nextRand := (nextRand * 1103515245 + 12345) % U32_SIZE;
      r := nextRand / 65536 % 32768;
    }

    method Srand(seed: u32)
      modifies this
      ensures nextRand == seed
    {
      nextRand := seed;
    }
  }

  /** The state after n calls that follow srand(seed). */
  ghost function State(seed: u32, n: nat): u32 {
    if n == 0 then seed else Next(State(seed, n - 1))
  }

  /** The value returned by call number n, counting from 0. */
  ghost function Returned(seed: u32, n: nat): u32 {
    Output(State(seed, n + 1))
  }

  /** The state begins at 1, and then goes on like this. States 0 and 1 determine both constants of
      the recurrence. */
  lemma FirstValues()
    ensures State(0, 1) == 12345 && State(1, 1) == 1103527590
    ensures Returned(1, 0) == 16838 && Returned(1, 1) == 5758 && Returned(1, 2) == 10113
  {
    assert State(0, 1) == Next(0);
    assert State(1, 1) == Next(1) == 1103527590;
    assert State(1, 2) == Next(1103527590) == 2524885223;
    assert State(1, 3) == Next(2524885223) == 662824084;
  }

  // ----- The recurrence over the integers, without truncation

  ghost function Lift(n: nat, x: int): int {
    if n == 0 then x else MULTIPLIER * Lift(n - 1, x) + INCREMENT
  }

  ghost function Power(n: nat): int {
    if n == 0 then 1 else MULTIPLIER * Power(n - 1)
  }

  lemma {:induction false} StateIsLift(seed: u32, n: nat)
    ensures State(seed, n) == Lift(n, seed) % U32_SIZE
  {
    if n > 0 {
      StateIsLift(seed, n - 1);
      var l := Lift(n - 1, seed);
      var s := State(seed, n - 1);
      assert l == U32_SIZE * (l / U32_SIZE) + s;
      assert MULTIPLIER * l + INCREMENT == (s * MULTIPLIER + INCREMENT) + U32_SIZE * (MULTIPLIER * (l / U32_SIZE));
      ModPlusMultiple(s * MULTIPLIER + INCREMENT, U32_SIZE, MULTIPLIER * (l / U32_SIZE));
    }
  }

  lemma {:induction false} StateAdds(seed: u32, m: nat, n: nat)
    ensures State(State(seed, m), n) == State(seed, m + n)
  {
    if n > 0 {
      StateAdds(seed, m, n - 1);
    }
  }

  lemma {:induction false} LiftAdds(m: nat, n: nat, x: int)
    ensures Lift(n, Lift(m, x)) == Lift(m + n, x)
  {
    if n > 0 {
      LiftAdds(m, n - 1, x);
    }
  }

  lemma {:induction false} LiftIsAffine(n: nat, x: int, y: int)
    ensures Lift(n, x) - Lift(n, y) == Power(n) * (x - y)
  {
    if n > 0 {
      LiftIsAffine(n - 1, x, y);
      MulAssociates(MULTIPLIER, Power(n - 1), x - y);
    }
  }

  lemma {:induction false} PowerIsOneModFour(n: nat)
    ensures Power(n) % 4 == 1
  {
    if n > 0 {
      PowerIsOneModFour(n - 1);
      var q := Power(n - 1) / 4;
      assert Power(n) == MULTIPLIER * (4 * q + 1);
      OneModFour(q);
    }
  }

  lemma OneModFour(q: int)
    ensures MULTIPLIER * (4 * q + 1) % 4 == 1
  {
    var m := 275878811;
    MulDistributes(MULTIPLIER, 4 * q, 1);
    MulAssociates(MULTIPLIER, 4, q);
    MulAssociates(4, MULTIPLIER, q);
    DivModUnique(MULTIPLIER * (4 * q + 1), 4, MULTIPLIER * q + m, 1);
  }

  /** Doubling the number of steps multiplies the distance travelled by twice an odd number. */
  lemma TravelDoubles(n: nat, x: int) returns (o: int)
    ensures Lift(2 * n, x) - x == 2 * (o * (Lift(n, x) - x))
    ensures o % 2 == 1
  {
    LiftAdds(n, n, x);
    LiftIsAffine(n, Lift(n, x), x);
    PowerIsOneModFour(n);
    o := (Power(n) + 1) / 2;
    TwiceOdd(Power(n), o, Lift(n, x) - x);
  }

  lemma TwiceOdd(p: int, o: int, d: int)
    requires p % 4 == 1 && o == (p + 1) / 2
    ensures p * d + d == 2 * (o * d)
    ensures o % 2 == 1
  {
    MulDistributes(d, p, 1);
    MulAssociates(2, o, d);
  }

  lemma {:induction false} StepFlipsParity(n: nat, x: int)
    ensures (Lift(n, x) - x) % 2 == n % 2
  {
    if n > 0 {
      StepFlipsParity(n - 1, x);
      var l := Lift(n - 1, x);
      assert Lift(n, x) == 2 * (551757622 * l + 6172) + l + 1;
      ParityNext(l - x, n - 1, 551757622 * l + 6172);
    }
  }

  lemma ParityNext(d: int, n: nat, h: int)
    requires d % 2 == n % 2
    ensures (d + 2 * h + 1) % 2 == (n + 1) % 2
  {
    ModPlusMultiple(d + 1, 2, h);
  }

  /** 2^k * m steps travel 2^k times a number of the parity of m. */
  lemma {:induction false} Travel(k: nat, m: nat, x: int) returns (u: int)
    ensures Lift(Pow2(k) * m, x) - x == Pow2(k) * u
    ensures u % 2 == m % 2
  {
    if k == 0 {
      u := Lift(m, x) - x;
      StepFlipsParity(m, x);
    } else {
      var v := Travel(k - 1, m, x);
      var n := Pow2(k - 1) * m;
      MulAssociates(2, Pow2(k - 1), m);
      var o := TravelDoubles(n, x);
      u := o * v;
      OddTimes(o, v);
      PullOut(Pow2(k - 1), o, v);
    }
  }

  lemma PullOut(p: int, o: int, v: int)
    ensures 2 * (o * (p * v)) == (2 * p) * (o * v)
  {
    MulAssociates(o, p, v);
    MulAssociates(p, o, v);
    MulAssociates(2, p, o * v);
  }

  lemma OddTimes(o: int, v: int)
    requires o % 2 == 1
    ensures (o * v) % 2 == v % 2
  {
    var h := o / 2;
    assert o == 2 * h + 1;
    assert o * v == v + 2 * (h * v) by { MulDistributes(v, 2 * h, 1); MulAssociates(2, h, v); }
    ModPlusMultiple(v, 2, h * v);
  }

  // ----- Low bits: state bits 0..k-1 repeat after exactly 2^k calls

  lemma {:induction false} Factor(n: nat, k: nat) returns (t: nat, m: nat)
    requires n % Pow2(k) != 0
    ensures t < k && n == Pow2(t) * m && m % 2 == 1
  {
    if n % 2 == 1 {
      t, m := 0, n;
      assert k != 0;
    } else {
      var h := n / 2;
      if k > 0 {
        if h % Pow2(k - 1) == 0 {
          var q := h / Pow2(k - 1);
          assert h == Pow2(k - 1) * q;
          MulAssociates(2, Pow2(k - 1), q);
          ModPlusMultiple(0, Pow2(k), q);
          assert false;
        }
        t, m := Factor(h, k - 1);
        MulAssociates(2, Pow2(t), m);
        t := t + 1;
      }
    }
  }

  lemma ModModPow2(x: int, k: nat)
    requires k <= 32
    ensures x % U32_SIZE % Pow2(k) == x % Pow2(k)
  {
    hide Pow2;
    Pow2Values();
    Pow2Sum(k, 32 - k);
    ModOfMod(x, Pow2(k), Pow2(32 - k));
  }

  lemma OddMultipleNotDivisible(t: nat, k: nat, u: int)
    requires t < k && u % 2 == 1
    ensures (Pow2(t) * u) % Pow2(k) != 0
  {
    hide Pow2;
    var x := Pow2(t) * u;
    DivModEquation(x, Pow2(k));
    OddMultipleDiffers(t, k, u, x / Pow2(k));
  }

  lemma {:induction false} OddMultipleDiffers(t: nat, k: nat, u: int, q: int)
    requires t < k && u % 2 == 1
    ensures Pow2(t) * u != Pow2(k) * q
  {
    MulAssociates(2, Pow2(k - 1), q);
    if t > 0 {
      MulAssociates(2, Pow2(t - 1), u);
      OddMultipleDiffers(t - 1, k - 1, u, q);
    }
  }

  /** The low k bits of the state return to where they were after exactly the multiples of 2^k
      calls. For k == 32 this is the full period. */
  lemma LowBitsPeriod(seed: u32, n: nat, k: nat)
    requires k <= 32
    ensures State(seed, n) % Pow2(k) == seed % Pow2(k) <==> n % Pow2(k) == 0
  {
    StateIsLift(seed, n);
    ModModPow2(Lift(n, seed), k);
    SameRemainder(seed, Lift(n, seed), Pow2(k));
    LiftPeriod(n, seed, k);
  }

  lemma LiftPeriod(n: nat, x: int, k: nat)
    ensures (Lift(n, x) - x) % Pow2(k) == 0 <==> n % Pow2(k) == 0
  {
    if n % Pow2(k) == 0 {
      var m := n / Pow2(k);
      assert n == Pow2(k) * m;
      var u := Travel(k, m, x);
      MultipleModZero(Pow2(k), u);
    } else {
      var t, m := Factor(n, k);
      var u := Travel(t, m, x);
      OddMultipleNotDivisible(t, k, u);
    }
  }

  lemma LowBitsApart(seed: u32, m: nat, n: nat, k: nat)
    requires k <= 32 && m <= n
    ensures State(seed, m) % Pow2(k) == State(seed, n) % Pow2(k) <==> (n - m) % Pow2(k) == 0
  {
    StateAdds(seed, m, n - m);
    LowBitsPeriod(State(seed, m), n - m, k);
  }

  /** Every pattern of the low k bits is reached within 2^k calls. */
  lemma {:induction false} LowBitsReached(seed: u32, y: u32, k: nat) returns (n: nat)
    requires k <= 32
    ensures n < Pow2(k) && State(seed, n) % Pow2(k) == y % Pow2(k)
  {
    if k == 0 {
      n := 0;
    } else {
      n := LowBitsReached(seed, y, k - 1);
      var p := Pow2(k - 1);
      if State(seed, n) % Pow2(k) != y % Pow2(k) {
        NextBitFlips(seed, n, k - 1);
        HalfModulus(State(seed, n), y, p);
        HalfModulus(State(seed, n + p), y, p);
        HalfModulus(State(seed, n), State(seed, n + p), p);
        n := n + p;
      }
    }
  }

  /** Pow2(k) more calls keep the low k bits and change bit k. */
  lemma NextBitFlips(seed: u32, n: nat, k: nat)
    requires k < 32
    ensures State(seed, n + Pow2(k)) % Pow2(k) == State(seed, n) % Pow2(k)
    ensures State(seed, n + Pow2(k)) % Pow2(k + 1) != State(seed, n) % Pow2(k + 1)
  {
    var p := Pow2(k);
    MultipleModZero(p, 1);
    DivModUnique(p, 2 * p, 0, p);
    LowBitsApart(seed, n, n + p, k);
    LowBitsApart(seed, n, n + p, k + 1);
  }

  /** Numbers that agree modulo p agree modulo 2p or differ there by exactly p. */
  lemma HalfModulus(x: int, y: int, p: nat)
    requires p > 0 && x % p == y % p
    ensures x % (2 * p) == y % (2 * p) || x % (2 * p) == y % (2 * p) + p || x % (2 * p) == y % (2 * p) - p
  {
    HalfModulusOne(x, p);
    HalfModulusOne(y, p);
  }

  lemma HalfModulusOne(x: int, p: nat)
    requires p > 0
    ensures x % (2 * p) == x % p || x % (2 * p) == x % p + p
  {
    var q := x / p;
    assert x == p * q + x % p;
    if q % 2 == 0 {
      assert p * q == (2 * p) * (q / 2);
      DivModUnique(x, 2 * p, q / 2, x % p);
    } else {
      assert p * q == (2 * p) * (q / 2) + p by { assert q == 2 * (q / 2) + 1; }
      DivModUnique(x, 2 * p, q / 2, x % p + p);
    }
  }

  // ----- Main results

  /** The generator returns to its seed after exactly the multiples of 2^32 calls, whatever the seed. */
  lemma FullPeriod(seed: u32, n: nat)
    ensures State(seed, n) == seed <==> n % U32_SIZE == 0
  {
    hide State, Pow2;
    Pow2Values();
    LowBitsPeriod(seed, n, 32);
  }

  /** Within 2^32 calls every state occurs, and occurs once. */
  lemma EveryStateOnce(seed: u32, y: u32) returns (n: nat)
    ensures n < U32_SIZE && State(seed, n) == y
    ensures forall m: nat | m < U32_SIZE && State(seed, m) == y :: m == n
  {
    hide State, Pow2;
    Pow2Values();
    n := LowBitsReached(seed, y, 32);
    forall m: nat | m < U32_SIZE && State(seed, m) == y
      ensures m == n
    {
      StatesDiffer(seed, m, n);
    }
  }

  lemma StatesDiffer(seed: u32, m: nat, n: nat)
    requires m < U32_SIZE && n < U32_SIZE && State(seed, m) == State(seed, n)
    ensures m == n
  {
    hide State, Pow2;
    if m < n {
      StateAdds(seed, m, n - m);
      FullPeriod(State(seed, m), n - m);
    } else {
      StateAdds(seed, n, m - n);
      FullPeriod(State(seed, n), m - n);
    }
  }

  // ----- The returned values: bits 16 to 30

  ghost predicate IsOutputPeriod(seed: u32, p: nat) {
    forall n: nat :: Returned(seed, n + p) == Returned(seed, n)
  }

  lemma OutputFromLowBits(x: u32)
    ensures Output(x) == x % 0x8000_0000 / 65536
  {
  }

  lemma {:induction false} PeriodMultiples(seed: u32, p: nat, c: nat, n: nat)
    requires IsOutputPeriod(seed, p)
    ensures Returned(seed, n + p * c) == Returned(seed, n)
  {
    if c > 0 {
      PeriodMultiples(seed, p, c - 1, n);
      MulDistributes(p, c - 1, 1);
      assert Returned(seed, n + p * (c - 1) + p) == Returned(seed, n + p * (c - 1));
    }
  }

  lemma Apart31(seed: u32, m: nat, n: nat)
    requires m <= n
    ensures State(seed, m) % 0x8000_0000 == State(seed, n) % 0x8000_0000 <==> (n - m) % 0x8000_0000 == 0
  {
    Pow2Values();
    LowBitsApart(seed, m, n, 31);
  }

  lemma Apart30(seed: u32, m: nat, n: nat)
    requires m <= n
    ensures State(seed, m) % 0x4000_0000 == State(seed, n) % 0x4000_0000 <==> (n - m) % 0x4000_0000 == 0
  {
    Pow2Values();
    LowBitsApart(seed, m, n, 30);
  }

  lemma OutputsDiffer(x: u32, y: u32)
    requires x % 0x4000_0000 == y % 0x4000_0000 && x % 0x8000_0000 != y % 0x8000_0000
    ensures Output(x) != Output(y)
  {
    OutputFromLowBits(x);
    OutputFromLowBits(y);
    HalfModulus(x, y, 0x4000_0000);
  }

  /** An odd multiple of 2^30 calls flips state bit 30, which is returned. */
  lemma TopBitFlips(seed: u32, m: nat)
    requires m % 2 == 1
    ensures Returned(seed, 0x4000_0000 * m) != Returned(seed, 0)
  {
    FarCallsDiffer(seed, 0, 0x4000_0000 * m);
  }

  lemma HalfPeriod(d: nat)
    requires d % 0x8000_0000 == 0x4000_0000
    ensures d % 0x4000_0000 == 0
  {
    var q := d / 0x8000_0000;
    DivModUnique(d, 0x4000_0000, 2 * q + 1, 0);
  }

  lemma FarCallsDiffer(seed: u32, m: nat, n: nat)
    requires m <= n && (n - m) % 0x8000_0000 == 0x4000_0000
    ensures Returned(seed, m) != Returned(seed, n)
  {
    hide State, Pow2, Output;
    HalfPeriod(n - m);
    Apart30(seed, m + 1, n + 1);
    Apart31(seed, m + 1, n + 1);
    OutputsDiffer(State(seed, m + 1), State(seed, n + 1));
  }

  /** The sequence of returned values repeats after exactly the multiples of 2^31 calls. */
  lemma OutputPeriod(seed: u32, p: nat)
    ensures IsOutputPeriod(seed, p) <==> p % 0x8000_0000 == 0
  {
    hide State, Pow2;
    Pow2Values();
    if p % 0x8000_0000 == 0 {
      forall n: nat
        ensures Returned(seed, n + p) == Returned(seed, n)
      {
        Apart31(seed, n + 1, n + 1 + p);
        OutputFromLowBits(State(seed, n + 1));
        OutputFromLowBits(State(seed, n + 1 + p));
      }
    } else if IsOutputPeriod(seed, p) {
      var t, m := Factor(p, 31);
      Pow2Sum(t, 30 - t);
      assert p * Pow2(30 - t) == 0x4000_0000 * m by {
        MulAssociates(m, Pow2(t), Pow2(30 - t));
      }
      PeriodMultiples(seed, p, Pow2(30 - t), 0);
      TopBitFlips(seed, m);
    }
  }

  ghost function CallsReturning(seed: u32, v: int): set<int> {
    set n | 0 <= n < 0x8000_0000 && Returned(seed, n) == v
  }

  /** Among 2^31 consecutive calls, each value 0..32767 is returned exactly 2^16 times. */
  lemma EquallyDistributed(seed: u32, v: nat)
    requires v < 32768
    ensures |CallsReturning(seed, v)| == 65536
  {
    hide State, Returned;
    var g := (w: int) => if 0 <= w < 65536 then CallWith(seed, v, w) else -1;
    var calls := CallsReturning(seed, v);
    forall n | n in calls
      ensures n in Image(g, 65536)
    {
      var w := State(seed, n + 1) % 65536;
      SameCall(seed, n, g(w));
    }
    assert calls == Image(g, 65536);
    ImageSize(g, 65536);
  }

  /** The call that returns v and leaves w in the low 16 bits of the state. */
  ghost function CallWith(seed: u32, v: nat, w: nat): (n: nat)
    requires v < 32768 && w < 65536
    ensures n < 0x8000_0000 && Returned(seed, n) == v && State(seed, n + 1) % 65536 == w
  {
    assert exists n: nat :: n < 0x8000_0000 && Returned(seed, n) == v && State(seed, n + 1) % 65536 == w by {
      var n := CallWithLowBits(seed, v, w);
    }
    var n: nat :| n < 0x8000_0000 && Returned(seed, n) == v && State(seed, n + 1) % 65536 == w;
    n
  }

  lemma SameCall(seed: u32, n: nat, m: nat)
    requires n < 0x8000_0000 && m < 0x8000_0000
    requires Returned(seed, n) == Returned(seed, m)
    requires State(seed, n + 1) % 65536 == State(seed, m + 1) % 65536
    ensures n == m
  {
    hide State, Pow2;
    SplitLow31(State(seed, n + 1));
    SplitLow31(State(seed, m + 1));
    if n < m {
      Apart31(seed, n + 1, m + 1);
    } else {
      Apart31(seed, m + 1, n + 1);
    }
  }

  lemma SplitLow31(x: u32)
    ensures x % 0x8000_0000 == Output(x) * 65536 + x % 65536
  {
  }

  lemma CallWithLowBits(seed: u32, v: nat, w: nat) returns (n: nat)
    requires v < 32768 && w < 65536
    ensures n < 0x8000_0000 && Returned(seed, n) == v && State(seed, n + 1) % 65536 == w
  {
    hide State, Pow2;
    Pow2Values();
    n := LowBitsReached(State(seed, 1), v * 65536 + w, 31);
    StateAdds(seed, 1, n);
    SplitLow31(State(seed, n + 1));
  }
}
