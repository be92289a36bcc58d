/** The shift-and-subtract division of src/scrn.c. The divisor is doubled while it is below half of
    the dividend, and is then subtracted and halved until less than the divisor is left. The doubling
    test uses `<`, which stops one doubling early for the dividends divisor * 2^j and
    divisor * 2^j + 1 with j >= 1. Division of these is wrong, and by a divisor below 4 it may never
    end; every other division by a positive number is exact. */
module Division {
  import opened Numbers

  /** The variables of the second loop. */
  datatype State = State(a: int, x: int, quotient: int, perRemoval: int)

  /** The second loop either ends or runs for ever. */
  datatype Outcome = Result(quotient: int, remainder: int) | Endless

  /** What the first loop leaves: x and perRemoval are doubled while x < a / 2. */
  ghost function Doubled(a: nat, x: nat, perRemoval: nat): State
    requires x > 0
    decreases a - x
  {
    if x < a / 2 then Doubled(a, 2 * x, 2 * perRemoval) else State(a, x, 0, perRemoval)
  }

  ghost function Start(a: nat, b: nat): State
    requires b > 0
  {
    Doubled(a, b, 1)
  }

  /** One iteration of the second loop. */
  ghost function Iteration(s: State): State {
    if s.a >= s.x
    then State(s.a - s.x, s.x / 2, s.quotient + s.perRemoval, s.perRemoval / 2)
    else State(s.a, s.x / 2, s.quotient, s.perRemoval / 2)
  }

  ghost function After(s: State, n: nat): State {
    if n == 0 then s else Iteration(After(s, n - 1))
  }

  /** `o` is what the two loops make of a divided by b, whether or not that is the right answer. */
  ghost predicate Computes(a: nat, b: nat, o: Outcome)
    requires b > 0
  {
    match o
    case Endless => forall n: nat :: After(Start(a, b), n).a >= b
    case Result(q, r) => exists n: nat :: Stops(Start(a, b), b, n) && After(Start(a, b), n).quotient == q && After(Start(a, b), n).a == r
  }

  /** The loop test fails for the first time after n iterations. */
  ghost predicate Stops(s: State, b: nat, n: nat) {
    After(s, n).a < b && forall m: nat :: m < n ==> After(s, m).a >= b
  }

  /** The dividends for which the doubling loop stops one doubling early. */
  ghost predicate Exceptional(a: nat, b: nat) {
    exists j: nat :: IsDoubling(a, b, j)
  }

  ghost predicate IsDoubling(a: nat, b: nat, j: nat) {
    j >= 1 && (a == b * Pow2(j) || a == b * Pow2(j) + 1)
  }

  /** The outcome for every dividend and every positive divisor. */
  ghost function Closed(a: nat, b: nat): Outcome
    requires b > 0
  {
    if !Exceptional(a, b) then Result(a / b, a % b)
    else if b >= 4 || (b >= 2 && a % b == 0) then Result(a / b - 1, (b + 1) / 2 + a % b)
    else Endless
  }

  // ----- The first loop

  /** b has been doubled k times, and not too often. */
  ghost predicate Scaled(s: State, a: nat, b: nat, k: nat) {
    && s == State(a, b * Pow2(k), 0, Pow2(k))
    && (k > 0 ==> b * Pow2(k - 1) < a / 2)
  }

  lemma ScaledTwice(b: nat, k: nat)
    requires k > 0
    ensures b * Pow2(k) == 2 * (b * Pow2(k - 1))
  {
    MulAssociates(b, 2, Pow2(k - 1));
    MulAssociates(2, b, Pow2(k - 1));
  }

  lemma PositiveFactor(b: int, t: int, a: int)
    requires b >= 1 && t >= 0 && b * t <= a
    ensures t <= a
  {
    MulDistributes(t, b - 1, 1);
    assert t * (b - 1) >= 0;
  }

  lemma ScaledOrder(b: nat, i: nat, j: nat)
    requires i <= j
    ensures b * Pow2(i) <= b * Pow2(j)
  {
    Pow2Ordered(i, j);
    MulMonotone(b, Pow2(i), Pow2(j));
  }

  /** The doubling loop stops early exactly at the exceptional dividends: the guard of the failure. */
  lemma StopsEarly(a: nat, b: nat, k: nat)
    requires b > 0 && b * Pow2(k) >= a / 2
    requires k > 0 ==> b * Pow2(k - 1) < a / 2
    ensures 2 * (b * Pow2(k)) <= a <==> Exceptional(a, b)
  {
    hide Pow2;
    ScaledTwice(b, k + 1);
    if 2 * (b * Pow2(k)) <= a {
      assert IsDoubling(a, b, k + 1);
    }
    if Exceptional(a, b) {
      var j: nat :| IsDoubling(a, b, j);
      ScaledTwice(b, j);
      assert b * Pow2(j - 1) == a / 2;
      if k >= j {
        ScaledOrder(b, j - 1, k - 1);
        assert false;
      }
      ScaledOrder(b, k + 1, j);
    }
  }

  // ----- The second loop

  /** Exact: less than 2x is left, and every later step keeps it so. Excess: x is one doubling short,
      so that 2x or 2x + 1 is left each time. The excess dividend is still b or b + 1 when x has come
      down to b; half of b is then subtracted without being counted (Tail, Rest). */
  datatype Phase = Exact(k: nat) | Done | Excess(k: nat) | Tail | Rest

  ghost predicate InPhase(s: State, a: nat, b: nat, ph: Phase) {
    && s.a >= 0 && s.quotient >= 0 && s.perRemoval >= 0
    && match ph
       case Exact(k) =>
         a == b * s.quotient + s.a && s.x == b * Pow2(k) && s.perRemoval == Pow2(k) && s.a < 2 * s.x
       case Done =>
         a == b * s.quotient + s.a && s.a < b && s.x == b / 2 && s.perRemoval == 0
       case Excess(k) =>
         a == b * s.quotient + s.a && s.x == b * Pow2(k) && s.perRemoval == Pow2(k) && 0 <= s.a - 2 * s.x <= 1
       case Tail =>
         a == b * s.quotient + s.a && s.x == b / 2 && s.perRemoval == 0 && 0 <= s.a - b <= 1
       case Rest =>
         && s.x == b / 4 && s.perRemoval == 0 && 0 <= s.a - (b + 1) / 2 <= 1
         && a == b * s.quotient + b + (s.a - (b + 1) / 2)
  }

  ghost predicate Regular(ph: Phase) {
    ph.Exact? || ph.Done?
  }

  lemma FirstPhase(a: nat, b: nat, k: nat) returns (ph: Phase)
    requires b > 0 && b * Pow2(k) >= a / 2
    requires k > 0 ==> b * Pow2(k - 1) < a / 2
    ensures InPhase(State(a, b * Pow2(k), 0, Pow2(k)), a, b, ph)
    ensures Regular(ph) <==> !Exceptional(a, b)
  {
    StopsEarly(a, b, k);
    ph := if 2 * (b * Pow2(k)) <= a then Excess(k) else Exact(k);
  }

  lemma NextPhase(s: State, a: nat, b: nat, ph: Phase) returns (next: Phase)
    requires b > 0 && InPhase(s, a, b, ph) && s.a >= b && s.x > 0
    ensures InPhase(Iteration(s), a, b, next)
    ensures Regular(next) <==> Regular(ph)
    ensures s.a >= s.x ==> s.quotient + s.perRemoval <= a
  {
    match ph
    case Exact(k) =>
      next := NextExact(s, a, b, k);
    case Excess(k) =>
      next := NextExcess(s, a, b, k);
    case Tail =>
      next := Rest;
      PositiveFactor(b, s.quotient, a);
    case Rest =>
      assert false;
  }

  lemma NextExact(s: State, a: nat, b: nat, k: nat) returns (next: Phase)
    requires b > 0 && InPhase(s, a, b, Exact(k)) && s.a >= b
    ensures InPhase(Iteration(s), a, b, next) && Regular(next)
    ensures s.a >= s.x ==> s.quotient + s.perRemoval <= a
  {
    hide Pow2;
    next := if k > 0 then Exact(k - 1) else Done;
    Halve(s, b, k);
    CountFits(s, a, b);
  }

  lemma NextExcess(s: State, a: nat, b: nat, k: nat) returns (next: Phase)
    requires b > 0 && InPhase(s, a, b, Excess(k))
    ensures InPhase(Iteration(s), a, b, next) && !Regular(next)
    ensures s.a >= s.x ==> s.quotient + s.perRemoval <= a
  {
    hide Pow2;
    Halve(s, b, k);
    CountFits(s, a, b);
    var t := Iteration(s);
    assert t.a == s.a - s.x && a == b * t.quotient + t.a;
    next := if k > 0 then Excess(k - 1) else Tail;
  }

  lemma Halve(s: State, b: nat, k: nat)
    requires b > 0 && s.x == b * Pow2(k) && s.perRemoval == Pow2(k)
    ensures k > 0 ==> s.x / 2 == b * Pow2(k - 1) && s.x == 2 * (s.x / 2) && s.perRemoval / 2 == Pow2(k - 1)
    ensures k == 0 ==> s.x == b && s.perRemoval / 2 == 0
    ensures s.x == b * s.perRemoval && s.x >= b
  {
    MulGrows(b, Pow2(k));
    if k > 0 {
      ScaledTwice(b, k);
    }
  }

  lemma CountFits(s: State, a: nat, b: nat)
    requires b > 0 && s.quotient >= 0 && s.perRemoval >= 0 && s.a >= 0
    requires a == b * s.quotient + s.a && s.x == b * s.perRemoval
    ensures s.a >= s.x ==> s.quotient + s.perRemoval <= a
    ensures b * (s.quotient + s.perRemoval) == b * s.quotient + s.x
  {
    MulDistributes(b, s.quotient, s.perRemoval);
    if s.a >= s.x {
      PositiveFactor(b, s.quotient + s.perRemoval, a);
    }
  }

  /** Every phase but Exact and Excess is one of at most two last iterations; what is left then is
      the outcome of Closed. */
  lemma LastPhase(s: State, a: nat, b: nat, ph: Phase)
    requires b > 0 && InPhase(s, a, b, ph) && s.a < b
    requires Regular(ph) <==> !Exceptional(a, b)
    ensures Closed(a, b) == Result(s.quotient, s.a)
  {
    hide Exceptional;
    match ph
    case Exact(k) =>
      DivModUnique(a, b, s.quotient, s.a);
    case Done =>
      DivModUnique(a, b, s.quotient, s.a);
    case Rest =>
      MulDistributes(b, s.quotient, 1);
      DivModUnique(a, b, s.quotient + 1, s.a - (b + 1) / 2);
    case Excess(k) =>
      Halve(s, b, k);
      assert false;
    case Tail =>
      assert false;
  }

  lemma StuckPhase(s: State, a: nat, b: nat, ph: Phase)
    requires b > 0 && InPhase(s, a, b, ph) && s.a >= b && s.x == 0
    requires Regular(ph) <==> !Exceptional(a, b)
    ensures Closed(a, b) == Endless
  {
    hide Exceptional;
    match ph
    case Exact(k) =>
      Halve(s, b, k);
      assert false;
    case Excess(k) =>
      Halve(s, b, k);
      assert false;
    case Done =>
      assert false;
    case Tail =>
    case Rest =>
      var e := s.a - (b + 1) / 2;
      MulDistributes(b, s.quotient, 1);
      if b >= 2 {
        assert b < 4 && e == 1;
        DivModUnique(a, b, s.quotient + 1, e);
      }
  }

  /** Once x is 0, nothing more is subtracted. */
  lemma {:induction false} StuckForEver(s: State, n: nat, m: nat)
    requires After(s, n).x == 0 && n <= m
    ensures After(s, m).a == After(s, n).a && After(s, m).x == 0
  {
    if n < m {
      StuckForEver(s, n, m - 1);
    }
  }

  // ----- The two functions of the source

  /** "Find a decent divisor": the first loop of both functions. No doubling leaves 64 bits. */
  method FindDivisor(A: u64, B: u64) returns (X: u64, perRemoval: u64, ghost k: nat)
    requires B > 0
    ensures State(A, X, 0, perRemoval) == Start(A, B)
    ensures X == B * Pow2(k) && perRemoval == Pow2(k) && X >= A / 2
    ensures k > 0 ==> B * Pow2(k - 1) < A / 2
  {
    X, perRemoval, k := B, 1, 0;
    while X < A / 2
      invariant X == B * Pow2(k) && perRemoval == Pow2(k) && perRemoval <= X
      invariant k > 0 ==> B * Pow2(k - 1) < A / 2
      invariant Doubled(A, X, perRemoval) == Start(A, B)
      decreases A - X
    {
      ScaledTwice(B, k + 1);
      X := 2 * X;
      perRemoval := 2 * perRemoval;
      k := k + 1;
    }
  }

  method Div64Slow(dividend: u64, divisor: u64) returns (o: Outcome)
    requires divisor > 0
    ensures Computes(dividend, divisor, o)
    ensures o == Closed(dividend, divisor)
  {
    hide Pow2, InPhase, Closed, Exceptional, Start;
    var quotient: u64 := 0;
    var A: u64, B: u64 := dividend, divisor;
    var X: u64, perRemoval: u64, k := FindDivisor(A, B);
    ghost var ph := FirstPhase(A, B, k);
    ghost var n: nat := 0;
    while A >= B
      invariant After(Start(dividend, divisor), n) == State(A, X, quotient, perRemoval)
      invariant InPhase(State(A, X, quotient, perRemoval), dividend, divisor, ph)
      invariant Regular(ph) <==> !Exceptional(dividend, divisor)
      invariant forall m: nat :: m < n ==> After(Start(dividend, divisor), m).a >= divisor
      decreases X
    {
      if X == 0 {
        NeverStops(dividend, divisor, n, ph);
        return Endless;
      }
      ph := NextPhase(State(A, X, quotient, perRemoval), dividend, divisor, ph);
      if A >= X {
        A := A - X;
        quotient := quotient + perRemoval;
      }
      X := X / 2;
      perRemoval := perRemoval / 2;
      n := n + 1;
    }
    HasStopped(dividend, divisor, n, ph);
    o := Result(quotient, A);
  }

  /** The same two loops without the quotient. */
  method Modulo(dividend: u64, divisor: u64) returns (ends: bool, remainder: u64)
    requires divisor > 0
    ensures ends <==> Closed(dividend, divisor).Result?
    ensures ends ==> remainder == Closed(dividend, divisor).remainder
  {
    hide Pow2, InPhase, Closed, Exceptional, Start;
    var A: u64, B: u64 := dividend, divisor;
    var X: u64, _, k := FindDivisor(A, B);
    ghost var ph := FirstPhase(A, B, k);
    ghost var n: nat := 0;
    while A >= B
      invariant After(Start(dividend, divisor), n).a == A && After(Start(dividend, divisor), n).x == X
      invariant InPhase(After(Start(dividend, divisor), n), dividend, divisor, ph)
      invariant Regular(ph) <==> !Exceptional(dividend, divisor)
      invariant forall m: nat :: m < n ==> After(Start(dividend, divisor), m).a >= divisor
      decreases X
    {
      if X == 0 {
        NeverStops(dividend, divisor, n, ph);
        return false, 0;
      }
      ph := NextPhase(After(Start(dividend, divisor), n), dividend, divisor, ph);
      if A >= X {
        A := A - X;
      }
      X := X / 2;
      n := n + 1;
    }
    HasStopped(dividend, divisor, n, ph);
    return true, A;
  }

  /** Not the source: the same loops with the doubling test changed to `X <= A / 2`. Every division by
      a positive number is then exact, and still no value leaves 64 bits. */
  method Div64Repaired(dividend: u64, divisor: u64) returns (quotient: u64, remainder: u64)
    requires divisor > 0
    ensures quotient == dividend / divisor && remainder == dividend % divisor
  {
    hide Pow2, InPhase;
    var A: u64 := dividend;
    var X: u64, perRemoval: u64, k := FindExactDivisor(A, divisor);
    quotient := 0;
    ghost var ph := Exact(k);
    ExactStart(dividend, divisor, X, k);
    while A >= divisor
      invariant InPhase(State(A, X, quotient, perRemoval), dividend, divisor, ph) && Regular(ph)
      decreases X
    {
      ExactGoesOn(State(A, X, quotient, perRemoval), dividend, divisor, ph);
      ph := NextPhase(State(A, X, quotient, perRemoval), dividend, divisor, ph);
      if A >= X {
        A := A - X;
        quotient := quotient + perRemoval;
      }
      X := X / 2;
      perRemoval := perRemoval / 2;
    }
    ExactEnd(State(A, X, quotient, perRemoval), dividend, divisor, ph);
    remainder := A;
  }

  method FindExactDivisor(A: u64, B: u64) returns (X: u64, perRemoval: u64, ghost k: nat)
    requires B > 0
    ensures X == B * Pow2(k) && perRemoval == Pow2(k) && X > A / 2
  {
    X, perRemoval, k := B, 1, 0;
    while X <= A / 2
      invariant X == B * Pow2(k) && perRemoval == Pow2(k) && perRemoval <= X
      decreases A - X
    {
      ScaledTwice(B, k + 1);
      X, perRemoval, k := 2 * X, 2 * perRemoval, k + 1;
    }
  }

  lemma ExactStart(a: nat, b: nat, x: nat, k: nat)
    requires b > 0 && x == b * Pow2(k) && x > a / 2
    ensures InPhase(State(a, x, 0, Pow2(k)), a, b, Exact(k))
  {
  }

  lemma ExactGoesOn(s: State, a: nat, b: nat, ph: Phase)
    requires b > 0 && InPhase(s, a, b, ph) && Regular(ph) && s.a >= b
    ensures s.x > 0
  {
    match ph
    case Exact(k) => Halve(s, b, k);
    case Done => assert false;
  }

  lemma ExactEnd(s: State, a: nat, b: nat, ph: Phase)
    requires b > 0 && InPhase(s, a, b, ph) && Regular(ph) && s.a < b
    ensures s.quotient == a / b && s.a == a % b
  {
    assert a == b * s.quotient + s.a;
    DivModUnique(a, b, s.quotient, s.a);
  }

  lemma HasStopped(a: nat, b: nat, n: nat, ph: Phase)
    requires b > 0 && InPhase(After(Start(a, b), n), a, b, ph) && After(Start(a, b), n).a < b
    requires Regular(ph) <==> !Exceptional(a, b)
    requires forall m: nat :: m < n ==> After(Start(a, b), m).a >= b
    ensures Closed(a, b) == Result(After(Start(a, b), n).quotient, After(Start(a, b), n).a)
    ensures Computes(a, b, Closed(a, b))
  {
    LastPhase(After(Start(a, b), n), a, b, ph);
    hide After, Start, InPhase, Exceptional;
    assert Stops(Start(a, b), b, n);
  }

  lemma NeverStops(a: nat, b: nat, n: nat, ph: Phase)
    requires b > 0 && InPhase(After(Start(a, b), n), a, b, ph)
    requires After(Start(a, b), n).a >= b && After(Start(a, b), n).x == 0
    requires Regular(ph) <==> !Exceptional(a, b)
    requires forall m: nat :: m < n ==> After(Start(a, b), m).a >= b
    ensures Closed(a, b) == Endless && Computes(a, b, Endless)
  {
    StuckPhase(After(Start(a, b), n), a, b, ph);
    forall m: nat
      ensures After(Start(a, b), m).a >= b
    {
      if m >= n {
        StuckForEver(Start(a, b), n, m);
      }
    }
  }

  // ----- Main results

  lemma {:induction false} StartIsScaled(a: nat, b: nat, x: nat, k: nat) returns (last: nat)
    requires b > 0 && x == b * Pow2(k) && x > 0
    requires k > 0 ==> b * Pow2(k - 1) < a / 2
    ensures Doubled(a, x, Pow2(k)) == State(a, b * Pow2(last), 0, Pow2(last))
    ensures b * Pow2(last) >= a / 2 && (last > 0 ==> b * Pow2(last - 1) < a / 2)
    decreases a - x
  {
    last := k;
    if x < a / 2 {
      ScaledTwice(b, k + 1);
      last := StartIsScaled(a, b, 2 * x, k + 1);
    }
  }

  lemma {:induction false} LoopFrom(a: nat, b: nat, n: nat, ph: Phase)
    requires b > 0 && InPhase(After(Start(a, b), n), a, b, ph) && After(Start(a, b), n).x >= 0
    requires Regular(ph) <==> !Exceptional(a, b)
    requires forall m: nat :: m < n ==> After(Start(a, b), m).a >= b
    ensures Computes(a, b, Closed(a, b))
    decreases After(Start(a, b), n).x
  {
    hide InPhase, Computes, Closed, Exceptional, Start, Regular;
    var s := After(Start(a, b), n);
    if s.a < b {
      HasStopped(a, b, n, ph);
    } else if s.x == 0 {
      NeverStops(a, b, n, ph);
    } else {
      var next := NextPhase(s, a, b, ph);
      LoopFrom(a, b, n + 1, next);
    }
  }

  /** The loops of the source compute Closed, and nothing else, for every dividend and divisor. */
  lemma OutcomeOfLoops(a: nat, b: nat, o: Outcome)
    requires b > 0
    ensures Computes(a, b, o) <==> o == Closed(a, b)
  {
    var k := StartIsScaled(a, b, b, 0);
    var ph := FirstPhase(a, b, k);
    LoopFrom(a, b, 0, ph);
    if Computes(a, b, o) {
      SameOutcome(a, b, o, Closed(a, b));
    }
  }

  lemma SameOutcome(a: nat, b: nat, o: Outcome, p: Outcome)
    requires b > 0 && Computes(a, b, o) && Computes(a, b, p)
    ensures o == p
  {
    hide Start, After;
    if o.Result? && p.Result? {
      var n: nat :| Stops(Start(a, b), b, n) && After(Start(a, b), n).quotient == o.quotient && After(Start(a, b), n).a == o.remainder;
      var m: nat :| Stops(Start(a, b), b, m) && After(Start(a, b), m).quotient == p.quotient && After(Start(a, b), m).a == p.remainder;
      assert n == m;
    }
  }

  /** Division ends with the exact quotient and remainder for all but the exceptional dividends. */
  lemma ExactUnlessExceptional(a: nat, b: nat)
    requires b > 0
    ensures Computes(a, b, Result(a / b, a % b)) <==> !Exceptional(a, b)
  {
    hide Exceptional, Computes;
    OutcomeOfLoops(a, b, Result(a / b, a % b));
  }

  /** Division never ends for the exceptional dividends of 1, and for the odd ones of 2 and 3. */
  lemma EndlessExactly(a: nat, b: nat)
    requires b > 0
    ensures Computes(a, b, Endless) <==> Exceptional(a, b) && (b == 1 || (b < 4 && a % b == 1))
  {
    hide Exceptional, Computes;
    OutcomeOfLoops(a, b, Endless);
    DivModEquation(a, b);
    if Exceptional(a, b) {
      ExceptionalRemainder(a, b);
    }
  }

  /** The wrong results: a quotient one too small, and what is left of half a divisor too much. */
  lemma WrongExactly(a: nat, b: nat)
    requires b > 0
    ensures Computes(a, b, Result(a / b - 1, (b + 1) / 2 + a % b))
      <==> Exceptional(a, b) && (b >= 4 || (b >= 2 && a % b == 0))
  {
    hide Exceptional, Computes;
    OutcomeOfLoops(a, b, Result(a / b - 1, (b + 1) / 2 + a % b));
  }

  lemma ExceptionalRemainder(a: nat, b: nat)
    requires b > 0 && Exceptional(a, b)
    ensures a % b == 0 || a % b == 1
  {
    var j: nat :| IsDoubling(a, b, j);
    var e := a - b * Pow2(j);
    if b > 1 {
      DivModUnique(a, b, Pow2(j), e);
    }
  }

  /** 20 / 10 is the least wrong division by ten: quotient 1, remainder 5. */
  lemma TwentyByTen()
    ensures Computes(20, 10, Result(1, 5))
  {
    assert 20 == 10 * Pow2(1);
    assert IsDoubling(20, 10, 1);
    OutcomeOfLoops(20, 10, Result(1, 5));
  }
}
