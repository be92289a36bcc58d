/** What the lines of src/vga.c look like: end points, connectedness, and the effect of drawing them
    from the other end. */
module LineShapes {
  import opened Numbers
  import opened Lines

  /** Distinct neighbours on the grid, diagonals included. */
  ghost predicate Neighbours(u: Point, v: Point) {
    u != v && Abs(u.x - v.x) <= 1 && Abs(u.y - v.y) <= 1
  }

  /** v is no farther than u from the end q in either coordinate, and on the same side of it. */
  ghost predicate Approaches(u: Point, v: Point, q: Point) {
    && (u.x <= v.x <= q.x || q.x <= v.x <= u.x)
    && (u.y <= v.y <= q.y || q.y <= v.y <= u.y)
  }

  /** A line is a connected, monotone walk from one end to the other. */
  lemma LineIsWalk(p: Point, q: Point, i: nat)
    requires i < Longer(p, q)
    ensures Pixel(p, q, 0) == p && Pixel(p, q, Longer(p, q)) == q
    ensures Neighbours(Pixel(p, q, i), Pixel(p, q, i + 1))
    ensures Approaches(Pixel(p, q, i), Pixel(p, q, i + 1), q)
  {
    EndPoints(p, q);
    PixelStep(p, q, i);
    StillAhead(p, q, i);
    StillAhead(p, q, i + 1);
  }

  /** Pixel i lies between the two ends. */
  lemma StillAhead(p: Point, q: Point, i: nat)
    requires i <= Longer(p, q)
    ensures Approaches(p, Pixel(p, q, i), q)
  {
    hide Rounded, Towards;
    var m := Rounded(i, Shorter(p, q), Longer(p, q));
    RoundedBounds(i, Shorter(p, q), Longer(p, q));
    if Abs(q.x - p.x) >= Abs(q.y - p.y) {
      TowardsBetween(p.x, q.x, i);
      TowardsBetween(p.y, q.y, m);
    } else {
      TowardsBetween(p.x, q.x, m);
      TowardsBetween(p.y, q.y, i);
    }
  }

  lemma TowardsOneToOne(from: int, to: int, i: nat, j: nat)
    requires from != to && Towards(from, to, i) == Towards(from, to, j)
    ensures i == j
  {
  }

  lemma PixelsDistinct(p: Point, q: Point, i: nat, j: nat)
    requires i <= Longer(p, q) && j <= Longer(p, q) && Pixel(p, q, i) == Pixel(p, q, j)
    ensures i == j
  {
    hide Towards, Rounded;
    if Longer(p, q) > 0 {
      if Abs(q.x - p.x) >= Abs(q.y - p.y) {
        TowardsOneToOne(p.x, q.x, i, j);
      } else {
        TowardsOneToOne(p.y, q.y, i, j);
      }
    }
  }

  /** A line has exactly max(|dx|, |dy|) + 1 pixels. */
  lemma LineSize(p: Point, q: Point)
    ensures |Line(p, q)| == Longer(p, q) + 1
  {
    hide Pixel;
    var g := (i: int) => if i >= 0 then Pixel(p, q, i) else p;
    forall i, j | 0 <= i < j < Longer(p, q) + 1
      ensures g(i) != g(j)
    {
      if g(i) == g(j) {
        PixelsDistinct(p, q, i, j);
      }
    }
    ImageSize(g, Longer(p, q) + 1);
    assert forall i :: 0 <= i <= Longer(p, q) ==> g(i) == Pixel(p, q, i);
    assert Line(p, q) == Image(g, Longer(p, q) + 1);
  }

  /** Twice the distance of pixel i from the true line, measured along the shorter axis and times the
      length of the longer axis: never more than half a pixel. */
  lemma WithinHalfAPixel(p: Point, q: Point, i: nat)
    requires i <= Longer(p, q)
    ensures var u := Pixel(p, q, i);
      if Abs(q.x - p.x) >= Abs(q.y - p.y)
      then Abs(u.x - p.x) == i && 2 * Abs((u.y - p.y) * Longer(p, q) - i * (q.y - p.y)) <= Longer(p, q)
      else Abs(u.y - p.y) == i && 2 * Abs((u.x - p.x) * Longer(p, q) - i * (q.x - p.x)) <= Longer(p, q)
  {
    hide Rounded, Towards;
    var b, n := Shorter(p, q), Longer(p, q);
    var m := Rounded(i, b, n);
    if n > 0 {
      RoundedIsNearest(i, b, n, m);
      if Abs(q.x - p.x) >= Abs(q.y - p.y) {
        LongAxis(p.x, q.x, i);
        ShortAxis(p.y, q.y, m, n, i);
      } else {
        LongAxis(p.y, q.y, i);
        ShortAxis(p.x, q.x, m, n, i);
      }
    } else {
      RoundedEnds(b, n);
      TowardsStep(p.x, q.x, 0);
      TowardsStep(p.y, q.y, 0);
    }
  }

  lemma LongAxis(from: int, to: int, i: nat)
    requires from != to
    ensures Abs(Towards(from, to, i) - from) == i
  {
  }

  lemma ShortAxis(from: int, to: int, m: nat, n: nat, i: nat)
    requires 0 - n < 2 * (n * m - i * Abs(to - from)) <= n
    ensures 2 * Abs((Towards(from, to, m) - from) * n - i * (to - from)) <= n
  {
    var d := to - from;
    if d > 0 {
      assert Towards(from, to, m) - from == m;
      assert m * n == n * m;
    } else if d < 0 {
      assert Towards(from, to, m) - from == 0 - m;
      assert (0 - m) * n == 0 - n * m && i * d == 0 - i * (0 - d);
    } else {
      assert Towards(from, to, m) - from == 0;
      assert 0 * n - i * 0 == 0;
    }
  }

  // ----- Drawing from the other end

  /** The true line passes exactly halfway between two pixels at step i. */
  ghost predicate Tie(i: nat, b: nat, n: nat) {
    n > 0 && 2 * (i * b) % (2 * n) == n
  }

  /** Counted from the other end, the same number of shorter steps is taken, except that a tie is
      rounded the other way. */
  lemma RoundedFromOtherEnd(i: nat, b: nat, n: nat)
    requires i <= n && b <= n
    ensures Rounded(i, b, n) == b - Rounded(n - i, b, n) + (if Tie(i, b, n) then 1 else 0)
  {
    if n > 0 {
      var w := Rounded(n - i, b, n);
      var v := b - w;
      RoundedIsNearest(n - i, b, n, w);
      assert n * v - i * b == -(n * w - (n - i) * b) by {
        MulDistributes(n, b, v - b);
        MulDistributes(b, n, 0 - i);
      }
      TieExactly(i * b, v, n);
      RoundedBounds(n - i, b, n);
      RoundedIsNearest(i, b, n, if Tie(i, b, n) then v + 1 else v);
      MulDistributes(n, v, 1);
    }
  }

  lemma TieExactly(x: int, v: int, n: nat)
    requires n > 0 && 0 - n <= 2 * (n * v - x) < n
    ensures 2 * x % (2 * n) == n <==> 2 * (n * v - x) == 0 - n
  {
    var r := 2 * x - (2 * n) * v;
    assert (2 * n) * v == 2 * (n * v) by {
      MulAssociates(2, n, v);
    }
    if r >= 0 {
      DivModUnique(2 * x, 2 * n, v, r);
    } else {
      assert (2 * n) * (v - 1) == (2 * n) * v - 2 * n by {
        MulDistributes(2 * n, v, -1);
      }
      DivModUnique(2 * x, 2 * n, v - 1, r + 2 * n);
    }
  }

  lemma TowardsFromOtherEnd(from: int, to: int, m: int)
    requires 0 <= m <= Abs(to - from)
    ensures Towards(to, from, Abs(to - from) - m) == Towards(from, to, m)
  {
  }

  /** Pixel i from one end and pixel n - i from the other are the same exactly when the true line is
      not halfway there; on a tie they are next to each other along the shorter axis. */
  lemma PixelFromOtherEnd(p: Point, q: Point, i: nat)
    requires i <= Longer(p, q)
    ensures Longer(q, p) == Longer(p, q)
    ensures Pixel(q, p, Longer(p, q) - i) == Pixel(p, q, i) <==> !Tie(i, Shorter(p, q), Longer(p, q))
    ensures if Abs(q.x - p.x) >= Abs(q.y - p.y)
      then Pixel(q, p, Longer(p, q) - i).x == Pixel(p, q, i).x
      else Pixel(q, p, Longer(p, q) - i).y == Pixel(p, q, i).y
    ensures Tie(i, Shorter(p, q), Longer(p, q)) ==> Neighbours(Pixel(q, p, Longer(p, q) - i), Pixel(p, q, i))
  {
    hide Rounded, Tie, Towards, Sgn;
    SgnNotZero(q.x - p.x);
    SgnNotZero(q.y - p.y);
    var b, n := Shorter(p, q), Longer(p, q);
    var w := Rounded(n - i, b, n);
    RoundedFromOtherEnd(i, b, n);
    RoundedBounds(n - i, b, n);
    TieMovesUp(i, b, n);
    if Abs(q.x - p.x) >= Abs(q.y - p.y) {
      TowardsFromOtherEnd(p.x, q.x, i);
      TowardsFromOtherEnd(p.y, q.y, b - w);
      TowardsStep(p.y, q.y, b - w);
    } else {
      TowardsFromOtherEnd(p.y, q.y, i);
      TowardsFromOtherEnd(p.x, q.x, b - w);
      TowardsStep(p.x, q.x, b - w);
    }
  }

  lemma SgnNotZero(d: int)
    ensures Abs(d) == 0 <==> Sgn(d) == 0
    ensures -1 <= Sgn(d) <= 1
  {
  }

  lemma TieMovesUp(i: nat, b: nat, n: nat)
    ensures Tie(i, b, n) ==> b > 0
  {
  }

  ghost predicate NoTies(p: Point, q: Point) {
    forall i: nat :: i <= Longer(p, q) ==> !Tie(i, Shorter(p, q), Longer(p, q))
  }

  /** Both drawings colour the same pixels exactly when no pixel is a tie. */
  lemma SameFromOtherEnd(p: Point, q: Point)
    ensures Line(p, q) == Line(q, p) <==> NoTies(p, q)
  {
    hide Pixel, Tie;
    var n := Longer(p, q);
    PixelFromOtherEnd(p, q, 0);
    if NoTies(p, q) {
      forall i: nat | i <= n
        ensures Pixel(p, q, i) in Line(q, p) && Pixel(q, p, i) in Line(p, q)
      {
        PixelFromOtherEnd(p, q, i);
        PixelFromOtherEnd(p, q, n - i);
      }
    } else {
      var i: nat :| i <= n && Tie(i, Shorter(p, q), n);
      TieIsMissing(p, q, i);
    }
  }

  lemma TieIsMissing(p: Point, q: Point, i: nat)
    requires i <= Longer(p, q) && Tie(i, Shorter(p, q), Longer(p, q))
    ensures Pixel(p, q, i) !in Line(q, p)
  {
    hide Tie;
    var n := Longer(p, q);
    PixelFromOtherEnd(p, q, i);
    forall j: nat | j <= n
      ensures Pixel(q, p, j) != Pixel(p, q, i)
    {
      if j != n - i {
        OnePixelPerStep(q, p, j, n - i);
      }
    }
  }

  /** Different pixels of a line differ in the coordinate of the longer axis. */
  lemma OnePixelPerStep(p: Point, q: Point, i: nat, j: nat)
    requires i != j && Longer(p, q) > 0
    ensures if Abs(q.x - p.x) >= Abs(q.y - p.y)
      then Pixel(p, q, i).x != Pixel(p, q, j).x
      else Pixel(p, q, i).y != Pixel(p, q, j).y
  {
    hide Rounded;
  }

  /** A check a caller can make beforehand: halve both lengths while both are even. */
  predicate TieFree(n: nat, b: nat) {
    n == 0 || n % 2 == 1 || (b % 2 == 0 && TieFree(n / 2, b / 2))
  }

  lemma {:induction false} TieFreeNoTie(n: nat, b: nat, i: nat)
    requires TieFree(n, b)
    ensures !Tie(i, b, n)
  {
    if n % 2 == 1 {
      if Tie(i, b, n) {
        TieIsEven(i * b, n);
      }
    } else if n > 0 {
      TieFreeNoTie(n / 2, b / 2, i);
      HalfTie(n / 2, b / 2, i);
    }
  }

  lemma TieIsEven(x: nat, n: nat)
    requires n > 0 && 2 * x % (2 * n) == n
    ensures n % 2 == 0
  {
    var t := 2 * x / (2 * n);
    DivModEquation(2 * x, 2 * n);
    MulAssociates(2, n, t);
    assert n == 2 * (x - n * t);
  }

  lemma HalfTie(n: nat, b: nat, i: nat)
    requires n > 0
    ensures Tie(i, b, n) <==> Tie(i, 2 * b, 2 * n)
  {
    var x := 2 * (i * b);
    assert 2 * (i * (2 * b)) == 2 * x by {
      MulAssociates(i, 2, b);
      MulAssociates(2, i, b);
    }
    DivModEquation(x, 2 * n);
    assert 2 * x == (2 * (2 * n)) * (x / (2 * n)) + 2 * (x % (2 * n)) by {
      MulAssociates(2, 2 * n, x / (2 * n));
    }
    DivModUnique(2 * x, 2 * (2 * n), x / (2 * n), 2 * (x % (2 * n)));
  }

  lemma {:induction false} TieFound(n: nat, b: nat) returns (i: nat)
    requires !TieFree(n, b)
    ensures i <= n && Tie(i, b, n)
  {
    if b % 2 == 1 {
      i := n / 2;
      MiddleTie(n / 2, b / 2);
    } else {
      i := TieFound(n / 2, b / 2);
      HalfTie(n / 2, b / 2, i);
    }
  }

  lemma MiddleTie(h: nat, c: nat)
    requires h > 0
    ensures Tie(h, 2 * c + 1, 2 * h)
  {
    assert 2 * (h * (2 * c + 1)) == (2 * (2 * h)) * c + 2 * h by {
      MulDistributes(h, 2 * c, 1);
      MulAssociates(h, 2, c);
      MulAssociates(4, h, c);
      MulAssociates(2, h, c);
    }
    DivModUnique(2 * (h * (2 * c + 1)), 2 * (2 * h), c, 2 * h);
  }

  /** A line can be drawn from either end exactly when, after halving both lengths while both are
      even, the longer one is odd; in particular whenever it is odd to begin with. */
  lemma ReversibleExactly(p: Point, q: Point)
    ensures Line(p, q) == Line(q, p) <==> TieFree(Longer(p, q), Shorter(p, q))
    ensures Longer(p, q) % 2 == 1 ==> Line(p, q) == Line(q, p)
  {
    hide Tie, Line;
    var n, b := Longer(p, q), Shorter(p, q);
    SameFromOtherEnd(p, q);
    if TieFree(n, b) {
      forall i: nat | i <= n
        ensures !Tie(i, b, n)
      {
        TieFreeNoTie(n, b, i);
      }
    } else {
      var i := TieFound(n, b);
    }
  }
}
