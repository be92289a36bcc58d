/** Bresenham lines of src/vga.c on the 320 by 200 screen of mode 13h. */
module Lines {
  import opened Numbers

  const WIDTH := 320
  const HEIGHT := 200

  datatype Point = Point(x: int, y: int)

  ghost predicate OnScreen(p: Point) {
    0 <= p.x < WIDTH && 0 <= p.y < HEIGHT
  }

  ghost function Index(p: Point): int {
    p.y * WIDTH + p.x
  }

  function Abs(val: int): nat {
    if val < 0 then -val else val
  }

  function Sgn(val: int): int {
    if val < 0 then -1 else if val > 0 then 1 else 0
  }

  // ----- The line that is to be drawn

  /** The length of the longer axis. */
  ghost function Longer(p: Point, q: Point): nat {
    if Abs(q.x - p.x) >= Abs(q.y - p.y) then Abs(q.x - p.x) else Abs(q.y - p.y)
  }

  ghost function Shorter(p: Point, q: Point): nat {
    if Abs(q.x - p.x) >= Abs(q.y - p.y) then Abs(q.y - p.y) else Abs(q.x - p.x)
  }

  /** i * b / n rounded to the nearest integer, halves up. */
  ghost function Rounded(i: nat, b: nat, n: nat): nat {
    if n == 0 then 0 else Quot(i * b + n / 2, n)
  }

  /** `steps` pixels from a coordinate in the direction of another. */
  ghost function Towards(from: int, to: int, steps: nat): int {
    from + Sgn(to - from) * steps
  }

  /** Pixel number i of the line from p to q: i steps along the longer axis, and the nearest whole
      number of steps along the shorter one. */
  ghost function Pixel(p: Point, q: Point, i: nat): Point {
    var m := Rounded(i, Shorter(p, q), Longer(p, q));
    if Abs(q.x - p.x) >= Abs(q.y - p.y)
    then Point(Towards(p.x, q.x, i), Towards(p.y, q.y, m))
    else Point(Towards(p.x, q.x, m), Towards(p.y, q.y, i))
  }

  ghost function Line(p: Point, q: Point): set<Point> {
    set i | 0 <= i <= Longer(p, q) :: Pixel(p, q, i)
  }

  // ----- The rounded slope

  /** Rounded is the one integer within half a unit of i * b / n, halves rounded up. */
  lemma RoundedIsNearest(i: nat, b: nat, n: nat, m: nat)
    requires n > 0
    ensures m == Rounded(i, b, n) <==> 0 - n < 2 * (n * m - i * b) <= n
  {
    var x := i * b + n / 2;
    DivModEquation(x, n);
    if 0 - n < 2 * (n * m - i * b) <= n {
      DivModUnique(x, n, m, x - n * m);
    }
  }

  lemma RoundedEnds(b: nat, n: nat)
    requires b <= n
    ensures Rounded(0, b, n) == 0
    ensures Rounded(n, b, n) == b
  {
    if n > 0 {
      RoundedIsNearest(0, b, n, 0);
      RoundedIsNearest(n, b, n, b);
    }
  }

  /** One step along the longer axis takes at most one along the shorter. */
  lemma RoundedStep(i: nat, b: nat, n: nat)
    requires b <= n
    ensures Rounded(i, b, n) <= Rounded(i + 1, b, n) <= Rounded(i, b, n) + 1
  {
    if n > 0 {
      var x := i * b + n / 2;
      MulDistributes(b, i, 1);
      DivModEquation(x, n);
      var r := x % n + b;
      if r < n {
        DivModUnique(x + b, n, x / n, r);
      } else {
        MulDistributes(n, x / n, 1);
        DivModUnique(x + b, n, x / n + 1, r - n);
      }
    }
  }

  lemma {:induction false} RoundedBounds(i: nat, b: nat, n: nat)
    requires b <= n && i <= n
    ensures Rounded(i, b, n) <= b
    decreases n - i
  {
    RoundedEnds(b, n);
    if i < n {
      RoundedStep(i, b, n);
      RoundedBounds(i + 1, b, n);
    }
  }

  // ----- The loops of the source

  /** The point at offset k of the video memory. */
  ghost function At(k: nat): Point {
    Point(k % WIDTH, k / WIDTH)
  }

  /** The screen m with the points of a set in one colour, and nothing else changed. */
  ghost predicate Painted(vga: seq<bv8>, m: seq<bv8>, points: set<Point>, color: bv8) {
    |m| == |vga| &&
    forall k :: 0 <= k < |m| ==> vga[k] == if At(k) in points then color else m[k]
  }

  /** Pixel by pixel, at its byte of the video memory. */
  lemma PaintedPixels(vga: seq<bv8>, m: seq<bv8>, points: set<Point>, color: bv8)
    requires |vga| == |m| == 64000 && forall u :: u in points ==> 0 <= u.x < 320 && 0 <= u.y < 200
    ensures Painted(vga, m, points, color) <==>
      && (forall u :: u in points ==> vga[320 * u.y + u.x] == color)
      && (forall k :: 0 <= k < 64000 && vga[k] != m[k] ==> vga[k] == color && Point(k % 320, k / 320) in points)
  {
    forall u | u in points
      ensures 0 <= 320 * u.y + u.x < 64000 && At(320 * u.y + u.x) == u
    {
    }
  }

  ghost predicate Drawn(p: Point, q: Point, n: int, k: int) {
    exists i: nat :: i <= n && Index(Pixel(p, q, i)) == k
  }

  lemma DrawnNext(p: Point, q: Point, i: nat, k: int)
    ensures Drawn(p, q, i + 1, k) <==> Drawn(p, q, i, k) || Index(Pixel(p, q, i + 1)) == k
  {
  }

  /** The screen m with the pixels 0..n of the line from p to q in one colour. */
  ghost predicate Coloured(vga: array<bv8>, m: seq<bv8>, p: Point, q: Point, n: int, color: bv8)
    reads vga
  {
    |m| == vga.Length &&
    forall k :: 0 <= k < |m| ==> vga[k] == if Drawn(p, q, n, k) then color else m[k]
  }

  method PlotPixel(vga: array<bv8>, x: u32, y: u32, color: bv8)
    requires vga.Length == WIDTH * HEIGHT && OnScreen(Point(x, y))
    modifies vga
    ensures vga[..] == old(vga[..])[320 * y + x := color]
  {
    vga[256 * y + 64 * y + x] := color;
  }

  /** The error accumulator after i steps. */
  ghost predicate Accumulated(e: int, i: nat, b: nat, n: nat) {
    0 <= e < n && e == i * b + n / 2 - n * Rounded(i, b, n)
  }

  lemma AccumulatorStarts(b: nat, n: nat)
    requires b <= n && n > 0
    ensures Accumulated(n / 2, 0, b, n)
  {
    RoundedEnds(b, n);
  }

  /** An overflow of the accumulator is a step along the shorter axis. */
  lemma AccumulatorSteps(e: int, i: nat, b: nat, n: nat)
    requires b <= n && Accumulated(e, i, b, n)
    ensures e + b >= n ==> Rounded(i + 1, b, n) == Rounded(i, b, n) + 1 && Accumulated(e + b - n, i + 1, b, n)
    ensures e + b < n ==> Rounded(i + 1, b, n) == Rounded(i, b, n) && Accumulated(e + b, i + 1, b, n)
  {
    var m := Rounded(i, b, n);
    MulDistributes(b, i, 1);
    MulDistributes(n, m, 1);
    if e + b >= n {
      DivModUnique((i + 1) * b + n / 2, n, m + 1, e + b - n);
    } else {
      DivModUnique((i + 1) * b + n / 2, n, m, e + b);
    }
  }

  lemma TowardsStep(from: int, to: int, m: nat)
    ensures Towards(from, to, 0) == from
    ensures Towards(from, to, m + 1) == Towards(from, to, m) + Sgn(to - from)
    ensures Towards(from, to, Abs(to - from)) == to
  {
  }

  lemma TowardsBetween(from: int, to: int, m: nat)
    requires m <= Abs(to - from)
    ensures from <= Towards(from, to, m) <= to || to <= Towards(from, to, m) <= from
  {
  }

  lemma PixelOnScreen(p: Point, q: Point, i: nat)
    requires OnScreen(p) && OnScreen(q) && i <= Longer(p, q)
    ensures OnScreen(Pixel(p, q, i))
  {
    hide Rounded, Towards;
    var m := Rounded(i, Shorter(p, q), Longer(p, q));
    RoundedBounds(i, Shorter(p, q), Longer(p, q));
    if Abs(q.x - p.x) >= Abs(q.y - p.y) {
      TowardsBetween(p.x, q.x, i);
      TowardsBetween(p.y, q.y, m);
    } else {
      TowardsBetween(p.x, q.x, m);
      TowardsBetween(p.y, q.y, i);
    }
  }

  lemma EndPoints(p: Point, q: Point)
    ensures Pixel(p, q, 0) == p
    ensures Pixel(p, q, Longer(p, q)) == q
  {
    hide Rounded, Towards;
    RoundedEnds(Shorter(p, q), Longer(p, q));
    TowardsStep(p.x, q.x, 0);
    TowardsStep(p.y, q.y, 0);
  }

  /** From one pixel to the next: a step along the longer axis, and possibly one along the shorter. */
  lemma PixelStep(p: Point, q: Point, i: nat)
    ensures var u, v := Pixel(p, q, i), Pixel(p, q, i + 1);
      var m := Rounded(i + 1, Shorter(p, q), Longer(p, q)) - Rounded(i, Shorter(p, q), Longer(p, q));
      0 <= m <= 1 &&
      if Abs(q.x - p.x) >= Abs(q.y - p.y)
      then v.x == u.x + Sgn(q.x - p.x) && v.y == u.y + (if m == 1 then Sgn(q.y - p.y) else 0)
      else v.y == u.y + Sgn(q.y - p.y) && v.x == u.x + (if m == 1 then Sgn(q.x - p.x) else 0)
  {
    hide Rounded, Towards, Sgn;
    var b, n := Shorter(p, q), Longer(p, q);
    RoundedStep(i, b, n);
    TowardsStep(p.x, q.x, i);
    TowardsStep(p.y, q.y, i);
    TowardsStep(p.x, q.x, Rounded(i, b, n));
    TowardsStep(p.y, q.y, Rounded(i, b, n));
  }

  lemma ColouredNext(vga: array<bv8>, was: seq<bv8>, m: seq<bv8>, p: Point, q: Point, i: nat, color: bv8)
    requires |was| == |m| == vga.Length && 0 <= Index(Pixel(p, q, i + 1)) < vga.Length
    requires forall k :: 0 <= k < |m| ==> was[k] == if Drawn(p, q, i, k) then color else m[k]
    requires vga[..] == was[Index(Pixel(p, q, i + 1)) := color]
    ensures Coloured(vga, m, p, q, i + 1, color)
  {
    forall k | 0 <= k < |m|
      ensures vga[k] == if Drawn(p, q, i + 1, k) then color else m[k]
    {
      DrawnNext(p, q, i, k);
      assert vga[k] == vga[..][k];
    }
  }

  /** One pass of either loop body after the accumulator: plot the next pixel. */
  method PlotNext(vga: array<bv8>, px: i32, py: i32, color: bv8, ghost m: seq<bv8>, ghost p: Point, ghost q: Point, ghost i: nat)
    requires vga.Length == WIDTH * HEIGHT && OnScreen(p) && OnScreen(q) && i < Longer(p, q)
    requires Point(px, py) == Pixel(p, q, i + 1)
    requires Coloured(vga, m, p, q, i, color)
    modifies vga
    ensures Coloured(vga, m, p, q, i + 1, color)
  {
    hide Pixel;
    PixelOnScreen(p, q, i + 1);
    ghost var was := vga[..];
    PlotPixel(vga, px, py, color);
    ColouredNext(vga, was, m, p, q, i, color);
  }

  method LineFast(vga: array<bv8>, x1: u32, y1: u32, x2: u32, y2: u32, color: bv8)
    requires vga.Length == WIDTH * HEIGHT
    requires OnScreen(Point(x1, y1)) && OnScreen(Point(x2, y2))
    modifies vga
    ensures Painted(vga[..], old(vga[..]), Line(Point(x1, y1), Point(x2, y2)), color)
  {
    hide Pixel, Rounded, Accumulated, Drawn, Painted;
    ghost var p, q := Point(x1, y1), Point(x2, y2);
    ghost var m := vga[..];
    var dx: i32, dy: i32 := x2 - x1, y2 - y1;
    var dxabs, dyabs, sdx, sdy := Abs(dx), Abs(dy), Sgn(dx), Sgn(dy);
    var x: i32, y: i32 := dyabs / 2, dxabs / 2;
    var px: i32, py: i32 := x1, y1;
    EndPoints(p, q);
    PlotPixel(vga, px, py, color);
    FirstPixel(vga, m, p, q, color);
    if dxabs >= dyabs {
      HorizontalLoop(vga, px, py, y, dxabs, dyabs, sdx, sdy, color, m, p, q);
    } else {
      VerticalLoop(vga, px, py, x, dxabs, dyabs, sdx, sdy, color, m, p, q);
    }
    LinePainted(vga, m, p, q, color);
  }

  lemma LinePainted(vga: array<bv8>, m: seq<bv8>, p: Point, q: Point, color: bv8)
    requires vga.Length == WIDTH * HEIGHT && OnScreen(p) && OnScreen(q)
    requires Coloured(vga, m, p, q, Longer(p, q), color)
    ensures Painted(vga[..], m, Line(p, q), color)
  {
    hide Pixel;
    forall k | 0 <= k < |m|
      ensures At(k) in Line(p, q) <==> Drawn(p, q, Longer(p, q), k)
    {
      if Drawn(p, q, Longer(p, q), k) {
        var i: nat :| i <= Longer(p, q) && Index(Pixel(p, q, i)) == k;
        PixelOnScreen(p, q, i);
        assert At(k) == Pixel(p, q, i);
      }
    }
  }

  /** The loop for lines more horizontal than vertical. */
  method HorizontalLoop(vga: array<bv8>, px0: i32, py0: i32, y0: i32, dxabs: int, dyabs: int, sdx: int, sdy: int,
                        color: bv8, ghost m: seq<bv8>, ghost p: Point, ghost q: Point)
    requires vga.Length == WIDTH * HEIGHT && OnScreen(p) && OnScreen(q) && Point(px0, py0) == p
    requires dxabs == Abs(q.x - p.x) >= dyabs == Abs(q.y - p.y)
    requires sdx == Sgn(q.x - p.x) && sdy == Sgn(q.y - p.y) && y0 == dxabs / 2
    requires Coloured(vga, m, p, q, 0, color)
    modifies vga
    ensures Coloured(vga, m, p, q, dxabs, color)
  {
    hide Pixel, Rounded, Accumulated, Coloured;
    var px: i32, py: i32, y: i32 := px0, py0, y0;
    EndPoints(p, q);
    if dxabs > 0 {
      AccumulatorStarts(dyabs, dxabs);
    }
    for i := 0 to dxabs
      invariant Point(px, py) == Pixel(p, q, i)
      invariant dxabs > 0 ==> Accumulated(y, i, dyabs, dxabs)
      invariant Coloured(vga, m, p, q, i, color)
    {
      AccumulatorSteps(y, i, dyabs, dxabs);
      AccumulatorRange(y, i, dyabs, dxabs);
      PixelOnScreen(p, q, i);
      PixelStep(p, q, i);
      y := y + dyabs;
      if y >= dxabs {
        y := y - dxabs;
        py := py + sdy;
      }
      px := px + sdx;
      PlotNext(vga, px, py, color, m, p, q, i);
    }
  }

  /** The loop for lines more vertical than horizontal. */
  method VerticalLoop(vga: array<bv8>, px0: i32, py0: i32, x0: i32, dxabs: int, dyabs: int, sdx: int, sdy: int,
                      color: bv8, ghost m: seq<bv8>, ghost p: Point, ghost q: Point)
    requires vga.Length == WIDTH * HEIGHT && OnScreen(p) && OnScreen(q) && Point(px0, py0) == p
    requires dxabs == Abs(q.x - p.x) < dyabs == Abs(q.y - p.y)
    requires sdx == Sgn(q.x - p.x) && sdy == Sgn(q.y - p.y) && x0 == dyabs / 2
    requires Coloured(vga, m, p, q, 0, color)
    modifies vga
    ensures Coloured(vga, m, p, q, dyabs, color)
  {
    hide Pixel, Rounded, Accumulated, Coloured;
    var px: i32, py: i32, x: i32 := px0, py0, x0;
    EndPoints(p, q);
    AccumulatorStarts(dxabs, dyabs);
    for i := 0 to dyabs
      invariant Point(px, py) == Pixel(p, q, i)
      invariant Accumulated(x, i, dxabs, dyabs)
      invariant Coloured(vga, m, p, q, i, color)
    {
      AccumulatorSteps(x, i, dxabs, dyabs);
      AccumulatorRange(x, i, dxabs, dyabs);
      PixelOnScreen(p, q, i);
      PixelStep(p, q, i);
      x := x + dxabs;
      if x >= dyabs {
        x := x - dyabs;
        px := px + sdx;
      }
      py := py + sdy;
      PlotNext(vga, px, py, color, m, p, q, i);
    }
  }

  lemma AccumulatorRange(e: int, i: nat, b: nat, n: nat)
    requires Accumulated(e, i, b, n)
    ensures 0 <= e < n
  {
  }

  lemma FirstPixel(vga: array<bv8>, m: seq<bv8>, p: Point, q: Point, color: bv8)
    requires |m| == vga.Length && 0 <= Index(p) < vga.Length && Pixel(p, q, 0) == p
    requires vga[..] == m[Index(p) := color]
    ensures Coloured(vga, m, p, q, 0, color)
  {
    forall k | 0 <= k < |m|
      ensures vga[k] == if Drawn(p, q, 0, k) then color else m[k]
    {
      assert Drawn(p, q, 0, k) <==> k == Index(p);
      assert vga[k] == vga[..][k];
    }
  }
}
