/** The polygon outline of src/vga.c: the edges between successive vertices, and the closing edge drawn
    from the first vertex to the last. */
module Polygons {
  import opened Numbers
  import opened Lines
  import opened LineShapes

  ghost function Vertices(v: seq<u32>, count: nat): (ps: seq<Point>)
    requires 2 * count <= |v|
    ensures |ps| == count
  {
    seq(count, e requires 0 <= e < count => Point(v[2 * e], v[2 * e + 1]))
  }

  /** The points of the first k edges. */
  ghost function Edges(vs: seq<Point>, k: nat): set<Point>
    requires k < |vs|
  {
    if k == 0 then {} else Edges(vs, k - 1) + Line(vs[k - 1], vs[k])
  }

  ghost function Outline(vs: seq<Point>): set<Point>
    requires vs != []
  {
    Edges(vs, |vs| - 1) + Line(vs[0], vs[|vs| - 1])
  }

  /** The outline, edge by edge: each vertex to the next, and the first to the last. */
  lemma {:induction false} EdgesExactly(vs: seq<Point>, k: nat, u: Point)
    requires k < |vs|
    ensures u in Edges(vs, k) <==> exists e :: 0 <= e < k && u in Line(vs[e], vs[e + 1])
  {
    hide Line;
    if k > 0 {
      EdgesExactly(vs, k - 1, u);
      assert vs[k] == vs[k - 1 + 1];
    }
  }

  lemma OutlineExactly(vs: seq<Point>, u: Point)
    requires vs != []
    ensures u in Outline(vs) <==>
      u in Line(vs[0], vs[|vs| - 1]) || exists e :: 0 <= e < |vs| - 1 && u in Line(vs[e], vs[e + 1])
  {
    hide Line;
    EdgesExactly(vs, |vs| - 1, u);
  }

  method Polygon(vga: array<bv8>, numVertices: u32, vertices: seq<u32>, color: bv8)
    requires vga.Length == WIDTH * HEIGHT
    requires 1 <= numVertices && 2 * numVertices <= |vertices| < U32_SIZE
    requires forall p :: p in Vertices(vertices, numVertices) ==> OnScreen(p)
    modifies vga
    ensures Painted(vga[..], old(vga[..]), Outline(Vertices(vertices, numVertices)), color)
  {
    hide Line, Vertices;
    ghost var m := vga[..];
    ghost var vs := Vertices(vertices, numVertices);
    assert Painted(vga[..], m, Edges(vs, 0), color);
    hide Painted;
    for i := 0 to numVertices - 1
      invariant Painted(vga[..], m, Edges(vs, i), color)
    {
      VertexAt(vertices, numVertices, i);
      VertexAt(vertices, numVertices, i + 1);
      ghost var was := vga[..];
      LineFast(vga, vertices[2 * i], vertices[2 * i + 1], vertices[2 * i + 2], vertices[2 * i + 3], color);
      PaintedTwice(vga[..], was, m, Edges(vs, i), Line(vs[i], vs[i + 1]), color);
    }
    VertexAt(vertices, numVertices, 0);
    VertexAt(vertices, numVertices, numVertices - 1);
    ghost var was := vga[..];
    LineFast(vga, vertices[0], vertices[1], vertices[2 * numVertices - 2], vertices[2 * numVertices - 1], color);
    PaintedTwice(vga[..], was, m, Edges(vs, numVertices - 1), Line(vs[0], vs[numVertices - 1]), color);
  }

  lemma VertexAt(v: seq<u32>, count: nat, e: nat)
    requires e < count && 2 * count <= |v|
    ensures Vertices(v, count)[e] == Point(v[2 * e], v[2 * e + 1])
    ensures Vertices(v, count)[e] in Vertices(v, count)
  {
    assert Vertices(v, count)[e] in Vertices(v, count);
  }

  lemma PaintedTwice(now: seq<bv8>, was: seq<bv8>, m: seq<bv8>, s: set<Point>, t: set<Point>, color: bv8)
    requires Painted(was, m, s, color) && Painted(now, was, t, color)
    ensures Painted(now, m, s + t, color)
  {
  }

  // ----- The outline is one closed curve through the vertices

  /** The pixels of a line in drawing order. */
  ghost function Path(p: Point, q: Point): (w: seq<Point>)
    ensures |w| == Longer(p, q) + 1
  {
    seq(Longer(p, q) + 1, i requires 0 <= i => Pixel(p, q, i))
  }

  ghost function Reversed(w: seq<Point>): (r: seq<Point>)
    ensures |r| == |w|
  {
    seq(|w|, i requires 0 <= i < |w| => w[|w| - 1 - i])
  }

  /** The first k edges, one after the other. */
  ghost function OpenPath(vs: seq<Point>, k: nat): seq<Point>
    requires k < |vs|
  {
    if k == 0 then [vs[0]] else OpenPath(vs, k - 1) + Path(vs[k - 1], vs[k])
  }

  /** Around the polygon: along the edges, and back along the closing edge. */
  ghost function Tour(vs: seq<Point>): seq<Point>
    requires vs != []
  {
    OpenPath(vs, |vs| - 1) + Reversed(Path(vs[0], vs[|vs| - 1]))
  }

  /** Each point is the one before it or one of its eight neighbours. */
  ghost predicate Walk(w: seq<Point>) {
    forall i :: 0 < i < |w| ==> w[i - 1] == w[i] || Neighbours(w[i - 1], w[i])
  }

  ghost function Points(w: seq<Point>): set<Point> {
    set u | u in w
  }

  lemma PathIsWalk(p: Point, q: Point)
    ensures Walk(Path(p, q)) && Path(p, q)[0] == p && Path(p, q)[Longer(p, q)] == q
    ensures Points(Path(p, q)) == Line(p, q)
  {
    hide Pixel;
    var w := Path(p, q);
    EndPoints(p, q);
    forall i | 0 < i < |w|
      ensures Neighbours(w[i - 1], w[i])
    {
      LineIsWalk(p, q, i - 1);
    }
    forall u | u in Line(p, q)
      ensures u in w
    {
      var i :| 0 <= i <= Longer(p, q) && u == Pixel(p, q, i);
      assert w[i] == u;
    }
    forall u | u in w
      ensures u in Line(p, q)
    {
      var i :| 0 <= i < |w| && u == w[i];
    }
  }

  lemma ReversedWalk(w: seq<Point>)
    requires Walk(w)
    ensures Walk(Reversed(w)) && Points(Reversed(w)) == Points(w)
    ensures w != [] ==> Reversed(w)[0] == w[|w| - 1] && Reversed(w)[|w| - 1] == w[0]
  {
    var r := Reversed(w);
    forall i | 0 < i < |r|
      ensures r[i - 1] == r[i] || Neighbours(r[i - 1], r[i])
    {
      var j := |w| - i;
      assert w[j - 1] == w[j] || Neighbours(w[j - 1], w[j]);
    }
    forall u | u in w
      ensures u in r
    {
      var i :| 0 <= i < |w| && u == w[i];
      assert r[|w| - 1 - i] == u;
    }
  }

  lemma WalkOn(v: seq<Point>, w: seq<Point>)
    requires Walk(v) && Walk(w) && v != [] && w != [] && v[|v| - 1] == w[0]
    ensures Walk(v + w) && Points(v + w) == Points(v) + Points(w)
  {
    var t := v + w;
    forall i | 0 < i < |t|
      ensures t[i - 1] == t[i] || Neighbours(t[i - 1], t[i])
    {
      if i > |v| {
        assert w[i - |v| - 1] == w[i - |v|] || Neighbours(w[i - |v| - 1], w[i - |v|]);
      }
    }
  }

  lemma {:induction false} OpenPathIsWalk(vs: seq<Point>, k: nat)
    requires k < |vs|
    ensures var w := OpenPath(vs, k); w != [] && Walk(w) && w[0] == vs[0] && w[|w| - 1] == vs[k]
    ensures Points(OpenPath(vs, k)) == Edges(vs, k) + {vs[0]}
  {
    hide Path, Walk, Line, Neighbours;
    if k == 0 {
      OnePoint(vs[0]);
    } else {
      OpenPathIsWalk(vs, k - 1);
      PathIsWalk(vs[k - 1], vs[k]);
      WalkOn(OpenPath(vs, k - 1), Path(vs[k - 1], vs[k]));
    }
  }

  lemma OnePoint(p: Point)
    ensures Walk([p]) && Points([p]) == {p}
  {
  }

  /** The coloured points are those of one walk that closes, and every vertex is among them. */
  lemma OutlineIsClosedCurve(vs: seq<Point>)
    requires vs != []
    ensures var t := Tour(vs); t != [] && Walk(t) && t[0] == vs[0] && t[|t| - 1] == vs[0]
    ensures Points(Tour(vs)) == Outline(vs)
    ensures forall p :: p in vs ==> p in Outline(vs)
  {
    hide Path, Line, Walk, Neighbours, Edges, OpenPath;
    var last := vs[|vs| - 1];
    var closing := Path(vs[0], last);
    OpenPathIsWalk(vs, |vs| - 1);
    PathIsWalk(vs[0], last);
    ReversedWalk(closing);
    WalkOn(OpenPath(vs, |vs| - 1), Reversed(closing));
    FirstVertex(vs[0], last);
    forall p | p in vs
      ensures p in Outline(vs)
    {
      var e :| 0 <= e < |vs| && vs[e] == p;
      VertexOnOutline(vs, e);
    }
  }

  lemma FirstVertex(p: Point, q: Point)
    ensures p in Line(p, q) && q in Line(p, q)
  {
    EndPoints(p, q);
  }

  lemma {:induction false} EdgesGrow(vs: seq<Point>, j: nat, k: nat)
    requires j <= k < |vs|
    ensures Edges(vs, j) <= Edges(vs, k)
  {
    if j < k {
      EdgesGrow(vs, j, k - 1);
    }
  }

  lemma VertexOnOutline(vs: seq<Point>, e: nat)
    requires e < |vs|
    ensures vs[e] in Outline(vs)
  {
    hide Line;
    if e == 0 || e == |vs| - 1 {
      FirstVertex(vs[0], vs[|vs| - 1]);
    } else {
      FirstVertex(vs[e - 1], vs[e]);
      EdgesGrow(vs, e, |vs| - 1);
    }
  }
}
