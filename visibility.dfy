/** src/lib/visibility/visibility.c: the visibility polygon of a bomb at
    (x, y) among barrier lines. The model covers the vertex buffer of the
    polygon, the preparation of the angular sweep (the synthetic bounding box,
    the split of the segments crossing the ray at angle 0, two events per
    segment), the two comparators and the bookkeeping that keeps each
    segment's tree handle in step with the tree of active segments. `atan2`,
    `cos`, `sin` and `sqrt` are parameters. */
module Visibility {
  import opened Common
  import opened Shapes
  import opened Geometry
  import Bst

  /** The tolerance used for vertex de-duplication, ray parameters and both
      comparators. */
  const Tol: real := 0.000000001

  /* ---------------------------------------------------------------------
     The polygon vertex buffer (add_vertex and the accessors)
     --------------------------------------------------------------------- */

  /** Both coordinates of `p` are within the tolerance of (x, y). */
  predicate Near(p: Point, x: real, y: real)
  {
    Abs(x - p.x) < Tol && Abs(y - p.y) < Tol
  }

  /** The vertex list after add_vertex(x, y): unchanged when the last vertex
      is near (x, y), otherwise extended by (x, y). */
  function Pushed(vs: seq<Point>, x: real, y: real): seq<Point>
  {
    if |vs| > 0 && Near(vs[|vs| - 1], x, y) then vs else vs + [Point(x, y)]
  }

  /** No vertex is near the one before it. */
  predicate NoStutter(vs: seq<Point>)
  {
    forall i :: 0 < i < |vs| ==> !Near(vs[i - 1], vs[i].x, vs[i].y)
  }

  /** What add_vertex promises: earlier vertices are kept, the point is
      dropped exactly when it is near the last vertex, and the list never
      holds two neighbouring near points. */
  lemma PushedMeaning(vs: seq<Point>, x: real, y: real)
    ensures var r := Pushed(vs, x, y);
      |r| > 0 && r[..|vs|] == vs && Near(r[|r| - 1], x, y) &&
      (r == vs <==> (|vs| > 0 && Near(vs[|vs| - 1], x, y))) &&
      (r != vs ==> r == vs + [Point(x, y)])
    ensures NoStutter(vs) ==> NoStutter(Pushed(vs, x, y))
  {
    var r := Pushed(vs, x, y);
    if r != vs {
      assert r[|r| - 1] == Point(x, y);
    }
  }

  /** The capacity after a full buffer grows: 16 from nothing, then doubling. */
  function Grown(capacity: int): int
  {
    if capacity == 0 then 16 else capacity * 2
  }

  /** The capacities add_vertex can reach: 16 doubled some number of times. */
  predicate Doubling(c: int)
    decreases c
  {
    c == 16 || (c > 16 && c % 2 == 0 && Doubling(c / 2))
  }

  /** Growing keeps the capacity among 16, 32, 64, ... */
  lemma GrownDoubling(c: int)
    requires c == 0 || Doubling(c)
    ensures Doubling(Grown(c)) && Grown(c) > c
  {
    if c != 0 {
      assert Grown(c) / 2 == c;
    }
  }

  /** struct VisibilityPolygon: a vertex buffer whose length is the capacity
      (a zero-length buffer stands for the NULL `vertices` pointer) and the
      number of vertices in use. */
  class Polygon {
    var vertices: array<Point>
    var count: int

    ghost predicate Valid()
      reads this, vertices
    {
      0 <= count <= vertices.Length &&
      (vertices.Length == 0 || Doubling(vertices.Length)) &&
      NoStutter(vertices[..count])
    }

    /** The vertices in use. */
    function Points(): seq<Point>
      reads this, vertices
      requires 0 <= count <= vertices.Length
    {
      vertices[..count]
    }

    /** The polygon visibility_calculate starts from: no buffer, no vertices. */
    constructor ()
      ensures Valid() && Points() == [] && vertices.Length == 0
    {
      vertices := new Point[0];
      count := 0;
    }

    /** add_vertex on a polygon: a full buffer grows first (even when the
        point is then dropped), then the point is appended unless it is near
        the last vertex. */
    method AddVertex(x: real, y: real) returns (ok: bool)
      requires Valid()
      modifies this, vertices
      ensures Valid() && ok
      ensures Points() == Pushed(old(Points()), x, y)
      ensures vertices.Length == if old(count) >= old(vertices.Length) then Grown(old(vertices.Length)) else old(vertices.Length)
    {
      Grow();
      ghost var before := Points();
      PushedMeaning(before, x, y);
      if count > 0 && Near(vertices[count - 1], x, y) {
        return true;
      }
      vertices[count] := Point(x, y);
      count := count + 1;
      assert Points() == before + [Point(x, y)];
      ok := true;
    }

    /** The growth step of add_vertex: a full buffer is replaced by one of the
        next capacity holding the same vertices. */
    method Grow()
      requires Valid()
      modifies this
      ensures Valid() && count == old(count) < vertices.Length && Points() == old(Points())
      ensures vertices.Length == if old(count) >= old(vertices.Length) then Grown(old(vertices.Length)) else old(vertices.Length)
      ensures vertices == old(vertices) || fresh(vertices)
    {
      if count >= vertices.Length {
        GrownDoubling(vertices.Length);
        var grown := new Point[Grown(vertices.Length)];
        forall i | 0 <= i < count {
          grown[i] := vertices[i];
        }
        assert grown[..count] == vertices[..count];
        vertices := grown;
      }
    }
  }

  /** add_vertex(polygon, x, y) with a possibly NULL polygon: NULL gives false
      and changes nothing. */
  method PushVertex(polygon: Polygon?, x: real, y: real) returns (ok: bool)
    requires polygon != null ==> polygon.Valid()
    modifies if polygon != null then {polygon, polygon.vertices} else {}
    ensures ok == (polygon != null)
    ensures polygon != null ==> polygon.Valid() && polygon.Points() == Pushed(old(polygon.Points()), x, y)
  {
    if polygon == null {
      return false;
    }
    ok := polygon.AddVertex(x, y);
  }

  /** visibility_polygon_get_vertex_count: 0 for NULL. */
  function VertexCount(polygon: Polygon?): (n: int)
    reads polygon
    requires polygon != null ==> polygon.count >= 0
    ensures n >= 0 && (polygon == null ==> n == 0)
  {
    if polygon == null then 0 else polygon.count
  }

  /** visibility_polygon_get_vertices: NULL for a NULL polygon and for a
      polygon that never allocated its buffer. */
  function Vertices(polygon: Polygon?): (r: Option<seq<Point>>)
    reads polygon, if polygon != null then {polygon.vertices} else {}
    requires polygon != null ==> 0 <= polygon.count <= polygon.vertices.Length
    ensures r.Some? <==> polygon != null && polygon.vertices.Length > 0
    ensures r.Some? ==> |r.value| == VertexCount(polygon)
  {
    if polygon == null || polygon.vertices.Length == 0 then None else Some(polygon.Points())
  }

  /** visibility_polygon_contains_point: false for NULL, otherwise the
      crossing-number test on the vertices in use. */
  method ContainsPoint(polygon: Polygon?, x: real, y: real) returns (inside: bool)
    requires polygon != null ==> 0 <= polygon.count <= polygon.vertices.Length
    ensures inside == (polygon != null && InPolygon(x, y, Vertices(polygon)))
    ensures VertexCount(polygon) < 3 ==> !inside
  {
    if polygon == null {
      return false;
    }
    inside := PointInPolygon(x, y, Vertices(polygon));
  }

  /* ---------------------------------------------------------------------
     The working segments: bounding box, barrier segments, split at angle 0
     --------------------------------------------------------------------- */

  /** A working segment of the sweep: its initial and final points and the id
      of the barrier it comes from (negative for the box edges). */
  datatype Seg = Seg(p: Point, q: Point, id: int)

  /** The barrier lines visibility_calculate uses, in list order: NULL
      entries and shapes that are not barrier lines are skipped. */
  function BarrierLines(barriers: seq<Option<Shape>>): (r: seq<Shape>)
    ensures |r| <= |barriers|
    ensures forall k :: 0 <= k < |r| ==> IsBarrier(r[k]) && Some(r[k]) in barriers
  {
    if barriers == [] then []
    else
      var last := barriers[|barriers| - 1];
      BarrierLines(barriers[..|barriers| - 1]) + (if last.Some? && IsBarrier(last.value) then [last.value] else [])
  }

  /** Every barrier line of the list is taken. */
  lemma {:induction false} BarrierLinesComplete(barriers: seq<Option<Shape>>, k: int)
    requires 0 <= k < |barriers| && barriers[k].Some? && IsBarrier(barriers[k].value)
    ensures barriers[k].value in BarrierLines(barriers)
  {
    var n := |barriers| - 1;
    if k < n {
      BarrierLinesComplete(barriers[..n], k);
    } else {
      var r := BarrierLines(barriers);
      assert r[|r| - 1] == barriers[k].value;
    }
  }

  /** A bounding rectangle. */
  datatype Bounds = Bounds(minX: real, maxX: real, minY: real, maxY: real)

  predicate Encloses(b: Bounds, x: real, y: real)
  {
    b.minX <= x <= b.maxX && b.minY <= y <= b.maxY
  }

  /** `if (v < m) m = v;` */
  function Lower(m: real, v: real): real
  {
    if v < m then v else m
  }

  /** `if (v > m) m = v;` */
  function Upper(m: real, v: real): real
  {
    if v > m then v else m
  }

  /** One barrier's turn of the first pass: both endpoints widen each bound,
      in the order of the source. */
  function Widen(b: Bounds, l: Shape): Bounds
    requires l.Line?
  {
    Bounds(Lower(Lower(b.minX, l.x1), l.x2), Upper(Upper(b.maxX, l.x1), l.x2),
           Lower(Lower(b.minY, l.y1), l.y2), Upper(Upper(b.maxY, l.y1), l.y2))
  }

  /** The bounds after the first pass over `ls`, starting from the source. */
  function BoundsOf(x: real, y: real, ls: seq<Shape>): Bounds
    requires forall k :: 0 <= k < |ls| ==> ls[k].Line?
  {
    if ls == [] then Bounds(x, x, y, y) else Widen(BoundsOf(x, y, ls[..|ls| - 1]), ls[|ls| - 1])
  }

  /** The first pass (first loop over the barriers). */
  method ComputeBounds(x: real, y: real, barriers: seq<Option<Shape>>) returns (b: Bounds)
    ensures b == BoundsOf(x, y, BarrierLines(barriers))
  {
    b := Bounds(x, x, y, y);
    var i := 0;
    while i < |barriers|
      invariant 0 <= i <= |barriers|
      invariant b == BoundsOf(x, y, BarrierLines(barriers[..i]))
    {
      BarrierLinesStep(barriers, i);
      var shape := barriers[i];
      if shape.Some? && IsBarrier(shape.value) {
        BoundsOfStep(x, y, BarrierLines(barriers[..i]), shape.value);
        b := Widen(b, shape.value);
      }
      i := i + 1;
    }
    assert barriers[..i] == barriers;
  }

  /** One more entry of the list adds at most its own line. */
  lemma BarrierLinesStep(barriers: seq<Option<Shape>>, i: int)
    requires 0 <= i < |barriers|
    ensures barriers[i].Some? && IsBarrier(barriers[i].value) ==>
      BarrierLines(barriers[..i + 1]) == BarrierLines(barriers[..i]) + [barriers[i].value]
    ensures !(barriers[i].Some? && IsBarrier(barriers[i].value)) ==>
      BarrierLines(barriers[..i + 1]) == BarrierLines(barriers[..i])
  {
    assert barriers[..i + 1][..i] == barriers[..i];
  }

  lemma BoundsOfStep(x: real, y: real, ls: seq<Shape>, l: Shape)
    requires l.Line? && forall k :: 0 <= k < |ls| ==> ls[k].Line?
    ensures BoundsOf(x, y, ls + [l]) == Widen(BoundsOf(x, y, ls), l)
  {
    assert (ls + [l])[..|ls|] == ls;
  }

  /** `v` is the source coordinate or an endpoint coordinate of some line. */
  predicate AttainedX(v: real, x: real, ls: seq<Shape>)
    requires forall k :: 0 <= k < |ls| ==> ls[k].Line?
  {
    v == x || exists k :: 0 <= k < |ls| && (v == ls[k].x1 || v == ls[k].x2)
  }

  predicate AttainedY(v: real, y: real, ls: seq<Shape>)
    requires forall k :: 0 <= k < |ls| ==> ls[k].Line?
  {
    v == y || exists k :: 0 <= k < |ls| && (v == ls[k].y1 || v == ls[k].y2)
  }

  /** The first pass holds the source and every endpoint of the lines. */
  lemma {:induction false} BoundsEnclose(x: real, y: real, ls: seq<Shape>)
    requires forall k :: 0 <= k < |ls| ==> ls[k].Line?
    ensures var b := BoundsOf(x, y, ls);
      Encloses(b, x, y) &&
      forall k :: 0 <= k < |ls| ==> Encloses(b, ls[k].x1, ls[k].y1) && Encloses(b, ls[k].x2, ls[k].y2)
  {
    if ls != [] {
      var n := |ls| - 1;
      var init := ls[..n];
      BoundsEnclose(x, y, init);
      WidenEncloses(BoundsOf(x, y, init), x, y, init, ls);
    }
  }

  /** Widening by the last line keeps what the bounds held and adds the last
      line's endpoints. */
  lemma WidenEncloses(b: Bounds, x: real, y: real, init: seq<Shape>, ls: seq<Shape>)
    requires ls != [] && init == ls[..|ls| - 1] && ls[|ls| - 1].Line?
    requires Encloses(b, x, y)
    requires forall k :: 0 <= k < |init| ==> init[k].Line? && Encloses(b, init[k].x1, init[k].y1) && Encloses(b, init[k].x2, init[k].y2)
    ensures var w := Widen(b, ls[|ls| - 1]);
      Encloses(w, x, y) &&
      forall k :: 0 <= k < |ls| ==> Encloses(w, ls[k].x1, ls[k].y1) && Encloses(w, ls[k].x2, ls[k].y2)
  {
    assert forall k :: 0 <= k < |init| ==> ls[k] == init[k];
  }

  /** Each bound of the first pass is the source's coordinate or an endpoint
      coordinate: together with BoundsEnclose, the bounds are the least
      rectangle holding the source and the barriers. */
  lemma {:induction false} BoundsAttained(x: real, y: real, ls: seq<Shape>)
    requires forall k :: 0 <= k < |ls| ==> ls[k].Line?
    ensures var b := BoundsOf(x, y, ls);
      AttainedX(b.minX, x, ls) && AttainedX(b.maxX, x, ls) && AttainedY(b.minY, y, ls) && AttainedY(b.maxY, y, ls)
  {
    if ls != [] {
      var n := |ls| - 1;
      var init := ls[..n];
      BoundsAttained(x, y, init);
      var b0 := BoundsOf(x, y, init);
      AttainedGrows(b0.minX, x, ls, true);
      AttainedGrows(b0.maxX, x, ls, true);
      AttainedGrows(b0.minY, y, ls, false);
      AttainedGrows(b0.maxY, y, ls, false);
    }
  }

  /** A coordinate attained by the lines before the last, or by the last
      line's endpoints, is attained by all of them. */
  lemma AttainedGrows(v: real, src: real, ls: seq<Shape>, horizontal: bool)
    requires ls != [] && forall k :: 0 <= k < |ls| ==> ls[k].Line?
    ensures var init, l := ls[..|ls| - 1], ls[|ls| - 1];
      horizontal ==> (AttainedX(v, src, init) || v == l.x1 || v == l.x2) ==> AttainedX(v, src, ls)
    ensures var init, l := ls[..|ls| - 1], ls[|ls| - 1];
      !horizontal ==> (AttainedY(v, src, init) || v == l.y1 || v == l.y2) ==> AttainedY(v, src, ls)
  {
    var n := |ls| - 1;
    assert forall k :: 0 <= k < n ==> ls[..n][k] == ls[k];
  }

  /** The distance added around the content. */
  const Margin: real := 50.0

  /** The box: the bounds widened by the margin, then widened again so that
      the margin also surrounds the source. */
  function BoxOf(b: Bounds, x: real, y: real): Bounds
  {
    Bounds(Lower(b.minX - Margin, x - Margin), Upper(b.maxX + Margin, x + Margin),
           Lower(b.minY - Margin, y - Margin), Upper(b.maxY + Margin, y + Margin))
  }

  /** The corners in the order of `box[4][2]`. */
  function Corners(b: Bounds): seq<Point>
  {
    [Point(b.minX, b.minY), Point(b.maxX, b.minY), Point(b.maxX, b.maxY), Point(b.minX, b.maxY)]
  }

  /** Edge i of the box runs from corner i to corner (i + 1) % 4 with id -(i + 1). */
  function BoxEdge(b: Bounds, i: int): Seg
    requires 0 <= i < 4
  {
    Seg(Corners(b)[i], Corners(b)[(i + 1) % 4], -(i + 1))
  }

  /** The loop creating the four box segments. */
  method BoxSegments(b: Bounds) returns (segs: seq<Seg>)
    ensures |segs| == 4 && forall i :: 0 <= i < 4 ==> segs[i] == BoxEdge(b, i)
  {
    var box := Corners(b);
    segs := [];
    var i := 0;
    while i < 4
      invariant 0 <= i <= 4 && |segs| == i
      invariant forall k :: 0 <= k < i ==> segs[k] == BoxEdge(b, k)
    {
      segs := segs + [Seg(box[i], box[(i + 1) % 4], -(i + 1))];
      i := i + 1;
    }
  }

  /** The four edges close a loop around the box, with the ids -1 .. -4. */
  lemma BoxIsClosed(b: Bounds, i: int)
    requires 0 <= i < 4
    ensures BoxEdge(b, i).q == BoxEdge(b, (i + 1) % 4).p
    ensures BoxEdge(b, i).id == -(i + 1) < 0
    ensures forall j :: 0 <= j < 4 && j != i ==> BoxEdge(b, j).id != BoxEdge(b, i).id
  {
  }

  /** Once the bounds hold the source, the step that puts the source inside
      the box changes nothing, and every point the bounds hold lies at least
      the margin away from the box edges. */
  lemma BoxSurrounds(b: Bounds, x: real, y: real, px: real, py: real)
    requires Encloses(b, x, y)
    ensures BoxOf(b, x, y) == Bounds(b.minX - Margin, b.maxX + Margin, b.minY - Margin, b.maxY + Margin)
    ensures Encloses(b, px, py) ==>
      var box := BoxOf(b, x, y);
      box.minX + Margin <= px <= box.maxX - Margin && box.minY + Margin <= py <= box.maxY - Margin
  {
  }

  /** The segment of a barrier line, from (x1, y1) to (x2, y2). */
  function LineSeg(l: Shape): Seg
    requires l.Line?
  {
    Seg(Point(l.x1, l.y1), Point(l.x2, l.y2), l.id)
  }

  /** The second loop over the barriers: one segment per barrier line, in
      order, after the box. */
  method AppendBarriers(segs: seq<Seg>, barriers: seq<Option<Shape>>) returns (out: seq<Seg>)
    ensures var ls := BarrierLines(barriers);
      |out| == |segs| + |ls| && out[..|segs|] == segs &&
      forall k :: 0 <= k < |ls| ==> out[|segs| + k] == LineSeg(ls[k])
  {
    out := segs;
    var i := 0;
    while i < |barriers|
      invariant 0 <= i <= |barriers|
      invariant var ls := BarrierLines(barriers[..i]);
        |out| == |segs| + |ls| && out[..|segs|] == segs &&
        forall k :: 0 <= k < |ls| ==> out[|segs| + k] == LineSeg(ls[k])
    {
      BarrierLinesStep(barriers, i);
      var shape := barriers[i];
      if shape.Some? && IsBarrier(shape.value) {
        out := out + [LineSeg(shape.value)];
      }
      i := i + 1;
    }
    assert barriers[..i] == barriers;
  }

  /** `s` strictly straddles the horizontal line through the source. */
  predicate Straddles(s: Seg, y: real)
  {
    (s.p.y > y && s.q.y < y) || (s.p.y < y && s.q.y > y)
  }

  /** Where on `s` (as a fraction from p to q) it meets that line. */
  function CrossT(s: Seg, y: real): real
    requires Straddles(s, y)
  {
    (y - s.p.y) / (s.q.y - s.p.y)
  }

  function CrossX(s: Seg, y: real): real
    requires Straddles(s, y)
  {
    s.p.x + CrossT(s, y) * (s.q.x - s.p.x)
  }

  /** `s` crosses the ray at angle 0 from (x, y): the split applies. */
  predicate Splits(s: Seg, x: real, y: real)
  {
    Straddles(s, y) && CrossX(s, y) > x
  }

  /** What is left of `s` in place: it now ends at the crossing. */
  function FirstPiece(s: Seg, x: real, y: real): Seg
  {
    if Splits(s, x, y) then s.(q := Point(CrossX(s, y), y)) else s
  }

  /** The new segment: from the crossing to the old final point, same id. */
  function SecondPiece(s: Seg, y: real): Seg
    requires Straddles(s, y)
  {
    Seg(Point(CrossX(s, y), y), s.q, s.id)
  }

  /** The segments appended by the split, in the order of their originals. */
  function SecondPieces(segs: seq<Seg>, x: real, y: real): seq<Seg>
  {
    if segs == [] then []
    else
      var last := segs[|segs| - 1];
      SecondPieces(segs[..|segs| - 1], x, y) + (if Splits(last, x, y) then [SecondPiece(last, y)] else [])
  }

  /** The split loop: only the segments present before it are examined; each
      one that crosses the ray is cut in place and its second piece appended. */
  method SplitAtZero(segs: seq<Seg>, x: real, y: real) returns (out: seq<Seg>)
    ensures |out| == |segs| + |SecondPieces(segs, x, y)|
    ensures forall i :: 0 <= i < |segs| ==> out[i] == FirstPiece(segs[i], x, y)
    ensures out[|segs|..] == SecondPieces(segs, x, y)
  {
    out := segs;
    var n := |segs|;
    var i := 0;
    while i < n
      invariant 0 <= i <= n && |out| == n + |SecondPieces(segs[..i], x, y)|
      invariant forall k :: 0 <= k < i ==> out[k] == FirstPiece(segs[k], x, y)
      invariant forall k :: i <= k < n ==> out[k] == segs[k]
      invariant out[n..] == SecondPieces(segs[..i], x, y)
    {
      assert segs[..i + 1][..i] == segs[..i];
      var s := out[i];
      if (s.p.y > y && s.q.y < y) || (s.p.y < y && s.q.y > y) {
        var t := (y - s.p.y) / (s.q.y - s.p.y);
        var ix := s.p.x + t * (s.q.x - s.p.x);
        if ix > x {
          var tail := Seg(Point(ix, y), s.q, s.id);
          out := out[i := s.(q := Point(ix, y))] + [tail];
        }
      }
      i := i + 1;
    }
    assert segs[..n] == segs;
  }

  /** A split cuts `s` at a point strictly inside it, right of the source and
      on the source's horizontal; the two pieces meet there, keep the id, and
      together run from p to q. */
  lemma SplitJoins(s: Seg, x: real, y: real)
    requires Splits(s, x, y)
    ensures var a, b, t := FirstPiece(s, x, y), SecondPiece(s, y), CrossT(s, y);
      a.p == s.p && b.q == s.q && a.q == b.p && a.id == b.id == s.id &&
      0.0 < t < 1.0 && a.q == Along(s.p.x, s.p.y, s.q.x, s.q.y, t) &&
      a.q.y == y && a.q.x > x
  {
    CrossParameter(s.p.y, s.q.y, y);
  }

  /** The crossing parameter of a strict straddle lies strictly inside
      (0, 1) and lands on the horizontal. */
  lemma CrossParameter(py: real, qy: real, y: real)
    requires (py > y && qy < y) || (py < y && qy > y)
    ensures var t := (y - py) / (qy - py);
      0.0 < t < 1.0 && py + t * (qy - py) == y
  {
    var d := qy - py;
    var t := (y - py) / d;
    assert t * d == y - py;
    if d > 0.0 {
      Fraction(y - py, d);
    } else {
      assert t == (py - y) / (py - qy);
      Fraction(py - y, py - qy);
    }
  }

  lemma Fraction(a: real, b: real)
    requires 0.0 < a < b
    ensures 0.0 < a / b < 1.0
  {
    var q := a / b;
    assert q * b == a;
    if q >= 1.0 {
      assert false;
    }
    if q <= 0.0 {
      assert false;
    }
  }

  /** After the split no working segment crosses the ray at angle 0 strictly:
      every piece ends or starts on the source's horizontal. */
  lemma {:induction false} NothingCrossesAfterSplit(segs: seq<Seg>, x: real, y: real)
    ensures forall i :: 0 <= i < |segs| ==> !Splits(FirstPiece(segs[i], x, y), x, y)
    ensures forall k :: 0 <= k < |SecondPieces(segs, x, y)| ==>
      !Splits(SecondPieces(segs, x, y)[k], x, y) && SecondPieces(segs, x, y)[k].p.y == y
  {
    if segs != [] {
      var init, last := segs[..|segs| - 1], segs[|segs| - 1];
      NothingCrossesAfterSplit(init, x, y);
      var tails0 := SecondPieces(init, x, y);
      var more := if Splits(last, x, y) then [SecondPiece(last, y)] else [];
      var tails := SecondPieces(segs, x, y);
      assert tails == tails0 + more;
      forall k | 0 <= k < |tails|
        ensures !Splits(tails[k], x, y) && tails[k].p.y == y
      {
        if k < |tails0| {
          assert tails[k] == tails0[k];
        } else {
          assert tails[k] == SecondPiece(last, y);
        }
      }
    }
  }

  /** Each original splits at most once: at most one piece is appended per
      segment. */
  lemma {:induction false} SplitAtMostOnce(segs: seq<Seg>, x: real, y: real)
    ensures |SecondPieces(segs, x, y)| <= |segs|
    ensures (forall i :: 0 <= i < |segs| ==> !Splits(segs[i], x, y)) ==> SecondPieces(segs, x, y) == []
  {
    if segs != [] {
      SplitAtMostOnce(segs[..|segs| - 1], x, y);
      assert forall i :: 0 <= i < |segs| - 1 ==> segs[..|segs| - 1][i] == segs[i];
    }
  }

  /* ---------------------------------------------------------------------
     Events and their comparator
     --------------------------------------------------------------------- */

  datatype Kind = Start | End

  /** A sweep event: the point, whether the segment starts or ends there, the
      index of the segment in the working list, the angle of the point seen
      from the source and its distance. */
  datatype Event = Event(point: Point, kind: Kind, seg: int, angle: real, distance: real)

  /** M_PI. */
  const Pi: real := 3.14159265358979323846

  /** A negative atan2 result is moved up by a full turn. */
  function Normalized(a: real): real
  {
    if a < 0.0 then a + 2.0 * Pi else a
  }

  /** geometry_calculate_angle(p, source) after normalisation. */
  function AngleOf(atan2: (real, real) -> real, p: Point, x: real, y: real): real
  {
    Normalized(atan2(p.y - y, p.x - x))
  }

  /** The segment with its endpoints swapped when the initial point's angle
      exceeds the final point's. */
  function Oriented(s: Seg, x: real, y: real, atan2: (real, real) -> real): Seg
  {
    if AngleOf(atan2, s.p, x, y) > AngleOf(atan2, s.q, x, y) then Seg(s.q, s.p, s.id) else s
  }

  /** The distance of `p` from the source, as the event loop writes it. */
  function SourceDistance(sqrt: real -> real, p: Point, x: real, y: real): real
  {
    sqrt((p.x - x) * (p.x - x) + (p.y - y) * (p.y - y))
  }

  function StartOf(s: Seg, i: int, x: real, y: real, atan2: (real, real) -> real, sqrt: real -> real): Event
  {
    Event(s.p, Start, i, AngleOf(atan2, s.p, x, y), SourceDistance(sqrt, s.p, x, y))
  }

  function EndOf(s: Seg, i: int, x: real, y: real, atan2: (real, real) -> real, sqrt: real -> real): Event
  {
    Event(s.q, End, i, AngleOf(atan2, s.q, x, y), SourceDistance(sqrt, s.q, x, y))
  }

  /** The event loop: each segment is oriented in place and contributes its
      START event and then its END event. */
  method MakeEvents(segs: seq<Seg>, x: real, y: real, atan2: (real, real) -> real, sqrt: real -> real)
    returns (oriented: seq<Seg>, events: seq<Event>)
    ensures |oriented| == |segs| && |events| == 2 * |segs|
    ensures forall i :: 0 <= i < |segs| ==> oriented[i] == Oriented(segs[i], x, y, atan2)
    ensures forall i :: 0 <= i < |segs| ==>
      events[2 * i] == StartOf(oriented[i], i, x, y, atan2, sqrt) && events[2 * i + 1] == EndOf(oriented[i], i, x, y, atan2, sqrt)
  {
    oriented, events := [], [];
    var i := 0;
    while i < |segs|
      invariant 0 <= i <= |segs| && |oriented| == i && |events| == 2 * i
      invariant forall k :: 0 <= k < i ==> oriented[k] == Oriented(segs[k], x, y, atan2)
      invariant forall k :: 0 <= k < i ==>
        events[2 * k] == StartOf(oriented[k], k, x, y, atan2, sqrt) && events[2 * k + 1] == EndOf(oriented[k], k, x, y, atan2, sqrt)
    {
      var s := segs[i];
      var ang1 := atan2(s.p.y - y, s.p.x - x);
      var ang2 := atan2(s.q.y - y, s.q.x - x);
      if ang1 < 0.0 {
        ang1 := ang1 + 2.0 * Pi;
      }
      if ang2 < 0.0 {
        ang2 := ang2 + 2.0 * Pi;
      }
      if ang1 > ang2 {
        s := Seg(s.q, s.p, s.id);
        ang1, ang2 := ang2, ang1;
      }
      var d1 := SourceDistance(sqrt, s.p, x, y);
      var d2 := SourceDistance(sqrt, s.q, x, y);
      assert s == Oriented(segs[i], x, y, atan2);
      assert ang1 == AngleOf(atan2, s.p, x, y);
      assert Event(s.p, Start, i, ang1, d1) == StartOf(s, i, x, y, atan2, sqrt);
      assert Event(s.q, End, i, ang2, d2) == EndOf(s, i, x, y, atan2, sqrt);
      oriented := oriented + [s];
      events := events + [Event(s.p, Start, i, ang1, d1), Event(s.q, End, i, ang2, d2)];
      i := i + 1;
    }
  }

  /** Orientation keeps the segment's endpoints and id and leaves the initial
      point at the smaller angle. */
  lemma OrientedMeaning(s: Seg, x: real, y: real, atan2: (real, real) -> real)
    ensures var o := Oriented(s, x, y, atan2);
      o.id == s.id && ((o.p == s.p && o.q == s.q) || (o.p == s.q && o.q == s.p)) &&
      AngleOf(atan2, o.p, x, y) <= AngleOf(atan2, o.q, x, y)
  {
  }

  /** With atan2 in [-pi, pi], every event angle lies in [0, 2 pi). */
  lemma NormalizedRange(a: real)
    requires -Pi <= a <= Pi
    ensures 0.0 <= Normalized(a) < 2.0 * Pi
  {
  }

  /** compare_vertices: by angle, then START before END, then by distance,
      each with the tolerance; 0 when nothing tells them apart. */
  function CompareVertices(a: Event, b: Event): (c: int)
    ensures -1 <= c <= 1
  {
    if Abs(a.angle - b.angle) > Tol then (if a.angle < b.angle then -1 else 1)
    else if a.kind != b.kind then (if a.kind == Start then -1 else 1)
    else if Abs(a.distance - b.distance) > Tol then (if a.distance < b.distance then -1 else 1)
    else 0
  }

  /** The comparator is antisymmetric and sees every event equal to itself. */
  lemma CompareVerticesAntisymmetric(a: Event, b: Event)
    ensures CompareVertices(a, b) == -CompareVertices(b, a)
    ensures CompareVertices(a, a) == 0
  {
  }

  /** On a segment's own two events START comes first. */
  lemma StartBeforeEnd(s: Seg, i: int, x: real, y: real, atan2: (real, real) -> real, sqrt: real -> real)
    ensures var o := Oriented(s, x, y, atan2);
      CompareVertices(StartOf(o, i, x, y, atan2, sqrt), EndOf(o, i, x, y, atan2, sqrt)) == -1
  {
    OrientedMeaning(s, x, y, atan2);
  }

  /** The tolerance makes "equal" non-transitive: a and b compare equal, b
      and c compare equal, yet a comes before c. */
  lemma CompareVerticesNotTransitive()
    ensures var a, b, c := Event(Point(0.0, 0.0), Start, 0, 0.0, 1.0),
                           Event(Point(0.0, 0.0), Start, 1, 0.0000000006, 1.0),
                           Event(Point(0.0, 0.0), Start, 2, 0.0000000012, 1.0);
      CompareVertices(a, b) == 0 && CompareVertices(b, c) == 0 && CompareVertices(a, c) == -1
  {
  }

  /* ---------------------------------------------------------------------
     Distances along a ray and the segment comparator
     --------------------------------------------------------------------- */

  /** The value calc_ray_segment_distance returns when the ray misses. */
  const Far: real := 1000000000000000000.0

  /** calc_ray_segment_distance: the ray parameter t at which the ray from
      (x, y) at `angle` meets `s`, or Far when the two are (nearly) parallel,
      when the meeting point is outside the segment or behind the source,
      each with the tolerance. */
  function RayDistance(s: Seg, x: real, y: real, angle: real, cos: real -> real, sin: real -> real): real
  {
    var dx, dy := cos(angle), sin(angle);
    var sx, sy := s.q.x - s.p.x, s.q.y - s.p.y;
    var den := Det(dx, dy, sx, sy);
    if Abs(den) < 0.0000000001 then Far
    else
      var t := Det(s.p.x - x, s.p.y - y, sx, sy) / den;
      var u := Det(s.p.x - x, s.p.y - y, dx, dy) / den;
      if u < -Tol || u > 1.0 + Tol || t < -Tol then Far else t
  }

  /** A distance other than Far names a point both on the ray (at most the
      tolerance behind the source) and on the segment (within the tolerance
      of its ends). */
  lemma RayDistanceOnBoth(s: Seg, x: real, y: real, angle: real, cos: real -> real, sin: real -> real)
    requires RayDistance(s, x, y, angle, cos, sin) != Far
    ensures var t := RayDistance(s, x, y, angle, cos, sin);
      t >= -Tol &&
      exists u: real :: -Tol <= u <= 1.0 + Tol && Point(x + t * cos(angle), y + t * sin(angle)) == Along(s.p.x, s.p.y, s.q.x, s.q.y, u)
  {
    RaySolve(x, y, cos(angle), sin(angle), s.p.x, s.p.y, s.q.x, s.q.y);
  }

  /** compare_segments at the sweep's current angle, on indices into the
      working list (the pointers of the source): 0 for the same segment,
      otherwise by distance with the tolerance, then by id, never 0. */
  function CompareSegments(segs: seq<Seg>, i: int, j: int, x: real, y: real, angle: real, cos: real -> real, sin: real -> real): (c: int)
    requires 0 <= i < |segs| && 0 <= j < |segs|
    ensures c == 0 <==> i == j
    ensures -1 <= c <= 1
  {
    if i == j then 0
    else
      var d1, d2 := RayDistance(segs[i], x, y, angle, cos, sin), RayDistance(segs[j], x, y, angle, cos, sin);
      if Abs(d1 - d2) > Tol then (if d1 < d2 then -1 else 1)
      else if segs[i].id < segs[j].id then -1 else 1
  }

  /** Distinct segments whose distances differ, or whose ids differ, compare
      in opposite ways in the two orders. */
  lemma CompareSegmentsAntisymmetric(segs: seq<Seg>, i: int, j: int, x: real, y: real, angle: real, cos: real -> real, sin: real -> real)
    requires 0 <= i < |segs| && 0 <= j < |segs| && i != j
    requires segs[i].id != segs[j].id ||
      Abs(RayDistance(segs[i], x, y, angle, cos, sin) - RayDistance(segs[j], x, y, angle, cos, sin)) > Tol
    ensures CompareSegments(segs, i, j, x, y, angle, cos, sin) == -CompareSegments(segs, j, i, x, y, angle, cos, sin)
  {
  }

  /** Two split pieces with the same id at the same distance: each is "after"
      the other, so the comparator is not antisymmetric. */
  lemma CompareSegmentsNotAntisymmetric(s: Seg, x: real, y: real, angle: real, cos: real -> real, sin: real -> real)
    ensures CompareSegments([s, s], 0, 1, x, y, angle, cos, sin) == 1
    ensures CompareSegments([s, s], 1, 0, x, y, angle, cos, sin) == 1
  {
  }

  /* ---------------------------------------------------------------------
     The working list as a whole
     --------------------------------------------------------------------- */

  /** The working list before the split: the four box edges, then one
      segment per barrier line. */
  function Collected(x: real, y: real, barriers: seq<Option<Shape>>): (c: seq<Seg>)
    ensures |c| == 4 + |BarrierLines(barriers)|
  {
    var ls := BarrierLines(barriers);
    var box := BoxOf(BoundsOf(x, y, ls), x, y);
    seq(4, i requires 0 <= i < 4 => BoxEdge(box, i)) + seq(|ls|, k requires 0 <= k < |ls| => LineSeg(ls[k]))
  }

  /** The working list after the split. */
  function Split(segs: seq<Seg>, x: real, y: real): seq<Seg>
  {
    seq(|segs|, i requires 0 <= i < |segs| => FirstPiece(segs[i], x, y)) + SecondPieces(segs, x, y)
  }

  /** What the sweep starts from: the oriented working segments and their
      events, two per segment, before sorting. */
  datatype Prepared = Prepared(segments: seq<Seg>, events: seq<Event>)

  /** visibility_calculate up to the sort: NULL barriers give nothing;
      otherwise the box, the barrier segments, the split and the events. */
  method Prepare(x: real, y: real, barriers: Option<seq<Option<Shape>>>, atan2: (real, real) -> real, sqrt: real -> real)
    returns (r: Option<Prepared>)
    ensures r.None? <==> barriers.None?
    ensures r.Some? ==>
      var w := Split(Collected(x, y, barriers.value), x, y);
      var segs, events := r.value.segments, r.value.events;
      |segs| == |w| && |events| == 2 * |w| &&
      (forall i :: 0 <= i < |w| ==> segs[i] == Oriented(w[i], x, y, atan2)) &&
      (forall i :: 0 <= i < |w| ==>
        events[2 * i] == StartOf(segs[i], i, x, y, atan2, sqrt) && events[2 * i + 1] == EndOf(segs[i], i, x, y, atan2, sqrt))
  {
    if barriers.None? {
      return None;
    }
    var bs := barriers.value;
    var bounds := ComputeBounds(x, y, bs);
    var box := BoxSegments(BoxOf(bounds, x, y));
    var segs := AppendBarriers(box, bs);
    ghost var c := Collected(x, y, bs);
    assert segs == c;
    var w := SplitAtZero(segs, x, y);
    assert w == Split(c, x, y);
    var oriented, events := MakeEvents(w, x, y, atan2, sqrt);
    r := Some(Prepared(oriented, events));
  }

  /** The working list holds the box first, its pieces keep the ids of the
      box and of the barriers, and no piece crosses the ray at angle 0. */
  lemma CollectedShape(x: real, y: real, barriers: seq<Option<Shape>>)
    ensures var c := Collected(x, y, barriers);
      forall i :: 0 <= i < 4 ==> c[i].id == -(i + 1) && c[i].q == c[(i + 1) % 4].p
    ensures var w := Split(Collected(x, y, barriers), x, y);
      forall i :: 0 <= i < |w| ==> !Splits(w[i], x, y)
  {
    var c := Collected(x, y, barriers);
    var w := Split(c, x, y);
    NothingCrossesAfterSplit(c, x, y);
    forall i | 0 <= i < |w|
      ensures !Splits(w[i], x, y)
    {
      if i >= |c| {
        assert w[i] == SecondPieces(c, x, y)[i - |c|];
      }
    }
  }

  /* ---------------------------------------------------------------------
     Sweep bookkeeping: segment handles and the tree of active segments
     --------------------------------------------------------------------- */

  /** Every non-NULL handle names a live node holding its own segment, and
      every live node is the handle of the segment it holds. */
  ghost predicate Tracked(helper: seq<int>, data: seq<int>, live: set<nat>)
  {
    (forall i :: 0 <= i < |helper| && helper[i] != Null ==> 0 <= helper[i] < |data| && helper[i] in live && data[helper[i]] == i) &&
    (forall n :: n in live ==> n < |data| && 0 <= data[n] < |helper| && helper[data[n]] == n)
  }

  /** The segments whose handle is set. */
  function Handled(helper: seq<int>): set<int>
  {
    set i | 0 <= i < |helper| && helper[i] != Null
  }

  lemma HandledMember(helper: seq<int>, k: int)
    requires 0 <= k < |helper|
    ensures helper[k] != Null <==> k in Handled(helper)
  {
  }

  /** Under Tracked, a segment's handle is set exactly when the segment is
      in the tree. */
  lemma HandledIsInTree(helper: seq<int>, data: seq<int>, live: set<nat>)
    requires Tracked(helper, data, live)
    ensures Handled(helper) == set n | n in live :: data[n]
  {
    var inTree := set n | n in live :: data[n];
    forall i | i in Handled(helper)
      ensures i in inTree
    {
      assert data[helper[i]] == i;
    }
  }

  /** A fresh node holding segment i, recorded as i's handle, keeps Tracked. */
  lemma TrackedInsert(helper: seq<int>, data: seq<int>, live: set<nat>, i: int, node: nat)
    requires Tracked(helper, data, live) && 0 <= i < |helper| && helper[i] == Null
    requires node == |data|
    ensures Tracked(helper[i := node], data + [i], live + {node})
  {
    var h, d, l := helper[i := node], data + [i], live + {node};
    forall j | 0 <= j < |h| && h[j] != Null
      ensures 0 <= h[j] < |d| && h[j] in l && d[h[j]] == j
    {
      if j != i {
        assert h[j] == helper[j];
      }
    }
    forall n | n in l
      ensures n < |d| && 0 <= d[n] < |h| && h[d[n]] == n
    {
      if n != node {
        assert d[n] == data[n];
        assert data[n] != i;
      }
    }
  }

  /** Removing segment i's node and clearing its handle keeps Tracked. */
  lemma TrackedRemove(helper: seq<int>, data: seq<int>, live: set<nat>, i: int)
    requires Tracked(helper, data, live) && 0 <= i < |helper| && helper[i] != Null
    ensures Tracked(helper[i := Null], data, live - {helper[i]})
  {
    var h, l := helper[i := Null], live - {helper[i]};
    forall j | 0 <= j < |h| && h[j] != Null
      ensures 0 <= h[j] < |data| && h[j] in l && data[h[j]] == j
    {
      assert h[j] == helper[j];
    }
  }

  /** The tree of active segments (ordered by compare_segments) and the
      per-segment handles of visibility_calculate. */
  class Sweep {
    const tree: Bst.BST<int>
    var helper: seq<int>

    ghost predicate Valid()
      reads this, tree
    {
      tree.Valid() && Tracked(helper, tree.data, tree.Live())
    }

    /** bst_create and every segment's `helper = NULL`. */
    constructor (n: nat, cmp: (int, int) -> int)
      ensures Valid() && |helper| == n && Handled(helper) == {} && tree.compare == cmp && fresh(tree)
    {
      tree := new Bst.BST(cmp);
      helper := seq(n, _ => Null);
    }

    /** START: the segment is inserted only when its handle is NULL. */
    method Enter(i: int)
      requires Valid() && 0 <= i < |helper|
      modifies this, tree
      ensures Valid() && |helper| == |old(helper)| && helper[i] != Null
      ensures forall j :: 0 <= j < |helper| && j != i ==> helper[j] == old(helper[j])
      ensures old(helper[i]) != Null ==> helper == old(helper) && tree.data == old(tree.data)
    {
      if helper[i] == Null {
        ghost var h0, d0, l0 := helper, tree.data, tree.Live();
        TrackedInsert(h0, d0, l0, i, |d0|);
        var node := tree.Insert(i);
        helper := helper[i := node];
      }
    }

    /** END: a set handle's node is removed and the handle cleared. */
    method Leave(i: int)
      requires Valid() && 0 <= i < |helper|
      modifies this, tree
      ensures Valid() && |helper| == |old(helper)| && helper[i] == Null
      ensures forall j :: 0 <= j < |helper| && j != i ==> helper[j] == old(helper[j])
    {
      if helper[i] != Null {
        TrackedRemove(helper, tree.data, tree.Live(), i);
        tree.RemoveNode(helper[i]);
        helper := helper[i := Null];
      }
    }

    /** The insertion loop before the sweep: every segment the ray just
        above angle 0 meets at a distance in (0, 1e17) is inserted. */
    method Seed(segs: seq<Seg>, x: real, y: real, cos: real -> real, sin: real -> real)
      requires Valid() && |helper| == |segs| && Handled(helper) == {}
      modifies this, tree
      ensures Valid() && |helper| == |segs|
      ensures forall i :: 0 <= i < |segs| ==> (helper[i] != Null <==> SeedHit(segs[i], x, y, cos, sin))
    {
      forall k | 0 <= k < |helper|
        ensures helper[k] == Null
      {
        HandledMember(helper, k);
        if helper[k] != Null {
          assert false;
        }
      }
      var i := 0;
      while i < |segs|
        invariant 0 <= i <= |segs| && Valid() && |helper| == |segs|
        invariant forall k :: 0 <= k < |segs| ==> (helper[k] != Null <==> k < i && SeedHit(segs[k], x, y, cos, sin))
      {
        var dist := RayDistance(segs[i], x, y, SeedAngle, cos, sin);
        if dist < 100000000000000000.0 && dist > 0.0 {
          Enter(i);
        }
        i := i + 1;
      }
    }

    /** The bookkeeping of the sweep loop over the sorted events. */
    method Process(events: seq<Event>)
      requires Valid() && forall k :: 0 <= k < |events| ==> 0 <= events[k].seg < |helper|
      modifies this, tree
      ensures Valid() && |helper| == |old(helper)|
      ensures forall i :: 0 <= i < |helper| ==> (helper[i] != Null <==> i in Replay(Handled(old(helper)), events))
    {
      ghost var a := Handled(helper);
      var j := 0;
      while j < |events|
        invariant 0 <= j <= |events| && Valid() && |helper| == |old(helper)|
        invariant forall i :: 0 <= i < |helper| ==> (helper[i] != Null <==> i in Replay(a, events[..j]))
      {
        ghost var h0 := helper;
        ReplayStep(a, events, j);
        var e := events[j];
        if e.kind == Start {
          Enter(e.seg);
        } else {
          Leave(e.seg);
        }
        HandlesFollow(h0, helper, Replay(a, events[..j]), e);
        j := j + 1;
      }
      assert events[..j] == events;
    }
  }

  /** The angle of the ray used to seed the tree. */
  const SeedAngle: real := 0.000000001

  /** The seeding condition: distance strictly between 0 and 1e17. */
  predicate SeedHit(s: Seg, x: real, y: real, cos: real -> real, sin: real -> real)
  {
    var d := RayDistance(s, x, y, SeedAngle, cos, sin);
    d < 100000000000000000.0 && d > 0.0
  }

  /** The segments with a handle once seeding is done. */
  function Seeded(segs: seq<Seg>, x: real, y: real, cos: real -> real, sin: real -> real): set<int>
  {
    set j | 0 <= j < |segs| && SeedHit(segs[j], x, y, cos, sin)
  }

  /** The set of segments with a handle after the events: START adds the
      event's segment, END removes it. */
  function Replay(a: set<int>, events: seq<Event>): set<int>
  {
    if events == [] then a
    else
      var e := events[|events| - 1];
      var r := Replay(a, events[..|events| - 1]);
      if e.kind == Start then r + {e.seg} else r - {e.seg}
  }

  lemma ReplayStep(a: set<int>, events: seq<Event>, j: int)
    requires 0 <= j < |events|
    ensures var e, r := events[j], Replay(a, events[..j]);
      Replay(a, events[..j + 1]) == if e.kind == Start then r + {e.seg} else r - {e.seg}
  {
    assert events[..j + 1][..j] == events[..j];
  }

  /** One event's handling moves the handles from one replayed set to the
      next. */
  lemma HandlesFollow(h0: seq<int>, h1: seq<int>, r: set<int>, e: Event)
    requires |h0| == |h1| && 0 <= e.seg < |h1|
    requires forall i :: 0 <= i < |h0| ==> (h0[i] != Null <==> i in r)
    requires e.kind == Start ==> h1[e.seg] != Null
    requires e.kind == End ==> h1[e.seg] == Null
    requires forall i :: 0 <= i < |h1| && i != e.seg ==> h1[i] == h0[i]
    ensures forall i :: 0 <= i < |h1| ==> (h1[i] != Null <==> i in (if e.kind == Start then r + {e.seg} else r - {e.seg}))
  {
  }

  /** The kind of the last event about segment i, if any. */
  function LastKind(events: seq<Event>, i: int): Option<Kind>
  {
    if events == [] then None
    else if events[|events| - 1].seg == i then Some(events[|events| - 1].kind)
    else LastKind(events[..|events| - 1], i)
  }

  /** After the events, a segment has a handle exactly when its last event
      was a START, or when it had one before and no event was about it. */
  lemma {:induction false} ReplayMeaning(a: set<int>, events: seq<Event>, i: int)
    ensures i in Replay(a, events) <==> LastKind(events, i) == Some(Start) || (LastKind(events, i) == None && i in a)
  {
    if events != [] {
      ReplayMeaning(a, events[..|events| - 1], i);
    }
  }

  /** A segment with a last event was named by some event. */
  lemma {:induction false} LastKindNamed(events: seq<Event>, i: int)
    requires LastKind(events, i).Some?
    ensures exists k :: 0 <= k < |events| && events[k].seg == i
  {
    var n := |events| - 1;
    if events[n].seg != i {
      LastKindNamed(events[..n], i);
      var k :| 0 <= k < n && events[..n][k].seg == i;
      assert events[k].seg == i;
    }
  }

  /** When every segment that had a handle, and every segment an event names,
      ends with an END, the tree is left empty. */
  lemma ReplayDrains(a: set<int>, events: seq<Event>)
    requires forall i :: i in a ==> LastKind(events, i) == Some(End)
    requires forall k :: 0 <= k < |events| ==> LastKind(events, events[k].seg) == Some(End)
    ensures Replay(a, events) == {}
  {
    forall i | i in Replay(a, events)
      ensures false
    {
      ReplayMeaning(a, events, i);
      if LastKind(events, i).Some? {
        LastKindNamed(events, i);
      }
    }
  }

  /** The bookkeeping of visibility_calculate from the tree's creation to the
      end of the sweep: the seeding loop, then START and END over the sorted
      events; the tree compares at the context's initial angle 0. */
  method Bookkeeping(segs: seq<Seg>, sorted: seq<Event>, x: real, y: real, cos: real -> real, sin: real -> real)
    returns (sweep: Sweep)
    requires forall k :: 0 <= k < |sorted| ==> 0 <= sorted[k].seg < |segs|
    ensures sweep.Valid() && |sweep.helper| == |segs|
    ensures forall i :: 0 <= i < |segs| ==>
      (sweep.helper[i] != Null <==> i in Replay(Seeded(segs, x, y, cos, sin), sorted))
  {
    var cmp := (a: int, b: int) => if 0 <= a < |segs| && 0 <= b < |segs| then CompareSegments(segs, a, b, x, y, 0.0, cos, sin) else 0;
    sweep := new Sweep(|segs|, cmp);
    sweep.Seed(segs, x, y, cos, sin);
    assert Handled(sweep.helper) == Seeded(segs, x, y, cos, sin);
    sweep.Process(sorted);
  }
}
