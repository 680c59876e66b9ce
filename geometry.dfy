/** The plane geometry of src/lib/visibility/geometry.c over exact reals.
    The transcendental functions (`sqrt`, `cos`, `sin`) are parameters of the
    members that use them. */
module Geometry {
  import opened Common
  import opened Shapes

  datatype Point = Point(x: real, y: real)

  /** geometry_point_get_x: 0 for NULL. */
  function PointX(p: Option<Point>): real
  {
    if p.Some? then p.value.x else 0.0
  }

  /** geometry_point_get_y: 0 for NULL. */
  function PointY(p: Option<Point>): real
  {
    if p.Some? then p.value.y else 0.0
  }

  function Abs(r: real): real
  {
    if r < 0.0 then -r else r
  }

  /** geometry_cross_product: the cross product of (p2 - p1) and (p3 - p1). */
  function Cross(x1: real, y1: real, x2: real, y2: real, x3: real, y3: real): real
  {
    (x2 - x1) * (y3 - y1) - (y2 - y1) * (x3 - x1)
  }

  /** The orientation examples: a left turn is positive, a right turn
      negative, and collinear points give zero. */
  lemma CrossExamples()
    ensures Cross(0.0, 0.0, 1.0, 0.0, 1.0, 1.0) > 0.0
    ensures Cross(0.0, 0.0, 1.0, 0.0, 1.0, -1.0) < 0.0
    ensures Cross(0.0, 0.0, 1.0, 1.0, 2.0, 2.0) == 0.0
  {
  }

  /** Swapping the second and third points negates the cross product, and
      rotating the three points keeps it. */
  lemma CrossSwap(x1: real, y1: real, x2: real, y2: real, x3: real, y3: real)
    ensures Cross(x1, y1, x3, y3, x2, y2) == -Cross(x1, y1, x2, y2, x3, y3)
    ensures Cross(x2, y2, x3, y3, x1, y1) == Cross(x1, y1, x2, y2, x3, y3)
  {
  }

  /** Every point of the line through p1 and p2 is collinear with them. */
  lemma CrossCollinear(x1: real, y1: real, x2: real, y2: real, t: real)
    ensures Cross(x1, y1, x2, y2, x1 + t * (x2 - x1), y1 + t * (y2 - y1)) == 0.0
  {
    assert (x2 - x1) * (t * (y2 - y1)) == (y2 - y1) * (t * (x2 - x1));
  }

  /** Opposite strict signs. */
  predicate Opposite(a: real, b: real)
  {
    (a > 0.0 && b < 0.0) || (a < 0.0 && b > 0.0)
  }

  /** geometry_segment_intersects_segment: each segment's endpoints lie
      strictly on opposite sides of the other segment's line. */
  predicate SegmentsCross(x1: real, y1: real, x2: real, y2: real, x3: real, y3: real, x4: real, y4: real)
  {
    Opposite(Cross(x1, y1, x2, y2, x3, y3), Cross(x1, y1, x2, y2, x4, y4)) &&
    Opposite(Cross(x3, y3, x4, y4, x1, y1), Cross(x3, y3, x4, y4, x2, y2))
  }

  /** The test does not depend on the order of the segments or on the
      direction of either. */
  lemma SegmentsCrossSymmetric(x1: real, y1: real, x2: real, y2: real, x3: real, y3: real, x4: real, y4: real)
    ensures SegmentsCross(x1, y1, x2, y2, x3, y3, x4, y4) == SegmentsCross(x3, y3, x4, y4, x1, y1, x2, y2)
    ensures SegmentsCross(x1, y1, x2, y2, x3, y3, x4, y4) == SegmentsCross(x2, y2, x1, y1, x3, y3, x4, y4)
    ensures SegmentsCross(x1, y1, x2, y2, x3, y3, x4, y4) == SegmentsCross(x1, y1, x2, y2, x4, y4, x3, y3)
  {
    CrossSwap(x1, y1, x2, y2, x3, y3);
    CrossSwap(x1, y1, x2, y2, x4, y4);
    CrossSwap(x3, y3, x4, y4, x1, y1);
    CrossSwap(x3, y3, x4, y4, x2, y2);
    CrossSwap(x2, y2, x1, y1, x3, y3);
    CrossSwap(x2, y2, x1, y1, x4, y4);
    CrossSwap(x4, y4, x3, y3, x1, y1);
    CrossSwap(x4, y4, x3, y3, x2, y2);
  }

  /** An endpoint of either segment that lies on the other segment's line
      (a touch, a T-junction, a collinear overlap) is never a crossing. */
  lemma TouchingDoesNotCross(x1: real, y1: real, x2: real, y2: real, x3: real, y3: real, x4: real, y4: real)
    requires Cross(x1, y1, x2, y2, x3, y3) == 0.0 || Cross(x1, y1, x2, y2, x4, y4) == 0.0 ||
             Cross(x3, y3, x4, y4, x1, y1) == 0.0 || Cross(x3, y3, x4, y4, x2, y2) == 0.0
    ensures !SegmentsCross(x1, y1, x2, y2, x3, y3, x4, y4)
  {
  }

  /** In particular, segments that share an endpoint never cross. */
  lemma SharedEndpointDoesNotCross(x1: real, y1: real, x2: real, y2: real, x3: real, y3: real, x4: real, y4: real)
    requires (x3 == x1 && y3 == y1) || (x3 == x2 && y3 == y2) || (x4 == x1 && y4 == y1) || (x4 == x2 && y4 == y2)
    ensures !SegmentsCross(x1, y1, x2, y2, x3, y3, x4, y4)
  {
    if x3 == x2 && y3 == y2 {
      CrossSwap(x1, y1, x2, y2, x3, y3);
    } else if x4 == x1 && y4 == y1 {
      CrossSwap(x3, y3, x4, y4, x1, y1);
    }
    TouchingDoesNotCross(x1, y1, x2, y2, x3, y3, x4, y4);
  }

  /** The point with parameter t on the line from p1 to p2. */
  function Along(x1: real, y1: real, x2: real, y2: real, t: real): Point
  {
    Point(x1 + t * (x2 - x1), y1 + t * (y2 - y1))
  }

  /** A strict crossing is a real one: there is a point strictly inside both
      segments. */
  lemma CrossingPoint(x1: real, y1: real, x2: real, y2: real, x3: real, y3: real, x4: real, y4: real)
    requires SegmentsCross(x1, y1, x2, y2, x3, y3, x4, y4)
    ensures exists t: real, s: real ::
      0.0 < t < 1.0 && 0.0 < s < 1.0 && Along(x1, y1, x2, y2, t) == Along(x3, y3, x4, y4, s)
  {
    var t, s := CrossingParameters(x1, y1, x2, y2, x3, y3, x4, y4);
  }

  /** The parameters of the crossing point along both segments. */
  lemma CrossingParameters(x1: real, y1: real, x2: real, y2: real, x3: real, y3: real, x4: real, y4: real)
    returns (t: real, s: real)
    requires SegmentsCross(x1, y1, x2, y2, x3, y3, x4, y4)
    ensures 0.0 < t < 1.0 && 0.0 < s < 1.0 && Along(x1, y1, x2, y2, t) == Along(x3, y3, x4, y4, s)
  {
    var dx, dy, ex, ey, wx, wy := x2 - x1, y2 - y1, x4 - x3, y4 - y3, x3 - x1, y3 - y1;
    var c1, c2 := Cross(x1, y1, x2, y2, x3, y3), Cross(x1, y1, x2, y2, x4, y4);
    var c3, c4 := Cross(x3, y3, x4, y4, x1, y1), Cross(x3, y3, x4, y4, x2, y2);
    var den := dx * ey - dy * ex;
    assert c2 == c1 + den;
    assert c4 == c3 - den;
    t, s := c3 / den, -c1 / den;
    Fraction(c3, c4, den);
    Fraction(-c1, -c2, den);
    assert c3 * dx - (-c1) * ex == den * wx;
    assert c3 * dy - (-c1) * ey == den * wy;
    Cramer(c3, -c1, dx, ex, den, wx);
    Cramer(c3, -c1, dy, ey, den, wy);
  }

  /** A product is positive only when its factors have the same sign. */
  lemma SameSign(a: real, b: real)
    requires a * b > 0.0 && b != 0.0
    ensures (a > 0.0) == (b > 0.0)
  {
  }

  /** A value strictly between two of opposite sign, as a fraction. */
  lemma Fraction(c: real, d: real, den: real)
    requires Opposite(c, d) && den == c - d
    ensures 0.0 < c / den < 1.0
  {
    var q := c / den;
    assert q * den == c;
    assert (1.0 - q) * den == -d;
    if c > 0.0 {
      SameSign(q, den);
      SameSign(1.0 - q, den);
    } else {
      SameSign(-q, den);
      SameSign(q - 1.0, den);
    }
  }

  /** Cramer's rule for one coordinate: dividing a solved equation by the
      determinant. */
  lemma Cramer(a: real, b: real, p: real, q: real, den: real, w: real)
    requires den != 0.0 && a * p - b * q == den * w
    ensures (a / den) * p - (b / den) * q == w
  {
    assert (a / den) * p - (b / den) * q == (a * p - b * q) / den;
  }

  /** The crossing and the touching examples. */
  lemma CrossingExamples()
    ensures SegmentsCross(0.0, 0.0, 2.0, 2.0, 0.0, 2.0, 2.0, 0.0)
    ensures !SegmentsCross(0.0, 0.0, 2.0, 0.0, 1.0, 0.0, 1.0, 1.0)
  {
  }

  /** Whether the edge from `a` to `b` crosses the horizontal ray going right
      from (x, y). The division is only reached when the edge straddles the
      ray, so its ends differ in y. */
  predicate EdgeCrosses(a: Point, b: Point, x: real, y: real)
  {
    ((a.y > y) != (b.y > y)) && x < (b.x - a.x) * (y - a.y) / (b.y - a.y) + a.x
  }

  /** The index after `i` around a polygon of `n` vertices. */
  function Succ(i: nat, n: nat): nat
  {
    if i + 1 < n then i + 1 else 0
  }

  lemma SuccMod(i: nat, n: nat)
    requires i < n
    ensures (i + 1) % n == Succ(i, n)
  {
  }

  /** Whether edge `i` of the polygon (from vertex i to the next one, the
      last edge closing the loop) crosses the ray. */
  function EdgeFlags(vs: seq<Point>, x: real, y: real): (f: seq<bool>)
    ensures |f| == |vs|
  {
    seq(|vs|, i requires 0 <= i < |vs| => EdgeCrosses(vs[i], vs[Succ(i, |vs|)], x, y))
  }

  /** The number of true flags. */
  function Count(f: seq<bool>): nat
  {
    if f == [] then 0 else Count(f[..|f| - 1]) + (if f[|f| - 1] then 1 else 0)
  }

  lemma {:induction false} CountAppend(a: seq<bool>, b: seq<bool>)
    ensures Count(a + b) == Count(a) + Count(b)
    decreases |b|
  {
    if b != [] {
      var c := a + b;
      assert c[..|c| - 1] == a + b[..|b| - 1];
      assert c[|c| - 1] == b[|b| - 1];
      CountAppend(a, b[..|b| - 1]);
    } else {
      assert a + b == a;
    }
  }

  /** What geometry_point_in_polygon answers: false for a missing vertex
      array or fewer than three vertices, otherwise whether the ray crosses
      an odd number of edges. */
  predicate InPolygon(x: real, y: real, vertices: Option<seq<Point>>)
  {
    vertices.Some? && |vertices.value| >= 3 && Count(EdgeFlags(vertices.value, x, y)) % 2 == 1
  }

  /** geometry_point_in_polygon: the crossing-number loop. */
  method PointInPolygon(x: real, y: real, vertices: Option<seq<Point>>) returns (inside: bool)
    ensures inside == InPolygon(x, y, vertices)
  {
    if vertices.None? || |vertices.value| < 3 {
      return false;
    }
    var vs := vertices.value;
    var n := |vs|;
    ghost var f := EdgeFlags(vs, x, y);
    var crossings := 0;
    for i := 0 to n
      invariant crossings == Count(f[..i])
    {
      var j := (i + 1) % n;
      SuccMod(i, n);
      assert f[..i + 1][..i] == f[..i];
      assert f[i] == EdgeCrosses(vs[i], vs[j], x, y);
      if EdgeCrosses(vs[i], vs[j], x, y) {
        crossings := crossings + 1;
      }
    }
    assert f[..n] == f;
    return crossings % 2 == 1;
  }

  /** Moving the first vertex to the end. */
  function Rotate<T>(s: seq<T>): seq<T>
  {
    if s == [] then [] else s[1..] + [s[0]]
  }

  lemma EdgeFlagsRotate(vs: seq<Point>, x: real, y: real)
    ensures EdgeFlags(Rotate(vs), x, y) == Rotate(EdgeFlags(vs, x, y))
  {
    if vs != [] {
      var n := |vs|;
      var r := Rotate(vs);
      var f := EdgeFlags(vs, x, y);
      forall i | 0 <= i < n
        ensures EdgeFlags(r, x, y)[i] == Rotate(f)[i]
      {
        var k := Succ(i, n);
        assert r[i] == vs[k];
        assert r[Succ(i, n)] == vs[Succ(k, n)];
        assert Rotate(f)[i] == f[k];
      }
    }
  }

  /** The answer does not depend on which vertex the polygon starts at. */
  lemma InPolygonRotate(x: real, y: real, vs: seq<Point>)
    ensures InPolygon(x, y, Some(Rotate(vs))) == InPolygon(x, y, Some(vs))
  {
    if vs != [] {
      var f := EdgeFlags(vs, x, y);
      EdgeFlagsRotate(vs, x, y);
      CountAppend(f[1..], [f[0]]);
      CountAppend([f[0]], f[1..]);
      assert [f[0]] + f[1..] == f;
    }
  }

  /** The square from (0, 0) to (10, 10) contains (5, 5) but not (15, 5). */
  lemma SquareExample()
    ensures var square := [Point(0.0, 0.0), Point(10.0, 0.0), Point(10.0, 10.0), Point(0.0, 10.0)];
      InPolygon(5.0, 5.0, Some(square)) && !InPolygon(15.0, 5.0, Some(square))
  {
    var square := [Point(0.0, 0.0), Point(10.0, 0.0), Point(10.0, 10.0), Point(0.0, 10.0)];
    var f, g := EdgeFlags(square, 5.0, 5.0), EdgeFlags(square, 15.0, 5.0);
    assert f[0] == false && f[1] == true && f[2] == false && f[3] == false;
    assert g[0] == false && g[1] == false && g[2] == false && g[3] == false;
    assert f == [false, true, false, false];
    assert g == [false, false, false, false];
    assert Count(f[..1]) == 0 by {
      assert f[..1][..0] == [];
    }
    assert Count(f[..2]) == 1 by {
      assert f[..2][..1] == f[..1];
    }
    assert Count(f[..3]) == 1 by {
      assert f[..3][..2] == f[..2];
    }
    assert Count(f) == 1 by {
      assert f[..3] == f[..|f| - 1];
    }
    assert Count(g[..1]) == 0 by {
      assert g[..1][..0] == [];
    }
    assert Count(g[..2]) == 0 by {
      assert g[..2][..1] == g[..1];
    }
    assert Count(g[..3]) == 0 by {
      assert g[..3][..2] == g[..2];
    }
    assert Count(g) == 0 by {
      assert g[..3] == g[..|g| - 1];
    }
  }

  /** The squared distance between two points. */
  function SqDist(x1: real, y1: real, x2: real, y2: real): real
  {
    (x2 - x1) * (x2 - x1) + (y2 - y1) * (y2 - y1)
  }

  /** geometry_distance, with `sqrt` as a parameter. */
  function Distance(sqrt: real -> real, x1: real, y1: real, x2: real, y2: real): real
  {
    sqrt(SqDist(x1, y1, x2, y2))
  }

  /** The dot product of (p - p1) and (p2 - p1). */
  function Dot(px: real, py: real, x1: real, y1: real, x2: real, y2: real): real
  {
    (px - x1) * (x2 - x1) + (py - y1) * (y2 - y1)
  }

  /** The point geometry_distance_point_segment measures to: the first end
      of a degenerate segment, otherwise the projection of p onto the line
      with its parameter cut off at the two ends. */
  function ClosestPoint(px: real, py: real, x1: real, y1: real, x2: real, y2: real): Point
  {
    var l2 := SqDist(x1, y1, x2, y2);
    if l2 == 0.0 then Point(x1, y1)
    else
      var t := Dot(px, py, x1, y1, x2, y2) / l2;
      if t < 0.0 then Point(x1, y1)
      else if t > 1.0 then Point(x2, y2)
      else Point(x1 + t * (x2 - x1), y1 + t * (y2 - y1))
  }

  /** geometry_distance_point_segment. */
  function DistancePointSegment(sqrt: real -> real, px: real, py: real, x1: real, y1: real, x2: real, y2: real): real
  {
    var q := ClosestPoint(px, py, x1, y1, x2, y2);
    Distance(sqrt, px, py, q.x, q.y)
  }

  /** The projection parameter clamped to [0, 1], and 0 for a degenerate
      segment. */
  function Clamped(px: real, py: real, x1: real, y1: real, x2: real, y2: real): (s: real)
    ensures 0.0 <= s <= 1.0
  {
    var l2 := SqDist(x1, y1, x2, y2);
    if l2 == 0.0 then 0.0
    else
      var t := Dot(px, py, x1, y1, x2, y2) / l2;
      if t < 0.0 then 0.0 else if t > 1.0 then 1.0 else t
  }

  /** The point measured to lies on the segment, at the clamped parameter. */
  lemma ClosestPointOnSegment(px: real, py: real, x1: real, y1: real, x2: real, y2: real)
    ensures ClosestPoint(px, py, x1, y1, x2, y2) == Along(x1, y1, x2, y2, Clamped(px, py, x1, y1, x2, y2))
  {
  }

  /** The squared distance from p to the point with parameter s, as the
      quadratic a - 2 s b + s^2 l2. */
  lemma SqDistAlong(px: real, py: real, x1: real, y1: real, x2: real, y2: real, s: real)
    ensures var q := Along(x1, y1, x2, y2, s);
      SqDist(px, py, q.x, q.y) ==
      SqDist(px, py, x1, y1) - 2.0 * s * Dot(px, py, x1, y1, x2, y2) + s * s * SqDist(x1, y1, x2, y2)
  {
    var u, v, dx, dy := x1 - px, y1 - py, x2 - x1, y2 - y1;
    assert (u + s * dx) * (u + s * dx) == u * u + 2.0 * s * (u * dx) + s * s * (dx * dx);
    assert (v + s * dy) * (v + s * dy) == v * v + 2.0 * s * (v * dy) + s * s * (dy * dy);
  }

  /** When the projection falls before the first end, s = 0 is the least. */
  lemma QuadLeastAtStart(b: real, l2: real, s: real)
    requires b <= 0.0 && l2 >= 0.0 && s >= 0.0
    ensures 0.0 <= -2.0 * s * b + s * s * l2
  {
    assert s * b <= 0.0;
    assert s * s >= 0.0;
    assert s * s * l2 >= 0.0;
  }

  /** When it falls past the second end, s = 1 is the least. */
  lemma QuadLeastAtEnd(b: real, l2: real, s: real)
    requires b >= l2 >= 0.0 && 0.0 <= s <= 1.0
    ensures -2.0 * b + l2 <= -2.0 * s * b + s * s * l2
  {
    var g := 2.0 * b - (1.0 + s) * l2;
    assert g >= 0.0 by {
      assert (1.0 + s) * l2 <= 2.0 * l2;
    }
    assert (1.0 - s) * g >= 0.0;
    assert (-2.0 * s * b + s * s * l2) - (-2.0 * b + l2) == (1.0 - s) * g;
  }

  /** Otherwise the projection t = b / l2 is the least. */
  lemma QuadLeastAtProjection(b: real, l2: real, t: real, s: real)
    requires l2 > 0.0 && b == t * l2
    ensures -2.0 * t * b + t * t * l2 <= -2.0 * s * b + s * s * l2
  {
    assert (s - t) * (s - t) >= 0.0;
    assert (s - t) * (s - t) * l2 >= 0.0;
    assert (-2.0 * s * b + s * s * l2) - (-2.0 * t * b + t * t * l2) == (s - t) * (s - t) * l2;
  }

  /** The squared length is never negative. */
  lemma SqDistNonneg(x1: real, y1: real, x2: real, y2: real)
    ensures !(SqDist(x1, y1, x2, y2) < 0.0)
  {
  }

  /** A segment whose ends coincide has length zero and is orthogonal to
      everything. */
  lemma DegenerateSegment(px: real, py: real, x1: real, y1: real)
    ensures SqDist(x1, y1, x1, y1) == 0.0 && Dot(px, py, x1, y1, x1, y1) == 0.0
  {
  }

  /** The clamped parameter minimises the quadratic over [0, 1]. */
  lemma ClampedLeast(b: real, l2: real, c: real, s: real)
    requires l2 >= 0.0 && 0.0 <= s <= 1.0
    requires l2 == 0.0 ==> b == 0.0 && c == 0.0
    requires l2 != 0.0 ==> c == (if b / l2 < 0.0 then 0.0 else if b / l2 > 1.0 then 1.0 else b / l2)
    ensures -2.0 * c * b + c * c * l2 <= -2.0 * s * b + s * s * l2
  {
    if l2 == 0.0 {
      QuadLeastAtStart(b, l2, s);
    } else {
      var t := b / l2;
      assert b == t * l2;
      if t < 0.0 {
        SameSign(-t, l2);
        QuadLeastAtStart(b, l2, s);
      } else if t > 1.0 {
        SameSign(t - 1.0, l2);
        QuadLeastAtEnd(b, l2, s);
      } else {
        QuadLeastAtProjection(b, l2, t, s);
      }
    }
  }

  /** No point of the segment is nearer to p than the point measured to.
      A zero squared length is taken to mean that the two ends coincide. */
  lemma ClosestPointIsClosest(px: real, py: real, x1: real, y1: real, x2: real, y2: real, s: real)
    requires 0.0 <= s <= 1.0
    requires SqDist(x1, y1, x2, y2) != 0.0 || (x1 == x2 && y1 == y2)
    ensures var q := ClosestPoint(px, py, x1, y1, x2, y2);
      var r := Along(x1, y1, x2, y2, s);
      SqDist(px, py, q.x, q.y) <= SqDist(px, py, r.x, r.y)
  {
    var l2 := SqDist(x1, y1, x2, y2);
    var b := Dot(px, py, x1, y1, x2, y2);
    var c := Clamped(px, py, x1, y1, x2, y2);
    ClosestPointOnSegment(px, py, x1, y1, x2, y2);
    SqDistAlong(px, py, x1, y1, x2, y2, s);
    SqDistAlong(px, py, x1, y1, x2, y2, c);
    ClampedFacts(px, py, x1, y1, x2, y2);
    ClampedLeast(b, l2, c, s);
  }

  /** What the clamped parameter satisfies, in terms of the squared length
      and the dot product. */
  lemma ClampedFacts(px: real, py: real, x1: real, y1: real, x2: real, y2: real)
    requires SqDist(x1, y1, x2, y2) != 0.0 || (x1 == x2 && y1 == y2)
    ensures var l2, b, c := SqDist(x1, y1, x2, y2), Dot(px, py, x1, y1, x2, y2), Clamped(px, py, x1, y1, x2, y2);
      l2 >= 0.0 && (l2 == 0.0 ==> b == 0.0 && c == 0.0) &&
      (l2 != 0.0 ==> c == (if b / l2 < 0.0 then 0.0 else if b / l2 > 1.0 then 1.0 else b / l2))
  {
    SqDistNonneg(x1, y1, x2, y2);
    if x1 == x2 && y1 == y2 {
      DegenerateSegment(px, py, x1, y1);
    }
  }

  /** With a monotonic square root, the distance to the segment is at most
      the distance to any of its points, its ends included. */
  lemma DistanceIsLeast(sqrt: real -> real, px: real, py: real, x1: real, y1: real, x2: real, y2: real, s: real)
    requires forall a: real, b: real :: 0.0 <= a <= b ==> sqrt(a) <= sqrt(b)
    requires 0.0 <= s <= 1.0
    requires SqDist(x1, y1, x2, y2) != 0.0 || (x1 == x2 && y1 == y2)
    ensures var r := Along(x1, y1, x2, y2, s);
      DistancePointSegment(sqrt, px, py, x1, y1, x2, y2) <= Distance(sqrt, px, py, r.x, r.y)
  {
    var q := ClosestPoint(px, py, x1, y1, x2, y2);
    var r := Along(x1, y1, x2, y2, s);
    ClosestPointIsClosest(px, py, x1, y1, x2, y2, s);
    SqDistNonneg(px, py, q.x, q.y);
    var dq, dr := SqDist(px, py, q.x, q.y), SqDist(px, py, r.x, r.y);
    assert sqrt(dq) <= sqrt(dr);
  }

  /** The cross product of the vectors (a, b) and (c, d). */
  function Det(a: real, b: real, c: real, d: real): real
  {
    a * d - b * c
  }

  /** geometry_segment_intersects_ray: the parameter t of the hit along the
      ray from (x, y) with direction (cos angle, sin angle), when the ray meets
      the segment; none for a NULL segment or an (almost) parallel one. */
  function RayHit(seg: Option<Shape>, x: real, y: real, angle: real, cos: real -> real, sin: real -> real): Option<real>
    requires seg.Some? ==> seg.value.Line?
  {
    if seg.None? then None
    else
      var l := seg.value;
      var rdx, rdy := cos(angle), sin(angle);
      var sdx, sdy := l.x2 - l.x1, l.y2 - l.y1;
      var den := Det(rdx, rdy, sdx, sdy);
      if Abs(den) < 0.0000000001 then None
      else
        var t := Det(l.x1 - x, l.y1 - y, sdx, sdy) / den;
        var u := Det(l.x1 - x, l.y1 - y, rdx, rdy) / den;
        if t >= 0.0 && u >= 0.0 && u <= 1.0 then Some(t) else None
  }

  /** A hit is ahead on the ray and on the segment: the point t along the
      ray is also a point of the segment. */
  lemma RayHitOnBoth(seg: Option<Shape>, x: real, y: real, angle: real, cos: real -> real, sin: real -> real)
    requires seg.Some? ==> seg.value.Line?
    requires RayHit(seg, x, y, angle, cos, sin).Some?
    ensures var t := RayHit(seg, x, y, angle, cos, sin).value;
      var l := seg.value;
      t >= 0.0 && exists u: real :: 0.0 <= u <= 1.0 && Point(x + t * cos(angle), y + t * sin(angle)) == Along(l.x1, l.y1, l.x2, l.y2, u)
  {
    var l := seg.value;
    RaySolve(x, y, cos(angle), sin(angle), l.x1, l.y1, l.x2, l.y2);
  }

  /** Cramer's rule for the ray and the segment's line: with a non-zero
      determinant the two parameters name one point. */
  lemma RaySolve(x: real, y: real, rdx: real, rdy: real, x1: real, y1: real, x2: real, y2: real)
    requires Det(rdx, rdy, x2 - x1, y2 - y1) != 0.0
    ensures var den := Det(rdx, rdy, x2 - x1, y2 - y1);
      var t := Det(x1 - x, y1 - y, x2 - x1, y2 - y1) / den;
      var u := Det(x1 - x, y1 - y, rdx, rdy) / den;
      Point(x + t * rdx, y + t * rdy) == Along(x1, y1, x2, y2, u)
  {
    var sdx, sdy := x2 - x1, y2 - y1;
    var wx, wy := x1 - x, y1 - y;
    var den := Det(rdx, rdy, sdx, sdy);
    var a, b := Det(wx, wy, sdx, sdy), Det(wx, wy, rdx, rdy);
    assert a * rdx - b * sdx == den * wx;
    assert a * rdy - b * sdy == den * wy;
    Cramer(a, b, rdx, sdx, den, wx);
    Cramer(a, b, rdy, sdy, den, wy);
  }
}
