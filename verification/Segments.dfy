/** Crossing edges: the orientation test for two segments is exact. */
module Segments {

  datatype Point = Point(x: real, y: real)

  datatype Segment = Segment(p: Point, q: Point)

  function Min(a: real, b: real): real { if a <= b then a else b }
  function Max(a: real, b: real): real { if a <= b then b else a }

  /** Twice the signed area of the triangle p, q, r. */
  function Turn(p: Point, q: Point, r: Point): real {
    (q.y - p.y) * (r.x - q.x) - (q.x - p.x) * (r.y - q.y)
  }

  function Orientation(p: Point, q: Point, r: Point): int {
    var value := Turn(p, q, r);
    if value == 0.0 then 0 else if value > 0.0 then 1 else 2
  }

  /** Whether `q` lies in the bounding box of `p` and `r`. */
  predicate OnSegment(p: Point, q: Point, r: Point) {
    && Min(p.x, r.x) <= q.x <= Max(p.x, r.x)
    && Min(p.y, r.y) <= q.y <= Max(p.y, r.y)
  }

  predicate SegmentsIntersect(a: Segment, b: Segment) {
    var o1 := Orientation(a.p, a.q, b.p);
    var o2 := Orientation(a.p, a.q, b.q);
    var o3 := Orientation(b.p, b.q, a.p);
    var o4 := Orientation(b.p, b.q, a.q);
    || (o1 != o2 && o3 != o4)
    || (o1 == 0 && OnSegment(a.p, b.p, a.q))
    || (o2 == 0 && OnSegment(a.p, b.q, a.q))
    || (o3 == 0 && OnSegment(b.p, a.p, b.q))
    || (o4 == 0 && OnSegment(b.p, a.q, b.q))
  }

  // ---------------------------------------------------------------------------------------------
  // What it means
  // ---------------------------------------------------------------------------------------------

  function Along(u: real, v: real, t: real): real {
    u + t * (v - u)
  }

  /** The point a fraction `t` of the way along a segment. */
  function At(s: Segment, t: real): Point {
    Point(Along(s.p.x, s.q.x, t), Along(s.p.y, s.q.y, t))
  }

  ghost predicate Covers(s: Segment, r: Point) {
    exists t: real :: 0.0 <= t <= 1.0 && At(s, t) == r
  }

  ghost predicate Meet(a: Segment, b: Segment) {
    exists r: Point :: Covers(a, r) && Covers(b, r)
  }

  // ---------------------------------------------------------------------------------------------
  // Arithmetic
  // ---------------------------------------------------------------------------------------------

  lemma ScaledDown(t: real, d: real)
    requires 0.0 <= t <= 1.0 && 0.0 <= d
    ensures 0.0 <= t * d <= d
  {
    assert (1.0 - t) * d >= 0.0;
  }

  lemma AlongStaysBetween(u: real, v: real, t: real)
    requires 0.0 <= t <= 1.0
    ensures Min(u, v) <= Along(u, v, t) <= Max(u, v)
  {
    if u <= v {
      ScaledDown(t, v - u);
    } else {
      ScaledDown(t, u - v);
      assert t * (v - u) == -(t * (u - v));
    }
  }

  /** A number between two different ones is some fraction of the way from one to the other. */
  lemma BetweenIsAlong(u: real, v: real, w: real) returns (t: real)
    requires u != v && Min(u, v) <= w <= Max(u, v)
    ensures 0.0 <= t <= 1.0 && Along(u, v, t) == w
  {
    t := (w - u) / (v - u);
    assert t * (v - u) == w - u;
  }

  /** The turn is affine in its last point: along a segment it moves linearly. */
  lemma TurnAlong(a: Segment, b: Segment, t: real)
    ensures Turn(a.p, a.q, At(b, t)) == Along(Turn(a.p, a.q, b.p), Turn(a.p, a.q, b.q), t)
  {
    var dx, dy := a.q.x - a.p.x, a.q.y - a.p.y;
    var ex, ey := b.q.x - b.p.x, b.q.y - b.p.y;
    var r := At(b, t);
    calc {
      Turn(a.p, a.q, r);
      dy * (b.p.x + t * ex - a.q.x) - dx * (b.p.y + t * ey - a.q.y);
      (dy * (b.p.x - a.q.x) - dx * (b.p.y - a.q.y)) + t * (dy * ex - dx * ey);
    }
    assert Turn(a.p, a.q, b.q) - Turn(a.p, a.q, b.p) == dy * ex - dx * ey;
  }

  lemma TurnOfOwnPoint(a: Segment, t: real)
    ensures Turn(a.p, a.q, At(a, t)) == 0.0
  {
    TurnAlong(a, a, t);
    assert Turn(a.p, a.q, a.p) == 0.0;
    assert Turn(a.p, a.q, a.q) == 0.0;
  }

  /** Both pairs of turns differ by the same amount, up to sign: the segments' cross product. */
  lemma TurnsDifferTogether(a: Segment, b: Segment)
    ensures Turn(a.p, a.q, b.p) - Turn(a.p, a.q, b.q) == Turn(b.p, b.q, a.q) - Turn(b.p, b.q, a.p)
  {
  }

  // ---------------------------------------------------------------------------------------------
  // One point and one segment
  // ---------------------------------------------------------------------------------------------

  /** A segment covers only points of its line and its bounding box. */
  lemma CoveredIsOnSegment(s: Segment, r: Point)
    requires Covers(s, r)
    ensures Turn(s.p, s.q, r) == 0.0 && OnSegment(s.p, r, s.q)
  {
    var t: real :| 0.0 <= t <= 1.0 && At(s, t) == r;
    TurnOfOwnPoint(s, t);
    AlongStaysBetween(s.p.x, s.q.x, t);
    AlongStaysBetween(s.p.y, s.q.y, t);
  }

  /** On the line, the coordinate in which the segment moves decides the other one. */
  lemma LineDecides(dx: real, dy: real, ex: real, ey: real, t: real)
    requires dx != 0.0 && dy * ex == dx * ey && ex == t * dx
    ensures ey == t * dy
  {
    assert dx * ey == dx * (t * dy);
    assert dx * (ey - t * dy) == 0.0;
  }

  /** A point of the line whose x lies between the ends of a slanted segment is covered. */
  lemma BetweenInX(s: Segment, r: Point)
    requires s.p.x != s.q.x && Turn(s.p, s.q, r) == 0.0
    requires Min(s.p.x, s.q.x) <= r.x <= Max(s.p.x, s.q.x)
    ensures Covers(s, r)
  {
    var t := BetweenIsAlong(s.p.x, s.q.x, r.x);
    var dx, dy := s.q.x - s.p.x, s.q.y - s.p.y;
    assert dy * (r.x - s.p.x) == dx * (r.y - s.p.y);
    LineDecides(dx, dy, r.x - s.p.x, r.y - s.p.y, t);
    assert At(s, t) == r;
  }

  lemma BetweenInY(s: Segment, r: Point)
    requires s.p.y != s.q.y && Turn(s.p, s.q, r) == 0.0
    requires Min(s.p.y, s.q.y) <= r.y <= Max(s.p.y, s.q.y)
    ensures Covers(s, r)
  {
    var t := BetweenIsAlong(s.p.y, s.q.y, r.y);
    var dx, dy := s.q.x - s.p.x, s.q.y - s.p.y;
    assert dy * (r.x - s.p.x) == dx * (r.y - s.p.y);
    LineDecides(dy, dx, r.y - s.p.y, r.x - s.p.x, t);
    assert At(s, t) == r;
  }

  /** The collinear test of the source is exact: on the line and in the box means covered. */
  lemma OnSegmentIsCovered(s: Segment, r: Point)
    ensures Covers(s, r) <==> Turn(s.p, s.q, r) == 0.0 && OnSegment(s.p, r, s.q)
  {
    assert At(s, 0.0) == s.p;
    if Covers(s, r) {
      CoveredIsOnSegment(s, r);
    } else if Turn(s.p, s.q, r) == 0.0 && OnSegment(s.p, r, s.q) {
      if s.p.x != s.q.x {
        BetweenInX(s, r);
      } else if s.p.y != s.q.y {
        BetweenInY(s, r);
      }
    }
  }

  lemma EndsAreCovered(s: Segment)
    ensures Covers(s, s.p) && Covers(s, s.q)
  {
    assert At(s, 0.0) == s.p;
    assert At(s, 1.0) == s.q;
  }

  // ---------------------------------------------------------------------------------------------
  // Two segments
  // ---------------------------------------------------------------------------------------------

  predicate SameSide(u: real, v: real) {
    (u > 0.0 && v > 0.0) || (u < 0.0 && v < 0.0) || (u == 0.0 && v == 0.0)
  }

  lemma OrientationsDiffer(p: Point, q: Point, r: Point, s: Point)
    ensures Orientation(p, q, r) != Orientation(p, q, s) <==> !SameSide(Turn(p, q, r), Turn(p, q, s))
  {
  }

  /** Between two values that are not strictly on one side of zero there is a zero. */
  lemma ZeroBetween(u: real, v: real) returns (t: real)
    requires !SameSide(u, v)
    ensures u != v && t == u / (u - v)
    ensures 0.0 <= t <= 1.0 && Along(u, v, t) == 0.0
  {
    t := u / (u - v);
    assert t * (u - v) == u;
    assert t * (v - u) == -u;
    if u > v {
      QuotientInUnit(u, u - v);
    } else {
      assert t == (-u) / (v - u);
      QuotientInUnit(-u, v - u);
    }
  }

  lemma QuotientInUnit(u: real, w: real)
    requires 0.0 <= u <= w && 0.0 < w
    ensures 0.0 <= u / w <= 1.0
  {
  }

  /** A zero between the ends means they are not strictly on one side, or both are zero. */
  lemma ZeroAlongMeansSides(u: real, v: real, t: real)
    requires 0.0 <= t <= 1.0 && Along(u, v, t) == 0.0
    ensures SameSide(u, v) ==> u == 0.0 && v == 0.0
  {
    AlongStaysBetween(u, v, t);
  }

  /** Cramer's rule, cleared of fractions. */
  lemma LinesMeetThere(dx: real, dy: real, ex: real, ey: real, wx: real, wy: real)
    ensures (dx * ey - dy * ex) * wx == (ey * wx - ex * wy) * dx + (dx * wy - dy * wx) * ex
    ensures (dx * ey - dy * ex) * wy == (ey * wx - ex * wy) * dy + (dx * wy - dy * wx) * ey
  {
  }

  lemma SameAfterScaling(k: real, w: real, s: real, t: real, d: real, e: real, d3: real, d1: real)
    requires k != 0.0 && k * s == -d3 && k * t == d1
    requires k * w == d3 * d + d1 * e
    ensures w + s * d == t * e
  {
    assert (k * s) * d == k * (s * d);
    assert (k * t) * e == k * (t * e);
    assert k * (w + s * d - t * e) == 0.0;
  }

  /** The zeros of the two turns, from a start pair `d1`, `d3` with common difference `k`. */
  lemma ZerosBetween(d1: real, d2: real, d3: real, d4: real) returns (s: real, t: real)
    requires !SameSide(d1, d2) && !SameSide(d3, d4) && d1 - d2 == d4 - d3
    ensures 0.0 <= s <= 1.0 && 0.0 <= t <= 1.0 && d1 - d2 != 0.0
    ensures (d1 - d2) * s == -d3 && (d1 - d2) * t == d1
  {
    t := ZeroBetween(d1, d2);
    s := ZeroBetween(d3, d4);
    assert (d3 - d4) * s == d3;
    assert (d1 - d2) * s == -((d3 - d4) * s);
    assert (d1 - d2) * t == d1;
  }

  lemma CrossingMeets(a: Segment, b: Segment)
    requires !SameSide(Turn(a.p, a.q, b.p), Turn(a.p, a.q, b.q))
    requires !SameSide(Turn(b.p, b.q, a.p), Turn(b.p, b.q, a.q))
    ensures Meet(a, b)
  {
    var d1, d2 := Turn(a.p, a.q, b.p), Turn(a.p, a.q, b.q);
    var d3, d4 := Turn(b.p, b.q, a.p), Turn(b.p, b.q, a.q);
    TurnsDifferTogether(a, b);
    var s, t := ZerosBetween(d1, d2, d3, d4);
    ScaledOffsets(a, b, d1 - d2, s, t, d1, d3);
    SharedPoint(a, b, s, t);
  }

  lemma SharedPoint(a: Segment, b: Segment, s: real, t: real)
    requires 0.0 <= s <= 1.0 && 0.0 <= t <= 1.0 && At(a, s) == At(b, t)
    ensures Meet(a, b)
  {
    assert Covers(a, At(a, s)) && Covers(b, At(a, s));
  }

  lemma ScaledOffsets(a: Segment, b: Segment, k: real, s: real, t: real, d1: real, d3: real)
    requires d1 == Turn(a.p, a.q, b.p) && d3 == Turn(b.p, b.q, a.p)
    requires k == d1 - Turn(a.p, a.q, b.q) && k != 0.0 && k * s == -d3 && k * t == d1
    ensures At(a, s) == At(b, t)
  {
    var dx, dy := a.q.x - a.p.x, a.q.y - a.p.y;
    var ex, ey := b.q.x - b.p.x, b.q.y - b.p.y;
    var wx, wy := a.p.x - b.p.x, a.p.y - b.p.y;
    TurnInOffsets(a, b);
    LinesMeetThere(dx, dy, ex, ey, wx, wy);
    SameAfterScaling(k, wx, s, t, dx, ex, d3, d1);
    SameAfterScaling(k, wy, s, t, dy, ey, d3, d1);
  }

  lemma TurnInOffsets(a: Segment, b: Segment)
    ensures var dx, dy := a.q.x - a.p.x, a.q.y - a.p.y;
            var ex, ey := b.q.x - b.p.x, b.q.y - b.p.y;
            var wx, wy := a.p.x - b.p.x, a.p.y - b.p.y;
            && Turn(a.p, a.q, b.p) == dx * wy - dy * wx
            && Turn(b.p, b.q, a.p) == ey * wx - ex * wy
            && Turn(a.p, a.q, b.p) - Turn(a.p, a.q, b.q) == dx * ey - dy * ex
  {
  }

  ghost predicate Collinear(a: Segment, b: Segment) {
    && Turn(a.p, a.q, b.p) == Turn(a.p, a.q, b.q) == 0.0
    && Turn(b.p, b.q, a.p) == Turn(b.p, b.q, a.q) == 0.0
  }

  /** Segments on one line that share a point have an end of one on the other. */
  lemma CollinearOverlap(a: Segment, b: Segment, r: Point)
    requires Collinear(a, b) && Covers(a, r) && Covers(b, r)
    ensures Covers(a, b.p) || Covers(a, b.q) || Covers(b, a.p) || Covers(b, a.q)
  {
    CoveredIsOnSegment(a, r);
    CoveredIsOnSegment(b, r);
    if a.p.x != a.q.x {
      if Min(a.p.x, a.q.x) <= b.p.x <= Max(a.p.x, a.q.x) {
        BetweenInX(a, b.p);
      } else if Min(a.p.x, a.q.x) <= b.q.x <= Max(a.p.x, a.q.x) {
        BetweenInX(a, b.q);
      } else {
        BetweenInX(b, a.p);
      }
    } else if a.p.y != a.q.y {
      if Min(a.p.y, a.q.y) <= b.p.y <= Max(a.p.y, a.q.y) {
        BetweenInY(a, b.p);
      } else if Min(a.p.y, a.q.y) <= b.q.y <= Max(a.p.y, a.q.y) {
        BetweenInY(a, b.q);
      } else {
        BetweenInY(b, a.p);
      }
    } else {
      assert r == a.p;
    }
  }

  lemma MeetingIsDetected(a: Segment, b: Segment)
    requires Meet(a, b)
    ensures SegmentsIntersect(a, b)
  {
    var r :| Covers(a, r) && Covers(b, r);
    var s: real :| 0.0 <= s <= 1.0 && At(a, s) == r;
    var t: real :| 0.0 <= t <= 1.0 && At(b, t) == r;
    var d1, d2 := Turn(a.p, a.q, b.p), Turn(a.p, a.q, b.q);
    var d3, d4 := Turn(b.p, b.q, a.p), Turn(b.p, b.q, a.q);
    TurnAlong(a, b, t);
    TurnOfOwnPoint(a, s);
    ZeroAlongMeansSides(d1, d2, t);
    TurnAlong(b, a, s);
    TurnOfOwnPoint(b, t);
    ZeroAlongMeansSides(d3, d4, s);
    TurnsDifferTogether(a, b);
    if SameSide(d1, d2) || SameSide(d3, d4) {
      assert Collinear(a, b);
      CollinearOverlap(a, b, r);
      OnSegmentIsCovered(a, b.p);
      OnSegmentIsCovered(a, b.q);
      OnSegmentIsCovered(b, a.p);
      OnSegmentIsCovered(b, a.q);
    }
  }

  /**
   * The intersection test is exact: it says yes if and only if the two closed segments share a
   * point, also when they touch, overlap on one line, or shrink to a point.
   */
  lemma IntersectExactlyWhenTheyMeet(a: Segment, b: Segment)
    ensures SegmentsIntersect(a, b) <==> Meet(a, b)
  {
    if Meet(a, b) {
      MeetingIsDetected(a, b);
    } else {
      OrientationsDiffer(a.p, a.q, b.p, b.q);
      OrientationsDiffer(b.p, b.q, a.p, a.q);
      if SegmentsIntersect(a, b) {
        OnSegmentIsCovered(a, b.p);
        OnSegmentIsCovered(a, b.q);
        OnSegmentIsCovered(b, a.p);
        OnSegmentIsCovered(b, a.q);
        EndsAreCovered(a);
        EndsAreCovered(b);
        CrossingMeets(a, b);
      }
    }
  }
}
