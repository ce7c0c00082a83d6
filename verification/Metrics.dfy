/** Counting the geometric defects of a compiled scene. */
module Metrics {
  import opened OrderedMaps
  import opened Segments

  datatype Box = Box(x: real, y: real, width: real, height: real)

  predicate RectsOverlap(a: Box, b: Box) {
    a.x < b.x + b.width && a.x + a.width > b.x && a.y < b.y + b.height && a.y + a.height > b.y
  }

  predicate FullyContains(outer: Box, inner: Box) {
    && outer.x <= inner.x
    && outer.y <= inner.y
    && outer.x + outer.width >= inner.x + inner.width
    && outer.y + outer.height >= inner.y + inner.height
  }

  function Area(b: Box): real {
    b.width * b.height
  }

  predicate IsLegitimateNesting(a: Box, b: Box) {
    || (FullyContains(a, b) && Area(a) > Area(b))
    || (FullyContains(b, a) && Area(b) > Area(a))
  }

  /** The pairs of positions before (i, j), row by row, that `bad` holds of. */
  ghost function Pairs(n: nat, bad: (int, int) -> bool, i: int, j: int): set<(int, int)> {
    set a, b | 0 <= a < n && a < b < n && (a < i || (a == i && b < j)) && bad(a, b) :: (a, b)
  }

  lemma NextPair(n: nat, bad: (int, int) -> bool, i: int, j: int)
    requires 0 <= i < j < n
    ensures |Pairs(n, bad, i, j + 1)| == |Pairs(n, bad, i, j)| + (if bad(i, j) then 1 else 0)
  {
    var before := Pairs(n, bad, i, j);
    if bad(i, j) {
      assert Pairs(n, bad, i, j + 1) == before + {(i, j)};
    } else {
      assert Pairs(n, bad, i, j + 1) == before;
    }
  }

  lemma NextRow(n: nat, bad: (int, int) -> bool, i: int)
    requires 0 <= i < n
    ensures Pairs(n, bad, i, n) == Pairs(n, bad, i + 1, i + 2)
  {
  }

  function OverlapAt(rectangles: seq<Box>): (int, int) -> bool {
    (i, j) => 0 <= i < |rectangles| && 0 <= j < |rectangles|
              && Overlapping(rectangles[i], rectangles[j])
  }

  /** The pairs of positions, the smaller one first, whose rectangles overlap and are not nested. */
  ghost function OverlappingPairs(rectangles: seq<Box>): set<(int, int)> {
    set i, j | 0 <= i < |rectangles| && i < j < |rectangles| && Overlapping(rectangles[i], rectangles[j]) :: (i, j)
  }

  predicate Overlapping(a: Box, b: Box) {
    !IsLegitimateNesting(a, b) && RectsOverlap(a, b)
  }

  /** Counts every pair of rectangles that overlap without being nested exactly once. */
  method CountOverlaps(rectangles: seq<Box>) returns (count: nat)
    ensures count == |OverlappingPairs(rectangles)|
  {
    count := 0;
    var n := |rectangles|;
    ghost var bad := OverlapAt(rectangles);
    assert Pairs(n, bad, 0, 1) == {};
    for i := 0 to n
      invariant count == |Pairs(n, bad, i, i + 1)|
    {
      for j := i + 1 to n
        invariant count == |Pairs(n, bad, i, j)|
      {
        var a, b := rectangles[i], rectangles[j];
        NextPair(n, bad, i, j);
        if IsLegitimateNesting(a, b) { continue; }
        if RectsOverlap(a, b) { count := count + 1; }
      }
      NextRow(n, bad, i);
    }
    assert Pairs(n, bad, n, n + 1) == OverlappingPairs(rectangles);
  }

  /** An arrow of the scene, as far as crossings go: where it starts, where its last point is. */
  datatype Arrow = Arrow(x: real, y: real, points: seq<(real, real)>,
                         startBinding: Option<string>, endBinding: Option<string>)

  function ArrowToSegment(arrow: Arrow): Segment {
    var last := if arrow.points == [] then (0.0, 0.0) else arrow.points[|arrow.points| - 1];
    Segment(Point(arrow.x, arrow.y), Point(arrow.x + last.0, arrow.y + last.1))
  }

  predicate ShareEndpoint(a: Arrow, b: Arrow) {
    || (a.startBinding.Some? && (a.startBinding == b.startBinding || a.startBinding == b.endBinding))
    || (a.endBinding.Some? && (a.endBinding == b.startBinding || a.endBinding == b.endBinding))
  }

  ghost predicate Crosses(a: Arrow, b: Arrow) {
    !ShareEndpoint(a, b) && Meet(ArrowToSegment(a), ArrowToSegment(b))
  }

  /** The pairs of positions, the smaller one first, whose arrows cross. */
  ghost function CrossingPairs(arrows: seq<Arrow>): set<(int, int)> {
    set i, j | 0 <= i < |arrows| && i < j < |arrows| && Crosses(arrows[i], arrows[j]) :: (i, j)
  }

  ghost function CrossingAt(arrows: seq<Arrow>): (int, int) -> bool {
    (i, j) => 0 <= i < |arrows| && 0 <= j < |arrows| && Crosses(arrows[i], arrows[j])
  }

  /** The body of the counting loop for one pair. */
  method CrossingsOf(a: Arrow, b: Arrow) returns (crossings: nat)
    ensures crossings == if Crosses(a, b) then 1 else 0
  {
    IntersectExactlyWhenTheyMeet(ArrowToSegment(a), ArrowToSegment(b));
    if ShareEndpoint(a, b) { return 0; }
    if SegmentsIntersect(ArrowToSegment(a), ArrowToSegment(b)) { return 1; }
    return 0;
  }

  /** Counts every pair of arrows without a common end node whose lines touch exactly once. */
  method CountCrossings(arrows: seq<Arrow>) returns (count: nat)
    ensures count == |CrossingPairs(arrows)|
  {
    count := 0;
    var n := |arrows|;
    ghost var bad := CrossingAt(arrows);
    assert Pairs(n, bad, 0, 1) == {};
    for i := 0 to n
      invariant count == |Pairs(n, bad, i, i + 1)|
    {
      for j := i + 1 to n
        invariant count == |Pairs(n, bad, i, j)|
      {
        NextPair(n, bad, i, j);
        var crossings := CrossingsOf(arrows[i], arrows[j]);
        count := count + crossings;
      }
      NextRow(n, bad, i);
    }
    assert Pairs(n, bad, n, n + 1) == CrossingPairs(arrows);
  }

  // ---------------------------------------------------------------------------------------------
  // What the box tests mean
  // ---------------------------------------------------------------------------------------------

  ghost predicate Solid(b: Box) {
    b.width > 0.0 && b.height > 0.0
  }

  ghost predicate Inside(b: Box, p: Point) {
    b.x < p.x < b.x + b.width && b.y < p.y < b.y + b.height
  }

  ghost predicate Included(inner: Box, outer: Box) {
    forall p: Point :: Inside(inner, p) ==> Inside(outer, p)
  }

  /** Two solid boxes overlap exactly when some point is inside both. */
  lemma OverlapMeansCommonPoint(a: Box, b: Box)
    requires Solid(a) && Solid(b)
    ensures RectsOverlap(a, b) <==> exists p: Point :: Inside(a, p) && Inside(b, p)
  {
    if RectsOverlap(a, b) {
      var p := Point(Middle(Max(a.x, b.x), Min(a.x + a.width, b.x + b.width)),
                     Middle(Max(a.y, b.y), Min(a.y + a.height, b.y + b.height)));
      assert Inside(a, p) && Inside(b, p);
    }
  }

  function Middle(u: real, v: real): (m: real)
    ensures u < v ==> u < m < v
  {
    (u + v) / 2.0
  }

  lemma ContainsMeansIncluded(outer: Box, inner: Box)
    requires Solid(outer) && Solid(inner)
    ensures FullyContains(outer, inner) <==> Included(inner, outer)
  {
    if !FullyContains(outer, inner) {
      var cx, cy := Middle(inner.x, inner.x + inner.width), Middle(inner.y, inner.y + inner.height);
      var p :=
        if inner.x < outer.x then Point(Middle(inner.x, Min(outer.x, inner.x + inner.width)), cy)
        else if inner.y < outer.y then Point(cx, Middle(inner.y, Min(outer.y, inner.y + inner.height)))
        else if inner.x + inner.width > outer.x + outer.width
        then Point(Middle(Max(inner.x, outer.x + outer.width), inner.x + inner.width), cy)
        else Point(cx, Middle(Max(inner.y, outer.y + outer.height), inner.y + inner.height));
      assert Inside(inner, p) && !Inside(outer, p);
    }
  }

  lemma SmallerSidesSmallerArea(w: real, h: real, v: real, g: real)
    requires 0.0 < w <= v && 0.0 < h <= g
    ensures w * h <= v * g
    ensures w * h == v * g <==> w == v && h == g
  {
    assert v * g - w * h == (v - w) * g + w * (g - h);
    assert (v - w) * g >= 0.0 && w * (g - h) >= 0.0;
    if v != w {
      assert (v - w) * g > 0.0;
    }
    if g != h {
      assert w * (g - h) > 0.0;
    }
  }

  /** The area test singles out exactly the pairs where one box lies in the other and is not it. */
  lemma NestingIsProperInclusion(a: Box, b: Box)
    requires Solid(a) && Solid(b)
    ensures IsLegitimateNesting(a, b) <==> a != b && (Included(a, b) || Included(b, a))
  {
    ContainsMeansIncluded(a, b);
    ContainsMeansIncluded(b, a);
    if FullyContains(a, b) {
      SmallerSidesSmallerArea(b.width, b.height, a.width, a.height);
    }
    if FullyContains(b, a) {
      SmallerSidesSmallerArea(a.width, a.height, b.width, b.height);
    }
  }

  /** What is counted as an overlap: a common inner point, of two boxes neither of which is properly in the other. */
  lemma OverlappingMeans(a: Box, b: Box)
    requires Solid(a) && Solid(b)
    ensures Overlapping(a, b) <==>
            && (exists p: Point :: Inside(a, p) && Inside(b, p))
            && (a == b || (!Included(a, b) && !Included(b, a)))
  {
    OverlapMeansCommonPoint(a, b);
    NestingIsProperInclusion(a, b);
  }

  // ---------------------------------------------------------------------------------------------
  // What is counted as a crossing
  // ---------------------------------------------------------------------------------------------

  ghost predicate EndsAt(arrow: Arrow, id: string) {
    arrow.startBinding == Some(id) || arrow.endBinding == Some(id)
  }

  /** The point lies on the straight line from (x, y) to (x + d.0, y + d.1). */
  ghost predicate OnStretch(x: real, y: real, d: (real, real), p: Point) {
    exists t: real :: PartOfTheWay(x, y, d, t, p)
  }

  predicate PartOfTheWay(x: real, y: real, d: (real, real), t: real, p: Point) {
    0.0 <= t <= 1.0 && p == Point(x + t * d.0, y + t * d.1)
  }

  lemma AlongAnOffset(u: real, d: real, t: real)
    ensures Along(u, u + d, t) == u + t * d
  {
    assert (u + d) - u == d;
  }

  lemma PointOfTheWay(s: Segment, d: (real, real), t: real, p: Point)
    requires s.q == Point(s.p.x + d.0, s.p.y + d.1)
    ensures 0.0 <= t <= 1.0 && At(s, t) == p <==> PartOfTheWay(s.p.x, s.p.y, d, t, p)
  {
    AlongAnOffset(s.p.x, d.0, t);
    AlongAnOffset(s.p.y, d.1, t);
  }

  lemma StretchIsCovered(arrow: Arrow, front: seq<(real, real)>, d: (real, real), p: Point)
    requires arrow.points == front + [d] || (arrow.points == [] && d == (0.0, 0.0))
    ensures Covers(ArrowToSegment(arrow), p) <==> OnStretch(arrow.x, arrow.y, d, p)
  {
    var s := ArrowToSegment(arrow);
    assert s == Segment(Point(arrow.x, arrow.y), Point(arrow.x + d.0, arrow.y + d.1));
    if Covers(s, p) {
      var t: real :| 0.0 <= t <= 1.0 && At(s, t) == p;
      PointOfTheWay(s, d, t, p);
    }
    if OnStretch(arrow.x, arrow.y, d, p) {
      var t: real :| PartOfTheWay(arrow.x, arrow.y, d, t, p);
      PointOfTheWay(s, d, t, p);
    }
  }

  /**
   * What is counted as a crossing: no common end node, and a point on both straight lines from an
   * arrow's place to its last point. The points before the last one do not matter.
   */
  lemma CrossesMeans(a: Arrow, b: Arrow, af: seq<(real, real)>, ad: (real, real), bf: seq<(real, real)>,
                     bd: (real, real))
    requires a.points == af + [ad] || (a.points == [] && ad == (0.0, 0.0))
    requires b.points == bf + [bd] || (b.points == [] && bd == (0.0, 0.0))
    ensures Crosses(a, b) <==>
            && (forall id :: !(EndsAt(a, id) && EndsAt(b, id)))
            && (exists p: Point :: OnStretch(a.x, a.y, ad, p) && OnStretch(b.x, b.y, bd, p))
  {
    forall p: Point
      ensures Covers(ArrowToSegment(a), p) <==> OnStretch(a.x, a.y, ad, p)
      ensures Covers(ArrowToSegment(b), p) <==> OnStretch(b.x, b.y, bd, p)
    {
      StretchIsCovered(a, af, ad, p);
      StretchIsCovered(b, bf, bd, p);
    }
    if forall id :: !(EndsAt(a, id) && EndsAt(b, id)) {
      assert a.startBinding.Some? ==> EndsAt(a, a.startBinding.value);
      assert a.endBinding.Some? ==> EndsAt(a, a.endBinding.value);
    }
  }

  /** The two diagonals of a square are one crossing. */
  lemma DiagonalsCrossOnce(a: Arrow, b: Arrow)
    requires a == Arrow(0.0, 0.0, [(0.0, 0.0), (10.0, 10.0)], None, None)
    requires b == Arrow(0.0, 10.0, [(0.0, 0.0), (10.0, -10.0)], None, None)
    ensures CrossingPairs([a, b]) == {(0, 1)} && |CrossingPairs([a, b])| == 1
  {
    CrossesMeans(a, b, [(0.0, 0.0)], (10.0, 10.0), [(0.0, 0.0)], (10.0, -10.0));
    var p := Point(5.0, 5.0);
    assert PartOfTheWay(0.0, 0.0, (10.0, 10.0), 0.5, p) && PartOfTheWay(0.0, 10.0, (10.0, -10.0), 0.5, p);
    assert OnStretch(0.0, 0.0, (10.0, 10.0), p) && OnStretch(0.0, 10.0, (10.0, -10.0), p);
  }
}
