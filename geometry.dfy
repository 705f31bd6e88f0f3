/**
 * The polygon helpers that both scripts carry verbatim: anticlockwise ordering of
 * the vertices, the shoelace area, the perimeter and the check that four points
 * can form a quadrilateral.
 *
 * Area and perimeter are sums over the edges of the loop that closes back to the
 * first vertex; both are modelled with one closed-walk sum over an edge function
 * (twice the signed area of an edge for the shoelace formula, the distance between
 * its ends for the perimeter).
 */
module Geometry {
  import opened Common
  import opened Sorting

  /** A vertex with integer coordinates (a patch centre or a (line, index) pair). */
  datatype Point = Point(x: int, y: int)

  /** The centroid of the vertices, as exact reals. */
  datatype Centroid = Centroid(x: real, y: real)

  // ---------------------------------------------------------------------------
  // Sums over a walk and over the closed loop

  /** Sum of `edge` over consecutive pairs of `ps` (the open walk). */
  function WalkSum(ps: seq<Point>, edge: (Point, Point) -> real): real
    decreases |ps|
  {
    if |ps| < 2 then 0.0 else edge(ps[0], ps[1]) + WalkSum(ps[1..], edge)
  }

  /** Sum of `edge` over the walk and the closing edge from the last vertex back to the first. */
  function LoopSum(pts: seq<Point>, edge: (Point, Point) -> real): real
    requires |pts| > 0
  {
    WalkSum(pts, edge) + edge(pts[|pts| - 1], pts[0])
  }

  /** Extending a walk by one vertex adds the one new edge. */
  lemma {:induction false} WalkSumSnoc(ps: seq<Point>, q: Point, edge: (Point, Point) -> real)
    requires |ps| > 0
    ensures WalkSum(ps + [q], edge) == WalkSum(ps, edge) + edge(ps[|ps| - 1], q)
  {
    if |ps| > 1 {
      WalkSumSnoc(ps[1..], q, edge);
      assert (ps + [q])[1..] == ps[1..] + [q];
    }
  }

  /** The closed loop is the walk over the vertices with the first one appended again. */
  lemma LoopSumIsClosedWalk(pts: seq<Point>, edge: (Point, Point) -> real)
    requires |pts| > 0
    ensures LoopSum(pts, edge) == WalkSum(pts + [pts[0]], edge)
  {
    WalkSumSnoc(pts, pts[0], edge);
  }

  /** The loop sum does not depend on which vertex the loop starts at. */
  lemma LoopSumRotate(pts: seq<Point>, edge: (Point, Point) -> real)
    requires |pts| > 0
    ensures LoopSum(pts[1..] + [pts[0]], edge) == LoopSum(pts, edge)
  {
    if |pts| > 1 {
      var rest := pts[1..];
      WalkSumSnoc(rest, pts[0], edge);
      assert (rest + [pts[0]])[|pts| - 1] == pts[0];
    }
  }

  /** The edge function is symmetric, or (when `negated`) antisymmetric. */
  ghost predicate Mirrored(edge: (Point, Point) -> real, negated: bool) {
    forall a, b :: edge(b, a) == (if negated then -edge(a, b) else edge(a, b))
  }

  /** Reversing the walk keeps its sum, or negates it when the edges are antisymmetric. */
  lemma {:induction false} WalkSumReverse(ps: seq<Point>, edge: (Point, Point) -> real, negated: bool)
    requires Mirrored(edge, negated)
    ensures WalkSum(Reverse(ps), edge) == (if negated then -WalkSum(ps, edge) else WalkSum(ps, edge))
    decreases |ps|
  {
    if |ps| >= 2 {
      var rest := ps[1..];
      WalkSumReverse(rest, edge, negated);
      assert Reverse(ps) == Reverse(rest) + [ps[0]];
      WalkSumSnoc(Reverse(rest), ps[0], edge);
      ReverseAt(rest, 0);
      assert Reverse(rest)[|rest| - 1] == ps[1];
      assert edge(ps[1], ps[0]) == (if negated then -edge(ps[0], ps[1]) else edge(ps[0], ps[1]));
    }
  }

  /**
   * Traversing the loop the other way round negates the signed shoelace sum and keeps
   * a symmetric length.
   */
  lemma LoopSumReverse(pts: seq<Point>, edge: (Point, Point) -> real, negated: bool)
    requires |pts| > 0
    requires Mirrored(edge, negated)
    ensures LoopSum(Reverse(pts), edge) == (if negated then -LoopSum(pts, edge) else LoopSum(pts, edge))
  {
    var n := |pts|;
    WalkSumReverse(pts, edge, negated);
    ReverseAt(pts, 0);
    ReverseAt(pts, n - 1);
    assert edge(pts[0], pts[n - 1]) == (if negated then -edge(pts[n - 1], pts[0]) else edge(pts[n - 1], pts[0]));
  }

  /** The vertices in the opposite order. */
  function Reverse(ps: seq<Point>): (r: seq<Point>)
    ensures |r| == |ps|
  {
    if ps == [] then [] else Reverse(ps[1..]) + [ps[0]]
  }

  lemma {:induction false} ReverseAt(ps: seq<Point>, k: nat)
    requires k < |ps|
    ensures Reverse(ps)[k] == ps[|ps| - 1 - k]
  {
    if k < |ps| - 1 {
      ReverseAt(ps[1..], k);
    }
  }

  // ---------------------------------------------------------------------------
  // Area (calc_area)

  /** Twice the signed area contributed by the edge from `p` to `q`. */
  function CrossEdge(p: Point, q: Point): real
  {
    (p.x * q.y - p.y * q.x) as real
  }

  function RealAbs(r: real): real
  {
    if r < 0.0 then -r else r
  }

  /** The shoelace area of the loop through `pts`. */
  function ShoelaceArea(pts: seq<Point>): real
    requires |pts| > 0
  {
    RealAbs(LoopSum(pts, CrossEdge)) / 2.0
  }

  /** `_separate_xy`: the x list and the y list of the vertices, as fresh lists. */
  method SeparateXY(xyPairs: array<Point>) returns (xs: seq<int>, ys: seq<int>)
    ensures |xs| == |ys| == xyPairs.Length
    ensures forall i :: 0 <= i < xyPairs.Length ==> Point(xs[i], ys[i]) == xyPairs[i]
  {
    xs, ys := [], [];
    for i := 0 to xyPairs.Length
      invariant |xs| == |ys| == i
      invariant forall k :: 0 <= k < i ==> Point(xs[k], ys[k]) == xyPairs[k]
    {
      xs := xs + [xyPairs[i].x];
      ys := ys + [xyPairs[i].y];
    }
  }

  /** The points whose coordinates are given by two parallel lists. */
  function Zip(xs: seq<int>, ys: seq<int>): (ps: seq<Point>)
    requires |xs| == |ys|
    ensures |ps| == |xs|
  {
    seq(|xs|, i requires 0 <= i < |xs| => Point(xs[i], ys[i]))
  }

  /**
   * `_shoelace_area`: closes the two coordinate lists with their first entries, sums
   * x_j*y_(j+1) into a1 and y_j*x_(j+1) into a2, and halves |a1 - a2|.
   */
  method ShoelaceOfLists(xList: seq<int>, yList: seq<int>) returns (area: real)
    requires |xList| == |yList| > 0
    ensures area == ShoelaceArea(Zip(xList, yList))
  {
    var a1, a2 := 0, 0;
    var xl, yl := xList + [xList[0]], yList + [yList[0]];
    ghost var closed := Zip(xl, yl);
    for j := 0 to |xl| - 1
      invariant (a1 - a2) as real == WalkSum(closed[..j + 1], CrossEdge)
    {
      assert closed[..j + 2] == closed[..j + 1] + [closed[j + 1]];
      WalkSumSnoc(closed[..j + 1], closed[j + 1], CrossEdge);
      a1 := a1 + xl[j] * yl[j + 1];
      a2 := a2 + yl[j] * xl[j + 1];
    }
    var pts := Zip(xList, yList);
    assert closed == pts + [pts[0]];
    assert closed[..|xl|] == closed;
    LoopSumIsClosedWalk(pts, CrossEdge);
    area := Abs(a1 - a2) as real / 2.0;
  }

  /**
   * `calc_area`: no value for fewer than three vertices, otherwise the shoelace area.
   * The method has no `modifies` clause, so the caller's vertex list is left as it was.
   */
  method CalcArea(orderedPoints: array<Point>) returns (area: Option<real>)
    ensures orderedPoints.Length < 3 ==> area == None
    ensures orderedPoints.Length >= 3 ==> area == Some(ShoelaceArea(orderedPoints[..]))
  {
    if orderedPoints.Length < 3 {
      return None;
    }
    var xs, ys := SeparateXY(orderedPoints);
    assert Zip(xs, ys) == orderedPoints[..];
    var a := ShoelaceOfLists(xs, ys);
    area := Some(a);
  }

  /** The area of a polygon does not depend on the vertex the loop starts at. */
  lemma ShoelaceAreaRotate(pts: seq<Point>)
    requires |pts| > 0
    ensures ShoelaceArea(pts[1..] + [pts[0]]) == ShoelaceArea(pts)
  {
    LoopSumRotate(pts, CrossEdge);
  }

  /** Clockwise and anticlockwise traversals of the same loop have the same area. */
  lemma ShoelaceAreaReverse(pts: seq<Point>)
    requires |pts| > 0
    ensures ShoelaceArea(Reverse(pts)) == ShoelaceArea(pts)
  {
    forall a, b ensures CrossEdge(b, a) == -CrossEdge(a, b) {
      CrossEdgeAntisymmetric(a, b);
    }
    LoopSumReverse(pts, CrossEdge, true);
  }

  lemma CrossEdgeAntisymmetric(a: Point, b: Point)
    ensures CrossEdge(b, a) == -CrossEdge(a, b)
  {
    assert b.x * a.y == a.y * b.x && b.y * a.x == a.x * b.y;
  }

  /** The closed-walk sum of a triangle, edge by edge. */
  lemma {:induction false} LoopSumOfThree(a: Point, b: Point, c: Point, edge: (Point, Point) -> real)
    ensures LoopSum([a, b, c], edge) == edge(a, b) + edge(b, c) + edge(c, a)
  {
    var s := [a, b, c];
    assert s[1..] == [b, c] && [b, c][1..] == [c];
    assert WalkSum([c], edge) == 0.0;
    assert WalkSum([b, c], edge) == edge(b, c) + WalkSum([c], edge);
    assert WalkSum(s, edge) == edge(a, b) + WalkSum([b, c], edge);
  }

  /** The closed-walk sum of a quadrilateral, edge by edge. */
  lemma {:induction false} LoopSumOfFour(a: Point, b: Point, c: Point, d: Point, edge: (Point, Point) -> real)
    ensures LoopSum([a, b, c, d], edge) == edge(a, b) + edge(b, c) + edge(c, d) + edge(d, a)
  {
    var s := [a, b, c, d];
    assert s[1..] == [b, c, d] && [b, c, d][1..] == [c, d] && [c, d][1..] == [d];
    assert WalkSum([d], edge) == 0.0;
    assert WalkSum([c, d], edge) == edge(c, d) + WalkSum([d], edge);
    assert WalkSum([b, c, d], edge) == edge(b, c) + WalkSum([c, d], edge);
    assert WalkSum(s, edge) == edge(a, b) + WalkSum([b, c, d], edge);
  }

  /** The areas the test suite expects: 4 for the 2x2 square, 0 for four equal points, 7.5 for the triangle. */
  lemma ShoelaceAreaExamples()
    ensures ShoelaceArea([Point(2, 0), Point(2, 2), Point(0, 2), Point(0, 0)]) == 4.0
    ensures ShoelaceArea([Point(1, 1), Point(1, 1), Point(1, 1), Point(1, 1)]) == 0.0
    ensures ShoelaceArea([Point(0, 3), Point(5, 0), Point(0, 0)]) == 7.5
  {
    LoopSumOfFour(Point(2, 0), Point(2, 2), Point(0, 2), Point(0, 0), CrossEdge);
    LoopSumOfFour(Point(1, 1), Point(1, 1), Point(1, 1), Point(1, 1), CrossEdge);
    LoopSumOfThree(Point(0, 3), Point(5, 0), Point(0, 0), CrossEdge);
  }

  // ---------------------------------------------------------------------------
  // Perimeter (calc_perimeter)

  /**
   * What `distance` computes, up to floating-point rounding: the non-negative square
   * root of the squared Euclidean distance.
   */
  ghost predicate IsEuclidean(dist: (Point, Point) -> real) {
    forall p, q :: dist(p, q) >= 0.0 &&
      dist(p, q) * dist(p, q) == ((q.x - p.x) * (q.x - p.x) + (q.y - p.y) * (q.y - p.y)) as real
  }

  /**
   * `calc_perimeter`: no value for fewer than three vertices, otherwise the length of
   * the walk plus the closing edge. The edge length is the parameter `dist`.
   */
  method CalcPerimeter(orderedPoints: array<Point>, dist: (Point, Point) -> real) returns (perimeter: Option<real>)
    ensures orderedPoints.Length < 3 ==> perimeter == None
    ensures orderedPoints.Length >= 3 ==> perimeter == Some(LoopSum(orderedPoints[..], dist))
  {
    var total := 0.0;
    if orderedPoints.Length < 3 {
      return None;
    }
    ghost var pts := orderedPoints[..];
    for i := 0 to orderedPoints.Length - 1
      invariant total == WalkSum(pts[..i + 1], dist)
    {
      assert pts[..i + 2] == pts[..i + 1] + [pts[i + 1]];
      WalkSumSnoc(pts[..i + 1], pts[i + 1], dist);
      total := total + dist(orderedPoints[i], orderedPoints[i + 1]);
    }
    assert pts[..orderedPoints.Length] == pts;
    total := total + dist(orderedPoints[orderedPoints.Length - 1], orderedPoints[0]);
    perimeter := Some(total);
  }

  /** The perimeter does not depend on the starting vertex or, for a symmetric distance, on the direction. */
  lemma PerimeterRotateReverse(pts: seq<Point>, dist: (Point, Point) -> real)
    requires |pts| > 0
    requires IsEuclidean(dist)
    ensures LoopSum(pts[1..] + [pts[0]], dist) == LoopSum(pts, dist)
    ensures LoopSum(Reverse(pts), dist) == LoopSum(pts, dist)
  {
    LoopSumRotate(pts, dist);
    forall a, b ensures dist(b, a) == dist(a, b) {
      EuclideanSymmetric(dist, a, b);
    }
    LoopSumReverse(pts, dist, false);
  }

  /** A Euclidean distance is symmetric. */
  lemma EuclideanSymmetric(dist: (Point, Point) -> real, a: Point, b: Point)
    requires IsEuclidean(dist)
    ensures dist(b, a) == dist(a, b)
  {
    var d1, d2 := dist(a, b), dist(b, a);
    assert d1 * d1 == d2 * d2 by {
      assert (a.x - b.x) * (a.x - b.x) == (b.x - a.x) * (b.x - a.x);
      assert (a.y - b.y) * (a.y - b.y) == (b.y - a.y) * (b.y - a.y);
    }
    SquareRootUnique(d1, d2);
  }

  /** Two non-negative reals with the same square are equal. */
  lemma SquareRootUnique(d1: real, d2: real)
    requires d1 >= 0.0 && d2 >= 0.0 && d1 * d1 == d2 * d2
    ensures d1 == d2
  {
    assert (d1 - d2) * (d1 + d2) == 0.0 by {
      assert (d1 - d2) * (d1 + d2) == d1 * d1 - d2 * d2;
    }
    if d1 + d2 != 0.0 {
      assert d1 - d2 == ((d1 - d2) * (d1 + d2)) / (d1 + d2);
    }
  }

  /** The perimeters that the test suite expects: the 3x4 rectangle, four equal points. */
  lemma PerimeterExamples(dist: (Point, Point) -> real)
    requires IsEuclidean(dist)
    ensures LoopSum([Point(0, 0), Point(0, 3), Point(4, 3), Point(4, 0)], dist) == 14.0
    ensures LoopSum([Point(1, 1), Point(1, 1), Point(1, 1), Point(1, 1)], dist) == 0.0
  {
    var a, b, c, d := Point(0, 0), Point(0, 3), Point(4, 3), Point(4, 0);
    LoopSumOfFour(a, b, c, d, dist);
    SquareRootUnique(dist(a, b), 3.0);
    SquareRootUnique(dist(b, c), 4.0);
    SquareRootUnique(dist(c, d), 3.0);
    SquareRootUnique(dist(d, a), 4.0);
    var e := Point(1, 1);
    LoopSumOfFour(e, e, e, e, dist);
    SquareRootUnique(dist(e, e), 0.0);
  }

  // ---------------------------------------------------------------------------
  // Anticlockwise ordering (order_coordinates_anticlock)

  function SumX(pts: seq<Point>): int
  {
    if pts == [] then 0 else SumX(pts[..|pts| - 1]) + pts[|pts| - 1].x
  }

  function SumY(pts: seq<Point>): int
  {
    if pts == [] then 0 else SumY(pts[..|pts| - 1]) + pts[|pts| - 1].y
  }

  /** The arithmetic mean of the vertices. */
  function CentroidOf(pts: seq<Point>): Centroid
    requires |pts| > 0
  {
    Centroid(SumX(pts) as real / |pts| as real, SumY(pts) as real / |pts| as real)
  }

  /** The sort key of a vertex, taken relative to the centroid `c`. */
  function KeyAround<K>(key: (Centroid, Point) -> K, c: Centroid): Point -> K
  {
    p => key(c, p)
  }

  /**
   * `order_coordinates_anticlock`: an empty list gives a new empty list; otherwise
   * the list is sorted in place, stably, by the key of each vertex relative to the
   * centroid, and the same list is returned. The key -- (polar angle around the
   * centroid, minus the distance to it) in the source -- is the parameter `key`,
   * compared by `before`.
   */
  method OrderAnticlock<K>(points: array<Point>, key: (Centroid, Point) -> K, before: (K, K) -> bool)
    returns (ordered: array<Point>)
    modifies points
    ensures points.Length == 0 ==> fresh(ordered) && ordered.Length == 0
    ensures points.Length > 0 ==> ordered == points
    ensures points.Length > 0 ==>
      points[..] == SortBy(old(points[..]), KeyAround(key, CentroidOf(old(points[..]))), before)
    ensures multiset(points[..]) == multiset(old(points[..]))
  {
    if points.Length == 0 {
      ordered := new Point[0];
      return;
    }
    var centroid := CentroidOf(points[..]);
    var sorted := SortBy(points[..], KeyAround(key, centroid), before);
    SortByPermutation(points[..], KeyAround(key, centroid), before);
    forall i | 0 <= i < points.Length {
      points[i] := sorted[i];
    }
    assert points[..] == sorted;
    ordered := points;
  }

  /** The coordinate sums, hence the centroid, do not depend on the order of the vertices. */
  lemma {:induction false} SumsPermutationInvariant(p: seq<Point>, q: seq<Point>)
    requires multiset(p) == multiset(q)
    ensures SumX(p) == SumX(q) && SumY(p) == SumY(q)
    decreases |p|
  {
    if p != [] {
      var last := p[|p| - 1];
      assert p == p[..|p| - 1] + [last];
      assert last in multiset(q);
      var i :| 0 <= i < |q| && q[i] == last;
      RemoveMatching(p, q, i);
      SumsPermutationInvariant(p[..|p| - 1], q[..i] + q[i + 1..]);
      SumsRemove(q, i);
    }
  }

  /** Taking one vertex out of the list takes its coordinates out of the sums. */
  lemma {:induction false} SumsRemove(q: seq<Point>, i: nat)
    requires i < |q|
    ensures SumX(q) == SumX(q[..i] + q[i + 1..]) + q[i].x
    ensures SumY(q) == SumY(q[..i] + q[i + 1..]) + q[i].y
    decreases |q|
  {
    if i < |q| - 1 {
      var init := q[..|q| - 1];
      SumsRemove(init, i);
      assert q[..i] + q[i + 1..] == (init[..i] + init[i + 1..]) + [q[|q| - 1]];
      assert init[..i] + init[i + 1..] == (q[..i] + q[i + 1..])[..|q| - 2];
    } else {
      assert q[..i] + q[i + 1..] == q[..|q| - 1];
    }
  }

  /**
   * The ordering and hence the polygon and its area depend only on which vertices are
   * given, not on their input order, provided the key tells distinct vertices apart
   * (as polar angle and distance around the centroid do).
   */
  lemma OrderAnticlockIndependentOfInputOrder<K(!new)>(p: seq<Point>, q: seq<Point>,
                                                       key: (Centroid, Point) -> K, before: (K, K) -> bool)
    requires StrictTotalOrder(before)
    requires |p| > 0 && multiset(p) == multiset(q)
    requires forall a, b :: key(CentroidOf(p), a) == key(CentroidOf(p), b) ==> a == b
    ensures |q| > 0 && CentroidOf(q) == CentroidOf(p)
    ensures SortBy(p, KeyAround(key, CentroidOf(p)), before) == SortBy(q, KeyAround(key, CentroidOf(q)), before)
    ensures ShoelaceArea(SortBy(p, KeyAround(key, CentroidOf(p)), before))
         == ShoelaceArea(SortBy(q, KeyAround(key, CentroidOf(q)), before))
  {
    assert |q| == |multiset(q)| == |multiset(p)| == |p|;
    SumsPermutationInvariant(p, q);
    var k := KeyAround(key, CentroidOf(p));
    SortByOrderIndependent(p, q, k, before);
    SortByPermutation(p, k, before);
  }

  /** The sorted list is in key order: anticlockwise by polar angle when the key is the source's. */
  lemma OrderAnticlockSorted<K(!new)>(p: seq<Point>, key: (Centroid, Point) -> K, before: (K, K) -> bool)
    requires StrictTotalOrder(before)
    requires |p| > 0
    ensures SortedBy(SortBy(p, KeyAround(key, CentroidOf(p)), before), KeyAround(key, CentroidOf(p)), before)
    ensures multiset(SortBy(p, KeyAround(key, CentroidOf(p)), before)) == multiset(p)
  {
    SortBySorted(p, KeyAround(key, CentroidOf(p)), before);
    SortByPermutation(p, KeyAround(key, CentroidOf(p)), before);
  }

  // ---------------------------------------------------------------------------
  // The quadrilateral check of draw_quadrilateral and of the text script's main block

  function Xs(pts: seq<Point>): (xs: seq<int>)
    ensures |xs| == |pts|
  {
    seq(|pts|, i requires 0 <= i < |pts| => pts[i].x)
  }

  function Ys(pts: seq<Point>): (ys: seq<int>)
    ensures |ys| == |pts|
  {
    seq(|pts|, i requires 0 <= i < |pts| => pts[i].y)
  }

  /** `any(vs.count(v) >= 3 for v in set(vs))`. */
  predicate SomeValueThrice(vs: seq<int>)
  {
    exists v :: v in vs && multiset(vs)[v] >= 3
  }

  /** Exactly four points, and no x value and no y value shared by three or more of them. */
  predicate IsQuadrilateral(pts: seq<Point>)
  {
    |pts| == 4 && !SomeValueThrice(Xs(pts)) && !SomeValueThrice(Ys(pts))
  }

  /** Three of the four values (at distinct positions) are equal. */
  predicate ThreeOfFourEqual(a: int, b: int, c: int, d: int)
  {
    (a == b && b == c) || (a == b && b == d) || (a == c && c == d) || (b == c && c == d)
  }

  /** Some value occurs three times in a list of four exactly when three of the four positions agree. */
  lemma ThriceInFour(vs: seq<int>)
    requires |vs| == 4
    ensures SomeValueThrice(vs) <==> ThreeOfFourEqual(vs[0], vs[1], vs[2], vs[3])
  {
    if SomeValueThrice(vs) {
      var v :| v in vs && multiset(vs)[v] >= 3;
      CountInFour(vs, v);
    }
    if ThreeOfFourEqual(vs[0], vs[1], vs[2], vs[3]) {
      var v := if vs[0] == vs[1] || vs[0] == vs[2] then vs[0] else vs[1];
      CountInFour(vs, v);
      assert v in vs;
    }
  }

  /** How often `v` occurs in a list of four. */
  lemma CountInFour(vs: seq<int>, v: int)
    requires |vs| == 4
    ensures multiset(vs)[v] ==
      (if vs[0] == v then 1 else 0) + (if vs[1] == v then 1 else 0) +
      (if vs[2] == v then 1 else 0) + (if vs[3] == v then 1 else 0)
  {
    assert vs == [vs[0]] + [vs[1]] + [vs[2]] + [vs[3]];
  }

  /**
   * The check passes exactly when there are four points, no three of them share an x
   * coordinate and no three share a y coordinate.
   */
  lemma IsQuadrilateralIff(pts: seq<Point>)
    ensures IsQuadrilateral(pts) <==>
      |pts| == 4 &&
      !ThreeOfFourEqual(pts[0].x, pts[1].x, pts[2].x, pts[3].x) &&
      !ThreeOfFourEqual(pts[0].y, pts[1].y, pts[2].y, pts[3].y)
  {
    if |pts| == 4 {
      ThriceInFour(Xs(pts));
      ThriceInFour(Ys(pts));
    }
  }

  /** The cases of the test suite: a square passes; three points, x = 0 thrice and x = 2 thrice fail. */
  lemma IsQuadrilateralExamples()
    ensures IsQuadrilateral([Point(0, 0), Point(0, 5), Point(5, 5), Point(5, 0)])
    ensures !IsQuadrilateral([Point(0, 0), Point(0, 5), Point(5, 5)])
    ensures !IsQuadrilateral([Point(0, 0), Point(0, 5), Point(0, 5), Point(5, 5)])
    ensures !IsQuadrilateral([Point(2, 2), Point(2, 15), Point(2, 30), Point(5, 5)])
  {
    IsQuadrilateralIff([Point(0, 0), Point(0, 5), Point(5, 5), Point(5, 0)]);
    IsQuadrilateralIff([Point(0, 0), Point(0, 5), Point(0, 5), Point(5, 5)]);
    IsQuadrilateralIff([Point(2, 2), Point(2, 15), Point(2, 30), Point(5, 5)]);
  }
}
