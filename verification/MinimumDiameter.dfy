/** The minimum diameter of a geometry: the width of the narrowest strip that contains it, found by
    rotating calipers around its convex hull. Distances are kept as squares. */
module MinimumDiameter {
  import opened Calipers
  import opened ConvexHull
  import opened Plane
  import opened RadialSort
  import opened Reals
  import opened Strips
  import opened Wrappers

  datatype Width = Infinite | Squared(value: real)

  datatype LineSegment = LineSegment(p0: Coordinate, p1: Coordinate)

  /** d is the square of the distance from p to the line through the ends of seg. */
  ghost predicate IsDistance(seg: LineSegment, p: Coordinate, d: real) {
    d * Dot(Minus(seg.p1, seg.p0), Minus(seg.p1, seg.p0)) as real ==
      (Turn(seg.p0, seg.p1, p) * Turn(seg.p0, seg.p1, p)) as real
  }

  /** The perpendicular distance |s| * sqrt(lengthSquared), squared. */
  method DistancePerpendicular(seg: LineSegment, p: Coordinate) returns (d: real)
    requires seg.p0 != seg.p1
    ensures IsDistance(seg, p, d)
  {
    var A, B := seg.p0, seg.p1;
    SquaresPositive(Minus(B, A));
    var lengthSquared := (B.x - A.x) * (B.x - A.x) + (B.y - A.y) * (B.y - A.y);
    var n := (A.y - p.y) * (B.x - A.x) - (A.x - p.x) * (B.y - A.y);
    var s := n as real / lengthSquared as real;
    d := s * s * lengthSquared as real;
    SquareOfQuotient(n, lengthSquared, s);
    NegatedSquare(Turn(A, B, p));
  }

  lemma NegatedSquare(t: int)
    ensures (-t) * (-t) == t * t
  {
  }

  lemma SquareOfQuotient(n: int, len: int, s: real)
    requires len > 0 && s == n as real / len as real
    ensures s * s * len as real * len as real == (n * n) as real
  {
    assert s * len as real == n as real;
    IntegerProduct(n, n);
    assert s * s * len as real * len as real == (s * len as real) * (s * len as real);
  }

  function Edge(v: seq<Coordinate>, e: nat): LineSegment
    requires 1 <= e <= |v|
  {
    LineSegment(Vertex(v, e - 1), Vertex(v, e))
  }

  lemma ProperSide(p: Coordinate, q: Coordinate, r: Coordinate)
    requires Turn(p, q, r) != 0
    ensures p != q && Dot(Minus(q, p), Minus(q, p)) > 0
  {
    if p == q { TurnAt(p, p, r); }
    SquaresPositive(Minus(q, p));
  }

  lemma EdgeIsProper(v: seq<Coordinate>, e: nat)
    requires IsConvexRing(v) && 1 <= e <= |v|
    ensures Edge(v, e).p0 != Edge(v, e).p1
    ensures Dot(EdgeVector(v, e), EdgeVector(v, e)) > 0
  {
    HeightPositive(v, e, e + 1);
    ProperSide(Vertex(v, e - 1), Vertex(v, e), Vertex(v, e + 1));
  }

  lemma QuotientOrder(x: real, y: real, len: int, h: int, g: int)
    requires len > 0 && h >= 0 && g >= 0
    requires x * len as real == (h * h) as real && y * len as real == (g * g) as real
    ensures x <= y <==> h <= g
  {
    if h <= g {
      SquareMonotone(h, g);
      if x > y { PositiveProduct(x - y, len as real); }
    } else {
      SquareStrict(g, h);
      if x <= y { RealScaleUp(x, y, len); }
    }
  }

  lemma SquareStrict(g: int, h: int)
    requires 0 <= g < h
    ensures (g * g) as real < (h * h) as real
  {
    assert g * g <= g * h < h * h;
  }

  lemma RealScaleUp(x: real, y: real, n: int)
    requires x <= y && n > 0
    ensures x * n as real <= y * n as real
  {
    if x < y { PositiveProduct(y - x, n as real); }
  }

  // The climb over one edge is reasoned about on the sequence of its squared distances alone.

  /** Distances from edge e of a ring of n vertices: zero at the edge, positive elsewhere, and falling to the end
      once they begin to fall. */
  ghost predicate Profile(h: seq<real>, e: nat, n: nat) {
    && n >= 3 && |h| == e + n && h[e] == 0.0 && h[e + n - 1] == 0.0
    && (forall k :: e < k < e + n - 1 ==> h[k] > 0.0)
    && (forall u, w :: e < u && u + 1 < w < e + n && h[u + 1] < h[u] ==> h[w] < h[u + 1])
  }

  /** Index i of the closed ring of n vertices holds position u of the double walk. */
  ghost predicate AtPosition(i: nat, u: nat, n: nat) {
    i <= n && (i == u || i + n == u)
  }

  /** h lists the squared distances of the points pts from seg. */
  ghost predicate Measures(h: seq<real>, seg: LineSegment, pts: seq<Coordinate>) {
    && |pts| > 0 && seg.p0 != seg.p1
    && (forall i, u, d {:trigger IsDistance(seg, pts[i], d), AtPosition(i, u, |pts| - 1)} ::
      0 <= i < |pts| && 0 <= u < |h| && AtPosition(i, u, |pts| - 1) && IsDistance(seg, pts[i], d) ==> d == h[u])
  }

  /** h[u] is largest among positions lo to hi. */
  ghost predicate Summit(h: seq<real>, lo: nat, hi: nat, u: nat)
    requires hi < |h| && u < |h|
  {
    forall w :: lo <= w <= hi ==> h[w] <= h[u]
  }

  method DistanceAt(pts: seq<Coordinate>, seg: LineSegment, i: nat, ghost h: seq<real>, ghost u: nat) returns (d: real)
    requires Measures(h, seg, pts) && i < |pts| && u < |h| && AtPosition(i, u, |pts| - 1)
    ensures d == h[u]
  {
    d := DistancePerpendicular(seg, pts[i]);
  }

  lemma ClimbEnds(h: seq<real>, e: nat, n: nat, u: nat)
    requires Profile(h, e, n) && e <= u < e + n - 1 && Summit(h, e, u, u) && h[u + 1] < h[u]
    ensures Summit(h, e, e + n - 1, u) && e < u
  {
  }

  /** d is the squared distance that belongs to height h over an edge of squared length len. */
  ghost predicate ForHeight(d: real, h: int, len: int) {
    d * len as real == (h * h) as real
  }

  ghost predicate IsProfileOf(h: seq<real>, v: seq<Coordinate>, e: nat) {
    1 <= e <= |v| && |h| == e + |v| && forall k {:trigger Height(v, e, k)} :: 0 <= k < |h| ==>
      ForHeight(h[k], Height(v, e, k), Dot(EdgeVector(v, e), EdgeVector(v, e)))
  }

  lemma DivideBySquare(h: int, len: int)
    requires len > 0
    ensures ForHeight((h * h) as real / len as real, h, len)
  {
  }

  lemma ForHeightOrder(x: real, y: real, h: int, g: int, len: int)
    requires len > 0 && h >= 0 && g >= 0 && ForHeight(x, h, len) && ForHeight(y, g, len)
    ensures x <= y <==> h <= g
    ensures x == 0.0 <==> h == 0
    ensures x >= 0.0
  {
    QuotientOrder(x, y, len, h, g);
    QuotientOrder(x, 0.0, len, h, 0);
    QuotientOrder(0.0, x, len, 0, h);
  }

  lemma ProfileOrder(h: seq<real>, v: seq<Coordinate>, e: nat, j: nat, k: nat)
    requires IsConvexRing(v) && IsProfileOf(h, v, e) && e <= j < e + |v| && e <= k < e + |v|
    ensures h[j] <= h[k] <==> Height(v, e, j) <= Height(v, e, k)
    ensures j == e || j == e + |v| - 1 ==> h[j] == 0.0
    ensures e < j < e + |v| - 1 ==> h[j] > 0.0
  {
    EdgeIsProper(v, e);
    HeightPositive(v, e, j);
    HeightPositive(v, e, k);
    ForHeightOrder(h[j], h[k], Height(v, e, j), Height(v, e, k), Dot(EdgeVector(v, e), EdgeVector(v, e)));
  }

  lemma EdgeProfile(v: seq<Coordinate>, e: nat) returns (h: seq<real>)
    requires IsConvexRing(v) && 1 <= e <= |v|
    ensures IsProfileOf(h, v, e) && Profile(h, e, |v|)
  {
    EdgeIsProper(v, e);
    var len := Dot(EdgeVector(v, e), EdgeVector(v, e));
    h := seq(e + |v|, k requires 0 <= k < e + |v| => (Height(v, e, k) * Height(v, e, k)) as real / len as real);
    forall k {:trigger Height(v, e, k)} | 0 <= k < e + |v| ensures ForHeight(h[k], Height(v, e, k), len) {
      DivideBySquare(Height(v, e, k), len);
    }
    ProfileFalls(v, e, h);
  }

  lemma ProfileFalls(v: seq<Coordinate>, e: nat, h: seq<real>)
    requires IsConvexRing(v) && 1 <= e <= |v| && IsProfileOf(h, v, e)
    ensures Profile(h, e, |v|)
  {
    forall k | e <= k < e + |v|
      ensures (k == e || k == e + |v| - 1 ==> h[k] == 0.0) && (e < k < e + |v| - 1 ==> h[k] > 0.0)
    {
      ProfileOrder(h, v, e, k, k);
    }
    forall u, w | e < u && u + 1 < w < e + |v| && h[u + 1] < h[u] ensures h[w] < h[u + 1] {
      ProfileOrder(h, v, e, u, u + 1);
      ProfileOrder(h, v, e, u + 1, w);
      FallsToTheEnd(v, e, u, w);
    }
  }

  lemma EdgeMeasures(v: seq<Coordinate>, e: nat, h: seq<real>)
    requires IsConvexRing(v) && IsProfileOf(h, v, e)
    ensures Measures(h, Edge(v, e), v + [v[0]])
  {
    EdgeIsProper(v, e);
    var pts, seg := v + [v[0]], Edge(v, e);
    forall i, u, d | 0 <= i < |pts| && 0 <= u < |h| && AtPosition(i, u, |pts| - 1) && IsDistance(seg, pts[i], d)
      ensures d == h[u]
    {
      assert pts[i] == Vertex(v, u);
      MeasuredDistance(v, e, u, h[u], d);
    }
  }

  lemma MeasuredDistance(v: seq<Coordinate>, e: nat, u: nat, h: real, d: real)
    requires IsConvexRing(v) && 1 <= e <= |v| && u < e + |v|
    requires ForHeight(h, Height(v, e, u), Dot(EdgeVector(v, e), EdgeVector(v, e)))
    ensures IsDistance(Edge(v, e), Vertex(v, u), d) <==> d == h
  {
    EdgeIsProper(v, e);
    NegatedSquare(Turn(Vertex(v, e - 1), Vertex(v, e), Vertex(v, u)));
    RealCancel(d, h, Dot(EdgeVector(v, e), EdgeVector(v, e)));
  }

  lemma RealCancel(x: real, y: real, n: int)
    requires n > 0
    ensures x * n as real == y * n as real <==> x == y
  {
  }

  /** The summit over one edge is a start for the climb over the next. */
  lemma SummitForNext(v: seq<Coordinate>, e: nat, u: nat, h: seq<real>, g: seq<real>)
    requires IsConvexRing(v) && e < |v| && IsProfileOf(h, v, e) && IsProfileOf(g, v, e + 1)
    requires e < u < e - 1 + |v| && Summit(h, e, e - 1 + |v|, u)
    ensures Summit(g, e + 1, u, u)
  {
    forall w: nat | e + 1 <= w <= u ensures g[w] <= g[u] {
      ProfileOrder(h, v, e, w, u);
      SummitAdvances(v, e, u, w);
      ProfileOrder(g, v, e + 1, w, u);
    }
  }

  /** d is the greatest squared distance of a vertex from edge e. */
  ghost predicate IsWidthOver(v: seq<Coordinate>, e: nat, d: real) {
    exists h, u: nat :: IsTopOf(v, e, h, u) && d == h[u]
  }

  ghost predicate IsTopOf(v: seq<Coordinate>, e: nat, h: seq<real>, u: nat) {
    IsProfileOf(h, v, e) && e <= u < e + |v| && Summit(h, e, e - 1 + |v|, u)
  }

  lemma WidthIsAtLeast(v: seq<Coordinate>, e: nat, d: real, w: real)
    requires IsConvexRing(v) && 1 <= e <= |v| && IsWidthOver(v, e, d) && w <= d
    ensures SomeVertexAtLeast(v, e, w)
  {
    var h, u: nat :| IsTopOf(v, e, h, u) && d == h[u];
    EdgeIsProper(v, e);
    var k := if u < |v| then u else u - |v|;
    assert Vertex(v, k) == Vertex(v, u);
    assert Height(v, e, k) == Height(v, e, u);
    AtLeastForHeight(d, Height(v, e, k), EdgeVector(v, e), w);
  }

  lemma AtLeastForHeight(d: real, height: int, edge: Coordinate, w: real)
    requires ForHeight(d, height, Dot(edge, edge)) && Dot(edge, edge) > 0 && w <= d
    ensures AtLeast(height, edge, w)
  {
    RealScaleUp(w, d, Dot(edge, edge));
  }

  lemma AtLeastLess(height: int, edge: Coordinate, w: real, lower: real)
    requires AtLeast(height, edge, w) && Dot(edge, edge) > 0 && lower <= w
    ensures AtLeast(height, edge, lower)
  {
    RealScaleUp(lower, w, Dot(edge, edge));
  }

  ghost predicate IsStripOf(s: seq<Coordinate>, a: int, b: int, lo: int, hi: int) {
    (a != 0 || b != 0) && InStrip(s, a, b, lo, hi)
  }

  /** The strip has squared width w. */
  ghost predicate HasWidth(a: int, b: int, lo: int, hi: int, w: real) {
    ((hi - lo) * (hi - lo)) as real == w * (a * a + b * b) as real
  }

  /** w is the squared width of the narrowest strip that contains s. */
  ghost predicate IsNarrowest(s: seq<Coordinate>, w: real) {
    && (exists a, b, lo, hi :: IsStripOf(s, a, b, lo, hi) && HasWidth(a, b, lo, hi, w))
    && (forall a, b, lo, hi :: IsStripOf(s, a, b, lo, hi) ==> StripAtLeast(a, b, lo, hi, w))
  }

  lemma HeightBounds(v: seq<Coordinate>, e: nat, h: seq<real>, u: nat, k: nat)
    requires IsConvexRing(v) && IsTopOf(v, e, h, u) && k < |v|
    ensures -Height(v, e, u) <= RightOf(Vertex(v, e - 1), Vertex(v, e)).At(v[k]) <= 0
  {
    var w := if k < e then k + |v| else k;
    assert Vertex(v, w) == v[k];
    HeightPositive(v, e, w);
    ProfileOrder(h, v, e, w, u);
    RightOfIsTurn(Vertex(v, e - 1), Vertex(v, e), v[k]);
  }

  lemma EdgeNormal(v: seq<Coordinate>, e: nat)
    requires IsConvexRing(v) && 1 <= e <= |v|
    ensures var h := RightOf(Vertex(v, e - 1), Vertex(v, e));
      (h.a != 0 || h.b != 0) && h.a * h.a + h.b * h.b == Dot(EdgeVector(v, e), EdgeVector(v, e))
  {
    EdgeIsProper(v, e);
  }

  lemma EdgeStripHolds(v: seq<Coordinate>, e: nat, h: seq<real>, u: nat)
    requires IsConvexRing(v) && IsTopOf(v, e, h, u)
    ensures var side := RightOf(Vertex(v, e - 1), Vertex(v, e));
      InStrip(v, side.a, side.b, -side.c - Height(v, e, u), -side.c)
  {
    var side := RightOf(Vertex(v, e - 1), Vertex(v, e));
    forall k | 0 <= k < |v| ensures -side.c - Height(v, e, u) <= side.a * v[k].x + side.b * v[k].y <= -side.c {
      HeightBounds(v, e, h, u, k);
    }
  }

  /** The strip with one side along edge e and the other through its summit contains the ring. */
  lemma BaseStrip(v: seq<Coordinate>, e: nat, w: real) returns (a: int, b: int, lo: int, hi: int)
    requires IsConvexRing(v) && 1 <= e <= |v| && IsWidthOver(v, e, w)
    ensures IsStripOf(v, a, b, lo, hi) && HasWidth(a, b, lo, hi, w)
  {
    var top, u: nat :| IsTopOf(v, e, top, u) && w == top[u];
    EdgeStripHolds(v, e, top, u);
    EdgeNormal(v, e);
    var side, height := RightOf(Vertex(v, e - 1), Vertex(v, e)), Height(v, e, u);
    a, b, lo, hi := side.a, side.b, -side.c - height, -side.c;
    StripWidth(w, a, b, lo, hi, height, Dot(EdgeVector(v, e), EdgeVector(v, e)));
  }

  lemma StripWidth(w: real, a: int, b: int, lo: int, hi: int, height: int, len: int)
    requires ForHeight(w, height, len) && hi - lo == height && a * a + b * b == len
    ensures HasWidth(a, b, lo, hi, w)
  {
  }

  lemma BaseIsNarrowest(v: seq<Coordinate>, e: nat, w: real)
    requires IsConvexRing(v) && 1 <= e <= |v| && IsWidthOver(v, e, w) && w >= 0.0
    requires EveryEdgeAtLeast(v, w)
    ensures IsNarrowest(v, w)
  {
    var a0, b0, lo0, hi0 := BaseStrip(v, e, w);
    forall a, b, lo, hi | IsStripOf(v, a, b, lo, hi) ensures StripAtLeast(a, b, lo, hi, w) {
      EveryStripAtLeast(v, w, a, b, lo, hi);
    }
  }

  method GetNextIndex(pts: seq<Coordinate>, index: nat) returns (next: nat)
    ensures next == if index + 1 >= |pts| then 0 else index + 1
  {
    next := index + 1;
    if next >= |pts| { next := 0; }
  }

  /** The loop of FindMaxPerpDistance: climbs from startIndex, at position u, to the summit over the segment. */
  method ClimbToMax(pts: seq<Coordinate>, seg: LineSegment, startIndex: nat,
                    ghost e: nat, ghost h: seq<real>, ghost u: nat)
    returns (maxIndex: nat, maxPerpDistance: real, ghost top: nat)
    requires |pts| > 3 && 1 <= e < |pts| && Profile(h, e, |pts| - 1) && Measures(h, seg, pts)
    requires e <= u < e + |pts| - 2 && AtPosition(startIndex, u, |pts| - 1) && Summit(h, e, u, u)
    ensures u <= top && e < top < e + |pts| - 2 && AtPosition(maxIndex, top, |pts| - 1)
    ensures Summit(h, e, e + |pts| - 2, top) && maxPerpDistance == h[top]
  {
    ghost var n := |pts| - 1;
    maxPerpDistance := DistanceAt(pts, seg, startIndex, h, u);
    var nextPerpDistance := maxPerpDistance;
    maxIndex := startIndex;
    var nextIndex := maxIndex;
    top := u;
    ghost var ahead := u;
    while nextPerpDistance >= maxPerpDistance
      invariant u <= top <= ahead <= top + 1 && ahead < e + n && top < e + n - 1
      invariant AtPosition(maxIndex, top, n) && AtPosition(nextIndex, ahead, n)
      invariant maxPerpDistance == h[top] && nextPerpDistance == h[ahead]
      invariant Summit(h, e, top, top)
      decreases e + n - ahead, if nextIndex == n then 1 else 0
    {
      maxPerpDistance := nextPerpDistance;
      maxIndex := nextIndex;
      top := ahead;
      nextIndex := GetNextIndex(pts, maxIndex);
      ahead := if maxIndex == n then top else top + 1;
      nextPerpDistance := DistanceAt(pts, seg, nextIndex, h, ahead);
    }
    ClimbEnds(h, e, n, top);
  }

  /** The outcome of the search over edges 1 to e - 1: the least of the greatest distances, with its edge. */
  ghost predicate BestSoFar(v: seq<Coordinate>, e: nat, w: real, seg: Option<LineSegment>) {
    && w >= 0.0
    && (exists b :: IsBaseEdge(v, b, e, w, seg))
    && (forall b {:trigger SomeVertexAtLeast(v, b, w)} :: 1 <= b < e && b <= |v| ==> SomeVertexAtLeast(v, b, w))
  }

  ghost predicate IsBaseEdge(v: seq<Coordinate>, b: nat, e: nat, w: real, seg: Option<LineSegment>) {
    1 <= b < e && b <= |v| && seg == Some(Edge(v, b)) && IsWidthOver(v, b, w)
  }

  /** The best of all edges is the width of the ring. */
  lemma BestIsNarrowest(v: seq<Coordinate>, w: real, seg: Option<LineSegment>)
    requires IsConvexRing(v) && BestSoFar(v, |v| + 1, w, seg)
    ensures IsNarrowest(v, w)
  {
    var b :| IsBaseEdge(v, b, |v| + 1, w, seg);
    BaseIsNarrowest(v, b, w);
  }

  lemma LowerAtLeast(v: seq<Coordinate>, e: nat, w: real, lower: real)
    requires IsConvexRing(v) && 1 <= e <= |v| && SomeVertexAtLeast(v, e, w) && lower <= w
    ensures SomeVertexAtLeast(v, e, lower)
  {
    EdgeIsProper(v, e);
    var k :| 0 <= k < |v| && AtLeast(Height(v, e, k), EdgeVector(v, e), w);
    AtLeastLess(Height(v, e, k), EdgeVector(v, e), w, lower);
  }

  /** Taking the distance d over edge e into account. */
  lemma BestStep(v: seq<Coordinate>, e: nat, best: Width, bestSeg: Option<LineSegment>, d: real)
    requires IsConvexRing(v) && 1 <= e <= |v| && IsWidthOver(v, e, d) && d >= 0.0
    requires if e == 1 then best.Infinite? else best.Squared? && BestSoFar(v, e, best.value, bestSeg)
    ensures if best.Infinite? || d < best.value
      then BestSoFar(v, e + 1, d, Some(Edge(v, e))) else BestSoFar(v, e + 1, best.value, bestSeg)
  {
    if best.Infinite? || d < best.value {
      assert IsBaseEdge(v, e, e + 1, d, Some(Edge(v, e)));
      forall b | 1 <= b <= e ensures SomeVertexAtLeast(v, b, d) {
        if b == e {
          WidthIsAtLeast(v, e, d, d);
        } else {
          assert SomeVertexAtLeast(v, b, best.value);
          LowerAtLeast(v, b, best.value, d);
        }
      }
    } else {
      var b :| IsBaseEdge(v, b, e, best.value, bestSeg);
      assert IsBaseEdge(v, b, e + 1, best.value, bestSeg);
      WidthIsAtLeast(v, e, d, best.value);
    }
  }

  /** The strips that contain a set of points are those that contain its hull. */
  lemma SameStrips(vs: seq<Coordinate>, s: seq<Coordinate>, w: real)
    requires SpansHull(vs, s) && IsNarrowest(vs, w)
    ensures IsNarrowest(s, w)
  {
    forall a, b, lo, hi ensures IsStripOf(vs, a, b, lo, hi) <==> IsStripOf(s, a, b, lo, hi) {
      SameStrip(vs, s, a, b, lo, hi);
    }
    var a, b, lo, hi :| IsStripOf(vs, a, b, lo, hi) && HasWidth(a, b, lo, hi, w);
    assert IsStripOf(s, a, b, lo, hi) && HasWidth(a, b, lo, hi, w);
  }

  lemma SameStrip(vs: seq<Coordinate>, s: seq<Coordinate>, a: int, b: int, lo: int, hi: int)
    requires SpansHull(vs, s)
    ensures InStrip(vs, a, b, lo, hi) <==> InStrip(s, a, b, lo, hi)
  {
    var upper, lower := HalfPlane(a, b, -hi), HalfPlane(-a, -b, lo);
    StripSides(vs, a, b, lo, hi);
    StripSides(s, a, b, lo, hi);
    if InStrip(s, a, b, lo, hi) {
      forall k | 0 <= k < |vs| ensures lo <= a * vs[k].x + b * vs[k].y <= hi {
        assert vs[k] in s;
        var j :| 0 <= j < |s| && s[j] == vs[k];
      }
    }
  }

  lemma StripSides(s: seq<Coordinate>, a: int, b: int, lo: int, hi: int)
    ensures InStrip(s, a, b, lo, hi) <==> HalfPlane(a, b, -hi).ContainsAll(s) && HalfPlane(-a, -b, lo).ContainsAll(s)
  {
    forall p: Coordinate
      ensures lo <= a * p.x + b * p.y <= hi <==> HalfPlane(a, b, -hi).Contains(p) && HalfPlane(-a, -b, lo).Contains(p)
    {
    }
    if HalfPlane(a, b, -hi).ContainsAll(s) && HalfPlane(-a, -b, lo).ContainsAll(s) {
      forall k | 0 <= k < |s| ensures lo <= a * s[k].x + b * s[k].y <= hi {
        assert HalfPlane(a, b, -hi).Contains(s[k]) && HalfPlane(-a, -b, lo).Contains(s[k]);
      }
    }
  }

  /** A set on one line has width zero. */
  lemma LineIsNarrow(p: Coordinate, q: Coordinate)
    requires p != q
    ensures IsNarrowest([p, q], 0.0)
  {
    var h := RightOf(p, q);
    RightOfIsTurn(p, q, p);
    RightOfIsTurn(p, q, q);
    assert IsStripOf([p, q], h.a, h.b, -h.c, -h.c) && HasWidth(h.a, h.b, -h.c, -h.c, 0.0);
    NoStripBelowZero([p, q]);
  }

  lemma PointIsNarrow(p: Coordinate)
    ensures IsNarrowest([p], 0.0)
  {
    assert IsStripOf([p], 1, 0, p.x, p.x) && HasWidth(1, 0, p.x, p.x, 0.0);
    NoStripBelowZero([p]);
  }

  lemma NoStripBelowZero(s: seq<Coordinate>)
    ensures forall a, b, lo, hi :: IsStripOf(s, a, b, lo, hi) ==> StripAtLeast(a, b, lo, hi, 0.0)
  {
    forall a, b, lo, hi | IsStripOf(s, a, b, lo, hi) ensures StripAtLeast(a, b, lo, hi, 0.0) {
      ProductNonNegative(hi - lo, hi - lo);
    }
  }

  /** The ends of seg are points of s, different if there are two, and all of s lies on one side of the line through
      them, no further than pt; if s is on one line, it lies between the ends. */
  ghost predicate IsBaseOf(seg: LineSegment, pt: Coordinate, s: seq<Coordinate>) {
    && seg.p0 in s && seg.p1 in s && (|s| >= 2 ==> seg.p0 != seg.p1)
    && (forall q {:trigger Turn(seg.p0, seg.p1, q)} :: q in s ==>
      Turn(seg.p0, seg.p1, pt) <= Turn(seg.p0, seg.p1, q) <= 0)
    && (Collinear(s) ==> SpansHull([seg.p0, seg.p1], s))
  }

  lemma PointBase(p: Coordinate)
    ensures IsBaseOf(LineSegment(p, p), p, [p])
  {
    TurnAt(p, p, p);
    SameElementsSpan([p, p], [p]);
  }

  lemma LineBase(p: Coordinate, q: Coordinate, s: seq<Coordinate>)
    requires p != q && Collinear(s) && SpansHull([p, q], s)
    ensures IsBaseOf(LineSegment(p, q), p, s)
  {
    var ends := [p, q];
    assert ends[0] in s && ends[1] in s;
    var i, j :| 0 <= i < |s| && 0 <= j < |s| && s[i] == p && s[j] == q;
    forall r | r in s ensures Turn(p, q, r) == 0 {
      var k :| 0 <= k < |s| && s[k] == r;
      assert Turn(s[i], s[j], s[k]) == 0;
    }
  }

  /** The best edge of a ring, with the vertex that is as far from it as the width says. */
  lemma RingBase(v: seq<Coordinate>, s: seq<Coordinate>, w: real, seg: LineSegment, pt: Coordinate)
    requires IsConvexRing(v) && SpansHull(v, s) && BestSoFar(v, |v| + 1, w, Some(seg))
    requires pt in v && IsDistance(seg, pt, w)
    ensures IsBaseOf(seg, pt, s)
  {
    hide Turn, Collinear, Summit, IsProfileOf, IsDistance, IsConvexRing, Dot, Minus, Height, SpansHull;
    var e :| IsBaseEdge(v, e, |v| + 1, w, Some(seg));
    var h, u := TopOver(v, e, w);
    EdgeEnds(v, e, s);
    FarPoint(v, e, h, u, pt);
    forall q | q in s ensures -Height(v, e, u) <= Turn(seg.p0, seg.p1, q) <= 0 {
      BoundedOverEdge(v, s, e, h, u, q);
    }
  }

  lemma FarPoint(v: seq<Coordinate>, e: nat, h: seq<real>, u: nat, pt: Coordinate)
    requires IsConvexRing(v) && IsTopOf(v, e, h, u) && pt in v && IsDistance(Edge(v, e), pt, h[u])
    ensures Turn(Vertex(v, e - 1), Vertex(v, e), pt) == -Height(v, e, u)
  {
    hide Turn, Height, IsDistance, ForHeight, Dot, Minus;
    var len := Dot(EdgeVector(v, e), EdgeVector(v, e));
    var k :| 0 <= k < |v| && v[k] == pt;
    HeightBounds(v, e, h, u, k);
    RightOfIsTurn(Vertex(v, e - 1), Vertex(v, e), pt);
    EdgeDistance(v, e, pt, h[u]);
    assert ForHeight(h[u], Height(v, e, u), len);
    SameHeight(h[u], Turn(Vertex(v, e - 1), Vertex(v, e), pt), Height(v, e, u), len);
  }

  lemma EdgeDistance(v: seq<Coordinate>, e: nat, p: Coordinate, d: real)
    requires 1 <= e <= |v| && IsDistance(Edge(v, e), p, d)
    ensures ForHeight(d, Turn(Vertex(v, e - 1), Vertex(v, e), p), Dot(EdgeVector(v, e), EdgeVector(v, e)))
  {
  }

  lemma SameHeight(w: real, at: int, height: int, len: int)
    requires ForHeight(w, at, len) && ForHeight(w, height, len) && -height <= at <= 0
    ensures at == -height
  {
    assert (height + at) * (height - at) == 0;
    SignOfProduct(height + at, height - at);
  }

  /** What holds of the heights of the ring holds of all points that it spans. */
  lemma BoundedOverEdge(v: seq<Coordinate>, s: seq<Coordinate>, e: nat, h: seq<real>, u: nat, q: Coordinate)
    requires IsConvexRing(v) && SpansHull(v, s) && IsTopOf(v, e, h, u) && q in s
    ensures -Height(v, e, u) <= Turn(Vertex(v, e - 1), Vertex(v, e), q) <= 0
  {
    var side, height := RightOf(Vertex(v, e - 1), Vertex(v, e)), Height(v, e, u);
    var far := HalfPlane(-side.a, -side.b, -side.c - height);
    forall k | 0 <= k < |v| ensures side.Contains(v[k]) && far.Contains(v[k]) {
      HeightBounds(v, e, h, u, k);
      Opposite(side, height, v[k]);
    }
    var j :| 0 <= j < |s| && s[j] == q;
    assert side.ContainsAll(s) && far.ContainsAll(s);
    Opposite(side, height, q);
    RightOfIsTurn(Vertex(v, e - 1), Vertex(v, e), q);
  }

  lemma Opposite(side: HalfPlane, height: int, p: Coordinate)
    ensures HalfPlane(-side.a, -side.b, -side.c - height).At(p) == -side.At(p) - height
  {
  }

  lemma TopOver(v: seq<Coordinate>, e: nat, w: real) returns (h: seq<real>, u: nat)
    requires IsWidthOver(v, e, w)
    ensures IsTopOf(v, e, h, u) && u < |h| && w == h[u]
  {
    h, u :| IsTopOf(v, e, h, u) && w == h[u];
  }

  lemma EdgeEnds(v: seq<Coordinate>, e: nat, s: seq<Coordinate>)
    requires IsConvexRing(v) && SpansHull(v, s) && 1 <= e <= |v|
    ensures Edge(v, e).p0 in s && Edge(v, e).p1 in s && Edge(v, e).p0 != Edge(v, e).p1 && !Collinear(s)
  {
    EdgeIsProper(v, e);
    NotCollinear(v, s);
  }

  class MinimumDiameter {
    const inputPts: seq<Coordinate>
    var minWidth: Width
    var minPtIndex: nat
    var minWidthPt: Option<Coordinate>
    var minBaseSeg: Option<LineSegment>

    constructor (pts: seq<Coordinate>)
      ensures inputPts == pts && minWidthPt == None
    {
      inputPts := pts;
      minWidth := Squared(0.0);
      minPtIndex := 0;
      minWidthPt := None;
      minBaseSeg := Some(LineSegment(Coordinate(0, 0), Coordinate(0, 0)));
    }

    /** Finds the vertex farthest from the segment, starting the climb at startIndex, and records its distance if
        it is the least so far. */
    method FindMaxPerpDistance(pts: seq<Coordinate>, seg: LineSegment, startIndex: nat,
                               ghost e: nat, ghost h: seq<real>, ghost u: nat)
      returns (maxIndex: nat, ghost top: nat, ghost d: real)
      requires |pts| > 3 && 1 <= e < |pts| && Profile(h, e, |pts| - 1) && Measures(h, seg, pts)
      requires e <= u < e + |pts| - 2 && AtPosition(startIndex, u, |pts| - 1) && Summit(h, e, u, u)
      modifies this
      ensures u <= top && e < top < e + |pts| - 2 && AtPosition(maxIndex, top, |pts| - 1)
      ensures Summit(h, e, e + |pts| - 2, top) && d == h[top]
      ensures if old(minWidth).Infinite? || d < old(minWidth).value
        then
          && minWidth == Squared(d) && minPtIndex == maxIndex
          && minWidthPt == Some(pts[maxIndex]) && minBaseSeg == Some(seg)
        else
          && minWidth == old(minWidth) && minPtIndex == old(minPtIndex)
          && minWidthPt == old(minWidthPt) && minBaseSeg == old(minBaseSeg)
    {
      var maxPerpDistance;
      maxIndex, maxPerpDistance, top := ClimbToMax(pts, seg, startIndex, e, h, u);
      d := maxPerpDistance;
      if minWidth.Infinite? || maxPerpDistance < minWidth.value {
        minPtIndex := maxIndex;
        minWidth := Squared(maxPerpDistance);
        minWidthPt := Some(pts[minPtIndex]);
        minBaseSeg := Some(seg);
      }
    }

    /** The best of the edges before edge e is recorded. */
    ghost predicate BestBefore(v: seq<Coordinate>, e: nat)
      reads this
    {
      if e == 1 then minWidth.Infinite?
      else
        && minWidth.Squared? && BestSoFar(v, e, minWidth.value, minBaseSeg)
        && minWidthPt.Some? && minWidthPt.value in v
        && minBaseSeg.Some? && IsDistance(minBaseSeg.value, minWidthPt.value, minWidth.value)
    }

    /** The body of the loop over the edges: takes edge e into account. */
    method TakeEdge(pts: seq<Coordinate>, ghost v: seq<Coordinate>, e: nat, startIndex: nat,
                    ghost h: seq<real>, ghost u: nat)
      returns (maxIndex: nat, ghost top: nat)
      requires IsConvexRing(v) && pts == v + [v[0]] && 1 <= e < |pts|
      requires ReadyForEdge(v, e, startIndex, h, u) && BestBefore(v, e)
      modifies this
      ensures BestBefore(v, e + 1)
      ensures u <= top && e < top < e + |v| - 1 && AtPosition(maxIndex, top, |v|) && Summit(h, e, e + |v| - 1, top)
    {
      var seg := LineSegment(pts[e - 1], pts[e]);
      assert seg == Edge(v, e);
      EdgeMeasures(v, e, h);
      ghost var best, bestSeg := minWidth, minBaseSeg;
      ghost var d;
      maxIndex, top, d := FindMaxPerpDistance(pts, seg, startIndex, e, h, u);
      EdgeDone(v, e, h, top, pts, maxIndex);
      BestStep(v, e, best, bestSeg, d);
      assert pts[maxIndex] in v;
    }

    /** For a closed strictly convex ring: the minimum over the edges of the maximal distance from the edge, which
        is the width of the narrowest strip. */
    method ComputeConvexRingMinDiameter(pts: seq<Coordinate>, ghost v: seq<Coordinate>)
      requires IsConvexRing(v) && pts == v + [v[0]]
      modifies this
      ensures minWidth.Squared? && IsNarrowest(v, minWidth.value)
      ensures BestSoFar(v, |v| + 1, minWidth.value, minBaseSeg)
      ensures minWidthPt.Some? && minWidthPt.value in v && minBaseSeg.Some? &&
        IsDistance(minBaseSeg.value, minWidthPt.value, minWidth.value)
    {
      minWidth := Infinite;
      var currMaxIndex := 1;
      var npts := |pts|;
      ghost var u: nat := 1;
      ghost var h := EdgeProfile(v, 1);
      var i := 1;
      while i < npts
        invariant 1 <= i <= npts
        invariant i < npts ==> ReadyForEdge(v, i, currMaxIndex, h, u)
        invariant BestBefore(v, i)
      {
        ghost var top;
        currMaxIndex, top := TakeEdge(pts, v, i, currMaxIndex, h, u);
        if i < |v| {
          ghost var g := EdgeProfile(v, i + 1);
          SummitForNext(v, i, top, h, g);
          h, u := g, top;
        }
        i := i + 1;
      }
      BestIsNarrowest(v, minWidth.value, minBaseSeg);
    }

    /** The width information of a convex geometry given by its coordinates. */
    method ComputeWidthConvex(geom: Geometry, ghost s: seq<Coordinate>)
      requires IsHullOf(geom, s)
      modifies this
      ensures if s == [] then minWidthPt == None && minBaseSeg == None && minWidth == Squared(0.0)
        else IsMinimumOf(s)
    {
      var pts := match geom
        case EmptyGeometry => []
        case Point(p) => [p]
        case LineString(cs) => cs
        case Polygon(shell) => shell;
      if |pts| == 0 {
        minWidth := Squared(0.0);
        minWidthPt := None;
        minBaseSeg := None;
      } else if |pts| == 1 {
        minWidth := Squared(0.0);
        minWidthPt := Some(pts[0]);
        minBaseSeg := Some(LineSegment(pts[0], pts[0]));
        PointIsNarrow(pts[0]);
        PointBase(pts[0]);
      } else if |pts| == 2 || |pts| == 3 {
        minWidth := Squared(0.0);
        minWidthPt := Some(pts[0]);
        minBaseSeg := Some(LineSegment(pts[0], pts[1]));
        assert pts == [pts[0], pts[1]];
        LineIsNarrow(pts[0], pts[1]);
        SameStrips(pts, s, 0.0);
        LineBase(pts[0], pts[1], s);
      } else {
        ComputeHullRing(pts, s);
      }
    }

    /** The width of the ring of a hull is that of the points it is the hull of. */
    method ComputeHullRing(pts: seq<Coordinate>, ghost s: seq<Coordinate>)
      requires IsHullRing(pts, s)
      modifies this
      ensures IsMinimumOf(s)
    {
      ghost var v := pts[..|pts| - 1];
      assert pts == v + [v[0]];
      ComputeConvexRingMinDiameter(pts, v);
      OpenRingSpans(v, pts, s);
      SameStrips(v, s, minWidth.value);
      RingBase(v, s, minWidth.value, minBaseSeg.value, minWidthPt.value);
    }

    /** The recorded width is that of the narrowest strip of s, which runs along the recorded segment on one side and
        through the recorded vertex on the other. */
    ghost predicate IsMinimumOf(s: seq<Coordinate>)
      reads this
    {
      && minWidth.Squared? && IsNarrowest(s, minWidth.value)
      && minWidthPt.Some? && minWidthPt.value in s && minBaseSeg.Some?
      && IsDistance(minBaseSeg.value, minWidthPt.value, minWidth.value)
      && IsBaseOf(minBaseSeg.value, minWidthPt.value, s)
    }

    /** The minimum diameter of the input points, by way of their convex hull. */
    method ComputeMinimumDiameter()
      requires Distinct(inputPts)
      requires minWidthPt.Some? ==> IsMinimumOf(inputPts)
      modifies this
      ensures inputPts != [] ==> IsMinimumOf(inputPts)
      ensures inputPts == [] ==> minWidthPt == None
    {
      if minWidthPt.Some? {
        assert minWidthPt.value in inputPts;
        return;
      }
      var ch := new ConvexHull(inputPts);
      var convexGeom := ch.GetConvexHull();
      ComputeWidthConvex(convexGeom, inputPts);
    }
  }

  lemma OpenRingSpans(v: seq<Coordinate>, ring: seq<Coordinate>, s: seq<Coordinate>)
    requires v != [] && ring == v + [v[0]] && SpansHull(ring, s)
    ensures SpansHull(v, s)
  {
    forall k | 0 <= k < |v| ensures v[k] in s { assert v[k] == ring[k]; }
    forall h: HalfPlane | h.ContainsAll(v) ensures h.ContainsAll(s) {
      assert h.ContainsAll(ring);
    }
  }

  /** The climb over edge e can start at the given index. */
  ghost predicate ReadyForEdge(v: seq<Coordinate>, e: nat, index: nat, h: seq<real>, u: nat) {
    && IsProfileOf(h, v, e) && Profile(h, e, |v|) && e <= u < e + |v| - 1
    && AtPosition(index, u, |v|) && Summit(h, e, u, u)
  }

  lemma EdgeDone(v: seq<Coordinate>, e: nat, h: seq<real>, u: nat, pts: seq<Coordinate>, i: nat)
    requires IsConvexRing(v) && pts == v + [v[0]] && IsProfileOf(h, v, e) && e <= u < e + |v| && AtPosition(i, u, |v|)
    requires Summit(h, e, e + |v| - 1, u)
    ensures IsWidthOver(v, e, h[u]) && h[u] >= 0.0 && IsDistance(Edge(v, e), pts[i], h[u])
  {
    assert IsTopOf(v, e, h, u);
    assert pts[i] == Vertex(v, u);
    ProfileOrder(h, v, e, u, u);
    assert ForHeight(h[u], Height(v, e, u), Dot(EdgeVector(v, e), EdgeVector(v, e)));
    MeasuredDistance(v, e, u, h[u], h[u]);
  }
}
