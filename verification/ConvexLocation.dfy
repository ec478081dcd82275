/** Locating a point relative to a strictly convex clockwise ring: by its sides alone. */
module ConvexLocation {
  import opened Plane
  import opened CGAlgorithms
  import opened Calipers
  import opened Segments
  import opened LineIntersector
  import opened PointInRing
  import opened RingArea

  /** On which side of edge e the point lies: negative to the right. */
  function EdgeSide(v: seq<Coordinate>, e: nat, p: Coordinate): int
    requires 1 <= e <= |v|
  {
    Turn(Vertex(v, e - 1), Vertex(v, e), p)
  }

  ghost predicate RightOfAll(v: seq<Coordinate>, p: Coordinate) {
    forall e {:trigger EdgeSide(v, e, p)} :: 1 <= e <= |v| ==> EdgeSide(v, e, p) <= 0
  }

  ghost predicate StrictlyRightOfAll(v: seq<Coordinate>, p: Coordinate) {
    forall e {:trigger EdgeSide(v, e, p)} :: 1 <= e <= |v| ==> EdgeSide(v, e, p) < 0
  }

  /** The neighbours of an edge, as edges of the ring. */
  function EdgeBefore(v: seq<Coordinate>, e: nat): nat
    requires 1 <= e <= |v|
  {
    if e == 1 then |v| else e - 1
  }

  function EdgeAfter(v: seq<Coordinate>, e: nat): nat
    requires 1 <= e <= |v|
  {
    if e == |v| then 1 else e + 1
  }

  // --- A point strictly to the right of all edges

  lemma {:induction false} Extreme(h: HalfPlane, v: seq<Coordinate>, n: nat) returns (j: nat)
    requires 0 < n <= |v|
    ensures j < n && forall k {:trigger v[k]} :: 0 <= k < n ==> h.At(v[k]) <= h.At(v[j])
  {
    if n == 1 {
      j := 0;
    } else {
      j := Extreme(h, v, n - 1);
      if h.At(v[n - 1]) > h.At(v[j]) { j := n - 1; }
    }
  }

  /** In every direction some vertex reaches further than the point. */
  lemma Surpassed(h: HalfPlane, v: seq<Coordinate>, p: Coordinate) returns (j: nat)
    requires IsConvexRing(v) && StrictlyRightOfAll(v, p) && (h.a != 0 || h.b != 0)
    ensures j < |v| && h.At(v[j]) > h.At(p)
  {
    j := Extreme(h, v, |v|);
    var e := if j == 0 then |v| else j;
    var t, u, w := Vertex(v, e - 1), Vertex(v, e), Vertex(v, e + 1);
    assert u == v[j];
    CyclicTurn(v, e - 1, e, e + 1);
    assert EdgeSide(v, e, p) < 0 && EdgeSide(v, EdgeAfter(v, e), p) < 0;
    CornerSurpasses(h, t, u, w, p);
  }

  lemma CornerSurpasses(h: HalfPlane, t: Coordinate, u: Coordinate, w: Coordinate, p: Coordinate)
    requires h.a != 0 || h.b != 0
    requires Turn(t, u, w) < 0 && Turn(t, u, p) < 0 && Turn(u, w, p) < 0
    requires h.At(t) <= h.At(u) && h.At(w) <= h.At(u)
    ensures h.At(u) > h.At(p)
  {
    Barycentric(h, t, u, w, p);
    TurnCyclic(p, u, w);
    var a, b, d := Turn(u, w, p), Turn(t, u, p), Turn(t, u, w);
    var x, y, z := h.At(t) - h.At(u), h.At(w) - h.At(u), h.At(p) - h.At(u);
    FromApex(d, a, Turn(t, p, w), b, h.At(p), h.At(t), h.At(u), h.At(w));
    assert d * z == a * x + b * y;
    if x == 0 && y == 0 {
      FlatCorner(h, t, u, w);
    } else {
      NegativeSum(a, x, b, y);
      SignOfProduct(d, z);
    }
  }

  lemma FromApex(d: int, a: int, c: int, b: int, hp: int, ht: int, hu: int, hw: int)
    requires d == a + c + b && d * hp == a * ht + c * hu + b * hw
    ensures d * (hp - hu) == a * (ht - hu) + b * (hw - hu)
  {
  }

  lemma NegativeSum(a: int, x: int, b: int, y: int)
    requires a < 0 && b < 0 && x <= 0 && y <= 0 && (x != 0 || y != 0)
    ensures a * x + b * y > 0
  {
    SignOfProduct(a, x);
    SignOfProduct(b, y);
  }

  /** If both neighbours lie level with a vertex, the corner is flat. */
  lemma FlatCorner(h: HalfPlane, t: Coordinate, u: Coordinate, w: Coordinate)
    requires (h.a != 0 || h.b != 0) && h.At(t) == h.At(u) == h.At(w)
    ensures Turn(t, u, w) == 0
  {
    var x1, y1, x2, y2 := u.x - t.x, u.y - t.y, w.x - u.x, w.y - u.y;
    assert h.a * x1 + h.b * y1 == 0 && h.a * x2 + h.b * y2 == 0;
    assert h.a * Det(x1, y1, x2, y2) == (h.a * x1 + h.b * y1) * y2 - (h.a * x2 + h.b * y2) * y1;
    assert h.b * Det(x1, y1, x2, y2) == (h.a * x2 + h.b * y2) * x1 - (h.a * x1 + h.b * y1) * x2;
    SignOfProduct(h.a, Det(x1, y1, x2, y2));
    SignOfProduct(h.b, Det(x1, y1, x2, y2));
  }

  // --- Its ray is crossed once

  /** The ring comes down through the level of p with its segment k. */
  predicate Down(p: Coordinate, ring: seq<Coordinate>, k: nat)
    requires 1 <= k < |ring|
  {
    ring[k - 1].y > p.y && ring[k].y <= p.y
  }

  lemma {:induction false} Descent(p: Coordinate, ring: seq<Coordinate>, a: nat, b: nat) returns (k: nat)
    requires a <= b < |ring| && ring[a].y > p.y && ring[b].y <= p.y
    ensures a < k <= b && Down(p, ring, k)
  {
    if ring[b - 1].y > p.y { k := b; } else { k := Descent(p, ring, a, b - 1); }
  }

  /** A closed ring that has points on both sides of the level of p comes down through it. */
  lemma SomeDescent(p: Coordinate, ring: seq<Coordinate>, a: nat, b: nat) returns (k: nat)
    requires IsClosed(ring) && a < |ring| && b < |ring| && ring[a].y > p.y && ring[b].y <= p.y
    ensures 1 <= k < |ring| && Down(p, ring, k)
  {
    if a <= b {
      k := Descent(p, ring, a, b);
    } else if ring[0].y > p.y {
      k := Descent(p, ring, 0, b);
    } else {
      k := Descent(p, ring, a, |ring| - 1);
    }
  }

  /** The diagonals of a convex quadrilateral meet: two opposite corners cannot lie above a line with the others
      below. */
  lemma NoZigzag(h: HalfPlane, a: Coordinate, b: Coordinate, c: Coordinate, d: Coordinate)
    requires Turn(a, b, c) < 0 && Turn(a, b, d) < 0 && Turn(a, c, d) < 0 && Turn(b, c, d) < 0
    requires h.At(a) > 0 && h.At(c) > 0
    ensures h.At(b) > 0 || h.At(d) > 0
  {
    if h.At(b) <= 0 && h.At(d) <= 0 {
      var s, t, u, w := Turn(b, c, d), Turn(a, c, d), Turn(a, b, d), Turn(a, b, c);
      Quadrilateral(h, a, b, c, d);
      SignOfProduct(s, h.At(a));
      SignOfProduct(u, h.At(c));
      ProductNonNegative(t, h.At(b));
      ProductNonNegative(w, h.At(d));
    }
  }

  lemma Quadrilateral(h: HalfPlane, a: Coordinate, b: Coordinate, c: Coordinate, d: Coordinate)
    ensures Turn(b, c, d) * h.At(a) + Turn(a, b, d) * h.At(c) == Turn(a, c, d) * h.At(b) + Turn(a, b, c) * h.At(d)
  {
    Barycentric(h, a, b, c, d);
    TurnCyclic(d, b, c); TurnCyclic(a, d, c); TurnCyclic(c, d, a);
  }

  /** A strictly convex ring comes down through a level once at most. */
  lemma OneDescent(p: Coordinate, v: seq<Coordinate>, i: nat, j: nat)
    requires IsConvexRing(v) && 1 <= i < j <= |v| && Down(p, Closed(v), i)
    ensures !Down(p, Closed(v), j)
  {
    var ring, n := Closed(v), |v|;
    if Down(p, ring, j) {
      assert ring[n] == ring[0];
      assert i < j - 1 && j < i - 1 + n;
      var a, b, c, d := Vertex(v, i - 1), Vertex(v, i), Vertex(v, j - 1), Vertex(v, j);
      assert ring[i - 1] == a && ring[i] == b && ring[j - 1] == c && ring[j] == d;
      CyclicTurn(v, i - 1, i, j - 1);
      CyclicTurn(v, i - 1, i, j);
      CyclicTurn(v, i - 1, j - 1, j);
      CyclicTurn(v, i, j - 1, j);
      NoZigzag(HalfPlane(0, 1, -p.y), a, b, c, d);
    }
  }

  /** From the right of an edge, the ray meets it exactly if it comes down. */
  lemma CrossesDown(p: Coordinate, u: Coordinate, w: Coordinate)
    requires Turn(u, w, p) < 0
    ensures CrossesRay(p, w, u) <==> u.y > p.y && w.y <= p.y
  {
    TurnAt(p, w, u);
    TurnCyclic(p, w, u);
    TurnCyclic(u, w, p);
  }

  /** Segment k crosses the ray from p. */
  ghost predicate Crossed(p: Coordinate, ring: seq<Coordinate>, k: nat)
    requires 1 <= k < |ring|
  {
    CrossesRay(p, ring[k], ring[k - 1])
  }

  ghost predicate CrossedOnly(p: Coordinate, ring: seq<Coordinate>, i: nat) {
    forall k {:trigger Crossed(p, ring, k)} :: 1 <= k < |ring| ==> (Crossed(p, ring, k) <==> k == i)
  }

  lemma {:induction false} OneCrossing(p: Coordinate, ring: seq<Coordinate>, i: nat, n: nat)
    requires 1 <= i < |ring| && n <= |ring| && CrossedOnly(p, ring, i)
    ensures Crossings(p, ring, n) == if n > i then 1 else 0
  {
    if n > 1 {
      OneCrossing(p, ring, i, n - 1);
      assert Crossed(p, ring, n - 1) <==> n - 1 == i;
    }
  }

  lemma CrossedAt(v: seq<Coordinate>, p: Coordinate, i: nat, k: nat)
    requires IsConvexRing(v) && StrictlyRightOfAll(v, p) && 1 <= i <= |v| && 1 <= k <= |v| && Down(p, Closed(v), i)
    ensures Crossed(p, Closed(v), k) <==> k == i
  {
    var u, w := Closed(v)[k - 1], Closed(v)[k];
    assert u == Vertex(v, k - 1) && w == Vertex(v, k);
    assert EdgeSide(v, k, p) < 0;
    CrossesDown(p, u, w);
    if k < i && Down(p, Closed(v), k) {
      OneDescent(p, v, k, i);
    } else if i < k {
      OneDescent(p, v, i, k);
    }
  }

  lemma AboveAndBelow(v: seq<Coordinate>, p: Coordinate) returns (a: nat, b: nat)
    requires IsConvexRing(v) && StrictlyRightOfAll(v, p)
    ensures a < |v| && b < |v| && v[a].y > p.y && v[b].y < p.y
  {
    a := Surpassed(HalfPlane(0, 1, 0), v, p);
    b := Surpassed(HalfPlane(0, -1, 0), v, p);
  }

  /** The ray of a point strictly to the right of all edges is crossed exactly once. */
  lemma InsideCrossesOnce(v: seq<Coordinate>, p: Coordinate)
    requires IsConvexRing(v) && StrictlyRightOfAll(v, p)
    ensures Crossings(p, Closed(v), |v| + 1) == 1
  {
    var ring := Closed(v);
    var a, b := AboveAndBelow(v, p);
    var i := SomeDescent(p, ring, a, b);
    forall k {:trigger Crossed(p, ring, k)} | 1 <= k < |ring| ensures Crossed(p, ring, k) <==> k == i {
      CrossedAt(v, p, i, k);
    }
    OneCrossing(p, ring, i, |ring|);
  }

  // --- Points on the ring

  /** The ring lies to the right of each of its edges. */
  lemma RingIsRight(v: seq<Coordinate>, e: nat, k: nat)
    requires IsConvexRing(v) && 1 <= e <= |v| && k < |v|
    ensures EdgeSide(v, e, v[k]) <= 0
  {
    var i := if k >= e then k else k + |v|;
    assert Vertex(v, i) == v[k];
    HeightPositive(v, e, i);
  }

  lemma EnclosedIsRight(v: seq<Coordinate>, p: Coordinate)
    requires IsConvexRing(v) && Encloses(Closed(v), [p])
    ensures RightOfAll(v, p)
  {
    forall e {:trigger EdgeSide(v, e, p)} | 1 <= e <= |v| ensures EdgeSide(v, e, p) <= 0 {
      var h := RightOf(Vertex(v, e - 1), Vertex(v, e));
      forall k | 0 <= k < |Closed(v)| ensures h.Contains(Closed(v)[k]) {
        RingIsRight(v, e, if k < |v| then k else 0);
        RightOfIsTurn(Vertex(v, e - 1), Vertex(v, e), Closed(v)[k]);
      }
      assert h.ContainsAll([p]) && [p][0] == p;
      RightOfIsTurn(Vertex(v, e - 1), Vertex(v, e), p);
    }
  }

  /** On the line of an edge, and to the right of both neighbouring edges, there is only the edge. */
  lemma OnLineOfEdge(t: Coordinate, u: Coordinate, w: Coordinate, x: Coordinate, p: Coordinate)
    requires Turn(t, u, w) < 0 && Turn(w, x, u) < 0
    requires Turn(u, w, p) == 0 && Turn(t, u, p) <= 0 && Turn(w, x, p) <= 0
    ensures OnSegment(Real(p), Real(u), Real(w))
  {
    SideOfCoordinates(u, w, p); SideOfCoordinates(t, u, p); SideOfCoordinates(w, x, p);
    SideOfCoordinates(t, u, w); SideOfCoordinates(w, x, u);
    TurnAt(t, u, w);
    assert u != w;
    var s := Fraction(Real(u), Real(w), Real(p));
    NotBefore(Real(t), Real(u), Real(w), s, Real(p));
    NotAfter(Real(u), Real(w), Real(x), s, Real(p));
  }

  lemma NotBefore(t: RealPoint, u: RealPoint, w: RealPoint, s: real, p: RealPoint)
    requires p == Along(u, w, s) && Side(t, u, w) < 0.0 && Side(t, u, p) <= 0.0
    ensures s >= 0.0
  {
    SideAlong(t, u, u, w, s);
    OwnEnds(t, u);
    WithoutNull(1.0 - s, Side(t, u, u), s, Side(t, u, w), Side(t, u, p));
    FactorNonNegative(s, Side(t, u, w));
  }

  lemma NotAfter(u: RealPoint, w: RealPoint, x: RealPoint, s: real, p: RealPoint)
    requires p == Along(u, w, s) && Side(w, x, u) < 0.0 && Side(w, x, p) <= 0.0
    ensures s <= 1.0
  {
    SideAlong(w, x, u, w, s);
    OwnEnds(w, x);
    WithoutNull(s, Side(w, x, w), 1.0 - s, Side(w, x, u), Side(w, x, p));
    FactorNonNegative(1.0 - s, Side(w, x, u));
  }

  lemma OwnEnds(a: RealPoint, b: RealPoint)
    ensures Side(a, b, a) == 0.0 && Side(a, b, b) == 0.0
  {
  }

  lemma WithoutNull(m: real, x: real, s: real, y: real, z: real)
    requires z == m * x + s * y && x == 0.0
    ensures z == s * y
  {
  }

  lemma FactorNonNegative(s: real, d: real)
    requires d < 0.0 && s * d <= 0.0
    ensures s >= 0.0
  {
    if s < 0.0 { RealProductSign(-s, -d); }
  }

  lemma TouchingIsOnRing(v: seq<Coordinate>, p: Coordinate, e: nat)
    requires IsConvexRing(v) && RightOfAll(v, p) && 1 <= e <= |v| && EdgeSide(v, e, p) == 0
    ensures OnRing(p, Closed(v))
  {
    var f, g := EdgeBefore(v, e), EdgeAfter(v, e);
    var t, u, w, x := AroundEdge(v, e);
    assert EdgeSide(v, f, p) <= 0 && EdgeSide(v, g, p) <= 0;
    OnLineOfEdge(t, u, w, x, p);
    assert OnEdge(p, Closed(v), e);
  }

  /** The ends u and w of an edge, with the vertices before and after them. */
  lemma AroundEdge(v: seq<Coordinate>, e: nat) returns (t: Coordinate, u: Coordinate, w: Coordinate, x: Coordinate)
    requires IsConvexRing(v) && 1 <= e <= |v|
    ensures u == Vertex(v, e - 1) == Vertex(v, EdgeBefore(v, e)) && w == Vertex(v, e) == Vertex(v, EdgeAfter(v, e) - 1)
    ensures t == Vertex(v, EdgeBefore(v, e) - 1) && x == Vertex(v, EdgeAfter(v, e))
    ensures Turn(t, u, w) < 0 && Turn(w, x, u) < 0
  {
    var f, g := EdgeBefore(v, e), EdgeAfter(v, e);
    t, u, w, x := Vertex(v, f - 1), Vertex(v, e - 1), Vertex(v, e), Vertex(v, g);
    assert Vertex(v, f + 1) == w && Vertex(v, e + 1) == x;
    CyclicTurn(v, f - 1, f, f + 1);
    CyclicTurn(v, e - 1, e, e + 1);
    TurnCyclic(u, w, x);
  }

  lemma WeightedSides(s: real, x: real, y: real)
    requires 0.0 <= s <= 1.0 && x <= 0.0 && y <= 0.0
    ensures (1.0 - s) * x + s * y <= 0.0
  {
    RealProductSign(x, 1.0 - s);
    RealProductSign(y, s);
  }

  /** A point of the ring is to the right of all edges, but not strictly. */
  lemma OnRingTouches(v: seq<Coordinate>, p: Coordinate)
    requires IsConvexRing(v) && OnRing(p, Closed(v))
    ensures RightOfAll(v, p) && !StrictlyRightOfAll(v, p)
  {
    var ring := Closed(v);
    var i :| 1 <= i < |ring| && OnEdge(p, ring, i);
    assert ring[i - 1] == Vertex(v, i - 1) && ring[i] == Vertex(v, i);
    SideOnLine(Real(ring[i - 1]), Real(ring[i]), Real(p));
    SideOfCoordinates(ring[i - 1], ring[i], p);
    assert EdgeSide(v, i, p) == 0;
    forall e {:trigger EdgeSide(v, e, p)} | 1 <= e <= |v| ensures EdgeSide(v, e, p) <= 0 {
      RingIsRight(v, e, i - 1);
      RingIsRight(v, e, if i < |v| then i else 0);
      PointBetween(Vertex(v, e - 1), Vertex(v, e), ring[i - 1], ring[i], p);
    }
  }

  lemma PointBetween(a: Coordinate, b: Coordinate, u: Coordinate, w: Coordinate, p: Coordinate)
    requires OnSegment(Real(p), Real(u), Real(w)) && Turn(a, b, u) <= 0 && Turn(a, b, w) <= 0
    ensures Turn(a, b, p) <= 0
  {
    var s :| 0.0 <= s <= 1.0 && Real(p) == Along(Real(u), Real(w), s);
    SideAlong(Real(a), Real(b), Real(u), Real(w), s);
    SideOfCoordinates(a, b, p); SideOfCoordinates(a, b, u); SideOfCoordinates(a, b, w);
    WeightedSides(s, Side(Real(a), Real(b), Real(u)), Side(Real(a), Real(b), Real(w)));
  }

  /** On strictly convex clockwise rings the locators decide by the sides of the edges: inside strictly to the right of
      all, on the boundary to the right of all but not strictly, outside to the left of some. */
  lemma LocationBySides(v: seq<Coordinate>, p: Coordinate)
    requires IsConvexRing(v)
    ensures LocationInRing(p, Closed(v)) == Interior <==> StrictlyRightOfAll(v, p)
    ensures LocationInRing(p, Closed(v)) == Boundary <==> RightOfAll(v, p) && !StrictlyRightOfAll(v, p)
    ensures LocationInRing(p, Closed(v)) == Exterior <==> !RightOfAll(v, p)
  {
    if OnRing(p, Closed(v)) {
      OnRingTouches(v, p);
    } else if StrictlyRightOfAll(v, p) {
      InsideCrossesOnce(v, p);
    } else {
      if RightOfAll(v, p) {
        var e :| 1 <= e <= |v| && EdgeSide(v, e, p) == 0;
        TouchingIsOnRing(v, p, e);
      }
      if Crossings(p, Closed(v), |v| + 1) % 2 == 1 {
        OddCrossingsAreEnclosed(p, Closed(v));
        EnclosedIsRight(v, p);
      }
    }
  }
}
