/** The centroid of areas, as the weighted sum of the centroids of triangles over a base point. */
module CentroidAreas {
  import opened CGAlgorithms
  import opened GrahamScan
  import opened Plane
  import opened Reals
  import opened RingArea
  import opened Segments
  import opened Wrappers

  datatype Geometry =
    | Polygon(shell: seq<Coordinate>, holes: seq<seq<Coordinate>>)
    | GeometryCollection(parts: seq<Geometry>)
    | NoArea

  /** A ring that isCCW accepts. */
  ghost predicate IsRing(ring: seq<Coordinate>) {
    IsClosed(ring) && |ring| >= 2
  }

  ghost predicate Proper(g: Geometry) {
    match g
    case Polygon(shell, holes) => IsRing(shell) && forall i :: 0 <= i < |holes| ==> IsRing(holes[i])
    case GeometryCollection(parts) => forall i :: 0 <= i < |parts| ==> Proper(parts[i])
    case NoArea => true
  }

  // --- Moments

  /** The moment of the triangle p, q, r with respect to the affine form h: six times its signed area times the value
      of h at its centroid. */
  ghost function Moment(h: HalfPlane, p: Coordinate, q: Coordinate, r: Coordinate): int {
    Turn(p, q, r) * (h.At(p) + h.At(q) + h.At(r))
  }

  /** The moment of a quadrilateral is the same however it is cut into triangles. */
  lemma FourMoments(h: HalfPlane, p: Coordinate, q: Coordinate, r: Coordinate, s: Coordinate)
    ensures Moment(h, p, q, r) + Moment(h, p, r, s) == Moment(h, p, q, s) + Moment(h, q, r, s)
  {
    FourPoints(p, q, r, s);
    BarycentricFourth(h, p, q, r, s);
    MomentOf(h, p, q, r); MomentOf(h, p, r, s); MomentOf(h, p, q, s); MomentOf(h, q, r, s);
    FromSums(Moment(h, p, q, r), Moment(h, p, r, s), Moment(h, p, q, s), Moment(h, q, r, s),
             Turn(q, r, s), Turn(p, r, s), Turn(p, q, s), Turn(p, q, r), h.At(p), h.At(q), h.At(r), h.At(s));
  }

  lemma MomentOf(h: HalfPlane, p: Coordinate, q: Coordinate, r: Coordinate)
    ensures Moment(h, p, q, r) == Turn(p, q, r) * (h.At(p) + h.At(q) + h.At(r))
  {
  }

  lemma FromSums(pqr: int, prs: int, pqs: int, qrs: int, a: int, b: int, c: int, d: int, x: int, y: int, z: int, w: int)
    requires pqr == d * (x + y + z) && prs == b * (x + z + w) && pqs == c * (x + y + w) && qrs == a * (y + z + w)
    requires d + b == c + a && d * w == a * x - b * y + c * z
    ensures pqr + prs == pqs + qrs
  {
    BalancedSums(a, b, c, d, x, y, z, w);
  }

  lemma BarycentricFourth(h: HalfPlane, p: Coordinate, q: Coordinate, r: Coordinate, s: Coordinate)
    ensures Turn(p, q, r) * h.At(s) == Turn(q, r, s) * h.At(p) - Turn(p, r, s) * h.At(q) + Turn(p, q, s) * h.At(r)
  {
    Barycentric(h, p, q, r, s);
    TurnCyclic(s, q, r);
    TurnCyclic(p, s, r);
    TurnCyclic(r, p, s);
    NegatedProduct(Turn(p, r, s), h.At(q));
  }

  lemma BalancedSums(a: int, b: int, c: int, d: int, x: int, y: int, z: int, w: int)
    requires d + b == c + a && d * w == a * x - b * y + c * z
    ensures d * (x + y + z) + b * (x + z + w) == c * (x + y + w) + a * (y + z + w)
  {
    var t := x + y + z + w;
    assert (d + b) * t == (c + a) * t;
    assert d * (t - w) + b * (t - y) == c * (t - z) + a * (t - x);
  }

  /** The moment swept from base along the first n segments of the ring. */
  ghost function SweptMoment(h: HalfPlane, base: Coordinate, ring: seq<Coordinate>, n: nat): int
    requires n < |ring|
  {
    if n == 0 then 0 else SweptMoment(h, base, ring, n - 1) + Moment(h, base, ring[n - 1], ring[n])
  }

  lemma {:induction false} MovedMoment(h: HalfPlane, base: Coordinate, base': Coordinate, ring: seq<Coordinate>, n: nat)
    requires n < |ring|
    ensures SweptMoment(h, base, ring, n) - SweptMoment(h, base', ring, n)
         == Moment(h, base, ring[0], base') - Moment(h, base, ring[n], base')
  {
    if n > 0 {
      MovedMoment(h, base, base', ring, n - 1);
      FourMoments(h, base, ring[n - 1], ring[n], base');
      MomentCyclic(h, base', ring[n - 1], ring[n]);
    }
  }

  lemma MomentCyclic(h: HalfPlane, p: Coordinate, q: Coordinate, r: Coordinate)
    ensures Moment(h, q, r, p) == Moment(h, p, q, r) == -Moment(h, p, r, q)
  {
    TurnCyclic(p, q, r);
    TurnCyclic(r, p, q);
    NegatedProduct(Turn(p, q, r), h.At(p) + h.At(q) + h.At(r));
  }

  lemma NegatedProduct(a: int, b: int)
    ensures (-a) * b == -(a * b)
  {
  }

  /** The moment of a closed ring does not depend on the base point. */
  lemma BaseIsFree(h: HalfPlane, base: Coordinate, base': Coordinate, ring: seq<Coordinate>)
    requires IsClosed(ring)
    ensures SweptMoment(h, base, ring, |ring| - 1) == SweptMoment(h, base', ring, |ring| - 1)
  {
    MovedMoment(h, base, base', ring, |ring| - 1);
  }

  // --- Totals

  /** Twice an area, and its moments with respect to the axes. */
  datatype Totals = Totals(area2: int, mx: int, my: int)

  function Plus(s: Totals, t: Totals): Totals {
    Totals(s.area2 + t.area2, s.mx + t.mx, s.my + t.my)
  }

  function Signed(t: Totals, positive: bool): Totals {
    if positive then t else Totals(-t.area2, -t.mx, -t.my)
  }

  lemma PlusNext(s: Totals, t: Totals, u: Totals, sum: Totals)
    requires sum == Plus(t, u)
    ensures Plus(Plus(s, t), u) == Plus(s, sum)
  {
  }

  const NOTHING := Totals(0, 0, 0)
  const X_FORM := HalfPlane(1, 0, 0)
  const Y_FORM := HalfPlane(0, 1, 0)

  ghost function Triangle(p: Coordinate, q: Coordinate, r: Coordinate): Totals {
    Totals(Turn(p, q, r), Moment(X_FORM, p, q, r), Moment(Y_FORM, p, q, r))
  }

  /** The triangles over base along the first n segments. */
  ghost function Fan(base: Coordinate, ring: seq<Coordinate>, n: nat): Totals
    requires n < |ring|
  {
    Totals(Swept(base, ring, n), SweptMoment(X_FORM, base, ring, n), SweptMoment(Y_FORM, base, ring, n))
  }

  lemma FanBase(base: Coordinate, base': Coordinate, ring: seq<Coordinate>)
    requires IsClosed(ring)
    ensures Fan(base, ring, |ring| - 1) == Fan(base', ring, |ring| - 1)
  {
    SweptArea(base, ring);
    SweptArea(base', ring);
    BaseIsFree(X_FORM, base, base', ring);
    BaseIsFree(Y_FORM, base, base', ring);
  }

  /** t are the totals of the ring, over whatever base. Areas count negatively for shells and positively for holes, no
      matter which way the ring runs. */
  ghost predicate AreRingTotals(t: Totals, ring: seq<Coordinate>, hole: bool)
    requires IsRing(ring)
  {
    forall base: Coordinate {:trigger Fan(base, ring, |ring| - 1)} ::
      t == Signed(Fan(base, ring, |ring| - 1), CCW(ring) == hole)
  }

  lemma FanHasTotals(base: Coordinate, fan: Totals, ring: seq<Coordinate>, hole: bool)
    requires IsRing(ring) && fan == Fan(base, ring, |ring| - 1)
    ensures AreRingTotals(Signed(fan, CCW(ring) == hole), ring, hole)
  {
    forall base': Coordinate {:trigger Fan(base', ring, |ring| - 1)} ensures Fan(base', ring, |ring| - 1) == fan {
      FanBase(base', base, ring);
    }
  }

  lemma RingHasTotals(ring: seq<Coordinate>, hole: bool)
    requires IsRing(ring)
    ensures exists t :: AreRingTotals(t, ring, hole)
  {
    var base := ring[0];
    var fan := Fan(base, ring, |ring| - 1);
    FanHasTotals(base, fan, ring, hole);
  }

  ghost function RingTotals(ring: seq<Coordinate>, hole: bool): (t: Totals)
    requires IsRing(ring)
    ensures AreRingTotals(t, ring, hole)
  {
    RingHasTotals(ring, hole);
    var t :| AreRingTotals(t, ring, hole);
    t
  }

  ghost function HolesTotals(holes: seq<seq<Coordinate>>, n: nat): Totals
    requires n <= |holes| && forall i :: 0 <= i < |holes| ==> IsRing(holes[i])
  {
    if n == 0 then NOTHING else Plus(HolesTotals(holes, n - 1), RingTotals(holes[n - 1], true))
  }

  ghost function TotalsOf(g: Geometry): Totals
    requires Proper(g)
    decreases g, 0
  {
    match g
    case Polygon(shell, holes) => Plus(RingTotals(shell, false), HolesTotals(holes, |holes|))
    case GeometryCollection(parts) => PartsTotals(g, |parts|)
    case NoArea => NOTHING
  }

  ghost function PartsTotals(g: Geometry, n: nat): Totals
    requires g.GeometryCollection? && Proper(g) && n <= |g.parts|
    decreases g, 0, n
  {
    if n == 0 then NOTHING else Plus(PartsTotals(g, n - 1), TotalsOf(g.parts[n - 1]))
  }

  // --- The accumulator

  /** Three times the centroid of a triangle. */
  function Centroid3(p1: Coordinate, p2: Coordinate, p3: Coordinate): Coordinate {
    Coordinate(p1.x + p2.x + p3.x, p1.y + p2.y + p3.y)
  }

  /** Twice the signed area of a triangle. */
  function TriangleArea2(p1: Coordinate, p2: Coordinate, p3: Coordinate): int {
    (p2.x - p1.x) * (p3.y - p1.y) - (p3.x - p1.x) * (p2.y - p1.y)
  }

  lemma SignedTriangle(p0: Coordinate, p1: Coordinate, p2: Coordinate, positive: bool, sign: int)
    requires sign == if positive then 1 else -1
    ensures var c := Centroid3(p0, p1, p2);
      var a := TriangleArea2(p0, p1, p2);
      Signed(Triangle(p0, p1, p2), positive) == Totals(sign * a, sign * a * c.x, sign * a * c.y)
  {
    TurnAt(p0, p1, p2);
  }

  class CentroidArea {
    var basePt: Coordinate
    var triangleCent3: Coordinate
    var areasum2: int
    var cg3: Coordinate

    constructor ()
      ensures Accumulated() == NOTHING
    {
      basePt, triangleCent3, areasum2, cg3 := Coordinate(0, 0), Coordinate(0, 0), 0, Coordinate(0, 0);
    }

    ghost function Accumulated(): Totals
      reads this
    {
      Totals(areasum2, cg3.x, cg3.y)
    }

    method SetBasePoint(newbasePt: Coordinate)
      modifies this`basePt
      ensures basePt == newbasePt
    {
      basePt := newbasePt;
    }

    method AddTriangle(p0: Coordinate, p1: Coordinate, p2: Coordinate, isPositiveArea: bool)
      modifies this`triangleCent3, this`areasum2, this`cg3
      ensures Accumulated() == Plus(old(Accumulated()), Signed(Triangle(p0, p1, p2), isPositiveArea))
    {
      var sign := if isPositiveArea then 1 else -1;
      triangleCent3 := Centroid3(p0, p1, p2);
      var area2res := TriangleArea2(p0, p1, p2);
      SignedTriangle(p0, p1, p2, isPositiveArea, sign);
      cg3 := Coordinate(cg3.x + sign * area2res * triangleCent3.x, cg3.y + sign * area2res * triangleCent3.y);
      areasum2 := areasum2 + sign * area2res;
    }

    /** The loop of both addShell and addHole. */
    method AddFan(pts: seq<Coordinate>, isPositiveArea: bool)
      requires IsRing(pts)
      modifies this`triangleCent3, this`areasum2, this`cg3
      ensures Accumulated() == Plus(old(Accumulated()), Signed(Fan(basePt, pts, |pts| - 1), isPositiveArea))
    {
      var n := |pts| - 1;
      for i := 0 to n
        invariant Accumulated() == Plus(old(Accumulated()), Signed(Fan(basePt, pts, i), isPositiveArea))
      {
        FanStep(basePt, pts, i);
        AddTriangle(basePt, pts[i], pts[i + 1], isPositiveArea);
      }
    }

    /** Adds a shell or a hole: whatever the base point, the totals grow by those of the ring. */
    method AddRing(pts: seq<Coordinate>, hole: bool)
      requires IsRing(pts)
      modifies this`triangleCent3, this`areasum2, this`cg3
      ensures Accumulated() == Plus(old(Accumulated()), RingTotals(pts, hole))
    {
      var ccw := IsCCW(pts);
      AddFan(pts, ccw == hole);
      assert RingTotals(pts, hole) == Signed(Fan(basePt, pts, |pts| - 1), ccw == hole);
    }

    method AddPolygon(shell: seq<Coordinate>, holes: seq<seq<Coordinate>>)
      requires Proper(Polygon(shell, holes))
      modifies this`triangleCent3, this`areasum2, this`cg3
      ensures Accumulated() == Plus(old(Accumulated()), TotalsOf(Polygon(shell, holes)))
    {
      AddRing(shell, false);
      AddHoles(holes);
    }

    method AddHoles(holes: seq<seq<Coordinate>>)
      requires forall i :: 0 <= i < |holes| ==> IsRing(holes[i])
      modifies this`triangleCent3, this`areasum2, this`cg3
      ensures Accumulated() == Plus(old(Accumulated()), HolesTotals(holes, |holes|))
    {
      for i := 0 to |holes|
        invariant Accumulated() == Plus(old(Accumulated()), HolesTotals(holes, i))
      {
        AddRing(holes[i], true);
      }
    }

    /** Adds a geometry. The base point is reset for every polygon, which leaves the totals right. */
    method Add(g: Geometry)
      requires Proper(g)
      modifies this
      ensures Accumulated() == Plus(old(Accumulated()), TotalsOf(g))
      decreases g, 1
    {
      match g
      case Polygon(shell, holes) =>
        SetBasePoint(shell[0]);
        AddPolygon(shell, holes);
      case GeometryCollection(parts) =>
        AddParts(g);
      case NoArea =>
    }

    /** The loop over the parts of a collection. */
    method AddParts(g: Geometry)
      requires g.GeometryCollection? && Proper(g)
      modifies this
      ensures Accumulated() == Plus(old(Accumulated()), PartsTotals(g, |g.parts|))
      decreases g, 0, |g.parts| + 1
    {
      ghost var begin := Accumulated();
      var i := 0;
      while i < |g.parts|
        invariant 0 <= i <= |g.parts| && Accumulated() == Plus(begin, PartsTotals(g, i))
      {
        AddPart(g, i, begin);
        i := i + 1;
      }
    }

    /** One round of the loop. */
    method AddPart(g: Geometry, i: nat, ghost begin: Totals)
      requires g.GeometryCollection? && Proper(g) && i < |g.parts| && Accumulated() == Plus(begin, PartsTotals(g, i))
      modifies this
      ensures Accumulated() == Plus(begin, PartsTotals(g, i + 1))
      decreases g, 0, 0
    {
      Add(g.parts[i]);
      PlusNext(begin, PartsTotals(g, i), TotalsOf(g.parts[i]), PartsTotals(g, i + 1));
    }

    /** Adds the area within a single ring. */
    method AddSequence(ring: seq<Coordinate>)
      requires IsRing(ring)
      modifies this
      ensures Accumulated() == Plus(old(Accumulated()), TotalsOf(Polygon(ring, [])))
    {
      SetBasePoint(ring[0]);
      AddRing(ring, false);
    }

    /** The centroid of what was added; there is none if the areas cancel. */
    method GetCentroid() returns (ret: Option<RealPoint>)
      ensures ret.None? <==> areasum2 == 0
      ensures ret.Some? ==> IsMean(ret.value, Accumulated())
    {
      if areasum2 == 0 { return None; }
      var x := cg3.x as real / 3.0 / areasum2 as real;
      var y := cg3.y as real / 3.0 / areasum2 as real;
      ThirdOfQuotient(cg3.x, areasum2, x);
      ThirdOfQuotient(cg3.y, areasum2, y);
      ret := Some(RealPoint(x, y));
    }
  }

  lemma FanStep(base: Coordinate, ring: seq<Coordinate>, n: nat)
    requires n + 1 < |ring|
    ensures Fan(base, ring, n + 1) == Plus(Fan(base, ring, n), Triangle(base, ring[n], ring[n + 1]))
  {
  }

  /** The point with the given moments, for twice the area. */
  ghost predicate IsMean(c: RealPoint, t: Totals) {
    c.x * 3.0 * t.area2 as real == t.mx as real && c.y * 3.0 * t.area2 as real == t.my as real
  }

  lemma ThirdOfQuotient(n: int, d: int, q: real)
    requires d != 0 && q == n as real / 3.0 / d as real
    ensures q * 3.0 * d as real == n as real
  {
    assert q * d as real == n as real / 3.0;
    assert q * 3.0 * d as real == q * d as real * 3.0;
  }

  // --- The direction of a ring

  lemma {:induction false} SweptBackwards(h: HalfPlane, base: Coordinate, ring: seq<Coordinate>, n: nat)
    requires n < |ring|
    ensures Swept(base, Reversed(ring), n) == Swept(base, ring, |ring| - 1 - n) - Swept(base, ring, |ring| - 1)
    ensures SweptMoment(h, base, Reversed(ring), n)
         == SweptMoment(h, base, ring, |ring| - 1 - n) - SweptMoment(h, base, ring, |ring| - 1)
  {
    if n > 0 {
      SweptBackwards(h, base, ring, n - 1);
      var p, q := ring[|ring| - 1 - n], ring[|ring| - n];
      TurnCyclic(q, p, base);
      TurnCyclic(p, base, q);
      MomentCyclic(h, base, p, q);
    }
  }

  /** A ring adds the same in either direction, if isCCW tells the directions apart. */
  lemma DirectionIsFree(ring: seq<Coordinate>, hole: bool)
    requires IsRing(ring) && CCW(Reversed(ring)) != CCW(ring)
    ensures RingTotals(Reversed(ring), hole) == RingTotals(ring, hole)
  {
    var base, back, n := ring[0], Reversed(ring), |ring| - 1;
    SweptBackwards(X_FORM, base, ring, n);
    SweptBackwards(Y_FORM, base, ring, n);
    assert Fan(base, back, n) == Signed(Fan(base, ring, n), false);
    assert RingTotals(back, hole) == Signed(Fan(base, back, n), CCW(back) == hole);
    assert RingTotals(ring, hole) == Signed(Fan(base, ring, n), CCW(ring) == hole);
  }

  /** A weakly convex ring adds the same in either direction. */
  lemma ConvexDirectionIsFree(v: seq<Coordinate>, hole: bool)
    requires WeaklyConvex(v)
    ensures IsRing(Closed(v)) && IsRing(Reversed(Closed(v)))
    ensures RingTotals(Reversed(Closed(v)), hole) == RingTotals(Closed(v), hole)
  {
    ConvexOrientation(v);
    DirectionIsFree(Closed(v), hole);
  }

  // --- Holes and parts

  lemma HoleIsNegative(ring: seq<Coordinate>)
    requires IsRing(ring)
    ensures RingTotals(ring, true) == Signed(RingTotals(ring, false), false)
  {
    var fan := Fan(ring[0], ring, |ring| - 1);
    assert RingTotals(ring, true) == Signed(fan, CCW(ring) == true);
    assert RingTotals(ring, false) == Signed(fan, CCW(ring) == false);
  }

  lemma {:induction false} FirstHoles(holes: seq<seq<Coordinate>>, h: seq<Coordinate>, n: nat)
    requires n <= |holes| && IsRing(h) && forall i :: 0 <= i < |holes| ==> IsRing(holes[i])
    ensures HolesTotals(holes + [h], n) == HolesTotals(holes, n)
  {
    if n > 0 { FirstHoles(holes, h, n - 1); }
  }

  /** A hole takes from a polygon what it would add as a polygon of its own. */
  lemma HoleTakesAway(shell: seq<Coordinate>, holes: seq<seq<Coordinate>>, h: seq<Coordinate>)
    requires Proper(Polygon(shell, holes)) && IsRing(h)
    ensures Proper(Polygon(shell, holes + [h]))
    ensures Plus(TotalsOf(Polygon(shell, holes + [h])), TotalsOf(Polygon(h, []))) == TotalsOf(Polygon(shell, holes))
  {
    FirstHoles(holes, h, |holes|);
    HoleIsNegative(h);
    var shellTotals, rest, hole := RingTotals(shell, false), HolesTotals(holes, |holes|), RingTotals(h, true);
    assert TotalsOf(Polygon(shell, holes)) == Plus(shellTotals, rest);
    assert TotalsOf(Polygon(shell, holes + [h])) == Plus(shellTotals, Plus(rest, hole));
    assert TotalsOf(Polygon(h, [])) == Plus(RingTotals(h, false), NOTHING);
  }

  /** Nothing is left of a polygon with itself as a hole. */
  lemma AllTakenAway(ring: seq<Coordinate>)
    requires IsRing(ring)
    ensures TotalsOf(Polygon(ring, [ring])) == NOTHING
  {
    HoleTakesAway(ring, [], ring);
    assert [] + [ring] == [ring];
  }

  lemma NextPart(parts: seq<Geometry>, n: nat)
    requires Proper(GeometryCollection(parts)) && n < |parts|
    ensures PartsTotals(GeometryCollection(parts), n + 1)
         == Plus(PartsTotals(GeometryCollection(parts), n), TotalsOf(parts[n]))
    ensures PartsTotals(GeometryCollection(parts), 0) == NOTHING
  {
    hide TotalsOf;
  }

  lemma AllParts(parts: seq<Geometry>)
    requires Proper(GeometryCollection(parts))
    ensures TotalsOf(GeometryCollection(parts)) == PartsTotals(GeometryCollection(parts), |parts|)
  {
    hide PartsTotals;
  }

  lemma {:induction false} FirstParts(some: seq<Geometry>, more: seq<Geometry>, n: nat)
    requires Proper(GeometryCollection(some)) && Proper(GeometryCollection(some + more)) && n <= |some|
    ensures PartsTotals(GeometryCollection(some + more), n) == PartsTotals(GeometryCollection(some), n)
  {
    if n > 0 {
      hide TotalsOf, PartsTotals;
      FirstParts(some, more, n - 1);
      NextPart(some, n - 1);
      NextPart(some + more, n - 1);
    }
  }

  lemma {:induction false} PartsTogether(some: seq<Geometry>, more: seq<Geometry>, n: nat)
    requires Proper(GeometryCollection(some)) && Proper(GeometryCollection(more)) && n <= |more|
    requires Proper(GeometryCollection(some + more))
    ensures PartsTotals(GeometryCollection(some + more), |some| + n)
         == Plus(TotalsOf(GeometryCollection(some)), PartsTotals(GeometryCollection(more), n))
  {
    if n == 0 {
      FirstParts(some, more, |some|);
    } else {
      hide TotalsOf, PartsTotals;
      PartsTogether(some, more, n - 1);
      NextPart(more, n - 1);
      NextPart(some + more, |some| + n - 1);
      PlusNext(TotalsOf(GeometryCollection(some)), PartsTotals(GeometryCollection(more), n - 1), TotalsOf(more[n - 1]),
               PartsTotals(GeometryCollection(more), n));
    }
  }

  /** A collection adds what its parts add: a single part the same as on its own, and two collections together the
      sum. */
  lemma CollectionIsSum(g: Geometry, some: seq<Geometry>, more: seq<Geometry>)
    requires Proper(g) && Proper(GeometryCollection(some)) && Proper(GeometryCollection(more))
    ensures TotalsOf(GeometryCollection([g])) == TotalsOf(g)
    ensures Proper(GeometryCollection(some + more))
    ensures TotalsOf(GeometryCollection(some + more))
         == Plus(TotalsOf(GeometryCollection(some)), TotalsOf(GeometryCollection(more)))
  {
    hide TotalsOf, PartsTotals;
    PartsTogether(some, more, |more|);
    AllParts(more);
    AllParts(some + more);
    OnePart(g);
  }

  lemma OnePart(g: Geometry)
    requires Proper(g)
    ensures Proper(GeometryCollection([g])) && TotalsOf(GeometryCollection([g])) == TotalsOf(g)
  {
    hide TotalsOf, PartsTotals;
    NextPart([g], 0);
    AllParts([g]);
  }

  // --- Convex rings

  lemma {:induction false} MomentByAxes(h: HalfPlane, base: Coordinate, ring: seq<Coordinate>, n: nat)
    requires n < |ring|
    ensures SweptMoment(h, base, ring, n) == Combined(h, Fan(base, ring, n))
  {
    if n > 0 {
      MomentByAxes(h, base, ring, n - 1);
      FanStep(base, ring, n - 1);
      TriangleByAxes(h, base, ring[n - 1], ring[n]);
      CombinedSum(h, Fan(base, ring, n - 1), Triangle(base, ring[n - 1], ring[n]));
    }
  }

  ghost function Combined(h: HalfPlane, t: Totals): int {
    h.a * t.mx + h.b * t.my + 3 * h.c * t.area2
  }

  lemma TriangleByAxes(h: HalfPlane, p: Coordinate, q: Coordinate, r: Coordinate)
    ensures Moment(h, p, q, r) == Combined(h, Triangle(p, q, r))
  {
    var x, y := p.x + q.x + r.x, p.y + q.y + r.y;
    SumOfForms(h, p, q, r, x, y);
    SumOfForms(X_FORM, p, q, r, x, y);
    SumOfForms(Y_FORM, p, q, r, x, y);
    SumByAxes(Turn(p, q, r), h, x, y, Moment(X_FORM, p, q, r), Moment(Y_FORM, p, q, r), Moment(h, p, q, r));
  }

  lemma SumOfForms(h: HalfPlane, p: Coordinate, q: Coordinate, r: Coordinate, x: int, y: int)
    requires x == p.x + q.x + r.x && y == p.y + q.y + r.y
    ensures Moment(h, p, q, r) == Turn(p, q, r) * (h.a * x + h.b * y + 3 * h.c)
  {
    assert h.At(p) + h.At(q) + h.At(r) == h.a * x + h.b * y + 3 * h.c;
  }

  lemma SumByAxes(t: int, h: HalfPlane, x: int, y: int, mx: int, my: int, m: int)
    requires mx == t * (1 * x + 0 * y + 3 * 0) && my == t * (0 * x + 1 * y + 3 * 0)
    requires m == t * (h.a * x + h.b * y + 3 * h.c)
    ensures m == h.a * mx + h.b * my + 3 * h.c * t
  {
    assert mx == t * x && my == t * y;
  }

  lemma CombinedSum(h: HalfPlane, s: Totals, t: Totals)
    ensures Combined(h, Plus(s, t)) == Combined(h, s) + Combined(h, t)
  {
  }

  lemma {:induction false} ConvexMoment(h: HalfPlane, v: seq<Coordinate>, n: nat)
    requires TurnsClockwise(v) && v != [] && n <= |v| && h.ContainsAll(v)
    ensures SweptMoment(h, v[0], Closed(v), n) >= 0
  {
    if n > 0 {
      ConvexMoment(h, v, n - 1);
      FanTurn(v, n);
      var ring := Closed(v);
      assert h.Contains(v[0]) && h.Contains(v[n - 1]) && (n < |v| ==> h.Contains(v[n]));
      ProductNonNegative(Turn(v[0], ring[n - 1], ring[n]), h.At(v[0]) + h.At(ring[n - 1]) + h.At(ring[n]));
    }
  }

  lemma FanTurn(v: seq<Coordinate>, n: nat)
    requires TurnsClockwise(v) && 0 < n <= |v|
    ensures Turn(v[0], Closed(v)[n - 1], Closed(v)[n]) <= 0
  {
    if n < |v| { ThreeInOrder(v, 0, n - 1, n); } else { TurnAt(v[0], v[n - 1], v[0]); }
  }

  /** A weakly convex ring has an area, and every half-plane that contains it contains its centroid. */
  lemma CentroidInside(v: seq<Coordinate>, c: RealPoint, h: HalfPlane)
    requires WeaklyConvex(v) && IsMean(c, TotalsOf(Polygon(Closed(v), []))) && h.ContainsAll(v)
    ensures TotalsOf(Polygon(Closed(v), [])).area2 < 0
    ensures h.a as real * c.x + h.b as real * c.y + h.c as real <= 0.0
  {
    hide TurnsClockwise, Moment;
    var t := Fan(v[0], Closed(v), |v|);
    ConvexOrientation(v);
    ConvexArea(v);
    assert TotalsOf(Polygon(Closed(v), [])) == Signed(t, CCW(Closed(v)) == false);
    ConvexMoment(h, v, |v|);
    MomentByAxes(h, v[0], Closed(v), |v|);
    MeanOfForm(h, c, t);
  }

  lemma MeanOfForm(h: HalfPlane, c: RealPoint, t: Totals)
    requires IsMean(c, t) && t.area2 < 0 && Combined(h, t) >= 0
    ensures h.a as real * c.x + h.b as real * c.y + h.c as real <= 0.0
  {
    var value, d := h.a as real * c.x + h.b as real * c.y + h.c as real, t.area2 as real;
    IntegerProduct(h.a, t.mx);
    IntegerProduct(h.b, t.my);
    IntegerProduct(h.c, t.area2);
    assert Combined(h, t) as real == h.a as real * t.mx as real + h.b as real * t.my as real + 3.0 * (h.c as real * d);
    assert h.a as real * (c.x * 3.0 * d) == h.a as real * c.x * (3.0 * d);
    assert h.b as real * (c.y * 3.0 * d) == h.b as real * c.y * (3.0 * d);
    assert value * (3.0 * d) >= 0.0;
    if value > 0.0 { RealProductSign(value, -3.0 * d); }
  }
}
