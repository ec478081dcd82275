/** Two independent ways to locate a point relative to a closed ring, and why they agree. */
module PointInRing {
  import opened Plane
  import opened RobustDeterminant
  import opened CGAlgorithms
  import opened Segments
  import opened LineIntersector

  datatype Location = Interior | Boundary | Exterior

  /** p lies on the segment that ends in vertex i. */
  ghost predicate OnEdge(p: Coordinate, ring: seq<Coordinate>, i: nat)
    requires 1 <= i < |ring|
  {
    OnSegment(Real(p), Real(ring[i - 1]), Real(ring[i]))
  }

  ghost predicate OnRing(p: Coordinate, ring: seq<Coordinate>) {
    exists i :: 1 <= i < |ring| && OnEdge(p, ring, i)
  }

  /** The location by definition: on the boundary if on some segment, else inside if the ray from p crosses an
      odd number of segments. */
  ghost function LocationInRing(p: Coordinate, ring: seq<Coordinate>): Location {
    if OnRing(p, ring) then Boundary
    else if Crossings(p, ring, |ring|) % 2 == 1 then Interior
    else Exterior
  }

  // --- The point locator

  method IsOnLine(p: Coordinate, pt: seq<Coordinate>) returns (on: bool)
    ensures on <==> OnRing(p, pt)
  {
    var ptsize := |pt|;
    if ptsize == 0 { return false; }
    var pp := pt[0];
    for i := 1 to ptsize
      invariant pp == pt[i - 1]
      invariant forall k :: 1 <= k < i ==> !OnEdge(p, pt, k)
    {
      var p1 := pt[i];
      var hit := HasIntersection(p, pp, p1);
      if hit {
        assert OnEdge(p, pt, i);
        return true;
      }
      pp := p1;
    }
    return false;
  }

  method LocateInPolygonRing(p: Coordinate, ring: seq<Coordinate>) returns (location: Location)
    ensures location == LocationInRing(p, ring)
  {
    var onLine := IsOnLine(p, ring);
    if onLine { return Boundary; }
    var inside := IsPointInRing(p, ring);
    if inside { return Interior; }
    return Exterior;
  }

  // --- The ray crossing counter

  /** Whether the counter notices that p is on the segment from p2 to p1: it does, unless p is the upper end p1. */
  ghost predicate Noticed(p: Coordinate, p1: Coordinate, p2: Coordinate) {
    OnSegment(Real(p), Real(p1), Real(p2)) && !(p == p1 && p2.y < p1.y)
  }

  lemma OnSegmentReversed(p: RealPoint, a: RealPoint, b: RealPoint)
    ensures OnSegment(p, a, b) <==> OnSegment(p, b, a)
  {
    if t :| 0.0 <= t <= 1.0 && p == Along(a, b, t) { assert p == Along(b, a, 1.0 - t); }
    if t :| 0.0 <= t <= 1.0 && p == Along(b, a, t) { assert p == Along(a, b, 1.0 - t); }
  }

  /** A segment strictly to the left of p neither holds p nor crosses its ray. */
  lemma LeftSegment(p: Coordinate, p1: Coordinate, p2: Coordinate)
    requires p1.x < p.x && p2.x < p.x
    ensures !CrossesRay(p, p1, p2) && !OnSegment(Real(p), Real(p1), Real(p2))
  {
    PointOnSegment(p, p1, p2);
    var x1, y1, x2, y2 := p1.x - p.x, p1.y - p.y, p2.x - p.x, p2.y - p.y;
    SignOfProduct(x1, y2);
    SignOfProduct(x2, y1);
  }

  /** For a segment that straddles the level of p, a vanishing determinant means that p is on it. */
  lemma StraddlingSegment(p: Coordinate, p1: Coordinate, p2: Coordinate)
    requires Straddles(p, p1, p2)
    ensures OnSegment(Real(p), Real(p1), Real(p2)) <==> Det(p1.x - p.x, p1.y - p.y, p2.x - p.x, p2.y - p.y) == 0
  {
    PointOnSegment(p, p1, p2);
    TurnAt(p, p1, p2);
    TurnCyclic(p, p1, p2);
    var x1, y1, x2, y2 := p1.x - p.x, p1.y - p.y, p2.x - p.x, p2.y - p.y;
    if Det(x1, y1, x2, y2) == 0 {
      SignOfProduct(x1, y2);
      SignOfProduct(x2, y1);
    }
  }

  /** Off the level of p, or at its ends only. */
  lemma NonStraddlingSegment(p: Coordinate, p1: Coordinate, p2: Coordinate)
    requires !Straddles(p, p1, p2) && !(p1.y == p.y && p2.y == p.y) && p != p2
    ensures !Noticed(p, p1, p2)
  {
    PointOnSegment(p, p1, p2);
    TurnAt(p, p1, p2);
    TurnCyclic(p, p1, p2);
    if OnSegment(Real(p), Real(p1), Real(p2)) {
      var x1, y1, x2, y2 := p1.x - p.x, p1.y - p.y, p2.x - p.x, p2.y - p.y;
      SignOfProduct(x1, y2);
      SignOfProduct(x2, y1);
    }
  }

  lemma LevelSegment(p: Coordinate, p1: Coordinate, p2: Coordinate)
    requires p1.y == p.y && p2.y == p.y
    ensures !CrossesRay(p, p1, p2)
    ensures OnSegment(Real(p), Real(p1), Real(p2)) <==> p1.x <= p.x <= p2.x || p2.x <= p.x <= p1.x
  {
    PointOnSegment(p, p1, p2);
    TurnAt(p, p1, p2);
    TurnCyclic(p, p1, p2);
  }

  class RayCrossingCounter {
    const point: Coordinate
    var crossingCount: nat
    var isPointOnSegment: bool

    constructor (p: Coordinate)
      ensures point == p && crossingCount == 0 && !isPointOnSegment
    {
      point := p;
      crossingCount := 0;
      isPointOnSegment := false;
    }

    method CountSegment(p1: Coordinate, p2: Coordinate)
      modifies this
      ensures crossingCount == old(crossingCount) + if CrossesRay(point, p1, p2) then 1 else 0
      ensures isPointOnSegment <==> old(isPointOnSegment) || Noticed(point, p1, p2)
    {
      // strictly to the left of the test point
      if p1.x < point.x && p2.x < point.x {
        LeftSegment(point, p1, p2);
        return;
      }
      // the point is the previous vertex
      if point.x == p2.x && point.y == p2.y {
        EndsOnSegment(Real(p1), Real(p2));
        isPointOnSegment := true;
        return;
      }
      // a horizontal segment holds the point or is not counted
      if p1.y == point.y && p2.y == point.y {
        LevelSegment(point, p1, p2);
        var minx, maxx := p1.x, p2.x;
        if minx > maxx {
          minx, maxx := p2.x, p1.x;
        }
        if point.x >= minx && point.x <= maxx {
          isPointOnSegment := true;
        }
        return;
      }
      if (p1.y > point.y && p2.y <= point.y) || (p2.y > point.y && p1.y <= point.y) {
        StraddlingSegment(point, p1, p2);
        var x1, y1 := p1.x - point.x, p1.y - point.y;
        var x2, y2 := p2.x - point.x, p2.y - point.y;
        ghost var passes;
        var xIntSign;
        xIntSign, passes := SignOfDet2x2(x1, y1, x2, y2);
        if xIntSign == 0 {
          isPointOnSegment := true;
          return;
        }
        if y2 < y1 { xIntSign := -xIntSign; }
        if xIntSign > 0 { crossingCount := crossingCount + 1; }
      } else {
        NonStraddlingSegment(point, p1, p2);
      }
    }

    method IsOnSegment() returns (on: bool)
      ensures on == isPointOnSegment
    {
      return isPointOnSegment;
    }

    method GetLocation() returns (location: Location)
      ensures location == if isPointOnSegment then Boundary else if crossingCount % 2 == 1 then Interior else Exterior
    {
      if isPointOnSegment { return Boundary; }
      if crossingCount % 2 == 1 { return Interior; }
      return Exterior;
    }

    /** Locates the point, stopping at the first segment on which it is noticed. */
    static method LocatePointInRing(p: Coordinate, ring: seq<Coordinate>) returns (location: Location)
      requires IsClosed(ring)
      ensures location == LocationInRing(p, ring)
    {
      var rcc := new RayCrossingCounter(p);
      NoticedOnRing(p, ring);
      for i := 1 to |ring|
        invariant rcc.point == p && fresh(rcc)
        invariant !rcc.isPointOnSegment && rcc.crossingCount == Crossings(p, ring, i)
        invariant forall k :: 1 <= k < i ==> !Noticed(p, ring[k], ring[k - 1])
      {
        var p1, p2 := ring[i], ring[i - 1];
        rcc.CountSegment(p1, p2);
        var on := rcc.IsOnSegment();
        if on {
          location := rcc.GetLocation();
          return;
        }
      }
      location := rcc.GetLocation();
    }
  }

  /** On a closed ring, a point on some segment is noticed on some segment. */
  lemma NoticedOnRing(p: Coordinate, ring: seq<Coordinate>)
    requires IsClosed(ring)
    ensures OnRing(p, ring) <==> exists k :: 1 <= k < |ring| && Noticed(p, ring[k], ring[k - 1])
  {
    forall k | 1 <= k < |ring| ensures OnEdge(p, ring, k) <==> OnSegment(Real(p), Real(ring[k]), Real(ring[k - 1])) {
      OnSegmentReversed(Real(p), Real(ring[k]), Real(ring[k - 1]));
    }
    if k :| 1 <= k < |ring| && Noticed(p, ring[k], ring[k - 1]) {
      assert OnEdge(p, ring, k);
    }
    if i :| 1 <= i < |ring| && OnEdge(p, ring, i) {
      if !Noticed(p, ring[i], ring[i - 1]) {
        var k := if i + 1 < |ring| then i + 1 else 1;
        assert ring[k - 1] == p;
        EndsOnSegment(Real(ring[k]), Real(ring[k - 1]));
        assert Noticed(p, ring[k], ring[k - 1]);
      }
    }
  }
}
