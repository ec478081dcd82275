/** Bounding boxes. */
module Envelope {
  import opened Plane
  import opened Segments

  /** Whether q lies in the box of p1 and p2. */
  predicate IntersectsPoint(p1: Coordinate, p2: Coordinate, q: Coordinate) {
    && q.x >= (if p1.x < p2.x then p1.x else p2.x) && q.x <= (if p1.x > p2.x then p1.x else p2.x)
    && q.y >= (if p1.y < p2.y then p1.y else p2.y) && q.y <= (if p1.y > p2.y then p1.y else p2.y)
  }

  function Min(a: int, b: int): int {
    if b < a then b else a
  }

  function Max(a: int, b: int): int {
    if a < b then b else a
  }

  /** Whether the box of p1 and p2 meets the box of q1 and q2. */
  predicate IntersectsSegment(p1: Coordinate, p2: Coordinate, q1: Coordinate, q2: Coordinate) {
    if Min(p1.x, p2.x) > Max(q1.x, q2.x) then false
    else if Max(p1.x, p2.x) < Min(q1.x, q2.x) then false
    else if Min(p1.y, p2.y) > Max(q1.y, q2.y) then false
    else if Max(p1.y, p2.y) < Min(q1.y, q2.y) then false
    else true
  }

  lemma PointInBox(p1: Coordinate, p2: Coordinate, q: Coordinate)
    ensures IntersectsPoint(p1, p2, q) <==> InBox(Real(p1), Real(p2), Real(q))
  {
  }

  /** Segments with separate boxes have no common point. */
  lemma SeparateBoxes(p1: Coordinate, p2: Coordinate, q1: Coordinate, q2: Coordinate, p: RealPoint)
    requires !IntersectsSegment(p1, p2, q1, q2)
    ensures !Shared(p, Real(p1), Real(p2), Real(q1), Real(q2))
  {
    if Shared(p, Real(p1), Real(p2), Real(q1), Real(q2)) {
      OnSegmentInBox(p, Real(p1), Real(p2));
      OnSegmentInBox(p, Real(q1), Real(q2));
    }
  }

  datatype Box = Box(minx: real, maxx: real, miny: real, maxy: real) {
    static function Init(p1: RealPoint, p2: RealPoint): Box {
      Box(if p1.x < p2.x then p1.x else p2.x, if p1.x < p2.x then p2.x else p1.x,
          if p1.y < p2.y then p1.y else p2.y, if p1.y < p2.y then p2.y else p1.y)
    }

    predicate Contains(p: RealPoint) {
      p.x >= minx && p.x <= maxx && p.y >= miny && p.y <= maxy
    }
  }

  lemma SegmentInItsBox(p: RealPoint, a: RealPoint, b: RealPoint)
    requires OnSegment(p, a, b)
    ensures Box.Init(a, b).Contains(p)
  {
    OnSegmentInBox(p, a, b);
  }

  /** For a point on the line of a segment, the test of the box is the test of the segment. */
  lemma BoxTest(a: RealPoint, b: RealPoint, p: RealPoint)
    ensures Box.Init(a, b).Contains(p) <==> InBox(a, b, p)
    ensures Side(a, b, p) == 0.0 ==> (InBox(a, b, p) <==> OnSegment(p, a, b))
  {
    if OnSegment(p, a, b) { SegmentInItsBox(p, a, b); }
    if Side(a, b, p) == 0.0 && InBox(a, b, p) {
      if a == b {
        assert p == Along(a, b, 0.0);
      } else {
        var t := Fraction(a, b, p);
        assert a == Along(a, b, 0.0) && b == Along(a, b, 1.0);
        BoxOnLine(a, b, 0.0, t, 1.0);
      }
    }
  }
}
