/** Orientation and point-in-ring tests on exact coordinates. */
module CGAlgorithms {
  import opened Plane
  import opened RobustDeterminant

  /** -1, 0 or 1 as the path p1, p2, q turns clockwise, stays straight or turns counter-clockwise. */
  method OrientationIndex(p1: Coordinate, p2: Coordinate, q: Coordinate) returns (index: int)
    ensures index == Sign(Turn(p1, p2, q))
  {
    var dx1, dy1 := p2.x - p1.x, p2.y - p1.y;
    var dx2, dy2 := q.x - p2.x, q.y - p2.y;
    ghost var passes;
    index, passes := SignOfDet2x2(dx1, dy1, dx2, dy2);
  }

  ghost predicate IsClosed(ring: seq<Coordinate>) {
    |ring| > 0 && ring[0] == ring[|ring| - 1]
  }

  /** Exactly one end of the segment lies strictly above the horizontal line through p. */
  predicate Straddles(p: Coordinate, p1: Coordinate, p2: Coordinate) {
    (p1.y > p.y && p2.y <= p.y) || (p2.y > p.y && p1.y <= p.y)
  }

  /** The segment meets the horizontal line through p strictly to the right of p. */
  ghost predicate CrossesRay(p: Coordinate, p1: Coordinate, p2: Coordinate) {
    Straddles(p, p1, p2) && Sign(Det(p1.x - p.x, p1.y - p.y, p2.x - p.x, p2.y - p.y)) == Sign(p2.y - p1.y)
  }

  /** How many of the first n - 1 segments of the ring cross the ray from p. */
  ghost function Crossings(p: Coordinate, ring: seq<Coordinate>, n: nat): nat
    requires n <= |ring|
  {
    if n <= 1 then 0
    else Crossings(p, ring, n - 1) + if CrossesRay(p, ring[n - 1], ring[n - 2]) then 1 else 0
  }

  lemma SignOfQuotient(sign: int, d: int)
    requires (sign == 1 || sign == 0 || sign == -1) && d != 0
    ensures 0.0 < sign as real / d as real <==> sign == Sign(d)
  {
    var q := sign as real / d as real;
    assert q * d as real == sign as real;
  }

  method IsPointInRing(p: Coordinate, ring: seq<Coordinate>) returns (inside: bool)
    ensures inside <==> Crossings(p, ring, |ring|) % 2 == 1
  {
    var crossings := 0;
    if |ring| == 0 { return false; }
    for i := 1 to |ring|
      invariant crossings == Crossings(p, ring, i)
    {
      var p1, p2 := ring[i], ring[i - 1];
      var x1, y1 := p1.x - p.x, p1.y - p.y;
      var x2, y2 := p2.x - p.x, p2.y - p.y;
      if (y1 > 0 && y2 <= 0) || (y2 > 0 && y1 <= 0) {
        ghost var passes;
        var sign;
        sign, passes := SignOfDet2x2(x1, y1, x2, y2);
        var xInt := sign as real / (y2 - y1) as real;
        SignOfQuotient(sign, y2 - y1);
        if 0.0 < xInt { crossings := crossings + 1; }
      }
    }
    return crossings % 2 == 1;
  }

  ghost function StraddleCount(p: Coordinate, ring: seq<Coordinate>, n: nat): nat
    requires n <= |ring|
  {
    if n <= 1 then 0
    else StraddleCount(p, ring, n - 1) + if Straddles(p, ring[n - 1], ring[n - 2]) then 1 else 0
  }

  /** A path changes sides of a horizontal line an odd number of times exactly when it ends on the other side. */
  lemma {:induction false} StraddleParity(p: Coordinate, ring: seq<Coordinate>, n: nat)
    requires 0 < n <= |ring|
    ensures StraddleCount(p, ring, n) % 2 == 1 <==> (ring[0].y > p.y) != (ring[n - 1].y > p.y)
  {
    if n > 1 {
      StraddleParity(p, ring, n - 1);
    }
  }

  /** If a half-plane holds a straddling segment but not p, the direction of its boundary alone decides
      on which side of p the segment passes. */
  lemma SeparatedCrossing(h: HalfPlane, p: Coordinate, u: Coordinate, v: Coordinate)
    requires h.Contains(u) && h.Contains(v) && !h.Contains(p) && Straddles(p, u, v)
    ensures CrossesRay(p, u, v) <==> h.a < 0
  {
    var y1, y2, det := u.y - p.y, v.y - p.y, Det(u.x - p.x, u.y - p.y, v.x - p.x, v.y - p.y);
    SlopeOnLevel(h, p, u, v);
    SeparatedSign(h.a, det, h.At(p), h.At(u), h.At(v), y1, y2);
  }

  lemma SlopeOnLevel(h: HalfPlane, p: Coordinate, u: Coordinate, v: Coordinate)
    ensures h.a * Det(u.x - p.x, u.y - p.y, v.x - p.x, v.y - p.y) ==
      h.At(p) * ((u.y - p.y) - (v.y - p.y)) + h.At(u) * (v.y - p.y) - h.At(v) * (u.y - p.y)
  {
    FromPoint(h, p, u);
    FromPoint(h, p, v);
    SlopeProducts(h.a, h.b, h.At(p), u.x - p.x, u.y - p.y, v.x - p.x, v.y - p.y, h.At(u), h.At(v));
  }

  lemma FromPoint(h: HalfPlane, p: Coordinate, u: Coordinate)
    ensures h.At(u) == h.At(p) + h.a * (u.x - p.x) + h.b * (u.y - p.y)
  {
  }

  lemma SlopeProducts(a: int, b: int, k: int, x1: int, y1: int, x2: int, y2: int, hu: int, hv: int)
    requires hu == k + a * x1 + b * y1 && hv == k + a * x2 + b * y2
    ensures a * (x1 * y2 - x2 * y1) == k * (y1 - y2) + hu * y2 - hv * y1
  {
    assert hu * y2 == k * y2 + (a * x1) * y2 + (b * y1) * y2;
    assert hv * y1 == k * y1 + (a * x2) * y1 + (b * y2) * y1;
  }

  lemma SeparatedSign(a: int, det: int, hp: int, hu: int, hv: int, y1: int, y2: int)
    requires hp > 0 && hu <= 0 && hv <= 0 && ((y1 > 0 && y2 <= 0) || (y2 > 0 && y1 <= 0))
    requires a * det == hp * (y1 - y2) + hu * y2 - hv * y1
    ensures Sign(det) == Sign(y2 - y1) <==> a < 0
  {
    if y1 > 0 {
      ProductNonNegative(hu, y2);
      ProductNonPositive(hv, y1);
    } else {
      ProductNonPositive(hu, y2);
      ProductNonNegative(hv, y1);
    }
    SignOfProduct(hp, y1 - y2);
    SignOfProduct(a, det);
  }

  lemma {:induction false} SeparatedCrossings(h: HalfPlane, p: Coordinate, ring: seq<Coordinate>, n: nat)
    requires n <= |ring| && h.ContainsAll(ring) && !h.Contains(p)
    ensures Crossings(p, ring, n) == if h.a < 0 then StraddleCount(p, ring, n) else 0
  {
    if n > 1 {
      SeparatedCrossings(h, p, ring, n - 1);
      if Straddles(p, ring[n - 1], ring[n - 2]) {
        SeparatedCrossing(h, p, ring[n - 1], ring[n - 2]);
      }
    }
  }

  /** A point with an odd number of crossings against a closed ring cannot be separated from the ring. */
  lemma OddCrossingsAreEnclosed(p: Coordinate, ring: seq<Coordinate>)
    requires IsClosed(ring) && Crossings(p, ring, |ring|) % 2 == 1
    ensures Encloses(ring, [p])
  {
    forall h: HalfPlane | h.ContainsAll(ring) ensures h.Contains(p) {
      if !h.Contains(p) {
        SeparatedCrossings(h, p, ring, |ring|);
        StraddleParity(p, ring, |ring|);
      }
    }
  }

  lemma CrossesRaySymmetric(p: Coordinate, u: Coordinate, v: Coordinate)
    ensures CrossesRay(p, u, v) <==> CrossesRay(p, v, u)
  {
    assert Det(v.x - p.x, v.y - p.y, u.x - p.x, u.y - p.y) == -Det(u.x - p.x, u.y - p.y, v.x - p.x, v.y - p.y);
  }

  /** A ring with only two distinct vertices walks its one segment to and fro: no point is inside. */
  lemma {:induction false} TwoPointRingCrossings(p: Coordinate, ring: seq<Coordinate>, u: Coordinate, v: Coordinate,
                                                 n: nat)
    requires 0 < n <= |ring| && ring[0] == u
    requires forall k :: 0 <= k < |ring| ==> ring[k] == u || ring[k] == v
    ensures Crossings(p, ring, n) % 2 == 1 ==> ring[n - 1] != u
    ensures ring[n - 1] != u && CrossesRay(p, u, v) ==> Crossings(p, ring, n) % 2 == 1
    ensures !CrossesRay(p, u, v) ==> Crossings(p, ring, n) == 0
  {
    if n > 1 {
      TwoPointRingCrossings(p, ring, u, v, n - 1);
      CrossesRaySymmetric(p, u, v);
    }
  }
}
