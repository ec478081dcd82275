/** The plane with exact coordinates: signed areas, half-planes, and the
    polynomial identities every geometric proof below rests on. */
module Plane {

  datatype Coordinate = Coordinate(x: int, y: int)

  function Sign(n: int): int {
    if n > 0 then 1 else if n < 0 then -1 else 0
  }

  function Abs(n: int): nat {
    if n < 0 then -n else n
  }

  /** The determinant of the rows (x1, y1) and (x2, y2). */
  function Det(x1: int, y1: int, x2: int, y2: int): int {
    x1 * y2 - x2 * y1
  }

  /** Twice the signed area of the triangle p, q, r: positive when p, q, r turn counter-clockwise. */
  function Turn(p: Coordinate, q: Coordinate, r: Coordinate): int {
    Det(q.x - p.x, q.y - p.y, r.x - q.x, r.y - q.y)
  }

  /** A closed half-plane a*x + b*y + c <= 0. */
  datatype HalfPlane = HalfPlane(a: int, b: int, c: int) {
    function At(p: Coordinate): int {
      a * p.x + b * p.y + c
    }

    predicate Contains(p: Coordinate) {
      At(p) <= 0
    }

    ghost predicate ContainsAll(ps: seq<Coordinate>) {
      forall k :: 0 <= k < |ps| ==> Contains(ps[k])
    }
  }

  /** The points on or to the right of the directed line through p and q. */
  function RightOf(p: Coordinate, q: Coordinate): HalfPlane {
    HalfPlane(p.y - q.y, q.x - p.x, q.y * p.x - q.x * p.y)
  }

  lemma RightOfIsTurn(p: Coordinate, q: Coordinate, r: Coordinate)
    ensures RightOf(p, q).At(r) == Turn(p, q, r)
  {
  }

  /** Every closed half-plane that contains all of ps contains all of qs: qs lies in the convex hull of ps. */
  ghost predicate Encloses(ps: seq<Coordinate>, qs: seq<Coordinate>) {
    forall h: HalfPlane :: h.ContainsAll(ps) ==> h.ContainsAll(qs)
  }

  lemma TurnCyclic(p: Coordinate, q: Coordinate, r: Coordinate)
    ensures Turn(p, q, r) == Turn(q, r, p) == Turn(r, p, q)
    ensures Turn(q, p, r) == -Turn(p, q, r)
  {
  }

  /** The four triangles over four points: the area is the same however the quadrilateral is cut. */
  lemma FourPoints(p: Coordinate, q: Coordinate, r: Coordinate, s: Coordinate)
    ensures Turn(p, q, r) + Turn(p, r, s) == Turn(p, q, s) + Turn(q, r, s)
  {
  }

  /** The three-term relation between the determinants of four vectors. */
  lemma Pluecker(a1: int, a2: int, b1: int, b2: int, c1: int, c2: int, d1: int, d2: int)
    ensures Det(a1, a2, b1, b2) * Det(c1, c2, d1, d2)
         == Det(a1, a2, c1, c2) * Det(b1, b2, d1, d2) - Det(a1, a2, d1, d2) * Det(b1, b2, c1, c2)
  {
  }

  /** A triangle's area as the determinant of the two vectors leaving its first corner. */
  lemma TurnAt(o: Coordinate, a: Coordinate, b: Coordinate)
    ensures Turn(o, a, b) == Det(a.x - o.x, a.y - o.y, b.x - o.x, b.y - o.y)
  {
  }

  /** Barycentric coordinates: any affine form at p is the area-weighted mean of its values at a, b, c. */
  lemma Barycentric(h: HalfPlane, a: Coordinate, b: Coordinate, c: Coordinate, p: Coordinate)
    ensures Turn(a, b, c) * h.At(p) == Turn(p, b, c) * h.At(a) + Turn(a, p, c) * h.At(b) + Turn(a, b, p) * h.At(c)
    ensures Turn(a, b, c) == Turn(p, b, c) + Turn(a, p, c) + Turn(a, b, p)
  {
  }

  lemma ProductNonNegative(a: int, b: int)
    requires (a >= 0 && b >= 0) || (a <= 0 && b <= 0)
    ensures a * b >= 0
  {
  }

  lemma ProductNonPositive(a: int, b: int)
    requires (a >= 0 && b <= 0) || (a <= 0 && b >= 0)
    ensures a * b <= 0
  {
  }

  /** A product keeps the sign of one factor when the other is positive. */
  lemma SignOfProduct(a: int, b: int)
    ensures Sign(a * b) == Sign(a) * Sign(b)
  {
  }
}
