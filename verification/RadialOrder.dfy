/** The order in which the Graham scan visits points: by decreasing angle around the lowest,
    then leftmost, point, and outwards along each ray. */
module RadialOrder {
  import opened Plane

  /** o comes before p in the bottom-up, left-to-right order, so p lies in the open upper half-plane of o. */
  predicate Above(o: Coordinate, p: Coordinate) {
    p.y > o.y || (p.y == o.y && p.x > o.x)
  }

  function DistanceSquared(o: Coordinate, p: Coordinate): int {
    (p.x - o.x) * (p.x - o.x) + (p.y - o.y) * (p.y - o.y)
  }

  function PolarCompare(o: Coordinate, p: Coordinate, q: Coordinate): int {
    var orient := Sign(Turn(o, p, q));
    if orient == 1 then 1
    else if orient == -1 then -1
    else
      var op, oq := DistanceSquared(o, p), DistanceSquared(o, q);
      if op < oq then -1 else if op > oq then 1 else 0
  }

  predicate Precedes(o: Coordinate, p: Coordinate, q: Coordinate) {
    PolarCompare(o, p, q) == -1
  }

  /** On a common ray from o, the nearer point is nearer in both coordinates. */
  lemma NearerOnRay(o: Coordinate, p: Coordinate, q: Coordinate)
    requires Above(o, p) && Above(o, q) && Turn(o, p, q) == 0
    ensures DistanceSquared(o, p) < DistanceSquared(o, q)
       <==> p.y - o.y < q.y - o.y || (p.y == o.y && q.y == o.y && p.x < q.x)
    ensures DistanceSquared(o, p) == DistanceSquared(o, q) <==> p == q
  {
    TurnAt(o, p, q);
    NearerVector(p.x - o.x, p.y - o.y, q.x - o.x, q.y - o.y);
  }

  lemma NearerVector(px: int, py: int, qx: int, qy: int)
    requires (py > 0 || (py == 0 && px > 0)) && (qy > 0 || (qy == 0 && qx > 0)) && px * qy == qx * py
    ensures px * px + py * py < qx * qx + qy * qy <==> py < qy || (py == 0 && qy == 0 && px < qx)
    ensures px * px + py * py == qx * qx + qy * qy <==> px == qx && py == qy
  {
    if py == 0 {
      assert qy == 0 by { ProductZero(px, qy); }
      SquareOrder(px, qx);
    } else {
      if qy == 0 { assert qx * py == 0; ProductZero(qx, py); assert false; }
      RaySquares(px, py, qx, qy);
      SquareOrder(py, qy);
      var dp, dq := px * px + py * py, qx * qx + qy * qy;
      ScaledOrder(dp, dq, py * py, qy * qy);
      if dp == dq { assert py == qy; SameQuotient(px, qx, py); }
    }
  }

  lemma ProductZero(a: int, b: int)
    ensures a * b == 0 <==> a == 0 || b == 0
  {
    SignOfProduct(a, b);
  }

  lemma SameQuotient(a: int, b: int, k: int)
    requires k > 0 && a * k == b * k
    ensures a == b
  {
  }

  lemma SquareOrder(a: int, b: int)
    requires a > 0 && b > 0
    ensures a * a < b * b <==> a < b
    ensures a * a == b * b <==> a == b
    ensures a * a > 0
  {
    if a < b { assert a * a < a * b < b * b; }
    if b < a { assert b * b < a * b < a * a; }
  }

  lemma RaySquares(px: int, py: int, qx: int, qy: int)
    requires px * qy == qx * py
    ensures (px * px + py * py) * (qy * qy) == (qx * qx + qy * qy) * (py * py)
  {
    calc {
      (px * px + py * py) * (qy * qy);
      (px * qy) * (px * qy) + (py * py) * (qy * qy);
      (qx * py) * (qx * py) + (py * py) * (qy * qy);
      (qx * qx + qy * qy) * (py * py);
    }
  }

  lemma ScaledLess(a: int, b: int, c: int, d: int)
    requires b > 0 && d > 0 && a * d == b * c && c < d
    ensures a < b
  {
    if a >= b {
      ProductNonNegative(a - b, d);
      SignOfProduct(b, d - c);
    }
  }

  lemma ScaledOrder(a: int, b: int, c: int, d: int)
    requires a > 0 && b > 0 && c > 0 && d > 0 && a * d == b * c
    ensures a < b <==> c < d
    ensures a == b <==> c == d
  {
    if c < d {
      ScaledLess(a, b, c, d);
    } else if d < c {
      ScaledLess(b, a, d, c);
    } else {
      SameQuotient(a, b, c);
    }
  }

  /** In the upper half-plane of o, "not counter-clockwise of" is transitive, and strict unless both steps are level. */
  lemma AngleTransitive(o: Coordinate, p: Coordinate, q: Coordinate, r: Coordinate)
    requires Above(o, p) && Above(o, q) && Above(o, r)
    requires Turn(o, p, q) <= 0 && Turn(o, q, r) <= 0
    ensures Turn(o, p, r) <= 0
    ensures Turn(o, p, r) == 0 ==> Turn(o, p, q) == 0 && Turn(o, q, r) == 0
  {
    TurnAt(o, p, q); TurnAt(o, q, r); TurnAt(o, p, r);
    if p.y > o.y && q.y > o.y && r.y > o.y {
      HeightRelation(o, p, q, r);
      WeightedSum(q.y - o.y, Turn(o, p, r), p.y - o.y, Turn(o, q, r), r.y - o.y, Turn(o, p, q));
    } else {
      SomeLevel(p.x - o.x, p.y - o.y, q.x - o.x, q.y - o.y, r.x - o.x, r.y - o.y);
    }
  }

  /** Three vectors of the upper half-plane, one of them level: so are all that come after it. */
  lemma SomeLevel(px: int, py: int, qx: int, qy: int, rx: int, ry: int)
    requires (py > 0 || (py == 0 && px > 0)) && (qy > 0 || (qy == 0 && qx > 0)) && (ry > 0 || (ry == 0 && rx > 0))
    requires Det(px, py, qx, qy) <= 0 && Det(qx, qy, rx, ry) <= 0 && (py == 0 || qy == 0 || ry == 0)
    ensures Det(px, py, rx, ry) <= 0
    ensures Det(px, py, rx, ry) == 0 ==> Det(px, py, qx, qy) == 0 && Det(qx, qy, rx, ry) == 0
  {
    LevelLast(px, py, qx, qy);
    LevelLast(qx, qy, rx, ry);
    LevelLast(px, py, rx, ry);
  }

  /** A vector that does not lie counter-clockwise of a level one is level. */
  lemma LevelLast(px: int, py: int, qx: int, qy: int)
    requires (py > 0 || (py == 0 && px > 0)) && (qy > 0 || (qy == 0 && qx > 0))
    ensures py == 0 ==> Sign(Det(px, py, qx, qy)) == Sign(qy)
    ensures qy == 0 ==> Sign(Det(px, py, qx, qy)) == -Sign(py)
  {
    SignOfProduct(px, qy);
    SignOfProduct(qx, py);
  }

  /** If k*x is a combination of non-positive a and b with positive weights, then x <= 0, and x == 0 only if both
      are. */
  lemma WeightedSum(k: int, x: int, i: int, a: int, j: int, b: int)
    requires k > 0 && i > 0 && j > 0 && a <= 0 && b <= 0
    requires k * x == i * a + j * b
    ensures x <= 0
    ensures x == 0 ==> a == 0 && b == 0
  {
    SignOfProduct(i, a);
    SignOfProduct(j, b);
    SignOfProduct(k, x);
  }

  lemma HeightRelation(o: Coordinate, p: Coordinate, q: Coordinate, r: Coordinate)
    ensures (q.y - o.y) * Turn(o, p, r) == (p.y - o.y) * Turn(o, q, r) + (r.y - o.y) * Turn(o, p, q)
  {
  }

  /** Exactly one of two distinct points comes first, and none comes before itself or before the focal point. */
  lemma PrecedesTotal(o: Coordinate, p: Coordinate, q: Coordinate)
    requires Above(o, p) && Above(o, q)
    ensures p == q ==> !Precedes(o, p, q)
    ensures p != q ==> (Precedes(o, p, q) <==> !Precedes(o, q, p))
    ensures Precedes(o, o, p) && !Precedes(o, p, o)
  {
    TurnAt(o, p, q); TurnAt(o, q, p); TurnAt(o, o, p); TurnAt(o, p, o);
    assert Turn(o, q, p) == -Turn(o, p, q);
    if Turn(o, p, q) == 0 { NearerOnRay(o, p, q); }
    SquarePositive(p.x - o.x);
    SquarePositive(p.y - o.y);
  }

  lemma SquarePositive(a: int)
    ensures a != 0 ==> a * a > 0
  {
  }

  lemma PrecedesTransitive(o: Coordinate, p: Coordinate, q: Coordinate, r: Coordinate)
    requires Above(o, p) && Above(o, q) && Above(o, r)
    requires Precedes(o, p, q) && Precedes(o, q, r)
    ensures Precedes(o, p, r)
  {
    AngleTransitive(o, p, q, r);
  }

  /** When b lies beyond a on a ray from o, the line a-b has the side of d that the ray has. */
  lemma BeyondOnRay(o: Coordinate, a: Coordinate, b: Coordinate, d: Coordinate)
    requires Above(o, a) && Above(o, b) && Turn(o, a, b) == 0 && Precedes(o, a, b)
    ensures Sign(Turn(a, b, d)) == Sign(Turn(o, a, d)) == Sign(Turn(o, b, d))
  {
    NearerOnRay(o, a, b);
    if a.y > o.y {
      BeyondOnSlope(o, a, b, d);
    } else {
      BeyondOnLevel(o, a, b, d);
    }
  }

  lemma BeyondOnSlope(o: Coordinate, a: Coordinate, b: Coordinate, d: Coordinate)
    requires Turn(o, a, b) == 0 && o.y < a.y < b.y
    ensures Sign(Turn(a, b, d)) == Sign(Turn(o, a, d)) == Sign(Turn(o, b, d))
  {
    TurnCyclic(o, a, b);
    HeightRelation(o, b, a, d);
    TurnBeyond(o, a, b, d);
    NoLast((a.y - o.y) * Turn(o, b, d), (b.y - o.y) * Turn(o, a, d), d.y - o.y, Turn(o, b, a));
    SameSign(a.y - o.y, Turn(o, b, d), b.y - o.y, Turn(o, a, d));
    SameSign(a.y - o.y, Turn(a, b, d), b.y - a.y, Turn(o, a, d));
  }

  lemma NoLast(x: int, y: int, k: int, z: int)
    requires x == y + k * z && z == 0
    ensures x == y
  {
  }

  lemma BeyondOnLevel(o: Coordinate, a: Coordinate, b: Coordinate, d: Coordinate)
    requires a.y == o.y == b.y && o.x < a.x < b.x
    ensures Sign(Turn(a, b, d)) == Sign(Turn(o, a, d)) == Sign(Turn(o, b, d))
  {
    LevelTurn(o, a, d);
    LevelTurn(o, b, d);
    LevelTurn(a, b, d);
  }

  lemma LevelTurn(a: Coordinate, b: Coordinate, d: Coordinate)
    requires a.y == b.y && a.x < b.x
    ensures Sign(Turn(a, b, d)) == Sign(d.y - a.y)
  {
    TurnAt(a, b, d);
    SignOfProduct(b.x - a.x, d.y - a.y);
  }

  lemma SameSign(k: int, x: int, m: int, y: int)
    requires k > 0 && m > 0 && k * x == m * y
    ensures Sign(x) == Sign(y)
  {
    SignOfProduct(k, x);
    SignOfProduct(m, y);
  }

  lemma TurnBeyond(o: Coordinate, a: Coordinate, b: Coordinate, d: Coordinate)
    requires Turn(o, a, b) == 0
    ensures (a.y - o.y) * Turn(a, b, d) == (b.y - a.y) * Turn(o, a, d)
  {
    assert (a.y - o.y) * Turn(a, b, d) == (b.y - a.y) * Turn(o, a, d) + (a.y - d.y) * Turn(o, a, b);
  }
}
