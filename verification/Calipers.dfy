/** Heights over the edges of a strictly convex clockwise ring: they rise to one summit and fall again, and the
    summit never moves backwards as the base edge advances. */
module Calipers {
  import opened Plane
  import opened HullCleaning

  /** The vertex at position k of the ring walked twice. */
  function Vertex(v: seq<Coordinate>, k: nat): Coordinate
    requires k < 2 * |v|
  {
    if k < |v| then v[k] else v[k - |v|]
  }

  /** Twice the area spanned by edge e (from vertex e - 1 to vertex e) and vertex k: the height of k over
      the edge, scaled by the length of the edge. */
  function Height(v: seq<Coordinate>, e: nat, k: nat): int
    requires 1 <= e <= |v| && k < 2 * |v|
  {
    -Turn(Vertex(v, e - 1), Vertex(v, e), Vertex(v, k))
  }

  ghost predicate IsConvexRing(v: seq<Coordinate>) {
    |v| >= 3 && StrictlyConvex(v)
  }

  lemma CyclicTurn(v: seq<Coordinate>, i: nat, j: nat, k: nat)
    requires IsConvexRing(v) && i < |v| && i < j < k < i + |v|
    ensures Turn(Vertex(v, i), Vertex(v, j), Vertex(v, k)) < 0
  {
    var n := |v|;
    TurnCyclic(Vertex(v, i), Vertex(v, j), Vertex(v, k));
    if k < n {
      assert Turn(v[i], v[j], v[k]) < 0;
    } else if j < n {
      assert Turn(v[k - n], v[i], v[j]) < 0;
    } else {
      assert Turn(v[j - n], v[k - n], v[i]) < 0;
    }
  }

  /** Within one walk from its far end, heights over an edge are positive except at the edge itself. */
  lemma HeightPositive(v: seq<Coordinate>, e: nat, k: nat)
    requires IsConvexRing(v) && 1 <= e <= |v| && e <= k <= e - 1 + |v|
    ensures k == e || k == e - 1 + |v| ==> Height(v, e, k) == 0
    ensures e < k < e - 1 + |v| ==> Height(v, e, k) > 0
  {
    if e < k < e - 1 + |v| {
      CyclicTurn(v, e - 1, e, k);
    } else {
      assert Vertex(v, k) == Vertex(v, e) || Vertex(v, k) == Vertex(v, e - 1);
    }
  }

  /** Walking clockwise from a point on the base line, a vertex strictly above it is higher than one of its two
      companions: there is no dip. */
  lemma NoDip(h: HalfPlane, base: Coordinate, k: Coordinate, q: Coordinate, j: Coordinate)
    requires Turn(base, k, q) < 0 && Turn(base, k, j) < 0 && Turn(base, q, j) < 0 && Turn(k, q, j) < 0
    requires h.At(base) == 0 && h.At(q) < 0
    ensures h.At(q) < h.At(k) || h.At(q) < h.At(j)
  {
    Barycentric(h, k, j, base, q);
    TurnCyclic(base, k, q); TurnCyclic(base, k, j); TurnCyclic(base, q, j); TurnCyclic(k, q, j);
    TurnCyclic(k, j, base); TurnCyclic(q, j, base); TurnCyclic(k, q, base);
    var d, a, b := Turn(base, k, j), Turn(base, q, j), Turn(base, k, q);
    assert d * h.At(q) == a * h.At(k) + b * h.At(j) by {
      assert Turn(k, j, q) * h.At(base) == 0;
    }
    assert d > a + b;
    if h.At(q) >= h.At(k) && h.At(q) >= h.At(j) {
      Overweight(d, h.At(q), a, h.At(k), b, h.At(j));
    }
  }

  lemma Overweight(d: int, x: int, a: int, y: int, b: int, z: int)
    requires a + b < d < 0 && a < 0 && b < 0 && x < 0 && y <= x && z <= x
    ensures d * x != a * y + b * z
  {
    assert a * y + b * z == a * (y - x) + b * (z - x) + (a + b) * x;
    ProductNonNegative(a, y - x);
    ProductNonNegative(b, z - x);
    SignOfProduct(a + b - d, x);
  }

  /** Once the heights over an edge have begun to fall, they stay below the summit until the walk returns to the
      edge. */
  lemma FallsToTheEnd(v: seq<Coordinate>, e: nat, u: nat, w: nat)
    requires IsConvexRing(v) && 1 <= e <= |v| && e < u < u + 1 < w <= e - 1 + |v|
    requires Height(v, e, u + 1) < Height(v, e, u)
    ensures Height(v, e, w) < Height(v, e, u + 1)
  {
    var p, q := Vertex(v, e - 1), Vertex(v, e);
    var h := RightOf(p, q);
    RightOfIsTurn(p, q, q); RightOfIsTurn(p, q, Vertex(v, u));
    RightOfIsTurn(p, q, Vertex(v, u + 1)); RightOfIsTurn(p, q, Vertex(v, w));
    HeightPositive(v, e, u + 1);
    WindowTurn(v, e, e, u, u + 1); WindowTurn(v, e, e, u, w);
    WindowTurn(v, e, e, u + 1, w); WindowTurn(v, e, u, u + 1, w);
    NoDip(h, q, Vertex(v, u), Vertex(v, u + 1), Vertex(v, w));
  }

  /** Three positions of one walk around the ring that ends where it began. */
  lemma WindowTurn(v: seq<Coordinate>, e: nat, i: nat, j: nat, k: nat)
    requires IsConvexRing(v) && 1 <= e <= |v| && e <= i < j < k <= e - 1 + |v|
    ensures Turn(Vertex(v, i), Vertex(v, j), Vertex(v, k)) < 0
  {
    if k < e - 1 + |v| {
      WindowTurnInside(v, e, i, j, k);
    } else {
      assert Vertex(v, k) == Vertex(v, e - 1);
      TurnCyclic(Vertex(v, e - 1), Vertex(v, i), Vertex(v, j));
      CyclicTurn(v, e - 1, i, j);
    }
  }

  lemma WindowTurnInside(v: seq<Coordinate>, e: nat, i: nat, j: nat, k: nat)
    requires IsConvexRing(v) && 1 <= e <= |v| && e <= i < j < k < e - 1 + |v|
    ensures Turn(Vertex(v, i), Vertex(v, j), Vertex(v, k)) < 0
  {
    var n := |v|;
    if i < n {
      CyclicTurn(v, i, j, k);
    } else {
      assert Turn(v[i - n], v[j - n], v[k - n]) < 0;
    }
  }

  /** When the base edge advances, the old summit u is still at least as high as all vertices before it. */
  lemma SummitAdvances(v: seq<Coordinate>, e: nat, u: nat, w: nat)
    requires IsConvexRing(v) && 1 <= e < |v| && e + 1 <= w <= u < e - 1 + |v|
    requires Height(v, e, w) <= Height(v, e, u)
    ensures Height(v, e + 1, w) <= Height(v, e + 1, u)
  {
    if e + 1 < w < u {
      var a, b, c := Vertex(v, e - 1), Vertex(v, e), Vertex(v, e + 1);
      var pw, pu := Vertex(v, w), Vertex(v, u);
      FourPoints(a, b, pw, pu);
      FourPoints(b, c, pw, pu);
      TurnCyclic(a, pw, pu); TurnCyclic(b, pw, pu); TurnCyclic(c, pw, pu);
      var h := RightOf(pw, pu);
      RightOfIsTurn(pw, pu, pu); RightOfIsTurn(pw, pu, a); RightOfIsTurn(pw, pu, b); RightOfIsTurn(pw, pu, c);
      CyclicTurn(v, e - 1, e, u); CyclicTurn(v, e - 1, e + 1, u);
      CyclicTurn(v, e, e + 1, u); CyclicTurn(v, e - 1, e, e + 1);
      CyclicTurn(v, e, w, u);
      TurnCyclic(a, b, pu); TurnCyclic(a, c, pu); TurnCyclic(b, c, pu);
      NoDip(h, pu, a, b, c);
    } else if w == e + 1 < u {
      HeightPositive(v, e + 1, w);
      HeightPositive(v, e + 1, u);
    }
  }
}
