/** What the Graham scan keeps on its stack, and why the finished ring is the convex hull. */
module GrahamScan {
  import opened Plane
  import opened RadialOrder

  /** c[0] is the focal point, and the points follow in strict radial order around it. */
  ghost predicate RadiallySorted(c: seq<Coordinate>) {
    && |c| > 0
    && (forall k {:trigger Above(c[0], c[k])} :: 0 < k < |c| ==> Above(c[0], c[k]))
    && (forall i, j {:trigger Precedes(c[0], c[i], c[j])} :: 0 <= i < j < |c| ==> Precedes(c[0], c[i], c[j]))
  }

  /** No three points, taken in order, turn counter-clockwise. */
  ghost predicate TurnsClockwise(c: seq<Coordinate>) {
    forall i, j, k {:trigger Turn(c[i], c[j], c[k])} :: 0 <= i < j < k < |c| ==> Turn(c[i], c[j], c[k]) <= 0
  }

  ghost predicate Chain(c: seq<Coordinate>) {
    RadiallySorted(c) && TurnsClockwise(c)
  }

  /** Four points in radial order: two consecutive turns that are not counter-clockwise imply the two long ones. */
  lemma LongTurns(o: Coordinate, a: Coordinate, b: Coordinate, c: Coordinate, d: Coordinate)
    requires Above(o, a) && Above(o, b) && Above(o, c) && Above(o, d)
    requires Precedes(o, a, b) && Precedes(o, b, c) && Precedes(o, c, d)
    requires Turn(a, b, c) <= 0 && Turn(b, c, d) <= 0
    ensures Turn(a, c, d) <= 0 && Turn(a, b, d) <= 0
  {
    PrecedesTransitive(o, a, b, c);
    PrecedesTransitive(o, b, c, d);
    if Turn(o, b, c) == 0 {
      // b and c on one ray: then a is on it too, and every side is decided by the ray
      BeyondOnRay(o, b, c, a);
      TurnCyclic(a, b, c);
      TurnCyclic(o, a, b);
      assert Turn(o, a, b) == 0;
      BeyondOnRay(o, a, b, d);
      AngleTransitive(o, a, b, c);
      CollinearFromApex(o, a, b, c);
      BeyondOnRay(o, a, c, d);
    } else {
      LongTurnAtC(o, a, b, c, d);
      LongTurnAtB(o, a, b, c, d);
    }
  }

  lemma CollinearFromApex(o: Coordinate, a: Coordinate, b: Coordinate, c: Coordinate)
    requires Above(o, a) && Above(o, b) && Above(o, c)
    requires Turn(o, a, b) == 0 && Turn(o, b, c) == 0
    ensures Turn(o, a, c) == 0
  {
    TurnCyclic(o, a, b); TurnCyclic(o, b, c); TurnCyclic(o, a, c);
    TurnCyclic(o, b, a); TurnCyclic(o, c, b);
    AngleTransitive(o, a, b, c);
    AngleTransitive(o, c, b, a);
  }

  lemma LongTurnAtC(o: Coordinate, a: Coordinate, b: Coordinate, c: Coordinate, d: Coordinate)
    requires Turn(o, a, c) <= 0 && Turn(o, b, c) < 0 && Turn(o, c, d) <= 0
    requires Turn(a, b, c) <= 0 && Turn(b, c, d) <= 0
    ensures Turn(a, c, d) <= 0
  {
    RelationAtC(o, a, b, c, d);
    WeightedProducts(-Turn(o, b, c), -Turn(a, c, d), -Turn(a, b, c), -Turn(o, c, d), -Turn(b, c, d), -Turn(o, a, c));
  }

  lemma RelationAtC(o: Coordinate, a: Coordinate, b: Coordinate, c: Coordinate, d: Coordinate)
    ensures (-Turn(o, b, c)) * (-Turn(a, c, d))
         == (-Turn(a, b, c)) * (-Turn(o, c, d)) + (-Turn(b, c, d)) * (-Turn(o, a, c))
  {
  }

  lemma LongTurnAtB(o: Coordinate, a: Coordinate, b: Coordinate, c: Coordinate, d: Coordinate)
    requires Turn(o, a, b) <= 0 && Turn(o, b, c) < 0 && Turn(o, b, d) <= 0
    requires Turn(a, b, c) <= 0 && Turn(b, c, d) <= 0
    ensures Turn(a, b, d) <= 0
  {
    RelationAtB(o, a, b, c, d);
    WeightedProducts(-Turn(o, b, c), -Turn(a, b, d), -Turn(a, b, c), -Turn(o, b, d), -Turn(b, c, d), -Turn(o, a, b));
  }

  lemma RelationAtB(o: Coordinate, a: Coordinate, b: Coordinate, c: Coordinate, d: Coordinate)
    ensures (-Turn(o, b, c)) * (-Turn(a, b, d))
         == (-Turn(a, b, c)) * (-Turn(o, b, d)) + (-Turn(b, c, d)) * (-Turn(o, a, b))
  {
  }

  lemma WeightedProducts(k: int, x: int, p: int, q: int, r: int, s: int)
    requires k > 0 && p >= 0 && q >= 0 && r >= 0 && s >= 0
    requires k * x == p * q + r * s
    ensures x >= 0
  {
    ProductNonNegative(p, q);
    ProductNonNegative(r, s);
    SignOfProduct(k, x);
  }

  /** A point popped because the path turns left at it lies in the triangle of the focal point, its
      predecessor and the new point, so no half-plane around these three excludes it. */
  lemma PoppedIsEnclosed(h: HalfPlane, o: Coordinate, a: Coordinate, b: Coordinate, r: Coordinate)
    requires Turn(o, a, b) <= 0 && Turn(o, b, r) <= 0 && Turn(a, b, r) > 0
    requires h.Contains(o) && h.Contains(a) && h.Contains(r)
    ensures h.Contains(b)
  {
    Barycentric(h, o, a, r, b);
    TurnCyclic(b, a, r); TurnCyclic(a, b, r);
    WeightedTriple(Turn(o, a, r), h.At(b), Turn(b, a, r), h.At(o), Turn(o, b, r), h.At(a), Turn(o, a, b), h.At(r));
  }

  lemma WeightedTriple(k: int, x: int, p: int, a: int, q: int, b: int, r: int, c: int)
    requires k < 0 && p <= 0 && q <= 0 && r <= 0 && a <= 0 && b <= 0 && c <= 0
    requires k * x == p * a + q * b + r * c
    ensures x <= 0
  {
    ProductNonNegative(p, a);
    ProductNonNegative(q, b);
    ProductNonNegative(r, c);
    SignOfProduct(k, x);
  }

  /** Pushing a point that comes later and does not turn left at the top keeps the chain. */
  lemma PushKeepsChain(s: seq<Coordinate>, r: Coordinate)
    requires |s| >= 2 && Chain(s)
    requires Above(s[0], r) && (forall k :: 0 <= k < |s| ==> Precedes(s[0], s[k], r))
    requires Turn(s[|s| - 2], s[|s| - 1], r) <= 0
    ensures Chain(s + [r])
  {
    var o, m := s[0], |s| - 1;
    var t := s + [r];
    forall i | 0 <= i < m ensures Turn(s[i], s[m], r) <= 0 {
      if 0 < i < m - 1 {
        LongTurns(o, s[i], s[m - 1], s[m], r);
      }
    }
    forall i, j, k | 0 <= i < j < k < |t| ensures Turn(t[i], t[j], t[k]) <= 0 {
      if k == |s| && 0 < i && j < m {
        LongTurns(o, s[i], s[j], s[m], r);
      }
    }
  }

  lemma PrefixKeepsChain(s: seq<Coordinate>, n: nat)
    requires Chain(s) && 0 < n <= |s|
    ensures Chain(s[..n])
  {
  }

  /** Popping the top b before a new point r keeps the hull of the stack together with r. */
  lemma PopKeepsHull(s: seq<Coordinate>, b: Coordinate, r: Coordinate, qs: seq<Coordinate>)
    requires |s| >= 2 && Chain(s + [b]) && Precedes(s[0], b, r)
    requires Turn(s[|s| - 1], b, r) > 0
    requires Encloses(s + [b, r], qs)
    ensures Encloses(s + [r], qs)
  {
    var o, a := s[0], s[|s| - 1];
    assert (s + [b])[0] == o && (s + [b])[|s| - 1] == a && (s + [b])[|s|] == b;
    forall h: HalfPlane | h.ContainsAll(s + [r]) ensures h.ContainsAll(qs) {
      assert (s + [r])[0] == o && (s + [r])[|s| - 1] == a && (s + [r])[|s|] == r;
      PoppedIsEnclosed(h, o, a, b, r);
      forall k | 0 <= k < |s + [b, r]| ensures h.Contains((s + [b, r])[k]) {
        if k < |s| { assert (s + [r])[k] == s[k]; }
      }
    }
  }

  lemma ExtendHull(s: seq<Coordinate>, qs: seq<Coordinate>, r: Coordinate)
    requires Encloses(s, qs)
    ensures Encloses(s + [r], qs + [r])
  {
    forall h: HalfPlane | h.ContainsAll(s + [r]) ensures h.ContainsAll(qs + [r]) {
      forall k | 0 <= k < |s| ensures h.Contains(s[k]) { assert (s + [r])[k] == s[k]; }
      assert h.ContainsAll(s);
      assert h.ContainsAll(qs);
      assert h.Contains((s + [r])[|s|]);
    }
  }

  /** Every point of c lies on or to the right of every edge of the ring. */
  ghost predicate RightOfEveryEdge(ring: seq<Coordinate>, c: seq<Coordinate>) {
    forall k :: 0 <= k < |ring| - 1 ==> RightOf(ring[k], ring[k + 1]).ContainsAll(c)
  }

  lemma ChainEdge(s: seq<Coordinate>, k: nat, j: nat)
    requires TurnsClockwise(s) && k < |s| && j < |s|
    ensures Turn(s[k], s[if k + 1 < |s| then k + 1 else 0], s[j]) <= 0
  {
    var n := if k + 1 < |s| then k + 1 else 0;
    TurnCyclic(s[k], s[n], s[j]);
    if j == k || j == n || n == k {
      assert Turn(s[k], s[n], s[j]) == 0;
    } else if n == 0 {
      assert Turn(s[0], s[j], s[k]) <= 0;
    } else if j < k {
      assert Turn(s[j], s[k], s[n]) <= 0;
    } else {
      assert Turn(s[k], s[n], s[j]) <= 0;
    }
  }

  /** The closed chain has all points it encloses on the right of each of its edges. */
  lemma ClosedChainIsHull(s: seq<Coordinate>, c: seq<Coordinate>)
    requires |s| >= 2 && TurnsClockwise(s) && Encloses(s, c)
    ensures RightOfEveryEdge(s + [s[0]], c)
  {
    var ring := s + [s[0]];
    forall k | 0 <= k < |s| ensures RightOf(ring[k], ring[k + 1]).ContainsAll(c) {
      var h := RightOf(ring[k], ring[k + 1]);
      forall j | 0 <= j < |s| ensures h.Contains(s[j]) {
        RightOfIsTurn(ring[k], ring[k + 1], s[j]);
        ChainEdge(s, k, j);
      }
    }
  }
}
