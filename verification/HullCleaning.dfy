/** Removing repeated and collinear vertices from the ring of the Graham scan. */
module HullCleaning {
  import opened Plane
  import opened RadialOrder
  import opened GrahamScan

  /** Whether c2 lies on the segment from c1 to c3. */
  predicate IsBetween(c1: Coordinate, c2: Coordinate, c3: Coordinate) {
    && Sign(Turn(c1, c2, c3)) == 0
    && (
      || (c1.x != c3.x && (c1.x <= c2.x <= c3.x || c3.x <= c2.x <= c1.x))
      || (c1.y != c3.y && (c1.y <= c2.y <= c3.y || c3.y <= c2.y <= c1.y))
    )
  }

  /** The vertices kept after looking at the first n: a vertex is dropped when it equals its successor
      or lies between the last kept vertex and its successor. */
  ghost function Kept(ring: seq<Coordinate>, n: nat): (kept: seq<Coordinate>)
    requires n < |ring|
  {
    if n == 0 then []
    else
      var kept, curr, next := Kept(ring, n - 1), ring[n - 1], ring[n];
      if curr == next || (kept != [] && IsBetween(kept[|kept| - 1], curr, next)) then kept else kept + [curr]
  }

  /** No three points, taken in order, fail to turn clockwise: the vertices are in strictly convex position. */
  ghost predicate StrictlyConvex(c: seq<Coordinate>) {
    forall i, j, k {:trigger Turn(c[i], c[j], c[k])} :: 0 <= i < j < k < |c| ==> Turn(c[i], c[j], c[k]) < 0
  }

  /** The differences along a collinear triple are proportional in both coordinates. */
  lemma BetweenRatios(h: HalfPlane, p: Coordinate, q: Coordinate, r: Coordinate)
    requires Turn(p, q, r) == 0
    ensures (r.x - p.x) * h.At(q) == (r.x - q.x) * h.At(p) + (q.x - p.x) * h.At(r)
    ensures (r.y - p.y) * h.At(q) == (r.y - q.y) * h.At(p) + (q.y - p.y) * h.At(r)
  {
    assert (r.x - p.x) * h.At(q) == (r.x - q.x) * h.At(p) + (q.x - p.x) * h.At(r) - h.b * Turn(p, q, r);
    assert (r.y - p.y) * h.At(q) == (r.y - q.y) * h.At(p) + (q.y - p.y) * h.At(r) + h.a * Turn(p, q, r);
  }

  lemma ConvexCombination(d: int, x: int, e: int, a: int, f: int, b: int)
    requires d != 0 && d * x == e * a + f * b && d == e + f
    requires (e >= 0 && f >= 0) || (e <= 0 && f <= 0)
    requires a <= 0 && b <= 0
    ensures x <= 0
  {
    if d > 0 {
      ProductNonPositive(e, a);
      ProductNonPositive(f, b);
    } else {
      ProductNonNegative(e, a);
      ProductNonNegative(f, b);
    }
    SignOfProduct(d, x);
  }

  lemma BetweenIsEnclosed(h: HalfPlane, p: Coordinate, q: Coordinate, r: Coordinate)
    requires IsBetween(p, q, r) && h.Contains(p) && h.Contains(r)
    ensures h.Contains(q)
  {
    BetweenRatios(h, p, q, r);
    if p.x != r.x && (p.x <= q.x <= r.x || r.x <= q.x <= p.x) {
      ConvexCombination(r.x - p.x, h.At(q), r.x - q.x, h.At(p), q.x - p.x, h.At(r));
    } else {
      ConvexCombination(r.y - p.y, h.At(q), r.y - q.y, h.At(p), q.y - p.y, h.At(r));
    }
  }

  /** Continuing a straight path keeps the direction: b is seen on the same side of a from q and from r. */
  lemma BetweenSameSide(a: Coordinate, p: Coordinate, q: Coordinate, r: Coordinate)
    requires IsBetween(p, q, r) && p != q
    ensures Sign(Turn(a, p, q)) == Sign(Turn(a, p, r))
  {
    var h := RightOf(a, p);
    RightOfIsTurn(a, p, p); RightOfIsTurn(a, p, q); RightOfIsTurn(a, p, r);
    BetweenRatios(h, p, q, r);
    assert h.At(p) == 0;
    CollinearSteps(p, q, r);
    if q.x != p.x {
      SignOfProduct(r.x - p.x, h.At(q));
      SignOfProduct(q.x - p.x, h.At(r));
    } else {
      SignOfProduct(r.y - p.y, h.At(q));
      SignOfProduct(q.y - p.y, h.At(r));
    }
  }

  lemma CollinearSteps(p: Coordinate, q: Coordinate, r: Coordinate)
    requires IsBetween(p, q, r) && p != q
    ensures Sign(q.x - p.x) == Sign(r.x - p.x) && Sign(q.y - p.y) == Sign(r.y - p.y)
  {
    assert (q.x - p.x) * (r.y - p.y) == (r.x - p.x) * (q.y - p.y) by { TurnAt(p, q, r); }
    SignOfProduct(q.x - p.x, r.y - p.y);
    SignOfProduct(r.x - p.x, q.y - p.y);
  }

  /** In radial order, a straight triple has its middle point in the middle. */
  lemma StraightIsBetween(o: Coordinate, p: Coordinate, q: Coordinate, r: Coordinate)
    requires p == o || (Above(o, p) && Precedes(o, p, q))
    requires Above(o, q) && Above(o, r) && Precedes(o, q, r)
    requires Turn(p, q, r) == 0
    ensures IsBetween(p, q, r)
  {
    TurnCyclic(p, q, r);
    if p == o {
      RayIsBetween(o, o, q, r);
    } else if Turn(o, p, q) == 0 {
      BeyondOnRay(o, p, q, r);
      RayIsBetween(o, p, q, r);
    } else {
      if Turn(o, q, r) == 0 {
        BeyondOnRay(o, q, r, p);
        TurnCyclic(o, p, q); TurnCyclic(o, q, p);
        assert false;
      }
      FanIsBetween(o, p, q, r);
    }
  }

  lemma RayIsBetween(o: Coordinate, p: Coordinate, q: Coordinate, r: Coordinate)
    requires p == o || (Above(o, p) && Precedes(o, p, q) && Turn(o, p, q) == 0)
    requires Above(o, q) && Above(o, r) && Precedes(o, q, r) && Turn(o, q, r) == 0 && Turn(p, q, r) == 0
    ensures IsBetween(p, q, r)
  {
    NearerOnRay(o, q, r);
    if p != o { NearerOnRay(o, p, q); }
  }

  lemma FanIsBetween(o: Coordinate, p: Coordinate, q: Coordinate, r: Coordinate)
    requires Turn(o, p, q) < 0 && Turn(o, q, r) < 0 && Turn(p, q, r) == 0
    ensures IsBetween(p, q, r)
  {
    FourPoints(o, p, q, r);
    var e, f := Turn(o, p, q), Turn(o, q, r);
    FanRatios(o, p, q, r);
    FractionBetween(e, f, q.x - p.x, r.x - p.x);
    FractionBetween(e, f, q.y - p.y, r.y - p.y);
    if p.x == r.x && p.y == r.y { TurnCyclic(o, p, q); assert false; }
  }

  lemma FanRatios(o: Coordinate, p: Coordinate, q: Coordinate, r: Coordinate)
    requires Turn(p, q, r) == 0
    ensures (Turn(o, p, q) + Turn(o, q, r)) * (q.x - p.x) == Turn(o, p, q) * (r.x - p.x)
    ensures (Turn(o, p, q) + Turn(o, q, r)) * (q.y - p.y) == Turn(o, p, q) * (r.y - p.y)
  {
    FourPoints(o, p, q, r);
    TurnCyclic(p, q, r);
    Barycentric(HalfPlane(1, 0, -p.x), o, p, r, q);
    Barycentric(HalfPlane(0, 1, -p.y), o, p, r, q);
  }

  lemma FractionBetween(e: int, f: int, part: int, whole: int)
    requires e < 0 && f < 0 && (e + f) * part == e * whole
    ensures whole >= 0 ==> 0 <= part <= whole
    ensures whole <= 0 ==> whole <= part <= 0
  {
  }

  lemma ApexTurnsStrict(o: Coordinate, b: Coordinate, c: Coordinate, d: Coordinate)
    requires Above(o, b) && Above(o, c) && Above(o, d) && Precedes(o, b, c) && Precedes(o, c, d)
    requires Turn(o, b, c) < 0 && Turn(b, c, d) < 0
    ensures Turn(o, c, d) < 0 && Turn(o, b, d) < 0
  {
    TurnCyclic(b, c, d);
    TurnCyclic(o, b, c);
    TurnCyclic(o, c, b);
    if Turn(o, c, d) == 0 {
      BeyondOnRay(o, c, d, b);
    }
    AngleTransitive(o, b, c, d);
  }

  /** The strict form of LongTurns. */
  lemma LongTurnsStrict(o: Coordinate, a: Coordinate, b: Coordinate, c: Coordinate, d: Coordinate)
    requires Turn(o, a, b) < 0 && Turn(o, a, c) < 0 && Turn(o, b, c) < 0
    requires Turn(o, b, d) <= 0 && Turn(o, c, d) <= 0
    requires Turn(a, b, c) < 0 && Turn(b, c, d) < 0
    ensures Turn(a, c, d) < 0 && Turn(a, b, d) < 0
  {
    RelationAtC(o, a, b, c, d);
    StrictWeightedProducts(-Turn(o, b, c), -Turn(a, c, d), -Turn(a, b, c), -Turn(o, c, d), -Turn(b, c, d),
      -Turn(o, a, c));
    RelationAtB(o, a, b, c, d);
    StrictWeightedProducts(-Turn(o, b, c), -Turn(a, b, d), -Turn(a, b, c), -Turn(o, b, d), -Turn(b, c, d),
      -Turn(o, a, b));
  }

  lemma StrictWeightedProducts(k: int, x: int, p: int, q: int, r: int, s: int)
    requires k > 0 && p >= 0 && q >= 0 && r > 0 && s > 0
    requires k * x == p * q + r * s
    ensures x > 0
  {
    ProductNonNegative(p, q);
    SignOfProduct(r, s);
    SignOfProduct(k, x);
  }

  /** Strictness passes from the last turn to every long turn, as in PushKeepsChain. */
  lemma PushKeepsStrict(s: seq<Coordinate>, r: Coordinate)
    requires |s| >= 1 && StrictlyConvex(s) && RadiallySorted(s)
    requires Above(s[0], r) && (forall k :: 0 < k < |s| ==> Precedes(s[0], s[k], r))
    requires |s| >= 2 ==> Turn(s[|s| - 2], s[|s| - 1], r) < 0
    ensures StrictlyConvex(s + [r])
  {
    var o, m := s[0], |s| - 1;
    forall j | 0 <= j < m ensures Turn(s[j], s[m], r) < 0 && Turn(o, s[m], r) < 0 {
      LastTurnsStrict(s, r, j);
    }
    forall i, j | 0 <= i < j < m ensures Turn(s[i], s[j], r) < 0 {
      if i == 0 {
        ApexTurnsStrict(o, s[j], s[m], r);
      } else {
        ApexTurnsStrict(o, s[j], s[m], r);
        LongTurnsStrict(o, s[i], s[j], s[m], r);
      }
    }
  }

  lemma LastTurnsStrict(s: seq<Coordinate>, r: Coordinate, i: nat)
    requires i < |s| - 1 && StrictlyConvex(s) && RadiallySorted(s)
    requires Above(s[0], r) && (forall k :: 0 < k < |s| ==> Precedes(s[0], s[k], r))
    requires Turn(s[|s| - 2], s[|s| - 1], r) < 0
    ensures Turn(s[i], s[|s| - 1], r) < 0 && Turn(s[0], s[|s| - 1], r) < 0
  {
    var o, m := s[0], |s| - 1;
    if m > 1 {
      ApexTurnsStrict(o, s[m - 1], s[m], r);
      if 0 < i < m - 1 {
        PrecedesTransitive(o, s[m - 1], s[m], r);
        LongTurnsStrict(o, s[i], s[m - 1], s[m], r);
      }
    }
  }

  /** Leaving one point out of a chain leaves a chain. */
  lemma DropKeepsChain(a: seq<Coordinate>, b: Coordinate, c: seq<Coordinate>)
    requires |a| > 0 && Chain(a + [b] + c)
    ensures Chain(a + c)
  {
    var full, part := a + [b] + c, a + c;
    assert forall k :: 0 <= k < |part| ==> part[k] == full[if k < |a| then k else k + 1];
  }

  /** Leaving out a point between its neighbours keeps the hull. */
  lemma DropKeepsHull(a: seq<Coordinate>, b: Coordinate, c: seq<Coordinate>, qs: seq<Coordinate>)
    requires |a| > 0 && |c| > 0 && IsBetween(a[|a| - 1], b, c[0])
    requires Encloses(a + [b] + c, qs)
    ensures Encloses(a + c, qs)
  {
    var full, part := a + [b] + c, a + c;
    assert forall k :: 0 <= k < |full| && k != |a| ==> full[k] == part[if k < |a| then k else k - 1];
    forall h: HalfPlane | h.ContainsAll(part) ensures h.ContainsAll(qs) {
      assert part[|a| - 1] == a[|a| - 1] && part[|a|] == c[0];
      BetweenIsEnclosed(h, a[|a| - 1], b, c[0]);
      forall k | 0 <= k < |full| ensures h.Contains(full[k]) {
        if k != |a| {
          assert full[k] == part[if k < |a| then k else k - 1];
        }
      }
    }
  }

  /** A kept chain, ready for curr and then next. */
  ghost predicate ReadyFor(kept: seq<Coordinate>, curr: Coordinate, next: Coordinate) {
    Chain(kept + [curr, next]) && kept != [] && StrictlyConvex(kept + [curr])
  }

  lemma ReadyFacts(kept: seq<Coordinate>, curr: Coordinate, next: Coordinate)
    requires ReadyFor(kept, curr, next)
    ensures StrictlyConvex(kept) && RadiallySorted(kept) && RadiallySorted(kept + [curr])
    ensures Above(kept[0], curr) && Above(kept[0], next) && Precedes(kept[0], curr, next)
    ensures forall k :: 0 < k < |kept| ==>
      Above(kept[0], kept[k]) && Precedes(kept[0], kept[k], curr) && Precedes(kept[0], kept[k], next)
    ensures Turn(kept[|kept| - 1], curr, next) <= 0
    ensures |kept| >= 2 ==> Turn(kept[|kept| - 2], kept[|kept| - 1], curr) < 0
  {
    var t, u := kept + [curr, next], kept + [curr];
    assert forall k :: 0 <= k < |kept| ==> t[k] == u[k] == kept[k];
    assert t[|kept|] == u[|kept|] == curr && t[|kept| + 1] == next;
  }

  lemma SkipKeepsStrict(kept: seq<Coordinate>, curr: Coordinate, next: Coordinate)
    requires ReadyFor(kept, curr, next) && IsBetween(kept[|kept| - 1], curr, next)
    ensures StrictlyConvex(kept + [next])
  {
    ReadyFacts(kept, curr, next);
    var p := kept[|kept| - 1];
    if |kept| >= 2 {
      PrecedesTotal(kept[0], p, curr);
      BetweenSameSide(kept[|kept| - 2], p, curr, next);
    }
    PushKeepsStrict(kept, next);
  }

  lemma KeepKeepsStrict(kept: seq<Coordinate>, curr: Coordinate, next: Coordinate)
    requires ReadyFor(kept, curr, next) && !IsBetween(kept[|kept| - 1], curr, next)
    ensures StrictlyConvex(kept + [curr] + [next])
  {
    ReadyFacts(kept, curr, next);
    if Turn(kept[|kept| - 1], curr, next) == 0 {
      StraightIsBetween(kept[0], kept[|kept| - 1], curr, next);
      assert false;
    }
    PushKeepsStrict(kept + [curr], next);
  }

  /** The state of the clean-up of the chain s: what is kept, with the rest, is a chain with the hull of s,
      strictly convex up to the next vertex. */
  ghost predicate CleanState(kept: seq<Coordinate>, rest: seq<Coordinate>, s: seq<Coordinate>)
  {
    && kept != [] && rest != [] && s != [] && kept[0] == s[0]
    && (forall k :: 0 <= k < |kept| ==> kept[k] in s)
    && Chain(kept + rest)
    && Encloses(kept + rest, s)
    && StrictlyConvex(kept + [rest[0]])
  }

  lemma CleanStateReady(kept: seq<Coordinate>, rest: seq<Coordinate>, s: seq<Coordinate>)
    requires CleanState(kept, rest, s) && |rest| >= 2
    ensures ReadyFor(kept, rest[0], rest[1])
  {
    PrefixKeepsChain(kept + rest, |kept| + 2);
    assert (kept + rest)[..|kept| + 2] == kept + [rest[0], rest[1]];
  }

  lemma SkipStep(kept: seq<Coordinate>, rest: seq<Coordinate>, s: seq<Coordinate>)
    requires CleanState(kept, rest, s) && |rest| >= 2 && IsBetween(kept[|kept| - 1], rest[0], rest[1])
    ensures CleanState(kept, rest[1..], s)
  {
    CleanStateReady(kept, rest, s);
    assert kept + rest == kept + [rest[0]] + rest[1..];
    DropKeepsChain(kept, rest[0], rest[1..]);
    DropKeepsHull(kept, rest[0], rest[1..], s);
    SkipKeepsStrict(kept, rest[0], rest[1]);
  }

  lemma KeepStep(kept: seq<Coordinate>, rest: seq<Coordinate>, s: seq<Coordinate>)
    requires CleanState(kept, rest, s) && |rest| >= 2 && !IsBetween(kept[|kept| - 1], rest[0], rest[1])
    requires rest[0] in s
    ensures CleanState(kept + [rest[0]], rest[1..], s)
  {
    CleanStateReady(kept, rest, s);
    assert kept + rest == (kept + [rest[0]]) + rest[1..];
    KeepKeepsStrict(kept, rest[0], rest[1]);
  }

  lemma CleanFirst(s: seq<Coordinate>)
    requires Chain(s) && |s| >= 2
    ensures s[0] != s[1] && CleanState([s[0]], s[1..], s)
  {
    PrecedesTotal(s[0], s[1], s[1]);
    assert [s[0]] + s[1..] == s;
  }

  lemma {:induction false} CleanPrefix(s: seq<Coordinate>, n: nat)
    requires Chain(s) && 0 < n < |s|
    ensures CleanState(Kept(s + [s[0]], n), s[n..], s)
  {
    var ring := s + [s[0]];
    assert ring[n - 1] == s[n - 1] && ring[n] == s[n];
    if n == 1 {
      CleanFirst(s);
      assert Kept(ring, 0) == [];
      assert Kept(ring, 1) == [s[0]];
    } else {
      CleanPrefix(s, n - 1);
      PrecedesTotal(s[0], s[n - 1], s[n]);
      assert s[n - 1..][1..] == s[n..];
      NextKept(Kept(ring, n - 1), s[n - 1..], s, Kept(ring, n));
    }
  }

  lemma NextKept(kept: seq<Coordinate>, rest: seq<Coordinate>, s: seq<Coordinate>, next: seq<Coordinate>)
    requires |rest| >= 2 && CleanState(kept, rest, s) && rest[0] in s
    requires next == if IsBetween(kept[|kept| - 1], rest[0], rest[1]) then kept else kept + [rest[0]]
    ensures CleanState(next, rest[1..], s)
  {
    if IsBetween(kept[|kept| - 1], rest[0], rest[1]) {
      SkipStep(kept, rest, s);
    } else {
      KeepStep(kept, rest, s);
    }
  }

  /** The closing vertex is always kept: it is not between its predecessor and the focal point. */
  lemma LastIsKept(kept: seq<Coordinate>, p: Coordinate, s: seq<Coordinate>)
    requires CleanState(kept, [p], s)
    ensures !IsBetween(kept[|kept| - 1], p, kept[0]) && p != kept[0]
  {
    var t := kept + [p];
    assert t[|kept|] == p && t[0] == kept[0] && t[|kept| - 1] == kept[|kept| - 1];
    assert Above(t[0], t[|kept|]);
    TurnCyclic(kept[0], kept[|kept| - 1], p);
    if |kept| >= 2 { assert Turn(t[0], t[|kept| - 1], t[|kept|]) < 0; }
  }

  /** The clean-up of a closed chain keeps input points in strictly convex position with the same hull. */
  lemma CleanedRing(s: seq<Coordinate>)
    requires |s| >= 2 && Chain(s)
    ensures var kept := Kept(s + [s[0]], |s|);
      && |kept| >= 2 && kept[0] == s[0] && kept[|kept| - 1] == s[|s| - 1]
      && (forall k :: 0 <= k < |kept| ==> kept[k] in s)
      && Chain(kept) && StrictlyConvex(kept) && Encloses(kept, s)
  {
    var ring, m := s + [s[0]], |s| - 1;
    CleanPrefix(s, m);
    assert s[m..] == [s[m]];
    assert ring[m] == s[m] && ring[|s|] == s[0];
    LastIsKept(Kept(ring, m), s[m], s);
    assert Kept(ring, |s|) == Kept(ring, m) + [s[m]];
    CleanedWith(Kept(ring, m), s[m], s);
  }

  lemma CleanedWith(kept: seq<Coordinate>, p: Coordinate, s: seq<Coordinate>)
    requires CleanState(kept, [p], s) && p in s
    ensures var all := kept + [p];
      && |all| >= 2 && all[0] == s[0] && all[|all| - 1] == p
      && (forall k :: 0 <= k < |all| ==> all[k] in s)
      && Chain(all) && StrictlyConvex(all) && Encloses(all, s)
  {
    assert [p][0] == p;
  }
}
