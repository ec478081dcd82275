/** Orientation and area of closed rings. */
module RingArea {
  import opened Plane
  import opened CGAlgorithms
  import opened Calipers
  import opened ConvexHull
  import opened GrahamScan

  // --- Orientation

  /** The first of the highest points up to index n. */
  ghost function Highest(ring: seq<Coordinate>, n: nat): (h: nat)
    requires n < |ring|
    ensures h <= n && forall k {:trigger ring[k]} :: 0 <= k <= n ==>
      ring[k].y <= ring[h].y && (k < h ==> ring[k].y < ring[h].y)
  {
    if n == 0 then 0
    else
      var h := Highest(ring, n - 1);
      if ring[n].y > ring[h].y then n else h
  }

  /** The nearest index before i, around the ring, at a point other than ring[hi]; hi if there is none. */
  ghost function Before(ring: seq<Coordinate>, i: nat, hi: nat): (prev: nat)
    requires i < |ring| && hi < |ring|
    ensures prev < |ring|
    decreases if i > hi then i - hi else i + |ring| - hi
  {
    var prev := if i == 0 then |ring| - 1 else i - 1;
    if ring[prev] == ring[hi] && prev != hi then Before(ring, prev, hi) else prev
  }

  /** The nearest index after i, around the ring. */
  ghost function After(ring: seq<Coordinate>, i: nat, hi: nat): (next: nat)
    requires i < |ring| - 1 && hi < |ring| - 1
    ensures next < |ring| - 1
    decreases if i < hi then hi - i else hi + |ring| - 1 - i
  {
    var next := if i + 1 == |ring| - 1 then 0 else i + 1;
    if ring[next] == ring[hi] && next != hi then After(ring, next, hi) else next
  }

  /** The turn at the top of the ring, as seen from its neighbours: counter-clockwise, or flat and running to the
      left. */
  predicate LooksCCW(prev: Coordinate, top: Coordinate, next: Coordinate) {
    && prev != top && next != top && prev != next
    && (Turn(prev, top, next) > 0 || (Turn(prev, top, next) == 0 && prev.x > next.x))
  }

  ghost predicate CCW(ring: seq<Coordinate>)
    requires IsClosed(ring) && |ring| >= 2
  {
    HighestIsNotLast(ring);
    var hi := Highest(ring, |ring| - 1);
    LooksCCW(ring[Before(ring, hi, hi)], ring[hi], ring[After(ring, hi, hi)])
  }

  method FindHighest(ring: seq<Coordinate>) returns (hiIndex: nat)
    requires |ring| > 0
    ensures hiIndex == Highest(ring, |ring| - 1)
  {
    hiIndex := 0;
    for i := 1 to |ring|
      invariant hiIndex == Highest(ring, i - 1)
    {
      if ring[i].y > ring[hiIndex].y { hiIndex := i; }
    }
  }

  method FindBefore(ring: seq<Coordinate>, hiIndex: nat) returns (iPrev: nat)
    requires hiIndex < |ring|
    ensures iPrev == Before(ring, hiIndex, hiIndex)
  {
    iPrev := if hiIndex == 0 then |ring| - 1 else hiIndex - 1;
    while ring[iPrev] == ring[hiIndex] && iPrev != hiIndex
      invariant 0 <= iPrev < |ring|
      invariant Before(ring, hiIndex, hiIndex)
             == if ring[iPrev] == ring[hiIndex] && iPrev != hiIndex then Before(ring, iPrev, hiIndex) else iPrev
      decreases if iPrev >= hiIndex then iPrev - hiIndex else iPrev + |ring| - hiIndex
    {
      iPrev := if iPrev == 0 then |ring| - 1 else iPrev - 1;
    }
  }

  method FindAfter(ring: seq<Coordinate>, hiIndex: nat) returns (iNext: nat)
    requires hiIndex < |ring| - 1
    ensures iNext == After(ring, hiIndex, hiIndex)
  {
    var nPts := |ring| - 1;
    iNext := if hiIndex + 1 == nPts then 0 else hiIndex + 1;
    while ring[iNext] == ring[hiIndex] && iNext != hiIndex
      invariant 0 <= iNext < nPts
      invariant After(ring, hiIndex, hiIndex)
             == if ring[iNext] == ring[hiIndex] && iNext != hiIndex then After(ring, iNext, hiIndex) else iNext
      decreases if iNext <= hiIndex then hiIndex - iNext else hiIndex + nPts - iNext
    {
      iNext := if iNext + 1 == nPts then 0 else iNext + 1;
    }
  }

  lemma HighestIsNotLast(ring: seq<Coordinate>)
    requires IsClosed(ring) && |ring| >= 2
    ensures Highest(ring, |ring| - 1) < |ring| - 1
  {
    var h := Highest(ring, |ring| - 1);
    assert ring[0].y <= ring[h].y;
  }

  method IsCCW(ring: seq<Coordinate>) returns (ccw: bool)
    requires IsClosed(ring) && |ring| >= 2
    ensures ccw <==> CCW(ring)
  {
    HighestIsNotLast(ring);
    var hiIndex := FindHighest(ring);
    var iPrev := FindBefore(ring, hiIndex);
    var iNext := FindAfter(ring, hiIndex);
    var hiPt, prev, next := ring[hiIndex], ring[iPrev], ring[iNext];
    if prev == hiPt || next == hiPt || prev == next {
      return false;
    }
    var disc := OrientationIndex(prev, hiPt, next);
    if disc == 0 {
      ccw := prev.x > next.x;
    } else {
      ccw := disc > 0;
    }
  }

  // --- Area

  /** Twice the signed area swept from base along the first n segments: positive if it runs counter-clockwise. */
  ghost function Swept(base: Coordinate, ring: seq<Coordinate>, n: nat): int
    requires n < |ring|
  {
    if n == 0 then 0 else Swept(base, ring, n - 1) + Turn(base, ring[n - 1], ring[n])
  }

  /** What the sum of signedArea has after n segments. */
  ghost function Trapezoids(ring: seq<Coordinate>, n: nat): int
    requires n < |ring|
  {
    if n == 0 then 0 else Trapezoids(ring, n - 1) + (ring[n - 1].x + ring[n].x) * (ring[n].y - ring[n - 1].y)
  }

  /** Moving the base changes the swept area by a term that depends on the ends of the path only. */
  lemma {:induction false} MovedBase(base: Coordinate, base': Coordinate, ring: seq<Coordinate>, n: nat)
    requires n < |ring|
    ensures Swept(base, ring, n) - Swept(base', ring, n) == Turn(base, ring[0], base') - Turn(base, ring[n], base')
  {
    if n > 0 {
      MovedBase(base, base', ring, n - 1);
      FourPoints(base, ring[n - 1], ring[n], base');
      TurnCyclic(base', ring[n - 1], ring[n]);
    }
  }

  lemma {:induction false} SweptTrapezoids(ring: seq<Coordinate>, n: nat)
    requires n < |ring|
    ensures Swept(Coordinate(0, 0), ring, n) == Trapezoids(ring, n) + ring[0].x * ring[0].y - ring[n].x * ring[n].y
  {
    if n > 0 {
      SweptTrapezoids(ring, n - 1);
      OneTrapezoid(ring[n - 1], ring[n]);
    }
  }

  lemma OneTrapezoid(b: Coordinate, c: Coordinate)
    ensures Turn(Coordinate(0, 0), b, c) == (b.x + c.x) * (c.y - b.y) + b.x * b.y - c.x * c.y
  {
  }

  /** For a closed ring the area swept does not depend on the base, and is what signedArea adds up. */
  lemma SweptArea(base: Coordinate, ring: seq<Coordinate>)
    requires IsClosed(ring)
    ensures Swept(base, ring, |ring| - 1) == Trapezoids(ring, |ring| - 1)
  {
    MovedBase(base, Coordinate(0, 0), ring, |ring| - 1);
    SweptTrapezoids(ring, |ring| - 1);
  }

  /** The area of the ring, positive if it runs clockwise. */
  method SignedArea(ring: seq<Coordinate>) returns (area: real)
    requires IsClosed(ring)
    ensures forall base {:trigger Swept(base, ring, |ring| - 1)} :: Swept(base, ring, |ring| - 1) as real == -2.0 * area
  {
    forall base: Coordinate {:trigger Swept(base, ring, |ring| - 1)}
      ensures Swept(base, ring, |ring| - 1) == Trapezoids(ring, |ring| - 1)
    {
      SweptArea(base, ring);
    }
    var npts := |ring|;
    if npts < 3 {
      NoArea(ring);
      return 0.0;
    }
    var sum := 0;
    for i := 0 to npts - 1
      invariant sum == Trapezoids(ring, i)
    {
      var b, c := ring[i], ring[i + 1];
      sum := sum + (b.x + c.x) * (c.y - b.y);
    }
    area := -(sum as real) / 2.0;
  }

  lemma NoArea(ring: seq<Coordinate>)
    requires IsClosed(ring) && |ring| < 3
    ensures Trapezoids(ring, |ring| - 1) == 0
  {
    if |ring| == 2 { assert Trapezoids(ring, 0) == 0; }
  }

  // --- Convex rings

  /** The vertices of v, closed. */
  function Closed(v: seq<Coordinate>): (ring: seq<Coordinate>)
    requires v != []
    ensures IsClosed(ring) && |ring| == |v| + 1
  {
    v + [v[0]]
  }

  function Reversed(ring: seq<Coordinate>): (r: seq<Coordinate>)
    ensures |r| == |ring| && forall k {:trigger r[k]} :: 0 <= k < |ring| ==> r[k] == ring[|ring| - 1 - k]
  {
    seq(|ring|, k requires 0 <= k < |ring| => ring[|ring| - 1 - k])
  }

  // What isCCW looks at is the walk around the ring that begins and ends at the highest point.

  function Walk(ring: seq<Coordinate>, hi: nat): (w: seq<Coordinate>)
    requires IsClosed(ring) && hi < |ring| - 1
    ensures |w| == |ring| && IsClosed(w) && w[0] == ring[hi]
  {
    ring[hi..|ring| - 1] + ring[..hi + 1]
  }

  /** The first and the last point of the walk that differ from its ends. */
  ghost predicate Nearest(w: seq<Coordinate>, a: nat, b: nat) {
    && 0 < a <= b < |w| - 1 && w[a] != w[0] && w[b] != w[0]
    && forall d {:trigger w[d]} :: 0 <= d < |w| && w[d] != w[0] ==> a <= d <= b
  }

  lemma {:induction false} AfterInWalk(ring: seq<Coordinate>, i: nat, hi: nat, d: nat, m: nat) returns (a: nat)
    requires IsClosed(ring) && hi < |ring| - 1 && i < |ring| - 1
    requires d == if i >= hi then i - hi else |ring| - 1 - hi + i
    requires d < m < |ring| - 1 && Walk(ring, hi)[m] != ring[hi]
    requires forall t :: 0 <= t <= d ==> Walk(ring, hi)[t] == ring[hi]
    ensures d < a <= m && Walk(ring, hi)[a] == ring[After(ring, i, hi)] != ring[hi]
    ensures forall t :: 0 <= t < a ==> Walk(ring, hi)[t] == ring[hi]
    decreases |ring| - d
  {
    var next := if i + 1 == |ring| - 1 then 0 else i + 1;
    assert Walk(ring, hi)[d + 1] == ring[next];
    if ring[next] == ring[hi] {
      a := AfterInWalk(ring, next, hi, d + 1, m);
    } else {
      a := d + 1;
    }
  }

  lemma {:induction false} BeforeInWalk(ring: seq<Coordinate>, i: nat, hi: nat, d: nat, m: nat) returns (b: nat)
    requires IsClosed(ring) && hi < |ring| - 1 && i < |ring|
    requires d == if i > hi then i - hi else |ring| - 1 - hi + i
    requires 0 < m < d && Walk(ring, hi)[m] != ring[hi]
    requires forall t :: d <= t < |ring| ==> Walk(ring, hi)[t] == ring[hi]
    ensures m <= b < d && Walk(ring, hi)[b] == ring[Before(ring, i, hi)] != ring[hi]
    ensures forall t :: b < t < |ring| ==> Walk(ring, hi)[t] == ring[hi]
    decreases if i > hi then i - hi else i + |ring| - hi
  {
    var prev := if i == 0 then |ring| - 1 else i - 1;
    var e := if i == 0 then d else d - 1;
    assert Walk(ring, hi)[e] == ring[prev];
    if ring[prev] == ring[hi] {
      b := BeforeInWalk(ring, prev, hi, e, m);
    } else {
      b := e;
    }
  }

  /** The searches from the highest point find the nearest other points. */
  lemma FindsNearest(ring: seq<Coordinate>, hi: nat, m: nat) returns (a: nat, b: nat)
    requires IsClosed(ring) && hi < |ring| - 1 && 0 < m < |ring| - 1 && Walk(ring, hi)[m] != ring[hi]
    ensures Nearest(Walk(ring, hi), a, b)
    ensures Walk(ring, hi)[a] == ring[After(ring, hi, hi)] && Walk(ring, hi)[b] == ring[Before(ring, hi, hi)]
  {
    a := AfterInWalk(ring, hi, hi, 0, m);
    b := BeforeInWalk(ring, hi, hi, |ring| - 1, m);
  }

  /** Seen from where it begins, the walk never turns counter-clockwise. */
  ghost predicate SeenClockwise(w: seq<Coordinate>)
    requires w != []
  {
    forall j, k {:trigger Turn(w[0], w[j], w[k])} :: 0 <= j <= k < |w| ==> Turn(w[0], w[j], w[k]) <= 0
  }

  ghost predicate IsTop(t: Coordinate, s: seq<Coordinate>) {
    forall k {:trigger s[k]} :: 0 <= k < |s| ==> s[k].y <= t.y
  }

  /** The ring is not all on one line, and from each of its highest points it is seen to run clockwise. */
  ghost predicate ClockwiseFromTop(ring: seq<Coordinate>)
    requires IsClosed(ring)
  {
    && !Collinear(ring)
    && forall hi {:trigger ring[hi]} :: 0 <= hi < |ring| - 1 && IsTop(ring[hi], ring) ==> SeenClockwise(Walk(ring, hi))
  }

  /** The turn at a highest point t between p and n, with q off their line: it is clockwise, or flat and runs to the
      right. */
  lemma TurnAtTop(p: Coordinate, t: Coordinate, n: Coordinate, q: Coordinate)
    requires p.y <= t.y && n.y <= t.y && q.y <= t.y && n != t
    requires Turn(t, n, p) <= 0 && Turn(t, n, q) <= 0 && Turn(t, q, p) < 0
    ensures !LooksCCW(p, t, n) && LooksCCW(n, t, p)
  {
    TurnCyclic(t, n, p);
    TurnCyclic(n, p, t);
    TurnCyclic(t, q, p);
    if Turn(p, t, n) == 0 {
      OffTheLine(p, t, n, q);
      FlatTop(p, t, n, q);
    } else if p == n {
      TurnAt(t, n, p);
    }
  }

  lemma OffTheLine(p: Coordinate, t: Coordinate, n: Coordinate, q: Coordinate)
    requires n != t && Turn(p, t, n) == 0 && Turn(p, t, q) != 0
    ensures Turn(t, n, q) != 0
  {
    if Turn(t, n, q) == 0 {
      TurnCyclic(p, t, n);
      assert Turn(t, n, t) == 0;
      OnOneLine(t, n, p, t, q);
    }
  }

  /** A flat top, seen from a point below it, runs level. */
  lemma FlatTop(p: Coordinate, t: Coordinate, n: Coordinate, q: Coordinate)
    requires p.y <= t.y && n.y <= t.y && q.y <= t.y
    requires Turn(p, t, n) == 0 && Turn(p, t, q) < 0 && Turn(t, n, q) < 0
    ensures p.x < t.x < n.x
  {
    TurnAt(t, n, q);
    LevelSteps(t.x - p.x, t.y - p.y, n.x - t.x, n.y - t.y, q.x - t.x, q.y - t.y);
  }

  lemma LevelSteps(a: int, b: int, c: int, d: int, e: int, f: int)
    requires b >= 0 && d <= 0 && f <= 0
    requires Det(a, b, c, d) == 0 && Det(a, b, e, f) < 0 && Det(c, d, e, f) < 0
    ensures a > 0 && c > 0
  {
    SameProduct(a, b, c, d, e, f);
    SignOfProduct(d, Det(a, b, e, f));
    SignOfProduct(b, Det(c, d, e, f));
    SignOfProduct(a, f);
    SignOfProduct(c, f);
  }

  lemma SameProduct(a: int, b: int, c: int, d: int, e: int, f: int)
    requires Det(a, b, c, d) == 0
    ensures d * Det(a, b, e, f) == b * Det(c, d, e, f)
  {
    assert d * Det(a, b, e, f) - b * Det(c, d, e, f) == f * Det(a, b, c, d);
  }

  lemma LooksFromTop(w: seq<Coordinate>, a: nat, b: nat)
    requires IsClosed(w) && SeenClockwise(w) && IsTop(w[0], w) && Nearest(w, a, b) && !Collinear(w)
    ensures !LooksCCW(w[b], w[0], w[a]) && LooksCCW(w[a], w[0], w[b])
  {
    var m := OffLine(w, b);
    assert w[m] != w[0] by { TurnAt(w[0], w[0], w[b]); TurnCyclic(w[0], w[m], w[b]); }
    assert Turn(w[0], w[a], w[b]) <= 0 && Turn(w[0], w[a], w[m]) <= 0 && Turn(w[0], w[m], w[b]) <= 0;
    TurnAtTop(w[b], w[0], w[a], w[m]);
  }

  lemma AllOnLine(w: seq<Coordinate>, b: nat)
    requires b < |w| && w[b] != w[0] && forall m {:trigger w[m]} :: 0 <= m < |w| ==> Turn(w[0], w[m], w[b]) == 0
    ensures Collinear(w)
  {
    forall i, j, k | 0 <= i < |w| && 0 <= j < |w| && 0 <= k < |w| ensures Turn(w[i], w[j], w[k]) == 0 {
      TurnCyclic(w[b], w[0], w[i]); TurnCyclic(w[b], w[0], w[j]); TurnCyclic(w[b], w[0], w[k]);
      OnOneLine(w[b], w[0], w[i], w[j], w[k]);
    }
  }

  lemma OffLine(w: seq<Coordinate>, b: nat) returns (m: nat)
    requires b < |w| && w[b] != w[0] && !Collinear(w)
    ensures m < |w| && Turn(w[0], w[m], w[b]) != 0
  {
    if forall m {:trigger w[m]} :: 0 <= m < |w| ==> Turn(w[0], w[m], w[b]) == 0 {
      AllOnLine(w, b);
    }
    m :| 0 <= m < |w| && Turn(w[0], w[m], w[b]) != 0;
  }

  lemma SomeOther(w: seq<Coordinate>) returns (m: nat)
    requires IsClosed(w) && !Collinear(w)
    ensures 0 < m < |w| - 1 && w[m] != w[0]
  {
    if forall m {:trigger w[m]} :: 0 <= m < |w| ==> w[m] == w[0] {
      TurnAt(w[0], w[0], w[0]);
    }
    m :| 0 <= m < |w| && w[m] != w[0];
  }

  /** A part of points on one line is on one line. */
  lemma PartCollinear(part: seq<Coordinate>, whole: seq<Coordinate>)
    requires Collinear(whole) && forall k :: 0 <= k < |part| ==> part[k] in whole
    ensures Collinear(part)
  {
    forall i, j, k | 0 <= i < |part| && 0 <= j < |part| && 0 <= k < |part|
      ensures Turn(part[i], part[j], part[k]) == 0
    {
      assert part[i] in whole && part[j] in whole && part[k] in whole;
      var a, b, c :| 0 <= a < |whole| && 0 <= b < |whole| && 0 <= c < |whole| &&
        whole[a] == part[i] && whole[b] == part[j] && whole[c] == part[k];
      assert Turn(whole[a], whole[b], whole[c]) == 0;
    }
  }

  lemma WalkHasAll(ring: seq<Coordinate>, hi: nat)
    requires IsClosed(ring) && hi < |ring| - 1
    ensures Collinear(Walk(ring, hi)) <==> Collinear(ring)
    ensures forall t: Coordinate :: IsTop(t, Walk(ring, hi)) <==> IsTop(t, ring)
  {
    var w, n := Walk(ring, hi), |ring| - 1;
    forall k | 0 <= k <= n ensures w[k] in ring { assert w[k] == ring[if hi + k < n then hi + k else hi + k - n]; }
    forall k | 0 <= k <= n ensures ring[k] in w { assert ring[k] == w[if k < hi then n - hi + k else k - hi]; }
    if Collinear(ring) { PartCollinear(w, ring); }
    if Collinear(w) { PartCollinear(ring, w); }
    forall t: Coordinate ensures IsTop(t, w) <==> IsTop(t, ring) {
      if IsTop(t, ring) { forall k | 0 <= k <= n ensures w[k].y <= t.y { assert w[k] in ring; } }
      if IsTop(t, w) { forall k | 0 <= k <= n ensures ring[k].y <= t.y { assert ring[k] in w; } }
    }
  }

  /** A ring that is seen to run clockwise from its highest points is not found counter-clockwise. */
  lemma ClockwiseIsFound(ring: seq<Coordinate>)
    requires IsClosed(ring) && |ring| >= 2 && ClockwiseFromTop(ring)
    ensures !CCW(ring)
  {
    HighestIsNotLast(ring);
    var hi := Highest(ring, |ring| - 1);
    var w := Walk(ring, hi);
    assert IsTop(ring[hi], ring);
    WalkHasAll(ring, hi);
    var m := SomeOther(w);
    var a, b := FindsNearest(ring, hi, m);
    LooksFromTop(w, a, b);
  }

  /** The walk goes to the same point from both ends, or nowhere. */
  ghost predicate IsSpike(w: seq<Coordinate>) {
    forall a: nat, b: nat {:trigger Nearest(w, a, b)} :: Nearest(w, a, b) ==> w[a] == w[b]
  }

  lemma SameNeighbours(ring: seq<Coordinate>, hi: nat)
    requires IsClosed(ring) && hi < |ring| - 1 && IsSpike(Walk(ring, hi))
    ensures ring[Before(ring, hi, hi)] == ring[After(ring, hi, hi)] || ring[After(ring, hi, hi)] == ring[hi]
  {
    hide Before, After;
    var w := Walk(ring, hi);
    if m :| 0 <= m < |w| && w[m] != w[0] {
      var a, b := FindsNearest(ring, hi, m);
    } else {
      var next := After(ring, hi, hi);
      assert ring[next] == w[if next < hi then |ring| - 1 - hi + next else next - hi];
    }
  }

  /** If the nearest points other than the highest one are the same, or there are none, the ring is not found
      counter-clockwise. */
  lemma SpikeIsNotFound(ring: seq<Coordinate>)
    requires IsClosed(ring) && |ring| >= 2
    ensures Highest(ring, |ring| - 1) < |ring| - 1
    ensures IsSpike(Walk(ring, Highest(ring, |ring| - 1))) ==> !CCW(ring)
  {
    hide Before, After, IsSpike, Turn, Walk, Highest;
    HighestIsNotLast(ring);
    if IsSpike(Walk(ring, Highest(ring, |ring| - 1))) {
      SameNeighbours(ring, Highest(ring, |ring| - 1));
    }
  }

  lemma WalkReversed(ring: seq<Coordinate>, hi: nat)
    requires IsClosed(ring) && hi < |ring| - 1
    ensures var h := if hi == 0 then 0 else |ring| - 1 - hi;
      Walk(Reversed(ring), hi) == Reversed(Walk(ring, h))
  {
    var n := |ring| - 1;
    var h := if hi == 0 then 0 else n - hi;
    forall k | 0 <= k <= n ensures Walk(Reversed(ring), hi)[k] == Reversed(Walk(ring, h))[k] {
      var j := if hi + k < n then hi + k else hi + k - n;
      assert Walk(Reversed(ring), hi)[k] == Reversed(ring)[j] == ring[n - j];
      assert Walk(ring, h)[n - k] == ring[if h + n - k < n then h + n - k else h - k];
    }
  }

  lemma NearestReversed(w: seq<Coordinate>, a: nat, b: nat)
    requires IsClosed(w) && Nearest(Reversed(w), a, b)
    ensures Nearest(w, |w| - 1 - b, |w| - 1 - a)
  {
    forall d | 0 <= d < |w| && w[d] != w[0] ensures |w| - 1 - b <= d <= |w| - 1 - a {
      assert Reversed(w)[|w| - 1 - d] == w[d];
    }
  }

  /** Walked backwards, it is. */
  lemma BackwardsIsFound(ring: seq<Coordinate>)
    requires IsClosed(ring) && |ring| >= 2 && ClockwiseFromTop(ring)
    ensures CCW(Reversed(ring))
  {
    hide Before, After, Turn, LooksCCW, SeenClockwise, Collinear, Walk;
    var back, n := Reversed(ring), |ring| - 1;
    HighestIsNotLast(back);
    var hi := Highest(back, n);
    var h := if hi == 0 then 0 else n - hi;
    assert back[hi] == ring[h];
    forall k {:trigger ring[k]} | 0 <= k <= n ensures ring[k].y <= ring[h].y { assert back[n - k] == ring[k]; }
    BackwardTop(ring, hi, h);
  }

  lemma BackwardTop(ring: seq<Coordinate>, hi: nat, h: nat)
    requires IsClosed(ring) && |ring| >= 2 && !Collinear(ring) && hi < |ring| - 1
    requires h == (if hi == 0 then 0 else |ring| - 1 - hi) && SeenClockwise(Walk(ring, h)) && IsTop(ring[h], ring)
    ensures var back := Reversed(ring);
      LooksCCW(back[Before(back, hi, hi)], back[hi], back[After(back, hi, hi)])
  {
    hide Before, After, Turn, Nearest, LooksCCW, SeenClockwise, IsTop, Collinear;
    var back, w, n := Reversed(ring), Walk(ring, h), |ring| - 1;
    WalkReversed(ring, hi);
    WalkHasAll(ring, h);
    var m := SomeOther(w);
    var a, b := FindsNearest(back, hi, n - m);
    NearestReversed(w, a, b);
    NearestInside(w, n - b, n - a);
    LooksFromTop(w, n - b, n - a);
  }

  lemma NearestInside(w: seq<Coordinate>, a: nat, b: nat)
    requires Nearest(w, a, b)
    ensures 0 < a <= b < |w| - 1
  {
  }

  /** The open ring turns nowhere counter-clockwise and is not all on one line; it may have straight vertices and
      repeat points. */
  ghost predicate WeaklyConvex(v: seq<Coordinate>) {
    v != [] && TurnsClockwise(v) && !Collinear(v)
  }

  lemma StrictIsWeak(v: seq<Coordinate>)
    requires IsConvexRing(v)
    ensures WeaklyConvex(v)
  {
    assert Turn(v[0], v[1], v[2]) < 0;
  }

  lemma ThreeInOrder(v: seq<Coordinate>, i: nat, j: nat, k: nat)
    requires TurnsClockwise(v) && i <= j <= k < |v|
    ensures Turn(v[i], v[j], v[k]) <= 0 && Turn(v[j], v[k], v[i]) <= 0 && Turn(v[k], v[i], v[j]) <= 0
  {
    TurnCyclic(v[i], v[j], v[k]);
  }

  /** Wherever the walk begins, the ring is seen to run clockwise. */
  lemma WalkSeenClockwise(v: seq<Coordinate>, hi: nat)
    requires TurnsClockwise(v) && hi < |v|
    ensures SeenClockwise(Walk(Closed(v), hi))
  {
    var w, n := Walk(Closed(v), hi), |v|;
    forall j, k | 0 <= j <= k <= n ensures Turn(w[0], w[j], w[k]) <= 0 {
      var x, y := hi + j, hi + k;
      assert w[j] == v[if x < n then x else x - n] && w[k] == v[if y < n then y else y - n];
      if y < n {
        ThreeInOrder(v, hi, x, y);
      } else if x < n {
        ThreeInOrder(v, y - n, hi, x);
      } else {
        ThreeInOrder(v, x - n, y - n, hi);
      }
    }
  }

  lemma WeaklyConvexFromTop(v: seq<Coordinate>)
    requires WeaklyConvex(v)
    ensures ClockwiseFromTop(Closed(v))
  {
    if Collinear(Closed(v)) { PartCollinear(v, Closed(v)); }
    forall hi | 0 <= hi < |v| ensures SeenClockwise(Walk(Closed(v), hi)) {
      WalkSeenClockwise(v, hi);
    }
  }

  function Rotated(v: seq<Coordinate>, first: nat): (r: seq<Coordinate>)
    requires first < |v|
    ensures |r| == |v| && forall k {:trigger r[k]} :: 0 <= k < |v| ==>
      r[k] == v[if first + k < |v| then first + k else first + k - |v|]
  {
    v[first..] + v[..first]
  }

  /** Any vertex can be the first. */
  lemma RotationIsWeaklyConvex(v: seq<Coordinate>, first: nat)
    requires WeaklyConvex(v) && first < |v|
    ensures WeaklyConvex(Rotated(v, first)) && Closed(Rotated(v, first)) == Walk(Closed(v), first)
  {
    hide Turn, Collinear;
    var r := Rotated(v, first);
    forall i, j, k | 0 <= i < j < k < |v| ensures Turn(r[i], r[j], r[k]) <= 0 {
      RotatedTurn(v, first, r, i, j, k);
    }
    if Collinear(r) { UnrotatedCollinear(v, first); }
    RotatedWalk(v, first);
  }

  lemma RotatedWalk(v: seq<Coordinate>, first: nat)
    requires first < |v|
    ensures Closed(Rotated(v, first)) == Walk(Closed(v), first)
  {
  }

  lemma UnrotatedCollinear(v: seq<Coordinate>, first: nat)
    requires first < |v| && Collinear(Rotated(v, first))
    ensures Collinear(v)
  {
    hide Collinear;
    var r := Rotated(v, first);
    forall k | 0 <= k < |v| ensures v[k] in r { assert v[k] == r[if k < first then |v| - first + k else k - first]; }
    PartCollinear(v, r);
  }

  lemma RotatedTurn(v: seq<Coordinate>, first: nat, r: seq<Coordinate>, i: nat, j: nat, k: nat)
    requires TurnsClockwise(v) && first < |v| && r == Rotated(v, first) && i < j < k < |v|
    ensures Turn(r[i], r[j], r[k]) <= 0
  {
    hide Turn, TurnsClockwise;
    var x, y, z, n := first + i, first + j, first + k, |v|;
    if z < n {
      ThreeInOrder(v, x, y, z);
    } else if y < n {
      ThreeInOrder(v, z - n, x, y);
    } else if x < n {
      ThreeInOrder(v, y - n, z - n, x);
    } else {
      ThreeInOrder(v, x - n, y - n, z - n);
    }
  }

  /** A weakly convex ring is not found counter-clockwise, and is when it is walked backwards. */
  lemma ConvexOrientation(v: seq<Coordinate>)
    requires WeaklyConvex(v)
    ensures !CCW(Closed(v)) && IsClosed(Reversed(Closed(v))) && CCW(Reversed(Closed(v)))
  {
    WeaklyConvexFromTop(v);
    ClockwiseIsFound(Closed(v));
    BackwardsIsFound(Closed(v));
  }

  /** The first n vertices lie on lines through the first one, any two of them on the same. */
  ghost predicate OnLineWithFirst(v: seq<Coordinate>, n: nat)
    requires n <= |v|
  {
    forall j, k {:trigger Turn(v[0], v[j], v[k])} :: 0 <= j <= k < n ==> Turn(v[0], v[j], v[k]) == 0
  }

  lemma {:induction false} ConvexSweep(v: seq<Coordinate>, n: nat)
    requires TurnsClockwise(v) && 0 < n <= |v|
    ensures Swept(v[0], Closed(v), n - 1) <= 0
    ensures Swept(v[0], Closed(v), n - 1) == 0 ==> OnLineWithFirst(v, n)
  {
    if n == 1 {
      TurnAt(v[0], v[0], v[0]);
    } else {
      ConvexSweep(v, n - 1);
      ThreeInOrder(v, 0, n - 2, n - 1);
      if Swept(v[0], Closed(v), n - 1) == 0 { OneMoreOnLine(v, n - 1); }
    }
  }

  lemma OneMoreOnLine(v: seq<Coordinate>, n: nat)
    requires TurnsClockwise(v) && 0 < n < |v| && OnLineWithFirst(v, n) && Turn(v[0], v[n - 1], v[n]) == 0
    ensures OnLineWithFirst(v, n + 1)
  {
    forall j: nat | j <= n ensures Turn(v[0], v[j], v[n]) == 0 {
      if j < n { SameRay(v, j, n); } else { TurnAt(v[0], v[n], v[n]); }
    }
  }

  lemma SameRay(v: seq<Coordinate>, j: nat, n: nat)
    requires TurnsClockwise(v) && j < n < |v|
    requires Turn(v[0], v[n - 1], v[n]) == 0 && Turn(v[0], v[j], v[n - 1]) == 0
    ensures Turn(v[0], v[j], v[n]) == 0
  {
    if v[0] == v[n - 1] {
      ThreeInOrder(v, 0, j, n);
      ThreeInOrder(v, j, n - 1, n);
      TurnCyclic(v[0], v[j], v[n]);
    } else {
      TurnCyclic(v[0], v[n - 1], v[j]);
      TurnCyclic(v[j], v[0], v[n - 1]);
      TurnAt(v[0], v[n - 1], v[0]);
      OnOneLine(v[0], v[n - 1], v[0], v[j], v[n]);
    }
  }

  lemma OneLine(v: seq<Coordinate>)
    requires v != [] && OnLineWithFirst(v, |v|)
    ensures Collinear(v)
  {
    if b: nat :| b < |v| && v[b] != v[0] {
      forall m {:trigger v[m]} | 0 <= m < |v| ensures Turn(v[0], v[m], v[b]) == 0 {
        if m > b {
          TurnCyclic(v[0], v[m], v[b]);
          TurnCyclic(v[b], v[0], v[m]);
        }
      }
      AllOnLine(v, b);
    } else {
      TurnAt(v[0], v[0], v[0]);
    }
  }

  /** A weakly convex ring has an area, which it sweeps clockwise. */
  lemma ConvexArea(v: seq<Coordinate>)
    requires WeaklyConvex(v)
    ensures Swept(v[0], Closed(v), |v|) < 0
  {
    hide Collinear, TurnsClockwise, Turn, ClockwiseFromTop;
    WeaklyConvexFromTop(v);
    ConvexSweep(v, |v|);
    TurnAt(v[0], v[|v| - 1], v[0]);
    assert Swept(v[0], Closed(v), |v|) == Swept(v[0], Closed(v), |v| - 1);
    if OnLineWithFirst(v, |v|) { OneLine(v); }
  }

  /** On weakly convex rings, wherever they begin, orientation and area agree. */
  lemma OrientationAgrees(v: seq<Coordinate>, first: nat)
    requires WeaklyConvex(v) && first < |v|
    ensures var ring := Walk(Closed(v), first);
      !CCW(ring) && CCW(Reversed(ring)) && Trapezoids(ring, |v|) < 0
  {
    hide CCW, WeaklyConvex, Walk, Rotated;
    var r := Rotated(v, first);
    RotationIsWeaklyConvex(v, first);
    ConvexOrientation(r);
    ConvexArea(r);
    SweptArea(r[0], Closed(r));
  }
}
