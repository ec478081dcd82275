/** The convex hull of a set of distinct points: octagon pre-filter, radial sort, Graham scan, clean-up. */
module ConvexHull {
  import opened Plane
  import opened CGAlgorithms
  import opened RadialOrder
  import opened RadialSort
  import opened GrahamScan
  import opened HullCleaning

  datatype Geometry =
    | EmptyGeometry
    | Point(at: Coordinate)
    | LineString(points: seq<Coordinate>)
    | Polygon(shell: seq<Coordinate>)

  /** The order of the coordinate set: by x, then by y. */
  predicate LexLess(p: Coordinate, q: Coordinate) {
    p.x < q.x || (p.x == q.x && p.y < q.y)
  }

  ghost predicate LexSorted(s: seq<Coordinate>) {
    forall i, j {:trigger LexLess(s[i], s[j])} :: 0 <= i < j < |s| ==> LexLess(s[i], s[j])
  }

  /** Insertion into an ordered set, represented by its elements in order. */
  function InsertUnique(s: seq<Coordinate>, p: Coordinate): seq<Coordinate> {
    if s == [] then [p]
    else if p == s[0] then s
    else if LexLess(p, s[0]) then [p] + s
    else [s[0]] + InsertUnique(s[1..], p)
  }

  lemma {:induction false} InsertUniqueElements(s: seq<Coordinate>, p: Coordinate)
    ensures forall q :: q in InsertUnique(s, p) <==> q == p || q in s
  {
    if s != [] {
      InsertUniqueElements(s[1..], p);
      assert s == [s[0]] + s[1..];
    }
  }

  lemma {:induction false} InsertUniqueSorted(s: seq<Coordinate>, p: Coordinate)
    requires LexSorted(s)
    ensures LexSorted(InsertUnique(s, p))
  {
    if s != [] && p != s[0] {
      var r := InsertUnique(s, p);
      if LexLess(p, s[0]) {
        forall i, j | 0 <= i < j < |r| ensures LexLess(r[i], r[j]) {
          if i > 0 {
            assert LexLess(s[i - 1], s[j - 1]);
          } else if j > 1 {
            assert LexLess(s[0], s[j - 1]);
          }
        }
      } else {
        var t, u := s[1..], InsertUnique(s[1..], p);
        forall i, j | 0 <= i < j < |t| ensures LexLess(t[i], t[j]) { assert LexLess(s[i + 1], s[j + 1]); }
        InsertUniqueSorted(t, p);
        InsertUniqueElements(t, p);
        forall i, j | 0 <= i < j < |r| ensures LexLess(r[i], r[j]) {
          if i > 0 {
            assert LexLess(u[i - 1], u[j - 1]);
          } else {
            assert u[j - 1] in u;
            if u[j - 1] != p {
              var k :| 0 <= k < |t| && t[k] == u[j - 1];
              assert LexLess(s[0], s[k + 1]);
            }
          }
        }
      }
    }
  }

  /** The linear form minimised by the extreme point in each of the eight cardinal directions. */
  function Direction(d: nat, p: Coordinate): int
    requires d < 8
  {
    match d
    case 0 => p.x
    case 1 => p.x - p.y
    case 2 => -p.y
    case 3 => -(p.x + p.y)
    case 4 => -p.x
    case 5 => -(p.x - p.y)
    case 6 => p.y
    case 7 => p.x + p.y
  }

  /** Slot d holds the better of its old value and p. */
  ghost predicate Improved(oct: seq<Coordinate>, pts: seq<Coordinate>, p: Coordinate, d: nat)
    requires d < 8 && |oct| == 8 && |pts| == 8
  {
    pts[d] == if Direction(d, p) < Direction(d, oct[d]) then p else oct[d]
  }

  /** p is a point of s that minimises direction d over s. */
  ghost predicate ExtremeIn(d: nat, p: Coordinate, s: seq<Coordinate>)
    requires d < 8
  {
    p in s && forall q :: q in s ==> Direction(d, p) <= Direction(d, q)
  }

  lemma ExtremeStep(d: nat, best: Coordinate, s: seq<Coordinate>, p: Coordinate)
    requires d < 8 && ExtremeIn(d, best, s)
    ensures ExtremeIn(d, if Direction(d, p) < Direction(d, best) then p else best, s + [p])
  {
  }

  /** Some vertex of the ring lies at least as far as p in direction d. */
  ghost predicate Reaches(ring: seq<Coordinate>, d: nat, p: Coordinate)
    requires d < 8
  {
    exists j :: 0 <= j < |ring| && Direction(d, ring[j]) <= Direction(d, p)
  }

  /** Removal of consecutive repetitions. */
  function Unique(s: seq<Coordinate>): (r: seq<Coordinate>)
    ensures s != [] ==> r != [] && r[0] == s[0] && r[|r| - 1] == s[|s| - 1]
    ensures forall p :: p in r <==> p in s
    ensures forall k :: 0 <= k < |r| - 1 ==> r[k] != r[k + 1]
  {
    if |s| <= 1 then s
    else
      assert s == [s[0]] + s[1..];
      var rest := Unique(s[1..]);
      if s[0] == s[1] then rest else [s[0]] + rest
  }

  /** Three distinct points, a witness that a set has at least three. */
  ghost predicate ThreeIn(s: seq<Coordinate>, p: Coordinate, q: Coordinate, r: Coordinate) {
    p in s && q in s && r in s && p != q && p != r && q != r
  }

  lemma ThreeElements(s: seq<Coordinate>, p: Coordinate, q: Coordinate, r: Coordinate)
    requires ThreeIn(s, p, q, r)
    ensures |s| >= 3
  {
    var i :| 0 <= i < |s| && s[i] == p;
    var j :| 0 <= j < |s| && s[j] == q;
    var k :| 0 <= k < |s| && s[k] == r;
  }

  /** All of s lies on one line. */
  ghost predicate Collinear(s: seq<Coordinate>) {
    forall i, j, k {:trigger Turn(s[i], s[j], s[k])} :: 0 <= i < |s| && 0 <= j < |s| && 0 <= k < |s| ==>
      Turn(s[i], s[j], s[k]) == 0
  }

  /** vs are points of s with the same convex hull as s. */
  ghost predicate SpansHull(vs: seq<Coordinate>, s: seq<Coordinate>) {
    (forall k :: 0 <= k < |vs| ==> vs[k] in s) && Encloses(vs, s)
  }

  /** A closed ring of input points, turning strictly clockwise at every vertex, with every point on the right of
      every edge, that lies in exactly the half-planes that contain the input. */
  ghost predicate IsHullRing(ring: seq<Coordinate>, s: seq<Coordinate>) {
    && |ring| >= 4 && IsClosed(ring)
    && StrictlyConvex(ring[..|ring| - 1])
    && SpansHull(ring, s)
    && RightOfEveryEdge(ring, s)
  }

  ghost predicate IsHullOf(g: Geometry, s: seq<Coordinate>) {
    match g
    case EmptyGeometry => s == []
    case Point(p) => s == [p]
    case LineString(cs) => |cs| == 2 && |s| >= 2 && cs[0] != cs[1] && Collinear(s) && SpansHull(cs, s)
    case Polygon(ring) => !Collinear(s) && IsHullRing(ring, s)
  }

  lemma SpansTransitive(a: seq<Coordinate>, b: seq<Coordinate>, c: seq<Coordinate>)
    requires SpansHull(a, b) && SpansHull(b, c)
    ensures SpansHull(a, c)
  {
  }

  lemma SameElementsSpan(a: seq<Coordinate>, b: seq<Coordinate>)
    requires forall p :: p in a <==> p in b
    ensures SpansHull(a, b)
  {
    forall h: HalfPlane | h.ContainsAll(a) ensures h.ContainsAll(b) {
      forall k | 0 <= k < |b| ensures h.Contains(b[k]) {
        assert b[k] in a;
        var j :| 0 <= j < |a| && a[j] == b[k];
        assert h.Contains(a[j]);
      }
    }
  }

  /** Points enclosed by two points lie on their line. */
  lemma TwoPointHull(p: Coordinate, q: Coordinate, s: seq<Coordinate>)
    requires p != q && Encloses([p, q], s)
    ensures Collinear(s)
  {
    forall k | 0 <= k < |s| ensures Turn(p, q, s[k]) == 0 {
      var h, g := RightOf(p, q), RightOf(q, p);
      RightOfIsTurn(p, q, p); RightOfIsTurn(p, q, q); RightOfIsTurn(p, q, s[k]);
      RightOfIsTurn(q, p, p); RightOfIsTurn(q, p, q); RightOfIsTurn(q, p, s[k]);
      TurnCyclic(p, q, s[k]);
      assert h.ContainsAll([p, q]) && g.ContainsAll([p, q]);
      assert h.Contains(s[k]) && g.Contains(s[k]);
    }
    forall i, j, k | 0 <= i < |s| && 0 <= j < |s| && 0 <= k < |s| ensures Turn(s[i], s[j], s[k]) == 0 {
      OnOneLine(p, q, s[i], s[j], s[k]);
    }
  }

  lemma OnOneLine(p: Coordinate, q: Coordinate, a: Coordinate, b: Coordinate, c: Coordinate)
    requires p != q && Turn(p, q, a) == 0 && Turn(p, q, b) == 0 && Turn(p, q, c) == 0
    ensures Turn(a, b, c) == 0
  {
    assert (q.x - p.x) * Turn(a, b, c) ==
      (b.x - a.x) * (Turn(p, q, c) - Turn(p, q, b)) - (c.x - b.x) * (Turn(p, q, b) - Turn(p, q, a));
    assert (q.y - p.y) * Turn(a, b, c) ==
      (b.y - a.y) * (Turn(p, q, c) - Turn(p, q, b)) - (c.y - b.y) * (Turn(p, q, b) - Turn(p, q, a));
    SignOfProduct(q.x - p.x, Turn(a, b, c));
    SignOfProduct(q.y - p.y, Turn(a, b, c));
  }

  /** Points of pts that lie furthest in the eight directions. */
  ghost predicate AreExtreme(oct: seq<Coordinate>, pts: seq<Coordinate>) {
    |oct| == 8 && forall d: nat {:trigger oct[d]} :: d < 8 ==> ExtremeIn(d, oct[d], pts)
  }

  /** What is kept are the vertices of the ring of the extreme points and the points that are not inside it, or all
      points if that ring has fewer than three vertices. */
  ghost predicate IsReduced(kept: seq<Coordinate>, pts: seq<Coordinate>) {
    exists oct :: AreExtreme(oct, pts) && KeepsOutside(kept, pts, Unique(oct))
  }

  ghost predicate KeepsOutside(kept: seq<Coordinate>, pts: seq<Coordinate>, oct: seq<Coordinate>) {
    if |oct| < 3 then kept == pts
    else forall p {:trigger p in kept} :: p in kept <==> p in oct || (p in pts && !InsideRing(p, oct + [oct[0]]))
  }

  class ConvexHull {
    var inputPts: seq<Coordinate>

    /** The coordinates of the input geometry, repetitions already dropped. */
    constructor (pts: seq<Coordinate>)
      requires Distinct(pts)
      ensures inputPts == pts
    {
      inputPts := pts;
    }

    /** One step of ComputeOctPts: p replaces the points that it beats to the west, north-west, north and north-east. */
    method ImproveFirstOctPts(oct: seq<Coordinate>, p: Coordinate) returns (pts: seq<Coordinate>)
      requires |oct| == 8
      ensures |pts| == 8 && (forall d: nat :: 4 <= d < 8 ==> pts[d] == oct[d])
      ensures forall d: nat :: d < 4 ==> Improved(oct, pts, p, d)
    {
      pts := oct;
      if p.x < pts[0].x { pts := pts[0 := p]; }
      if p.x - p.y < pts[1].x - pts[1].y { pts := pts[1 := p]; }
      if p.y > pts[2].y { pts := pts[2 := p]; }
      if p.x + p.y > pts[3].x + pts[3].y { pts := pts[3 := p]; }
      assert Improved(oct, pts, p, 0) && Improved(oct, pts, p, 1) && Improved(oct, pts, p, 2) &&
        Improved(oct, pts, p, 3);
    }

    /** The same to the east, south-east, south and south-west. */
    method ImproveLastOctPts(oct: seq<Coordinate>, p: Coordinate) returns (pts: seq<Coordinate>)
      requires |oct| == 8
      ensures |pts| == 8 && (forall d: nat :: d < 4 ==> pts[d] == oct[d])
      ensures forall d: nat :: 4 <= d < 8 ==> Improved(oct, pts, p, d)
    {
      pts := oct;
      if p.x > pts[4].x { pts := pts[4 := p]; }
      if p.x - p.y > pts[5].x - pts[5].y { pts := pts[5 := p]; }
      if p.y < pts[6].y { pts := pts[6 := p]; }
      if p.x + p.y < pts[7].x + pts[7].y { pts := pts[7 := p]; }
      assert Improved(oct, pts, p, 4) && Improved(oct, pts, p, 5) && Improved(oct, pts, p, 6) &&
        Improved(oct, pts, p, 7);
    }

    method ComputeOctPts(pts: seq<Coordinate>) returns (oct: seq<Coordinate>)
      requires pts != []
      ensures |oct| == 8
      ensures forall d: nat :: d < 8 ==> ExtremeIn(d, oct[d], pts)
    {
      oct := seq(8, _ => pts[0]);
      for i := 1 to |pts|
        invariant |oct| == 8
        invariant forall d: nat :: d < 8 ==> ExtremeIn(d, oct[d], pts[..i])
      {
        ghost var before := oct;
        oct := ImproveFirstOctPts(oct, pts[i]);
        ghost var middle := oct;
        oct := ImproveLastOctPts(oct, pts[i]);
        assert pts[..i + 1] == pts[..i] + [pts[i]];
        forall d: nat | d < 8 ensures ExtremeIn(d, oct[d], pts[..i + 1]) {
          assert ExtremeIn(d, before[d], pts[..i]);
          if d < 4 {
            assert Improved(before, middle, pts[i], d);
          } else {
            assert Improved(middle, oct, pts[i], d);
          }
          ExtremeStep(d, before[d], pts[..i], pts[i]);
        }
      }
      assert pts[..|pts|] == pts;
    }

    /** The closed ring of the extreme points without consecutive repetitions; fails if fewer than three are left. */
    method ComputeOctRing(pts: seq<Coordinate>) returns (ok: bool, ring: seq<Coordinate>, ghost oct: seq<Coordinate>)
      requires pts != []
      ensures AreExtreme(oct, pts) && (ok <==> |Unique(oct)| >= 3)
      ensures ring == if ok then Unique(oct) + [Unique(oct)[0]] else Unique(oct)
      ensures forall k :: 0 <= k < |ring| ==> ring[k] in pts
      ensures forall d: nat, p :: d < 8 && p in pts ==> Reaches(ring, d, p)
      ensures ok <==> |ring| >= 4
      ensures ok ==> IsClosed(ring) && ring[0] != ring[1]
    {
      var octPts := ComputeOctPts(pts);
      oct := octPts;
      assert forall d: nat :: d < 8 ==> ExtremeIn(d, oct[d], pts);
      assert forall p :: p in oct ==> p in pts;
      ring := Unique(octPts);
      forall d: nat, p | d < 8 && p in pts ensures Reaches(ring, d, p) {
        assert ExtremeIn(d, oct[d], pts);
        assert oct[d] in ring;
        var j :| 0 <= j < |ring| && ring[j] == oct[d];
      }
      if |ring| < 3 {
        return false, ring, oct;
      }
      forall d: nat, p | d < 8 && p in pts ensures Reaches(ring + [ring[0]], d, p) {
        assert Reaches(ring, d, p);
        var j :| 0 <= j < |ring| && Direction(d, ring[j]) <= Direction(d, p);
        assert (ring + [ring[0]])[j] == ring[j];
      }
      ring := ring + [ring[0]];
      ok := true;
    }

    /** One insertion into the ordered set. */
    method Insert(reducedSet: seq<Coordinate>, p: Coordinate) returns (s: seq<Coordinate>)
      requires LexSorted(reducedSet)
      ensures LexSorted(s) && forall q :: q in s <==> q == p || q in reducedSet
    {
      InsertUniqueElements(reducedSet, p);
      InsertUniqueSorted(reducedSet, p);
      s := InsertUnique(reducedSet, p);
    }

    /** The ordered set of the vertices of the ring. */
    method InsertRing(polyPts: seq<Coordinate>) returns (reducedSet: seq<Coordinate>)
      ensures LexSorted(reducedSet) && forall p :: p in reducedSet <==> p in polyPts
    {
      hide LexSorted;
      reducedSet := [];
      NothingSorted();
      for i := 0 to |polyPts|
        invariant LexSorted(reducedSet) && forall p :: p in reducedSet <==> p in polyPts[..i]
      {
        reducedSet := Insert(reducedSet, polyPts[i]);
        assert polyPts[..i + 1] == polyPts[..i] + [polyPts[i]];
      }
      assert polyPts[..|polyPts|] == polyPts;
    }

    /** Adds the points that are not inside the ring. */
    method InsertOutside(ringSet: seq<Coordinate>, pts: seq<Coordinate>, polyPts: seq<Coordinate>)
      returns (reducedSet: seq<Coordinate>)
      requires LexSorted(ringSet)
      ensures LexSorted(reducedSet)
      ensures forall p :: p in reducedSet <==> p in ringSet || (p in pts && !InsideRing(p, polyPts))
    {
      hide LexSorted, Crossings;
      reducedSet := ringSet;
      for i := 0 to |pts|
        invariant LexSorted(reducedSet)
        invariant forall p :: p in reducedSet <==> p in ringSet || (p in pts[..i] && !InsideRing(p, polyPts))
      {
        var inside := IsPointInRing(pts[i], polyPts);
        assert inside == InsideRing(pts[i], polyPts);
        assert pts[..i + 1] == pts[..i] + [pts[i]];
        if !inside {
          reducedSet := Insert(reducedSet, pts[i]);
        }
      }
      assert pts[..|pts|] == pts;
    }

    /** Drops points inside the octagon of extreme points, keeping the hull and at least three points. */
    method Reduce()
      requires |inputPts| >= 3 && Distinct(inputPts)
      modifies this
      ensures Distinct(inputPts) && |inputPts| >= 3
      ensures SpansHull(inputPts, old(inputPts)) && IsReduced(inputPts, old(inputPts))
    {
      hide LexSorted, InsideRing, SpansHull, AreExtreme, Unique, Reaches, ExtremeIn;
      var pts := inputPts;
      var ok, polyPts;
      ghost var oct;
      ok, polyPts, oct := ComputeOctRing(pts);
      if !ok {
        SameElementsSpan(inputPts, pts);
        assert KeepsOutside(pts, pts, Unique(oct));
        return;
      }
      var reducedSet := InsertRing(polyPts);
      reducedSet := InsertOutside(reducedSet, pts, polyPts);
      ReducedSpans(pts, polyPts, reducedSet);
      ReducedHasThree(pts, polyPts, reducedSet);
      LexSortedDistinct(reducedSet);
      assert KeepsOutside(reducedSet, pts, Unique(oct));
      inputPts := reducedSet;
    }

    /** Brings the lowest, then leftmost, point to the front and sorts the others around it. */
    method PreSort()
      requires |inputPts| >= 1 && Distinct(inputPts)
      modifies this
      ensures RadiallySorted(inputPts)
      ensures SameElements(inputPts, old(inputPts))
    {
      var input := inputPts;
      var pts := input;
      for i := 1 to |input|
        invariant |pts| == |input|
        invariant Distinct(pts) && (forall p :: p in pts <==> p in input)
        invariant forall k :: 0 <= k < i ==> AtOrAbove(pts[0], pts[k])
      {
        var p0, pi := pts[0], pts[i];
        if pi.y < p0.y || (pi.y == p0.y && pi.x < p0.x) {
          SwapKeepsElements(pts, i);
          pts := pts[0 := pi][i := p0];
        } else {
          assert pts[0] != pts[i];
        }
      }
      var sorted := SortRadially(pts[0], pts);
      inputPts := sorted;
    }

    /** Returns a closed ring: every point of c lies on or to the right of each of its edges. */
    method Scan(c: seq<Coordinate>) returns (ps: seq<Coordinate>)
      requires |c| >= 3 && RadiallySorted(c)
      ensures |ps| >= 4 && IsClosed(ps) && ps[0] == c[0]
      ensures Chain(ps[..|ps| - 1]) && Encloses(ps[..|ps| - 1], c)
      ensures forall k :: 0 <= k < |ps| ==> ps[k] in c
      ensures RightOfEveryEdge(ps, c)
    {
      hide Turn, RadiallySorted;
      ps := [c[0], c[1], c[2]];
      FirstThree(c);
      for i := 3 to |c|
        invariant |ps| >= 3 && ps[0] == c[0] && ps[|ps| - 1] == c[i - 1]
        invariant forall k :: 0 <= k < |ps| ==> ps[k] in c[..i]
        invariant Chain(ps) && Encloses(ps, c[..i])
      {
        var r := c[i];
        LaterThan(c, i);
        ghost var done := c[..i] + [r];
        assert done == c[..i + 1];
        var p := ps[|ps| - 1];
        ExtendHull(ps, c[..i], r);
        assert ps + [r] == ps[..|ps| - 1] + [p, r];
        assert ps == ps[..|ps| - 1] + [p];
        ps := ps[..|ps| - 1];
        var turn := OrientationIndex(ps[|ps| - 1], p, r);
        while turn > 0
          invariant |ps| >= 1 && (ps + [p])[0] == c[0] && turn == Sign(Turn(ps[|ps| - 1], p, r))
          invariant forall k :: 0 <= k < |ps + [p]| ==> (ps + [p])[k] in c[..i]
          invariant Chain(ps + [p]) && Encloses(ps + [p, r], done)
          decreases |ps|
        {
          assert ps[0] == (ps + [p])[0] && (ps + [p])[|ps|] == p;
          assert p in c[..i];
          if |ps| == 1 {
            assert false;
          }
          PopKeepsHull(ps, p, r, done);
          PrefixKeepsChain(ps + [p], |ps|);
          assert (ps + [p])[..|ps|] == ps;
          assert forall k :: 0 <= k < |ps| ==> ps[k] == (ps + [p])[k];
          p := ps[|ps| - 1];
          assert ps + [r] == ps[..|ps| - 1] + [p, r];
          assert ps == ps[..|ps| - 1] + [p];
          ps := ps[..|ps| - 1];
          turn := OrientationIndex(ps[|ps| - 1], p, r);
        }
        ps := ps + [p];
        forall k | 0 <= k < |ps| ensures Precedes(ps[0], ps[k], r) { assert ps[k] in c[..i]; }
        assert ps + [r] == ps[..|ps| - 1] + [p, r];
        PushKeepsChain(ps, r);
        ps := ps + [r];
      }
      assert c[..|c|] == c;
      ClosedChainIsHull(ps, c);
      ps := ps + [c[0]];
      assert ps[..|ps| - 1] + [c[0]] == ps;
    }

    method CleanRing(original: seq<Coordinate>) returns (cleaned: seq<Coordinate>)
      requires IsClosed(original)
      ensures cleaned == Kept(original, |original| - 1) + [original[|original| - 1]]
    {
      var npts := |original|;
      cleaned := [];
      for i := 0 to npts - 1
        invariant cleaned == Kept(original, i)
      {
        var curr, next := original[i], original[i + 1];
        if curr == next { continue; }
        if cleaned != [] && IsBetween(cleaned[|cleaned| - 1], curr, next) { continue; }
        cleaned := cleaned + [curr];
      }
      cleaned := cleaned + [original[npts - 1]];
    }

    method LineOrPolygon(input: seq<Coordinate>) returns (g: Geometry)
      requires IsClosed(input)
      ensures var cleaned := Kept(input, |input| - 1) + [input[|input| - 1]];
        g == if |cleaned| == 3 then LineString(cleaned[..2]) else Polygon(cleaned)
    {
      var cleaned := CleanRing(input);
      if |cleaned| == 3 {
        cleaned := cleaned[..2];
        return LineString(cleaned);
      }
      return Polygon(cleaned);
    }

    /** The hull of the input points; two points give the line between them as it stands. */
    method GetConvexHull() returns (g: Geometry)
      requires Distinct(inputPts)
      modifies this
      ensures IsHullOf(g, old(inputPts))
    {
      var nInputPts := |inputPts|;
      if nInputPts == 0 { return EmptyGeometry; }
      if nInputPts == 1 { return Point(inputPts[0]); }
      if nInputPts == 2 {
        SameElementsSpan(inputPts, inputPts);
        assert inputPts == [inputPts[0], inputPts[1]];
        TwoPointHull(inputPts[0], inputPts[1], inputPts);
        return LineString(inputPts);
      }
      ghost var pts := inputPts;
      SameElementsSpan(inputPts, pts);
      if nInputPts > 50 {
        Reduce();
      }
      ghost var reduced := inputPts;
      PreSort();
      SameElementsSpan(inputPts, reduced);
      SpansTransitive(inputPts, reduced, pts);
      var cHS := Scan(inputPts);
      g := LineOrPolygon(cHS);
      CleanedHull(cHS, inputPts, pts);
    }
  }

  ghost predicate InsideRing(p: Coordinate, ring: seq<Coordinate>) {
    Crossings(p, ring, |ring|) % 2 == 1
  }

  lemma NothingSorted()
    ensures LexSorted([])
  {
  }

  lemma LexSortedDistinct(s: seq<Coordinate>)
    requires LexSorted(s)
    ensures Distinct(s)
  {
    forall i, j | 0 <= i < j < |s| ensures s[i] != s[j] { assert LexLess(s[i], s[j]); }
  }

  /** What the pre-filter drops cannot be separated from what it keeps. */
  lemma ReducedSpans(pts: seq<Coordinate>, ring: seq<Coordinate>, kept: seq<Coordinate>)
    requires IsClosed(ring) && (forall k :: 0 <= k < |ring| ==> ring[k] in pts)
    requires forall p :: p in kept <==> p in ring || (p in pts && !InsideRing(p, ring))
    ensures SpansHull(kept, pts)
  {
    forall h: HalfPlane | h.ContainsAll(kept) ensures h.ContainsAll(pts) {
      forall k | 0 <= k < |ring| ensures h.Contains(ring[k]) {
        assert ring[k] in kept;
        var j :| 0 <= j < |kept| && kept[j] == ring[k];
        assert h.Contains(kept[j]);
      }
      forall k | 0 <= k < |pts| ensures h.Contains(pts[k]) {
        if InsideRing(pts[k], ring) {
          OddCrossingsAreEnclosed(pts[k], ring);
          assert h.ContainsAll(ring);
          assert h.ContainsAll([pts[k]]);
          assert [pts[k]][0] == pts[k];
        } else {
          assert pts[k] in kept;
          var j :| 0 <= j < |kept| && kept[j] == pts[k];
          assert h.Contains(kept[j]);
        }
      }
    }
  }

  /** At least three points survive: either the ring has three vertices, or it has two and nothing is inside it. */
  lemma ReducedHasThree(pts: seq<Coordinate>, ring: seq<Coordinate>, kept: seq<Coordinate>)
    requires |pts| >= 3 && Distinct(pts) && |ring| >= 2 && IsClosed(ring) && ring[0] != ring[1]
    requires forall p :: p in kept <==> p in ring || (p in pts && !InsideRing(p, ring))
    ensures |kept| >= 3
  {
    var u, v := ring[0], ring[1];
    if k :| 0 <= k < |ring| && ring[k] != u && ring[k] != v {
      assert u in kept && v in kept && ring[k] in kept;
      ThreeElements(kept, u, v, ring[k]);
    } else {
      forall p ensures !InsideRing(p, ring) {
        TwoPointRingCrossings(p, ring, u, v, |ring|);
      }
      assert pts[0] in kept && pts[1] in kept && pts[2] in kept;
      ThreeElements(kept, pts[0], pts[1], pts[2]);
    }
  }

  lemma SwapKeepsElements(s: seq<Coordinate>, i: nat)
    requires 0 < i < |s| && Distinct(s)
    ensures var t := s[0 := s[i]][i := s[0]]; Distinct(t) && forall p :: p in t <==> p in s
  {
    var t := s[0 := s[i]][i := s[0]];
    forall p ensures p in t <==> p in s {
      if p in s {
        var k :| 0 <= k < |s| && s[k] == p;
        assert t[if k == 0 then i else if k == i then 0 else k] == p;
      }
    }
  }

  lemma FirstThree(c: seq<Coordinate>)
    requires |c| >= 3 && RadiallySorted(c)
    ensures Chain([c[0], c[1], c[2]]) && Encloses([c[0], c[1], c[2]], c[..3])
  {
    var s := [c[0], c[1], c[2]];
    assert s == c[..3];
    assert Above(c[0], c[1]) && Above(c[0], c[2]);
    assert Precedes(c[0], c[1], c[2]) && Precedes(c[0], c[0], c[1]) && Precedes(c[0], c[0], c[2]);
  }

  lemma LaterThan(c: seq<Coordinate>, i: nat)
    requires RadiallySorted(c) && 0 < i < |c|
    ensures Above(c[0], c[i])
    ensures forall p :: p in c[..i] ==> Precedes(c[0], p, c[i])
  {
    forall p | p in c[..i] ensures Precedes(c[0], p, c[i]) {
      var k :| 0 <= k < i && c[k] == p;
      assert Precedes(c[0], c[k], c[i]);
    }
  }

  lemma TwoKept(kept: seq<Coordinate>, pts: seq<Coordinate>)
    requires |kept| == 2 && Chain(kept) && SpansHull(kept, pts)
    ensures IsHullOf(LineString(kept), pts)
  {
    assert Above(kept[0], kept[1]);
    assert kept == [kept[0], kept[1]];
    TwoPointHull(kept[0], kept[1], pts);
  }

  /** The cleaned Graham ring is the hull of the points it was built from. */
  lemma CleanedHull(ring: seq<Coordinate>, c: seq<Coordinate>, pts: seq<Coordinate>)
    requires |ring| >= 4 && IsClosed(ring) && Chain(ring[..|ring| - 1]) && Encloses(ring[..|ring| - 1], c)
    requires forall k :: 0 <= k < |ring| ==> ring[k] in c
    requires SpansHull(c, pts)
    ensures var cleaned := Kept(ring, |ring| - 1) + [ring[|ring| - 1]];
      IsHullOf(if |cleaned| == 3 then LineString(cleaned[..2]) else Polygon(cleaned), pts)
  {
    var s := ring[..|ring| - 1];
    assert ring == s + [s[0]];
    CleanedRing(s);
    var kept := Kept(ring, |s|);
    KeptSpans(kept, s, c, pts);
    if |kept| == 2 {
      assert (kept + [ring[0]])[..2] == kept;
      TwoKept(kept, pts);
    } else {
      ClosedChainIsHull(kept, pts);
      CloseRing(kept, pts);
      NotCollinear(kept, pts);
    }
  }

  lemma KeptSpans(kept: seq<Coordinate>, s: seq<Coordinate>, c: seq<Coordinate>, pts: seq<Coordinate>)
    requires forall k :: 0 <= k < |kept| ==> kept[k] in s
    requires forall k :: 0 <= k < |s| ==> s[k] in c
    requires Encloses(kept, s) && Encloses(s, c) && SpansHull(c, pts)
    ensures SpansHull(kept, pts)
  {
    assert SpansHull(s, c);
    assert SpansHull(kept, s);
    SpansTransitive(kept, s, c);
    SpansTransitive(kept, c, pts);
  }

  lemma CloseRing(kept: seq<Coordinate>, pts: seq<Coordinate>)
    requires |kept| >= 3 && SpansHull(kept, pts) && StrictlyConvex(kept)
    requires RightOfEveryEdge(kept + [kept[0]], pts)
    ensures IsHullRing(kept + [kept[0]], pts)
  {
    var ring := kept + [kept[0]];
    assert ring[..|ring| - 1] == kept;
    forall h: HalfPlane | h.ContainsAll(ring) ensures h.ContainsAll(pts) {
      forall k | 0 <= k < |kept| ensures h.Contains(kept[k]) { assert h.Contains(ring[k]); }
    }
  }

  lemma NotCollinear(kept: seq<Coordinate>, pts: seq<Coordinate>)
    requires |kept| >= 3 && StrictlyConvex(kept) && (forall k :: 0 <= k < |kept| ==> kept[k] in pts)
    ensures !Collinear(pts)
  {
    assert kept[0] in pts && kept[1] in pts && kept[2] in pts;
    var i :| 0 <= i < |pts| && pts[i] == kept[0];
    var j :| 0 <= j < |pts| && pts[j] == kept[1];
    var k :| 0 <= k < |pts| && pts[k] == kept[2];
    assert Turn(kept[0], kept[1], kept[2]) < 0;
    assert Turn(pts[i], pts[j], pts[k]) != 0;
  }
}
