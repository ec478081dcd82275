/** Classification of the intersection of two segments, and its computation. */
module LineIntersector {
  import opened Plane
  import opened CGAlgorithms
  import opened Segments
  import opened Envelope
  import opened HCoordinates

  datatype Intersection = DontIntersect | DoIntersect | Collinear

  /** What the result and the two recorded points say about the common points of the segments. */
  ghost predicate Classifies(result: Intersection, i0: RealPoint, i1: RealPoint,
                             p1: RealPoint, p2: RealPoint, q1: RealPoint, q2: RealPoint)
  {
    match result
    case DontIntersect => forall p :: !Shared(p, p1, p2, q1, q2)
    case DoIntersect => Shared(i0, p1, p2, q1, q2) && forall p :: Shared(p, p1, p2, q1, q2) ==> p == i0
    case Collinear => i0 != i1 && forall p :: Shared(p, p1, p2, q1, q2) <==> OnSegment(p, i0, i1)
  }

  lemma EndsOnSegment(a: RealPoint, b: RealPoint)
    ensures OnSegment(a, a, b) && OnSegment(b, a, b)
  {
    assert a == Along(a, b, 0.0);
    assert b == Along(a, b, 1.0);
  }

  /** The three classes exclude each other: a correct result tells none, one, and more than one common point apart. */
  lemma ClassificationIsExact(result: Intersection, i0: RealPoint, i1: RealPoint,
                              p1: RealPoint, p2: RealPoint, q1: RealPoint, q2: RealPoint)
    requires Classifies(result, i0, i1, p1, p2, q1, q2)
    ensures result == DontIntersect <==> !exists p :: Shared(p, p1, p2, q1, q2)
    ensures result == Collinear <==> exists p, p' :: p != p' && Shared(p, p1, p2, q1, q2) && Shared(p', p1, p2, q1, q2)
  {
    EndsOnSegment(i0, i1);
    if result == Collinear {
      assert i0 != i1 && Shared(i0, p1, p2, q1, q2) && Shared(i1, p1, p2, q1, q2);
    }
  }

  /** The report for all inputs: proper segments are classified; if one segment is a single point, the result is
      Collinear when it lies on the other and DontIntersect when it does not. */
  ghost predicate Reports(result: Intersection, i0: RealPoint, i1: RealPoint,
                          p1: Coordinate, p2: Coordinate, q1: Coordinate, q2: Coordinate)
  {
    if p1 != p2 && q1 != q2 then
      Classifies(result, i0, i1, Real(p1), Real(p2), Real(q1), Real(q2))
    else
      && result != DoIntersect
      && (result == Collinear <==> exists p :: Shared(p, Real(p1), Real(p2), Real(q1), Real(q2)))
  }

  /** A segment that is a single point, in the box and on the line of the other. */
  predicate PointOn(p1: Coordinate, p2: Coordinate, q1: Coordinate, q2: Coordinate) {
    p1 == p2 && IntersectsPoint(q1, q2, p1) && Turn(q1, q2, p1) == 0
  }

  /** The classification is right exactly unless one of the segments is a single point of the other. */
  lemma ReportIsRightWhen(result: Intersection, i0: RealPoint, i1: RealPoint,
                          p1: Coordinate, p2: Coordinate, q1: Coordinate, q2: Coordinate)
    requires Reports(result, i0, i1, p1, p2, q1, q2)
    ensures Classifies(result, i0, i1, Real(p1), Real(p2), Real(q1), Real(q2))
       <==> !PointOn(p1, p2, q1, q2) && !PointOn(q1, q2, p1, p2)
  {
    if p1 == p2 || q1 == q2 {
      var single := if p1 == p2 then p1 else q1;
      MeetsIfPointOn(p1, p2, q1, q2);
      forall p | Shared(p, Real(p1), Real(p2), Real(q1), Real(q2)) ensures p == Real(single) {
        SinglePointSegment(p, Real(single));
      }
      EndsOnSegment(i0, i1);
    }
  }

  lemma MeetsIfPointOn(p1: Coordinate, p2: Coordinate, q1: Coordinate, q2: Coordinate)
    requires p1 == p2 || q1 == q2
    ensures (exists p :: Shared(p, Real(p1), Real(p2), Real(q1), Real(q2))) <==>
      PointOn(p1, p2, q1, q2) || PointOn(q1, q2, p1, p2)
  {
    if p1 == p2 {
      PointMeets(p1, q1, q2);
      if PointOn(q1, q2, p1, p2) { assert p1 == q1; }
    } else {
      PointMeets(q1, p1, p2);
    }
  }

  lemma PointMeets(a: Coordinate, q1: Coordinate, q2: Coordinate)
    ensures (exists p :: Shared(p, Real(a), Real(a), Real(q1), Real(q2))) <==> PointOn(a, a, q1, q2)
    ensures (exists p :: Shared(p, Real(q1), Real(q2), Real(a), Real(a))) <==> PointOn(a, a, q1, q2)
  {
    PointOnSegment(a, q1, q2);
    SinglePointSegment(Real(a), Real(a));
    if PointOn(a, a, q1, q2) {
      assert Shared(Real(a), Real(a), Real(a), Real(q1), Real(q2)) &&
        Shared(Real(a), Real(q1), Real(q2), Real(a), Real(a));
    }
    forall p | OnSegment(p, Real(a), Real(a)) ensures p == Real(a) { SinglePointSegment(p, Real(a)); }
  }

  /** If the point a lies on the other segment, they share that one point, and the answer is that they share several. */
  lemma PointReport(result: Intersection, i0: RealPoint, i1: RealPoint, a: Coordinate, q1: Coordinate, q2: Coordinate)
    requires PointOn(a, a, q1, q2) && Reports(result, i0, i1, a, a, q1, q2)
    ensures result == Collinear && !Classifies(result, i0, i1, Real(a), Real(a), Real(q1), Real(q2))
    ensures forall p :: Shared(p, Real(a), Real(a), Real(q1), Real(q2)) <==> p == Real(a)
  {
    ReportIsRightWhen(result, i0, i1, a, a, q1, q2);
    PointMeets(a, q1, q2);
    forall p ensures OnSegment(p, Real(a), Real(a)) <==> p == Real(a) { SinglePointSegment(p, Real(a)); }
  }

  /** An input on which the report is wrong: one segment is an end of the other. */
  lemma WrongReport(result: Intersection, i0: RealPoint, i1: RealPoint, origin: Coordinate, end: Coordinate)
    requires origin == Coordinate(0, 0) && end == Coordinate(1, 0)
    requires Reports(result, i0, i1, origin, origin, origin, end)
    ensures result == Collinear && !Classifies(result, i0, i1, Real(origin), Real(origin), Real(origin), Real(end))
    ensures forall p :: Shared(p, Real(origin), Real(origin), Real(origin), Real(end)) <==> p == Real(origin)
  {
    PointReport(result, i0, i1, origin, origin, end);
  }

  predicate SameSide(a: int, b: int) {
    (a > 0 && b > 0) || (a < 0 && b < 0)
  }

  // --- Segments on one line, as intervals of fractions of the first one

  /** q1 and q2 at fractions s and u of the way from p1 to p2: the four box tests are interval tests. */
  lemma CollinearFractions(p1: Coordinate, p2: Coordinate, q1: Coordinate, q2: Coordinate) returns (s: real, u: real)
    requires p1 != p2 && Turn(p1, p2, q1) == 0 && Turn(p1, p2, q2) == 0
    ensures Real(q1) == Along(Real(p1), Real(p2), s) && Real(q2) == Along(Real(p1), Real(p2), u)
    ensures IntersectsPoint(p1, p2, q1) <==> 0.0 <= s <= 1.0
    ensures IntersectsPoint(p1, p2, q2) <==> 0.0 <= u <= 1.0
    ensures IntersectsPoint(q1, q2, p1) <==> Between(s, 0.0, u)
    ensures IntersectsPoint(q1, q2, p2) <==> Between(s, 1.0, u)
    ensures (q1 == p1 <==> s == 0.0) && (q1 == p2 <==> s == 1.0) && (q2 == p1 <==> u == 0.0) && (q2 == p2 <==> u == 1.0)
    ensures q1 == q2 <==> s == u
  {
    var a, b := Real(p1), Real(p2);
    SideOfCoordinates(p1, p2, q1);
    SideOfCoordinates(p1, p2, q2);
    s := Fraction(a, b, Real(q1));
    u := Fraction(a, b, Real(q2));
    AlongEnds(a, b);
    BoxFractions(a, b, p1, p2, q1, 0.0, 1.0, s);
    BoxFractions(a, b, p1, p2, q2, 0.0, 1.0, u);
    BoxFractions(a, b, q1, q2, p1, s, u, 0.0);
    BoxFractions(a, b, q1, q2, p2, s, u, 1.0);
    SameFraction(a, b, q1, p1, s, 0.0); SameFraction(a, b, q1, p2, s, 1.0);
    SameFraction(a, b, q2, p1, u, 0.0); SameFraction(a, b, q2, p2, u, 1.0);
    SameFraction(a, b, q1, q2, s, u);
  }

  lemma AlongEnds(a: RealPoint, b: RealPoint)
    ensures Along(a, b, 0.0) == a && Along(a, b, 1.0) == b
  {
  }

  lemma BoxFractions(a: RealPoint, b: RealPoint, c: Coordinate, d: Coordinate, e: Coordinate, fc: real, fd: real,
                     fe: real)
    requires a != b && Real(c) == Along(a, b, fc) && Real(d) == Along(a, b, fd) && Real(e) == Along(a, b, fe)
    ensures IntersectsPoint(c, d, e) <==> Between(fc, fe, fd)
  {
    PointInBox(c, d, e);
    BoxOnLine(a, b, fc, fe, fd);
  }

  lemma SameFraction(a: RealPoint, b: RealPoint, c: Coordinate, d: Coordinate, fc: real, fd: real)
    requires a != b && Real(c) == Along(a, b, fc) && Real(d) == Along(a, b, fd)
    ensures c == d <==> fc == fd
  {
    if c == d { AlongInjective(a, b, fc, fd); }
  }

  /** The common points of two segments of one line are the common fractions. */
  lemma SharedOnLine(p1: RealPoint, p2: RealPoint, s: real, u: real, p: RealPoint)
    requires p1 != p2
    ensures Shared(p, p1, p2, Along(p1, p2, s), Along(p1, p2, u))
       <==> exists t :: 0.0 <= t <= 1.0 && Between(s, t, u) && p == Along(p1, p2, t)
  {
    if Shared(p, p1, p2, Along(p1, p2, s), Along(p1, p2, u)) {
      var t := SegmentToInterval(p1, p2, s, u, p);
      var t' :| 0.0 <= t' <= 1.0 && p == Along(p1, p2, t');
      AlongInjective(p1, p2, t, t');
    }
    if t :| 0.0 <= t <= 1.0 && Between(s, t, u) && p == Along(p1, p2, t) {
      IntervalToSegment(p1, p2, s, u, t);
    }
  }

  /** If the common fractions are those between c and d, the segment from c to d is the common part. */
  lemma CommonPart(p1: RealPoint, p2: RealPoint, s: real, u: real, c: real, d: real)
    requires p1 != p2
    requires forall t :: 0.0 <= t <= 1.0 && Between(s, t, u) <==> Between(c, t, d)
    ensures forall p :: Shared(p, p1, p2, Along(p1, p2, s), Along(p1, p2, u)) <==>
      OnSegment(p, Along(p1, p2, c), Along(p1, p2, d))
    ensures c != d ==> Along(p1, p2, c) != Along(p1, p2, d)
  {
    forall p
      ensures Shared(p, p1, p2, Along(p1, p2, s), Along(p1, p2, u)) <==>
        OnSegment(p, Along(p1, p2, c), Along(p1, p2, d))
    {
      SharedOnLine(p1, p2, s, u, p);
      if OnSegment(p, Along(p1, p2, c), Along(p1, p2, d)) {
        var t := SegmentToInterval(p1, p2, c, d, p);
        assert 0.0 <= t <= 1.0 && Between(s, t, u);
      }
      if t :| 0.0 <= t <= 1.0 && Between(s, t, u) && p == Along(p1, p2, t) {
        IntervalToSegment(p1, p2, c, d, t);
      }
    }
    if Along(p1, p2, c) == Along(p1, p2, d) { AlongInjective(p1, p2, c, d); }
  }

  lemma SinglePointSegment(p: RealPoint, a: RealPoint)
    ensures OnSegment(p, a, a) <==> p == a
  {
    if p == a { assert p == Along(a, a, 0.0); }
  }

  // --- Segments that are not collinear

  lemma SidesOfSegments(p1: Coordinate, p2: Coordinate, q1: Coordinate, q2: Coordinate)
    ensures Skew(Real(p1), Real(p2), Real(q1), Real(q2)) == (Turn(p1, p2, q2) - Turn(p1, p2, q1)) as real
    ensures Turn(p1, p2, q2) - Turn(p1, p2, q1) == Turn(q1, q2, p1) - Turn(q1, q2, p2)
    ensures Side(Real(p1), Real(p2), Real(q1)) == Turn(p1, p2, q1) as real &&
      Side(Real(p1), Real(p2), Real(q2)) == Turn(p1, p2, q2) as real
    ensures Side(Real(q1), Real(q2), Real(p1)) == Turn(q1, q2, p1) as real &&
      Side(Real(q1), Real(q2), Real(p2)) == Turn(q1, q2, p2) as real
  {
    SideOfCoordinates(p1, p2, q1); SideOfCoordinates(p1, p2, q2);
    SideOfCoordinates(q1, q2, p1); SideOfCoordinates(q1, q2, p2);
    SkewOfSides(Real(p1), Real(p2), Real(q1), Real(q2));
  }

  lemma SameSideMeansDisjoint(p1: Coordinate, p2: Coordinate, q1: Coordinate, q2: Coordinate)
    requires SameSide(Turn(p1, p2, q1), Turn(p1, p2, q2)) || SameSide(Turn(q1, q2, p1), Turn(q1, q2, p2))
    ensures forall p :: !Shared(p, Real(p1), Real(p2), Real(q1), Real(q2))
  {
    SidesOfSegments(p1, p2, q1, q2);
    forall p ensures !Shared(p, Real(p1), Real(p2), Real(q1), Real(q2)) {
      if SameSide(Turn(p1, p2, q1), Turn(p1, p2, q2)) {
        SameSideDisjoint(Real(p1), Real(p2), Real(q1), Real(q2), p);
      } else {
        SameSideDisjoint(Real(q1), Real(q2), Real(p1), Real(p2), p);
      }
    }
  }

  /** Four sides that neither separate the segments nor all vanish: the segments are not parallel. */
  predicate Separating(a: int, b: int, c: int, d: int) {
    !SameSide(a, b) && !SameSide(c, d) && !(a == 0 && b == 0 && c == 0 && d == 0)
  }

  lemma MeetInOnePoint(p1: Coordinate, p2: Coordinate, q1: Coordinate, q2: Coordinate, x: RealPoint)
    requires Separating(Turn(p1, p2, q1), Turn(p1, p2, q2), Turn(q1, q2, p1), Turn(q1, q2, p2))
    requires Side(Real(p1), Real(p2), x) == 0.0 && Side(Real(q1), Real(q2), x) == 0.0
    ensures Shared(x, Real(p1), Real(p2), Real(q1), Real(q2))
    ensures forall p :: Shared(p, Real(p1), Real(p2), Real(q1), Real(q2)) ==> p == x
  {
    SidesOfSegments(p1, p2, q1, q2);
    var y := CrossingPoint(Real(p1), Real(p2), Real(q1), Real(q2));
    SharedIsUnique(Real(p1), Real(p2), Real(q1), Real(q2), x);
  }

  lemma EndpointOnLines(p1: Coordinate, p2: Coordinate, q: Coordinate, r: Coordinate)
    requires Turn(p1, p2, q) == 0
    ensures Side(Real(p1), Real(p2), Real(q)) == 0.0
    ensures Side(Real(q), Real(r), Real(q)) == 0.0 && Side(Real(r), Real(q), Real(q)) == 0.0
  {
    SideOfCoordinates(p1, p2, q);
  }

  // --- Moving the origin

  function Shift(p: RealPoint, c: RealPoint): RealPoint {
    RealPoint(p.x - c.x, p.y - c.y)
  }

  /** The way back. */
  function Unshift(p: RealPoint, c: RealPoint): RealPoint {
    RealPoint(p.x + c.x, p.y + c.y)
  }

  /** The point on the other side of the origin. */
  function Opposite(p: RealPoint): RealPoint {
    RealPoint(-p.x, -p.y)
  }

  lemma ShiftKeepsSides(p: RealPoint, q: RealPoint, c: RealPoint)
    ensures forall r :: Side(Shift(p, c), Shift(q, c), r) == Side(p, q, Unshift(r, c))
  {
  }

  lemma ShiftKeepsSkew(p1: RealPoint, p2: RealPoint, q1: RealPoint, q2: RealPoint, c: RealPoint)
    ensures Skew(Shift(p1, c), Shift(p2, c), Shift(q1, c), Shift(q2, c)) == Skew(p1, p2, q1, q2)
  {
  }

  predicate IsLower(a: real, b: real, lo: real) {
    lo <= a && lo <= b && (lo == a || lo == b)
  }

  /** m is half way between the greater of the lower ends and the smaller of the upper ends of two intervals. */
  ghost predicate IsMiddle(a: real, b: real, c: real, d: real, m: real) {
    exists lo0, lo1, hi0, hi1
      {:trigger IsLower(a, b, lo0), IsLower(c, d, lo1), IsLower(-a, -b, hi0), IsLower(-c, -d, hi1)} ::
      && IsLower(a, b, lo0) && IsLower(c, d, lo1) && IsLower(-a, -b, hi0) && IsLower(-c, -d, hi1)
      && m + m == (if lo0 > lo1 then lo0 else lo1) - (if hi0 > hi1 then hi0 else hi1)
  }

  lemma MiddleOf(a: real, b: real, c: real, d: real, lo0: real, lo1: real, hi0: real, hi1: real, m: real)
    requires lo0 == (if a < b then a else b) && hi0 == (if a > b then a else b)
    requires lo1 == (if c < d then c else d) && hi1 == (if c > d then c else d)
    requires m == ((if lo0 > lo1 then lo0 else lo1) + (if hi0 < hi1 then hi0 else hi1)) / 2.0
    ensures IsMiddle(a, b, c, d, m)
  {
    assert IsLower(a, b, lo0) && IsLower(c, d, lo1) && IsLower(-a, -b, -hi0) && IsLower(-c, -d, -hi1);
  }

  /** Mirrored in the middle, what is in both intervals stays in both. */
  lemma MirrorInMiddle(a: real, b: real, c: real, d: real, m: real, x: real)
    requires IsMiddle(a, b, c, d, m) && Between(a, x, b) && Between(c, x, d)
    ensures Between(a, m, b) && Between(c, m, d)
    ensures Between(a, m + m - x, b) && Between(c, m + m - x, d)
  {
  }

  lemma CentredBoxes(p1: RealPoint, p2: RealPoint, q1: RealPoint, q2: RealPoint, c: RealPoint)
    requires IsMiddle(p1.x, p2.x, q1.x, q2.x, c.x) && IsMiddle(p1.y, p2.y, q1.y, q2.y, c.y)
    ensures forall p {:trigger Opposite(p)} ::
      InBox(Shift(p1, c), Shift(p2, c), p) && InBox(Shift(q1, c), Shift(q2, c), p) ==>
      InBox(Shift(p1, c), Shift(p2, c), Opposite(p)) && InBox(Shift(q1, c), Shift(q2, c), Opposite(p))
    ensures (exists p :: InBox(p1, p2, p) && InBox(q1, q2, p)) ==> InBox(p1, p2, c) && InBox(q1, q2, c)
  {
    forall p {:trigger Opposite(p)} | InBox(Shift(p1, c), Shift(p2, c), p) && InBox(Shift(q1, c), Shift(q2, c), p)
      ensures InBox(Shift(p1, c), Shift(p2, c), Opposite(p)) && InBox(Shift(q1, c), Shift(q2, c), Opposite(p))
    {
      Unshifted(p1, p2, c, p);
      Unshifted(q1, q2, c, p);
      MirroredBox(p1, p2, q1, q2, c, Unshift(p, c));
      Unshifted(p1, p2, c, Opposite(p));
      Unshifted(q1, q2, c, Opposite(p));
    }
    if p :| InBox(p1, p2, p) && InBox(q1, q2, p) {
      MirroredBox(p1, p2, q1, q2, c, p);
    }
  }

  lemma Unshifted(a: RealPoint, b: RealPoint, c: RealPoint, p: RealPoint)
    ensures InBox(Shift(a, c), Shift(b, c), p) <==> InBox(a, b, Unshift(p, c))
  {
  }

  lemma MirroredBox(p1: RealPoint, p2: RealPoint, q1: RealPoint, q2: RealPoint, c: RealPoint, p: RealPoint)
    requires IsMiddle(p1.x, p2.x, q1.x, q2.x, c.x) && IsMiddle(p1.y, p2.y, q1.y, q2.y, c.y)
    requires InBox(p1, p2, p) && InBox(q1, q2, p)
    ensures InBox(p1, p2, c) && InBox(q1, q2, c)
    ensures var r := Unshift(Opposite(Shift(p, c)), c); InBox(p1, p2, r) && InBox(q1, q2, r)
  {
    MirrorInMiddle(p1.x, p2.x, q1.x, q2.x, c.x, p.x);
    MirrorInMiddle(p1.y, p2.y, q1.y, q2.y, c.y, p.y);
  }

  /** Whether p lies on the segment from p1 to p2. */
  method HasIntersection(p: Coordinate, p1: Coordinate, p2: Coordinate) returns (on: bool)
    ensures on <==> OnSegment(Real(p), Real(p1), Real(p2))
  {
    PointOnSegment(p, p1, p2);
    TurnCyclic(p1, p2, p);
    if IntersectsPoint(p1, p2, p) {
      var o1 := OrientationIndex(p1, p2, p);
      var o2 := OrientationIndex(p2, p1, p);
      if o1 == 0 && o2 == 0 {
        return true;
      }
    }
    return false;
  }

  lemma PointOnSegment(p: Coordinate, p1: Coordinate, p2: Coordinate)
    ensures OnSegment(Real(p), Real(p1), Real(p2)) <==> IntersectsPoint(p1, p2, p) && Turn(p1, p2, p) == 0
  {
    SideOfCoordinates(p1, p2, p);
    PointInBox(p1, p2, p);
    if OnSegment(Real(p), Real(p1), Real(p2)) {
      SideOnLine(Real(p1), Real(p2), Real(p));
      OnSegmentInBox(Real(p), Real(p1), Real(p2));
    }
    if IntersectsPoint(p1, p2, p) && Turn(p1, p2, p) == 0 {
      if p1 == p2 {
        SinglePointSegment(Real(p), Real(p1));
      } else {
        var s, u := CollinearFractions(p1, p2, p, p);
        assert Real(p) == Along(Real(p1), Real(p2), s);
      }
    }
  }

  /** If a segment is a single point and there is an intersection, both recorded points are that point. */
  ghost predicate SinglePointRecorded(r: Intersection, i0: RealPoint, i1: RealPoint, p1: Coordinate, p2: Coordinate,
                                      q1: Coordinate, q2: Coordinate)
  {
    && (r != DontIntersect && p1 == p2 ==> i0 == i1 == Real(p1))
    && (r != DontIntersect && q1 == q2 ==> i0 == i1 == Real(q1))
  }

  class LineIntersector {
    var inputLines: seq<Coordinate>
    var intPt: seq<RealPoint>
    var isProperVar: bool
    var result: Intersection

    constructor ()
      ensures |intPt| == 2 && |inputLines| == 4
    {
      var origin := Coordinate(0, 0);
      inputLines := [origin, origin, origin, origin];
      intPt := [RealPoint(0.0, 0.0), RealPoint(0.0, 0.0)];
      isProperVar := false;
      result := DontIntersect;
    }

    /** Two segments on one line. */
    method ComputeCollinearIntersection(p1: Coordinate, p2: Coordinate, q1: Coordinate, q2: Coordinate)
      returns (r: Intersection)
      requires |intPt| == 2 && Turn(p1, p2, q1) == 0 && Turn(p1, p2, q2) == 0 && Turn(q1, q2, p1) == 0 &&
        Turn(q1, q2, p2) == 0
      modifies this`intPt
      ensures |intPt| == 2
      ensures Reports(r, intPt[0], intPt[1], p1, p2, q1, q2)
      ensures SinglePointRecorded(r, intPt[0], intPt[1], p1, p2, q1, q2)
    {
      var p1q1p2 := IntersectsPoint(p1, p2, q1);
      var p1q2p2 := IntersectsPoint(p1, p2, q2);
      var q1p1q2 := IntersectsPoint(q1, q2, p1);
      var q1p2q2 := IntersectsPoint(q1, q2, p2);
      ghost var a, b, s, u := Real(p1), Real(p2), 0.0, 0.0;
      ghost var proper := p1 != p2 && q1 != q2;
      if proper {
        s, u := CollinearFractions(p1, p2, q1, q2);
        AlongEnds(a, b);
        SinglePoints();
      } else if p1 == p2 {
        PointMeets(p1, q1, q2);
      } else {
        PointMeets(q1, p1, p2);
      }

      if p1q1p2 && p1q2p2 {
        intPt := [Real(q1), Real(q2)];
        if proper { CommonPart(a, b, s, u, s, u); }
        return Collinear;
      }
      if q1p1q2 && q1p2q2 {
        intPt := [Real(p1), Real(p2)];
        if proper { CommonPart(a, b, s, u, 0.0, 1.0); }
        return Collinear;
      }
      if p1q1p2 && q1p1q2 {
        intPt := [Real(q1), Real(p1)];
        if proper { CommonPart(a, b, s, u, s, 0.0); }
        return if q1 == p1 && !p1q2p2 && !q1p2q2 then DoIntersect else Collinear;
      }
      if p1q1p2 && q1p2q2 {
        intPt := [Real(q1), Real(p2)];
        if proper { CommonPart(a, b, s, u, s, 1.0); }
        return if q1 == p2 && !p1q2p2 && !q1p1q2 then DoIntersect else Collinear;
      }
      if p1q2p2 && q1p1q2 {
        intPt := [Real(q2), Real(p1)];
        if proper { CommonPart(a, b, s, u, u, 0.0); }
        return if q2 == p1 && !p1q1p2 && !q1p2q2 then DoIntersect else Collinear;
      }
      if p1q2p2 && q1p2q2 {
        intPt := [Real(q2), Real(p2)];
        if proper { CommonPart(a, b, s, u, u, 1.0); }
        return if q2 == p2 && !p1q1p2 && !q1p1q2 then DoIntersect else Collinear;
      }
      if proper { NoCommonPart(a, b, s, u); }
      return DontIntersect;
    }

    lemma SinglePoints()
      ensures forall p, q :: OnSegment(p, q, q) <==> p == q
    {
      forall p, q ensures OnSegment(p, q, q) <==> p == q { SinglePointSegment(p, q); }
    }

    lemma NoCommonPart(a: RealPoint, b: RealPoint, s: real, u: real)
      requires a != b && !exists t :: 0.0 <= t <= 1.0 && Between(s, t, u)
      ensures forall p :: !Shared(p, a, b, Along(a, b, s), Along(a, b, u))
    {
      forall p ensures !Shared(p, a, b, Along(a, b, s), Along(a, b, u)) { SharedOnLine(a, b, s, u, p); }
    }
  
    /** Moves the four points alike, so that the common part of the two boxes lies symmetrically about the origin; if
        the boxes meet, the origin lies in both. Neither the sides nor the directions of the segments change. */
    method NormalizeToEnvCentre(p1: RealPoint, p2: RealPoint, q1: RealPoint, q2: RealPoint)
      returns (n00: RealPoint, n01: RealPoint, n10: RealPoint, n11: RealPoint, normPt: RealPoint)
      ensures n00 == Shift(p1, normPt) && n01 == Shift(p2, normPt) && n10 == Shift(q1, normPt) &&
        n11 == Shift(q2, normPt)
      ensures forall p {:trigger Opposite(p)} :: InBox(n00, n01, p) && InBox(n10, n11, p) ==>
        InBox(n00, n01, Opposite(p)) && InBox(n10, n11, Opposite(p))
      ensures (exists p :: InBox(p1, p2, p) && InBox(q1, q2, p)) ==> InBox(p1, p2, normPt) && InBox(q1, q2, normPt)
      ensures Skew(n00, n01, n10, n11) == Skew(p1, p2, q1, q2)
      ensures forall p ::
        Side(n00, n01, p) == Side(p1, p2, Unshift(p, normPt)) && Side(n10, n11, p) == Side(q1, q2, Unshift(p, normPt))
    {
      hide Skew, Side;
      var minX0 := if p1.x < p2.x then p1.x else p2.x;
      var minY0 := if p1.y < p2.y then p1.y else p2.y;
      var maxX0 := if p1.x > p2.x then p1.x else p2.x;
      var maxY0 := if p1.y > p2.y then p1.y else p2.y;
      var minX1 := if q1.x < q2.x then q1.x else q2.x;
      var minY1 := if q1.y < q2.y then q1.y else q2.y;
      var maxX1 := if q1.x > q2.x then q1.x else q2.x;
      var maxY1 := if q1.y > q2.y then q1.y else q2.y;
      var intMinX := if minX0 > minX1 then minX0 else minX1;
      var intMaxX := if maxX0 < maxX1 then maxX0 else maxX1;
      var intMinY := if minY0 > minY1 then minY0 else minY1;
      var intMaxY := if maxY0 < maxY1 then maxY0 else maxY1;
      var intMidX := (intMinX + intMaxX) / 2.0;
      var intMidY := (intMinY + intMaxY) / 2.0;
      normPt := RealPoint(intMidX, intMidY);
      MiddleOf(p1.x, p2.x, q1.x, q2.x, minX0, minX1, maxX0, maxX1, intMidX);
      MiddleOf(p1.y, p2.y, q1.y, q2.y, minY0, minY1, maxY0, maxY1, intMidY);
      n00 := RealPoint(p1.x - normPt.x, p1.y - normPt.y);
      n01 := RealPoint(p2.x - normPt.x, p2.y - normPt.y);
      n10 := RealPoint(q1.x - normPt.x, q1.y - normPt.y);
      n11 := RealPoint(q2.x - normPt.x, q2.y - normPt.y);
      CentredBoxes(p1, p2, q1, q2, normPt);
      ShiftKeepsSkew(p1, p2, q1, q2, normPt);
      ShiftKeepsSides(p1, p2, normPt);
      ShiftKeepsSides(q1, q2, normPt);
    }

    /** Whether p lies in the boxes of both segments. For a point on both lines that means lying on both segments. */
    method IsInSegmentEnvelopes(p: RealPoint) returns (inside: bool)
      requires |inputLines| == 4
      ensures var p1, p2, q1, q2 := Real(inputLines[0]), Real(inputLines[1]), Real(inputLines[2]), Real(inputLines[3]);
        && (inside <==> InBox(p1, p2, p) && InBox(q1, q2, p))
        && (Side(p1, p2, p) == 0.0 && Side(q1, q2, p) == 0.0 ==> (inside <==> Shared(p, p1, p2, q1, q2)))
    {
      var env0 := Box.Init(Real(inputLines[0]), Real(inputLines[1]));
      var env1 := Box.Init(Real(inputLines[2]), Real(inputLines[3]));
      inside := env0.Contains(p) && env1.Contains(p);
      BoxTest(Real(inputLines[0]), Real(inputLines[1]), p);
      BoxTest(Real(inputLines[2]), Real(inputLines[3]), p);
    }

    /** The intersection of two segments that cross properly. The parameter central stands for the substitute taken
        when the computed point lies outside the boxes of the segments: it is never used. */
    method ProperIntersection(p1: Coordinate, p2: Coordinate, q1: Coordinate, q2: Coordinate, central: RealPoint)
      returns (p: RealPoint)
      requires inputLines == [p1, p2, q1, q2]
      requires Separating(Turn(p1, p2, q1), Turn(p1, p2, q2), Turn(q1, q2, p1), Turn(q1, q2, p2))
      ensures Side(Real(p1), Real(p2), p) == 0.0 && Side(Real(q1), Real(q2), p) == 0.0
      ensures Shared(p, Real(p1), Real(p2), Real(q1), Real(q2))
    {
      var n1, n2, n3, n4, normPt := NormalizeToEnvCentre(Real(p1), Real(p2), Real(q1), Real(q2));
      SidesOfSegments(p1, p2, q1, q2);
      IntersectionOnLines(n1, n2, n3, n4);
      p := HCoordinates.Intersection(n1, n2, n3, n4);
      assert Side(Real(p1), Real(p2), Unshift(p, normPt)) == 0.0 && Side(Real(q1), Real(q2), Unshift(p, normPt)) == 0.0;
      p := RealPoint(p.x + normPt.x, p.y + normPt.y);
      MeetInOnePoint(p1, p2, q1, q2, p);
      var inside := IsInSegmentEnvelopes(p);
      if !inside {
        p := central;
      }
    }

    /** Classifies the intersection and records the common point, or the ends of the common part. */
    method ComputeIntersect(p1: Coordinate, p2: Coordinate, q1: Coordinate, q2: Coordinate, central: RealPoint)
      returns (r: Intersection)
      requires |intPt| == 2 && inputLines == [p1, p2, q1, q2]
      modifies this`intPt, this`isProperVar
      ensures |intPt| == 2
      ensures Reports(r, intPt[0], intPt[1], p1, p2, q1, q2)
      ensures SinglePointRecorded(r, intPt[0], intPt[1], p1, p2, q1, q2)
      ensures isProperVar <==>
        && r == DoIntersect
        && Turn(p1, p2, q1) != 0 && Turn(p1, p2, q2) != 0 && Turn(q1, q2, p1) != 0 && Turn(q1, q2, p2) != 0
    {
      isProperVar := false;
      if !IntersectsSegment(p1, p2, q1, q2) {
        forall p ensures !Shared(p, Real(p1), Real(p2), Real(q1), Real(q2)) { SeparateBoxes(p1, p2, q1, q2, p); }
        return DontIntersect;
      }
      var Pq1 := OrientationIndex(p1, p2, q1);
      var Pq2 := OrientationIndex(p1, p2, q2);
      if (Pq1 > 0 && Pq2 > 0) || (Pq1 < 0 && Pq2 < 0) {
        SameSideMeansDisjoint(p1, p2, q1, q2);
        return DontIntersect;
      }
      var Qp1 := OrientationIndex(q1, q2, p1);
      var Qp2 := OrientationIndex(q1, q2, p2);
      if (Qp1 > 0 && Qp2 > 0) || (Qp1 < 0 && Qp2 < 0) {
        SameSideMeansDisjoint(p1, p2, q1, q2);
        return DontIntersect;
      }
      var collinear := Pq1 == 0 && Pq2 == 0 && Qp1 == 0 && Qp2 == 0;
      if collinear {
        r := ComputeCollinearIntersection(p1, p2, q1, q2);
        return;
      }
      assert p1 != p2 && q1 != q2 by { DegenerateSides(p1, p2, q1, q2); }
      if Pq1 == 0 || Pq2 == 0 || Qp1 == 0 || Qp2 == 0 {
        isProperVar := false;
        var e := EndpointIntersection(p1, p2, q1, q2, Pq1, Pq2, Qp1, Qp2);
        intPt := [Real(e), intPt[1]];
        MeetInOnePoint(p1, p2, q1, q2, Real(e));
      } else {
        isProperVar := true;
        var p := ProperIntersection(p1, p2, q1, q2, central);
        intPt := [p, intPt[1]];
        MeetInOnePoint(p1, p2, q1, q2, p);
      }
      return DoIntersect;
    }

    /** The end that lies on the other segment. */
    method EndpointIntersection(p1: Coordinate, p2: Coordinate, q1: Coordinate, q2: Coordinate, Pq1: int, Pq2: int,
                                Qp1: int, Qp2: int)
      returns (e: Coordinate)
      requires Pq1 == Sign(Turn(p1, p2, q1)) && Pq2 == Sign(Turn(p1, p2, q2)) && Qp1 == Sign(Turn(q1, q2, p1)) &&
        Qp2 == Sign(Turn(q1, q2, p2))
      requires Pq1 == 0 || Pq2 == 0 || Qp1 == 0 || Qp2 == 0
      ensures e == p1 || e == p2 || e == q1 || e == q2
      ensures Side(Real(p1), Real(p2), Real(e)) == 0.0 && Side(Real(q1), Real(q2), Real(e)) == 0.0
    {
      EndSides(p1, p2);
      EndSides(q1, q2);
      if p1 == q1 || p1 == q2 {
        return p1;
      } else if p2 == q1 || p2 == q2 {
        return p2;
      } else if Pq1 == 0 {
        EndpointOnLines(p1, p2, q1, q2);
        return q1;
      } else if Pq2 == 0 {
        EndpointOnLines(p1, p2, q2, q1);
        return q2;
      } else if Qp1 == 0 {
        EndpointOnLines(q1, q2, p1, p2);
        return p1;
      } else {
        EndpointOnLines(q1, q2, p2, p1);
        return p2;
      }
    }

    method ComputeIntersection(p1: Coordinate, p2: Coordinate, p3: Coordinate, p4: Coordinate, central: RealPoint)
      requires |intPt| == 2
      modifies this
      ensures |intPt| == 2
      ensures Reports(result, intPt[0], intPt[1], p1, p2, p3, p4)
      ensures SinglePointRecorded(result, intPt[0], intPt[1], p1, p2, p3, p4)
      ensures isProperVar <==>
        && result == DoIntersect
        && Turn(p1, p2, p3) != 0 && Turn(p1, p2, p4) != 0 && Turn(p3, p4, p1) != 0 && Turn(p3, p4, p2) != 0
    {
      inputLines := [p1, p2, p3, p4];
      result := ComputeIntersect(p1, p2, p3, p4, central);
    }
  }

  /** Over a single point every turn is straight, and its two ends are on the same side of anything. */
  lemma DegenerateSides(p1: Coordinate, p2: Coordinate, q1: Coordinate, q2: Coordinate)
    ensures p1 == p2 ==> Turn(p1, p2, q1) == 0 && Turn(p1, p2, q2) == 0 && Turn(q1, q2, p1) == Turn(q1, q2, p2)
    ensures q1 == q2 ==> Turn(q1, q2, p1) == 0 && Turn(q1, q2, p2) == 0 && Turn(p1, p2, q1) == Turn(p1, p2, q2)
  {
  }

  lemma EndSides(a: Coordinate, b: Coordinate)
    ensures Side(Real(a), Real(b), Real(a)) == 0.0 && Side(Real(a), Real(b), Real(b)) == 0.0
  {
  }
}
