/** Segments as sets of real points, and how two of them meet. */
module Segments {
  import opened Plane
  import opened Reals

  datatype RealPoint = RealPoint(x: real, y: real)

  function Real(p: Coordinate): RealPoint {
    RealPoint(p.x as real, p.y as real)
  }

  function RealDet(x1: real, y1: real, x2: real, y2: real): real {
    x1 * y2 - x2 * y1
  }

  /** Twice the signed area of the triangle p, q, r. */
  function Side(p: RealPoint, q: RealPoint, r: RealPoint): real {
    RealDet(q.x - p.x, q.y - p.y, r.x - q.x, r.y - q.y)
  }

  lemma SideOfCoordinates(p: Coordinate, q: Coordinate, r: Coordinate)
    ensures Side(Real(p), Real(q), Real(r)) == Turn(p, q, r) as real
  {
    IntegerProduct(q.x - p.x, r.y - q.y);
    IntegerProduct(r.x - q.x, q.y - p.y);
  }

  /** The point reached from a after the fraction t of the way to b. */
  function Along(a: RealPoint, b: RealPoint, t: real): RealPoint {
    RealPoint(a.x + t * (b.x - a.x), a.y + t * (b.y - a.y))
  }

  ghost predicate OnSegment(p: RealPoint, a: RealPoint, b: RealPoint) {
    exists t :: 0.0 <= t <= 1.0 && p == Along(a, b, t)
  }

  /** p lies on both segments. */
  ghost predicate Shared(p: RealPoint, p1: RealPoint, p2: RealPoint, q1: RealPoint, q2: RealPoint) {
    OnSegment(p, p1, p2) && OnSegment(p, q1, q2)
  }

  lemma SideAlong(a: RealPoint, b: RealPoint, c: RealPoint, d: RealPoint, t: real)
    ensures Side(a, b, Along(c, d, t)) == (1.0 - t) * Side(a, b, c) + t * Side(a, b, d)
  {
  }

  lemma SideOnLine(a: RealPoint, b: RealPoint, p: RealPoint)
    requires OnSegment(p, a, b)
    ensures Side(a, b, p) == 0.0
  {
    var t :| 0.0 <= t <= 1.0 && p == Along(a, b, t);
    SideAlong(a, b, a, b, t);
    assert Side(a, b, a) == 0.0 && Side(a, b, b) == 0.0;
  }

  lemma RealProductSign(a: real, b: real)
    ensures a > 0.0 && b > 0.0 ==> a * b > 0.0
    ensures a >= 0.0 && b >= 0.0 ==> a * b >= 0.0
    ensures a <= 0.0 && b >= 0.0 ==> a * b <= 0.0
    ensures a != 0.0 && b != 0.0 ==> a * b != 0.0
  {
  }

  lemma PositiveMean(t: real, x: real, y: real)
    requires 0.0 <= t <= 1.0 && x > 0.0 && y > 0.0
    ensures (1.0 - t) * x + t * y > 0.0
  {
    if t == 0.0 {
    } else {
      RealProductSign(t, y);
      RealProductSign(1.0 - t, x);
    }
  }

  /** Segments with both ends of one strictly on the same side of the other have no common point. */
  lemma SameSideDisjoint(p1: RealPoint, p2: RealPoint, q1: RealPoint, q2: RealPoint, p: RealPoint)
    requires (Side(p1, p2, q1) > 0.0 && Side(p1, p2, q2) > 0.0) || (Side(p1, p2, q1) < 0.0 && Side(p1, p2, q2) < 0.0)
    ensures !Shared(p, p1, p2, q1, q2)
  {
    if Shared(p, p1, p2, q1, q2) {
      SideOnLine(p1, p2, p);
      var t :| 0.0 <= t <= 1.0 && p == Along(q1, q2, t);
      SideAlong(p1, p2, q1, q2, t);
      var a, b := Side(p1, p2, q1), Side(p1, p2, q2);
      if a > 0.0 {
        PositiveMean(t, a, b);
      } else {
        PositiveMean(t, -a, -b);
      }
    }
  }

  /** The determinant of the directions of the two segments. */
  function Skew(p1: RealPoint, p2: RealPoint, q1: RealPoint, q2: RealPoint): real {
    RealDet(p2.x - p1.x, p2.y - p1.y, q2.x - q1.x, q2.y - q1.y)
  }

  lemma SkewOfSides(p1: RealPoint, p2: RealPoint, q1: RealPoint, q2: RealPoint)
    ensures Skew(p1, p2, q1, q2) == Side(p1, p2, q2) - Side(p1, p2, q1) == Side(q1, q2, p1) - Side(q1, q2, p2)
  {
  }

  /** Lines that are not parallel have at most one common point. */
  lemma LinesMeetOnce(p1: RealPoint, p2: RealPoint, q1: RealPoint, q2: RealPoint, x: RealPoint, y: RealPoint)
    requires Skew(p1, p2, q1, q2) != 0.0
    requires Side(p1, p2, x) == 0.0 && Side(q1, q2, x) == 0.0 && Side(p1, p2, y) == 0.0 && Side(q1, q2, y) == 0.0
    ensures x == y
  {
    var k := Skew(p1, p2, q1, q2);
    MeetingPointRelation(p1, p2, q1, q2, x);
    MeetingPointRelation(p1, p2, q1, q2, y);
    RealProductSign(k, x.x - y.x);
    RealProductSign(k, x.y - y.y);
  }

  lemma MeetingPointRelation(p1: RealPoint, p2: RealPoint, q1: RealPoint, q2: RealPoint, x: RealPoint)
    requires Side(p1, p2, x) == 0.0 && Side(q1, q2, x) == 0.0
    ensures Skew(p1, p2, q1, q2) * (x.x - p1.x) == Side(q1, q2, p1) * (p2.x - p1.x)
    ensures Skew(p1, p2, q1, q2) * (x.y - p1.y) == Side(q1, q2, p1) * (p2.y - p1.y)
  {
    assert Skew(p1, p2, q1, q2) * (x.x - p1.x)
        == Side(q1, q2, p1) * (p2.x - p1.x) - Side(q1, q2, x) * (p2.x - p1.x) + Side(p1, p2, x) * (q2.x - q1.x);
    assert Skew(p1, p2, q1, q2) * (x.y - p1.y)
        == Side(q1, q2, p1) * (p2.y - p1.y) - Side(q1, q2, x) * (p2.y - p1.y) + Side(p1, p2, x) * (q2.y - q1.y);
  }

  /** The fraction of the way from the signed distance c to the signed distance d at which zero is passed. */
  lemma FractionInRange(c: real, d: real)
    requires c != d && !(c > 0.0 && d > 0.0) && !(c < 0.0 && d < 0.0)
    ensures 0.0 <= c / (c - d) <= 1.0
  {
    var t := c / (c - d);
    assert t * (c - d) == c && (t - 1.0) * (c - d) == d;
    if t < 0.0 {
      RealProductSign(-t, c - d);
      RealProductSign(-t, d - c);
    } else if t > 1.0 {
      RealProductSign(t - 1.0, c - d);
      RealProductSign(t - 1.0, d - c);
    }
  }

  /** Where the line through q1 and q2 cuts the segment from p1 to p2. */
  function Meeting(p1: RealPoint, p2: RealPoint, q1: RealPoint, q2: RealPoint): RealPoint
    requires Side(q1, q2, p1) != Side(q1, q2, p2)
  {
    Along(p1, p2, Side(q1, q2, p1) / (Side(q1, q2, p1) - Side(q1, q2, p2)))
  }

  lemma MeetingOnLines(p1: RealPoint, p2: RealPoint, q1: RealPoint, q2: RealPoint)
    requires Side(q1, q2, p1) != Side(q1, q2, p2)
    ensures Side(p1, p2, Meeting(p1, p2, q1, q2)) == 0.0 && Side(q1, q2, Meeting(p1, p2, q1, q2)) == 0.0
  {
    var c, d := Side(q1, q2, p1), Side(q1, q2, p2);
    var t := c / (c - d);
    assert t * (c - d) == c;
    SideAlong(p1, p2, p1, p2, t);
    SideAlong(q1, q2, p1, p2, t);
  }

  predicate OppositeSides(a: real, b: real) {
    !(a > 0.0 && b > 0.0) && !(a < 0.0 && b < 0.0)
  }

  /** Segments that separate each other's ends and are not parallel meet in exactly one point. */
  lemma CrossingPoint(p1: RealPoint, p2: RealPoint, q1: RealPoint, q2: RealPoint) returns (p: RealPoint)
    requires Skew(p1, p2, q1, q2) != 0.0
    requires OppositeSides(Side(p1, p2, q1), Side(p1, p2, q2)) && OppositeSides(Side(q1, q2, p1), Side(q1, q2, p2))
    ensures Shared(p, p1, p2, q1, q2)
    ensures Side(p1, p2, p) == 0.0 && Side(q1, q2, p) == 0.0
  {
    SkewOfSides(p1, p2, q1, q2);
    p := Meeting(p1, p2, q1, q2);
    var p' := Meeting(q1, q2, p1, p2);
    MeetingOnLines(p1, p2, q1, q2);
    MeetingOnLines(q1, q2, p1, p2);
    LinesMeetOnce(p1, p2, q1, q2, p, p');
    FractionInRange(Side(q1, q2, p1), Side(q1, q2, p2));
    FractionInRange(Side(p1, p2, q1), Side(p1, p2, q2));
  }

  lemma SharedIsUnique(p1: RealPoint, p2: RealPoint, q1: RealPoint, q2: RealPoint, x: RealPoint)
    requires Skew(p1, p2, q1, q2) != 0.0 && Side(p1, p2, x) == 0.0 && Side(q1, q2, x) == 0.0
    ensures forall y :: Shared(y, p1, p2, q1, q2) ==> y == x
  {
    forall y | Shared(y, p1, p2, q1, q2) ensures y == x {
      SideOnLine(p1, p2, y);
      SideOnLine(q1, q2, y);
      LinesMeetOnce(p1, p2, q1, q2, x, y);
    }
  }

  /** The coordinate on a line: the fraction t with p == Along(a, b, t). */
  lemma Fraction(a: RealPoint, b: RealPoint, p: RealPoint) returns (t: real)
    requires a != b && Side(a, b, p) == 0.0
    ensures p == Along(a, b, t)
  {
    var dx, dy := b.x - a.x, b.y - a.y;
    var ex, ey := p.x - a.x, p.y - a.y;
    assert dx * ey == dy * ex;
    if dx != 0.0 {
      t := Proportion(dx, dy, ex, ey);
    } else {
      t := Proportion(dy, dx, ey, ex);
    }
  }

  lemma Proportion(dx: real, dy: real, ex: real, ey: real) returns (t: real)
    requires dx != 0.0 && dx * ey == dy * ex
    ensures ex == t * dx && ey == t * dy
  {
    t := ex / dx;
    assert t * dx == ex;
    assert dy * (t * dx) == (t * dy) * dx;
    assert dx * (t * dy - ey) == (t * dy) * dx - dx * ey;
    RealProductSign(dx, t * dy - ey);
  }

  lemma AlongInjective(a: RealPoint, b: RealPoint, s: real, t: real)
    requires a != b && Along(a, b, s) == Along(a, b, t)
    ensures s == t
  {
    RealProductSign(s - t, b.x - a.x);
    RealProductSign(s - t, b.y - a.y);
  }

  predicate Between(s: real, t: real, u: real) {
    s <= t <= u || u <= t <= s
  }

  lemma AlongAlong(a: RealPoint, b: RealPoint, s: real, u: real, r: real)
    ensures Along(Along(a, b, s), Along(a, b, u), r) == Along(a, b, s + r * (u - s))
  {
    FractionOfFraction(a.x, b.x - a.x, s, u, r);
    FractionOfFraction(a.y, b.y - a.y, s, u, r);
  }

  lemma FractionOfFraction(a: real, d: real, s: real, u: real, r: real)
    ensures (a + s * d) + r * ((a + u * d) - (a + s * d)) == a + (s + r * (u - s)) * d
  {
    var w := u - s;
    assert (a + u * d) - (a + s * d) == w * d;
    assert r * (w * d) == (r * w) * d;
  }

  lemma MeanIsBetween(s: real, u: real, r: real)
    requires 0.0 <= r <= 1.0
    ensures Between(s, s + r * (u - s), u)
  {
    if s <= u {
      RealProductSign(r, u - s);
      RealProductSign(1.0 - r, u - s);
    } else {
      RealProductSign(r, s - u);
      RealProductSign(1.0 - r, s - u);
    }
  }

  /** Segments of one line are intervals of fractions. */
  lemma SegmentToInterval(a: RealPoint, b: RealPoint, s: real, u: real, p: RealPoint) returns (t: real)
    requires OnSegment(p, Along(a, b, s), Along(a, b, u))
    ensures Between(s, t, u) && p == Along(a, b, t)
  {
    var r :| 0.0 <= r <= 1.0 && p == Along(Along(a, b, s), Along(a, b, u), r);
    AlongAlong(a, b, s, u, r);
    MeanIsBetween(s, u, r);
    t := s + r * (u - s);
  }

  lemma IntervalToSegment(a: RealPoint, b: RealPoint, s: real, u: real, t: real)
    requires Between(s, t, u)
    ensures OnSegment(Along(a, b, t), Along(a, b, s), Along(a, b, u))
  {
    var r := if s == u then 0.0 else (t - s) / (u - s);
    if s != u {
      assert r * (u - s) == t - s;
      UnitFraction(t - s, u - s);
    }
    AlongAlong(a, b, s, u, r);
    assert s + r * (u - s) == t;
  }

  lemma UnitFraction(part: real, whole: real)
    requires whole != 0.0 && (0.0 <= part <= whole || whole <= part <= 0.0)
    ensures 0.0 <= part / whole <= 1.0
  {
    var r := part / whole;
    assert r * whole == part;
    RealProductSign(-r, whole); RealProductSign(-r, -whole);
    RealProductSign(r - 1.0, whole); RealProductSign(r - 1.0, -whole);
  }

  predicate InBox(a: RealPoint, b: RealPoint, p: RealPoint) {
    Between(a.x, p.x, b.x) && Between(a.y, p.y, b.y)
  }

  /** Among points of one line, lying in the bounding box of a segment means lying on it. */
  lemma BoxOnLine(a: RealPoint, b: RealPoint, s: real, t: real, u: real)
    requires a != b
    ensures InBox(Along(a, b, s), Along(a, b, u), Along(a, b, t)) <==> Between(s, t, u)
  {
    var kx, ky := b.x - a.x, b.y - a.y;
    BetweenScaled(s, t, u, kx, a.x);
    BetweenScaled(s, t, u, ky, a.y);
    var c, p, d := Along(a, b, s), Along(a, b, t), Along(a, b, u);
    assert c.x == a.x + s * kx && p.x == a.x + t * kx && d.x == a.x + u * kx;
    assert c.y == a.y + s * ky && p.y == a.y + t * ky && d.y == a.y + u * ky;
  }

  lemma BetweenScaled(s: real, t: real, u: real, k: real, c: real)
    ensures Between(s, t, u) ==> Between(c + s * k, c + t * k, c + u * k)
    ensures k != 0.0 && Between(c + s * k, c + t * k, c + u * k) ==> Between(s, t, u)
  {
    ScaleOrder(s, t, k);
    ScaleOrder(t, u, k);
  }

  lemma ScaleOrder(s: real, t: real, k: real)
    ensures k > 0.0 ==> (s <= t <==> s * k <= t * k) && (t <= s <==> t * k <= s * k)
    ensures k < 0.0 ==> (s <= t <==> t * k <= s * k) && (t <= s <==> s * k <= t * k)
    ensures k == 0.0 ==> s * k == t * k
  {
    var d := (t - s) * k;
    assert d == t * k - s * k;
    RealProductSign(t - s, k);
    RealProductSign(s - t, k);
    RealProductSign(t - s, -k);
    RealProductSign(s - t, -k);
  }

  lemma OnSegmentInBox(p: RealPoint, a: RealPoint, b: RealPoint)
    requires OnSegment(p, a, b)
    ensures InBox(a, b, p)
  {
    var t :| 0.0 <= t <= 1.0 && p == Along(a, b, t);
    BetweenScaled(0.0, t, 1.0, b.x - a.x, a.x);
    BetweenScaled(0.0, t, 1.0, b.y - a.y, a.y);
  }
}
