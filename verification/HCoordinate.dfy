/** Homogeneous coordinates: the line through two points and the point on two lines are both cross products. */
module HCoordinates {
  import opened Segments

  datatype HCoordinate = HCoordinate(x: real, y: real, w: real) {
    static function OfPoint(p: RealPoint): HCoordinate {
      HCoordinate(p.x, p.y, 1.0)
    }

    static function Cross(p1: HCoordinate, p2: HCoordinate): HCoordinate {
      HCoordinate(p1.y * p2.w - p2.y * p1.w, p2.x * p1.w - p1.x * p2.w, p1.x * p2.y - p2.x * p1.y)
    }

    function GetX(): real
      requires w != 0.0
    {
      x / w
    }

    function GetY(): real
      requires w != 0.0
    {
      y / w
    }

    function GetCoordinate(): RealPoint
      requires w != 0.0
    {
      RealPoint(GetX(), GetY())
    }
  }

  function Meet(p1: RealPoint, p2: RealPoint, q1: RealPoint, q2: RealPoint): HCoordinate {
    var l1 := HCoordinate.Cross(HCoordinate.OfPoint(p1), HCoordinate.OfPoint(p2));
    var l2 := HCoordinate.Cross(HCoordinate.OfPoint(q1), HCoordinate.OfPoint(q2));
    HCoordinate.Cross(l1, l2)
  }

  function Intersection(p1: RealPoint, p2: RealPoint, q1: RealPoint, q2: RealPoint): RealPoint
    requires Meet(p1, p2, q1, q2).w != 0.0
  {
    Meet(p1, p2, q1, q2).GetCoordinate()
  }

  /** The homogeneous weight vanishes exactly for parallel lines. */
  lemma WeightIsSkew(p1: RealPoint, p2: RealPoint, q1: RealPoint, q2: RealPoint)
    ensures Meet(p1, p2, q1, q2).w == Skew(p1, p2, q1, q2)
  {
  }

  /** The homogeneous intersection lies on both lines. */
  lemma IntersectionOnLines(p1: RealPoint, p2: RealPoint, q1: RealPoint, q2: RealPoint)
    requires Skew(p1, p2, q1, q2) != 0.0
    ensures Meet(p1, p2, q1, q2).w != 0.0
    ensures Side(p1, p2, Intersection(p1, p2, q1, q2)) == 0.0
    ensures Side(q1, q2, Intersection(p1, p2, q1, q2)) == 0.0
  {
    WeightIsSkew(p1, p2, q1, q2);
    MeetIncidence(p1, p2, q1, q2);
    IncidentPoint(p1, p2, Meet(p1, p2, q1, q2));
    IncidentPoint(q1, q2, Meet(p1, p2, q1, q2));
  }

  /** The line through a and b, evaluated at a homogeneous point. */
  function Incidence(a: RealPoint, b: RealPoint, h: HCoordinate): real {
    (b.x - a.x) * (h.y - b.y * h.w) - (h.x - b.x * h.w) * (b.y - a.y)
  }

  lemma IncidentPoint(a: RealPoint, b: RealPoint, h: HCoordinate)
    requires h.w != 0.0 && Incidence(a, b, h) == 0.0
    ensures Side(a, b, h.GetCoordinate()) == 0.0
  {
    var p := h.GetCoordinate();
    HomogeneousSide(a, b, p, h);
    RealProductSign(h.w, Side(a, b, p));
  }

  lemma HomogeneousSide(a: RealPoint, b: RealPoint, p: RealPoint, h: HCoordinate)
    requires p.x * h.w == h.x && p.y * h.w == h.y
    ensures h.w * Side(a, b, p) == Incidence(a, b, h)
  {
    assert h.w * Side(a, b, p) == (b.x - a.x) * (p.y * h.w - b.y * h.w) - (p.x * h.w - b.x * h.w) * (b.y - a.y);
  }

  lemma MeetIncidence(p1: RealPoint, p2: RealPoint, q1: RealPoint, q2: RealPoint)
    ensures Incidence(p1, p2, Meet(p1, p2, q1, q2)) == 0.0 && Incidence(q1, q2, Meet(p1, p2, q1, q2)) == 0.0
  {
  }
}
