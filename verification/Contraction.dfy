/** Undoing a shift by iteration: how fast it converges, for any shift whose differences are small enough. */
module Contraction {
  import opened Reals

  datatype LP = LP(lam: real, phi: real)

  /** The forward shift of t. */
  function Forward(s: LP -> LP, t: LP): LP {
    LP(t.lam - s(t).lam, t.phi + s(t).phi)
  }

  /** One pass of the inverse: where tb would come from if the shift there were that at t. */
  function Back(s: LP -> LP, tb: LP, t: LP): LP {
    LP(tb.lam + s(t).lam, tb.phi - s(t).phi)
  }

  function Iterated(s: LP -> LP, tb: LP, k: nat): LP {
    if k == 0 then tb else Back(s, tb, Iterated(s, tb, k - 1))
  }

  /** Both components differ by at most e. */
  ghost predicate AtMost(t: LP, u: LP, e: real) {
    Fabs(t.lam - u.lam) <= e && Fabs(t.phi - u.phi) <= e
  }

  ghost predicate IsDistance(t: LP, u: LP, d: real) {
    forall e: real {:trigger AtMost(t, u, e)} :: d <= e <==> AtMost(t, u, e)
  }

  /** The greater of the differences of the components. */
  ghost function Distance(t: LP, u: LP): (d: real)
    ensures IsDistance(t, u, d)
  {
    var a, b := Fabs(t.lam - u.lam), Fabs(t.phi - u.phi);
    assert IsDistance(t, u, if a >= b then a else b);
    var d :| IsDistance(t, u, d);
    d
  }

  lemma DistanceNonNegative(t: LP, u: LP)
    ensures Distance(t, u) >= 0.0
  {
    assert AtMost(t, u, Distance(t, u));
  }

  lemma EqualDistances(t: LP, u: LP, v: LP, w: LP)
    requires forall e: real :: AtMost(t, u, e) == AtMost(v, w, e)
    ensures Distance(t, u) == Distance(v, w)
  {
    assert AtMost(t, u, Distance(t, u)) == AtMost(v, w, Distance(t, u));
    assert AtMost(t, u, Distance(v, w)) == AtMost(v, w, Distance(v, w));
  }

  /** Shifts of two points differ by at most q times their distance. */
  ghost predicate Contracting(s: LP -> LP, q: real) {
    forall t, u {:trigger Distance(s(t), s(u))} :: Distance(s(t), s(u)) <= q * Distance(t, u)
  }

  /** The fixed points of a pass are the exact inverses. */
  lemma FixedPointIsInverse(s: LP -> LP, tb: LP, t: LP)
    ensures Back(s, tb, t) == t <==> Forward(s, t) == tb
  {
  }

  lemma PassShrinks(s: LP -> LP, tb: LP, t: LP, u: LP, q: real)
    requires Contracting(s, q)
    ensures Distance(Back(s, tb, t), Back(s, tb, u)) <= q * Distance(t, u)
  {
    assert Distance(s(t), s(u)) <= q * Distance(t, u);
    SameDistance(tb, s(t), s(u));
  }

  lemma SameDistance(tb: LP, v: LP, w: LP)
    ensures Distance(LP(tb.lam + v.lam, tb.phi - v.phi), LP(tb.lam + w.lam, tb.phi - w.phi)) == Distance(v, w)
  {
    EqualDistances(LP(tb.lam + v.lam, tb.phi - v.phi), LP(tb.lam + w.lam, tb.phi - w.phi), v, w);
  }

  /** Every pass, and the first guess as well, multiplies the distance from the exact inverse by at most q. */
  lemma {:induction false} ErrorShrinks(s: LP -> LP, tb: LP, exact: LP, q: real, k: nat)
    requires Contracting(s, q) && q >= 0.0 && Forward(s, exact) == tb
    ensures Distance(Iterated(s, tb, k), exact) <= Power(q, k) * Distance(tb, exact)
  {
    if k > 0 {
      ErrorShrinks(s, tb, exact, q, k - 1);
      FixedPointIsInverse(s, tb, exact);
      var t := Iterated(s, tb, k - 1);
      PassShrinks(s, tb, t, exact, q);
      ScaleBound(q, Distance(t, exact), Power(q, k - 1), Distance(tb, exact), Distance(Iterated(s, tb, k), exact),
        Power(q, k));
    }
  }

  lemma ScaleBound(q: real, d: real, p: real, e: real, x: real, r: real)
    requires q >= 0.0 && d <= p * e && x <= q * d && r == q * p
    ensures x <= r * e
  {
    NonNegativeProduct(q, p * e - d);
    assert q * (p * e - d) == r * e - q * d;
  }

  /** There is at most one exact inverse. */
  lemma InverseIsUnique(s: LP -> LP, tb: LP, t: LP, u: LP, q: real)
    requires Contracting(s, q) && q < 1.0 && Forward(s, t) == tb == Forward(s, u)
    ensures t == u
  {
    FixedPointIsInverse(s, tb, t);
    FixedPointIsInverse(s, tb, u);
    FixedDistance(s, tb, t, u, Back(s, tb, t), Back(s, tb, u), q);
    DistanceNonNegative(t, u);
    NoGrowth(q, Distance(t, u), q * Distance(t, u));
    ZeroDistance(t, u);
  }

  lemma FixedDistance(s: LP -> LP, tb: LP, t: LP, u: LP, t': LP, u': LP, q: real)
    requires Contracting(s, q) && t' == Back(s, tb, t) && u' == Back(s, tb, u) && t' == t && u' == u
    ensures Distance(t, u) <= q * Distance(t, u)
  {
    PassShrinks(s, tb, t, u, q);
  }

  lemma NoGrowth(q: real, d: real, e: real)
    requires q < 1.0 && 0.0 <= d <= e && e == q * d
    ensures d == 0.0
  {
    if d > 0.0 { PositiveProduct(1.0 - q, d); }
  }

  lemma ZeroDistance(t: LP, u: LP)
    requires Distance(t, u) == 0.0
    ensures t == u
  {
    assert AtMost(t, u, 0.0);
  }

  /** The forward shift of an iterate hits the goal to within e exactly if the next pass moves neither component by
      more than e. */
  lemma AccurateWhen(s: LP -> LP, tb: LP, k: nat, e: real)
    ensures AtMost(Forward(s, Iterated(s, tb, k)), tb, e) <==> AtMost(Iterated(s, tb, k), Iterated(s, tb, k + 1), e)
  {
    var t := Iterated(s, tb, k);
    assert Iterated(s, tb, k + 1) == Back(s, tb, t);
  }

  /** How far the iterate after a pass can be from the exact inverse, judged by what the pass has changed. */
  lemma ErrorByChange(s: LP -> LP, tb: LP, exact: LP, q: real, k: nat, e: real)
    requires Contracting(s, q) && 0.0 <= q < 1.0 && Forward(s, exact) == tb
    requires AtMost(Iterated(s, tb, k), Iterated(s, tb, k + 1), e)
    ensures (1.0 - q) * Distance(Iterated(s, tb, k + 1), exact) <= q * e
  {
    var t := Iterated(s, tb, k);
    var u := Iterated(s, tb, k + 1);
    FixedPointIsInverse(s, tb, exact);
    PassShrinks(s, tb, t, exact, q);
    Triangle(t, u, exact);
    ByChange(q, Distance(t, exact), Distance(u, exact), Distance(t, u), e);
  }

  lemma Triangle(t: LP, u: LP, v: LP)
    ensures Distance(t, v) <= Distance(t, u) + Distance(u, v)
  {
    assert AtMost(t, u, Distance(t, u)) && AtMost(u, v, Distance(u, v));
    assert AtMost(t, v, Distance(t, u) + Distance(u, v));
  }

  lemma ByChange(q: real, before: real, after: real, change: real, e: real)
    requires q >= 0.0 && after <= q * before && before <= change + after && change <= e
    ensures (1.0 - q) * after <= q * e
  {
    NonNegativeProduct(q, e + after - before);
    assert q * (e + after - before) == q * e + q * after - q * before;
    assert (1.0 - q) * after == after - q * after;
  }

  /** What a pass changes is what the forward shift of the iterate before it misses the goal by; after the pass, the
      forward shift misses by at most q times as much. */
  lemma Residual(s: LP -> LP, tb: LP, k: nat, q: real)
    requires Contracting(s, q)
    ensures Distance(Iterated(s, tb, k), Iterated(s, tb, k + 1)) == Distance(Forward(s, Iterated(s, tb, k)), tb)
    ensures Distance(Forward(s, Iterated(s, tb, k + 1)), tb) <= q * Distance(Forward(s, Iterated(s, tb, k)), tb)
  {
    var t := Iterated(s, tb, k);
    var u := Back(s, tb, t);
    assert Iterated(s, tb, k + 1) == u;
    Miss(s, tb, t);
    Miss(s, tb, u);
    PassShrinks(s, tb, t, u, q);
  }

  lemma Miss(s: LP -> LP, tb: LP, t: LP)
    ensures Distance(t, Back(s, tb, t)) == Distance(Forward(s, t), tb)
  {
    EqualDistances(t, Back(s, tb, t), Forward(s, t), tb);
  }
}
