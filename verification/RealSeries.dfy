/** Series with real coefficients: the components of the series of pairs, rows of different lengths, and the bound
    on Chebyshev polynomials. */
module RealSeries {
  import opened Chebyshev
  import opened Reals

  /** c[0]*w[0] + c[1]*w[1] + ...; weights beyond the coefficients are not used. */
  function Sum(c: seq<real>, w: seq<real>): real
    requires |c| <= |w|
  {
    if c == [] then 0.0 else w[0] * c[0] + Sum(c[1..], w[1..])
  }

  /** The values at x of the Chebyshev series and of the power series with coefficients c. */
  function ChebyshevSum(c: seq<real>, x: real): real {
    Sum(c, ChebyshevWeights(x, |c|))
  }

  function PowerSum(c: seq<real>, x: real): real {
    Sum(c, Powers(x, |c|))
  }

  function ChebyshevRows(c: seq<seq<real>>, y: real): (r: seq<real>)
    ensures |r| == |c| && forall i {:trigger r[i]} :: 0 <= i < |c| ==> r[i] == ChebyshevSum(c[i], y)
  {
    seq(|c|, i requires 0 <= i < |c| => ChebyshevSum(c[i], y))
  }

  function PowerRows(c: seq<seq<real>>, y: real): (r: seq<real>)
    ensures |r| == |c| && forall i {:trigger r[i]} :: 0 <= i < |c| ==> r[i] == PowerSum(c[i], y)
  {
    seq(|c|, i requires 0 <= i < |c| => PowerSum(c[i], y))
  }

  /** The same in two variables: rows belong to the first one, and may have different lengths. */
  function ChebyshevSum2(c: seq<seq<real>>, x: real, y: real): real {
    ChebyshevSum(ChebyshevRows(c, y), x)
  }

  function PowerSum2(c: seq<seq<real>>, x: real, y: real): real {
    PowerSum(PowerRows(c, y), x)
  }

  // --- Both components at once

  function Us(c: seq<UV>): (r: seq<real>)
    ensures |r| == |c| && forall k {:trigger r[k]} :: 0 <= k < |c| ==> r[k] == c[k].u
  {
    seq(|c|, k requires 0 <= k < |c| => c[k].u)
  }

  function Vs(c: seq<UV>): (r: seq<real>)
    ensures |r| == |c| && forall k {:trigger r[k]} :: 0 <= k < |c| ==> r[k] == c[k].v
  {
    seq(|c|, k requires 0 <= k < |c| => c[k].v)
  }

  lemma {:induction false} Components(c: seq<UV>, w: seq<real>)
    requires |c| == |w|
    ensures Weighted(c, w) == UV(Sum(Us(c), w), Sum(Vs(c), w))
  {
    if c != [] {
      Components(c[1..], w[1..]);
      FirstTerm(Us(c), Us(c[1..]), w);
      FirstTerm(Vs(c), Vs(c[1..]), w);
    }
  }

  lemma FirstTerm(c: seq<real>, rest: seq<real>, w: seq<real>)
    requires c != [] && |c| <= |w| && |rest| == |c| - 1 && forall k {:trigger rest[k]} :: 0 <= k < |rest| ==>
      rest[k] == c[k + 1]
    ensures Sum(c, w) == w[0] * c[0] + Sum(rest, w[1..])
  {
    assert c[1..] == rest;
  }

  /** Pairs with c as first components. */
  function Lift(c: seq<real>): (r: seq<UV>)
    ensures |r| == |c| && forall k {:trigger r[k]} :: 0 <= k < |c| ==> r[k] == UV(c[k], 0.0)
  {
    seq(|c|, k requires 0 <= k < |c| => UV(c[k], 0.0))
  }

  lemma LiftedValue(c: seq<real>, w: seq<real>)
    requires |c| == |w|
    ensures Weighted(Lift(c), w).u == Sum(c, w)
  {
    Components(Lift(c), w);
    assert Us(Lift(c)) == c;
  }

  /** Horner's rule. */
  lemma HornerStep(c: seq<real>, x: real)
    requires c != []
    ensures PowerSum(c, x) == c[0] + x * PowerSum(c[1..], x)
  {
    PowerValueHorner(Lift(c), x);
    assert Lift(c)[1..] == Lift(c[1..]);
    LiftedValue(c, Powers(x, |c|));
    LiftedValue(c[1..], Powers(x, |c| - 1));
  }

  /** Clenshaw's auxiliary quantity of index k. */
  ghost function B(c: seq<real>, k: nat, x: real): real {
    Clenshaw(Lift(c), k, x).u
  }

  lemma BStep(c: seq<real>, k: nat, x: real)
    ensures B(c, k, x) == if k < |c| then 2.0 * x * B(c, k + 1, x) - B(c, k + 2, x) + c[k] else 0.0
  {
  }

  lemma BBeyond(c: seq<real>, x: real)
    ensures B(c, |c|, x) == 0.0 && B(c, |c| + 1, x) == 0.0
  {
    BStep(c, |c|, x);
    BStep(c, |c| + 1, x);
  }

  /** One step of the recurrence, with what it has computed. */
  lemma NextB(c: seq<real>, k: nat, x: real, d: real, dd: real, x2: real, value: real, next: real)
    requires k < |c| && d == B(c, k + 1, x) && dd == B(c, k + 2, x) && x2 == 2.0 * x && value == c[k]
    requires next == x2 * d - dd + value
    ensures next == B(c, k, x)
  {
    BStep(c, k, x);
    assert x2 * d == 2.0 * x * B(c, k + 1, x);
  }

  lemma BIsValue(c: seq<real>, x: real)
    requires c != []
    ensures ChebyshevSum(c, x) == x * B(c, 1, x) - B(c, 2, x) + 0.5 * c[0]
  {
    ClenshawIsValue(Lift(c), x);
    LiftedSum(c, x);
    FirstComponent(x, Clenshaw(Lift(c), 1, x), Clenshaw(Lift(c), 2, x), Lift(c)[0], ChebyshevValue(Lift(c), x));
  }

  /** The same with what the recurrence has computed. */
  lemma ValueFromB(c: seq<real>, x: real, d: real, dd: real)
    requires c != [] && d == B(c, 1, x) && dd == B(c, 2, x)
    ensures ChebyshevSum(c, x) == x * d - dd + 0.5 * c[0]
  {
    BIsValue(c, x);
    assert x * d == x * B(c, 1, x);
  }

  lemma LiftedSum(c: seq<real>, x: real)
    ensures ChebyshevValue(Lift(c), x).u == ChebyshevSum(c, x)
  {
    LiftedValue(c, ChebyshevWeights(x, |c|));
  }

  lemma FirstComponent(x: real, b1: UV, b2: UV, c0: UV, sum: UV)
    requires sum == Add(Sub(Mul(x, b1), b2), Mul(0.5, c0))
    ensures sum.u == x * b1.u - b2.u + 0.5 * c0.u
  {
  }

  // --- Trailing zeros

  lemma {:induction false} SameWeights(c: seq<real>, w: seq<real>, z: seq<real>)
    requires |c| <= |w| && |c| <= |z| && forall k :: 0 <= k < |c| ==> w[k] == z[k]
    ensures Sum(c, w) == Sum(c, z)
  {
    if c != [] {
      assert w[0] == z[0];
      SameWeights(c[1..], w[1..], z[1..]);
    }
  }

  ghost predicate ZeroFrom(c: seq<real>, n: nat) {
    forall k {:trigger c[k]} :: n <= k < |c| ==> c[k] == 0.0
  }

  lemma {:induction false} DropTail(c: seq<real>, n: nat, w: seq<real>)
    requires n <= |c| <= |w| && ZeroFrom(c, n)
    ensures Sum(c[..n], w) == Sum(c, w)
  {
    if c != [] {
      if n == 0 {
        assert c[0] == 0.0;
        assert c[1..][..0] == c[..0];
        DropTail(c[1..], 0, w[1..]);
      } else {
        assert c[1..][..n - 1] == c[..n][1..];
        DropTail(c[1..], n - 1, w[1..]);
      }
    }
  }

  /** c holds the rows of m without some of their trailing zeros and without some of the zero rows at the end. */
  ghost predicate Trims(c: seq<seq<real>>, m: seq<seq<real>>) {
    && |c| <= |m|
    && (forall i {:trigger m[i]} :: 0 <= i < |c| ==> c[i] <= m[i] && ZeroFrom(m[i], |c[i]|))
    && (forall i {:trigger m[i]} :: |c| <= i < |m| ==> ZeroFrom(m[i], 0))
  }

  lemma TrimmedRow(c: seq<real>, r: seq<real>, x: real)
    requires c <= r && ZeroFrom(r, |c|)
    ensures ChebyshevSum(c, x) == ChebyshevSum(r, x) && PowerSum(c, x) == PowerSum(r, x)
  {
    assert c == r[..|c|];
    DropTail(r, |c|, ChebyshevWeights(x, |r|));
    DropTail(r, |c|, Powers(x, |r|));
    SameWeights(c, ChebyshevWeights(x, |c|), ChebyshevWeights(x, |r|));
    SameWeights(c, Powers(x, |c|), Powers(x, |r|));
  }

  lemma ZeroRowValue(r: seq<real>, x: real)
    requires ZeroFrom(r, 0)
    ensures ChebyshevSum(r, x) == 0.0 && PowerSum(r, x) == 0.0
  {
    TrimmedRow([], r, x);
  }

  /** Trimming changes no value. */
  lemma TrimmedValue(c: seq<seq<real>>, m: seq<seq<real>>, x: real, y: real)
    requires Trims(c, m)
    ensures ChebyshevSum2(c, x, y) == ChebyshevSum2(m, x, y) && PowerSum2(c, x, y) == PowerSum2(m, x, y)
  {
    var t, s, p, q := ChebyshevRows(c, y), ChebyshevRows(m, y), PowerRows(c, y), PowerRows(m, y);
    forall i | 0 <= i < |m| ensures if i < |c| then t[i] == s[i] && p[i] == q[i] else s[i] == 0.0 && q[i] == 0.0 {
      if i < |c| { TrimmedRow(c[i], m[i], y); } else { ZeroRowValue(m[i], y); }
    }
    assert t == s[..|c|] && p == q[..|c|];
    TrimmedRow(t, s, x);
    TrimmedRow(p, q, x);
  }

  // --- Chebyshev polynomials stay within [-1, 1] there

  /** With u the polynomial of the second kind of degree one less: t^2 + (1 - x^2) u^2 = 1, and next follows t. */
  ghost predicate OnCircle(x: real, t: real, next: real, u: real) {
    && next == x * t - (1.0 - x * x) * u
    && t * t + (1.0 - x * x) * (u * u) == 1.0
  }

  lemma Start(x: real)
    ensures OnCircle(x, 1.0, x, 0.0)
  {
  }

  lemma Turned(x: real, t0: real, t1: real, u0: real) returns (t2: real, u1: real)
    requires OnCircle(x, t0, t1, u0)
    ensures OnCircle(x, t1, t2, u1) && t2 == 2.0 * x * t1 - t0
  {
    var q := 1.0 - x * x;
    t2, u1 := 2.0 * x * t1 - t0, x * u0 + t0;
    NextTStep(x, q, t0, t1, t2, u0, u1);
    Rotation(x, q, t0, u0, t1, u1);
  }

  lemma NextTStep(x: real, q: real, t0: real, t1: real, t2: real, u0: real, u1: real)
    requires q == 1.0 - x * x && t1 == x * t0 - q * u0 && t2 == 2.0 * x * t1 - t0 && u1 == x * u0 + t0
    ensures t2 == x * t1 - q * u1
  {
    assert q * u1 == x * (q * u0) + q * t0;
    assert x * (q * u0) == x * (x * t0 - t1);
  }

  lemma Rotation(x: real, q: real, t: real, u: real, t1: real, u1: real)
    requires q == 1.0 - x * x && t1 == x * t - q * u && u1 == x * u + t
    ensures t1 * t1 + q * (u1 * u1) == t * t + q * (u * u)
  {
    assert t1 * t1 == (x * x) * (t * t) - 2.0 * (x * t * q * u) + q * (q * (u * u));
    assert q * (u1 * u1) == (x * x) * (q * (u * u)) + 2.0 * (x * t * q * u) + q * (t * t);
    assert (x * x) * (t * t) + q * (t * t) == t * t;
    assert (x * x) * (q * (u * u)) + q * (q * (u * u)) == q * (u * u);
  }

  lemma {:induction false} Circle(k: nat, x: real) returns (u: real)
    ensures OnCircle(x, T(k, x), T(k + 1, x), u)
  {
    if k == 0 {
      Start(x);
      u := 0.0;
    } else {
      var u0 := Circle(k - 1, x);
      var t2;
      t2, u := Turned(x, T(k - 1, x), T(k, x), u0);
      assert T(k + 1, x) == t2;
    }
  }

  lemma ChebyshevBound(k: nat, x: real)
    requires -1.0 <= x <= 1.0
    ensures -1.0 <= T(k, x) <= 1.0
  {
    var u := Circle(k, x);
    UnitBound(x, T(k, x), T(k + 1, x), u);
  }

  lemma UnitBound(x: real, t: real, next: real, u: real)
    requires OnCircle(x, t, next, u) && -1.0 <= x <= 1.0
    ensures -1.0 <= t <= 1.0
  {
    SquareNonNegative(u);
    NonNegativeProduct(1.0 - x, 1.0 + x);
    NonNegativeProduct(1.0 - x * x, u * u);
    if t > 1.0 { PositiveProduct(t - 1.0, t + 1.0); }
    if t < -1.0 { PositiveProduct(-t - 1.0, 1.0 - t); }
  }

  lemma SquareNonNegative(u: real)
    ensures u * u >= 0.0
  {
  }
}
