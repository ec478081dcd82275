/** Chebyshev and power series in one variable with pairs as coefficients: their values, Clenshaw's recurrence,
    and the two sequence transformations of the series compiler. */
module Chebyshev {
  import opened Reals

  /** A pair of coefficients, one for each component of the approximated function. */
  datatype UV = UV(u: real, v: real)

  const ZERO := UV(0.0, 0.0)

  function Add(a: UV, b: UV): UV {
    UV(a.u + b.u, a.v + b.v)
  }

  function Sub(a: UV, b: UV): UV {
    UV(a.u - b.u, a.v - b.v)
  }

  function Mul(m: real, a: UV): UV {
    UV(m * a.u, m * a.v)
  }

  // --- Values of series

  /** c[0]*w[0] + c[1]*w[1] + ... */
  function Weighted(c: seq<UV>, w: seq<real>): UV
    requires |c| == |w|
  {
    if c == [] then ZERO else Add(Mul(w[0], c[0]), Weighted(c[1..], w[1..]))
  }

  function Powers(x: real, n: nat): (w: seq<real>)
    ensures |w| == n && forall k {:trigger w[k]} :: 0 <= k < n ==> w[k] == Power(x, k)
  {
    seq(n, k requires 0 <= k < n => Power(x, k))
  }

  /** The Chebyshev polynomial of the first kind of degree k. */
  function T(k: nat, x: real): real {
    if k == 0 then 1.0 else if k == 1 then x else 2.0 * x * T(k - 1, x) - T(k - 2, x)
  }

  /** The weights of a Chebyshev series: its first term counts half. */
  function ChebyshevWeights(x: real, n: nat): (w: seq<real>)
    ensures |w| == n && forall k {:trigger w[k]} :: 0 <= k < n ==> w[k] == if k == 0 then 0.5 else T(k, x)
  {
    seq(n, k requires 0 <= k < n => if k == 0 then 0.5 else T(k, x))
  }

  /** The value at x of the power series with coefficients c. */
  function PowerValue(c: seq<UV>, x: real): UV {
    Weighted(c, Powers(x, |c|))
  }

  /** The value at x of the Chebyshev series with coefficients c. */
  function ChebyshevValue(c: seq<UV>, x: real): UV {
    Weighted(c, ChebyshevWeights(x, |c|))
  }

  lemma {:induction false} WeightedScaled(c: seq<UV>, w: seq<real>, z: seq<real>, m: real)
    requires |c| == |w| == |z| && forall k :: 0 <= k < |c| ==> z[k] == m * w[k]
    ensures Weighted(c, z) == Mul(m, Weighted(c, w))
  {
    if c != [] {
      WeightedScaled(c[1..], w[1..], z[1..], m);
      ScaleStep(m, w[0], z[0], c[0], Weighted(c[1..], w[1..]), Weighted(c[1..], z[1..]),
                Weighted(c, w), Weighted(c, z));
    }
  }

  lemma ScaleStep(m: real, w: real, z: real, a: UV, b: UV, b': UV, r: UV, r': UV)
    requires z == m * w && b' == Mul(m, b) && r == Add(Mul(w, a), b) && r' == Add(Mul(z, a), b')
    ensures r' == Mul(m, r)
  {
    ScaleReal(m, w, a.u, b.u);
    ScaleReal(m, w, a.v, b.v);
  }

  lemma ScaleReal(m: real, w: real, a: real, b: real)
    ensures (m * w) * a + m * b == m * (w * a + b)
  {
  }

  /** Horner's rule. */
  lemma PowerValueHorner(c: seq<UV>, x: real)
    requires c != []
    ensures PowerValue(c, x) == Add(c[0], Mul(x, PowerValue(c[1..], x)))
  {
    var w, z := Powers(x, |c| - 1), Powers(x, |c|);
    assert forall k :: 0 <= k < |c| - 1 ==> z[1..][k] == x * w[k];
    WeightedScaled(c[1..], w, z[1..], x);
    assert Power(x, 0) == 1.0;
  }

  lemma {:induction false} WeightedCombination(a: seq<UV>, b: seq<UV>, c: seq<UV>, m: real, w: seq<real>)
    requires |a| == |b| == |c| == |w| && forall k :: 0 <= k < |c| ==> c[k] == Sub(Mul(m, a[k]), b[k])
    ensures Weighted(c, w) == Sub(Mul(m, Weighted(a, w)), Weighted(b, w))
  {
    if c != [] {
      WeightedCombination(a[1..], b[1..], c[1..], m, w[1..]);
      CombineStep(a[0], b[0], Weighted(a[1..], w[1..]), Weighted(b[1..], w[1..]), m, w[0]);
    }
  }

  lemma CombineStep(a: UV, b: UV, x: UV, y: UV, m: real, w: real)
    ensures Add(Mul(w, Sub(Mul(m, a), b)), Sub(Mul(m, x), y)) == Sub(Mul(m, Add(Mul(w, a), x)), Add(Mul(w, b), y))
  {
  }

  /** Multiplication by x moves the coefficients up; the last one must be zero to fit. */
  lemma ShiftUp(d: seq<UV>, x: real)
    requires d != [] && d[|d| - 1] == ZERO
    ensures PowerValue([ZERO] + d[..|d| - 1], x) == Mul(x, PowerValue(d, x))
  {
    var up := [ZERO] + d[..|d| - 1];
    PowerValueHorner(up, x);
    assert up[1..] == d[..|d| - 1];
    DropZero(d, x);
  }

  lemma {:induction false} DropZero(d: seq<UV>, x: real)
    requires d != [] && d[|d| - 1] == ZERO
    ensures PowerValue(d[..|d| - 1], x) == PowerValue(d, x)
  {
    WeightedDropZero(d, Powers(x, |d|));
    assert Powers(x, |d|)[..|d| - 1] == Powers(x, |d| - 1);
  }

  lemma {:induction false} WeightedDropZero(d: seq<UV>, w: seq<real>)
    requires |d| == |w| && d != [] && d[|d| - 1] == ZERO
    ensures Weighted(d[..|d| - 1], w[..|w| - 1]) == Weighted(d, w)
  {
    if |d| > 1 {
      WeightedDropZero(d[1..], w[1..]);
      assert d[1..][..|d| - 2] == d[..|d| - 1][1..];
      assert w[1..][..|d| - 2] == w[..|d| - 1][1..];
    } else {
      assert Weighted(d[1..], w[1..]) == ZERO;
    }
  }

  // --- Clenshaw's recurrence

  /** The auxiliary quantity of index k: 2x B(k+1) - B(k+2) + c[k], zero beyond the end. */
  ghost function Clenshaw(c: seq<UV>, k: nat, x: real): UV
    decreases |c| - k
  {
    if k >= |c| then ZERO
    else Add(Sub(Mul(2.0 * x, Clenshaw(c, k + 1, x)), Clenshaw(c, k + 2, x)), c[k])
  }

  /** The terms of index k and above of a Chebyshev series. */
  ghost function TailSum(c: seq<UV>, k: nat, x: real): UV
    decreases |c| - k
  {
    if k >= |c| then ZERO else Add(Mul(T(k, x), c[k]), TailSum(c, k + 1, x))
  }

  /** The terms from index k on, from two polynomials and two auxiliary quantities. */
  lemma {:induction false} ClenshawTail(c: seq<UV>, k: nat, x: real, t0: real, t1: real, b0: UV, b1: UV, tail: UV)
    requires k >= 1 && t0 == T(k - 1, x) && t1 == T(k, x)
    requires b0 == Clenshaw(c, k, x) && b1 == Clenshaw(c, k + 1, x) && tail == TailSum(c, k, x)
    ensures tail == Sub(Mul(t1, b0), Mul(t0, b1))
    decreases |c| - k, 1
  {
    if k < |c| {
      TailNext(c, k, x, t0, t1, b0, b1, tail);
    } else {
      assert tail == ZERO && b0 == ZERO && b1 == ZERO;
    }
  }

  lemma {:induction false} TailNext(c: seq<UV>, k: nat, x: real, t0: real, t1: real, b0: UV, b1: UV, tail: UV)
    requires 1 <= k < |c| && t0 == T(k - 1, x) && t1 == T(k, x)
    requires b0 == Clenshaw(c, k, x) && b1 == Clenshaw(c, k + 1, x) && tail == TailSum(c, k, x)
    ensures tail == Sub(Mul(t1, b0), Mul(t0, b1))
    decreases |c| - k, 0
  {
    hide Add, Sub, Mul;
    var t2, b2, rest := T(k + 1, x), Clenshaw(c, k + 2, x), TailSum(c, k + 1, x);
    ClenshawTail(c, k + 1, x, t1, t2, b1, b2, rest);
    NextPolynomial(k, x);
    TailStep(t0, t1, t2, x, c[k], b0, b1, b2, rest, tail);
  }

  lemma NextPolynomial(k: nat, x: real)
    requires k >= 1
    ensures T(k + 1, x) == 2.0 * x * T(k, x) - T(k - 1, x)
  {
  }

  lemma TailStep(t0: real, t1: real, t2: real, x: real, c: UV, b0: UV, b1: UV, b2: UV, rest: UV, tail: UV)
    requires t2 == 2.0 * x * t1 - t0 && b0 == Add(Sub(Mul(2.0 * x, b1), b2), c)
    requires rest == Sub(Mul(t2, b1), Mul(t1, b2)) && tail == Add(Mul(t1, c), rest)
    ensures tail == Sub(Mul(t1, b0), Mul(t0, b1))
  {
    TailStepReal(t0, t1, 2.0 * x, c.u, b1.u, b2.u);
    TailStepReal(t0, t1, 2.0 * x, c.v, b1.v, b2.v);
  }

  lemma TailStepReal(t0: real, t1: real, w: real, c: real, b1: real, b2: real)
    ensures t1 * c + ((w * t1 - t0) * b1 - t1 * b2) == t1 * (w * b1 - b2 + c) - t0 * b1
  {
  }

  lemma {:induction false} TailIsWeighted(c: seq<UV>, k: nat, x: real)
    requires 1 <= k <= |c|
    ensures Weighted(c[k..], ChebyshevWeights(x, |c|)[k..]) == TailSum(c, k, x)
    decreases |c| - k
  {
    if k < |c| {
      TailIsWeighted(c, k + 1, x);
      assert c[k..][1..] == c[k + 1..];
      assert ChebyshevWeights(x, |c|)[k..][1..] == ChebyshevWeights(x, |c|)[k + 1..];
    }
  }

  /** Clenshaw's recurrence computes the value of the series. */
  lemma ClenshawIsValue(c: seq<UV>, x: real)
    requires c != []
    ensures ChebyshevValue(c, x) == Add(Sub(Mul(x, Clenshaw(c, 1, x)), Clenshaw(c, 2, x)), Mul(0.5, c[0]))
  {
    ClenshawTail(c, 1, x, T(0, x), T(1, x), Clenshaw(c, 1, x), Clenshaw(c, 2, x), TailSum(c, 1, x));
    TailIsWeighted(c, 1, x);
  }

  // --- From a Chebyshev series to a power series in the same argument

  /** One step of Clenshaw's recurrence on polynomials: 2x d - dd + cj, coefficient by coefficient. */
  function Step(d: seq<UV>, dd: seq<UV>, cj: UV): (r: seq<UV>)
    requires |d| == |dd|
    ensures |r| == |d|
    ensures forall k {:trigger r[k]} :: 0 <= k < |d| ==>
      r[k] == if k == 0 then Sub(cj, dd[0]) else Sub(Mul(2.0, d[k - 1]), dd[k])
  {
    seq(|d|, k requires 0 <= k < |d| => if k == 0 then Sub(cj, dd[0]) else Sub(Mul(2.0, d[k - 1]), dd[k]))
  }

  /** The closing step: x d - dd + c0 / 2. */
  function Finish(d: seq<UV>, dd: seq<UV>, c0: UV): (r: seq<UV>)
    requires |d| == |dd|
    ensures |r| == |d|
    ensures forall k {:trigger r[k]} :: 0 <= k < |d| ==>
      r[k] == if k == 0 then Sub(Mul(0.5, c0), dd[0]) else Sub(d[k - 1], dd[k])
  {
    seq(|d|, k requires 0 <= k < |d| => if k == 0 then Sub(Mul(0.5, c0), dd[0]) else Sub(d[k - 1], dd[k]))
  }

  function Zeros(n: nat): (r: seq<UV>)
    ensures |r| == n && forall k {:trigger r[k]} :: 0 <= k < n ==> r[k] == ZERO
  {
    seq(n, _ => ZERO)
  }

  /** The two coefficient vectors after the recurrence has come down to index j. */
  function State(c: seq<UV>, j: nat): (r: (seq<UV>, seq<UV>))
    requires j < |c|
    ensures |r.0| == |r.1| == |c|
    decreases |c| - j
  {
    if j == |c| - 1 then ([c[j]] + Zeros(|c| - 1), Zeros(|c|))
    else
      var s := State(c, j + 1);
      (Step(s.0, s.1, c[j]), s.0)
  }

  /** The coefficients of the power series with the values of the Chebyshev series c. */
  function ToPower(c: seq<UV>): (r: seq<UV>)
    requires c != []
    ensures |r| == |c|
  {
    var s := State(c, if |c| == 1 then 0 else 1);
    Finish(s.0, s.1, c[0])
  }

  /** The coefficient vectors have no more terms than the recurrence has taken in. */
  ghost predicate Degree(d: seq<UV>, n: int) {
    forall k {:trigger d[k]} :: 0 <= k < |d| && k > n ==> d[k] == ZERO
  }

  lemma {:induction false} StateDegree(c: seq<UV>, j: nat)
    requires j < |c|
    ensures Degree(State(c, j).0, |c| - 1 - j) && Degree(State(c, j).1, |c| - 2 - j)
    decreases |c| - j
  {
    if j == |c| - 1 {
      LastDegree(c);
    } else {
      StateDegree(c, j + 1);
      var s := State(c, j + 1);
      StepDegree(s.0, s.1, c[j], |c| - 2 - j);
      SameDegree(State(c, j).0, Step(s.0, s.1, c[j]), |c| - 1 - j);
      SameDegree(State(c, j).1, s.0, |c| - 2 - j);
    }
  }

  lemma LastDegree(c: seq<UV>)
    requires c != []
    ensures Degree(State(c, |c| - 1).0, 0) && Degree(State(c, |c| - 1).1, -1)
  {
  }

  lemma SameDegree(a: seq<UV>, b: seq<UV>, n: int)
    requires a == b && Degree(b, n)
    ensures Degree(a, n)
  {
  }

  lemma StepDegree(d: seq<UV>, dd: seq<UV>, cj: UV, n: nat)
    requires |d| == |dd| && Degree(d, n) && Degree(dd, n - 1)
    ensures Degree(Step(d, dd, cj), n + 1)
  {
  }

  lemma StepValue(d: seq<UV>, dd: seq<UV>, cj: UV, x: real)
    requires |d| == |dd| > 0 && d[|d| - 1] == ZERO
    ensures PowerValue(Step(d, dd, cj), x) == Add(Sub(Mul(2.0 * x, PowerValue(d, x)), PowerValue(dd, x)), cj)
  {
    var up := [ZERO] + d[..|d| - 1];
    var r := Step(d, dd, cj);
    ShiftUp(d, x);
    var plain := r[0 := Sub(Mul(2.0, ZERO), dd[0])];
    WeightedCombination(up, dd, plain, 2.0, Powers(x, |d|));
    PowerValueHorner(r, x);
    PowerValueHorner(plain, x);
    assert r[1..] == plain[1..];
    var p := PowerValue(d, x);
    assert Mul(2.0, Mul(x, p)) == Mul(2.0 * x, p);
  }

  lemma FinishValue(d: seq<UV>, dd: seq<UV>, c0: UV, x: real)
    requires |d| == |dd| > 0 && d[|d| - 1] == ZERO
    ensures PowerValue(Finish(d, dd, c0), x) == Add(Sub(Mul(x, PowerValue(d, x)), PowerValue(dd, x)), Mul(0.5, c0))
  {
    var up := [ZERO] + d[..|d| - 1];
    var r := Finish(d, dd, c0);
    ShiftUp(d, x);
    var plain := r[0 := Sub(ZERO, dd[0])];
    WeightedCombination(up, dd, plain, 1.0, Powers(x, |d|));
    PowerValueHorner(r, x);
    PowerValueHorner(plain, x);
    assert r[1..] == plain[1..];
  }

  lemma {:induction false} ZerosValue(n: nat, x: real)
    ensures PowerValue(Zeros(n), x) == ZERO
  {
    if n > 0 {
      PowerValueHorner(Zeros(n), x);
      assert Zeros(n)[1..] == Zeros(n - 1);
      ZerosValue(n - 1, x);
    }
  }

  lemma LastState(c: seq<UV>, x: real)
    requires c != []
    ensures PowerValue(State(c, |c| - 1).0, x) == c[|c| - 1] && PowerValue(State(c, |c| - 1).1, x) == ZERO
  {
    var d := [c[|c| - 1]] + Zeros(|c| - 1);
    PowerValueHorner(d, x);
    assert d[1..] == Zeros(|c| - 1);
    ZerosValue(|c| - 1, x);
    ZerosValue(|c|, x);
  }

  lemma {:induction false} StateValue(c: seq<UV>, j: nat, x: real)
    requires j < |c|
    ensures PowerValue(State(c, j).0, x) == Clenshaw(c, j, x) && PowerValue(State(c, j).1, x) == Clenshaw(c, j + 1, x)
    decreases |c| - j
  {
    if j == |c| - 1 {
      LastState(c, x);
      assert Clenshaw(c, j + 1, x) == ZERO && Clenshaw(c, j + 2, x) == ZERO;
    } else {
      StateValue(c, j + 1, x);
      StateDegree(c, j + 1);
      var s := State(c, j + 1);
      assert State(c, j) == (Step(s.0, s.1, c[j]), s.0);
      StepValue(s.0, s.1, c[j], x);
    }
  }

  /** The conversion to a power series preserves every value. */
  lemma ToPowerValue(c: seq<UV>, x: real)
    requires c != []
    ensures PowerValue(ToPower(c), x) == ChebyshevValue(c, x)
  {
    ClenshawIsValue(c, x);
    if |c| == 1 {
      var r := ToPower(c);
      PowerValueHorner(r, x);
      assert r[1..] == [];
      assert Clenshaw(c, 1, x) == ZERO && Clenshaw(c, 2, x) == ZERO;
    } else {
      StateValue(c, 1, x);
      StateDegree(c, 1);
      FinishValue(State(c, 1).0, State(c, 1).1, c[0], x);
    }
  }
}
