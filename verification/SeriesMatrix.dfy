/** Series in two variables: coefficient matrices, the change of argument range, and the exchange of summations. */
module SeriesMatrix {
  import opened Chebyshev
  import opened Reals

  // --- Change of argument: from [-1, 1] to [a, b]

  /** The argument of the Chebyshev series for y in the range a to b. */
  function ScaledArgument(a: real, b: real, y: real): real
    requires a != b
  {
    (y + y - (a + b)) * (1.0 / (b - a))
  }

  /** Coefficient k times m to the power k. */
  function Scaled(d: seq<UV>, m: real): (r: seq<UV>)
    ensures |r| == |d| && forall k {:trigger r[k]} :: 0 <= k < |d| ==> r[k] == Mul(Power(m, k), d[k])
  {
    seq(|d|, k requires 0 <= k < |d| => Mul(Power(m, k), d[k]))
  }

  /** Synthetic division by (z + s): the remainder, followed by the quotient. */
  function Divide(d: seq<UV>, s: real): (r: seq<UV>)
    ensures |r| == |d|
  {
    if |d| <= 1 then d
    else
      var rest := Divide(d[1..], s);
      [Sub(d[0], Mul(s, rest[0]))] + rest
  }

  /** Repeated synthetic division: the coefficients of the polynomial in y = z + s. */
  function Taylor(d: seq<UV>, s: real): (r: seq<UV>)
    ensures |r| == |d|
    decreases |d|
  {
    if |d| <= 1 then d
    else
      var r := Divide(d, s);
      [r[0]] + Taylor(r[1..], s)
  }

  /** The power series in an argument of the range a to b that corresponds to the power series d on [-1, 1]. */
  function ToRange(a: real, b: real, d: seq<UV>): (r: seq<UV>)
    requires a != b
    ensures |r| == |d|
  {
    Taylor(Scaled(d, 2.0 / (b - a)), 0.5 * (a + b))
  }

  lemma {:induction false} PowerOfProduct(m: real, z: real, k: nat)
    ensures Power(m * z, k) == Power(m, k) * Power(z, k)
  {
    if k > 0 {
      PowerOfProduct(m, z, k - 1);
      var p, q := Power(m, k - 1), Power(z, k - 1);
      assert m * z * (p * q) == (m * p) * (z * q);
    }
  }

  lemma {:induction false} WeightsMoved(e: seq<UV>, d: seq<UV>, f: seq<real>, w: seq<real>, fw: seq<real>)
    requires |e| == |d| == |f| == |w| == |fw|
    requires forall k :: 0 <= k < |d| ==> e[k] == Mul(f[k], d[k]) && fw[k] == f[k] * w[k]
    ensures Weighted(e, w) == Weighted(d, fw)
  {
    if d != [] {
      WeightsMoved(e[1..], d[1..], f[1..], w[1..], fw[1..]);
      MulMul(w[0], f[0], d[0]);
    }
  }

  lemma MulMul(w: real, f: real, d: UV)
    ensures Mul(w, Mul(f, d)) == Mul(f * w, d)
  {
  }

  lemma ScaledValue(d: seq<UV>, m: real, z: real, x: real)
    requires x == m * z
    ensures PowerValue(Scaled(d, m), z) == PowerValue(d, x)
  {
    var f, w, fw := Powers(m, |d|), Powers(z, |d|), Powers(x, |d|);
    ProductPowers(m, z, f, w, fw);
    WeightsMoved(Scaled(d, m), d, f, w, fw);
  }

  lemma ProductPowers(m: real, z: real, f: seq<real>, w: seq<real>, fw: seq<real>)
    requires |f| == |w| == |fw|
    requires forall k: nat :: k < |f| ==> f[k] == Power(m, k) && w[k] == Power(z, k) && fw[k] == Power(m * z, k)
    ensures forall k :: 0 <= k < |f| ==> fw[k] == f[k] * w[k]
  {
    forall k: nat | k < |f| ensures fw[k] == f[k] * w[k] { PowerOfProduct(m, z, k); }
  }

  /** d(z) = remainder + (z + s) * quotient(z). */
  lemma {:induction false} DivideValue(d: seq<UV>, s: real, z: real)
    requires d != []
    ensures PowerValue(d, z) == Add(Divide(d, s)[0], Mul(z + s, PowerValue(Divide(d, s)[1..], z)))
  {
    PowerValueHorner(d, z);
    if |d| == 1 {
      assert Divide(d, s)[1..] == [] && d[1..] == [];
      assert PowerValue([], z) == ZERO;
    } else {
      DivideValue(d[1..], s, z);
      var rest := Divide(d[1..], s);
      assert Divide(d, s)[1..] == rest;
      PowerValueHorner(rest, z);
      DivideStep(d[0], rest[0], PowerValue(rest[1..], z), s, z);
    }
  }

  lemma DivideStep(d: UV, r: UV, q: UV, s: real, z: real)
    ensures Add(d, Mul(z, Add(r, Mul(z + s, q)))) == Add(Sub(d, Mul(s, r)), Mul(z + s, Add(r, Mul(z, q))))
  {
    hide Add, Sub, Mul;
    var x := Add(d, Mul(z, Add(r, Mul(z + s, q))));
    var y := Add(Sub(d, Mul(s, r)), Mul(z + s, Add(r, Mul(z, q))));
    DivideStepFirst(d, r, q, s, z, x, y);
    DivideStepSecond(d, r, q, s, z, x, y);
    assert x == UV(x.u, x.v) && y == UV(y.u, y.v);
  }

  lemma DivideStepFirst(d: UV, r: UV, q: UV, s: real, z: real, x: UV, y: UV)
    requires x == Add(d, Mul(z, Add(r, Mul(z + s, q))))
    requires y == Add(Sub(d, Mul(s, r)), Mul(z + s, Add(r, Mul(z, q))))
    ensures x.u == y.u
  {
    DivideStepReal(d.u, r.u, q.u, s, z, x.u, y.u);
  }

  lemma DivideStepSecond(d: UV, r: UV, q: UV, s: real, z: real, x: UV, y: UV)
    requires x == Add(d, Mul(z, Add(r, Mul(z + s, q))))
    requires y == Add(Sub(d, Mul(s, r)), Mul(z + s, Add(r, Mul(z, q))))
    ensures x.v == y.v
  {
    DivideStepReal(d.v, r.v, q.v, s, z, x.v, y.v);
  }

  lemma DivideStepReal(d: real, r: real, q: real, s: real, z: real, x: real, y: real)
    requires x == d + z * (r + (z + s) * q) && y == (d - s * r) + (z + s) * (r + z * q)
    ensures x == y
  {
    assert z * (r + (z + s) * q) == z * r + z * ((z + s) * q);
    assert (z + s) * (r + z * q) == z * r + s * r + (z + s) * (z * q);
  }

  lemma {:induction false} TaylorValue(d: seq<UV>, s: real, y: real)
    ensures PowerValue(Taylor(d, s), y) == PowerValue(d, y - s)
    decreases |d|
  {
    if |d| <= 1 {
      if |d| == 1 {
        PowerValueHorner(d, y);
        PowerValueHorner(d, y - s);
        assert d[1..] == [];
        assert PowerValue([], y) == ZERO == PowerValue([], y - s);
      }
    } else {
      var r := Divide(d, s);
      DivideValue(d, s, y - s);
      TaylorValue(r[1..], s, y);
      PowerValueHorner(Taylor(d, s), y);
      assert Taylor(d, s)[1..] == Taylor(r[1..], s);
      assert (y - s) + s == y;
    }
  }

  lemma ArgumentsAgree(a: real, b: real, y: real)
    requires a != b
    ensures 2.0 / (b - a) * (y - 0.5 * (a + b)) == ScaledArgument(a, b, y)
  {
    var r := 1.0 / (b - a);
    assert 2.0 / (b - a) == 2.0 * r;
  }

  /** Moving to the range a to b preserves values at corresponding arguments. */
  lemma ToRangeValue(a: real, b: real, d: seq<UV>, y: real)
    requires a != b
    ensures PowerValue(ToRange(a, b, d), y) == PowerValue(d, ScaledArgument(a, b, y))
  {
    var m, s := 2.0 / (b - a), 0.5 * (a + b);
    assert ToRange(a, b, d) == Taylor(Scaled(d, m), s);
    TaylorValue(Scaled(d, m), s, y);
    ArgumentsAgree(a, b, y);
    ScaledValue(d, m, y - s, ScaledArgument(a, b, y));
  }

  // --- Matrices

  type Matrix = seq<seq<UV>>

  ghost predicate HasShape(m: Matrix, nu: nat, nv: nat) {
    |m| == nu && forall i :: 0 <= i < nu ==> |m[i]| == nv
  }

  function Column(m: Matrix, l: nat): (r: seq<UV>)
    requires forall i :: 0 <= i < |m| ==> l < |m[i]|
    ensures |r| == |m| && forall i {:trigger r[i]} :: 0 <= i < |m| ==> r[i] == m[i][l]
  {
    seq(|m|, i requires 0 <= i < |m| => m[i][l])
  }

  function RowSums(m: Matrix, w: seq<real>): (r: seq<UV>)
    requires forall i :: 0 <= i < |m| ==> |m[i]| == |w|
    ensures |r| == |m| && forall i {:trigger r[i]} :: 0 <= i < |m| ==> r[i] == Weighted(m[i], w)
  {
    seq(|m|, i requires 0 <= i < |m| => Weighted(m[i], w))
  }

  function ColumnSums(m: Matrix, z: seq<real>, nv: nat): (r: seq<UV>)
    requires |m| == |z| && HasShape(m, |z|, nv)
    ensures |r| == nv && forall l {:trigger r[l]} :: 0 <= l < nv ==> r[l] == Weighted(Column(m, l), z)
  {
    seq(nv, l requires 0 <= l < nv => Weighted(Column(m, l), z))
  }

  lemma {:induction false} WeightedSum(a: seq<UV>, b: seq<UV>, c: seq<UV>, m: real, w: seq<real>)
    requires |a| == |b| == |c| == |w| && forall k :: 0 <= k < |c| ==> c[k] == Add(Mul(m, a[k]), b[k])
    ensures Weighted(c, w) == Add(Mul(m, Weighted(a, w)), Weighted(b, w))
  {
    if c != [] {
      WeightedSum(a[1..], b[1..], c[1..], m, w[1..]);
      SumStep(a[0], b[0], Weighted(a[1..], w[1..]), Weighted(b[1..], w[1..]), m, w[0]);
    }
  }

  lemma SumStep(a: UV, b: UV, x: UV, y: UV, m: real, w: real)
    ensures Add(Mul(w, Add(Mul(m, a), b)), Add(Mul(m, x), y)) == Add(Mul(m, Add(Mul(w, a), x)), Add(Mul(w, b), y))
  {
    hide Add, Mul;
    MulOverAdd(w, Mul(m, a), b);
    MulOverAdd(m, Mul(w, a), x);
    MulTwice(w, m, a);
    AddCrosswise(Mul(m, Mul(w, a)), Mul(w, b), Mul(m, x), y);
  }

  lemma MulOverAdd(k: real, a: UV, b: UV)
    ensures Mul(k, Add(a, b)) == Add(Mul(k, a), Mul(k, b))
  {
    assert k * (a.u + b.u) == k * a.u + k * b.u;
    assert k * (a.v + b.v) == k * a.v + k * b.v;
  }

  lemma MulTwice(k: real, m: real, a: UV)
    ensures Mul(k, Mul(m, a)) == Mul(m, Mul(k, a))
  {
    assert k * (m * a.u) == m * (k * a.u);
    assert k * (m * a.v) == m * (k * a.v);
  }

  lemma AddCrosswise(a: UV, b: UV, c: UV, d: UV)
    ensures Add(Add(a, b), Add(c, d)) == Add(Add(a, c), Add(b, d))
  {
  }

  /** A double sum by rows equals the double sum by columns. */
  lemma {:induction false} ExchangeSums(m: Matrix, z: seq<real>, w: seq<real>)
    requires |m| == |z| && HasShape(m, |z|, |w|)
    ensures Weighted(RowSums(m, w), z) == Weighted(ColumnSums(m, z, |w|), w)
  {
    var sums := ColumnSums(m, z, |w|);
    if m == [] {
      assert forall l :: 0 <= l < |w| ==> sums[l] == ZERO;
      ZeroWeighted(sums, w);
    } else {
      var rest := ColumnSums(m[1..], z[1..], |w|);
      ExchangeSums(m[1..], z[1..], w);
      forall l | 0 <= l < |w| ensures sums[l] == Add(Mul(z[0], m[0][l]), rest[l]) {
        assert Column(m, l)[1..] == Column(m[1..], l);
      }
      WeightedSum(m[0], rest, sums, z[0], w);
      assert RowSums(m, w)[1..] == RowSums(m[1..], w);
    }
  }

  lemma {:induction false} ZeroWeighted(c: seq<UV>, w: seq<real>)
    requires |c| == |w| && forall k :: 0 <= k < |c| ==> c[k] == ZERO
    ensures Weighted(c, w) == ZERO
  {
    if c != [] {
      ZeroWeighted(c[1..], w[1..]);
    }
  }

  /** The value of a Chebyshev series in two variables: rows belong to the first one. */
  function ChebyshevValue2(m: Matrix, nv: nat, x: real, y: real): UV
    requires HasShape(m, |m|, nv)
  {
    Weighted(RowSums(m, ChebyshevWeights(y, nv)), ChebyshevWeights(x, |m|))
  }

  function PowerValue2(m: Matrix, nv: nat, x: real, y: real): UV
    requires HasShape(m, |m|, nv)
  {
    Weighted(RowSums(m, Powers(y, nv)), Powers(x, |m|))
  }

  /** If every row of p is the power series of the same row of c, and every column of r the power series of the same
      column of p, then r is the power series of c. */
  lemma RowsThenColumns(c: Matrix, p: Matrix, r: Matrix, nu: nat, nv: nat, x: real, y: real, x': real, y': real)
    requires HasShape(c, nu, nv) && HasShape(p, nu, nv) && HasShape(r, nu, nv)
    requires forall i :: 0 <= i < nu ==> PowerValue(p[i], y) == ChebyshevValue(c[i], y')
    requires forall l :: 0 <= l < nv ==> PowerValue(Column(r, l), x) == ChebyshevValue(Column(p, l), x')
    ensures PowerValue2(r, nv, x, y) == ChebyshevValue2(c, nv, x', y')
  {
    var py, px, cy, cx := Powers(y, nv), Powers(x, nu), ChebyshevWeights(y', nv), ChebyshevWeights(x', nu);
    ExchangeSums(r, px, py);
    assert ColumnSums(r, px, nv) == ColumnSums(p, cx, nv);
    ExchangeSums(p, cx, py);
    assert RowSums(p, py) == RowSums(c, cy);
  }
}
