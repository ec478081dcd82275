/** Coefficients below a limit: cutting them off, their absolute sum, and the error they account for. */
module Truncation {
  import opened Chebyshev
  import opened RealSeries
  import opened Reals
  import opened SeriesMatrix

  datatype Component = First | Second

  function Part(w: Matrix, comp: Component): (r: seq<seq<real>>)
    ensures |r| == |w|
    ensures forall i {:trigger r[i]} :: 0 <= i < |w| ==> r[i] == if comp.First? then Us(w[i]) else Vs(w[i])
  {
    seq(|w|, i requires 0 <= i < |w| => if comp.First? then Us(w[i]) else Vs(w[i]))
  }

  /** The components of the value are the values of the components. */
  lemma ValueByComponents(w: Matrix, nv: nat, x: real, y: real)
    requires HasShape(w, |w|, nv)
    ensures ChebyshevValue2(w, nv, x, y) ==
      UV(ChebyshevSum2(Part(w, First), x, y), ChebyshevSum2(Part(w, Second), x, y))
    ensures PowerValue2(w, nv, x, y) == UV(PowerSum2(Part(w, First), x, y), PowerSum2(Part(w, Second), x, y))
  {
    RowsByComponents(w, nv, ChebyshevWeights(y, nv), ChebyshevRows(Part(w, First), y),
      ChebyshevRows(Part(w, Second), y));
    Components(RowSums(w, ChebyshevWeights(y, nv)), ChebyshevWeights(x, |w|));
    RowsByComponents(w, nv, Powers(y, nv), PowerRows(Part(w, First), y), PowerRows(Part(w, Second), y));
    Components(RowSums(w, Powers(y, nv)), Powers(x, |w|));
  }

  lemma RowsByComponents(w: Matrix, nv: nat, z: seq<real>, r: seq<real>, s: seq<real>)
    requires HasShape(w, |w|, nv) && |z| == nv && |r| == |s| == |w|
    requires forall i {:trigger r[i]} :: 0 <= i < |w| ==> r[i] == Sum(Part(w, First)[i], z)
    requires forall i {:trigger s[i]} :: 0 <= i < |w| ==> s[i] == Sum(Part(w, Second)[i], z)
    ensures Us(RowSums(w, z)) == r && Vs(RowSums(w, z)) == s
  {
    forall i | 0 <= i < |w| ensures RowSums(w, z)[i] == UV(r[i], s[i]) {
      Components(w[i], z);
      assert Part(w, First)[i] == Us(w[i]) && Part(w, Second)[i] == Vs(w[i]);
    }
  }

  // --- Cutting

  function CutPair(a: UV, cut: real): UV {
    UV(if Fabs(a.u) < cut then 0.0 else a.u, if Fabs(a.v) < cut then 0.0 else a.v)
  }

  function CutRow(s: seq<UV>, cut: real): (r: seq<UV>)
    ensures |r| == |s| && forall k {:trigger r[k]} :: 0 <= k < |s| ==> r[k] == CutPair(s[k], cut)
  {
    seq(|s|, k requires 0 <= k < |s| => CutPair(s[k], cut))
  }

  function CutMatrix(w: Matrix, cut: real): (r: Matrix)
    ensures |r| == |w| && forall i {:trigger r[i]} :: 0 <= i < |w| ==> r[i] == CutRow(w[i], cut)
  {
    seq(|w|, i requires 0 <= i < |w| => CutRow(w[i], cut))
  }

  // --- The residual

  function Total(r: seq<real>): real {
    if r == [] then 0.0 else r[0] + Total(r[1..])
  }

  function SmallPart(c: real, cut: real): real {
    if Fabs(c) < cut then Fabs(c) else 0.0
  }

  function SmallParts(c: seq<real>, cut: real): (r: seq<real>)
    ensures |r| == |c| && forall k {:trigger r[k]} :: 0 <= k < |c| ==> r[k] == SmallPart(c[k], cut)
  {
    seq(|c|, k requires 0 <= k < |c| => SmallPart(c[k], cut))
  }

  function RowResiduals(m: seq<seq<real>>, cut: real): (r: seq<real>)
    ensures |r| == |m| && forall i {:trigger r[i]} :: 0 <= i < |m| ==> r[i] == Total(SmallParts(m[i], cut))
  {
    seq(|m|, i requires 0 <= i < |m| => Total(SmallParts(m[i], cut)))
  }

  /** The absolute sum of the coefficients below the limit. */
  function Residual(m: seq<seq<real>>, cut: real): real {
    Total(RowResiduals(m, cut))
  }

  function Residuals(w: Matrix, cut: real): UV {
    UV(Residual(Part(w, First), cut), Residual(Part(w, Second), cut))
  }

  /** The absolute sum of what changes between two matrices of one component. */
  function Change(m: seq<seq<real>>, c: seq<seq<real>>): real
    requires |m| == |c| && forall i :: 0 <= i < |m| ==> |m[i]| == |c[i]|
  {
    if m == [] then 0.0 else RowChange(m[0], c[0]) + Change(m[1..], c[1..])
  }

  function RowChange(s: seq<real>, t: seq<real>): real
    requires |s| == |t|
  {
    if s == [] then 0.0 else Fabs(s[0] - t[0]) + RowChange(s[1..], t[1..])
  }

  /** What the residual measures is what the cut takes away, no more and no less. */
  lemma ResidualIsChange(w: Matrix, cut: real)
    ensures var c := CutMatrix(w, cut);
      Residuals(w, cut) == UV(Change(Part(w, First), Part(c, First)), Change(Part(w, Second), Part(c, Second)))
  {
    var c := CutMatrix(w, cut);
    PartsAreCut(w, cut, First);
    PartsAreCut(w, cut, Second);
    ChangeOfRows(Part(w, First), Part(c, First), cut);
    ChangeOfRows(Part(w, Second), Part(c, Second), cut);
  }

  lemma {:induction false} ChangeOfRows(m: seq<seq<real>>, c: seq<seq<real>>, cut: real)
    requires IsCut(m, c, cut)
    ensures Residual(m, cut) == Change(m, c)
  {
    if m != [] {
      ChangeOfRow(m[0], c[0], cut);
      ChangeOfRows(m[1..], c[1..], cut);
      assert RowResiduals(m, cut)[1..] == RowResiduals(m[1..], cut);
    }
  }

  lemma {:induction false} ChangeOfRow(s: seq<real>, t: seq<real>, cut: real)
    requires |s| == |t| && forall k {:trigger t[k]} :: 0 <= k < |s| ==> t[k] == if Fabs(s[k]) < cut then 0.0 else s[k]
    ensures Total(SmallParts(s, cut)) == RowChange(s, t)
  {
    if s != [] {
      ChangeOfRow(s[1..], t[1..], cut);
      assert SmallParts(s, cut)[1..] == SmallParts(s[1..], cut);
      assert t[0] == if Fabs(s[0]) < cut then 0.0 else s[0];
    }
  }

  /** Every coefficient is zero or counts. */
  ghost predicate NothingSmall(w: Matrix, cut: real) {
    forall i, j {:trigger w[i][j]} :: 0 <= i < |w| && 0 <= j < |w[i]| ==>
      (w[i][j].u == 0.0 || Fabs(w[i][j].u) >= cut) && (w[i][j].v == 0.0 || Fabs(w[i][j].v) >= cut)
  }

  /** Then nothing is cut, and nothing measured. */
  lemma NothingCut(w: Matrix, cut: real)
    requires NothingSmall(w, cut)
    ensures CutMatrix(w, cut) == w && Residuals(w, cut) == ZERO
  {
    var c := CutMatrix(w, cut);
    forall i | 0 <= i < |w| ensures c[i] == w[i] {
      assert CutRow(w[i], cut) == w[i] by {
        forall j | 0 <= j < |w[i]| ensures CutPair(w[i][j], cut) == w[i][j] {
        }
      }
    }
    ResidualIsChange(w, cut);
    NoChange(Part(w, First));
    NoChange(Part(w, Second));
  }

  lemma {:induction false} NoChange(m: seq<seq<real>>)
    ensures Change(m, m) == 0.0
  {
    if m != [] {
      NoRowChange(m[0]);
      NoChange(m[1..]);
    }
  }

  lemma {:induction false} NoRowChange(s: seq<real>)
    ensures RowChange(s, s) == 0.0
  {
    if s != [] { NoRowChange(s[1..]); }
  }

  lemma {:induction false} TotalMonotone(r: seq<real>, s: seq<real>)
    requires |r| == |s| && forall k :: 0 <= k < |r| ==> 0.0 <= r[k] <= s[k]
    ensures 0.0 <= Total(r) <= Total(s)
  {
    if r != [] {
      assert r[0] <= s[0];
      TotalMonotone(r[1..], s[1..]);
    }
  }

  /** Halving the limit does not add to the residual. */
  lemma ResidualMonotone(m: seq<seq<real>>, cut: real)
    ensures 0.0 <= Residual(m, 0.5 * cut) <= Residual(m, cut)
  {
    var r, s := RowResiduals(m, 0.5 * cut), RowResiduals(m, cut);
    forall i | 0 <= i < |m| ensures 0.0 <= r[i] <= s[i] {
      TotalMonotone(SmallParts(m[i], 0.5 * cut), SmallParts(m[i], cut));
    }
    TotalMonotone(r, s);
  }

  // --- The error

  /** Coefficients that differ by no more than r, under weights of at most one. */
  lemma {:induction false} SumDifference(a: seq<real>, b: seq<real>, r: seq<real>, w: seq<real>)
    requires |a| == |b| == |r| == |w|
    requires forall k {:trigger r[k]} :: 0 <= k < |a| ==> Fabs(a[k] - b[k]) <= r[k]
    requires forall k {:trigger w[k]} :: 0 <= k < |a| ==> Fabs(w[k]) <= 1.0
    ensures Fabs(Sum(a, w) - Sum(b, w)) <= Total(r)
  {
    if r != [] {
      assert Fabs(a[0] - b[0]) <= r[0] && Fabs(w[0]) <= 1.0;
      SumDifference(a[1..], b[1..], r[1..], w[1..]);
      TermDifference(a[0], b[0], r[0], w[0], w[0] * a[0], w[0] * b[0]);
      AddDifferences(w[0] * a[0], w[0] * b[0], r[0], Sum(a[1..], w[1..]), Sum(b[1..], w[1..]), Total(r[1..]));
    }
  }

  lemma AddDifferences(p: real, q: real, r: real, x: real, y: real, z: real)
    requires Fabs(p - q) <= r && Fabs(x - y) <= z
    ensures Fabs((p + x) - (q + y)) <= r + z
  {
  }

  lemma TermDifference(a: real, b: real, r: real, w: real, p: real, q: real)
    requires Fabs(a - b) <= r && Fabs(w) <= 1.0 && p == w * a && q == w * b
    ensures Fabs(p - q) <= r
  {
    assert p - q == w * (a - b);
    ScaledDown(w, a - b, p - q);
  }

  lemma ScaledDown(w: real, x: real, y: real)
    requires Fabs(w) <= 1.0 && y == w * x
    ensures Fabs(y) <= Fabs(x)
  {
    AbsoluteProduct(w, x);
    NotGreater(Fabs(w), Fabs(x));
  }

  lemma NotGreater(e: real, d: real)
    requires 0.0 <= e <= 1.0 && d >= 0.0
    ensures e * d <= d
  {
    NonNegativeProduct(1.0 - e, d);
    assert (1.0 - e) * d == d - e * d;
  }

  lemma AbsoluteProduct(x: real, y: real)
    ensures Fabs(x * y) == Fabs(x) * Fabs(y)
  {
    if x >= 0.0 {
      if y >= 0.0 { NonNegativeProduct(x, y); } else { NonNegativeProduct(x, -y); }
    } else {
      if y >= 0.0 { NonNegativeProduct(-x, y); } else { NonNegativeProduct(-x, -y); }
    }
  }

  lemma WeightsBounded(x: real, n: nat)
    requires Fabs(x) <= 1.0
    ensures forall k {:trigger ChebyshevWeights(x, n)[k]} :: 0 <= k < n ==> Fabs(ChebyshevWeights(x, n)[k]) <= 1.0
  {
    forall k {:trigger ChebyshevWeights(x, n)[k]} | 0 <= k < n ensures Fabs(ChebyshevWeights(x, n)[k]) <= 1.0 {
      ChebyshevBound(k, x);
    }
  }

  /** Within the range, the cut series differs from the original by no more than the residual. */
  lemma CutError(m: seq<seq<real>>, c: seq<seq<real>>, cut: real, x: real, y: real)
    requires Fabs(x) <= 1.0 && Fabs(y) <= 1.0 && IsCut(m, c, cut)
    ensures Fabs(ChebyshevSum2(c, x, y) - ChebyshevSum2(m, x, y)) <= Residual(m, cut)
  {
    var a, b := ChebyshevRows(c, y), ChebyshevRows(m, y);
    forall i | 0 <= i < |m| ensures Fabs(a[i] - b[i]) <= RowResiduals(m, cut)[i] {
      WeightsBounded(y, |m[i]|);
      assert |c[i]| == |m[i]|;
      SumDifference(c[i], m[i], SmallParts(m[i], cut), ChebyshevWeights(y, |m[i]|));
    }
    WeightsBounded(x, |m|);
    SumDifference(a, b, RowResiduals(m, cut), ChebyshevWeights(x, |m|));
  }

  ghost predicate IsCut(m: seq<seq<real>>, c: seq<seq<real>>, cut: real) {
    && |c| == |m|
    && (forall i {:trigger c[i]} {:trigger m[i]} :: 0 <= i < |m| ==> |c[i]| == |m[i]|)
    && (forall i, k {:trigger c[i][k]} {:trigger m[i][k]} :: 0 <= i < |m| && 0 <= k < |m[i]| ==>
      c[i][k] == if Fabs(m[i][k]) < cut then 0.0 else m[i][k])
  }

  lemma PartsAreCut(w: Matrix, cut: real, comp: Component)
    ensures IsCut(Part(w, comp), Part(CutMatrix(w, cut), comp), cut)
  {
    var m, c := Part(w, comp), Part(CutMatrix(w, cut), comp);
    forall i | 0 <= i < |m| ensures |c[i]| == |m[i]| && forall k :: 0 <= k < |m[i]| ==>
      c[i][k] == if Fabs(m[i][k]) < cut then 0.0 else m[i][k]
    {
      assert CutMatrix(w, cut)[i] == CutRow(w[i], cut);
    }
  }
}
