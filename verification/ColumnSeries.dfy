/** The series transformations applied to all columns of a matrix at once, row by row. */
module ColumnSeries {
  import opened Chebyshev
  import opened Reals
  import opened SeriesMatrix

  // --- Rows as vectors

  /** m*b - c */
  function RowSubMul(m: real, b: seq<UV>, c: seq<UV>): (r: seq<UV>)
    requires |b| == |c|
    ensures |r| == |b| && forall k {:trigger r[k]} :: 0 <= k < |b| ==> r[k] == Sub(Mul(m, b[k]), c[k])
  {
    seq(|b|, k requires 0 <= k < |b| => Sub(Mul(m, b[k]), c[k]))
  }

  /** b - c */
  function RowSub(b: seq<UV>, c: seq<UV>): (r: seq<UV>)
    requires |b| == |c|
    ensures |r| == |b| && forall k {:trigger r[k]} :: 0 <= k < |b| ==> r[k] == Sub(b[k], c[k])
  {
    seq(|b|, k requires 0 <= k < |b| => Sub(b[k], c[k]))
  }

  /** m*b */
  function RowMul(m: real, b: seq<UV>): (r: seq<UV>)
    ensures |r| == |b| && forall k {:trigger r[k]} :: 0 <= k < |b| ==> r[k] == Mul(m, b[k])
  {
    seq(|b|, k requires 0 <= k < |b| => Mul(m, b[k]))
  }

  /** a - m*b */
  function RowSubScaled(a: seq<UV>, m: real, b: seq<UV>): (r: seq<UV>)
    requires |a| == |b|
    ensures |r| == |b| && forall k {:trigger r[k]} :: 0 <= k < |b| ==> r[k] == Sub(a[k], Mul(m, b[k]))
  {
    seq(|b|, k requires 0 <= k < |b| => Sub(a[k], Mul(m, b[k])))
  }

  // --- The recurrence

  function StepRows(d: Matrix, dd: Matrix, cj: seq<UV>): (r: Matrix)
    requires |d| > 0 && HasShape(d, |d|, |cj|) && HasShape(dd, |d|, |cj|)
    ensures HasShape(r, |d|, |cj|)
    ensures forall k {:trigger r[k]} :: 0 <= k < |d| ==>
      r[k] == if k == 0 then RowSub(cj, dd[0]) else RowSubMul(2.0, d[k - 1], dd[k])
  {
    seq(|d|, k requires 0 <= k < |d| => if k == 0 then RowSub(cj, dd[0]) else RowSubMul(2.0, d[k - 1], dd[k]))
  }

  function FinishRows(d: Matrix, dd: Matrix, c0: seq<UV>): (r: Matrix)
    requires |d| > 0 && HasShape(d, |d|, |c0|) && HasShape(dd, |d|, |c0|)
    ensures HasShape(r, |d|, |c0|)
    ensures forall k {:trigger r[k]} :: 0 <= k < |d| ==>
      r[k] == if k == 0 then RowSubMul(0.5, c0, dd[0]) else RowSub(d[k - 1], dd[k])
  {
    seq(|d|, k requires 0 <= k < |d| => if k == 0 then RowSubMul(0.5, c0, dd[0]) else RowSub(d[k - 1], dd[k]))
  }

  function ZeroRows(n: nat, nv: nat): (r: Matrix)
    ensures HasShape(r, n, nv) && forall k {:trigger r[k]} :: 0 <= k < n ==> r[k] == Zeros(nv)
  {
    seq(n, _ => Zeros(nv))
  }

  function StateRows(c: Matrix, nv: nat, j: nat): (r: (Matrix, Matrix))
    requires j < |c| && HasShape(c, |c|, nv)
    ensures HasShape(r.0, |c|, nv) && HasShape(r.1, |c|, nv)
    decreases |c| - j
  {
    if j == |c| - 1 then ([c[j]] + ZeroRows(|c| - 1, nv), ZeroRows(|c|, nv))
    else
      var s := StateRows(c, nv, j + 1);
      (StepRows(s.0, s.1, c[j]), s.0)
  }

  function ToPowerRows(c: Matrix, nv: nat): (r: Matrix)
    requires |c| > 0 && HasShape(c, |c|, nv)
    ensures HasShape(r, |c|, nv)
  {
    var s := StateRows(c, nv, if |c| == 1 then 0 else 1);
    FinishRows(s.0, s.1, c[0])
  }

  lemma StepColumn(d: Matrix, dd: Matrix, cj: seq<UV>, l: nat)
    requires |d| > 0 && HasShape(d, |d|, |cj|) && HasShape(dd, |d|, |cj|) && l < |cj|
    ensures Column(StepRows(d, dd, cj), l) == Step(Column(d, l), Column(dd, l), cj[l])
  {
    var r, e, f := StepRows(d, dd, cj), Column(d, l), Column(dd, l);
    var g, h := Column(r, l), Step(e, f, cj[l]);
    forall k | 0 <= k < |d| ensures g[k] == h[k] {
      if k == 0 {
        assert r[0] == RowSub(cj, dd[0]);
      } else {
        assert r[k] == RowSubMul(2.0, d[k - 1], dd[k]);
        assert e[k - 1] == d[k - 1][l];
      }
    }
  }

  lemma FinishColumn(d: Matrix, dd: Matrix, c0: seq<UV>, l: nat)
    requires |d| > 0 && HasShape(d, |d|, |c0|) && HasShape(dd, |d|, |c0|) && l < |c0|
    ensures Column(FinishRows(d, dd, c0), l) == Finish(Column(d, l), Column(dd, l), c0[l])
  {
    var r, e, f := FinishRows(d, dd, c0), Column(d, l), Column(dd, l);
    var g, h := Column(r, l), Finish(e, f, c0[l]);
    forall k | 0 <= k < |d| ensures g[k] == h[k] {
      if k == 0 {
        assert r[0] == RowSubMul(0.5, c0, dd[0]);
      } else {
        assert r[k] == RowSub(d[k - 1], dd[k]);
        assert e[k - 1] == d[k - 1][l];
      }
    }
  }

  lemma {:induction false} StateColumn(c: Matrix, nv: nat, j: nat, l: nat)
    requires j < |c| && HasShape(c, |c|, nv) && l < nv
    ensures Column(StateRows(c, nv, j).0, l) == State(Column(c, l), j).0
    ensures Column(StateRows(c, nv, j).1, l) == State(Column(c, l), j).1
    decreases |c| - j
  {
    if j == |c| - 1 {
      LastStateColumn(c, nv, l);
    } else {
      StateColumn(c, nv, j + 1, l);
      var s := StateRows(c, nv, j + 1);
      assert StateRows(c, nv, j) == (StepRows(s.0, s.1, c[j]), s.0);
      StepColumn(s.0, s.1, c[j], l);
    }
  }

  lemma LastStateColumn(c: Matrix, nv: nat, l: nat)
    requires |c| > 0 && HasShape(c, |c|, nv) && l < nv
    ensures Column([c[|c| - 1]] + ZeroRows(|c| - 1, nv), l) == [c[|c| - 1][l]] + Zeros(|c| - 1)
    ensures Column(ZeroRows(|c|, nv), l) == Zeros(|c|)
  {
  }

  lemma ToPowerColumn(c: Matrix, nv: nat, l: nat)
    requires |c| > 0 && HasShape(c, |c|, nv) && l < nv
    ensures Column(ToPowerRows(c, nv), l) == ToPower(Column(c, l))
  {
    var j := if |c| == 1 then 0 else 1;
    var s := StateRows(c, nv, j);
    StateColumn(c, nv, j, l);
    FinishColumn(s.0, s.1, c[0], l);
  }

  // --- The change of range

  function ScaledRows(d: Matrix, m: real): (r: Matrix)
    ensures |r| == |d| && forall k {:trigger r[k]} :: 0 <= k < |d| ==> r[k] == RowMul(Power(m, k), d[k])
  {
    seq(|d|, k requires 0 <= k < |d| => RowMul(Power(m, k), d[k]))
  }

  function DivideRows(d: Matrix, nv: nat, s: real): (r: Matrix)
    requires HasShape(d, |d|, nv)
    ensures HasShape(r, |d|, nv)
  {
    if |d| <= 1 then d
    else
      var rest := DivideRows(d[1..], nv, s);
      [RowSubScaled(d[0], s, rest[0])] + rest
  }

  function TaylorRows(d: Matrix, nv: nat, s: real): (r: Matrix)
    requires HasShape(d, |d|, nv)
    ensures HasShape(r, |d|, nv)
    decreases |d|
  {
    if |d| <= 1 then d
    else
      var r := DivideRows(d, nv, s);
      [r[0]] + TaylorRows(r[1..], nv, s)
  }

  function ToRangeRows(a: real, b: real, d: Matrix, nv: nat): (r: Matrix)
    requires a != b && HasShape(d, |d|, nv)
    ensures HasShape(r, |d|, nv)
  {
    TaylorRows(ScaledRows(d, 2.0 / (b - a)), nv, 0.5 * (a + b))
  }

  lemma ScaledColumn(d: Matrix, nv: nat, m: real, l: nat)
    requires HasShape(d, |d|, nv) && l < nv
    ensures HasShape(ScaledRows(d, m), |d|, nv)
    ensures Column(ScaledRows(d, m), l) == Scaled(Column(d, l), m)
  {
  }

  lemma {:induction false} DivideColumn(d: Matrix, nv: nat, s: real, l: nat)
    requires HasShape(d, |d|, nv) && l < nv
    ensures Column(DivideRows(d, nv, s), l) == Divide(Column(d, l), s)
  {
    if |d| > 1 {
      DivideColumn(d[1..], nv, s, l);
      var rest := DivideRows(d[1..], nv, s);
      var first := RowSubScaled(d[0], s, rest[0]);
      assert Column(d, l)[1..] == Column(d[1..], l);
      assert Column([first] + rest, l) == [first[l]] + Column(rest, l);
    }
  }

  lemma {:induction false} TaylorColumn(d: Matrix, nv: nat, s: real, l: nat)
    requires HasShape(d, |d|, nv) && l < nv
    ensures Column(TaylorRows(d, nv, s), l) == Taylor(Column(d, l), s)
    decreases |d|
  {
    if |d| > 1 {
      var r := DivideRows(d, nv, s);
      DivideColumn(d, nv, s, l);
      TaylorColumn(r[1..], nv, s, l);
      FirstOfColumn(r, nv, l);
      RestOfColumn(r[0], TaylorRows(r[1..], nv, s), nv, l);
    }
  }

  lemma FirstOfColumn(r: Matrix, nv: nat, l: nat)
    requires r != [] && HasShape(r, |r|, nv) && l < nv
    ensures Column(r, l)[0] == r[0][l] && Column(r, l)[1..] == Column(r[1..], l)
  {
  }

  lemma RestOfColumn(first: seq<UV>, rest: Matrix, nv: nat, l: nat)
    requires HasShape(rest, |rest|, nv) && |first| == nv && l < nv
    ensures Column([first] + rest, l) == [first[l]] + Column(rest, l)
  {
  }

  lemma ToRangeColumn(a: real, b: real, d: Matrix, nv: nat, l: nat)
    requires a != b && HasShape(d, |d|, nv) && l < nv
    ensures Column(ToRangeRows(a, b, d, nv), l) == ToRange(a, b, Column(d, l))
  {
    var m, s := 2.0 / (b - a), 0.5 * (a + b);
    ScaledColumn(d, nv, m, l);
    TaylorColumn(ScaledRows(d, m), nv, s, l);
  }
}
