/** Evaluation of stored series in two variables: nested Clenshaw recurrences for Chebyshev coefficients, nested
    Horner schemes for powers. */
module Bivevals {
  import opened Chebyshev
  import opened RealSeries
  import opened Reals
  import opened Wrappers

  /** A stored series: rows of coefficients for each component, the row of highest index last. For a Chebyshev series
      a is the sum of the ends of the argument range and b the reciprocal of its length. */
  datatype Tseries = Tseries(a: UV, b: UV, cu: seq<seq<real>>, cv: seq<seq<real>>, power: bool) {
    /** The number of the last row; -1 if there is none. */
    function Mu(): int { |cu| - 1 }
    function Mv(): int { |cv| - 1 }
  }

  /** The value of a series; or the argument is out of range; or there is no row to begin with, so that what the
      evaluation would give is undefined. */
  datatype Evaluation = Evaluated(out: UV) | OutOfRange | NoRow

  const NEAR_ONE := 1.00001

  function Scale(t: Tseries, p: UV): UV {
    UV((p.u + p.u - t.a.u) * t.b.u, (p.v + p.v - t.a.v) * t.b.v)
  }

  ghost function PowerSeriesValue(t: Tseries, p: UV): UV {
    UV(PowerSum2(t.cu, p.u, p.v), PowerSum2(t.cv, p.u, p.v))
  }

  ghost function ChebyshevSeriesValue(t: Tseries, w: UV): UV {
    UV(ChebyshevSum2(t.cu, w.u, w.v), ChebyshevSum2(t.cv, w.u, w.v))
  }

  /** The value of the series at p. */
  ghost function SeriesValue(t: Tseries, p: UV): UV {
    if t.power then PowerSeriesValue(t, p) else ChebyshevSeriesValue(t, Scale(t, p))
  }

  ghost predicate WithinRange(t: Tseries, p: UV) {
    Fabs(Scale(t, p).u) <= NEAR_ONE && Fabs(Scale(t, p).v) <= NEAR_ONE
  }

  /** A Chebyshev series for arguments between a and b. */
  ghost predicate ForRange(t: Tseries, a: UV, b: UV) {
    && !t.power && a.u != b.u && a.v != b.v
    && t.a == UV(a.u + b.u, a.v + b.v) && t.b == UV(1.0 / (b.u - a.u), 1.0 / (b.v - a.v))
  }

  predicate Between(a: real, b: real, x: real) {
    a <= x <= b || b <= x <= a
  }

  /** x lies outside the range between a and b by more than 0.000005 of its length. */
  predicate Beyond(a: real, b: real, x: real) {
    (a - x > 0.000005 * Fabs(b - a) && b - x > 0.000005 * Fabs(b - a)) ||
    (x - a > 0.000005 * Fabs(b - a) && x - b > 0.000005 * Fabs(b - a))
  }

  /** The argument is rejected exactly if it lies beyond the range in either direction, and so never within it. */
  ghost predicate RangeIsChecked(out: Evaluation, a: UV, b: UV, p: UV) {
    && (out == OutOfRange <==> Beyond(a.u, b.u, p.u) || Beyond(a.v, b.v, p.v))
    && (Between(a.u, b.u, p.u) && Between(a.v, b.v, p.v) ==> out != OutOfRange)
  }

  lemma ScaledRange(a: real, b: real, x: real, w: real)
    requires a != b && w == (x + x - (a + b)) * (1.0 / (b - a))
    ensures Fabs(w) > NEAR_ONE <==> Beyond(a, b, x)
    ensures Fabs(w) <= 1.0 <==> Between(a, b, x)
  {
    var d, z := b - a, x + x - (a + b);
    assert w * d == z by { assert (1.0 / d) * d == 1.0; assert w * d == z * ((1.0 / d) * d); }
    ScaleOrder(w, d, 1.0);
    ScaleOrder(w, d, NEAR_ONE);
  }

  lemma ScaleOrder(w: real, d: real, c: real)
    requires d != 0.0
    ensures Fabs(w) > c <==> Fabs(w * d) > c * Fabs(d)
  {
    var x, e := Fabs(w), Fabs(d);
    assert Fabs(w * d) == x * e;
    if x > c { PositiveProduct(x - c, e); } else { NonNegativeProduct(c - x, e); }
  }

  /** The arguments that are in range are those that lie in the rectangle, or outside it by a little. */
  lemma RangeIsRectangle(t: Tseries, a: UV, b: UV, p: UV)
    requires ForRange(t, a, b)
    ensures WithinRange(t, p) <==> !Beyond(a.u, b.u, p.u) && !Beyond(a.v, b.v, p.v)
    ensures Between(a.u, b.u, p.u) && Between(a.v, b.v, p.v) ==> WithinRange(t, p)
  {
    ScaledRange(a.u, b.u, p.u, Scale(t, p).u);
    ScaledRange(a.v, b.v, p.v, Scale(t, p).v);
  }

  /** One row of the double recurrence, down to index 1. */
  method RowRecurrence(c: seq<real>, w: real, w2: real) returns (vd: real, vdd: real)
    requires c != [] && w2 == 2.0 * w
    ensures vd == B(c, 1, w) && vdd == B(c, 2, w)
  {
    vd, vdd := 0.0, 0.0;
    var j := |c| - 1;
    BBeyond(c, w);
    while j != 0
      invariant 0 <= j < |c|
      invariant vd == B(c, j + 1, w) && vdd == B(c, j + 2, w)
    {
      var tmp := vd;
      vd := w2 * vd - vdd + c[j];
      NextB(c, j, w, tmp, vdd, w2, c[j], vd);
      vdd := tmp;
      j := j - 1;
    }
  }

  lemma HornerFrom(c: seq<real>, i: nat, x: real)
    requires i <= |c|
    ensures PowerSum(c[i..], x) == if i < |c| then c[i] + x * PowerSum(c[i + 1..], x) else 0.0
  {
    if i < |c| {
      HornerStep(c[i..], x);
      assert c[i..][1..] == c[i + 1..];
    }
  }

  /** A power series in one variable. */
  method Horner(c: seq<real>, x: real) returns (row: real)
    ensures row == PowerSum(c, x)
  {
    row := 0.0;
    var m := |c|;
    HornerFrom(c, m, x);
    while m != 0
      invariant 0 <= m <= |c| && row == PowerSum(c[m..], x)
    {
      m := m - 1;
      HornerFrom(c, m, x);
      row := c[m] + x * row;
    }
    assert c[0..] == c;
  }

  method HornerRows(c: seq<seq<real>>, p: UV) returns (out: real)
    ensures out == PowerSum2(c, p.u, p.v)
  {
    ghost var rows := PowerRows(c, p.v);
    out := 0.0;
    var i := |c| - 1;
    HornerFrom(rows, |c|, p.u);
    while i >= 0
      invariant -1 <= i < |c| && out == PowerSum(rows[i + 1..], p.u)
    {
      var row := Horner(c[i], p.v);
      assert row == rows[i];
      HornerFrom(rows, i, p.u);
      out := row + p.u * out;
      i := i - 1;
    }
    assert rows[0..] == rows;
  }

  /** The power polynomial entry. */
  method Bpseval(p: UV, t: Tseries) returns (out: UV)
    ensures out == PowerSeriesValue(t, p)
  {
    var u := HornerRows(t.cu, p);
    var v := HornerRows(t.cv, p);
    out := UV(u, v);
  }

  class Biveval {
    var w: UV
    var w2: UV

    ghost predicate Doubled()
      reads this
    {
      w2 == Mul(2.0, w)
    }

    /** The value of one row at the scaled second argument; zero for a row without coefficients. */
    method RowValue(c: seq<real>) returns (r: real)
      requires Doubled()
      ensures r == ChebyshevSum(c, w.v)
    {
      if c == [] { return 0.0; }
      var vd, vdd := RowRecurrence(c, w.v, w2.v);
      ValueFromB(c, w.v, vd, vdd);
      r := w.v * vd - vdd + 0.5 * c[0];
    }

    /** Double evaluation, from row n down. The recurrence over the rows starts at the last one: without any, there is
        nothing that it could read. */
    method Ceval(c: seq<seq<real>>, n: int) returns (out: Option<real>)
      requires Doubled() && n == |c| - 1
      ensures out == if c == [] then None else Some(ChebyshevSum2(c, w.u, w.v))
    {
      if n < 0 { return None; }
      ghost var rows := ChebyshevRows(c, w.v);
      assert ChebyshevSum2(c, w.u, w.v) == ChebyshevSum(rows, w.u);
      var d, dd := RowsRecurrence(c, n, rows);
      var first := RowValue(c[0]);
      assert first == rows[0];
      ValueFromB(rows, w.u, d, dd);
      var value := w.u * d - dd + 0.5 * first;
      assert value == ChebyshevSum(rows, w.u);
      out := Some(value);
    }

    /** The recurrence over the rows, from the last down to row 1. */
    method RowsRecurrence(c: seq<seq<real>>, n: nat, ghost rows: seq<real>) returns (d: real, dd: real)
      requires Doubled() && |rows| == |c| == n + 1
      requires forall i {:trigger rows[i]} :: 0 <= i < |c| ==> rows[i] == ChebyshevSum(c[i], w.v)
      ensures d == B(rows, 1, w.u) && dd == B(rows, 2, w.u)
    {
      d, dd := 0.0, 0.0;
      BBeyond(rows, w.u);
      var i := n;
      while i != 0
        invariant 0 <= i < |c|
        invariant d == B(rows, i + 1, w.u) && dd == B(rows, i + 2, w.u)
      {
        var tmp := d;
        d := NextRow(c[i], d, dd, i, rows);
        dd := tmp;
        i := i - 1;
      }
    }

    /** The auxiliary quantity of row i. */
    method NextRow(c: seq<real>, d: real, dd: real, ghost i: nat, ghost rows: seq<real>) returns (next: real)
      requires Doubled() && i < |rows| && rows[i] == ChebyshevSum(c, w.v)
      requires d == B(rows, i + 1, w.u) && dd == B(rows, i + 2, w.u)
      ensures next == B(rows, i, w.u)
    {
      var value := RowValue(c);
      next := w2.u * d - dd + value;
      NextB(rows, i, w.u, d, dd, w2.u, value, next);
    }

    /** The Chebyshev polynomial entry. */
    method Bcheval(p: UV, t: Tseries) returns (out: Evaluation)
      modifies this
      ensures w == Scale(t, p)
      ensures out == if !WithinRange(t, p) then OutOfRange else if t.Mu() < 0 || t.Mv() < 0 then NoRow
                     else Evaluated(ChebyshevSeriesValue(t, Scale(t, p)))
      ensures forall a, b {:trigger ForRange(t, a, b)} :: ForRange(t, a, b) ==> RangeIsChecked(out, a, b, p)
    {
      forall a, b {:trigger ForRange(t, a, b)} | ForRange(t, a, b)
        ensures WithinRange(t, p) <==> !Beyond(a.u, b.u, p.u) && !Beyond(a.v, b.v, p.v)
        ensures Between(a.u, b.u, p.u) && Between(a.v, b.v, p.v) ==> WithinRange(t, p)
      {
        RangeIsRectangle(t, a, b, p);
      }
      w := Scale(t, p);
      if Fabs(w.u) > NEAR_ONE || Fabs(w.v) > NEAR_ONE {
        return OutOfRange;
      }
      w2 := UV(w.u + w.u, w.v + w.v);
      var u := Ceval(t.cu, t.Mu());
      var v := Ceval(t.cv, t.Mv());
      out := if u == None || v == None then NoRow else Evaluated(UV(u.value, v.value));
    }

    /** The general entry. */
    method Evaluate(p: UV, t: Tseries) returns (out: Evaluation)
      modifies this
      ensures out == if !t.power && !WithinRange(t, p) then OutOfRange
                     else if !t.power && (t.Mu() < 0 || t.Mv() < 0) then NoRow
                     else Evaluated(SeriesValue(t, p))
      ensures forall a, b {:trigger ForRange(t, a, b)} :: ForRange(t, a, b) ==> RangeIsChecked(out, a, b, p)
    {
      if t.power {
        var r := Bpseval(p, t);
        out := Evaluated(r);
      } else {
        out := Bcheval(p, t);
      }
    }
  }
}
