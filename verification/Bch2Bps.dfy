/** Conversion of a bivariate Chebyshev series to a bivariate power series, in place on coefficient buffers. */
module Bch2Bps {
  import opened Chebyshev
  import opened ColumnSeries
  import opened Reals
  import opened SeriesMatrix

  // --- One row

  /** The inner loop of a step: coefficients top down to 1 of d and dd, for the values next. */
  method StepDown(d: array<UV>, dd: array<UV>, top: nat, ghost next: seq<UV>)
    requires d != dd && d.Length == dd.Length == |next| && top < d.Length
    requires forall k {:trigger next[k]} :: 1 <= k <= top ==> next[k] == Sub(Mul(2.0, d[k - 1]), dd[k])
    modifies d, dd
    ensures forall t {:trigger d[t]} :: 0 <= t < d.Length ==> d[t] == if 1 <= t <= top then next[t] else old(d[t])
    ensures forall t {:trigger dd[t]} :: 0 <= t < d.Length ==> dd[t] == if 1 <= t <= top then old(d[t]) else old(dd[t])
  {
    hide Sub, Mul;
    var sv;
    var k := top;
    while k >= 1
      invariant 0 <= k <= top
      invariant forall t {:trigger d[t]} :: 0 <= t < d.Length ==> d[t] == if k < t <= top then next[t] else old(d[t])
      invariant forall t {:trigger dd[t]} :: 0 <= t < d.Length ==>
        dd[t] == if k < t <= top then old(d[t]) else old(dd[t])
    {
      sv := d[k];
      d[k] := Sub(Mul(2.0, d[k - 1]), dd[k]);
      assert d[k] == next[k];
      dd[k] := sv;
      k := k - 1;
    }
  }

  /** One step of the recurrence on d and the scratch vector dd, from the top coefficient downwards. */
  method StepRow(d: array<UV>, dd: array<UV>, cj: UV, j: nat)
    requires d != dd && d.Length == dd.Length && 1 <= j <= d.Length - 2
    requires Degree(d[..], d.Length - 2 - j) && Degree(dd[..], d.Length - 3 - j)
    modifies d, dd
    ensures d[..] == Step(old(d[..]), old(dd[..]), cj) && dd[..] == old(d[..])
  {
    var n := d.Length;
    ghost var D, DD := d[..], dd[..];
    StepDown(d, dd, n - j, Step(D, DD, cj));
    var sv := d[0];
    d[0] := Sub(cj, dd[0]);
    dd[0] := sv;
    StepComplete(D, DD, cj, n - 2 - j, d[..], dd[..]);
  }

  lemma StepComplete(D: seq<UV>, DD: seq<UV>, cj: UV, n: int, d: seq<UV>, dd: seq<UV>)
    requires |D| == |DD| == |d| == |dd| > 0 && n >= 0 && Degree(D, n) && Degree(DD, n - 1)
    requires forall t {:trigger d[t]} :: 1 <= t < |d| ==> d[t] == if t <= n + 2 then Step(D, DD, cj)[t] else D[t]
    requires forall t {:trigger dd[t]} :: 1 <= t < |d| ==> dd[t] == if t <= n + 2 then D[t] else DD[t]
    requires d[0] == Sub(cj, DD[0]) && dd[0] == D[0]
    ensures d == Step(D, DD, cj) && dd == D
  {
    HighCoefficients(D, DD, cj, n);
    forall t | 0 <= t < |d| ensures d[t] == Step(D, DD, cj)[t] && dd[t] == D[t] {
    }
  }

  /** Above the new degree all coefficients are zero before and after a step: they need not be touched. */
  lemma HighCoefficients(D: seq<UV>, DD: seq<UV>, cj: UV, n: int)
    requires |D| == |DD| > 0 && n >= 0 && Degree(D, n) && Degree(DD, n - 1)
    ensures forall t {:trigger Step(D, DD, cj)[t]} :: n + 2 < t < |D| ==> Step(D, DD, cj)[t] == ZERO
    ensures forall t {:trigger D[t]} {:trigger DD[t]} :: n + 2 < t < |D| ==> D[t] == DD[t] == ZERO
  {
    forall t {:trigger Step(D, DD, cj)[t]} | n + 2 < t < |D| ensures Step(D, DD, cj)[t] == ZERO {
      HighCoefficient(D, DD, cj, n, t);
    }
  }

  lemma HighCoefficient(D: seq<UV>, DD: seq<UV>, cj: UV, n: int, t: int)
    requires |D| == |DD| > 0 && n >= 0 && Degree(D, n) && Degree(DD, n - 1) && n + 2 < t < |D|
    ensures Step(D, DD, cj)[t] == ZERO
  {
  }

  /** The closing step. */
  method FinishRow(d: array<UV>, dd: array<UV>, c0: UV)
    requires d != dd && d.Length == dd.Length > 0
    modifies d
    ensures d[..] == Finish(old(d[..]), dd[..], c0)
  {
    ghost var D, R := d[..], Finish(d[..], dd[..], c0);
    var j := d.Length - 1;
    while j >= 1
      invariant 0 <= j < d.Length
      invariant forall t {:trigger d[t]} :: 0 <= t < d.Length ==> d[t] == if t > j then R[t] else D[t]
    {
      d[j] := Sub(d[j - 1], dd[j]);
      j := j - 1;
    }
    d[0] := Sub(Mul(0.5, c0), dd[0]);
    assert d[..] == R;
  }

  /** Clears both vectors and puts the last coefficient in place. */
  method InitRow(d: array<UV>, dd: array<UV>, last: UV)
    requires d != dd && d.Length == dd.Length > 0
    modifies d, dd
    ensures d[..] == [last] + Zeros(d.Length - 1) && dd[..] == Zeros(d.Length)
  {
    var n := d.Length;
    var sv := ZERO;
    for j := 0 to n
      invariant forall k {:trigger d[k]} :: 0 <= k < j ==> d[k] == ZERO
      invariant forall k {:trigger dd[k]} :: 0 <= k < j ==> dd[k] == ZERO
    {
      d[j] := sv;
      dd[j] := sv;
    }
    d[0] := last;
  }

  /** The vectors are as the recurrence leaves them when it has come down to index j. */
  ghost predicate InRowState(d: seq<UV>, dd: seq<UV>, c: seq<UV>, j: nat)
    requires j < |c|
  {
    (d, dd) == State(c, j)
  }

  /** Converts the row c to a power series in d. */
  method Rows(c: seq<UV>, d: array<UV>)
    requires |c| == d.Length > 0
    modifies d
    ensures d[..] == ToPower(c)
  {
    var n := |c|;
    var dd := new UV[n];
    StartRow(c, d, dd);
    var j := n - 2;
    while j >= 1
      invariant if n == 1 then j == -1 else 0 <= j <= n - 2
      invariant InRowState(d[..], dd[..], c, j + 1)
    {
      TakeCoefficient(c, d, dd, j);
      j := j - 1;
    }
    CloseRow(c, d, dd);
  }

  method StartRow(c: seq<UV>, d: array<UV>, dd: array<UV>)
    requires d != dd && |c| == d.Length == dd.Length > 0
    modifies d, dd
    ensures InRowState(d[..], dd[..], c, |c| - 1)
  {
    InitRow(d, dd, c[|c| - 1]);
  }

  /** Takes coefficient j of c into the recurrence. */
  method TakeCoefficient(c: seq<UV>, d: array<UV>, dd: array<UV>, j: nat)
    requires d != dd && |c| == d.Length == dd.Length && 1 <= j <= |c| - 2
    requires InRowState(d[..], dd[..], c, j + 1)
    modifies d, dd
    ensures InRowState(d[..], dd[..], c, j)
  {
    ghost var D, DD := d[..], dd[..];
    StateDegree(c, j + 1);
    StepRow(d, dd, c[j], j);
    NextState(c, j, D, DD);
  }

  lemma NextState(c: seq<UV>, j: nat, d: seq<UV>, dd: seq<UV>)
    requires j < |c| - 1 && InRowState(d, dd, c, j + 1)
    ensures |d| == |dd| && InRowState(Step(d, dd, c[j]), d, c, j)
  {
  }

  method CloseRow(c: seq<UV>, d: array<UV>, dd: array<UV>)
    requires d != dd && |c| == d.Length == dd.Length > 0
    requires InRowState(d[..], dd[..], c, if |c| == 1 then 0 else 1)
    modifies d
    ensures d[..] == ToPower(c)
  {
    FinishRow(d, dd, c[0]);
  }

  /** Multiplies coefficient k by the k-th power of m. */
  method ScaleRow(d: array<UV>, m: real)
    requires d.Length > 0
    modifies d
    ensures d[..] == Scaled(old(d[..]), m)
  {
    var n := d.Length;
    ghost var D, S := d[..], Scaled(d[..], m);
    var fac := m;
    assert Power(m, 0) == 1.0 && Power(m, 1) == m;
    assert S[0] == D[0];
    for j := 1 to n
      invariant fac == Power(m, j)
      invariant forall k {:trigger d[k]} :: 0 <= k < n ==> d[k] == if k < j then S[k] else D[k]
    {
      d[j] := Mul(fac, d[j]);
      PowerUp(m, j, fac);
      fac := fac * m;
    }
    assert d[..] == S;
  }

  lemma PowerUp(m: real, j: nat, fac: real)
    requires fac == Power(m, j)
    ensures fac * m == Power(m, j + 1)
  {
  }

  /** Moves a power series from the argument range [-1, 1] to [a, b]. */
  method RowShft(a: real, b: real, d: array<UV>)
    requires a != b && d.Length > 0
    modifies d
    ensures d[..] == ToRange(a, b, old(d[..]))
  {
    var cnst := 2.0 / (b - a);
    ScaleRow(d, cnst);
    cnst := 0.5 * (a + b);
    TaylorRow(d, cnst);
  }

  /** Re-expands the polynomial d(y - s) in powers of y. */
  method TaylorRow(d: array<UV>, s: real)
    requires d.Length > 0
    modifies d
    ensures d[..] == Taylor(old(d[..]), s)
  {
    var n := d.Length;
    ghost var S := Taylor(d[..], s);
    assert d[..0] + Taylor(d[0..], s) == S by { assert d[0..] == d[..]; }
    for j := 0 to n - 1
      invariant S == d[..j] + Taylor(d[j..], s)
    {
      ghost var before := d[..];
      assert before[..j] == d[..j] && before[j..] == d[j..];
      DivideRow(d, j, s);
      assert d[..][..j] == d[..j] && d[..][j..] == d[j..] && d[..][..j + 1] == d[..j + 1] &&
        d[..][j + 1..] == d[j + 1..];
      TaylorUnfold(before, d[..], j, s);
    }
    LastCoefficient(d[..], s);
    assert d[..][..n - 1] == d[..n - 1] && d[..][n - 1..] == d[n - 1..];
  }

  lemma LastCoefficient(d: seq<UV>, s: real)
    requires d != []
    ensures d[..|d| - 1] + Taylor(d[|d| - 1..], s) == d
  {
  }

  lemma LastDivided(D: seq<UV>, s: real)
    requires D != []
    ensures Divide(D[|D| - 1..], s) == D[|D| - 1..]
  {
  }

  lemma DivideNext(D: seq<UV>, k: nat, s: real, rest: seq<UV>)
    requires k < |D| - 1 && rest == Divide(D[k + 1..], s)
    ensures Divide(D[k..], s) == [Sub(D[k], Mul(s, rest[0]))] + rest
  {
    assert D[k..][1..] == D[k + 1..];
  }

  /** Synthetic division of the coefficients from index j on. */
  method DivideRow(d: array<UV>, j: nat, s: real)
    requires j < d.Length
    modifies d
    ensures d[..j] == old(d[..j]) && d[j..] == Divide(old(d[j..]), s)
  {
    hide Sub, Mul, Divide;
    var n := d.Length;
    ghost var D := d[..];
    var k := n - 2;
    LastDivided(D, s);
    assert d[n - 1..] == D[n - 1..];
    while k >= j
      invariant j - 1 <= k <= n - 2
      invariant d[k + 1..] == Divide(D[k + 1..], s)
      invariant d[..k + 1] == D[..k + 1]
    {
      assert d[k] == D[..k + 1][k] == D[k];
      assert d[k + 1] == d[k + 1..][0];
      ghost var rest := d[k + 1..];
      DivideNext(D, k, s, rest);
      d[k] := Sub(d[k], Mul(s, d[k + 1]));
      assert d[k..] == [d[k]] + rest;
      assert d[..k] == D[..k];
      k := k - 1;
    }
  }

  lemma TaylorUnfold(before: seq<UV>, after: seq<UV>, j: nat, s: real)
    requires |before| == |after| && j < |after| - 1
    requires after[..j] == before[..j] && after[j..] == Divide(before[j..], s)
    ensures before[..j] + Taylor(before[j..], s) == after[..j + 1] + Taylor(after[j + 1..], s)
  {
    OneDivision(before[j..], after[j..], s);
    assert after[j..][1..] == after[j + 1..];
    MoveOne(before[..j], after[j], Taylor(after[j + 1..], s));
    assert after[..j + 1] == before[..j] + [after[j]];
  }

  lemma OneDivision(q: seq<UV>, r: seq<UV>, s: real)
    requires |q| > 1 && r == Divide(q, s)
    ensures Taylor(q, s) == [r[0]] + Taylor(r[1..], s)
  {
  }

  lemma MoveOne<A>(a: seq<A>, b: A, c: seq<A>)
    ensures a + ([b] + c) == (a + [b]) + c
  {
  }

  // --- Vectors: whole rows of a matrix

  /** m*b - c */
  method SubMop(m: real, b: seq<UV>, c: seq<UV>) returns (a: seq<UV>)
    requires |b| == |c|
    ensures a == RowSubMul(m, b, c)
  {
    a := [];
    for k := 0 to |b|
      invariant a == RowSubMul(m, b, c)[..k]
    {
      a := a + [Sub(Mul(m, b[k]), c[k])];
    }
  }

  /** b - c */
  method SubOp(b: seq<UV>, c: seq<UV>) returns (a: seq<UV>)
    requires |b| == |c|
    ensures a == RowSub(b, c)
  {
    a := [];
    for k := 0 to |b|
      invariant a == RowSub(b, c)[..k]
    {
      a := a + [Sub(b[k], c[k])];
    }
  }

  /** m*b */
  method DMult(b: seq<UV>, m: real) returns (a: seq<UV>)
    ensures a == RowMul(m, b)
  {
    a := [];
    for k := 0 to |b|
      invariant a == RowMul(m, b)[..k]
    {
      a := a + [Mul(m, b[k])];
    }
  }

  /** a - m*b */
  method DAdd(a: seq<UV>, b: seq<UV>, m: real) returns (r: seq<UV>)
    requires |a| == |b|
    ensures r == RowSubScaled(a, m, b)
  {
    r := [];
    for k := 0 to |b|
      invariant r == RowSubScaled(a, m, b)[..k]
    {
      r := r + [Sub(a[k], Mul(m, b[k]))];
    }
  }

  // --- Columns

  ghost predicate DegreeRows(d: Matrix, n: int, nv: nat) {
    forall k {:trigger d[k]} :: 0 <= k < |d| && k > n ==> d[k] == Zeros(nv)
  }

  method StepDownRows(d: array<seq<UV>>, dd: array<seq<UV>>, top: nat, nv: nat, ghost next: Matrix)
    requires d != dd && d.Length == dd.Length == |next| && top < d.Length
    requires HasShape(d[..], d.Length, nv) && HasShape(dd[..], d.Length, nv)
    requires forall k {:trigger next[k]} :: 1 <= k <= top ==> next[k] == RowSubMul(2.0, d[k - 1], dd[k])
    modifies d, dd
    ensures forall t {:trigger d[t]} :: 0 <= t < d.Length ==> d[t] == if 1 <= t <= top then next[t] else old(d[t])
    ensures forall t {:trigger dd[t]} :: 0 <= t < d.Length ==> dd[t] == if 1 <= t <= top then old(d[t]) else old(dd[t])
  {
    var sv;
    var k := top;
    while k >= 1
      invariant 0 <= k <= top
      invariant forall t {:trigger d[t]} :: 0 <= t < d.Length ==> d[t] == if k < t <= top then next[t] else old(d[t])
      invariant forall t {:trigger dd[t]} :: 0 <= t < d.Length ==>
        dd[t] == if k < t <= top then old(d[t]) else old(dd[t])
    {
      sv := d[k];
      assert |d[k - 1]| == nv == |dd[k]| by {
        assert old(d[..])[k - 1] == old(d[k - 1]) && old(dd[..])[k] == old(dd[k]);
      }
      var row := SubMop(2.0, d[k - 1], dd[k]);
      d[k] := row;
      assert d[k] == next[k];
      dd[k] := sv;
      k := k - 1;
    }
  }

  method StepColumns(d: array<seq<UV>>, dd: array<seq<UV>>, cj: seq<UV>, j: nat)
    requires d != dd && d.Length == dd.Length && 1 <= j <= d.Length - 2
    requires HasShape(d[..], d.Length, |cj|) && HasShape(dd[..], d.Length, |cj|)
    requires DegreeRows(d[..], d.Length - 2 - j, |cj|) && DegreeRows(dd[..], d.Length - 3 - j, |cj|)
    modifies d, dd
    ensures d[..] == StepRows(old(d[..]), old(dd[..]), cj) && dd[..] == old(d[..])
  {
    ghost var D, DD := d[..], dd[..];
    ghost var next := StepRows(D, DD, cj);
    HighRows(D, DD, cj, d.Length - 2 - j, next);
    ReplaceRows(d, dd, cj, d.Length - j, D, DD, next);
  }

  /** The step, for the rows next; above index top nothing changes. */
  method ReplaceRows(d: array<seq<UV>>, dd: array<seq<UV>>, cj: seq<UV>, top: nat, ghost D: Matrix, ghost DD: Matrix,
                     ghost next: Matrix)
    requires d != dd && d.Length == dd.Length == |next| && top < d.Length && d[..] == D && dd[..] == DD
    requires HasShape(D, d.Length, |cj|) && HasShape(DD, d.Length, |cj|) && next[0] == RowSub(cj, DD[0])
    requires forall k {:trigger next[k]} :: 1 <= k <= top ==> next[k] == RowSubMul(2.0, D[k - 1], DD[k])
    requires forall k {:trigger next[k]} :: top < k < d.Length ==> next[k] == D[k] == DD[k]
    modifies d, dd
    ensures d[..] == next && dd[..] == D
  {
    StepDownRows(d, dd, top, |cj|, next);
    assert dd[0] == DD[0] && |DD[0]| == |cj|;
    StepFirstRow(d, dd, cj);
    forall t {:trigger D[t]} | 0 <= t < |D| ensures dd[t] == D[t] {
      if t > top { assert next[t] == D[t]; }
    }
  }

  /** Row 0 of the step, which takes the new row in. */
  method StepFirstRow(d: array<seq<UV>>, dd: array<seq<UV>>, cj: seq<UV>)
    requires d != dd && d.Length == dd.Length > 0 && |dd[0]| == |cj|
    modifies d, dd
    ensures d[0] == RowSub(cj, old(dd[0])) && dd[0] == old(d[0])
    ensures forall t {:trigger d[t]} :: 1 <= t < d.Length ==> d[t] == old(d[t])
    ensures forall t {:trigger dd[t]} :: 1 <= t < d.Length ==> dd[t] == old(dd[t])
  {
    var sv := d[0];
    var row := SubOp(cj, dd[0]);
    d[0] := row;
    dd[0] := sv;
  }

  /** Above the new degree all rows are zero before and after a step: they need not be touched. */
  lemma HighRows(D: Matrix, DD: Matrix, cj: seq<UV>, n: int, next: Matrix)
    requires |D| == |DD| > 0 && HasShape(D, |D|, |cj|) && HasShape(DD, |D|, |cj|) && next == StepRows(D, DD, cj)
    requires n >= 0 && DegreeRows(D, n, |cj|) && DegreeRows(DD, n - 1, |cj|)
    ensures forall t {:trigger next[t]} :: n + 2 < t < |D| ==> next[t] == D[t] == DD[t]
  {
    forall t {:trigger next[t]} | n + 2 < t < |D| ensures next[t] == D[t] == DD[t] {
      assert next[t] == RowSubMul(2.0, D[t - 1], DD[t]);
      assert D[t - 1] == Zeros(|cj|) && DD[t] == Zeros(|cj|) && D[t] == Zeros(|cj|);
      ZeroRow(|cj|);
    }
  }

  lemma ZeroRow(nv: nat)
    ensures RowSubMul(2.0, Zeros(nv), Zeros(nv)) == Zeros(nv)
  {
  }

  lemma {:induction false} StateRowsDegree(c: Matrix, nv: nat, j: nat)
    requires j < |c| && HasShape(c, |c|, nv)
    ensures DegreePair(StateRows(c, nv, j), |c| - 1 - j, nv)
    decreases |c| - j
  {
    if j == |c| - 1 {
      LastRowsDegree(c[j], |c|);
    } else {
      StateRowsDegree(c, nv, j + 1);
      StepRowsDegree(StateRows(c, nv, j + 1), c[j], |c|, |c| - 2 - j);
    }
  }

  ghost predicate DegreePair(s: (Matrix, Matrix), n: int, nv: nat) {
    DegreeRows(s.0, n, nv) && DegreeRows(s.1, n - 1, nv)
  }

  lemma LastRowsDegree(last: seq<UV>, n: nat)
    requires n > 0
    ensures DegreePair(([last] + ZeroRows(n - 1, |last|), ZeroRows(n, |last|)), 0, |last|)
  {
  }

  lemma StepRowsDegree(s: (Matrix, Matrix), cj: seq<UV>, nu: nat, n: int)
    requires nu > 0 && HasShape(s.0, nu, |cj|) && HasShape(s.1, nu, |cj|) && n >= 0 && DegreePair(s, n, |cj|)
    ensures DegreePair((StepRows(s.0, s.1, cj), s.0), n + 1, |cj|)
  {
    ZeroRow(|cj|);
    var r := StepRows(s.0, s.1, cj);
    forall k | 0 <= k < |r| && k > n + 1 ensures r[k] == Zeros(|cj|) {
      assert r[k] == RowSubMul(2.0, s.0[k - 1], s.1[k]);
      assert s.0[k - 1] == Zeros(|cj|) && s.1[k] == Zeros(|cj|);
    }
  }

  method FinishColumns(d: array<seq<UV>>, dd: array<seq<UV>>, c0: seq<UV>)
    requires d != dd && d.Length == dd.Length > 0
    requires HasShape(d[..], d.Length, |c0|) && HasShape(dd[..], d.Length, |c0|)
    modifies d
    ensures d[..] == FinishRows(old(d[..]), dd[..], c0)
  {
    ghost var D, R := d[..], FinishRows(d[..], dd[..], c0);
    assert forall t {:trigger dd[t]} :: 0 <= t < d.Length ==> |dd[t]| == |c0| by {
      assert forall t {:trigger dd[t]} :: 0 <= t < d.Length ==> dd[t] == dd[..][t];
    }
    var j := d.Length - 1;
    while j >= 1
      invariant 0 <= j < d.Length
      invariant forall t {:trigger d[t]} :: 0 <= t < d.Length ==> d[t] == if t > j then R[t] else D[t]
    {
      assert R[j] == RowSub(D[j - 1], dd[..][j]);
      var row := SubOp(d[j - 1], dd[j]);
      d[j] := row;
      j := j - 1;
    }
    var row := SubMop(0.5, c0, dd[0]);
    d[0] := row;
    assert d[..] == R;
  }

  /** Converts every column of c to a power series in d. */
  method Cols(c: seq<seq<UV>>, d: array<seq<UV>>, nv: nat)
    requires |c| == d.Length > 0 && HasShape(c, |c|, nv)
    modifies d
    ensures d[..] == ToPowerRows(c, nv)
  {
    var nu := |c|;
    var dd := new seq<UV>[nu];
    StartRecurrence(c, d, dd, nv);
    var j := nu - 2;
    while j >= 1
      invariant if nu == 1 then j == -1 else 0 <= j <= nu - 2
      invariant InState(d[..], dd[..], c, nv, j + 1)
    {
      TakeRow(c, d, dd, nv, j);
      j := j - 1;
    }
    CloseRecurrence(c, d, dd, nv);
  }

  method StartRecurrence(c: seq<seq<UV>>, d: array<seq<UV>>, dd: array<seq<UV>>, nv: nat)
    requires d != dd && |c| == d.Length == dd.Length > 0 && HasShape(c, |c|, nv)
    modifies d, dd
    ensures InState(d[..], dd[..], c, nv, |c| - 1)
  {
    assert |c[|c| - 1]| == nv;
    InitColumns(d, dd, c[|c| - 1]);
  }

  method CloseRecurrence(c: seq<seq<UV>>, d: array<seq<UV>>, dd: array<seq<UV>>, nv: nat)
    requires d != dd && |c| == d.Length == dd.Length > 0 && HasShape(c, |c|, nv)
    requires InState(d[..], dd[..], c, nv, if |c| == 1 then 0 else 1)
    modifies d
    ensures d[..] == ToPowerRows(c, nv)
  {
    assert |c[0]| == nv;
    FinishColumns(d, dd, c[0]);
  }

  ghost predicate InState(d: Matrix, dd: Matrix, c: Matrix, nv: nat, j: nat)
    requires j < |c| && HasShape(c, |c|, nv)
  {
    (d, dd) == StateRows(c, nv, j)
  }

  /** Takes row j of c into the recurrence. */
  method TakeRow(c: seq<seq<UV>>, d: array<seq<UV>>, dd: array<seq<UV>>, nv: nat, j: nat)
    requires d != dd && |c| == d.Length == dd.Length && HasShape(c, |c|, nv) && 1 <= j <= |c| - 2
    requires InState(d[..], dd[..], c, nv, j + 1)
    modifies d, dd
    ensures InState(d[..], dd[..], c, nv, j)
  {
    StateRowsDegree(c, nv, j + 1);
    ghost var s := StateRows(c, nv, j + 1);
    assert s == (d[..], dd[..]);
    assert |c[j]| == nv;
    StepColumns(d, dd, c[j], j);
    s := StepState(c, nv, j, s);
    assert s == (d[..], dd[..]);
  }

  ghost function StepState(c: Matrix, nv: nat, j: nat, s: (Matrix, Matrix)): (r: (Matrix, Matrix))
    requires j < |c| - 1 && HasShape(c, |c|, nv) && s == StateRows(c, nv, j + 1)
    ensures r == StateRows(c, nv, j)
  {
    (StepRows(s.0, s.1, c[j]), s.0)
  }

  method InitColumns(d: array<seq<UV>>, dd: array<seq<UV>>, last: seq<UV>)
    requires d != dd && d.Length == dd.Length > 0
    modifies d, dd
    ensures d[..] == [last] + ZeroRows(d.Length - 1, |last|) && dd[..] == ZeroRows(d.Length, |last|)
  {
    var n := d.Length;
    var clear := Zeros(|last|);
    for j := 0 to n
      invariant forall k {:trigger d[k]} :: 0 <= k < j ==> d[k] == clear
      invariant forall k {:trigger dd[k]} :: 0 <= k < j ==> dd[k] == clear
    {
      d[j] := clear;
      dd[j] := clear;
    }
    d[0] := last;
  }

  method ScaleColumns(d: array<seq<UV>>, m: real)
    requires d.Length > 0
    modifies d
    ensures d[..] == ScaledRows(old(d[..]), m)
  {
    ghost var S := ScaledRows(d[..], m);
    RowMulOne(d[0]);
    ghost var w := Powers(m, d.Length + 1);
    forall j | 1 <= j < d.Length ensures w[j + 1] == w[j] * m { PowerUp(m, j, w[j]); }
    MultiplyColumns(d, m, w, S);
    assert d[..] == S;
  }

  /** The loop: row k of d becomes row k of next. */
  method MultiplyColumns(d: array<seq<UV>>, m: real, ghost w: seq<real>, ghost next: Matrix)
    requires |next| == d.Length > 0 && |w| == d.Length + 1 && w[1] == m
    requires forall j :: 1 <= j < d.Length ==> w[j + 1] == w[j] * m
    requires forall k {:trigger next[k]} :: 1 <= k < d.Length ==> next[k] == RowMul(w[k], d[k])
    modifies d
    ensures d[0] == old(d[0]) && forall k {:trigger d[k]} :: 1 <= k < d.Length ==> d[k] == next[k]
  {
    var fac := m;
    for j := 1 to d.Length
      invariant fac == w[j] && d[0] == old(d[0])
      invariant forall k {:trigger d[k]} :: 1 <= k < d.Length ==> d[k] == if k < j then next[k] else old(d[k])
    {
      assert next[j] == RowMul(w[j], d[j]);
      var row := DMult(d[j], fac);
      d[j] := row;
      fac := fac * m;
    }
  }

  lemma RowMulOne(b: seq<UV>)
    ensures RowMul(1.0, b) == b
  {
    forall k | 0 <= k < |b| ensures RowMul(1.0, b)[k] == b[k] {
      MulOne(b[k]);
    }
  }

  lemma MulOne(a: UV)
    ensures Mul(1.0, a) == a
  {
  }

  method DivideColumns(d: array<seq<UV>>, j: nat, nv: nat, s: real)
    requires j < d.Length && HasShape(d[..], d.Length, nv)
    modifies d
    ensures d[..j] == old(d[..j]) && HasShape(old(d[j..]), d.Length - j, nv) && d[j..] == DivideRows(old(d[j..]), nv, s)
  {
    var n := d.Length;
    ghost var D := d[..];
    var k := n - 2;
    assert d[n - 1..] == D[n - 1..];
    while k >= j
      invariant j - 1 <= k <= n - 2
      invariant d[k + 1..] == DivideRows(D[k + 1..], nv, s)
      invariant d[..k + 1] == D[..k + 1]
    {
      assert d[k] == D[..k + 1][k] == D[k];
      assert d[k + 1] == d[k + 1..][0];
      ghost var rest := d[k + 1..];
      assert D[k..][1..] == D[k + 1..];
      var row := DAdd(d[k], d[k + 1], s);
      d[k] := row;
      assert d[k..] == [d[k]] + rest;
      assert d[..k] == D[..k];
      k := k - 1;
    }
  }

  method TaylorColumns(d: array<seq<UV>>, nv: nat, s: real)
    requires d.Length > 0 && HasShape(d[..], d.Length, nv)
    modifies d
    ensures d[..] == TaylorRows(old(d[..]), nv, s)
  {
    var n := d.Length;
    ghost var S := TaylorRows(d[..], nv, s);
    assert d[..0] + TaylorRows(d[0..], nv, s) == S by { assert d[0..] == d[..]; }
    for j := 0 to n - 1
      invariant HasShape(d[..], n, nv) && HasShape(d[j..], n - j, nv)
      invariant S == d[..j] + TaylorRows(d[j..], nv, s)
    {
      ghost var before := d[..];
      assert before[..j] == d[..j] && before[j..] == d[j..];
      DivideColumns(d, j, nv, s);
      assert d[..][..j] == d[..j] && d[..][j..] == d[j..] && d[..][..j + 1] == d[..j + 1] &&
        d[..][j + 1..] == d[j + 1..];
      ShapeFromParts(d[..], before, j, nv, s);
      TaylorRowsUnfold(before, d[..], j, nv, s);
    }
    assert d[n - 1..] == [d[n - 1]];
    assert d[..] == d[..n - 1] + [d[n - 1]];
  }

  lemma ShapeFromParts(after: Matrix, before: Matrix, j: nat, nv: nat, s: real)
    requires |before| == |after| && j < |after| - 1 && HasShape(before, |before|, nv)
    requires after[..j] == before[..j] && after[j..] == DivideRows(before[j..], nv, s)
    ensures HasShape(after, |after|, nv)
  {
    forall i | 0 <= i < |after| ensures |after[i]| == nv {
      if i < j { assert after[i] == after[..j][i] == before[..j][i]; } else { assert after[i] == after[j..][i - j]; }
    }
  }

  lemma TaylorRowsUnfold(before: Matrix, after: Matrix, j: nat, nv: nat, s: real)
    requires |before| == |after| && j < |after| - 1 && HasShape(before, |before|, nv) && HasShape(after, |after|, nv)
    requires after[..j] == before[..j] && after[j..] == DivideRows(before[j..], nv, s)
    ensures before[..j] + TaylorRows(before[j..], nv, s) == after[..j + 1] + TaylorRows(after[j + 1..], nv, s)
  {
    OneRowDivision(before[j..], after[j..], nv, s);
    assert after[j..][1..] == after[j + 1..];
    MoveOne(before[..j], after[j], TaylorRows(after[j + 1..], nv, s));
    assert after[..j + 1] == before[..j] + [after[j]];
  }

  lemma OneRowDivision(q: Matrix, r: Matrix, nv: nat, s: real)
    requires |q| > 1 && HasShape(q, |q|, nv) && r == DivideRows(q, nv, s)
    ensures TaylorRows(q, nv, s) == [r[0]] + TaylorRows(r[1..], nv, s)
  {
  }

  /** Moves every column from the argument range [-1, 1] to [a, b]. */
  method ColShft(a: real, b: real, d: array<seq<UV>>, nv: nat)
    requires a != b && d.Length > 0 && HasShape(d[..], d.Length, nv)
    modifies d
    ensures d[..] == ToRangeRows(a, b, old(d[..]), nv)
  {
    var cnst := 2.0 / (b - a);
    ScaleColumns(d, cnst);
    cnst := 0.5 * (a + b);
    TaylorColumns(d, nv, cnst);
  }

  // --- The series compiler

  /** Rewrites the coefficients of a Chebyshev series for the range a to b as those of a power series with the same
      values. Fails, leaving them alone, if there are no rows or no columns. */
  method Bch2Bps(a: UV, b: UV, c: array<seq<UV>>, nv: nat) returns (ok: bool)
    requires HasShape(c[..], c.Length, nv) && a.u != b.u && a.v != b.v
    modifies c
    ensures ok <==> c.Length >= 1 && nv >= 1
    ensures HasShape(c[..], c.Length, nv)
    ensures !ok ==> c[..] == old(c[..])
    ensures ok ==> forall x, y ::
      PowerValue2(c[..], nv, x, y) ==
      ChebyshevValue2(old(c[..]), nv, ScaledArgument(a.u, b.u, x), ScaledArgument(a.v, b.v, y))
  {
    var nu := c.Length;
    if nu < 1 || nv < 1 {
      return false;
    }
    ghost var C := c[..];
    var d := CompileRows(a, b, c, nv);
    ghost var D := d[..];
    Cols(d[..], c, nv);
    ColShft(a.u, b.u, c, nv);
    CompiledEverywhere(a, b, C, D, nv, c[..]);
    return true;
  }

  /** Converts and moves every row. */
  method CompileRows(a: UV, b: UV, c: array<seq<UV>>, nv: nat) returns (d: array<seq<UV>>)
    requires HasShape(c[..], c.Length, nv) && nv > 0 && a.v != b.v
    ensures fresh(d) && AreCompiledRows(a, b, c[..], nv, d[..])
  {
    hide ToRange, ToPower;
    d := new seq<UV>[c.Length];
    for i := 0 to c.Length
      invariant forall k {:trigger d[k]} :: 0 <= k < i ==> d[k] == ToRange(a.v, b.v, ToPower(c[k]))
      modifies d
    {
      assert |c[..][i]| == nv;
      d[i] := CompileRow(a, b, c[i]);
    }
  }

  method CompileRow(a: UV, b: UV, c: seq<UV>) returns (r: seq<UV>)
    requires c != [] && a.v != b.v
    ensures r == ToRange(a.v, b.v, ToPower(c))
  {
    var row := new UV[|c|];
    Rows(c, row);
    RowShft(a.v, b.v, row);
    r := row[..];
  }

  /** The rows of d are the power series of the rows of c. */
  ghost predicate AreCompiledRows(a: UV, b: UV, c: Matrix, nv: nat, d: Matrix)
    requires HasShape(c, |c|, nv) && nv > 0 && a.v != b.v
  {
    |d| == |c| && forall k {:trigger d[k]} :: 0 <= k < |c| ==> d[k] == ToRange(a.v, b.v, ToPower(c[k]))
  }

  lemma CompiledEverywhere(a: UV, b: UV, c: Matrix, d: Matrix, nv: nat, r: Matrix)
    requires |c| > 0 && nv > 0 && HasShape(c, |c|, nv) && HasShape(d, |c|, nv) && a.u != b.u && a.v != b.v
    requires AreCompiledRows(a, b, c, nv, d) && r == ToRangeRows(a.u, b.u, ToPowerRows(d, nv), nv)
    ensures forall x, y ::
      PowerValue2(r, nv, x, y) == ChebyshevValue2(c, nv, ScaledArgument(a.u, b.u, x), ScaledArgument(a.v, b.v, y))
  {
    forall x, y
      ensures PowerValue2(r, nv, x, y) ==
        ChebyshevValue2(c, nv, ScaledArgument(a.u, b.u, x), ScaledArgument(a.v, b.v, y))
    {
      CompiledValue(a, b, c, d, nv, x, y);
    }
  }

  lemma CompiledValue(a: UV, b: UV, c: Matrix, d: Matrix, nv: nat, x: real, y: real)
    requires |c| > 0 && nv > 0 && HasShape(c, |c|, nv) && HasShape(d, |c|, nv) && a.u != b.u && a.v != b.v
    requires forall k {:trigger d[k]} :: 0 <= k < |c| ==> d[k] == ToRange(a.v, b.v, ToPower(c[k]))
    ensures PowerValue2(ToRangeRows(a.u, b.u, ToPowerRows(d, nv), nv), nv, x, y)
         == ChebyshevValue2(c, nv, ScaledArgument(a.u, b.u, x), ScaledArgument(a.v, b.v, y))
  {
    var r := ToRangeRows(a.u, b.u, ToPowerRows(d, nv), nv);
    forall i | 0 <= i < |c| ensures PowerValue(d[i], y) == ChebyshevValue(c[i], ScaledArgument(a.v, b.v, y)) {
      ToRangeValue(a.v, b.v, ToPower(c[i]), y);
      ToPowerValue(c[i], ScaledArgument(a.v, b.v, y));
    }
    forall l | 0 <= l < nv
      ensures PowerValue(Column(r, l), x) == ChebyshevValue(Column(d, l), ScaledArgument(a.u, b.u, x))
    {
      ToRangeColumn(a.u, b.u, ToPowerRows(d, nv), nv, l);
      ToPowerColumn(d, nv, l);
      ToRangeValue(a.u, b.u, ToPower(Column(d, l)), x);
      ToPowerValue(Column(d, l), ScaledArgument(a.u, b.u, x));
    }
    RowsThenColumns(c, d, r, |c|, nv, x, y, ScaledArgument(a.u, b.u, x), ScaledArgument(a.v, b.v, y));
  }
}
