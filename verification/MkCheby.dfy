/** From a matrix of Chebyshev coefficients to a stored series: the choice of the cut, the counts of the rows and the
    repacking, in both modes. */
module MkCheby {
  import Bch2Bps
  import opened Bivevals
  import opened Chebyshev
  import opened RealSeries
  import opened Reals
  import opened SeriesMatrix
  import opened Truncation
  import opened Wrappers

  // --- Choosing the cut

  /** Adds what one row contributes to the sums of the coefficients below res. */
  method EvalRow(s: seq<UV>, res: real, resid: UV) returns (sum: UV)
    ensures sum == Add(resid, UV(Total(SmallParts(Us(s), res)), Total(SmallParts(Vs(s), res))))
  {
    sum := resid;
    ghost var p, q := SmallParts(Us(s), res), SmallParts(Vs(s), res);
    for j := 0 to |s|
      invariant sum.u + Total(p[j..]) == resid.u + Total(p) && sum.v + Total(q[j..]) == resid.v + Total(q)
    {
      assert p[j..][1..] == p[j + 1..] && q[j..][1..] == q[j + 1..];
      var ab := Fabs(s[j].u);
      if ab < res { sum := UV(sum.u + ab, sum.v); }
      ab := Fabs(s[j].v);
      if ab < res { sum := UV(sum.u, sum.v + ab); }
    }
  }

  /** The absolute sums of the coefficients below res. */
  method Eval(w: seq<seq<UV>>, res: real) returns (resid: UV)
    ensures resid == Residuals(w, res)
  {
    resid := ZERO;
    ghost var p, q := RowResiduals(Part(w, First), res), RowResiduals(Part(w, Second), res);
    for i := 0 to |w|
      invariant resid.u + Total(p[i..]) == Total(p) && resid.v + Total(q[i..]) == Total(q)
    {
      assert p[i..][1..] == p[i + 1..] && q[i..][1..] == q[i + 1..];
      resid := EvalRow(w[i], res, resid);
    }
  }

  function Halved(res: real, k: nat): real {
    if k == 0 then res else 0.5 * Halved(res, k - 1)
  }

  ghost predicate Fits(w: Matrix, cut: real, res: real) {
    Residuals(w, cut).u < res && Residuals(w, cut).v < res
  }

  const TRIES := 4

  /** The first try from number k on whose cut fits, or the number of tries if there is none. */
  ghost function FirstFit(w: Matrix, res: real, k: nat): (n: nat)
    requires k <= TRIES
    ensures k <= n <= TRIES && (n < TRIES ==> Fits(w, Halved(res, n), res))
    ensures forall j: nat {:trigger Halved(res, j)} :: k <= j < n ==> !Fits(w, Halved(res, j), res)
    decreases TRIES - k
  {
    if k == TRIES || Fits(w, Halved(res, k), res) then k else FirstFit(w, res, k + 1)
  }

  /** How many tries of the search for the cut fail. */
  ghost function Failures(w: Matrix, res: real): (n: nat)
    ensures n <= TRIES
  {
    FirstFit(w, res, 0)
  }

  /** The cut that is applied: after four failures it is halved once more than was measured. */
  ghost function FinalCut(w: Matrix, res: real): real {
    Halved(res, Failures(w, res))
  }

  /** The cut is the limit itself if that fits, and otherwise the greatest of its halves, quarters and eighths that
      fits; a sixteenth if none does. */
  lemma CutIsFirstThatFits(w: Matrix, res: real)
    ensures FinalCut(w, res) ==
      if Fits(w, res, res) then res
      else if Fits(w, 0.5 * res, res) then 0.5 * res
      else if Fits(w, 0.25 * res, res) then 0.25 * res
      else if Fits(w, 0.125 * res, res) then 0.125 * res
      else 0.0625 * res
  {
    hide Residuals;
    assert Halved(res, 0) == res && Halved(res, 1) == 0.5 * res && Halved(res, 2) == 0.25 * res;
    assert Halved(res, 3) == 0.125 * res && Halved(res, 4) == 0.0625 * res;
    var n := Failures(w, res);
    assert n < TRIES ==> Fits(w, Halved(res, n), res);
    assert n > 0 ==> !Fits(w, Halved(res, 0), res);
    assert n > 1 ==> !Fits(w, Halved(res, 1), res);
    assert n > 2 ==> !Fits(w, Halved(res, 2), res);
    assert n > 3 ==> !Fits(w, Halved(res, 3), res);
  }

  /** A series without small coefficients is kept as it is. */
  lemma NothingLost(w: Matrix, res: real)
    requires res > 0.0 && NothingSmall(w, res)
    ensures FinalCut(w, res) == res && CutMatrix(w, FinalCut(w, res)) == w
    ensures Reported(w, res) == ZERO
  {
    NothingCut(w, res);
    CutIsFirstThatFits(w, res);
    assert Halved(res, 0) == res;
  }

  /** What is reported: what the last try measured, with the sign of its first component reversed if that did not
      fit. */
  ghost function Reported(w: Matrix, res: real): UV {
    if Failures(w, res) < TRIES then Residuals(w, FinalCut(w, res))
    else var r := Residuals(w, Halved(res, TRIES - 1)); UV(-r.u, r.v)
  }

  /** Halves the cut until what it drops stays below res, in at most four tries. */
  method Analyse(w: seq<seq<UV>>, res: real) returns (cutres: real, resid: UV)
    ensures cutres == FinalCut(w, res) && resid == Reported(w, res)
  {
    cutres := res;
    resid := ZERO;
    var i := 4;
    while i != 0
      invariant 0 <= i <= TRIES && cutres == Halved(res, TRIES - i)
      invariant Failures(w, res) == FirstFit(w, res, TRIES - i)
      invariant i < TRIES ==> resid == Residuals(w, Halved(res, TRIES - i - 1))
    {
      resid := Eval(w, cutres);
      if resid.u < res && resid.v < res { break; }
      cutres := cutres * 0.5;
      i := i - 1;
    }
    if i <= 0 {
      resid := UV(-resid.u, resid.v);
    }
  }

  /** What was measured bounds what is cut, also when the last halving was not measured again. */
  lemma ResidBounds(w: Matrix, res: real)
    ensures Residuals(w, FinalCut(w, res)).u <= Fabs(Reported(w, res).u)
    ensures Residuals(w, FinalCut(w, res)).v <= Fabs(Reported(w, res).v)
  {
    hide Residual;
    var n := Failures(w, res);
    var cut := Halved(res, if n < TRIES then n else TRIES - 1);
    ResidualMonotone(Part(w, First), cut);
    ResidualMonotone(Part(w, Second), cut);
  }

  /** The search has succeeded exactly if both reported components lie below res and the first is not negative; its sign
      alone does not tell, for nothing may have been measured in the first component. */
  lemma SuccessIsReported(w: Matrix, res: real)
    ensures Failures(w, res) < TRIES <==> 0.0 <= Reported(w, res).u < res && Reported(w, res).v < res
    ensures Reported(w, res).u < 0.0 <==> Failures(w, res) == TRIES && Residuals(w, Halved(res, TRIES - 1)).u > 0.0
  {
    hide Residual;
    var n := Failures(w, res);
    var cut := Halved(res, if n < TRIES then n else TRIES - 1);
    ResidualMonotone(Part(w, First), cut);
    ResidualMonotone(Part(w, Second), cut);
    assert n == TRIES ==> !Fits(w, Halved(res, TRIES - 1), res);
  }

  /** A matrix on which the search fails without the sign saying so: 23 coefficients of 0.05, all of them second
      components, with the limit 1. */
  lemma SilentFailure(w: Matrix)
    requires w == [Repeat(UV(0.0, 0.05), 23)]
    ensures Failures(w, 1.0) == TRIES && Reported(w, 1.0).u == 0.0
  {
    assert Halved(1.0, 0) == 1.0 && Halved(1.0, 1) == 0.5 && Halved(1.0, 2) == 0.25 && Halved(1.0, 3) == 0.125;
    forall k: nat | k < TRIES ensures Residuals(w, Halved(1.0, k)) == UV(0.0, 1.15) {
      SecondsOnly(w, Halved(1.0, k));
    }
  }

  lemma SecondsOnly(w: Matrix, cut: real)
    requires w == [Repeat(UV(0.0, 0.05), 23)] && cut > 0.05
    ensures Residuals(w, cut) == UV(0.0, 1.15)
  {
    var row := Repeat(UV(0.0, 0.05), 23);
    TotalOfEqual(SmallParts(Us(row), cut), 0.0);
    TotalOfEqual(SmallParts(Vs(row), cut), 0.05);
    OneRow(row, cut);
  }

  lemma OneRow(row: seq<UV>, cut: real)
    ensures Residuals([row], cut) == UV(Total(SmallParts(Us(row), cut)), Total(SmallParts(Vs(row), cut)))
  {
    assert forall x: real :: Total([x]) == x by {
      forall x: real ensures Total([x]) == x { assert [x][1..] == []; }
    }
    var p, q := RowResiduals(Part([row], First), cut), RowResiduals(Part([row], Second), cut);
    assert Part([row], First)[0] == Us(row) && Part([row], Second)[0] == Vs(row);
    assert p == [Total(SmallParts(Us(row), cut))] && q == [Total(SmallParts(Vs(row), cut))];
  }

  function Repeat(a: UV, n: nat): (r: seq<UV>)
    ensures |r| == n && forall k {:trigger r[k]} :: 0 <= k < n ==> r[k] == a
  {
    seq(n, _ => a)
  }

  lemma {:induction false} TotalOfEqual(r: seq<real>, x: real)
    requires forall k {:trigger r[k]} :: 0 <= k < |r| ==> r[k] == x
    ensures Total(r) == |r| as real * x
  {
    if r != [] { TotalOfEqual(r[1..], x); }
  }

  // --- Cutting and counting

  /** When a coefficient does not count: below the cut, or, after the conversion to powers, zero. */
  datatype Rule = Below(cut: real) | IfZero {
    predicate Drops(c: real) {
      if Below? then Fabs(c) < cut else c == 0.0
    }
  }

  /** n is the least number of leading coefficients that leaves out none that counts. */
  ghost predicate IsLength(rule: Rule, c: seq<real>, n: nat) {
    && n <= |c|
    && (forall k {:trigger c[k]} :: n <= k < |c| ==> rule.Drops(c[k]))
    && (n > 0 ==> !rule.Drops(c[n - 1]))
  }

  /** counts are the lengths of the first rows of m. */
  ghost predicate AreLengths(rule: Rule, m: seq<seq<real>>, counts: seq<nat>) {
    |counts| <= |m| && forall i {:trigger counts[i]} :: 0 <= i < |counts| ==> IsLength(rule, m[i], counts[i])
  }

  /** n is the least number of leading rows that leaves out none that is not empty. */
  ghost predicate IsHeight(counts: seq<nat>, n: nat) {
    && n <= |counts|
    && (forall i {:trigger counts[i]} :: n <= i < |counts| ==> counts[i] == 0)
    && (n > 0 ==> counts[n - 1] > 0)
  }

  /** counts are the lengths and n the height of the first rows of m. */
  ghost predicate Tallies(rule: Rule, m: seq<seq<real>>, counts: seq<nat>, n: nat) {
    AreLengths(rule, m, counts) && IsHeight(counts, n)
  }

  lemma TallyNext(rule: Rule, m: seq<seq<real>>, counts: seq<nat>, n: nat, next: nat)
    requires Tallies(rule, m, counts, n) && |counts| < |m| && IsLength(rule, m[|counts|], next)
    ensures Tallies(rule, m, counts + [next], if next != 0 then |counts| + 1 else n)
  {
  }

  /** Clears the coefficients of a row below the cut and finds the lengths of what is left. */
  method CutOff(s: seq<UV>, cut: real) returns (r: seq<UV>, nu: nat, nv: nat)
    ensures r == CutRow(s, cut)
    ensures IsLength(Below(cut), Us(s), nu) && IsLength(Below(cut), Vs(s), nv)
  {
    r, nu, nv := s, 0, 0;
    for i := 0 to |s|
      invariant |r| == |s| && nu <= i && nv <= i
      invariant forall k {:trigger r[k]} :: 0 <= k < |s| ==> r[k] == if k < i then CutPair(s[k], cut) else s[k]
      invariant IsLength(Below(cut), Us(s)[..i], nu) && IsLength(Below(cut), Vs(s)[..i], nv)
    {
      if Fabs(s[i].u) < cut { r := r[i := UV(0.0, r[i].v)]; } else { nu := i + 1; }
      if Fabs(s[i].v) < cut { r := r[i := UV(r[i].u, 0.0)]; } else { nv := i + 1; }
      assert r[i] == CutPair(s[i], cut);
    }
    assert Us(s)[..|s|] == Us(s) && Vs(s)[..|s|] == Vs(s);
  }

  /** Finds the lengths of a row without its trailing zeros. */
  method Measure(s: seq<UV>) returns (nu: nat, nv: nat)
    ensures IsLength(IfZero, Us(s), nu) && IsLength(IfZero, Vs(s), nv)
  {
    nu, nv := 0, 0;
    for i := 0 to |s|
      invariant nu <= i && nv <= i
      invariant IsLength(IfZero, Us(s)[..i], nu) && IsLength(IfZero, Vs(s)[..i], nv)
    {
      if s[i].u != 0.0 { nu := i + 1; }
      if s[i].v != 0.0 { nv := i + 1; }
    }
    assert Us(s)[..|s|] == Us(s) && Vs(s)[..|s|] == Vs(s);
  }

  /** Cuts all rows and finds their lengths and the heights of both components. */
  method CutRows(w: array<seq<UV>>, cut: real) returns (ncu: seq<nat>, ncv: seq<nat>, nru: nat, nrv: nat)
    modifies w
    ensures w[..] == CutMatrix(old(w[..]), cut) && |ncu| == |ncv| == w.Length
    ensures Tallies(Below(cut), Part(old(w[..]), First), ncu, nru)
    ensures Tallies(Below(cut), Part(old(w[..]), Second), ncv, nrv)
  {
    ghost var us, vs := Part(w[..], First), Part(w[..], Second);
    ncu, ncv, nru, nrv := CutLoop(w, cut, w[..], CutMatrix(w[..], cut), us, vs);
  }

  method CutLoop(w: array<seq<UV>>, cut: real, ghost W: Matrix, ghost next: Matrix,
                 ghost us: seq<seq<real>>, ghost vs: seq<seq<real>>)
    returns (ncu: seq<nat>, ncv: seq<nat>, nru: nat, nrv: nat)
    requires w[..] == W && |next| == |us| == |vs| == w.Length
    requires forall i {:trigger next[i]} :: 0 <= i < w.Length ==> next[i] == CutRow(W[i], cut)
    requires forall i {:trigger us[i]} :: 0 <= i < w.Length ==> us[i] == Us(W[i])
    requires forall i {:trigger vs[i]} :: 0 <= i < w.Length ==> vs[i] == Vs(W[i])
    modifies w
    ensures w[..] == next && |ncu| == |ncv| == w.Length
    ensures Tallies(Below(cut), us, ncu, nru) && Tallies(Below(cut), vs, ncv, nrv)
  {
    ncu, ncv, nru, nrv := [], [], 0, 0;
    for j := 0 to w.Length
      invariant w[..j] == next[..j] && w[j..] == W[j..]
      invariant |ncu| == |ncv| == j
      invariant Tallies(Below(cut), us, ncu, nru) && Tallies(Below(cut), vs, ncv, nrv)
    {
      assert w[j] == w[j..][0] == W[j];
      var nu, nv := CutAt(w, j, cut);
      TallyNext(Below(cut), us, ncu, nru, nu);
      TallyNext(Below(cut), vs, ncv, nrv, nv);
      ncu, ncv := ncu + [nu], ncv + [nv];
      if nu != 0 { nru := j + 1; }
      if nv != 0 { nrv := j + 1; }
      assert next[..j + 1] == next[..j] + [next[j]];
    }
  }

  /** Cuts row j. */
  method CutAt(w: array<seq<UV>>, j: nat, cut: real) returns (nu: nat, nv: nat)
    requires j < w.Length
    modifies w
    ensures w[..j + 1] == old(w[..j]) + [CutRow(old(w[j]), cut)] && w[j + 1..] == old(w[j..])[1..]
    ensures IsLength(Below(cut), Us(old(w[j])), nu) && IsLength(Below(cut), Vs(old(w[j])), nv)
  {
    var row;
    row, nu, nv := CutOff(w[j], cut);
    w[j] := row;
  }

  /** Finds the lengths of all rows without their trailing zeros, and the heights. */
  method MeasureRows(w: seq<seq<UV>>) returns (ncu: seq<nat>, ncv: seq<nat>, nru: nat, nrv: nat)
    ensures |ncu| == |ncv| == |w|
    ensures Tallies(IfZero, Part(w, First), ncu, nru) && Tallies(IfZero, Part(w, Second), ncv, nrv)
  {
    ghost var us, vs := Part(w, First), Part(w, Second);
    ncu, ncv, nru, nrv := [], [], 0, 0;
    for j := 0 to |w|
      invariant |ncu| == |ncv| == j
      invariant Tallies(IfZero, us, ncu, nru) && Tallies(IfZero, vs, ncv, nrv)
    {
      var nu, nv := Measure(w[j]);
      TallyNext(IfZero, us, ncu, nru, nu);
      TallyNext(IfZero, vs, ncv, nrv, nv);
      ncu, ncv := ncu + [nu], ncv + [nv];
      if nu != 0 { nru := j + 1; }
      if nv != 0 { nrv := j + 1; }
    }
  }

  // --- Repacking

  /** Stores the first n rows of one component at their lengths. */
  method Store(w: seq<seq<UV>>, comp: Component, n: nat, counts: seq<nat>) returns (rows: seq<seq<real>>)
    requires n <= |w| == |counts| && forall i {:trigger counts[i]} :: 0 <= i < |w| ==> counts[i] <= |w[i]|
    ensures |rows| == n && forall i {:trigger rows[i]} :: 0 <= i < n ==> rows[i] == Part(w, comp)[i][..counts[i]]
  {
    rows := [];
    for i := 0 to n
      invariant |rows| == i
      invariant forall k {:trigger rows[k]} :: 0 <= k < i ==> rows[k] == Part(w, comp)[k][..counts[k]]
    {
      var p: seq<real> := [];
      assert counts[i] <= |w[i]|;
      for j := 0 to counts[i]
        invariant p == Part(w, comp)[i][..j]
      {
        p := p + [if comp.First? then w[i][j].u else w[i][j].v];
      }
      rows := rows + [p];
    }
  }

  /** What is stored is the matrix up to zeros, if all that was left out is zero in it. */
  lemma StoredTrims(m: seq<seq<real>>, rows: seq<seq<real>>, counts: seq<nat>, n: nat)
    requires |counts| == |m| && IsHeight(counts, n) && |rows| == n
    requires forall i {:trigger counts[i]} :: 0 <= i < |m| ==> counts[i] <= |m[i]| && ZeroFrom(m[i], counts[i])
    requires forall i {:trigger rows[i]} :: 0 <= i < n ==> rows[i] == m[i][..counts[i]]
    ensures Trims(rows, m)
  {
    forall i {:trigger m[i]} | 0 <= i < n ensures rows[i] <= m[i] && ZeroFrom(m[i], |rows[i]|) {
      assert counts[i] <= |m[i]| && ZeroFrom(m[i], counts[i]);
      assert rows[i] == m[i][..counts[i]];
    }
    forall i {:trigger m[i]} | n <= i < |m| ensures ZeroFrom(m[i], 0) {
      assert counts[i] == 0;
    }
  }

  /** No stored row ends with a coefficient that does not count, and the last one is not empty. */
  ghost predicate Compact(rule: Rule, rows: seq<seq<real>>) {
    && (rows != [] ==> rows[|rows| - 1] != [])
    && forall i {:trigger rows[i]} :: 0 <= i < |rows| && rows[i] != [] ==> !rule.Drops(rows[i][|rows[i]| - 1])
  }

  /** Each count ends with a coefficient that counts. */
  ghost predicate CountsEnd(rule: Rule, m: seq<seq<real>>, counts: seq<nat>) {
    |counts| == |m| && forall i {:trigger counts[i]} :: 0 <= i < |m| && counts[i] > 0 ==>
      counts[i] <= |m[i]| && !rule.Drops(m[i][counts[i] - 1])
  }

  lemma StoredCompact(rule: Rule, m: seq<seq<real>>, rows: seq<seq<real>>, counts: seq<nat>, n: nat)
    requires IsHeight(counts, n) && |rows| == n && CountsEnd(rule, m, counts)
    requires forall i {:trigger counts[i]} :: 0 <= i < |m| ==> counts[i] <= |m[i]|
    requires forall i {:trigger rows[i]} :: 0 <= i < n ==> rows[i] == m[i][..counts[i]]
    ensures Compact(rule, rows)
  {
    forall i {:trigger rows[i]} | 0 <= i < n && rows[i] != [] ensures !rule.Drops(rows[i][|rows[i]| - 1]) {
      assert counts[i] > 0 && rows[i][|rows[i]| - 1] == m[i][counts[i] - 1];
    }
    if n > 0 { assert rows[n - 1] == m[n - 1][..counts[n - 1]]; }
  }

  /** What counts is not changed by the cut. */
  lemma CountsEndAfterCut(m: seq<seq<real>>, c: seq<seq<real>>, cut: real, counts: seq<nat>)
    requires IsCut(m, c, cut) && AreLengths(Below(cut), m, counts) && |counts| == |m|
    ensures CountsEnd(Below(cut), c, counts)
  {
    forall i {:trigger counts[i]} | 0 <= i < |c| && counts[i] > 0
      ensures counts[i] <= |c[i]| && !Below(cut).Drops(c[i][counts[i] - 1])
    {
      assert IsLength(Below(cut), m[i], counts[i]);
      assert c[i][counts[i] - 1] == m[i][counts[i] - 1];
    }
  }

  /** Lengths found on the original rows fit the rows after the cut. */
  lemma LengthsAfterCut(m: seq<seq<real>>, c: seq<seq<real>>, cut: real, counts: seq<nat>)
    requires IsCut(m, c, cut) && AreLengths(Below(cut), m, counts) && |counts| == |m|
    ensures forall i {:trigger counts[i]} :: 0 <= i < |c| ==> counts[i] <= |c[i]| && ZeroFrom(c[i], counts[i])
  {
    forall i {:trigger counts[i]} | 0 <= i < |c| ensures counts[i] <= |c[i]| && ZeroFrom(c[i], counts[i]) {
      assert IsLength(Below(cut), m[i], counts[i]);
      forall k | counts[i] <= k < |c[i]| ensures c[i][k] == 0.0 {
        assert Below(cut).Drops(m[i][k]);
      }
    }
  }

  ghost predicate AllDropped(rule: Rule, m: seq<seq<real>>) {
    forall i, k {:trigger m[i][k]} :: 0 <= i < |m| && 0 <= k < |m[i]| ==> rule.Drops(m[i][k])
  }

  /** There is no row left exactly if no coefficient counts. */
  lemma NoRowLeft(rule: Rule, m: seq<seq<real>>, counts: seq<nat>, n: nat)
    requires Tallies(rule, m, counts, n) && |counts| == |m|
    ensures n == 0 <==> AllDropped(rule, m)
  {
    if n > 0 {
      assert IsLength(rule, m[n - 1], counts[n - 1]);
      assert !rule.Drops(m[n - 1][counts[n - 1] - 1]);
    } else {
      forall i, k | 0 <= i < |m| && 0 <= k < |m[i]| ensures rule.Drops(m[i][k]) {
        assert counts[i] == 0 && IsLength(rule, m[i], counts[i]);
      }
    }
  }

  lemma {:induction false} HalvedPositive(res: real, k: nat)
    requires res > 0.0
    ensures Halved(res, k) > 0.0
  {
    if k > 0 { HalvedPositive(res, k - 1); }
  }

  /** Nothing is left of a matrix of zeros. */
  lemma NothingLeft(w: Matrix, res: real)
    requires res > 0.0 && forall i, j {:trigger w[i][j]} :: 0 <= i < |w| && 0 <= j < |w[i]| ==> w[i][j] == ZERO
    ensures AllDropped(Below(FinalCut(w, res)), Part(w, First)) && AllDropped(Below(FinalCut(w, res)), Part(w, Second))
  {
    HalvedPositive(res, Failures(w, res));
    forall i, j | 0 <= i < |w| && 0 <= j < |w[i]| ensures Part(w, First)[i][j] == 0.0 && Part(w, Second)[i][j] == 0.0 {
      assert w[i][j] == ZERO;
    }
  }

  // --- The series

  /** The arguments of a Chebyshev series of the range a to b. */
  function RangeArgument(a: UV, b: UV, p: UV): UV
    requires a.u != b.u && a.v != b.v
  {
    UV(ScaledArgument(a.u, b.u, p.u), ScaledArgument(a.v, b.v, p.v))
  }

  ghost function SeriesAt(c: Matrix, nv: nat, w: UV): UV
    requires HasShape(c, |c|, nv)
  {
    ChebyshevValue2(c, nv, w.u, w.v)
  }

  /** t has the values of the Chebyshev series c of the range a to b. */
  ghost predicate HasValuesOf(t: Tseries, a: UV, b: UV, c: Matrix, nv: nat)
    requires a.u != b.u && a.v != b.v
  {
    HasShape(c, |c|, nv) && forall p: UV {:trigger SeriesValue(t, p)} ::
      SeriesValue(t, p) == SeriesAt(c, nv, RangeArgument(a, b, p))
  }

  /** p lies in the rectangle between a and b. */
  predicate InRectangle(a: UV, b: UV, p: UV) {
    Between(a.u, b.u, p.u) && Between(a.v, b.v, p.v)
  }

  /** Within the range, the values of t differ from those of c by at most e. */
  ghost predicate WithinError(t: Tseries, a: UV, b: UV, c: Matrix, nv: nat, e: UV)
    requires a.u != b.u && a.v != b.v
  {
    HasShape(c, |c|, nv) && forall p: UV {:trigger SeriesValue(t, p)} :: InRectangle(a, b, p) ==>
      Close(SeriesValue(t, p), SeriesAt(c, nv, RangeArgument(a, b, p)), e)
  }

  ghost predicate Close(p: UV, q: UV, e: UV) {
    Fabs(p.u - q.u) <= e.u && Fabs(p.v - q.v) <= e.v
  }

  lemma CutShape(w: Matrix, nv: nat, cut: real)
    requires HasShape(w, |w|, nv)
    ensures HasShape(CutMatrix(w, cut), |w|, nv)
  {
  }

  /** The error of the series is bounded by what was measured. */
  lemma ErrorBound(t: Tseries, a: UV, b: UV, w: Matrix, nv: nat, cut: real, e: UV)
    requires a.u != b.u && a.v != b.v && HasShape(w, |w|, nv) && HasValuesOf(t, a, b, CutMatrix(w, cut), nv)
    requires Residuals(w, cut).u <= e.u && Residuals(w, cut).v <= e.v
    ensures WithinError(t, a, b, w, nv, e)
  {
    var c := CutMatrix(w, cut);
    forall p: UV {:trigger SeriesValue(t, p)} | InRectangle(a, b, p)
      ensures Close(SeriesValue(t, p), SeriesAt(w, nv, RangeArgument(a, b, p)), e)
    {
      var z := RangeArgument(a, b, p);
      ScaledRange(a.u, b.u, p.u, z.u);
      ScaledRange(a.v, b.v, p.v, z.v);
      CutClose(w, nv, cut, z, e);
    }
  }

  lemma CutClose(w: Matrix, nv: nat, cut: real, z: UV, e: UV)
    requires HasShape(w, |w|, nv) && HasShape(CutMatrix(w, cut), |w|, nv) && Fabs(z.u) <= 1.0 && Fabs(z.v) <= 1.0
    requires Residuals(w, cut).u <= e.u && Residuals(w, cut).v <= e.v
    ensures Close(SeriesAt(CutMatrix(w, cut), nv, z), SeriesAt(w, nv, z), e)
  {
    hide CutMatrix, Residual, IsCut, HasShape;
    var c := CutMatrix(w, cut);
    PartsAreCut(w, cut, First);
    PartsAreCut(w, cut, Second);
    ValueByComponents(w, nv, z.u, z.v);
    ValueByComponents(c, nv, z.u, z.v);
    CutError(Part(w, First), Part(c, First), cut, z.u, z.v);
    CutError(Part(w, Second), Part(c, Second), cut, z.u, z.v);
  }

  /** The stored Chebyshev series of the matrix c. */
  method PackChebyshev(a: UV, b: UV, c: seq<seq<UV>>, nv: nat, ncu: seq<nat>, ncv: seq<nat>, nru: nat, nrv: nat,
                       ghost rule: Rule)
    returns (t: Tseries)
    requires CountsEnd(rule, Part(c, First), ncu) && CountsEnd(rule, Part(c, Second), ncv)
    ensures Compact(rule, t.cu) && Compact(rule, t.cv)
    requires a.u != b.u && a.v != b.v && HasShape(c, |c|, nv) && |ncu| == |ncv| == |c|
    requires IsHeight(ncu, nru) && forall i {:trigger ncu[i]} :: 0 <= i < |c| ==>
      ncu[i] <= |c[i]| && ZeroFrom(Part(c, First)[i], ncu[i])
    requires IsHeight(ncv, nrv) && forall i {:trigger ncv[i]} :: 0 <= i < |c| ==>
      ncv[i] <= |c[i]| && ZeroFrom(Part(c, Second)[i], ncv[i])
    ensures HasValuesOf(t, a, b, c, nv) && ForRange(t, a, b) && t.Mu() == nru - 1 && t.Mv() == nrv - 1
  {
    var cu := Store(c, First, nru, ncu);
    var cv := Store(c, Second, nrv, ncv);
    t := Tseries(UV(a.u + b.u, a.v + b.v), UV(1.0 / (b.u - a.u), 1.0 / (b.v - a.v)), cu, cv, false);
    StoredTrims(Part(c, First), cu, ncu, nru);
    StoredTrims(Part(c, Second), cv, ncv, nrv);
    StoredCompact(rule, Part(c, First), cu, ncu, nru);
    StoredCompact(rule, Part(c, Second), cv, ncv, nrv);
    forall p: UV {:trigger SeriesValue(t, p)} ensures SeriesValue(t, p) == SeriesAt(c, nv, RangeArgument(a, b, p)) {
      var z := RangeArgument(a, b, p);
      assert Scale(t, p) == z;
      ValueByComponents(c, nv, z.u, z.v);
      TrimmedValue(cu, Part(c, First), z.u, z.v);
      TrimmedValue(cv, Part(c, Second), z.u, z.v);
    }
  }

  /** The stored power series of the matrix c, which has the values of the Chebyshev series cheb. */
  method PackPower(a: UV, b: UV, c: seq<seq<UV>>, nv: nat, ghost cheb: Matrix) returns (t: Tseries)
    requires a.u != b.u && a.v != b.v && HasShape(c, |c|, nv) && HasShape(cheb, |cheb|, nv)
    requires forall x, y :: PowerValue2(c, nv, x, y) ==
                            ChebyshevValue2(cheb, nv, ScaledArgument(a.u, b.u, x), ScaledArgument(a.v, b.v, y))
    ensures HasValuesOf(t, a, b, cheb, nv) && t.power && t.a == a && t.b == b
    ensures Compact(IfZero, t.cu) && Compact(IfZero, t.cv)
  {
    var ncu, ncv, nru, nrv := MeasureRows(c);
    LengthsFit(Part(c, First), ncu);
    LengthsFit(Part(c, Second), ncv);
    var cu := Store(c, First, nru, ncu);
    var cv := Store(c, Second, nrv, ncv);
    t := Tseries(a, b, cu, cv, true);
    StoredTrims(Part(c, First), cu, ncu, nru);
    StoredTrims(Part(c, Second), cv, ncv, nrv);
    StoredCompact(IfZero, Part(c, First), cu, ncu, nru);
    StoredCompact(IfZero, Part(c, Second), cv, ncv, nrv);
    forall p: UV {:trigger SeriesValue(t, p)} ensures SeriesValue(t, p) == SeriesAt(cheb, nv, RangeArgument(a, b, p)) {
      ValueByComponents(c, nv, p.u, p.v);
      TrimmedValue(cu, Part(c, First), p.u, p.v);
      TrimmedValue(cv, Part(c, Second), p.u, p.v);
      assert PowerValue2(c, nv, p.u, p.v) == SeriesValue(t, p);
    }
  }

  lemma LengthsFit(m: seq<seq<real>>, counts: seq<nat>)
    requires AreLengths(IfZero, m, counts) && |counts| == |m|
    ensures forall i {:trigger counts[i]} :: 0 <= i < |m| ==> counts[i] <= |m[i]| && ZeroFrom(m[i], counts[i])
    ensures CountsEnd(IfZero, m, counts)
  {
    forall i {:trigger counts[i]} | 0 <= i < |m| && counts[i] > 0
      ensures counts[i] <= |m[i]| && !IfZero.Drops(m[i][counts[i] - 1])
    {
      assert IsLength(IfZero, m[i], counts[i]);
    }
    forall i {:trigger counts[i]} | 0 <= i < |m| ensures counts[i] <= |m[i]| && ZeroFrom(m[i], counts[i]) {
      assert IsLength(IfZero, m[i], counts[i]);
      forall k | counts[i] <= k < |m[i]| ensures m[i][k] == 0.0 {
        assert IfZero.Drops(m[i][k]);
      }
    }
  }

  /** Approximates the Chebyshev series with the coefficients w for the range a to b by a stored series of either
      kind. In power mode there must be a coefficient. */
  method MkCheby(a: UV, b: UV, res: real, w: array<seq<UV>>, nv: nat, power: bool)
    returns (t: Option<Tseries>, resid: UV)
    requires HasShape(w[..], w.Length, nv) && a.u != b.u && a.v != b.v
    modifies w
    ensures resid == Reported(old(w[..]), res)
    ensures Failures(old(w[..]), res) < TRIES <==> 0.0 <= resid.u < res && resid.v < res
    ensures t.None? <==> power && (w.Length < 1 || nv < 1)
    ensures t.Some? ==> t.value.power == power && (power ==> t.value.a == a && t.value.b == b)
    ensures t.Some? ==> HasValuesOf(t.value, a, b, CutMatrix(old(w[..]), FinalCut(old(w[..]), res)), nv)
    ensures t.Some? && Fits(old(w[..]), res, res) ==> HasValuesOf(t.value, a, b, CutMatrix(old(w[..]), res), nv)
    ensures t.Some? ==> WithinError(t.value, a, b, old(w[..]), nv, UV(Fabs(resid.u), Fabs(resid.v)))
    ensures t.Some? ==> var rule := if power then IfZero else Below(FinalCut(old(w[..]), res));
      Compact(rule, t.value.cu) && Compact(rule, t.value.cv)
    ensures t.Some? && !power ==>
      && (t.value.Mu() < 0 <==> AllDropped(Below(FinalCut(old(w[..]), res)), Part(old(w[..]), First)))
      && (t.value.Mv() < 0 <==> AllDropped(Below(FinalCut(old(w[..]), res)), Part(old(w[..]), Second)))
      && ForRange(t.value, a, b)
  {
    hide FinalCut, Reported, Failures, Residuals, Compact, CountsEnd, AllDropped, HasValuesOf, WithinError,
      Fits, ForRange;
    ghost var W := w[..];
    var cutres;
    cutres, resid := Analyse(w[..], res);
    ResidBounds(W, res);
    SuccessIsReported(W, res);
    CutIsFirstThatFits(W, res);
    var ncu, ncv, nru, nrv := CutRows(w, cutres);
    CutShape(W, nv, cutres);
    if power {
      var ok := Bch2Bps.Bch2Bps(a, b, w, nv);
      if !ok { return None, resid; }
      var series := PackPower(a, b, w[..], nv, CutMatrix(W, cutres));
      ErrorBound(series, a, b, W, nv, cutres, UV(Fabs(resid.u), Fabs(resid.v)));
      t := Some(series);
    } else {
      CountsAfterCut(W, cutres, First, ncu, nru);
      CountsAfterCut(W, cutres, Second, ncv, nrv);
      var series := PackChebyshev(a, b, w[..], nv, ncu, ncv, nru, nrv, Below(cutres));
      ErrorBound(series, a, b, W, nv, cutres, UV(Fabs(resid.u), Fabs(resid.v)));
      t := Some(series);
    }
  }

  lemma CountsAfterCut(w: Matrix, cut: real, comp: Component, counts: seq<nat>, n: nat)
    requires Tallies(Below(cut), Part(w, comp), counts, n) && |counts| == |w|
    ensures var c := CutMatrix(w, cut);
      forall i {:trigger counts[i]} :: 0 <= i < |c| ==> counts[i] <= |c[i]| && ZeroFrom(Part(c, comp)[i], counts[i])
    ensures CountsEnd(Below(cut), Part(CutMatrix(w, cut), comp), counts)
    ensures n == 0 <==> AllDropped(Below(cut), Part(w, comp))
  {
    CountsEndOfPart(w, cut, comp, counts);
    PartsAreCut(w, cut, comp);
    LengthsAfterCut(Part(w, comp), Part(CutMatrix(w, cut), comp), cut, counts);
    NoRowLeft(Below(cut), Part(w, comp), counts, n);
  }

  lemma CountsEndOfPart(w: Matrix, cut: real, comp: Component, counts: seq<nat>)
    requires AreLengths(Below(cut), Part(w, comp), counts) && |counts| == |w|
    ensures CountsEnd(Below(cut), Part(CutMatrix(w, cut), comp), counts)
  {
    PartsAreCut(w, cut, comp);
    CountsEndAfterCut(Part(w, comp), Part(CutMatrix(w, cut), comp), cut, counts);
  }
}
