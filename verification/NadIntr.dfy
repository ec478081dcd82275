/** Grid shift tables: the shift at a point, by interpolation in the cell around it. */
module NadIntr {
  import opened Contraction
  import opened Interpolation
  import opened Wrappers

  /** A table of shifts: its lower left corner, the size of its cells, and limLam times limPhi entries by rows. */
  datatype Ctable = Ctable(ll: LP, del: LP, limLam: nat, limPhi: nat, cvs: seq<LP>) {
    /** There is a cell. */
    ghost predicate Valid() {
      del.lam > 0.0 && del.phi > 0.0 && limLam >= 2 && limPhi >= 2 && |cvs| == limLam * limPhi
    }
  }

  // --- The table as two surfaces

  lemma IndexInRange(i: nat, j: nat, n: nat, m: nat)
    requires i < n && j < m
    ensures 0 <= j * n + i < n * m
  {
    assert j * n <= (m - 1) * n;
  }

  function Entry(ct: Ctable, i: nat, j: nat): LP
    requires |ct.cvs| == ct.limLam * ct.limPhi && i < ct.limLam && j < ct.limPhi
  {
    IndexInRange(i, j, ct.limLam, ct.limPhi);
    ct.cvs[j * ct.limLam + i]
  }

  ghost function LamRow(ct: Ctable, j: nat): (r: seq<real>)
    requires ct.Valid() && j < ct.limPhi
    ensures |r| == ct.limLam && forall i {:trigger r[i]} :: 0 <= i < ct.limLam ==> r[i] == Entry(ct, i, j).lam
  {
    seq(ct.limLam, i requires 0 <= i < ct.limLam => Entry(ct, i, j).lam)
  }

  ghost function PhiRow(ct: Ctable, j: nat): (r: seq<real>)
    requires ct.Valid() && j < ct.limPhi
    ensures |r| == ct.limLam && forall i {:trigger r[i]} :: 0 <= i < ct.limLam ==> r[i] == Entry(ct, i, j).phi
  {
    seq(ct.limLam, i requires 0 <= i < ct.limLam => Entry(ct, i, j).phi)
  }

  ghost function LamRows(ct: Ctable): (m: seq<seq<real>>)
    requires ct.Valid()
    ensures IsGrid(m, ct.limLam) && |m| == ct.limPhi && forall j {:trigger m[j]} :: 0 <= j < |m| ==>
      m[j] == LamRow(ct, j)
  {
    seq(ct.limPhi, j requires 0 <= j < ct.limPhi => LamRow(ct, j))
  }

  ghost function PhiRows(ct: Ctable): (m: seq<seq<real>>)
    requires ct.Valid()
    ensures IsGrid(m, ct.limLam) && |m| == ct.limPhi && forall j {:trigger m[j]} :: 0 <= j < |m| ==>
      m[j] == PhiRow(ct, j)
  {
    seq(ct.limPhi, j requires 0 <= j < ct.limPhi => PhiRow(ct, j))
  }

  /** The nearest position on a line of n nodes. */
  function Clamp(p: real, n: nat): (q: real)
    requires n >= 2
    ensures 0.0 <= q <= (n - 1) as real
  {
    if p < 0.0 then 0.0 else if p > (n - 1) as real then (n - 1) as real else p
  }

  const EDGE := 0.00000000001

  /** Positions a hair's breadth outside count as on the edge. */
  predicate OnLine(p: real, n: nat)
    requires n >= 2
  {
    -EDGE < p < (n - 1) as real + EDGE
  }

  predicate Covers(ct: Ctable, t: LP)
    requires ct.limLam >= 2 && ct.limPhi >= 2 && ct.del.lam != 0.0 && ct.del.phi != 0.0
  {
    OnLine(t.lam / ct.del.lam, ct.limLam) && OnLine(t.phi / ct.del.phi, ct.limPhi)
  }

  /** p is not outside a line of n nodes that lie d apart by as much as the 10^11-th part of d. */
  predicate OnOrNear(p: real, d: real, n: nat) {
    -0.00000000001 * d < p && p - (n as real - 1.0) * d < 0.00000000001 * d
  }

  /** The table covers its rectangle and a little more on all four sides. */
  lemma CoversRectangle(ct: Ctable, t: LP)
    requires ct.Valid()
    ensures Covers(ct, t) <==> OnOrNear(t.lam, ct.del.lam, ct.limLam) && OnOrNear(t.phi, ct.del.phi, ct.limPhi)
  {
    OnScaledLine(t.lam, ct.del.lam, ct.limLam);
    OnScaledLine(t.phi, ct.del.phi, ct.limPhi);
  }

  lemma OnScaledLine(p: real, d: real, n: nat)
    requires d > 0.0 && n >= 2
    ensures OnLine(p / d, n) <==> OnOrNear(p, d, n)
  {
    var z := p / d;
    assert z * d == p;
    ScaledLess(-EDGE, z, d);
    ScaledLess(z, (n - 1) as real + EDGE, d);
  }

  lemma ScaledLess(x: real, y: real, d: real)
    requires d > 0.0
    ensures x < y <==> x * d < y * d
  {
    if x < y { assert (y - x) * d > 0.0; } else { assert (x - y) * d >= 0.0; }
  }

  /** x is the nearest position to p on a line of n nodes that lie d apart. */
  ghost predicate At(p: real, d: real, n: nat, x: real)
    requires n >= 2
  {
    forall z: real {:trigger Clamp(z, n)} :: d * z == p ==> x == Clamp(z, n)
  }

  lemma QuotientIsAt(p: real, d: real, n: nat)
    requires n >= 2 && d > 0.0
    ensures At(p, d, n, Clamp(p / d, n))
  {
    forall z: real {:trigger Clamp(z, n)} | d * z == p ensures z == p / d {
    }
  }

  /** x and y are the position of t in the table, in cells. */
  ghost predicate IsPosition(ct: Ctable, t: LP, x: real, y: real)
    requires ct.Valid()
  {
    && 0.0 <= x <= (ct.limLam - 1) as real && 0.0 <= y <= (ct.limPhi - 1) as real
    && At(t.lam, ct.del.lam, ct.limLam, x) && At(t.phi, ct.del.phi, ct.limPhi, y)
  }

  lemma PositionByQuotients(ct: Ctable, t: LP, x: real, y: real)
    requires ct.Valid()
    ensures IsPosition(ct, t, x, y) <==>
      x == Clamp(t.lam / ct.del.lam, ct.limLam) && y == Clamp(t.phi / ct.del.phi, ct.limPhi)
  {
    QuotientIsAt(t.lam, ct.del.lam, ct.limLam);
    QuotientIsAt(t.phi, ct.del.phi, ct.limPhi);
    if IsPosition(ct, t, x, y) {
      OnlyPosition(t.lam, ct.del.lam, ct.limLam, x);
      OnlyPosition(t.phi, ct.del.phi, ct.limPhi, y);
    }
  }

  lemma OnlyPosition(p: real, d: real, n: nat, x: real)
    requires n >= 2 && d > 0.0 && At(p, d, n, x)
    ensures x == Clamp(p / d, n)
  {
    var z := p / d;
    assert d * z == p;
  }

  ghost predicate IsShift(ct: Ctable, t: LP, v: LP)
    requires ct.Valid()
  {
    forall x, y {:trigger IsPosition(ct, t, x, y)} :: IsPosition(ct, t, x, y) ==>
      v == LP(Surface(LamRows(ct), ct.limLam, x, y), Surface(PhiRows(ct), ct.limLam, x, y))
  }

  /** The interpolated shift at t, relative to the lower left corner of the table. */
  ghost function Shift(ct: Ctable, t: LP): (v: LP)
    requires ct.Valid()
    ensures IsShift(ct, t, v)
  {
    ShiftExists(ct, t);
    var v :| IsShift(ct, t, v);
    v
  }

  lemma ShiftExists(ct: Ctable, t: LP)
    requires ct.Valid()
    ensures exists v :: IsShift(ct, t, v)
  {
    var x, y := Clamp(t.lam / ct.del.lam, ct.limLam), Clamp(t.phi / ct.del.phi, ct.limPhi);
    var v := LP(Surface(LamRows(ct), ct.limLam, x, y), Surface(PhiRows(ct), ct.limLam, x, y));
    forall x', y' {:trigger IsPosition(ct, t, x', y')} | IsPosition(ct, t, x', y') ensures x' == x && y' == y {
      PositionByQuotients(ct, t, x', y');
    }
    assert IsShift(ct, t, v);
  }

  // --- The computation

  /** Finds the cell of a position on a line of lim nodes, and how far into the cell it is. */
  method Locate(t: real, lim: nat) returns (cell: Option<(nat, real)>)
    requires lim >= 2
    ensures cell.Some? <==> OnLine(t, lim)
    ensures cell.Some? ==> cell.value.0 <= lim - 2 && 0.0 <= cell.value.1 <= 1.0
    ensures cell.Some? ==> cell.value.0 as real + cell.value.1 == Clamp(t, lim)
  {
    var indx := t.Floor;
    var frct := t - indx as real;
    if indx < 0 {
      if indx == -1 && frct > 0.99999999999 {
        indx := indx + 1;
        frct := 0.0;
      } else {
        return None;
      }
    } else if indx + 1 >= lim {
      if indx + 1 == lim && frct < EDGE {
        indx := indx - 1;
        frct := 1.0;
      } else {
        return None;
      }
    }
    cell := Some((indx, frct));
  }

  /** The shift at t, if the table covers it. */
  method Interpolate(t: LP, ct: Ctable) returns (val: Option<LP>)
    requires ct.Valid()
    ensures val == if Covers(ct, t) then Some(Shift(ct, t)) else None
  {
    var lam := Locate(t.lam / ct.del.lam, ct.limLam);
    if lam == None { return None; }
    var phi := Locate(t.phi / ct.del.phi, ct.limPhi);
    if phi == None { return None; }
    var i, f := lam.value.0, lam.value.1;
    var j, g := phi.value.0, phi.value.1;
    var v := WeightedMean(ct, i, j, f, g);
    ShiftByWeights(ct, t, i, j, f, g);
    val := Some(v);
  }

  /** The mean of the corners of the cell (i, j). */
  method WeightedMean(ct: Ctable, i: nat, j: nat, f: real, g: real) returns (val: LP)
    requires ct.Valid() && i <= ct.limLam - 2 && j <= ct.limPhi - 2
    ensures val == MeanOfCell(ct, i, j, f, g)
  {
    IndexInRange(i, j, ct.limLam, ct.limPhi);
    IndexInRange(i + 1, j, ct.limLam, ct.limPhi);
    IndexInRange(i, j + 1, ct.limLam, ct.limPhi);
    IndexInRange(i + 1, j + 1, ct.limLam, ct.limPhi);
    var index := j * ct.limLam + i;
    var f00 := ct.cvs[index];
    index := index + 1;
    var f10 := ct.cvs[index];
    index := index + ct.limLam;
    assert index == (j + 1) * ct.limLam + (i + 1);
    var f11 := ct.cvs[index];
    index := index - 1;
    var f01 := ct.cvs[index];
    var m11, m10 := f, f;
    var m00, m01 := 1.0 - f, 1.0 - f;
    m11 := m11 * g;
    m01 := m01 * g;
    var rest := 1.0 - g;
    m00 := m00 * rest;
    m10 := m10 * rest;
    val := LP(m00 * f00.lam + m10 * f10.lam + m01 * f01.lam + m11 * f11.lam,
              m00 * f00.phi + m10 * f10.phi + m01 * f01.phi + m11 * f11.phi);
  }

  ghost function MeanOfCell(ct: Ctable, i: nat, j: nat, f: real, g: real): LP
    requires ct.Valid() && i <= ct.limLam - 2 && j <= ct.limPhi - 2
  {
    var f00, f10, f01, f11 := Entry(ct, i, j), Entry(ct, i + 1, j), Entry(ct, i, j + 1), Entry(ct, i + 1, j + 1);
    LP(Mean(f, g, f00.lam, f10.lam, f01.lam, f11.lam), Mean(f, g, f00.phi, f10.phi, f01.phi, f11.phi))
  }

  lemma ShiftByWeights(ct: Ctable, t: LP, i: nat, j: nat, f: real, g: real)
    requires ct.Valid() && i <= ct.limLam - 2 && j <= ct.limPhi - 2 && 0.0 <= f <= 1.0 && 0.0 <= g <= 1.0
    requires i as real + f == Clamp(t.lam / ct.del.lam, ct.limLam) &&
      j as real + g == Clamp(t.phi / ct.del.phi, ct.limPhi)
    ensures MeanOfCell(ct, i, j, f, g) == Shift(ct, t)
  {
    var x, y := i as real + f, j as real + g;
    PositionByQuotients(ct, t, x, y);
    SurfaceByWeights(LamRows(ct), ct.limLam, x, y, i, j, f, g);
    SurfaceByWeights(PhiRows(ct), ct.limLam, x, y, i, j, f, g);
    CornersOfCell(ct, i, j);
  }

  lemma CornersOfCell(ct: Ctable, i: nat, j: nat)
    requires ct.Valid() && i <= ct.limLam - 2 && j <= ct.limPhi - 2
    ensures forall k, l {:trigger Entry(ct, k, l)} :: i <= k <= i + 1 && j <= l <= j + 1 ==>
      LamRows(ct)[l][k] == Entry(ct, k, l).lam && PhiRows(ct)[l][k] == Entry(ct, k, l).phi
  {
  }

  // --- What the shift is like

  /** At a node, the shift is the entry of the table. */
  lemma ShiftAtNode(ct: Ctable, t: LP, i: nat, j: nat)
    requires ct.Valid() && i < ct.limLam && j < ct.limPhi
    requires t.lam == i as real * ct.del.lam && t.phi == j as real * ct.del.phi
    ensures Covers(ct, t) && Shift(ct, t) == Entry(ct, i, j)
  {
    NodePosition(t.lam, i, ct.del.lam, ct.limLam);
    NodePosition(t.phi, j, ct.del.phi, ct.limPhi);
    PositionByQuotients(ct, t, i as real, j as real);
    SurfaceAtNode(LamRows(ct), ct.limLam, i, j);
    SurfaceAtNode(PhiRows(ct), ct.limLam, i, j);
    assert LamRows(ct)[j] == LamRow(ct, j) && PhiRows(ct)[j] == PhiRow(ct, j);
  }

  lemma NodePosition(t: real, i: nat, d: real, n: nat)
    requires d > 0.0 && n >= 2 && i < n && t == i as real * d
    ensures OnLine(t / d, n) && Clamp(t / d, n) == i as real
  {
    assert t / d == i as real;
  }

  /** The shift lies between the least and the greatest of the corners of the cell. */
  lemma ShiftInCell(ct: Ctable, t: LP, x: real, y: real, i: nat, j: nat, lo: LP, hi: LP)
    requires ct.Valid() && IsPosition(ct, t, x, y) && i <= ct.limLam - 2 && j <= ct.limPhi - 2
    requires i as real <= x <= (i + 1) as real && j as real <= y <= (j + 1) as real
    requires forall k, l {:trigger Entry(ct, k, l)} :: i <= k <= i + 1 && j <= l <= j + 1 ==>
      lo.lam <= Entry(ct, k, l).lam <= hi.lam && lo.phi <= Entry(ct, k, l).phi <= hi.phi
    ensures lo.lam <= Shift(ct, t).lam <= hi.lam && lo.phi <= Shift(ct, t).phi <= hi.phi
  {
    CornersOfCell(ct, i, j);
    assert forall k, l {:trigger LamRows(ct)[l][k]} {:trigger PhiRows(ct)[l][k]} ::
      i <= k <= i + 1 && j <= l <= j + 1 ==>
      LamRows(ct)[l][k] == Entry(ct, k, l).lam && PhiRows(ct)[l][k] == Entry(ct, k, l).phi;
    SurfaceInCell(LamRows(ct), ct.limLam, x, y, i, j, lo.lam, hi.lam);
    SurfaceInCell(PhiRows(ct), ct.limLam, x, y, i, j, lo.phi, hi.phi);
  }
}
