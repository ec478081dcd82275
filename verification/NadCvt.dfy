/** Applying a grid shift to a point, and its iterative inverse. */
module NadCvt {
  import opened Contraction
  import opened Interpolation
  import opened NadIntr
  import opened Reals
  import opened Wrappers

  const SPI := 3.14159265359
  const TWOPI := 6.2831853071795864769
  const ONEPI := 3.14159265358979323846
  const PI := 3.14159265358979323846

  /** The number of whole turns that adjlon takes off. */
  function Turns(lon: real): int {
    if Fabs(lon) <= SPI then 0 else ((lon + ONEPI) / TWOPI).Floor
  }

  /** A longitude reduced to the range from -SPI to SPI. */
  function Adjlon(lon: real): (r: real)
    ensures Fabs(r) <= SPI && r == lon - Turns(lon) as real * TWOPI
  {
    if Fabs(lon) <= SPI then lon
    else
      var l := lon + ONEPI;
      var n := (l / TWOPI).Floor;
      FloorBounds(l, n);
      l - TWOPI * n as real - ONEPI
  }

  lemma FloorBounds(l: real, n: int)
    requires n == (l / TWOPI).Floor
    ensures 0.0 <= l - TWOPI * n as real < TWOPI
  {
    var q := l / TWOPI;
    assert q * TWOPI == l;
    assert n as real <= q < n as real + 1.0;
  }

  /** Away from the ends of the range, reducing undoes whole turns. */
  lemma AdjlonUndoesTurns(x: real, k: int)
    requires Fabs(x) < TWOPI - SPI
    ensures Adjlon(x + k as real * TWOPI) == x
  {
    var lon := x + k as real * TWOPI;
    var m := k - Turns(lon);
    assert m as real == k as real - Turns(lon) as real;
    assert Adjlon(lon) == x + m as real * TWOPI;
    NoWholeTurn(x, m);
  }

  lemma NoWholeTurn(x: real, m: int)
    requires Fabs(x) < TWOPI - SPI && Fabs(x + m as real * TWOPI) <= SPI
    ensures m == 0
  {
    if m >= 1 {
      NotLess(m as real);
    } else if m <= -1 {
      NotLess(-(m as real));
    }
  }

  lemma NotLess(m: real)
    requires m >= 1.0
    ensures m * TWOPI >= TWOPI
  {
  }

  // --- Shifts

  /** The point relative to the lower left corner of the table. */
  function Local(p: LP, ct: Ctable): LP {
    LP(Adjlon(p.lam - ct.ll.lam - PI) + PI, p.phi - ct.ll.phi)
  }

  /** The point at t, relative to the corner, in absolute coordinates. */
  function Absolute(t: LP, ct: Ctable): LP {
    LP(Adjlon(t.lam + ct.ll.lam), t.phi + ct.ll.phi)
  }

  /** The shifts of the table. */
  ghost function ShiftOf(ct: Ctable): (s: LP -> LP)
    requires ct.Valid()
    ensures forall t {:trigger s(t)} :: s(t) == Shift(ct, t)
  {
    t => Shift(ct, t)
  }

  const MAX_TRY := 9
  const TOL := 0.000000000001

  /** When the inverse stops: as soon as one component no longer moves. */
  predicate Settled(t: LP, u: LP) {
    Fabs(t.lam - u.lam) <= TOL || Fabs(t.phi - u.phi) <= TOL
  }

  /** The inverse has come to the n-th iterate: all before it were covered by the table, and none had settled. */
  ghost predicate Reached(ct: Ctable, tb: LP, n: nat)
    requires ct.Valid()
  {
    && n >= 1
    && (forall k: nat {:trigger Iterated(ShiftOf(ct), tb, k)} :: k < n ==> Covers(ct, Iterated(ShiftOf(ct), tb, k)))
    && (forall k: nat {:trigger Iterated(ShiftOf(ct), tb, k)} :: 1 <= k < n - 1 ==>
        !Settled(Iterated(ShiftOf(ct), tb, k), Iterated(ShiftOf(ct), tb, k + 1)))
  }

  /** One pass: the next iterate and by how much it differs, if the table covers t. */
  method Pass(t: LP, tb: LP, ct: Ctable) returns (next: Option<LP>, dif: LP)
    requires ct.Valid()
    ensures next == if Covers(ct, t) then Some(Back(ShiftOf(ct), tb, t)) else None
    ensures next.Some? ==> dif == LP(t.lam - next.value.lam, t.phi - next.value.phi)
  {
    var del := Interpolate(t, ct);
    dif := LP(0.0, 0.0);
    if del == None { return None, dif; }
    dif := LP(t.lam - del.value.lam - tb.lam, t.phi + del.value.phi - tb.phi);
    next := Some(LP(t.lam - dif.lam, t.phi - dif.phi));
  }

  /** The iteration from the first guess on. It gives up after MAX_TRY + 1 passes, whatever the last of them has
      found. */
  method Invert(tb: LP, first: LP, ct: Ctable) returns (out: Option<LP>, ghost n: nat)
    requires ct.Valid() && Covers(ct, tb) && first == Back(ShiftOf(ct), tb, tb)
    ensures n <= MAX_TRY + 2 && Reached(ct, tb, n) && (out.None? <==> n == MAX_TRY + 2)
    ensures out.Some? ==> out == Some(Iterated(ShiftOf(ct), tb, n))
    ensures out.Some? ==> Ends(ct, tb, n)
    ensures out.Some? ==> Near(ct, tb, out.value, n)
  {
    IteratesAreNear(ct, tb);
    var t := first;
    var i := MAX_TRY;
    n := 1;
    StartsReached(ct, tb);
    while true
      invariant 0 <= i <= MAX_TRY && n == MAX_TRY + 1 - i && t == Iterated(ShiftOf(ct), tb, n)
      invariant Reached(ct, tb, n) && !HasSettled(ct, tb, n)
      decreases i
    {
      var next, dif := Pass(t, tb, ct);
      if next == None {
        return Some(t), n;
      }
      NextReached(ct, tb, n, t, next.value);
      t := next.value;
      n := n + 1;
      var more := i != 0;
      i := i - 1;
      if !(more && Fabs(dif.lam) > TOL && Fabs(dif.phi) > TOL) { break; }
    }
    if i < 0 {
      return None, n;
    }
    out := Some(t);
  }

  /** The last pass has moved some component no more. */
  ghost predicate HasSettled(ct: Ctable, tb: LP, n: nat)
    requires ct.Valid()
  {
    n >= 2 && Settled(Iterated(ShiftOf(ct), tb, n - 1), Iterated(ShiftOf(ct), tb, n))
  }

  /** The iteration has a reason to end with a result here. */
  ghost predicate Ends(ct: Ctable, tb: LP, n: nat)
    requires ct.Valid()
  {
    !Covers(ct, Iterated(ShiftOf(ct), tb, n)) || HasSettled(ct, tb, n)
  }

  /** The shift of the table contracts by the factor q, and exact is the exact inverse of tb. */
  ghost predicate Solves(ct: Ctable, q: real, tb: LP, exact: LP)
    requires ct.Valid()
  {
    0.0 <= q && Contracting(ShiftOf(ct), q) && Forward(ShiftOf(ct), exact) == tb
  }

  /** What n passes that contract by the factor q leave of the distance of tb from the exact inverse. */
  ghost function Remaining(q: real, n: nat, tb: LP, exact: LP): real {
    Power(q, n) * Distance(tb, exact)
  }

  /** Whatever exact inverse there is, t is nearer to it than tb is, by the n-th power of the factor of the table. */
  ghost predicate Near(ct: Ctable, tb: LP, t: LP, n: nat)
    requires ct.Valid()
  {
    forall q, exact {:trigger Solves(ct, q, tb, exact)} :: Solves(ct, q, tb, exact) ==>
      Distance(t, exact) <= Remaining(q, n, tb, exact)
  }

  lemma IteratesAreNear(ct: Ctable, tb: LP)
    requires ct.Valid()
    ensures forall n: nat {:trigger Iterated(ShiftOf(ct), tb, n)} :: Near(ct, tb, Iterated(ShiftOf(ct), tb, n), n)
  {
    var s := ShiftOf(ct);
    forall n: nat, q: real, exact: LP | Solves(ct, q, tb, exact)
      ensures Distance(Iterated(s, tb, n), exact) <= Remaining(q, n, tb, exact)
    {
      ErrorShrinks(s, tb, exact, q, n);
    }
  }

  lemma StartsReached(ct: Ctable, tb: LP)
    requires ct.Valid() && Covers(ct, tb)
    ensures Reached(ct, tb, 1) && Iterated(ShiftOf(ct), tb, 1) == Back(ShiftOf(ct), tb, tb)
  {
    assert Iterated(ShiftOf(ct), tb, 0) == tb;
  }

  lemma NextReached(ct: Ctable, tb: LP, n: nat, t: LP, next: LP)
    requires ct.Valid() && Reached(ct, tb, n) && !HasSettled(ct, tb, n)
    requires t == Iterated(ShiftOf(ct), tb, n) && Covers(ct, t) && next == Back(ShiftOf(ct), tb, t)
    ensures Reached(ct, tb, n + 1) && next == Iterated(ShiftOf(ct), tb, n + 1)
    ensures HasSettled(ct, tb, n + 1) <==> Settled(t, next)
  {
  }

  /** Both components differ by at most e, up to whole turns. */
  ghost predicate AtMostTurned(p: LP, p': LP, e: real) {
    exists turns: int {:trigger turns as real} :: AtMost(LP(p.lam + turns as real * TWOPI, p.phi), p', e)
  }

  /** Whatever exact inverse there is, p is nearer to it in absolute coordinates than tb is to it in the table, by the
      n-th power of the factor of the table. */
  ghost predicate NearInverse(ct: Ctable, tb: LP, p: LP, n: nat)
    requires ct.Valid()
  {
    forall q, exact {:trigger Solves(ct, q, tb, exact)} :: Solves(ct, q, tb, exact) ==>
      AtMostTurned(p, Absolute(exact, ct), Remaining(q, n, tb, exact))
  }

  lemma NearAbsolutely(ct: Ctable, tb: LP, t: LP, n: nat)
    requires ct.Valid() && Near(ct, tb, t, n)
    ensures NearInverse(ct, tb, Absolute(t, ct), n)
  {
    forall q, exact {:trigger Solves(ct, q, tb, exact)} | Solves(ct, q, tb, exact)
      ensures AtMostTurned(Absolute(t, ct), Absolute(exact, ct), Remaining(q, n, tb, exact))
    {
      AbsoluteKeepsDistance(ct, t, exact, Remaining(q, n, tb, exact));
    }
  }

  lemma AbsoluteKeepsDistance(ct: Ctable, t: LP, u: LP, e: real)
    requires Distance(t, u) <= e
    ensures AtMostTurned(Absolute(t, ct), Absolute(u, ct), e)
  {
    assert AtMost(t, u, e);
    var k, m := Turns(t.lam + ct.ll.lam), Turns(u.lam + ct.ll.lam);
    var turns := k - m;
    assert turns as real * TWOPI == k as real * TWOPI - m as real * TWOPI;
    assert AtMost(LP(Absolute(t, ct).lam + turns as real * TWOPI, Absolute(t, ct).phi), Absolute(u, ct), e);
  }

  /** Shifts a point, or finds the point that is shifted to it. */
  method Convert(p: Option<LP>, inverse: bool, ct: Ctable) returns (out: Option<LP>, ghost n: nat)
    requires ct.Valid()
    ensures p.None? ==> out.None?
    ensures p.Some? && !Covers(ct, Local(p.value, ct)) ==> out.None?
    ensures p.Some? && Covers(ct, Local(p.value, ct)) && !inverse ==>
      var s := Shift(ct, Local(p.value, ct)); out == Some(LP(p.value.lam - s.lam, p.value.phi + s.phi))
    ensures p.Some? && Covers(ct, Local(p.value, ct)) && inverse ==>
      var tb := Local(p.value, ct);
      && n <= MAX_TRY + 2 && Reached(ct, tb, n) && (out.None? <==> n == MAX_TRY + 2)
      && (out.Some? ==> out == Some(Absolute(Iterated(ShiftOf(ct), tb, n), ct)))
      && (out.Some? ==> Ends(ct, tb, n) && NearInverse(ct, tb, out.value, n))
  {
    n := 0;
    if p == None { return None, n; }
    var tb := LP(p.value.lam - ct.ll.lam, p.value.phi - ct.ll.phi);
    tb := LP(Adjlon(tb.lam - PI) + PI, tb.phi);
    var t := Interpolate(tb, ct);
    if t == None { return None, n; }
    if inverse {
      var first := LP(tb.lam + t.value.lam, tb.phi - t.value.phi);
      var r;
      r, n := Invert(tb, first, ct);
      if r == None { return None, n; }
      out := Some(LP(Adjlon(r.value.lam + ct.ll.lam), r.value.phi + ct.ll.phi));
      NearAbsolutely(ct, tb, r.value, n);
    } else {
      out := Some(LP(p.value.lam - t.value.lam, p.value.phi + t.value.phi));
    }
  }

  // --- Convergence on a table

  /** Within a table whose adjacent entries differ, along a row, by at most a times the width of a cell and, across the
      rows, by at most b times its height. */
  ghost predicate SlopesWithin(rows: seq<seq<real>>, ct: Ctable, a: real, b: real)
    requires ct.Valid() && IsGrid(rows, ct.limLam)
  {
    a >= 0.0 && b >= 0.0 && GentleGrid(rows, ct.limLam, a * ct.del.lam, b * ct.del.phi)
  }

  lemma ClampNear(z: real, w: real, d: real, n: nat, e: real)
    requires d > 0.0 && n >= 2 && Fabs(d * z - d * w) <= e
    ensures d * Fabs(Clamp(w, n) - Clamp(z, n)) <= e
  {
    var near := Fabs(Clamp(w, n) - Clamp(z, n));
    var far := Fabs(w - z);
    assert near <= far;
    NonNegativeProduct(d, far - near);
    assert d * (far - near) == d * far - d * near;
    assert d * (w - z) == d * w - d * z && d * (z - w) == d * z - d * w;
  }

  /** A position in cells, before it is clamped. */
  lemma Quotient(p: real, d: real, n: nat) returns (z: real)
    requires d > 0.0 && n >= 2
    ensures d * z == p && At(p, d, n, Clamp(z, n))
  {
    z := p / d;
    QuotientIsAt(p, d, n);
  }

  lemma ScaledSlope(a: real, d: real, c: real, z: real, e: real)
    requires a >= 0.0 && c == a * d && d * z <= e
    ensures c * z <= a * e
  {
    NonNegativeProduct(a, e - d * z);
    assert a * (e - d * z) == a * e - c * z;
  }

  lemma BothSlopes(a: real, b: real, d: real, d': real, c: real, c': real, z: real, z': real, e: real, v: real,
                   q: real)
    requires a >= 0.0 && b >= 0.0 && c == a * d && c' == b * d' && d * z <= e && d' * z' <= e && v <= c * z + c' * z'
    requires a + b <= q && e >= 0.0
    ensures v <= q * e
  {
    ScaledSlope(a, d, c, z, e);
    ScaledSlope(b, d', c', z', e);
    assert (a + b) * e == a * e + b * e;
    LargerFactor(a + b, q, e);
  }

  /** One component of the shift, between positions whose distances are e at most. */
  lemma ComponentSlope(rows: seq<seq<real>>, ct: Ctable, a: real, b: real, q: real, e: real,
                       x: real, y: real, x': real, y': real)
    requires ct.Valid() && IsGrid(rows, ct.limLam) && SlopesWithin(rows, ct, a, b)
    requires Within(rows, ct.limLam, x, y) && Within(rows, ct.limLam, x', y')
    requires ct.del.lam * Fabs(x' - x) <= e && ct.del.phi * Fabs(y' - y) <= e && a + b <= q && e >= 0.0
    ensures Fabs(Surface(rows, ct.limLam, x', y') - Surface(rows, ct.limLam, x, y)) <= q * e
  {
    var c, c' := a * ct.del.lam, b * ct.del.phi;
    SurfaceSlope(rows, ct.limLam, c, c', x, y, x', y');
    BothSlopes(a, b, ct.del.lam, ct.del.phi, c, c', Fabs(x' - x), Fabs(y' - y), e,
               Fabs(Surface(rows, ct.limLam, x', y') - Surface(rows, ct.limLam, x, y)), q);
  }

  /** The factor by which the error shrinks is bounded by the differences of adjacent entries over the size of a
      cell. */
  lemma TableContracts(ct: Ctable, a: real, b: real, c: real, d: real, q: real)
    requires ct.Valid() && SlopesWithin(LamRows(ct), ct, a, b) && SlopesWithin(PhiRows(ct), ct, c, d)
    requires a + b <= q && c + d <= q
    ensures Contracting(ShiftOf(ct), q)
  {
    var s := ShiftOf(ct);
    forall t, u {:trigger Distance(s(t), s(u))} ensures Distance(s(t), s(u)) <= q * Distance(t, u) {
      PairContracts(ct, a, b, c, d, q, t, u, Distance(t, u));
    }
  }

  lemma PairContracts(ct: Ctable, a: real, b: real, c: real, d: real, q: real, t: LP, u: LP, e: real)
    requires ct.Valid() && SlopesWithin(LamRows(ct), ct, a, b) && SlopesWithin(PhiRows(ct), ct, c, d)
    requires a + b <= q && c + d <= q && e == Distance(t, u)
    ensures Distance(ShiftOf(ct)(t), ShiftOf(ct)(u)) <= q * e
  {
    DistanceNonNegative(t, u);
    var x, y, x', y' := PositionsOf(ct, t, u, e);
    PositionsContract(ct, a, b, c, d, q, e, x, y, x', y', Shift(ct, t), Shift(ct, u));
  }

  lemma PositionsOf(ct: Ctable, t: LP, u: LP, e: real) returns (x: real, y: real, x': real, y': real)
    requires ct.Valid() && e == Distance(t, u)
    ensures IsPosition(ct, t, x, y) && IsPosition(ct, u, x', y')
    ensures ct.del.lam * Fabs(x' - x) <= e && ct.del.phi * Fabs(y' - y) <= e
  {
    assert AtMost(t, u, e);
    x, x' := ClampedPair(t.lam, u.lam, ct.del.lam, ct.limLam, e);
    y, y' := ClampedPair(t.phi, u.phi, ct.del.phi, ct.limPhi, e);
  }

  lemma ClampedPair(p: real, q: real, d: real, n: nat, e: real) returns (x: real, y: real)
    requires d > 0.0 && n >= 2 && Fabs(p - q) <= e
    ensures At(p, d, n, x) && At(q, d, n, y) && d * Fabs(y - x) <= e
    ensures 0.0 <= x <= (n - 1) as real && 0.0 <= y <= (n - 1) as real
  {
    var z := Quotient(p, d, n);
    var w := Quotient(q, d, n);
    ClampNear(z, w, d, n, e);
    x, y := Clamp(z, n), Clamp(w, n);
  }

  lemma PositionsContract(ct: Ctable, a: real, b: real, c: real, d: real, q: real, e: real,
                          x: real, y: real, x': real, y': real, v: LP, w: LP)
    requires ct.Valid() && SlopesWithin(LamRows(ct), ct, a, b) && SlopesWithin(PhiRows(ct), ct, c, d)
    requires a + b <= q && c + d <= q && e >= 0.0
    requires Within(LamRows(ct), ct.limLam, x, y) && Within(LamRows(ct), ct.limLam, x', y')
    requires ct.del.lam * Fabs(x' - x) <= e && ct.del.phi * Fabs(y' - y) <= e
    requires v == LP(Surface(LamRows(ct), ct.limLam, x, y), Surface(PhiRows(ct), ct.limLam, x, y))
    requires w == LP(Surface(LamRows(ct), ct.limLam, x', y'), Surface(PhiRows(ct), ct.limLam, x', y'))
    ensures Distance(v, w) <= q * e
  {
    ComponentSlope(LamRows(ct), ct, a, b, q, e, x, y, x', y');
    ComponentSlope(PhiRows(ct), ct, c, d, q, e, x, y, x', y');
    ComponentsBound(v, w, q * e);
  }

  lemma ComponentsBound(v: LP, w: LP, r: real)
    requires Fabs(w.lam - v.lam) <= r && Fabs(w.phi - v.phi) <= r
    ensures Distance(v, w) <= r
  {
    assert AtMost(v, w, r);
  }

  lemma LargerFactor(p: real, q: real, e: real)
    requires p <= q && e >= 0.0
    ensures p * e <= q * e
  {
    NonNegativeProduct(q - p, e);
  }

  /** The error of a converted point in terms of the entries of the table. */
  lemma ConvertedError(ct: Ctable, tb: LP, p: LP, n: nat, exact: LP, a: real, b: real, c: real, d: real, q: real)
    requires ct.Valid() && NearInverse(ct, tb, p, n) && Forward(ShiftOf(ct), exact) == tb
    requires SlopesWithin(LamRows(ct), ct, a, b) && SlopesWithin(PhiRows(ct), ct, c, d) && a + b <= q && c + d <= q
    ensures AtMostTurned(p, Absolute(exact, ct), Remaining(q, n, tb, exact))
  {
    TableContracts(ct, a, b, c, d, q);
    assert Solves(ct, q, tb, exact);
  }

  // --- How the iteration ends

  /** Neither component has moved by more than the tolerance. */
  predicate BothSettled(t: LP, u: LP) {
    Fabs(t.lam - u.lam) <= TOL && Fabs(t.phi - u.phi) <= TOL
  }

  /** When the iteration ends after a settled pass, the iterate before that pass is shifted forward to the goal within
      the tolerance exactly if both components have settled; so is the returned iterate exactly if both would settle in
      one more pass. If both have settled, the returned one misses the goal, and the exact inverse, accordingly less. */
  lemma AccurateExit(ct: Ctable, tb: LP, n: nat, t: LP, u: LP)
    requires ct.Valid() && HasSettled(ct, tb, n)
    requires t == Iterated(ShiftOf(ct), tb, n - 1) && u == Iterated(ShiftOf(ct), tb, n)
    ensures AtMost(Forward(ShiftOf(ct), t), tb, TOL) <==> BothSettled(t, u)
    ensures AtMost(Forward(ShiftOf(ct), u), tb, TOL) <==> BothSettled(u, Iterated(ShiftOf(ct), tb, n + 1))
    ensures forall q {:trigger Contracting(ShiftOf(ct), q)} ::
      0.0 <= q && Contracting(ShiftOf(ct), q) && BothSettled(t, u) ==>
      Distance(Forward(ShiftOf(ct), u), tb) <= q * TOL
    ensures forall q, exact {:trigger Solves(ct, q, tb, exact)} ::
      Solves(ct, q, tb, exact) && q < 1.0 && BothSettled(t, u) ==>
      (1.0 - q) * Distance(u, exact) <= q * TOL
  {
    hide Iterated, Back, Distance;
    var s := ShiftOf(ct);
    AccurateWhen(s, tb, n - 1, TOL);
    AccurateWhen(s, tb, n, TOL);
    forall q: real {:trigger Contracting(s, q)} | 0.0 <= q && Contracting(s, q) && BothSettled(t, u)
      ensures Distance(Forward(s, u), tb) <= q * TOL
    {
      Residual(s, tb, n - 1, q);
      NonNegativeProduct(q, TOL - Distance(Forward(s, t), tb));
    }
    forall q, exact {:trigger Solves(ct, q, tb, exact)} | Solves(ct, q, tb, exact) && q < 1.0 && BothSettled(t, u)
      ensures (1.0 - q) * Distance(u, exact) <= q * TOL
    {
      ErrorByChange(s, tb, exact, q, n - 1, TOL);
    }
  }

  ghost predicate LamIsConstant(ct: Ctable, c: real)
    requires ct.Valid()
  {
    forall i: nat, j: nat {:trigger Entry(ct, i, j)} :: i < ct.limLam && j < ct.limPhi ==> Entry(ct, i, j).lam == c
  }

  ghost predicate PhiIsConstant(ct: Ctable, c: real)
    requires ct.Valid()
  {
    forall i: nat, j: nat {:trigger Entry(ct, i, j)} :: i < ct.limLam && j < ct.limPhi ==> Entry(ct, i, j).phi == c
  }

  /** If one component is the same in all entries, there is never a second pass, however far off the other component
      is. */
  lemma ConstantStops(ct: Ctable, tb: LP, n: nat, c: real)
    requires ct.Valid() && (LamIsConstant(ct, c) || PhiIsConstant(ct, c)) && Reached(ct, tb, n)
    requires n == MAX_TRY + 2 || Ends(ct, tb, n)
    ensures n <= 2
  {
    var s := ShiftOf(ct);
    ConstantShift(ct, Iterated(s, tb, 0), Iterated(s, tb, 1), c);
    assert Settled(Iterated(s, tb, 1), Iterated(s, tb, 2));
  }

  lemma ConstantShift(ct: Ctable, t: LP, u: LP, c: real)
    requires ct.Valid() && (LamIsConstant(ct, c) || PhiIsConstant(ct, c))
    ensures Shift(ct, t).phi == Shift(ct, u).phi || Shift(ct, t).lam == Shift(ct, u).lam
  {
    if PhiIsConstant(ct, c) {
      ConstantPhi(ct, c);
      ConstantRows(ct, PhiRows(ct), c, t);
      ConstantRows(ct, PhiRows(ct), c, u);
    } else {
      ConstantLam(ct, c);
      ConstantRows(ct, LamRows(ct), c, t);
      ConstantRows(ct, LamRows(ct), c, u);
    }
  }

  ghost predicate Level(rows: seq<seq<real>>, n: nat, c: real)
    requires IsGrid(rows, n)
  {
    forall j, i {:trigger rows[j][i]} :: 0 <= j < |rows| && 0 <= i < n ==> rows[j][i] == c
  }

  lemma ConstantLam(ct: Ctable, c: real)
    requires ct.Valid() && LamIsConstant(ct, c)
    ensures Level(LamRows(ct), ct.limLam, c)
  {
    forall j, i | 0 <= j < ct.limPhi && 0 <= i < ct.limLam ensures LamRows(ct)[j][i] == c {
      assert LamRows(ct)[j][i] == Entry(ct, i, j).lam;
    }
  }

  lemma ConstantPhi(ct: Ctable, c: real)
    requires ct.Valid() && PhiIsConstant(ct, c)
    ensures Level(PhiRows(ct), ct.limLam, c)
  {
    forall j, i | 0 <= j < ct.limPhi && 0 <= i < ct.limLam ensures PhiRows(ct)[j][i] == c {
      assert PhiRows(ct)[j][i] == Entry(ct, i, j).phi;
    }
  }

  /** A surface through equal values is level. */
  lemma ConstantRows(ct: Ctable, rows: seq<seq<real>>, c: real, t: LP)
    requires ct.Valid() && IsGrid(rows, ct.limLam) && |rows| == ct.limPhi
    requires Level(rows, ct.limLam, c)
    ensures rows == LamRows(ct) ==> Shift(ct, t).lam == c
    ensures rows == PhiRows(ct) ==> Shift(ct, t).phi == c
  {
    var x, y := Clamp(t.lam / ct.del.lam, ct.limLam), Clamp(t.phi / ct.del.phi, ct.limPhi);
    PositionByQuotients(ct, t, x, y);
    SurfaceInCell(rows, ct.limLam, x, y, Cell(x, ct.limLam), Cell(y, ct.limPhi), c, c);
  }

  // --- One component at rest is enough to stop

  /** A table of one cell whose shift is half the first coordinate, in the direction of that coordinate. */
  const HALF_TABLE := Ctable(LP(0.0, 0.0), LP(1.0, 1.0), 2, 2, [LP(0.0, 0.0), LP(0.5, 0.0), LP(0.0, 0.0), LP(0.5, 0.0)])

  lemma HalfShift(x: real)
    requires 0.0 <= x <= 1.0
    ensures HALF_TABLE.Valid() && Covers(HALF_TABLE, LP(x, 0.0)) && Shift(HALF_TABLE, LP(x, 0.0)) == LP(0.5 * x, 0.0)
  {
    var t := LP(x, 0.0);
    assert t.lam / HALF_TABLE.del.lam == x && t.phi / HALF_TABLE.del.phi == 0.0;
    ShiftByWeights(HALF_TABLE, t, 0, 0, x, 0.0);
    assert Entry(HALF_TABLE, 0, 0) == LP(0.0, 0.0) && Entry(HALF_TABLE, 1, 0) == LP(0.5, 0.0);
  }

  /** On this table the inverse ends at the second iterate, for the second component is at rest, although the first one
      is still wrong by a sixteenth. */
  lemma StopsTooEarly(n: nat)
    requires HALF_TABLE.Valid() && Reached(HALF_TABLE, LP(0.25, 0.0), n)
    requires n == MAX_TRY + 2 || Ends(HALF_TABLE, LP(0.25, 0.0), n)
    ensures n == 2 && Forward(ShiftOf(HALF_TABLE), LP(0.5, 0.0)) == LP(0.25, 0.0)
    ensures Iterated(ShiftOf(HALF_TABLE), LP(0.25, 0.0), n) == LP(0.4375, 0.0)
  {
    var s, tb := ShiftOf(HALF_TABLE), LP(0.25, 0.0);
    HalfShift(0.25);
    HalfShift(0.375);
    HalfShift(0.4375);
    HalfShift(0.5);
    assert Iterated(s, tb, 0) == tb && s(tb) == LP(0.125, 0.0);
    assert Iterated(s, tb, 1) == LP(0.375, 0.0);
    assert Iterated(s, tb, 2) == LP(0.4375, 0.0);
  }

  // --- The last pass comes too late

  /** A table of one cell whose shift is a tenth of the first coordinate, in its direction, and a tenth of the second
      one, against its direction. */
  const TENTH_TABLE := Ctable(LP(0.0, 0.0), LP(1.0, 1.0), 2, 2,
    [LP(0.0, 0.0), LP(0.1, 0.0), LP(0.0, -0.1), LP(0.1, -0.1)])

  lemma TenthShift(x: real)
    requires 0.0 <= x <= 1.0
    ensures TENTH_TABLE.Valid() && Covers(TENTH_TABLE, LP(x, x)) &&
      Shift(TENTH_TABLE, LP(x, x)) == LP(0.1 * x, -0.1 * x)
  {
    var t := LP(x, x);
    assert t.lam / TENTH_TABLE.del.lam == x && t.phi / TENTH_TABLE.del.phi == x;
    ShiftByWeights(TENTH_TABLE, t, 0, 0, x, x);
    assert Entry(TENTH_TABLE, 0, 0) == LP(0.0, 0.0) && Entry(TENTH_TABLE, 1, 0) == LP(0.1, 0.0);
    assert Entry(TENTH_TABLE, 0, 1) == LP(0.0, -0.1) && Entry(TENTH_TABLE, 1, 1) == LP(0.1, -0.1);
    TenthMean(x);
  }

  lemma TenthMean(x: real)
    ensures Mean(x, x, 0.0, 0.1, 0.0, 0.1) == 0.1 * x && Mean(x, x, 0.0, 0.0, -0.1, -0.1) == -0.1 * x
  {
  }

  const TWENTIETH := LP(0.05, 0.05)

  /** Both components of the iterates for TWENTIETH. */
  function TenthIterate(k: nat): (x: real)
    ensures 0.0 <= x <= 1.0
  {
    if k == 0 then 0.05 else 0.05 + 0.1 * TenthIterate(k - 1)
  }

  lemma {:induction false} TenthIterated(k: nat)
    requires TENTH_TABLE.Valid()
    ensures Iterated(ShiftOf(TENTH_TABLE), TWENTIETH, k) == LP(TenthIterate(k), TenthIterate(k))
    ensures Covers(TENTH_TABLE, Iterated(ShiftOf(TENTH_TABLE), TWENTIETH, k))
    ensures TenthIterate(k + 1) - TenthIterate(k) == 0.005 * Power(0.1, k)
  {
    TenthShift(TenthIterate(k));
    if k > 0 {
      TenthIterated(k - 1);
      TenthShift(TenthIterate(k - 1));
    }
  }

  lemma {:induction false} TenthPowers(k: nat)
    requires k <= MAX_TRY + 1
    ensures 0.005 * Power(0.1, k) > TOL <==> k <= MAX_TRY
    ensures Power(0.1, k) > 0.0
  {
    assert Power(0.1, 0) == 1.0 && Power(0.1, 1) == 0.1 && Power(0.1, 2) == 0.01 && Power(0.1, 3) == 0.001;
    assert Power(0.1, 4) == 0.0001 && Power(0.1, 5) == 0.00001 && Power(0.1, 6) == 0.000001;
    assert Power(0.1, 7) == 0.0000001 && Power(0.1, 8) == 0.00000001 && Power(0.1, 9) == 0.000000001;
    assert Power(0.1, 10) == 0.0000000001;
  }

  /** On this table nothing is found, for the first nine passes have not settled, although the tenth settles in both
      components: its iterate would have been accurate. */
  lemma GivesUpTooSoon(n: nat)
    requires TENTH_TABLE.Valid() && Reached(TENTH_TABLE, TWENTIETH, n)
    requires n == MAX_TRY + 2 || (n < MAX_TRY + 2 && Ends(TENTH_TABLE, TWENTIETH, n))
    ensures n == MAX_TRY + 2
    ensures var s, t := ShiftOf(TENTH_TABLE), Iterated(ShiftOf(TENTH_TABLE), TWENTIETH, n - 1);
      BothSettled(t, Iterated(s, TWENTIETH, n)) && AtMost(Forward(s, t), TWENTIETH, TOL)
  {
    TenthIterated(n);
    if n >= 2 { TenthSettles(n - 1); }
    AccurateWhen(ShiftOf(TENTH_TABLE), TWENTIETH, n - 1, TOL);
  }

  lemma TenthSettles(k: nat)
    requires TENTH_TABLE.Valid() && 1 <= k <= MAX_TRY + 1
    ensures var t, u := Iterated(ShiftOf(TENTH_TABLE), TWENTIETH, k), Iterated(ShiftOf(TENTH_TABLE), TWENTIETH, k + 1);
      if k <= MAX_TRY then !Settled(t, u) else BothSettled(t, u)
  {
    TenthIterated(k);
    TenthIterated(k + 1);
    TenthPowers(k);
    var x, y := TenthIterate(k), TenthIterate(k + 1);
    assert Fabs(x - y) == 0.005 * Power(0.1, k);
  }

  // --- There and back

  /** Away from the ends of its range, the exact inverse is found again after it was made absolute, and the forward
      shift leads from there to the point that was given, up to whole turns. */
  lemma RoundTrip(p: LP, ct: Ctable, exact: LP) returns (turns: int)
    requires ct.Valid() && Forward(ShiftOf(ct), exact) == Local(p, ct) && Fabs(exact.lam - PI) < TWOPI - SPI
    ensures Local(Absolute(exact, ct), ct) == exact
    ensures var there, s := Absolute(exact, ct), Shift(ct, exact);
      LP(there.lam - s.lam, there.phi + s.phi) == LP(p.lam + turns as real * TWOPI, p.phi)
  {
    LocalOfAbsolute(exact, ct);
    var k := Turns(exact.lam + ct.ll.lam);
    var m := Turns(p.lam - ct.ll.lam - PI);
    turns := -k - m;
    assert turns as real * TWOPI == -(k as real * TWOPI) - m as real * TWOPI;
    assert exact.lam - Shift(ct, exact).lam == Local(p, ct).lam && exact.phi + Shift(ct, exact).phi == Local(p, ct).phi;
  }

  lemma LocalOfAbsolute(t: LP, ct: Ctable)
    requires Fabs(t.lam - PI) < TWOPI - SPI
    ensures Local(Absolute(t, ct), ct) == t
  {
    var k := Turns(t.lam + ct.ll.lam);
    assert (-k) as real == -(k as real);
    AdjlonUndoesTurns(t.lam - PI, -k);
  }
}
