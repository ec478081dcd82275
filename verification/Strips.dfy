/** The narrowest strip around a strictly convex ring has one side along an edge: a lower bound for the widths over
    all edges is a lower bound for the widths in every direction. */
module Strips {
  import opened Calipers
  import opened Plane
  import opened Reals

  // Coordinates also serve as vectors here.

  function Minus(p: Coordinate, q: Coordinate): Coordinate {
    Coordinate(p.x - q.x, p.y - q.y)
  }

  function Cross(a: Coordinate, b: Coordinate): int {
    Det(a.x, a.y, b.x, b.y)
  }

  function Dot(a: Coordinate, b: Coordinate): int {
    a.x * b.x + a.y * b.y
  }

  function EdgeVector(v: seq<Coordinate>, e: nat): Coordinate
    requires 1 <= e <= |v|
  {
    Minus(Vertex(v, e), Vertex(v, e - 1))
  }

  /** h^2 / |d|^2 >= w, free of division. */
  ghost predicate AtLeast(h: int, d: Coordinate, w: real) {
    (h * h) as real >= w * Dot(d, d) as real
  }

  /** Some vertex has a squared distance of w or more from edge e. */
  ghost predicate SomeVertexAtLeast(v: seq<Coordinate>, e: nat, w: real)
    requires 1 <= e <= |v|
  {
    exists k :: 0 <= k < |v| && AtLeast(Height(v, e, k), EdgeVector(v, e), w)
  }

  ghost predicate EveryEdgeAtLeast(v: seq<Coordinate>, w: real) {
    forall e {:trigger SomeVertexAtLeast(v, e, w)} :: 1 <= e <= |v| ==> SomeVertexAtLeast(v, e, w)
  }

  function Prev(v: seq<Coordinate>, k: nat): nat
    requires k < |v|
  {
    if k == 0 then |v| - 1 else k - 1
  }

  function Next(v: seq<Coordinate>, k: nat): nat
    requires k < |v|
  {
    if k + 1 == |v| then 0 else k + 1
  }

  /** The edge that ends in vertex k. */
  function EdgeInto(v: seq<Coordinate>, k: nat): (e: nat)
    requires k < |v|
    ensures 1 <= e <= |v| && Vertex(v, e) == v[k] && Vertex(v, e - 1) == v[Prev(v, k)]
  {
    if k == 0 then |v| else k
  }

  /** The edge that leaves vertex k. */
  function EdgeOutOf(v: seq<Coordinate>, k: nat): (e: nat)
    requires k < |v|
    ensures 1 <= e <= |v| && Vertex(v, e - 1) == v[k] && Vertex(v, e) == v[Next(v, k)]
  {
    k + 1
  }

  lemma VectorPluecker(a: Coordinate, b: Coordinate, c: Coordinate, d: Coordinate)
    ensures Cross(a, b) * Cross(c, d) == Cross(a, c) * Cross(b, d) - Cross(a, d) * Cross(b, c)
  {
    Pluecker(a.x, a.y, b.x, b.y, c.x, c.y, d.x, d.y);
  }

  lemma CornerTurns(v: seq<Coordinate>, q: nat, x: nat)
    requires IsConvexRing(v) && q < |v| && x < |v|
    ensures Turn(v[Prev(v, q)], v[q], v[Next(v, q)]) < 0
    ensures Turn(v[Prev(v, q)], v[q], v[x]) <= 0 && Turn(v[q], v[Next(v, q)], v[x]) <= 0
  {
    var n := |v|;
    CyclicTurn(v, if q == 0 then n - 1 else q - 1, if q == 0 then n else q, if q == 0 then n + 1 else q + 1);
    EdgeTurn(v, Prev(v, q), x);
    EdgeTurn(v, q, x);
  }

  lemma EdgeTurn(v: seq<Coordinate>, k: nat, x: nat)
    requires IsConvexRing(v) && k < |v| && x < |v|
    ensures Turn(v[k], v[Next(v, k)], v[x]) <= 0
  {
    HeightPositive(v, k + 1, if x <= k then x + |v| else x);
  }

  /** A vertex that beats both neighbours in direction s beats all vertices. */
  lemma LocalIsGlobal(v: seq<Coordinate>, q: nat, x: nat, s: Coordinate)
    requires IsConvexRing(v) && q < |v| && x < |v|
    requires Cross(Minus(v[Next(v, q)], v[q]), s) <= 0 && Cross(Minus(v[q], v[Prev(v, q)]), s) >= 0
    ensures Cross(Minus(v[x], v[q]), s) <= 0
  {
    var into, out, to := Minus(v[q], v[Prev(v, q)]), Minus(v[Next(v, q)], v[q]), Minus(v[x], v[q]);
    CornerTurns(v, q, x);
    TurnAt(v[q], v[Next(v, q)], v[x]);
    assert Cross(into, out) == Turn(v[Prev(v, q)], v[q], v[Next(v, q)]);
    assert Cross(into, to) == Turn(v[Prev(v, q)], v[q], v[x]);
    assert Cross(out, to) == Turn(v[q], v[Next(v, q)], v[x]);
    VectorPluecker(into, out, to, s);
    ProductNonNegative(Cross(into, to), Cross(out, s));
    ProductNonPositive(Cross(into, s), Cross(out, to));
    SignOfProduct(Cross(into, out), Cross(to, s));
  }

  lemma SquareMonotone(a: int, b: int)
    requires 0 <= a <= b
    ensures a * a <= b * b
  {
    assert a * a <= a * b <= b * b;
  }

  /** Over an edge, a vertex that beats its neighbours is the highest of all. */
  lemma HighestOverEdge(v: seq<Coordinate>, e: nat, q: nat, k: nat)
    requires IsConvexRing(v) && 1 <= e <= |v| && q < |v| && k < |v|
    requires Cross(Minus(v[Next(v, q)], v[q]), EdgeVector(v, e)) <= 0
    requires Cross(Minus(v[q], v[Prev(v, q)]), EdgeVector(v, e)) >= 0
    ensures 0 <= Height(v, e, k) <= Height(v, e, q)
  {
    LocalIsGlobal(v, q, k, EdgeVector(v, e));
    HeightDifference(v, e, k, q);
    HeightPositive(v, e, if k < e then k + |v| else k);
    assert Vertex(v, if k < e then k + |v| else k) == v[k];
  }

  lemma HeightDifference(v: seq<Coordinate>, e: nat, k: nat, q: nat)
    requires 1 <= e <= |v| && k < |v| && q < |v|
    ensures Cross(Minus(v[k], v[q]), EdgeVector(v, e)) == Height(v, e, k) - Height(v, e, q)
  {
  }

  lemma HigherKeepsBound(low: int, high: int, d: Coordinate, w: real)
    requires 0 <= low <= high && AtLeast(low, d, w)
    ensures AtLeast(high, d, w)
  {
    SquareMonotone(low, high);
  }

  lemma SupportBound(v: seq<Coordinate>, w: real, e: nat, q: nat)
    requires IsConvexRing(v) && EveryEdgeAtLeast(v, w) && 1 <= e <= |v| && q < |v|
    requires Cross(Minus(v[Next(v, q)], v[q]), EdgeVector(v, e)) <= 0
    requires Cross(Minus(v[q], v[Prev(v, q)]), EdgeVector(v, e)) >= 0
    ensures Height(v, e, q) >= 0 && AtLeast(Height(v, e, q), EdgeVector(v, e), w)
  {
    assert SomeVertexAtLeast(v, e, w);
    var k :| 0 <= k < |v| && AtLeast(Height(v, e, k), EdgeVector(v, e), w);
    HighestOverEdge(v, e, q, k);
    HigherKeepsBound(Height(v, e, k), Height(v, e, q), EdgeVector(v, e), w);
  }

  lemma HeightIsCross(v: seq<Coordinate>, e: nat, k: nat)
    requires 1 <= e <= |v| && k < |v|
    ensures Height(v, e, k) == Cross(Minus(v[k], Vertex(v, e - 1)), EdgeVector(v, e))
    ensures Height(v, e, k) == Cross(Minus(v[k], Vertex(v, e)), EdgeVector(v, e))
  {
  }

  lemma CauchySchwarz(s: Coordinate, t: Coordinate)
    ensures Dot(s, s) * Dot(t, t) == Dot(s, t) * Dot(s, t) + Cross(s, t) * Cross(s, t)
  {
  }

  lemma SquareRootMonotone(x: real, y: real)
    requires x >= 0.0 && y >= 0.0 && x * x >= y * y
    ensures x >= y
  {
    if x < y {
      assert y * y - x * x == (y - x) * (y + x);
      PositiveProduct(y - x, y + x);
    }
  }

  /** With S^2 >= w |s|^2 and T^2 >= w |t|^2, also S T >= w s.t. */
  lemma MixedBound(S: int, T: int, s: Coordinate, t: Coordinate, w: real)
    requires S >= 0 && T >= 0 && w >= 0.0
    requires AtLeast(S, s, w) && AtLeast(T, t, w)
    ensures (S * T) as real >= w * Dot(s, t) as real
  {
    var d := Dot(s, t);
    ProductNonNegative(S, T);
    if d > 0 {
      var ss, tt := Dot(s, s), Dot(t, t);
      CauchySchwarz(s, t);
      ProductNonNegative(Cross(s, t), Cross(s, t));
      assert d * d <= ss * tt;
      MixedSquares(S, T, ss, tt, d, w);
    } else {
      RealProduct(w, d);
    }
  }

  lemma RealProduct(w: real, d: int)
    requires w >= 0.0 && d <= 0
    ensures w * d as real <= 0.0
  {
  }

  lemma MixedSquares(S: int, T: int, ss: int, tt: int, d: int, w: real)
    requires S >= 0 && T >= 0 && w >= 0.0 && d > 0 && d * d <= ss * tt && ss >= 0 && tt >= 0
    requires (S * S) as real >= w * ss as real && (T * T) as real >= w * tt as real
    ensures (S * T) as real >= w * d as real
  {
    var x, y := (S * T) as real, w * d as real;
    MixedProduct(S, T, x);
    RealScale(w, 0, ss);
    RealScale(w, 0, tt);
    RealProducts((S * S) as real, (T * T) as real, w * ss as real, w * tt as real);
    BoundProduct(w, ss, tt, d, y);
    ProductNonNegative(S, T);
    SquareRootMonotone(x, y);
  }

  lemma MixedProduct(S: int, T: int, x: real)
    requires x == (S * T) as real
    ensures x * x == (S * S) as real * (T * T) as real
  {
    IntegerProduct(S, T);
    IntegerProduct(S, S);
    IntegerProduct(T, T);
  }

  lemma BoundProduct(w: real, ss: int, tt: int, d: int, y: real)
    requires w >= 0.0 && d * d <= ss * tt && y == w * d as real
    ensures y * y <= (w * ss as real) * (w * tt as real)
  {
    IntegerProduct(d, d);
    IntegerProduct(ss, tt);
    assert w * w >= 0.0;
    RealScale(w * w, d * d, ss * tt);
    assert y * y == w * w * (d * d) as real;
    assert (w * ss as real) * (w * tt as real) == w * w * (ss * tt) as real;
  }

  lemma RealProducts(a: real, b: real, c: real, e: real)
    requires a >= c >= 0.0 && b >= e >= 0.0
    ensures a * b >= c * e
  {
    assert a * b >= c * b >= c * e;
  }

  lemma RealScale(w: real, a: int, b: int)
    requires w >= 0.0 && a <= b
    ensures w * a as real <= w * b as real
  {
  }

  /** Vertex p is lowest and vertex q highest, among their neighbours, for the linear form x -> Cross(x, s). */
  ghost predicate Supports(v: seq<Coordinate>, p: nat, q: nat, s: Coordinate)
    requires p < |v| && q < |v|
  {
    && Cross(Minus(v[p], v[Prev(v, p)]), s) <= 0 && Cross(Minus(v[Next(v, p)], v[p]), s) >= 0
    && Cross(Minus(v[Prev(v, q)], v[q]), s) <= 0 && Cross(Minus(v[q], v[Next(v, q)]), s) >= 0
  }

  /** The width between the parallels to s through p and q is at least the bound. */
  ghost predicate Wide(p: Coordinate, q: Coordinate, s: Coordinate, w: real) {
    Cross(Minus(q, p), s) >= 0 && AtLeast(Cross(Minus(q, p), s), s, w)
  }

  lemma CrossFlips(a: Coordinate, b: Coordinate)
    ensures Cross(a, b) == -Cross(b, a) && Cross(a, a) == 0
    ensures Cross(Coordinate(-a.x, -a.y), b) == -Cross(a, b) && Cross(a, Coordinate(-b.x, -b.y)) == -Cross(a, b)
  {
  }

  /** Edge directions at p. */
  lemma WideAtLow(v: seq<Coordinate>, w: real, p: nat, q: nat, e: nat, s: Coordinate)
    requires IsConvexRing(v) && EveryEdgeAtLeast(v, w) && p < |v| && q < |v| && 1 <= e <= |v|
    requires Vertex(v, e) == v[p] || Vertex(v, e - 1) == v[p]
    requires s == EdgeVector(v, e) && Supports(v, p, q, s)
    ensures Wide(v[p], v[q], s, w)
  {
    MinusFlips(v[Prev(v, q)], v[q], EdgeVector(v, e));
    MinusFlips(v[q], v[Next(v, q)], EdgeVector(v, e));
    SupportBound(v, w, e, q);
    HeightIsCross(v, e, q);
  }

  lemma MinusFlips(a: Coordinate, b: Coordinate, s: Coordinate)
    ensures Cross(Minus(a, b), s) == -Cross(Minus(b, a), s)
    ensures Cross(s, Minus(a, b)) == -Cross(s, Minus(b, a))
  {
  }

  function Reversed(s: Coordinate): Coordinate {
    Coordinate(-s.x, -s.y)
  }

  lemma SupportsReversed(v: seq<Coordinate>, p: nat, q: nat, s: Coordinate)
    requires p < |v| && q < |v| && Supports(v, p, q, s)
    ensures Supports(v, q, p, Reversed(s))
  {
    ReversedCross(v[p], v[Prev(v, p)], s);
    ReversedCross(v[Next(v, p)], v[p], s);
    ReversedCross(v[Prev(v, q)], v[q], s);
    ReversedCross(v[q], v[Next(v, q)], s);
  }

  lemma ReversedCross(a: Coordinate, b: Coordinate, s: Coordinate)
    ensures Cross(Minus(b, a), Reversed(s)) == Cross(Minus(a, b), s)
    ensures Dot(Reversed(s), Reversed(s)) == Dot(s, s)
  {
  }

  lemma WideReversed(p: Coordinate, q: Coordinate, s: Coordinate, w: real)
    requires Wide(q, p, Reversed(s), w)
    ensures Wide(p, q, s, w)
  {
    ReversedCross(q, p, s);
  }

  /** Edge directions at q, walked backwards. */
  lemma WideAtHigh(v: seq<Coordinate>, w: real, p: nat, q: nat, e: nat, s: Coordinate)
    requires IsConvexRing(v) && EveryEdgeAtLeast(v, w) && p < |v| && q < |v| && 1 <= e <= |v|
    requires Vertex(v, e) == v[q] || Vertex(v, e - 1) == v[q]
    requires Reversed(s) == EdgeVector(v, e)
    requires Supports(v, p, q, s)
    ensures Wide(v[p], v[q], s, w)
  {
    SupportsReversed(v, p, q, s);
    WideAtLow(v, w, q, p, e, Reversed(s));
    WideReversed(v[p], v[q], s, w);
  }

  lemma SquareOfSum(k: int, a: int, b: int, m: int, s: int, t: int)
    requires k * m == a * s + b * t
    ensures (k * k) * (m * m) == (a * a) * (s * s) + 2 * (a * b) * (s * t) + (b * b) * (t * t)
  {
    var z := k * m;
    assert (k * k) * (m * m) == z * z == (a * s + b * t) * (a * s + b * t);
  }

  lemma CombinationSquares(k: int, a: int, b: int, m: Coordinate, s: Coordinate, t: Coordinate)
    requires k * m.x == a * s.x + b * t.x && k * m.y == a * s.y + b * t.y
    ensures (k * k) * Dot(m, m) == (a * a) * Dot(s, s) + 2 * (a * b) * Dot(s, t) + (b * b) * Dot(t, t)
  {
    SquareOfSum(k, a, b, m.x, s.x, t.x);
    SquareOfSum(k, a, b, m.y, s.y, t.y);
  }

  /** A direction between two directions of sufficient width has sufficient width. */
  lemma ConeBound(k: int, a: int, b: int, m: Coordinate, s: Coordinate, t: Coordinate, M: int, S: int, T: int, w: real)
    requires k > 0 && a >= 0 && b >= 0 && S >= 0 && T >= 0 && w >= 0.0
    requires k * m.x == a * s.x + b * t.x && k * m.y == a * s.y + b * t.y && k * M == a * S + b * T
    requires AtLeast(S, s, w) && AtLeast(T, t, w)
    ensures M >= 0 && AtLeast(M, m, w)
  {
    MixedBound(S, T, s, t, w);
    CombinationSquares(k, a, b, m, s, t);
    ProductNonNegative(a, S);
    ProductNonNegative(b, T);
    SignOfProduct(k, M);
    ProductNonNegative(a, a); ProductNonNegative(b, b); ProductNonNegative(a, b);
    SquareOfSum(k, a, b, M, S, T);
    SignOfProduct(k, k);
    WeightedBound(k * k, a * a, 2 * (a * b), b * b, M * M, S * S, S * T, T * T, Dot(m, m), Dot(s, s), Dot(s, t),
      Dot(t, t), w);
  }

  lemma WeightedBound(k: int, a: int, b: int, c: int, M: int, S: int, U: int, T: int, m: int, s: int, u: int, t: int,
                      w: real)
    requires k > 0 && a >= 0 && b >= 0 && c >= 0
    requires k * M == a * S + b * U + c * T && k * m == a * s + b * u + c * t
    requires S as real >= w * s as real && U as real >= w * u as real && T as real >= w * t as real
    ensures M as real >= w * m as real
  {
    ScaleBound(a, S, s, w);
    ScaleBound(b, U, u, w);
    ScaleBound(c, T, t, w);
    assert (k * M) as real >= w * (k * m) as real;
    var gap := M as real - w * m as real;
    assert k as real * gap >= 0.0;
    if gap < 0.0 { PositiveProduct(k as real, -gap); }
  }

  lemma ScaleBound(a: int, S: int, s: int, w: real)
    requires a >= 0 && S as real >= w * s as real
    ensures (a * S) as real >= w * (a * s) as real
  {
    var gap := S as real - w * s as real;
    assert a as real * gap >= 0.0;
  }

  lemma Scaled(k: int, m: int, a: int, s: int)
    requires k > 0 && a > 0 && k * m == a * s
    ensures Sign(m) == Sign(s)
  {
    SignOfProduct(k, m);
    SignOfProduct(a, s);
  }

  /** k m == a s for positive k and a: the same direction. */
  ghost predicate SameDirection(m: Coordinate, s: Coordinate) {
    Cross(m, s) == 0 && Dot(m, s) > 0
  }

  lemma SameDirectionSigns(m: Coordinate, s: Coordinate, x: Coordinate)
    requires SameDirection(m, s)
    ensures Dot(s, s) > 0
    ensures Sign(Cross(x, m)) == Sign(Cross(x, s))
    ensures Dot(s, s) * Cross(x, m) == Dot(m, s) * Cross(x, s)
    ensures Dot(s, s) * m.x == Dot(m, s) * s.x && Dot(s, s) * m.y == Dot(m, s) * s.y
  {
    NullDot(m, s);
    SquaresPositive(s);
    AlongDirection(m, s);
    CrossAlong(m, s, x);
    Scaled(Dot(s, s), Cross(x, m), Dot(m, s), Cross(x, s));
  }

  lemma NullDot(m: Coordinate, s: Coordinate)
    ensures s == Coordinate(0, 0) ==> Dot(m, s) == 0 && Cross(s, m) == 0
  {
  }

  /** |s|^2 m == (m.s) s for m along s. */
  lemma AlongDirection(m: Coordinate, s: Coordinate)
    requires Cross(m, s) == 0
    ensures Dot(s, s) * m.x == Dot(m, s) * s.x && Dot(s, s) * m.y == Dot(m, s) * s.y
  {
    Decomposed(m, s);
    WithoutTerm(Dot(s, s) * m.x, Dot(m, s) * s.x, s.y, Cross(m, s));
    WithoutTerm(Dot(s, s) * m.y, Dot(m, s) * s.y, -s.x, Cross(m, s));
  }

  lemma Decomposed(m: Coordinate, s: Coordinate)
    ensures Dot(s, s) * m.x == Dot(m, s) * s.x + s.y * Cross(m, s)
    ensures Dot(s, s) * m.y == Dot(m, s) * s.y + (-s.x) * Cross(m, s)
  {
  }

  lemma WithoutTerm(x: int, y: int, k: int, z: int)
    requires x == y + k * z && z == 0
    ensures x == y
  {
  }

  lemma CrossAlong(m: Coordinate, s: Coordinate, x: Coordinate)
    requires Cross(m, s) == 0
    ensures Dot(s, s) * Cross(x, m) == Dot(m, s) * Cross(x, s)
  {
    CrossDecomposed(m, s, x);
    WithoutTerm(Dot(s, s) * Cross(x, m), Dot(m, s) * Cross(x, s), -Dot(x, s), Cross(m, s));
  }

  lemma CrossDecomposed(m: Coordinate, s: Coordinate, x: Coordinate)
    ensures Dot(s, s) * Cross(x, m) == Dot(m, s) * Cross(x, s) + (-Dot(x, s)) * Cross(m, s)
  {
  }

  lemma SquaresPositive(s: Coordinate)
    ensures Dot(s, s) >= 0
    ensures s != Coordinate(0, 0) ==> Dot(s, s) > 0
  {
    ProductNonNegative(s.x, s.x);
    ProductNonNegative(s.y, s.y);
    SignOfProduct(s.x, s.x);
    SignOfProduct(s.y, s.y);
  }

  /** A direction parallel to an edge inherits the width from the edge. */
  lemma ParallelBound(v: seq<Coordinate>, p: nat, q: nat, m: Coordinate, s: Coordinate, w: real)
    requires p < |v| && q < |v| && w >= 0.0
    requires SameDirection(m, s) && Wide(v[p], v[q], s, w)
    ensures Wide(v[p], v[q], m, w)
  {
    var x := Minus(v[q], v[p]);
    SameDirectionSigns(m, s, x);
    ConeBound(Dot(s, s), Dot(m, s), 0, m, s, s, Cross(x, m), Cross(x, s), Cross(x, s), w);
  }

  lemma ParallelSupports(v: seq<Coordinate>, p: nat, q: nat, m: Coordinate, s: Coordinate)
    requires p < |v| && q < |v| && Supports(v, p, q, m) && SameDirection(m, s)
    ensures Supports(v, p, q, s)
  {
    SameDirectionSigns(m, s, Minus(v[p], v[Prev(v, p)]));
    SameDirectionSigns(m, s, Minus(v[Next(v, p)], v[p]));
    SameDirectionSigns(m, s, Minus(v[Prev(v, q)], v[q]));
    SameDirectionSigns(m, s, Minus(v[q], v[Next(v, q)]));
  }

  /** In a cone from a to b (clockwise, less than half a turn), m on the boundary a points along a. */
  lemma AlongFirst(a: Coordinate, b: Coordinate, m: Coordinate)
    requires m != Coordinate(0, 0) && Cross(a, b) < 0 && Cross(a, m) == 0 && Cross(b, m) >= 0
    ensures SameDirection(m, a)
  {
    CrossFlips(a, m); CrossFlips(a, b);
    NullDot(b, a);
    SquaresPositive(a);
    AlongDirection(m, a);
    CrossAlong(m, a, b);
    NotBackwards(Dot(a, a), Cross(b, m), Dot(m, a), Cross(b, a));
    if Dot(m, a) == 0 {
      NullMultiple(Dot(a, a), m.x, a.x);
      NullMultiple(Dot(a, a), m.y, a.y);
    }
  }

  lemma NotBackwards(k: int, x: int, m: int, y: int)
    requires k > 0 && x >= 0 && y > 0 && k * x == m * y
    ensures m >= 0
  {
    ProductNonNegative(k, x);
    SignOfProduct(m, y);
  }

  lemma NullMultiple(k: int, x: int, y: int)
    requires k > 0 && k * x == 0 * y
    ensures x == 0
  {
    SignOfProduct(k, x);
  }

  lemma AlongLast(a: Coordinate, b: Coordinate, m: Coordinate)
    requires m != Coordinate(0, 0) && Cross(a, b) < 0 && Cross(b, m) == 0 && Cross(a, m) <= 0
    ensures SameDirection(m, b)
  {
    var a', b', m' := Coordinate(a.x, -a.y), Coordinate(b.x, -b.y), Coordinate(m.x, -m.y);
    assert Cross(b', a') == Cross(a, b) && Cross(b', m') == -Cross(b, m) && Cross(a', m') == -Cross(a, m) by {
      assert Cross(b', a') == -Cross(b, a);
    }
    AlongFirst(b', a', m');
    assert Cross(m', b') == -Cross(m, b) && Dot(m', b') == Dot(m, b);
  }

  /** A direction s strictly before m and not before a lies inside the cone from a to b. */
  lemma BeforeInside(a: Coordinate, b: Coordinate, s: Coordinate, m: Coordinate)
    requires Cross(a, b) < 0 && Cross(a, m) < 0 && Cross(b, m) > 0
    requires Cross(a, s) <= 0 && Cross(s, m) < 0
    ensures Cross(b, s) > 0
  {
    VectorPluecker(a, b, s, m);
    ProductNonPositive(Cross(a, s), Cross(b, m));
    SignOfProduct(Cross(a, b), Cross(s, m));
    SignOfProduct(Cross(a, m), Cross(b, s));
  }

  lemma AfterInside(a: Coordinate, b: Coordinate, t: Coordinate, m: Coordinate)
    requires Cross(a, b) < 0 && Cross(a, m) < 0 && Cross(b, m) > 0
    requires Cross(b, t) >= 0 && Cross(t, m) > 0
    ensures Cross(a, t) < 0
  {
    VectorPluecker(a, b, t, m);
    ProductNonPositive(Cross(a, m), Cross(b, t));
    SignOfProduct(Cross(a, b), Cross(t, m));
    SignOfProduct(Cross(b, m), Cross(a, t));
  }

  lemma BetweenDirections(x: Coordinate, s: Coordinate, t: Coordinate, m: Coordinate)
    ensures -Cross(s, t) * m.x == Cross(t, m) * s.x + -Cross(s, m) * t.x
    ensures -Cross(s, t) * m.y == Cross(t, m) * s.y + -Cross(s, m) * t.y
    ensures -Cross(s, t) * Cross(x, m) == Cross(t, m) * Cross(x, s) + -Cross(s, m) * Cross(x, t)
  {
  }

  function Into(v: seq<Coordinate>, k: nat): Coordinate
    requires k < |v|
  {
    Minus(v[k], v[Prev(v, k)])
  }

  function Out(v: seq<Coordinate>, k: nat): Coordinate
    requires k < |v|
  {
    Minus(v[Next(v, k)], v[k])
  }

  lemma CornerIsConvex(v: seq<Coordinate>, k: nat)
    requires IsConvexRing(v) && k < |v|
    ensures Cross(Into(v, k), Out(v, k)) < 0 && Cross(Reversed(Into(v, k)), Reversed(Out(v, k))) < 0
  {
    CornerTurns(v, k, k);
    assert Cross(Into(v, k), Out(v, k)) == Turn(v[Prev(v, k)], v[k], v[Next(v, k)]);
    assert Cross(Reversed(Into(v, k)), Reversed(Out(v, k))) == Cross(Into(v, k), Out(v, k));
  }

  /** The four edge directions at the supporting vertices: those of p as they are walked, those of q reversed. */
  ghost predicate IsSide(v: seq<Coordinate>, p: nat, q: nat, s: Coordinate)
    requires p < |v| && q < |v|
  {
    s == Into(v, p) || s == Out(v, p) || s == Reversed(Into(v, q)) || s == Reversed(Out(v, q))
  }

  lemma SideEdges(v: seq<Coordinate>, k: nat)
    requires |v| >= 3 && k < |v|
    ensures EdgeVector(v, EdgeInto(v, k)) == Into(v, k) == Reversed(Reversed(Into(v, k)))
    ensures EdgeVector(v, EdgeOutOf(v, k)) == Out(v, k) == Reversed(Reversed(Out(v, k)))
  {
  }

  lemma WideSide(v: seq<Coordinate>, w: real, p: nat, q: nat, s: Coordinate)
    requires IsConvexRing(v) && EveryEdgeAtLeast(v, w) && p < |v| && q < |v|
    requires IsSide(v, p, q, s) && Supports(v, p, q, s)
    ensures Wide(v[p], v[q], s, w)
  {
    SideEdges(v, p);
    SideEdges(v, q);
    if s == Into(v, p) || s == Out(v, p) {
      WideAtLow(v, w, p, q, if s == Into(v, p) then EdgeInto(v, p) else EdgeOutOf(v, p), s);
    } else {
      WideAtHigh(v, w, p, q, if s == Reversed(Into(v, q)) then EdgeInto(v, q) else EdgeOutOf(v, q), s);
    }
  }

  /** Support as four cone conditions. */
  lemma SupportsAsCones(v: seq<Coordinate>, p: nat, q: nat, s: Coordinate)
    requires p < |v| && q < |v|
    ensures Supports(v, p, q, s) <==>
      && Cross(Into(v, p), s) <= 0 && Cross(Out(v, p), s) >= 0
      && Cross(Reversed(Into(v, q)), s) <= 0 && Cross(Reversed(Out(v, q)), s) >= 0
  {
    assert Reversed(Into(v, q)) == Minus(v[Prev(v, q)], v[q]);
    assert Reversed(Out(v, q)) == Minus(v[q], v[Next(v, q)]);
  }

  lemma WideParallel(v: seq<Coordinate>, w: real, p: nat, q: nat, m: Coordinate, s: Coordinate)
    requires IsConvexRing(v) && EveryEdgeAtLeast(v, w) && w >= 0.0 && p < |v| && q < |v|
    requires IsSide(v, p, q, s) && Supports(v, p, q, m) && SameDirection(m, s)
    ensures Wide(v[p], v[q], m, w)
  {
    ParallelSupports(v, p, q, m, s);
    WideSide(v, w, p, q, s);
    ParallelBound(v, p, q, m, s, w);
  }

  /** The side direction nearest before m, and the one nearest after it, are both supported by p and q. */
  lemma NearestSides(v: seq<Coordinate>, p: nat, q: nat, m: Coordinate) returns (s: Coordinate, t: Coordinate)
    requires IsConvexRing(v) && p < |v| && q < |v|
    requires Cross(Into(v, p), m) < 0 < Cross(Out(v, p), m)
    requires Cross(Reversed(Into(v, q)), m) < 0 < Cross(Reversed(Out(v, q)), m)
    ensures IsSide(v, p, q, s) && Supports(v, p, q, s) && IsSide(v, p, q, t) && Supports(v, p, q, t)
    ensures Cross(s, m) < 0 < Cross(t, m) && Cross(s, t) < 0
  {
    var a1, a2, b1, b2 := Into(v, p), Out(v, p), Reversed(Into(v, q)), Reversed(Out(v, q));
    CornerIsConvex(v, p);
    CornerIsConvex(v, q);
    CrossFlips(a1, b1); CrossFlips(a2, b2); CrossFlips(b1, a1); CrossFlips(b2, a2);
    CrossFlips(a1, b2); CrossFlips(b1, a2); CrossFlips(a1, a2); CrossFlips(b1, b2);
    if Cross(b1, a1) <= 0 {
      s := a1;
      BeforeInside(b1, b2, s, m);
    } else {
      s := b1;
      BeforeInside(a1, a2, s, m);
    }
    if Cross(b2, a2) >= 0 {
      t := a2;
      AfterInside(b1, b2, t, m);
    } else {
      t := b2;
      AfterInside(a1, a2, t, m);
    }
    SupportsAsCones(v, p, q, s);
    SupportsAsCones(v, p, q, t);
  }

  /** The width bound of the edges holds in every direction m, between its supporting vertices. */
  lemma WideDirection(v: seq<Coordinate>, w: real, p: nat, q: nat, m: Coordinate)
    requires IsConvexRing(v) && EveryEdgeAtLeast(v, w) && w >= 0.0 && p < |v| && q < |v|
    requires m != Coordinate(0, 0) && Supports(v, p, q, m)
    ensures Wide(v[p], v[q], m, w)
  {
    SupportsAsCones(v, p, q, m);
    CornerIsConvex(v, p);
    CornerIsConvex(v, q);
    if Cross(Into(v, p), m) == 0 {
      AlongFirst(Into(v, p), Out(v, p), m);
      WideParallel(v, w, p, q, m, Into(v, p));
    } else if Cross(Out(v, p), m) == 0 {
      AlongLast(Into(v, p), Out(v, p), m);
      WideParallel(v, w, p, q, m, Out(v, p));
    } else if Cross(Reversed(Into(v, q)), m) == 0 {
      AlongFirst(Reversed(Into(v, q)), Reversed(Out(v, q)), m);
      WideParallel(v, w, p, q, m, Reversed(Into(v, q)));
    } else if Cross(Reversed(Out(v, q)), m) == 0 {
      AlongLast(Reversed(Into(v, q)), Reversed(Out(v, q)), m);
      WideParallel(v, w, p, q, m, Reversed(Out(v, q)));
    } else {
      var s, t := NearestSides(v, p, q, m);
      WideSide(v, w, p, q, s);
      WideSide(v, w, p, q, t);
      var x := Minus(v[q], v[p]);
      BetweenDirections(x, s, t, m);
      ConeBound(-Cross(s, t), Cross(t, m), -Cross(s, m), m, s, t, Cross(x, m), Cross(x, s), Cross(x, t), w);
    }
  }

  /** All of s lies in the strip lo <= a*x + b*y <= hi. */
  ghost predicate InStrip(s: seq<Coordinate>, a: int, b: int, lo: int, hi: int) {
    forall k :: 0 <= k < |s| ==> lo <= a * s[k].x + b * s[k].y <= hi
  }

  /** The squared width (hi - lo)^2 / (a^2 + b^2) of the strip is at least w. */
  ghost predicate StripAtLeast(a: int, b: int, lo: int, hi: int, w: real) {
    ((hi - lo) * (hi - lo)) as real >= w * (a * a + b * b) as real
  }

  lemma {:induction false} LowestVertex(v: seq<Coordinate>, m: Coordinate) returns (p: nat)
    requires v != []
    ensures p < |v| && forall k :: 0 <= k < |v| ==> Cross(v[p], m) <= Cross(v[k], m)
  {
    p := 0;
    if |v| > 1 {
      p := LowestVertex(v[1..], m);
      p := p + 1;
      assert forall k :: 1 <= k < |v| ==> v[k] == v[1..][k - 1];
      if Cross(v[0], m) < Cross(v[p], m) { p := 0; }
    }
  }

  lemma CrossOfMinus(a: Coordinate, b: Coordinate, m: Coordinate)
    ensures Cross(Minus(a, b), m) == Cross(a, m) - Cross(b, m)
  {
  }

  /** No strip around a convex ring is narrower than the bound that holds over its edges. */
  lemma EveryStripAtLeast(v: seq<Coordinate>, w: real, a: int, b: int, lo: int, hi: int)
    requires IsConvexRing(v) && EveryEdgeAtLeast(v, w) && w >= 0.0
    requires (a != 0 || b != 0) && InStrip(v, a, b, lo, hi)
    ensures StripAtLeast(a, b, lo, hi, w)
  {
    var m := Coordinate(-b, a);
    var p := LowestVertex(v, m);
    var q := LowestVertex(v, Reversed(m));
    forall k | 0 <= k < |v|
      ensures Cross(v[k], Reversed(m)) == -Cross(v[k], m) && Cross(v[k], m) == a * v[k].x + b * v[k].y
    {
      CrossFlips(v[k], m);
    }
    CrossOfMinus(v[p], v[Prev(v, p)], m);
    CrossOfMinus(v[Next(v, p)], v[p], m);
    CrossOfMinus(v[Prev(v, q)], v[q], m);
    CrossOfMinus(v[q], v[Next(v, q)], m);
    WideDirection(v, w, p, q, m);
    CrossOfMinus(v[q], v[p], m);
    HigherKeepsBound(Cross(Minus(v[q], v[p]), m), hi - lo, m, w);
    assert Dot(m, m) == a * a + b * b;
  }
}
