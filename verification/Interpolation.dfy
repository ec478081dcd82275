/** Piecewise linear and bilinear interpolation between the values at the nodes of a grid. */
module Interpolation {
  import opened Reals

  /** The cell of a line of n nodes in which the position p lies; the last node belongs to the last cell. */
  function Cell(p: real, n: nat): (i: nat)
    requires n >= 2 && 0.0 <= p <= (n - 1) as real
    ensures i <= n - 2 && i as real <= p <= (i + 1) as real
  {
    if p >= (n - 1) as real then n - 2 else p.Floor
  }

  /** The value at the fraction f of the way from a to b. */
  function Mix(a: real, b: real, f: real): real {
    a + f * (b - a)
  }

  /** The value at p on the straight line through the nodes i and i + 1. */
  function InCell(h: seq<real>, i: nat, p: real): real
    requires i + 1 < |h|
  {
    Mix(h[i], h[i + 1], p - i as real)
  }

  /** v is the value at p in every cell that holds p. */
  ghost predicate IsLinear(h: seq<real>, p: real, v: real) {
    forall i: nat {:trigger InCell(h, i, p)} :: i + 1 < |h| && i as real <= p <= (i + 1) as real ==>
      v == InCell(h, i, p)
  }

  /** Neighbouring cells agree. */
  lemma CellsAgree(h: seq<real>, p: real)
    requires |h| >= 2 && 0.0 <= p <= (|h| - 1) as real
    ensures IsLinear(h, p, InCell(h, Cell(p, |h|), p))
  {
    var c := Cell(p, |h|);
    forall i: nat {:trigger InCell(h, i, p)} | i + 1 < |h| && i as real <= p <= (i + 1) as real
      ensures InCell(h, c, p) == InCell(h, i, p)
    {
      if i < c {
        assert p == c as real && p - i as real == 1.0;
      }
    }
  }

  /** The piecewise linear function through the values h. */
  ghost function Linear(h: seq<real>, p: real): (v: real)
    requires |h| >= 2 && 0.0 <= p <= (|h| - 1) as real
    ensures IsLinear(h, p, v)
  {
    CellsAgree(h, p);
    var v :| IsLinear(h, p, v);
    v
  }

  /** A node keeps its own value. */
  lemma LinearAtNode(h: seq<real>, k: nat)
    requires |h| >= 2 && k < |h|
    ensures Linear(h, k as real) == h[k]
  {
    var i := if k == |h| - 1 then k - 1 else k;
    assert Linear(h, k as real) == InCell(h, i, k as real);
  }

  lemma Convex(a: real, b: real, f: real, lo: real, hi: real)
    requires lo <= a <= hi && lo <= b <= hi && 0.0 <= f <= 1.0
    ensures lo <= Mix(a, b, f) <= hi
  {
    var g := 1.0 - f;
    assert a + f * (b - a) == g * a + f * b;
    NonNegativeProduct(g, a - lo); NonNegativeProduct(f, b - lo);
    NonNegativeProduct(g, hi - a); NonNegativeProduct(f, hi - b);
    assert g * (a - lo) + f * (b - lo) == g * a + f * b - lo;
    assert g * (hi - a) + f * (hi - b) == hi - (g * a + f * b);
  }

  /** Interpolated values stay between bounds of the nodes around. */
  lemma LinearBounds(h: seq<real>, i: nat, p: real, lo: real, hi: real)
    requires i + 1 < |h| && i as real <= p <= (i + 1) as real
    requires lo <= h[i] <= hi && lo <= h[i + 1] <= hi
    ensures lo <= Linear(h, p) <= hi
  {
    assert Linear(h, p) == InCell(h, i, p);
    Convex(h[i], h[i + 1], p - i as real, lo, hi);
  }

  /** Interpolation does not enlarge differences between node values. */
  lemma LinearDifference(h: seq<real>, g: seq<real>, p: real, d: real)
    requires |h| == |g| >= 2 && 0.0 <= p <= (|h| - 1) as real && RowsClose(h, g, d)
    ensures Fabs(Linear(h, p) - Linear(g, p)) <= d
  {
    var i := Cell(p, |h|);
    assert Linear(h, p) == InCell(h, i, p) && Linear(g, p) == InCell(g, i, p);
    assert Fabs(h[i] - g[i]) <= d && Fabs(h[i + 1] - g[i + 1]) <= d;
    DifferenceInCell(h[i], h[i + 1], g[i], g[i + 1], p - i as real, d);
  }

  lemma DifferenceInCell(a: real, b: real, c: real, e: real, f: real, d: real)
    requires 0.0 <= f <= 1.0 && Fabs(a - c) <= d && Fabs(b - e) <= d
    ensures Fabs(Mix(a, b, f) - Mix(c, e, f)) <= d
  {
    Convex(a - c, b - e, f, -d, d);
    MixOfDifferences(a, b, c, e, f);
  }

  lemma MixOfDifferences(a: real, b: real, c: real, e: real, f: real)
    ensures Mix(a, b, f) - Mix(c, e, f) == Mix(a - c, b - e, f)
  {
  }

  ghost predicate RowsClose(h: seq<real>, g: seq<real>, d: real) {
    |h| == |g| && forall k {:trigger h[k]} {:trigger g[k]} :: 0 <= k < |h| ==> Fabs(h[k] - g[k]) <= d
  }

  ghost predicate Gentle(h: seq<real>, d: real) {
    forall k {:trigger h[k]} :: 0 <= k < |h| - 1 ==> Fabs(h[k + 1] - h[k]) <= d
  }

  lemma SlopeInCell(a: real, b: real, f: real, g: real, d: real)
    requires Fabs(b - a) <= d && f <= g
    ensures Fabs(Mix(a, b, g) - Mix(a, b, f)) <= d * (g - f)
  {
    var s, t := b - a, g - f;
    MixSlope(a, b, f, g);
    NonNegativeProduct(d - s, t);
    NonNegativeProduct(d + s, t);
    assert (d - s) * t == d * t - s * t && (d + s) * t == d * t + s * t;
  }

  lemma MixSlope(a: real, b: real, f: real, g: real)
    ensures Mix(a, b, g) - Mix(a, b, f) == (b - a) * (g - f)
  {
  }

  lemma RisingInCell(h: seq<real>, i: nat, p: real, q: real, d: real)
    requires i + 1 < |h| && i as real <= p <= q <= (i + 1) as real && Fabs(h[i + 1] - h[i]) <= d
    ensures Fabs(Linear(h, q) - Linear(h, p)) <= d * (q - p)
  {
    assert Linear(h, q) == InCell(h, i, q) && Linear(h, p) == InCell(h, i, p);
    var f, g := p - i as real, q - i as real;
    SlopeInCell(h[i], h[i + 1], f, g, d);
    assert g - f == q - p;
  }

  lemma AddSlopes(a: real, b: real, c: real, d: real, p: real, m: real, q: real)
    requires Fabs(b - a) <= d * (m - p) && Fabs(c - b) <= d * (q - m)
    ensures Fabs(c - a) <= d * (q - p)
  {
    assert d * (q - p) == d * (m - p) + d * (q - m);
  }

  lemma {:induction false} LinearRising(h: seq<real>, i: nat, p: real, q: real, d: real)
    requires i + 1 < |h| && i as real <= p <= (i + 1) as real && p <= q <= (|h| - 1) as real && Gentle(h, d)
    ensures Fabs(Linear(h, q) - Linear(h, p)) <= d * (q - p)
    decreases |h| - i
  {
    assert Fabs(h[i + 1] - h[i]) <= d;
    if q <= (i + 1) as real {
      RisingInCell(h, i, p, q, d);
    } else {
      var node := (i + 1) as real;
      RisingInCell(h, i, p, node, d);
      LinearRising(h, i + 1, node, q, d);
      AddSlopes(Linear(h, p), Linear(h, node), Linear(h, q), d, p, node, q);
    }
  }

  /** The slope is bounded by the differences of adjacent nodes, across any number of cells. */
  lemma LinearSlope(h: seq<real>, p: real, q: real, d: real)
    requires |h| >= 2 && 0.0 <= p <= (|h| - 1) as real && 0.0 <= q <= (|h| - 1) as real && Gentle(h, d)
    ensures Fabs(Linear(h, q) - Linear(h, p)) <= d * Fabs(q - p)
  {
    if p <= q { LinearRising(h, Cell(p, |h|), p, q, d); } else { LinearRising(h, Cell(q, |h|), q, p, d); }
  }

  // --- Two dimensions

  /** The values in the rows of a grid, at the same position x of each. */
  ghost function Across(rows: seq<seq<real>>, n: nat, x: real): (h: seq<real>)
    requires n >= 2 && 0.0 <= x <= (n - 1) as real && forall j :: 0 <= j < |rows| ==> |rows[j]| == n
    ensures |h| == |rows| && forall j {:trigger h[j]} :: 0 <= j < |rows| ==> h[j] == Linear(rows[j], x)
  {
    seq(|rows|, j requires 0 <= j < |rows| => Linear(rows[j], x))
  }

  /** The bilinear surface through the values of the rows. */
  ghost function Surface(rows: seq<seq<real>>, n: nat, x: real, y: real): real
    requires n >= 2 && |rows| >= 2 && 0.0 <= x <= (n - 1) as real && 0.0 <= y <= (|rows| - 1) as real
    requires forall j :: 0 <= j < |rows| ==> |rows[j]| == n
  {
    Linear(Across(rows, n, x), y)
  }

  ghost predicate IsGrid(rows: seq<seq<real>>, n: nat) {
    n >= 2 && |rows| >= 2 && forall j {:trigger rows[j]} :: 0 <= j < |rows| ==> |rows[j]| == n
  }

  ghost predicate Within(rows: seq<seq<real>>, n: nat, x: real, y: real) {
    0.0 <= x <= (n - 1) as real && 0.0 <= y <= (|rows| - 1) as real
  }

  /** Within a cell the surface is linear between the values on two of its edges. */
  lemma SurfaceByEdges(rows: seq<seq<real>>, n: nat, x: real, y: real, i: nat, j: nat) returns (p: real, q: real)
    requires IsGrid(rows, n) && Within(rows, n, x, y) && i <= n - 2 && j <= |rows| - 2
    requires i as real <= x <= (i + 1) as real && j as real <= y <= (j + 1) as real
    ensures p == InCell(rows[j], i, x) && q == InCell(rows[j + 1], i, x)
    ensures Surface(rows, n, x, y) == Mix(p, q, y - j as real)
  {
    var h := Across(rows, n, x);
    assert Linear(h, y) == InCell(h, j, y);
    assert h[j] == Linear(rows[j], x) && h[j + 1] == Linear(rows[j + 1], x);
    p, q := h[j], h[j + 1];
    assert Linear(rows[j], x) == InCell(rows[j], i, x) && Linear(rows[j + 1], x) == InCell(rows[j + 1], i, x);
  }

  /** The four weights of a cell add up to one, and with them the surface is the weighted mean of the corners. */
  lemma SurfaceByWeights(rows: seq<seq<real>>, n: nat, x: real, y: real, i: nat, j: nat, f: real, g: real)
    requires IsGrid(rows, n) && Within(rows, n, x, y) && i <= n - 2 && j <= |rows| - 2
    requires f == x - i as real && g == y - j as real && 0.0 <= f <= 1.0 && 0.0 <= g <= 1.0
    ensures Surface(rows, n, x, y) == Mean(f, g, rows[j][i], rows[j][i + 1], rows[j + 1][i], rows[j + 1][i + 1])
  {
    var p, q := SurfaceByEdges(rows, n, x, y, i, j);
    Bilinear(rows[j][i], rows[j][i + 1], rows[j + 1][i], rows[j + 1][i + 1], f, g, p, q, Surface(rows, n, x, y));
  }

  function Mean(f: real, g: real, a: real, b: real, c: real, d: real): real {
    (1.0 - f) * (1.0 - g) * a + f * (1.0 - g) * b + (1.0 - f) * g * c + f * g * d
  }

  lemma Bilinear(a: real, b: real, c: real, d: real, f: real, g: real, p: real, q: real, v: real)
    requires p == Mix(a, b, f) && q == Mix(c, d, f) && v == Mix(p, q, g)
    ensures v == Mean(f, g, a, b, c, d)
  {
  }

  lemma SurfaceAtNode(rows: seq<seq<real>>, n: nat, i: nat, j: nat)
    requires IsGrid(rows, n) && i < n && j < |rows|
    ensures Surface(rows, n, i as real, j as real) == rows[j][i]
  {
    LinearAtNode(Across(rows, n, i as real), j);
    LinearAtNode(rows[j], i);
  }

  /** The surface stays between bounds of the corners of its cell. */
  lemma SurfaceInCell(rows: seq<seq<real>>, n: nat, x: real, y: real, i: nat, j: nat, lo: real, hi: real)
    requires IsGrid(rows, n) && Within(rows, n, x, y) && i <= n - 2 && j <= |rows| - 2
    requires i as real <= x <= (i + 1) as real && j as real <= y <= (j + 1) as real
    requires lo <= rows[j][i] <= hi && lo <= rows[j][i + 1] <= hi && lo <= rows[j + 1][i] <= hi &&
      lo <= rows[j + 1][i + 1] <= hi
    ensures lo <= Surface(rows, n, x, y) <= hi
  {
    var h := Across(rows, n, x);
    LinearBounds(rows[j], i, x, lo, hi);
    LinearBounds(rows[j + 1], i, x, lo, hi);
    assert h[j] == Linear(rows[j], x) && h[j + 1] == Linear(rows[j + 1], x);
    LinearBounds(h, j, y, lo, hi);
  }

  /** Adjacent nodes differ by at most dx within a row and by at most dy between rows. */
  ghost predicate GentleGrid(rows: seq<seq<real>>, n: nat, dx: real, dy: real)
    requires IsGrid(rows, n)
  {
    && (forall j {:trigger rows[j]} :: 0 <= j < |rows| ==> Gentle(rows[j], dx))
    && (forall j {:trigger rows[j]} :: 0 <= j < |rows| - 1 ==> RowsClose(rows[j], rows[j + 1], dy))
  }

  /** The surface changes by at most dx for a step along the rows and dy for a step across them. */
  lemma SurfaceSlope(rows: seq<seq<real>>, n: nat, dx: real, dy: real, x: real, y: real, x': real, y': real)
    requires IsGrid(rows, n) && GentleGrid(rows, n, dx, dy) && Within(rows, n, x, y) && Within(rows, n, x', y')
    ensures Fabs(Surface(rows, n, x', y') - Surface(rows, n, x, y)) <= dx * Fabs(x' - x) + dy * Fabs(y' - y)
  {
    var h, g := Across(rows, n, x), Across(rows, n, x');
    AcrossSlope(rows, n, dx, x, x', h, g, dx * Fabs(x' - x));
    LinearDifference(g, h, y', dx * Fabs(x' - x));
    AcrossGentle(rows, n, dx, dy, x, h);
    LinearSlope(h, y, y', dy);
    Triangle(Surface(rows, n, x', y'), Linear(h, y'), Surface(rows, n, x, y), dx * Fabs(x' - x), dy * Fabs(y' - y));
  }

  lemma AcrossSlope(rows: seq<seq<real>>, n: nat, dx: real, x: real, x': real, h: seq<real>, g: seq<real>, e: real)
    requires IsGrid(rows, n) && 0.0 <= x <= (n - 1) as real && 0.0 <= x' <= (n - 1) as real && e == dx * Fabs(x' - x)
    requires h == Across(rows, n, x) && g == Across(rows, n, x')
    requires forall j {:trigger rows[j]} :: 0 <= j < |rows| ==> Gentle(rows[j], dx)
    ensures RowsClose(g, h, e)
  {
    forall j {:trigger h[j]} {:trigger g[j]} | 0 <= j < |rows| ensures Fabs(g[j] - h[j]) <= e {
      assert Gentle(rows[j], dx);
      LinearSlope(rows[j], x, x', dx);
    }
  }

  lemma AcrossGentle(rows: seq<seq<real>>, n: nat, dx: real, dy: real, x: real, h: seq<real>)
    requires IsGrid(rows, n) && GentleGrid(rows, n, dx, dy) && 0.0 <= x <= (n - 1) as real && h == Across(rows, n, x)
    ensures Gentle(h, dy)
  {
    forall j | 0 <= j < |h| - 1 ensures Fabs(h[j + 1] - h[j]) <= dy {
      assert RowsClose(rows[j], rows[j + 1], dy);
      LinearDifference(rows[j], rows[j + 1], x, dy);
    }
  }

  lemma Triangle(a: real, b: real, c: real, d: real, e: real)
    requires Fabs(a - b) <= d && Fabs(b - c) <= e
    ensures Fabs(a - c) <= d + e
  {
  }
}
