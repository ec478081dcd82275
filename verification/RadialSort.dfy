/** Sorting points radially around the focal point. The library sort is modelled by insertion;
    since the order is strict and total, every sort gives the same sequence. */
module RadialSort {
  import opened Plane
  import opened RadialOrder
  import opened GrahamScan

  ghost predicate Distinct(s: seq<Coordinate>) {
    forall i, j :: 0 <= i < j < |s| ==> s[i] != s[j]
  }

  ghost predicate SameElements(s: seq<Coordinate>, t: seq<Coordinate>) {
    |s| == |t| && forall p :: p in s <==> p in t
  }

  predicate AtOrAbove(o: Coordinate, p: Coordinate) {
    p == o || Above(o, p)
  }

  ghost predicate SortedAround(o: Coordinate, s: seq<Coordinate>) {
    && (forall k {:trigger s[k]} :: 0 <= k < |s| ==> AtOrAbove(o, s[k]))
    && (forall i, j {:trigger Precedes(o, s[i], s[j])} :: 0 <= i < j < |s| ==> Precedes(o, s[i], s[j]))
  }

  lemma OrderTotal(o: Coordinate, p: Coordinate, q: Coordinate)
    requires AtOrAbove(o, p) && AtOrAbove(o, q)
    ensures p == q ==> !Precedes(o, p, q)
    ensures p != q ==> (Precedes(o, p, q) <==> !Precedes(o, q, p))
    ensures q == o ==> !Precedes(o, p, q)
  {
    if p == o && q == o {
      TurnAt(o, o, o);
    } else if p == o {
      PrecedesTotal(o, q, q);
    } else if q == o {
      PrecedesTotal(o, p, p);
    } else {
      PrecedesTotal(o, p, q);
    }
  }

  lemma OrderTransitive(o: Coordinate, p: Coordinate, q: Coordinate, r: Coordinate)
    requires AtOrAbove(o, p) && AtOrAbove(o, q) && AtOrAbove(o, r)
    requires Precedes(o, p, q) && Precedes(o, q, r)
    ensures Precedes(o, p, r)
  {
    OrderTotal(o, p, q);
    OrderTotal(o, q, r);
    if p == o {
      PrecedesTotal(o, r, r);
    } else {
      PrecedesTransitive(o, p, q, r);
    }
  }

  function InsertRadially(o: Coordinate, s: seq<Coordinate>, p: Coordinate): seq<Coordinate> {
    if s == [] then [p]
    else if Precedes(o, p, s[0]) then [p] + s
    else [s[0]] + InsertRadially(o, s[1..], p)
  }

  lemma {:induction false} InsertElements(o: Coordinate, s: seq<Coordinate>, p: Coordinate)
    ensures |InsertRadially(o, s, p)| == |s| + 1
    ensures forall q :: q in InsertRadially(o, s, p) <==> q == p || q in s
  {
    if s != [] {
      InsertElements(o, s[1..], p);
      assert s == [s[0]] + s[1..];
    }
  }

  lemma {:induction false} InsertSorted(o: Coordinate, s: seq<Coordinate>, p: Coordinate)
    requires SortedAround(o, s) && AtOrAbove(o, p) && p !in s
    ensures SortedAround(o, InsertRadially(o, s, p))
  {
    var r := InsertRadially(o, s, p);
    if s == [] {
    } else if Precedes(o, p, s[0]) {
      forall j | 1 <= j < |r| ensures Precedes(o, p, r[j]) {
        if j > 1 {
          assert Precedes(o, s[0], s[j - 1]);
          OrderTransitive(o, p, s[0], s[j - 1]);
        }
      }
      forall i, j | 1 <= i < j < |r| ensures Precedes(o, r[i], r[j]) {
        assert Precedes(o, s[i - 1], s[j - 1]);
      }
    } else {
      var t := s[1..];
      OrderTotal(o, p, s[0]);
      forall i, j | 0 <= i < j < |t| ensures Precedes(o, t[i], t[j]) {
        assert Precedes(o, s[i + 1], s[j + 1]);
      }
      InsertSorted(o, t, p);
      InsertElements(o, t, p);
      var u := InsertRadially(o, t, p);
      forall j | 0 <= j < |u| ensures Precedes(o, s[0], u[j]) {
        assert u[j] in u;
        if u[j] != p {
          var k :| 0 <= k < |t| && t[k] == u[j];
          assert Precedes(o, s[0], s[k + 1]);
        }
      }
    }
  }

  method SortRadially(o: Coordinate, pts: seq<Coordinate>) returns (sorted: seq<Coordinate>)
    requires Distinct(pts) && o in pts
    requires forall k :: 0 <= k < |pts| ==> AtOrAbove(o, pts[k])
    ensures RadiallySorted(sorted) && sorted[0] == o
    ensures SameElements(sorted, pts)
  {
    sorted := [];
    for i := 0 to |pts|
      invariant |sorted| == i
      invariant forall p :: p in sorted <==> p in pts[..i]
      invariant SortedAround(o, sorted)
    {
      assert pts[i] !in pts[..i];
      InsertElements(o, sorted, pts[i]);
      InsertSorted(o, sorted, pts[i]);
      sorted := InsertRadially(o, sorted, pts[i]);
      assert pts[..i + 1] == pts[..i] + [pts[i]];
    }
    assert pts[..|pts|] == pts;
    FocalPointFirst(o, sorted);
  }

  lemma FocalPointFirst(o: Coordinate, s: seq<Coordinate>)
    requires SortedAround(o, s) && o in s
    ensures s[0] == o && RadiallySorted(s)
  {
    var k :| 0 <= k < |s| && s[k] == o;
    if k > 0 {
      assert Precedes(o, s[0], s[k]);
      OrderTotal(o, s[0], s[k]);
    }
    forall j | 0 < j < |s| ensures Above(o, s[j]) {
      assert Precedes(o, s[0], s[j]);
      OrderTotal(o, s[0], s[j]);
    }
  }

  /** The radially sorted arrangement of a set of points is unique, so it does not matter how it was found. */
  lemma {:induction false} SortIsUnique(o: Coordinate, s: seq<Coordinate>, t: seq<Coordinate>)
    requires SortedAround(o, s) && SortedAround(o, t)
    requires forall p :: p in s <==> p in t
    ensures s == t
  {
    assert t == [] || t[0] in t;
    if s != [] {
      assert s[0] in s;
      FirstIsLeast(o, s, t[0]);
      FirstIsLeast(o, t, s[0]);
      if s[0] != t[0] { OrderTotal(o, s[0], t[0]); }
      TailSorted(o, s);
      TailSorted(o, t);
      assert forall p :: p in s[1..] <==> p in s && p != s[0];
      assert forall p :: p in t[1..] <==> p in t && p != t[0];
      SortIsUnique(o, s[1..], t[1..]);
    }
  }

  lemma FirstIsLeast(o: Coordinate, s: seq<Coordinate>, p: Coordinate)
    requires SortedAround(o, s) && p in s
    ensures p == s[0] || Precedes(o, s[0], p)
  {
    var k :| 0 <= k < |s| && s[k] == p;
    if k > 0 { assert Precedes(o, s[0], s[k]); }
  }

  lemma TailSorted(o: Coordinate, s: seq<Coordinate>)
    requires SortedAround(o, s) && s != []
    ensures SortedAround(o, s[1..])
    ensures forall p :: p in s[1..] <==> p in s && p != s[0]
  {
    var t := s[1..];
    forall i, j | 0 <= i < j < |t| ensures Precedes(o, t[i], t[j]) {
      assert Precedes(o, s[i + 1], s[j + 1]);
    }
    forall k | 0 <= k < |t| ensures t[k] != s[0] {
      assert Precedes(o, s[0], s[k + 1]);
      OrderTotal(o, s[0], s[k + 1]);
    }
    assert s == [s[0]] + t;
  }
}
