/**
 * `monotonic_chain` of tools/zone_builder.py: Andrew's monotone-chain convex hull, used to
 * draw a zone's outline from the positions of its nodes.
 */
module ConvexHull {
  import opened Wrappers

  /** A point `(x, y)`, compared as a Python tuple. */
  type Point = (real, real)

  /** Python's `<` on two pairs: by `x`, then by `y`. */
  predicate Less(a: Point, b: Point)
  {
    a.0 < b.0 || (a.0 == b.0 && a.1 < b.1)
  }

  /** Strictly increasing: the shape of `sorted(set(points))`. */
  predicate StrictlySorted(s: seq<Point>)
  {
    forall i, j :: 0 <= i < j < |s| ==> Less(s[i], s[j])
  }

  /** The elements of a concatenation. */
  lemma ElementsConcat(a: seq<Point>, b: seq<Point>)
    ensures Elements(a + b) == Elements(a) + Elements(b)
  {
    forall q ensures q in Elements(a + b) <==> q in Elements(a) || q in Elements(b) {
      assert q in a + b <==> q in a || q in b;
    }
  }

  /** Insert `p` into a sorted list unless it is already there. */
  function Insert(s: seq<Point>, p: Point): seq<Point>
  {
    if s == [] then [p]
    else if p == s[0] then s
    else if Less(p, s[0]) then [p] + s
    else [s[0]] + Insert(s[1..], p)
  }

  /** Inserting adds exactly `p` to the elements. */
  lemma {:induction false} InsertElements(s: seq<Point>, p: Point)
    ensures Elements(Insert(s, p)) == Elements(s) + {p}
  {
    if s == [] {
    } else if p == s[0] {
      assert s[0] in Elements(s);
    } else if Less(p, s[0]) {
      ElementsConcat([p], s);
      assert Elements([p]) == {p};
    } else {
      InsertElements(s[1..], p);
      assert s == [s[0]] + s[1..];
      ElementsConcat([s[0]], s[1..]);
      ElementsConcat([s[0]], Insert(s[1..], p));
      assert Elements([s[0]]) == {s[0]};
    }
  }

  /** Inserting keeps a list strictly sorted. */
  lemma {:induction false} InsertSorted(s: seq<Point>, p: Point)
    requires StrictlySorted(s)
    ensures StrictlySorted(Insert(s, p))
  {
    if s == [] || p == s[0] {
    } else if Less(p, s[0]) {
      forall i, j | 0 <= i < j < |[p] + s| ensures Less(([p] + s)[i], ([p] + s)[j]) {
        if i > 0 {
          assert ([p] + s)[i] == s[i - 1];
        }
      }
    } else {
      var rest := Insert(s[1..], p);
      InsertSorted(s[1..], p);
      InsertElements(s[1..], p);
      forall q | q in rest ensures Less(s[0], q) {
        assert q in Elements(rest);
        if q != p {
          assert q in Elements(s[1..]);
        }
      }
      var r := [s[0]] + rest;
      forall i, j | 0 <= i < j < |r| ensures Less(r[i], r[j]) {
        assert r[j] == rest[j - 1];
        if i > 0 {
          assert r[i] == rest[i - 1];
        }
      }
    }
  }

  /** `sorted(set(points))`. */
  function SortedSet(points: seq<Point>): (r: seq<Point>)
    ensures StrictlySorted(r)
    ensures Elements(r) == Elements(points)
  {
    if points == [] then []
    else
      var init := SortedSet(points[..|points| - 1]);
      assert points == points[..|points| - 1] + [points[|points| - 1]];
      ElementsConcat(points[..|points| - 1], [points[|points| - 1]]);
      assert Elements([points[|points| - 1]]) == {points[|points| - 1]};
      InsertSorted(init, points[|points| - 1]);
      InsertElements(init, points[|points| - 1]);
      Insert(init, points[|points| - 1])
  }

  /** `cross(o, a, b)`: positive when `o`, `a`, `b` turn counter-clockwise. */
  function Cross(o: Point, a: Point, b: Point): real
  {
    (a.0 - o.0) * (b.1 - o.1) - (a.1 - o.1) * (b.0 - o.0)
  }

  /** Every three consecutive points make a strict left turn. */
  predicate LeftTurns(chain: seq<Point>)
  {
    forall k :: 0 <= k < |chain| - 2 ==> Cross(chain[k], chain[k + 1], chain[k + 2]) > 0.0
  }

  /** `chain` picks the entries `idx` of `pts`, at increasing positions. */
  ghost predicate Picks(chain: seq<Point>, pts: seq<Point>, idx: seq<int>)
  {
    && |idx| == |chain|
    && (forall k :: 0 <= k < |idx| ==> 0 <= idx[k] < |pts| && chain[k] == pts[idx[k]])
    && (forall k, l :: 0 <= k < l < |idx| ==> idx[k] < idx[l])
  }

  /** Every picked position is below `i`. */
  ghost predicate Before(idx: seq<int>, i: int)
  {
    forall k :: 0 <= k < |idx| ==> idx[k] < i
  }

  /** A chain picked at increasing positions of distinct points has no duplicates. */
  lemma PicksDistinct(chain: seq<Point>, pts: seq<Point>, idx: seq<int>)
    requires Picks(chain, pts, idx) && Distinct(pts)
    ensures Distinct(chain)
  {
    forall k, l | 0 <= k < l < |chain| ensures chain[k] != chain[l] {
      assert idx[k] < idx[l];
    }
  }

  /**
   * What holds of the chain once the points before `i` have been walked: it picks earlier
   * points at increasing positions, turns left throughout, and starts with the first point.
   */
  ghost predicate Walked(chain: seq<Point>, pts: seq<Point>, idx: seq<int>, i: int)
  {
    && Picks(chain, pts, idx) && LeftTurns(chain) && Before(idx, i)
    && |chain| <= i
    && (i > 0 ==> |chain| > 0 && |pts| > 0 && chain[0] == pts[0])
  }

  /** Popping the last point (never the first) keeps what the walk established. */
  lemma DropLast(chain: seq<Point>, pts: seq<Point>, idx: seq<int>, i: int)
    requires Walked(chain, pts, idx, i) && |chain| >= 2
    ensures Walked(chain[..|chain| - 1], pts, idx[..|idx| - 1], i)
  {
  }

  /** Appending `pts[i]` after a left turn (or to a chain of fewer than two points) walks one point further. */
  lemma Push(chain: seq<Point>, pts: seq<Point>, idx: seq<int>, i: int)
    requires Walked(chain, pts, idx, i) && 0 <= i < |pts|
    requires |chain| >= 2 ==> Cross(chain[|chain| - 2], chain[|chain| - 1], pts[i]) > 0.0
    ensures Walked(chain + [pts[i]], pts, idx + [i], i + 1)
  {
    var c := chain + [pts[i]];
    forall k | 0 <= k < |c| - 2 ensures Cross(c[k], c[k + 1], c[k + 2]) > 0.0 {
      if k + 2 < |chain| {
        assert c[k] == chain[k] && c[k + 1] == chain[k + 1] && c[k + 2] == chain[k + 2];
      }
    }
  }

  /** A finished walk gives a left-turning chain of input points from the first point to the last. */
  lemma Walk(chain: seq<Point>, pts: seq<Point>, idx: seq<int>)
    requires Walked(chain, pts, idx, |pts|)
    requires |pts| > 0 ==> chain[|chain| - 1] == pts[|pts| - 1]
    ensures forall k :: 0 <= k < |chain| ==> chain[k] in pts
    ensures Distinct(pts) ==> Distinct(chain)
  {
    if Distinct(pts) {
      PicksDistinct(chain, pts, idx);
    }
  }

  /** The inner `while` of either half: pop the last point while the turn towards `pts[i]` is not strictly left. */
  method PopRightTurns(chain: seq<Point>, ghost idx: seq<int>, pts: seq<Point>, i: int)
    returns (c: seq<Point>, ghost cidx: seq<int>)
    requires Walked(chain, pts, idx, i) && 0 <= i < |pts|
    ensures Walked(c, pts, cidx, i)
    ensures |c| >= 2 ==> Cross(c[|c| - 2], c[|c| - 1], pts[i]) > 0.0
  {
    c, cidx := chain, idx;
    while |c| >= 2 && Cross(c[|c| - 2], c[|c| - 1], pts[i]) <= 0.0
      invariant Walked(c, pts, cidx, i)
      decreases |c|
    {
      DropLast(c, pts, cidx, i);
      c := c[..|c| - 1];
      cidx := cidx[..|cidx| - 1];
    }
  }

  /**
   * One half of the hull (the `lower` or the `upper` loop): walk the points in order, popping
   * the last chain point while it does not make a strict left turn towards the next one.
   */
  method Chain(pts: seq<Point>) returns (chain: seq<Point>)
    ensures forall k :: 0 <= k < |chain| ==> chain[k] in pts
    ensures Distinct(pts) ==> Distinct(chain)
    ensures LeftTurns(chain)
    ensures |pts| > 0 ==> |chain| > 0 && chain[0] == pts[0] && chain[|chain| - 1] == pts[|pts| - 1]
    ensures |chain| <= |pts|
  {
    chain := [];
    ghost var idx: seq<int> := [];
    for i := 0 to |pts|
      invariant Walked(chain, pts, idx, i)
      invariant i > 0 ==> chain[|chain| - 1] == pts[i - 1]
    {
      var p := pts[i];
      chain, idx := PopRightTurns(chain, idx, pts, i);
      Push(chain, pts, idx, i);
      chain := chain + [p];
      idx := idx + [i];
    }
    Walk(chain, pts, idx);
  }

  /** `reversed(pts)`. */
  function Reversed(s: seq<Point>): (r: seq<Point>)
    ensures |r| == |s| && forall k :: 0 <= k < |s| ==> r[k] == s[|s| - 1 - k]
  {
    seq(|s|, k requires 0 <= k < |s| => s[|s| - 1 - k])
  }

  /** Strictly sorted points are distinct. */
  lemma SortedDistinct(s: seq<Point>)
    requires StrictlySorted(s)
    ensures Distinct(s) && Distinct(Reversed(s))
  {
    forall i, j | 0 <= i < j < |s| ensures Reversed(s)[i] != Reversed(s)[j] {
      assert Less(s[|s| - 1 - j], s[|s| - 1 - i]);
    }
  }

  /** The lexicographically smallest of `points`. */
  ghost predicate IsLeast(p: Point, points: seq<Point>)
  {
    p in points && forall q :: q in points && q != p ==> Less(p, q)
  }

  /** The lexicographically largest of `points`. */
  ghost predicate IsGreatest(p: Point, points: seq<Point>)
  {
    p in points && forall q :: q in points && q != p ==> Less(q, p)
  }

  /** In strictly sorted points the first is the least and the last the greatest of any list with the same elements. */
  lemma SortedEnds(pts: seq<Point>, points: seq<Point>)
    requires StrictlySorted(pts) && Elements(pts) == Elements(points) && pts != []
    ensures IsLeast(pts[0], points) && IsGreatest(pts[|pts| - 1], points)
  {
    assert pts[0] in Elements(pts) && pts[|pts| - 1] in Elements(pts);
    forall q | q in points ensures q in pts {
      assert q in Elements(points);
    }
  }

  /**
   * `monotonic_chain`: the de-duplicated sorted points when there are at most one of them;
   * otherwise the lower chain without its last point followed by the upper chain without its
   * last point, which starts at the smallest input point and passes through the largest.
   */
  method MonotonicChain(points: seq<Point>) returns (hull: seq<Point>)
    ensures |SortedSet(points)| <= 1 ==> hull == SortedSet(points)
    ensures forall k :: 0 <= k < |hull| ==> hull[k] in points
    ensures points != [] ==> hull != []
    ensures |SortedSet(points)| >= 2 ==>
              |hull| >= 2 && IsLeast(hull[0], points) && exists k :: 0 <= k < |hull| && IsGreatest(hull[k], points)
  {
    var pts := SortedSet(points);
    assert forall q :: q in pts <==> q in points by {
      forall q ensures q in pts <==> q in points {
        assert q in pts <==> q in Elements(pts);
        assert q in points <==> q in Elements(points);
      }
    }
    if |pts| <= 1 {
      return pts;
    }
    SortedDistinct(pts);
    SortedEnds(pts, points);
    var lower := Chain(pts);
    var upper := Chain(Reversed(pts));
    assert pts[0] != pts[|pts| - 1];
    hull := lower[..|lower| - 1] + upper[..|upper| - 1];
    assert hull[0] == pts[0];
    assert hull[|lower| - 1] == upper[0] == pts[|pts| - 1];
    forall k | 0 <= k < |hull| ensures hull[k] in points {
      if k < |lower| - 1 {
        assert hull[k] == lower[k];
      } else {
        assert hull[k] == upper[k - (|lower| - 1)];
        assert upper[k - (|lower| - 1)] in Reversed(pts);
      }
    }
  }
}
