/** Day 9, Part 2 script: the edge lengths of the red-tile loop, and the
    search for the largest valid rectangle that also remembers which pair of
    red tiles spans it. */
module Day9Part2 {
  import opened Common
  import opened Sorting
  import opened Day9

  // ------------------------------------------------------------ edge lengths

  /** `max(|dx|, |dy|) + 1` for the segment from `p` to `q`. */
  function EdgeLength(p: Point, q: Point): (n: nat)
    ensures n >= 1
  {
    Max(Abs(q.0 - p.0), Abs(q.1 - p.1)) + 1
  }

  lemma {:induction false} ColumnSize(x: int, lo: int, hi: int)
    requires lo <= hi + 1
    ensures |Column(x, lo, hi)| == hi - lo + 1
    decreases hi - lo
  {
    if lo <= hi {
      ColumnSize(x, lo, hi - 1);
      assert (x, hi) !in Column(x, lo, hi - 1);
    }
  }

  lemma {:induction false} RowSize(y: int, lo: int, hi: int)
    requires lo <= hi + 1
    ensures |Row(y, lo, hi)| == hi - lo + 1
    decreases hi - lo
  {
    if lo <= hi {
      RowSize(y, lo, hi - 1);
      assert (hi, y) !in Row(y, lo, hi - 1);
    }
  }

  /** The length of a straight segment is the number of tiles on it. */
  lemma EdgeLengthTiles(p: Point, q: Point)
    requires p.0 == q.0 || p.1 == q.1
    ensures |SegmentTiles(p, q)| == EdgeLength(p, q)
  {
    if p.0 == q.0 {
      ColumnSize(p.0, Min(p.1, q.1), Max(p.1, q.1));
    } else {
      RowSize(p.1, Min(p.0, q.0), Max(p.0, q.0));
    }
  }

  /** The edge-length loop: one length per red tile, the last edge wrapping
      back to the first tile; a straight edge's length is its tile count. */
  method EdgeLengths(coords: seq<Point>) returns (edgeLengths: seq<nat>)
    ensures |edgeLengths| == |coords|
    ensures forall i :: 0 <= i < |coords| ==> edgeLengths[i] == EdgeLength(coords[i], coords[(i + 1) % |coords|])
    ensures forall i :: 0 <= i < |coords| ==> edgeLengths[i] >= 1
    ensures forall i :: 0 <= i < |coords| && Straight(coords, i) ==> edgeLengths[i] == |Segment(coords, i)|
  {
    edgeLengths := [];
    for i := 0 to |coords|
      invariant |edgeLengths| == i
      invariant forall k :: 0 <= k < i ==> edgeLengths[k] == EdgeLength(coords[k], coords[(k + 1) % |coords|])
    {
      var p1, p2 := coords[i], coords[(i + 1) % |coords|];
      var length := Max(Abs(p2.0 - p1.0), Abs(p2.1 - p1.1)) + 1;
      edgeLengths := edgeLengths + [length];
    }
    forall i | 0 <= i < |coords| && Straight(coords, i) ensures edgeLengths[i] == |Segment(coords, i)| {
      EdgeLengthTiles(coords[i], coords[(i + 1) % |coords|]);
    }
  }

  /** Red tile `i` and the next share a column or a row. */
  predicate Straight(coords: seq<Point>, i: nat)
    requires i < |coords|
  {
    var p, q := coords[i], coords[(i + 1) % |coords|];
    p.0 == q.0 || p.1 == q.1
  }

  // -------------------------------------------------------------- candidates

  /** `(area, min_x, max_x, min_y, max_y, i, j)`. */
  type Candidate7 = (int, int, int, int, int, int, int)

  /** Each red tile with its position in the list. */
  function Indexed(coords: seq<Point>): (r: seq<(nat, Point)>)
    ensures |r| == |coords| && forall k :: 0 <= k < |coords| ==> r[k] == (k, coords[k])
  {
    seq(|coords|, k requires 0 <= k < |coords| => (k, coords[k]))
  }

  /** The candidate for the red tiles at positions `a.0` and `b.0`. */
  function Cand7Of(a: (nat, Point), b: (nat, Point)): (c: Candidate7)
    ensures c.0 == Area(a.1, b.1) && c.5 == a.0 && c.6 == b.0
  {
    var c := CandidateOf(a.1, b.1);
    (c.0, c.1, c.2, c.3, c.4, a.0, b.0)
  }

  function AllCandidates(coords: seq<Point>): seq<Candidate7>
  {
    Pairs(Indexed(coords), |coords|, Cand7Of)
  }

  function Area7(c: Candidate7): int
  {
    c.0
  }

  /** The test on a candidate's bounds `(min_x, max_x, min_y, max_y)`. */
  function Fits7(valid: Rect -> bool): Candidate7 -> bool
  {
    (c: Candidate7) => valid((c.1, c.2, c.3, c.4))
  }

  /** There is one candidate per pair `i < j`, `n * (n - 1) / 2` in all, and
      each records its pair, its area and its bounds. */
  lemma AllCandidatesCount(coords: seq<Point>)
    ensures 2 * |AllCandidates(coords)| == |coords| * (|coords| - 1)
  {
    PairsCount(Indexed(coords), |coords|, Cand7Of);
  }

  lemma AllCandidatesPairs(coords: seq<Point>, c: Candidate7)
    ensures c in AllCandidates(coords) <==>
      exists i, j :: 0 <= i < j < |coords| && c == Cand7Of((i, coords[i]), (j, coords[j]))
  {
    if c in AllCandidates(coords) {
      CandidateOnly(coords, c);
    }
    if exists i, j :: 0 <= i < j < |coords| && c == Cand7Of((i, coords[i]), (j, coords[j])) {
      var i, j :| 0 <= i < j < |coords| && c == Cand7Of((i, coords[i]), (j, coords[j]));
      CandidateHas(coords, i, j);
    }
  }

  lemma CandidateOnly(coords: seq<Point>, c: Candidate7)
    requires c in AllCandidates(coords)
    ensures exists i, j :: 0 <= i < j < |coords| && c == Cand7Of((i, coords[i]), (j, coords[j]))
  {
    var ix := Indexed(coords);
    PairsOnly(ix, |coords|, Cand7Of, c);
    var a, b :| 0 <= a < b < |coords| && c == Cand7Of(ix[a], ix[b]);
    assert ix[a] == (a, coords[a]) && ix[b] == (b, coords[b]);
  }

  lemma CandidateHas(coords: seq<Point>, i: nat, j: nat)
    requires i < j < |coords|
    ensures Cand7Of((i, coords[i]), (j, coords[j])) in AllCandidates(coords)
  {
    var ix := Indexed(coords);
    assert ix[i] == (i, coords[i]) && ix[j] == (j, coords[j]);
    PairsHas(ix, |coords|, Cand7Of, i, j);
  }

  /** Python's ordering of 7-tuples, reversed. */
  predicate Cand7Ge(a: Candidate7, b: Candidate7)
  {
    a.0 > b.0 || (a.0 == b.0 && (a.1 > b.1 || (a.1 == b.1 && (a.2 > b.2 || (a.2 == b.2 &&
      (a.3 > b.3 || (a.3 == b.3 && (a.4 > b.4 || (a.4 == b.4 && (a.5 > b.5 || (a.5 == b.5 &&
      a.6 >= b.6)))))))))))
  }

  lemma Cand7GeTotal()
    ensures TotalPreorder(Cand7Ge) && Antisymmetric(Cand7Ge)
  {
  }

  // ------------------------------------------------------------------ search

  /** `best_rect` is the pair of red tiles `i < j` whose candidate passed the
      test and whose area is `m`. */
  ghost predicate Spans(coords: seq<Point>, valid: Rect -> bool, m: int, best: (Point, Point))
  {
    exists i, j :: 0 <= i < j < |coords| && best == (coords[i], coords[j]) && m == Area(coords[i], coords[j])
      && Fits7(valid)(Cand7Of((i, coords[i]), (j, coords[j])))
  }

  /** The script's search: candidates sorted largest first, stop at the first
      one no larger than the best so far, keep each one that passes. */
  method FindBestRectangle(coords: seq<Point>, valid: Rect -> bool) returns (maxArea: int, bestRect: Option<(Point, Point)>)
    ensures maxArea == Best(Passing(AllCandidates(coords), Fits7(valid)), Area7)
    ensures bestRect.None? <==> maxArea == 0
    ensures bestRect.Some? ==> Spans(coords, valid, maxArea, bestRect.value)
  {
    var candidates := ListPairs(Indexed(coords), Cand7Of);
    var sorted := Sort(candidates, Cand7Ge);
    Cand7GeTotal();
    SortSorted(candidates, Cand7Ge);
    forall k | 0 <= k < |sorted| ensures sorted[k] in candidates {
      assert sorted[k] in multiset(sorted);
    }
    maxArea, bestRect := SearchBest(coords, sorted, valid);
    PassingPermuted(sorted, candidates, Fits7(valid));
    BestSameMembers(Passing(sorted, Fits7(valid)), Passing(candidates, Fits7(valid)), Area7);
  }

  /** The loop over the sorted candidates. */
  method SearchBest(coords: seq<Point>, sorted: seq<Candidate7>, valid: Rect -> bool)
    returns (maxArea: int, bestRect: Option<(Point, Point)>)
    requires Sorted(sorted, Cand7Ge)
    requires forall k :: 0 <= k < |sorted| ==> sorted[k] in AllCandidates(coords)
    ensures maxArea == Best(Passing(sorted, Fits7(valid)), Area7)
    ensures bestRect.None? <==> maxArea == 0
    ensures bestRect.Some? ==> Spans(coords, valid, maxArea, bestRect.value)
  {
    maxArea, bestRect := 0, None;
    var idx := 0;
    while idx < |sorted| && sorted[idx].0 > maxArea
      invariant idx <= |sorted|
      invariant maxArea == Best(Passing(sorted[..idx], Fits7(valid)), Area7)
      invariant bestRect.None? <==> maxArea == 0
      invariant bestRect.Some? ==> Spans(coords, valid, maxArea, bestRect.value)
    {
      var c := sorted[idx];
      PassingNext(sorted, idx, Fits7(valid), Area7);
      if valid((c.1, c.2, c.3, c.4)) {
        if c.0 > maxArea {
          CandidateSpans(coords, valid, c);
          maxArea := c.0;
          bestRect := Some((coords[c.5], coords[c.6]));
        }
      }
      idx := idx + 1;
    }
    SortedDescending7(sorted);
    if idx < |sorted| {
      SearchStops(sorted, idx, Fits7(valid), Area7);
    } else {
      assert sorted[..idx] == sorted;
    }
  }

  /** The positions `i < j` a candidate records, in range, with its area. */
  lemma CandidateSpans(coords: seq<Point>, valid: Rect -> bool, c: Candidate7)
    requires c in AllCandidates(coords) && valid((c.1, c.2, c.3, c.4))
    ensures 0 <= c.5 < c.6 < |coords|
    ensures Spans(coords, valid, c.0, (coords[c.5], coords[c.6]))
  {
    AllCandidatesPairs(coords, c);
  }

  lemma SortedDescending7(s: seq<Candidate7>)
    requires Sorted(s, Cand7Ge)
    ensures Descending(s, Area7)
  {
    forall a, b | 0 <= a < b < |s| ensures Area7(s[a]) >= Area7(s[b]) {
      assert Cand7Ge(s[a], s[b]);
    }
  }
}
