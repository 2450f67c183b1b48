/** Day 9 (Movie Theater): red tiles are listed in order around a loop. Part 1
    finds the largest rectangle with red tiles at two opposite corners; Part 2
    keeps only rectangles that a validity test accepts, and collects the
    green tiles on the straight segments between consecutive red tiles. */
module Day9 {
  import opened Common
  import opened Sorting

  /** A red tile `(x, y)`. */
  type Point = (int, int)

  /** A rectangle `(min_x, max_x, min_y, max_y)`. */
  type Rect = (int, int, int, int)

  /** `(area, min_x, max_x, min_y, max_y)`, as the candidate list holds it. */
  type Candidate = (int, int, int, int, int)

  // ------------------------------------------------------------- rectangles

  /** The number of tiles of the rectangle with corners `p` and `q`, both
      corners' rows and columns included. */
  function Area(p: Point, q: Point): nat
  {
    (Abs(q.0 - p.0) + 1) * (Abs(q.1 - p.1) + 1)
  }

  /** The area is at least one tile and does not depend on which corner
      comes first. */
  lemma AreaPositiveSymmetric(p: Point, q: Point)
    ensures Area(p, q) >= 1 && Area(p, q) == Area(q, p)
  {
    var w, h := Abs(q.0 - p.0) + 1, Abs(q.1 - p.1) + 1;
    assert w * h >= 1 * h;
    assert Abs(p.0 - q.0) + 1 == w && Abs(p.1 - q.1) + 1 == h;
  }

  /** The candidate entry for corners `p` and `q`: its area is `Area(p, q)`
      and its bounds are the corners' least and greatest coordinates. */
  function CandidateOf(p: Point, q: Point): (c: Candidate)
    ensures c.0 == Area(p, q) && c.1 <= c.2 && c.3 <= c.4
  {
    var minX, maxX := Min(p.0, q.0), Max(p.0, q.0);
    var minY, maxY := Min(p.1, q.1), Max(p.1, q.1);
    ((maxX - minX + 1) * (maxY - minY + 1), minX, maxX, minY, maxY)
  }

  function CandArea(c: Candidate): int
  {
    c.0
  }

  function Bounds(c: Candidate): Rect
  {
    (c.1, c.2, c.3, c.4)
  }

  /** `make` applied to `coords[i]` and each later element, in order. */
  function RowOf<P, T>(coords: seq<P>, i: nat, make: (P, P) -> T): seq<T>
    requires i < |coords|
  {
    seq(|coords| - i - 1, k requires 0 <= k < |coords| - i - 1 => make(coords[i], coords[i + 1 + k]))
  }

  /** `make` applied to every pair `a < b` with `a` among the first `i`, in the
      order of the nested loops `for a ...: for b in range(a + 1, n)`. */
  function Pairs<P, T>(coords: seq<P>, i: nat, make: (P, P) -> T): seq<T>
    requires i <= |coords|
  {
    if i == 0 then [] else Pairs(coords, i - 1, make) + RowOf(coords, i - 1, make)
  }

  /** One candidate per pair of red tiles `i < j`. */
  function Candidates(coords: seq<Point>): seq<Candidate>
  {
    Pairs(coords, |coords|, CandidateOf)
  }

  /** Every pair `a < b` with `a` among the first `i` is listed. */
  lemma {:induction false} PairsHas<P, T>(coords: seq<P>, i: nat, make: (P, P) -> T, a: nat, b: nat)
    requires a < i <= |coords| && a < b < |coords|
    ensures make(coords[a], coords[b]) in Pairs(coords, i, make)
  {
    if a < i - 1 {
      PairsHas(coords, i - 1, make, a, b);
    } else {
      assert RowOf(coords, a, make)[b - a - 1] == make(coords[a], coords[b]);
    }
  }

  /** Everything listed comes from a pair `a < b` with `a` among the first `i`. */
  lemma {:induction false} PairsOnly<P, T>(coords: seq<P>, i: nat, make: (P, P) -> T, c: T)
    requires i <= |coords| && c in Pairs(coords, i, make)
    ensures exists a, b :: 0 <= a < i && a < b < |coords| && c == make(coords[a], coords[b])
  {
    var row := RowOf(coords, i - 1, make);
    if c in row {
      var k :| 0 <= k < |row| && row[k] == c;
      assert c == make(coords[i - 1], coords[i + k]);
    } else {
      PairsOnly(coords, i - 1, make, c);
    }
  }

  /** The candidates are exactly the pairs `i < j`. */
  lemma CandidatesMembers(coords: seq<Point>, c: Candidate)
    ensures c in Candidates(coords) <==>
      exists a, b :: 0 <= a < b < |coords| && c == CandidateOf(coords[a], coords[b])
  {
    if c in Candidates(coords) {
      PairsOnly(coords, |coords|, CandidateOf, c);
    }
    if exists a, b :: 0 <= a < b < |coords| && c == CandidateOf(coords[a], coords[b]) {
      var a, b :| 0 <= a < b < |coords| && c == CandidateOf(coords[a], coords[b]);
      PairsHas(coords, |coords|, CandidateOf, a, b);
    }
  }

  /** There are `i * (2n - i - 1) / 2` pairs whose first element is among the
      first `i`, so `n * (n - 1) / 2` in all. */
  lemma {:induction false} PairsCount<P, T>(coords: seq<P>, i: nat, make: (P, P) -> T)
    requires i <= |coords|
    ensures 2 * |Pairs(coords, i, make)| == i * (2 * |coords| - i - 1)
  {
    if i > 0 {
      PairsCount(coords, i - 1, make);
    }
  }

  lemma CandidatesCount(coords: seq<Point>)
    ensures 2 * |Candidates(coords)| == |coords| * (|coords| - 1)
  {
    PairsCount(coords, |coords|, CandidateOf);
  }

  /** The inner loops' step: the pair `(i, j)` comes next. */
  lemma RowEntry<P, T>(coords: seq<P>, i: nat, j: nat, make: (P, P) -> T)
    requires i < j < |coords|
    ensures RowOf(coords, i, make)[j - i - 1] == make(coords[i], coords[j])
  {
  }

  // ------------------------------------------------------- best of a list

  /** The largest `area(c)` over `cs`, or 0 for an empty list (the searches
      start from `max_area = 0`). */
  function Best<T>(cs: seq<T>, area: T -> int): (m: int)
    ensures m >= 0
  {
    if cs == [] then 0 else Max(Best(cs[..|cs| - 1], area), area(cs[|cs| - 1]))
  }

  /** `Best` is at least every area in the list, and is one of them unless it is 0. */
  lemma {:induction false} BestBounds<T>(cs: seq<T>, area: T -> int)
    ensures forall k :: 0 <= k < |cs| ==> area(cs[k]) <= Best(cs, area)
    ensures Best(cs, area) == 0 || exists k :: 0 <= k < |cs| && area(cs[k]) == Best(cs, area)
  {
    if cs != [] {
      var init := cs[..|cs| - 1];
      BestBounds(init, area);
      forall k | 0 <= k < |init| ensures area(cs[k]) <= Best(cs, area) {
        assert cs[k] == init[k];
      }
      if Best(cs, area) != area(cs[|cs| - 1]) && Best(cs, area) != 0 {
        var k :| 0 <= k < |init| && area(init[k]) == Best(init, area);
        assert cs[k] == init[k];
      }
    }
  }

  /** The elements of `cs` that pass `ok`, in order. */
  function Passing<T>(cs: seq<T>, ok: T -> bool): seq<T>
  {
    if cs == [] then []
    else
      var last := cs[|cs| - 1];
      Passing(cs[..|cs| - 1], ok) + if ok(last) then [last] else []
  }

  /** `Passing` keeps exactly the elements that pass. */
  lemma {:induction false} PassingMembers<T>(cs: seq<T>, ok: T -> bool, x: T)
    ensures x in Passing(cs, ok) <==> x in cs && ok(x)
  {
    if cs != [] {
      var init := cs[..|cs| - 1];
      PassingMembers(init, ok, x);
      assert cs == init + [cs[|cs| - 1]];
    }
  }

  lemma BestStep<T>(cs: seq<T>, x: T, area: T -> int)
    ensures Best(cs + [x], area) == Max(Best(cs, area), area(x))
  {
    assert (cs + [x])[..|cs|] == cs;
  }

  /** One more element of `s` passes or is dropped; the best passing value
      grows to its area or stays. */
  lemma PassingNext<T>(s: seq<T>, idx: nat, ok: T -> bool, area: T -> int)
    requires idx < |s|
    ensures Passing(s[..idx + 1], ok) == Passing(s[..idx], ok) + if ok(s[idx]) then [s[idx]] else []
    ensures Best(Passing(s[..idx + 1], ok), area) ==
      if ok(s[idx]) then Max(Best(Passing(s[..idx], ok), area), area(s[idx])) else Best(Passing(s[..idx], ok), area)
  {
    assert s[..idx + 1][..idx] == s[..idx];
    if ok(s[idx]) {
      BestStep(Passing(s[..idx], ok), s[idx], area);
    } else {
      assert Passing(s[..idx], ok) + [] == Passing(s[..idx], ok);
    }
  }

  /** Lists with the same members have the same best value. */
  lemma BestSameMembers<T(!new)>(a: seq<T>, b: seq<T>, area: T -> int)
    requires forall x :: x in a <==> x in b
    ensures Best(a, area) == Best(b, area)
  {
    BestBounds(a, area);
    BestBounds(b, area);
    var ma, mb := Best(a, area), Best(b, area);
    if ma != 0 {
      var k :| 0 <= k < |a| && area(a[k]) == ma;
      assert a[k] in b;
    }
    if mb != 0 {
      var k :| 0 <= k < |b| && area(b[k]) == mb;
      assert b[k] in a;
    }
  }

  /** The best of the passing elements is at most the best of all. */
  lemma BestOfPassing<T>(cs: seq<T>, ok: T -> bool, area: T -> int)
    ensures Best(Passing(cs, ok), area) <= Best(cs, area)
  {
    var p := Passing(cs, ok);
    BestBounds(p, area);
    BestBounds(cs, area);
    var m := Best(p, area);
    if m != 0 {
      var k :| 0 <= k < |p| && area(p[k]) == m;
      PassingMembers(cs, ok, p[k]);
      var j :| 0 <= j < |cs| && cs[j] == p[k];
    }
  }

  /** Reordering a list does not change which elements pass. */
  lemma PassingPermuted<T(!new)>(a: seq<T>, b: seq<T>, ok: T -> bool)
    requires multiset(a) == multiset(b)
    ensures forall x :: x in Passing(a, ok) <==> x in Passing(b, ok)
  {
    forall x ensures x in Passing(a, ok) <==> x in Passing(b, ok) {
      PassingMembers(a, ok, x);
      PassingMembers(b, ok, x);
      assert x in a <==> x in multiset(a);
    }
  }

  /** The areas in `s` never increase. */
  ghost predicate Descending<T>(s: seq<T>, area: T -> int)
  {
    forall a, b :: 0 <= a < b < |s| ==> area(s[a]) >= area(s[b])
  }

  /** In a list of non-increasing areas, once the next area is no larger
      than the best passing area so far, no later element can improve it. */
  lemma {:induction false} SearchStops<T>(s: seq<T>, idx: nat, ok: T -> bool, area: T -> int)
    requires idx < |s| && Descending(s, area)
    requires area(s[idx]) <= Best(Passing(s[..idx], ok), area)
    ensures Best(Passing(s, ok), area) == Best(Passing(s[..idx], ok), area)
    decreases |s| - idx
  {
    PassingNext(s, idx, ok, area);
    if idx + 1 < |s| {
      assert area(s[idx + 1]) <= area(s[idx]);
      SearchStops(s, idx + 1, ok, area);
    } else {
      assert s[..idx + 1] == s;
    }
  }

  // ------------------------------------------------------------------ Part 1

  /** The largest rectangle with two red tiles as opposite corners: no pair
      has a larger area, some pair has exactly this area, and with fewer than
      two red tiles the answer is 0. */
  lemma LargestRectangle(coords: seq<Point>)
    ensures forall i, j :: 0 <= i < j < |coords| ==> Area(coords[i], coords[j]) <= Best(Candidates(coords), CandArea)
    ensures |coords| < 2 ==> Best(Candidates(coords), CandArea) == 0
    ensures |coords| >= 2 ==> exists i, j :: 0 <= i < j < |coords| && Best(Candidates(coords), CandArea) == Area(coords[i], coords[j])
  {
    forall i, j | 0 <= i < j < |coords| ensures Area(coords[i], coords[j]) <= Best(Candidates(coords), CandArea) {
      PairBelowBest(coords, i, j);
    }
    if |coords| == 1 {
      assert Pairs(coords, 1, CandidateOf) == Pairs(coords, 0, CandidateOf) + RowOf(coords, 0, CandidateOf);
    } else if |coords| >= 2 {
      PairBelowBest(coords, 0, 1);
      AreaPositiveSymmetric(coords[0], coords[1]);
      BestFromPair(coords);
    }
  }

  lemma PairBelowBest(coords: seq<Point>, i: nat, j: nat)
    requires i < j < |coords|
    ensures Area(coords[i], coords[j]) <= Best(Candidates(coords), CandArea)
  {
    var cs := Candidates(coords);
    PairsHas(coords, |coords|, CandidateOf, i, j);
    var k :| 0 <= k < |cs| && cs[k] == CandidateOf(coords[i], coords[j]);
    BestBounds(cs, CandArea);
  }

  lemma BestFromPair(coords: seq<Point>)
    requires Best(Candidates(coords), CandArea) != 0
    ensures exists i, j :: 0 <= i < j < |coords| && Best(Candidates(coords), CandArea) == Area(coords[i], coords[j])
  {
    var cs := Candidates(coords);
    BestBounds(cs, CandArea);
    var k :| 0 <= k < |cs| && CandArea(cs[k]) == Best(cs, CandArea);
    PairsOnly(coords, |coords|, CandidateOf, cs[k]);
  }

  /** `find_largest_rectangle`: the largest area over all pairs `i < j`. */
  method FindLargestRectangle(coords: seq<Point>) returns (maxArea: int)
    ensures maxArea == Best(Candidates(coords), CandArea)
  {
    maxArea := 0;
    for i := 0 to |coords|
      invariant maxArea == Best(Pairs(coords, i, CandidateOf), CandArea)
    {
      assert Pairs(coords, i, CandidateOf) + RowOf(coords, i, CandidateOf)[..0] == Pairs(coords, i, CandidateOf);
      for j := i + 1 to |coords|
        invariant maxArea == Best(Pairs(coords, i, CandidateOf) + RowOf(coords, i, CandidateOf)[..j - i - 1], CandArea)
      {
        var area := Area(coords[i], coords[j]);
        AreaStep(coords, i, j);
        maxArea := Max(maxArea, area);
      }
      assert RowOf(coords, i, CandidateOf)[..|coords| - i - 1] == RowOf(coords, i, CandidateOf);
    }
  }

  /** One more element of `row` after `pre`: the best value grows to its area or stays. */
  lemma PrefixStep<T>(pre: seq<T>, row: seq<T>, m: nat, area: T -> int)
    requires m < |row|
    ensures pre + row[..m + 1] == (pre + row[..m]) + [row[m]]
    ensures Best(pre + row[..m + 1], area) == Max(Best(pre + row[..m], area), area(row[m]))
  {
    assert row[..m + 1] == row[..m] + [row[m]];
    BestStep(pre + row[..m], row[m], area);
  }

  /** The inner loop's step of `find_largest_rectangle`. */
  lemma AreaStep(coords: seq<Point>, i: nat, j: nat)
    requires i < j < |coords|
    ensures var pre, row := Pairs(coords, i, CandidateOf), RowOf(coords, i, CandidateOf);
      Best(pre + row[..j - i], CandArea) == Max(Best(pre + row[..j - i - 1], CandArea), Area(coords[i], coords[j]))
  {
    RowEntry(coords, i, j, CandidateOf);
    PrefixStep(Pairs(coords, i, CandidateOf), RowOf(coords, i, CandidateOf), j - i - 1, CandArea);
  }

  // ------------------------------------------------------------------ Part 2

  /** The nested loops that append `make(coords[i], coords[j])` for every
      pair `i < j` to the candidate list. */
  method ListPairs<P, T>(coords: seq<P>, make: (P, P) -> T) returns (candidates: seq<T>)
    ensures candidates == Pairs(coords, |coords|, make)
  {
    candidates := [];
    for i := 0 to |coords|
      invariant candidates == Pairs(coords, i, make)
    {
      assert Pairs(coords, i, make) + RowOf(coords, i, make)[..0] == Pairs(coords, i, make);
      for j := i + 1 to |coords|
        invariant candidates == Pairs(coords, i, make) + RowOf(coords, i, make)[..j - i - 1]
      {
        RowEntry(coords, i, j, make);
        assert RowOf(coords, i, make)[..j - i] == RowOf(coords, i, make)[..j - i - 1] + [make(coords[i], coords[j])];
        candidates := candidates + [make(coords[i], coords[j])];
      }
      assert RowOf(coords, i, make)[..|coords| - i - 1] == RowOf(coords, i, make);
    }
  }

  /** Python's ordering of candidate tuples, reversed: `a` sorts before `b`. */
  predicate CandGe(a: Candidate, b: Candidate)
  {
    a.0 > b.0 || (a.0 == b.0 && (a.1 > b.1 || (a.1 == b.1 && (a.2 > b.2 || (a.2 == b.2 &&
      (a.3 > b.3 || (a.3 == b.3 && a.4 >= b.4)))))))
  }

  lemma CandGeTotal()
    ensures TotalPreorder(CandGe) && Antisymmetric(CandGe)
  {
  }

  /** The candidates sorted by `sort(reverse=True)` come in non-increasing area. */
  lemma SortedDescending(cs: seq<Candidate>)
    ensures Descending(Sort(cs, CandGe), CandArea)
  {
    CandGeTotal();
    SortSorted(cs, CandGe);
  }

  /** The test a rectangle must pass, applied to a candidate's bounds. */
  function Fits(valid: Rect -> bool): Candidate -> bool
  {
    c => valid(Bounds(c))
  }

  /** `find_largest_valid_rectangle`, with the tile test behind `valid`: the
      largest area of a candidate whose rectangle passes it, or 0. */
  method FindLargestValidRectangle(coords: seq<Point>, valid: Rect -> bool) returns (maxArea: int)
    ensures maxArea == Best(Passing(Candidates(coords), Fits(valid)), CandArea)
  {
    var candidates := ListPairs(coords, CandidateOf);
    var sorted := Sort(candidates, CandGe);
    SortedDescending(candidates);
    maxArea := SearchSorted(sorted, valid);
    PassingPermuted(sorted, candidates, Fits(valid));
    BestSameMembers(Passing(sorted, Fits(valid)), Passing(candidates, Fits(valid)), CandArea);
  }

  /** The loop over the sorted candidates: it stops at the first candidate no
      larger than the best found, and takes each one that passes `valid`. */
  method SearchSorted(sorted: seq<Candidate>, valid: Rect -> bool) returns (maxArea: int)
    requires Descending(sorted, CandArea)
    ensures maxArea == Best(Passing(sorted, Fits(valid)), CandArea)
  {
    maxArea := 0;
    var idx := 0;
    while idx < |sorted| && sorted[idx].0 > maxArea
      invariant idx <= |sorted|
      invariant maxArea == Best(Passing(sorted[..idx], Fits(valid)), CandArea)
    {
      var c := sorted[idx];
      PassingNext(sorted, idx, Fits(valid), CandArea);
      if valid(Bounds(c)) {
        maxArea := c.0;
      }
      idx := idx + 1;
    }
    if idx < |sorted| {
      SearchStops(sorted, idx, Fits(valid), CandArea);
    } else {
      assert sorted[..idx] == sorted;
    }
  }

  /** The valid-rectangle answer is the area of a passing pair of corners,
      never more than the Part 1 answer. */
  lemma ValidAtMostLargest(coords: seq<Point>, valid: Rect -> bool)
    ensures Best(Passing(Candidates(coords), Fits(valid)), CandArea) <= Best(Candidates(coords), CandArea)
    ensures var m := Best(Passing(Candidates(coords), Fits(valid)), CandArea);
      m == 0 || (exists i, j :: 0 <= i < j < |coords| && m == Area(coords[i], coords[j])
                               && valid(Bounds(CandidateOf(coords[i], coords[j]))))
  {
    var p := Passing(Candidates(coords), Fits(valid));
    BestOfPassing(Candidates(coords), Fits(valid), CandArea);
    BestBounds(p, CandArea);
    var m := Best(p, CandArea);
    if m != 0 {
      var k :| 0 <= k < |p| && CandArea(p[k]) == m;
      PassingMembers(Candidates(coords), Fits(valid), p[k]);
      PairsOnly(coords, |coords|, CandidateOf, p[k]);
    }
  }

  // ------------------------------------------------------------ green tiles

  /** The tiles `(x, lo) .. (x, hi)`. */
  function Column(x: int, lo: int, hi: int): (s: set<Point>)
    ensures forall t :: t in s <==> t.0 == x && lo <= t.1 <= hi
    decreases hi - lo
  {
    if hi < lo then {} else Column(x, lo, hi - 1) + {(x, hi)}
  }

  /** The tiles `(lo, y) .. (hi, y)`. */
  function Row(y: int, lo: int, hi: int): (s: set<Point>)
    ensures forall t :: t in s <==> t.1 == y && lo <= t.0 <= hi
    decreases hi - lo
  {
    if hi < lo then {} else Row(y, lo, hi - 1) + {(hi, y)}
  }

  /** `t` lies in the rectangle spanned by `p` and `q`. */
  predicate InBox(t: Point, p: Point, q: Point)
  {
    Min(p.0, q.0) <= t.0 <= Max(p.0, q.0) && Min(p.1, q.1) <= t.1 <= Max(p.1, q.1)
  }

  /** The tiles the segment from `p` to `q` adds: its whole box when the two
      share a column or a row, and nothing for a slanted segment. */
  function SegmentTiles(p: Point, q: Point): (s: set<Point>)
    ensures forall t :: t in s <==> (p.0 == q.0 || p.1 == q.1) && InBox(t, p, q)
  {
    if p.0 == q.0 then Column(p.0, Min(p.1, q.1), Max(p.1, q.1))
    else if p.1 == q.1 then Row(p.1, Min(p.0, q.0), Max(p.0, q.0))
    else {}
  }

  /** The segment from red tile `i` to the next, the last wrapping to the first. */
  function Segment(coords: seq<Point>, i: nat): set<Point>
    requires i < |coords|
  {
    SegmentTiles(coords[i], coords[(i + 1) % |coords|])
  }

  function EdgesUpTo(coords: seq<Point>, k: nat): set<Point>
    requires k <= |coords|
  {
    if k == 0 then {} else EdgesUpTo(coords, k - 1) + Segment(coords, k - 1)
  }

  function EdgeTiles(coords: seq<Point>): set<Point>
  {
    EdgesUpTo(coords, |coords|)
  }

  /** A tile is a green edge tile exactly when it lies on one of the segments,
      the wrap-around segment included. */
  /** A tile of the first `k` edges lies on one of them. */
  lemma {:induction false} EdgesSound(coords: seq<Point>, k: nat, t: Point)
    requires k <= |coords| && t in EdgesUpTo(coords, k)
    ensures exists i :: 0 <= i < k && t in Segment(coords, i)
  {
    if t in EdgesUpTo(coords, k - 1) {
      EdgesSound(coords, k - 1, t);
      var i :| 0 <= i < k - 1 && t in Segment(coords, i);
      assert 0 <= i < k && t in Segment(coords, i);
    } else {
      assert 0 <= k - 1 < k && t in Segment(coords, k - 1);
    }
  }

  /** A tile of edge `i` is among the tiles of the first `k` edges, `i < k`. */
  lemma {:induction false} EdgesComplete(coords: seq<Point>, k: nat, i: nat, t: Point)
    requires i < k <= |coords| && t in Segment(coords, i)
    ensures t in EdgesUpTo(coords, k)
  {
    if i < k - 1 {
      EdgesComplete(coords, k - 1, i, t);
    }
  }

  lemma EdgesMembers(coords: seq<Point>, k: nat, t: Point)
    requires k <= |coords|
    ensures t in EdgesUpTo(coords, k) <==> exists i :: 0 <= i < k && t in Segment(coords, i)
  {
    if t in EdgesUpTo(coords, k) {
      EdgesSound(coords, k, t);
    }
    if exists i :: 0 <= i < k && t in Segment(coords, i) {
      var i :| 0 <= i < k && t in Segment(coords, i);
      EdgesComplete(coords, k, i, t);
    }
  }

  lemma EdgeTilesMembers(coords: seq<Point>, t: Point)
    ensures t in EdgeTiles(coords) <==> exists i :: 0 <= i < |coords| && t in Segment(coords, i)
  {
    EdgesMembers(coords, |coords|, t);
  }

  /** `get_green_edge_tiles`. */
  method GreenEdgeTiles(coords: seq<Point>) returns (greenTiles: set<Point>)
    ensures greenTiles == EdgeTiles(coords)
  {
    greenTiles := {};
    for i := 0 to |coords|
      invariant greenTiles == EdgesUpTo(coords, i)
    {
      var p1, p2 := coords[i], coords[(i + 1) % |coords|];
      if p1.0 == p2.0 {
        greenTiles := AddColumn(greenTiles, p1.0, Min(p1.1, p2.1), Max(p1.1, p2.1));
      } else if p1.1 == p2.1 {
        greenTiles := AddRow(greenTiles, p1.1, Min(p1.0, p2.0), Max(p1.0, p2.0));
      }
    }
  }

  /** The loop over `y` of a vertical segment. */
  method AddColumn(tiles: set<Point>, x: int, lo: int, hi: int) returns (r: set<Point>)
    requires lo <= hi
    ensures r == tiles + Column(x, lo, hi)
  {
    r := tiles;
    for y := lo to hi + 1
      invariant r == tiles + Column(x, lo, y - 1)
    {
      r := r + {(x, y)};
    }
  }

  /** The loop over `x` of a horizontal segment. */
  method AddRow(tiles: set<Point>, y: int, lo: int, hi: int) returns (r: set<Point>)
    requires lo <= hi
    ensures r == tiles + Row(y, lo, hi)
  {
    r := tiles;
    for x := lo to hi + 1
      invariant r == tiles + Row(y, lo, x - 1)
    {
      r := r + {(x, y)};
    }
  }
}
