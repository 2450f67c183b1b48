/** Day 5 (Cafeteria): fresh ingredient-ID ranges. The database is a list of
    inclusive ranges `start-end`, a blank line, and a list of IDs. Part 1
    counts the IDs that fall in some range; Part 2 merges the ranges and
    counts the distinct IDs they cover. */
module Day5 {
  import opened Common
  import opened Text
  import opened Sorting

  /** An inclusive range (start, end). */
  type Range = (int, int)

  predicate InRange(r: Range, id: int)
  {
    r.0 <= id <= r.1
  }

  /** `id` is fresh: some range of `rs` contains it. */
  ghost predicate Covered(rs: seq<Range>, id: int)
  {
    exists k :: 0 <= k < |rs| && InRange(rs[k], id)
  }

  /** Every range has start <= end. */
  ghost predicate WellFormed(rs: seq<Range>)
  {
    forall k :: 0 <= k < |rs| ==> rs[k].0 <= rs[k].1
  }

  /** Each range starts more than one past the end of every earlier range:
      the ranges are sorted and neither overlap nor touch. */
  ghost predicate Separated(rs: seq<Range>)
  {
    forall i, j :: 0 <= i < j < |rs| ==> rs[i].1 + 1 < rs[j].0
  }

  /** The set of IDs the ranges cover. */
  function Ids(rs: seq<Range>): (s: set<int>)
  {
    if rs == [] then {} else Ids(rs[..|rs| - 1]) + Interval(rs[|rs| - 1].0, rs[|rs| - 1].1)
  }

  /** The sum of end - start + 1 over the ranges. */
  function SizeSum(rs: seq<Range>): int
  {
    if rs == [] then 0 else SizeSum(rs[..|rs| - 1]) + (rs[|rs| - 1].1 - rs[|rs| - 1].0 + 1)
  }

  // ---------------------------------------------------------------- parsing

  /** `start, end = map(int, line.split("-"))`; `None` where Python raises. */
  function ParseRange(line: string): Option<Range>
  {
    var parts := Split(line, "-");
    if |parts| != 2 then None
    else
      var a := ParseInt(parts[0]);
      var b := ParseInt(parts[1]);
      if a.None? || b.None? then None else Some((a.value, b.value))
  }

  /** The text `start-end` of a range of natural numbers. */
  function FormatRange(a: nat, b: nat): string
  {
    NatToString(a) + "-" + NatToString(b)
  }

  lemma SplitFormatRange(a: nat, b: nat)
    ensures Split(FormatRange(a, b), "-") == [NatToString(a), NatToString(b)]
  {
    var sa, sb := NatToString(a), NatToString(b);
    assert Join([sa, sb], "-") == FormatRange(a, b) by {
      assert [sa, sb][1..] == [sb];
    }
    forall p, k | p in [sa, sb] && 0 <= k < |p| ensures p[k] != '-' {
      assert IsDigit(p[k]);
    }
    SplitJoin([sa, sb], '-');
  }

  /** A range line written from two natural numbers parses back to them. */
  lemma RangeRoundTrip(a: nat, b: nat)
    ensures ParseRange(FormatRange(a, b)) == Some((a, b))
  {
    SplitFormatRange(a, b);
    ParseIntRoundTrip(a);
    ParseIntRoundTrip(b);
  }

  /** `lines.index("")`. */
  function FirstBlank(lines: seq<string>): (r: Option<nat>)
    ensures r.Some? ==> r.value < |lines| && lines[r.value] == [] && forall k :: 0 <= k < r.value ==> lines[k] != []
    ensures r.None? ==> forall k :: 0 <= k < |lines| ==> lines[k] != []
  {
    if lines == [] then None
    else if lines[0] == [] then Some(0)
    else
      match FirstBlank(lines[1..])
      case None => None
      case Some(k) => Some(k + 1)
  }

  /** The non-empty lines, in order. */
  function NonBlank(lines: seq<string>): (r: seq<string>)
    ensures |r| <= |lines|
    ensures forall l :: l in r <==> l in lines && l != []
  {
    if lines == [] then []
    else if lines[0] == [] then NonBlank(lines[1..])
    else [lines[0]] + NonBlank(lines[1..])
  }

  /** Reads the database from its (already stripped) lines: the lines before
      the first blank line are ranges, the non-empty lines after it are IDs.
      Without a blank line, or with a line that does not parse, there is no
      database. */
  method ParseDatabase(lines: seq<string>) returns (db: Option<(seq<Range>, seq<int>)>)
    ensures FirstBlank(lines).None? ==> db.None?
    ensures FirstBlank(lines).Some? ==>
      var b := FirstBlank(lines).value;
      && (db.Some? <==> AllSome(lines[..b], ParseRange) && AllSome(NonBlank(lines[b + 1..]), ParseInt))
      && (db.Some? ==> db.value == (Values(lines[..b], ParseRange), Values(NonBlank(lines[b + 1..]), ParseInt)))
  {
    var blank := FirstBlank(lines);
    if blank.None? {
      return None;
    }
    var b := blank.value;
    var ranges := ParseAll(lines[..b], ParseRange);
    if ranges.None? {
      return None;
    }
    var ids := ParseAll(NonBlank(lines[b + 1..]), ParseInt);
    if ids.None? {
      return None;
    }
    db := Some((ranges.value, ids.value));
  }

  // ---------------------------------------------------------------- part 1

  /** Part 1: the number of IDs that lie in at least one range. */
  method CountFresh(ranges: seq<Range>, ids: seq<int>) returns (count: nat)
    ensures count == |set k | 0 <= k < |ids| && Covered(ranges, ids[k])|
    ensures count <= |ids|
  {
    count := 0;
    for i := 0 to |ids|
      invariant count == |set k | 0 <= k < i && Covered(ranges, ids[k])|
      invariant count <= i
    {
      var isFresh := false;
      var j := 0;
      while j < |ranges|
        invariant 0 <= j <= |ranges|
        invariant forall k :: 0 <= k < j ==> !InRange(ranges[k], ids[i])
      {
        if ranges[j].0 <= ids[i] <= ranges[j].1 {
          isFresh := true;
          break;
        }
        j := j + 1;
      }
      assert isFresh <==> Covered(ranges, ids[i]);
      ghost var before := set k | 0 <= k < i && Covered(ranges, ids[k]);
      ghost var after := set k | 0 <= k < i + 1 && Covered(ranges, ids[k]);
      if isFresh {
        assert after == before + {i};
        count := count + 1;
      } else {
        assert after == before;
      }
    }
  }

  /** The example database: IDs 5, 11 and 17 are fresh, so the count is 3. */
  lemma ExampleFreshCount()
    ensures |set k | 0 <= k < 6 && Covered([(3, 5), (10, 14), (16, 20), (12, 18)], [1, 5, 8, 11, 17, 32][k])| == 3
  {
    var rs: seq<Range> := [(3, 5), (10, 14), (16, 20), (12, 18)];
    var ids := [1, 5, 8, 11, 17, 32];
    assert InRange(rs[0], 5) && InRange(rs[1], 11) && InRange(rs[2], 17);
    assert !Covered(rs, 1) && !Covered(rs, 8) && !Covered(rs, 32);
    assert (set k | 0 <= k < 6 && Covered(rs, ids[k])) == {1, 3, 4};
  }

  // ---------------------------------------------------------------- part 2

  lemma CoveredSnoc(rs: seq<Range>, r: Range, x: int)
    ensures Covered(rs + [r], x) <==> Covered(rs, x) || InRange(r, x)
  {
    if Covered(rs, x) {
      var k :| 0 <= k < |rs| && InRange(rs[k], x);
      assert (rs + [r])[k] == rs[k];
    }
    if InRange(r, x) {
      assert (rs + [r])[|rs|] == r;
    }
    if Covered(rs + [r], x) {
      var k :| 0 <= k < |rs| + 1 && InRange((rs + [r])[k], x);
      if k < |rs| { assert (rs + [r])[k] == rs[k]; }
    }
  }

  /** An ID is in `Ids(rs)` exactly when Part 1 would call it fresh. */
  lemma {:induction false} IdsCovered(rs: seq<Range>, x: int)
    ensures x in Ids(rs) <==> Covered(rs, x)
  {
    if rs != [] {
      var init := rs[..|rs| - 1];
      IdsCovered(init, x);
      assert rs == init + [rs[|rs| - 1]];
      CoveredSnoc(init, rs[|rs| - 1], x);
    }
  }

  lemma IdsSnoc(rs: seq<Range>, r: Range)
    ensures Ids(rs + [r]) == Ids(rs) + Interval(r.0, r.1)
  {
    assert (rs + [r])[..|rs|] == rs;
  }

  /** Reordering the ranges does not change the IDs they cover. */
  lemma IdsPermutation(a: seq<Range>, b: seq<Range>)
    requires multiset(a) == multiset(b)
    ensures Ids(a) == Ids(b)
  {
    forall x ensures x in Ids(a) <==> x in Ids(b) {
      IdsCovered(a, x);
      IdsCovered(b, x);
      if Covered(a, x) {
        var k :| 0 <= k < |a| && InRange(a[k], x);
        assert a[k] in multiset(b);
        var m :| 0 <= m < |b| && b[m] == a[k];
      }
      if Covered(b, x) {
        var k :| 0 <= k < |b| && InRange(b[k], x);
        assert b[k] in multiset(a);
        var m :| 0 <= m < |a| && a[m] == b[k];
      }
    }
  }

  /** Two intervals that overlap or touch, the second starting no earlier, form one interval. */
  lemma IntervalJoin(lo1: int, hi1: int, lo2: int, hi2: int)
    requires lo1 <= lo2 <= hi1 + 1
    ensures Interval(lo1, Max(hi1, hi2)) == Interval(lo1, hi1) + Interval(lo2, hi2)
  {
  }

  /** Widening the last range to the end of `cur` adds exactly the IDs of `cur`. */
  lemma WidenIds(prefix: seq<Range>, last: Range, cur: Range)
    requires last.0 <= cur.0 <= last.1 + 1
    ensures Ids(prefix + [(last.0, Max(last.1, cur.1))]) == Ids(prefix + [last]) + Interval(cur.0, cur.1)
  {
    IdsSnoc(prefix, last);
    IdsSnoc(prefix, (last.0, Max(last.1, cur.1)));
    IntervalJoin(last.0, last.1, cur.0, cur.1);
  }

  /** Widening the last range to cover `cur` keeps the ranges well formed and separated. */
  lemma WidenSeparated(prefix: seq<Range>, last: Range, cur: Range)
    requires WellFormed(prefix + [last]) && Separated(prefix + [last])
    ensures WellFormed(prefix + [(last.0, Max(last.1, cur.1))]) && Separated(prefix + [(last.0, Max(last.1, cur.1))])
  {
    var widened := (last.0, Max(last.1, cur.1));
    forall i, j | 0 <= i < j < |prefix| + 1 ensures (prefix + [widened])[i].1 + 1 < (prefix + [widened])[j].0 {
      assert (prefix + [last])[i].1 + 1 < (prefix + [last])[j].0;
    }
    forall k | 0 <= k < |prefix| + 1 ensures (prefix + [widened])[k].0 <= (prefix + [widened])[k].1 {
      assert (prefix + [last])[k].0 <= (prefix + [last])[k].1;
    }
  }

  /** Appending a well-formed range that starts more than one past the end of the last range. */
  lemma AppendSeparated(merged: seq<Range>, cur: Range)
    requires merged != [] && cur.0 > merged[|merged| - 1].1 + 1 && cur.0 <= cur.1
    requires WellFormed(merged) && Separated(merged)
    ensures WellFormed(merged + [cur]) && Separated(merged + [cur])
  {
    var n := |merged|;
    forall i, j | 0 <= i < j < n + 1 ensures (merged + [cur])[i].1 + 1 < (merged + [cur])[j].0 {
      if j == n && i < n - 1 {
        assert merged[i].1 + 1 < merged[n - 1].0;
      }
    }
  }

  /** Starts never decrease along the list. */
  ghost predicate StartsAscending(rs: seq<Range>)
  {
    forall i, j :: 0 <= i < j < |rs| ==> rs[i].0 <= rs[j].0
  }

  /** The facts about the sorted copy the merge loop relies on. */
  lemma SortedRanges(ranges: seq<Range>)
    ensures StartsAscending(Sort(ranges, PairLe))
    ensures Ids(Sort(ranges, PairLe)) == Ids(ranges)
    ensures WellFormed(ranges) ==> WellFormed(Sort(ranges, PairLe))
  {
    var sorted := Sort(ranges, PairLe);
    PairLeTotalOrder();
    SortSorted(ranges, PairLe);
    assert forall i, j :: 0 <= i < j < |sorted| ==> PairLe(sorted[i], sorted[j]);
    IdsPermutation(sorted, ranges);
    forall k | 0 <= k < |sorted| ensures WellFormed(ranges) ==> sorted[k].0 <= sorted[k].1 {
      assert sorted[k] in multiset(ranges);
    }
  }

  /** `merge_ranges`: sorts the ranges and folds each one into the last merged
      range when it starts at most one past that range's end. */
  method MergeRanges(ranges: seq<Range>) returns (merged: seq<Range>)
    ensures ranges == [] ==> merged == []
    ensures |merged| <= |ranges|
    ensures Ids(merged) == Ids(ranges)
    ensures WellFormed(ranges) ==> WellFormed(merged) && Separated(merged)
  {
    if ranges == [] {
      return [];
    }
    var sorted := Sort(ranges, PairLe);
    SortedRanges(ranges);
    merged := MergeSorted(sorted);
  }

  /** The merge loop of `merge_ranges`, over the ranges sorted by start. */
  method MergeSorted(sorted: seq<Range>) returns (merged: seq<Range>)
    requires sorted != [] && StartsAscending(sorted)
    ensures |merged| <= |sorted|
    ensures Ids(merged) == Ids(sorted)
    ensures WellFormed(sorted) ==> WellFormed(merged) && Separated(merged)
  {
    merged := [sorted[0]];
    assert sorted[..1] == [] + [sorted[0]];
    IdsSnoc([], sorted[0]);
    for i := 1 to |sorted|
      invariant 1 <= |merged| <= i
      invariant Ids(merged) == Ids(sorted[..i])
      invariant i < |sorted| ==> merged[|merged| - 1].0 <= sorted[i].0
      invariant WellFormed(sorted) ==> WellFormed(merged) && Separated(merged)
    {
      var cur := sorted[i];
      assert sorted[..i + 1] == sorted[..i] + [cur];
      IdsSnoc(sorted[..i], cur);
      merged := MergeOne(merged, cur);
      assert i + 1 < |sorted| ==> sorted[i].0 <= sorted[i + 1].0;
    }
    assert sorted[..|sorted|] == sorted;
  }

  /** One step of the merge loop: `cur` widens the last merged range when it
      starts at most one past that range's end, and is appended otherwise. */
  method MergeOne(merged: seq<Range>, cur: Range) returns (next: seq<Range>)
    requires merged != [] && merged[|merged| - 1].0 <= cur.0
    ensures 1 <= |next| <= |merged| + 1
    ensures Ids(next) == Ids(merged) + Interval(cur.0, cur.1)
    ensures next[|next| - 1].0 <= cur.0
    ensures WellFormed(merged) && Separated(merged) && cur.0 <= cur.1 ==> WellFormed(next) && Separated(next)
  {
    var last := merged[|merged| - 1];
    if cur.0 <= last.1 + 1 {
      var prefix := merged[..|merged| - 1];
      assert merged == prefix + [last];
      WidenIds(prefix, last, cur);
      if WellFormed(merged) && Separated(merged) {
        WidenSeparated(prefix, last, cur);
      }
      next := prefix + [(last.0, Max(last.1, cur.1))];
    } else {
      IdsSnoc(merged, cur);
      if WellFormed(merged) && Separated(merged) && cur.0 <= cur.1 {
        AppendSeparated(merged, cur);
      }
      next := merged + [cur];
    }
  }

  /** The size loop of Part 2: the sum of end - start + 1 over the merged ranges. */
  method TotalSize(merged: seq<Range>) returns (total: int)
    ensures total == SizeSum(merged)
  {
    total := 0;
    for i := 0 to |merged|
      invariant total == SizeSum(merged[..i])
    {
      assert merged[..i + 1][..i] == merged[..i];
      total := total + (merged[i].1 - merged[i].0 + 1);
    }
    assert merged[..|merged|] == merged;
  }

  /** For separated well-formed ranges, the size sum is the number of IDs covered. */
  lemma {:induction false} SizeSumCountsIds(rs: seq<Range>)
    requires WellFormed(rs) && Separated(rs)
    ensures SizeSum(rs) == |Ids(rs)|
  {
    if rs != [] {
      var init := rs[..|rs| - 1];
      var last := rs[|rs| - 1];
      SizeSumCountsIds(init);
      IntervalSize(last.0, last.1);
      forall x | x in Ids(init) ensures x < last.0 {
        IdsCovered(init, x);
        var k :| 0 <= k < |init| && InRange(init[k], x);
        assert rs[k].1 + 1 < rs[|rs| - 1].0;
      }
      assert Ids(init) !! Interval(last.0, last.1);
    }
  }

  /** Part 2: merging the ranges and summing their sizes counts the distinct
      IDs the original ranges cover. */
  method CountAllFresh(ranges: seq<Range>) returns (total: int)
    ensures WellFormed(ranges) ==> total == |Ids(ranges)|
  {
    var merged := MergeRanges(ranges);
    total := TotalSize(merged);
    if WellFormed(ranges) {
      SizeSumCountsIds(merged);
    }
  }

  lemma ExampleIds()
    ensures Ids([(3, 5), (10, 14), (16, 20), (12, 18)]) == Interval(3, 5) + Interval(10, 20)
  {
    var r1, r2, r3, r4 := (3, 5), (10, 14), (16, 20), (12, 18);
    IdsSnoc([], r1);
    IdsSnoc([r1], r2);
    IdsSnoc([r1, r2], r3);
    IdsSnoc([r1, r2, r3], r4);
    assert [r1] == [] + [r1];
    assert [r1, r2] == [r1] + [r2];
    assert [r1, r2, r3] == [r1, r2] + [r3];
    assert [r1, r2, r3, r4] == [r1, r2, r3] + [r4];
    var a, b, c, d := Interval(3, 5), Interval(10, 14), Interval(16, 20), Interval(12, 18);
    assert Ids([r1, r2, r3, r4]) == a + (b + d) + c;
    IntervalJoin(10, 14, 12, 18);
    IntervalJoin(10, 18, 16, 20);
  }

  /** The example ranges cover 3, 4, 5 and 10 through 20: 14 IDs. */
  lemma ExampleAllFresh()
    ensures |Ids([(3, 5), (10, 14), (16, 20), (12, 18)])| == 14
  {
    ExampleIds();
    IntervalSize(3, 5);
    IntervalSize(10, 20);
    assert Interval(3, 5) !! Interval(10, 20);
  }
}
