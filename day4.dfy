/** Day 4 (Printing Department): paper rolls `@` on a character grid. A roll
    is accessible when fewer than four of its eight neighbours hold rolls.
    Part 1 counts the accessible rolls; Part 2 removes every accessible roll,
    round after round, until none is accessible, and counts the removals. */
module Day4 {

  type Grid = seq<seq<char>>

  /** Every row is at least as long as the first, whose length gives the
      columns that are read; a shorter row would be indexed past its end. */
  predicate Readable(g: Grid)
  {
    forall i :: 0 <= i < |g| ==> |g[i]| >= |g[0]|
  }

  /** `len(grid[0])`, which is only read when the grid has a row. */
  function Width(g: Grid): nat
  {
    if g == [] then 0 else |g[0]|
  }

  predicate InGrid(g: Grid, r: int, c: int)
  {
    0 <= r < |g| && 0 <= c < Width(g)
  }

  predicate IsRoll(g: Grid, r: int, c: int)
    requires Readable(g)
  {
    InGrid(g, r, c) && g[r][c] == '@'
  }

  /** 1 when (r + dr, c + dc) is a neighbouring roll of (r, c): inside the
      grid, holding '@', and not the centre itself. */
  function Hit(g: Grid, r: int, c: int, dr: int, dc: int): nat
    requires Readable(g)
  {
    if (dr != 0 || dc != 0) && IsRoll(g, r + dr, c + dc) then 1 else 0
  }

  /** Neighbouring rolls in row offset dr, column offsets -1 up to (not including) dc. */
  function RowHits(g: Grid, r: int, c: int, dr: int, dc: int): nat
    requires Readable(g) && -1 <= dc <= 2
    decreases dc + 1
  {
    if dc == -1 then 0 else RowHits(g, r, c, dr, dc - 1) + Hit(g, r, c, dr, dc - 1)
  }

  /** Neighbouring rolls in row offsets -1 up to (not including) dr. */
  function HitsBefore(g: Grid, r: int, c: int, dr: int): nat
    requires Readable(g) && -1 <= dr <= 2
    decreases dr + 1
  {
    if dr == -1 then 0 else HitsBefore(g, r, c, dr - 1) + RowHits(g, r, c, dr - 1, 2)
  }

  /** The number of rolls among the eight cells around (r, c): at most eight. */
  function NeighbourCount(g: Grid, r: int, c: int): (n: nat)
    requires Readable(g)
    ensures n <= 8
  {
    HitsBefore(g, r, c, 2)
  }

  /** The eight cells around (r, c). */
  function Ring(r: int, c: int): set<(int, int)>
  {
    {(r - 1, c - 1), (r - 1, c), (r - 1, c + 1), (r, c - 1), (r, c + 1), (r + 1, c - 1), (r + 1, c), (r + 1, c + 1)}
  }

  /** A roll with fewer than four neighbouring rolls. */
  predicate Accessible(g: Grid, r: int, c: int)
    requires Readable(g)
  {
    IsRoll(g, r, c) && NeighbourCount(g, r, c) < 4
  }

  /** Only the eight cells around (r, c) matter: two grids of the same shape
      that agree there give the same count, whatever the centre or any other
      cell holds. */
  lemma NeighbourCountLocal(g: Grid, h: Grid, r: int, c: int)
    requires Readable(g) && Readable(h) && |g| == |h| && Width(g) == Width(h)
    requires forall p :: p in Ring(r, c) && InGrid(g, p.0, p.1) ==> g[p.0][p.1] == h[p.0][p.1]
    ensures NeighbourCount(g, r, c) == NeighbourCount(h, r, c)
  {
    forall dr, dc | -1 <= dr <= 1 && -1 <= dc <= 1 ensures Hit(g, r, c, dr, dc) == Hit(h, r, c, dr, dc) {
      if dr != 0 || dc != 0 {
        assert (r + dr, c + dc) in Ring(r, c);
      }
    }
    forall dr | -1 <= dr <= 1 ensures RowHits(g, r, c, dr, 2) == RowHits(h, r, c, dr, 2) {
      assert RowHits(g, r, c, dr, 0) == RowHits(h, r, c, dr, 0);
      assert RowHits(g, r, c, dr, 1) == RowHits(h, r, c, dr, 1);
    }
    assert HitsBefore(g, r, c, 0) == HitsBefore(h, r, c, 0);
    assert HitsBefore(g, r, c, 1) == HitsBefore(h, r, c, 1);
  }

  /** `count_adjacent_rolls`: the number of rolls in the eight cells around (row, col). */
  method CountAdjacentRolls(g: Grid, row: int, col: int) returns (count: nat)
    requires Readable(g)
    ensures count == NeighbourCount(g, row, col)
  {
    count := 0;
    for dr := -1 to 2
      invariant count == HitsBefore(g, row, col, dr)
    {
      for dc := -1 to 2
        invariant count == HitsBefore(g, row, col, dr) + RowHits(g, row, col, dr, dc)
      {
        if dr == 0 && dc == 0 {
          continue;
        }
        var nr, nc := row + dr, col + dc;
        if 0 <= nr < |g| && 0 <= nc < |g[0]| {
          if g[nr][nc] == '@' {
            count := count + 1;
          }
        }
      }
    }
  }

  // ------------------------------------------------------------ accessible cells

  /** The accessible cells of row r left of column c, left to right. */
  ghost function RowCells(g: Grid, r: nat, c: nat): seq<(int, int)>
    requires Readable(g) && r < |g| && c <= Width(g)
  {
    if c == 0 then []
    else RowCells(g, r, c - 1) + (if Accessible(g, r, c - 1) then [(r, c - 1)] else [])
  }

  /** The accessible cells of the first k rows, in row-major order. */
  ghost function RowsCells(g: Grid, k: nat): seq<(int, int)>
    requires Readable(g) && k <= |g|
  {
    if k == 0 then [] else RowsCells(g, k - 1) + RowCells(g, k - 1, Width(g))
  }

  /** Every accessible cell of the grid, in row-major order. */
  ghost function AccessibleCells(g: Grid): seq<(int, int)>
    requires Readable(g)
  {
    RowsCells(g, |g|)
  }

  /** p comes before q in row-major order. */
  predicate RowMajorLess(p: (int, int), q: (int, int))
  {
    p.0 < q.0 || (p.0 == q.0 && p.1 < q.1)
  }

  /** Strictly increasing in row-major order (so also free of repeats). */
  ghost predicate RowMajor(cells: seq<(int, int)>)
  {
    forall i, j :: 0 <= i < j < |cells| ==> RowMajorLess(cells[i], cells[j])
  }

  lemma {:induction false} RowCellsExact(g: Grid, r: nat, c: nat)
    requires Readable(g) && r < |g| && c <= Width(g)
    ensures forall p :: p in RowCells(g, r, c) <==> p.0 == r && 0 <= p.1 < c && Accessible(g, p.0, p.1)
    ensures RowMajor(RowCells(g, r, c))
  {
    if c > 0 {
      RowCellsExact(g, r, c - 1);
      var a, t := RowCells(g, r, c - 1), if Accessible(g, r, c - 1) then [(r, c - 1)] else [];
      assert RowCells(g, r, c) == a + t;
      forall i, j | 0 <= i < j < |a + t| ensures RowMajorLess((a + t)[i], (a + t)[j]) {
        if j >= |a| {
          assert a[i] in a;
        }
      }
    }
  }

  lemma {:induction false} RowsCellsExact(g: Grid, k: nat)
    requires Readable(g) && k <= |g|
    ensures forall p :: p in RowsCells(g, k) <==> 0 <= p.0 < k && 0 <= p.1 < Width(g) && Accessible(g, p.0, p.1)
    ensures RowMajor(RowsCells(g, k))
  {
    if k > 0 {
      RowsCellsExact(g, k - 1);
      RowCellsExact(g, k - 1, Width(g));
      var a, b := RowsCells(g, k - 1), RowCells(g, k - 1, Width(g));
      forall i, j | 0 <= i < j < |a + b| ensures RowMajorLess((a + b)[i], (a + b)[j]) {
        if i < |a| && j >= |a| {
          assert a[i] in a && b[j - |a|] in b;
        }
      }
    }
  }

  /** `find_accessible_rolls` promises exactly the accessible rolls, each once, row-major. */
  lemma AccessibleCellsExact(g: Grid)
    requires Readable(g)
    ensures forall p :: p in AccessibleCells(g) <==> InGrid(g, p.0, p.1) && Accessible(g, p.0, p.1)
    ensures RowMajor(AccessibleCells(g))
  {
    RowsCellsExact(g, |g|);
  }

  /** `find_accessible_rolls`: the accessible rolls, scanning rows top to
      bottom and each row left to right. The grid is only read. */
  method FindAccessibleRolls(g: Grid) returns (accessible: seq<(int, int)>)
    requires Readable(g)
    ensures accessible == AccessibleCells(g)
    ensures forall p :: p in accessible <==> InGrid(g, p.0, p.1) && Accessible(g, p.0, p.1)
    ensures RowMajor(accessible)
  {
    accessible := [];
    for r := 0 to |g|
      invariant accessible == RowsCells(g, r)
    {
      for c := 0 to |g[0]|
        invariant accessible == RowsCells(g, r) + RowCells(g, r, c)
      {
        if g[r][c] == '@' {
          var adjacent := CountAdjacentRolls(g, r, c);
          if adjacent < 4 {
            accessible := accessible + [(r, c)];
          }
        }
      }
    }
    AccessibleCellsExact(g);
  }

  /** Part 1: the number of accessible rolls, counted in the same scan. */
  method CountAccessibleRolls(g: Grid) returns (accessibleRolls: nat)
    requires Readable(g)
    ensures accessibleRolls == |AccessibleCells(g)|
  {
    accessibleRolls := 0;
    for r := 0 to |g|
      invariant accessibleRolls == |RowsCells(g, r)|
    {
      for c := 0 to Width(g)
        invariant accessibleRolls == |RowsCells(g, r)| + |RowCells(g, r, c)|
      {
        if g[r][c] == '@' {
          var adjacent := CountAdjacentRolls(g, r, c);
          if adjacent < 4 {
            accessibleRolls := accessibleRolls + 1;
          }
        }
      }
    }
  }

  // ------------------------------------------------------------ removal rounds

  /** The number of '@' in a row. */
  function RowRolls(s: seq<char>): nat
  {
    if s == [] then 0 else RowRolls(s[..|s| - 1]) + (if s[|s| - 1] == '@' then 1 else 0)
  }

  /** The number of '@' in the grid. */
  function RollCount(g: Grid): nat
  {
    if g == [] then 0 else RollCount(g[..|g| - 1]) + RowRolls(g[|g| - 1])
  }

  /** One round: every roll accessible in `g` becomes '.', judged on `g`
      before any removal; the cells right of the first row's width are kept. */
  ghost function RemoveRound(g: Grid): (h: Grid)
    requires Readable(g)
    ensures |h| == |g| && Readable(h) && Width(h) == Width(g)
    ensures forall r :: 0 <= r < |g| ==> |h[r]| == |g[r]|
  {
    seq(|g|, r requires 0 <= r < |g| =>
      seq(|g[r]|, c requires 0 <= c < |g[r]| => if c < Width(g) && Accessible(g, r, c) then '.' else g[r][c]))
  }

  /** Exactly the listed cells change, each from '@' to '.'. */
  lemma RoundChanges(g: Grid)
    requires Readable(g)
    ensures forall r, c :: InGrid(g, r, c) ==>
      (RemoveRound(g)[r][c] != g[r][c] <==> (r, c) in AccessibleCells(g))
      && ((r, c) in AccessibleCells(g) ==> g[r][c] == '@' && RemoveRound(g)[r][c] == '.')
  {
    AccessibleCellsExact(g);
  }

  lemma {:induction false} RowRollsRound(g: Grid, r: nat, c: nat)
    requires Readable(g) && r < |g| && c <= |g[r]|
    ensures RowRolls(RemoveRound(g)[r][..c]) + |RowCells(g, r, if c < Width(g) then c else Width(g))| == RowRolls(g[r][..c])
  {
    if c > 0 {
      RowRollsRound(g, r, c - 1);
      assert RemoveRound(g)[r][..c][..c - 1] == RemoveRound(g)[r][..c - 1];
      assert g[r][..c][..c - 1] == g[r][..c - 1];
    }
  }

  /** A whole row loses exactly its accessible rolls. */
  lemma RowRollsRoundFull(g: Grid, r: nat)
    requires Readable(g) && r < |g|
    ensures RowRolls(RemoveRound(g)[r]) + |RowCells(g, r, Width(g))| == RowRolls(g[r])
  {
    RowRollsRound(g, r, |g[r]|);
    assert RemoveRound(g)[r][..|g[r]|] == RemoveRound(g)[r];
    assert g[r][..|g[r]|] == g[r];
  }

  /** The rolls of the first k rows are those of the first k - 1 and the row k - 1. */
  lemma RollCountLast(h: Grid, k: nat)
    requires 0 < k <= |h|
    ensures RollCount(h[..k]) == RollCount(h[..k - 1]) + RowRolls(h[k - 1])
  {
    assert h[..k][..k - 1] == h[..k - 1];
  }

  lemma {:induction false} RollCountRound(g: Grid, k: nat)
    requires Readable(g) && k <= |g|
    ensures RollCount(RemoveRound(g)[..k]) + |RowsCells(g, k)| == RollCount(g[..k])
  {
    if k > 0 {
      RollCountRound(g, k - 1);
      RowRollsRoundFull(g, k - 1);
      RollCountLast(RemoveRound(g), k);
      RollCountLast(g, k);
    }
  }

  /** A round removes exactly as many rolls as it lists. */
  lemma RoundCount(g: Grid)
    requires Readable(g)
    ensures RollCount(RemoveRound(g)) + |AccessibleCells(g)| == RollCount(g)
  {
    RollCountRound(g, |g|);
    assert RemoveRound(g)[..|g|] == RemoveRound(g);
    assert g[..|g|] == g;
  }

  /** The grid once no roll is accessible. Each continuing round removes at
      least one roll, so the number of rolls bounds the rounds. */
  ghost function Settle(g: Grid): (h: Grid)
    requires Readable(g)
    ensures Readable(h) && |h| == |g| && Width(h) == Width(g)
    ensures AccessibleCells(h) == []
    decreases RollCount(g)
  {
    if AccessibleCells(g) == [] then g
    else
      RoundCount(g);
      Settle(RemoveRound(g))
  }

  /** `total_removed`: the sum of the round sizes until no roll is accessible. */
  ghost function Removed(g: Grid): nat
    requires Readable(g)
    decreases RollCount(g)
  {
    if AccessibleCells(g) == [] then 0
    else
      RoundCount(g);
      |AccessibleCells(g)| + Removed(RemoveRound(g))
  }

  /** The total removed is the initial roll count minus the final one. */
  lemma {:induction false} RemovedCount(g: Grid)
    requires Readable(g)
    ensures Removed(g) + RollCount(Settle(g)) == RollCount(g)
    decreases RollCount(g)
  {
    if AccessibleCells(g) != [] {
      RoundCount(g);
      RemovedCount(RemoveRound(g));
    }
  }

  /** The grid an array holds, row by row. */
  function Snapshot(a: array2<char>): (g: Grid)
    reads a
    ensures |g| == a.Length0 && Readable(g) && Width(g) == (if a.Length0 == 0 then 0 else a.Length1)
    ensures forall r :: 0 <= r < a.Length0 ==> |g[r]| == a.Length1
    ensures forall r, c :: 0 <= r < a.Length0 && 0 <= c < a.Length1 ==> g[r][c] == a[r, c]
  {
    seq(a.Length0, r requires 0 <= r < a.Length0 reads a =>
      seq(a.Length1, c requires 0 <= c < a.Length1 reads a => a[r, c]))
  }

  /** The removal loop on `grid_copy`: rounds of find-then-remove until a
      round finds nothing. */
  method RemoveRolls(a: array2<char>) returns (totalRemoved: nat)
    modifies a
    ensures Snapshot(a) == Settle(old(Snapshot(a)))
    ensures totalRemoved == Removed(old(Snapshot(a)))
  {
    totalRemoved := 0;
    while true
      invariant Settle(Snapshot(a)) == Settle(old(Snapshot(a)))
      invariant totalRemoved + Removed(Snapshot(a)) == Removed(old(Snapshot(a)))
      decreases RollCount(Snapshot(a))
    {
      var accessible := FindAccessibleRolls(Snapshot(a));
      if accessible == [] {
        break;
      }
      ghost var before := Snapshot(a);
      RemoveListed(a, accessible);
      RoundCount(before);
      totalRemoved := totalRemoved + |accessible|;
    }
  }

  lemma AccessibleInGrid(g: Grid)
    requires Readable(g)
    ensures forall p :: p in AccessibleCells(g) ==> InGrid(g, p.0, p.1)
  {
    AccessibleCellsExact(g);
  }

  /** Sets each listed cell to '.'; the accessible cells were all found
      before this write, so the round is judged on the grid as it was. */
  method RemoveListed(a: array2<char>, accessible: seq<(int, int)>)
    requires Readable(Snapshot(a)) && accessible == AccessibleCells(Snapshot(a))
    modifies a
    ensures Snapshot(a) == RemoveRound(old(Snapshot(a)))
  {
    ghost var before := Snapshot(a);
    AccessibleInGrid(before);
    for i := 0 to |accessible|
      invariant forall r, c :: 0 <= r < a.Length0 && 0 <= c < a.Length1 ==>
        a[r, c] == if (r, c) in accessible[..i] then '.' else before[r][c]
    {
      var (r, c) := accessible[i];
      assert accessible[..i + 1] == accessible[..i] + [(r, c)];
      a[r, c] := '.';
    }
    assert accessible[..|accessible|] == accessible;
    RoundFromList(before, Snapshot(a));
  }

  /** A grid that holds '.' at exactly the accessible cells of `before` and
      agrees with `before` elsewhere is the round's result. */
  lemma RoundFromList(before: Grid, after: Grid)
    requires Readable(before) && Readable(after)
    requires |after| == |before| && Width(after) == Width(before)
    requires forall r :: 0 <= r < |before| ==> |before[r]| == Width(before) && |after[r]| == Width(before)
    requires forall r, c :: InGrid(before, r, c) ==>
      after[r][c] == if (r, c) in AccessibleCells(before) then '.' else before[r][c]
    ensures after == RemoveRound(before)
  {
    AccessibleCellsExact(before);
    var round := RemoveRound(before);
    forall r | 0 <= r < |after| ensures after[r] == round[r] {
      assert |after[r]| == |round[r]|;
      forall c | 0 <= c < |after[r]| ensures after[r][c] == round[r][c] {
        assert InGrid(before, r, c);
      }
    }
  }

  // ------------------------------------------------------------ columns past the first row

  /** The grid cut to the first row's width: the cells the puzzle reads. */
  function Cropped(g: Grid): (h: Grid)
    requires Readable(g)
    ensures |h| == |g| && forall r :: 0 <= r < |g| ==> h[r] == g[r][..Width(g)] && |h[r]| == Width(g)
    ensures Readable(h) && Width(h) == Width(g)
  {
    seq(|g|, r requires 0 <= r < |g| => g[r][..Width(g)])
  }

  lemma CroppedAccessible(g: Grid, r: int, c: int)
    requires Readable(g)
    ensures Accessible(Cropped(g), r, c) == Accessible(g, r, c)
  {
    var h := Cropped(g);
    forall p | p in Ring(r, c) && InGrid(g, p.0, p.1) ensures g[p.0][p.1] == h[p.0][p.1] {
      assert h[p.0] == g[p.0][..Width(g)];
    }
    NeighbourCountLocal(g, h, r, c);
    if InGrid(g, r, c) {
      assert h[r] == g[r][..Width(g)];
    }
  }

  lemma {:induction false} CroppedRowCells(g: Grid, r: nat, c: nat)
    requires Readable(g) && r < |g| && c <= Width(g)
    ensures RowCells(Cropped(g), r, c) == RowCells(g, r, c)
  {
    if c > 0 {
      CroppedRowCells(g, r, c - 1);
      CroppedAccessible(g, r, c - 1);
    }
  }

  lemma {:induction false} CroppedRowsCells(g: Grid, k: nat)
    requires Readable(g) && k <= |g|
    ensures RowsCells(Cropped(g), k) == RowsCells(g, k)
  {
    if k > 0 {
      CroppedRowsCells(g, k - 1);
      CroppedRowCells(g, k - 1, Width(g));
    }
  }

  /** Cropping commutes with a round: the cut-off cells take no part in it. */
  lemma CroppedRound(g: Grid)
    requires Readable(g)
    ensures AccessibleCells(Cropped(g)) == AccessibleCells(g)
    ensures RemoveRound(Cropped(g)) == Cropped(RemoveRound(g))
  {
    CroppedRowsCells(g, |g|);
    var a, b := RemoveRound(Cropped(g)), Cropped(RemoveRound(g));
    forall r | 0 <= r < |g| ensures a[r] == b[r] {
      forall c | 0 <= c < Width(g) ensures a[r][c] == b[r][c] {
        CroppedAccessible(g, r, c);
      }
    }
  }

  /** The removals never depend on the cells right of the first row's width. */
  lemma {:induction false} RemovedCropped(g: Grid)
    requires Readable(g)
    ensures Removed(Cropped(g)) == Removed(g)
    decreases RollCount(g)
  {
    CroppedRound(g);
    if AccessibleCells(g) != [] {
      RoundCount(g);
      RemovedCropped(RemoveRound(g));
    }
  }

  /** Part 2 from the input lines: copy them into a mutable grid and remove rolls to the end. */
  method CountRemovableRolls(g: Grid) returns (totalRemoved: nat)
    requires Readable(g)
    ensures totalRemoved == Removed(g)
    ensures totalRemoved <= RollCount(g)
  {
    var a := new char[|g|, Width(g)]((r, c) requires 0 <= r < |g| && 0 <= c < Width(g) => g[r][c]);
    assert Snapshot(a) == Cropped(g) by {
      forall r | 0 <= r < |g| ensures Snapshot(a)[r] == Cropped(g)[r] {
      }
    }
    totalRemoved := RemoveRolls(a);
    RemovedCropped(g);
    RemovedCount(g);
  }
}
