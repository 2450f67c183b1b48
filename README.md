# Advent of Code 2025 puzzle solvers, modelled in Dafny

This project models the core of a Python repository of Advent of Code 2025
solutions. It covers these puzzle scripts:

- **Day 4:** a grid of paper rolls (`@`). Part 1 counts the rolls with fewer
  than four neighbouring rolls. Part 2 removes such rolls round after round
  until none is left to remove.
- **Day 5:** inclusive ranges of fresh ingredient IDs. Part 1 counts the
  listed IDs that fall in some range. Part 2 sorts and merges the ranges and
  sums their lengths.
- **Day 6:** a worksheet of arithmetic problems laid out in columns
  separated by blank columns. Part 1 reads each problem row by row. Part 2
  reads it column by column, right to left. The answer is the grand total of
  all problems.
- **Day 9:** red tiles on a loop. It finds the largest rectangle with two
  red tiles as opposite corners, and the largest one that passes a validity
  test. It also collects the green tiles on the loop's edges. The
  `day9_part2.py` script adds the edge lengths and remembers which pair of
  tiles spans the best rectangle.
- **Day 10, Part 1:** machine lines `[lights] (buttons) {joltage}`. The
  fewest button presses that produce the light pattern are found by Gaussian
  elimination over GF(2), followed by a search over the free variables.
- **Day 11:** a device graph. It counts the paths from `you` to `out` with
  memoisation, and the paths that visit every required node.
- **Day 12:** packing presents (polyomino shapes) into regions.
  - The coordinate version (`day12.py`) normalises cell lists, generates up
    to eight orientations, and backtracks from the first empty cell.
  - The class version (`day12_v2.py`) has a `Shape` with rotated and flipped
    character grids, a `Region` whose grid is updated in place, and a
    `Solver` that counts its placement attempts.

Each module follows one source file: `Day4`, `Day5`, `Day6`, `Day9`,
`Day9Part2`, `Day10`, `Day11` (with `Day11Example`), `Day12` and
`Day12Classes`. Three shared modules model Python built-ins:

- `Common`: `Option`, `abs`, `min`, `max`, integer intervals, and turning
  a set into a list.
- `Text`: `strip`, `split`, `isdigit` on ASCII digits, `int()`, and
  `str.index` as `FindFrom`.
- `Sorting`: `sorted` and `list.sort`, as an insertion sort under a total
  order. For a total order, the result is the unique sorted permutation.

Python exceptions are modelled two ways:

- Raised on internal data (an `IndexError` or `KeyError` the script never
  expects): a `requires`.
- Raised on malformed input (`int()` on a non-number, a missing separator):
  an `Option` result.

Python's `float("inf")`, which means "no solution", is `None`.

## Model

| member | source | states |
|---|---|---|
| Day4.NeighbourCount | puzzles/day4.py:207-218 | the number of neighbouring rolls is never more than 8 |
| Day4.NeighbourCountLocal | puzzles/day4.py:207-218 | the count depends only on the eight cells around the given cell |
| Day4.CountAdjacentRolls | puzzles/day4.py:207-218 | the loop over `dr`, `dc` counts exactly the `@` cells among the in-grid neighbours |
| Day4.AccessibleCellsExact | puzzles/day4.py:233-242 | a cell is listed iff it is an in-grid roll with fewer than four neighbouring rolls; the list is in row-major order |
| Day4.FindAccessibleRolls | puzzles/day4.py:233-242 | the loop returns every accessible roll once, in row-major order, and nothing else |
| Day4.CountAccessibleRolls | puzzles/day4.py:221-227 | the Part 1 count is the number of accessible rolls |
| Day4.RoundCount | puzzles/day4.py:254-258 | one round removes exactly as many rolls as were listed |
| Day4.RemoveListed | puzzles/day4.py:255-256 | writing `.` on the listed cells turns the array into the grid after one removal round |
| Day4.Settle | puzzles/day4.py:249-252 | the grid where the loop stops has no accessible roll and keeps its dimensions |
| Day4.RemovedCount | puzzles/day4.py:249-258 | rolls removed plus rolls left equal the rolls at the start |
| Day4.RemoveRolls | puzzles/day4.py:249-258 | the array ends as the settled grid, and the total is the number of rolls removed on the way |
| Day4.RemovedCropped | puzzles/day4.py:203-258 | the removals do not depend on the cells right of the first row's width, which no loop reads, so rows longer than the first change nothing |
| Day4.CountRemovableRolls | puzzles/day4.py:245-258 | the Part 2 total is the number of rolls removed until none is accessible, at most the number of rolls |
| Day5.RangeRoundTrip | puzzles/day5.py:88-90 | a range written as `a-b` parses back to `(a, b)` |
| Day5.FirstBlank | puzzles/day5.py:84 | the position of the first empty line, with no empty line before it; None when there is none |
| Day5.NonBlank | puzzles/day5.py:94-96 | keeps exactly the non-empty lines |
| Day5.ParseDatabase | puzzles/day5.py:80-96 | no blank line, or a line that does not parse, gives None; otherwise the ranges before the blank line and the IDs after it |
| Day5.CountFresh | puzzles/day5.py:99-107 | the count is the number of listed IDs that lie in some range |
| Day5.ExampleFreshCount | puzzles/day5.py:44 | the example has 3 fresh IDs |
| Day5.IdsCovered | puzzles/day5.py:101-105 | an ID is in the union of the ranges iff some range contains it |
| Day5.SortedRanges | puzzles/day5.py:120 | sorting puts the starts in ascending order and keeps the union of the ranges |
| Day5.MergeOne | puzzles/day5.py:124-131 | one step adds exactly the IDs of the current range and keeps the ranges disjoint and non-adjacent |
| Day5.MergeRanges | puzzles/day5.py:114-133 | the merged list covers the same IDs, is no longer than the input, is empty for empty input, and for well-formed ranges is disjoint and non-adjacent |
| Day5.SizeSumCountsIds | puzzles/day5.py:140-142 | for disjoint ranges the sum of lengths is the number of IDs |
| Day5.TotalSize | puzzles/day5.py:140-142 | the loop sums `end - start + 1` over the merged ranges |
| Day5.CountAllFresh | puzzles/day5.py:137-142 | for well-formed ranges the Part 2 total is the number of distinct IDs in their union |
| Day5.ExampleAllFresh | puzzles/day5.py:71 | the example ranges hold 14 IDs |
| Day6.MaxWidth | puzzles/day6.py:112 | at least every line's length, and equal to one of them |
| Day6.LJust | puzzles/day6.py:114 | the line followed by spaces up to the width |
| Day6.Pad | puzzles/day6.py:112-114 | all padded rows have the same width |
| Day6.PadKeeps | puzzles/day6.py:114 | padding keeps each character and adds only spaces |
| Day6.BlankRows | puzzles/day6.py:121 | a column is blank iff every row has a space there |
| Day6.BlocksMaximal | puzzles/day6.py:119-132 | each problem block is a maximal run of non-blank columns |
| Day6.BlocksOrdered | puzzles/day6.py:119-132 | blocks are found left to right without overlap |
| Day6.BlocksCover | puzzles/day6.py:119-132 | every non-blank column lies in some block |
| Day6.NextBlock | puzzles/day6.py:121-132 | the start is the first non-blank column; the end is the next blank column or the width |
| Day6.KeepEmpty | puzzles/day6.py:135-139 | filtering leaves something iff some element is kept |
| Day6.ReadCells | puzzles/day6.py:135-139 | the non-empty stripped cells of the block, top to bottom |
| Day6.TextProblemSome | puzzles/day6.py:142-152 | a problem is produced iff the last cell is `+` or `*` and some earlier cell is a number; its numbers are exactly the earlier cells that parse |
| Day6.ParseCells | puzzles/day6.py:142-152 | the parsing loop computes that problem |
| Day6.ExtractProblems | puzzles/day6.py:108-156 | Part 1 reads one problem per block, left to right, skipping blocks that give none |
| Day6.ReadColumn | puzzles/day6.py:212-221 | a column's digits top to bottom, and its operator when it has one |
| Day6.ScanReads | puzzles/day6.py:208-230 | reading right to left stops at the first operator column; every column from there to the right end gives one number |
| Day6.ScanNoOperator | puzzles/day6.py:208-230 | a block without an operator yields all its numbers and no operator |
| Day6.ReadColumns | puzzles/day6.py:204-233 | the Part 2 reading of one block |
| Day6.ExtractProblemsPart2 | puzzles/day6.py:176-237 | Part 2 reads one problem per block, left to right |
| Day6.TotalAppend | puzzles/day6.py:161-170 | the grand total of two lists of problems is the sum of their totals |
| Day6.GrandTotal | puzzles/day6.py:161-170 | the loop adds each problem's sum or product |
| Day6.ExampleTotals | puzzles/day6.py:25-51 | the example problems total 4277556 for Part 1 and 3263827 for Part 2 |
| Day9.AreaPositiveSymmetric | puzzles/day9.py:247-249 | a rectangle's area is at least 1 and does not depend on corner order |
| Day9.CandidatesCount | puzzles/day9.py:262-270 | there is one candidate per pair `i < j`, `n(n-1)/2` in all |
| Day9.CandidatesMembers | puzzles/day9.py:262-270 | a candidate is listed iff it comes from a pair `i < j` |
| Day9.BestBounds | puzzles/day9.py:251 | the running maximum is at least each area, and is 0 or one of them |
| Day9.LargestRectangle | puzzles/day9.py:235-253 | every pair's area is at most the answer; the answer is some pair's area, or 0 with fewer than two tiles |
| Day9.FindLargestRectangle | puzzles/day9.py:235-253 | the double loop returns the largest area over all pairs |
| Day9.SortedDescending | puzzles/day9.py:273 | after the descending sort, areas never increase |
| Day9.SearchStops | puzzles/day9.py:276-278 | stopping at the first area no larger than the best loses nothing |
| Day9.SearchSorted | puzzles/day9.py:276-281 | the early-exit scan finds the largest area among candidates that pass the test |
| Day9.FindLargestValidRectangle | puzzles/day9.py:256-283 | the answer is the largest area among the rectangles that pass the test |
| Day9.ValidAtMostLargest | puzzles/day9.py:256-283 | the Part 2 answer is at most the Part 1 answer |
| Day9.EdgeTilesMembers | puzzles/day9.py:173-187 | a tile is green iff it lies on a straight edge between consecutive red tiles, the last edge wrapping back to the first tile |
| Day9.GreenEdgeTiles | puzzles/day9.py:173-187 | the loops collect exactly those tiles |
| Day9Part2.EdgeLengthTiles | puzzles/day9_part2.py:49 | a straight edge's length is the number of tiles on it |
| Day9Part2.EdgeLengths | puzzles/day9_part2.py:45-50 | one length of at least 1 per red tile, the last edge wrapping around |
| Day9Part2.AllCandidatesCount | puzzles/day9_part2.py:148-156 | one 7-tuple candidate per pair `i < j` |
| Day9Part2.AllCandidatesPairs | puzzles/day9_part2.py:148-156 | a candidate is listed iff it records a pair `i < j` with its area and bounds |
| Day9Part2.SearchBest | puzzles/day9_part2.py:160-173 | the scan finds the best passing area; `best_rect` is None iff the area is 0, and otherwise is a passing pair with that area |
| Day9Part2.FindBestRectangle | puzzles/day9_part2.py:143-173 | the same for the candidates sorted in descending order |
| Day10.DotXor | puzzles/day10.py:158-159 | the parity a row gives to a set of pressed buttons is linear in the row: the XOR of two rows gives the XOR of their parities |
| Day10.SwapSat | puzzles/day10.py:151-152 | swapping two rows keeps the solutions |
| Day10.XorSat | puzzles/day10.py:156-159 | adding the pivot row to another row keeps the solutions |
| Day10.AugmentedSolves | puzzles/day10.py:129-134 | a vector satisfies the augmented rows iff it solves matrix · x = target over GF(2) |
| Day10.FindPivot | puzzles/day10.py:141-146 | the first row from the current one with a 1 in the column, or None when all are 0 |
| Day10.XorInto | puzzles/day10.py:158-159 | the loop over `c` replaces the row by its XOR with the pivot row |
| Day10.EliminateColumn | puzzles/day10.py:155-159 | the column is cleared except at the pivot; earlier columns and the solutions are unchanged |
| Day10.Eliminate | puzzles/day10.py:136-161 | the result is in row-echelon form with the same solutions |
| Day10.FirstInconsistent | puzzles/day10.py:163-166 | the first row from the current row on whose right-hand side is 1, or None when every such entry is 0 |
| Day10.Inconsistent | puzzles/day10.py:163-166 | such a row means the system has no solution |
| Day10.FreeVars | puzzles/day10.py:170 | the columns that are not pivots, in increasing order |
| Day10.MaskOfBits | puzzles/day10.py:175-180 | every assignment of the free variables is one of the masks `0 .. 2^k - 1` |
| Day10.BackSubstitute | puzzles/day10.py:176-190 | the free variables take the mask's bits and every pivot equation holds |
| Day10.Determined | puzzles/day10.py:182-190 | the free variables determine the pivot variables |
| Day10.OnlyCandidate | puzzles/day10.py:176-193 | when no row below the pivots has a 1 on the right, a vector with the mask's free bits that satisfies every pivot row solves the original system |
| Day10.FewestPresses | puzzles/day10.py:172-196 | the minimum over all masks is the fewest presses of any solution |
| Day10.NoButtons | puzzles/day10.py:125-127 | without buttons, a solution exists iff no light is on, and it is the empty one |
| Day10.GaussEliminate | puzzles/day10.py:117-196 | None iff no solution; otherwise some solution has that weight and none has less |
| Day10.WeightAtMost | puzzles/day10.py:193 | a solution presses each button at most once |
| Day10.BuildMatrix | puzzles/day10.py:204-210 | light `l`, button `b` is 1 iff the button lists `l` |
| Day10.SolveMachine | puzzles/day10.py:199-212 | the fewest presses that light exactly the target pattern, or None; at most the number of buttons; 0 or None without buttons |
| Day10.MachineNeeds | puzzles/day10.py:87-112 | a parsed line has `[` and `]`; without `{` the joltage list is empty |
| Day10.ParseMachine | puzzles/day10.py:84-114 | the loop parser computes the machine the line describes, or None |
| Day10.NumbersRoundTrip | puzzles/day10.py:100 | a comma-separated list of naturals parses back to itself |
| Day10.LightsRoundTrip | puzzles/day10.py:87-90 | a light pattern written with `#` and `.` reads back to itself |
| Day10.ButtonsRoundTrip | puzzles/day10.py:92-104 | the written button groups read back to themselves |
| Day10.JoltageRoundTrip | puzzles/day10.py:106-112 | the written joltage list reads back to itself |
| Day10.MachineRoundTrip | puzzles/day10.py:84-114 | a machine written as a line parses back to the same machine |
| Day11.CountPathsMemo | puzzles/day11.py:96-120 | on any graph with no cycle reachable from the start before the end, the memoised count is the number of paths, and the memo stays correct |
| Day11.CountPaths | puzzles/day11.py:96-120 | the count of paths from start to end, on the same graphs |
| Day11.PathsCountsPaths | puzzles/day11.py:96-120 | that count is the length of the list of all paths |
| Day11.AllPathsSound | puzzles/day11.py:96-120 | every listed path follows the graph's edges from start to end |
| Day11.AllPathsComplete | puzzles/day11.py:96-120 | every such path is listed |
| Day11.Dfs | puzzles/day11.py:131-162 | on the same graphs, the memoised search counts paths by node and visited required set, and the memo stays correct |
| Day11.CountPathsWithRequired | puzzles/day11.py:123-164 | the search from `start` with nothing visited |
| Day11.PathsReqCountsPaths | puzzles/day11.py:131-162 | that count is the number of paths that visit every required node |
| Day11.PathsReqAtMost | puzzles/day11.py:123-164 | Part 2 never exceeds Part 1 |
| Day11.PathsReqNone | puzzles/day11.py:123-164 | with no required nodes, Part 2 equals Part 1 |
| Day11.PathsReqStray | puzzles/day11.py:140-141 | a visited set outside the required set counts nothing |
| Day11.ParseGraph | puzzles/day11.py:80-93 | the graph maps each node to the outputs of its last line |
| Day11.ParsedGraph | puzzles/day11.py:80-93 | a node is a key iff some line names it; the last such line gives its outputs |
| Day11Example.ExamplePaths | puzzles/day11.py:36 | the example graph has 5 paths from `you` to `out` |
| Day11Example.Example2Paths | puzzles/day11.py:47-72 | in the second example graph, 2 of the paths from `svr` to `out` visit both `dac` and `fft` |
| Day11Example.UnreachableCycle | puzzles/day11.py:96-120 | a cycle the search cannot reach does not stop the count: the graph `you: out`, `a: b`, `b: a` has 1 path |
| Day11Example.CycleThroughEnd | puzzles/day11.py:102-103 | the search returns at `out` before following its outputs: the graph `you: out`, `out: you` has 1 path |
| Day12.ShapeCellsSpec | puzzles/day12.py:133-140 | a cell is listed iff it holds `#`, in row-major order |
| Day12.GetShapeCoords | puzzles/day12.py:133-140 | the loops list exactly those cells |
| Day12.ShapeSizeIsCells | puzzles/day12.py:208-210 | the shape size is the number of its cells |
| Day12.MinIs | puzzles/day12.py:147-148 | the minimum row and column are lower bounds that some cell attains |
| Day12.NormalizeSorted | puzzles/day12.py:143-149 | the normalised cells are sorted |
| Day12.NormalizePerm | puzzles/day12.py:143-149 | they are the input cells shifted by the minimum row and column |
| Day12.NormalizeOrigin | puzzles/day12.py:143-149 | the normalised minimum row and column are 0 |
| Day12.NormalizeCanonical | puzzles/day12.py:143-149 | two cell lists that differ by a shift and an order normalise alike |
| Day12.NormalizeIdempotent | puzzles/day12.py:143-149 | normalising twice is normalising once |
| Day12.RotateNormalized | puzzles/day12.py:152-154 | rotating a normalised list equals rotating the raw list |
| Day12.FlipNormalized | puzzles/day12.py:157-159 | likewise for the flip |
| Day12.RotateFour | puzzles/day12.py:152-154 | four rotations give the normalised input |
| Day12.FlipTwice | puzzles/day12.py:157-159 | two flips give the normalised input |
| Day12.Identities | puzzles/day12.py:152-159 | on a normalised list, four rotations and two flips are the identity |
| Day12.OrientationsCount | puzzles/day12.py:162-181 | at most 8 orientations, the normalised shape among them |
| Day12.OrientationsEach | puzzles/day12.py:162-181 | every orientation is normalised and has the shape's size |
| Day12.OrientationsRotate | puzzles/day12.py:162-181 | the orientations are closed under rotation |
| Day12.AddTurns | puzzles/day12.py:171-173 | the loop adds a list and its next three rotations |
| Day12.GetAllOrientations | puzzles/day12.py:162-181 | it lists exactly the orientations, each once, at most 8, the normalised shape among them |
| Day12.CanPlace | puzzles/day12.py:184-193 | true iff every shifted cell is in the grid and empty |
| Day12.PlaceShape | puzzles/day12.py:196-199 | exactly the shifted cells get the marker |
| Day12.RemoveShape | puzzles/day12.py:202-205 | exactly the shifted cells become empty |
| Day12.PlaceThenRemove | puzzles/day12.py:196-205 | placing where the shape fits and removing again restores the grid |
| Day12.FirstEmpty | puzzles/day12.py:243-251 | the first empty cell in row-major order, or None when the grid is full |
| Day12.Backtrack | puzzles/day12.py:236-270 | True when no present is left; False when one is left and no cell is empty; True means every remaining present got a listed orientation on cells that were empty, each marked with its index; False leaves the grid unchanged |
| Day12.TryPlacement | puzzles/day12.py:264-268 | a position that fails `can_place` leaves the grid unchanged and gives False; True means this present and every later one lie on cells that were empty, each marked with its index |
| Day12.PlaceAndContinue | puzzles/day12.py:265-268 | where the orientation fits: True means it and every later present lie on formerly empty cells, marked with their indices; False means the removal restored the grid |
| Day12.PresentPairsSpec | puzzles/day12.py:222-226 | each present is `(size, id)` with a valid id; each id occurs as often as its count |
| Day12.NeededIsSizes | puzzles/day12.py:216 | the cells needed are the sum of the presents' sizes |
| Day12.BuildPresents | puzzles/day12.py:222-229 | the ids occur as often as their counts, ordered by size then id, largest first |
| Day12.BuildOrientations | puzzles/day12.py:231-234 | one orientation list per shape id |
| Day12.PackPresents | puzzles/day12.py:220-272 | True for no presents; False for presents in a region with no cells; True means every present lies inside the region on its own cells |
| Day12.SolveRegion | puzzles/day12.py:213-272 | False when the cells needed exceed the area; True means a real packing of the requested presents exists |
| Day12Classes.MinLenAttained | puzzles/day12_v2.py:151-153 | `zip` stops at the shortest row, which is one of the rows |
| Day12Classes.RotateBox | puzzles/day12_v2.py:151-153 | an h×w grid becomes a w×h grid |
| Day12Classes.RotateTwice | puzzles/day12_v2.py:151-153 | two quarter turns are a half turn (rows and columns reversed) |
| Day12Classes.RotateFour | puzzles/day12_v2.py:151-153 | four quarter turns give a rectangular grid back |
| Day12Classes.FlipTwice | puzzles/day12_v2.py:155-157 | a flip keeps the dimensions and undoes itself |
| Day12Classes.RowsStayNonEmpty | puzzles/day12_v2.py:151-157 | rotation and flip keep every row non-empty |
| Day12Classes.RotateHashCount | puzzles/day12_v2.py:151-153 | a quarter turn of a rectangular grid keeps the number of `#` cells |
| Day12Classes.FlipHashCount | puzzles/day12_v2.py:155-157 | a flip keeps the number of `#` cells |
| Day12Classes.TransformsSpec | puzzles/day12_v2.py:159-170 | at most 8 transformations; for a rectangular shape each has its `#` count and one is the shape itself |
| Day12Classes.GenerateTransformations | puzzles/day12_v2.py:159-170 | one plain shape per transformation, each once, at most 8, the original grid among them, with the same `#` count |
| Day12Classes.NewShape | puzzles/day12_v2.py:141-147 | width from the first row, height from the row count, transformations only when asked for |
| Day12Classes.Region.constructor | puzzles/day12_v2.py:198-203 | a height×width grid of `.` and an empty shape list |
| Day12Classes.Region.CanPlace | puzzles/day12_v2.py:205-212 | true iff every `#` of the shape lands before the right and bottom edges on a cell that is not `#` |
| Day12Classes.Region.Place | puzzles/day12_v2.py:214-219 | exactly the cells under the shape's `#` get the marker |
| Day12Classes.Region.PlaceThenClear | puzzles/day12_v2.py:214-219 | placing `#` where the shape fits and then `.` restores the grid |
| Day12Classes.Solver.constructor | puzzles/day12_v2.py:231-243 | the region's shape list, no attempts, no solution |
| Day12Classes.Solver.Backtrack | puzzles/day12_v2.py:272-313 | True at or past the end of the list; True means each remaining shape covers former `.` cells inside the region, with no cell shared; False leaves the grid unchanged; the counter grows by the length of the ghost `log` of placements that passed `can_place` here and below, each inside the region |
| Day12Classes.Solver.TryAt | puzzles/day12_v2.py:283-311 | a position that fails `can_place` changes nothing and logs nothing; one that passes is the first entry of the log (the rest are the attempts of the search from the next shape), every entry is inside the region, and the counter grows by the length of the log |
| Day12Classes.Solver.Solve | puzzles/day12_v2.py:245-252 | the search from the first shape, its result kept in `solution_found`; the counter grows by the placements logged |
| Sorting.SortSorted | puzzles/day5.py:120 | `sorted` returns a sorted permutation |
| Sorting.SortedUnique | puzzles/day9.py:273 | under a total order, there is one sorted permutation |
| Text.ParseIntRoundTrip | puzzles/day5.py:96 | `int()` reads back the decimal text of any integer |
| Text.ParseIntUnderscore | puzzles/day5.py:96 | `int()` accepts one underscore between two runs of digits and ignores it |

## Left out

- Reading the input files, `print` output, progress messages and timing: the scripts' I/O is not modelled. The models start from the lines or values the scripts read.
- Day 6's first attempt at parsing (`puzzles/day6.py:58-101`), which the script overwrites before using it.
- `str.isdigit` and `str.isspace` cover Unicode digits and spaces in Python; the model accepts ASCII digits and the ASCII whitespace characters only.
- Day 4: a row shorter than the first makes Python raise `IndexError`; the model requires every row to be at least as long as the first.
- Day11.CountPaths, Day11.CountPathsMemo, Day11.Dfs, Day11.CountPathsWithRequired: on a graph where a cycle can be reached from the start without passing the end, the recursion never returns (Python stops it with `RecursionError`). These members require a ranking of the devices the search enters, which exists exactly when there is no such cycle. Python's recursion depth limit on long acyclic paths is not modelled either.
- Day 10, Part 2 (`solve_joltage`): the integer search is not part of this model.
- Day 10's driver loop summing the presses over all machines: only single machines are modelled.
- Day 9's `point_in_polygon` and `is_rectangle_valid_sampled`, with its cache and its sampling step: the validity test is a function parameter, so the results hold for any test.
- The worked examples of Day 4 (13 and 43), Day 9 (50), Day 10 (7) and Day 12 are not evaluated. Only the general properties in the table are proved for them. The examples of Day 5, Day 6 and both parts of Day 11 are proved.
- `puzzles/day9_part2.py:29-55`: the printed edge statistics (min, max, average, perimeter). The edge lengths themselves are modelled.
- `parse_input` of Day 9 and Day 12, and Day 12's driver loop that counts the solvable regions.
- Day 6's example worksheet: only the totals of its problems are proved, not the parse of the worksheet text.
- Day12.GetAllOrientations: the list order comes from a Python set and is not specified; the model fixes one order and states only membership and distinctness.
- Day12Classes.GenerateTransformations: the same applies to the order of the shapes built from the set of grids.
- Day12.Backtrack: proves soundness only (a True result is a real packing). It does not prove that False means no packing exists.
- Day12.SolveRegion: likewise soundness only.
- Day12Classes.Solver.Backtrack: soundness only. The wall-clock limit, `max_attempts` and the `SolverLimitExceeded` exception are left out, so the search always runs to the end.
- Day12Classes.Solver.Solve: the exception handlers that turn a limit or an error into False are left out.
- Day 12's grid markers `.` and `str(present_idx)` are the `Mark` datatype (`Empty`, `Present(idx)`).
- `Shape.transformations` is `None` or a list in Python; the model uses the empty list for `None`, since the solver only tests whether it is truthy.
- `Shape.center_row`, `__repr__`, `print_grid`, `print_grid_with_qty` and `deepcopy`: they only serve printing and copying.
- Day12Classes.Region.CanPlace: negative positions are not modelled, because the solver only passes positions from `range`.
