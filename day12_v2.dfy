/** Day 12, class version: shapes as character grids that are rotated and
    flipped, a region whose grid is updated in place, and a solver that
    backtracks over every transformation and position while counting its
    placement attempts. */
module Day12Classes {
  import opened Common

  // ------------------------------------------------------------- shape grids

  type Grid = seq<string>

  /** The length of the shortest row; `zip` of no rows yields nothing. */
  function MinLen(g: Grid): (m: nat)
    ensures forall i :: 0 <= i < |g| ==> m <= |g[i]|
    ensures |g| == 0 ==> m == 0
  {
    if |g| == 0 then 0
    else if |g| == 1 then |g[0]|
    else Min(|g[0]|, MinLen(g[1..]))
  }

  function Reverse(s: string): (r: string)
    ensures |r| == |s| && forall k :: 0 <= k < |s| ==> r[k] == s[|s| - 1 - k]
  {
    seq(|s|, k requires 0 <= k < |s| => s[|s| - 1 - k])
  }

  /** Quarter turn clockwise: the rows of `zip(*grid[::-1])`, so column `i`
      read from the bottom row up; `zip` stops at the shortest row. */
  function Rotate(g: Grid): (r: Grid)
    ensures |r| == MinLen(g)
    ensures forall i :: 0 <= i < |r| ==> |r[i]| == |g|
    ensures forall i, j :: 0 <= i < |r| && 0 <= j < |g| ==> r[i][j] == g[|g| - 1 - j][i]
  {
    seq(MinLen(g), i requires 0 <= i < MinLen(g) =>
      seq(|g|, j requires 0 <= j < |g| => g[|g| - 1 - j][i]))
  }

  /** The shortest row is one of the rows. */
  lemma {:induction false} MinLenAttained(g: Grid)
    requires |g| > 0
    ensures exists i :: 0 <= i < |g| && MinLen(g) == |g[i]|
  {
    if |g| == 1 {
      assert MinLen(g) == |g[0]|;
    } else {
      MinLenAttained(g[1..]);
      var i :| 0 <= i < |g| - 1 && MinLen(g[1..]) == |g[1..][i]|;
      if |g[0]| <= MinLen(g[1..]) {
        assert MinLen(g) == |g[0]|;
      } else {
        assert MinLen(g) == |g[i + 1]|;
      }
    }
  }

  /** Mirror image: every row reversed. */
  function Flip(g: Grid): (r: Grid)
    ensures |r| == |g|
    ensures forall i :: 0 <= i < |g| ==> r[i] == Reverse(g[i])
  {
    seq(|g|, i requires 0 <= i < |g| => Reverse(g[i]))
  }

  /** Every row has length `w`. */
  predicate Rectangular(g: Grid, w: nat)
  {
    forall i :: 0 <= i < |g| ==> |g[i]| == w
  }

  /** At least one row, and every row has at least one character. */
  predicate NonEmptyRows(g: Grid)
  {
    |g| > 0 && forall i :: 0 <= i < |g| ==> |g[i]| > 0
  }

  /** A rectangular grid with at least one cell. */
  predicate Box(g: Grid)
  {
    |g| > 0 && |g[0]| > 0 && Rectangular(g, |g[0]|)
  }

  /** An h×w grid becomes a w×h grid. */
  lemma RotateBox(g: Grid)
    requires Box(g)
    ensures Box(Rotate(g)) && |Rotate(g)| == |g[0]| && |Rotate(g)[0]| == |g|
  {
    MinLenAttained(g);
  }

  /** Rows that are not empty stay so under both transformations. */
  lemma RowsStayNonEmpty(g: Grid)
    requires NonEmptyRows(g)
    ensures NonEmptyRows(Rotate(g)) && NonEmptyRows(Flip(g))
  {
    MinLenAttained(g);
  }

  /** A flip keeps the dimensions and undoes itself. */
  lemma FlipTwice(g: Grid)
    ensures |Flip(g)| == |g| && forall i :: 0 <= i < |g| ==> |Flip(g)[i]| == |g[i]|
    ensures Flip(Flip(g)) == g
  {
    forall i | 0 <= i < |g| ensures Flip(Flip(g))[i] == g[i] {
      assert Reverse(Reverse(g[i])) == g[i];
    }
  }

  /** Half turn as an independent definition: rows in reverse order, each
      row reversed. */
  function HalfTurn(g: Grid): (r: Grid)
    ensures |r| == |g| && forall i :: 0 <= i < |g| ==> r[i] == Reverse(g[|g| - 1 - i])
  {
    seq(|g|, i requires 0 <= i < |g| => Reverse(g[|g| - 1 - i]))
  }

  lemma RotateTwice(g: Grid)
    requires Box(g)
    ensures Rotate(Rotate(g)) == HalfTurn(g)
  {
    RotateBox(g);
    var r := Rotate(g);
    RotateBox(r);
    var rr := Rotate(r);
    assert |rr| == |g|;
    forall i | 0 <= i < |g| ensures rr[i] == HalfTurn(g)[i] {
      forall j | 0 <= j < |g[0]| ensures rr[i][j] == g[|g| - 1 - i][|g[0]| - 1 - j] {
        assert rr[i][j] == r[|g[0]| - 1 - j][i];
      }
    }
  }

  lemma HalfTurnTwice(g: Grid)
    ensures HalfTurn(HalfTurn(g)) == g
  {
    forall i | 0 <= i < |g| ensures HalfTurn(HalfTurn(g))[i] == g[i] {
      assert Reverse(Reverse(g[i])) == g[i];
    }
  }

  /** `n` quarter turns. */
  function RotateN(g: Grid, n: nat): Grid
  {
    if n == 0 then g else Rotate(RotateN(g, n - 1))
  }

  /** Four quarter turns give back a grid that is rectangular; a grid with
      rows but no columns is lost, since `zip` yields no rows for it. */
  lemma RotateFour(g: Grid)
    requires Box(g)
    ensures RotateN(g, 4) == g
  {
    RotateTwice(g);
    RotateBox(g);
    RotateBox(Rotate(g));
    RotateTwice(HalfTurn(g));
    HalfTurnTwice(g);
    assert RotateN(g, 1) == Rotate(g);
    assert RotateN(g, 2) == Rotate(Rotate(g)) == HalfTurn(g);
    assert RotateN(g, 3) == Rotate(HalfTurn(g));
    assert Box(HalfTurn(g));
  }

  // ---------------------------------------------------------- '#' cell count

  /** The `(row, column)` positions of the '#' cells. */
  function HashCells(g: Grid): set<(int, int)>
  {
    set i, j | 0 <= i < |g| && 0 <= j < |g[i]| && g[i][j] == '#' :: (i, j)
  }

  function Image<A, B>(s: set<A>, f: A -> B): set<B>
  {
    set a | a in s :: f(a)
  }

  /** A map that is one-to-one on `s` keeps the size of `s`. */
  lemma {:induction false} InjectiveImage<A, B>(s: set<A>, f: A -> B)
    requires forall a, b :: a in s && b in s && f(a) == f(b) ==> a == b
    ensures |Image(s, f)| == |s|
    decreases |s|
  {
    if s != {} {
      var a :| a in s;
      var rest := s - {a};
      InjectiveImage(rest, f);
      assert Image(s, f) == Image(rest, f) + {f(a)};
    }
  }

  /** Where a quarter turn sends the cell `(i, j)` of a grid with `h` rows. */
  function TurnCell(h: int): ((int, int)) -> (int, int)
  {
    (c: (int, int)) => (c.1, h - 1 - c.0)
  }

  /** Where a flip sends the cell `(i, j)` of `g`. */
  function FlipCell(g: Grid): ((int, int)) -> (int, int)
  {
    (c: (int, int)) => (c.0, if 0 <= c.0 < |g| then |g[c.0]| - 1 - c.1 else c.1)
  }

  /** A quarter turn of a rectangular grid keeps its number of '#' cells. */
  lemma RotateHashCount(g: Grid)
    requires Box(g)
    ensures |HashCells(Rotate(g))| == |HashCells(g)|
  {
    RotateBox(g);
    var f := TurnCell(|g|);
    var image := Image(HashCells(g), f);
    forall c | c in HashCells(Rotate(g)) ensures c in image {
      var src := (|g| - 1 - c.1, c.0);
      assert src in HashCells(g) && f(src) == c;
    }
    forall c | c in image ensures c in HashCells(Rotate(g)) {
      var src :| src in HashCells(g) && f(src) == c;
      assert Rotate(g)[c.0][c.1] == g[src.0][src.1];
    }
    assert image == HashCells(Rotate(g));
    InjectiveImage(HashCells(g), f);
  }

  /** A flip keeps the number of '#' cells. */
  lemma FlipHashCount(g: Grid)
    ensures |HashCells(Flip(g))| == |HashCells(g)|
  {
    var f := FlipCell(g);
    var image := Image(HashCells(g), f);
    forall c | c in HashCells(Flip(g)) ensures c in image {
      var src := (c.0, |g[c.0]| - 1 - c.1);
      assert src in HashCells(g) && f(src) == c;
    }
    forall c | c in image ensures c in HashCells(Flip(g)) {
      var src :| src in HashCells(g) && f(src) == c;
      assert Flip(g)[c.0][c.1] == g[src.0][src.1];
    }
    assert image == HashCells(Flip(g));
    InjectiveImage(HashCells(g), f);
  }

  // --------------------------------------------------------- transformations

  /** The grids `generate_transformations` collects in its first `k` rounds:
      the `n`-th quarter turn and its flip, for `n` from 1 to `k`. */
  function TransformsUpTo(g: Grid, k: nat): set<Grid>
  {
    if k == 0 then {} else TransformsUpTo(g, k - 1) + {RotateN(g, k), Flip(RotateN(g, k))}
  }

  function Transforms(g: Grid): set<Grid>
  {
    TransformsUpTo(g, 4)
  }

  lemma {:induction false} TransformsUpToCount(g: Grid, k: nat)
    ensures |TransformsUpTo(g, k)| <= 2 * k
  {
    if k > 0 {
      TransformsUpToCount(g, k - 1);
    }
  }

  /** Every quarter turn of a box is a box with the same number of '#' cells. */
  lemma {:induction false} RotateNBox(g: Grid, n: nat)
    requires Box(g)
    ensures Box(RotateN(g, n)) && |HashCells(RotateN(g, n))| == |HashCells(g)|
  {
    if n > 0 {
      RotateNBox(g, n - 1);
      RotateBox(RotateN(g, n - 1));
      RotateHashCount(RotateN(g, n - 1));
    }
  }

  /** With rows that are not empty, so are those of every turn and flip. */
  lemma {:induction false} RotateNRows(g: Grid, n: nat)
    requires NonEmptyRows(g)
    ensures NonEmptyRows(RotateN(g, n)) && NonEmptyRows(Flip(RotateN(g, n)))
  {
    if n > 0 {
      RotateNRows(g, n - 1);
      RowsStayNonEmpty(RotateN(g, n - 1));
    }
    RowsStayNonEmpty(RotateN(g, n));
  }

  lemma {:induction false} TransformsUpToRows(g: Grid, k: nat, t: Grid)
    requires NonEmptyRows(g) && t in TransformsUpTo(g, k)
    ensures NonEmptyRows(t)
  {
    if t in TransformsUpTo(g, k - 1) {
      TransformsUpToRows(g, k - 1, t);
    } else {
      RotateNRows(g, k);
    }
  }

  lemma {:induction false} TransformsUpToHashes(g: Grid, k: nat, t: Grid)
    requires Box(g) && t in TransformsUpTo(g, k)
    ensures |HashCells(t)| == |HashCells(g)|
  {
    if t in TransformsUpTo(g, k - 1) {
      TransformsUpToHashes(g, k - 1, t);
    } else {
      RotateNBox(g, k);
      FlipHashCount(RotateN(g, k));
    }
  }

  /** At most eight transformations; for a rectangular shape each has its
      '#' count and the fourth quarter turn is the shape itself. */
  lemma TransformsSpec(g: Grid)
    ensures |Transforms(g)| <= 8
    ensures Box(g) ==> g in Transforms(g)
    ensures Box(g) ==> forall t :: t in Transforms(g) ==> |HashCells(t)| == |HashCells(g)|
    ensures NonEmptyRows(g) ==> forall t :: t in Transforms(g) ==> NonEmptyRows(t)
  {
    TransformsUpToCount(g, 4);
    if Box(g) {
      RotateFour(g);
      forall t | t in Transforms(g) ensures |HashCells(t)| == |HashCells(g)| {
        TransformsUpToHashes(g, 4, t);
      }
    }
    if NonEmptyRows(g) {
      forall t | t in Transforms(g) ensures NonEmptyRows(t) {
        TransformsUpToRows(g, 4, t);
      }
    }
  }

  // ------------------------------------------------------------------ shapes

  /** A shape: its id, its grid, the width of its first row, its number of
      rows, and the shapes of its transformations (none when they were not
      generated). */
  datatype Shape = Shape(shapeId: int, grid: Grid, width: nat, height: nat, transformations: seq<Shape>)

  /** A shape built without transformations. */
  function Plain(grid: Grid, id: int): (s: Shape)
    requires |grid| > 0
    ensures s.grid == grid && s.shapeId == id && s.transformations == []
    ensures s.width == |grid[0]| && s.height == |grid|
  {
    Shape(id, grid, |grid[0]|, |grid|, [])
  }

  /** The grids of a list of shapes. */
  function Grids(ts: seq<Shape>): (gs: seq<Grid>)
    ensures |gs| == |ts| && forall k :: 0 <= k < |ts| ==> gs[k] == ts[k].grid
  {
    seq(|ts|, k requires 0 <= k < |ts| => ts[k].grid)
  }

  /** `ts` lists each transformation of `g` once, as a plain shape of `id`. */
  predicate TransformShapes(g: Grid, id: int, ts: seq<Shape>)
  {
    (forall t :: t in ts ==> t.grid in Transforms(g) && |t.grid| > 0 && t == Plain(t.grid, id))
    && (forall t :: t in Transforms(g) ==> t in Grids(ts))
    && (forall i, j :: 0 <= i < j < |ts| ==> ts[i].grid != ts[j].grid)
  }

  /** Four rounds of a quarter turn, each adding the turned grid and its
      flip to a set, then one plain shape per grid in the set. */
  method GenerateTransformations(s: Shape) returns (ts: seq<Shape>)
    requires NonEmptyRows(s.grid)
    ensures TransformShapes(s.grid, s.shapeId, ts)
    ensures |ts| <= 8
    ensures Box(s.grid) ==> s.grid in Grids(ts)
    ensures Box(s.grid) ==> forall k :: 0 <= k < |ts| ==> |HashCells(ts[k].grid)| == |HashCells(s.grid)|
  {
    var transformations: set<Grid> := {};
    var current := s.grid;
    for n := 0 to 4
      invariant current == RotateN(s.grid, n)
      invariant transformations == TransformsUpTo(s.grid, n)
    {
      current := Rotate(current);
      transformations := transformations + {current};
      var flipped := Flip(current);
      transformations := transformations + {flipped};
    }
    TransformsSpec(s.grid);
    var grids := SetToSeq(transformations);
    forall k | 0 <= k < |grids| ensures |grids[k]| > 0 {
      assert NonEmptyRows(grids[k]);
    }
    ts := PlainShapes(grids, s.shapeId);
  }

  /** One plain shape of `id` per grid, in order. */
  method PlainShapes(grids: seq<Grid>, id: int) returns (ts: seq<Shape>)
    requires forall k :: 0 <= k < |grids| ==> |grids[k]| > 0
    ensures Grids(ts) == grids
    ensures forall t :: t in ts ==> |t.grid| > 0 && t == Plain(t.grid, id)
  {
    ts := [];
    for k := 0 to |grids|
      invariant Grids(ts) == grids[..k]
      invariant forall t :: t in ts ==> |t.grid| > 0 && t == Plain(t.grid, id)
    {
      ts := ts + [Plain(grids[k], id)];
    }
    assert grids[..|grids|] == grids;
  }

  /** `Shape.__init__`: the first row's length as the width, and the
      transformations only when asked for. */
  method NewShape(grid: Grid, id: int, generateTransforms: bool) returns (s: Shape)
    requires |grid| > 0
    requires generateTransforms ==> NonEmptyRows(grid)
    ensures s.grid == grid && s.shapeId == id && s.width == |grid[0]| && s.height == |grid|
    ensures !generateTransforms ==> s.transformations == []
    ensures generateTransforms ==> TransformShapes(grid, id, s.transformations) && |s.transformations| <= 8
  {
    s := Plain(grid, id);
    if generateTransforms {
      var ts := GenerateTransformations(s);
      s := s.(transformations := ts);
    }
  }

  // ------------------------------------------------------------------ region

  /** `shape.grid[dy][dx] == '#'` for a position the placement loops visit. */
  predicate IsHash(s: Shape, dy: int, dx: int)
  {
    0 <= dy < s.height && 0 <= dx < s.width && dy < |s.grid| && dx < |s.grid[dy]| && s.grid[dy][dx] == '#'
  }

  /** Every row is at least as long as the first, so the loops over
      `height` rows and `width` columns stay inside the grid. */
  predicate WellFormed(s: Shape)
  {
    s.height == |s.grid| && forall r :: 0 <= r < |s.grid| ==> s.width <= |s.grid[r]|
  }

  /** A shape put down with its top-left corner at column `x`, row `y`. */
  datatype Placement = Placement(shape: Shape, x: nat, y: nat)

  /** The placement puts a '#' on row `i`, column `j`. */
  predicate Covers(p: Placement, i: int, j: int)
  {
    IsHash(p.shape, i - p.y, j - p.x)
  }

  /** Some placement of `ps` covers row `i`, column `j`. */
  predicate CoveredBy(ps: seq<Placement>, i: int, j: int)
  {
    ps != [] && (Covers(ps[0], i, j) || CoveredBy(ps[1..], i, j))
  }

  lemma {:induction false} CoveredByMember(ps: seq<Placement>, k: nat, i: int, j: int)
    requires k < |ps| && Covers(ps[k], i, j)
    ensures CoveredBy(ps, i, j)
  {
    if k > 0 {
      CoveredByMember(ps[1..], k - 1, i, j);
    }
  }

  lemma CoveredByPrepend(p: Placement, rest: seq<Placement>, i: int, j: int)
    ensures CoveredBy([p] + rest, i, j) == (Covers(p, i, j) || CoveredBy(rest, i, j))
  {
    assert ([p] + rest)[1..] == rest;
  }

  /** No cell is covered by two placements. */
  ghost predicate Disjoint(ps: seq<Placement>)
  {
    forall k, l, i, j :: 0 <= k < l < |ps| && Covers(ps[k], i, j) ==> !Covers(ps[l], i, j)
  }

  /** A placement that shares no cell with any of `rest` can go in front. */
  lemma DisjointPrepend(p: Placement, rest: seq<Placement>)
    requires Disjoint(rest)
    requires forall l, i, j :: 0 <= l < |rest| && Covers(rest[l], i, j) ==> !Covers(p, i, j)
    ensures Disjoint([p] + rest)
  {
    var ps := [p] + rest;
    forall k, l, i, j | 0 <= k < l < |ps| && Covers(ps[k], i, j) ensures !Covers(ps[l], i, j) {
      assert ps[l] == rest[l - 1];
      if k > 0 {
        assert ps[k] == rest[k - 1];
      }
    }
  }

  class Region {
    const width: nat
    const height: nat
    const grid: array2<char>
    var shapeList: seq<Shape>
    const counts: seq<int>

    /** The grid is `height` rows of `width` cells, each '.' or '#'. */
    ghost predicate Valid()
      reads this, grid
    {
      grid.Length0 == height && grid.Length1 == width &&
      forall i, j :: 0 <= i < height && 0 <= j < width ==> grid[i, j] == '.' || grid[i, j] == '#'
    }

    /** A new region is empty. */
    constructor(width: nat, height: nat, counts: seq<int>)
      ensures Valid() && fresh(grid)
      ensures this.width == width && this.height == height && this.counts == counts && shapeList == []
      ensures forall i, j :: 0 <= i < height && 0 <= j < width ==> grid[i, j] == '.'
    {
      this.width := width;
      this.height := height;
      grid := new char[height, width]((i, j) => '.');
      shapeList := [];
      this.counts := counts;
    }

    /** Each '#' of the placement lies left of column `width` and above row
        `height`. */
    ghost predicate Inside(p: Placement)
      reads this
    {
      forall dy, dx :: IsHash(p.shape, dy, dx) ==> p.y + dy < height && p.x + dx < width
    }

    /** Each '#' of `s` put at column `x`, row `y` lands inside the region on
        a cell that is not '#'. */
    ghost predicate Fits(s: Shape, x: nat, y: nat)
      requires Valid()
      reads this, grid
    {
      forall dy, dx :: IsHash(s, dy, dx) ==>
        y + dy < height && x + dx < width && grid[y + dy, x + dx] != '#'
    }

    method CanPlace(s: Shape, x: nat, y: nat) returns (ok: bool)
      requires Valid() && WellFormed(s)
      ensures ok <==> Fits(s, x, y)
    {
      for dy := 0 to s.height
        invariant forall dy', dx :: dy' < dy && IsHash(s, dy', dx) ==>
          y + dy' < height && x + dx < width && grid[y + dy', x + dx] != '#'
      {
        for dx := 0 to s.width
          invariant forall dx' :: dx' < dx && IsHash(s, dy, dx') ==>
            y + dy < height && x + dx' < width && grid[y + dy, x + dx'] != '#'
        {
          if s.grid[dy][dx] == '#' {
            if y + dy >= height || x + dx >= width || grid[y + dy, x + dx] == '#' {
              assert IsHash(s, dy, dx);
              return false;
            }
          }
        }
      }
      return true;
    }

    /** Writes `marker` on every cell the shape's '#' cells land on, and
        nowhere else. */
    method Place(s: Shape, x: nat, y: nat, marker: char)
      requires Valid() && WellFormed(s) && (marker == '.' || marker == '#')
      requires Inside(Placement(s, x, y))
      modifies grid
      ensures Valid()
      ensures forall i, j :: 0 <= i < height && 0 <= j < width ==>
        grid[i, j] == if Covers(Placement(s, x, y), i, j) then marker else old(grid[i, j])
    {
      for dy := 0 to s.height
        invariant Valid()
        invariant forall i, j :: 0 <= i < height && 0 <= j < width ==>
          grid[i, j] == if Covers(Placement(s, x, y), i, j) && i - y < dy then marker else old(grid[i, j])
      {
        for dx := 0 to s.width
          invariant Valid()
          invariant forall i, j :: 0 <= i < height && 0 <= j < width ==>
            grid[i, j] == if Covers(Placement(s, x, y), i, j) && (i - y < dy || (i - y == dy && j - x < dx))
              then marker else old(grid[i, j])
        {
          if s.grid[dy][dx] == '#' {
            assert IsHash(s, dy, dx);
            grid[y + dy, x + dx] := marker;
          }
        }
      }
    }

    /** Putting a shape down where it fits and then writing '.' over it gives
        the grid back. */
    method PlaceThenClear(s: Shape, x: nat, y: nat)
      requires Valid() && WellFormed(s) && Fits(s, x, y)
      modifies grid
      ensures Valid()
      ensures forall i, j :: 0 <= i < height && 0 <= j < width ==> grid[i, j] == old(grid[i, j])
    {
      Place(s, x, y, '#');
      Place(s, x, y, '.');
    }
  }

  // ------------------------------------------------------------------ solver

  /** The shapes tried for one entry of the shape list: its transformations,
      or the shape itself when it has none. */
  function Candidates(s: Shape): (cs: seq<Shape>)
    ensures |cs| > 0
  {
    if s.transformations != [] then s.transformations else [s]
  }

  class Solver {
    const region: Region
    const shapeList: seq<Shape>
    var attemptCount: nat
    var solutionFound: bool

    constructor(region: Region)
      ensures this.region == region && shapeList == region.shapeList
      ensures attemptCount == 0 && !solutionFound
    {
      this.region := region;
      shapeList := region.shapeList;
      attemptCount := 0;
      solutionFound := false;
    }

    /** Every shape the search may try can be read by the placement loops. */
    ghost predicate Usable()
      reads this
    {
      forall k, t :: 0 <= k < |shapeList| && t in Candidates(shapeList[k]) ==> WellFormed(t)
    }

    /** `placed` puts the shapes from position `from` on of the list, one
        candidate each, inside the region and without overlap. */
    ghost predicate Packs(from: nat, placed: seq<Placement>)
      reads this, region
    {
      (from < |shapeList| ==> from + |placed| == |shapeList|)
      && (from >= |shapeList| ==> placed == [])
      && (forall k :: 0 <= k < |placed| && from + k < |shapeList| ==> placed[k].shape in Candidates(shapeList[from + k]))
      && (forall k :: 0 <= k < |placed| ==> region.Inside(placed[k]))
      && Disjoint(placed)
    }

    lemma PacksPrepend(from: nat, p: Placement, rest: seq<Placement>)
      requires from < |shapeList| && p.shape in Candidates(shapeList[from]) && region.Inside(p)
      requires Packs(from + 1, rest) && Disjoint([p] + rest)
      ensures Packs(from, [p] + rest)
    {
      var ps := [p] + rest;
      forall k | 0 <= k < |ps| && from + k < |shapeList| ensures ps[k].shape in Candidates(shapeList[from + k]) {
        if k > 0 {
          assert ps[k] == rest[k - 1];
        }
      }
      forall k | 0 <= k < |ps| ensures region.Inside(ps[k]) {
        if k > 0 {
          assert ps[k] == rest[k - 1];
        }
      }
    }

    /** Places the shapes from `shapeIndex` on. True means each of them now
        covers cells that were '.' before, none shared; False leaves the
        grid as it was. `log` lists, in order, the placements that passed
        `CanPlace` here and in the searches below; each adds one attempt. */
    method Backtrack(shapeIndex: nat) returns (ok: bool, ghost placed: seq<Placement>, ghost log: seq<Placement>)
      requires region.Valid() && Usable()
      modifies region.grid, this`attemptCount
      decreases |shapeList| - shapeIndex, 1
      ensures region.Valid()
      ensures attemptCount == old(attemptCount) + |log|
      ensures forall k :: 0 <= k < |log| ==> region.Inside(log[k])
      ensures shapeIndex >= |shapeList| ==> ok && placed == [] && log == []
      ensures !ok ==> forall i, j :: 0 <= i < region.height && 0 <= j < region.width ==>
        region.grid[i, j] == old(region.grid[i, j])
      ensures ok ==> Packs(shapeIndex, placed) && |placed| <= |log|
      ensures ok ==> forall i, j :: 0 <= i < region.height && 0 <= j < region.width ==>
        region.grid[i, j] == (if CoveredBy(placed, i, j) then '#' else old(region.grid[i, j]))
      ensures ok ==> forall i, j :: 0 <= i < region.height && 0 <= j < region.width && CoveredBy(placed, i, j) ==>
        old(region.grid[i, j]) == '.'
    {
      if shapeIndex >= |shapeList| {
        return true, [], [];
      }
      var shape := shapeList[shapeIndex];
      var candidates := if shape.transformations != [] then shape.transformations else [shape];
      log := [];
      for n := 0 to |candidates|
        invariant region.Valid()
        invariant attemptCount == old(attemptCount) + |log|
        invariant forall k :: 0 <= k < |log| ==> region.Inside(log[k])
        invariant forall i, j :: 0 <= i < region.height && 0 <= j < region.width ==>
          region.grid[i, j] == old(region.grid[i, j])
      {
        for y := 0 to region.height
          invariant region.Valid()
          invariant attemptCount == old(attemptCount) + |log|
        invariant forall k :: 0 <= k < |log| ==> region.Inside(log[k])
          invariant forall i, j :: 0 <= i < region.height && 0 <= j < region.width ==>
            region.grid[i, j] == old(region.grid[i, j])
        {
          for x := 0 to region.width
            invariant region.Valid()
            invariant attemptCount == old(attemptCount) + |log|
        invariant forall k :: 0 <= k < |log| ==> region.Inside(log[k])
            invariant forall i, j :: 0 <= i < region.height && 0 <= j < region.width ==>
              region.grid[i, j] == old(region.grid[i, j])
          {
            var found, p, more := TryAt(shapeIndex, candidates[n], x, y);
            log := log + more;
            if found {
              return true, p, log;
            }
          }
        }
      }
      return false, [], log;
    }

    /** One position of the search: if the candidate fits there, count the
        attempt, put it down, search on from the next shape, and take it
        back up when that fails. `log` is empty when it does not fit, and is
        otherwise this placement followed by the log of the search below. */
    method TryAt(shapeIndex: nat, t: Shape, x: nat, y: nat) returns (ok: bool, ghost placed: seq<Placement>, ghost log: seq<Placement>)
      requires shapeIndex < |shapeList| && t in Candidates(shapeList[shapeIndex])
      requires region.Valid() && Usable()
      modifies region.grid, this`attemptCount
      decreases |shapeList| - shapeIndex, 0
      ensures region.Valid()
      ensures attemptCount == old(attemptCount) + |log|
      ensures forall k :: 0 <= k < |log| ==> region.Inside(log[k])
      ensures !old(region.Fits(t, x, y)) ==> !ok && log == []
      ensures old(region.Fits(t, x, y)) ==> log != [] && log[0] == Placement(t, x, y)
      ensures !ok ==> forall i, j :: 0 <= i < region.height && 0 <= j < region.width ==>
        region.grid[i, j] == old(region.grid[i, j])
      ensures ok ==> Packs(shapeIndex, placed) && |placed| <= |log| && placed[0] == Placement(t, x, y)
      ensures ok ==> forall i, j :: 0 <= i < region.height && 0 <= j < region.width ==>
        region.grid[i, j] == (if CoveredBy(placed, i, j) then '#' else old(region.grid[i, j]))
      ensures ok ==> forall i, j :: 0 <= i < region.height && 0 <= j < region.width && CoveredBy(placed, i, j) ==>
        old(region.grid[i, j]) == '.'
    {
      var can := region.CanPlace(t, x, y);
      if !can {
        return false, [], [];
      }
      attemptCount := attemptCount + 1;
      var p := Placement(t, x, y);
      region.Place(t, x, y, '#');
      ghost var rest, more;
      ok, rest, more := Backtrack(shapeIndex + 1);
      log := [p] + more;
      if ok {
        forall l, i, j | 0 <= l < |rest| && Covers(rest[l], i, j) ensures !Covers(p, i, j) {
          CoveredByMember(rest, l, i, j);
          assert IsHash(rest[l].shape, i - rest[l].y, j - rest[l].x);
        }
        DisjointPrepend(p, rest);
        PacksPrepend(shapeIndex, p, rest);
        placed := [p] + rest;
        forall i, j ensures CoveredBy(placed, i, j) == (Covers(p, i, j) || CoveredBy(rest, i, j)) {
          CoveredByPrepend(p, rest, i, j);
        }
        return;
      }
      region.Place(t, x, y, '.');
      placed := [];
    }

    /** `solve` without its clock, limits and messages: the search from the
        first shape, its answer kept in `solutionFound`. */
    method Solve() returns (ok: bool, ghost placed: seq<Placement>, ghost log: seq<Placement>)
      requires region.Valid() && Usable()
      modifies region.grid, this`attemptCount, this`solutionFound
      ensures region.Valid()
      ensures solutionFound == ok && attemptCount == old(attemptCount) + |log|
      ensures ok ==> Packs(0, placed) && |placed| == |shapeList|
      ensures ok ==> forall i, j :: 0 <= i < region.height && 0 <= j < region.width && CoveredBy(placed, i, j) ==>
        old(region.grid[i, j]) == '.' && region.grid[i, j] == '#'
    {
      ok, placed, log := Backtrack(0);
      solutionFound := ok;
    }
  }
}
