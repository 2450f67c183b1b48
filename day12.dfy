/** Day 12, coordinate version: a present is the list of its `#` cells;
    orientations are found by rotating and flipping the cell list and
    normalising it, and a region is filled by backtracking over a grid. */
module Day12 {
  import opened Common
  import opened Sorting

  /** `(row, col)`. */
  type Cell = (int, int)

  // ---------------------------------------------------------------- shape cells

  /** The `#` cells among the first `n` columns of row `r`, left to right. */
  function RowCells(row: string, r: int, n: nat): (cs: seq<Cell>)
    requires n <= |row|
    ensures forall i :: 0 <= i < |cs| ==> cs[i].0 == r && 0 <= cs[i].1 < n
  {
    if n == 0 then []
    else RowCells(row, r, n - 1) + (if row[n - 1] == '#' then [(r, n - 1)] else [])
  }

  /** The `#` cells of the first `n` rows, in row-major order. */
  function RowsCells(shape: seq<string>, n: nat): (cs: seq<Cell>)
    requires n <= |shape|
    ensures forall i :: 0 <= i < |cs| ==> 0 <= cs[i].0 < n
  {
    if n == 0 then []
    else RowsCells(shape, n - 1) + RowCells(shape[n - 1], n - 1, |shape[n - 1]|)
  }

  function ShapeCells(shape: seq<string>): seq<Cell>
  {
    RowsCells(shape, |shape|)
  }

  /** Strictly increasing in Python's tuple order. */
  predicate Increasing(cs: seq<Cell>)
  {
    forall i, j :: 0 <= i < j < |cs| ==> PairLe(cs[i], cs[j]) && cs[i] != cs[j]
  }

  lemma {:induction false} RowCellsSpec(row: string, r: int, n: nat)
    requires n <= |row|
    ensures Increasing(RowCells(row, r, n))
    ensures forall c :: (r, c) in RowCells(row, r, n) <==> 0 <= c < n && row[c] == '#'
  {
    if n > 0 {
      RowCellsSpec(row, r, n - 1);
    }
  }

  lemma {:induction false} RowsCellsSpec(shape: seq<string>, n: nat)
    requires n <= |shape|
    ensures Increasing(RowsCells(shape, n))
    ensures forall r, c :: (r, c) in RowsCells(shape, n) <==>
      0 <= r < n && 0 <= c < |shape[r]| && shape[r][c] == '#'
  {
    if n > 0 {
      RowsCellsSpec(shape, n - 1);
      RowCellsSpec(shape[n - 1], n - 1, |shape[n - 1]|);
      var a, t := RowsCells(shape, n - 1), RowCells(shape[n - 1], n - 1, |shape[n - 1]|);
      assert RowsCells(shape, n) == a + t;
      forall i, j | 0 <= i < j < |a + t| ensures PairLe((a + t)[i], (a + t)[j]) && (a + t)[i] != (a + t)[j] {
        if i < |a| <= j {
          assert (a + t)[i] == a[i] && (a + t)[j] == t[j - |a|];
        }
      }
    }
  }

  /** `get_shape_coords` lists exactly the `#` cells, each once, in row-major order. */
  lemma ShapeCellsSpec(shape: seq<string>)
    ensures Increasing(ShapeCells(shape))
    ensures forall r, c :: (r, c) in ShapeCells(shape) <==>
      0 <= r < |shape| && 0 <= c < |shape[r]| && shape[r][c] == '#'
  {
    RowsCellsSpec(shape, |shape|);
  }

  /** `get_shape_coords`: the nested loop over rows and columns. */
  method GetShapeCoords(shape: seq<string>) returns (coords: seq<Cell>)
    ensures coords == ShapeCells(shape)
  {
    coords := [];
    for r := 0 to |shape|
      invariant coords == RowsCells(shape, r)
    {
      ghost var above := coords;
      for c := 0 to |shape[r]|
        invariant coords == above + RowCells(shape[r], r, c)
      {
        if shape[r][c] == '#' {
          coords := coords + [(r, c)];
        }
      }
    }
  }

  /** The number of `#` characters in a row. */
  function HashCount(row: string): nat
  {
    if row == [] then 0 else HashCount(row[..|row| - 1]) + (if row[|row| - 1] == '#' then 1 else 0)
  }

  /** `get_shape_size`: the `#` characters of all rows. */
  function ShapeSize(shape: seq<string>): nat
  {
    if shape == [] then 0 else ShapeSize(shape[..|shape| - 1]) + HashCount(shape[|shape| - 1])
  }

  lemma {:induction false} RowCellsCount(row: string, r: int, n: nat)
    requires n <= |row|
    ensures |RowCells(row, r, n)| == HashCount(row[..n])
  {
    if n > 0 {
      RowCellsCount(row, r, n - 1);
      assert row[..n][..n - 1] == row[..n - 1];
    }
  }

  lemma {:induction false} RowsCellsCount(shape: seq<string>, n: nat)
    requires n <= |shape|
    ensures |RowsCells(shape, n)| == ShapeSize(shape[..n])
  {
    if n > 0 {
      RowsCellsCount(shape, n - 1);
      RowCellsCount(shape[n - 1], n - 1, |shape[n - 1]|);
      assert shape[..n][..n - 1] == shape[..n - 1];
      assert shape[n - 1][..|shape[n - 1]|] == shape[n - 1];
    }
  }

  /** The size of a shape is the number of its cells. */
  lemma ShapeSizeIsCells(shape: seq<string>)
    ensures ShapeSize(shape) == |ShapeCells(shape)|
  {
    RowsCellsCount(shape, |shape|);
    assert shape[..|shape|] == shape;
  }

  // ------------------------------------------------------------- normalising

  function MapCells<A, B>(cs: seq<A>, f: A -> B): (r: seq<B>)
    ensures |r| == |cs| && forall i :: 0 <= i < |cs| ==> r[i] == f(cs[i])
  {
    seq(|cs|, i requires 0 <= i < |cs| => f(cs[i]))
  }

  function ShiftBy(dr: int, dc: int): Cell -> Cell
  {
    (p: Cell) => (p.0 + dr, p.1 + dc)
  }

  function Shift(cs: seq<Cell>, dr: int, dc: int): seq<Cell>
  {
    MapCells(cs, ShiftBy(dr, dc))
  }

  /** The least row among the first `n` cells. */
  function MinRowTo(cs: seq<Cell>, n: nat): int
    requires 0 < n <= |cs|
  {
    if n == 1 then cs[0].0 else Min(MinRowTo(cs, n - 1), cs[n - 1].0)
  }

  /** The least column among the first `n` cells. */
  function MinColTo(cs: seq<Cell>, n: nat): int
    requires 0 < n <= |cs|
  {
    if n == 1 then cs[0].1 else Min(MinColTo(cs, n - 1), cs[n - 1].1)
  }

  /** `min(r for r, c in coords)`. */
  function MinRow(cs: seq<Cell>): int
    requires cs != []
  {
    MinRowTo(cs, |cs|)
  }

  /** `min(c for r, c in coords)`. */
  function MinCol(cs: seq<Cell>): int
    requires cs != []
  {
    MinColTo(cs, |cs|)
  }

  lemma {:induction false} MinToIs(cs: seq<Cell>, n: nat)
    requires 0 < n <= |cs|
    ensures forall i :: 0 <= i < n ==> MinRowTo(cs, n) <= cs[i].0 && MinColTo(cs, n) <= cs[i].1
    ensures exists i :: 0 <= i < n && MinRowTo(cs, n) == cs[i].0
    ensures exists i :: 0 <= i < n && MinColTo(cs, n) == cs[i].1
  {
    if n > 1 {
      MinToIs(cs, n - 1);
      var r :| 0 <= r < n - 1 && MinRowTo(cs, n - 1) == cs[r].0;
      var c :| 0 <= c < n - 1 && MinColTo(cs, n - 1) == cs[c].1;
      if MinRowTo(cs, n) == cs[n - 1].0 {
        assert 0 <= n - 1 < n && MinRowTo(cs, n) == cs[n - 1].0;
      } else {
        assert 0 <= r < n && MinRowTo(cs, n) == cs[r].0;
      }
      if MinColTo(cs, n) == cs[n - 1].1 {
        assert 0 <= n - 1 < n && MinColTo(cs, n) == cs[n - 1].1;
      } else {
        assert 0 <= c < n && MinColTo(cs, n) == cs[c].1;
      }
    } else {
      assert 0 <= 0 < n && MinRowTo(cs, n) == cs[0].0 && MinColTo(cs, n) == cs[0].1;
    }
  }

  /** The least row and column bound every cell and are attained. */
  lemma MinIs(cs: seq<Cell>)
    requires cs != []
    ensures forall i :: 0 <= i < |cs| ==> MinRow(cs) <= cs[i].0 && MinCol(cs) <= cs[i].1
    ensures exists i :: 0 <= i < |cs| && MinRow(cs) == cs[i].0
    ensures exists i :: 0 <= i < |cs| && MinCol(cs) == cs[i].1
  {
    MinToIs(cs, |cs|);
  }

  /** `normalize_coords`: shift so the least row and column are 0, then sort. */
  function Normalize(cs: seq<Cell>): (n: seq<Cell>)
    ensures |n| == |cs|
  {
    if cs == [] then [] else Sort(Shift(cs, -MinRow(cs), -MinCol(cs)), PairLe)
  }

  /** Normalised cells are sorted in Python's tuple order. */
  lemma NormalizeSorted(cs: seq<Cell>)
    ensures Sorted(Normalize(cs), PairLe)
  {
    if cs != [] {
      PairLeTotalOrder();
      SortSorted(Shift(cs, -MinRow(cs), -MinCol(cs)), PairLe);
    }
  }

  /** Normalised cells are the shifted cells, reordered. */
  lemma NormalizePerm(cs: seq<Cell>)
    requires cs != []
    ensures multiset(Normalize(cs)) == multiset(Shift(cs, -MinRow(cs), -MinCol(cs)))
  {
  }

  /** Non-empty normalised cells have least row and least column 0. */
  lemma NormalizeOrigin(cs: seq<Cell>)
    requires cs != []
    ensures MinRow(Normalize(cs)) == 0 && MinCol(Normalize(cs)) == 0
  {
    NormalizePerm(cs);
    MinShifted(cs, Shift(cs, -MinRow(cs), -MinCol(cs)), Normalize(cs), -MinRow(cs), -MinCol(cs));
  }

  /** The least row and column of a permutation of a shifted list. */
  lemma MinShifted(x: seq<Cell>, s: seq<Cell>, y: seq<Cell>, a: int, b: int)
    requires x != [] && s == Shift(x, a, b) && multiset(y) == multiset(s)
    ensures y != [] && MinRow(y) == MinRow(x) + a && MinCol(y) == MinCol(x) + b
  {
    assert |y| == |multiset(y)| == |s|;
    MinIs(x);
    MinIs(y);
    forall i | 0 <= i < |y| ensures MinRow(x) + a <= y[i].0 && MinCol(x) + b <= y[i].1 {
      assert y[i] in multiset(s);
      var t :| 0 <= t < |s| && s[t] == y[i];
    }
    var t :| 0 <= t < |x| && MinRow(x) == x[t].0;
    assert s[t] in multiset(y);
    var u :| 0 <= u < |x| && MinCol(x) == x[u].1;
    assert s[u] in multiset(y);
  }

  lemma MapAppend<A, B>(u: seq<A>, v: seq<A>, f: A -> B)
    ensures MapCells(u + v, f) == MapCells(u, f) + MapCells(v, f)
  {
  }

  /** Mapping a list is mapping it without one element, plus that element's image. */
  lemma MapRemove<A, B>(b: seq<A>, j: nat, f: A -> B)
    requires j < |b|
    ensures multiset(MapCells(b, f)) == multiset(MapCells(b[..j] + b[j + 1..], f)) + multiset{f(b[j])}
  {
    var b1, b2 := b[..j], b[j + 1..];
    assert b == b1 + [b[j]] + b2;
    MapAppend(b1 + [b[j]], b2, f);
    MapAppend(b1, [b[j]], f);
    MapAppend(b1, b2, f);
  }

  /** Dropping the same element from two permutations of each other leaves
      permutations of each other. */
  lemma PermDrop<A>(a: seq<A>, b: seq<A>, i: nat, j: nat)
    requires multiset(a) == multiset(b) && i < |a| && j < |b| && a[i] == b[j]
    ensures multiset(a[..i] + a[i + 1..]) == multiset(b[..j] + b[j + 1..])
  {
    assert a == a[..i] + [a[i]] + a[i + 1..];
    assert b == b[..j] + [b[j]] + b[j + 1..];
    assert multiset(a[..i] + a[i + 1..]) == multiset(a) - multiset{a[i]};
    assert multiset(b[..j] + b[j + 1..]) == multiset(b) - multiset{b[j]};
  }

  /** Mapping two permutations of each other gives permutations of each other. */
  lemma {:induction false} MapPerm<A, B>(a: seq<A>, b: seq<A>, f: A -> B)
    requires multiset(a) == multiset(b)
    ensures multiset(MapCells(a, f)) == multiset(MapCells(b, f))
    decreases |a|
  {
    if a != [] {
      var n := |a| - 1;
      assert a[n] in multiset(b);
      var j :| 0 <= j < |b| && b[j] == a[n];
      PermDrop(a, b, n, j);
      MapPerm(a[..n] + a[n + 1..], b[..j] + b[j + 1..], f);
      MapRemove(a, n, f);
      MapRemove(b, j, f);
    } else {
      assert |b| == |multiset(b)| == 0;
    }
  }

  /** Two lists that are permutations of shifts of each other normalise to
      the same list: normalising forgets position and order. */
  lemma NormalizeCanonical(x: seq<Cell>, y: seq<Cell>, a: int, b: int)
    requires multiset(y) == multiset(Shift(x, a, b))
    ensures Normalize(y) == Normalize(x)
  {
    if x == [] {
      assert |y| == |multiset(y)| == 0;
    } else {
      var s := Shift(x, a, b);
      MinShifted(x, s, y, a, b);
      var dr, dc := -MinRow(y), -MinCol(y);
      var ys := Shift(y, dr, dc);
      var xs := Shift(x, -MinRow(x), -MinCol(x));
      MapPerm(y, s, ShiftBy(dr, dc));
      assert Shift(s, dr, dc) == xs;
      assert multiset(ys) == multiset(xs);
      SortPerm(ys, xs);
    }
  }

  /** Sorting two permutations of each other gives the same list. */
  lemma SortPerm(p: seq<Cell>, q: seq<Cell>)
    requires multiset(p) == multiset(q)
    ensures Sort(p, PairLe) == Sort(q, PairLe)
  {
    PairLeTotalOrder();
    SortSorted(p, PairLe);
    SortSorted(q, PairLe);
    SortedUnique(Sort(p, PairLe), Sort(q, PairLe), PairLe);
  }

  /** `normalize_coords` is idempotent. */
  lemma NormalizeIdempotent(cs: seq<Cell>)
    ensures Normalize(Normalize(cs)) == Normalize(cs)
  {
    if cs != [] {
      NormalizePerm(cs);
      NormalizeCanonical(cs, Normalize(cs), -MinRow(cs), -MinCol(cs));
    }
  }
  // ----------------------------------------------------- rotations and flips

  /** `(r, c) -> (c, -r)`, a quarter turn clockwise. */
  function Turn(p: Cell): Cell
  {
    (p.1, -p.0)
  }

  /** `(r, c) -> (r, -c)`, a mirror image left to right. */
  function Mirror(p: Cell): Cell
  {
    (p.0, -p.1)
  }

  /** `rotate_90`. */
  function Rotate90(cs: seq<Cell>): seq<Cell>
  {
    Normalize(MapCells(cs, Turn))
  }

  /** `flip_horizontal`. */
  function FlipHorizontal(cs: seq<Cell>): seq<Cell>
  {
    Normalize(MapCells(cs, Mirror))
  }

  /** Normalising before a map that moves shifts to shifts changes nothing
      once the result is normalised again. */
  lemma NormalizeThen(x: seq<Cell>, f: Cell -> Cell, a: int, b: int)
    requires x != []
    requires MapCells(Shift(x, -MinRow(x), -MinCol(x)), f) == Shift(MapCells(x, f), a, b)
    ensures Normalize(MapCells(Normalize(x), f)) == Normalize(MapCells(x, f))
  {
    var s := Shift(x, -MinRow(x), -MinCol(x));
    NormalizePerm(x);
    MapPerm(Normalize(x), s, f);
    NormalizeCanonical(MapCells(x, f), MapCells(Normalize(x), f), a, b);
  }

  /** Shifting then turning is turning then shifting by the turned offset. */
  lemma ShiftTurn(x: seq<Cell>, dr: int, dc: int)
    ensures MapCells(Shift(x, dr, dc), Turn) == Shift(MapCells(x, Turn), dc, -dr)
  {
    forall k | 0 <= k < |x| ensures MapCells(Shift(x, dr, dc), Turn)[k] == Shift(MapCells(x, Turn), dc, -dr)[k] {
    }
  }

  /** Shifting then mirroring is mirroring then shifting by the mirrored offset. */
  lemma ShiftMirror(x: seq<Cell>, dr: int, dc: int)
    ensures MapCells(Shift(x, dr, dc), Mirror) == Shift(MapCells(x, Mirror), dr, -dc)
  {
    forall k | 0 <= k < |x| ensures MapCells(Shift(x, dr, dc), Mirror)[k] == Shift(MapCells(x, Mirror), dr, -dc)[k] {
    }
  }

  lemma RotateNormalized(x: seq<Cell>)
    ensures Rotate90(Normalize(x)) == Rotate90(x)
  {
    if x != [] {
      var dr, dc := -MinRow(x), -MinCol(x);
      ShiftTurn(x, dr, dc);
      NormalizeThen(x, Turn, dc, -dr);
    }
  }

  lemma FlipNormalized(x: seq<Cell>)
    ensures FlipHorizontal(Normalize(x)) == FlipHorizontal(x)
  {
    if x != [] {
      var dr, dc := -MinRow(x), -MinCol(x);
      ShiftMirror(x, dr, dc);
      NormalizeThen(x, Mirror, dr, -dc);
    }
  }

  /** Four quarter turns give the normalised cells back. */
  lemma RotateFour(cs: seq<Cell>)
    ensures Rotate90(Rotate90(Rotate90(Rotate90(cs)))) == Normalize(cs)
  {
    var t1 := MapCells(cs, Turn);
    var t2 := MapCells(t1, Turn);
    var t3 := MapCells(t2, Turn);
    assert MapCells(t3, Turn) == cs;
    RotateNormalized(t1);
    RotateNormalized(t2);
    RotateNormalized(t3);
  }

  /** Flipping twice gives the normalised cells back. */
  lemma FlipTwice(cs: seq<Cell>)
    ensures FlipHorizontal(FlipHorizontal(cs)) == Normalize(cs)
  {
    var m1 := MapCells(cs, Mirror);
    assert MapCells(m1, Mirror) == cs;
    FlipNormalized(m1);
  }

  /** For normalised cells (`normalize_coords` output), four turns and two
      flips are the identity. */
  lemma Identities(cs: seq<Cell>)
    requires Normalize(cs) == cs
    ensures Rotate90(Rotate90(Rotate90(Rotate90(cs)))) == cs
    ensures FlipHorizontal(FlipHorizontal(cs)) == cs
  {
    RotateFour(cs);
    FlipTwice(cs);
  }
  // ------------------------------------------------------------ orientations

  /** The cells and their first three quarter turns, in the order the loop
      of `get_all_orientations` meets them. */
  function Rotations(cs: seq<Cell>): (rs: seq<seq<Cell>>)
    ensures |rs| == 4 && rs[0] == cs
    ensures rs[1] == Rotate90(rs[0]) && rs[2] == Rotate90(rs[1]) && rs[3] == Rotate90(rs[2])
    ensures forall i :: 0 < i < 4 ==> rs[i] == Rotate90(rs[i - 1])
  {
    var r1 := Rotate90(cs);
    var r2 := Rotate90(r1);
    [cs, r1, r2, Rotate90(r2)]
  }

  /** The orientation set of `get_all_orientations`: four rotations of the
      normalised cells and four of their mirror image. */
  function Orientations(shape: seq<string>): set<seq<Cell>>
  {
    OrientationsOf(Normalize(ShapeCells(shape)))
  }

  /** The four rotations of `n` and the four of its mirror image. */
  function OrientationsOf(n: seq<Cell>): set<seq<Cell>>
  {
    Eight(Rotations(n), Rotations(FlipHorizontal(n)))
  }

  function Eight<T>(rs: seq<T>, fs: seq<T>): set<T>
    requires |rs| == 4 && |fs| == 4
  {
    {rs[0], rs[1], rs[2], rs[3], fs[0], fs[1], fs[2], fs[3]}
  }

  /** The rotations of normalised cells are normalised, keep the cell count,
      and a fourth turn closes the cycle. */
  lemma RotationsSpec(cs: seq<Cell>)
    requires Normalize(cs) == cs
    ensures forall i :: 0 <= i < 4 ==> |Rotations(cs)[i]| == |cs| && Normalize(Rotations(cs)[i]) == Rotations(cs)[i]
  {
    var rs := Rotations(cs);
    NormalizeIdempotent(MapCells(rs[0], Turn));
    NormalizeIdempotent(MapCells(rs[1], Turn));
    NormalizeIdempotent(MapCells(rs[2], Turn));
  }

  /** A fourth quarter turn brings normalised cells back to themselves. */
  lemma RotationsCycle(cs: seq<Cell>)
    requires Normalize(cs) == cs
    ensures Rotate90(Rotations(cs)[3]) == cs
  {
    Identities(cs);
  }

  lemma CardEight<T>(a: T, b: T, c: T, d: T, e: T, f: T, g: T, h: T)
    ensures |{a, b, c, d, e, f, g, h}| <= 8
  {
    var s := {a, b, c, d, e, f, g};
    assert |{a, b}| <= 2;
    assert |{a, b, c}| <= |{a, b}| + 1;
    assert |{a, b, c, d}| <= |{a, b, c}| + 1;
    assert |{a, b, c, d, e}| <= |{a, b, c, d}| + 1;
    assert |{a, b, c, d, e, f}| <= |{a, b, c, d, e}| + 1;
    assert |s| <= |{a, b, c, d, e, f}| + 1;
    assert {a, b, c, d, e, f, g, h} == s + {h};
  }

  /** A shape has at most eight orientations, and its normalised cells are
      one of them. */
  lemma OrientationsCount(shape: seq<string>)
    ensures |Orientations(shape)| <= 8
    ensures Normalize(ShapeCells(shape)) in Orientations(shape)
  {
    var n := Normalize(ShapeCells(shape));
    var rs, fs := Rotations(n), Rotations(FlipHorizontal(n));
    CardEight(rs[0], rs[1], rs[2], rs[3], fs[0], fs[1], fs[2], fs[3]);
  }

  /** Every orientation of a shape is normalised and has the shape's cell
      count. */
  lemma OrientationsEach(shape: seq<string>, o: seq<Cell>)
    requires o in Orientations(shape)
    ensures |o| == ShapeSize(shape) && Normalize(o) == o
  {
    NormalizeIdempotent(ShapeCells(shape));
    ShapeSizeIsCells(shape);
    OrientationsOfEach(Normalize(ShapeCells(shape)), o);
  }

  lemma OrientationsOfEach(n: seq<Cell>, o: seq<Cell>)
    requires Normalize(n) == n && o in OrientationsOf(n)
    ensures |o| == |n| && Normalize(o) == o
  {
    var f := FlipHorizontal(n);
    NormalizeIdempotent(MapCells(n, Mirror));
    RotationsSpec(n);
    RotationsSpec(f);
    EightFixed(Rotations(n), Rotations(f), |n|, Normalize);
  }

  lemma EightFixed<T>(rs: seq<seq<T>>, fs: seq<seq<T>>, size: nat, norm: seq<T> -> seq<T>)
    requires |rs| == 4 && |fs| == 4
    requires forall i :: 0 <= i < 4 ==> |rs[i]| == size && norm(rs[i]) == rs[i]
    requires forall i :: 0 <= i < 4 ==> |fs[i]| == size && norm(fs[i]) == fs[i]
    ensures forall o :: o in Eight(rs, fs) ==> |o| == size && norm(o) == o
  {
  }

  /** A quarter turn of an orientation is again an orientation. */
  lemma OrientationsRotate(shape: seq<string>, o: seq<Cell>)
    requires o in Orientations(shape)
    ensures Rotate90(o) in Orientations(shape)
  {
    NormalizeIdempotent(ShapeCells(shape));
    OrientationsOfRotate(Normalize(ShapeCells(shape)), o);
  }

  lemma OrientationsOfRotate(n: seq<Cell>, o: seq<Cell>)
    requires Normalize(n) == n && o in OrientationsOf(n)
    ensures Rotate90(o) in OrientationsOf(n)
  {
    var f := FlipHorizontal(n);
    NormalizeIdempotent(MapCells(n, Mirror));
    RotationsCycle(n);
    RotationsCycle(f);
    EightClosed(Rotations(n), Rotations(f), Rotate90);
  }

  lemma EightClosed<T>(rs: seq<T>, fs: seq<T>, step: T -> T)
    requires |rs| == 4 && |fs| == 4
    requires forall i :: 0 < i < 4 ==> rs[i] == step(rs[i - 1])
    requires forall i :: 0 < i < 4 ==> fs[i] == step(fs[i - 1])
    requires step(rs[3]) == rs[0] && step(fs[3]) == fs[0]
    ensures forall o :: o in Eight(rs, fs) ==> step(o) in Eight(rs, fs)
  {
  }

  /** `get_all_orientations`: the cell list, normalised, is turned four times,
      then its mirror image is turned four times; every list met is kept
      once. The order of the result is the set's, which nothing fixes. */
  method GetAllOrientations(shape: seq<string>) returns (os: seq<seq<Cell>>)
    ensures OrientationList(os, shape)
    ensures forall i, j :: 0 <= i < j < |os| ==> os[i] != os[j]
    ensures |os| <= 8 && Normalize(ShapeCells(shape)) in os
    ensures forall o :: o in os ==> |o| == ShapeSize(shape) && Normalize(o) == o
  {
    var coords := GetShapeCoords(shape);
    coords := Normalize(coords);
    var orientations := AddTurns(coords, Rotate90, {});
    orientations := AddTurns(FlipHorizontal(coords), Rotate90, orientations);
    assert orientations == Orientations(shape);
    os := SetToSeq(orientations);
    OrientationsCount(shape);
    forall o | o in os ensures |o| == ShapeSize(shape) && Normalize(o) == o {
      OrientationsEach(shape, o);
    }
  }

  /** The list holds exactly the shape's orientations. */
  ghost predicate OrientationList(os: seq<seq<Cell>>, shape: seq<string>)
  {
    forall o :: o in os <==> o in Orientations(shape)
  }

  /** One `for _ in range(4)` loop of `get_all_orientations`: add the
      current list, then turn it. */
  method AddTurns<T>(start: T, turn: T -> T, acc: set<T>) returns (r: set<T>)
    ensures r == acc + {start, turn(start), turn(turn(start)), turn(turn(turn(start)))}
  {
    ghost var ts := [start, turn(start), turn(turn(start)), turn(turn(turn(start)))];
    r := acc;
    var current := start;
    for k := 0 to 4
      invariant k < 4 ==> current == ts[k]
      invariant r == acc + set j | 0 <= j < k :: ts[j]
    {
      r := r + {current};
      current := turn(current);
    }
    ghost var four := set j | 0 <= j < 4 :: ts[j];
    assert forall x :: x in four <==> x == ts[0] || x == ts[1] || x == ts[2] || x == ts[3];
  }

  // ------------------------------------------------------------------- grid

  /** A grid square: `'.'`, or the index of the present covering it (the
      script writes `str(present_idx)` there). */
  datatype Mark = Empty | Present(idx: nat)

  /** A present put down: its orientation and the offset added to each cell. */
  datatype Placement = Placement(coords: seq<Cell>, r: int, c: int)

  /** The square the `q`-th cell of a placement lands on. */
  function At(p: Placement, q: nat): Cell
    requires q < |p.coords|
  {
    (p.coords[q].0 + p.r, p.coords[q].1 + p.c)
  }

  predicate InGrid(grid: array2<Mark>, i: int, j: int)
  {
    0 <= i < grid.Length0 && 0 <= j < grid.Length1
  }

  /** The condition `can_place` checks: every shifted cell is on the grid and
      holds `'.'`. */
  predicate Fits(grid: array2<Mark>, p: Placement)
    reads grid
  {
    forall q :: 0 <= q < |p.coords| ==> InGrid(grid, At(p, q).0, At(p, q).1) && grid[At(p, q).0, At(p, q).1] == Empty
  }

  /** `can_place`: stops at the first cell off the grid or already taken. */
  method CanPlace(grid: array2<Mark>, coords: seq<Cell>, rOffset: int, cOffset: int) returns (ok: bool)
    ensures ok <==> Fits(grid, Placement(coords, rOffset, cOffset))
  {
    ghost var p := Placement(coords, rOffset, cOffset);
    for q := 0 to |coords|
      invariant forall q' :: 0 <= q' < q ==> InGrid(grid, At(p, q').0, At(p, q').1) && grid[At(p, q').0, At(p, q').1] == Empty
    {
      var nr, nc := coords[q].0 + rOffset, coords[q].1 + cOffset;
      assert (nr, nc) == At(p, q);
      if nr < 0 || nr >= grid.Length0 || nc < 0 || nc >= grid.Length1 {
        return false;
      }
      if grid[nr, nc] != Empty {
        return false;
      }
    }
    return true;
  }

  /** Square `(i, j)` is one of the placement's cells. */
  predicate Covers(p: Placement, i: int, j: int)
  {
    (i - p.r, j - p.c) in p.coords
  }

  /** `place_shape`: writes the marker on every cell of the placement, and
      only there. */
  method PlaceShape(grid: array2<Mark>, coords: seq<Cell>, rOffset: int, cOffset: int, marker: Mark)
    requires forall q :: 0 <= q < |coords| ==> InGrid(grid, coords[q].0 + rOffset, coords[q].1 + cOffset)
    modifies grid
    ensures forall i, j :: InGrid(grid, i, j) ==>
      grid[i, j] == if Covers(Placement(coords, rOffset, cOffset), i, j) then marker else old(grid[i, j])
  {
    for q := 0 to |coords|
      invariant forall i, j :: InGrid(grid, i, j) ==>
        grid[i, j] == if (i - rOffset, j - cOffset) in coords[..q] then marker else old(grid[i, j])
    {
      assert coords[..q + 1] == coords[..q] + [coords[q]];
      grid[coords[q].0 + rOffset, coords[q].1 + cOffset] := marker;
    }
    assert coords[..|coords|] == coords;
  }

  /** `remove_shape`: puts `'.'` back on every cell of the placement. */
  method RemoveShape(grid: array2<Mark>, coords: seq<Cell>, rOffset: int, cOffset: int)
    requires forall q :: 0 <= q < |coords| ==> InGrid(grid, coords[q].0 + rOffset, coords[q].1 + cOffset)
    modifies grid
    ensures forall i, j :: InGrid(grid, i, j) ==>
      grid[i, j] == if Covers(Placement(coords, rOffset, cOffset), i, j) then Empty else old(grid[i, j])
  {
    PlaceShape(grid, coords, rOffset, cOffset, Empty);
  }

  /** Putting a present down where it fits and taking it up again leaves
      the grid as it was. */
  method PlaceThenRemove(grid: array2<Mark>, coords: seq<Cell>, rOffset: int, cOffset: int, marker: Mark)
    requires Fits(grid, Placement(coords, rOffset, cOffset))
    modifies grid
    ensures forall i, j :: InGrid(grid, i, j) ==> grid[i, j] == old(grid[i, j])
  {
    ghost var p := Placement(coords, rOffset, cOffset);
    assert forall q :: 0 <= q < |coords| ==> At(p, q) == (coords[q].0 + rOffset, coords[q].1 + cOffset);
    forall i, j | InGrid(grid, i, j) && Covers(p, i, j)
      ensures grid[i, j] == Empty
    {
      CoversAt(p, i, j);
    }
    PlaceShape(grid, coords, rOffset, cOffset, marker);
    RemoveShape(grid, coords, rOffset, cOffset);
  }

  /** The scan for the first `'.'` in row-major order. */
  method FirstEmpty(grid: array2<Mark>) returns (first: Option<Cell>)
    ensures first.None? <==> forall i, j :: InGrid(grid, i, j) ==> grid[i, j] != Empty
    ensures first.Some? ==> InGrid(grid, first.value.0, first.value.1) && grid[first.value.0, first.value.1] == Empty
    ensures first.Some? ==> forall i, j :: InGrid(grid, i, j) && (i < first.value.0 || (i == first.value.0 && j < first.value.1)) ==>
      grid[i, j] != Empty
  {
    var r := 0;
    while r < grid.Length0
      invariant 0 <= r <= grid.Length0
      invariant forall i, j :: InGrid(grid, i, j) && i < r ==> grid[i, j] != Empty
    {
      var c := 0;
      while c < grid.Length1
        invariant 0 <= c <= grid.Length1
        invariant forall j :: 0 <= j < c ==> grid[r, j] != Empty
      {
        if grid[r, c] == Empty {
          return Some((r, c));
        }
        c := c + 1;
      }
      r := r + 1;
    }
    return None;
  }

  /** The mark square `(i, j)` ends with when the placements are put down in
      order on a square holding `v`, the `k`-th with marker `base + k`. */
  function Painted(ps: seq<Placement>, base: nat, i: int, j: int, v: Mark): Mark
    decreases |ps|
  {
    if ps == [] then v
    else Painted(ps[1..], base + 1, i, j, if Covers(ps[0], i, j) then Present(base) else v)
  }

  /** `backtrack(present_idx)`: put down presents `idx..` one by one, each
      covering the first empty square, undoing a placement whose rest fails.
      Squares already taken are never written over; on failure the grid is
      as it was; on success the `k`-th placement is one of its present's
      orientations, lies on squares that were empty, and is marked `idx + k`. */
  method Backtrack(grid: array2<Mark>, presents: seq<int>, orientations: map<int, seq<seq<Cell>>>, idx: nat)
    returns (ok: bool, ghost placed: seq<Placement>)
    requires idx <= |presents|
    requires forall k :: idx <= k < |presents| ==> presents[k] in orientations
    modifies grid
    decreases |presents| - idx, 2
    ensures forall i, j :: InGrid(grid, i, j) && old(grid[i, j]) != Empty ==> grid[i, j] == old(grid[i, j])
    ensures !ok ==> forall i, j :: InGrid(grid, i, j) ==> grid[i, j] == old(grid[i, j])
    ensures idx == |presents| ==> ok
    ensures idx < |presents| && (forall i, j :: InGrid(grid, i, j) ==> old(grid[i, j]) != Empty) ==> !ok
    ensures ok ==> |placed| == |presents| - idx
    ensures ok ==> forall k :: 0 <= k < |placed| ==> placed[k].coords in orientations[presents[idx + k]]
    ensures ok ==> forall k, q :: 0 <= k < |placed| && 0 <= q < |placed[k].coords| ==>
      InGrid(grid, At(placed[k], q).0, At(placed[k], q).1) &&
      old(grid[At(placed[k], q).0, At(placed[k], q).1]) == Empty &&
      grid[At(placed[k], q).0, At(placed[k], q).1] == Present(idx + k)
    ensures ok ==> forall i, j :: InGrid(grid, i, j) ==> grid[i, j] == Painted(placed, idx, i, j, old(grid[i, j]))
  {
    if idx == |presents| {
      return true, [];
    }
    var orients := orientations[presents[idx]];
    var first := FirstEmpty(grid);
    if first.None? {
      return false, [];
    }
    var (er, ec) := first.value;
    for t := 0 to |orients|
      invariant forall i, j :: InGrid(grid, i, j) ==> grid[i, j] == old(grid[i, j])
    {
      var coords := orients[t];
      for q := 0 to |coords|
        invariant forall i, j :: InGrid(grid, i, j) ==> grid[i, j] == old(grid[i, j])
      {
        ok, placed := TryPlacement(grid, presents, orientations, idx, coords, er - coords[q].0, ec - coords[q].1);
        if ok {
          return;
        }
      }
    }
    return false, [];
  }

  /** The body of `backtrack`'s inner loop for one offset: if the present
      fits there, put it down and go on with the next present; if that
      fails, take it up again. */
  method TryPlacement(grid: array2<Mark>, presents: seq<int>, orientations: map<int, seq<seq<Cell>>>, idx: nat,
                      coords: seq<Cell>, rOffset: int, cOffset: int)
    returns (ok: bool, ghost placed: seq<Placement>)
    requires idx < |presents|
    requires forall k :: idx < k < |presents| ==> presents[k] in orientations
    modifies grid
    decreases |presents| - idx, 1
    ensures forall i, j :: InGrid(grid, i, j) && old(grid[i, j]) != Empty ==> grid[i, j] == old(grid[i, j])
    ensures !ok ==> forall i, j :: InGrid(grid, i, j) ==> grid[i, j] == old(grid[i, j])
    ensures ok ==> |placed| == |presents| - idx && placed[0] == Placement(coords, rOffset, cOffset)
    ensures ok ==> forall k :: 0 < k < |placed| ==> placed[k].coords in orientations[presents[idx + k]]
    ensures ok ==> forall k, q :: 0 <= k < |placed| && 0 <= q < |placed[k].coords| ==>
      InGrid(grid, At(placed[k], q).0, At(placed[k], q).1) &&
      old(grid[At(placed[k], q).0, At(placed[k], q).1]) == Empty &&
      grid[At(placed[k], q).0, At(placed[k], q).1] == Present(idx + k)
    ensures ok ==> forall i, j :: InGrid(grid, i, j) ==> grid[i, j] == Painted(placed, idx, i, j, old(grid[i, j]))
  {
    var fits := CanPlace(grid, coords, rOffset, cOffset);
    if !fits {
      return false, [];
    }
    ok, placed := PlaceAndContinue(grid, presents, orientations, idx, coords, rOffset, cOffset);
  }

  /** An attempt at a position where the orientation fits: place it, recurse
      on the next present, and remove it again when that fails. */
  method PlaceAndContinue(grid: array2<Mark>, presents: seq<int>, orientations: map<int, seq<seq<Cell>>>, idx: nat,
                          coords: seq<Cell>, rOffset: int, cOffset: int)
    returns (ok: bool, ghost placed: seq<Placement>)
    requires idx < |presents|
    requires forall k :: idx < k < |presents| ==> presents[k] in orientations
    requires Fits(grid, Placement(coords, rOffset, cOffset))
    modifies grid
    decreases |presents| - idx, 0
    ensures forall i, j :: InGrid(grid, i, j) && old(grid[i, j]) != Empty ==> grid[i, j] == old(grid[i, j])
    ensures !ok ==> forall i, j :: InGrid(grid, i, j) ==> grid[i, j] == old(grid[i, j])
    ensures ok ==> |placed| == |presents| - idx && placed[0] == Placement(coords, rOffset, cOffset)
    ensures ok ==> forall k :: 0 < k < |placed| ==> placed[k].coords in orientations[presents[idx + k]]
    ensures ok ==> forall k, q :: 0 <= k < |placed| && 0 <= q < |placed[k].coords| ==>
      InGrid(grid, At(placed[k], q).0, At(placed[k], q).1) &&
      old(grid[At(placed[k], q).0, At(placed[k], q).1]) == Empty &&
      grid[At(placed[k], q).0, At(placed[k], q).1] == Present(idx + k)
    ensures ok ==> forall i, j :: InGrid(grid, i, j) ==> grid[i, j] == Painted(placed, idx, i, j, old(grid[i, j]))
  {
    ghost var p := Placement(coords, rOffset, cOffset);
    assert forall q :: 0 <= q < |coords| ==> At(p, q) == (coords[q].0 + rOffset, coords[q].1 + cOffset);
    forall i, j | InGrid(grid, i, j) && Covers(p, i, j)
      ensures grid[i, j] == Empty
    {
      CoversAt(p, i, j);
    }
    PlaceShape(grid, coords, rOffset, cOffset, Present(idx));
    var done, rest := Backtrack(grid, presents, orientations, idx + 1);
    if done {
      placed := [p] + rest;
      assert placed[1..] == rest;
      forall q | 0 <= q < |coords|
        ensures grid[At(p, q).0, At(p, q).1] == Present(idx)
      {
        assert Covers(p, At(p, q).0, At(p, q).1);
      }
      return true, placed;
    }
    RemoveShape(grid, coords, rOffset, cOffset);
    return false, [];
  }

  lemma CoversAt(p: Placement, i: int, j: int)
    requires Covers(p, i, j)
    ensures exists q :: 0 <= q < |p.coords| && At(p, q) == (i, j)
  {
    var q :| 0 <= q < |p.coords| && p.coords[q] == (i - p.r, j - p.c);
    assert At(p, q) == (i, j);
  }

  // ----------------------------------------------------------------- region

  /** `sum(get_shape_size(shapes[i]) * counts[i] for i in range(n))`. */
  function Needed(shapes: map<int, seq<string>>, counts: seq<nat>, n: nat): nat
    requires n <= |counts| && forall i :: 0 <= i < |counts| ==> i in shapes
  {
    if n == 0 then 0 else Needed(shapes, counts, n - 1) + ShapeSize(shapes[n - 1]) * counts[n - 1]
  }

  /** The `(size, shape_id)` pairs the script appends for shapes `0..n`:
      `counts[i]` copies for shape `i`, in order. */
  function PresentPairs(shapes: map<int, seq<string>>, counts: seq<nat>, n: nat): seq<(int, int)>
    requires n <= |counts| && forall i :: 0 <= i < |counts| ==> i in shapes
  {
    if n == 0 then []
    else PresentPairs(shapes, counts, n - 1) + Copies((ShapeSize(shapes[n - 1]), n - 1), counts[n - 1])
  }

  /** `c` copies of `x`. */
  function Copies<T>(x: T, c: nat): (r: seq<T>)
    ensures |r| == c && forall k :: 0 <= k < c ==> r[k] == x
  {
    seq(c, _ => x)
  }

  function ShapeIdOf(p: (int, int)): int
  {
    p.1
  }

  /** How many presents of shape `id` the region asks for. */
  function Wanted(counts: seq<nat>, id: int): nat
  {
    if 0 <= id < |counts| then counts[id] else 0
  }

  /** Each pair records its shape's size; shape `id` occurs `counts[id]`
      times among the first `n` shapes' pairs; the sizes add up to the
      cells needed. */
  lemma {:induction false} PresentPairsSpec(shapes: map<int, seq<string>>, counts: seq<nat>, n: nat)
    requires n <= |counts| && forall i :: 0 <= i < |counts| ==> i in shapes
    ensures forall x :: x in PresentPairs(shapes, counts, n) ==> 0 <= x.1 < n && x.0 == ShapeSize(shapes[x.1])
    ensures forall id :: multiset(MapCells(PresentPairs(shapes, counts, n), ShapeIdOf))[id] == Wanted(counts[..n], id)
  {
    if n > 0 {
      PresentPairsSpec(shapes, counts, n - 1);
      var prev := PresentPairs(shapes, counts, n - 1);
      var more := Copies((ShapeSize(shapes[n - 1]), n - 1), counts[n - 1]);
      MapAppend(prev, more, ShapeIdOf);
      var ids := MapCells(more, ShapeIdOf);
      assert ids == Copies(n - 1, counts[n - 1]);
      RepeatCount(n - 1, counts[n - 1]);
      forall id ensures multiset(MapCells(prev + more, ShapeIdOf))[id] == Wanted(counts[..n], id) {
        assert Wanted(counts[..n], id) == Wanted(counts[..n - 1], id) + (if id == n - 1 then counts[n - 1] else 0);
      }
    }
  }

  lemma {:induction false} RepeatCount<T>(x: T, c: nat)
    ensures forall y :: multiset(Copies(x, c))[y] == if y == x then c else 0
  {
    if c > 0 {
      RepeatCount(x, c - 1);
      assert Copies(x, c) == Copies(x, c - 1) + [x];
    }
  }

  /** The sum of the sizes recorded in the pairs. */
  function SizeSum(ps: seq<(int, int)>): int
  {
    if ps == [] then 0 else SizeSum(ps[..|ps| - 1]) + ps[|ps| - 1].0
  }

  lemma {:induction false} SizeSumAppend(a: seq<(int, int)>, b: seq<(int, int)>)
    ensures SizeSum(a + b) == SizeSum(a) + SizeSum(b)
    decreases |b|
  {
    if b != [] {
      assert (a + b)[..|a + b| - 1] == a + b[..|b| - 1];
      assert (a + b)[|a + b| - 1] == b[|b| - 1];
      SizeSumAppend(a, b[..|b| - 1]);
    } else {
      assert a + b == a;
    }
  }

  lemma {:induction false} SizeSumCopies(x: (int, int), c: nat)
    ensures SizeSum(Copies(x, c)) == x.0 * c
  {
    if c > 0 {
      assert Copies(x, c)[..c - 1] == Copies(x, c - 1);
      SizeSumCopies(x, c - 1);
    }
  }

  /** The presents' sizes add up to `total_cells_needed`. */
  lemma {:induction false} NeededIsSizes(shapes: map<int, seq<string>>, counts: seq<nat>, n: nat)
    requires n <= |counts| && forall i :: 0 <= i < |counts| ==> i in shapes
    ensures SizeSum(PresentPairs(shapes, counts, n)) == Needed(shapes, counts, n)
  {
    if n > 0 {
      NeededIsSizes(shapes, counts, n - 1);
      var x: (int, int) := (ShapeSize(shapes[n - 1]), n - 1);
      SizeSumAppend(PresentPairs(shapes, counts, n - 1), Copies(x, counts[n - 1]));
      SizeSumCopies(x, counts[n - 1]);
      var prev := PresentPairs(shapes, counts, n - 1);
      assert PresentPairs(shapes, counts, n) == prev + Copies(x, counts[n - 1]);
    } else {
      assert PresentPairs(shapes, counts, n) == [];
    }
  }

  /** Python's ordering of pairs, reversed: `sort(reverse=True)`. */
  predicate PairGe(a: (int, int), b: (int, int))
  {
    PairLe(b, a)
  }

  lemma PairGeTotalOrder()
    ensures TotalPreorder(PairGe) && Antisymmetric(PairGe)
  {
  }

  /** The `presents` list of `solve_region`: `counts[i]` copies of each
      shape `i`, ordered by `(size, shape_id)`, largest first. */
  method BuildPresents(shapes: map<int, seq<string>>, counts: seq<nat>) returns (presents: seq<int>)
    requires forall i :: 0 <= i < |counts| ==> i in shapes
    ensures forall id :: multiset(presents)[id] == Wanted(counts, id)
    ensures forall k :: 0 <= k < |presents| ==> 0 <= presents[k] < |counts|
    ensures forall a, b :: 0 <= a < b < |presents| ==>
      PairGe((ShapeSize(shapes[presents[a]]), presents[a]), (ShapeSize(shapes[presents[b]]), presents[b]))
  {
    var pairs: seq<(int, int)> := [];
    for shapeId := 0 to |counts|
      invariant pairs == PresentPairs(shapes, counts, shapeId)
    {
      var x: (int, int) := (ShapeSize(shapes[shapeId]), shapeId);
      for c := 0 to counts[shapeId]
        invariant pairs == PresentPairs(shapes, counts, shapeId) + Copies(x, c)
      {
        assert Copies(x, c + 1) == Copies(x, c) + [x];
        pairs := pairs + [x];
      }
    }
    PairGeTotalOrder();
    var sorted := Sort(pairs, PairGe);
    SortSorted(pairs, PairGe);
    presents := MapCells(sorted, ShapeIdOf);
    PresentPairsSpec(shapes, counts, |counts|);
    assert counts[..|counts|] == counts;
    MapPerm(sorted, pairs, ShapeIdOf);
    forall k | 0 <= k < |sorted| ensures sorted[k] in pairs {
      assert sorted[k] in multiset(sorted);
    }
  }

  /** `all_orientations`: every shape's orientation list. */
  /** Recording one more shape's orientations keeps every recorded list right. */
  lemma OrientationsUpdate(all: map<int, seq<seq<Cell>>>, shapes: map<int, seq<string>>, id: int, os: seq<seq<Cell>>)
    requires forall i :: i in all ==> i in shapes && OrientationList(all[i], shapes[i])
    requires id in shapes && OrientationList(os, shapes[id])
    ensures forall i :: i in all[id := os] ==> i in shapes && OrientationList(all[id := os][i], shapes[i])
  {
  }

  method BuildOrientations(shapes: map<int, seq<string>>) returns (all: map<int, seq<seq<Cell>>>)
    ensures all.Keys == shapes.Keys
    ensures forall id :: id in all ==> OrientationList(all[id], shapes[id])
  {
    var ids := SetToSeq(shapes.Keys);
    all := map[];
    for k := 0 to |ids|
      invariant forall id :: id in all <==> id in ids[..k]
      invariant forall id :: id in all ==> id in shapes && OrientationList(all[id], shapes[id])
    {
      assert ids[..k + 1] == ids[..k] + [ids[k]];
      var os := GetAllOrientations(shapes[ids[k]]);
      OrientationsUpdate(all, shapes, ids[k], os);
      all := all[ids[k] := os];
    }
    assert ids[..|ids|] == ids;
    SameKeys(all, shapes, ids);
  }

  /** Two maps whose keys are both the elements of a list have the same keys. */
  lemma SameKeys<U, V>(a: map<int, U>, b: map<int, V>, ids: seq<int>)
    requires forall id :: id in a <==> id in ids
    requires forall id :: id in ids <==> id in b
    ensures a.Keys == b.Keys
  {
    forall id ensures id in a.Keys <==> id in b.Keys {
      assert id in a <==> id in ids;
    }
  }

  /** Every cell of every placement lies inside a `width` x `height` region. */
  ghost predicate Inside(width: nat, height: nat, placed: seq<Placement>)
  {
    forall k, q :: 0 <= k < |placed| && 0 <= q < |placed[k].coords| ==>
      0 <= At(placed[k], q).0 < height && 0 <= At(placed[k], q).1 < width
  }

  /** No square is covered by two different placements. */
  ghost predicate Disjoint(placed: seq<Placement>)
  {
    forall k, q, k', q' ::
      0 <= k < |placed| && 0 <= q < |placed[k].coords| && 0 <= k' < |placed| && 0 <= q' < |placed[k'].coords| && k != k' ==>
      At(placed[k], q) != At(placed[k'], q')
  }

  /** A packing of the presents into a `width` x `height` region: one
      placement per present, each an orientation of its shape, every cell
      inside the region, and no square shared by two presents. */
  ghost predicate Packing(width: nat, height: nat, shapes: map<int, seq<string>>, presents: seq<int>, placed: seq<Placement>)
  {
    && |placed| == |presents|
    && (forall k :: 0 <= k < |placed| ==> presents[k] in shapes && placed[k].coords in Orientations(shapes[presents[k]]))
    && Inside(width, height, placed)
    && Disjoint(placed)
  }

  /** `solve_region`: too few squares for the presents' cells means no; else
      a yes comes with the presents (`counts[i]` of shape `i`) packed into
      the region. */
  method SolveRegion(width: nat, height: nat, shapes: map<int, seq<string>>, counts: seq<nat>)
    returns (ok: bool, ghost presents: seq<int>, ghost placed: seq<Placement>)
    requires forall i :: 0 <= i < |counts| ==> i in shapes
    ensures Needed(shapes, counts, |counts|) > width * height ==> !ok
    ensures ok ==> forall id :: multiset(presents)[id] == Wanted(counts, id)
    ensures ok ==> Packing(width, height, shapes, presents, placed)
  {
    if Needed(shapes, counts, |counts|) > width * height {
      return false, [], [];
    }
    var ps := BuildPresents(shapes, counts);
    var all := BuildOrientations(shapes);
    ok, placed := PackPresents(width, height, ps, all);
    presents := ps;
    if ok {
      OrientationsChosen(shapes, all, ps, placed);
    }
  }

  /** The rest of `solve_region`: an empty grid, then `backtrack(0)`. */
  method PackPresents(width: nat, height: nat, presents: seq<int>, all: map<int, seq<seq<Cell>>>)
    returns (ok: bool, ghost placed: seq<Placement>)
    requires forall k :: 0 <= k < |presents| ==> presents[k] in all
    ensures ok ==> |placed| == |presents| && forall k :: 0 <= k < |placed| ==> placed[k].coords in all[presents[k]]
    ensures ok ==> Inside(width, height, placed) && Disjoint(placed)
    ensures presents == [] ==> ok
    ensures presents != [] && width * height == 0 ==> !ok
  {
    var grid := new Mark[height, width]((i, j) => Empty);
    ok, placed := Backtrack(grid, presents, all, 0);
    if ok {
      forall k, q, k', q' |
        0 <= k < |placed| && 0 <= q < |placed[k].coords| && 0 <= k' < |placed| && 0 <= q' < |placed[k'].coords| && k != k'
        ensures At(placed[k], q) != At(placed[k'], q')
      {
        assert grid[At(placed[k], q).0, At(placed[k], q).1] == Present(k);
        assert grid[At(placed[k'], q').0, At(placed[k'], q').1] == Present(k');
      }
    }
  }

  lemma OrientationsChosen(shapes: map<int, seq<string>>, all: map<int, seq<seq<Cell>>>, presents: seq<int>, placed: seq<Placement>)
    requires all.Keys == shapes.Keys && |placed| == |presents|
    requires forall id :: id in all ==> OrientationList(all[id], shapes[id])
    requires forall k :: 0 <= k < |placed| ==> presents[k] in all && placed[k].coords in all[presents[k]]
    ensures forall k :: 0 <= k < |placed| ==> presents[k] in shapes && placed[k].coords in Orientations(shapes[presents[k]])
  {
    forall k | 0 <= k < |placed|
      ensures presents[k] in shapes && placed[k].coords in Orientations(shapes[presents[k]])
    {
      var id := presents[k];
      assert id in all;
      ListedOrientation(all[id], shapes[id], placed[k].coords);
    }
  }

  lemma ListedOrientation(os: seq<seq<Cell>>, shape: seq<string>, o: seq<Cell>)
    requires OrientationList(os, shape) && o in os
    ensures o in Orientations(shape)
  {
  }
}
