/** Day 10, part 1. A machine's indicator lights start off and must show a
    target pattern; every button toggles a fixed set of lights. Pressing a
    button twice undoes it, so a plan is a 0/1 vector `x` over the buttons and
    the lights it produces are the matrix product `A·x` over GF(2). The
    answer for a machine is the least number of presses of a plan that
    produces the target, or none when no plan does. */
module Day10 {
  import opened Common
  import opened Text

  /** The 0/1 ints the matrix and the target hold. */
  type Bit = b: int | 0 <= b <= 1

  /** `a ^ b` on 0/1 ints: addition modulo 2. */
  function Xor(a: Bit, b: Bit): (r: Bit)
    ensures r == (a + b) % 2
  {
    if a == b then 0 else 1
  }

  /** `a * b` on 0/1 ints. */
  function Mul(a: Bit, b: Bit): (r: Bit)
    ensures r == a * b
  {
    if a == 1 then b else 0
  }

  /** The sum of `r[j] * x[j]` over `lo <= j < hi`, modulo 2. */
  function DotRange(r: seq<Bit>, x: seq<Bit>, lo: nat, hi: nat): Bit
    requires hi <= |r| && hi <= |x|
    decreases hi
  {
    if hi <= lo then 0 else Xor(DotRange(r, x, lo, hi - 1), Mul(r[hi - 1], x[hi - 1]))
  }

  /** `sum(x)`: the number of presses a plan makes. */
  function Weight(x: seq<Bit>): nat
  {
    if x == [] then 0 else Weight(x[..|x| - 1]) + x[|x| - 1]
  }

  function Zeros(n: nat): (z: seq<Bit>)
    ensures |z| == n && forall j :: 0 <= j < n ==> z[j] == 0
  {
    seq(n, _ => 0)
  }

  lemma {:induction false} ZerosWeight(n: nat)
    ensures Weight(Zeros(n)) == 0
  {
    if n > 0 {
      assert Zeros(n)[..n - 1] == Zeros(n - 1);
      ZerosWeight(n - 1);
    }
  }

  // ------------------------------------------------------------ dot products

  lemma {:induction false} DotSplit(r: seq<Bit>, x: seq<Bit>, lo: nat, mid: nat, hi: nat)
    requires lo <= mid <= hi <= |r| && hi <= |x|
    ensures DotRange(r, x, lo, hi) == Xor(DotRange(r, x, lo, mid), DotRange(r, x, mid, hi))
    decreases hi
  {
    if hi > mid {
      DotSplit(r, x, lo, mid, hi - 1);
    }
  }

  /** A row that is zero on `[lo, hi)` contributes nothing there. */
  lemma {:induction false} DotZero(r: seq<Bit>, x: seq<Bit>, lo: nat, hi: nat)
    requires hi <= |r| && hi <= |x|
    requires forall j :: lo <= j < hi ==> r[j] == 0
    ensures DotRange(r, x, lo, hi) == 0
    decreases hi
  {
    if hi > lo {
      DotZero(r, x, lo, hi - 1);
    }
  }

  /** Changing `x` at a column outside `[lo, hi)`, or at one where the row is
      zero, does not change the sum. */
  lemma {:induction false} DotUpdate(r: seq<Bit>, x: seq<Bit>, c: nat, v: Bit, lo: nat, hi: nat)
    requires hi <= |r| && hi <= |x| && c < |x|
    requires c < lo || hi <= c || r[c] == 0
    ensures DotRange(r, x[c := v], lo, hi) == DotRange(r, x, lo, hi)
    decreases hi
  {
    if hi > lo {
      DotUpdate(r, x, c, v, lo, hi - 1);
    }
  }

  /** Plans that agree on `[lo, hi)` give the same sum there. */
  lemma {:induction false} DotAgree(r: seq<Bit>, x: seq<Bit>, y: seq<Bit>, lo: nat, hi: nat)
    requires hi <= |r| && hi <= |x| && hi <= |y|
    requires forall j :: lo <= j < hi ==> x[j] == y[j]
    ensures DotRange(r, x, lo, hi) == DotRange(r, y, lo, hi)
    decreases hi
  {
    if hi > lo {
      DotAgree(r, x, y, lo, hi - 1);
    }
  }

  /** Rows that agree on `[lo, hi)` give the same sum there. */
  lemma {:induction false} DotRowsAgree(r: seq<Bit>, s: seq<Bit>, x: seq<Bit>, lo: nat, hi: nat)
    requires hi <= |r| && hi <= |s| && hi <= |x|
    requires forall j :: lo <= j < hi ==> r[j] == s[j]
    ensures DotRange(r, x, lo, hi) == DotRange(s, x, lo, hi)
    decreases hi
  {
    if hi > lo {
      DotRowsAgree(r, s, x, lo, hi - 1);
    }
  }

  /** The row `r ^ p`, entry by entry. */
  function XorRow(r: seq<Bit>, p: seq<Bit>): (q: seq<Bit>)
    requires |r| == |p|
    ensures |q| == |r| && forall j :: 0 <= j < |r| ==> q[j] == Xor(r[j], p[j])
  {
    seq(|r|, j requires 0 <= j < |r| => Xor(r[j], p[j]))
  }

  /** The sum is linear in the row. */
  lemma {:induction false} DotXor(r: seq<Bit>, p: seq<Bit>, x: seq<Bit>, lo: nat, hi: nat)
    requires |r| == |p| && hi <= |r| && hi <= |x|
    ensures DotRange(XorRow(r, p), x, lo, hi) == Xor(DotRange(r, x, lo, hi), DotRange(p, x, lo, hi))
    decreases hi
  {
    if hi > lo {
      DotXor(r, p, x, lo, hi - 1);
    }
  }

  /** A pivot row, with a 1 at `col` and zeros to its left, fixes `x[col]`
      from the entries to its right. */
  lemma PivotEquation(r: seq<Bit>, x: seq<Bit>, col: nat, nb: nat)
    requires col < nb <= |r| && nb <= |x|
    requires r[col] == 1 && forall j :: 0 <= j < col ==> r[j] == 0
    ensures DotRange(r, x, 0, nb) == Xor(x[col], DotRange(r, x, col + 1, nb))
  {
    DotSplit(r, x, 0, col, nb);
    DotSplit(r, x, col, col + 1, nb);
    DotZero(r, x, 0, col);
  }

  // ------------------------------------------------------------ equations

  /** The augmented row `row` (coefficients, then the right-hand side) holds for `x`. */
  predicate Holds(row: seq<Bit>, x: seq<Bit>)
    requires |row| == |x| + 1
  {
    DotRange(row, x, 0, |x|) == row[|x|]
  }

  predicate Widths(rows: seq<seq<Bit>>, w: nat)
  {
    forall i :: 0 <= i < |rows| ==> |rows[i]| == w
  }

  /** Every augmented row holds for `x`. */
  ghost predicate SatAll(aug: seq<seq<Bit>>, x: seq<Bit>)
  {
    forall i :: 0 <= i < |aug| ==> |aug[i]| == |x| + 1 && Holds(aug[i], x)
  }

  /** `len(matrix[0]) if matrix else 0`. */
  function Cols(matrix: seq<seq<Bit>>): nat
  {
    if matrix == [] then 0 else |matrix[0]|
  }

  /** `A·x == target` over GF(2), with one entry of `x` per column of `A`. */
  ghost predicate Solves(matrix: seq<seq<Bit>>, target: seq<Bit>, x: seq<Bit>)
  {
    && |matrix| == |target| && |x| == Cols(matrix)
    && forall i :: 0 <= i < |matrix| ==> |matrix[i]| == |x| && DotRange(matrix[i], x, 0, |x|) == target[i]
  }

  /** Exchanging two rows keeps the set of solutions. */
  lemma SwapSat(aug: seq<seq<Bit>>, a: nat, b: nat, x: seq<Bit>)
    requires a < |aug| && b < |aug|
    ensures SatAll(aug[a := aug[b]][b := aug[a]], x) <==> SatAll(aug, x)
  {
    var sw := aug[a := aug[b]][b := aug[a]];
    if SatAll(sw, x) {
      forall i | 0 <= i < |aug| ensures |aug[i]| == |x| + 1 && Holds(aug[i], x) {
        if i == a {
          assert aug[i] == sw[b];
        } else if i == b {
          assert aug[i] == sw[a];
        } else {
          assert aug[i] == sw[i];
        }
      }
    }
    if SatAll(aug, x) {
      forall i | 0 <= i < |sw| ensures |sw[i]| == |x| + 1 && Holds(sw[i], x) {
        if i == b {
          assert sw[i] == aug[a];
        } else if i == a {
          assert sw[i] == aug[b];
        } else {
          assert sw[i] == aug[i];
        }
      }
    }
  }

  /** Adding another row into a row keeps the set of solutions. */
  lemma XorSat(aug: seq<seq<Bit>>, row: nat, p: nat, x: seq<Bit>)
    requires row < |aug| && p < |aug| && row != p
    requires |aug[row]| == |x| + 1 && |aug[p]| == |x| + 1
    ensures SatAll(aug[row := XorRow(aug[row], aug[p])], x) <==> SatAll(aug, x)
  {
    var n := |x|;
    var q := XorRow(aug[row], aug[p]);
    var next := aug[row := q];
    DotXor(aug[row], aug[p], x, 0, n);
    if SatAll(next, x) {
      assert Holds(next[p], x);
      forall i | 0 <= i < |aug| ensures |aug[i]| == n + 1 && Holds(aug[i], x) {
        if i != row {
          assert aug[i] == next[i];
        } else {
          assert Holds(next[row], x);
        }
      }
    }
    if SatAll(aug, x) {
      assert Holds(aug[row], x) && Holds(aug[p], x);
      forall i | 0 <= i < |next| ensures |next[i]| == n + 1 && Holds(next[i], x) {
        if i != row {
          assert next[i] == aug[i];
        }
      }
    }
  }

  /** Appending the target as a last column turns `A·x == target` into `SatAll`. */
  lemma AugmentedSolves(matrix: seq<seq<Bit>>, target: seq<Bit>, aug: seq<seq<Bit>>, x: seq<Bit>)
    requires |matrix| == |target| && Widths(matrix, Cols(matrix)) && |x| == Cols(matrix)
    requires |aug| == |matrix| && forall i :: 0 <= i < |aug| ==> aug[i] == matrix[i] + [target[i]]
    ensures SatAll(aug, x) <==> Solves(matrix, target, x)
  {
    forall i | 0 <= i < |aug| ensures DotRange(aug[i], x, 0, |x|) == DotRange(matrix[i], x, 0, |x|) {
      DotRowsAgree(aug[i], matrix[i], x, 0, |x|);
    }
  }

  // ------------------------------------------------------------ elimination

  /** Reduced form reached after processing the columns before `col`:
      `pc` lists the pivot columns in increasing order, row `i < cur` has its
      leading 1 at `pc[i]`, and rows from `cur` on are zero before `col`. */
  ghost predicate Echelon(aug: seq<seq<Bit>>, nb: nat, cur: nat, pc: seq<nat>, col: nat)
  {
    && Widths(aug, nb + 1) && col <= nb
    && |pc| == cur <= |aug|
    && (forall i, j :: 0 <= i < j < |pc| ==> pc[i] < pc[j])
    && (forall i :: 0 <= i < |pc| ==> pc[i] < col)
    && (forall r, j :: cur <= r < |aug| && 0 <= j < col ==> aug[r][j] == 0)
    && (forall i :: 0 <= i < |pc| ==> aug[i][pc[i]] == 1)
    && (forall i, j :: 0 <= i < |pc| && 0 <= j < pc[i] ==> aug[i][j] == 0)
  }

  /** The pivot search: the first row at or after `cur` with a 1 in column `col`. */
  method FindPivot(aug: seq<seq<Bit>>, nb: nat, cur: nat, col: nat) returns (p: Option<nat>)
    requires Widths(aug, nb + 1) && col < nb && cur <= |aug|
    ensures p.Some? ==> cur <= p.value < |aug| && aug[p.value][col] == 1
    ensures p.Some? ==> forall r :: cur <= r < p.value ==> aug[r][col] == 0
    ensures p.None? ==> forall r :: cur <= r < |aug| ==> aug[r][col] == 0
  {
    for row := cur to |aug|
      invariant forall r :: cur <= r < row ==> aug[r][col] == 0
    {
      if aug[row][col] == 1 {
        return Some(row);
      }
    }
    return None;
  }

  /** `aug[row][c] ^= aug[p][c]` for every column `c`. */
  method XorInto(aug: seq<seq<Bit>>, nb: nat, row: nat, p: nat) returns (next: seq<seq<Bit>>)
    requires Widths(aug, nb + 1) && row < |aug| && p < |aug| && row != p
    ensures next == aug[row := XorRow(aug[row], aug[p])]
  {
    next := aug;
    for c := 0 to nb + 1
      invariant |next| == |aug| && |next[row]| == nb + 1
      invariant forall i :: 0 <= i < |aug| && i != row ==> next[i] == aug[i]
      invariant forall j :: 0 <= j < c ==> next[row][j] == Xor(aug[row][j], aug[p][j])
      invariant forall j :: c <= j < nb + 1 ==> next[row][j] == aug[row][j]
    {
      var bit: Bit := Xor(next[row][c], next[p][c]);
      var updated: seq<Bit> := next[row][c := bit];
      next := next[row := updated];
    }
    assert next[row] == XorRow(aug[row], aug[p]);
  }

  /** Clears column `col` from every row but the pivot row `p`. The pivot row
      is zero before `col`, so no earlier column changes. */
  method EliminateColumn(aug: seq<seq<Bit>>, nb: nat, p: nat, col: nat) returns (next: seq<seq<Bit>>)
    requires Widths(aug, nb + 1) && p < |aug| && col < nb
    requires aug[p][col] == 1 && forall j :: 0 <= j < col ==> aug[p][j] == 0
    ensures |next| == |aug| && Widths(next, nb + 1) && next[p] == aug[p]
    ensures forall r :: 0 <= r < |aug| && r != p ==> next[r][col] == 0
    ensures forall r, j :: 0 <= r < |aug| && 0 <= j < col ==> next[r][j] == aug[r][j]
    ensures forall x :: |x| == nb ==> (SatAll(next, x) <==> SatAll(aug, x))
  {
    next := aug;
    for row := 0 to |aug|
      invariant |next| == |aug| && Widths(next, nb + 1) && next[p] == aug[p]
      invariant forall r :: 0 <= r < row && r != p ==> next[r][col] == 0
      invariant forall r :: row <= r < |aug| ==> next[r] == aug[r]
      invariant forall r, j :: 0 <= r < |aug| && 0 <= j < col ==> next[r][j] == aug[r][j]
      invariant forall x :: |x| == nb ==> (SatAll(next, x) <==> SatAll(aug, x))
    {
      if row != p && next[row][col] == 1 {
        ghost var before := next;
        next := XorInto(next, nb, row, p);
        forall x | |x| == nb ensures SatAll(next, x) <==> SatAll(before, x) {
          XorSat(before, row, p, x);
        }
      }
    }
  }

  /** The pivot row `p` is moved to `cur` and its column cleared elsewhere:
      the reduced form now covers column `col` too. */
  lemma EchelonStep(aug: seq<seq<Bit>>, swapped: seq<seq<Bit>>, next: seq<seq<Bit>>, nb: nat, cur: nat, pc: seq<nat>, col: nat, p: nat)
    requires Echelon(aug, nb, cur, pc, col) && col < nb
    requires cur <= p < |aug| && aug[p][col] == 1
    requires swapped == aug[cur := aug[p]][p := aug[cur]]
    requires |next| == |swapped| && Widths(next, nb + 1) && next[cur] == swapped[cur]
    requires forall r :: 0 <= r < |swapped| && r != cur ==> next[r][col] == 0
    requires forall r, j :: 0 <= r < |swapped| && 0 <= j < col ==> next[r][j] == swapped[r][j]
    ensures Echelon(next, nb, cur + 1, pc + [col], col + 1)
  {
    var pc' := pc + [col];
    forall r, j | cur <= r < |aug| && 0 <= j < col ensures swapped[r][j] == 0 {
      if r == cur {
        assert swapped[r] == aug[p];
      } else if r == p {
        assert swapped[r] == aug[cur];
      } else {
        assert swapped[r] == aug[r];
      }
    }
    forall i | 0 <= i < cur ensures swapped[i] == aug[i] {
    }
    forall i | 0 <= i < |pc'| ensures next[i][pc'[i]] == 1 {
      if i < cur {
        assert pc'[i] == pc[i] < col;
      }
    }
  }

  /** Gaussian elimination over GF(2) on the augmented rows: for each column in
      turn, the first row at or after `cur` with a 1 there is swapped up to
      `cur` and cleared from every other row. */
  method Eliminate(aug0: seq<seq<Bit>>, nb: nat) returns (aug: seq<seq<Bit>>, cur: nat, pc: seq<nat>)
    requires Widths(aug0, nb + 1)
    ensures |aug| == |aug0| && Echelon(aug, nb, cur, pc, nb)
    ensures forall x :: |x| == nb ==> (SatAll(aug, x) <==> SatAll(aug0, x))
  {
    aug, cur, pc := aug0, 0, [];
    for col := 0 to nb
      invariant |aug| == |aug0| && Echelon(aug, nb, cur, pc, col)
      invariant forall x :: |x| == nb ==> (SatAll(aug, x) <==> SatAll(aug0, x))
    {
      var pivotRow := FindPivot(aug, nb, cur, col);
      if pivotRow.None? {
        continue;
      }
      var p := pivotRow.value;
      ghost var before := aug;
      aug := aug[cur := aug[p]][p := aug[cur]];
      forall x | |x| == nb ensures SatAll(aug, x) <==> SatAll(before, x) {
        SwapSat(before, cur, p, x);
      }
      ghost var swapped := aug;
      aug := EliminateColumn(aug, nb, cur, col);
      EchelonStep(before, swapped, aug, nb, cur, pc, col, p);
      pc := pc + [col];
      cur := cur + 1;
    }
  }

  // ------------------------------------------------------------ free variables and masks

  /** `[i for i in range(nb) if i not in pivot_col]`. */
  function FreeVars(nb: nat, pc: seq<nat>): (free: seq<nat>)
    ensures forall k :: 0 <= k < |free| ==> free[k] < nb && free[k] !in pc
    ensures forall j :: 0 <= j < nb && j !in pc ==> j in free
    ensures forall a, b :: 0 <= a < b < |free| ==> free[a] < free[b]
  {
    if nb == 0 then []
    else FreeVars(nb - 1, pc) + (if nb - 1 in pc then [] else [nb - 1])
  }

  function Pow2(k: nat): (p: nat)
    ensures p >= 1
  {
    if k == 0 then 1 else 2 * Pow2(k - 1)
  }

  /** `(mask >> k) & 1`. */
  function MaskBit(mask: nat, k: nat): Bit
  {
    if k == 0 then mask % 2 else MaskBit(mask / 2, k - 1)
  }

  /** The mask whose bit `k` is `y[k]`. */
  function MaskOf(y: seq<Bit>): nat
  {
    if y == [] then 0 else y[0] + 2 * MaskOf(y[1..])
  }

  /** Every 0/1 vector of length `k` is the bit pattern of a mask below `2^k`. */
  lemma {:induction false} MaskOfBits(y: seq<Bit>)
    ensures MaskOf(y) < Pow2(|y|)
    ensures forall k :: 0 <= k < |y| ==> MaskBit(MaskOf(y), k) == y[k]
  {
    if y != [] {
      MaskOfBits(y[1..]);
      var m := MaskOf(y);
      assert m / 2 == MaskOf(y[1..]);
      forall k | 0 < k < |y| ensures MaskBit(m, k) == y[k] {
        assert y[1..][k - 1] == y[k];
      }
    }
  }

  /** The values a plan gives the free variables, in order. */
  function FreeBits(x: seq<Bit>, free: seq<nat>): (y: seq<Bit>)
    requires forall k :: 0 <= k < |free| ==> free[k] < |x|
    ensures |y| == |free| && forall k :: 0 <= k < |free| ==> y[k] == x[free[k]]
  {
    seq(|free|, k requires 0 <= k < |free| => x[free[k]])
  }

  // ------------------------------------------------------------ back substitution

  /** In reduced form, plans that satisfy the pivot rows and agree on the
      free variables agree on the pivot columns from `i` on. */
  lemma {:induction false} PivotsAgree(aug: seq<seq<Bit>>, nb: nat, cur: nat, pc: seq<nat>, x: seq<Bit>, y: seq<Bit>, i: nat)
    requires Echelon(aug, nb, cur, pc, nb) && |x| == nb && |y| == nb && i <= |pc|
    requires forall j :: 0 <= j < nb && j !in pc ==> x[j] == y[j]
    requires forall k :: 0 <= k < |pc| ==> Holds(aug[k], x) && Holds(aug[k], y)
    ensures forall k :: i <= k < |pc| ==> x[pc[k]] == y[pc[k]]
    decreases |pc| - i
  {
    if i < |pc| {
      PivotsAgree(aug, nb, cur, pc, x, y, i + 1);
      var col := pc[i];
      forall j | col + 1 <= j < nb ensures x[j] == y[j] {
        if j in pc {
          var k :| 0 <= k < |pc| && pc[k] == j;
        }
      }
      DotAgree(aug[i], x, y, col + 1, nb);
      PivotEquation(aug[i], x, col, nb);
      PivotEquation(aug[i], y, col, nb);
    }
  }

  /** The solution that satisfies the pivot rows is unique once the free
      variables are fixed. */
  lemma Determined(aug: seq<seq<Bit>>, nb: nat, cur: nat, pc: seq<nat>, x: seq<Bit>, y: seq<Bit>)
    requires Echelon(aug, nb, cur, pc, nb) && |x| == nb && |y| == nb
    requires forall j :: 0 <= j < nb && j !in pc ==> x[j] == y[j]
    requires forall k :: 0 <= k < |pc| ==> Holds(aug[k], x) && Holds(aug[k], y)
    ensures x == y
  {
    PivotsAgree(aug, nb, cur, pc, x, y, 0);
    forall j | 0 <= j < nb ensures x[j] == y[j] {
      if j in pc {
        var k :| 0 <= k < |pc| && pc[k] == j;
      }
    }
  }

  /** `solution[var] = (mask >> i) & 1` for the `i`-th free variable `var`,
      all other entries 0. */
  method SetFree(nb: nat, free: seq<nat>, mask: nat) returns (solution: seq<Bit>)
    requires forall k :: 0 <= k < |free| ==> free[k] < nb
    requires forall a, b :: 0 <= a < b < |free| ==> free[a] < free[b]
    ensures |solution| == nb
    ensures forall k :: 0 <= k < |free| ==> solution[free[k]] == MaskBit(mask, k)
  {
    solution := Zeros(nb);
    for k := 0 to |free|
      invariant |solution| == nb
      invariant forall m :: 0 <= m < k ==> solution[free[m]] == MaskBit(mask, m)
    {
      solution := solution[free[k] := MaskBit(mask, k)];
    }
  }

  /** One candidate solution per mask: the free variables take the mask's
      bits, then each pivot variable, last pivot first, is set from its row. */
  method BackSubstitute(aug: seq<seq<Bit>>, nb: nat, cur: nat, pc: seq<nat>, free: seq<nat>, mask: nat)
    returns (solution: seq<Bit>)
    requires Echelon(aug, nb, cur, pc, nb) && free == FreeVars(nb, pc)
    ensures |solution| == nb
    ensures forall k :: 0 <= k < |free| ==> solution[free[k]] == MaskBit(mask, k)
    ensures forall k :: 0 <= k < |pc| ==> Holds(aug[k], solution)
  {
    solution := SetFree(nb, free, mask);
    var i := |pc|;
    while i > 0
      invariant 0 <= i <= |pc| && |solution| == nb
      invariant forall m :: 0 <= m < |free| ==> solution[free[m]] == MaskBit(mask, m)
      invariant forall k :: i <= k < |pc| ==> Holds(aug[k], solution)
    {
      i := i - 1;
      var col := pc[i];
      var val := aug[i][nb];
      for j := col + 1 to nb
        invariant val == Xor(aug[i][nb], DotRange(aug[i], solution, col + 1, j))
      {
        val := Xor(val, Mul(aug[i][j], solution[j]));
      }
      ghost var before := solution;
      solution := solution[col := val];
      SetPivot(aug, nb, cur, pc, free, mask, before, i, val);
    }
  }

  lemma SetPivot(aug: seq<seq<Bit>>, nb: nat, cur: nat, pc: seq<nat>, free: seq<nat>, mask: nat,
                 s: seq<Bit>, i: nat, val: Bit)
    requires Echelon(aug, nb, cur, pc, nb) && free == FreeVars(nb, pc)
    requires i < |pc| && |s| == nb
    requires forall m :: 0 <= m < |free| ==> s[free[m]] == MaskBit(mask, m)
    requires forall k :: i < k < |pc| ==> Holds(aug[k], s)
    requires val == Xor(aug[i][nb], DotRange(aug[i], s, pc[i] + 1, nb))
    ensures forall m :: 0 <= m < |free| ==> s[pc[i] := val][free[m]] == MaskBit(mask, m)
    ensures forall k :: i <= k < |pc| ==> Holds(aug[k], s[pc[i] := val])
  {
    var col := pc[i];
    var s' := s[col := val];
    forall m | 0 <= m < |free| ensures s'[free[m]] == MaskBit(mask, m) {
      assert free[m] in free;
    }
    forall k | i < k < |pc| ensures Holds(aug[k], s') {
      assert pc[i] < pc[k];
      DotUpdate(aug[k], s, col, val, 0, nb);
    }
    DotUpdate(aug[i], s, col, val, col + 1, nb);
    PivotEquation(aug[i], s', col, nb);
  }

  // ------------------------------------------------------------ the solver

  /** `gauss_eliminate_gf2`: the fewest presses over all 0/1 solutions of
      `A·x == target`, or `None` (Python's `float("inf")`) when there is none. */
  method GaussEliminate(matrix: seq<seq<Bit>>, target: seq<Bit>) returns (r: Option<nat>)
    requires |matrix| == |target| && Widths(matrix, Cols(matrix))
    ensures r.None? <==> !exists x :: Solves(matrix, target, x)
    ensures r.Some? ==> exists x :: Solves(matrix, target, x) && Weight(x) == r.value
    ensures r.Some? ==> forall x :: Solves(matrix, target, x) ==> r.value <= Weight(x)
  {
    var numButtons := Cols(matrix);
    if numButtons == 0 {
      NoButtons(matrix, target);
      if 1 in target {
        return None;
      }
      ZerosWeight(0);
      return Some(0);
    }
    var aug := Augment(matrix, target);
    var cur, pc;
    aug, cur, pc := Eliminate(aug, numButtons);
    var bad := FirstInconsistent(aug, numButtons, cur);
    if bad.Some? {
      Inconsistent(aug, numButtons, cur, pc, bad.value);
      return None;
    }
    var free := FreeVars(numButtons, pc);
    r := FewestPresses(matrix, target, aug, numButtons, cur, pc, free);
  }

  /** The augmented matrix `[A | target]`, one row at a time. */
  method Augment(matrix: seq<seq<Bit>>, target: seq<Bit>) returns (aug: seq<seq<Bit>>)
    requires |matrix| == |target| && Widths(matrix, Cols(matrix))
    ensures Widths(aug, Cols(matrix) + 1) && SameSolutions(aug, matrix, target, Cols(matrix))
  {
    aug := [];
    for i := 0 to |target|
      invariant |aug| == i && forall k :: 0 <= k < i ==> aug[k] == matrix[k] + [target[k]]
    {
      aug := aug + [matrix[i] + [target[i]]];
    }
    forall x | |x| == Cols(matrix) ensures SatAll(aug, x) <==> Solves(matrix, target, x) {
      AugmentedSolves(matrix, target, aug, x);
    }
  }

  /** The first row at or after `cur` whose right-hand side is 1, if any. */
  method FirstInconsistent(aug: seq<seq<Bit>>, nb: nat, cur: nat) returns (bad: Option<nat>)
    requires Widths(aug, nb + 1) && cur <= |aug|
    ensures bad.Some? ==> cur <= bad.value < |aug| && aug[bad.value][nb] == 1
    ensures bad.None? ==> forall k :: cur <= k < |aug| ==> aug[k][nb] == 0
  {
    for row := cur to |aug|
      invariant forall k :: cur <= k < row ==> aug[k][nb] == 0
    {
      if aug[row][nb] == 1 {
        return Some(row);
      }
    }
    return None;
  }

  /** The loop over every setting of the free variables: each setting gives
      the one solution that agrees with it, and the lightest is kept. */
  method FewestPresses(matrix: seq<seq<Bit>>, target: seq<Bit>, aug: seq<seq<Bit>>, nb: nat, cur: nat,
                       pc: seq<nat>, free: seq<nat>) returns (minPresses: Option<nat>)
    requires Echelon(aug, nb, cur, pc, nb) && free == FreeVars(nb, pc) && nb == Cols(matrix)
    requires SameSolutions(aug, matrix, target, nb)
    requires forall k :: cur <= k < |aug| ==> aug[k][nb] == 0
    ensures minPresses.Some?
    ensures exists x :: Solves(matrix, target, x) && Weight(x) == minPresses.value
    ensures forall x :: Solves(matrix, target, x) ==> minPresses.value <= Weight(x)
  {
    minPresses := None;
    for mask := 0 to Pow2(|free|)
      invariant minPresses.Some? ==> exists x :: Solves(matrix, target, x) && Weight(x) == minPresses.value
      invariant forall x :: Solves(matrix, target, x) && MaskOf(FreeBits(x, free)) < mask
                  ==> minPresses.Some? && minPresses.value <= Weight(x)
      invariant mask > 0 ==> minPresses.Some?
    {
      var solution := BackSubstitute(aug, nb, cur, pc, free, mask);
      OnlyCandidate(matrix, target, aug, nb, cur, pc, free, mask, solution);
      var presses := Weight(solution);
      minPresses := Some(if minPresses.None? then presses else Min(minPresses.value, presses));
    }
    forall x | Solves(matrix, target, x) ensures MaskOf(FreeBits(x, free)) < Pow2(|free|) {
      MaskOfBits(FreeBits(x, free));
    }
  }

  /** The augmented rows have exactly the solutions of `A·x == target`. */
  ghost predicate SameSolutions(aug: seq<seq<Bit>>, matrix: seq<seq<Bit>>, target: seq<Bit>, nb: nat)
  {
    forall x :: |x| == nb ==> (SatAll(aug, x) <==> Solves(matrix, target, x))
  }

  /** The candidate for a mask solves the system, and it is the only solution
      whose free variables spell that mask. */
  lemma OnlyCandidate(matrix: seq<seq<Bit>>, target: seq<Bit>, aug: seq<seq<Bit>>, nb: nat, cur: nat,
                      pc: seq<nat>, free: seq<nat>, mask: nat, solution: seq<Bit>)
    requires Echelon(aug, nb, cur, pc, nb) && free == FreeVars(nb, pc) && nb == Cols(matrix)
    requires SameSolutions(aug, matrix, target, nb)
    requires forall k :: cur <= k < |aug| ==> aug[k][nb] == 0
    requires |solution| == nb
    requires forall k :: 0 <= k < |free| ==> solution[free[k]] == MaskBit(mask, k)
    requires forall k :: 0 <= k < |pc| ==> Holds(aug[k], solution)
    ensures Solves(matrix, target, solution)
    ensures forall x :: Solves(matrix, target, x) && MaskOf(FreeBits(x, free)) == mask ==> x == solution
  {
    ZeroRowsHold(aug, nb, cur, pc, solution);
    forall x | Solves(matrix, target, x) && MaskOf(FreeBits(x, free)) == mask ensures x == solution {
      MaskOfBits(FreeBits(x, free));
      forall j | 0 <= j < nb && j !in pc ensures x[j] == solution[j] {
        var k :| 0 <= k < |free| && free[k] == j;
      }
      assert SatAll(aug, x);
      Determined(aug, nb, cur, pc, x, solution);
    }
  }

  /** With no columns the only plan is the empty one; it works exactly when
      every target light is off. */
  lemma NoButtons(matrix: seq<seq<Bit>>, target: seq<Bit>)
    requires |matrix| == |target| && Widths(matrix, 0)
    ensures (exists x :: Solves(matrix, target, x)) <==> 1 !in target
    ensures 1 !in target ==> Solves(matrix, target, [])
    ensures forall x :: Solves(matrix, target, x) ==> x == []
  {
    if 1 !in target {
      forall i | 0 <= i < |matrix| ensures target[i] == 0 {
        assert target[i] in target;
      }
      assert Solves(matrix, target, []);
    } else {
      var i :| 0 <= i < |target| && target[i] == 1;
      forall x | Solves(matrix, target, x) ensures false {
      }
    }
  }

  /** A left-over row `0 = 1` has no solution. */
  lemma Inconsistent(aug: seq<seq<Bit>>, nb: nat, cur: nat, pc: seq<nat>, row: nat)
    requires Echelon(aug, nb, cur, pc, nb) && cur <= row < |aug| && aug[row][nb] == 1
    ensures forall x :: |x| == nb ==> !SatAll(aug, x)
  {
    forall x | |x| == nb ensures !Holds(aug[row], x) {
      DotZero(aug[row], x, 0, nb);
    }
  }

  /** Once the left-over rows are `0 = 0`, satisfying the pivot rows is enough. */
  lemma ZeroRowsHold(aug: seq<seq<Bit>>, nb: nat, cur: nat, pc: seq<nat>, x: seq<Bit>)
    requires Echelon(aug, nb, cur, pc, nb) && |x| == nb
    requires forall k :: cur <= k < |aug| ==> aug[k][nb] == 0
    requires forall k :: 0 <= k < |pc| ==> Holds(aug[k], x)
    ensures SatAll(aug, x)
  {
    forall k | cur <= k < |aug| ensures Holds(aug[k], x) {
      DotZero(aug[k], x, 0, nb);
    }
  }

  // ------------------------------------------------------------ one machine

  /** `sum(x) <= len(x)`: a plan presses each button at most once. */
  lemma {:induction false} WeightAtMost(x: seq<Bit>)
    ensures Weight(x) <= |x|
  {
    if x != [] {
      WeightAtMost(x[..|x| - 1]);
    }
  }

  /** The row Python's `matrix[light]` selects: a negative index counts from the end. */
  function LightRow(light: int, n: nat): int
  {
    if light < 0 then light + n else light
  }

  /** Button `b` lists a light index below `n` that selects row `l`. */
  ghost predicate Wired(buttons: seq<seq<int>>, n: nat, l: nat, b: nat)
    requires b < |buttons|
  {
    exists k :: 0 <= k < |buttons[b]| && buttons[b][k] < n && LightRow(buttons[b][k], n) == l
  }

  /** The light-by-button matrix of a machine with `n` lights. */
  ghost function Wiring(n: nat, buttons: seq<seq<int>>): (m: seq<seq<Bit>>)
    ensures |m| == n && Widths(m, |buttons|)
  {
    seq(n, l requires 0 <= l < n => seq(|buttons|, b requires 0 <= b < |buttons| => if Wired(buttons, n, l, b) then 1 else 0))
  }

  /** The index `light` may be given to a list of `n` rows without an `IndexError`
      whenever it passes the `light < n` test. */
  predicate Indexable(buttons: seq<seq<int>>, n: nat)
  {
    forall b, k :: 0 <= b < |buttons| && 0 <= k < |buttons[b]| ==> 0 <= buttons[b][k] + n
  }

  /** The matrix loop of `solve_machine`: `matrix[light][b] = 1` for every light
      index `light < num_lights` that button `b` lists. */
  method BuildMatrix(n: nat, buttons: seq<seq<int>>) returns (matrix: seq<seq<Bit>>)
    requires Indexable(buttons, n)
    ensures matrix == Wiring(n, buttons)
  {
    matrix := seq(n, _ => Zeros(|buttons|));
    for b := 0 to |buttons|
      invariant |matrix| == n && Widths(matrix, |buttons|)
      invariant forall l, c :: 0 <= l < n && 0 <= c < b ==> (matrix[l][c] == 1 <==> Wired(buttons, n, l, c))
      invariant forall l, c :: 0 <= l < n && b <= c < |buttons| ==> matrix[l][c] == 0
    {
      var button := buttons[b];
      for k := 0 to |button|
        invariant |matrix| == n && Widths(matrix, |buttons|)
        invariant forall l, c :: 0 <= l < n && 0 <= c < b ==> (matrix[l][c] == 1 <==> Wired(buttons, n, l, c))
        invariant forall l, c :: 0 <= l < n && b < c < |buttons| ==> matrix[l][c] == 0
        invariant forall l :: 0 <= l < n ==>
          (matrix[l][b] == 1 <==> exists j :: 0 <= j < k && button[j] < n && LightRow(button[j], n) == l)
      {
        var light := button[k];
        if light < n {
          var row := LightRow(light, n);
          matrix := matrix[row := matrix[row][b := 1]];
        }
      }
    }
    forall l | 0 <= l < n ensures matrix[l] == Wiring(n, buttons)[l] {
      assert forall c :: 0 <= c < |buttons| ==> matrix[l][c] == Wiring(n, buttons)[l][c];
    }
  }

  /** `solve_machine`: the fewest presses that light the target pattern, or
      `None` when no plan does; never more than one press per button. */
  method SolveMachine(target: seq<Bit>, buttons: seq<seq<int>>) returns (r: Option<nat>)
    requires Indexable(buttons, |target|)
    ensures r.None? <==> !exists x :: Solves(Wiring(|target|, buttons), target, x)
    ensures r.Some? ==> exists x :: Solves(Wiring(|target|, buttons), target, x) && Weight(x) == r.value
    ensures r.Some? ==> forall x :: Solves(Wiring(|target|, buttons), target, x) ==> r.value <= Weight(x)
    ensures r.Some? ==> r.value <= |buttons|
    ensures buttons == [] ==> r == if 1 in target then None else Some(0)
  {
    var matrix := BuildMatrix(|target|, buttons);
    r := GaussEliminate(matrix, target);
    if r.Some? {
      ghost var x :| Solves(matrix, target, x) && Weight(x) == r.value;
      WeightAtMost(x);
      assert |x| == Cols(matrix) <= |buttons|;
    }
    if buttons == [] {
      NoButtons(matrix, target);
      if r.Some? {
        ghost var x :| Solves(matrix, target, x) && Weight(x) == r.value;
        assert x == [];
      }
    }
  }

  // ------------------------------------------------------------ reading a machine

  /** One line of the manual: the target lights, the buttons (each the list of
      light indices it toggles) and the joltage requirements. */
  datatype Machine = Machine(target: seq<Bit>, buttons: seq<seq<int>>, joltage: seq<int>)

  /** Python's `s[a:b]` for indices within the string: empty when `b <= a`. */
  function Slice(s: string, a: nat, b: nat): (r: string)
    requires a <= |s| && b <= |s|
    ensures |r| == if b <= a then 0 else b - a
    ensures forall k :: 0 <= k < |r| ==> r[k] == s[a + k]
  {
    if b <= a then [] else s[a..b]
  }

  /** `[1 if c == "#" else 0 for c in text]`. */
  function Lights(text: string): (t: seq<Bit>)
    ensures |t| == |text|
  {
    seq(|text|, k requires 0 <= k < |text| => if text[k] == '#' then 1 else 0)
  }

  /** `[int(x) for x in text.split(",")]`; `None` where `int` raises. */
  function IntList(text: string): Option<seq<int>>
  {
    var parts := Split(text, ",");
    if AllSome(parts, ParseInt) then Some(Values(parts, ParseInt)) else None
  }

  /** `prefix` in front of the list `rest`, when there is one. */
  function Prepend<T>(prefix: seq<T>, rest: Option<seq<T>>): Option<seq<T>>
  {
    if rest.None? then None else Some(prefix + rest.value)
  }

  /** The buttons the scan finds from position `i` on: each `(` opens a group
      that runs to the next `)`, and a group with text becomes one button.
      `None` when a group is never closed or holds a piece that is not an integer. */
  function ButtonsFrom(line: string, i: nat): Option<seq<seq<int>>>
  {
    ButtonsWith(line, i, IntList)
  }

  /** The scan of `ButtonsFrom`, with the reading of a group's text as a
      parameter `list`. */
  function ButtonsWith(line: string, i: nat, list: string -> Option<seq<int>>): Option<seq<seq<int>>>
    decreases |line| - i
  {
    if i >= |line| then Some([])
    else if line[i] != '(' then ButtonsWith(line, i + 1, list)
    else
      match FindFrom(line, ")", i)
      case None => None
      case Some(close) =>
        OccursAtChar(line, ')', close);
        var text := line[i + 1..close];
        if text == [] then ButtonsWith(line, close + 1, list)
        else
          match list(text)
          case None => None
          case Some(button) => Prepend([button], ButtonsWith(line, close + 1, list))
  }

  /** The joltage list: empty without a `{`, else the integers between the
      first `{` and the first `}`. */
  function JoltageOf(line: string): Option<seq<int>>
  {
    JoltageWith(line, IntList)
  }

  /** `JoltageOf` with the reading of the list's text as a parameter `list`. */
  function JoltageWith(line: string, list: string -> Option<seq<int>>): Option<seq<int>>
  {
    match FindFrom(line, "{", 0)
    case None => Some([])
    case Some(open) =>
      match FindFrom(line, "}", 0)
      case None => None
      case Some(close) => list(Slice(line, open + 1, close))
  }

  /** The machine a line describes; `None` where `parse_machine` raises. */
  function MachineOf(line: string): Option<Machine>
  {
    MachineWith(line, IntList)
  }

  /** `MachineOf` with the reading of an integer list as a parameter `list`. */
  function MachineWith(line: string, list: string -> Option<seq<int>>): Option<Machine>
  {
    match FindFrom(line, "[", 0)
    case None => None
    case Some(open) =>
      match FindFrom(line, "]", 0)
      case None => None
      case Some(close) =>
        var target := Lights(Slice(line, open + 1, close));
        match ButtonsWith(line, close + 1, list)
        case None => None
        case Some(buttons) =>
          match JoltageWith(line, list)
          case None => None
          case Some(joltage) => Some(Machine(target, buttons, joltage))
  }

  /** A line describes a machine only when it has both brackets, and a
      machine read from a line without `{` has no joltage requirements. */
  lemma MachineNeeds(line: string)
    ensures MachineOf(line).Some? ==> FindFrom(line, "[", 0).Some? && FindFrom(line, "]", 0).Some?
    ensures MachineOf(line).Some? && FindFrom(line, "{", 0).None? ==> MachineOf(line).value.joltage == []
  {
  }

  /** `parse_machine`: the target between the brackets, then a scan with an
      index for the parenthesised buttons, then the joltage list. */
  method ParseMachine(line: string) returns (m: Option<Machine>)
    ensures m == MachineOf(line)
  {
    m := ReadMachine(line, IntList);
  }

  /** The steps of `parse_machine`, with each list read by `list`. */
  method ReadMachine(line: string, list: string -> Option<seq<int>>) returns (m: Option<Machine>)
    ensures m == MachineWith(line, list)
  {
    var targetStart := FindFrom(line, "[", 0);
    if targetStart.None? {
      return None;
    }
    var targetEnd := FindFrom(line, "]", 0);
    if targetEnd.None? {
      return None;
    }
    var targetText := Slice(line, targetStart.value + 1, targetEnd.value);
    var target := seq(|targetText|, k requires 0 <= k < |targetText| => if targetText[k] == '#' then 1 else 0);
    var buttons := ScanButtons(line, targetEnd.value + 1, list);
    if buttons.None? {
      return None;
    }
    var joltage := ReadJoltage(line, list);
    if joltage.None? {
      return None;
    }
    return Some(Machine(target, buttons.value, joltage.value));
  }

  /** The button loop of `parse_machine`, from index `start` to the end of the line. */
  method ScanButtons(line: string, start: nat, list: string -> Option<seq<int>>) returns (r: Option<seq<seq<int>>>)
    requires start <= |line|
    ensures r == ButtonsWith(line, start, list)
  {
    var buttons: seq<seq<int>> := [];
    var i := start;
    PrependNothing(ButtonsWith(line, i, list));
    while i < |line|
      invariant start <= i <= |line|
      invariant ButtonsWith(line, start, list) == Prepend(buttons, ButtonsWith(line, i, list))
      decreases |line| - i
    {
      if line[i] == '(' {
        var close := FindFrom(line, ")", i);
        GroupStep(line, start, i, buttons, list);
        if close.None? {
          return None;
        }
        var text := line[i + 1..close.value];
        if text != [] {
          var button := list(text);
          if button.None? {
            return None;
          }
          buttons := buttons + [button.value];
        }
        i := close.value + 1;
      } else {
        i := i + 1;
      }
    }
    assert buttons + [] == buttons;
    return Some(buttons);
  }

  /** How the scan treats an opening parenthesis at `i`: an unclosed group
      fails, an empty one is skipped, and one with text adds a button. */
  lemma GroupStep(line: string, start: nat, i: nat, buttons: seq<seq<int>>, list: string -> Option<seq<int>>)
    requires i < |line| && line[i] == '('
    requires ButtonsWith(line, start, list) == Prepend(buttons, ButtonsWith(line, i, list))
    ensures FindFrom(line, ")", i).None? ==> ButtonsWith(line, start, list).None?
    ensures FindFrom(line, ")", i).Some? ==>
      var close := FindFrom(line, ")", i).value;
      && i < close < |line|
      && var text := line[i + 1..close];
      && (text == [] ==> ButtonsWith(line, start, list) == Prepend(buttons, ButtonsWith(line, close + 1, list)))
      && (text != [] && list(text).None? ==> ButtonsWith(line, start, list).None?)
      && (text != [] && list(text).Some? ==>
            ButtonsWith(line, start, list) == Prepend(buttons + [list(text).value], ButtonsWith(line, close + 1, list)))
  {
    var f := FindFrom(line, ")", i);
    if f.Some? {
      OccursAtChar(line, ')', f.value);
      var text := line[i + 1..f.value];
      if text != [] && list(text).Some? {
        PrependTwice(buttons, [list(text).value], ButtonsWith(line, f.value + 1, list));
      }
    }
  }

  lemma PrependNothing<T>(rest: Option<seq<T>>)
    ensures Prepend([], rest) == rest
  {
    if rest.Some? {
      assert [] + rest.value == rest.value;
    }
  }

  lemma PrependTwice<T>(a: seq<T>, b: seq<T>, rest: Option<seq<T>>)
    ensures Prepend(a, Prepend(b, rest)) == Prepend(a + b, rest)
  {
    if rest.Some? {
      assert a + (b + rest.value) == (a + b) + rest.value;
    }
  }

  /** The joltage part of `parse_machine`. */
  method ReadJoltage(line: string, list: string -> Option<seq<int>>) returns (r: Option<seq<int>>)
    ensures r == JoltageWith(line, list)
  {
    var joltage: seq<int> := [];
    var joltStart := FindFrom(line, "{", 0);
    if joltStart.Some? {
      var joltEnd := FindFrom(line, "}", 0);
      if joltEnd.None? {
        return None;
      }
      var values := list(Slice(line, joltStart.value + 1, joltEnd.value));
      if values.None? {
        return None;
      }
      joltage := values.value;
    }
    return Some(joltage);
  }

  // ------------------------------------------------------------ writing a machine

  /** The diagram of a target: `#` for a light that must be on, `.` otherwise. */
  function LightsText(t: seq<Bit>): string
  {
    seq(|t|, k requires 0 <= k < |t| => if t[k] == 1 then '#' else '.')
  }

  /** `",".join(str(n) for n in ns)`. */
  function NumbersText(ns: seq<nat>): string
  {
    Join(seq(|ns|, k requires 0 <= k < |ns| => NatToString(ns[k])), ",")
  }

  /** The button schematics, each written ` (i,j,...)`. */
  function ButtonsText(bs: seq<seq<nat>>): string
  {
    GroupsText(bs, NumbersText)
  }

  /** Each of `bs` written ` (...)` by `write`. */
  function GroupsText(bs: seq<seq<nat>>, write: seq<nat> -> string): string
  {
    if bs == [] then [] else " (" + write(bs[0]) + ")" + GroupsText(bs[1..], write)
  }

  /** The joltage requirements, written ` {a,b,...}`, or nothing when there are none. */
  function JoltageText(j: seq<nat>): string
  {
    if j == [] then [] else " {" + NumbersText(j) + "}"
  }

  /** A manual line in the layout of the puzzle's examples, such as
      `[.##.] (3) (1,3) (2) (2,3) (0,2) (0,1) {3,5,4,7}`. */
  function MachineText(t: seq<Bit>, bs: seq<seq<nat>>, j: seq<nat>): string
  {
    "[" + LightsText(t) + "]" + ButtonsText(bs) + JoltageText(j)
  }

  /** `c` does not occur in `s`. */
  predicate Free(s: string, c: char)
  {
    forall k :: 0 <= k < |s| ==> s[k] != c
  }

  lemma NotFound(s: string, c: char)
    requires Free(s, c)
    ensures FindFrom(s, [c], 0).None?
  {
    if FindFrom(s, [c], 0).Some? {
      OccursAtChar(s, c, FindFrom(s, [c], 0).value);
    }
  }

  /** The first `c` at or after `from` is at `at`. */
  lemma FoundAt(s: string, c: char, from: nat, at: nat)
    requires from <= at < |s| && s[at] == c
    requires forall k :: from <= k < at ==> s[k] != c
    ensures FindFrom(s, [c], from) == Some(at)
  {
    OccursAtChar(s, c, at);
    forall k | from <= k < at ensures !OccursAt(s, [c], k) {
      OccursAtChar(s, c, k);
    }
    FindFromIs(s, [c], from, at);
  }

  lemma NumbersTextChars(ns: seq<nat>)
    ensures forall k :: 0 <= k < |NumbersText(ns)| ==> NumbersText(ns)[k] == ',' || IsDigit(NumbersText(ns)[k])
  {
    var parts := seq(|ns|, k requires 0 <= k < |ns| => NatToString(ns[k]));
    forall k | 0 <= k < |NumbersText(ns)| ensures NumbersText(ns)[k] == ',' || IsDigit(NumbersText(ns)[k]) {
      JoinChars(parts, ",", k);
      if NumbersText(ns)[k] !in "," {
        var p :| p in parts && NumbersText(ns)[k] in p;
        var i :| 0 <= i < |parts| && parts[i] == p;
        var m :| 0 <= m < |p| && p[m] == NumbersText(ns)[k];
        assert AllDigits(NatToString(ns[i]));
      }
    }
  }

  /** `[int(x) for x in ",".join(map(str, ns)).split(",")]` gives `ns` back. */
  lemma NumbersRoundTrip(ns: seq<nat>)
    requires ns != []
    ensures NumbersText(ns) != [] && IntList(NumbersText(ns)) == Some(ns)
  {
    var parts := seq(|ns|, k requires 0 <= k < |ns| => NatToString(ns[k]));
    forall p, k | p in parts && 0 <= k < |p| ensures p[k] != ',' {
      var i :| 0 <= i < |parts| && parts[i] == p;
      assert AllDigits(NatToString(ns[i]));
    }
    SplitJoin(parts, ',');
    assert Split(NumbersText(ns), ",") == parts;
    forall i | 0 <= i < |parts| ensures ParseInt(parts[i]) == Some(ns[i] as int) {
      ParseIntRoundTrip(ns[i]);
    }
    var values: seq<int> := ns;
    ValuesUnique(parts, ParseInt, values);
    if |parts| == 1 {
      assert NumbersText(ns) == parts[0];
    } else {
      assert NumbersText(ns) == parts[0] + "," + Join(parts[1..], ",");
    }
  }

  lemma {:induction false} ButtonsTextChars(bs: seq<seq<nat>>)
    ensures forall k :: 0 <= k < |GroupsText(bs, NumbersText)| ==>
      var c := GroupsText(bs, NumbersText)[k]; c == ' ' || c == '(' || c == ')' || c == ',' || IsDigit(c)
  {
    if bs != [] {
      ButtonsTextChars(bs[1..]);
      NumbersTextChars(bs[0]);
    }
  }

  /** With no `(` left, the scan finds no further button. */
  lemma {:induction false} NoGroupLeft(line: string, i: nat, list: string -> Option<seq<int>>)
    requires forall k :: i <= k < |line| ==> line[k] != '('
    ensures ButtonsWith(line, i, list) == Some([])
    decreases |line| - i
  {
    if i < |line| {
      NoGroupLeft(line, i + 1, list);
    }
  }

  /** A character other than `(`, then a closed group with text that parses,
      is one button. */
  lemma SpaceThenGroup(line: string, i: nat, close: nat, list: string -> Option<seq<int>>, b: seq<int>)
    requires i + 1 < close < |line| && line[i] != '(' && line[i + 1] == '('
    requires FindFrom(line, ")", i + 1) == Some(close)
    requires line[i + 2..close] != [] && list(line[i + 2..close]) == Some(b)
    ensures ButtonsWith(line, i, list) == Prepend([b], ButtonsWith(line, close + 1, list))
  {
  }

  /** Where `line` continues with ` (text)`, the group opened by `(` closes at
      the `)` after `text`. */
  lemma GroupLayout(line: string, i: nat, text: string, rest: string)
    requires Free(text, ')')
    requires i <= |line| && line[i..] == " (" + text + ")" + rest
    ensures i + 2 + |text| < |line| && line[i] == ' ' && line[i + 1] == '('
    ensures FindFrom(line, ")", i + 1) == Some(i + 2 + |text|)
    ensures line[i + 2..i + 2 + |text|] == text && line[i + 3 + |text|..] == rest
  {
    var open, close := i + 1, i + 2 + |text|;
    assert line[i] == line[i..][0];
    assert line[open] == line[i..][1];
    assert line[close] == line[i..][close - i];
    forall k | open <= k < close ensures line[k] != ')' {
      if k > open {
        assert line[k] == line[i..][k - i] == text[k - open - 1];
      }
    }
    FoundAt(line, ')', open, close);
    forall k | open + 1 <= k < close ensures line[k] == text[k - open - 1] {
      assert line[k] == line[i..][k - i];
    }
    assert line[open + 1..close] == text;
    assert |line| == close + 1 + |rest|;
    forall k | close + 1 <= k < |line| ensures line[k] == rest[k - close - 1] {
      assert line[k] == line[i..][k - i];
    }
    assert line[close + 1..] == rest;
  }

  /** Where `line` continues with ` (text)`, the scan reads the list `list`
      gives for `text` as one button and carries on after the `)`. */
  lemma GroupThen(line: string, i: nat, text: string, rest: string, list: string -> Option<seq<int>>, b: seq<int>)
    requires Free(text, ')') && text != [] && list(text) == Some(b)
    requires i <= |line| && line[i..] == " (" + text + ")" + rest
    ensures i + 3 + |text| <= |line| && line[i + 3 + |text|..] == rest
    ensures ButtonsWith(line, i, list) == Prepend([b], ButtonsWith(line, i + 3 + |text|, list))
  {
    GroupLayout(line, i, text, rest);
    SpaceThenGroup(line, i, i + 2 + |text|, list, b);
  }

  /** The written schematics after the first one. */
  lemma GroupsTextFirst(bs: seq<seq<nat>>, write: seq<nat> -> string, post: string)
    requires bs != []
    ensures GroupsText(bs, write) + post == " (" + write(bs[0]) + ")" + (GroupsText(bs[1..], write) + post)
  {
  }

  /** `list` reads every schematic of `bs` written by `write` back, and none
      of them is empty. */
  predicate ReadsBack(list: string -> Option<seq<int>>, write: seq<nat> -> string, bs: seq<seq<nat>>)
  {
    bs != [] ==>
      && write(bs[0]) != [] && Free(write(bs[0]), ')') && list(write(bs[0])) == Some(bs[0])
      && ReadsBack(list, write, bs[1..])
  }

  /** The scan reads back written button schematics, wherever in a line they
      stand and when no `(` follows them, for any writing of a group's numbers
      that `list` reads back. */
  lemma {:induction false} ButtonsWithAt(line: string, i: nat, bs: seq<seq<nat>>, post: string,
                                         list: string -> Option<seq<int>>, write: seq<nat> -> string)
    requires ReadsBack(list, write, bs) && Free(post, '(')
    requires i <= |line| && line[i..] == GroupsText(bs, write) + post
    ensures ButtonsWith(line, i, list) == Some(bs)
    decreases |bs|
  {
    if bs == [] {
      forall k | i <= k < |line| ensures line[k] != '(' {
        assert line[k] == line[i..][k - i] == post[k - i];
      }
      NoGroupLeft(line, i, list);
    } else {
      var text := write(bs[0]);
      GroupsTextFirst(bs, write, post);
      GroupThen(line, i, text, GroupsText(bs[1..], write) + post, list, bs[0]);
      ButtonsWithAt(line, i + 3 + |text|, bs[1..], post, list, write);
      assert [bs[0]] + bs[1..] == bs;
    }
  }

  /** `IntList` reads back every written schematic that lists at least one light. */
  lemma {:induction false} IntListReadsBack(bs: seq<seq<nat>>)
    requires forall b :: b in bs ==> b != []
    ensures ReadsBack(IntList, NumbersText, bs)
    decreases |bs|
  {
    if bs != [] {
      assert bs[0] in bs;
      IntListReadsOne(bs[0]);
      assert forall b :: b in bs[1..] ==> b in bs;
      IntListReadsBack(bs[1..]);
    }
  }

  /** One written group is free of `)` and reads back. */
  lemma IntListReadsOne(b: seq<nat>)
    requires b != []
    ensures NumbersText(b) != [] && Free(NumbersText(b), ')') && IntList(NumbersText(b)) == Some(b)
  {
    NumbersTextChars(b);
    NumbersRoundTrip(b);
  }

  /** The scan of `ButtonsFrom` reads back every written button schematic
      that lists at least one light, when no `(` follows them. */
  lemma ButtonsAt(line: string, i: nat, bs: seq<seq<nat>>, post: string)
    requires forall b :: b in bs ==> b != []
    requires Free(post, '(')
    requires i <= |line| && line[i..] == ButtonsText(bs) + post
    ensures ButtonsFrom(line, i) == Some(bs)
  {
    IntListReadsBack(bs);
    ButtonsWithAt(line, i, bs, post, IntList, NumbersText);
  }

  /** The written joltage list reads back when it ends the line and no brace
      comes before it. */
  lemma JoltageAt(line: string, p: nat, j: seq<nat>)
    requires p <= |line| && line[p..] == JoltageText(j)
    requires forall k :: 0 <= k < p ==> line[k] != '{' && line[k] != '}'
    ensures JoltageOf(line) == Some(j)
  {
    if j == [] {
      assert |line| == p;
      NotFound(line, '{');
    } else {
      var nt := NumbersText(j);
      NumbersTextChars(j);
      NumbersRoundTrip(j);
      assert Free(nt, '}');
      BracesAt(line, p, nt);
      ListBetweenBraces(line, p, nt, IntList, j);
    }
  }

  /** The joltage list is what `list` reads between the first braces. */
  lemma ListBetweenBraces(line: string, p: nat, text: string, list: string -> Option<seq<int>>, j: seq<int>)
    requires p + 2 + |text| <= |line|
    requires FindFrom(line, "{", 0) == Some(p + 1) && FindFrom(line, "}", 0) == Some(p + 2 + |text|)
    requires Slice(line, p + 2, p + 2 + |text|) == text && list(text) == Some(j)
    ensures JoltageWith(line, list) == Some(j)
  {
  }

  /** Where braces enclose `text` after `p` and none comes before, the first
      `{` and the first `}` of the line enclose `text`. */
  lemma BracesAt(line: string, p: nat, text: string)
    requires Free(text, '}')
    requires p <= |line| && line[p..] == " {" + text + "}"
    requires forall k :: 0 <= k < p ==> line[k] != '{' && line[k] != '}'
    ensures FindFrom(line, "{", 0) == Some(p + 1) && FindFrom(line, "}", 0) == Some(p + 2 + |text|)
    ensures Slice(line, p + 2, p + 2 + |text|) == text
  {
    OpenBrace(line, p, text);
    CloseBrace(line, p, text);
    assert Slice(line, p + 2, p + 2 + |text|) == line[p..][2..2 + |text|];
  }

  /** The character of `line` at `k`, where `line` continues with `w` from `p`. */
  lemma CharAt(line: string, p: nat, w: string, k: nat)
    requires p <= k < |line| && line[p..] == w
    ensures line[k] == w[k - p]
  {
  }

  lemma OpenBrace(line: string, p: nat, text: string)
    requires p <= |line| && line[p..] == " {" + text + "}"
    requires forall k :: 0 <= k < p ==> line[k] != '{'
    ensures FindFrom(line, "{", 0) == Some(p + 1)
  {
    var w := " {" + text + "}";
    CharAt(line, p, w, p);
    CharAt(line, p, w, p + 1);
    FoundAt(line, '{', 0, p + 1);
  }

  lemma CloseBrace(line: string, p: nat, text: string)
    requires Free(text, '}')
    requires p <= |line| && line[p..] == " {" + text + "}"
    requires forall k :: 0 <= k < p ==> line[k] != '}'
    ensures FindFrom(line, "}", 0) == Some(p + 2 + |text|)
  {
    var w := " {" + text + "}";
    var close := p + 2 + |text|;
    forall k | 0 <= k < close ensures line[k] != '}' {
      if p <= k {
        CharAt(line, p, w, k);
        if p + 2 <= k {
          assert w[k - p] == text[k - p - 2];
        }
      }
    }
    CharAt(line, p, w, close);
    FoundAt(line, '}', 0, close);
  }

  /** How a line `[lt]` followed by `bt` and `jt` is laid out. */
  lemma MachineLayout(lt: string, bt: string, jt: string)
    ensures var line, n := "[" + lt + "]" + bt + jt, |lt|;
      && n + 2 <= |line| && line[0] == '[' && line[n + 1] == ']'
      && line[1..n + 1] == lt
      && line[n + 2..] == bt + jt
      && line[n + 2 + |bt|..] == jt
  {
    var line, n := "[" + lt + "]" + bt + jt, |lt|;
    assert line == "[" + lt + "]" + (bt + jt);
    assert line[n + 2..] == bt + jt;
    assert line[n + 2 + |bt|..] == (bt + jt)[|bt|..];
  }

  /** A line whose brackets, buttons and joltage list read as `t`, `bs` and
      `j` describes that machine. */
  lemma MachineParts(line: string, n: nat, t: seq<Bit>, bs: seq<seq<int>>, j: seq<int>,
                      list: string -> Option<seq<int>>)
    requires n + 1 < |line|
    requires FindFrom(line, "[", 0) == Some(0) && FindFrom(line, "]", 0) == Some(n + 1)
    requires Lights(Slice(line, 1, n + 1)) == t
    requires ButtonsWith(line, n + 2, list) == Some(bs) && JoltageWith(line, list) == Some(j)
    ensures MachineWith(line, list) == Some(Machine(t, bs, j))
  {
  }

  /** In a written machine, the brackets enclose the target. */
  lemma TargetRoundTrip(t: seq<Bit>, bs: seq<seq<nat>>, j: seq<nat>)
    ensures var line, n := MachineText(t, bs, j), |t|;
      && n + 1 < |line|
      && FindFrom(line, "[", 0) == Some(0) && FindFrom(line, "]", 0) == Some(n + 1)
      && Lights(Slice(line, 1, n + 1)) == t
  {
    var lt := LightsText(t);
    MachineLayout(lt, ButtonsText(bs), JoltageText(j));
    LightsRoundTrip(t);
    BracketsAt(MachineText(t, bs, j), lt);
  }

  /** A written diagram reads back as its target and holds no `]`. */
  lemma LightsRoundTrip(t: seq<Bit>)
    ensures Lights(LightsText(t)) == t && Free(LightsText(t), ']')
  {
  }

  /** Where a line opens with `[`, then `lt` free of `]`, then `]`, the first
      brackets of the line enclose `lt`. */
  lemma BracketsAt(line: string, lt: string)
    requires Free(lt, ']')
    requires |lt| + 1 < |line| && line[0] == '[' && line[|lt| + 1] == ']'
    requires line[1..|lt| + 1] == lt
    ensures FindFrom(line, "[", 0) == Some(0) && FindFrom(line, "]", 0) == Some(|lt| + 1)
    ensures Slice(line, 1, |lt| + 1) == lt
  {
    FoundAt(line, '[', 0, 0);
    forall k | 0 <= k < |lt| + 1 ensures line[k] != ']' {
      if 0 < k {
        assert line[k] == line[1..|lt| + 1][k - 1];
      }
    }
    FoundAt(line, ']', 0, |lt| + 1);
  }

  /** In a written machine, the scan after `]` reads back the buttons. */
  lemma ButtonsRoundTrip(t: seq<Bit>, bs: seq<seq<nat>>, j: seq<nat>)
    requires forall b :: b in bs ==> b != []
    ensures ButtonsFrom(MachineText(t, bs, j), |t| + 2) == Some(bs)
  {
    var jt := JoltageText(j);
    MachineLayout(LightsText(t), ButtonsText(bs), jt);
    JoltageTextFree(j);
    ButtonsAt(MachineText(t, bs, j), |t| + 2, bs, jt);
  }

  /** A written joltage list opens no button group. */
  lemma JoltageTextFree(j: seq<nat>)
    ensures Free(JoltageText(j), '(')
  {
    NumbersTextChars(j);
    if j != [] {
      var jt := JoltageText(j);
      forall k | 0 <= k < |jt| ensures jt[k] != '(' {
        if 2 <= k < |jt| - 1 {
          assert jt[k] == NumbersText(j)[k - 2];
        }
      }
    }
  }

  /** In a written machine, the joltage list reads back. */
  lemma JoltageRoundTrip(t: seq<Bit>, bs: seq<seq<nat>>, j: seq<nat>)
    ensures JoltageOf(MachineText(t, bs, j)) == Some(j)
  {
    var line, n := MachineText(t, bs, j), |t|;
    var lt, bt := LightsText(t), ButtonsText(bs);
    MachineLayout(lt, bt, JoltageText(j));
    ButtonsTextChars(bs);
    forall k | 0 <= k < n + 2 + |bt| ensures line[k] != '{' && line[k] != '}' {
      if 0 < k <= n {
        assert line[k] == line[1..n + 1][k - 1] == lt[k - 1];
      } else if n + 1 < k {
        assert line[k] == line[n + 2..][k - n - 2] == bt[k - n - 2];
      }
    }
    JoltageAt(line, n + 2 + |bt|, j);
  }

  /** Writing a machine in the manual's layout and reading it back gives the
      same machine, for any target, buttons that each list at least one light,
      and joltage requirements. */
  lemma MachineRoundTrip(t: seq<Bit>, bs: seq<seq<nat>>, j: seq<nat>)
    requires forall b :: b in bs ==> b != []
    ensures MachineOf(MachineText(t, bs, j)) == Some(Machine(t, bs, j))
  {
    TargetRoundTrip(t, bs, j);
    ButtonsRoundTrip(t, bs, j);
    JoltageRoundTrip(t, bs, j);
    MachineParts(MachineText(t, bs, j), |t|, t, bs, j, IntList);
  }
}
