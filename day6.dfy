/** Day 6: the cephalopod math worksheet. Lines are padded to a common
    width; problems are the maximal runs of columns that are not entirely
    spaces. Part 1 reads each block's rows as numbers with the operator on
    the last non-blank row; Part 2 reads each column, right to left, as one
    number. The grand total adds the sums and products of the problems. */
module Day6 {
  import opened Common
  import opened Text

  /** A problem: its numbers and its operator, `'+'` or `'*'`. */
  type Problem = (seq<int>, char)

  /** A block of columns `[start, end)`. */
  type Block = (nat, nat)

  // ------------------------------------------------------------------ padding

  /** `max(len(line) for line in lines)`, 0 for no lines. */
  function MaxWidth(lines: seq<string>): (w: nat)
    ensures forall i :: 0 <= i < |lines| ==> |lines[i]| <= w
    ensures lines != [] ==> exists i :: 0 <= i < |lines| && |lines[i]| == w
  {
    if lines == [] then 0
    else
      var w := MaxWidth(lines[..|lines| - 1]);
      assert forall i :: 0 <= i < |lines| - 1 ==> lines[..|lines| - 1][i] == lines[i];
      Max(w, |lines[|lines| - 1]|)
  }

  /** `line.ljust(width)`. */
  function LJust(line: string, width: nat): (r: string)
    ensures |r| == Max(|line|, width)
    ensures r[..|line|] == line
    ensures forall k :: |line| <= k < |r| ==> r[k] == ' '
  {
    if |line| >= width then line else line + seq(width - |line|, _ => ' ')
  }

  /** Every row of the grid has width `w`. */
  ghost predicate Grid(g: seq<string>, w: nat)
  {
    forall r :: 0 <= r < |g| ==> |g[r]| == w
  }

  /** The lines, each padded with spaces to the widest one. */
  function Pad(lines: seq<string>): (g: seq<string>)
    ensures |g| == |lines| && Grid(g, MaxWidth(lines))
  {
    var w := MaxWidth(lines);
    seq(|lines|, i requires 0 <= i < |lines| => LJust(lines[i], w))
  }

  /** Padding keeps every character of every line and adds only spaces. */
  lemma PadKeeps(lines: seq<string>, r: nat, k: nat)
    requires r < |lines| && k < MaxWidth(lines)
    ensures Pad(lines)[r][k] == if k < |lines[r]| then lines[r][k] else ' '
  {
    var row := Pad(lines)[r];
    if k < |lines[r]| {
      assert row[..|lines[r]|][k] == row[k];
    }
  }

  // ------------------------------------------------------------------- blocks

  /** The character at column `c`; columns past the end read as spaces. */
  function CharAt(row: string, c: nat): char
  {
    if c < |row| then row[c] else ' '
  }

  /** Column `c` is a space in every row. */
  predicate Blank(g: seq<string>, c: nat)
  {
    g == [] || (CharAt(g[|g| - 1], c) == ' ' && Blank(g[..|g| - 1], c))
  }

  lemma {:induction false} BlankRows(g: seq<string>, c: nat)
    ensures Blank(g, c) <==> forall r :: 0 <= r < |g| ==> CharAt(g[r], c) == ' '
  {
    if g != [] {
      var init := g[..|g| - 1];
      BlankRows(init, c);
      assert forall r :: 0 <= r < |init| ==> init[r] == g[r];
    }
  }

  /** The blank test for the columns of a grid. */
  function BlankIn(g: seq<string>): nat -> bool
  {
    (c: nat) => Blank(g, c)
  }

  /** The first column at or after `c` that is not blank, or `w`. */
  function SkipBlank(blank: nat -> bool, w: nat, c: nat): (s: nat)
    requires c <= w
    ensures c <= s <= w
    decreases w - c
  {
    if c < w && blank(c) then SkipBlank(blank, w, c + 1) else c
  }

  lemma {:induction false} SkipBlankIs(blank: nat -> bool, w: nat, c: nat)
    requires c <= w
    ensures forall k :: c <= k < SkipBlank(blank, w, c) ==> blank(k)
    ensures SkipBlank(blank, w, c) < w ==> !blank(SkipBlank(blank, w, c))
    decreases w - c
  {
    if c < w && blank(c) {
      SkipBlankIs(blank, w, c + 1);
    }
  }

  /** The first blank column at or after `c`, or `w`. */
  function EndFrom(blank: nat -> bool, w: nat, c: nat): (e: nat)
    requires c <= w
    ensures c <= e <= w
    decreases w - c
  {
    if c < w && !blank(c) then EndFrom(blank, w, c + 1) else c
  }

  lemma {:induction false} EndFromIs(blank: nat -> bool, w: nat, c: nat)
    requires c <= w
    ensures forall k :: c <= k < EndFrom(blank, w, c) ==> !blank(k)
    ensures EndFrom(blank, w, c) < w ==> blank(EndFrom(blank, w, c))
    decreases w - c
  {
    if c < w && !blank(c) {
      EndFromIs(blank, w, c + 1);
    }
  }

  /** The blocks from column `c` on, left to right. */
  function Blocks(blank: nat -> bool, w: nat, c: nat): (bs: seq<Block>)
    requires c <= w
    decreases w - c
  {
    var s := SkipBlank(blank, w, c);
    if s >= w then [] else
      var e := EndFrom(blank, w, s + 1);
      [(s, e)] + Blocks(blank, w, e)
  }

  /** Block `b` is a maximal run of non-blank columns inside `[c, w)`. */
  ghost predicate MaximalRun(blank: nat -> bool, w: nat, c: nat, b: Block)
  {
    c <= b.0 < b.1 <= w
    && (forall k :: b.0 <= k < b.1 ==> !blank(k))
    && (b.0 == c || blank(b.0 - 1))
    && (b.1 == w || blank(b.1))
  }

  /** The first block found from `c` is a maximal run. */
  lemma FirstBlock(blank: nat -> bool, w: nat, c: nat)
    requires c <= w && SkipBlank(blank, w, c) < w
    ensures MaximalRun(blank, w, c, (SkipBlank(blank, w, c), EndFrom(blank, w, SkipBlank(blank, w, c) + 1)))
  {
    var s := SkipBlank(blank, w, c);
    SkipBlankIs(blank, w, c);
    EndFromIs(blank, w, s + 1);
    if s > c {
      assert c <= s - 1 < s;
    }
  }

  /** Every block is a maximal run of non-blank columns. */
  lemma {:induction false} BlocksMaximal(blank: nat -> bool, w: nat, c: nat)
    requires c <= w
    ensures forall i :: 0 <= i < |Blocks(blank, w, c)| ==> MaximalRun(blank, w, c, Blocks(blank, w, c)[i])
    decreases w - c
  {
    var bs := Blocks(blank, w, c);
    var s := SkipBlank(blank, w, c);
    if s < w {
      var e := EndFrom(blank, w, s + 1);
      var rest := Blocks(blank, w, e);
      BlocksMaximal(blank, w, e);
      FirstBlock(blank, w, c);
      forall i | 0 <= i < |bs| ensures MaximalRun(blank, w, c, bs[i]) {
        if i > 0 {
          assert bs[i] == rest[i - 1];
          assert MaximalRun(blank, w, e, rest[i - 1]);
        }
      }
    }
  }

  /** The blocks come from left to right and do not overlap. */
  lemma {:induction false} BlocksOrdered(blank: nat -> bool, w: nat, c: nat)
    requires c <= w
    ensures forall i, j :: 0 <= i < j < |Blocks(blank, w, c)| ==> Blocks(blank, w, c)[i].1 <= Blocks(blank, w, c)[j].0
    decreases w - c
  {
    var bs := Blocks(blank, w, c);
    var s := SkipBlank(blank, w, c);
    if s < w {
      var e := EndFrom(blank, w, s + 1);
      var rest := Blocks(blank, w, e);
      BlocksOrdered(blank, w, e);
      BlocksMaximal(blank, w, e);
      forall i, j | 0 <= i < j < |bs| ensures bs[i].1 <= bs[j].0 {
        assert bs[j] == rest[j - 1];
        assert MaximalRun(blank, w, e, rest[j - 1]);
        if i > 0 {
          assert bs[i] == rest[i - 1];
        }
      }
    }
  }

  /** Every non-blank column from `c` on lies in some block. */
  lemma {:induction false} BlocksCover(blank: nat -> bool, w: nat, c: nat, k: nat)
    requires c <= k < w && !blank(k)
    ensures exists i :: 0 <= i < |Blocks(blank, w, c)| && Blocks(blank, w, c)[i].0 <= k < Blocks(blank, w, c)[i].1
    decreases w - c
  {
    var bs := Blocks(blank, w, c);
    var s := SkipBlank(blank, w, c);
    SkipBlankIs(blank, w, c);
    assert s <= k;
    var e := EndFrom(blank, w, s + 1);
    if k < e {
      assert bs[0] == (s, e);
    } else {
      BlocksCover(blank, w, e, k);
      var rest := Blocks(blank, w, e);
      var i :| 0 <= i < |rest| && rest[i].0 <= k < rest[i].1;
      assert bs[i + 1] == rest[i];
    }
  }

  // ------------------------------------------------------------------ keeping

  /** The values `f` gives the elements, dropping `None`, in order. */
  function Keep<S, T>(xs: seq<S>, f: S -> Option<T>): (r: seq<T>)
    ensures |r| <= |xs|
  {
    if xs == [] then []
    else Keep(xs[..|xs| - 1], f) + (if f(xs[|xs| - 1]).Some? then [f(xs[|xs| - 1]).value] else [])
  }

  lemma {:induction false} KeepAppend<S, T>(a: seq<S>, b: seq<S>, f: S -> Option<T>)
    ensures Keep(a + b, f) == Keep(a, f) + Keep(b, f)
    decreases |b|
  {
    if b != [] {
      var b' := b[..|b| - 1];
      KeepAppend(a, b', f);
      assert (a + b)[..|a + b| - 1] == a + b';
      assert (a + b)[|a + b| - 1] == b[|b| - 1];
    } else {
      assert a + b == a;
    }
  }

  /** Something is kept exactly when some element has a value. */
  lemma {:induction false} KeepEmpty<S, T>(xs: seq<S>, f: S -> Option<T>)
    ensures Keep(xs, f) != [] <==> exists i :: 0 <= i < |xs| && f(xs[i]).Some?
  {
    if xs != [] {
      var init := xs[..|xs| - 1];
      KeepEmpty(init, f);
      if exists i :: 0 <= i < |init| && f(init[i]).Some? {
        var i :| 0 <= i < |init| && f(init[i]).Some?;
        assert xs[i] == init[i];
      }
      if (exists i :: 0 <= i < |xs| && f(xs[i]).Some?) && f(xs[|xs| - 1]).None? {
        var i :| 0 <= i < |xs| && f(xs[i]).Some?;
        assert init[i] == xs[i];
      }
    }
  }

  /** Everything kept is the value of some element. */
  lemma {:induction false} KeepOnly<S, T>(xs: seq<S>, f: S -> Option<T>, y: T)
    requires y in Keep(xs, f)
    ensures exists i :: 0 <= i < |xs| && f(xs[i]) == Some(y)
  {
    var init := xs[..|xs| - 1];
    if y in Keep(init, f) {
      KeepOnly(init, f, y);
      var i :| 0 <= i < |init| && f(init[i]) == Some(y);
      assert xs[i] == init[i];
    }
  }

  /** Keeping one more element. */
  lemma KeepStep<S, T>(xs: seq<S>, i: nat, f: S -> Option<T>)
    requires i < |xs|
    ensures Keep(xs[..i + 1], f) == Keep(xs[..i], f) + (if f(xs[i]).Some? then [f(xs[i]).value] else [])
  {
    assert xs[..i + 1][..i] == xs[..i];
  }

  // ------------------------------------------------------------------- part 1

  /** `row[s:e]` with Python's clamping of the bounds. */
  function Clip(row: string, s: nat, e: nat): string
  {
    if s >= e || s >= |row| then [] else row[s..Min(e, |row|)]
  }

  /** The cell of a row in columns `[s, e)`, trimmed by `strip`, if it is
      not empty; the worksheet trims with `str.strip`. */
  function CellOf(strip: string -> string, s: nat, e: nat): string -> Option<string>
  {
    (row: string) => var t := strip(Clip(row, s, e)); if t == [] then None else Some(t)
  }

  /** The problem written as cells: the numbers above, the operator last. */
  function TextProblem(text: seq<string>): Option<Problem>
  {
    if text == [] then None
    else
      var op := text[|text| - 1];
      if op != "+" && op != "*" then None
      else
        var ns := Keep(text[..|text| - 1], ParseInt);
        if ns == [] then None else Some((ns, op[0]))
  }

  /** A block gives a problem exactly when its last cell is `+` or `*` and
      another cell parses; the problem holds the parsed values, in order,
      and that operator. */
  lemma TextProblemSome(text: seq<string>)
    ensures TextProblem(text).Some? <==>
      text != [] && (text[|text| - 1] == "+" || text[|text| - 1] == "*")
      && exists i :: 0 <= i < |text| - 1 && ParseInt(text[i]).Some?
    ensures TextProblem(text).Some? ==>
      TextProblem(text).value == (Keep(text[..|text| - 1], ParseInt), text[|text| - 1][0])
  {
    if text != [] {
      var items := text[..|text| - 1];
      KeepEmpty(items, ParseInt);
      assert forall i :: 0 <= i < |items| ==> items[i] == text[i];
    }
  }

  function Part1Reader(g: seq<string>, strip: string -> string): Block -> Option<Problem>
  {
    (b: Block) => TextProblem(Keep(g, CellOf(strip, b.0, b.1)))
  }

  /** `extract_problems_from_grid`. */
  function Part1Problems(lines: seq<string>): seq<Problem>
  {
    if lines == [] then []
    else
      var g := Pad(lines);
      Keep(Blocks(BlankIn(g), MaxWidth(lines), 0), Part1Reader(g, Strip))
  }

  // ------------------------------------------------------------------- part 2

  predicate IsOp(ch: char)
  {
    ch == '+' || ch == '*'
  }

  /** The digits of column `c`, top to bottom. */
  function ColumnDigits(g: seq<string>, c: nat): (ds: string)
    ensures AllDigits(ds)
  {
    if g == [] then []
    else
      var ch := CharAt(g[|g| - 1], c);
      ColumnDigits(g[..|g| - 1], c) + (if IsDigit(ch) then [ch] else [])
  }

  /** The last operator in column `c`, if there is one. */
  function ColumnOp(g: seq<string>, c: nat): (op: Option<char>)
    ensures op.Some? ==> IsOp(op.value)
  {
    if g == [] then None
    else
      var ch := CharAt(g[|g| - 1], c);
      if IsOp(ch) then Some(ch) else ColumnOp(g[..|g| - 1], c)
  }

  /** The number column `c` spells, if it holds a digit. */
  function ColumnNumber(g: seq<string>): nat -> seq<int>
  {
    (c: nat) => var ds := ColumnDigits(g, c); if ds == [] then [] else [DigitsValue(ds) as int]
  }

  function ColumnOperator(g: seq<string>): nat -> Option<char>
  {
    (c: nat) => ColumnOp(g, c)
  }

  /** Columns `e - 1` down to `s`, stopping after the first one with an
      operator: the numbers read, and that operator. */
  function Scan(num: nat -> seq<int>, op: nat -> Option<char>, s: nat, e: nat): (seq<int>, Option<char>)
    decreases e
  {
    if e <= s then ([], None)
    else if op(e - 1).Some? then (num(e - 1), op(e - 1))
    else
      var rest := Scan(num, op, s, e - 1);
      (num(e - 1) + rest.0, rest.1)
  }

  /** One more column to the left. */
  lemma ScanStep(num: nat -> seq<int>, op: nat -> Option<char>, s: nat, c: nat)
    requires s <= c
    ensures Scan(num, op, s, c + 1) ==
      if op(c).Some? then (num(c), op(c)) else (num(c) + Scan(num, op, s, c).0, Scan(num, op, s, c).1)
  {
  }

  /** The numbers of columns `e - 1` down to `s`. */
  function ColumnNumbers(num: nat -> seq<int>, s: nat, e: nat): seq<int>
    decreases e
  {
    if e <= s then [] else num(e - 1) + ColumnNumbers(num, s, e - 1)
  }

  /** With its rightmost operator in column `k`, a block reads the columns
      from its right end down to `k`, one number per column, and the columns
      left of `k` play no part. */
  lemma {:induction false} ScanReads(num: nat -> seq<int>, op: nat -> Option<char>, s: nat, k: nat, e: nat)
    requires s <= k < e && op(k).Some?
    requires forall c :: k < c < e ==> op(c).None?
    ensures Scan(num, op, s, e) == (ColumnNumbers(num, k, e), op(k))
    decreases e
  {
    if e - 1 > k {
      ScanReads(num, op, s, k, e - 1);
    } else {
      assert num(k) + [] == num(k);
    }
  }

  /** A block without an operator yields no operator, and all its numbers. */
  lemma {:induction false} ScanNoOperator(num: nat -> seq<int>, op: nat -> Option<char>, s: nat, e: nat)
    requires forall c :: s <= c < e ==> op(c).None?
    ensures Scan(num, op, s, e) == (ColumnNumbers(num, s, e), None)
    decreases e
  {
    if e > s {
      ScanNoOperator(num, op, s, e - 1);
    }
  }

  function Part2Reader(g: seq<string>): Block -> Option<Problem>
  {
    (b: Block) =>
      var r := Scan(ColumnNumber(g), ColumnOperator(g), b.0, b.1);
      if r.0 != [] && r.1.Some? then Some((r.0, r.1.value)) else None
  }

  /** `extract_problems_part2`. */
  function Part2Problems(lines: seq<string>): seq<Problem>
  {
    if lines == [] then []
    else
      var g := Pad(lines);
      Keep(Blocks(BlankIn(g), MaxWidth(lines), 0), Part2Reader(g))
  }

  /** Reading the blocks from `c`: the first block, then the rest. */
  /** The block found from `c` is the next one: it joins the blocks done. */
  lemma NextDone(blank: nat -> bool, w: nat, c: nat, s: nat, e: nat, done: seq<Block>)
    requires c <= w && s == SkipBlank(blank, w, c) && s < w && e == EndFrom(blank, w, s + 1)
    ensures done + Blocks(blank, w, c) == (done + [(s, e)]) + Blocks(blank, w, e)
  {
    var rest := Blocks(blank, w, e);
    assert Blocks(blank, w, c) == [(s, e)] + rest;
    SnocAssoc(done, (s, e), rest);
  }

  lemma SnocAssoc<T>(xs: seq<T>, x: T, ys: seq<T>)
    ensures xs + ([x] + ys) == (xs + [x]) + ys
  {
  }

  lemma KeepSnoc<S, T>(xs: seq<S>, x: S, f: S -> Option<T>)
    ensures Keep(xs + [x], f) == Keep(xs, f) + (if f(x).Some? then [f(x).value] else [])
  {
    assert (xs + [x])[..|xs|] == xs;
  }

  // -------------------------------------------------------------- extraction

  /** The two inner `while` loops: skip blank columns, then find the end of
      the block that starts there. */
  method NextBlock(g: seq<string>, w: nat, col: nat) returns (start: nat, endCol: nat)
    requires Grid(g, w) && col <= w
    ensures start == SkipBlank(BlankIn(g), w, col)
    ensures start < w ==> endCol == EndFrom(BlankIn(g), w, start + 1)
  {
    start := col;
    while start < w && Blank(g, start)
      invariant col <= start <= w && SkipBlank(BlankIn(g), w, start) == SkipBlank(BlankIn(g), w, col)
      decreases w - start
    {
      start := start + 1;
    }
    if start >= w {
      return start, start;
    }
    endCol := start + 1;
    while endCol < w
      invariant start < endCol <= w && EndFrom(BlankIn(g), w, endCol) == EndFrom(BlankIn(g), w, start + 1)
      decreases w - endCol
    {
      if Blank(g, endCol) {
        break;
      }
      endCol := endCol + 1;
    }
  }

  /** Part 1 on one block: collect the non-blank cells, then parse them. */
  method ReadRows(g: seq<string>, w: nat, col: nat, endCol: nat, strip: string -> string) returns (p: Option<Problem>)
    requires Grid(g, w) && col < endCol <= w
    ensures p == Part1Reader(g, strip)((col, endCol))
  {
    var problemText := ReadCells(g, w, col, endCol, strip);
    p := ParseCells(problemText);
  }

  /** The stripped, non-blank cells of a block, top to bottom. */
  method ReadCells(g: seq<string>, w: nat, col: nat, endCol: nat, strip: string -> string) returns (problemText: seq<string>)
    requires Grid(g, w) && col < endCol <= w
    ensures problemText == Keep(g, CellOf(strip, col, endCol))
  {
    problemText := KeepLoop(g, CellOf(strip, col, endCol));
  }

  /** The operator is the last cell; the cells above that parse are the numbers. */
  method ParseCells(problemText: seq<string>) returns (p: Option<Problem>)
    ensures p == TextProblem(problemText)
  {
    p := None;
    if problemText != [] {
      var op := problemText[|problemText| - 1];
      if op == "+" || op == "*" {
        var numbers := KeepLoop(problemText[..|problemText| - 1], ParseInt);
        if numbers != [] {
          p := Some((numbers, op[0]));
        }
      }
    }
  }

  /** A loop that appends the value of each element that has one. */
  method KeepLoop<S, T>(xs: seq<S>, f: S -> Option<T>) returns (r: seq<T>)
    ensures r == Keep(xs, f)
  {
    r := [];
    for i := 0 to |xs|
      invariant r == Keep(xs[..i], f)
    {
      KeepStep(xs, i, f);
      var v := f(xs[i]);
      if v.Some? {
        r := r + [v.value];
      }
    }
    assert xs[..|xs|] == xs;
  }

  /** `extract_problems_from_grid`: the problems of the worksheet, left to right. */
  method ExtractProblems(lines: seq<string>) returns (problems: seq<Problem>)
    ensures problems == Part1Problems(lines)
  {
    if lines == [] {
      return [];
    }
    var maxWidth := MaxWidth(lines);
    var padded := Pad(lines);
    problems := BlocksLoop1(padded, maxWidth, Strip);
  }

  /** The block loop of `extract_problems_from_grid` over the padded lines,
      trimming each cell with `strip`. */
  method BlocksLoop1(padded: seq<string>, maxWidth: nat, strip: string -> string) returns (problems: seq<Problem>)
    requires Grid(padded, maxWidth)
    ensures problems == Keep(Blocks(BlankIn(padded), maxWidth, 0), Part1Reader(padded, strip))
  {
    problems := [];
    var col := 0;
    ghost var done: seq<Block> := [];
    while col < maxWidth
      invariant col <= maxWidth
      invariant Blocks(BlankIn(padded), maxWidth, 0) == done + Blocks(BlankIn(padded), maxWidth, col)
      invariant problems == Keep(done, Part1Reader(padded, strip))
      decreases maxWidth - col
    {
      var start, endCol := NextBlock(padded, maxWidth, col);
      if start >= maxWidth {
        break;
      }
      var p := ReadRows(padded, maxWidth, start, endCol, strip);
      if p.Some? {
        problems := problems + [p.value];
      }
      NextDone(BlankIn(padded), maxWidth, col, start, endCol, done);
      KeepSnoc<Block, Problem>(done, (start, endCol), Part1Reader(padded, strip));
      done := done + [(start, endCol)];
      col := endCol;
    }
    assert done + [] == done;
  }

  /** One column, top to bottom: its digits and its last operator. */
  method ReadColumn(g: seq<string>, w: nat, c: nat) returns (digits: string, operation: Option<char>)
    requires Grid(g, w) && c < w
    ensures digits == ColumnDigits(g, c) && operation == ColumnOp(g, c)
  {
    digits, operation := [], None;
    var foundOperation := false;
    for row := 0 to |g|
      invariant digits == ColumnDigits(g[..row], c)
      invariant operation == ColumnOp(g[..row], c)
    {
      assert g[..row + 1][..row] == g[..row];
      var ch := g[row][c];
      if ch == '+' || ch == '*' {
        operation := Some(ch);
      } else if IsDigit(ch) {
        digits := digits + [ch];
      }
    }
    assert g[..|g|] == g;
  }

  /** Part 2 on one block: columns right to left, stopping after the one
      that holds the operator. */
  method ReadColumns(g: seq<string>, w: nat, col: nat, endCol: nat) returns (p: Option<Problem>)
    requires Grid(g, w) && col < endCol <= w
    ensures p == Part2Reader(g)((col, endCol))
  {
    ghost var num, ops := ColumnNumber(g), ColumnOperator(g);
    var problemNumbers: seq<int> := [];
    var operation: Option<char> := None;
    assert [] + Scan(num, ops, col, endCol).0 == Scan(num, ops, col, endCol).0;
    for c := endCol downto col
      invariant operation.None?
      invariant Scan(num, ops, col, endCol) == (problemNumbers + Scan(num, ops, col, c).0, Scan(num, ops, col, c).1)
    {
      var digits, op := ReadColumn(g, w, c);
      ghost var before := problemNumbers;
      if op.Some? {
        operation := op;
      }
      if digits != [] {
        problemNumbers := problemNumbers + [DigitsValue(digits)];
      }
      ReadStep(g, col, c, digits, op, before, problemNumbers);
      if op.Some? {
        break;
      }
    }
    assert problemNumbers + [] == problemNumbers;
    if problemNumbers != [] && operation.Some? {
      p := Some((problemNumbers, operation.value));
    } else {
      p := None;
    }
  }

  /** Reading column `c` extends the numbers by the column's number, and
      stops the scan when the column holds an operator. */
  lemma ReadStep(g: seq<string>, col: nat, c: nat, digits: string, op: Option<char>, before: seq<int>, after: seq<int>)
    requires col <= c && digits == ColumnDigits(g, c) && op == ColumnOp(g, c)
    requires after == before + (if digits == [] then [] else [DigitsValue(digits) as int])
    ensures var s := Scan(ColumnNumber(g), ColumnOperator(g), col, c + 1);
      var r := Scan(ColumnNumber(g), ColumnOperator(g), col, c);
      (before + s.0, s.1) == if op.Some? then (after, op) else (after + r.0, r.1)
  {
    var num, ops := ColumnNumber(g), ColumnOperator(g);
    ScanStep(num, ops, col, c);
    assert num(c) == after[|before|..];
    if op.None? {
      var r := Scan(num, ops, col, c);
      assert before + (num(c) + r.0) == after + r.0;
    }
  }

  /** `extract_problems_part2`: the problems read column by column. */
  method ExtractProblemsPart2(lines: seq<string>) returns (problems: seq<Problem>)
    ensures problems == Part2Problems(lines)
  {
    if lines == [] {
      return [];
    }
    var maxWidth := MaxWidth(lines);
    var padded := Pad(lines);
    problems := BlocksLoop2(padded, maxWidth);
  }

  /** The block loop of `extract_problems_part2` over the padded lines. */
  method BlocksLoop2(padded: seq<string>, maxWidth: nat) returns (problems: seq<Problem>)
    requires Grid(padded, maxWidth)
    ensures problems == Keep(Blocks(BlankIn(padded), maxWidth, 0), Part2Reader(padded))
  {
    problems := [];
    var col := 0;
    ghost var done: seq<Block> := [];
    while col < maxWidth
      invariant col <= maxWidth
      invariant Blocks(BlankIn(padded), maxWidth, 0) == done + Blocks(BlankIn(padded), maxWidth, col)
      invariant problems == Keep(done, Part2Reader(padded))
      decreases maxWidth - col
    {
      var start, endCol := NextBlock(padded, maxWidth, col);
      if start >= maxWidth {
        break;
      }
      var p := ReadColumns(padded, maxWidth, start, endCol);
      if p.Some? {
        problems := problems + [p.value];
      }
      NextDone(BlankIn(padded), maxWidth, col, start, endCol, done);
      KeepSnoc<Block, Problem>(done, (start, endCol), Part2Reader(padded));
      done := done + [(start, endCol)];
      col := endCol;
    }
    assert done + [] == done;
  }

  // ------------------------------------------------------------------- totals

  function Sum(ns: seq<int>): int
  {
    if ns == [] then 0 else Sum(ns[..|ns| - 1]) + ns[|ns| - 1]
  }

  function Product(ns: seq<int>): int
  {
    if ns == [] then 1 else Product(ns[..|ns| - 1]) * ns[|ns| - 1]
  }

  /** The answer to a problem: the sum for `+`, the product otherwise. */
  function Answer(p: Problem): int
  {
    if p.1 == '+' then Sum(p.0) else Product(p.0)
  }

  function Total(ps: seq<Problem>): int
  {
    if ps == [] then 0 else Total(ps[..|ps| - 1]) + Answer(ps[|ps| - 1])
  }

  /** The grand total of two runs of problems is the sum of their totals, so
      the order in which the blocks are read does not change it. */
  lemma {:induction false} TotalAppend(a: seq<Problem>, b: seq<Problem>)
    ensures Total(a + b) == Total(a) + Total(b)
    decreases |b|
  {
    if b == [] {
      assert a + b == a;
    } else {
      var b' := b[..|b| - 1];
      assert (a + b)[..|a + b| - 1] == a + b';
      assert (a + b)[|a + b| - 1] == b[|b| - 1];
      TotalAppend(a, b');
    }
  }

  /** The four problems of the example worksheet as read by part 1
      (row by row) and by part 2 (column by column), with their totals. */
  lemma ExampleTotals()
    ensures Total([([123, 45, 6], '*'), ([328, 64, 98], '+'), ([51, 387, 215], '*'), ([64, 23, 314], '+')]) == 4277556
    ensures Total([([356, 24, 1], '*'), ([8, 248, 369], '+'), ([175, 581, 32], '*'), ([4, 431, 623], '+')]) == 3263827
  {
    FourTotal(([123, 45, 6], '*'), ([328, 64, 98], '+'), ([51, 387, 215], '*'), ([64, 23, 314], '+'));
    ThreeAnswer([123, 45, 6], '*');
    ThreeAnswer([328, 64, 98], '+');
    ThreeAnswer([51, 387, 215], '*');
    ThreeAnswer([64, 23, 314], '+');
    FourTotal(([356, 24, 1], '*'), ([8, 248, 369], '+'), ([175, 581, 32], '*'), ([4, 431, 623], '+'));
    ThreeAnswer([356, 24, 1], '*');
    ThreeAnswer([8, 248, 369], '+');
    ThreeAnswer([175, 581, 32], '*');
    ThreeAnswer([4, 431, 623], '+');
  }

  lemma FourTotal(p: Problem, q: Problem, r: Problem, s: Problem)
    ensures Total([p, q, r, s]) == Answer(p) + Answer(q) + Answer(r) + Answer(s)
  {
    assert [p, q, r, s][..3] == [p, q, r];
    assert [p, q, r][..2] == [p, q];
    assert [p, q][..1] == [p];
    assert [p][..0] == [];
    assert Total([p]) == Answer(p);
    assert Total([p, q]) == Answer(p) + Answer(q);
    assert Total([p, q, r]) == Answer(p) + Answer(q) + Answer(r);
  }

  lemma ThreeAnswer(ns: seq<int>, op: char)
    requires |ns| == 3
    ensures Answer((ns, op)) == if op == '+' then ns[0] + ns[1] + ns[2] else ns[0] * ns[1] * ns[2]
  {
    assert ns[..2][..1] == [ns[0]];
    assert ns[..2][..1][..0] == [];
    assert Sum([ns[0]]) == ns[0] && Product([ns[0]]) == ns[0];
    assert Sum(ns[..2]) == ns[0] + ns[1] && Product(ns[..2]) == ns[0] * ns[1];
    assert Sum(ns) == Sum(ns[..2]) + ns[2] && Product(ns) == Product(ns[..2]) * ns[2];
  }

  /** The grand-total loop. */
  method GrandTotal(problems: seq<Problem>) returns (grandTotal: int)
    ensures grandTotal == Total(problems)
  {
    grandTotal := 0;
    for i := 0 to |problems|
      invariant grandTotal == Total(problems[..i])
    {
      assert problems[..i + 1][..i] == problems[..i];
      var (numbers, operation) := problems[i];
      var result;
      if operation == '+' {
        result := Sum(numbers);
      } else {
        result := 1;
        for k := 0 to |numbers|
          invariant result == Product(numbers[..k])
        {
          assert numbers[..k + 1][..k] == numbers[..k];
          result := result * numbers[k];
        }
        assert numbers[..|numbers|] == numbers;
      }
      grandTotal := grandTotal + result;
    }
    assert problems[..|problems|] == problems;
  }
}
