/** Day 11 (Reactor): counting the paths through a directed graph of
    devices. Each device lists the devices its outputs lead to; a device
    without an entry has no outputs. Part 1 counts the paths from one device
    to another; Part 2 counts only the paths that pass through every device of
    a required list. Both are memoised depth-first searches. */
module Day11 {
  import opened Common
  import opened Text

  type Node = string

  /** Device name to the list of devices its outputs lead to. */
  type Graph = map<Node, seq<Node>>

  /** `rank` numbers the devices a search can enter before it reaches `end`:
      every output of a ranked device other than `end` is, when it has
      outputs of its own, ranked lower. A search from `s` can use such a
      ranking when `Within` holds of `s`. A ranking exists exactly when no
      cycle can be reached from the start without passing through `end`; on
      such a cycle the recursion of the searches never returns, so that case
      is not modelled. Cycles elsewhere in the graph, and cycles through
      `end`, are allowed. */
  ghost predicate Ranked(g: Graph, rank: map<Node, nat>, end: Node)
  {
    forall u :: u in rank && u in g && u != end ==>
      forall v :: v in g[u] && v in g ==> v in rank && rank[v] < rank[u]
  }

  /** The search from `s` stops at once (`s` is `end` or has no outputs) or
      starts from a ranked device. */
  ghost predicate Within(g: Graph, rank: map<Node, nat>, end: Node, s: Node)
  {
    s == end || s !in g || s in rank
  }

  /** A strict upper bound on the length of the walks that leave `s`. */
  ghost function Height(g: Graph, rank: map<Node, nat>, s: Node): nat
  {
    if s in g && s in rank then rank[s] + 1 else 0
  }

  lemma HeightDecreases(g: Graph, rank: map<Node, nat>, end: Node, s: Node)
    requires Ranked(g, rank, end) && Within(g, rank, end, s) && s in g && s != end
    ensures forall v :: v in g[s] ==> Within(g, rank, end, v) && Height(g, rank, v) < Height(g, rank, s)
  {
  }

  // ------------------------------------------------------------ path counts

  /** The number of paths from `s` to `end`: one when `s` is `end`, none
      when `s` has no outputs, else the sum over its listed outputs,
      repeated outputs counted as often as they are listed. */
  ghost function Paths(g: Graph, rank: map<Node, nat>, s: Node, end: Node): nat
    requires Ranked(g, rank, end) && Within(g, rank, end, s)
    decreases Height(g, rank, s), 1, 0
  {
    if s == end then 1
    else if s !in g then 0
    else
      HeightDecreases(g, rank, end, s);
      SumPaths(g, rank, g[s], end, Height(g, rank, s))
  }

  /** The sum of `Paths` over a list of devices, all below height `bound`. */
  ghost function SumPaths(g: Graph, rank: map<Node, nat>, ns: seq<Node>, end: Node, bound: nat): nat
    requires Ranked(g, rank, end) && forall v :: v in ns ==> Within(g, rank, end, v) && Height(g, rank, v) < bound
    decreases bound, 0, |ns|
  {
    if ns == [] then 0
    else SumPaths(g, rank, ns[..|ns| - 1], end, bound) + Paths(g, rank, ns[|ns| - 1], end)
  }

  /** Every memo entry holds the path count of its device. */
  ghost predicate MemoOk(g: Graph, rank: map<Node, nat>, end: Node, memo: map<Node, nat>)
    requires Ranked(g, rank, end)
  {
    forall k :: k in memo ==> Within(g, rank, end, k) && memo[k] == Paths(g, rank, k, end)
  }

  /** `count_paths` with its memo table passed in and handed back: memoisation
      does not change the result. */
  method CountPathsMemo(g: Graph, ghost rank: map<Node, nat>, start: Node, end: Node, memo: map<Node, nat>)
    returns (total: nat, memo': map<Node, nat>)
    requires Ranked(g, rank, end) && Within(g, rank, end, start) && MemoOk(g, rank, end, memo)
    ensures total == Paths(g, rank, start, end)
    ensures MemoOk(g, rank, end, memo') && memo.Keys <= memo'.Keys
    decreases Height(g, rank, start)
  {
    if start == end {
      return 1, memo;
    }
    if start in memo {
      return memo[start], memo;
    }
    if start !in g {
      return 0, memo[start := 0];
    }
    HeightDecreases(g, rank, end, start);
    var ns := g[start];
    total, memo' := 0, memo;
    for i := 0 to |ns|
      invariant total == SumPaths(g, rank, ns[..i], end, Height(g, rank, start))
      invariant MemoOk(g, rank, end, memo') && memo.Keys <= memo'.Keys
    {
      var t;
      t, memo' := CountPathsMemo(g, rank, ns[i], end, memo');
      assert ns[..i + 1][..i] == ns[..i];
      total := total + t;
    }
    assert ns[..|ns|] == ns;
    memo' := memo'[start := total];
  }

  /** `count_paths` called without a memo table. */
  method CountPaths(g: Graph, ghost rank: map<Node, nat>, start: Node, end: Node) returns (total: nat)
    requires Ranked(g, rank, end) && Within(g, rank, end, start)
    ensures total == Paths(g, rank, start, end)
  {
    var memo;
    total, memo := CountPathsMemo(g, rank, start, end, map[]);
  }

  // ------------------------------------------------------------ with required nodes

  /** The `visited` set passed on from `s`: `s` added when it is required. */
  function Visit(s: Node, required: set<Node>, visited: set<Node>): set<Node>
  {
    if s in required then visited + {s} else visited
  }

  /** `dfs(s, visited)`: the paths from `s` to `end` along which the required
      devices met (before `end`, from devices with outputs) complete
      `visited` to the whole required set. */
  ghost function PathsReq(g: Graph, rank: map<Node, nat>, s: Node, end: Node, required: set<Node>, visited: set<Node>): nat
    requires Ranked(g, rank, end) && Within(g, rank, end, s)
    decreases Height(g, rank, s), 1, 0
  {
    if s == end then (if visited == required then 1 else 0)
    else if s !in g then 0
    else
      HeightDecreases(g, rank, end, s);
      SumReq(g, rank, g[s], end, required, Visit(s, required, visited), Height(g, rank, s))
  }

  ghost function SumReq(g: Graph, rank: map<Node, nat>, ns: seq<Node>, end: Node, required: set<Node>, visited: set<Node>, bound: nat): nat
    requires Ranked(g, rank, end) && forall v :: v in ns ==> Within(g, rank, end, v) && Height(g, rank, v) < bound
    decreases bound, 0, |ns|
  {
    if ns == [] then 0
    else SumReq(g, rank, ns[..|ns| - 1], end, required, visited, bound) + PathsReq(g, rank, ns[|ns| - 1], end, required, visited)
  }

  ghost predicate ReqMemoOk(g: Graph, rank: map<Node, nat>, end: Node, required: set<Node>, memo: map<(Node, set<Node>), nat>)
    requires Ranked(g, rank, end)
  {
    forall k :: k in memo ==> Within(g, rank, end, k.0) && memo[k] == PathsReq(g, rank, k.0, end, required, k.1)
  }

  /** The inner `dfs` of `count_paths_with_required`, memoised on the pair
      (device, visited required devices). */
  method Dfs(g: Graph, ghost rank: map<Node, nat>, end: Node, required: set<Node>,
             node: Node, visited: set<Node>, memo: map<(Node, set<Node>), nat>)
    returns (total: nat, memo': map<(Node, set<Node>), nat>)
    requires Ranked(g, rank, end) && Within(g, rank, end, node) && ReqMemoOk(g, rank, end, required, memo)
    ensures total == PathsReq(g, rank, node, end, required, visited)
    ensures ReqMemoOk(g, rank, end, required, memo') && memo.Keys <= memo'.Keys
    decreases Height(g, rank, node)
  {
    var state := (node, visited);
    if state in memo {
      return memo[state], memo;
    }
    if node == end {
      total := if visited == required then 1 else 0;
      return total, memo[state := total];
    }
    if node !in g {
      return 0, memo[state := 0];
    }
    var newVisited := visited;
    if node in required {
      newVisited := newVisited + {node};
    }
    HeightDecreases(g, rank, end, node);
    var ns := g[node];
    total, memo' := 0, memo;
    for i := 0 to |ns|
      invariant total == SumReq(g, rank, ns[..i], end, required, newVisited, Height(g, rank, node))
      invariant ReqMemoOk(g, rank, end, required, memo') && memo.Keys <= memo'.Keys
    {
      var t;
      t, memo' := Dfs(g, rank, end, required, ns[i], newVisited, memo');
      assert ns[..i + 1][..i] == ns[..i];
      total := total + t;
    }
    assert ns[..|ns|] == ns;
    memo' := memo'[state := total];
  }

  /** `count_paths_with_required`: the search from `start` with nothing visited yet. */
  method CountPathsWithRequired(g: Graph, ghost rank: map<Node, nat>, start: Node, end: Node, requiredNodes: seq<Node>)
    returns (total: nat)
    requires Ranked(g, rank, end) && Within(g, rank, end, start)
    ensures total == PathsReq(g, rank, start, end, (set n | n in requiredNodes), {})
  {
    var requiredSet := set n | n in requiredNodes;
    var memo;
    total, memo := Dfs(g, rank, end, requiredSet, start, {}, map[]);
  }

  // ------------------------------------------------------------ properties

  /** Counting with required devices never exceeds counting all paths. */
  lemma {:induction false} PathsReqAtMost(g: Graph, rank: map<Node, nat>, s: Node, end: Node, required: set<Node>, visited: set<Node>)
    requires Ranked(g, rank, end) && Within(g, rank, end, s)
    ensures PathsReq(g, rank, s, end, required, visited) <= Paths(g, rank, s, end)
    decreases Height(g, rank, s), 1, 0
  {
    if s != end && s in g {
      HeightDecreases(g, rank, end, s);
      SumReqAtMost(g, rank, g[s], end, required, Visit(s, required, visited), Height(g, rank, s));
    }
  }

  lemma {:induction false} SumReqAtMost(g: Graph, rank: map<Node, nat>, ns: seq<Node>, end: Node, required: set<Node>, visited: set<Node>, bound: nat)
    requires Ranked(g, rank, end) && forall v :: v in ns ==> Within(g, rank, end, v) && Height(g, rank, v) < bound
    ensures SumReq(g, rank, ns, end, required, visited, bound) <= SumPaths(g, rank, ns, end, bound)
    decreases bound, 0, |ns|
  {
    if ns != [] {
      SumReqAtMost(g, rank, ns[..|ns| - 1], end, required, visited, bound);
      PathsReqAtMost(g, rank, ns[|ns| - 1], end, required, visited);
    }
  }

  /** With nothing required, every path counts. */
  lemma {:induction false} PathsReqNone(g: Graph, rank: map<Node, nat>, s: Node, end: Node)
    requires Ranked(g, rank, end) && Within(g, rank, end, s)
    ensures PathsReq(g, rank, s, end, {}, {}) == Paths(g, rank, s, end)
    decreases Height(g, rank, s), 1, 0
  {
    if s != end && s in g {
      HeightDecreases(g, rank, end, s);
      SumReqNone(g, rank, g[s], end, Height(g, rank, s));
    }
  }

  lemma {:induction false} SumReqNone(g: Graph, rank: map<Node, nat>, ns: seq<Node>, end: Node, bound: nat)
    requires Ranked(g, rank, end) && forall v :: v in ns ==> Within(g, rank, end, v) && Height(g, rank, v) < bound
    ensures SumReq(g, rank, ns, end, {}, {}, bound) == SumPaths(g, rank, ns, end, bound)
    decreases bound, 0, |ns|
  {
    if ns != [] {
      SumReqNone(g, rank, ns[..|ns| - 1], end, bound);
      PathsReqNone(g, rank, ns[|ns| - 1], end);
    }
  }

  /** The visited set only grows, and only by required devices: once it holds
      a device that is not required it can never equal the required set. */
  lemma {:induction false} PathsReqStray(g: Graph, rank: map<Node, nat>, s: Node, end: Node, required: set<Node>, visited: set<Node>)
    requires Ranked(g, rank, end) && Within(g, rank, end, s) && !(visited <= required)
    ensures PathsReq(g, rank, s, end, required, visited) == 0
    decreases Height(g, rank, s), 1, 0
  {
    if s != end && s in g {
      HeightDecreases(g, rank, end, s);
      SumReqStray(g, rank, g[s], end, required, Visit(s, required, visited), Height(g, rank, s));
    }
  }

  lemma {:induction false} SumReqStray(g: Graph, rank: map<Node, nat>, ns: seq<Node>, end: Node, required: set<Node>, visited: set<Node>, bound: nat)
    requires Ranked(g, rank, end) && forall v :: v in ns ==> Within(g, rank, end, v) && Height(g, rank, v) < bound
    requires !(visited <= required)
    ensures SumReq(g, rank, ns, end, required, visited, bound) == 0
    decreases bound, 0, |ns|
  {
    if ns != [] {
      SumReqStray(g, rank, ns[..|ns| - 1], end, required, visited, bound);
      PathsReqStray(g, rank, ns[|ns| - 1], end, required, visited);
    }
  }

  // ------------------------------------------------------------ the paths themselves

  /** A path from `s` to `end`: consecutive devices are joined by a listed
      output, and only the last device is `end`. */
  ghost predicate IsPath(g: Graph, w: seq<Node>, s: Node, end: Node)
  {
    && w != [] && w[0] == s && w[|w| - 1] == end
    && forall i :: 0 <= i < |w| - 1 ==> w[i] != end && w[i] in g && w[i + 1] in g[w[i]]
  }

  function Prefixed(s: Node, ws: seq<seq<Node>>): (r: seq<seq<Node>>)
    ensures |r| == |ws| && forall i :: 0 <= i < |ws| ==> r[i] == [s] + ws[i]
  {
    seq(|ws|, i requires 0 <= i < |ws| => [s] + ws[i])
  }

  /** The paths from `s` to `end`, listed with the multiplicity the search
      gives them (an output listed twice gives each path through it twice). */
  ghost function AllPaths(g: Graph, rank: map<Node, nat>, s: Node, end: Node): seq<seq<Node>>
    requires Ranked(g, rank, end) && Within(g, rank, end, s)
    decreases Height(g, rank, s), 1, 0
  {
    if s == end then [[s]]
    else if s !in g then []
    else
      HeightDecreases(g, rank, end, s);
      PathsVia(g, rank, s, g[s], end, Height(g, rank, s))
  }

  /** The paths from `s` that continue through one of `ns`. */
  ghost function PathsVia(g: Graph, rank: map<Node, nat>, s: Node, ns: seq<Node>, end: Node, bound: nat): seq<seq<Node>>
    requires Ranked(g, rank, end) && forall v :: v in ns ==> Within(g, rank, end, v) && Height(g, rank, v) < bound
    decreases bound, 0, |ns|
  {
    if ns == [] then []
    else PathsVia(g, rank, s, ns[..|ns| - 1], end, bound) + Prefixed(s, AllPaths(g, rank, ns[|ns| - 1], end))
  }

  /** `count_paths` counts the listed paths. */
  lemma {:induction false} PathsCountsPaths(g: Graph, rank: map<Node, nat>, s: Node, end: Node)
    requires Ranked(g, rank, end) && Within(g, rank, end, s)
    ensures |AllPaths(g, rank, s, end)| == Paths(g, rank, s, end)
    decreases Height(g, rank, s), 1, 0
  {
    if s != end && s in g {
      HeightDecreases(g, rank, end, s);
      PathsViaCount(g, rank, s, g[s], end, Height(g, rank, s));
    }
  }

  lemma {:induction false} PathsViaCount(g: Graph, rank: map<Node, nat>, s: Node, ns: seq<Node>, end: Node, bound: nat)
    requires Ranked(g, rank, end) && forall v :: v in ns ==> Within(g, rank, end, v) && Height(g, rank, v) < bound
    ensures |PathsVia(g, rank, s, ns, end, bound)| == SumPaths(g, rank, ns, end, bound)
    decreases bound, 0, |ns|
  {
    if ns != [] {
      PathsViaCount(g, rank, s, ns[..|ns| - 1], end, bound);
      PathsCountsPaths(g, rank, ns[|ns| - 1], end);
    }
  }

  /** Every listed path is a path from `s` to `end`. */
  lemma {:induction false} AllPathsSound(g: Graph, rank: map<Node, nat>, s: Node, end: Node)
    requires Ranked(g, rank, end) && Within(g, rank, end, s)
    ensures forall w :: w in AllPaths(g, rank, s, end) ==> IsPath(g, w, s, end)
    decreases Height(g, rank, s), 1, 0
  {
    if s != end && s in g {
      HeightDecreases(g, rank, end, s);
      PathsViaSound(g, rank, s, g[s], end, Height(g, rank, s));
    }
  }

  lemma {:induction false} PathsViaSound(g: Graph, rank: map<Node, nat>, s: Node, ns: seq<Node>, end: Node, bound: nat)
    requires Ranked(g, rank, end) && forall v :: v in ns ==> Within(g, rank, end, v) && Height(g, rank, v) < bound
    requires s in g && s != end && forall v :: v in ns ==> v in g[s]
    ensures forall w :: w in PathsVia(g, rank, s, ns, end, bound) ==> IsPath(g, w, s, end)
    decreases bound, 0, |ns|
  {
    if ns != [] {
      var v := ns[|ns| - 1];
      PathsViaSound(g, rank, s, ns[..|ns| - 1], end, bound);
      AllPathsSound(g, rank, v, end);
      forall w | w in Prefixed(s, AllPaths(g, rank, v, end)) ensures IsPath(g, w, s, end) {
        var k :| 0 <= k < |AllPaths(g, rank, v, end)| && w == Prefixed(s, AllPaths(g, rank, v, end))[k];
        var w' := AllPaths(g, rank, v, end)[k];
        assert w == [s] + w';
        assert IsPath(g, w', v, end);
        forall i | 0 <= i < |w| - 1 ensures w[i] != end && w[i] in g && w[i + 1] in g[w[i]] {
          if i > 0 {
            assert w[i] == w'[i - 1] && w[i + 1] == w'[i];
          }
        }
      }
    }
  }

  /** Every path from `s` to `end` is listed. */
  lemma {:induction false} AllPathsComplete(g: Graph, rank: map<Node, nat>, s: Node, end: Node, w: seq<Node>)
    requires Ranked(g, rank, end) && Within(g, rank, end, s) && IsPath(g, w, s, end)
    ensures w in AllPaths(g, rank, s, end)
    decreases |w|
  {
    if s == end {
      assert |w| == 1;
      assert w == [s];
    } else {
      var v := w[1];
      var w' := w[1..];
      assert IsPath(g, w', v, end) by {
        forall i | 0 <= i < |w'| - 1 ensures w'[i] != end && w'[i] in g && w'[i + 1] in g[w'[i]] {
          assert w'[i] == w[i + 1] && w'[i + 1] == w[i + 2];
        }
      }
      HeightDecreases(g, rank, end, s);
      AllPathsComplete(g, rank, v, end, w');
      assert w == [s] + w';
      PathsViaContains(g, rank, s, g[s], end, Height(g, rank, s), v, w');
    }
  }

  lemma {:induction false} PathsViaContains(g: Graph, rank: map<Node, nat>, s: Node, ns: seq<Node>, end: Node, bound: nat, v: Node, w': seq<Node>)
    requires Ranked(g, rank, end) && forall u :: u in ns ==> Within(g, rank, end, u) && Height(g, rank, u) < bound
    requires v in ns && w' in AllPaths(g, rank, v, end)
    ensures [s] + w' in PathsVia(g, rank, s, ns, end, bound)
    decreases |ns|
  {
    var last := ns[|ns| - 1];
    if v == last {
      var k :| 0 <= k < |AllPaths(g, rank, v, end)| && AllPaths(g, rank, v, end)[k] == w';
      assert Prefixed(s, AllPaths(g, rank, v, end))[k] == [s] + w';
    } else {
      assert v in ns[..|ns| - 1];
      PathsViaContains(g, rank, s, ns[..|ns| - 1], end, bound, v, w');
    }
  }

  /** The required devices a path passes through before its last device. */
  function Seen(p: seq<Node>, required: set<Node>): set<Node>
  {
    if p == [] then {} else (if p[0] in required then {p[0]} else {}) + Seen(p[1..], required)
  }

  /** The number of listed paths that, with `visited`, meet every required device. */
  ghost function CountMeeting(ws: seq<seq<Node>>, required: set<Node>, visited: set<Node>): nat
  {
    if ws == [] then 0
    else
      var w := ws[|ws| - 1];
      CountMeeting(ws[..|ws| - 1], required, visited)
        + (if w != [] && visited + Seen(w[..|w| - 1], required) == required then 1 else 0)
  }

  lemma {:induction false} CountMeetingConcat(a: seq<seq<Node>>, b: seq<seq<Node>>, required: set<Node>, visited: set<Node>)
    ensures CountMeeting(a + b, required, visited) == CountMeeting(a, required, visited) + CountMeeting(b, required, visited)
    decreases |b|
  {
    if b == [] {
      assert a + b == a;
    } else {
      assert (a + b)[..|a + b| - 1] == a + b[..|b| - 1];
      assert (a + b)[|a + b| - 1] == b[|b| - 1];
      CountMeetingConcat(a, b[..|b| - 1], required, visited);
    }
  }

  /** Putting `s` in front of non-empty paths moves `s`, if required, into `visited`. */
  lemma {:induction false} CountMeetingPrefixed(s: Node, ws: seq<seq<Node>>, required: set<Node>, visited: set<Node>)
    requires forall w :: w in ws ==> w != []
    ensures CountMeeting(Prefixed(s, ws), required, visited) == CountMeeting(ws, required, Visit(s, required, visited))
    decreases |ws|
  {
    if ws != [] {
      var w := ws[|ws| - 1];
      assert w in ws;
      var init := ws[..|ws| - 1];
      forall k | 0 <= k < |init| ensures init[k] != [] {
        assert init[k] == ws[k] && ws[k] in ws;
      }
      assert Prefixed(s, ws)[..|ws| - 1] == Prefixed(s, ws[..|ws| - 1]);
      CountMeetingPrefixed(s, ws[..|ws| - 1], required, visited);
      var pw := Prefixed(s, ws)[|ws| - 1];
      assert pw == [s] + w;
      assert pw[..|pw| - 1] == [s] + w[..|w| - 1];
      assert ([s] + w[..|w| - 1])[1..] == w[..|w| - 1];
    }
  }

  /** `dfs` counts exactly the listed paths that, with the devices already
      visited, pass through every required device. */
  lemma {:induction false} PathsReqCountsPaths(g: Graph, rank: map<Node, nat>, s: Node, end: Node, required: set<Node>, visited: set<Node>)
    requires Ranked(g, rank, end) && Within(g, rank, end, s)
    ensures PathsReq(g, rank, s, end, required, visited) == CountMeeting(AllPaths(g, rank, s, end), required, visited)
    decreases Height(g, rank, s), 1, 0
  {
    if s == end {
      assert AllPaths(g, rank, s, end) == [[s]];
      assert [[s]][..0] == [];
      assert [s][..0] == [];
    } else if s in g {
      HeightDecreases(g, rank, end, s);
      PathsViaReq(g, rank, s, g[s], end, required, visited, Height(g, rank, s));
    }
  }

  lemma {:induction false} PathsViaReq(g: Graph, rank: map<Node, nat>, s: Node, ns: seq<Node>, end: Node, required: set<Node>, visited: set<Node>, bound: nat)
    requires Ranked(g, rank, end) && forall v :: v in ns ==> Within(g, rank, end, v) && Height(g, rank, v) < bound
    ensures SumReq(g, rank, ns, end, required, Visit(s, required, visited), bound)
            == CountMeeting(PathsVia(g, rank, s, ns, end, bound), required, visited)
    decreases bound, 0, |ns|
  {
    if ns != [] {
      var v := ns[|ns| - 1];
      PathsViaReq(g, rank, s, ns[..|ns| - 1], end, required, visited, bound);
      PathsReqCountsPaths(g, rank, v, end, required, Visit(s, required, visited));
      AllPathsSound(g, rank, v, end);
      CountMeetingPrefixed(s, AllPaths(g, rank, v, end), required, visited);
      CountMeetingConcat(PathsVia(g, rank, s, ns[..|ns| - 1], end, bound), Prefixed(s, AllPaths(g, rank, v, end)), required, visited);
    }
  }

  // ------------------------------------------------------------ parsing

  /** One stripped line `name: out1 out2 ...`; `None` for a blank line or a
      line that does not split into exactly two parts at ": ". */
  function Entry(line: string): (e: Option<(Node, seq<Node>)>)
  {
    var t := Strip(line);
    if t == [] then None
    else
      var parts := Split(t, ": ");
      if |parts| == 2 then Some((parts[0], Words(parts[1]))) else None
  }

  /** The (device, outputs) pairs of the lines that have one, in order. */
  function Entries(lines: seq<string>): seq<(Node, seq<Node>)>
  {
    EntriesWith(lines, Entry)
  }

  /** `Entries` with the reading of one line as a parameter `entry`. */
  function EntriesWith(lines: seq<string>, entry: string -> Option<(Node, seq<Node>)>): seq<(Node, seq<Node>)>
  {
    if lines == [] then []
    else
      var e := entry(lines[|lines| - 1]);
      EntriesWith(lines[..|lines| - 1], entry) + (if e.Some? then [e.value] else [])
  }

  /** `parse_graph` on the lines of the file: each entry line assigns its
      device's outputs, so a later line for the same device replaces an
      earlier one. */
  method ParseGraph(lines: seq<string>) returns (graph: Graph)
    ensures graph == ToMap(Entries(lines))
  {
    graph := map[];
    for i := 0 to |lines|
      invariant graph == ToMap(EntriesWith(lines[..i], Entry))
    {
      var e := Entry(lines[i]);
      EntriesStep(lines, i, Entry);
      if e.Some? {
        graph := graph[e.value.0 := e.value.1];
      }
    }
    assert lines[..|lines|] == lines;
  }

  /** One more line adds its entry, if it has one, to the dictionary. */
  lemma EntriesStep(lines: seq<string>, i: nat, entry: string -> Option<(Node, seq<Node>)>)
    requires i < |lines|
    ensures var e := entry(lines[i]);
      && (e.Some? ==> ToMap(EntriesWith(lines[..i + 1], entry)) == ToMap(EntriesWith(lines[..i], entry))[e.value.0 := e.value.1])
      && (e.None? ==> ToMap(EntriesWith(lines[..i + 1], entry)) == ToMap(EntriesWith(lines[..i], entry)))
  {
    assert lines[..i + 1][..i] == lines[..i];
    var e := entry(lines[i]);
    if e.Some? {
      assert EntriesWith(lines[..i + 1], entry) == EntriesWith(lines[..i], entry) + [e.value];
    } else {
      assert EntriesWith(lines[..i + 1], entry) == EntriesWith(lines[..i], entry);
    }
  }

  /** The parsed graph holds a device exactly when some entry line names it,
      with the outputs of the last such line. */
  lemma ParsedGraph(lines: seq<string>)
    ensures forall k :: k in ToMap(Entries(lines)) <==> exists i :: 0 <= i < |Entries(lines)| && Entries(lines)[i].0 == k
    ensures forall i :: 0 <= i < |Entries(lines)| && (forall j :: i < j < |Entries(lines)| ==> Entries(lines)[j].0 != Entries(lines)[i].0) ==>
              ToMap(Entries(lines))[Entries(lines)[i].0] == Entries(lines)[i].1
  {
    forall k ensures k in ToMap(Entries(lines)) <==> exists i :: 0 <= i < |Entries(lines)| && Entries(lines)[i].0 == k {
      ToMapKeys(Entries(lines), k);
    }
    forall i | 0 <= i < |Entries(lines)| && (forall j :: i < j < |Entries(lines)| ==> Entries(lines)[j].0 != Entries(lines)[i].0)
      ensures ToMap(Entries(lines))[Entries(lines)[i].0] == Entries(lines)[i].1
    {
      ToMapLast(Entries(lines), i);
    }
  }
}
