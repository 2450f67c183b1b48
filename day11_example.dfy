/** The worked examples of the puzzle: five paths lead from `you` to `out`
    in the first, and two of the paths from `svr` to `out` in the second
    pass through both `dac` and `fft`. Two small graphs with cycles the
    searches never enter close the module. */
module Day11Example {
  import opened Day11

  /** The first example device list. */
  const G: Graph := map["aaa" := ["you", "hhh"], "you" := ["bbb", "ccc"], "bbb" := ["ddd", "eee"],
    "ccc" := ["ddd", "eee", "fff"], "ddd" := ["ggg"], "eee" := ["out"], "fff" := ["out"],
    "ggg" := ["out"], "hhh" := ["ccc", "fff", "iii"], "iii" := ["out"]]
  /** A ranking witnessing that the first example has no cycle. */
  const R: map<Node, nat> := map["aaa" := 5, "you" := 4, "bbb" := 3, "ccc" := 3, "ddd" := 2,
    "eee" := 1, "fff" := 1, "ggg" := 1, "hhh" := 4, "iii" := 1]

  lemma ExampleRanked()
    ensures Ranked(G, R, "out")
  {
    assert G.Keys == {"aaa", "you", "bbb", "ccc", "ddd", "eee", "fff", "ggg", "hhh", "iii"};
    forall u | u in R && u in G && u != "out" ensures forall v :: v in G[u] && v in G ==> v in R && R[v] < R[u] {
      if u in {"aaa", "you", "bbb", "ccc", "hhh"} {
        RankedUpper(u);
      } else {
        RankedLower(u);
      }
    }
  }

  /** The devices with more than one output lead to lower ranks. */
  lemma RankedUpper(u: Node)
    requires u in {"aaa", "you", "bbb", "ccc", "hhh"}
    ensures u in G && u in R && forall v :: v in G[u] && v in G ==> v in R && R[v] < R[u]
  {
    if u == "aaa" {
      assert G[u] == ["you", "hhh"];
    } else if u == "you" {
      assert G[u] == ["bbb", "ccc"];
    } else if u == "bbb" {
      assert G[u] == ["ddd", "eee"];
    } else if u == "ccc" {
      assert G[u] == ["ddd", "eee", "fff"];
    } else {
      assert G[u] == ["ccc", "fff", "iii"];
    }
  }

  /** The devices with one output lead to a lower rank or to `out`. */
  lemma RankedLower(u: Node)
    requires u in {"ddd", "eee", "fff", "ggg", "iii"}
    ensures u in G && u in R && forall v :: v in G[u] && v in G ==> v in R && R[v] < R[u]
  {
    if u == "ddd" {
      assert G[u] == ["ggg"];
    } else {
      assert G[u] == ["out"];
    }
  }

  /** The count through a device with one, two or three outputs. */
  lemma Through1(g: Graph, rank: map<Node, nat>, s: Node, a: Node, end: Node)
    requires Ranked(g, rank, end) && s in rank && s in g && s != end && g[s] == [a]
    ensures Within(g, rank, end, a)
    ensures Paths(g, rank, s, end) == Paths(g, rank, a, end)
  {
    HeightDecreases(g, rank, end, s);
    assert [a][..0] == [];
    assert SumPaths(g, rank, [a], end, Height(g, rank, s)) == Paths(g, rank, a, end);
  }

  lemma Through2(g: Graph, rank: map<Node, nat>, s: Node, a: Node, b: Node, end: Node)
    requires Ranked(g, rank, end) && s in rank && s in g && s != end && g[s] == [a, b]
    ensures Within(g, rank, end, a) && Within(g, rank, end, b)
    ensures Paths(g, rank, s, end) == Paths(g, rank, a, end) + Paths(g, rank, b, end)
  {
    HeightDecreases(g, rank, end, s);
    var h := Height(g, rank, s);
    assert [a, b][..1] == [a];
    assert [a][..0] == [];
    assert SumPaths(g, rank, [a], end, h) == Paths(g, rank, a, end);
  }

  lemma Through3(g: Graph, rank: map<Node, nat>, s: Node, a: Node, b: Node, c: Node, end: Node)
    requires Ranked(g, rank, end) && s in rank && s in g && s != end && g[s] == [a, b, c]
    ensures Within(g, rank, end, a) && Within(g, rank, end, b) && Within(g, rank, end, c)
    ensures Paths(g, rank, s, end) == Paths(g, rank, a, end) + Paths(g, rank, b, end) + Paths(g, rank, c, end)
  {
    HeightDecreases(g, rank, end, s);
    var h := Height(g, rank, s);
    assert [a, b, c][..2] == [a, b];
    assert [a, b][..1] == [a];
    assert [a][..0] == [];
    assert SumPaths(g, rank, [a], end, h) == Paths(g, rank, a, end);
    assert SumPaths(g, rank, [a, b], end, h) == Paths(g, rank, a, end) + Paths(g, rank, b, end);
  }

  lemma OutputsCounts()
    requires Ranked(G, R, "out")
    ensures Paths(G, R, "eee", "out") == 1 && Paths(G, R, "fff", "out") == 1 && Paths(G, R, "ggg", "out") == 1
  {
    assert Paths(G, R, "out", "out") == 1;
    assert G["eee"] == ["out"] && G["fff"] == ["out"] && G["ggg"] == ["out"];
    Through1(G, R, "eee", "out", "out");
    Through1(G, R, "fff", "out", "out");
    Through1(G, R, "ggg", "out", "out");
  }

  lemma DddCount()
    requires Ranked(G, R, "out")
    ensures Paths(G, R, "ddd", "out") == 1
  {
    OutputsCounts();
    assert G["ddd"] == ["ggg"];
    Through1(G, R, "ddd", "ggg", "out");
  }

  lemma BbbCount()
    requires Ranked(G, R, "out")
    ensures Paths(G, R, "bbb", "out") == 2
  {
    OutputsCounts();
    DddCount();
    BbbOutputs();
    Through2(G, R, "bbb", "ddd", "eee", "out");
  }

  lemma CccCount()
    requires Ranked(G, R, "out")
    ensures Paths(G, R, "ccc", "out") == 3
  {
    OutputsCounts();
    DddCount();
    CccOutputs();
    Through3(G, R, "ccc", "ddd", "eee", "fff", "out");
  }

  lemma BbbOutputs()
    ensures "bbb" in G && "bbb" in R && G["bbb"] == ["ddd", "eee"] && "bbb" != "out"
  {
  }

  lemma CccOutputs()
    ensures "ccc" in G && "ccc" in R && G["ccc"] == ["ddd", "eee", "fff"] && "ccc" != "out"
  {
  }

  lemma YouOutputs()
    ensures "you" in G && "you" in R && G["you"] == ["bbb", "ccc"] && "you" != "out"
  {
  }

  lemma ExamplePaths()
    ensures Ranked(G, R, "out") && Within(G, R, "out", "you") && Paths(G, R, "you", "out") == 5
  {
    ExampleRanked();
    BbbCount();
    CccCount();
    YouOutputs();
    Through2(G, R, "you", "bbb", "ccc", "out");
  }

  // ------------------------------------------------------------ the second example

  /** The second example device list. */
  const G2: Graph := map["svr" := ["aaa", "bbb"], "aaa" := ["fft"], "fft" := ["ccc"], "bbb" := ["tty"],
    "tty" := ["ccc"], "ccc" := ["ddd", "eee"], "ddd" := ["hub"], "hub" := ["fff"], "eee" := ["dac"],
    "dac" := ["fff"], "fff" := ["ggg", "hhh"], "ggg" := ["out"], "hhh" := ["out"]]
  /** A ranking witnessing that the second example has no cycle. */
  const R2: map<Node, nat> := map["svr" := 8, "aaa" := 7, "bbb" := 7, "fft" := 6, "tty" := 6,
    "ccc" := 5, "ddd" := 4, "eee" := 4, "hub" := 3, "dac" := 3, "fff" := 2, "ggg" := 1, "hhh" := 1]
  /** The devices every counted path must visit. */
  const Req: set<Node> := {"dac", "fft"}

  lemma Example2Ranked()
    ensures Ranked(G2, R2, "out")
  {
    assert G2.Keys == {"svr", "aaa", "fft", "bbb", "tty", "ccc", "ddd", "hub", "eee", "dac", "fff", "ggg", "hhh"};
    forall u | u in R2 && u in G2 && u != "out" ensures forall v :: v in G2[u] && v in G2 ==> v in R2 && R2[v] < R2[u] {
      if u in {"svr", "ccc", "fff"} {
        Ranked2Fork(u);
      } else if u in {"aaa", "fft", "bbb", "tty", "ddd"} {
        Ranked2Upper(u);
      } else {
        Ranked2Lower(u);
      }
    }
  }

  lemma Ranked2Fork(u: Node)
    requires u in {"svr", "ccc", "fff"}
    ensures u in G2 && u in R2 && forall v :: v in G2[u] && v in G2 ==> v in R2 && R2[v] < R2[u]
  {
    if u == "svr" {
      assert G2[u] == ["aaa", "bbb"];
    } else if u == "ccc" {
      assert G2[u] == ["ddd", "eee"];
    } else {
      assert G2[u] == ["ggg", "hhh"];
    }
  }

  lemma Ranked2Upper(u: Node)
    requires u in {"aaa", "fft", "bbb", "tty", "ddd"}
    ensures u in G2 && u in R2 && forall v :: v in G2[u] && v in G2 ==> v in R2 && R2[v] < R2[u]
  {
    if u == "aaa" {
      assert G2[u] == ["fft"];
    } else if u == "fft" || u == "tty" {
      assert G2[u] == ["ccc"];
    } else if u == "bbb" {
      assert G2[u] == ["tty"];
    } else {
      assert G2[u] == ["hub"];
    }
  }

  lemma Ranked2Lower(u: Node)
    requires u in {"hub", "eee", "dac", "ggg", "hhh"}
    ensures u in G2 && u in R2 && forall v :: v in G2[u] && v in G2 ==> v in R2 && R2[v] < R2[u]
  {
    if u == "hub" || u == "dac" {
      assert G2[u] == ["fff"];
    } else if u == "eee" {
      assert G2[u] == ["dac"];
    } else {
      assert G2[u] == ["out"];
    }
  }

  /** The required-device count through a device with one or two outputs,
      `visited'` being the set passed on from `s`. */
  lemma ThroughReq1(g: Graph, rank: map<Node, nat>, s: Node, a: Node, end: Node, required: set<Node>, visited: set<Node>, visited': set<Node>)
    requires Ranked(g, rank, end) && s in rank && s in g && s != end && g[s] == [a]
    requires visited' == Visit(s, required, visited)
    ensures Within(g, rank, end, a)
    ensures PathsReq(g, rank, s, end, required, visited) == PathsReq(g, rank, a, end, required, visited')
  {
    HeightDecreases(g, rank, end, s);
    assert [a][..0] == [];
    assert SumReq(g, rank, [a], end, required, visited', Height(g, rank, s)) == PathsReq(g, rank, a, end, required, visited');
  }

  lemma ThroughReq2(g: Graph, rank: map<Node, nat>, s: Node, a: Node, b: Node, end: Node, required: set<Node>, visited: set<Node>, visited': set<Node>)
    requires Ranked(g, rank, end) && s in rank && s in g && s != end && g[s] == [a, b]
    requires visited' == Visit(s, required, visited)
    ensures Within(g, rank, end, a) && Within(g, rank, end, b)
    ensures PathsReq(g, rank, s, end, required, visited)
            == PathsReq(g, rank, a, end, required, visited') + PathsReq(g, rank, b, end, required, visited')
  {
    HeightDecreases(g, rank, end, s);
    var h := Height(g, rank, s);
    assert [a, b][..1] == [a];
    assert [a][..0] == [];
    assert SumReq(g, rank, [a], end, required, visited', h) == PathsReq(g, rank, a, end, required, visited');
  }

  /** The devices of the second example with a single output. */
  lemma Single2(u: Node, v: Node)
    requires (u, v) in {("aaa", "fft"), ("fft", "ccc"), ("bbb", "tty"), ("tty", "ccc")}
    ensures u in G2 && u in R2 && u != "out" && G2[u] == [v]
    ensures u != "fft" ==> Visit(u, Req, {}) == {}
  {
  }

  /** From `fff` on, the visited set no longer changes: both paths count
      exactly when it is already complete. */
  lemma FffCount(visited: set<Node>)
    requires Ranked(G2, R2, "out")
    ensures PathsReq(G2, R2, "fff", "out", Req, visited) == if visited == Req then 2 else 0
  {
    assert G2["fff"] == ["ggg", "hhh"] && G2["ggg"] == ["out"] && G2["hhh"] == ["out"];
    ThroughReq2(G2, R2, "fff", "ggg", "hhh", "out", Req, visited, visited);
    ThroughReq1(G2, R2, "ggg", "out", "out", Req, visited, visited);
    ThroughReq1(G2, R2, "hhh", "out", "out", Req, visited, visited);
  }

  /** Through `ddd` and `hub` nothing is added to the visited set. */
  lemma DddReqCount(visited: set<Node>)
    requires Ranked(G2, R2, "out")
    ensures PathsReq(G2, R2, "ddd", "out", Req, visited) == if visited == Req then 2 else 0
  {
    assert G2["ddd"] == ["hub"] && G2["hub"] == ["fff"];
    assert Visit("ddd", Req, visited) == visited && Visit("hub", Req, visited) == visited;
    ThroughReq1(G2, R2, "ddd", "hub", "out", Req, visited, visited);
    ThroughReq1(G2, R2, "hub", "fff", "out", Req, visited, visited);
    FffCount(visited);
  }

  /** Through `eee` the path meets `dac`. */
  lemma EeeReqCount(visited: set<Node>)
    requires Ranked(G2, R2, "out")
    ensures PathsReq(G2, R2, "eee", "out", Req, visited) == if visited + {"dac"} == Req then 2 else 0
  {
    assert G2["eee"] == ["dac"] && G2["dac"] == ["fff"];
    assert Visit("eee", Req, visited) == visited && Visit("dac", Req, visited) == visited + {"dac"};
    ThroughReq1(G2, R2, "eee", "dac", "out", Req, visited, visited);
    ThroughReq1(G2, R2, "dac", "fff", "out", Req, visited, visited + {"dac"});
    FffCount(visited + {"dac"});
  }

  /** From `ccc`, one branch passes `dac` and the other does not. */
  lemma CccReqCount(visited: set<Node>)
    requires Ranked(G2, R2, "out")
    ensures PathsReq(G2, R2, "ccc", "out", Req, visited)
            == (if visited == Req then 2 else 0) + (if visited + {"dac"} == Req then 2 else 0)
  {
    assert G2["ccc"] == ["ddd", "eee"];
    assert Visit("ccc", Req, visited) == visited;
    ThroughReq2(G2, R2, "ccc", "ddd", "eee", "out", Req, visited, visited);
    DddReqCount(visited);
    EeeReqCount(visited);
  }

  /** `fft` is the first required device on its branch. */
  lemma FftReqCount()
    requires Ranked(G2, R2, "out")
    ensures PathsReq(G2, R2, "fft", "out", Req, {}) == 2
  {
    Single2("fft", "ccc");
    assert Visit("fft", Req, {}) == {"fft"};
    ThroughReq1(G2, R2, "fft", "ccc", "out", Req, {}, {"fft"});
    CccReqCount({"fft"});
    assert {"fft"} != Req && {"fft"} + {"dac"} == Req;
  }

  /** `tty` is not required and `ccc` alone cannot complete the set. */
  lemma TtyReqCount()
    requires Ranked(G2, R2, "out")
    ensures PathsReq(G2, R2, "tty", "out", Req, {}) == 0
  {
    Single2("tty", "ccc");
    ThroughReq1(G2, R2, "tty", "ccc", "out", Req, {}, {});
    CccReqCount({});
    assert {} != Req && {} + {"dac"} != Req;
  }

  /** The branch through `aaa` meets both required devices on two paths. */
  lemma AaaReqCount()
    requires Ranked(G2, R2, "out")
    ensures PathsReq(G2, R2, "aaa", "out", Req, {}) == 2
  {
    Single2("aaa", "fft");
    ThroughReq1(G2, R2, "aaa", "fft", "out", Req, {}, {});
    FftReqCount();
  }

  /** The branch through `bbb` never meets `fft`. */
  lemma BbbReqCount()
    requires Ranked(G2, R2, "out")
    ensures PathsReq(G2, R2, "bbb", "out", Req, {}) == 0
  {
    Single2("bbb", "tty");
    ThroughReq1(G2, R2, "bbb", "tty", "out", Req, {}, {});
    TtyReqCount();
  }

  lemma SvrOutputs()
    ensures "svr" in G2 && "svr" in R2 && G2["svr"] == ["aaa", "bbb"] && "svr" != "out" && "svr" !in Req
  {
  }

  lemma Example2Paths()
    ensures Ranked(G2, R2, "out") && Within(G2, R2, "out", "svr")
    ensures PathsReq(G2, R2, "svr", "out", Req, {}) == 2
  {
    Example2Ranked();
    SvrOutputs();
    ThroughReq2(G2, R2, "svr", "aaa", "bbb", "out", Req, {}, {});
    AaaReqCount();
    BbbReqCount();
  }

  // ------------------------------------------------------------ cycles the search never enters

  /** `a` and `b` lead to each other, but nothing leads to them from `you`:
      the ranking leaves them out and the count is 1. */
  lemma UnreachableCycle()
    ensures var g: Graph := map["you" := ["out"], "a" := ["b"], "b" := ["a"]];
      Ranked(g, map["you" := 0], "out") && Within(g, map["you" := 0], "out", "you")
      && Paths(g, map["you" := 0], "you", "out") == 1
  {
    var g: Graph := map["you" := ["out"], "a" := ["b"], "b" := ["a"]];
    Through1(g, map["you" := 0], "you", "out", "out");
  }

  /** `out` leads back to `you`, but the search stops at `out`: the count is 1. */
  lemma CycleThroughEnd()
    ensures var g: Graph := map["you" := ["out"], "out" := ["you"]];
      Ranked(g, map["you" := 1, "out" := 0], "out") && Within(g, map["you" := 1, "out" := 0], "out", "you")
      && Paths(g, map["you" := 1, "out" := 0], "you", "out") == 1
  {
    var g: Graph := map["you" := ["out"], "out" := ["you"]];
    Through1(g, map["you" := 1, "out" := 0], "you", "out", "out");
  }
}
