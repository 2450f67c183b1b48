/** Small shared vocabulary: an optional value, integer helpers, and the
    size of a closed integer interval. */
module Common {

  /** A value that may be absent, used where the Python code would raise. */
  datatype Option<T> = None | Some(value: T)

  function Abs(x: int): (r: nat)
    ensures r == x || r == -x
  {
    if x < 0 then -x else x
  }

  function Max(a: int, b: int): (r: int)
    ensures r >= a && r >= b && (r == a || r == b)
  {
    if a >= b then a else b
  }

  function Min(a: int, b: int): (r: int)
    ensures r <= a && r <= b && (r == a || r == b)
  {
    if a <= b then a else b
  }

  /** The integers lo, lo+1, ..., hi. */
  function Interval(lo: int, hi: int): (s: set<int>)
    ensures forall x :: x in s <==> lo <= x <= hi
    decreases hi - lo
  {
    if hi < lo then {} else Interval(lo, hi - 1) + {hi}
  }

  /** The closed interval [lo, hi] holds hi - lo + 1 integers (none when hi < lo). */
  lemma {:induction false} IntervalSize(lo: int, hi: int)
    ensures |Interval(lo, hi)| == if hi < lo then 0 else hi - lo + 1
    decreases hi - lo
  {
    if hi < lo {
      assert Interval(lo, hi) == {};
    } else {
      IntervalSize(lo, hi - 1);
      assert Interval(lo, hi) == Interval(lo, hi - 1) + {hi};
      assert hi !in Interval(lo, hi - 1);
    }
  }

  /** Every element maps to a present value. */
  predicate AllSome<S, T>(xs: seq<S>, f: S -> Option<T>)
  {
    forall i :: 0 <= i < |xs| ==> f(xs[i]).Some?
  }

  /** The values f gives the elements, in order. */
  function Values<S, T>(xs: seq<S>, f: S -> Option<T>): (r: seq<T>)
    requires AllSome(xs, f)
    ensures |r| == |xs| && forall i :: 0 <= i < |xs| ==> f(xs[i]) == Some(r[i])
  {
    if xs == [] then [] else [f(xs[0]).value] + Values(xs[1..], f)
  }

  /** Applies `f` to each element in turn and stops at the first failure. */
  method ParseAll<S, T>(xs: seq<S>, f: S -> Option<T>) returns (r: Option<seq<T>>)
    ensures r.Some? <==> AllSome(xs, f)
    ensures r.Some? ==> r.value == Values(xs, f)
  {
    var acc: seq<T> := [];
    for i := 0 to |xs|
      invariant |acc| == i
      invariant forall k :: 0 <= k < i ==> f(xs[k]) == Some(acc[k])
    {
      var v := f(xs[i]);
      if v.None? {
        return None;
      }
      acc := acc + [v.value];
    }
    ValuesUnique(xs, f, acc);
    r := Some(acc);
  }

  lemma ValuesUnique<S, T>(xs: seq<S>, f: S -> Option<T>, vs: seq<T>)
    requires |vs| == |xs| && forall k :: 0 <= k < |xs| ==> f(xs[k]) == Some(vs[k])
    ensures AllSome(xs, f) && Values(xs, f) == vs
  {
    var r := Values(xs, f);
    assert forall k :: 0 <= k < |xs| ==> Some(r[k]) == Some(vs[k]);
  }

  /** A dictionary built by assigning each (key, value) pair in turn, so the
      last pair for a key wins. */
  function ToMap<K, V>(es: seq<(K, V)>): map<K, V>
  {
    if es == [] then map[] else ToMap(es[..|es| - 1])[es[|es| - 1].0 := es[|es| - 1].1]
  }

  /** A key is present exactly when some pair has it. */
  lemma {:induction false} ToMapKeys<K, V>(es: seq<(K, V)>, k: K)
    ensures k in ToMap(es) <==> exists i :: 0 <= i < |es| && es[i].0 == k
  {
    if es != [] {
      var init := es[..|es| - 1];
      ToMapKeys(init, k);
      if k != es[|es| - 1].0 {
        if k in ToMap(es) {
          var i :| 0 <= i < |init| && init[i].0 == k;
          assert es[i].0 == k;
        } else {
          forall i | 0 <= i < |es| ensures es[i].0 != k {
            if i < |init| {
              assert init[i] == es[i];
            }
          }
        }
      }
    }
  }

  /** A key maps to the value of its last pair. */
  lemma {:induction false} ToMapLast<K, V>(es: seq<(K, V)>, i: nat)
    requires i < |es| && forall j :: i < j < |es| ==> es[j].0 != es[i].0
    ensures es[i].0 in ToMap(es) && ToMap(es)[es[i].0] == es[i].1
  {
    if i < |es| - 1 {
      var init := es[..|es| - 1];
      ToMapLast(init, i);
    }
  }
  /** `list(s)` for a set: every element once, in an order the set does not fix. */
  method SetToSeq<T(==)>(s: set<T>) returns (xs: seq<T>)
    ensures forall x :: x in xs <==> x in s
    ensures forall i, j :: 0 <= i < j < |xs| ==> xs[i] != xs[j]
    ensures |xs| == |s|
  {
    xs := [];
    var rest := s;
    while rest != {}
      invariant rest <= s
      invariant forall x :: x in xs <==> x in s && x !in rest
      invariant forall i, j :: 0 <= i < j < |xs| ==> xs[i] != xs[j]
      invariant |xs| + |rest| == |s|
      decreases |rest|
    {
      var x :| x in rest;
      xs := xs + [x];
      rest := rest - {x};
    }
  }
}
