/**
 The epsilon-closure and the one-symbol step of the NFA simulation, as functions
 on values.  A set of visited states stands for the states whose mark equals the
 current generation; the simulator's methods are proved equal to these functions.

 The meaning of a closure is given independently: EpsClosure(sts, roots) is the
 least set of states that contains the roots and, with every split state it
 holds, both of that state's successors.
 */
module Closure {
  import opened Automaton

  /** The states not yet visited: shrinks with every state a closure visits. */
  function Unvisited(sts: seq<State>, m: set<int>): set<int>
  {
    set i | 0 <= i < |sts| && i !in m
  }

  /** The non-split states of an arena: the only ones a state set can hold. */
  function NonSplit(sts: seq<State>): set<int>
  {
    set i | 0 <= i < |sts| && !IsSplit(sts[i])
  }

  /** With every split state it holds, `x` holds that state's non-null successors. */
  ghost predicate SplitClosed(sts: seq<State>, x: set<int>)
  {
    forall i :: i in x && 0 <= i < |sts| && IsSplit(sts[i]) ==>
      (sts[i].t1 == NULL || sts[i].t1 in x) && (sts[i].t2 == NULL || sts[i].t2 in x)
  }

  /** The states reachable from `roots` through split states: the least split-closed set holding the roots. */
  ghost function EpsClosure(sts: seq<State>, roots: set<int>): set<int>
  {
    set i | 0 <= i < |sts| && InEveryClosed(sts, roots, i)
  }

  ghost predicate InEveryClosed(sts: seq<State>, roots: set<int>, i: int)
  {
    forall x :: SplitClosed(sts, x) && roots <= x ==> i in x
  }

  /** The non-null entries of a list of roots. */
  function RootSet(roots: seq<int>): set<int>
  {
    set k | 0 <= k < |roots| && roots[k] != NULL :: roots[k]
  }

  lemma RootSetSingle(s: int)
    ensures RootSet([s]) == if s == NULL then {} else {s}
  {
    if s != NULL {
      assert [s][0] == s;
    }
  }

  lemma RootSetConcat(t: seq<int>, u: seq<int>)
    ensures RootSet(t + u) == RootSet(t) + RootSet(u)
  {
    forall y | y in RootSet(t + u) ensures y in RootSet(t) + RootSet(u) {
      var k :| 0 <= k < |t + u| && (t + u)[k] != NULL && (t + u)[k] == y;
      if k >= |t| {
        assert u[k - |t|] == y;
      }
    }
    forall y | y in RootSet(t) + RootSet(u) ensures y in RootSet(t + u) {
      if y in RootSet(t) {
        var k :| 0 <= k < |t| && t[k] != NULL && t[k] == y;
        assert (t + u)[k] == y;
      } else {
        var k :| 0 <= k < |u| && u[k] != NULL && u[k] == y;
        assert (t + u)[|t| + k] == y;
      }
    }
  }

  ghost predicate InRange(sts: seq<State>, m: set<int>)
  {
    forall i :: i in m ==> 0 <= i < |sts|
  }

  /** Every entry is the index of a state. */
  ghost predicate Members(sts: seq<State>, xs: seq<int>)
  {
    forall k :: 0 <= k < |xs| ==> 0 <= xs[k] < |sts|
  }

  ghost predicate RootsIn(sts: seq<State>, roots: seq<int>)
  {
    forall k :: 0 <= k < |roots| ==> -1 <= roots[k] < |sts|
  }

  /**
   Depth-first closure of `s` given the visited set `m`: returns the new visited
   set and the non-split states newly reached, in visiting order.  A state is
   visited before its successors, and a split's first successor before its second.
   */
  function Dfs(sts: seq<State>, m: set<int>, s: int): (r: (set<int>, seq<int>))
    requires WellFormed(sts) && InRange(sts, m) && -1 <= s < |sts|
    ensures m <= r.0 && InRange(sts, r.0)
    decreases Unvisited(sts, m)
  {
    if s == NULL || s in m then (m, [])
    else if IsSplit(sts[s]) then
      assert s in Unvisited(sts, m);
      var r1 := Dfs(sts, m + {s}, sts[s].t1);
      var r2 := Dfs(sts, r1.0, sts[s].t2);
      (r2.0, r1.1 + r2.1)
    else (m + {s}, [s])
  }

  /** Closure of each root in turn, sharing one visited set. */
  function AddAll(sts: seq<State>, m: set<int>, roots: seq<int>): (r: (set<int>, seq<int>))
    requires WellFormed(sts) && InRange(sts, m) && RootsIn(sts, roots)
    ensures m <= r.0 && InRange(sts, r.0)
  {
    if roots == [] then (m, [])
    else
      var r1 := AddAll(sts, m, roots[..|roots| - 1]);
      var r2 := Dfs(sts, r1.0, roots[|roots| - 1]);
      (r2.0, r1.1 + r2.1)
  }

  /** The first transitions of the states of `current` whose range holds `symbol`, in order. */
  function StepTargets(sts: seq<State>, current: seq<int>, symbol: int): (r: seq<int>)
    requires WellFormed(sts)
    ensures RootsIn(sts, r)
  {
    if current == [] then []
    else
      var s := current[|current| - 1];
      StepTargets(sts, current[..|current| - 1], symbol) + (if 0 <= s < |sts| && CheckStateOut(symbol, sts[s]) then [sts[s].t1] else [])
  }

  /** Extending `current` by one member extends the targets by its first transition, when its range holds the symbol. */
  lemma StepTargetsSnoc(sts: seq<State>, current: seq<int>, i: int, symbol: int)
    requires WellFormed(sts) && Members(sts, current) && 0 <= i < |current|
    ensures StepTargets(sts, current[..i + 1], symbol) ==
      StepTargets(sts, current[..i], symbol) + (if CheckStateOut(symbol, sts[current[i]]) then [sts[current[i]].t1] else [])
  {
    assert current[..i + 1][..i] == current[..i];
  }

  /** Closing one more root continues from the visited set the earlier roots left. */
  lemma AddAllSnoc(sts: seq<State>, m: set<int>, roots: seq<int>, s: int)
    requires WellFormed(sts) && InRange(sts, m) && RootsIn(sts, roots) && -1 <= s < |sts|
    ensures RootsIn(sts, roots + [s])
    ensures var r1 := AddAll(sts, m, roots);
      var r2 := Dfs(sts, r1.0, s);
      AddAll(sts, m, roots + [s]) == (r2.0, r1.1 + r2.1)
  {
    assert (roots + [s])[..|roots|] == roots;
  }

  /** Closing the roots `xs` and then `ys` lists at least the states closing `xs` alone lists. */
  lemma {:induction false} AddAllGrows(sts: seq<State>, m: set<int>, xs: seq<int>, ys: seq<int>)
    requires WellFormed(sts) && InRange(sts, m) && RootsIn(sts, xs + ys)
    ensures RootsIn(sts, xs)
    ensures |AddAll(sts, m, xs).1| <= |AddAll(sts, m, xs + ys).1|
    decreases |ys|
  {
    forall k | 0 <= k < |xs| ensures -1 <= xs[k] < |sts| {
      assert (xs + ys)[k] == xs[k];
    }
    if ys == [] {
      assert xs + ys == xs;
    } else {
      var init := ys[..|ys| - 1];
      assert (xs + ys)[..|xs + ys| - 1] == xs + init;
      AddAllGrows(sts, m, xs, init);
    }
  }

  /** Closing a prefix of the roots lists no more states than closing them all. */
  lemma AddAllPrefixShorter(sts: seq<State>, m: set<int>, roots: seq<int>, i: int)
    requires WellFormed(sts) && InRange(sts, m) && RootsIn(sts, roots) && 0 <= i <= |roots|
    ensures RootsIn(sts, roots[..i])
    ensures |AddAll(sts, m, roots[..i]).1| <= |AddAll(sts, m, roots).1|
  {
    assert roots[..i] + roots[i..] == roots;
    AddAllGrows(sts, m, roots[..i], roots[i..]);
  }

  /** Root i continues the closure of the roots before it, and what they list fits in the closure of all of them. */
  lemma AddAllBuildSnoc(sts: seq<State>, roots: seq<int>, i: int)
    requires WellFormed(sts) && RootsIn(sts, roots) && 0 <= i < |roots|
    ensures RootsIn(sts, roots[..i])
    ensures var before := AddAll(sts, {}, roots[..i]);
      var d := Dfs(sts, before.0, roots[i]);
      AddAll(sts, {}, roots[..i + 1]) == (d.0, before.1 + d.1) && |before.1| + |d.1| <= |AddAll(sts, {}, roots).1|
  {
    assert roots[..i + 1] == roots[..i] + [roots[i]];
    AddAllSnoc(sts, {}, roots[..i], roots[i]);
    AddAllPrefixShorter(sts, {}, roots, i + 1);
  }

  /** The targets of a prefix of `current` are a prefix of the targets of `current`. */
  lemma {:induction false} StepTargetsPrefix(sts: seq<State>, current: seq<int>, i: int, symbol: int)
    returns (more: seq<int>)
    requires WellFormed(sts) && Members(sts, current) && 0 <= i <= |current|
    ensures StepTargets(sts, current, symbol) == StepTargets(sts, current[..i], symbol) + more
    decreases |current| - i
  {
    if i == |current| {
      assert current[..i] == current;
      more := [];
    } else {
      var rest := StepTargetsPrefix(sts, current, i + 1, symbol);
      StepTargetsSnoc(sts, current, i, symbol);
      more := (if CheckStateOut(symbol, sts[current[i]]) then [sts[current[i]].t1] else []) + rest;
    }
  }

  /** The state set after reading `symbol`: a fresh generation, then the closures of the step targets. */
  function Step(sts: seq<State>, current: seq<int>, symbol: int): seq<int>
    requires WellFormed(sts)
  {
    AddAll(sts, {}, StepTargets(sts, current, symbol)).1
  }

  /** Stepping a prefix of `current` lists no more states than stepping all of it. */
  lemma StepPrefixShorter(sts: seq<State>, current: seq<int>, i: int, symbol: int)
    requires WellFormed(sts) && Members(sts, current) && 0 <= i <= |current|
    ensures |AddAll(sts, {}, StepTargets(sts, current[..i], symbol)).1| <= |Step(sts, current, symbol)|
  {
    var more := StepTargetsPrefix(sts, current, i, symbol);
    AddAllGrows(sts, {}, StepTargets(sts, current[..i], symbol), more);
  }

  /**
   One more member of `current` either closes its first successor into the
   set built so far, or leaves it alone; either way the set built so far
   fits in the full step.
   */
  lemma StepBuildSnoc(sts: seq<State>, current: seq<int>, i: int, symbol: int)
    requires WellFormed(sts) && Members(sts, current) && 0 <= i < |current|
    ensures var before := AddAll(sts, {}, StepTargets(sts, current[..i], symbol));
      var after := AddAll(sts, {}, StepTargets(sts, current[..i + 1], symbol));
      var s := current[i];
      if CheckStateOut(symbol, sts[s]) then
        var d := Dfs(sts, before.0, sts[s].t1);
        after == (d.0, before.1 + d.1) && |before.1| + |d.1| <= |Step(sts, current, symbol)|
      else after == before
  {
    var s := current[i];
    var targets := StepTargets(sts, current[..i], symbol);
    StepTargetsSnoc(sts, current, i, symbol);
    if CheckStateOut(symbol, sts[s]) {
      AddAllSnoc(sts, {}, targets, sts[s].t1);
      StepPrefixShorter(sts, current, i + 1, symbol);
    } else {
      assert targets + [] == targets;
    }
  }

  // ---------------------------------------------------------------------------
  // What Dfs computes

  lemma {:induction false} DfsAdded(sts: seq<State>, m: set<int>, s: int)
    requires WellFormed(sts) && InRange(sts, m) && -1 <= s < |sts|
    ensures var r := Dfs(sts, m, s);
      && (forall x :: x in r.1 ==> x in r.0 && x !in m && 0 <= x < |sts| && !IsSplit(sts[x]))
      && (forall x :: x in r.0 && x !in m && !IsSplit(sts[x]) ==> x in r.1)
      && Distinct(r.1)
      && (s != NULL ==> s in r.0)
    decreases Unvisited(sts, m)
  {
    if s == NULL || s in m {
    } else if IsSplit(sts[s]) {
      var r1 := Dfs(sts, m + {s}, sts[s].t1);
      assert s in Unvisited(sts, m);
      DfsAdded(sts, m + {s}, sts[s].t1);
      DfsAdded(sts, r1.0, sts[s].t2);
      var r2 := Dfs(sts, r1.0, sts[s].t2);
      DistinctConcat(r1.1, r2.1);
    } else {
    }
  }

  /** Every split state Dfs newly visits has its successors visited too. */
  lemma {:induction false} DfsClosesNew(sts: seq<State>, m: set<int>, s: int)
    requires WellFormed(sts) && InRange(sts, m) && -1 <= s < |sts|
    ensures var r := Dfs(sts, m, s);
      forall i :: i in r.0 && i !in m && IsSplit(sts[i]) ==>
        (sts[i].t1 == NULL || sts[i].t1 in r.0) && (sts[i].t2 == NULL || sts[i].t2 in r.0)
    decreases Unvisited(sts, m)
  {
    if s == NULL || s in m {
    } else if IsSplit(sts[s]) {
      var r1 := Dfs(sts, m + {s}, sts[s].t1);
      assert s in Unvisited(sts, m);
      DfsClosesNew(sts, m + {s}, sts[s].t1);
      DfsClosesNew(sts, r1.0, sts[s].t2);
      DfsAdded(sts, m + {s}, sts[s].t1);
      DfsAdded(sts, r1.0, sts[s].t2);
    } else {
    }
  }

  /** Dfs newly visits only states of any split-closed set that holds its start. */
  lemma {:induction false} DfsWithin(sts: seq<State>, m: set<int>, s: int, x: set<int>)
    requires WellFormed(sts) && InRange(sts, m) && -1 <= s < |sts|
    requires SplitClosed(sts, x) && (s == NULL || s in x)
    ensures Dfs(sts, m, s).0 - m <= x
    decreases Unvisited(sts, m)
  {
    if s == NULL || s in m {
    } else if IsSplit(sts[s]) {
      var r1 := Dfs(sts, m + {s}, sts[s].t1);
      assert s in Unvisited(sts, m);
      DfsWithin(sts, m + {s}, sts[s].t1, x);
      DfsWithin(sts, r1.0, sts[s].t2, x);
    } else {
    }
  }

  // ---------------------------------------------------------------------------
  // The closure

  lemma EpsClosureLeast(sts: seq<State>, roots: set<int>, x: set<int>)
    requires SplitClosed(sts, x) && roots <= x
    ensures EpsClosure(sts, roots) <= x
  {
  }

  lemma EpsClosureHoldsRoots(sts: seq<State>, roots: set<int>)
    requires InRange(sts, roots)
    ensures roots <= EpsClosure(sts, roots)
  {
  }

  lemma EpsClosureClosed(sts: seq<State>, roots: set<int>)
    requires WellFormed(sts)
    ensures SplitClosed(sts, EpsClosure(sts, roots))
  {
    var c := EpsClosure(sts, roots);
    forall i | i in c && 0 <= i < |sts| && IsSplit(sts[i])
      ensures (sts[i].t1 == NULL || sts[i].t1 in c) && (sts[i].t2 == NULL || sts[i].t2 in c)
    {
      forall x | SplitClosed(sts, x) && roots <= x ensures sts[i].t1 == NULL || sts[i].t1 in x {
        assert i in x;
      }
      forall x | SplitClosed(sts, x) && roots <= x ensures sts[i].t2 == NULL || sts[i].t2 in x {
        assert i in x;
      }
    }
  }

  /** The closure of a union is the union of the closures. */
  lemma EpsClosureUnion(sts: seq<State>, a: set<int>, b: set<int>)
    requires WellFormed(sts) && InRange(sts, a) && InRange(sts, b)
    ensures EpsClosure(sts, a + b) == EpsClosure(sts, a) + EpsClosure(sts, b)
  {
    var ca, cb, cab := EpsClosure(sts, a), EpsClosure(sts, b), EpsClosure(sts, a + b);
    EpsClosureClosed(sts, a);
    EpsClosureClosed(sts, b);
    EpsClosureClosed(sts, a + b);
    EpsClosureHoldsRoots(sts, a);
    EpsClosureHoldsRoots(sts, b);
    EpsClosureHoldsRoots(sts, a + b);
    EpsClosureLeast(sts, a, cab);
    EpsClosureLeast(sts, b, cab);
    EpsClosureLeast(sts, a + b, ca + cb);
  }

  /** From a split-closed visited set, Dfs adds exactly the closure of its start. */
  lemma DfsIsClosure(sts: seq<State>, m: set<int>, s: int)
    requires WellFormed(sts) && InRange(sts, m) && -1 <= s < |sts|
    requires SplitClosed(sts, m)
    ensures var roots := if s == NULL then {} else {s};
      Dfs(sts, m, s).0 == m + EpsClosure(sts, roots) && SplitClosed(sts, Dfs(sts, m, s).0)
  {
    var roots := if s == NULL then {} else {s};
    var r := Dfs(sts, m, s);
    var c := EpsClosure(sts, roots);
    DfsAdded(sts, m, s);
    DfsClosesNew(sts, m, s);
    assert SplitClosed(sts, r.0);
    EpsClosureLeast(sts, roots, r.0);
    EpsClosureClosed(sts, roots);
    EpsClosureHoldsRoots(sts, roots);
    assert SplitClosed(sts, m + c);
    DfsWithin(sts, m, s, m + c);
  }

  /** AddAll from nothing visits exactly the closure of the roots, and lists its non-split states once each. */
  lemma {:induction false} AddAllIsClosure(sts: seq<State>, roots: seq<int>)
    requires WellFormed(sts) && RootsIn(sts, roots)
    ensures var r := AddAll(sts, {}, roots);
      && r.0 == EpsClosure(sts, RootSet(roots))
      && SplitClosed(sts, r.0)
      && (forall x :: x in r.1 <==> x in r.0 && !IsSplit(sts[x]))
      && Distinct(r.1)
  {
    if roots == [] {
      assert RootSet(roots) == {};
      assert SplitClosed(sts, {});
      EpsClosureLeast(sts, {}, {});
    } else {
      var init := roots[..|roots| - 1];
      var s := roots[|roots| - 1];
      AddAllIsClosure(sts, init);
      assert roots == init + [s];
      ClosureSnoc(sts, init, s);
    }
  }

  /** Closing one more root from the closure of `init` gives the closure of both, its non-split states listed once each. */
  lemma ClosureSnoc(sts: seq<State>, init: seq<int>, s: int)
    requires WellFormed(sts) && RootsIn(sts, init) && -1 <= s < |sts|
    requires var r := AddAll(sts, {}, init);
      && r.0 == EpsClosure(sts, RootSet(init))
      && SplitClosed(sts, r.0)
      && (forall x :: x in r.1 <==> x in r.0 && !IsSplit(sts[x]))
      && Distinct(r.1)
    ensures RootsIn(sts, init + [s])
    ensures var r := AddAll(sts, {}, init + [s]);
      && r.0 == EpsClosure(sts, RootSet(init + [s]))
      && SplitClosed(sts, r.0)
      && (forall x :: x in r.1 <==> x in r.0 && !IsSplit(sts[x]))
      && Distinct(r.1)
  {
    var r1 := AddAll(sts, {}, init);
    AddAllSnoc(sts, {}, init, s);
    DfsIsClosure(sts, r1.0, s);
    DfsAdded(sts, r1.0, s);
    var single := if s == NULL then {} else {s};
    RootSetConcat(init, [s]);
    RootSetSingle(s);
    assert InRange(sts, RootSet(init));
    EpsClosureUnion(sts, RootSet(init), single);
    var r2 := Dfs(sts, r1.0, s);
    DistinctConcat(r1.1, r2.1);
  }

  // ---------------------------------------------------------------------------
  // What a step computes

  /** The set of states entered by reading `symbol`: first successors of the members whose range holds it. */
  ghost function Entered(sts: seq<State>, current: seq<int>, symbol: int): set<int>
    requires Members(sts, current)
  {
    set k | 0 <= k < |current| && CheckStateOut(symbol, sts[current[k]]) && sts[current[k]].t1 != NULL
      :: sts[current[k]].t1
  }

  lemma {:induction false} StepTargetsEntered(sts: seq<State>, current: seq<int>, symbol: int)
    requires WellFormed(sts) && Members(sts, current)
    ensures RootSet(StepTargets(sts, current, symbol)) == Entered(sts, current, symbol)
  {
    if current != [] {
      var init := current[..|current| - 1];
      var s := current[|current| - 1];
      StepTargetsEntered(sts, init, symbol);
      var tail := if CheckStateOut(symbol, sts[s]) then [sts[s].t1] else [];
      var t := StepTargets(sts, init, symbol);
      assert StepTargets(sts, current, symbol) == t + tail;
      RootSetConcat(t, tail);
      if CheckStateOut(symbol, sts[s]) {
        RootSetSingle(sts[s].t1);
      }
      EnteredSnoc(sts, current, symbol);
    }
  }

  /** Entering from one more member adds its first successor, when its range holds the symbol. */
  lemma EnteredSnoc(sts: seq<State>, current: seq<int>, symbol: int)
    requires Members(sts, current) && current != []
    ensures var s := current[|current| - 1];
      Entered(sts, current, symbol) == Entered(sts, current[..|current| - 1], symbol)
        + (if CheckStateOut(symbol, sts[s]) && sts[s].t1 != NULL then {sts[s].t1} else {})
  {
    var init := current[..|current| - 1];
    var s := current[|current| - 1];
    var news := if CheckStateOut(symbol, sts[s]) && sts[s].t1 != NULL then {sts[s].t1} else {};
    forall y | y in Entered(sts, current, symbol) ensures y in Entered(sts, init, symbol) + news {
      var k :| 0 <= k < |current| && CheckStateOut(symbol, sts[current[k]]) && sts[current[k]].t1 != NULL
        && sts[current[k]].t1 == y;
      if k < |init| {
        assert current[k] == init[k];
      }
    }
    forall y | y in Entered(sts, init, symbol) ensures y in Entered(sts, current, symbol) {
      var k :| 0 <= k < |init| && CheckStateOut(symbol, sts[init[k]]) && sts[init[k]].t1 != NULL
        && sts[init[k]].t1 == y;
      assert current[k] == init[k];
    }
    forall y | y in news ensures y in Entered(sts, current, symbol) {
      assert current[|current| - 1] == s;
    }
  }

  /**
   The set after a step holds exactly the non-split states reachable, through
   split states, from the first successor of a member whose range holds the
   symbol; and it holds each of them once.
   */
  lemma StepIsClosureOfEntered(sts: seq<State>, current: seq<int>, symbol: int)
    requires WellFormed(sts) && Members(sts, current)
    ensures forall x :: x in Step(sts, current, symbol) <==>
      x in EpsClosure(sts, Entered(sts, current, symbol)) && !IsSplit(sts[x])
    ensures Distinct(Step(sts, current, symbol))
  {
    AddAllIsClosure(sts, StepTargets(sts, current, symbol));
    StepTargetsEntered(sts, current, symbol);
  }

  /** Nothing survives a step from the empty set. */
  lemma StepFromEmpty(sts: seq<State>, symbol: int)
    requires WellFormed(sts)
    ensures Step(sts, [], symbol) == []
  {
  }

  /** A duplicate-free list drawn from a set is no longer than the set. */
  lemma {:induction false} DistinctWithin(s: seq<int>, x: set<int>)
    requires Distinct(s) && forall k :: 0 <= k < |s| ==> s[k] in x
    ensures |s| <= |x|
  {
    if s != [] {
      var last := s[|s| - 1];
      var init := s[..|s| - 1];
      forall k | 0 <= k < |init| ensures init[k] in x - {last} {
        assert s[k] != s[|s| - 1];
      }
      DistinctWithin(init, x - {last});
    }
  }
}
