/**
 What the fragments of Thompson's construction accept: the union, star and plus
 steps of the reference construction, finished with a match state, read through
 the epsilon-closure and the subset construction of the simulator.
 */
module Language {
  import opened Automaton
  import opened Closure
  import opened Thompson
  import Simulation

  /** The arena with the two transitions of state `n` exchanged. */
  function SwapSplit(sts: seq<State>, n: int): seq<State>
    requires 0 <= n < |sts|
  {
    sts[n := sts[n].(t1 := sts[n].t2, t2 := sts[n].t1)]
  }

  // ---------------------------------------------------------------------------
  // The two transitions of a split state are interchangeable

  lemma SwapKeepsClosed(sts: seq<State>, n: int, x: set<int>)
    requires 0 <= n < |sts|
    ensures SplitClosed(sts, x) <==> SplitClosed(SwapSplit(sts, n), x)
  {
    var sw := SwapSplit(sts, n);
    if SplitClosed(sts, x) {
      forall i | i in x && 0 <= i < |sw| && IsSplit(sw[i])
        ensures (sw[i].t1 == NULL || sw[i].t1 in x) && (sw[i].t2 == NULL || sw[i].t2 in x)
      {
        assert IsSplit(sts[i]);
      }
    }
    if SplitClosed(sw, x) {
      forall i | i in x && 0 <= i < |sts| && IsSplit(sts[i])
        ensures (sts[i].t1 == NULL || sts[i].t1 in x) && (sts[i].t2 == NULL || sts[i].t2 in x)
      {
        assert IsSplit(sw[i]);
      }
    }
  }

  /** Exchanging the transitions of a state leaves every epsilon-closure as it was. */
  lemma SwapKeepsClosure(sts: seq<State>, n: int, roots: set<int>)
    requires 0 <= n < |sts|
    ensures EpsClosure(SwapSplit(sts, n), roots) == EpsClosure(sts, roots)
  {
    var sw := SwapSplit(sts, n);
    forall x ensures SplitClosed(sw, x) <==> SplitClosed(sts, x) {
      SwapKeepsClosed(sts, n, x);
    }
    forall i ensures InEveryClosed(sw, roots, i) <==> InEveryClosed(sts, roots, i) {
    }
  }

  /**
   Exchanging the transitions of a split state leaves the state set of the subset
   construction after every input as it was.
   */
  lemma {:induction false} SwapKeepsReach(sts: seq<State>, n: int, roots: set<int>, text: seq<byte>)
    requires 0 <= n < |sts| && IsSplit(sts[n])
    ensures Simulation.Reach(SwapSplit(sts, n), roots, text) == Simulation.Reach(sts, roots, text)
    decreases |text|
  {
    var sw := SwapSplit(sts, n);
    if text == [] {
      SwapKeepsClosure(sts, n, roots);
    } else {
      var w := text[..|text| - 1];
      var symbol := text[|text| - 1] as int;
      SwapKeepsReach(sts, n, roots, w);
      var x := Simulation.Reach(sts, roots, w);
      assert Simulation.Moves(sw, x, symbol) == Simulation.Moves(sts, x, symbol);
      SwapKeepsClosure(sts, n, Simulation.Moves(sts, x, symbol));
    }
  }

  // ---------------------------------------------------------------------------
  // Union

  /**
   A split entering `t` then `u`, finished with a match state by patching `o1 + o2`,
   is the split entering `u` then `t` finished by patching `o2 + o1`, with the
   split's two transitions exchanged.
   */
  lemma SwapUnionArena(sts: seq<State>, t: int, u: int, o1: seq<Slot>, o2: seq<Slot>, tokenClass: string,
                       one: seq<State>, other: seq<State>)
    requires forall slot :: slot in o1 + o2 ==> slot.state < |sts|
    requires Patched(sts + [State(SPLIT, SPLIT, t, u, "")] + [MatchState(tokenClass)], one, o1 + o2, |sts| + 1)
    requires Patched(sts + [State(SPLIT, SPLIT, u, t, "")] + [MatchState(tokenClass)], other, o2 + o1, |sts| + 1)
    ensures |one| == |sts| + 2 && IsSplit(one[|sts|])
    ensures other == SwapSplit(one, |sts|)
  {
    var n := |sts|;
    assert Slot(n, First) !in o1 + o2 && Slot(n, Second) !in o1 + o2;
    var sw := SwapSplit(one, n);
    forall i | 0 <= i < |other| ensures other[i] == sw[i] {
      assert other[i] == State(sw[i].lo, sw[i].hi, sw[i].t1, sw[i].t2, sw[i].tokenClass);
    }
  }

  /**
   Building E1|E2 and E2|E1 from the same two fragments and finishing them gives
   the same arena up to the order of the new split's two transitions.
   */
  lemma UnionShape(b: Build, base: nat, tokenClass: string)
    requires BuildInv(b.sts, base, b.stack) && |b.stack| >= 2
    ensures var n := |b.sts|;
      var swapped := Build(b.sts, b.stack[..|b.stack| - 2] + [b.stack[|b.stack| - 1], b.stack[|b.stack| - 2]]);
      var one := Finish(BinaryStep(BAR, b), tokenClass);
      var other := Finish(BinaryStep(BAR, swapped), tokenClass);
      && n < |one| && IsSplit(one[n])
      && other == SwapSplit(one, n)
  {
    var top := b.stack[|b.stack| - 1];
    var below := b.stack[|b.stack| - 2];
    var swapped := Build(b.sts, b.stack[..|b.stack| - 2] + [top, below]);
    var one := BinaryStep(BAR, b);
    var other := BinaryStep(BAR, swapped);
    assert one.sts == b.sts + [State(SPLIT, SPLIT, top.start, below.start, "")];
    assert one.stack[|one.stack| - 1].outs == top.outs + below.outs;
    assert other.sts == b.sts + [State(SPLIT, SPLIT, below.start, top.start, "")];
    assert other.stack[|other.stack| - 1].outs == below.outs + top.outs;
    OutsPending(b.sts, base, b.stack, |b.stack| - 1);
    OutsPending(b.sts, base, b.stack, |b.stack| - 2);
    SwapUnionArena(b.sts, top.start, below.start, top.outs, below.outs, tokenClass,
                   Finish(one, tokenClass), Finish(other, tokenClass));
  }

  /**
   Union is symmetric: E1|E2 and E2|E1, finished, reach the same states from any
   roots after every input, so they accept the same texts.
   */
  lemma UnionSymmetric(b: Build, base: nat, tokenClass: string)
    requires BuildInv(b.sts, base, b.stack) && |b.stack| >= 2
    ensures var swapped := Build(b.sts, b.stack[..|b.stack| - 2] + [b.stack[|b.stack| - 1], b.stack[|b.stack| - 2]]);
      var one := Finish(BinaryStep(BAR, b), tokenClass);
      var other := Finish(BinaryStep(BAR, swapped), tokenClass);
      forall roots, text :: Simulation.Reach(other, roots, text) == Simulation.Reach(one, roots, text)
  {
    var one := Finish(BinaryStep(BAR, b), tokenClass);
    UnionShape(b, base, tokenClass);
    forall roots, text ensures Simulation.Reach(SwapSplit(one, |b.sts|), roots, text) == Simulation.Reach(one, roots, text) {
      SwapKeepsReach(one, |b.sts|, roots, text);
    }
  }

  // ---------------------------------------------------------------------------
  // Star and plus on the empty text, and the arenas of E alone and of E+

  /**
   A starred fragment, finished, holds its match state before reading anything:
   E* accepts the empty text, whatever E is.
   */
  lemma StarAcceptsEmpty(b: Build, base: nat, tokenClass: string)
    requires BuildInv(b.sts, base, b.stack) && |b.stack| >= 1
    ensures var n := |b.sts|;
      var r := UnaryStep(STAR, b);
      var star := Finish(r, tokenClass);
      && r.stack[|r.stack| - 1].start == n
      && n + 1 < |star| && IsMatch(star[n + 1])
      && n + 1 in Simulation.Reach(star, {n}, [])
  {
    var n := |b.sts|;
    var e := b.stack[|b.stack| - 1];
    var r := UnaryStep(STAR, b);
    var star := Finish(r, tokenClass);
    OutsPending(b.sts, base, b.stack, |b.stack| - 1);
    assert Patched(b.sts + [State(SPLIT, SPLIT, e.start, NULL, "")], r.sts, e.outs, n);
    assert Patched(r.sts + [MatchState(tokenClass)], star, [Slot(n, Second)], n + 1);
    assert Slot(n, First) !in e.outs;
    assert IsSplit(star[n]) && star[n].t2 == n + 1;
    forall x | SplitClosed(star, x) && {n} <= x ensures n + 1 in x {
      assert n in x;
    }
    assert InEveryClosed(star, {n}, n + 1);
  }

  /**
   `plus` is `alone` with its last state, the match state `n`, replaced by a split
   that loops back to `start` and goes on to a new match state `n + 1`.
   */
  ghost predicate PlusOver(alone: seq<State>, plus: seq<State>, n: nat, start: int)
  {
    && |alone| == n + 1 && |plus| == n + 2 && 0 <= start < n
    && WellFormed(alone)
    && plus[n] == State(SPLIT, SPLIT, start, n + 1, "")
    && alone[n] == MatchState(alone[n].tokenClass)
    && plus[n + 1] == MatchState(plus[n + 1].tokenClass)
    && (forall i :: 0 <= i < n ==> plus[i] == alone[i])
  }

  /**
   Patching `outs` to a match state at `n`, and patching them to a split at `n`
   that enters `start` and is then finished with a match state at `n + 1`, give
   arenas related as PlusOver says.
   */
  lemma PlusArenas(sts: seq<State>, start: int, outs: seq<Slot>, tokenClass: string,
                   alone: seq<State>, inner: seq<State>, plus: seq<State>)
    requires WellFormed(sts) && 0 <= start < |sts|
    requires forall slot :: slot in outs ==> slot.state < |sts|
    requires Patched(sts + [MatchState(tokenClass)], alone, outs, |sts|)
    requires Patched(sts + [State(SPLIT, SPLIT, start, NULL, "")], inner, outs, |sts|)
    requires Patched(inner + [MatchState(tokenClass)], plus, [Slot(|sts|, Second)], |sts| + 1)
    ensures PlusOver(alone, plus, |sts|, start)
  {
    var n := |sts|;
    assert Slot(n, First) !in outs && Slot(n, Second) !in outs;
    assert IsSplit(plus[n]);
    forall i | 0 <= i < n ensures plus[i] == alone[i] {
      assert plus[i] == State(alone[i].lo, alone[i].hi, alone[i].t1, alone[i].t2, alone[i].tokenClass);
    }
    forall i | 0 <= i < n + 1 ensures -1 <= alone[i].t1 < n + 1 && -1 <= alone[i].t2 < n + 1 {
      if i < n {
        assert (sts + [MatchState(tokenClass)])[i] == sts[i];
      }
    }
  }

  /** The arenas of E alone and of E+, both finished, are related as PlusOver says. */
  lemma PlusShape(b: Build, base: nat, tokenClass: string)
    requires BuildInv(b.sts, base, b.stack) && |b.stack| >= 1
    ensures PlusOver(Finish(b, tokenClass), Finish(UnaryStep(PLUS, b), tokenClass), |b.sts|, b.stack[|b.stack| - 1].start)
  {
    var n := |b.sts|;
    var e := b.stack[|b.stack| - 1];
    var r := UnaryStep(PLUS, b);
    assert r.sts == Patch(b.sts + [State(SPLIT, SPLIT, e.start, NULL, "")], e.outs, n);
    assert r.stack[|r.stack| - 1].outs == [Slot(n, Second)];
    OutsPending(b.sts, base, b.stack, |b.stack| - 1);
    PlusArenas(b.sts, e.start, e.outs, tokenClass, Finish(b, tokenClass), r.sts, Finish(r, tokenClass));
  }

  /** A set closed in `plus` is closed in `alone`, where state `n` is no split. */
  lemma ClosedInPlus(alone: seq<State>, plus: seq<State>, n: nat, start: int, x: set<int>)
    requires PlusOver(alone, plus, n, start) && SplitClosed(plus, x)
    ensures SplitClosed(alone, x)
  {
    forall i | i in x && 0 <= i < |alone| && IsSplit(alone[i])
      ensures (alone[i].t1 == NULL || alone[i].t1 in x) && (alone[i].t2 == NULL || alone[i].t2 in x)
    {
      assert plus[i] == alone[i];
    }
  }

  /** A set closed in `alone` that misses its match state, less `plus`'s match state, is closed in `plus`. */
  lemma ClosedInAlone(alone: seq<State>, plus: seq<State>, n: nat, start: int, y: set<int>)
    requires PlusOver(alone, plus, n, start) && SplitClosed(alone, y) && n !in y
    ensures SplitClosed(plus, y - {n + 1})
  {
    var x := y - {n + 1};
    forall i | i in x && 0 <= i < |plus| && IsSplit(plus[i])
      ensures (plus[i].t1 == NULL || plus[i].t1 in x) && (plus[i].t2 == NULL || plus[i].t2 in x)
    {
      assert plus[i] == alone[i];
    }
  }

  /** If E alone reaches its match state without input, so does E+. */
  lemma PlusFromAlone(alone: seq<State>, plus: seq<State>, n: nat, start: int)
    requires PlusOver(alone, plus, n, start) && n in EpsClosure(alone, {start})
    ensures n + 1 in EpsClosure(plus, {start})
  {
    forall x | SplitClosed(plus, x) && {start} <= x ensures n + 1 in x {
      ClosedInPlus(alone, plus, n, start, x);
      assert n in x;
    }
    assert InEveryClosed(plus, {start}, n + 1);
  }

  /** If E+ reaches its match state without input, so does E alone. */
  lemma AloneFromPlus(alone: seq<State>, plus: seq<State>, n: nat, start: int)
    requires PlusOver(alone, plus, n, start) && n + 1 in EpsClosure(plus, {start})
    ensures n in EpsClosure(alone, {start})
  {
    forall y | SplitClosed(alone, y) && {start} <= y ensures n in y {
      if n !in y {
        ClosedInAlone(alone, plus, n, start, y);
        assert false;
      }
    }
    assert InEveryClosed(alone, {start}, n);
  }

  /** The loop over E reaches its match state from E's start without input exactly when E does. */
  lemma EmptyArena(alone: seq<State>, plus: seq<State>, n: nat, start: int)
    requires PlusOver(alone, plus, n, start)
    ensures n + 1 in EpsClosure(plus, {start}) <==> n in EpsClosure(alone, {start})
  {
    if n in EpsClosure(alone, {start}) {
      PlusFromAlone(alone, plus, n, start);
    }
    if n + 1 in EpsClosure(plus, {start}) {
      AloneFromPlus(alone, plus, n, start);
    }
  }

  /**
   E+ holds its match state before reading anything exactly when E, finished on
   its own, does: the loop the plus adds gives no new way to accept the empty text.
   */
  lemma PlusKeepsEmpty(b: Build, base: nat, tokenClass: string)
    requires BuildInv(b.sts, base, b.stack) && |b.stack| >= 1
    ensures var n := |b.sts|;
      var e := b.stack[|b.stack| - 1];
      var r := UnaryStep(PLUS, b);
      && r.stack[|r.stack| - 1].start == e.start
      && (n + 1 in Simulation.Reach(Finish(r, tokenClass), {e.start}, [])
          <==> n in Simulation.Reach(Finish(b, tokenClass), {e.start}, []))
  {
    PlusShape(b, base, tokenClass);
    EmptyArena(Finish(b, tokenClass), Finish(UnaryStep(PLUS, b), tokenClass), |b.sts|, b.stack[|b.stack| - 1].start);
  }

  // ---------------------------------------------------------------------------
  // The subset construction: monotone, and reading u then v is reading u + v

  /** More roots, more closure. */
  lemma ClosureMono(sts: seq<State>, a: set<int>, b: set<int>)
    requires a <= b
    ensures EpsClosure(sts, a) <= EpsClosure(sts, b)
  {
    forall i | i in EpsClosure(sts, a) ensures i in EpsClosure(sts, b) {
      assert InEveryClosed(sts, a, i);
    }
  }

  /** Closing a closure adds nothing. */
  lemma ClosureIdem(sts: seq<State>, roots: set<int>)
    ensures EpsClosure(sts, EpsClosure(sts, roots)) <= EpsClosure(sts, roots)
  {
    var c := EpsClosure(sts, roots);
    forall i | i in EpsClosure(sts, c) ensures i in c {
      forall x | SplitClosed(sts, x) && roots <= x ensures i in x {
        EpsClosureLeast(sts, roots, x);
        assert InEveryClosed(sts, c, i);
      }
      assert InEveryClosed(sts, roots, i);
    }
  }

  /** More roots, more states after any input. */
  lemma {:induction false} ReachMono(sts: seq<State>, a: set<int>, b: set<int>, text: seq<byte>)
    requires a <= b
    ensures Simulation.Reach(sts, a, text) <= Simulation.Reach(sts, b, text)
    decreases |text|
  {
    if text == [] {
      ClosureMono(sts, a, b);
    } else {
      var p := text[..|text| - 1];
      ReachMono(sts, a, b, p);
      var c := text[|text| - 1] as int;
      ClosureMono(sts, Simulation.Moves(sts, Simulation.Reach(sts, a, p), c), Simulation.Moves(sts, Simulation.Reach(sts, b, p), c));
    }
  }

  /** Every state set the subset construction gives is already closed. */
  lemma ReachIdem(sts: seq<State>, roots: set<int>, text: seq<byte>)
    ensures EpsClosure(sts, Simulation.Reach(sts, roots, text)) <= Simulation.Reach(sts, roots, text)
  {
    if text == [] {
      ClosureIdem(sts, roots);
    } else {
      ClosureIdem(sts, Simulation.Moves(sts, Simulation.Reach(sts, roots, text[..|text| - 1]), text[|text| - 1] as int));
    }
  }

  /** Reading `u` and then, from where that leads, `v` reaches no more than reading `u + v`. */
  lemma {:induction false} ReachThen(sts: seq<State>, roots: set<int>, u: seq<byte>, v: seq<byte>)
    ensures Simulation.Reach(sts, Simulation.Reach(sts, roots, u), v) <= Simulation.Reach(sts, roots, u + v)
    decreases |v|
  {
    if v == [] {
      assert u + v == u;
      ReachIdem(sts, roots, u);
    } else {
      var p := v[..|v| - 1];
      var c := v[|v| - 1] as int;
      ReachThen(sts, roots, u, p);
      assert (u + v)[..|u + v| - 1] == u + p;
      assert (u + v)[|u + v| - 1] as int == c;
      ClosureMono(sts, Simulation.Moves(sts, Simulation.Reach(sts, Simulation.Reach(sts, roots, u), p), c),
                  Simulation.Moves(sts, Simulation.Reach(sts, roots, u + p), c));
    }
  }

  /** What a reached state reaches on more input is reached on the whole input. */
  lemma ReachFrom(sts: seq<State>, roots: set<int>, u: seq<byte>, v: seq<byte>, s: int)
    requires s in Simulation.Reach(sts, roots, u)
    ensures Simulation.Reach(sts, {s}, v) <= Simulation.Reach(sts, roots, u + v)
  {
    ReachMono(sts, {s}, Simulation.Reach(sts, roots, u), v);
    ReachThen(sts, roots, u, v);
  }

  /** A split state in a reached set brings both its targets with it. */
  lemma ReachSplit(sts: seq<State>, roots: set<int>, text: seq<byte>, i: int)
    requires i in Simulation.Reach(sts, roots, text) && 0 <= i < |sts| && IsSplit(sts[i])
    ensures 0 <= sts[i].t1 < |sts| ==> sts[i].t1 in Simulation.Reach(sts, roots, text)
    ensures 0 <= sts[i].t2 < |sts| ==> sts[i].t2 in Simulation.Reach(sts, roots, text)
  {
    var r := if text == [] then roots
      else Simulation.Moves(sts, Simulation.Reach(sts, roots, text[..|text| - 1]), text[|text| - 1] as int);
    assert Simulation.Reach(sts, roots, text) == EpsClosure(sts, r);
    assert InEveryClosed(sts, r, i);
    forall x | SplitClosed(sts, x) && r <= x
      ensures (0 <= sts[i].t1 < |sts| ==> sts[i].t1 in x) && (0 <= sts[i].t2 < |sts| ==> sts[i].t2 in x)
    {
      assert i in x;
    }
    assert 0 <= sts[i].t1 < |sts| ==> InEveryClosed(sts, r, sts[i].t1);
    assert 0 <= sts[i].t2 < |sts| ==> InEveryClosed(sts, r, sts[i].t2);
  }

  // ---------------------------------------------------------------------------
  // E alone inside E+

  /** Whatever E alone reaches through splits, E+ reaches too. */
  lemma ClosureInPlus(alone: seq<State>, plus: seq<State>, n: nat, start: int, roots: set<int>)
    requires PlusOver(alone, plus, n, start)
    ensures EpsClosure(alone, roots) <= EpsClosure(plus, roots)
  {
    forall i | i in EpsClosure(alone, roots) ensures i in EpsClosure(plus, roots) {
      forall x | SplitClosed(plus, x) && roots <= x ensures i in x {
        ClosedInPlus(alone, plus, n, start, x);
        assert InEveryClosed(alone, roots, i);
      }
      assert InEveryClosed(plus, roots, i);
    }
  }

  /** A byte moves E alone and E+ alike, except that E's match state consumes nothing. */
  lemma MovesInPlus(alone: seq<State>, plus: seq<State>, n: nat, start: int, x: set<int>, y: set<int>, c: byte)
    requires PlusOver(alone, plus, n, start) && x <= y
    ensures Simulation.Moves(alone, x, c as int) <= Simulation.Moves(plus, y, c as int)
  {
    var symbol := c as int;
    forall j | j in Simulation.Moves(alone, x, symbol) ensures j in Simulation.Moves(plus, y, symbol) {
      var i :| i in x && 0 <= i < |alone| && !IsSplit(alone[i]) && CheckStateOut(symbol, alone[i])
        && alone[i].t1 != NULL && alone[i].t1 == j;
      assert plus[i] == alone[i];
    }
  }

  /** Whatever E alone reaches from some states, E+ reaches from them too. */
  lemma {:induction false} ReachInPlus(alone: seq<State>, plus: seq<State>, n: nat, start: int, roots: set<int>, text: seq<byte>)
    requires PlusOver(alone, plus, n, start)
    ensures Simulation.Reach(alone, roots, text) <= Simulation.Reach(plus, roots, text)
    decreases |text|
  {
    if text == [] {
      ClosureInPlus(alone, plus, n, start, roots);
    } else {
      var p := text[..|text| - 1];
      var c := text[|text| - 1];
      ReachInPlus(alone, plus, n, start, roots, p);
      var ma := Simulation.Moves(alone, Simulation.Reach(alone, roots, p), c as int);
      var mp := Simulation.Moves(plus, Simulation.Reach(plus, roots, p), c as int);
      MovesInPlus(alone, plus, n, start, Simulation.Reach(alone, roots, p), Simulation.Reach(plus, roots, p), c);
      ClosureInPlus(alone, plus, n, start, ma);
      ClosureMono(plus, ma, mp);
    }
  }

  // ---------------------------------------------------------------------------
  // The languages of E* and E+

  /** The automaton `sts`, started in `start`, is in `final` after reading `text`. */
  ghost predicate Accepts(sts: seq<State>, start: int, final: int, text: seq<byte>)
  {
    final in Simulation.Reach(sts, {start}, text)
  }

  /** `text` cuts into pieces, none or more, that each take `start` to `final`: L*. */
  ghost predicate InStar(sts: seq<State>, start: int, final: int, text: seq<byte>)
    decreases |text|
  {
    text == [] ||
    exists k :: 0 <= k < |text| && InStar(sts, start, final, text[..k]) && Accepts(sts, start, final, text[k..])
  }

  /** `text` cuts into pieces, one or more, that each take `start` to `final`: L*·L. */
  ghost predicate InPlus(sts: seq<State>, start: int, final: int, text: seq<byte>)
  {
    exists k :: 0 <= k <= |text| && InStar(sts, start, final, text[..k]) && Accepts(sts, start, final, text[k..])
  }

  /** One more piece after a text in L* gives a text in both L* and L*·L. */
  lemma StarSnoc(sts: seq<State>, start: int, final: int, text: seq<byte>, k: int)
    requires 0 <= k <= |text| && InStar(sts, start, final, text[..k]) && Accepts(sts, start, final, text[k..])
    ensures InStar(sts, start, final, text) && InPlus(sts, start, final, text)
  {
    if k == |text| {
      assert text[..k] == text;
    }
  }

  /** L*·L lies within L*. */
  lemma PlusInStar(sts: seq<State>, start: int, final: int, text: seq<byte>)
    requires InPlus(sts, start, final, text)
    ensures InStar(sts, start, final, text)
  {
    var k :| 0 <= k <= |text| && InStar(sts, start, final, text[..k]) && Accepts(sts, start, final, text[k..]);
    StarSnoc(sts, start, final, text, k);
  }

  /** L* is the empty text together with L*·L. */
  lemma StarSplits(sts: seq<State>, start: int, final: int, text: seq<byte>)
    ensures InStar(sts, start, final, text) <==> text == [] || InPlus(sts, start, final, text)
  {
    if InPlus(sts, start, final, text) {
      PlusInStar(sts, start, final, text);
    }
  }

  /** One piece of E, read from a state of E+ at E's start, reaches the loop. */
  lemma PieceInPlus(alone: seq<State>, plus: seq<State>, n: nat, start: int, roots: set<int>, u: seq<byte>, v: seq<byte>)
    requires PlusOver(alone, plus, n, start)
    requires start in Simulation.Reach(plus, roots, u) && Accepts(alone, start, n, v)
    ensures n in Simulation.Reach(plus, roots, u + v)
  {
    ReachInPlus(alone, plus, n, start, {start}, v);
    ReachFrom(plus, roots, u, v, start);
  }

  /** From a state of E+ at E's start, one more piece of E leads to the loop and past it. */
  lemma LoopStep(alone: seq<State>, plus: seq<State>, n: nat, start: int, roots: set<int>, u: seq<byte>, v: seq<byte>)
    requires PlusOver(alone, plus, n, start)
    requires start in Simulation.Reach(plus, roots, u) && Accepts(alone, start, n, v)
    ensures start in Simulation.Reach(plus, roots, u + v) && n + 1 in Simulation.Reach(plus, roots, u + v)
  {
    PieceInPlus(alone, plus, n, start, roots, u, v);
    ReachSplit(plus, roots, u + v, n);
  }

  /** Pieces of E, read one after another, keep E+ at E's start. */
  lemma {:induction false} StarForward(alone: seq<State>, plus: seq<State>, n: nat, start: int, roots: set<int>, u: seq<byte>, w: seq<byte>)
    requires PlusOver(alone, plus, n, start)
    requires start in Simulation.Reach(plus, roots, u) && InStar(alone, start, n, w)
    ensures start in Simulation.Reach(plus, roots, u + w)
    ensures w != [] ==> n + 1 in Simulation.Reach(plus, roots, u + w)
    decreases |w|
  {
    if w == [] {
      assert u + w == u;
    } else {
      var k :| 0 <= k < |w| && InStar(alone, start, n, w[..k]) && Accepts(alone, start, n, w[k..]);
      var pre, rest := w[..k], w[k..];
      assert u + w == (u + pre) + rest;
      StarForward(alone, plus, n, start, roots, u, pre);
      LoopStep(alone, plus, n, start, roots, u + pre, rest);
    }
  }

  /** The text read so far is in L* (for `star`) or in L*·L (otherwise). */
  ghost predicate Whole(alone: seq<State>, n: nat, start: int, w: seq<byte>, star: bool)
  {
    if star then InStar(alone, start, n, w) else InPlus(alone, start, n, w)
  }

  /**
   A state of E+ after `w` that a cut of `w` explains: the loop and the match state
   when `w` is whole, a state of E when a prefix of `w` is in L* and E reaches the
   state on the rest.
   */
  ghost predicate ExplainedAt(alone: seq<State>, n: nat, start: int, w: seq<byte>, star: bool, i: int)
  {
    if n <= i then Whole(alone, n, start, w, star)
    else exists k :: 0 <= k <= |w| && InStar(alone, start, n, w[..k]) && i in Simulation.Reach(alone, {start}, w[k..])
  }

  /** The explained states of E+ after `w`. */
  ghost function Explained(alone: seq<State>, n: nat, start: int, w: seq<byte>, star: bool): set<int>
  {
    set i | 0 <= i < n + 2 && ExplainedAt(alone, n, start, w, star, i)
  }

  /** A state E reaches on the rest of `w`, after a prefix in L*, is explained. */
  lemma ExplainedTarget(alone: seq<State>, n: nat, start: int, w: seq<byte>, star: bool, k: int, t: int)
    requires 0 <= t <= n && 0 <= k <= |w|
    requires InStar(alone, start, n, w[..k]) && t in Simulation.Reach(alone, {start}, w[k..])
    ensures t in Explained(alone, n, start, w, star)
  {
    if t == n {
      StarSnoc(alone, start, n, w, k);
    } else {
      assert ExplainedAt(alone, n, start, w, star, t);
    }
  }

  /** The split E+ adds, when explained, leads only to explained states. */
  lemma ExplainedLoop(alone: seq<State>, plus: seq<State>, n: nat, start: int, w: seq<byte>, star: bool)
    requires PlusOver(alone, plus, n, start) && n in Explained(alone, n, start, w, star)
    ensures start in Explained(alone, n, start, w, star) && n + 1 in Explained(alone, n, start, w, star)
  {
    if !star {
      PlusInStar(alone, start, n, w);
    }
    assert w[..|w|] == w && w[|w|..] == [];
    assert start in Simulation.Reach(alone, {start}, []) by {
      assert InEveryClosed(alone, {start}, start);
    }
    assert ExplainedAt(alone, n, start, w, star, start);
    assert ExplainedAt(alone, n, start, w, star, n + 1);
  }

  /** A split of E, when explained, leads only to explained states. */
  lemma ExplainedBelow(alone: seq<State>, plus: seq<State>, n: nat, start: int, w: seq<byte>, star: bool, i: int)
    requires PlusOver(alone, plus, n, start) && 0 <= i < n && i in Explained(alone, n, start, w, star)
    requires IsSplit(alone[i])
    ensures alone[i].t1 == NULL || alone[i].t1 in Explained(alone, n, start, w, star)
    ensures alone[i].t2 == NULL || alone[i].t2 in Explained(alone, n, start, w, star)
  {
    assert ExplainedAt(alone, n, start, w, star, i);
    var k :| 0 <= k <= |w| && InStar(alone, start, n, w[..k]) && i in Simulation.Reach(alone, {start}, w[k..]);
    ReachSplit(alone, {start}, w[k..], i);
    if alone[i].t1 != NULL {
      ExplainedTarget(alone, n, start, w, star, k, alone[i].t1);
    }
    if alone[i].t2 != NULL {
      ExplainedTarget(alone, n, start, w, star, k, alone[i].t2);
    }
  }

  /** The explained states are closed under the splits of E+. */
  lemma ExplainedClosed(alone: seq<State>, plus: seq<State>, n: nat, start: int, w: seq<byte>, star: bool)
    requires PlusOver(alone, plus, n, start)
    ensures SplitClosed(plus, Explained(alone, n, start, w, star))
  {
    var g := Explained(alone, n, start, w, star);
    forall i | i in g && 0 <= i < |plus| && IsSplit(plus[i])
      ensures (plus[i].t1 == NULL || plus[i].t1 in g) && (plus[i].t2 == NULL || plus[i].t2 in g)
    {
      if i == n {
        ExplainedLoop(alone, plus, n, start, w, star);
      } else {
        assert plus[i] == alone[i];
        ExplainedBelow(alone, plus, n, start, w, star, i);
      }
    }
  }

  /** Slicing a text with one more byte. */
  lemma SnocSlices(w: seq<byte>, c: byte, k: int)
    requires 0 <= k <= |w|
    ensures (w + [c])[..|w|] == w && (w + [c])[k..] == w[k..] + [c] && (w + [c])[..k] == w[..k]
  {
  }

  /** A byte moves an explained state of E to a state explained after that byte. */
  lemma ExplainedStep(alone: seq<State>, n: nat, start: int, w: seq<byte>, star: bool, i: int, c: byte)
    requires WellFormed(alone) && |alone| == n + 1 && 0 <= i < n && ExplainedAt(alone, n, start, w, star, i)
    requires !IsSplit(alone[i]) && CheckStateOut(c as int, alone[i]) && alone[i].t1 != NULL
    ensures alone[i].t1 in Explained(alone, n, start, w + [c], star)
  {
    var j := alone[i].t1;
    var k :| 0 <= k <= |w| && InStar(alone, start, n, w[..k]) && i in Simulation.Reach(alone, {start}, w[k..]);
    var v := w[k..];
    var m := Simulation.Moves(alone, Simulation.Reach(alone, {start}, v), c as int);
    assert j in m;
    assert InEveryClosed(alone, m, j);
    SnocSlices(v, c, 0);
    assert j in Simulation.Reach(alone, {start}, v + [c]);
    SnocSlices(w, c, k);
    ExplainedTarget(alone, n, start, w + [c], star, k, j);
  }

  /** A byte takes explained states of E+ to states explained after that byte. */
  lemma ExplainedMoves(alone: seq<State>, plus: seq<State>, n: nat, start: int, w: seq<byte>, star: bool, x: set<int>, c: byte)
    requires PlusOver(alone, plus, n, start) && x <= Explained(alone, n, start, w, star)
    ensures Simulation.Moves(plus, x, c as int) <= Explained(alone, n, start, w + [c], star)
  {
    var symbol := c as int;
    forall j | j in Simulation.Moves(plus, x, symbol) ensures j in Explained(alone, n, start, w + [c], star) {
      var i :| i in x && 0 <= i < |plus| && !IsSplit(plus[i]) && CheckStateOut(symbol, plus[i])
        && plus[i].t1 != NULL && plus[i].t1 == j;
      assert i < n;
      assert plus[i] == alone[i];
      ExplainedStep(alone, n, start, w, star, i, c);
    }
  }

  /** Every state E+ reaches, from explained roots, is explained. */
  lemma {:induction false} ReachExplained(alone: seq<State>, plus: seq<State>, n: nat, start: int, roots: set<int>, w: seq<byte>, star: bool)
    requires PlusOver(alone, plus, n, start) && roots <= Explained(alone, n, start, [], star)
    ensures Simulation.Reach(plus, roots, w) <= Explained(alone, n, start, w, star)
    decreases |w|
  {
    ExplainedClosed(alone, plus, n, start, w, star);
    if w == [] {
      EpsClosureLeast(plus, roots, Explained(alone, n, start, w, star));
    } else {
      var p := w[..|w| - 1];
      var c := w[|w| - 1];
      ReachExplained(alone, plus, n, start, roots, p, star);
      ExplainedMoves(alone, plus, n, start, p, star, Simulation.Reach(plus, roots, p), c);
      assert p + [c] == w;
      EpsClosureLeast(plus, Simulation.Moves(plus, Simulation.Reach(plus, roots, p), c as int), Explained(alone, n, start, w, star));
    }
  }

  /** E+ started at its loop holds E's start and its match state before reading anything. */
  lemma LoopEntry(alone: seq<State>, plus: seq<State>, n: nat, start: int)
    requires PlusOver(alone, plus, n, start)
    ensures start in Simulation.Reach(plus, {n}, []) && n + 1 in Simulation.Reach(plus, {n}, [])
  {
    assert n in Simulation.Reach(plus, {n}, []) by {
      assert InEveryClosed(plus, {n}, n);
    }
    ReachSplit(plus, {n}, [], n);
  }

  /** E+ started at its loop reaches its match state on every text of L*. */
  lemma StarEnters(alone: seq<State>, plus: seq<State>, n: nat, start: int, w: seq<byte>)
    requires PlusOver(alone, plus, n, start) && InStar(alone, start, n, w)
    ensures n + 1 in Simulation.Reach(plus, {n}, w)
  {
    LoopEntry(alone, plus, n, start);
    if w != [] {
      assert [] + w == w;
      StarForward(alone, plus, n, start, {n}, [], w);
    }
  }

  /** E+ started at its loop reaches its match state only on texts of L*. */
  lemma StarOnly(alone: seq<State>, plus: seq<State>, n: nat, start: int, w: seq<byte>)
    requires PlusOver(alone, plus, n, start) && n + 1 in Simulation.Reach(plus, {n}, w)
    ensures InStar(alone, start, n, w)
  {
    assert ExplainedAt(alone, n, start, [], true, n);
    ReachExplained(alone, plus, n, start, {n}, w, true);
    assert ExplainedAt(alone, n, start, w, true, n + 1);
  }

  /** E+ started at its loop reaches its match state on exactly the texts of L*. */
  lemma StarArena(alone: seq<State>, plus: seq<State>, n: nat, start: int, w: seq<byte>)
    requires PlusOver(alone, plus, n, start)
    ensures n + 1 in Simulation.Reach(plus, {n}, w) <==> InStar(alone, start, n, w)
  {
    if InStar(alone, start, n, w) {
      StarEnters(alone, plus, n, start, w);
    }
    if n + 1 in Simulation.Reach(plus, {n}, w) {
      StarOnly(alone, plus, n, start, w);
    }
  }

  /**
   E alone and the loop over E, built by patching as the star step does: from the
   loop, the match state is reached on exactly L*.
   */
  lemma LoopStar(sts: seq<State>, start: int, outs: seq<Slot>, tokenClass: string,
                 alone: seq<State>, inner: seq<State>, loop: seq<State>, text: seq<byte>)
    requires WellFormed(sts) && 0 <= start < |sts|
    requires forall slot :: slot in outs ==> slot.state < |sts|
    requires Patched(sts + [MatchState(tokenClass)], alone, outs, |sts|)
    requires Patched(sts + [State(SPLIT, SPLIT, start, NULL, "")], inner, outs, |sts|)
    requires Patched(inner + [MatchState(tokenClass)], loop, [Slot(|sts|, Second)], |sts| + 1)
    ensures |sts| + 1 in Simulation.Reach(loop, {|sts|}, text) <==> InStar(alone, start, |sts|, text)
  {
    PlusArenas(sts, start, outs, tokenClass, alone, inner, loop);
    StarArena(alone, loop, |sts|, start, text);
  }

  /** E+ started at E's start reaches its match state on every text of L*·L. */
  lemma PlusEnters(alone: seq<State>, plus: seq<State>, n: nat, start: int, w: seq<byte>)
    requires PlusOver(alone, plus, n, start) && InPlus(alone, start, n, w)
    ensures n + 1 in Simulation.Reach(plus, {start}, w)
  {
    if w == [] {
      var k :| 0 <= k <= |w| && InStar(alone, start, n, w[..k]) && Accepts(alone, start, n, w[k..]);
      assert w[k..] == [];
      PlusFromAlone(alone, plus, n, start);
    } else {
      PlusInStar(alone, start, n, w);
      assert start in Simulation.Reach(plus, {start}, []) by {
        assert InEveryClosed(plus, {start}, start);
      }
      assert [] + w == w;
      StarForward(alone, plus, n, start, {start}, [], w);
    }
  }

  /** E+ started at E's start reaches its match state only on texts of L*·L. */
  lemma PlusOnly(alone: seq<State>, plus: seq<State>, n: nat, start: int, w: seq<byte>)
    requires PlusOver(alone, plus, n, start) && n + 1 in Simulation.Reach(plus, {start}, w)
    ensures InPlus(alone, start, n, w)
  {
    assert start in Simulation.Reach(alone, {start}, []) by {
      assert InEveryClosed(alone, {start}, start);
    }
    var none: seq<byte> := [];
    assert none[..0] == none && none[0..] == none;
    assert ExplainedAt(alone, n, start, [], false, start);
    ReachExplained(alone, plus, n, start, {start}, w, false);
    assert ExplainedAt(alone, n, start, w, false, n + 1);
  }

  /** E+ started at E's start reaches its match state on exactly the texts of L*·L. */
  lemma PlusArena(alone: seq<State>, plus: seq<State>, n: nat, start: int, w: seq<byte>)
    requires PlusOver(alone, plus, n, start)
    ensures n + 1 in Simulation.Reach(plus, {start}, w) <==> InPlus(alone, start, n, w)
  {
    if InPlus(alone, start, n, w) {
      PlusEnters(alone, plus, n, start, w);
    }
    if n + 1 in Simulation.Reach(plus, {start}, w) {
      PlusOnly(alone, plus, n, start, w);
    }
  }

  /**
   E*, finished, accepts exactly L*: the texts that cut into pieces, none or more,
   each of which E, finished on its own, accepts.
   */
  lemma StarLanguage(b: Build, base: nat, tokenClass: string, text: seq<byte>)
    requires BuildInv(b.sts, base, b.stack) && |b.stack| >= 1
    ensures var n := |b.sts|;
      var e := b.stack[|b.stack| - 1];
      var r := UnaryStep(STAR, b);
      && r.stack[|r.stack| - 1].start == n
      && (n + 1 in Simulation.Reach(Finish(r, tokenClass), {n}, text)
          <==> InStar(Finish(b, tokenClass), e.start, n, text))
  {
    var n := |b.sts|;
    var e := b.stack[|b.stack| - 1];
    var r := UnaryStep(STAR, b);
    assert r.sts == Patch(b.sts + [State(SPLIT, SPLIT, e.start, NULL, "")], e.outs, n);
    assert r.stack[|r.stack| - 1].outs == [Slot(n, Second)];
    OutsPending(b.sts, base, b.stack, |b.stack| - 1);
    LoopStar(b.sts, e.start, e.outs, tokenClass, Finish(b, tokenClass), r.sts, Finish(r, tokenClass), text);
  }

  /**
   E+, finished, accepts exactly L*·L: the texts that cut into pieces, one or more,
   each of which E, finished on its own, accepts.
   */
  lemma PlusLanguage(b: Build, base: nat, tokenClass: string, text: seq<byte>)
    requires BuildInv(b.sts, base, b.stack) && |b.stack| >= 1
    ensures var n := |b.sts|;
      var e := b.stack[|b.stack| - 1];
      var r := UnaryStep(PLUS, b);
      && r.stack[|r.stack| - 1].start == e.start
      && (n + 1 in Simulation.Reach(Finish(r, tokenClass), {e.start}, text)
          <==> InPlus(Finish(b, tokenClass), e.start, n, text))
  {
    PlusShape(b, base, tokenClass);
    PlusArena(Finish(b, tokenClass), Finish(UnaryStep(PLUS, b), tokenClass), |b.sts|, b.stack[|b.stack| - 1].start, text);
  }
}
