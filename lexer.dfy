/**
 The NFA simulator and the maximal-munch scanner.

 A state set is a fixed array of MAX_SIZE state indices and a size.  The Mark
 field of every state is kept in an array beside the arena, and the global
 generation counter is a field of the simulator: a state belongs to the set
 being built exactly when its mark equals the current generation.
 */
module Lexer {
  import opened Automaton
  import opened Closure
  import opened Simulation

  /** Capacity of a state set. */
  const MAX_SIZE: int := 200

  class StateSet {
    const items: array<int>
    var size: int

    ghost predicate Valid()
      reads this
    {
      items.Length == MAX_SIZE && 0 <= size <= MAX_SIZE
    }

    ghost function Contents(): seq<int>
      reads this, items
      requires Valid()
    {
      items[..size]
    }

    constructor ()
      ensures Valid() && Contents() == [] && fresh(items)
    {
      items := new int[MAX_SIZE];
      size := 0;
    }

    /** Take over the members of `other`, as the scanner does when it resets to the initial set. */
    method CopyFrom(other: StateSet)
      requires Valid() && other.Valid() && other.items != items
      modifies this, items
      ensures Valid() && Contents() == other.Contents()
      ensures other.Contents() == old(other.Contents())
    {
      var k := 0;
      while k < other.size
        invariant 0 <= k <= other.size
        invariant items[..k] == other.items[..k]
        invariant other.items[..other.size] == old(other.items[..other.size])
      {
        items[k] := other.items[k];
        k := k + 1;
      }
      size := other.size;
    }
  }

  /** A state set's members are distinct non-split states, all among `marked`. */
  ghost predicate SetInvariant(sts: seq<State>, marked: set<int>, xs: seq<int>)
  {
    && Members(sts, xs)
    && Distinct(xs)
    && forall k :: 0 <= k < |xs| ==> !IsSplit(sts[xs[k]]) && xs[k] in marked
  }

  lemma SetInvariantGrows(sts: seq<State>, marked: set<int>, more: set<int>, xs: seq<int>)
    requires SetInvariant(sts, marked, xs) && marked <= more
    ensures SetInvariant(sts, more, xs)
  {
  }

  /** An unmarked non-split state can be appended. */
  lemma SetInvariantAppend(sts: seq<State>, marked: set<int>, xs: seq<int>, s: int)
    requires SetInvariant(sts, marked, xs) && 0 <= s < |sts| && !IsSplit(sts[s]) && s !in marked
    ensures SetInvariant(sts, marked + {s}, xs + [s])
  {
    DistinctConcat(xs, [s]);
  }

  /**
   When the arena holds at most MAX_SIZE non-split states, no set the simulator
   reaches can overflow: every one lists distinct non-split states.
   */
  lemma SmallArenaFits(sts: seq<State>, roots: seq<int>, text: seq<byte>)
    requires WellFormed(sts) && RootsIn(sts, roots) && |NonSplit(sts)| <= MAX_SIZE
    ensures |Run(sts, Initial(sts, roots), text)| <= MAX_SIZE
  {
    var r := Run(sts, Initial(sts, roots), text);
    RunIsReach(sts, roots, text);
    forall k | 0 <= k < |r| ensures r[k] in NonSplit(sts) {
      assert r[k] in r;
    }
    DistinctWithin(r, NonSplit(sts));
  }

  /**
   One pass of the outer scanning loop, given the munch found at `start`:
   the reports so far followed by the scan from `start` are the reports so far,
   the report this pass emits (if any), and the scan from where it resumes.
   */
  lemma ScanResumes(ms: seq<Option<(string, int)>>, scans: seq<seq<Output>>, start: int, out: seq<Output>)
    requires ScanTableOf(ms, scans) && 0 <= start < |ms|
    ensures ms[start].Some? ==> start <= ms[start].value.1 < |ms|
    ensures ms[start].None? ==> (out + [LexicalError(start)]) + scans[start + 1] == out + scans[start]
    ensures ms[start].Some? && (ms[start].value.0 == WHITE || ms[start].value.0 == NEWLINE) ==>
      out + scans[ms[start].value.1 + 1] == out + scans[start]
    ensures ms[start].Some? && ms[start].value.0 != WHITE && ms[start].value.0 != NEWLINE ==>
      var (c, q) := ms[start].value;
      (out + [Recognized(c, start, q + 1)]) + scans[q + 1] == out + scans[start]
  {
    assert ScanAt(ms, scans, start);
    match ms[start]
    case None =>
      assert (out + [LexicalError(start)]) + scans[start + 1] == out + ([LexicalError(start)] + scans[start + 1]);
    case Some((c, q)) =>
      var token := Recognized(c, start, q + 1);
      assert (out + [token]) + scans[q + 1] == out + ([token] + scans[q + 1]);
  }

  class Simulator {
    /** The arena holding the states of every sub-automaton. */
    const states: seq<State>
    /** The Mark field of each state. */
    const mark: array<int>
    /** The generation counter; it only grows. */
    var generation: int
    /** The states marked in the current generation. */
    ghost var marked: set<int>

    ghost predicate Valid()
      reads this, mark
    {
      && WellFormed(states)
      && mark.Length == |states|
      && InRange(states, marked)
      && forall i :: 0 <= i < mark.Length ==> mark[i] <= generation && (mark[i] == generation <==> i in marked)
    }

    /** The members of `s` are distinct non-split states, all marked in the current generation. */
    ghost predicate Holds(s: StateSet)
      reads this, mark, s, s.items
      requires Valid() && s.Valid()
    {
      SetInvariant(states, marked, s.Contents())
    }

    /** Every state is created with mark 0 and the counter starts at 0. */
    constructor (sts: seq<State>)
      requires WellFormed(sts)
      ensures Valid() && states == sts && generation == 0
      ensures forall i :: 0 <= i < |sts| ==> mark[i] == 0
      ensures fresh(mark)
    {
      states := sts;
      var marks := new int[|sts|](_ => 0);
      mark := marks;
      generation := 0;
      marked := set i | 0 <= i < marks.Length && marks[i] == 0;
    }

    /** Open a new generation: nothing is marked any more. */
    method NextGeneration()
      requires Valid()
      modifies this
      ensures Valid() && generation == old(generation) + 1 && marked == {}
    {
      generation := generation + 1;
      marked := {};
    }

    /**
     Add `s` and, through split states, everything it reaches without input:
     a state already marked is skipped, a split state is followed along its
     first and then its second transition, any other state is appended.
     */
    method Add(ss: StateSet, s: int)
      requires Valid() && ss.Valid() && ss.items != mark && Holds(ss)
      requires -1 <= s < |states|
      requires |ss.Contents()| + |Dfs(states, marked, s).1| <= MAX_SIZE
      modifies this, mark, ss, ss.items
      ensures Valid() && ss.Valid() && Holds(ss) && generation == old(generation)
      ensures marked == Dfs(states, old(marked), s).0
      ensures ss.Contents() == old(ss.Contents()) + Dfs(states, old(marked), s).1
      decreases Unvisited(states, marked), 0
    {
      if s == NULL || mark[s] == generation {
        assert Dfs(states, marked, s) == (marked, []);
        assert ss.Contents() == ss.Contents() + [];
        return;
      }
      ghost var before := marked;
      ghost var contents := ss.Contents();
      mark[s] := generation;
      marked := marked + {s};
      assert s in Unvisited(states, before);
      if CheckStateOut(SPLIT, states[s]) {
        SetInvariantGrows(states, before, before + {s}, contents);
        AddBoth(ss, s, before);
        return;
      }
      assert Dfs(states, before, s) == (before + {s}, [s]);
      SetInvariantAppend(states, before, contents, s);
      ss.items[ss.size] := s;
      ss.size := ss.size + 1;
      assert ss.Contents() == contents + [s];
    }

    /** The split branch of Add: `s` is already marked; follow its first, then its second transition. */
    method AddBoth(ss: StateSet, s: int, ghost before: set<int>)
      requires Valid() && ss.Valid() && ss.items != mark && Holds(ss)
      requires 0 <= s < |states| && IsSplit(states[s]) && s !in before && marked == before + {s}
      requires |ss.Contents()| + |Dfs(states, before, s).1| <= MAX_SIZE
      modifies this, mark, ss, ss.items
      ensures Valid() && ss.Valid() && Holds(ss) && generation == old(generation)
      ensures marked == Dfs(states, before, s).0
      ensures ss.Contents() == old(ss.Contents()) + Dfs(states, before, s).1
      decreases Unvisited(states, marked), 1
    {
      ghost var contents := ss.Contents();
      ghost var r1 := Dfs(states, marked, states[s].t1);
      ghost var r2 := Dfs(states, r1.0, states[s].t2);
      assert Dfs(states, before, s) == (r2.0, r1.1 + r2.1);
      Add(ss, states[s].t1);
      assert Unvisited(states, marked) <= Unvisited(states, old(marked));
      Add(ss, states[s].t2);
      assert (contents + r1.1) + r2.1 == contents + (r1.1 + r2.1);
    }

    /** The first set for a run: a new generation holding the closures of the start states. */
    method AddStartStates(ss: StateSet, roots: seq<int>)
      requires Valid() && ss.Valid() && ss.items != mark && RootsIn(states, roots)
      requires |Initial(states, roots)| <= MAX_SIZE
      modifies this, mark, ss, ss.items
      ensures Valid() && ss.Valid() && Holds(ss) && generation == old(generation) + 1
      ensures ss.Contents() == Initial(states, roots)
      ensures marked == EpsClosure(states, RootSet(roots))
    {
      ss.size := 0;
      NextGeneration();
      AddAllRoots(ss, roots);
      AddAllIsClosure(states, roots);
    }

    /** Add each start state in turn to an empty set, within the current generation. */
    method AddAllRoots(ss: StateSet, roots: seq<int>)
      requires Valid() && ss.Valid() && ss.items != mark && RootsIn(states, roots)
      requires marked == {} && ss.Contents() == []
      requires |AddAll(states, {}, roots).1| <= MAX_SIZE
      modifies this, mark, ss, ss.items
      ensures Valid() && ss.Valid() && Holds(ss) && generation == old(generation)
      ensures marked == AddAll(states, {}, roots).0 && ss.Contents() == AddAll(states, {}, roots).1
    {
      var i := 0;
      while i < |roots|
        invariant 0 <= i <= |roots|
        invariant Valid() && ss.Valid() && Holds(ss) && generation == old(generation)
        invariant marked == AddAll(states, {}, roots[..i]).0
        invariant ss.Contents() == AddAll(states, {}, roots[..i]).1
      {
        AddAllBuildSnoc(states, roots, i);
        Add(ss, roots[i]);
        i := i + 1;
      }
      assert roots[..|roots|] == roots;
    }

    /**
     Read one symbol: open a new generation, empty `next`, and add the first
     transition of every member of `current` whose range holds the symbol.
     */
    method StepThroughNFA(current: StateSet, next: StateSet, symbol: int)
      requires Valid() && current.Valid() && next.Valid()
      requires current != next && current.items != next.items && next.items != mark && current.items != mark
      requires Members(states, current.Contents())
      requires |Step(states, current.Contents(), symbol)| <= MAX_SIZE
      modifies this, mark, next, next.items
      ensures Valid() && next.Valid() && Holds(next) && generation == old(generation) + 1
      ensures current.Contents() == old(current.Contents())
      ensures next.Contents() == Step(states, current.Contents(), symbol)
    {
      ghost var cs := current.Contents();
      NextGeneration();
      next.size := 0;
      var i := 0;
      while i < current.size
        invariant 0 <= i <= current.size == |cs|
        invariant Valid() && next.Valid() && Holds(next) && generation == old(generation) + 1
        invariant current.Contents() == cs
        invariant marked == AddAll(states, {}, StepTargets(states, cs[..i], symbol)).0
        invariant next.Contents() == AddAll(states, {}, StepTargets(states, cs[..i], symbol)).1
      {
        StepMember(current, next, symbol, i, cs);
        i := i + 1;
      }
      assert cs[..i] == cs;
    }

    /** The body of the loop of StepThroughNFA: add the first transition of member i when its range holds the symbol. */
    method StepMember(current: StateSet, next: StateSet, symbol: int, i: int, ghost cs: seq<int>)
      requires Valid() && current.Valid() && next.Valid() && Holds(next)
      requires current != next && current.items != next.items && next.items != mark && current.items != mark
      requires current.Contents() == cs && Members(states, cs) && 0 <= i < |cs|
      requires |Step(states, cs, symbol)| <= MAX_SIZE
      requires marked == AddAll(states, {}, StepTargets(states, cs[..i], symbol)).0
      requires next.Contents() == AddAll(states, {}, StepTargets(states, cs[..i], symbol)).1
      modifies this, mark, next, next.items
      ensures Valid() && next.Valid() && Holds(next) && generation == old(generation)
      ensures current.Contents() == cs
      ensures marked == AddAll(states, {}, StepTargets(states, cs[..i + 1], symbol)).0
      ensures next.Contents() == AddAll(states, {}, StepTargets(states, cs[..i + 1], symbol)).1
    {
      var s := current.items[i];
      assert s == cs[i];
      StepBuildSnoc(states, cs, i, symbol);
      if CheckStateOut(symbol, states[s]) {
        Add(next, states[s].t1);
      }
    }

    /** 1 exactly when some member of the set is a match state. */
    method SetContainsMatch(ss: StateSet, ghost xs: seq<int>) returns (r: int)
      requires Valid() && ss.Valid() && ss.Contents() == xs && Members(states, xs)
      ensures r == 0 || r == 1
      ensures r == 1 <==> exists k :: 0 <= k < |xs| && IsMatch(states[xs[k]])
    {
      var i := 0;
      while i < ss.size
        invariant 0 <= i <= ss.size
        invariant forall k :: 0 <= k < i ==> !IsMatch(states[ss.items[k]])
      {
        assert ss.items[i] == xs[i];
        if CheckStateOut(MATCH, states[ss.items[i]]) {
          return 1;
        }
        i := i + 1;
      }
      return 0;
    }

    /** The class of the last match state of the set, scanning it in order. */
    method LastMatchIn(ss: StateSet, ghost xs: seq<int>) returns (cls: Option<string>)
      requires Valid() && ss.Valid() && ss.Contents() == xs && Members(states, xs)
      ensures cls == LastMatch(states, xs)
    {
      cls := None;
      var i := 0;
      while i < ss.size
        invariant 0 <= i <= ss.size
        invariant cls == LastMatch(states, ss.items[..i])
      {
        assert ss.items[..i + 1][..i] == ss.items[..i];
        assert ss.items[i] == ss.Contents()[i];
        if CheckStateOut(MATCH, states[ss.items[i]]) {
          cls := Some(states[ss.items[i]].tokenClass);
        }
        i := i + 1;
      }
      assert ss.items[..ss.size] == ss.Contents();
    }

    /**
     Whether the whole of `text` is accepted: 1 exactly when the subset
     construction reaches a match state after the last byte.
     */
    method MatchesRegex(roots: seq<int>, text: seq<byte>) returns (r: int)
      requires Valid() && RootsIn(states, roots)
      requires forall j :: 0 <= j <= |text| ==> |Run(states, Initial(states, roots), text[..j])| <= MAX_SIZE
      modifies this, mark
      ensures Valid()
      ensures r == 0 || r == 1
      ensures r == 1 <==>
        exists x :: 0 <= x < |states| && x in Reach(states, RootSet(roots), text) && !IsSplit(states[x]) && IsMatch(states[x])
    {
      var current := new StateSet();
      var next := new StateSet();
      assert text[..0] == [];
      AddStartStates(current, roots);
      next.size := 0;
      var final := ReadAll(current, next, text, Initial(states, roots));
      r := SetContainsMatch(final, Run(states, Initial(states, roots), text));
      AcceptsIffReach(states, roots, text);
    }

    /** The loop of MatchesRegex: step the set through every byte of `text`, swapping the two sets after each. */
    method ReadAll(current: StateSet, next: StateSet, text: seq<byte>, ghost init: seq<int>) returns (final: StateSet)
      requires Valid() && current.Valid() && next.Valid()
      requires current != next && current.items != next.items && current.items != mark && next.items != mark
      requires Members(states, init) && current.Contents() == init
      requires forall j :: 0 <= j <= |text| ==> |Run(states, init, text[..j])| <= MAX_SIZE
      modifies this, mark, current, current.items, next, next.items
      ensures Valid() && final.Valid() && Members(states, final.Contents())
      ensures final.Contents() == Run(states, init, text)
    {
      var cur, nxt := current, next;
      var j := 0;
      assert text[..0] == [];
      while j < |text|
        invariant 0 <= j <= |text|
        invariant (cur == current && nxt == next) || (cur == next && nxt == current)
        invariant Valid() && cur.Valid() && nxt.Valid()
        invariant Members(states, cur.Contents())
        invariant cur.Contents() == Run(states, init, text[..j])
      {
        RunSnoc(states, init, text, j);
        assert |Run(states, init, text[..j + 1])| <= MAX_SIZE;
        StepThroughNFA(cur, nxt, text[j] as int);
        cur, nxt := nxt, cur;
        j := j + 1;
      }
      assert text[..|text|] == text;
      final := cur;
    }

    /**
     One pass of the inner scanning loop: reset `current` to the initial set,
     then read bytes from `start`, stepping the set and remembering the last
     class matched and the position of the byte that completed it, until the
     set empties or the text ends.  The result is the maximal munch from `start`.
     */
    method LongestMatchFrom(initialSet: StateSet, current: StateSet, next: StateSet, text: seq<byte>, start: int,
                            ghost sets: seq<seq<int>>, ghost bests: seq<Option<(string, int)>>)
      returns (lastToken: Option<string>, lastPosition: int)
      requires Valid() && initialSet.Valid() && current.Valid() && next.Valid()
      requires current != next && current.items != next.items
      requires initialSet.items != current.items && initialSet.items != next.items
      requires current.items != mark && next.items != mark && initialSet.items != mark
      requires Members(states, initialSet.Contents()) && start < |text|
      requires ScanTables(states, initialSet.Contents(), text, start, sets, bests)
      requires forall f :: start < f <= |text| ==> |sets[f]| <= MAX_SIZE
      modifies this, mark, current, current.items, next, next.items
      ensures Valid() && current.Valid() && next.Valid()
      ensures bests[|text|] == Found(lastToken, lastPosition)
    {
      ghost var init := initialSet.Contents();
      current.CopyFrom(initialSet);
      var cur, nxt := current, next;
      lastToken, lastPosition := None, NULL;
      var forward := start;
      while forward < |text|
        invariant start <= forward <= |text|
        invariant (cur == current && nxt == next) || (cur == next && nxt == current)
        invariant Valid() && cur.Valid() && nxt.Valid()
        invariant Members(states, cur.Contents())
        invariant cur.Contents() == sets[forward]
        invariant bests[forward] == Found(lastToken, lastPosition)
      {
        var cls, dead := Advance(cur, nxt, text, forward, init, start, sets, bests);
        if dead {
          return;
        }
        if cls.Some? {
          lastToken, lastPosition := cls, forward;
        }
        cur, nxt := nxt, cur;
        forward := forward + 1;
      }
    }

    /** The inner scanning loop from `start`, whose result is the munch `ms` records there. */
    method MunchFrom(initialSet: StateSet, current: StateSet, next: StateSet, text: seq<byte>, start: int,
                     ghost ms: seq<Option<(string, int)>>)
      returns (lastToken: Option<string>, lastPosition: int)
      requires Valid() && initialSet.Valid() && current.Valid() && next.Valid()
      requires current != next && current.items != next.items
      requires initialSet.items != current.items && initialSet.items != next.items
      requires current.items != mark && next.items != mark && initialSet.items != mark
      requires Members(states, initialSet.Contents()) && 0 <= start < |text|
      requires MunchTableOf(states, initialSet.Contents(), text, ms)
      requires forall j :: start < j <= |text| ==> |Run(states, initialSet.Contents(), text[start..j])| <= MAX_SIZE
      modifies this, mark, current, current.items, next, next.items
      ensures Valid() && current.Valid() && next.Valid()
      ensures Found(lastToken, lastPosition) == ms[start]
    {
      ghost var sets, bests := ScanTablesHold(states, initialSet.Contents(), text, start, ms);
      lastToken, lastPosition := LongestMatchFrom(initialSet, current, next, text, start, sets, bests);
    }

    /**
     One byte of the inner scanning loop: step `cur` into `nxt` on the byte at
     `forward`; the run is over when `nxt` comes out empty, and otherwise `cls`
     is the class of the last match state `nxt` holds.
     */
    method Advance(cur: StateSet, nxt: StateSet, text: seq<byte>, forward: int, ghost init: seq<int>, ghost start: int,
                   ghost sets: seq<seq<int>>, ghost bests: seq<Option<(string, int)>>)
      returns (cls: Option<string>, dead: bool)
      requires Valid() && cur.Valid() && nxt.Valid()
      requires cur != nxt && cur.items != nxt.items && cur.items != mark && nxt.items != mark
      requires ScanTables(states, init, text, start, sets, bests) && start <= forward < |text|
      requires Members(states, cur.Contents()) && cur.Contents() == sets[forward]
      requires |sets[forward + 1]| <= MAX_SIZE
      modifies this, mark, nxt, nxt.items
      ensures Valid() && nxt.Valid() && Members(states, nxt.Contents()) && nxt.Contents() == sets[forward + 1]
      ensures dead ==> bests[|text|] == bests[forward]
      ensures !dead ==> bests[forward + 1] == Remember(bests[forward], cls, forward)
    {
      assert TableStep(states, text, sets, bests, forward);
      nxt.size := 0;
      StepThroughNFA(cur, nxt, text[forward] as int);
      if nxt.size == 0 {
        assert nxt.Contents() == [];
        return None, true;
      }
      cls := LastMatchIn(nxt, sets[forward + 1]);
      dead := false;
    }

    /**
     Scan the whole text: from each start position take the maximal munch;
     a WHITE or NEWLINE match is skipped, any other match is reported as a token
     ending after its last byte, and a position with no match is reported as a
     lexical error and skipped by one byte.
     */
    method TokenizeText(roots: seq<int>, text: seq<byte>) returns (out: seq<Output>)
      requires Valid() && RootsIn(states, roots)
      requires |Initial(states, roots)| <= MAX_SIZE
      requires forall p, j :: p in ScanStarts(Munches(states, Initial(states, roots), text), 0) && p < j <= |text| ==>
        |Run(states, Initial(states, roots), text[p..j])| <= MAX_SIZE
      modifies this, mark
      ensures Valid()
      ensures out == Tokenize(states, Initial(states, roots), text, 0)
    {
      var initialSet := new StateSet();
      AddStartStates(initialSet, roots);
      ghost var ms := MunchTable(states, initialSet.Contents(), text);
      ghost var scans := ScanTable(ms);
      var current := new StateSet();
      var next := new StateSet();
      out := ScanText(initialSet, current, next, text, ms, scans);
    }

    /**
     The outer loop of the scan, from the precomputed initial set; `ms` is the
     munch from every position and `scans` the scan from every position.
     */
    method ScanText(initialSet: StateSet, current: StateSet, next: StateSet, text: seq<byte>,
                    ghost ms: seq<Option<(string, int)>>, ghost scans: seq<seq<Output>>)
      returns (out: seq<Output>)
      requires Valid() && initialSet.Valid() && initialSet.items != mark && Members(states, initialSet.Contents())
      requires current.Valid() && next.Valid() && current != next && current.items != next.items
      requires current.items != mark && next.items != mark
      requires initialSet.items != current.items && initialSet.items != next.items
      requires MunchTableOf(states, initialSet.Contents(), text, ms) && ScanTableOf(ms, scans)
      requires forall p, j :: p in ScanStarts(ms, 0) && p < j <= |text| ==>
        |Run(states, initialSet.Contents(), text[p..j])| <= MAX_SIZE
      modifies this, mark, current, current.items, next, next.items
      ensures Valid()
      ensures out == scans[0]
    {
      ghost var init := initialSet.Contents();
      out := [];
      var start := 0;
      while start < |text|
        invariant 0 <= start <= |text|
        invariant Valid() && initialSet.Valid() && current.Valid() && next.Valid()
        invariant initialSet.Contents() == init
        invariant out + scans[start] == scans[0]
        invariant ScanStarts(ms, start) <= ScanStarts(ms, 0)
        decreases |text| - start
      {
        assert start in ScanStarts(ms, start);
        var lastToken, lastPosition := MunchFrom(initialSet, current, next, text, start, ms);
        ScanResumes(ms, scans, start, out);
        assert ScanStarts(ms, start) == {start} + ScanStarts(ms, Resume(ms, start));
        if lastToken.None? {
          out := out + [LexicalError(start)];
          start := start + 1;
        } else if lastToken.value == WHITE || lastToken.value == NEWLINE {
          start := lastPosition + 1;
        } else {
          out := out + [Recognized(lastToken.value, start, lastPosition + 1)];
          start := lastPosition + 1;
        }
      }
    }
  }
}
