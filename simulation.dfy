/**
 What the simulator computes, as functions on values: the state set after a
 run over some input, the class a scanner records for a state set, the longest
 match from a position, and the sequence of tokens and lexical errors a scan
 of a whole text reports.

 Run is checked against the textbook meaning of an NFA (Reach: the subset
 construction over sets, with the closure defined as a least fixpoint).
 */
module Simulation {
  import opened Automaton
  import opened Closure

  datatype Option<T> = None | Some(value: T)

  /** What a scan reports: a token and the half-open span of its lexeme, or an unrecognised byte. */
  datatype Output = Recognized(cls: string, start: int, end: int) | LexicalError(at: int)

  /** Token classes whose matches are consumed without being reported. */
  const WHITE: string := "WHITE"
  const NEWLINE: string := "NEWLINE"

  /** The set the simulator starts from: the closures of the start states, in order. */
  function Initial(sts: seq<State>, roots: seq<int>): seq<int>
    requires WellFormed(sts) && RootsIn(sts, roots)
  {
    AddAll(sts, {}, roots).1
  }

  /** The state set after reading `text` from `current`, one step per byte. */
  function Run(sts: seq<State>, current: seq<int>, text: seq<byte>): seq<int>
    requires WellFormed(sts)
    decreases |text|
  {
    if text == [] then current
    else Step(sts, Run(sts, current, text[..|text| - 1]), text[|text| - 1] as int)
  }

  /** The states a set of states moves to on `symbol`, through the first transition of its symbol states. */
  ghost function Moves(sts: seq<State>, x: set<int>, symbol: int): set<int>
  {
    set i | i in x && 0 <= i < |sts| && !IsSplit(sts[i]) && CheckStateOut(symbol, sts[i]) && sts[i].t1 != NULL
      :: sts[i].t1
  }

  /** The states an NFA can be in after reading `text` from `roots`: the subset construction. */
  ghost function Reach(sts: seq<State>, roots: set<int>, text: seq<byte>): set<int>
    decreases |text|
  {
    if text == [] then EpsClosure(sts, roots)
    else EpsClosure(sts, Moves(sts, Reach(sts, roots, text[..|text| - 1]), text[|text| - 1] as int))
  }

  /**
   The simulator's state set after any input holds exactly the non-split states
   of the subset construction, each once.
   */
  lemma {:induction false} RunIsReach(sts: seq<State>, roots: seq<int>, text: seq<byte>)
    requires WellFormed(sts) && RootsIn(sts, roots)
    ensures forall x :: x in Run(sts, Initial(sts, roots), text) <==>
      0 <= x < |sts| && x in Reach(sts, RootSet(roots), text) && !IsSplit(sts[x])
    ensures Distinct(Run(sts, Initial(sts, roots), text))
    decreases |text|
  {
    var init := Initial(sts, roots);
    if text == [] {
      AddAllIsClosure(sts, roots);
    } else {
      var w := text[..|text| - 1];
      var c := text[|text| - 1] as int;
      RunIsReach(sts, roots, w);
      var cur := Run(sts, init, w);
      var prev := Reach(sts, RootSet(roots), w);
      assert Members(sts, cur) by {
        forall k | 0 <= k < |cur| ensures 0 <= cur[k] < |sts| {
          assert cur[k] in cur;
        }
      }
      StepIsClosureOfEntered(sts, cur, c);
      forall y | y in Entered(sts, cur, c) ensures y in Moves(sts, prev, c) {
        var k :| 0 <= k < |cur| && CheckStateOut(c, sts[cur[k]]) && sts[cur[k]].t1 != NULL && sts[cur[k]].t1 == y;
        assert cur[k] in cur;
      }
      forall y | y in Moves(sts, prev, c) ensures y in Entered(sts, cur, c) {
        var i :| i in prev && 0 <= i < |sts| && !IsSplit(sts[i]) && CheckStateOut(c, sts[i]) && sts[i].t1 != NULL
          && sts[i].t1 == y;
        assert i in cur;
        var k :| 0 <= k < |cur| && cur[k] == i;
      }
      assert Entered(sts, cur, c) == Moves(sts, prev, c);
    }
  }

  /** The set after `text` holds a match state exactly when the subset construction reaches one. */
  lemma AcceptsIffReach(sts: seq<State>, roots: seq<int>, text: seq<byte>)
    requires WellFormed(sts) && RootsIn(sts, roots)
    ensures var r := Run(sts, Initial(sts, roots), text);
      Members(sts, r)
      && ((exists k :: 0 <= k < |r| && IsMatch(sts[r[k]])) <==>
          exists x :: 0 <= x < |sts| && x in Reach(sts, RootSet(roots), text) && !IsSplit(sts[x]) && IsMatch(sts[x]))
  {
    var r := Run(sts, Initial(sts, roots), text);
    RunIsReach(sts, roots, text);
    assert Members(sts, r) by {
      forall k | 0 <= k < |r| ensures 0 <= r[k] < |sts| {
        assert r[k] in r;
      }
    }
    if exists x :: 0 <= x < |sts| && x in Reach(sts, RootSet(roots), text) && !IsSplit(sts[x]) && IsMatch(sts[x]) {
      var x :| 0 <= x < |sts| && x in Reach(sts, RootSet(roots), text) && !IsSplit(sts[x]) && IsMatch(sts[x]);
      assert x in r;
      var k :| 0 <= k < |r| && r[k] == x;
    }
  }

  /** Reading one more byte of `text` is one more step. */
  lemma RunSnoc(sts: seq<State>, current: seq<int>, text: seq<byte>, j: int)
    requires WellFormed(sts) && 0 <= j < |text|
    ensures Run(sts, current, text[..j + 1]) == Step(sts, Run(sts, current, text[..j]), text[j] as int)
  {
    assert text[..j + 1][..j] == text[..j];
  }

  /** Reading `w` then `v` is reading `w + v`. */
  lemma {:induction false} RunAppend(sts: seq<State>, current: seq<int>, w: seq<byte>, v: seq<byte>)
    requires WellFormed(sts)
    ensures Run(sts, current, w + v) == Run(sts, Run(sts, current, w), v)
    decreases |v|
  {
    if v == [] {
      assert w + v == w;
    } else {
      assert (w + v)[..|w + v| - 1] == w + v[..|v| - 1];
      RunAppend(sts, current, w, v[..|v| - 1]);
    }
  }

  /** Once the state set is empty it stays empty, whatever is read. */
  lemma {:induction false} RunFromEmpty(sts: seq<State>, text: seq<byte>)
    requires WellFormed(sts)
    ensures Run(sts, [], text) == []
    decreases |text|
  {
    if text != [] {
      RunFromEmpty(sts, text[..|text| - 1]);
      StepFromEmpty(sts, text[|text| - 1] as int);
    }
  }

  /** The class a scanner records for a state set: that of its last match state, or none. */
  function LastMatch(sts: seq<State>, xs: seq<int>): Option<string>
  {
    if xs == [] then None
    else
      var s := xs[|xs| - 1];
      if 0 <= s < |sts| && IsMatch(sts[s]) then Some(sts[s].tokenClass) else LastMatch(sts, xs[..|xs| - 1])
  }

  /** LastMatch is empty exactly when the set holds no match state, and otherwise names the last one. */
  lemma {:induction false} LastMatchIsLast(sts: seq<State>, xs: seq<int>)
    requires Members(sts, xs)
    ensures LastMatch(sts, xs).None? <==> forall k :: 0 <= k < |xs| ==> !IsMatch(sts[xs[k]])
    ensures LastMatch(sts, xs).Some? ==>
      exists k :: 0 <= k < |xs| && IsMatch(sts[xs[k]]) && sts[xs[k]].tokenClass == LastMatch(sts, xs).value
        && forall j :: k < j < |xs| ==> !IsMatch(sts[xs[j]])
  {
    if xs != [] {
      var last := |xs| - 1;
      var init := xs[..last];
      assert forall k :: 0 <= k < last ==> init[k] == xs[k];
      LastMatchIsLast(sts, init);
      if IsMatch(sts[xs[last]]) {
        assert LastMatch(sts, xs) == Some(sts[xs[last]].tokenClass);
      } else {
        assert LastMatch(sts, xs) == LastMatch(sts, init);
        if LastMatch(sts, init).Some? {
          var k :| 0 <= k < |init| && IsMatch(sts[init[k]]) && sts[init[k]].tokenClass == LastMatch(sts, init).value
            && forall j :: k < j < |init| ==> !IsMatch(sts[init[j]]);
          assert forall j :: k < j < |xs| ==> !IsMatch(sts[xs[j]]);
        }
      }
    }
  }

  /** The class recorded after each byte of `w`, read from `init`: entry k is that of the set after w[..k+1]. */
  function Recorded(sts: seq<State>, init: seq<int>, w: seq<byte>): (r: seq<Option<string>>)
    requires WellFormed(sts)
    ensures |r| == |w|
  {
    if w == [] then []
    else Recorded(sts, init, w[..|w| - 1]) + [LastMatch(sts, Run(sts, init, w))]
  }

  lemma {:induction false} RecordedAt(sts: seq<State>, init: seq<int>, w: seq<byte>, k: int)
    requires WellFormed(sts) && 0 <= k < |w|
    ensures Recorded(sts, init, w)[k] == LastMatch(sts, Run(sts, init, w[..k + 1]))
    decreases |w|
  {
    if k < |w| - 1 {
      RecordedAt(sts, init, w[..|w| - 1], k);
      assert w[..|w| - 1][..k + 1] == w[..k + 1];
    } else {
      assert w[..k + 1] == w;
    }
  }

  /** The last recorded class and its index: the longest match among the recorded ones. */
  function LastSome(m: seq<Option<string>>): (r: Option<(string, int)>)
    ensures r.None? <==> forall k :: 0 <= k < |m| ==> m[k].None?
    ensures r.Some? ==>
      && 0 <= r.value.1 < |m| && m[r.value.1] == Some(r.value.0)
      && forall k :: r.value.1 < k < |m| ==> m[k].None?
  {
    if m == [] then None
    else if m[|m| - 1].Some? then Some((m[|m| - 1].value, |m| - 1))
    else LastSome(m[..|m| - 1])
  }

  /** The longest match from `start` that ends before `end`: its class and the position of its last byte. */
  function LongestUpTo(sts: seq<State>, init: seq<int>, text: seq<byte>, start: int, end: int): Option<(string, int)>
    requires WellFormed(sts) && 0 <= start <= end <= |text|
  {
    match LastSome(Recorded(sts, init, text[start..end]))
    case None => None
    case Some((c, k)) => Some((c, start + k))
  }

  /** The maximal munch from `start`: the longest match over the rest of the text. */
  function Munch(sts: seq<State>, init: seq<int>, text: seq<byte>, start: int): Option<(string, int)>
    requires WellFormed(sts) && 0 <= start <= |text|
  {
    LongestUpTo(sts, init, text, start, |text|)
  }

  /** The class recorded once text[start..q+1] has been read from the initial set. */
  function MatchAt(sts: seq<State>, init: seq<int>, text: seq<byte>, start: int, q: int): Option<string>
    requires WellFormed(sts) && 0 <= start <= q < |text|
  {
    LastMatch(sts, Run(sts, init, text[start..q + 1]))
  }

  lemma RecordedFrom(sts: seq<State>, init: seq<int>, text: seq<byte>, start: int, q: int)
    requires WellFormed(sts) && 0 <= start <= q < |text|
    ensures Recorded(sts, init, text[start..])[q - start] == MatchAt(sts, init, text, start, q)
  {
    var w := text[start..];
    RecordedAt(sts, init, w, q - start);
    assert w[..q - start + 1] == text[start..q + 1];
  }

  /**
   The maximal munch is the largest position q such that the set reached by
   reading text[start..q+1] holds a match state, with the class recorded there;
   there is none exactly when no such position exists.
   */
  lemma MunchIsLongest(sts: seq<State>, init: seq<int>, text: seq<byte>, start: int)
    requires WellFormed(sts) && 0 <= start <= |text|
    ensures Munch(sts, init, text, start).None? <==>
      forall q :: start <= q < |text| ==> MatchAt(sts, init, text, start, q).None?
    ensures Munch(sts, init, text, start).Some? ==>
      var (c, q) := Munch(sts, init, text, start).value;
      && start <= q < |text|
      && MatchAt(sts, init, text, start, q) == Some(c)
      && forall p :: q < p < |text| ==> MatchAt(sts, init, text, start, p).None?
  {
    var w := text[start..];
    assert text[start..|text|] == w;
    var m := Recorded(sts, init, w);
    var r := LastSome(m);
    if r.None? {
      forall q | start <= q < |text| ensures MatchAt(sts, init, text, start, q).None? {
        RecordedFrom(sts, init, text, start, q);
      }
    } else {
      var (c, k) := r.value;
      RecordedFrom(sts, init, text, start, start + k);
      forall p | start + k < p < |text| ensures MatchAt(sts, init, text, start, p).None? {
        RecordedFrom(sts, init, text, start, p);
      }
    }
  }

  /** Reading one more byte appends its recorded class to the longest match so far. */
  lemma LongestUpToStep(sts: seq<State>, init: seq<int>, text: seq<byte>, start: int, end: int)
    requires WellFormed(sts) && 0 <= start <= end < |text|
    ensures Run(sts, init, text[start..end + 1]) == Step(sts, Run(sts, init, text[start..end]), text[end] as int)
    ensures LongestUpTo(sts, init, text, start, end + 1)
      == match MatchAt(sts, init, text, start, end)
         case Some(c) => Some((c, end))
         case None => LongestUpTo(sts, init, text, start, end)
  {
    var w := text[start..end + 1];
    assert w[..|w| - 1] == text[start..end];
    assert w != [] && w[|w| - 1] == text[end];
    assert Run(sts, init, w) == Step(sts, Run(sts, init, w[..|w| - 1]), w[|w| - 1] as int);
    var m := Recorded(sts, init, text[start..end]);
    var x := LastMatch(sts, Run(sts, init, w));
    assert Recorded(sts, init, w) == m + [x];
    assert (m + [x])[..|m|] == m;
  }

  /**
   Once reading from `start` has emptied the state set by position f, no longer
   match exists: the maximal munch is the longest match before f.
   */
  lemma DeadSetEndsMunch(sts: seq<State>, init: seq<int>, text: seq<byte>, start: int, f: int)
    requires WellFormed(sts) && 0 <= start <= f < |text|
    requires Run(sts, init, text[start..f + 1]) == []
    ensures Munch(sts, init, text, start) == LongestUpTo(sts, init, text, start, f)
  {
    DeadKeepsLongest(sts, init, text, start, f, |text|);
  }

  /** After the state set has emptied at f, every later end gives the same longest match. */
  lemma {:induction false} DeadKeepsLongest(sts: seq<State>, init: seq<int>, text: seq<byte>, start: int, f: int, e: int)
    requires WellFormed(sts) && 0 <= start <= f < e <= |text|
    requires Run(sts, init, text[start..f + 1]) == []
    ensures LongestUpTo(sts, init, text, start, e) == LongestUpTo(sts, init, text, start, f)
    decreases e - f
  {
    var d := e - 1;
    DeadStep(sts, init, text, start, f, d);
    assert d + 1 == e;
    var now, before := LongestUpTo(sts, init, text, start, e), LongestUpTo(sts, init, text, start, d);
    assert now == before;
    if f < d {
      DeadKeepsLongest(sts, init, text, start, f, d);
      assert before == LongestUpTo(sts, init, text, start, f);
    } else {
      assert d == f;
    }
  }

  /** A byte read after the state set has emptied leaves the longest match as it was. */
  lemma DeadStep(sts: seq<State>, init: seq<int>, text: seq<byte>, start: int, f: int, d: int)
    requires WellFormed(sts) && 0 <= start <= f <= d < |text|
    requires Run(sts, init, text[start..f + 1]) == []
    ensures LongestUpTo(sts, init, text, start, d + 1) == LongestUpTo(sts, init, text, start, d)
  {
    StaysDead(sts, init, text, start, f, d);
    LongestUpToKeeps(sts, init, text, start, d);
  }

  /** A byte that completes no match leaves the longest match as it was. */
  lemma LongestUpToKeeps(sts: seq<State>, init: seq<int>, text: seq<byte>, start: int, end: int)
    requires WellFormed(sts) && 0 <= start <= end < |text|
    requires MatchAt(sts, init, text, start, end).None?
    ensures LongestUpTo(sts, init, text, start, end + 1) == LongestUpTo(sts, init, text, start, end)
  {
    LongestUpToStep(sts, init, text, start, end);
  }

  lemma StaysDead(sts: seq<State>, init: seq<int>, text: seq<byte>, start: int, f: int, q: int)
    requires WellFormed(sts) && 0 <= start <= f <= q < |text|
    requires Run(sts, init, text[start..f + 1]) == []
    ensures Run(sts, init, text[start..q + 1]) == [] && MatchAt(sts, init, text, start, q).None?
  {
    assert text[start..q + 1] == text[start..f + 1] + text[f + 1..q + 1];
    RunAppend(sts, init, text[start..f + 1], text[f + 1..q + 1]);
    RunFromEmpty(sts, text[f + 1..q + 1]);
  }

  /** The last class matched and the position of the byte that completed it, when there is one. */
  function Found(cls: Option<string>, pos: int): Option<(string, int)>
  {
    if cls.Some? then Some((cls.value, pos)) else None
  }

  /** The longest match after one more byte: that byte's position when it completes a match, the old one otherwise. */
  function Remember(best: Option<(string, int)>, cls: Option<string>, pos: int): Option<(string, int)>
  {
    if cls.Some? then Some((cls.value, pos)) else best
  }

  /** The set reached after reading text[start..f], for every end f from `start` on. */
  ghost function Sets(sts: seq<State>, init: seq<int>, text: seq<byte>, start: int): (r: seq<seq<int>>)
    requires WellFormed(sts) && 0 <= start <= |text|
    ensures |r| == |text| + 1
  {
    seq(|text| + 1, f requires 0 <= f <= |text| => if f < start then [] else Run(sts, init, text[start..f]))
  }

  /** The longest match found in text[start..f], for every end f from `start` on. */
  ghost function Bests(sts: seq<State>, init: seq<int>, text: seq<byte>, start: int): (r: seq<Option<(string, int)>>)
    requires WellFormed(sts) && 0 <= start <= |text|
    ensures |r| == |text| + 1
  {
    seq(|text| + 1, f requires 0 <= f <= |text| => if f < start then None else LongestUpTo(sts, init, text, start, f))
  }

  /**
   Step f of the scanner's tables, indexed by text position: reading text[f]
   steps the set; the longest match moves to f when the new set holds a match
   state; and once the new set is empty the longest match never changes again.
   */
  ghost predicate TableStep(sts: seq<State>, text: seq<byte>, sets: seq<seq<int>>, bests: seq<Option<(string, int)>>, f: int)
  {
    && WellFormed(sts) && 0 <= f < |text|
    && |sets| == |bests| == |text| + 1
    && sets[f + 1] == Step(sts, sets[f], text[f] as int)
    && bests[f + 1] == Remember(bests[f], LastMatch(sts, sets[f + 1]), f)
    && (sets[f + 1] == [] ==> bests[|text|] == bests[f])
  }

  /** The tables of the scanner's inner loop from `start`: they begin at `init` with no match and follow TableStep. */
  ghost predicate ScanTables(sts: seq<State>, init: seq<int>, text: seq<byte>, start: int,
                             sets: seq<seq<int>>, bests: seq<Option<(string, int)>>)
  {
    && WellFormed(sts) && 0 <= start <= |text|
    && |sets| == |bests| == |text| + 1
    && sets[start] == init && bests[start] == None
    && forall f :: start <= f < |text| ==> TableStep(sts, text, sets, bests, f)
  }

  /** `ms` holds the maximal munch from every position of `text`. */
  ghost predicate MunchTableOf(sts: seq<State>, init: seq<int>, text: seq<byte>, ms: seq<Option<(string, int)>>)
  {
    && WellFormed(sts) && |ms| == |text| && ValidTable(ms)
    && forall p {:trigger Munch(sts, init, text, p)} :: 0 <= p < |text| ==> ms[p] == Munch(sts, init, text, p)
  }

  /**
   The tables of the scan from `start` exist: their entry f is the set reached
   by reading text[start..f], and their last entry is the maximal munch from
   `start`, which `ms` records.
   */
  lemma ScanTablesHold(sts: seq<State>, init: seq<int>, text: seq<byte>, start: int, ms: seq<Option<(string, int)>>)
    returns (sets: seq<seq<int>>, bests: seq<Option<(string, int)>>)
    requires MunchTableOf(sts, init, text, ms) && 0 <= start < |text|
    ensures ScanTables(sts, init, text, start, sets, bests)
    ensures forall f :: start <= f <= |text| ==> sets[f] == Run(sts, init, text[start..f])
    ensures bests[|text|] == ms[start]
  {
    sets, bests := Sets(sts, init, text, start), Bests(sts, init, text, start);
    assert text[start..start] == [];
    assert sets[start] == Run(sts, init, []) == init;
    assert bests[start] == LongestUpTo(sts, init, text, start, start) == None;
    assert bests[|text|] == Munch(sts, init, text, start);
    forall f | start <= f < |text| ensures TableStep(sts, text, sets, bests, f) {
      SetsStep(sts, init, text, start, f);
      BestsStep(sts, init, text, start, f);
      if sets[f + 1] == [] {
        BestsAfterDead(sts, init, text, start, f);
      }
    }
  }

  lemma SetsStep(sts: seq<State>, init: seq<int>, text: seq<byte>, start: int, f: int)
    requires WellFormed(sts) && 0 <= start <= f < |text|
    ensures Sets(sts, init, text, start)[f + 1] == Step(sts, Sets(sts, init, text, start)[f], text[f] as int)
  {
    LongestUpToStep(sts, init, text, start, f);
  }

  lemma BestsStep(sts: seq<State>, init: seq<int>, text: seq<byte>, start: int, f: int)
    requires WellFormed(sts) && 0 <= start <= f < |text|
    ensures Bests(sts, init, text, start)[f + 1] ==
      Remember(Bests(sts, init, text, start)[f], LastMatch(sts, Sets(sts, init, text, start)[f + 1]), f)
  {
    LongestUpToStep(sts, init, text, start, f);
  }

  lemma BestsAfterDead(sts: seq<State>, init: seq<int>, text: seq<byte>, start: int, f: int)
    requires WellFormed(sts) && 0 <= start <= f < |text|
    requires Sets(sts, init, text, start)[f + 1] == []
    ensures Bests(sts, init, text, start)[|text|] == Bests(sts, init, text, start)[f]
  {
    assert Run(sts, init, text[start..f + 1]) == [];
    DeadKeepsLongest(sts, init, text, start, f, |text|);
  }

  /** A table of munches, one per position: each found match ends at or after its position and inside the text. */
  ghost predicate ValidTable(ms: seq<Option<(string, int)>>)
  {
    forall p :: 0 <= p < |ms| && ms[p].Some? ==> p <= ms[p].value.1 < |ms|
  }

  /** The maximal munch from every position of the text. */
  function Munches(sts: seq<State>, init: seq<int>, text: seq<byte>): (ms: seq<Option<(string, int)>>)
    requires WellFormed(sts)
    ensures |ms| == |text| && ValidTable(ms)
  {
    MunchesInText(sts, init, text);
    seq(|text|, p requires 0 <= p < |text| => Munch(sts, init, text, p))
  }

  lemma MunchesInText(sts: seq<State>, init: seq<int>, text: seq<byte>)
    requires WellFormed(sts)
    ensures forall p :: 0 <= p < |text| && Munch(sts, init, text, p).Some? ==>
      p <= Munch(sts, init, text, p).value.1 < |text|
  {
    forall p | 0 <= p < |text| && Munch(sts, init, text, p).Some?
      ensures p <= Munch(sts, init, text, p).value.1 < |text|
    {
      MunchIsLongest(sts, init, text, p);
    }
  }

  /** The reports of a scan from `start`, given the munch from every position. */
  function Scan(ms: seq<Option<(string, int)>>, start: int): seq<Output>
    requires ValidTable(ms) && 0 <= start <= |ms|
    decreases |ms| - start
  {
    if start == |ms| then []
    else
      match ms[start]
      case None => [LexicalError(start)] + Scan(ms, start + 1)
      case Some((c, q)) =>
        if c == WHITE || c == NEWLINE then Scan(ms, q + 1)
        else [Recognized(c, start, q + 1)] + Scan(ms, q + 1)
  }

  /** Where the scan resumes after looking for a munch at `start`: after the munch, or at the next byte when there is none. */
  function Resume(ms: seq<Option<(string, int)>>, start: int): (r: int)
    requires ValidTable(ms) && 0 <= start < |ms|
    ensures start < r <= |ms|
  {
    if ms[start].None? then start + 1 else ms[start].value.1 + 1
  }

  /**
   The positions at which the scan from `start` looks for a munch: `start`,
   then every position it resumes at.  Only from these does the scanner run
   the automaton.
   */
  ghost function ScanStarts(ms: seq<Option<(string, int)>>, start: int): (r: set<int>)
    requires ValidTable(ms) && 0 <= start <= |ms|
    ensures forall p :: p in r ==> start <= p < |ms|
    ensures start < |ms| ==> start in r
    decreases |ms| - start
  {
    if start == |ms| then {} else {start} + ScanStarts(ms, Resume(ms, start))
  }

  /** Every report of a scan begins at a position where the scan looked for a munch. */
  lemma {:induction false} ReportsAtScanStarts(ms: seq<Option<(string, int)>>, start: int)
    requires ValidTable(ms) && 0 <= start <= |ms|
    ensures forall k :: 0 <= k < |Scan(ms, start)| ==> Begin(Scan(ms, start)[k]) in ScanStarts(ms, start)
    decreases |ms| - start
  {
    if start < |ms| {
      var next := Resume(ms, start);
      ReportsAtScanStarts(ms, next);
      var t, rest := Scan(ms, start), Scan(ms, next);
      assert ScanStarts(ms, start) == {start} + ScanStarts(ms, next);
      forall k | 0 <= k < |t| ensures Begin(t[k]) in ScanStarts(ms, start) {
        if |t| == |rest| + 1 {
          if k > 0 {
            assert t[k] == rest[k - 1];
          }
        } else {
          assert t == rest;
        }
      }
    }
  }

  /**
   Entry k of a table of scans: a position without a munch reports an error
   and resumes at the next byte, and a position with a munch skips a WHITE or
   NEWLINE match or reports any other, and resumes after it.
   */
  ghost predicate ScanAt(ms: seq<Option<(string, int)>>, scans: seq<seq<Output>>, k: int)
  {
    && ValidTable(ms) && 0 <= k < |ms| && |scans| == |ms| + 1
    && scans[k] == match ms[k]
                   case None => [LexicalError(k)] + scans[k + 1]
                   case Some((c, q)) =>
                     if c == WHITE || c == NEWLINE then scans[q + 1]
                     else [Recognized(c, k, q + 1)] + scans[q + 1]
  }

  /** `scans` holds the scan from every position of the table `ms`. */
  ghost predicate ScanTableOf(ms: seq<Option<(string, int)>>, scans: seq<seq<Output>>)
  {
    && ValidTable(ms) && |scans| == |ms| + 1 && scans[|ms|] == []
    && forall k :: 0 <= k < |ms| ==> ScanAt(ms, scans, k)
  }

  /** The scan from every position, as a table whose entries follow ScanAt. */
  lemma ScanTable(ms: seq<Option<(string, int)>>) returns (scans: seq<seq<Output>>)
    requires ValidTable(ms)
    ensures ScanTableOf(ms, scans) && scans[0] == Scan(ms, 0)
  {
    scans := seq(|ms| + 1, k requires 0 <= k <= |ms| => Scan(ms, k));
  }

  /**
   What a scan reports for `text`: from each position the longest match is taken;
   a WHITE or NEWLINE match is consumed silently, any other is a token, and a
   position with no match is a lexical error that consumes one byte.
   */
  function Tokenize(sts: seq<State>, init: seq<int>, text: seq<byte>, start: int): seq<Output>
    requires WellFormed(sts) && 0 <= start <= |text|
  {
    Scan(Munches(sts, init, text), start)
  }

  /** The munch table of a text, given by its entries: what the scanner consults position by position. */
  lemma MunchTable(sts: seq<State>, init: seq<int>, text: seq<byte>) returns (ms: seq<Option<(string, int)>>)
    requires WellFormed(sts)
    ensures ms == Munches(sts, init, text)
    ensures MunchTableOf(sts, init, text, ms)
    ensures Scan(ms, 0) == Tokenize(sts, init, text, 0)
  {
    ms := Munches(sts, init, text);
  }

  function Begin(o: Output): int
  {
    if o.Recognized? then o.start else o.at
  }

  function End(o: Output): int
  {
    if o.Recognized? then o.end else o.at + 1
  }

  /**
   What a scan from `start` promises about its reports: each lies in the text
   after `start`; each token is the munch from its first byte, of a class that is
   reported; each error is at a byte with no munch; and the reports come in text
   order without overlapping.
   */
  ghost predicate Reports(ms: seq<Option<(string, int)>>, start: int, t: seq<Output>)
  {
    && (forall k :: 0 <= k < |t| ==> 0 <= start <= Begin(t[k]) < End(t[k]) <= |ms|)
    && (forall k :: 0 <= k < |t| && t[k].Recognized? ==>
          && t[k].cls != WHITE && t[k].cls != NEWLINE
          && ms[t[k].start] == Some((t[k].cls, t[k].end - 1)))
    && (forall k :: 0 <= k < |t| && t[k].LexicalError? ==> ms[t[k].at] == None)
    && (forall i, j :: 0 <= i < j < |t| ==> End(t[i]) <= Begin(t[j]))
  }

  lemma ReportsPrepend(ms: seq<Option<(string, int)>>, start: int, o: Output, rest: int, t: seq<Output>)
    requires Reports(ms, rest, t)
    requires 0 <= start <= Begin(o) < End(o) <= rest <= |ms|
    requires o.Recognized? ==> o.cls != WHITE && o.cls != NEWLINE && ms[o.start] == Some((o.cls, o.end - 1))
    requires o.LexicalError? ==> ms[o.at] == None
    ensures Reports(ms, start, [o] + t)
  {
    var u := [o] + t;
    forall k | 1 <= k < |u| ensures u[k] == t[k - 1] { }
    forall i, j | 0 <= i < j < |u| ensures End(u[i]) <= Begin(u[j]) {
      if i > 0 {
        assert End(t[i - 1]) <= Begin(t[j - 1]);
      } else {
        assert Begin(t[j - 1]) >= rest;
      }
    }
  }

  lemma ReportsFromEarlier(ms: seq<Option<(string, int)>>, start: int, rest: int, t: seq<Output>)
    requires Reports(ms, rest, t) && 0 <= start <= rest
    ensures Reports(ms, start, t)
  {
  }

  /**
   The bytes a..b are consumed silently: they split into consecutive WHITE or
   NEWLINE munches, the first starting at a and the last ending just before b.
   */
  ghost predicate Skipped(ms: seq<Option<(string, int)>>, a: int, b: int)
    decreases b - a
  {
    if a >= b then a == b
    else
      && 0 <= a < |ms| && ms[a].Some?
      && (ms[a].value.0 == WHITE || ms[a].value.0 == NEWLINE)
      && a <= ms[a].value.1 < b
      && Skipped(ms, ms[a].value.1 + 1, b)
  }

  /** Where gap k of the reports `t` begins: at `start` before the first report, after report k - 1 otherwise. */
  function GapStart(t: seq<Output>, start: int, k: int): int
    requires 0 <= k <= |t|
  {
    if k == 0 then start else End(t[k - 1])
  }

  /** Where gap k of the reports `t` ends: at report k, or at `n` after the last report. */
  function GapEnd(t: seq<Output>, n: int, k: int): int
    requires 0 <= k <= |t|
  {
    if k == |t| then n else Begin(t[k])
  }

  /**
   The reports `t` leave nothing of the text from `start` unaccounted for:
   before the first report, between consecutive reports and after the last,
   every byte lies in a skipped WHITE or NEWLINE munch.
   */
  ghost predicate Covers(ms: seq<Option<(string, int)>>, start: int, t: seq<Output>)
  {
    forall k :: 0 <= k <= |t| ==> Skipped(ms, GapStart(t, start, k), GapEnd(t, |ms|, k))
  }

  /** A report that begins where the scan stands, followed by reports covering the rest, covers it all. */
  lemma CoversPrepend(ms: seq<Option<(string, int)>>, start: int, o: Output, t: seq<Output>)
    requires Begin(o) == start && Covers(ms, End(o), t)
    ensures Covers(ms, start, [o] + t)
  {
    var u := [o] + t;
    forall k | 0 <= k <= |u| ensures Skipped(ms, GapStart(u, start, k), GapEnd(u, |ms|, k)) {
      if k == 0 {
        assert GapStart(u, start, 0) == start == GapEnd(u, |ms|, 0);
      } else {
        assert u[k - 1] == (if k == 1 then o else t[k - 2]);
        assert GapStart(u, start, k) == GapStart(t, End(o), k - 1);
        assert GapEnd(u, |ms|, k) == GapEnd(t, |ms|, k - 1);
      }
    }
  }

  /** A skipped munch at `start`, followed by reports covering the text after it, leaves the same reports covering it all. */
  lemma CoversSkip(ms: seq<Option<(string, int)>>, start: int, q: int, t: seq<Output>)
    requires 0 <= start <= q < |ms| && ms[start].Some? && ms[start].value.1 == q
    requires ms[start].value.0 == WHITE || ms[start].value.0 == NEWLINE
    requires Covers(ms, q + 1, t)
    ensures Covers(ms, start, t)
  {
    var e := GapEnd(t, |ms|, 0);
    assert Skipped(ms, q + 1, e);
    assert q + 1 <= e;
    assert Skipped(ms, start, e);
    forall k | 0 < k <= |t| ensures Skipped(ms, GapStart(t, start, k), GapEnd(t, |ms|, k)) {
      assert GapStart(t, start, k) == GapStart(t, q + 1, k);
    }
  }

  /**
   The reports of a scan from `start` keep the promises of Reports and, with the
   skipped munches, account for every byte from `start` to the end.
   */
  lemma {:induction false} ScanReports(ms: seq<Option<(string, int)>>, start: int)
    requires ValidTable(ms) && 0 <= start <= |ms|
    ensures Reports(ms, start, Scan(ms, start))
    ensures Covers(ms, start, Scan(ms, start))
    decreases |ms| - start
  {
    ScanCovers(ms, start);
    if start < |ms| {
      match ms[start]
      case None =>
        ScanReports(ms, start + 1);
        ReportsPrepend(ms, start, LexicalError(start), start + 1, Scan(ms, start + 1));
      case Some((c, q)) =>
        ScanReports(ms, q + 1);
        if c == WHITE || c == NEWLINE {
          ReportsFromEarlier(ms, start, q + 1, Scan(ms, q + 1));
        } else {
          ReportsPrepend(ms, start, Recognized(c, start, q + 1), q + 1, Scan(ms, q + 1));
        }
    }
  }

  /** With the skipped munches, the reports of a scan from `start` account for every byte from `start` to the end. */
  lemma {:induction false} ScanCovers(ms: seq<Option<(string, int)>>, start: int)
    requires ValidTable(ms) && 0 <= start <= |ms|
    ensures Covers(ms, start, Scan(ms, start))
    decreases |ms| - start
  {
    if start == |ms| {
      assert Skipped(ms, GapStart([], start, 0), GapEnd([], |ms|, 0));
    } else {
      match ms[start]
      case None =>
        ScanCovers(ms, start + 1);
        CoversPrepend(ms, start, LexicalError(start), Scan(ms, start + 1));
      case Some((c, q)) =>
        ScanCovers(ms, q + 1);
        if c == WHITE || c == NEWLINE {
          CoversSkip(ms, start, q, Scan(ms, q + 1));
        } else {
          CoversPrepend(ms, start, Recognized(c, start, q + 1), Scan(ms, q + 1));
        }
    }
  }

  /**
   The scan is the only sequence of reports that keeps the promises of Reports
   and accounts for every byte: the outcome of tokenizing is fully determined
   by the munch from every position.
   */
  lemma {:induction false} ScanUnique(ms: seq<Option<(string, int)>>, start: int, t: seq<Output>)
    requires ValidTable(ms) && 0 <= start <= |ms|
    requires Reports(ms, start, t) && Covers(ms, start, t)
    ensures t == Scan(ms, start)
    decreases |ms| - start
  {
    var e := GapEnd(t, |ms|, 0);
    assert Skipped(ms, start, e);
    if start == |ms| {
    } else if e == start {
      var o := t[0];
      CoversTail(ms, start, t);
      ScanUnique(ms, End(o), t[1..]);
      assert t == [o] + t[1..];
    } else {
      var q := ms[start].value.1;
      CoversAfterSkip(ms, start, t);
      ScanUnique(ms, q + 1, t);
    }
  }

  /** When the first report begins where the scan stands, the other reports cover the text after it. */
  lemma CoversTail(ms: seq<Option<(string, int)>>, start: int, t: seq<Output>)
    requires Reports(ms, start, t) && Covers(ms, start, t)
    requires t != [] && Begin(t[0]) == start
    ensures Reports(ms, End(t[0]), t[1..]) && Covers(ms, End(t[0]), t[1..])
  {
    var o := t[0];
    var rest := t[1..];
    forall k | 0 <= k <= |rest| ensures Skipped(ms, GapStart(rest, End(o), k), GapEnd(rest, |ms|, k)) {
      assert GapStart(t, start, k + 1) == GapStart(rest, End(o), k);
      assert GapEnd(t, |ms|, k + 1) == GapEnd(rest, |ms|, k);
    }
    forall k | 0 <= k < |rest| ensures End(o) <= Begin(rest[k]) {
      assert rest[k] == t[k + 1];
    }
  }

  /** When the text at `start` is skipped before the first report, the same reports cover the text after that munch. */
  lemma CoversAfterSkip(ms: seq<Option<(string, int)>>, start: int, t: seq<Output>)
    requires Reports(ms, start, t) && Covers(ms, start, t)
    requires start < GapEnd(t, |ms|, 0)
    ensures ms[start].Some? && start <= ms[start].value.1
    ensures Reports(ms, ms[start].value.1 + 1, t) && Covers(ms, ms[start].value.1 + 1, t)
  {
    var e := GapEnd(t, |ms|, 0);
    assert Skipped(ms, start, e);
    var q := ms[start].value.1;
    assert Skipped(ms, q + 1, e);
    forall k | 0 <= k <= |t| ensures Skipped(ms, GapStart(t, q + 1, k), GapEnd(t, |ms|, k)) {
      assert k > 0 ==> GapStart(t, q + 1, k) == GapStart(t, start, k);
    }
    ReportsFromLater(ms, start, q + 1, t);
  }

  /** Reports from `start` that all begin at or after `later` are reports from `later`. */
  lemma ReportsFromLater(ms: seq<Option<(string, int)>>, start: int, later: int, t: seq<Output>)
    requires Reports(ms, start, t) && start <= later
    requires t != [] ==> later <= Begin(t[0])
    ensures Reports(ms, later, t)
  {
    forall k | 0 <= k < |t| ensures later <= Begin(t[k]) {
      if k > 0 {
        assert End(t[0]) <= Begin(t[k]);
      }
    }
  }

  /**
   Every reported token is the maximal munch from its own first byte, of a class
   that is reported; every error is at a byte from which nothing matches; and the
   reports lie in the text, in text order, without overlapping.
   */
  lemma TokenizeSound(sts: seq<State>, init: seq<int>, text: seq<byte>)
    requires WellFormed(sts)
    ensures var t := Tokenize(sts, init, text, 0);
      && (forall k :: 0 <= k < |t| ==> 0 <= Begin(t[k]) < End(t[k]) <= |text|)
      && (forall k :: 0 <= k < |t| && t[k].Recognized? ==>
            && t[k].cls != WHITE && t[k].cls != NEWLINE
            && Munch(sts, init, text, t[k].start) == Some((t[k].cls, t[k].end - 1)))
      && (forall k :: 0 <= k < |t| && t[k].LexicalError? ==> Munch(sts, init, text, t[k].at) == None)
      && (forall i, j :: 0 <= i < j < |t| ==> End(t[i]) <= Begin(t[j]))
      && Covers(Munches(sts, init, text), 0, t)
  {
    ScanReports(Munches(sts, init, text), 0);
  }

  /**
   The converse of TokenizeSound: any reports that keep its promises and, with
   the skipped WHITE and NEWLINE munches, account for the whole text are the
   reports of the scan.
   */
  lemma TokenizeUnique(sts: seq<State>, init: seq<int>, text: seq<byte>, t: seq<Output>)
    requires WellFormed(sts)
    requires forall k :: 0 <= k < |t| ==> 0 <= Begin(t[k]) < End(t[k]) <= |text|
    requires forall k :: 0 <= k < |t| && t[k].Recognized? ==>
      && t[k].cls != WHITE && t[k].cls != NEWLINE
      && Munch(sts, init, text, Begin(t[k])) == Some((t[k].cls, End(t[k]) - 1))
    requires forall k :: 0 <= k < |t| && t[k].LexicalError? ==> Munch(sts, init, text, Begin(t[k])) == None
    requires forall i, j :: 0 <= i < j < |t| ==> End(t[i]) <= Begin(t[j])
    requires Covers(Munches(sts, init, text), 0, t)
    ensures t == Tokenize(sts, init, text, 0)
  {
    MunchReports(sts, init, text, t);
    ScanUnique(Munches(sts, init, text), 0, t);
  }

  /** Reports stated against Munch are reports against the munch table of the text. */
  lemma MunchReports(sts: seq<State>, init: seq<int>, text: seq<byte>, t: seq<Output>)
    requires WellFormed(sts)
    requires forall k :: 0 <= k < |t| ==> 0 <= Begin(t[k]) < End(t[k]) <= |text|
    requires forall k :: 0 <= k < |t| && t[k].Recognized? ==>
      && t[k].cls != WHITE && t[k].cls != NEWLINE
      && Munch(sts, init, text, Begin(t[k])) == Some((t[k].cls, End(t[k]) - 1))
    requires forall k :: 0 <= k < |t| && t[k].LexicalError? ==> Munch(sts, init, text, Begin(t[k])) == None
    requires forall i, j :: 0 <= i < j < |t| ==> End(t[i]) <= Begin(t[j])
    ensures Reports(Munches(sts, init, text), 0, t)
  {
    var ms := Munches(sts, init, text);
    forall k | 0 <= k < |t| && t[k].Recognized? ensures ms[t[k].start] == Some((t[k].cls, t[k].end - 1)) {
      assert Begin(t[k]) == t[k].start && End(t[k]) == t[k].end;
    }
    forall k | 0 <= k < |t| && t[k].LexicalError? ensures ms[t[k].at] == None {
      assert Begin(t[k]) == t[k].at;
    }
  }

  /** A text in which no byte starts a match reports one error per byte. */
  lemma {:induction false} ScanAllErrors(ms: seq<Option<(string, int)>>, start: int)
    requires ValidTable(ms) && 0 <= start <= |ms|
    requires forall p :: start <= p < |ms| ==> ms[p] == None
    ensures Scan(ms, start) == seq(|ms| - start, k => LexicalError(start + k))
    decreases |ms| - start
  {
    if start < |ms| {
      ScanAllErrors(ms, start + 1);
      var errors := seq(|ms| - start, k => LexicalError(start + k));
      assert Scan(ms, start) == [LexicalError(start)] + Scan(ms, start + 1);
      assert errors == [errors[0]] + errors[1..];
    }
  }

  lemma TokenizeAllErrors(sts: seq<State>, init: seq<int>, text: seq<byte>)
    requires WellFormed(sts)
    requires forall p :: 0 <= p < |text| ==> Munch(sts, init, text, p) == None
    ensures Tokenize(sts, init, text, 0) == seq(|text|, k => LexicalError(k))
  {
    ScanAllErrors(Munches(sts, init, text), 0);
  }
}
