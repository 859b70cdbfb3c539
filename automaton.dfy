/**
 The state graph shared by the NFA builder and the simulator.

 States live in an arena (a sequence); a transition is the index of its target
 state, or NULL (-1) when unset.  A symbol-consuming state matches the inclusive
 byte range [lo, hi]; the pseudo-states MATCH and SPLIT use the reserved range
 values 256 and 257.
 */
module Automaton {

  newtype byte = x: int | 0 <= x < 256

  /** Reserved range value of a match state. */
  const MATCH: int := 256
  /** Reserved range value of a split (epsilon) state. */
  const SPLIT: int := 257
  /** The null transition. */
  const NULL: int := -1

  datatype State = State(lo: int, hi: int, t1: int, t2: int, tokenClass: string)

  /** Which of the two transition fields of a state a slot designates. */
  datatype Branch = First | Second

  /** A writable transition field: the state that owns it and which of its two fields. */
  datatype Slot = Slot(state: int, branch: Branch)

  /** The symbol test used for bytes and for the two sentinels alike. */
  predicate CheckStateOut(symbol: int, s: State)
  {
    s.lo <= symbol <= s.hi
  }

  predicate IsSplit(s: State) { CheckStateOut(SPLIT, s) }

  predicate IsMatch(s: State) { CheckStateOut(MATCH, s) }

  /** A state whose range lies within the bytes: what the builder creates for an operand. */
  predicate IsByteRange(s: State) { 0 <= s.lo && s.hi <= 255 }

  /** The sentinels never satisfy a byte range, and no byte satisfies a sentinel state. */
  lemma SentinelsAreNotBytes(s: State, b: byte)
    ensures IsByteRange(s) ==> !IsMatch(s) && !IsSplit(s)
    ensures s.lo == s.hi == MATCH ==> IsMatch(s) && !IsSplit(s) && !CheckStateOut(b as int, s)
    ensures s.lo == s.hi == SPLIT ==> IsSplit(s) && !IsMatch(s) && !CheckStateOut(b as int, s)
  {
  }

  function Target(s: State, b: Branch): int
  {
    if b == First then s.t1 else s.t2
  }

  /** Every transition of every state is NULL or the index of a state of the arena. */
  ghost predicate WellFormed(sts: seq<State>)
  {
    forall i :: 0 <= i < |sts| ==> -1 <= sts[i].t1 < |sts| && -1 <= sts[i].t2 < |sts|
  }

  ghost predicate SlotsIn(sts: seq<State>, outs: seq<Slot>)
  {
    forall k :: 0 <= k < |outs| ==> 0 <= outs[k].state < |sts|
  }

  ghost predicate Distinct<T>(s: seq<T>)
  {
    forall i, j :: 0 <= i < j < |s| ==> s[i] != s[j]
  }

  lemma DistinctConcat<T>(x: seq<T>, y: seq<T>)
    ensures Distinct(x + y) <==> Distinct(x) && Distinct(y) && (forall a :: a in x ==> a !in y)
  {
    if Distinct(x + y) {
      forall i, j | 0 <= i < j < |x| ensures x[i] != x[j] {
        assert x[i] == (x + y)[i] && x[j] == (x + y)[j];
      }
      forall i, j | 0 <= i < j < |y| ensures y[i] != y[j] {
        assert y[i] == (x + y)[|x| + i] && y[j] == (x + y)[|x| + j];
      }
      forall a | a in x ensures a !in y {
        var i :| 0 <= i < |x| && x[i] == a;
        forall j | 0 <= j < |y| ensures y[j] != a {
          assert (x + y)[i] == x[i] && (x + y)[|x| + j] == y[j];
        }
      }
    }
    if Distinct(x) && Distinct(y) && (forall a :: a in x ==> a !in y) {
      forall i, j | 0 <= i < j < |x + y| ensures (x + y)[i] != (x + y)[j] {
        if j < |x| {
        } else if i >= |x| {
          assert (x + y)[i] == y[i - |x|] && (x + y)[j] == y[j - |x|];
        } else {
          assert (x + y)[i] in x && (x + y)[j] in y;
        }
      }
    }
  }

  /** Set a single transition field. */
  function SetSlot(sts: seq<State>, slot: Slot, v: int): (r: seq<State>)
    requires 0 <= slot.state < |sts|
    ensures |r| == |sts|
    ensures Target(r[slot.state], slot.branch) == v
    ensures forall i, b :: 0 <= i < |sts| && Slot(i, b) != slot ==> Target(r[i], b) == Target(sts[i], b)
    ensures forall i :: 0 <= i < |sts| ==>
      r[i].lo == sts[i].lo && r[i].hi == sts[i].hi && r[i].tokenClass == sts[i].tokenClass
  {
    var s := sts[slot.state];
    sts[slot.state := if slot.branch == First then s.(t1 := v) else s.(t2 := v)]
  }
}
