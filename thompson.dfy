/**
 Thompson's construction over a postfix regular expression.

 The builder owns the state arena.  A fragment is a start state plus the list of
 dangling transition slots that the next combining operator (or the final match
 state) will patch.  Every operator is a method that appends at most one state
 and patches slots; its contract gives the new arena exactly.  The lemmas below
 the class show that the postfix driver keeps the build invariant BuildInv, so
 that a successful build leaves no live transition of its states unset.
 */
module Thompson {
  import opened Automaton

  /** Number of fragments the evaluation stack can hold. */
  const STACK_CAPACITY: nat := 1000

  // Bytes with a meaning in the postfix syntax.
  const TAB: byte := 9
  const LF: byte := 10
  const CR: byte := 13
  const FIRST_PRINTABLE: byte := 32
  const STAR: byte := 42       // '*'
  const PLUS: byte := 43       // '+'
  const DASH: byte := 45       // '-'
  const DOT: byte := 46        // '.'
  const QUESTION: byte := 63   // '?'
  const LBRACKET: byte := 91   // '['
  const BACKSLASH: byte := 92  // '\'
  const RBRACKET: byte := 93   // ']'
  const LOWER_N: byte := 110   // 'n'
  const LOWER_R: byte := 114   // 'r'
  const LOWER_T: byte := 116   // 't'
  const BAR: byte := 124       // '|'

  datatype Fragment = Fragment(start: int, outs: seq<Slot>)

  datatype BuildError =
    | InvalidSymbol(at: nat)   // a byte below 32 as a literal or after a backslash
    | BadRange(at: nat)        // a '[' not followed by x-y]
    | MissingOperand(at: nat)  // an operator with fewer fragments than it pops
    | StackOverflow(at: nat)   // an operand pushed onto a full stack
    | LeftOver(count: nat)     // the stack does not hold exactly one fragment at the end

  datatype Result<T> = Ok(value: T) | Err(error: BuildError)

  // ---------------------------------------------------------------------------
  // Slots and patching

  /** `after` is `before` with every slot named in `outs` pointing at `target` and nothing else changed. */
  ghost predicate Patched(before: seq<State>, after: seq<State>, outs: seq<Slot>, target: int)
  {
    && |after| == |before|
    && forall i :: 0 <= i < |before| ==>
         && after[i].lo == before[i].lo && after[i].hi == before[i].hi
         && after[i].tokenClass == before[i].tokenClass
         && after[i].t1 == (if Slot(i, First) in outs then target else before[i].t1)
         && after[i].t2 == (if Slot(i, Second) in outs then target else before[i].t2)
  }

  // ---------------------------------------------------------------------------
  // The postfix syntax as a reference: what each step of the evaluation reads

  /** `regex[j..]` starts with x-y] where x and y are printable. */
  predicate RangeShape(regex: seq<byte>, j: nat)
  {
    && j + 3 < |regex|
    && regex[j] >= FIRST_PRINTABLE && regex[j + 1] == DASH
    && regex[j + 2] >= FIRST_PRINTABLE && regex[j + 3] == RBRACKET
  }

  predicate IsBinaryOperator(c: byte) { c == DOT || c == BAR }

  predicate IsUnaryOperator(c: byte) { c == STAR || c == PLUS || c == QUESTION }

  /** The operand starting at `regex[i]` (not an operator): its byte range and the index after it. */
  function ReadOperand(regex: seq<byte>, i: nat): (r: Result<(int, int, int)>)
    requires i < |regex|
    ensures r.Ok? ==> i < r.value.2 <= |regex| && 0 <= r.value.0 && r.value.1 <= 255
  {
    var c := regex[i];
    if c == BACKSLASH then
      if i + 1 < |regex| && regex[i + 1] == LOWER_T then Ok((TAB as int, TAB as int, i + 2))
      else if i + 1 < |regex| && regex[i + 1] == LOWER_N then Ok((LF as int, LF as int, i + 2))
      else if i + 1 < |regex| && regex[i + 1] == LOWER_R then Ok((CR as int, CR as int, i + 2))
      else if i + 1 < |regex| && regex[i + 1] >= FIRST_PRINTABLE then
        Ok((regex[i + 1] as int, regex[i + 1] as int, i + 2))
      else Err(InvalidSymbol(i + 1))
    else if c == LBRACKET then
      if RangeShape(regex, i + 1) then Ok((regex[i + 1] as int, regex[i + 3] as int, i + 5))
      else Err(BadRange(i))
    else if c >= FIRST_PRINTABLE then Ok((c as int, c as int, i + 1))
    else Err(InvalidSymbol(i))
  }

  /**
   The postfix evaluation abstracted to the stack depth: the result is the first
   error the evaluation meets, or the byte ranges of the operands in reading order.
   */
  function Postfix(regex: seq<byte>, i: nat, depth: nat, ranges: seq<(int, int)>): Result<seq<(int, int)>>
    requires i <= |regex|
    decreases |regex| - i
  {
    if i == |regex| then
      if depth == 1 then Ok(ranges) else Err(LeftOver(depth))
    else if IsBinaryOperator(regex[i]) then
      if depth < 2 then Err(MissingOperand(i)) else Postfix(regex, i + 1, depth - 1, ranges)
    else if IsUnaryOperator(regex[i]) then
      if depth < 1 then Err(MissingOperand(i)) else Postfix(regex, i + 1, depth, ranges)
    else
      match ReadOperand(regex, i)
      case Err(e) => Err(e)
      case Ok((lo, hi, next)) =>
        if depth == STACK_CAPACITY then Err(StackOverflow(i))
        else Postfix(regex, next, depth + 1, ranges + [(lo, hi)])
  }

  /** One step of the evaluation: an operator pops its operands, an operand is read and pushed. */
  lemma PostfixStep(regex: seq<byte>, i: nat, depth: nat, ranges: seq<(int, int)>)
    requires i < |regex|
    ensures IsBinaryOperator(regex[i]) ==>
      Postfix(regex, i, depth, ranges)
      == if depth < 2 then Err(MissingOperand(i)) else Postfix(regex, i + 1, depth - 1, ranges)
    ensures IsUnaryOperator(regex[i]) ==>
      Postfix(regex, i, depth, ranges)
      == if depth < 1 then Err(MissingOperand(i)) else Postfix(regex, i + 1, depth, ranges)
    ensures !IsBinaryOperator(regex[i]) && !IsUnaryOperator(regex[i]) ==>
      Postfix(regex, i, depth, ranges)
      == match ReadOperand(regex, i)
         case Err(e) => Err(e)
         case Ok((lo, hi, next)) =>
           if depth == STACK_CAPACITY then Err(StackOverflow(i))
           else Postfix(regex, next, depth + 1, ranges + [(lo, hi)])
  {
  }

  /** The escapes \t, \n and \r stand for the control bytes 9, 10 and 13; any other printable byte escapes itself. */
  lemma EscapedOperands(regex: seq<byte>, i: nat)
    requires i + 1 < |regex| && regex[i] == BACKSLASH
    ensures regex[i + 1] == LOWER_T ==> ReadOperand(regex, i) == Ok((9, 9, i + 2))
    ensures regex[i + 1] == LOWER_N ==> ReadOperand(regex, i) == Ok((10, 10, i + 2))
    ensures regex[i + 1] == LOWER_R ==> ReadOperand(regex, i) == Ok((13, 13, i + 2))
    ensures regex[i + 1] !in {LOWER_T, LOWER_N, LOWER_R} ==>
      (ReadOperand(regex, i).Ok? <==> regex[i + 1] >= FIRST_PRINTABLE)
    ensures ReadOperand(regex, i).Ok? && regex[i + 1] !in {LOWER_T, LOWER_N, LOWER_R} ==>
      ReadOperand(regex, i).value == (regex[i + 1] as int, regex[i + 1] as int, i + 2)
  {
  }

  /** A successful evaluation reads at least one operand, and the ranges read so far are kept in order. */
  lemma {:induction false} PostfixReadsOperands(regex: seq<byte>, i: nat, depth: nat, ranges: seq<(int, int)>)
    requires i <= |regex|
    requires Postfix(regex, i, depth, ranges).Ok?
    ensures var rs := Postfix(regex, i, depth, ranges).value;
      |ranges| <= |rs| && rs[..|ranges|] == ranges && (depth == 0 ==> |rs| > |ranges|)
    decreases |regex| - i
  {
    if i == |regex| {
    } else if IsBinaryOperator(regex[i]) {
      PostfixReadsOperands(regex, i + 1, depth - 1, ranges);
    } else if IsUnaryOperator(regex[i]) {
      PostfixReadsOperands(regex, i + 1, depth, ranges);
    } else {
      var op := ReadOperand(regex, i).value;
      PostfixReadsOperands(regex, op.2, depth + 1, ranges + [(op.0, op.1)]);
    }
  }

  // ---------------------------------------------------------------------------
  // The construction as a reference: the arena and the fragment stack after each byte

  /** State `i` of an arena with its fields named in `outs` pointing at `target`. */
  function PatchState(s: State, i: int, outs: seq<Slot>, target: int): State
  {
    s.(t1 := if Slot(i, First) in outs then target else s.t1,
       t2 := if Slot(i, Second) in outs then target else s.t2)
  }

  /** `sts` with every slot of `outs` pointing at `target`: what ConnectAutomata leaves behind. */
  function Patch(sts: seq<State>, outs: seq<Slot>, target: int): (r: seq<State>)
    ensures Patched(sts, r, outs, target)
  {
    if sts == [] then []
    else Patch(sts[..|sts| - 1], outs, target) + [PatchState(sts[|sts| - 1], |sts| - 1, outs, target)]
  }

  /** Patching determines the new arena: whatever satisfies Patched is Patch. */
  lemma PatchedIsPatch(before: seq<State>, after: seq<State>, outs: seq<Slot>, target: int)
    requires Patched(before, after, outs, target)
    ensures after == Patch(before, outs, target)
  {
    var p := Patch(before, outs, target);
    forall i | 0 <= i < |after| ensures after[i] == p[i] {
      assert after[i] == State(after[i].lo, after[i].hi, after[i].t1, after[i].t2, after[i].tokenClass);
    }
  }

  /** The arena and the fragment stack between two bytes of the regex. */
  datatype Build = Build(sts: seq<State>, stack: seq<Fragment>)

  /**
   A binary operator on the two top fragments.  For `.` the top is E2 and the one
   below it E1; for `|` the top is E1 and the one below it E2.
   */
  function BinaryStep(c: byte, b: Build): Build
    requires |b.stack| >= 2
  {
    var top := b.stack[|b.stack| - 1];
    var below := b.stack[|b.stack| - 2];
    var rest := b.stack[..|b.stack| - 2];
    var n := |b.sts|;
    if c == DOT then
      Build(Patch(b.sts, below.outs, top.start), rest + [Fragment(below.start, top.outs)])
    else
      Build(b.sts + [State(SPLIT, SPLIT, top.start, below.start, "")], rest + [Fragment(n, top.outs + below.outs)])
  }

  /** A unary operator on the top fragment E: a new split entering E, then star, plus or optional. */
  function UnaryStep(c: byte, b: Build): Build
    requires |b.stack| >= 1
  {
    var e := b.stack[|b.stack| - 1];
    var rest := b.stack[..|b.stack| - 1];
    var n := |b.sts|;
    var split := State(SPLIT, SPLIT, e.start, NULL, "");
    if c == QUESTION then
      Build(b.sts + [split], rest + [Fragment(n, e.outs + [Slot(n, Second)])])
    else if c == STAR then
      Build(Patch(b.sts + [split], e.outs, n), rest + [Fragment(n, [Slot(n, Second)])])
    else
      Build(Patch(b.sts + [split], e.outs, n), rest + [Fragment(e.start, [Slot(n, Second)])])
  }

  /** An operand: one new state for the range, its first field the fragment's only slot. */
  function OperandStep(lo: int, hi: int, b: Build): Build
  {
    var n := |b.sts|;
    Build(b.sts + [State(lo, hi, NULL, NULL, "")], b.stack + [Fragment(n, [Slot(n, First)])])
  }

  /**
   One step of the postfix evaluation at `regex[i]`: an operator combines the top
   fragments, anything else is read as an operand and pushed.  The result is the
   error, or the index after what was read and the new build.
   */
  function EvaluateStep(regex: seq<byte>, i: nat, b: Build): (r: Result<(nat, Build)>)
    requires i < |regex|
    ensures r.Ok? ==> i < r.value.0 <= |regex|
  {
    if IsBinaryOperator(regex[i]) then
      if |b.stack| < 2 then Err(MissingOperand(i)) else Ok((i + 1, BinaryStep(regex[i], b)))
    else if IsUnaryOperator(regex[i]) then
      if |b.stack| < 1 then Err(MissingOperand(i)) else Ok((i + 1, UnaryStep(regex[i], b)))
    else
      match ReadOperand(regex, i)
      case Err(e) => Err(e)
      case Ok((lo, hi, next)) =>
        if |b.stack| == STACK_CAPACITY then Err(StackOverflow(i)) else Ok((next, OperandStep(lo, hi, b)))
  }

  /** The postfix evaluation from `regex[i]` on: the first error it meets, or the build it ends with. */
  function Evaluate(regex: seq<byte>, i: nat, b: Build): Result<Build>
    requires i <= |regex|
    decreases |regex| - i
  {
    if i == |regex| then Ok(b)
    else
      match EvaluateStep(regex, i, b)
      case Err(e) => Err(e)
      case Ok((next, b')) => Evaluate(regex, next, b')
  }

  /** The match state that ends every finished automaton, tagged with its token class. */
  function MatchState(tokenClass: string): State
  {
    State(MATCH, MATCH, NULL, NULL, tokenClass)
  }

  /**
   The top fragment of a build finished on its own: its slots point at a new match
   state appended to the arena, the last step of Generate.
   */
  function Finish(b: Build, tokenClass: string): (r: seq<State>)
    requires |b.stack| >= 1
    ensures |r| == |b.sts| + 1 && IsMatch(r[|b.sts|]) && r[|b.sts|].tokenClass == tokenClass
  {
    Patch(b.sts + [MatchState(tokenClass)], b.stack[|b.stack| - 1].outs, |b.sts|)
  }

  /**
   The whole construction on the arena `sts`: evaluate the regex from an empty
   stack, demand exactly one fragment, and patch its slots to a new match state
   tagged with `tokenClass`.  The result is the new arena and that fragment.
   */
  function Generate(regex: seq<byte>, tokenClass: string, sts: seq<State>): Result<(seq<State>, Fragment)>
  {
    match Evaluate(regex, 0, Build(sts, []))
    case Err(e) => Err(e)
    case Ok(b) =>
      if |b.stack| != 1 then Err(LeftOver(|b.stack|))
      else Ok((Finish(b, tokenClass), b.stack[0]))
  }

  // ---------------------------------------------------------------------------
  // The build invariant

  /** Whether a transition field of a state is meant to be connected: both of a split, the first of a byte range. */
  ghost predicate Live(s: State, b: Branch)
  {
    if b == First then !IsMatch(s) else IsSplit(s)
  }

  /** All out-slots of a stack of fragments, bottom first. */
  ghost function Flat(stack: seq<Fragment>): seq<Slot>
  {
    if stack == [] then [] else Flat(stack[..|stack| - 1]) + stack[|stack| - 1].outs
  }

  /** A slot still waiting for a target: a live, unset field of a state created by this build. */
  ghost predicate Pending(sts: seq<State>, base: nat, slot: Slot)
  {
    base <= slot.state < |sts| && Target(sts[slot.state], slot.branch) == NULL && Live(sts[slot.state], slot.branch)
  }

  /** Every slot of `outs` is pending. */
  ghost predicate AllPending(sts: seq<State>, base: nat, outs: seq<Slot>)
  {
    forall slot :: slot in outs ==> Pending(sts, base, slot)
  }

  /** Every pending field of a state of this build is listed in `outs`. */
  ghost predicate Listed(sts: seq<State>, base: nat, outs: seq<Slot>)
  {
    forall i, b :: base <= i < |sts| && Live(sts[i], b) && Target(sts[i], b) == NULL ==> Slot(i, b) in outs
  }

  /**
   The arena is well formed and the pending fields of the build whose states
   start at index `base` are exactly the slots of `outs`, each listed once.
   */
  ghost predicate SlotInv(sts: seq<State>, base: nat, outs: seq<Slot>)
  {
    && WellFormed(sts) && base <= |sts|
    && AllPending(sts, base, outs) && Distinct(outs) && Listed(sts, base, outs)
  }

  /**
   The invariant of one build whose states start at index `base`: fragments
   start at states of this build, and the out-slots of the stack, bottom first,
   are the pending fields of the build, each listed once.
   */
  ghost predicate BuildInv(sts: seq<State>, base: nat, stack: seq<Fragment>)
  {
    && (forall j :: 0 <= j < |stack| ==> base <= stack[j].start < |sts|)
    && SlotInv(sts, base, Flat(stack))
  }

  /** No live field of a state of this build is left unset. */
  ghost predicate Connected(sts: seq<State>, base: nat)
  {
    forall i, b :: base <= i < |sts| && Live(sts[i], b) ==> Target(sts[i], b) != NULL
  }

  /** The byte ranges of the operand states of an arena, in creation order. */
  ghost function OperandRanges(sts: seq<State>): seq<(int, int)>
  {
    if sts == [] then []
    else
      var last := sts[|sts| - 1];
      OperandRanges(sts[..|sts| - 1]) + (if IsByteRange(last) then [(last.lo, last.hi)] else [])
  }

  lemma FlatPush(stack: seq<Fragment>, f: Fragment)
    ensures Flat(stack + [f]) == Flat(stack) + f.outs
  {
    assert (stack + [f])[..|stack|] == stack;
  }

  lemma FlatPushTwo(stack: seq<Fragment>, f: Fragment, g: Fragment)
    ensures stack + [f, g] == (stack + [f]) + [g]
    ensures Flat(stack + [f, g]) == Flat(stack) + f.outs + g.outs
  {
    assert stack + [f, g] == (stack + [f]) + [g];
    FlatPush(stack + [f], g);
    FlatPush(stack, f);
  }

  lemma DistinctSwapTail<T>(a: seq<T>, b: seq<T>, c: seq<T>)
    requires Distinct(a + b + c)
    ensures Distinct(a + (c + b))
  {
    DistinctConcat(a + b, c);
    DistinctConcat(a, b);
    DistinctConcat(c, b);
    DistinctConcat(a, c + b);
  }

  /** An arena grown by one state keeps the ranges of the old ones and adds the new one's if it is an operand. */
  lemma OperandRangesPush(sts: seq<State>, base: nat, s: State)
    requires base <= |sts|
    ensures (sts + [s])[base..] == sts[base..] + [s]
    ensures OperandRanges((sts + [s])[base..])
         == OperandRanges(sts[base..]) + (if IsByteRange(s) then [(s.lo, s.hi)] else [])
  {
    assert (sts + [s])[base..] == sts[base..] + [s];
    assert (sts[base..] + [s])[..|sts[base..]|] == sts[base..];
  }

  /** Patching transitions leaves the operand ranges alone. */
  lemma {:induction false} OperandRangesSameRanges(a: seq<State>, b: seq<State>)
    requires |a| == |b|
    requires forall i :: 0 <= i < |a| ==> a[i].lo == b[i].lo && a[i].hi == b[i].hi
    ensures OperandRanges(a) == OperandRanges(b)
  {
    if a != [] {
      OperandRangesSameRanges(a[..|a| - 1], b[..|b| - 1]);
    }
  }

  lemma PatchedKeepsOutside(before: seq<State>, after: seq<State>, outs: seq<Slot>, target: int, base: nat)
    requires Patched(before, after, outs, target) && base <= |before|
    requires forall slot :: slot in outs ==> slot.state >= base
    ensures after[..base] == before[..base]
    ensures OperandRanges(after[base..]) == OperandRanges(before[base..])
  {
    assert forall i :: 0 <= i < base ==> Slot(i, First) !in outs && Slot(i, Second) !in outs;
    assert forall i :: 0 <= i < base ==> after[i] == before[i];
    OperandRangesSameRanges(after[base..], before[base..]);
  }

  lemma {:induction false} FlatContains(stack: seq<Fragment>, j: nat)
    requires j < |stack|
    ensures forall slot :: slot in stack[j].outs ==> slot in Flat(stack)
  {
    if j < |stack| - 1 {
      FlatContains(stack[..|stack| - 1], j);
    }
  }

  /** Each fragment's slots are pending, hence name states of the arena. */
  lemma OutsPending(sts: seq<State>, base: nat, stack: seq<Fragment>, j: nat)
    requires BuildInv(sts, base, stack) && j < |stack|
    ensures SlotsIn(sts, stack[j].outs)
    ensures forall slot :: slot in stack[j].outs ==> Pending(sts, base, slot)
  {
    FlatContains(stack, j);
    forall k | 0 <= k < |stack[j].outs| ensures 0 <= stack[j].outs[k].state < |sts| {
      assert stack[j].outs[k] in Flat(stack);
    }
  }

  /** Appending a state leaves the older states and their operand ranges as they were. */
  lemma GrowKeepsOutside(sts: seq<State>, base: nat, s: State)
    requires base <= |sts|
    ensures (sts + [s])[..base] == sts[..base]
    ensures OperandRanges((sts + [s])[base..])
         == OperandRanges(sts[base..]) + (if IsByteRange(s) then [(s.lo, s.hi)] else [])
  {
    OperandRangesPush(sts, base, s);
  }

  /** The slot invariant depends only on which slots are listed, as long as none is listed twice. */
  lemma Reorder(sts: seq<State>, base: nat, outs: seq<Slot>, outs': seq<Slot>)
    requires SlotInv(sts, base, outs) && Distinct(outs')
    requires forall slot :: slot in outs' <==> slot in outs
    ensures SlotInv(sts, base, outs')
  {
  }

  /** Appending a state whose pending fields are exactly the slots `news` lists them after the old ones. */
  lemma GrowKeepsSlots(sts: seq<State>, base: nat, outs: seq<Slot>, s: State, news: seq<Slot>)
    requires SlotInv(sts, base, outs)
    requires -1 <= s.t1 < |sts| && -1 <= s.t2 < |sts|
    requires Distinct(news)
    requires forall slot :: slot in news <==> slot.state == |sts| && Live(s, slot.branch) && Target(s, slot.branch) == NULL
    ensures SlotInv(sts + [s], base, outs + news)
  {
    var n := |sts|;
    var after := sts + [s];
    forall i | 0 <= i < |after| ensures -1 <= after[i].t1 < |after| && -1 <= after[i].t2 < |after| {
      if i < n {
        assert after[i] == sts[i];
      }
    }
    forall slot | slot in outs ensures slot !in news && Pending(after, base, slot) {
      assert Pending(sts, base, slot);
      assert after[slot.state] == sts[slot.state];
    }
    forall slot | slot in news ensures Pending(after, base, slot) {
      assert after[slot.state] == s;
    }
    DistinctConcat(outs, news);
    forall i, b | base <= i < |after| && Live(after[i], b) && Target(after[i], b) == NULL
      ensures Slot(i, b) in outs + news
    {
      if i < n {
        assert after[i] == sts[i];
        assert Slot(i, b) in outs;
      } else {
        assert Slot(i, b) in news;
      }
    }
  }

  /**
   Pointing the slots `patched` at an existing state: those fields stop being
   pending, and the remaining slots `rest` are still pending and listed.
   */
  lemma PatchKeepsSlots(sts: seq<State>, after: seq<State>, base: nat, outs: seq<Slot>,
                        patched: seq<Slot>, rest: seq<Slot>, target: int)
    requires SlotInv(sts, base, outs) && Patched(sts, after, patched, target) && 0 <= target < |sts|
    requires forall slot :: slot in outs <==> slot in rest || slot in patched
    requires forall slot :: slot in patched ==> slot !in rest
    requires Distinct(rest)
    ensures SlotInv(after, base, rest)
    ensures after[..base] == sts[..base] && OperandRanges(after[base..]) == OperandRanges(sts[base..])
  {
    forall i | 0 <= i < |after| ensures -1 <= after[i].t1 < |after| && -1 <= after[i].t2 < |after| {
    }
    forall slot | slot in rest ensures Pending(after, base, slot) {
      assert Pending(sts, base, slot);
    }
    forall i, b | base <= i < |after| && Live(after[i], b) && Target(after[i], b) == NULL
      ensures Slot(i, b) in rest
    {
      assert Slot(i, b) !in patched;
      assert Live(sts[i], b) && Target(sts[i], b) == NULL;
    }
    forall slot | slot in patched ensures slot.state >= base {
      assert Pending(sts, base, slot);
    }
    PatchedKeepsOutside(sts, after, patched, target, base);
  }

  /** Pushing an operand's fragment (one fresh byte-range state, its first field pending). */
  lemma OperandKeepsInv(sts: seq<State>, base: nat, stack: seq<Fragment>, lo: int, hi: int)
    requires BuildInv(sts, base, stack)
    requires 0 <= lo && hi <= 255
    ensures BuildInv(sts + [State(lo, hi, NULL, NULL, "")], base,
                     stack + [Fragment(|sts|, [Slot(|sts|, First)])])
  {
    var n := |sts|;
    FlatPush(stack, Fragment(n, [Slot(n, First)]));
    GrowKeepsSlots(sts, base, Flat(stack), State(lo, hi, NULL, NULL, ""), [Slot(n, First)]);
  }

  /** Concatenation: E1's slots are patched to E2's start; the result keeps E2's slots. */
  lemma ConcatKeepsInv(sts: seq<State>, after: seq<State>, base: nat, stack: seq<Fragment>, e1: Fragment, e2: Fragment)
    requires BuildInv(sts, base, stack + [e1, e2])
    requires Patched(sts, after, e1.outs, e2.start)
    ensures BuildInv(after, base, stack + [Fragment(e1.start, e2.outs)])
    ensures after[..base] == sts[..base] && OperandRanges(after[base..]) == OperandRanges(sts[base..])
  {
    var old_ := stack + [e1, e2];
    FlatPushTwo(stack, e1, e2);
    FlatPush(stack, Fragment(e1.start, e2.outs));
    assert old_[|old_| - 1] == e2 && old_[|old_| - 2] == e1;
    forall j | 0 <= j < |stack| ensures base <= stack[j].start < |sts| {
      assert old_[j] == stack[j];
    }
    DropMiddle(Flat(stack), e1.outs, e2.outs);
    PatchKeepsSlots(sts, after, base, Flat(stack) + e1.outs + e2.outs, e1.outs, Flat(stack) + e2.outs, e2.start);
  }

  /** Taking the middle part out of a duplicate-free list splits its members between the middle and the rest. */
  lemma DropMiddle<T>(a: seq<T>, b: seq<T>, c: seq<T>)
    requires Distinct(a + b + c)
    ensures Distinct(a + c)
    ensures forall x :: x in a + b + c <==> x in a + c || x in b
    ensures forall x :: x in b ==> x !in a + c
  {
    DistinctConcat(a + b, c);
    DistinctConcat(a, b);
    DistinctConcat(a, c);
  }

  /** Union: one new split with both fragment starts; the result lists E1's slots then E2's. */
  lemma UnionKeepsInv(sts: seq<State>, base: nat, stack: seq<Fragment>, e2: Fragment, e1: Fragment)
    requires BuildInv(sts, base, stack + [e2, e1])
    ensures BuildInv(sts + [State(SPLIT, SPLIT, e1.start, e2.start, "")], base,
                     stack + [Fragment(|sts|, e1.outs + e2.outs)])
  {
    var n := |sts|;
    var old_ := stack + [e2, e1];
    var joined := Flat(stack) + (e1.outs + e2.outs);
    FlatPushTwo(stack, e2, e1);
    FlatPush(stack, Fragment(n, e1.outs + e2.outs));
    assert old_[|old_| - 1] == e1 && old_[|old_| - 2] == e2;
    DistinctSwapTail(Flat(stack), e2.outs, e1.outs);
    Reorder(sts, base, Flat(stack) + e2.outs + e1.outs, joined);
    GrowKeepsSlots(sts, base, joined, State(SPLIT, SPLIT, e1.start, e2.start, ""), []);
    assert joined + [] == joined;
  }

  /** The top fragment may start at any state of the build. */
  lemma Restart(sts: seq<State>, base: nat, stack: seq<Fragment>, f: Fragment, start: int)
    requires BuildInv(sts, base, stack + [f]) && base <= start < |sts|
    ensures BuildInv(sts, base, stack + [Fragment(start, f.outs)])
  {
    FlatPush(stack, f);
    FlatPush(stack, Fragment(start, f.outs));
    forall j | 0 <= j < |stack| ensures base <= stack[j].start < |sts| {
      assert (stack + [f])[j] == stack[j];
    }
  }

  /** The build invariant depends on the stack only through its slots, in order, and its fragments' starts. */
  lemma Regroup(sts: seq<State>, base: nat, stack: seq<Fragment>, stack': seq<Fragment>)
    requires BuildInv(sts, base, stack) && Flat(stack') == Flat(stack)
    requires forall j :: 0 <= j < |stack'| ==> base <= stack'[j].start < |sts|
    ensures BuildInv(sts, base, stack')
  {
  }

  /**
   A new split whose first field enters E and whose second field is pending:
   the stack gains a fragment at the split whose only slot is that second field.
   */
  lemma SplitKeepsInv(sts: seq<State>, base: nat, stack: seq<Fragment>, e: Fragment)
    requires BuildInv(sts, base, stack + [e])
    ensures BuildInv(sts + [State(SPLIT, SPLIT, e.start, NULL, "")], base,
                     stack + [e, Fragment(|sts|, [Slot(|sts|, Second)])])
  {
    var n := |sts|;
    FlatPushTwo(stack, e, Fragment(n, [Slot(n, Second)]));
    FlatPush(stack, e);
    assert (stack + [e])[|stack|] == e;
    GrowKeepsSlots(sts, base, Flat(stack) + e.outs, State(SPLIT, SPLIT, e.start, NULL, ""), [Slot(n, Second)]);
  }

  /**
   Star and one-or-more: a new split whose first field enters E, E's slots patched
   back to the split, and the split's second field as the only slot; the result
   starts at `entry`, the split for star and E's start for one-or-more.
   */
  lemma RepeatKeepsInv(sts: seq<State>, after: seq<State>, base: nat, stack: seq<Fragment>, e: Fragment, entry: int)
    requires BuildInv(sts, base, stack + [e])
    requires Patched(sts + [State(SPLIT, SPLIT, e.start, NULL, "")], after, e.outs, |sts|)
    requires entry == |sts| || entry == e.start
    ensures BuildInv(after, base, stack + [Fragment(entry, [Slot(|sts|, Second)])])
    ensures after[..base] == sts[..base] && OperandRanges(after[base..]) == OperandRanges(sts[base..])
  {
    var n := |sts|;
    var split := State(SPLIT, SPLIT, e.start, NULL, "");
    var g := Fragment(n, [Slot(n, Second)]);
    SplitKeepsInv(sts, base, stack, e);
    ConcatKeepsInv(sts + [split], after, base, stack, e, g);
    Restart(after, base, stack, Fragment(e.start, g.outs), entry);
    GrowKeepsOutside(sts, base, split);
  }

  /** Zero-or-one: a new split whose first field enters E; E's slots stay open and the split's second field joins them. */
  lemma OptionalKeepsInv(sts: seq<State>, base: nat, stack: seq<Fragment>, e: Fragment)
    requires BuildInv(sts, base, stack + [e])
    ensures BuildInv(sts + [State(SPLIT, SPLIT, e.start, NULL, "")], base,
                     stack + [Fragment(|sts|, e.outs + [Slot(|sts|, Second)])])
  {
    var n := |sts|;
    var g := Fragment(n, [Slot(n, Second)]);
    var f := Fragment(n, e.outs + [Slot(n, Second)]);
    SplitKeepsInv(sts, base, stack, e);
    FlatPushTwo(stack, e, g);
    FlatPush(stack, f);
    assert (Flat(stack) + e.outs) + [Slot(n, Second)] == Flat(stack) + (e.outs + [Slot(n, Second)]);
    forall j | 0 <= j < |stack| ensures base <= stack[j].start < n {
      assert (stack + [e, g])[j] == stack[j];
    }
    Regroup(sts + [State(SPLIT, SPLIT, e.start, NULL, "")], base, stack + [e, g], stack + [f]);
  }

  /** A final non-operand state adds no operand range, before or after patching. */
  lemma DropLastRanges(sts: seq<State>, after: seq<State>, base: nat, m: State)
    requires base <= |sts| && |after| == |sts| + 1 && after[|sts|] == m && !IsByteRange(m)
    requires OperandRanges(after[base..]) == OperandRanges((sts + [m])[base..])
    ensures OperandRanges(after[base..|after| - 1]) == OperandRanges(sts[base..])
  {
    var n := |sts|;
    calc {
      OperandRanges(after[base..|after| - 1]);
      { assert after[..n][base..] == after[base..|after| - 1]; }
      OperandRanges(after[..n][base..]) + [];
      { assert after[..n] + [m] == after;
        OperandRangesPush(after[..n], base, m); }
      OperandRanges(after[base..]);
      OperandRanges((sts + [m])[base..]);
      { GrowKeepsOutside(sts, base, m); }
      OperandRanges(sts[base..]) + [];
    }
  }

  /** Appending a state with no live field and patching every pending slot to it leaves nothing pending. */
  lemma PatchAllKeepsSlots(sts: seq<State>, after: seq<State>, base: nat, outs: seq<Slot>, m: State)
    requires SlotInv(sts, base, outs) && m.lo == m.hi == MATCH && m.t1 == m.t2 == NULL
    requires Patched(sts + [m], after, outs, |sts|)
    ensures SlotInv(after, base, []) && Connected(after, base)
    ensures after[..base] == sts[..base] && OperandRanges(after[base..]) == OperandRanges((sts + [m])[base..])
  {
    GrowKeepsSlots(sts, base, outs, m, []);
    assert outs + [] == outs;
    PatchKeepsSlots(sts + [m], after, base, outs, outs, [], |sts|);
    GrowKeepsOutside(sts, base, m);
  }

  /** Attaching the match state to the last fragment connects every live field of the build. */
  lemma FinishConnects(sts: seq<State>, after: seq<State>, base: nat, e: Fragment, tokenClass: string)
    requires BuildInv(sts, base, [e])
    requires Patched(sts + [MatchState(tokenClass)], after, e.outs, |sts|)
    ensures WellFormed(after) && Connected(after, base)
    ensures forall slot :: slot in e.outs ==> 0 <= slot.state < |after| && Target(after[slot.state], slot.branch) == |sts|
    ensures |after| == |sts| + 1 && after[|sts|] == MatchState(tokenClass)
    ensures base <= e.start < |sts|
    ensures after[..base] == sts[..base] && OperandRanges(after[base..|after| - 1]) == OperandRanges(sts[base..])
  {
    var n := |sts|;
    var m := MatchState(tokenClass);
    assert Flat([e]) == e.outs by {
      assert [e][..0] == [];
    }
    PatchAllKeepsSlots(sts, after, base, e.outs, m);
    forall slot | slot in e.outs ensures 0 <= slot.state < n && Target(after[slot.state], slot.branch) == n {
      assert Pending(sts, base, slot);
    }
    assert Slot(n, First) !in e.outs && Slot(n, Second) !in e.outs;
    DropLastRanges(sts, after, base, m);
  }

  // ---------------------------------------------------------------------------
  // The reference construction keeps the build invariant and follows the postfix syntax

  /** A binary step keeps the invariant with one fragment fewer, the older states and the operand ranges. */
  lemma BinaryStepKeepsInv(c: byte, b: Build, base: nat)
    requires BuildInv(b.sts, base, b.stack) && |b.stack| >= 2
    ensures var r := BinaryStep(c, b);
      && BuildInv(r.sts, base, r.stack) && |r.stack| == |b.stack| - 1
      && r.sts[..base] == b.sts[..base] && OperandRanges(r.sts[base..]) == OperandRanges(b.sts[base..])
  {
    var top := b.stack[|b.stack| - 1];
    var below := b.stack[|b.stack| - 2];
    var rest := b.stack[..|b.stack| - 2];
    assert b.stack == rest + [below, top];
    if c == DOT {
      ConcatKeepsInv(b.sts, BinaryStep(c, b).sts, base, rest, below, top);
    } else {
      UnionKeepsInv(b.sts, base, rest, below, top);
      GrowKeepsOutside(b.sts, base, State(SPLIT, SPLIT, top.start, below.start, ""));
    }
  }

  /** A unary step keeps the invariant, the number of fragments, the older states and the operand ranges. */
  lemma UnaryStepKeepsInv(c: byte, b: Build, base: nat)
    requires BuildInv(b.sts, base, b.stack) && |b.stack| >= 1
    ensures var r := UnaryStep(c, b);
      && BuildInv(r.sts, base, r.stack) && |r.stack| == |b.stack|
      && r.sts[..base] == b.sts[..base] && OperandRanges(r.sts[base..]) == OperandRanges(b.sts[base..])
  {
    var e := b.stack[|b.stack| - 1];
    var rest := b.stack[..|b.stack| - 1];
    assert b.stack == rest + [e];
    if c == QUESTION {
      OptionalKeepsInv(b.sts, base, rest, e);
      GrowKeepsOutside(b.sts, base, State(SPLIT, SPLIT, e.start, NULL, ""));
    } else {
      RepeatKeepsInv(b.sts, UnaryStep(c, b).sts, base, rest, e, if c == STAR then |b.sts| else e.start);
    }
  }

  /** An operand step keeps the invariant with one fragment more and appends the operand's range. */
  lemma OperandStepKeepsInv(lo: int, hi: int, b: Build, base: nat)
    requires BuildInv(b.sts, base, b.stack) && 0 <= lo && hi <= 255
    ensures var r := OperandStep(lo, hi, b);
      && BuildInv(r.sts, base, r.stack) && |r.stack| == |b.stack| + 1
      && r.sts[..base] == b.sts[..base] && OperandRanges(r.sts[base..]) == OperandRanges(b.sts[base..]) + [(lo, hi)]
  {
    OperandKeepsInv(b.sts, base, b.stack, lo, hi);
    GrowKeepsOutside(b.sts, base, State(lo, hi, NULL, NULL, ""));
  }

  /**
   One reference step keeps the build invariant and the older states, keeps the
   stack within its capacity, and takes the same step as the postfix syntax: the
   same error, or the same next index with the new depth and operand ranges.
   */
  lemma EvaluateStepKeepsInv(regex: seq<byte>, i: nat, b: Build, base: nat)
    requires i < |regex| && BuildInv(b.sts, base, b.stack) && |b.stack| <= STACK_CAPACITY
    ensures var r := EvaluateStep(regex, i, b);
      var p := Postfix(regex, i, |b.stack|, OperandRanges(b.sts[base..]));
      && (r.Err? ==> p == Err(r.error))
      && (r.Ok? ==>
            var (next, b') := r.value;
            && BuildInv(b'.sts, base, b'.stack) && |b'.stack| <= STACK_CAPACITY
            && b'.sts[..base] == b.sts[..base]
            && p == Postfix(regex, next, |b'.stack|, OperandRanges(b'.sts[base..])))
  {
    PostfixStep(regex, i, |b.stack|, OperandRanges(b.sts[base..]));
    if IsBinaryOperator(regex[i]) {
      if |b.stack| >= 2 {
        BinaryStepKeepsInv(regex[i], b, base);
      }
    } else if IsUnaryOperator(regex[i]) {
      if |b.stack| >= 1 {
        UnaryStepKeepsInv(regex[i], b, base);
      }
    } else {
      match ReadOperand(regex, i)
      case Err(_) =>
      case Ok((lo, hi, next)) =>
        if |b.stack| < STACK_CAPACITY {
          OperandStepKeepsInv(lo, hi, b, base);
        }
    }
  }

  /**
   The reference evaluation fails exactly where the postfix syntax does, with the
   same error; when it succeeds it keeps the build invariant and the older states,
   and the syntax accepts exactly when one fragment is left, whose operand states
   carry the ranges the syntax read.
   */
  lemma {:induction false} EvaluateKeepsInv(regex: seq<byte>, i: nat, b: Build, base: nat)
    requires i <= |regex| && BuildInv(b.sts, base, b.stack) && |b.stack| <= STACK_CAPACITY
    ensures var r := Evaluate(regex, i, b);
      var p := Postfix(regex, i, |b.stack|, OperandRanges(b.sts[base..]));
      && (r.Err? ==> p == Err(r.error))
      && (r.Ok? ==>
            && BuildInv(r.value.sts, base, r.value.stack) && r.value.sts[..base] == b.sts[..base]
            && p == if |r.value.stack| == 1 then Ok(OperandRanges(r.value.sts[base..]))
                    else Err(LeftOver(|r.value.stack|)))
    decreases |regex| - i
  {
    if i < |regex| {
      EvaluateStepKeepsInv(regex, i, b, base);
      match EvaluateStep(regex, i, b)
      case Err(_) =>
      case Ok((next, b')) =>
        EvaluateKeepsInv(regex, next, b', base);
    }
  }

  /**
   The whole construction fails exactly when the postfix syntax rejects the regex,
   with the same error.  On success it keeps the older states, appends the match
   state last, connects every live field of the new states, points the fragment's
   slots at the match state, and its operand states carry the ranges the syntax read.
   */
  lemma GenerateSound(regex: seq<byte>, tokenClass: string, sts: seq<State>)
    requires WellFormed(sts)
    ensures var g := Generate(regex, tokenClass, sts);
      var p := Postfix(regex, 0, 0, []);
      && (g.Err? <==> p.Err?)
      && (g.Err? ==> g.error == p.error)
      && (g.Ok? ==>
            var after := g.value.0;
            var e := g.value.1;
            && WellFormed(after) && |sts| < |after| && after[..|sts|] == sts
            && after[|after| - 1] == MatchState(tokenClass)
            && |sts| <= e.start < |after| - 1
            && Connected(after, |sts|)
            && (forall slot :: slot in e.outs ==>
                  0 <= slot.state < |after| && Target(after[slot.state], slot.branch) == |after| - 1)
            && p == Ok(OperandRanges(after[|sts|..|after| - 1])))
  {
    var b := Build(sts, []);
    assert BuildInv(sts, |sts|, []);
    assert sts[|sts|..] == [];
    EvaluateKeepsInv(regex, 0, b, |sts|);
    var r := Evaluate(regex, 0, b);
    if r.Ok? && |r.value.stack| == 1 {
      var e := r.value.stack[0];
      assert r.value.stack == [e];
      var after := Patch(r.value.sts + [MatchState(tokenClass)], e.outs, |r.value.sts|);
      FinishConnects(r.value.sts, after, |sts|, e, tokenClass);
    }
  }

  /** The consequence of GenerateSound for a failed build: the postfix syntax fails with the same error. */
  lemma GenerateFails(regex: seq<byte>, tokenClass: string, sts: seq<State>)
    requires WellFormed(sts) && Generate(regex, tokenClass, sts).Err?
    ensures Postfix(regex, 0, 0, []) == Err(Generate(regex, tokenClass, sts).error)
  {
    GenerateSound(regex, tokenClass, sts);
  }

  /**
   An evaluation that ends with the single fragment `e`, followed by patching its
   slots to a new match state, is the successful construction; the operand
   states carry the ranges the syntax read.
   */
  lemma GenerateSucceeds(regex: seq<byte>, tokenClass: string, sts: seq<State>,
                         before: seq<State>, e: Fragment, after: seq<State>)
    requires WellFormed(sts) && Evaluate(regex, 0, Build(sts, [])) == Ok(Build(before, [e]))
    requires Patched(before + [MatchState(tokenClass)], after, e.outs, |before|)
    ensures Generate(regex, tokenClass, sts) == Ok((after, e))
    ensures |sts| < |after| && Postfix(regex, 0, 0, []) == Ok(OperandRanges(after[|sts|..|after| - 1]))
  {
    PatchedIsPatch(before + [MatchState(tokenClass)], after, e.outs, |before|);
    GenerateSound(regex, tokenClass, sts);
  }

  // ---------------------------------------------------------------------------
  // The builder

  /** `[x-y]` after the '[': succeeds exactly on x-y] with printable x and y, leaving the cursor on the ']'. */
  method ParseCharacterRange(regex: seq<byte>, i: nat) returns (ok: bool, lo: int, hi: int, cursor: nat)
    requires i <= |regex|
    ensures ok <==> RangeShape(regex, i)
    ensures ok ==> lo == regex[i] as int && hi == regex[i + 2] as int
    ensures ok ==> cursor == i + 3 && cursor < |regex| && regex[cursor] == RBRACKET
  {
    cursor, lo, hi := i, 0, 0;
    if !(cursor + 1 < |regex| && regex[cursor] >= FIRST_PRINTABLE && regex[cursor + 1] == DASH) {
      return false, lo, hi, cursor;
    }
    lo := regex[cursor] as int;
    cursor := cursor + 2;
    if !(cursor + 1 < |regex| && regex[cursor] >= FIRST_PRINTABLE && regex[cursor + 1] == RBRACKET) {
      return false, lo, hi, cursor;
    }
    hi := regex[cursor] as int;
    cursor := cursor + 1;
    ok := true;
  }

  class NfaBuilder {
    /** The arena: every state created so far, addressed by index. */
    var states: seq<State>

    ghost predicate Valid()
      reads this
    {
      WellFormed(states)
    }

    constructor ()
      ensures Valid() && states == []
    {
      states := [];
    }

    method CreateState(lo: int, hi: int, t1: int, t2: int) returns (s: int)
      requires Valid() && -1 <= t1 < |states| && -1 <= t2 < |states|
      modifies this
      ensures Valid()
      ensures s == old(|states|) && states == old(states) + [State(lo, hi, t1, t2, "")]
    {
      s := |states|;
      states := states + [State(lo, hi, t1, t2, "")];
    }

    /** Point every slot of `outs` at `start`; no other transition changes. */
    method ConnectAutomata(outs: seq<Slot>, start: int)
      requires Valid() && SlotsIn(states, outs) && -1 <= start < |states|
      modifies this
      ensures Valid() && Patched(old(states), states, outs, start)
    {
      var k := 0;
      while k < |outs|
        invariant 0 <= k <= |outs|
        invariant Valid() && Patched(old(states), states, outs[..k], start)
      {
        assert outs[..k + 1] == outs[..k] + [outs[k]];
        states := SetSlot(states, outs[k], start);
        k := k + 1;
      }
      assert outs[..k] == outs;
    }

    method ApplyKleeneStar(e: Fragment) returns (r: Fragment)
      requires Valid() && -1 <= e.start < |states| && SlotsIn(states, e.outs)
      modifies this
      ensures Valid()
      ensures Patched(old(states) + [State(SPLIT, SPLIT, e.start, NULL, "")], states, e.outs, old(|states|))
      ensures r == Fragment(old(|states|), [Slot(old(|states|), Second)])
    {
      var newStart := CreateState(SPLIT, SPLIT, e.start, NULL);
      ConnectAutomata(e.outs, newStart);
      r := Fragment(newStart, [Slot(newStart, Second)]);
    }

    method ApplyOneOrMore(e: Fragment) returns (r: Fragment)
      requires Valid() && -1 <= e.start < |states| && SlotsIn(states, e.outs)
      modifies this
      ensures Valid()
      ensures Patched(old(states) + [State(SPLIT, SPLIT, e.start, NULL, "")], states, e.outs, old(|states|))
      ensures r == Fragment(e.start, [Slot(old(|states|), Second)])
    {
      var newSplit := CreateState(SPLIT, SPLIT, e.start, NULL);
      ConnectAutomata(e.outs, newSplit);
      r := Fragment(e.start, [Slot(newSplit, Second)]);
    }

    method ApplyZeroOrOne(e: Fragment) returns (r: Fragment)
      requires Valid() && -1 <= e.start < |states|
      modifies this
      ensures Valid()
      ensures states == old(states) + [State(SPLIT, SPLIT, e.start, NULL, "")]
      ensures r == Fragment(old(|states|), e.outs + [Slot(old(|states|), Second)])
    {
      var newStart := CreateState(SPLIT, SPLIT, e.start, NULL);
      r := Fragment(newStart, e.outs + [Slot(newStart, Second)]);
    }

    method ApplyUnion(e1: Fragment, e2: Fragment) returns (r: Fragment)
      requires Valid() && -1 <= e1.start < |states| && -1 <= e2.start < |states|
      modifies this
      ensures Valid()
      ensures states == old(states) + [State(SPLIT, SPLIT, e1.start, e2.start, "")]
      ensures r == Fragment(old(|states|), e1.outs + e2.outs)
    {
      var newStart := CreateState(SPLIT, SPLIT, e1.start, e2.start);
      r := Fragment(newStart, e1.outs + e2.outs);
    }

    method ApplyConcatenation(e1: Fragment, e2: Fragment) returns (r: Fragment)
      requires Valid() && SlotsIn(states, e1.outs) && -1 <= e2.start < |states|
      modifies this
      ensures Valid() && Patched(old(states), states, e1.outs, e2.start)
      ensures r == Fragment(e1.start, e2.outs)
    {
      ConnectAutomata(e1.outs, e2.start);
      r := Fragment(e1.start, e2.outs);
    }

    method CreateSingleCharacter(symbol: int) returns (r: Fragment)
      requires Valid()
      modifies this
      ensures Valid()
      ensures states == old(states) + [State(symbol, symbol, NULL, NULL, "")]
      ensures r == Fragment(old(|states|), [Slot(old(|states|), First)])
    {
      var start := CreateState(symbol, symbol, NULL, NULL);
      r := Fragment(start, [Slot(start, First)]);
    }

    method CreateRange(startSymbol: int, endSymbol: int) returns (r: Fragment)
      requires Valid()
      modifies this
      ensures Valid()
      ensures states == old(states) + [State(startSymbol, endSymbol, NULL, NULL, "")]
      ensures r == Fragment(old(|states|), [Slot(old(|states|), First)])
    {
      var start := CreateState(startSymbol, endSymbol, NULL, NULL);
      r := Fragment(start, [Slot(start, First)]);
    }

    /** A binary operator of the postfix evaluation: pop two fragments, combine them, push the result. */
    method ApplyBinaryOperator(c: byte, at: nat, stack: seq<Fragment>, ghost base: nat) returns (r: Result<seq<Fragment>>)
      requires Valid() && BuildInv(states, base, stack) && IsBinaryOperator(c)
      modifies this
      ensures Valid() && base <= |states| && states[..base] == old(states[..base])
      ensures r.Err? <==> |stack| < 2
      ensures r.Err? ==> r.error == MissingOperand(at)
      ensures r.Ok? ==>
        && Build(states, r.value) == BinaryStep(c, Build(old(states), stack))
        && |r.value| == |stack| - 1
        && BuildInv(states, base, r.value)
        && OperandRanges(states[base..]) == old(OperandRanges(states[base..]))
    {
      if |stack| < 2 {
        return Err(MissingOperand(at));
      }
      ghost var before := states;
      var top := stack[|stack| - 1];
      var below := stack[|stack| - 2];
      var rest := stack[..|stack| - 2];
      if c == DOT {
        // E2 is the top of the stack, E1 the fragment below it.
        OutsPending(states, base, stack, |stack| - 2);
        var e := ApplyConcatenation(below, top);
        PatchedIsPatch(before, states, below.outs, top.start);
        r := Ok(rest + [e]);
      } else {
        // E1 is the top of the stack, E2 the fragment below it.
        var e := ApplyUnion(top, below);
        r := Ok(rest + [e]);
      }
      BinaryStepKeepsInv(c, Build(before, stack), base);
    }

    /** A unary operator of the postfix evaluation: pop one fragment, wrap it, push the result. */
    method ApplyUnaryOperator(c: byte, at: nat, stack: seq<Fragment>, ghost base: nat) returns (r: Result<seq<Fragment>>)
      requires Valid() && BuildInv(states, base, stack) && IsUnaryOperator(c)
      modifies this
      ensures Valid() && base <= |states| && states[..base] == old(states[..base])
      ensures r.Err? <==> |stack| < 1
      ensures r.Err? ==> r.error == MissingOperand(at)
      ensures r.Ok? ==>
        && Build(states, r.value) == UnaryStep(c, Build(old(states), stack))
        && |r.value| == |stack|
        && BuildInv(states, base, r.value)
        && OperandRanges(states[base..]) == old(OperandRanges(states[base..]))
    {
      if |stack| < 1 {
        return Err(MissingOperand(at));
      }
      ghost var before := states;
      var e := stack[|stack| - 1];
      var rest := stack[..|stack| - 1];
      var f;
      if c == QUESTION {
        f := ApplyZeroOrOne(e);
      } else {
        OutsPending(states, base, stack, |stack| - 1);
        if c == STAR {
          f := ApplyKleeneStar(e);
        } else {
          f := ApplyOneOrMore(e);
        }
        PatchedIsPatch(before + [State(SPLIT, SPLIT, e.start, NULL, "")], states, e.outs, |before|);
      }
      r := Ok(rest + [f]);
      UnaryStepKeepsInv(c, Build(before, stack), base);
    }

    /**
     One operand of the postfix evaluation, starting at `regex[at]`: a literal byte,
     an escape or a range, pushed as a one-state fragment.  `next` is the index
     of the last byte read.
     */
    method PushOperand(regex: seq<byte>, at: nat, stack: seq<Fragment>, ghost base: nat)
      returns (r: Result<seq<Fragment>>, next: nat)
      requires Valid() && BuildInv(states, base, stack) && |stack| <= STACK_CAPACITY
      requires at < |regex| && !IsBinaryOperator(regex[at]) && !IsUnaryOperator(regex[at])
      modifies this
      ensures Valid() && base <= |states| && states[..base] == old(states[..base])
      ensures ReadOperand(regex, at).Err? ==> r == Err(ReadOperand(regex, at).error)
      ensures ReadOperand(regex, at).Ok? && |stack| == STACK_CAPACITY ==> r == Err(StackOverflow(at))
      ensures ReadOperand(regex, at).Ok? && |stack| < STACK_CAPACITY ==>
        var (lo, hi, after) := ReadOperand(regex, at).value;
        && r.Ok? && next + 1 == after
        && Build(states, r.value) == OperandStep(lo, hi, Build(old(states), stack))
        && BuildInv(states, base, r.value)
        && OperandRanges(states[base..]) == old(OperandRanges(states[base..])) + [(lo, hi)]
    {
      ghost var before := states;
      var i := at;
      var c := regex[i];
      var e: Fragment;
      var lo: int, hi: int;
      if c == BACKSLASH {
        i := i + 1;
        if i < |regex| && regex[i] == LOWER_T {
          lo, hi := TAB as int, TAB as int;
          e := CreateSingleCharacter(lo);
        } else if i < |regex| && regex[i] == LOWER_N {
          lo, hi := LF as int, LF as int;
          e := CreateSingleCharacter(lo);
        } else if i < |regex| && regex[i] == LOWER_R {
          lo, hi := CR as int, CR as int;
          e := CreateSingleCharacter(lo);
        } else if i < |regex| && regex[i] >= FIRST_PRINTABLE {
          lo, hi := regex[i] as int, regex[i] as int;
          e := CreateSingleCharacter(lo);
        } else {
          return Err(InvalidSymbol(i)), i;
        }
      } else if c == LBRACKET {
        i := i + 1;
        var ok, cursor;
        ok, lo, hi, cursor := ParseCharacterRange(regex, i);
        if !ok {
          return Err(BadRange(at)), i;
        }
        i := cursor;
        e := CreateRange(lo, hi);
      } else if c >= FIRST_PRINTABLE {
        lo, hi := c as int, c as int;
        e := CreateSingleCharacter(lo);
      } else {
        return Err(InvalidSymbol(i)), i;
      }
      assert ReadOperand(regex, at) == Ok((lo, hi, i + 1));
      GrowKeepsOutside(before, base, states[|states| - 1]);
      if |stack| == STACK_CAPACITY {
        return Err(StackOverflow(at)), i;
      }
      OperandStepKeepsInv(lo, hi, Build(before, stack), base);
      r, next := Ok(stack + [e]), i;
    }

    /** Create the match state tagged with `tokenClass` and patch every slot of `e` to it. */
    method AttachMatchState(e: Fragment, tokenClass: string, ghost base: nat)
      requires Valid() && BuildInv(states, base, [e])
      modifies this
      ensures Valid() && |states| == old(|states|) + 1
      ensures Patched(old(states) + [MatchState(tokenClass)], states, e.outs, old(|states|))
      ensures states[|states| - 1] == MatchState(tokenClass)
      ensures Connected(states, base)
      ensures forall slot :: slot in e.outs ==>
        0 <= slot.state < |states| && Target(states[slot.state], slot.branch) == |states| - 1
      ensures base <= e.start < |states| - 1
      ensures states[..base] == old(states[..base])
      ensures OperandRanges(states[base..|states| - 1]) == old(OperandRanges(states[base..]))
    {
      ghost var before := states;
      OutsPending(states, base, [e], 0);
      var matchState := CreateState(MATCH, MATCH, NULL, NULL);
      states := states[matchState := MatchState(tokenClass)];
      assert states == before + [MatchState(tokenClass)];
      ConnectAutomata(e.outs, matchState);
      ghost var after := states;
      FinishConnects(before, after, base, e, tokenClass);
    }

    /**
     One byte of the evaluation loop of GenerateNFA: an operator is applied to the
     fragment stack, anything else is read as an operand and pushed.  `next` is
     the index after what was read; the outcome agrees with the reference
     evaluation from `regex[i]` on.
     */
    method EvaluateByte(regex: seq<byte>, i: nat, stack: seq<Fragment>, ghost base: nat)
      returns (r: Result<seq<Fragment>>, next: nat)
      requires Valid() && BuildInv(states, base, stack) && |stack| <= STACK_CAPACITY && i < |regex|
      modifies this
      ensures Valid() && base <= |states| && states[..base] == old(states[..base])
      ensures r.Err? ==> EvaluateStep(regex, i, Build(old(states), stack)) == Err(r.error)
      ensures r.Ok? ==>
        && EvaluateStep(regex, i, Build(old(states), stack)) == Ok((next, Build(states, r.value)))
        && |r.value| <= STACK_CAPACITY && BuildInv(states, base, r.value)
    {
      var c := regex[i];
      if IsBinaryOperator(c) {
        r := ApplyBinaryOperator(c, i, stack, base);
        next := i + 1;
      } else if IsUnaryOperator(c) {
        r := ApplyUnaryOperator(c, i, stack, base);
        next := i + 1;
      } else {
        r, next := PushOperand(regex, i, stack, base);
        next := next + 1;
      }
    }

    /**
     The evaluation loop of GenerateNFA.  The outcome is that of the reference
     evaluation from an empty stack: its first error, or the arena and the stack
     it ends with.
     */
    method RunPostfix(regex: seq<byte>) returns (r: Result<seq<Fragment>>)
      requires Valid()
      modifies this
      ensures Valid() && old(|states|) <= |states| && states[..old(|states|)] == old(states)
      ensures r.Err? ==> Evaluate(regex, 0, Build(old(states), [])) == Err(r.error)
      ensures r.Ok? ==>
        && Evaluate(regex, 0, Build(old(states), [])) == Ok(Build(states, r.value))
        && BuildInv(states, old(|states|), r.value)
    {
      ghost var base := |states|;
      ghost var initial := states;
      var stack: seq<Fragment> := [];
      var i := 0;
      while i < |regex|
        invariant 0 <= i <= |regex|
        invariant |stack| <= STACK_CAPACITY
        invariant Valid() && base <= |states| && states[..base] == initial
        invariant BuildInv(states, base, stack)
        invariant Evaluate(regex, 0, Build(initial, [])) == Evaluate(regex, i, Build(states, stack))
      {
        var step;
        step, i := EvaluateByte(regex, i, stack, base);
        if step.Err? {
          return Err(step.error);
        }
        stack := step.value;
      }
      r := Ok(stack);
    }

    /**
     Evaluate a postfix regex with an explicit fragment stack, then attach a match
     state tagged with `tokenClass` to the single remaining fragment.  States that
     existed before are left as they were; on success the arena and the fragment
     are those of the reference construction Generate.
     */
    method GenerateNFA(regex: seq<byte>, tokenClass: string) returns (r: Result<Fragment>)
      requires Valid()
      modifies this
      ensures Valid()
      ensures old(|states|) <= |states| && states[..old(|states|)] == old(states)
      ensures Generate(regex, tokenClass, old(states)).Err? <==> r.Err?
      ensures r.Err? ==> r.error == Generate(regex, tokenClass, old(states)).error
      ensures r.Ok? ==> Generate(regex, tokenClass, old(states)) == Ok((states, r.value))
      ensures r.Err? <==> Postfix(regex, 0, 0, []).Err?
      ensures r.Err? ==> r.error == Postfix(regex, 0, 0, []).error
      ensures r.Ok? ==>
        && old(|states|) <= r.value.start < |states| - 1
        && states[|states| - 1] == MatchState(tokenClass)
        && Connected(states, old(|states|))
        && (forall slot :: slot in r.value.outs ==>
              0 <= slot.state < |states| && Target(states[slot.state], slot.branch) == |states| - 1)
        && Postfix(regex, 0, 0, []) == Ok(OperandRanges(states[old(|states|)..|states| - 1]))
    {
      ghost var base := |states|;
      ghost var initial := states;
      var stack := RunPostfix(regex);
      if stack.Err? {
        GenerateFails(regex, tokenClass, initial);
        return Err(stack.error);
      }
      if |stack.value| != 1 {
        GenerateFails(regex, tokenClass, initial);
        return Err(LeftOver(|stack.value|));
      }
      var e := stack.value[0];
      assert stack.value == [e];
      ghost var before := states;
      AttachMatchState(e, tokenClass, base);
      GenerateSucceeds(regex, tokenClass, initial, before, e, states);
      r := Ok(e);
    }
  }
}
