# A verified model of a Thompson-NFA lexer generator

The system is a small lexer generator written in C. Each token class is given by a
regular expression in postfix form (`.` concatenation, `|` union, `*`, `+`, `?`,
`\t` `\n` `\r` and `\x` escapes, `[x-y]` ranges). `GenerateNFA` builds the class's NFA
with Thompson's construction. The lexer then simulates all NFAs at once:

- `Add` computes epsilon-closures. It uses a generation counter and a per-state
  mark as the visited set.
- `StepThroughNFA` advances the active set over one byte.
- `TokenizeText` scans a text by maximal munch. It skips `WHITE` and `NEWLINE`
  matches and reports an unmatched byte as a lexical error, then moves on by one byte.

The model keeps the program's own shape:

- **Automaton** (`automaton.dfy`) — the state record shared by both halves. Transitions
  are arena indices, with `NULL` = -1. The reserved ranges are `MATCH` = 256 and
  `SPLIT` = 257. A writable transition field is a `Slot` (state, branch).
- **OutPointers** (`pointers.dfy`) — the out-pointer lists as linked cells in an arena
  (`PointerArena`), each cell naming one dangling slot and the index of the next cell.
  `AppendOutPointers` walks to the last cell of the first list and relinks it in place.
  Its contract gives the new cells exactly. It also says that the joined chain names the
  first list's slots and then the second's.
- **Thompson** (`thompson.dfy`) — a `NfaBuilder` class whose `states` arena the operator
  methods extend and patch. On success, each method's contract gives the new arena exactly
  (predicate `Patched`: the listed slots now point at the target, nothing else changed).
  - `Generate` is a reference construction on values. It is built from `EvaluateStep`,
    one postfix byte on an arena and a fragment stack, with `BinaryStep`, `UnaryStep`,
    `OperandStep` and `Patch`.
  - The methods `ApplyBinaryOperator`, `ApplyUnaryOperator`, `PushOperand`,
    `EvaluateByte` and `RunPostfix` are each proved to produce the arena and stack that
    the reference step produces. `GenerateNFA` is proved to return exactly what
    `Generate` returns, or the same error.
  - `Generate` is in turn proved against `Postfix`, a definition of the syntax. It fails
    exactly when `Postfix` fails, with the same error. On success it has created one
    operand state per operand read, in order.
  - The build invariant `BuildInv` says the stacked fragments' out-slots are exactly
    the unset live fields of the build, each listed once. Every step preserves it.
    So after the match state is attached, no live transition of the new automaton is
    left unset (`Connected`).
- **Language** (`language.dfy`) — what the fragments of the reference construction
  accept, read through `EpsClosure` and the subset construction `Reach`:
  - union is symmetric: E1|E2 and E2|E1, finished, differ only in the order of the new
    split's two transitions, and reach the same states after every input;
  - E* accepts exactly L*, the texts cut into pieces each accepted by E on its own
    (the empty text among them);
  - E+ accepts exactly L*·L; in particular it accepts the empty text exactly when E does.
- **Closure** (`closure.dfy`) — `Dfs`, the function that `Add` computes. It is proved
  equal to the textbook epsilon-closure (the least split-closed set, `EpsClosure`).
  One step of the simulation is specified as the closure of the states entered on the
  byte.
- **Simulation** (`simulation.dfy`) — the meaning of the simulator as functions:
  - `Run`, checked against the subset construction `Reach`;
  - `LastMatch`, the class the scanner records for a set;
  - `Munch`, the longest match from a position;
  - `Tokenize`, the reports of a whole scan. `TokenizeSound` states what they promise:
    tokens are maximal munches, errors are bytes with no match, reports are in order,
    and with the skipped `WHITE`/`NEWLINE` munches they cover the whole text.
    `TokenizeUnique` shows that these promises determine the reports.
  - `ScanStarts`, the positions where the scan starts a munch: position 0 and,
    from each, the position where the scan resumes (`Resume`).
- **Lexer** (`lexer.dfy`) — the simulator as a class. It holds the arena, the `mark`
  array and the `generation` counter. `StateSet` is a fixed `MAX_SIZE` array with a
  size.
  - `Add` is recursive, like the C function. It is proved against `Closure.Dfs`, and
    its split branch is the helper method `AddBoth`.
  - `StepThroughNFA`, `SetContainsMatch`, `MatchesRegex` and `TokenizeText` are methods
    with loops, proved against the functions of Closure and Simulation.
  - Each loop body that needs its own proof is a helper method: `StepMember`,
    `ReadAll`, `Advance`, `MunchFrom` and `ScanText`.
  - `TokenizeText` returns the reports as a sequence of `Output` values instead of
    printing them.
- **Tokens** (`tokens.dfy`) — the growable `TokenArray` with its doubling `InsertToken`.
  The copy made by `realloc` is the method `Grow`.

## Model

| member | source | states |
|---|---|---|
| Automaton.SentinelsAreNotBytes | GenerateNFA.c:17-24 | a byte-range state is neither a match nor a split state, and no byte satisfies the range test of a MATCH or SPLIT state |
| Automaton.SetSlot | GenerateNFA.c:84 | writing one slot sets exactly that transition field; every other field, range and class is unchanged |
| OutPointers.PointerArena.NewList | GenerateNFA.c:158-161 | one new cell naming the slot and ending the chain; it is a one-cell list of that slot; earlier cells are unchanged |
| OutPointers.PointerArena.AppendOutPointers | GenerateNFA.c:90-104 | an empty first list returns the second and changes nothing; otherwise it returns the first head and only the first list's last cell changes, now linked to the second; the joined chain visits both lists' cells once each and names the first list's slots, then the second's |
| OutPointers.LinkKeepsList | GenerateNFA.c:96-103 | relinking the last cell of a chain to a disjoint chain makes one chain naming the slots of both, in order |
| Thompson.ReadOperand | GenerateNFA.c:229-270 | an operand that is read yields a byte range within 0..255 and moves the cursor forward, staying within the regex |
| Thompson.EscapedOperands | GenerateNFA.c:229-249 | `\t`, `\n`, `\r` read as the bytes 9, 10, 13; any other escaped byte reads as itself exactly when it is at least 32 |
| Thompson.PostfixReadsOperands | GenerateNFA.c:198-279 | a successful evaluation keeps the ranges already read as a prefix, and one that starts with an empty stack reads at least one operand |
| Thompson.PatchedKeepsOutside | GenerateNFA.c:79-88 | patching slots of the current build leaves earlier states and the operand ranges unchanged |
| Thompson.Patch | GenerateNFA.c:79-88 | the arena with every listed slot pointing at the target satisfies Patched: nothing else changes |
| Thompson.PatchedIsPatch | GenerateNFA.c:79-88 | the effect of ConnectAutomata is determined: any arena that satisfies Patched is Patch |
| Thompson.EvaluateStep | GenerateNFA.c:198-272 | a step that succeeds moves the cursor forward and stays within the regex |
| Thompson.GrowKeepsSlots | GenerateNFA.c:56-65 | a new state's unset live fields join the pending slots, and the slot invariant still holds |
| Thompson.PatchKeepsSlots | GenerateNFA.c:79-88 | patching some pending slots to an existing state leaves the others as the exact pending set |
| Thompson.OperandKeepsInv | GenerateNFA.c:156-172 | pushing a one-state operand fragment keeps the build invariant |
| Thompson.ConcatKeepsInv | GenerateNFA.c:150-154 | concatenating the two top fragments keeps the build invariant, with E1's start and E2's out-slots |
| Thompson.UnionKeepsInv | GenerateNFA.c:145-148 | union of the top fragment (E1) and the one below it (E2) keeps the build invariant, with E1's slots followed by E2's |
| Thompson.SplitKeepsInv | GenerateNFA.c:115-116 | a new split state whose first field is the fragment's start keeps the invariant, its second field pending |
| Thompson.RepeatKeepsInv | GenerateNFA.c:115-135 | star and plus keep the build invariant: the new split's second field is the only pending slot, entered at the split or at E's start |
| Thompson.OptionalKeepsInv | GenerateNFA.c:137-143 | the optional operator keeps the build invariant, E's slots followed by the split's second field |
| Thompson.PatchAllKeepsSlots | GenerateNFA.c:282-284 | patching every pending slot to the new match state leaves no live field unset |
| Thompson.Finish | GenerateNFA.c:281-286 | finishing a fragment appends one match state, tagged with the class, after the arena |
| Thompson.FinishConnects | GenerateNFA.c:281-286 | after the match state is attached, every live field of the build is connected and every former out-slot points at the match state |
| Thompson.BinaryStepKeepsInv | GenerateNFA.c:201-213 | the reference `.` and `\|` steps keep the build invariant with one fragment fewer, and keep the older states and the operand ranges |
| Thompson.UnaryStepKeepsInv | GenerateNFA.c:214-228 | the reference `*`, `+` and `?` steps keep the build invariant, the number of fragments, the older states and the operand ranges |
| Thompson.OperandStepKeepsInv | GenerateNFA.c:229-270 | the reference operand step keeps the build invariant with one fragment more and appends the operand's range |
| Thompson.EvaluateStepKeepsInv | GenerateNFA.c:198-273 | one reference step keeps the invariant, the older states and the stack bound, and takes the same step as the postfix syntax: the same error, or the same next index, depth and operand ranges |
| Thompson.EvaluateKeepsInv | GenerateNFA.c:198-279 | the reference evaluation fails exactly where the postfix syntax fails, with the same error; on success the syntax accepts exactly when one fragment is left, and the operand states carry the ranges it read |
| Thompson.GenerateSound | GenerateNFA.c:188-287 | the reference construction fails exactly when the postfix syntax fails, with the same error; on success it keeps the older states, appends the match state last, connects every live field, points the fragment's slots at the match state, and its operand states carry the ranges read |
| Thompson.GenerateFails | GenerateNFA.c:275-279 | a failed construction is a postfix syntax error, the same one |
| Thompson.GenerateSucceeds | GenerateNFA.c:281-286 | an evaluation ending with one fragment, followed by patching its slots to a new match state, is the successful construction |
| Thompson.ParseCharacterRange | GenerateNFA.c:174-186 | succeeds exactly on `x-y]` with printable x and y, returns x and y, and leaves the cursor on the `]` |
| Thompson.NfaBuilder.CreateState | GenerateNFA.c:56-65 | appends one state with the given ranges and transitions and returns its index |
| Thompson.NfaBuilder.ConnectAutomata | GenerateNFA.c:79-88 | every listed slot now points at the start state and no other transition changes |
| Thompson.NfaBuilder.ApplyKleeneStar | GenerateNFA.c:115-124 | a new split start whose first field is E's start; E's slots are patched to it; the only out-slot is its second field |
| Thompson.NfaBuilder.ApplyOneOrMore | GenerateNFA.c:126-135 | as star, but the fragment keeps E's start |
| Thompson.NfaBuilder.ApplyZeroOrOne | GenerateNFA.c:137-143 | a new split start; nothing is patched; the out-slots are E's followed by the split's second field |
| Thompson.NfaBuilder.ApplyUnion | GenerateNFA.c:145-148 | a new split state pointing at both starts; the out-slots are the first fragment's followed by the second's |
| Thompson.NfaBuilder.ApplyConcatenation | GenerateNFA.c:150-154 | E1's slots are patched to E2's start; the result has E1's start and E2's out-slots |
| Thompson.NfaBuilder.CreateSingleCharacter | GenerateNFA.c:156-163 | one new state matching exactly the symbol, its first field the only out-slot |
| Thompson.NfaBuilder.CreateRange | GenerateNFA.c:165-172 | one new state matching the range, its first field the only out-slot |
| Thompson.NfaBuilder.ApplyBinaryOperator | GenerateNFA.c:201-213 | fails with MissingOperand exactly when fewer than two fragments are stacked; otherwise the new arena and stack are exactly the reference `BinaryStep`, with the invariant kept, one fragment fewer and no operand state added |
| Thompson.NfaBuilder.ApplyUnaryOperator | GenerateNFA.c:214-228 | fails with MissingOperand exactly on an empty stack; otherwise the new arena and stack are exactly the reference `UnaryStep`, with the invariant, the stack height and the operand ranges kept |
| Thompson.NfaBuilder.PushOperand | GenerateNFA.c:229-270 | the operand is read as `ReadOperand` reads it, or the same error is given; a full stack overflows; else the new arena and stack are exactly the reference `OperandStep`, adding one operand range |
| Thompson.NfaBuilder.AttachMatchState | GenerateNFA.c:281-286 | the new arena is the old one plus the match state tagged with the class, with every out-slot of the fragment patched to it (Patched) and nothing else changed; the build is connected and the operand ranges are kept |
| Thompson.NfaBuilder.EvaluateByte | GenerateNFA.c:200-272 | one byte of the evaluation loop: the error, or the next index, arena and stack, are exactly those of the reference `EvaluateStep` |
| Thompson.NfaBuilder.RunPostfix | GenerateNFA.c:198-273 | the evaluation loop ends with the error, or the arena and stack, of the reference `Evaluate` from an empty stack; earlier states are unchanged |
| Thompson.NfaBuilder.GenerateNFA | GenerateNFA.c:188-287 | the new arena and fragment are exactly those of the reference `Generate`, or its error; it fails exactly when the postfix syntax fails, with its error; else it extends the arena only, connects every live field, and creates the operand states in reading order |
| Closure.Dfs | Lexer.c:95-108 | the closure walk only grows the visited set, and within the arena |
| Closure.DfsAdded | Lexer.c:96-107 | the appended states are exactly the newly visited non-split states, each once; a non-null start is visited |
| Closure.DfsClosesNew | Lexer.c:101-105 | both transitions of every newly visited split state are visited |
| Closure.DfsWithin | Lexer.c:95-108 | the walk visits nothing outside a split-closed set that contains the start |
| Closure.DfsIsClosure | Lexer.c:95-108 | from a split-closed visited set, the walk adds exactly the epsilon-closure of the start |
| Closure.AddAll | Lexer.c:138-141 | adding several start states only grows the visited set |
| Closure.AddAllIsClosure | Lexer.c:163-169 | the initial set's visited states are the closure of the start states; its members are exactly their non-split states, each once |
| Closure.StepTargets | Lexer.c:124-131 | the states entered on a byte are in the arena or null |
| Closure.StepTargetsEntered | Lexer.c:124-131 | the entered states are the first transitions of the members whose range holds the byte |
| Closure.StepBuildSnoc | Lexer.c:124-131 | one more member of the current set extends the step by the closure walk from its first transition when its range holds the byte, and leaves it unchanged otherwise |
| Closure.AddAllBuildSnoc | Lexer.c:167-169 | one more start state extends the initial set by the closure walk from it |
| Closure.StepIsClosureOfEntered | Lexer.c:120-132 | the next set is exactly the non-split states of the closure of the entered states, without duplicates |
| Closure.EpsClosureLeast | Lexer.c:101-105 | the closure lies within every split-closed set that holds the roots |
| Closure.EpsClosureHoldsRoots | Lexer.c:101-105 | the closure holds its roots |
| Closure.EpsClosureClosed | Lexer.c:101-105 | the closure is split-closed |
| Closure.EpsClosureUnion | Lexer.c:138-141 | the closure of a union of roots is the union of their closures |
| Closure.DistinctWithin | Lexer.c:106-107 | a duplicate-free list drawn from a set is no longer than the set, which bounds the fill of a state set |
| Language.SwapKeepsClosure | Lexer.c:101-105 | exchanging the two transitions of a state leaves every epsilon-closure unchanged, since the walk follows both |
| Language.SwapKeepsReach | Lexer.c:120-132 | exchanging the two transitions of a split state leaves the states reached after every input unchanged |
| Language.UnionShape | GenerateNFA.c:145-148 | E1\|E2 and E2\|E1, finished, are the same arena up to the order of the new split's two transitions |
| Language.UnionSymmetric | GenerateNFA.c:145-148 | union is symmetric: E1\|E2 and E2\|E1, finished, reach the same states from any roots after every input |
| Language.StarAcceptsEmpty | GenerateNFA.c:115-124 | E*, finished, reaches its match state from its start before any input |
| Language.PlusShape | GenerateNFA.c:126-135 | E+ finished is E finished with the match state replaced by a split back to E's start and on to a new match state |
| Language.PlusKeepsEmpty | GenerateNFA.c:126-135 | E+, finished, reaches its match state before any input exactly when E finished on its own does |
| Language.EmptyArena | GenerateNFA.c:126-135 | in an arena of E+ laid over E's, the new match state is in the start's closure exactly when E's match state is in it |
| Language.ReachThen | Lexer.c:120-132 | the states reached after `u` then `v` lie within those reached after `u+v` |
| Language.ReachInPlus | GenerateNFA.c:126-135 | every state E alone reaches after a text, E+ reaches too |
| Language.StarSplits | GenerateNFA.c:115-135 | L* is the empty text together with L*·L |
| Language.ReachExplained | GenerateNFA.c:115-135 | every state the loop reaches after a text lies within E alone after some cut of the text into accepted pieces and a rest |
| Language.StarArena | GenerateNFA.c:115-124 | in a loop arena entered at the split, the new match state is reached after a text exactly when the text is in L* |
| Language.PlusArena | GenerateNFA.c:126-135 | in a loop arena entered at E's start, the new match state is reached after a text exactly when the text is in L*·L |
| Language.LoopStar | GenerateNFA.c:115-124 | the arena of E* over E's arena, finished, accepts from the new split exactly the texts of L* |
| Language.StarLanguage | GenerateNFA.c:115-124 | E*, finished, starts at the new split and accepts a text exactly when it is in L*, where L is what E finished on its own accepts |
| Language.PlusLanguage | GenerateNFA.c:126-135 | E+, finished, starts at E's start and accepts a text exactly when it is in L*·L |
| Simulation.RunIsReach | Lexer.c:134-150 | after a text, the active set holds exactly the non-split states reached by the subset construction, each once |
| Simulation.AcceptsIffReach | Lexer.c:151 | the final set holds a match state exactly when the subset construction reaches one |
| Simulation.RunSnoc | Lexer.c:145-150 | running one more byte is one more step |
| Simulation.RunAppend | Lexer.c:145-150 | running a concatenation runs its parts one after the other |
| Simulation.RunFromEmpty | Lexer.c:191-193 | an empty set stays empty whatever follows |
| Simulation.LastMatchIsLast | Lexer.c:196-201 | no class is recorded exactly when no member is a match; otherwise the class is that of the last match member in set order |
| Simulation.RecordedAt | Lexer.c:185-208 | the class recorded at each byte is that of the set after the prefix ending there |
| Simulation.LastSome | Lexer.c:196-201 | the last recorded position and its class; none exactly when nothing was recorded |
| Simulation.MunchIsLongest | Lexer.c:185-208 | the maximal munch is the last position whose prefix ends in a match, with that class; none exactly when no prefix matches |
| Simulation.LongestUpToStep | Lexer.c:189-201 | each inner step updates the recorded match with the class of the new set, if any |
| Simulation.DeadSetEndsMunch | Lexer.c:191-193 | stopping when the set empties loses no longer match |
| Simulation.DeadKeepsLongest | Lexer.c:191-193 | after the set empties, the recorded match never changes |
| Simulation.DeadStep | Lexer.c:191-193 | one byte read after the set has emptied leaves the recorded match as it was |
| Simulation.LongestUpToKeeps | Lexer.c:196-201 | a byte after which the set holds no match state leaves the recorded match as it was |
| Simulation.StaysDead | Lexer.c:191-193 | after the set empties, no later prefix matches |
| Simulation.ScanReports | Lexer.c:174-230 | the reports of a scan lie in the text in order without overlap; tokens are munches of reported classes; errors are bytes with no munch; and the reports with the skipped WHITE and NEWLINE munches between them partition the text from the start position, in order |
| Simulation.Resume | Lexer.c:210-228 | the position where the scan goes on after the munch table's entry for a position lies strictly after it and no later than the end of the table |
| Simulation.ScanStarts | Lexer.c:174-228 | the positions where the outer loop starts a munch: the start position and then each resume position in turn, all from the start position on and before the end of the table |
| Simulation.ReportsAtScanStarts | Lexer.c:174-228 | every report of the scan begins at one of its scan starts |
| Simulation.ScanCovers | Lexer.c:174-230 | the coverage half of ScanReports: every byte from the start position not in a report lies in a skipped WHITE or NEWLINE munch, the munches chaining from one report to the next |
| Simulation.ScanUnique | Lexer.c:174-230 | the scan is the only sequence of reports that keeps those promises and covers the text |
| Simulation.TokenizeSound | Lexer.c:155-233 | for the whole text: no WHITE or NEWLINE token, each token is the maximal munch from its first byte, each error is at a byte with no match, the reports are in order without overlap, and with the skipped munches they cover every byte |
| Simulation.TokenizeUnique | Lexer.c:155-233 | conversely, any reports with those properties are the tokenization |
| Simulation.ScanAllErrors | Lexer.c:225-228 | where no position has a munch, the scan is one lexical error per byte |
| Simulation.TokenizeAllErrors | Lexer.c:225-228 | a text with no match anywhere tokenizes to one error per byte, in order |
| Lexer.StateSet.CopyFrom | Lexer.c:182-183 | the set becomes a copy of the other set, which is unchanged |
| Lexer.Simulator.NextGeneration | Lexer.c:121 | the generation advances by one and no state counts as marked |
| Lexer.Simulator.Add | Lexer.c:95-108 | the marks and the set grow exactly as the closure walk `Dfs` does; the set stays duplicate-free and marked; the write is in bounds when the walk fits in MAX_SIZE |
| Lexer.Simulator.AddBoth | Lexer.c:101-104 | for a split state, adding its first and then its second transition leaves the marks and the set of the closure walk from the split state |
| Lexer.Simulator.AddStartStates | Lexer.c:163-169 | a fresh generation's set is the initial set of the start states, and the marked states are their closure |
| Lexer.Simulator.AddAllRoots | Lexer.c:167-169 | adding the start states one by one leaves exactly the marks and members of the closure walk from each in turn |
| Lexer.Simulator.StepThroughNFA | Lexer.c:120-132 | one more generation; the next set is the step of the current set on the byte; the current set is unchanged |
| Lexer.Simulator.StepMember | Lexer.c:125-130 | one loop pass: the next set and the marks become those of the step over one more member |
| Lexer.Simulator.SetContainsMatch | Lexer.c:110-118 | returns 1 exactly when some member is a match state, else 0 |
| Lexer.Simulator.LastMatchIn | Lexer.c:196-201 | the class recorded for the set is that of its last match member |
| Lexer.Simulator.MatchesRegex | Lexer.c:134-152 | returns 1 exactly when the subset construction reaches a match state after the whole text, else 0 |
| Lexer.Simulator.ReadAll | Lexer.c:145-150 | after the byte loop with its swaps, the current set is the run of the initial set over the whole text |
| Lexer.Simulator.LongestMatchFrom | Lexer.c:176-208 | the recorded class and position are the maximal munch from the start |
| Lexer.Simulator.MunchFrom | Lexer.c:176-208 | the inner loop from a start position records exactly the maximal munch from it, provided every set built from that position fits in MAX_SIZE |
| Lexer.Simulator.Advance | Lexer.c:187-207 | one inner step: the next set is the step of the current one; an empty set ends the munch, otherwise the recorded match is updated |
| Lexer.Simulator.TokenizeText | Lexer.c:155-233 | the reports equal the maximal-munch tokenization of the text from the initial set, provided the initial set and every set built from a scan start fit in MAX_SIZE |
| Lexer.Simulator.ScanText | Lexer.c:174-230 | the outer loop produces the scan from position 0, provided every set built from a scan start fits in MAX_SIZE |
| Lexer.ScanResumes | Lexer.c:210-228 | each branch of the outer loop appends the report it prints, if any, and resumes where the scan from the current position resumes |
| Lexer.SmallArenaFits | Lexer.c:106 | when the arena holds at most MAX_SIZE non-split states, no set of a run exceeds MAX_SIZE |
| Tokens.CapacityBounds | Lexer.c:38-42 | the capacity after n insertions is at least n, stays 128 up to 128 tokens, and is less than 2n beyond |
| Tokens.TokenArray.InitializeTokenArray | Lexer.c:32-36 | an empty array of capacity 128 |
| Tokens.TokenArray.InsertToken | Lexer.c:38-46 | the token is appended, the count grows by one, and the capacity doubles exactly when the array was full |
| Tokens.TokenArray.Grow | Lexer.c:39-42 | the buffer is replaced by one of twice the capacity holding the same tokens |

## Left out

- Reading the grammar file (`ProcessLexicalGrammar`) and `main` are not modelled. The
  start states of the combined NFA are a parameter (`roots`) of the simulator.
- All printing is left out: token and error lines, and the diagnostic in
  `SetContainsMatch`. `TokenizeText` returns the reports as a sequence instead.
- Memory management is left out: `malloc`, `free`, `strdup`, `FreePointerList`,
  `FreeTokenArray`. `realloc` is a copy into a fresh array (`Grow`). States and
  pointer-list cells are appended to arenas. A fragment is a
  `(start, slots)` record, which is all `CreateSubExpression` builds.
- `exit(1)` on a bad regex becomes an error result (`BuildError`).
- An operator applied to too few fragments reads below the C stack, and a 1001st
  operand writes past it. Both are undefined behaviour in C. The model reports them as
  `MissingOperand` and `StackOverflow`.
- The builder keeps each fragment's out-pointer list as a sequence of slots, joined
  with `+`. The linked cells and the tail walk of `AppendOutPointers` are modelled on
  their own, in OutPointers, where the join is proved to name the same slots in the same
  order. Any sharing of cells between lists is excluded by a requires, since the C code
  never shares them.
- Regex and text are `seq<byte>` standing for the C strings. The model does not
  forbid a 0 byte inside them, where the C would stop reading. The regex reader
  rejects a 0 byte as `InvalidSymbol` when it stands as a literal or after a
  backslash, and as `BadRange` when it is a bound of a `[x-y]` range; the scanner
  reads it like any other byte.
  The signedness of C `char` in the `>= 32 && <= 255` tests is not modelled.
- Loop bodies and the split branch of `Add` are separate helper methods (`AddBoth`,
  `StepMember`, `ReadAll`, `Advance`, `MunchFrom`, `ScanText`, `Grow`). Each runs the
  same statements in the same order as the C code it stands for.
- The generation counter is an unbounded integer; its overflow is not modelled.
- The `States[MAX_SIZE]` write in `Add` is unchecked in C, and a set that overflows it
  writes past the array. The model excludes that overflow by a requires on each method
  that writes a set, naming the sets that method builds:
  - `Add`, `AddStartStates` and `StepThroughNFA`: the set built by the call;
  - `MatchesRegex`: the set after every prefix of the text;
  - `MunchFrom`: every set built reading on from its start position;
  - `TokenizeText` and `ScanText`: the initial set, and every set built reading on from
    a scan start (`ScanStarts`, the positions where the outer loop begins a munch).
  These are the sets the C writes. `SmallArenaFits` gives one sufficient condition, an
  arena of at most `MAX_SIZE` non-split states.
- The by-value swap of `CurrentSet` and `NextSet` is a swap of references between two
  arrays.
- `TokenizeText` allocates a `TokenArray` that it never fills or returns. `InsertToken`
  is modelled on its own, in Tokens; nothing in the source calls it.
- The unused second `Generation` counter in GenerateNFA.c and the declarations in
  GenerateNFA.h have no counterpart beyond the shared constants.
