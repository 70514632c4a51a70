# b0rk: a verified model of the compiler, the virtual machine, the collector, the parser and the UTF-8 codec

b0rk is a small scripting language. Its assembler turns structured code into instructions for a stack
machine, optimises them in place and lays them out as code words; an executor interprets the words; a
mark-and-sweep collector manages the objects in one arena; a shunting-yard loop parses expressions; and a
template library converts between UTF-8, UTF-16 and UTF-32. This project models these five parts and proves
what they promise.

## The compiler, the optimiser and the machine

The fragment is the integer one: 64-bit values that wrap around, C's truncating division, local slots,
non-short-circuit `&&`, the right operand evaluated before the left, assignments, `++` and `--`, static calls,
`if`, `for` (a `while` is a `for` without its first and third part), `return`, `try` and `throw`. Exception objects
are opaque values that can be stored, passed on, rethrown and returned. What leaves the fragment (reading a slot
that was never written, an operation on an exception object, a division that traps) is the outcome `Undefined`.

- `source.dfy` gives programs a meaning with fuel for calls and loop iterations only. It follows the pending
  operands that an exception leaves on the operand stack, because a handler does not remove them.
- `machine.dfy` is the virtual machine: one step is one dispatched instruction, of code addressed by
  instruction or by word. All frames share one operand stack, on which frame markers separate them.
- `compiler.dfy` says what the assembler emits; `compiler_proof.dfy` proves that it means what the source means,
  in both directions and for runs that do not end.
- `simulation.dfy` has one theorem for every transformation of code. A certificate says where each instruction
  went, which were merged, which slots are dead and which hold a constant; certified code is a refinement.
- `wellformed.dfy`, `removal.dfy` and `preservation.dfy` are the stack discipline of emitted code, the erasing of
  instructions with relocation of jumps, and what certified passes keep.
- `optimiser.dfy` is the optimiser as functions of the code, `optimiser_proof.dfy` certifies its passes,
  `optimiser_theorem.dfy` has the theorem about the whole of it and `optimiser_faults.dfy` two families of programs
  that it miscompiles, each with the exact condition.
- `layout.dfy` is the word layout, proved a lock-step refinement, and the disassembler's walk back.
- `assembler.dfy` and `disassembler.dfy` are the imperative programs: the instruction list that is appended to,
  patched, rewritten and erased from in place, each method proved against the functions above.
- `executor.dfy` is the dispatch loop with its recursion over frames, proved against the machine step for step.
- `pipeline.dfy` and `whole.dfy` put everything together, from the source call to the executor's result.
- `programs.dfy` says what small programs answer, for all arguments, without the functions that the semantics and the
  machine have in common: where arguments arrive, what every operator gives, the order of evaluation, a loop, a
  recursion and an exception. `evaluation.dfy` goes from the tokens of an expression to the value that the assembled
  words leave.
- `frames.dfy`, `handlers.dfy` and `tidy.dfy` are properties of all reachable states: frame markers, handler
  stacks, and where a call may stand inside a try block so that no operand is left behind.
- `slots.dfy` is the numbering of local variables over the tree of blocks.

Three things in this code are wrong, and the theorems say exactly when they matter:

- `ANDI` is folded bit by bit and executed as a logical and. The fold is right if and only if an operand is zero
  or bit 0 is the only bit that is set in both (`AndFoldsCorrectly`); for the program `return l && r;` the optimiser is right in
  exactly these cases (`AndFault`).
- The propagation of constants looks at the code from top to bottom and not at the flow of control. A variable
  that is a copy of a variable written more than once may be replaced by a wrong constant (`CopyFault`, a family
  that is optimised rightly for the constant 0 and for no other). The theorem needs that in no round a variable
  that is taken for a constant is a catch variable or such a copy (`SoundThroughout`); `ConstantsSoundIff` says that this is what a certificate needs, no more, and
  `StaticIsSound` gives a condition on the assembled code alone: constants are propagated safely, and every `&&` has
  an operand that is seen not to be a constant, such as a comparison, a call, a negation, an argument or a variable
  that is incremented.
- A handler does not remove pending operands, so that a `RETURN` after a `catch` can miss its frame marker
  (`PendingFails`). `ReturnFindsMarker` says exactly when it does. `TidyNeverFails` says that a program never does
  whose try blocks make calls only where nothing of the same expression is pending, unless the function called
  lets no exception out; outside try blocks, as in `return fib(n - 1) + fib(n - 2);`, calls may stand anywhere.

A fourth one, that `BLE` jumps after every comparison, does no harm, since the assembler never emits it
(`BranchLeAlwaysJumps`).

## The collector

`heap.dfy` describes an arena of blocks that lie end to end, the usage of bytes, the free list and
reachability. `collector.dfy` is the runtime's class: first-fit allocation, recursive marking, the sweep, the sort
and the coalescing of the free list. Its invariant `Valid` is kept by every operation, and it says that no mark is
younger than the last collection, so that the next one finds a fresh mark. `heap_client.dfy` serves any list of
requests (allocations, collections, stores, external references, changes of the roots): each does what it says, and
tiling, free list, usage and counters are kept. The hypotheses are those the code relies on: arena pointers that lead to objects,
external objects without arena pointers, and no cycle that a root reaches, since marking has no check for marks
that are already there. `MarkingEnds` says that this is exactly when marking ends, and `StoredAcyclic` which
stores make a cycle.

## The parser

`parser.dfy` is the loop and the building of the tree. `parser_proof.dfy` proves, for every bracketed
expression over binary operators, that the output queue is the tree in reverse Polish order, that it is used up,
and that the tree read from left to right is the expression without its brackets. `parser_meaning.dfy` has the
round trip of a fully bracketed expression, the grouping of brackets, and the meaning that constant folding and
the rewriting of `+=` keep.

The loop moves at most one waiting operator before it pushes the next. `parser_precedence.dfy` says what that means
for precedence: for any order in which operators are meant to be applied, the loop builds the tree that is meant if
and only if everywhere in the expression the order applies as many waiting operators as the loop moves
(`PrecedenceIff`). Expressions are read otherwise than usual where two operators would have to move, as in
`a - b * c - d`, which is read as `a - (b * c - d)` (`ProductBetweenFault`), and for the pairs of operators that
`TwoOperators` lists: `a * b / c` is read as `a * (b / c)`, and `a = b = c` as `(a = b) = c`. A higher level always
comes first.

## The UTF-8 codec

`utf8.dfy` is one code point: encoder, validating decoder, and the grammar of section 4 of RFC 3629.
`utf8_text.dfy` is text: searching and replacing what is invalid, stepping back, and the converters from and to
UTF-16 (sections 2.1 and 2.2 of RFC 2781) and UTF-32. `utf8_pieces.dfy` says what the decoder reports, and what
becomes of invalid text, by byte ranges and the grammar alone.

`prelude.dfy`, `int64.dfy` and `opcodes.dfy` are shared: lists, 64-bit arithmetic, instructions and their words.

## Model

| member | source | states |
|---|---|---|
| Opcodes.EncodeRoundTrip | src/libb0rk/opcodes.cpp:35-107 | the opcode table gives every instruction its number of arguments and the position of its code address, and every instruction is read back from its own words |
| Opcodes.RetargetWords | src/libb0rk/assembler.cpp:1825-1838 | changing the address argument in the words is changing the instruction's target |
| Int64.QuotientIff | src/libb0rk/executor.cpp:329-594 | division truncates toward zero: the quotient's magnitude is that of the magnitudes rounded down, its sign the operands' |
| Int64.BitAndBits | src/libb0rk/assembler.cpp:1665-1668 | a bit is set in `a & b` if and only if it is set in both words |
| Machine.ComputeIff | src/libb0rk/executor.cpp:329-594 | an operation gives exactly the result that differs from the exact one by a multiple of 2^64, the truncated quotient, or 1 or 0 for a conjunction, and none only where the division traps |
| Machine.ComparesCorrectly | src/libb0rk/executor.cpp:831-838 | the flags of a comparison decide all six conditions as the integers compare if and only if the difference fits in 64 bits |
| Machine.BranchLeAlwaysJumps | src/libb0rk/executor.cpp:968-977 | BLE jumps after every comparison, so it agrees with PUSHCLE exactly when the wrapped difference is not negative |
| Machine.EndsUnique | src/libb0rk/executor.cpp:1179-1222 | a run ends in at most one way |
| Machine.PopArgsPushAll | src/libb0rk/executor.cpp:1157-1162 | a call takes back exactly the arguments that were pushed for it, in their order, and nothing below them |
| CompilerProof.SimExpr | src/libb0rk/assembler.cpp:228-659 | the code of every expression leaves its value on the stack, or ends in the exception with exactly the pending operands below it, with the locals the source leaves |
| CompilerProof.SimTest | src/libb0rk/assembler.cpp:961-1020 | the fused compare-and-branch form and the fallback both skip the body exactly when the test evaluates to zero, for every test expression |
| CompilerProof.SimStmt | src/libb0rk/assembler.cpp:663-830 | the code of every statement ends as the source statement does, at its own end, with the same locals, exception or result, and the operand stack as it was but for what exceptions leave |
| CompilerProof.SimTry | src/libb0rk/assembler.cpp:782-818 | a try block's exception continues in its catch block with the exception in the catch variable; without one the handler is gone afterwards |
| CompilerProof.CompiledEnds | src/libb0rk/assembler.cpp:228-1020 | for every program and every call, what the source call does the emitted code does: the same result, exception or failure, with the stack below the call untouched |
| CompilerProof.CompiledKeepsRunning | src/libb0rk/assembler.cpp:701-759 | while the source call is out of fuel the machine is still running, so endless loops stay endless |
| CompilerProof.CompilerCorrect | src/libb0rk/assembler.cpp:228-1020 | conversely, every end of the emitted code is the end of the source call, unless that leaves the fragment |
| WellFormedCode.CompiledWellFormed | src/libb0rk/assembler.cpp:228-1020 | in all emitted code every instruction finds its operands, every jump lands in the code where no operands are pending, and RETURN and THROW find exactly one |
| Simulation.TransformsRefines | src/libb0rk/executor.cpp:1130-1222 | replacing every function's code by certified code changes no run: every end inside the fragment is kept, and no end is added unless the original leaves the fragment |
| Simulation.RefinesTransitive | src/libb0rk/assembler.cpp:1280-1301 | passes that each preserve all runs preserve them together |
| Removal.RemoveNext | src/libb0rk/assembler.cpp:1587-1592 | erasing one more instruction at the index it has by then is erasing it from the original code, with every target relocated |
| Removal.SurvivorAt | src/libb0rk/assembler.cpp:1809-1840 | every kept instruction stands at its index minus the removed ones below it, and its target t has become t minus the removed indexes below t |
| Removal.TargetOfRemoved | src/libb0rk/assembler.cpp:1825-1838 | a jump to a removed instruction lands on the next kept one |
| Preservation.WellFormedKept | src/libb0rk/assembler.cpp:1280-1301 | every certified pass keeps the stack discipline of the code |
| Preservation.SafeKept | src/libb0rk/assembler.cpp:1280-1301 | every certified pass keeps the condition under which constants may be propagated |
| OptimiserProof.KnownIff | src/libb0rk/assembler.cpp:1485-1497 | a loaded variable is replaced by a constant if and only if one instruction writes it, its scanned value is known and its scanned type is integer |
| OptimiserProof.LoadsRewritten | src/libb0rk/assembler.cpp:1331-1525 | a load becomes the constant of a known variable, or DUP behind a load of the same variable that has not become DUP itself, or stays |
| OptimiserProof.ConstantsSoundIff | src/libb0rk/assembler.cpp:1335-1460 | every write to a variable taken for a constant stores that constant if and only if none of these variables is a catch variable or a copy of a variable with other writes |
| OptimiserProof.RewriteCertified | src/libb0rk/assembler.cpp:1331-1525 | typing, duplicating loads and propagating constants stand for the original instructions at the same places |
| OptimiserProof.StoresCertified | src/libb0rk/assembler.cpp:1555-1592 | removing constant stores to variables that are never read, with relocation, is certified |
| OptimiserProof.FoldsCertified | src/libb0rk/assembler.cpp:1600-1797 | folding arithmetic on constants, with relocation, is certified where each folded and has its logical value |
| OptimiserTheorem.AndFoldsCorrectly | src/libb0rk/assembler.cpp:1665-1668 | the folded value of and is the executed one if and only if an operand is zero or bit 0 is set in both and no other bit is |
| OptimiserTheorem.FoldIff | src/libb0rk/assembler.cpp:1645-1670 | folding gives the exact result of the operation, but for and the number whose bits are set in both operands |
| OptimiserTheorem.OptimiserCorrect | src/libb0rk/assembler.cpp:1280-1840 | round after round of the whole optimiser, on any function of any program, preserves every run, where no round takes a variable wrongly for a constant or folds an and wrongly |
| OptimiserTheorem.StaticIsSound | src/libb0rk/assembler.cpp:1280-1525 | every round is sound for code where every `&&` has an operand that is seen not to be a constant and constants are propagated safely, a condition on the assembled code alone |
| OptimiserTheorem.OptimisedNormal | src/libb0rk/assembler.cpp:1282-1299 | when the rounds stop, no constant arithmetic is left to fold and no constant is stored to a variable that is never read |
| OptimiserFaults.AndFault | src/libb0rk/assembler.cpp:1665-1668 | optimising `return l && r;` preserves its runs if and only if an operand is zero or bit 0 is set in both and no other bit is |
| OptimiserFaults.CopyFault | src/libb0rk/assembler.cpp:1348-1397 | a copy of a variable that one branch writes is replaced by the constant k of that branch: the optimised function refines the original if and only if k is 0 |
| Layout.FetchEmitted | src/libb0rk/assembler.cpp:94-141 | the machine fetches every instruction from its word address, with its target's word address, and the next one follows it |
| Layout.LayoutRefines | src/libb0rk/assembler.cpp:94-141 | the word layout of a program preserves all its runs |
| Layout.LockStep | src/libb0rk/executor.cpp:1179-1216 | the word machine runs step for step with the list machine, its pc the word address of the list's in every frame and handler, and leaves the fragment exactly when the list machine does |
| Layout.DispatchesAtStarts | src/libb0rk/executor.cpp:1179-1216 | in every run of a call the word machine dispatches only at starts of instructions |
| Layout.WalkLists | src/libb0rk/disassembler.cpp:55-121 | the disassembler's walk over the words lists exactly the instructions, each at its address |
| Layout.ListingDetermines | src/libb0rk/disassembler.cpp:55-121 | the listing determines the code: every instruction and every jump target is recovered from it |
| Disassembling.Disassemble | src/libb0rk/disassembler.cpp:41-124 | the loop lists every position the walk stops at with its opcode and arguments |
| Assembling.Assembler.AssembleExpression | src/libb0rk/assembler.cpp:228-659 | appends exactly the expression's code and disturbs nothing before it |
| Assembling.Assembler.AssembleTest | src/libb0rk/assembler.cpp:961-1020 | takes back a pushed condition and branches on its opposite, or compares with zero: the test's code with an open target |
| Assembling.Assembler.AssembleStatement | src/libb0rk/assembler.cpp:663-830 | appends the statement's code with every branch patched to where its target came to stand |
| Assembling.Assembler.AssembleBlock | src/libb0rk/assembler.cpp:151-188 | appends the code of the statements one after another |
| Assembling.Assembler.RemoveInstruction | src/libb0rk/assembler.cpp:1809-1840 | erases one instruction and moves every address beyond it down by one |
| Assembling.Assembler.RemoveAll | src/libb0rk/assembler.cpp:1587-1592 | the ascending loop with the shifting index removes the whole set at once |
| Assembling.Assembler.ScanCode | src/libb0rk/assembler.cpp:1311-1448 | the scan's table counts every load and store and holds the last type and value of every variable |
| Assembling.Assembler.OptimiseVars | src/libb0rk/assembler.cpp:1303-1596 | the three passes rewrite the code as specified, and report a change if and only if it got shorter |
| Assembling.Assembler.OptimiseArithmetic | src/libb0rk/assembler.cpp:1598-1807 | folds until nothing can be folded, fails if and only if a folded division traps, and reports a change if and only if the code got shorter |
| Assembling.Assembler.Optimise | src/libb0rk/assembler.cpp:1280-1301 | the nested loops end on every code, with the optimiser's normal form |
| Assembling.Assembler.LayOut | src/libb0rk/assembler.cpp:94-136 | writes the words of the code, or fails if and only if an address is out of range |
| Assembling.Assembler.Assemble | src/libb0rk/assembler.cpp:76-146 | gives a function its assembled words |
| Executing.Activation.FetchInstruction | include/b0rk/context.h:66-69 | fetching an opcode and its arguments advances the pc by exactly their words |
| Executing.ExecuteData | src/libb0rk/executor.cpp:60-915 | every opcode function that moves data leaves the locals, flags and operands the machine's operation leaves |
| Executing.OpcodeArith | src/libb0rk/executor.cpp:329-594 | typed and untyped arithmetic opcodes do the same to two integers |
| Executing.OpcodeBranch | src/libb0rk/executor.cpp:935-999 | the branch opcodes jump on the machine's conditions |
| Executing.HandleException | src/libb0rk/executor.cpp:1225-1289 | enters the innermost handler with the pending operands still on the stack, or pops through the frame's marker and leaves |
| Executing.OpcodeReturn | src/libb0rk/executor.cpp:811-829 | succeeds if and only if its own frame's marker is directly below the result, which then takes its place |
| Executing.PopArguments | src/libb0rk/executor.cpp:1157-1162 | of arguments pushed in order, number k arrives in slot k + 1, every other slot stays empty, and the stack below them is left |
| Executing.Run | src/libb0rk/executor.cpp:1130-1222 | the recursive dispatch loop is in the machine's state after as many steps as it dispatched instructions: result, exception, failure or, with its limit used up, still running |
| Pipeline.BuiltRefines | src/libb0rk/assembler.cpp:68-146 | compiled, optimised and laid out functions together refine the compiled program |
| Pipeline.AssembledEnds | src/libb0rk/assembler.cpp:68-146 | every result, exception and failure of a source call is the end of the assembled words |
| Pipeline.AssembledCorrect | src/libb0rk/assembler.cpp:68-146 | and the assembled words end in no other way, unless the source call leaves the fragment |
| WholeSystem.AssembleAll | src/libb0rk/assembler.cpp:68-146 | assembling gives a program the theorems are about if and only if every function gets words |
| WholeSystem.CallAssembled | src/libb0rk/executor.cpp:1130-1222 | when the executor finishes a call of an assembled function, its result, exception or failure is the source call's, and it stops before only where the machine still runs at the limit |
| Programs.ArgumentArrives | src/libb0rk/executor.cpp:1157-1162 | a function that returns slot i + 1 answers its argument number i, and so do its assembled words |
| Programs.OperatorAnswers | tests/b0rk/tests/Expressions.bs:32-35 | `return a op b;` gives the operation's result for all arguments, and is undefined exactly where the division traps |
| Programs.ComparisonAnswers | tests/b0rk/tests/Expressions.bs:37-42 | `return a < b;` and the other comparisons give 1 or 0, 1 exactly where the integers compare so, if their difference fits in 64 bits |
| Programs.NegationAnswers | tests/b0rk/tests/Expressions.bs:44-45 | `return !a;` gives 1 for zero and 0 for everything else |
| Programs.StepAnswers | tests/b0rk/tests/Expressions.bs:53-56 | `a++` and `a--` give the old value and leave one more or one less |
| Programs.RightOperandFirst | src/libb0rk/assembler.cpp:352-659 | in `a++ op a` the right operand is read before a changes |
| Programs.BothOperandsEvaluated | src/libb0rk/assembler.cpp:352-659 | `0 && a++` increments a |
| Programs.ArgumentsInOrder | src/libb0rk/assembler.cpp:228-659 | in `g(a++, a)` the second argument is read after a has changed |
| Programs.SumAnswers | src/libb0rk/assembler.cpp:701-759 | a counting loop from 1 to n adds up to n(n + 1)/2, in 64 bits, for every n from 0 on but the largest integer |
| Programs.FibAnswers | src/libb0rk/executor.cpp:1130-1222 | the doubly recursive function computes the n-th Fibonacci number, in 64 bits, for every n from 0 on |
| Programs.ThrownArrives | tests/b0rk/tests/Exceptions.bs:5-52 | what a function throws arrives in the catch variable around it, in the same function or in its caller, and leaves the call where nothing is around it |
| Evaluation.MeaningEvaluates | src/libb0rk/assembler.cpp:228-659 | the expression that the assembler is given for a parsed tree evaluates to the tree's meaning, with the same changes of variables, and is undefined where there is none |
| Evaluation.TextAnswers | src/libb0rk/parser.cpp:942-1239 | parser, compiler and machine together: a function that returns the parsed text of an expression returns what the expression means, and so do its assembled words |
| FrameDiscipline.RunShaped | src/libb0rk/executor.cpp:1157-1222 | throughout every run of well-formed code each frame's operands lie above its own marker, however calls nest and whatever they throw |
| FrameDiscipline.CallShaped | src/libb0rk/executor.cpp:1157-1222 | a call leaves what lay below it untouched, however it ends |
| FrameDiscipline.NeverUnderflows | src/libb0rk/executor.cpp:310-330 | no instruction takes an operand from below its own frame's marker |
| FrameDiscipline.ReturnFindsMarker | src/libb0rk/executor.cpp:811-829 | in every reachable state RETURN finds its own marker if and only if the result is its frame's only operand |
| HandlerNesting.HandlersAreEnclosingTries | src/libb0rk/assembler.cpp:782-818 | in every reachable state every frame's handler stack is the list of try blocks around its pc |
| HandlerNesting.ThrowGoesToInnermostCatch | src/libb0rk/executor.cpp:1001-1024 | a throw goes to the innermost enclosing catch with the outer handlers left, or leaves the frame if there is none |
| TidyCalls.CallTidy | src/libb0rk/executor.cpp:1237-1289 | where calls inside try blocks have nothing pending, or call functions that let no exception out, no call ever misses a frame marker, and those functions throw nothing |
| TidyCalls.TidyNeverFails | src/libb0rk/executor.cpp:811-829 | no run of such a program ends by missing a marker, unless it leaves the fragment |
| TidyCalls.TryFreeNeverAborts | src/libb0rk/executor.cpp:1268-1287 | a program without try statements never misses a marker, wherever its calls stand |
| TidyCalls.PendingFails | src/libb0rk/executor.cpp:1268-1287 | a function that catches an exception thrown by a call with a pending operand fails when it returns |
| Heap.TilesEveryByte | src/libb0rk/runtime.cpp:601-641 | every byte of the arena belongs to exactly one block |
| Heap.UsageTotal | src/libb0rk/runtime.cpp:594-641 | bytes in use and free bytes make up the arena |
| Heap.ReachesByChild | src/libb0rk/runtime.cpp:682-712 | what an object reaches is itself and what its values reach |
| Heap.MarkingEnds | src/libb0rk/runtime.cpp:682-712 | the paths that marking follows from an object have a greatest length if and only if no cycle can be reached from it |
| Collecting.Runtime.AllocateObject | src/libb0rk/runtime.cpp:283-383 | collects first if and only if three quarters of the arena are in use and collection is enabled; then gives an empty, unmarked object in the first free block that fits, and none if and only if no free block is large enough; disturbs no other object and loses none that a root reaches |
| Collecting.Runtime.Place | src/libb0rk/runtime.cpp:310-383 | takes the first free block that fits, puts the remainder at the end of the free list if it is larger than a header and absorbs it if not, and fails if and only if no free block is large enough |
| Collecting.Runtime.MarkObject | src/libb0rk/runtime.cpp:682-712 | ends where no cycle can be reached, with the mark on exactly the objects that can be reached, but for external ones |
| Collecting.Runtime.MarkRoots | src/libb0rk/runtime.cpp:530-593 | marks exactly what static fields, stacks and the local variables of stacked frames reach |
| Collecting.ReachedIff | src/libb0rk/runtime.cpp:530-593 | what is reached from the roots is what a value of a static field, a value on a stack or a local variable of a stacked frame leads to |
| Collecting.Runtime.Sweep | src/libb0rk/runtime.cpp:594-640 | exactly the unmarked, non-external objects become free and are put on the free list; the survivors are counted |
| Collecting.Runtime.Coalesce | src/libb0rk/runtime.cpp:647-678 | ends with an ascending free list in which no two free blocks touch, no free byte lost and every live block untouched |
| Collecting.Runtime.Gc | src/libb0rk/runtime.cpp:514-680 | a full collection leaves exactly the reached and the external objects, contents untouched, stamps them with its own mark, returns every other object's space to the free list, and keeps tiling, free list and counters right |
| Collecting.Runtime.SetValue | include/b0rk/object.h:59 | storing a pointer to an object keeps the invariant |
| Collecting.StoredAcyclic | include/b0rk/object.h:59 | a store makes a cycle if and only if the object stored leads to the one it is stored in |
| Collecting.CollectedLater | src/libb0rk/runtime.cpp:514-680 | after a collection no mark is younger than its own, and no object leads to a cycle that did not before |
| Collecting.NewAcyclic | src/libb0rk/runtime.cpp:343-383 | an allocation closes no cycle |
| HeapClient.Serve | src/libb0rk/runtime.cpp:283-712 | serves any list of allocations, collections, stores, external references and changes of the roots, each with its own effect, until an allocation finds no block that is large enough; the blocks tile the arena, the free list is exactly the free blocks, and usage and counters are right |
| Collecting.CollectedOk | src/libb0rk/runtime.cpp:682-712 | what is left after a collection points only at what is left |
| Collecting.MergeFree | src/libb0rk/runtime.cpp:656-672 | merging two neighbours keeps the tiling, the free list and the usage |
| Collecting.PlacedOk | src/libb0rk/runtime.cpp:343-377 | splitting a free block keeps the tiling and the free list, and adds the object and its bytes to the usage |
| Parsing.ParseExpression | src/libb0rk/parser.cpp:942-1094 | the loop and the building of the tree give the specified tree and stop position, or fail where they do |
| Parsing.BuildTreeFrom | src/libb0rk/parser.cpp:1096-1239 | takes the right operand and then the left one from the back of the queue |
| ParserProof.ShuntExpression | src/libb0rk/parser.cpp:942-1080 | for every bracketed expression over binary operators the output queue is its tree in reverse Polish order |
| ParserProof.BuildsTree | src/libb0rk/parser.cpp:1096-1239 | building consumes exactly the tree at the back of the queue, simplified |
| ParserProof.ParsesExpression | src/libb0rk/parser.cpp:942-1239 | the parser gives the expression's tree, simplified, stops at its end and uses up its queue |
| ParserProof.ChainYield | src/libb0rk/parser.cpp:942-1132 | read from left to right, the tree is the expression without its brackets |
| ParserMeaning.ParsedIsBalanced | src/libb0rk/parser.cpp:942-1132 | whatever the tokens are, what is parsed has as many right brackets as left ones: an open bracket is an error |
| ParserMeaning.GroupIsSubtree | src/libb0rk/parser.cpp:1032-1062 | every bracketed group is a subtree, whatever stands around it |
| ParserMeaning.PrintRoundTrip | src/libb0rk/parser.cpp:942-1132 | printing any tree with all its brackets and parsing it gives the tree back, simplified |
| ParserMeaning.PrintedIffSimple | src/libb0rk/parser.cpp:942-1239 | a tree comes back from its print if and only if there is nothing in it to fold or to rewrite |
| ParserMeaning.ParsedIsStable | src/libb0rk/parser.cpp:942-1239 | whatever was parsed, printing the tree and parsing it again gives the same tree |
| ParserMeaning.ParsesTwo | src/libb0rk/parser.cpp:1140-1232 | `x op y` gives the sum or the product of two constants, an assignment of the sum or difference for += and -=, and otherwise the operation with its operands in their order |
| ParserMeaning.SimplifiedMeans | src/libb0rk/parser.cpp:1140-1232 | folding constants and rewriting += and -= keep value and effects, for all values of the variables |
| ParserMeaning.SimplifiedIff | src/libb0rk/parser.cpp:1196-1207 | an expression is refused if and only if += or -= is applied to something else than a variable |
| ParserMeaning.ProductBetweenFault | src/libb0rk/parser.cpp:1003-1030 | `a - b * c - d` is read as `a - (b * c - d)`, which has the value of `(a - b * c) - d` if and only if d equals -d in 64 bits |
| ParserPrecedence.PrecedenceIff | src/libb0rk/parser.cpp:1003-1030 | for every bracketed expression and every order of application, the loop builds the tree that is meant if and only if the order applies as many waiting operators before each new one as the loop moves |
| ParserPrecedence.RankDue | src/libb0rk/parser.cpp:1003-1030 | by the loop's own ranks that fails exactly where the two last waiting operators both have at least the new one's rank |
| ParserPrecedence.TwoOperators | src/libb0rk/parser.cpp:1003-1030 | an expression with two operators is grouped by the usual levels, from the left within a level and from the right for assignments, but for 18 listed pairs of one level, which are grouped the other way |
| Utf8.ValidateNext | include/b0rk/utf8.h:223-272 | gives the code point and the position after it, or the first error with the position restored |
| Utf8.GetSequence | include/b0rk/utf8.h:138-218 | reads the announced bytes, or reports the first that is missing or no trail byte |
| Utf8.Append | include/b0rk/utf8.h:401-424 | appends the code point's bytes, or throws if and only if it is no scalar value |
| Utf8.AcceptsGrammar | include/b0rk/utf8.h:223-272 | a sequence is accepted if and only if it is a UTF8-char of section 4 of RFC 3629 |
| Utf8Pieces.DecodeIff | include/b0rk/utf8.h:138-272 | the code point is the number made of the payload bits, and each of the five errors is reported exactly for its own kind of bytes |
| Utf8Pieces.NextIff | include/b0rk/utf8.h:465-484 | next gives the code point and the position after it, or throws the exception for the kind of bytes it finds: invalid code points are reported as 0 |
| Utf8.EncodeDecoded | include/b0rk/utf8.h:401-424 | what is decoded encodes to the same bytes |
| Utf8.DecodeEncoded | include/b0rk/utf8.h:223-272 | an encoded code point is decoded again, wherever it stands |
| Utf8Text.FindInvalid | include/b0rk/utf8.h:288-297 | finds where decoding stops |
| Utf8Text.FindInvalidIff | include/b0rk/utf8.h:288-303 | the text before that position is valid, no code point starts there, and the whole text is accepted if and only if it has the grammar |
| Utf8Text.CodecRoundTrip | include/b0rk/utf8.h:401-424 | encoding and decoding undo each other on all scalar values and all valid texts |
| Utf8Text.ReplaceInvalid | include/b0rk/utf8.h:427-455 | one replacement for every invalid sequence, or the exception |
| Utf8Pieces.ReplacedIff | include/b0rk/utf8.h:427-455 | the output is exactly the text's pieces in order, code points copied and every invalid piece (a byte that is no lead, or a lead with all the trail bytes after it) replaced once; and exactly when each exception is thrown |
| Utf8Text.ReplacedIsValid | include/b0rk/utf8.h:427-455 | whatever the input, the output is valid UTF-8 when nothing is thrown |
| Utf8Text.ReplacedIsIdentity | include/b0rk/utf8.h:427-455 | valid text is left alone |
| Utf8Text.Prior | include/b0rk/utf8.h:491-503 | goes back over trail bytes to a lead byte and decodes there, or throws |
| Utf8Text.BackToLeadIff | include/b0rk/utf8.h:491-503 | prior stops at the last byte before that is no trail byte, and throws where there is none |
| Utf8Text.PriorUndoesNext | include/b0rk/utf8.h:491-503 | after a code point of the text, prior steps back over exactly the code point next reads there |
| Utf8Text.Utf16To8 | include/b0rk/utf8.h:535-559 | converts exactly the texts without lone surrogates, code point by code point, or throws at the first of them |
| Utf8Text.PairOfRfc | include/b0rk/utf8.h:562-574 | a pair of surrogates carries ten bits each of what exceeds 0xffff |
| Utf8Text.Utf8To16 | include/b0rk/utf8.h:562-574 | converts exactly the valid texts, code points above 0xffff to surrogate pairs, or throws what next throws where decoding stops |
| Utf8Text.Utf32To8 | include/b0rk/utf8.h:577-583 | encodes every code point, or throws at the first that is no scalar value |
| Utf8Text.Utf8To32 | include/b0rk/utf8.h:586-592 | decodes exactly the valid texts, or throws what next throws where decoding stops |
| Utf8Text.ConvertersUndo | include/b0rk/utf8.h:535-574 | the UTF-8 and UTF-16 converters undo each other |
| Utf8Text.ThroughUtf16 | include/b0rk/utf8.h:535-574 | text taken to UTF-16 and back is unchanged, and goes through if and only if it is valid UTF-8 |
| Utf8Text.ThroughUtf8 | include/b0rk/utf8.h:535-574 | text taken to UTF-8 and back is unchanged, and goes through if and only if no surrogate stands alone |
| Slots.CodeBlock.SetStartingVarId | src/libb0rk/codeblock.cpp:57-79 | numbers the whole tree of blocks and gives one more than the highest slot |
| Slots.HighestUsed | src/libb0rk/codeblock.cpp:57-79 | that number is one more than the last slot of some block, so that the frame is no larger than it must be |
| Slots.CodeBlock.GetVarId | src/libb0rk/codeblock.cpp:81-100 | looks a name up in the block, the blocks around it and the arguments |
| Slots.SlotsApart | src/libb0rk/codeblock.cpp:57-79 | on a chain of blocks no two variables share a slot, none has the slot of `this` or an argument, and all lie inside the frame |
| Slots.LookupInnermost | src/libb0rk/codeblock.cpp:81-100 | a declared name has the slot of its innermost declaration |
| Slots.LookupArgument | src/libb0rk/codeblock.cpp:81-100 | a name that no block declares has the slot of the argument of that name, and no slot if there is none |
| Slots.LookupInjective | src/libb0rk/codeblock.cpp:81-100 | two different names that are visible in a block have different slots |

## Left out

- Doubles: Dafny has no IEEE arithmetic. That leaves out `PUSHD`, the typed double opcodes and the rewriting to `INC_VARD`.
- Objects in the machine: fields, named lookup, arrays, strings, constructors, native functions and operator overloading. A call is a static call of a function of the program.
- `++` and `--` on fields and array elements, and value statements such as `a + b;`, which leave their value on the stack.
- Uninitialised slots, operations on exception objects and traps: a run that gets there is `Undefined`, and nothing is claimed about it.
- The limits of the real machine: the size of the operand stack and of the C++ stack, and the 32-bit pc. Code words are unbounded numbers, except that a pushed integer is carried by a 64-bit word and back.
- OptimiserTheorem.OptimiserCorrect: its condition that constants are propagated soundly in every round is sufficient and not necessary, since a wrongly propagated constant in code that no run reaches does no harm.
- Calls with more arguments than declared: they would overwrite other local variables.
- Slots of variables inside try and catch blocks: those blocks are not among the child blocks that are numbered, so catch slots are given.
- Assembling.Assembler.Assemble: that the optimiser's result is ignored is not modelled, because the optimiser only fails where a folded division traps and the process ends.
- Executing.Run: says nothing of how a run continues that has used up its limit of instructions; the machine is still running then.
- Instruction lists, variable tables and queues are sequences that the methods reassign; the sharing of C++ iterators is not captured.
- Values of the collector's heap other than pointers, the contents of raw memory, timestamps (a fresh mark is a parameter) and the 32-bit overflow of object sizes.
- Collecting.Runtime.Gc: assumes that no root reaches a cycle, where marking does not end, and that time goes by between two collections.
- Prefix `!`, the postfix operators, calls and member access inside expressions of the parser: an operand is one token that stands for a value.
- Folding of doubles in the parser, the types of expressions, and the lexer.
- The deprecated stepping functions, byte order marks and the iterator class of the UTF-8 library.
