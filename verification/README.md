# Model of the LDU decompiler's meaning-preserving core

The decompiler lifts machine code to expression trees in basic blocks, rewrites them in
many passes, and prints C.  This project models the passes and helpers whose correctness
is a matter of meaning rather than taste, and proves what they promise: that a rewritten
function does what the original did, that two printed forms are the same program, that
what is saved can be loaded.

How it is built:

- **Magic division** (`Arith`, `MagicSigned`, `MagicUnsigned`, `WordOps`, `MagicMatch`,
  `MagicFold`, `MagicDivision`, `MagicModulo`, `MagicRoundTrip`, `MagicText`, `MagicLimits`).
  The generators are loops on words of any width; the searches invert them; the recogniser
  works on expression trees through temps and casts, and recognises what the generators
  give.  Division truncates toward zero, as in section 6.5.5 of ISO C11.
- **The block IR and its passes** (`IR`, `Dataflow`, `Liveness`, `DeadStores`,
  `DeadStoresExact`, `LivePaths`, `LocalDeadStores`, `Coalesce`, `CoalesceLimits`,
  `InlineCounts`, `Moving`, `CopyProp`, `CopyPropLimits`, `CallOrder`, `MovesLeft`,
  `Recording`, `MoveExact`, `ReachReads`, `DefAssign`).  Expressions are evaluated on a machine
  whose operators, memory and callees are parameters; a run visits blocks, changes memory
  and leaves a trace of calls.  Each pass that works in place is a class or methods with
  loops, proved against specification functions, and the theorems compare whole runs.
- **The two complete emitters** (`EmitGoto`, `EmitStates`), compilers from one block graph to
  labels and gotos and to a state machine, each proved to execute exactly the graph.
- **Label cleanup on lines** (`Labels`), the **expression pool** (`ExprPool`), the
  **annotation sidecar** (`Json`, `JsonText`, `JsonGrammar`, `AnnoResolve`, `Annotations`,
  `AnnoRefusals`, `AnnoRoundTrip`, `AnnoStore`), the **bit loops** (`Bits`), the **range-check rewrite** (`RangeCheck`) and
  **function extents** (`FuncExtent`).

Where the code does not keep a promise, the theorem carries the condition under which it
does and a lemma shows an input on which it does not.  Other lemmas say for which inputs the
condition is exact, and show one on which it is too coarse.  These are the disagreements between
the code and its comments that the proofs brought out:

- Magic recognition is called safe by construction (`decompiler.cpp:3622-3628`).  The
  arithmetic is; the matcher peels narrowing casts, looks through temps whose operands have
  been assigned since, and reads a zero-extended 32-bit multiplier as signed.
- The read counts are said to stay exact during a copy propagation round
  (`decompiler.cpp:3106-3109`).  They do unless re-folding the reader drops reads.
- "Restart this block" (`decompiler.cpp:3254`) leaves the block: the next inlining in it
  waits for the next round.  The model does what the code does.
- Copy propagation keeps calls in order by asking whether the variable stands inside the
  arguments of the reader's call (`decompiler.cpp:3212-3225`); it takes the arguments of an
  intrinsic for such a place (`decompiler.cpp:1082-1095`), and then two calls may swap.
- Copy propagation moves loads into readers that call, values past aliasing stores, and
  calls under conditions; global dead-store elimination and definite assignment overlook
  tail calls; local dead-store elimination overlooks address-taken variables; coalescing
  merges variables that are both live at entry.
- The walk of `cfg.cpp:343-353` peeks at the next instruction and would continue; it never
  can, which `FuncExtent.Walk` proves.

`dafny verify dfyconfig.toml` checks everything.

## Model

| member | source | states |
|---|---|---|
| `MagicSigned.MdMagics` | engine/analysis/decompiler.cpp:3633-3655 | For every word width of at least 4 bits and every divisor with 2 <= abs(d) < 2^(W-1), the do-while loop, step by step on words, returns the pair of the mathematical definition: the least exponent p >= W at which the error term is small enough, and the rounded-up multiplier, negated for a negative divisor; it ends, and none of its words wraps. |
| `MagicSigned.ExitsByTwiceTheWidth` | engine/analysis/decompiler.cpp:3638-3641 | The loop condition has failed by exponent 2W - 2 at the latest, so the derived shift is below W - 1. |
| `MagicSigned.NegationStaysInRange` | engine/analysis/decompiler.cpp:3642 | The multiplier is never exactly 2^(W-1), so negating it for a negative divisor never meets the one word that has no negation. |
| `MagicSigned.CoreIsExact` | engine/analysis/decompiler.cpp:3844-3855 | High product plus correction times the dividend never wraps, and shifted it is the floor of the exact product over 2^p. |
| `MagicSigned.SignedMagicSound` | engine/analysis/decompiler.cpp:3780-3794 | If multiplier, shift and correction are those derived for d, then for every signed word n the machine sequence (high product, correction, arithmetic shift, sign bit added, each on W-bit words) is n / d truncated toward zero. |
| `MagicSigned.MatchIsUnique` | engine/analysis/decompiler.cpp:3780-3794 | One triple belongs to one divisor, so it does not matter that the first match wins. |
| `MagicSigned.MdFindSigned` | engine/analysis/decompiler.cpp:3780-3794 | The search answers d exactly when the triple is the one derived for d, for every 3 <= abs(d) <= 100000 and both signs (a left inverse of the generator), and every answer divides all signed words correctly. |
| `MagicUnsigned.MdMagicu` | engine/analysis/decompiler.cpp:3656-3681 | For every width and every divisor 2 <= d < 2^(W-1) the loop returns the least adequate exponent, the multiplier kept to a word, and the add flag exactly when the multiplier needs one bit more than a word. |
| `MagicUnsigned.UExitsByTwiceTheWidth` | engine/analysis/decompiler.cpp:3667-3667 | The arithmetic exit condition holds by exponent 2W - 1, so the limit on p is never what ends the loop. |
| `MagicUnsigned.UnsignedMagicSound` | engine/analysis/decompiler.cpp:3795-3803 | If multiplier, shift and add flag are those derived for d, then for every unsigned word n the plain form, or with the flag the form that adds the dividend back by halves, is n / d; wrap-around of the intermediate words included. |
| `MagicUnsigned.UMatchIsUnique` | engine/analysis/decompiler.cpp:3795-3803 | One unsigned triple belongs to one divisor. |
| `MagicUnsigned.MdFindUnsigned` | engine/analysis/decompiler.cpp:3795-3803 | The unsigned search answers d exactly when the triple is the one derived for d, for every 3 <= d <= 100000, and every answer divides all unsigned words correctly. |
| `MagicFold.MulhiGives` | engine/analysis/decompiler.cpp:3732-3778 | A recognised multiply-high node, looked for through temps and casts, has the value of the high product of multiplier and dividend, in the 64-bit intrinsic form and in the 32-bit form as the high half of a 64-bit product, if its temps hold their definitions and its nodes and casts keep the words they handle, which the matcher does not check. |
| `MagicFold.CoreGives` | engine/analysis/decompiler.cpp:3844-3855 | Under the same two conditions the recognised core has the value of the high product plus its recognised correction, with the product on either side. |
| `MagicFold.SignedShapeGives` | engine/analysis/decompiler.cpp:3808-3861 | Under the same two conditions a recognised signed shape, with its two terms in either order, evaluates to the machine sequence for exactly the multiplier, shift, correction and width that are looked up; that its sign term is of the very quotient follows from the comparison the matcher makes, for subtrees that do not differ only in what that comparison overlooks. |
| `MagicFold.PlainShapeGives` | engine/analysis/decompiler.cpp:3863-3875 | The same for the unsigned shape without the add flag, under the same conditions. |
| `MagicFold.AddShapeGives` | engine/analysis/decompiler.cpp:3876-3910 | The same for the unsigned shape with the add flag, both orders of its sum, under the same conditions. |
| `MagicMatch.EqualExactly` | engine/analysis/decompiler.cpp:1211-1242 | The structural comparison holds if and only if the two expressions are the same but for widths (of loads they count), signedness and unused operands, and every call in them is of an intrinsic. |
| `MagicDivision.MdMatchQuotient` | engine/analysis/decompiler.cpp:3805-3912 | The recogniser answers a dividend and divisor exactly when one of the shapes in its order carries the magic triple of a searched divisor. |
| `MagicDivision.FoldKeepsQuotient` | engine/analysis/decompiler.cpp:3943-3957 | At a moment of a run at which the temps looked through hold their definitions, the recognised expression and its fold `x / d` both have the value of the truncated quotient of the dividend, for every dividend word, if the nodes looked through keep the words they handle and compared subtrees do not differ only in width or signedness. |
| `MagicRoundTrip.SignedDivisionIsFound` | engine/analysis/decompiler.cpp:3805-3861 | The code for a signed division by d, with the multiplier, shift and correction derived for d, is recognised as exactly that division and as no other: for every searched d of either sign, 32 and 64 bits, the sign term on either side, either constant that stands for the multiplier. |
| `MagicRoundTrip.UnsignedDivisionIsFound` | engine/analysis/decompiler.cpp:3863-3912 | The same for unsigned divisions by every searched d, in the plain form or, when the multiplier needs one bit more, the form that adds the dividend back, its sum in either order. |
| `MagicRoundTrip.EveryMultiplierIsWritten` | engine/analysis/decompiler.cpp:3732-3778 | The constants the recogniser takes for a multiplier include its word and its sign extension, for every multiplier. |
| `MagicModulo.RemainderIs` | engine/analysis/decompiler.cpp:3913-3921 | n - (n / d) * d is the remainder that takes the sign of the dividend (section 6.5.5 of ISO C11), and stays within the word. |
| `MagicModulo.FoldKeepsRemainder` | engine/analysis/decompiler.cpp:3914-3941 | `x - (x / d) * d`, and the doubled form `(x / d) * k + (x / d) * k` with 2k = d, have the value of the fold `x % d`, signed and unsigned, for every width, dividend and non-zero divisor, wrap-around of the product included, if the temps hold their definitions, the nodes keep the words they handle, and compared subtrees do not differ only in what the comparison overlooks. |
| `MagicRoundTrip.RemainderIsFound` | engine/analysis/decompiler.cpp:3914-3941 | The code for a remainder, plain or doubled, the product on either side, is recognised as the remainder by that very divisor, for every divisor. |
| `MagicText.MdBuildDefs` | engine/analysis/decompiler.cpp:3685-3697 | The map holds exactly the variables written once in the function, never address-taken, no arrays, with a call-free value, each with its one definition. |
| `MagicText.TempHeldExactly` | engine/analysis/decompiler.cpp:3685-3697 | Of a collected temp defined earlier in the block, the condition on the text asks if and only if it is not its own operand and nothing since assigns a variable its definition reads or, for a definition that depends on memory, stores or calls. |
| `MagicText.CurrentFromText` | engine/analysis/decompiler.cpp:3685-3706 | If the text says so of every temp of interest, each of them holds the value of its definition at that point of every run. |
| `MagicText.FoldInTextKeepsQuotient` | engine/analysis/decompiler.cpp:3943-3957 | With that condition on the text in place of one on the run, the recognised quotient and its fold agree at that point of every run. |
| `MagicText.FoldInTextKeepsRemainder` | engine/analysis/decompiler.cpp:3914-3941 | The same for the remainder. |
| `MagicLimits.NarrowingCastPeeled` | engine/analysis/decompiler.cpp:3707-3711 | Counterexample to the promise that recognition never changes behaviour: a 64-bit product of `(int) x` is folded to a division of all of x; with x = 2^32 the value changes from 0 to 1431655765. |
| `MagicLimits.NarrowedExactly` | engine/analysis/decompiler.cpp:3707-3711 | A recognised 64-bit quotient with a narrowing cast of x put for its dividend is the quotient of the narrowed x, and the fold that peels the cast the quotient of all of x; for every divisor of either sign up to half the narrow range, which four bytes give for all searched divisors, the two agree if and only if the cast leaves x as it is. |
| `MagicLimits.NarrowedThird` | engine/analysis/decompiler.cpp:3707-3711 | For division by three the recogniser does find the expression with the cast, and it agrees with its fold if and only if the cast leaves x as it is. |
| `MagicLimits.DividendAssignedSince` | engine/analysis/decompiler.cpp:3686-3706 | Counterexample: a temp with one pure definition is looked through although its operand has been assigned since; the folded quotient then uses the new value.  Of the condition on the text only the clause about operands fails. |
| `MagicLimits.ZeroExtendedMultiplier` | engine/analysis/decompiler.cpp:3770-3772 | A multiplier with a zero high word is accepted for a signed 32-bit product, but its high product is that of the magic word if and only if the top bit of the word is clear or the dividend is 0. |
| `MagicLimits.ZeroExtendedExactly` | engine/analysis/decompiler.cpp:3770-3772 | For the triple of any searched divisor the machine sequence with that multiplier gives the folded quotient on all 32-bit dividends if and only if the top bit is clear; else the divisor's own magnitude comes out wrong. |
| `Dataflow.LeastIsFixpoint` | engine/analysis/decompiler.cpp:2476-2520 | n rounds of a union dataflow over n blocks reach the least solution, which satisfies the equations. |
| `Dataflow.SweptIsLeast` | engine/analysis/decompiler.cpp:2476-2520 | Sweeping in place, in any order, has reached the least solution after at most n sweeps. |
| `Liveness.SolveLiveness` | engine/analysis/decompiler.cpp:2476-2520 | The backward sweeps in place end at the least solution of the liveness equations, if there is no round limit or it exceeds the number of blocks. |
| `Liveness.LivenessAfterEach` | engine/analysis/decompiler.cpp:2526-2550 | The set computed after each statement is the liveness there. |
| `DeadStores.KeptAgrees` | engine/analysis/decompiler.cpp:2551-2568 | A block and what the drop scan keeps of it do the same to the world, and leave the same values in all live variables. |
| `DeadStores.ScannedSameRuns` | engine/analysis/decompiler.cpp:2522-2568 | One round keeps every run from every start, that is blocks visited, memory, call trace and returned value, if the drop scan keeps the same statements when the tail calls' reads are added to its seed. |
| `DeadStores.Pass.ScanBlock` | engine/analysis/decompiler.cpp:2524-2568 | The scan of one block leaves exactly the statements not dropped, and reports a change exactly when it dropped one. |
| `DeadStores.Pass.Round` | engine/analysis/decompiler.cpp:2470-2570 | One round drops, in every block, exactly the call-free assignments to tracked, never address-taken variables not live after them, by the liveness the round started with, and reports a change exactly when the function changed. |
| `DeadStores.Pass.GlobalDeadStoreElim` | engine/analysis/decompiler.cpp:2449-2571 | All rounds together keep every run of every function in which no block assigns, in a way the scan may drop, a variable that only its own tail call reads, if the dataflow ended by itself in each round, as it does below 1024 blocks.  When the pass ends for want of change, no droppable store is left; otherwise it has dropped a statement in each of its sixteen rounds, or in each for which there was time. |
| `LivePaths.LiveIffRead` | engine/analysis/decompiler.cpp:2476-2520 | A variable is live at the entry of a block, in the solution the pass computes, if and only if some path of blocks from there reads it before assigning it. |
| `LivePaths.DroppableExactly` | engine/analysis/decompiler.cpp:2551-2568 | The scan drops exactly the call-free assignments to tracked, never address-taken variables that no path reads before they are assigned again. |
| `LivePaths.LeftIsNeeded` | engine/analysis/decompiler.cpp:2449-2571 | So when the pass has ended for want of change, every such assignment still there is read on some path. |
| `DeadStores.TailCallArgumentLost` | engine/analysis/decompiler.cpp:2529-2534 | Counterexample for the condition on tail calls: the drop scan does not look at them, so `x = 1; return f(x)` as a tail call loses the assignment and calls f with another argument. |
| `DeadStoresExact.ScannedExactly` | engine/analysis/decompiler.cpp:2522-2568 | Where tail calls hand over as they are the variables that their block assigns, with last values that can be told from earlier ones (constants, loads, operators), one round keeps the runs on all machines if and only if the scan drops nothing that it would keep on seeing the tail calls. |
| `DeadStoresExact.ConstantShows` | engine/analysis/decompiler.cpp:2529-2534 | The tail call of that counterexample is one of these. |
| `DeadStoresExact.SelfCopyLost` | engine/analysis/decompiler.cpp:2529-2534 | For other tail calls the condition can be too coarse: `x = x; return f(x)` loses the assignment, and every machine shows the same. |
| `LocalDeadStores.DroppingIsExact` | engine/analysis/decompiler.cpp:2242-2275 | The statements kept within a block leave exactly the same state, every variable included, on every machine if and only if no dropped assignment is to a variable in memory. |
| `LocalDeadStores.DroppedExactly` | engine/analysis/decompiler.cpp:2242-2275 | A statement is dropped exactly when it is a call-free assignment and a later statement of the block assigns its variable with no read of it in between. |
| `LocalDeadStores.QuietIsKept` | engine/analysis/decompiler.cpp:2242-2275 | On machines that store variables as memory does (the last store counts, variables are apart) they do so too if no load, call or store through a pointer is kept between a dropped assignment to memory and the next one. |
| `LocalDeadStores.HarmlessAllTheSame` | engine/analysis/decompiler.cpp:2242-2275 | An input on which that condition is too coarse: it is broken by a load that is never made, and the drop changes nothing. |
| `LocalDeadStores.StoredTwice` | engine/analysis/decompiler.cpp:2242-2275 | An input for which it is needed: `v1 = 1; v1 = 2` with v1 in memory loses the first store, quietly, and keeps its runs. |
| `LocalDeadStores.Pass.LocalDeadStoreElim` | engine/analysis/decompiler.cpp:2242-2275 | The pass over all blocks: every run is the very run it was, under either condition. |
| `LocalDeadStores.LoadBetweenStores` | engine/analysis/decompiler.cpp:2267-2268 | Counterexample: the scan does not ask whether the address is taken, so a store read through a pointer before the next store is dropped; memory there is as above, and the drop is not quiet. |
| `Coalesce.Candidates` | engine/analysis/decompiler.cpp:2347-2359 | Exactly the bare copies between scalar locals of one declared type, none address-taken, in order. |
| `Coalesce.EdgesOfBlock` | engine/analysis/decompiler.cpp:2392-2402 | The interference edges of a block: each definition against everything live after it, but for the source of a copy. |
| `Coalesce.Interference` | engine/analysis/decompiler.cpp:2390-2403 | The graph holds every edge of every block and nothing else. |
| `Coalesce.Classes.Find` | engine/analysis/decompiler.cpp:2406-2409 | Path compression returns the representative and changes no class. |
| `Coalesce.Classes.Merge` | engine/analysis/decompiler.cpp:2411-2419 | Two classes are joined unless an edge joins them; no class ever holds two interfering names; and afterwards the copy is within one class or an edge keeps its classes apart. |
| `Coalesce.BuildClasses` | engine/analysis/decompiler.cpp:2404-2427 | The final classes are free of interference, each of one declared type and named by its best member, and no candidate copy was left out without an edge that forbids it. |
| `Coalesce.RenameKeepsRuns` | engine/analysis/decompiler.cpp:2435-2447 | After renaming by interference-free classes and dropping self-copies every run shows what it showed, and at every block it enters each live variable is found under its class name. |
| `Coalesce.Pass.CoalesceLocals` | engine/analysis/decompiler.cpp:2340-2447 | The whole pass.  Without admitted copies nothing changes.  Else exactly the names in the bare copies that the four conditions admit get new names; for every such copy both are in one class, or an edge of the interference graph, which holds exactly the required edges, joins the two classes; no class has an edge within it or hangs together other than by copies; each gets its best member's name; no self-copy is left.  The function is the renamed one, and every run keeps its blocks, memory, calls and returned value, from starts that carry each live candidate under its class name, and carries them so at every block. |
| `Coalesce.CopyIsMerged` | engine/analysis/decompiler.cpp:2411-2427 | For locals numbered without leading zeros: both names of an admitted copy get one name, unless an edge joins two names called as the one and as the other; and no name of a class is better than the one given. |
| `Coalesce.UniformStart` | engine/analysis/decompiler.cpp:2390-2402 | A start in which all candidates hold one value needs no translation. |
| `CoalesceLimits.StartCarriesOver` | engine/analysis/decompiler.cpp:2390-2402 | A start can be carried over to the coalesced function if and only if the class members live at it agree. |
| `CoalesceLimits.EntryValuesMerged` | engine/analysis/decompiler.cpp:2390-2402 | Counterexample: two candidates both live at entry have no edge, are merged, and with different values no start of the coalesced block makes the same call. |
| `InlineCounts.Snapshot` | engine/analysis/decompiler.cpp:3110-3123 | The one-pass tallies equal the whole-function read and write counts of every variable. |
| `InlineCounts.CountsAfterMove` | engine/analysis/decompiler.cpp:3102-3123 | After a definition has moved to its reader, it is gone, all other write counts are unchanged, and another variable's read count is the snapshot's if and only if re-folding the reader lost none of its reads; it never exceeds it. |
| `InlineCounts.SnapshotOutdated` | engine/analysis/decompiler.cpp:3106-3109 | Counterexample to "this snapshot stays exact": inlining into `t * 0`, which folding reduces to 0, removes a read the snapshot still counts. |
| `Moving.SubstEval` | engine/analysis/decompiler.cpp:3423-3435 | Putting a call-free value in place of the variable keeps the value and the effects of an expression, if the value does not depend on memory or nothing before the reference makes an impure call. |
| `Moving.StepKeepsValue` | engine/analysis/decompiler.cpp:3189-3201 | A statement that the scan lets pass and that may be crossed leaves the moved value as it is: only a value that loads or reads an address-taken variable forbids stores to memory and to such variables. |
| `Moving.BlockMoved` | engine/analysis/decompiler.cpp:3202-3210 | A block before and after a safe move exits alike and leaves the same store but for the moved variable. |
| `Moving.InliningKeepsRuns` | engine/analysis/decompiler.cpp:3226-3254 | Moving a single-write, single-read definition past the hazard scan to its reader, statement or exit, keeps every run, for any value-preserving fold, under a condition on the statements strictly between and on the reader alone: loads, reads of address-taken variables and call results included. |
| `MoveExact.ReturnedMoveExactly` | engine/analysis/decompiler.cpp:3202-3254 | For a load, a value with a load or an address-taken variable under operators, or a call result that moves into a returned expression, the condition is exact: all machines keep the runs if and only if it holds.  The expression may have any size and make calls of its own; it reads the variable outside of `&&`, `||` and `?:`, and what it evaluates before makes its calls for certain; before a call result it makes none, and what depends on memory there shows. |
| `MoveExact.GuardedCallIsLost` | engine/analysis/decompiler.cpp:3179-3186 | Under `&&`, `||` or `?:` guarded by a variable that the block leaves alone, the move of a call result is never safe, and on some machine from some start the runs differ. |
| `MoveExact.LoadStaysBehindCall` | engine/analysis/decompiler.cpp:3239-3243 | `t = *0; return f() + t` is a move decided by the exact condition, and does not keep the runs. |
| `MoveExact.BranchTakesLoad` | engine/analysis/decompiler.cpp:3226-3254 | `t = *p; return c ? f() : t` is a safe move: only one branch is evaluated. |
| `MoveExact.CallMovesToReturn` | engine/analysis/decompiler.cpp:3179-3186 | `t = f(); return t` is a safe move. |
| `MoveExact.LoadMovesBeforeCall` | engine/analysis/decompiler.cpp:3239-3243 | `t = *0; x = t; f(x)` is a safe move: calls after the reader do not matter. |
| `Recording.ToldDiffers` | engine/analysis/decompiler.cpp:3226-3254 | On the machine that counts stores and calls, an expression that shows a load, a call or a variable in memory gives different values at different counts, whatever the variables hold. |
| `MoveExact.HarmlessAnyway` | engine/analysis/decompiler.cpp:3226-3254 | An input on which the condition is too coarse for a reader that is a statement: it fails, and every machine shows the same, the value being overwritten unread. |
| `CopyProp.Pass.FindReader` | engine/analysis/decompiler.cpp:3153-3158 | The first later statement that reads the variable, or none. |
| `CopyProp.Pass.FindHazard` | engine/analysis/decompiler.cpp:3226-3238 | A hazard is reported exactly when some statement between may not be crossed. |
| `CopyProp.Pass.FindSite` | engine/analysis/decompiler.cpp:3153-3225 | A place to move to is found exactly when there is one. |
| `MovesLeft.HeldBeforeExactly` | engine/analysis/decompiler.cpp:3153-3225 | There is no place for a definition in a statement if and only if that is not the first reader, or calls in the value and in the reader forbid it, or a statement between may change what the value depends on or be changed by what it does. |
| `CallOrder.OrderKept` | engine/analysis/decompiler.cpp:3179-3225 | A call result, without conditions, that may be moved into a reader without conditions leaves the callees of the block's trace in their order, on every machine, from every start, for every value-preserving fold, if the variable is not inside the arguments of an intrinsic. |
| `CallOrder.OrderKeptExactly` | engine/analysis/decompiler.cpp:3179-3225 | In general the order is kept if and only if the reader has made no call when it comes to the variable, or every callee of the moved value is the one it has called; it has made one at most. |
| `CallOrder.SiblingLosesOrder` | engine/analysis/decompiler.cpp:1082-1095 | Counterexample: the rule takes the arguments of an intrinsic for a place inside the reader's one call, so in `t = f(); v = g() + h(t)` with an intrinsic h the call of f moves behind that of g. |
| `CopyProp.Pass.PropagateBlock` | engine/analysis/decompiler.cpp:3124-3256 | At most one definition of a block is moved, the first that can be; if none is moved, none could be. |
| `CopyProp.Pass.CopyPropagate` | engine/analysis/decompiler.cpp:3091-3258 | The whole pass reports the moves it has made, each of a variable that is written once and read once and is no parameter, array or address-taken variable, and keeps every run if each was safe where it was made; each is safe in a function in which every movable definition has a value without impure calls and address-taken variables and, if it loads, stands in a block without such calls and assignments.  Moves of call results keep the order of callees as in `CallOrder.OrderKept`.  If the pass finishes, nothing that could be moved is left, and every variable used once that is still there is held by a reason in the text; it finishes unless it has made a move in each of eight rounds, or in each for which there was time. |
| `MovesLeft.StaysForAReason` | engine/analysis/decompiler.cpp:3124-3256 | A definition that cannot be moved is not read later in its block, or a statement between it and its first reader obstructs, or its value calls and the reader calls too. |
| `CopyPropLimits.LoadMovedPastCall` | engine/analysis/decompiler.cpp:3239-3243 | Counterexample: a load is moved into a reader whose own call may change the cell; the move is not safe by the condition. |
| `CopyPropLimits.AliasMovedPastStore` | engine/analysis/decompiler.cpp:3187-3194 | Counterexample: the scan does not see that a store through a pointer reaches an address-taken variable the value reads; the move is not safe by the condition. |
| `CopyPropLimits.CallMovedUnderCondition` | engine/analysis/decompiler.cpp:3179-3186 | Counterexample: a call result is moved under the right operand of `&&` and the call is no longer made; the move is not safe by the condition. |
| `ReachReads.ReachingReads` | engine/analysis/decompiler.cpp:3333-3366 | For every block exactly the variables read in some block reachable over one or more edges, after at most n + 1 sweeps, so the limit of block count + 4 never stops the iteration. |
| `DefAssign.FlaggedIffPath` | engine/analysis/decompiler.cpp:6145-6172 | The dataflow flags a variable if and only if some path from an entry reads it before anything on the path has assigned it. |
| `DefAssign.InitialValuesDoNotMatter` | engine/analysis/decompiler.cpp:6115-6121 | Two runs from the entry that agree on the variables given an initializer show the same for ever, if no tail call reads, on any path, a variable that is unassigned there and has no initializer. |
| `DefAssign.TailReadsInitializedExactly` | engine/analysis/decompiler.cpp:6138-6172 | That condition holds on all paths if and only if the dataflow says so: in each block, every variable the tail call reads is initialized, assigned in the block, or assigned on every way in. |
| `DefAssign.MaybeUninit` | engine/analysis/decompiler.cpp:6122-6173 | The pass returns exactly the flagged variables but for the excluded names, for fewer than 200000 blocks.  If the deadline strikes after n sweeps, it returns only flagged variables, and all those that some path of at most n blocks reads unassigned; before the first sweep, every variable a block reads before assigning it. |
| `DefAssign.TailCallReadMissed` | engine/analysis/decompiler.cpp:6138-6142 | Counterexample for tail calls: a variable read only there, unassigned on a path, gets no initializer and its initial value is seen. |
| `EmitGoto.EmitGotoCfg` | engine/analysis/decompiler.cpp:1969-2011 | The emitter appends exactly the lines of the blocks in address order, gotos to the next block elided. |
| `EmitGoto.NoIdleJump` | engine/analysis/decompiler.cpp:1994-2007 | No goto is emitted to the label on the next line, but for the default of a switch. |
| `EmitGoto.BlockRuns` | engine/analysis/decompiler.cpp:1978-2009 | Executing the lines from a block's label leads to the label of the block the graph goes to, with the graph's state, whatever was elided. |
| `EmitGoto.GotoTextIsTheGraph` | engine/analysis/decompiler.cpp:1969-2011 | After any number of blocks that do not leave the graph stuck, the text stands at the label of the same block with the same variables, memory and calls, or has returned the same value. |
| `EmitGoto.GotoTextReturns` | engine/analysis/decompiler.cpp:1969-2011 | What the graph returns the text returns; what the text returns after j lines the graph has returned within j blocks, unless it is stuck by then; with a default on every switch the one if and only if the other. |
| `EmitGoto.DefaultedNeverSticks` | engine/analysis/decompiler.cpp:1982-1993 | A graph whose switches have defaults and whose targets exist is never stuck. |
| `EmitGoto.LostSwitchFallsThrough` | engine/analysis/decompiler.cpp:1982-1993 | Counterexample for the side condition: a switch with neither a matching case nor a default runs on into the next block by address. |
| `EmitStates.EmitStateMachine` | engine/analysis/decompiler.cpp:2084-2140 | The emitter produces one case for each unmerged block in address order. |
| `EmitStates.InnerSwitch` | engine/analysis/decompiler.cpp:2104-2117 | The nested switch sets the state and breaks out of itself only. |
| `EmitStates.TurnIsStep` | engine/analysis/decompiler.cpp:2090-2138 | One turn of the loop is one block of the graph. |
| `EmitStates.StateMachineIsTheGraph` | engine/analysis/decompiler.cpp:2084-2140 | n turns of the loop are n blocks of the graph, exactly, for as long as the graph is not stuck. |
| `EmitStates.BothFormsAgree` | engine/analysis/decompiler.cpp:2084-2140 | For as long as the graph is not stuck, what the goto text or the state machine returns the other returns, with the same memory and calls; with a default on every switch each returns a value if and only if the other does. |
| `EmitStates.BothFormsAtTheSameBlock` | engine/analysis/decompiler.cpp:2084-2140 | Whenever the state machine is at a block after n turns, the graph not being stuck, the goto text is at that block's label after some number of lines, with the same state. |
| `EmitStates.LostSwitchRepeats` | engine/analysis/decompiler.cpp:2104-2117 | Counterexample: on a switch without a target the state machine executes the same block again, where the goto text goes on to another one. |
| `Labels.ScanLabels` | engine/analysis/decompiler.cpp:1701-1732 | The block labels the body defines and the labels its gotos name, those on lines with a case label, a brace or a condition included. |
| `Labels.HasDuplicate` | engine/analysis/decompiler.cpp:1742-1759 | True exactly when some block label is defined twice. |
| `Labels.StripIsSafe` | engine/analysis/decompiler.cpp:1899-1947 | Stripping drops only lines no run reaches, and a remaining line is reachable exactly if it was before, for bodies whose labels are block labels. |
| `Labels.NothingDeadIsLeft` | engine/analysis/decompiler.cpp:1899-1947 | And all that it can see to be dead goes: in the stripped body the line after a transfer, blank lines apart, is a brace, a case label, or a block label that is named or entered from outside. |
| `Labels.OtherLabelsAreNotSafe` | engine/analysis/decompiler.cpp:1905-1918 | What that condition is for: a line after a label of another form, which the emitter does not produce, would be dropped although a goto leads there. |
| `Labels.DedupeKeepsReach` | engine/analysis/decompiler.cpp:1774-1799 | Deduplication leaves every remaining line exactly as reachable as it was. |
| `Labels.DedupeKeepsLabels` | engine/analysis/decompiler.cpp:1774-1799 | Defined and named labels stay the same, no label is defined twice, and every label still leads to its first definition. |
| `Labels.DedupedIsConsistent` | engine/analysis/decompiler.cpp:5827-5840 | After deduplication the body is consistent if and only if no goto dangled before. |
| `Labels.PruneKeepsReach` | engine/analysis/decompiler.cpp:1846-1872 | Pruning dead labels leaves every remaining line exactly as reachable as it was. |
| `Labels.OnlyLabelsGo` | engine/analysis/decompiler.cpp:1774-1872 | Deduplication and pruning leave all other lines as they are, in order. |
| `Labels.PruneKeepsLabels` | engine/analysis/decompiler.cpp:1846-1872 | Of the labels that are named or entered from outside, pruning leaves defined and doubly defined exactly those that were; no other block label stays. |
| `Labels.PrunedIsConsistent` | engine/analysis/decompiler.cpp:1846-1872 | A pruned body is consistent if and only if no goto dangles and no label in use is defined twice; so pruning keeps consistency. |
| `Labels.StripUnreachable` | engine/analysis/decompiler.cpp:1899-1947 | The line filter with its dead flag and brace handling drops exactly the dead runs. |
| `Labels.DedupeLabelDefs` | engine/analysis/decompiler.cpp:1774-1799 | A body in which no block label is defined twice is returned as it is, also if a label of another form is; else the filter drops exactly the later definitions. |
| `Labels.LabelsConsistent` | engine/analysis/decompiler.cpp:1801-1808 | True exactly when every named label is defined and no block label is defined twice. |
| `Labels.PruneDeadLabels` | engine/analysis/decompiler.cpp:1846-1872 | The filter drops exactly the block label lines that no goto names and that are not entered from outside. |
| `ExprPool.Pool.Alloc` | engine/analysis/decompiler.cpp:436-455 | A request up to 512 bytes gets a block of its bucket that overlaps no live or free block and lies inside one chunk; a block is carved only when more of its bucket are live than ever before; larger requests go to the general allocator. |
| `ExprPool.Pool.Release` | engine/analysis/decompiler.cpp:456-462 | A released block becomes the first of its bucket's free list, and nothing else changes. |
| `ExprPool.Pool.Write` | engine/analysis/decompiler.cpp:436-446 | An owner may overwrite its whole block, link word included, without disturbing the pool. |
| `ExprPool.BlocksAreApart` | engine/analysis/decompiler.cpp:426-463 | Under the invariant of the class, which its constructor establishes and `Alloc`, `Release` and `Write` keep, live blocks and free blocks are pairwise disjoint and lie inside their chunk; so they are after every sequence of operations. |
| `ExprPool.MemoryIsBounded` | engine/analysis/decompiler.cpp:418-422 | The blocks ever carved for a bucket number exactly its peak of simultaneously live blocks, and the chunks are bounded by these peaks and the waste at their ends. |
| `Json.JParser.Value` | engine/analysis/annotations.cpp:190-195 | The recursive-descent parser accepts exactly what its grammar function accepts, leaves what follows, and refuses nesting deeper than 32. |
| `Json.JParser.ReadString` | engine/analysis/annotations.cpp:157-188 | The string reader is the grammar's, escapes included. |
| `JsonGrammar.ReadExactly` | engine/analysis/annotations.cpp:157-247 | A text is read as a value, leaving a rest, if and only if what stands before the rest is the text of a tree of that value by the grammar (white space before tokens, strings in any spelling of their characters, numbers as the library reads them), nested no deeper than 32. |
| `JsonText.JStr` | engine/analysis/annotations.cpp:252-268 | The printer writes the quoted form of the bytes up to the first NUL. |
| `JsonText.ReadQuoted` | engine/analysis/annotations.cpp:157-188 | Reading a quoted string gives back every byte string, and stops at its end (escapes of section 7 of RFC 8259). |
| `JsonText.HexRoundTrip` | engine/analysis/annotations.cpp:270-274 | What is printed in hexadecimal is read back, for every 64-bit value. |
| `JsonText.ReadsBack` | engine/analysis/annotations.cpp:190-247 | The printed text of any document of the printer's layout is parsed to the value it stands for, whatever follows that may follow a value, with a number reader that reads plain decimals. |
| `AnnoResolve.BindsToItsOwn` | engine/analysis/annotations.cpp:304-351 | A binding is to an existing function and never joins two known different hashes. |
| `AnnoResolve.BindsExactly` | engine/analysis/annotations.cpp:304-351 | An identity with a hash that exactly one function has is bound to that function; any other is bound to its own address if a function is there whose hash agrees or is unknown on either side, and else not at all. |
| `AnnoResolve.UnboundExactly` | engine/analysis/annotations.cpp:304-351 | An identity stays unbound exactly when no unique hash decides and no compatible function is at its address. |
| `AnnoResolve.FirstWins` | engine/analysis/annotations.cpp:304-351 | The first annotation in file order that binds to a function owns it; all later ones get nothing. |
| `AnnoResolve.NoTwoShare` | engine/analysis/annotations.cpp:304-351 | No two annotations are bound to one function. |
| `AnnoResolve.HashBindingMoves` | engine/analysis/annotations.cpp:304-351 | When all functions are relocated with their hashes, every hash-keyed binding is relocated with its function. |
| `AnnoResolve.OwnerMoves` | engine/analysis/annotations.cpp:304-351 | The owner stays the owner after relocation if and only if no earlier annotation that goes by its address lands on the new place. |
| `AnnoResolve.AddressCanTakeOver` | engine/analysis/annotations.cpp:304-351 | Counterexample: an annotation without a hash, recorded at the new address, takes a relocated function from its hash-keyed owner. |
| `AnnoResolve.Resolve` | engine/analysis/annotations.cpp:304-351 | The loop over the annotations computes exactly these bindings. |
| `AnnoResolve.ResolveVars` | engine/analysis/annotations.cpp:304-351 | Variable records are bound each on its own. |
| `AnnoStore.Engine.Upsert` | engine/analysis/annotations.cpp:278-288 | The annotation for an address, made at the end if there is none. |
| `AnnoStore.Engine.Save` | engine/analysis/annotations.cpp:523-584 | The bytes written are the text of the document of the store: one entry per identity, annotations first, then variables, in order. |
| `AnnoStore.Engine.Load` | engine/analysis/annotations.cpp:456-521 | Loading any text, well formed or not: the result is 0 if and only if the text reads as an object whose first `version` is absent or reads as 1, whose `functions` is absent or an array, and whose entries are objects with arrays of objects for variables; any other text gives 2, and leaves the store alone unless the refusal is within an entry.  What is stored is what the specification makes of the text. |
| `AnnoRefusals.TextLoadedExactly` | engine/analysis/annotations.cpp:456-521 | The same of the specification, said of the parsed value; and what is loaded does not depend on what was there before. |
| `AnnoRoundTrip.SaveThenLoad` | engine/analysis/annotations.cpp:456-584 | Loading what was saved, over any store: annotations with a name or comment come back in order with hash, address, name and comment; variable records come back grouped stably by identity; bindings are derived afresh. |
| `AnnoRoundTrip.NoVariableIsLost` | engine/analysis/annotations.cpp:523-584 | Every variable record that says something comes back exactly once. |
| `AnnoRoundTrip.LoadedTextIsValid` | engine/analysis/annotations.cpp:456-521 | Loading any text over a store that can be saved leaves a store that can be saved, whether the text is refused or not. |
| `AnnoRoundTrip.SaveLoadSave` | engine/analysis/annotations.cpp:456-584 | Saving what was loaded from a saved file writes the same text, but for empty variable records and the entries that said nothing else; without such records it is the same to the letter. |
| `Bits.PopulationCount` | engine/analysis/decompiler.cpp:1527-1527 | The shift-and-add loop counts the set bits. |
| `Bits.Scatter` | engine/analysis/decompiler.cpp:1533-1533 | The deposit loop computes the scattered word and turns exactly popcnt(m) times. |
| `Bits.Gather` | engine/analysis/decompiler.cpp:1534-1534 | The extract loop computes the gathered word and turns exactly popcnt(m) times. |
| `Bits.PextOfPdep` | engine/analysis/decompiler.cpp:1528-1534 | pext(pdep(v, m), m) is v restricted to its low popcnt(m) bits, for all 64-bit values. |
| `Bits.PdepOfPext` | engine/analysis/decompiler.cpp:1528-1534 | pdep(pext(v, m), m) is v & m, for all 64-bit values. |
| `Bits.ScatteredByRank` | engine/analysis/decompiler.cpp:1533-1533 | At a set bit of the mask pdep has the bit of v whose number is the count of mask bits below it. |
| `Bits.GatheredByRank` | engine/analysis/decompiler.cpp:1534-1534 | At that number pext has the bit of v at that bit of the mask. |
| `RangeCheck.OneComparison` | engine/analysis/decompiler.cpp:4018-4024 | One unsigned comparison of the wrapped difference decides whether the low bytes of a value lie in the range, for every value. |
| `RangeCheck.EveryRangeIsFound` | engine/analysis/decompiler.cpp:4032-4073 | The single comparison for every range within the limits, in each of the four polarities, is matched as exactly that range. |
| `RangeCheck.EveryRangeIsRewritten` | engine/analysis/decompiler.cpp:4074-4079 | And wherever it stands in an expression it is rewritten to the two comparisons of its rewritten operand. |
| `RangeCheck.SettledExactly` | engine/analysis/decompiler.cpp:4018-4024 | It decides it for the whole value in every range if and only if the value and its low bytes are both positive signed words of the width, or neither is. |
| `RangeCheck.HeldIsExact` | engine/analysis/decompiler.cpp:4018-4024 | That is so of every value the width can hold, signed or unsigned, however it is rendered. |
| `RangeCheck.MatchIsExact` | engine/analysis/decompiler.cpp:4032-4073 | The rewritten pair of comparisons has the value of the original comparison, in all four polarities, if and only if the compared value is in the range just when its low bytes are. |
| `RangeCheck.RewriteKeepsValue` | engine/analysis/decompiler.cpp:4074-4079 | Rewriting a whole expression bottom-up keeps its value and all its effects if that is so at every node rewritten. |
| `RangeCheck.WiderValuesDiffer` | engine/analysis/decompiler.cpp:4050-4060 | Counterexample: `(x - 10) <= 5` on four bytes is matched with an eight-byte x, and at x = 2^32 + 12 the comparison holds and its rewritten form does not. |
| `FuncExtent.InsnIndexExact` | engine/analysis/cfg.cpp:28-37 | Binary search finds an instruction start exactly when there is one. |
| `FuncExtent.Walk` | engine/analysis/cfg.cpp:298-360 | The walk ends at the first reason to end and no further: the next start, the segment end, or a terminator past every internal target seen so far; size, call count and leader count are those of the body. |
| `FuncExtent.OneExtent` | engine/analysis/cfg.cpp:335-354 | There is one such end. |
| `FuncExtent.StoppedIsClosed` | engine/analysis/cfg.cpp:322-356 | Every direct branch target of a body instruction that is an instruction start before the next function and inside the segment lies inside the body. |
| `FuncExtent.CfgBuilder.Build` | engine/analysis/cfg.cpp:286-372 | One function for each start that is an instruction, in ascending order, none reaching into another, each closed under its direct branches; each is the walk from its start to the first reason to end, within the bounds that the next start and its segment give, and its block count is the number of its leaders. |
| `FuncExtent.CfgBuilder.Dedupe` | engine/analysis/cfg.cpp:374-386 | The in-place compaction keeps the first of every run of equal addresses. |
| `FuncExtent.AlreadyDistinct` | engine/analysis/cfg.cpp:374-386 | After the build it has nothing to drop. |

## Left out

- Lifting, type inference, the structurer, loop detection and rendering; they are pattern-driven and have no specification to prove against.
- `fold` is a parameter of copy propagation.  The theorem asks it to keep values and to add no reads, calls, loads or addresses; the real `fold` is not shown to do so, and drops reads and calls in `x * 0`.
- `budget_ok`, the deadline, may stop any refinement loop.  Where stopping early is harmless the loops may stop at any round, or the number of rounds there is time for is an input (`budget`); where it is not (`DefAssign.MaybeUninit`) the result says that time ran out and how far it is right.
- Environment switches that turn passes off are taken as not set.
- Operands are evaluated from left to right, C leaves the order open; intrinsics that only compute depend on their arguments alone.
- Floating-point nodes: magic recognition and range checks are modelled on integers.
- DeadStores.Pass.GlobalDeadStoreElim: with 1024 blocks or more the inner round limit may stop the dataflow before its fixpoint; nothing is claimed of such a round.
- CopyProp.Pass.CopyPropagate: the condition on each move speaks of the program in which the move is made; the one that can be checked before the pass (`AllPortable`) leaves out functions with a movable call result, or with a movable load in a block that calls or assigns an address-taken variable.
- MoveExact.ReturnedMoveExactly: the converse is for returned expressions; for readers that are statements, other exits and operands under `&&`, `||` and `?:` other than those of `GuardedCallIsLost` the condition is proved sufficient only.
- DeadStoresExact.ScannedExactly: the converse is for one round; for tail calls that pass the lost variable inside a larger argument, or whose lost value is a copy, the condition is proved sufficient only.
- LocalDeadStores.QuietIsKept: one way; `HarmlessAllTheSame` is an input beyond it.
- MagicLimits.NarrowedExactly: that the recogniser finds the fold on the expression with the cast is shown for the third only; in general a cast more may reach the limit on casts peeled.
- MagicText.CurrentFromText: all temps that occur in the expression or in a definition it is looked through are asked about, also those the matcher does not look through, and their definitions must stand in the block; a temp defined in a block that dominates it, which the code looks through, is not covered.
- MagicDivision.FoldKeepsQuotient: the dividend is taken to evaluate without effects; that nodes and casts keep the words they handle is a condition on the text that the matcher does not check; the recursion of the rewrite over a whole tree, and the sweep that removes multiply-high temps afterwards, are not modelled.
- MagicMatch.PeelWidening: the peeling of widening casts has no bound in the code and would not stop on a temp defined as a cast of itself; the model stops after a number of casts that the theorems leave open.
- MagicFold.SignedShapeGives: the matcher compares subtrees without their widths and signedness; the theorems ask that compared subtrees do not differ in these alone, and take their being otherwise the same from the match.
- MagicRoundTrip.SignedDivisionIsFound: the dividend is of at most the width, call-free but for intrinsics, and no constant, cast or temp; other dividends are covered by the soundness results only.
- CallOrder.OrderKept: for values and readers without `&&`, `||` and `?:`.
- Coalesce.CopyIsMerged: for locals numbered without leading zeros, as the lifter numbers them; else two classes might get one name, and the pass promises classes and names only as in its own contract.
- The `used_return` bookkeeping, type and width tables that coalescing reconciles, and the reader that `fold_dead_block_temps` builds on its reachability sets.
- EmitGoto.EmitGotoCfg: lines are typed rather than characters; labels are the block addresses, and statements and conditions are not rendered to text.
- Labels.StripIsSafe: lines are classified (label, case, brace, goto, exit, other) rather than tokenised, where control goes from a line with a brace or a case is a parameter, and a transfer on a line of its own is taken to be unconditional, which bodies with unbraced `if` lines would not meet.
- ExprPool.Pool.Alloc: addresses are a chunk and an offset; the general allocator hands out fresh names; per-thread pools are one pool.
- Json.JParser.Value: `strtod` is a parameter; the round trip asks it to read back plain decimals.
- AnnoStore.Engine.Load: file reading and writing are byte strings; the setters of single annotations and the mutex around variable records are outside, and running out of memory is not modelled.
- FuncExtent.CfgBuilder.Build: the collection of starts, the jump-table resolver and the segment lookup are parameters; an address limit of 2^64 - 1 stands for none.
- Win32 tables, name heuristics, demanglers, RTTI, signature recovery, scripts and the user interface.
