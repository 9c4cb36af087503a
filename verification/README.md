# Verification of the Nitrate compiler's hard cores

Five parts of the compiler hold properties that no reading of a single function gives. This project models them in
Dafny and proves those properties for all inputs, all runs and all interleavings.

* **Compile-time evaluator** (`hir_evaluate`). `Hir.dfy` has expressions as finite trees and functions as a finite
  table, `Literals.dfy` and `FixedWidth.dfy` the machine integers, `Evaluation.dfy` the evaluator as a function from
  states to states and results, and `Evaluator.dfy` the interpreter with its mutable frame stack and counters, proved
  equal to it. On top stand normal forms (`NormalForms.dfy`), the loop budget and its limit (`LoopBudget.dfy`,
  `LoopLimit.dfy`), what integer normalisation does to the operators (`NormalizedOperators.dfy`), what operators and
  casts compute (`OperatorLaws.dfy`), equations of the language (`EvaluationLaws.dfy`), and a logical relation
  that shows results do not depend on which integer types the solver has already filled in (`Retyping.dfy`,
  `RetypedEvaluation.dfy`, `SolveOrder.dfy`). Frames and results hold normal forms by type. `HeapModel.dfy` is the abstract heap.
* **Function-body normalisation** (`hir_from_tree`). `ReturnInsertion.dfy` completes bodies with a return;
  `SolveOrder.dfy` shows that completing a whole program changes no evaluation.
* **Symbol mangler** (`hir_mangle`). `Numerals.dfy` and `Base63.dfy` hold the big-number codec with its carry loops,
  `Text.dfy` bytes, UTF-8, decimal and hexadecimal notation, `Segments.dfy` names and paths, `TypeNames.dfy` and
  `TypeFraming.dfy` types, `SymbolNames.dfy` whole names and the pass over the symbol table, and `Demangler.dfy` the
  readers over a mutable cursor, proved equal to the reading functions of the other files. `EncodingForms.dfy` says what
  is printed letter by letter, `UnicodeText.dfy` that the UTF-8 test is the standard's.
* **File-id interner** (`diagnosis`). `FileIds.dfy` interleaves any number of threads at the granularity of single
  lock, map and atomic operations.
* **Random program generator** (`generate`). `GeneratedProgram.dfy` has the emitted syntax with an independent type
  checker; `Generator.dfy` the mutable generator, which draws from an arbitrary stream of 64-bit words.
* **Symbol table** (`hir`). `SymbolTable.dfy` has the placeholder and upsert protocol for forward references.

`Wrappers.dfy` holds the shared option, result and byte types and saturating subtraction. `dafny verify dfyconfig.toml` checks everything.

## What the code does not promise

Where the code and its tests or documentation disagree, the model follows the code.

* The loop counter can pass the loop limit: a while loop checks the limit before its condition and counts after it, so
  a condition that loops or calls can spend the budget in between. `LoopLimit` proves that a run passes the limit if and
  only if it enters some while body with the budget spent, and that this never happens when no while condition can
  itself loop or call; `LoopBudget` proves how far past the limit a run can get, and that every term of that bound is
  reached.
* Because every operand is normalised by its unsigned 128-bit image, a negative operand never combines with a small
  non-negative one, shifts always fail, and the negation of a boolean is an i32 (`NormalizedOperators`). The tests at
  `src/translation/src/hir_evaluate/src/tests.rs:643`, `:871` and `:1296` expect otherwise.
* Labels on break and continue are not consulted, and a break that a function leaves unused ends the loop of its caller
  (`EvaluationLaws.BreakEndsLoop`, `EvaluationLaws.CalleeEndsCallersLoop`).
* Index access is the one place where the type of an integer shows beyond its image (`SolveOrder.IndexAgreesExactly`).
* Empty path segments are not self-delimiting in front of a digit or the end of the text, and the string type prints a
  letter that no reader accepts, although the documentation calls every encoding self-delimiting. When a path, a type
  or a symbol name reads back in front of a text is proved exactly (`Segments.PathRoundTripIff`,
  `TypeFraming.TypeRoundTripIff`, `SymbolNames.NameRoundTripIff`).
* A module name of non-empty segments is accepted with any text left over behind it, and a symbol name of non-empty
  segments with none (`SymbolNames.ModuleIgnoresEveryTail`, `SymbolNames.NameRejectsTail`). A module name in
  which only a trailing empty segment can go wrong, such as `a::`, is rejected alone and accepted in front of exactly the
  texts that are a run of zeros and then something that is not a digit (`SymbolNames.TrailingEmptyModuleIff`,
  `SymbolNames.TailExample`).
* Two symbols whose names differ only by the package prefix clash when their erased types agree
  (`SymbolNames.SymbolsClashIff`). Symbols excluded from mangling clash with one another whenever their last segments
  agree, as `a::x` and `b::x` do, and with a mangled symbol whose mangled name they are called
  (`SymbolNames.UnmangledClashIff`, `SymbolNames.UnmangledMeetsMangledIff`).
* Base 63 forgets leading zero bytes (`Base63.DecodeEncode`), so a compressed segment relies on the compressor not to
  start with one.

## Assumptions

DEFLATE (RFC 1951) is a pair of function parameters. The round trips require of it (`Segments.Lossless`), only for the
texts whose compressed form the mangler keeps (more than 64 identifier characters that get shorter), that inflating
undoes deflating and that the output does not start with a zero byte. Such a byte could only open a stored block that
is not the last one (section 3.2.3), as a compressor may write for long incompressible input. Names are UTF-8 strings
of at most 2^60 bytes, so that every length printed about them fits a 64-bit `usize`.

## Model

| member | source | states |
|---|---|---|
| `Evaluation.Eval` | src/translation/src/hir_evaluate/src/evaluator.rs:119-154 | On every outcome (value, break, continue, return or any error) evaluation puts back call depth, safety context and every frame below the top, never lowers the loop counter, and ends, under the order (loop budget left, call depth left, not yet a normal form, size) |
| `Evaluation.EvalFunction` | src/translation/src/hir_evaluate/src/evaluator.rs:160-231 | A call leaves the whole frame stack as it found it, so a callee never touches a binding of its caller; all errors included (which argument a parameter gets: `EvaluationLaws.CallReadsArgument`) |
| `Evaluation.EvalBlock` | src/translation/src/hir_evaluate/src/evaluator.rs:234-253 | A block restores the safety context on every exit |
| `Evaluation.EvalIteration` | src/translation/src/hir_evaluate/src/value.rs:563-569 | Every pass through a loop body spends loop budget, whatever ends it |
| `Evaluation.EvalList` | src/translation/src/hir_evaluate/src/value.rs:634-654 | Elements are evaluated within the same discipline, one value per element |
| `Evaluator.Evaluator.Evaluate` | src/translation/src/hir_evaluate/src/value.rs:10-96 | The interpreter over mutable fields leaves exactly the state and result of the evaluation function |
| `Evaluator.Evaluator.EvaluateBinary` | src/translation/src/hir_evaluate/src/value.rs:161-287 | Operand order, short circuit and error precedence of binary operators, in place (what the operators compute: `OperatorLaws`) |
| `Evaluator.Evaluator.EvaluateIf` | src/translation/src/hir_evaluate/src/value.rs:536-553 | Branch choice on exactly a boolean condition, in place |
| `Evaluator.Evaluator.EvaluateWhile` | src/translation/src/hir_evaluate/src/value.rs:555-578 | The while loop over the counter field computes the recursive specification: limit checked before the condition, counted after it, break and continue absorbed |
| `Evaluator.Evaluator.EvaluateLoop` | src/translation/src/hir_evaluate/src/value.rs:580-596 | The same for the unconditional loop |
| `Evaluator.Evaluator.EvaluateList` | src/translation/src/hir_evaluate/src/value.rs:602-654 | The vector-building loop of aggregates stops at the first error with the state reached there |
| `Evaluator.Evaluator.EvaluateFieldAccess` | src/translation/src/hir_evaluate/src/value.rs:660-673 | Field search and second evaluation, in place |
| `Evaluator.Evaluator.EvaluateIndexAccess` | src/translation/src/hir_evaluate/src/value.rs:675-703 | Index selection and second evaluation, in place |
| `Evaluator.Evaluator.AssignTo` | src/translation/src/hir_evaluate/src/value.rs:709-725 | Assignment changes the top frame only |
| `Evaluator.Evaluator.EvaluateCall` | src/translation/src/hir_evaluate/src/value.rs:731-746 | Callee, positional and named arguments in order; the callee is checked last |
| `Evaluator.Evaluator.EvaluateBlock` | src/translation/src/hir_evaluate/src/evaluator.rs:234-253 | The block loop with its saved safety context follows the specification on every exit |
| `Evaluator.Evaluator.EvaluateFunction` | src/translation/src/hir_evaluate/src/evaluator.rs:160-231 | Push, bind, run, pop: the frame stack operations follow the specification on every exit (the binding: `EvaluationLaws.ParameterGetsArgument`) |
| `Evaluator.Evaluator.LookUp` | src/translation/src/hir_evaluate/src/evaluator.rs:265-272 | The reverse search through the frames finds the innermost binding |
| `NormalForms.NormalIsFixed` | src/translation/src/hir_evaluate/src/value.rs:602-703 | Evaluating a normal form again returns it and changes nothing |
| `NormalForms.FieldAccessReadsField` | src/translation/src/hir_evaluate/src/value.rs:660-673 | The second evaluation inside a field access is harmless: result and state are those of reading the field |
| `NormalForms.IndexAccessReadsElement` | src/translation/src/hir_evaluate/src/value.rs:675-703 | The same for an element selected by index |
| `LoopBudget.WithinEval` | src/translation/src/hir_evaluate/src/value.rs:555-596 | The loop counter ends at most (nesting of loops through while conditions) above the limit, plus that nesting of the called bodies for every call level |
| `LoopBudget.LimitIsPassed` | src/translation/src/hir_evaluate/src/value.rs:557-564 | The bound is reached without calls: for every n there is a program that ends exactly n above the limit |
| `LoopBudget.CallBoundIsReached` | src/translation/src/hir_evaluate/src/evaluator.rs:160-231 | The whole bound is reached, term by term: with d call levels left, functions that overrun by k and a form that overruns by o, a run ends exactly o plus k times d above the limit |
| `LoopBudget.OverrunningMeasure` | src/translation/src/hir_evaluate/src/value.rs:555-578 | That program nests exactly n loops through while conditions |
| `LoopBudget.WhileOvershoots` | src/translation/src/hir_evaluate/src/value.rs:557-564 | Whenever a condition comes out true after using up the budget that was there when it began, the loop ends beyond the limit, whatever its body does |
| `LoopLimit.LimitPassedIff` | src/translation/src/hir_evaluate/src/value.rs:555-596 | A run of any expression that starts within the limit ends beyond it if and only if some while body in it is entered with the counter already at or above the limit |
| `LoopLimit.CallPassesLimitIff` | src/translation/src/hir_evaluate/src/evaluator.rs:160-231 | The same for a call |
| `LoopLimit.EvalPasses` | src/translation/src/hir_evaluate/src/value.rs:10-96 | The equivalence from any starting counter, kept by every form of expression and every outcome |
| `LoopLimit.WhilePassesIff` | src/translation/src/hir_evaluate/src/value.rs:555-578 | For a while loop over a quiet condition and body: it passes the limit if and only if, along its own passes, the condition comes out true at the limit |
| `LoopLimit.QuietConditionsNeverOverspend` | src/translation/src/hir_evaluate/src/value.rs:555-596 | A check before the run: when no while condition here or in a function can itself loop or call, no body is entered with the budget spent |
| `LoopBudget.QuietConditionsKeepTheLimit` | src/translation/src/hir_evaluate/src/value.rs:555-596 | When no while condition can itself loop or call, the counter never passes the limit |
| `Retyping.SameLit` | src/translation/src/hir_evaluate/src/value.rs:106-155 | Integers with the same 128-bit image become the same literal |
| `Retyping.SameBinary` | src/translation/src/hir_evaluate/src/value.rs:185-286 | Every operator gives the very same result on operands with the same images |
| `Retyping.SameUnary` | src/translation/src/hir_evaluate/src/value.rs:293-302 | The same for unary operators |
| `Retyping.SameCast` | src/translation/src/hir_evaluate/src/value.rs:506-530 | A cast to any integer type only sees the image |
| `RetypedEvaluation.EvalRelated` | src/translation/src/hir_evaluate/src/value.rs:98-155 | Solve-order independence: programs whose integer literals differ only in type, and whose never-evaluated forms (under borrow, dereference, method receivers and assignment places that are no locals) differ in any way, have the same error, or results, return payloads and bindings with equal images, the same counters and the same limits; through operators, casts, loops, calls and assignment |
| `RetypedEvaluation.FunctionRelated` | src/translation/src/hir_evaluate/src/evaluator.rs:160-231 | The same for a call, whose bodies may also differ by an inserted return |
| `SolveOrder.OperatorResultsIdentical` | src/translation/src/hir_evaluate/src/value.rs:98-155 | When the outermost form is an operator or a cast, related programs give the identical literal, type included |
| `SolveOrder.ExactIsEqual` | src/translation/src/hir_evaluate/src/value.rs:10-96 | The strictest relation between programs is equality |
| `SolveOrder.IndexAgreesExactly` | src/translation/src/hir_evaluate/src/value.rs:679-690 | Two integers with the same image select alike exactly when both or neither type may index, or the image is too large for any index |
| `SolveOrder.UntypedIndexDiffers` | src/translation/src/hir_evaluate/src/value.rs:679-690 | An untyped index is refused where the same typed index is accepted |
| `NormalizedOperators.ArithmeticSucceedsIff` | src/translation/src/hir_evaluate/src/value.rs:129-231 | An arithmetic, bitwise or comparison operator succeeds exactly when both images normalise to the same type and a divisor is not zero |
| `NormalizedOperators.MixedSignsFail` | src/translation/src/hir_evaluate/src/value.rs:104-139 | A negative operand never combines with a non-negative one below 2^64 |
| `NormalizedOperators.ShiftsAlwaysFail` | src/translation/src/hir_evaluate/src/value.rs:225-232 | No shift ever succeeds |
| `NormalizedOperators.NotOfBoolIsInteger` | src/translation/src/hir_evaluate/src/value.rs:293-302 | Negating a boolean gives an i32 |
| `NormalizedOperators.ArithmeticExactIff` | src/translation/src/hir_evaluate/src/value.rs:193-204 | Addition, subtraction and multiplication are exact modulo 2^128 exactly when the result fits the normalised type or that type is u128 |
| `FixedWidth.WrapSeesImage` | src/translation/src/hir_evaluate/src/value.rs:343-479 | Truncation to any integer type depends on the 128-bit image alone |
| `FixedWidth.ImageInjective` | src/translation/src/hir_evaluate/src/value.rs:104-123 | An image and a type determine the integer |
| `Literals.TruncatedDivisionLaw` | src/translation/src/hir/src/literal_ops.rs:157-268 | The quotient is truncated towards zero and the remainder has the sign of the dividend; the division operators are tied to it by `OperatorLaws.LiteralDivisionLaw` |
| `OperatorLaws.LiteralDivisionLaw` | src/translation/src/hir/src/literal_ops.rs:157-268 | The division operators on literals of one type: dividend is divisor times quotient plus remainder, the remainder is smaller than the divisor and has the sign of the dividend, except that the least value divided by minus one wraps to itself |
| `OperatorLaws.LiteralShiftLaw` | src/translation/src/hir/src/literal_ops.rs:364-481 | A shift to the right divides by the power of two towards minus infinity, one to the left multiplies and wraps; amounts of another type than u32 or not below the width are refused |
| `OperatorLaws.WidthsAndModuli` | src/translation/src/hir_evaluate/src/value.rs:343-479 | A type of n bits has 2^n values |
| `OperatorLaws.FirstKindThatFits` | src/translation/src/hir_evaluate/src/value.rs:104-123 | An integer is normalised to the first of i32, i64, u64 and u128 that holds its word |
| `OperatorLaws.DivisionLaw` | src/translation/src/hir_evaluate/src/value.rs:205-216 | Quotient times divisor plus remainder is the dividend, and the remainder is smaller than the divisor, on the words of the operands |
| `OperatorLaws.ComparisonLaw` | src/translation/src/hir_evaluate/src/value.rs:233-286 | Every comparison agrees with the order of the words; two units are equal |
| `OperatorLaws.BooleanLiterals` | src/translation/src/hir/src/literal_ops.rs:561-692 | On boolean literals false is below true, not is the other one, and there is no arithmetic |
| `OperatorLaws.OtherOperandsFail` | src/translation/src/hir_evaluate/src/value.rs:185-286 | Operands that are not both integers or booleans fail, except that two units can be compared |
| `OperatorLaws.BitwiseLaw` | src/translation/src/hir_evaluate/src/value.rs:217-224 | And, or and exclusive or act on every bit of the words by itself |
| `OperatorLaws.UnaryLaw` | src/translation/src/hir_evaluate/src/value.rs:293-302 | Plus keeps the word; minus and not complement it in the normalised type |
| `OperatorLaws.OtherOperandFails` | src/translation/src/hir_evaluate/src/value.rs:293-302 | Of anything else only plus on unit has a value |
| `OperatorLaws.CastLaw` | src/translation/src/hir_evaluate/src/value.rs:343-530 | A cast to an integer type keeps every number that fits and otherwise gives the congruent one |
| `OperatorLaws.OtherCasts` | src/translation/src/hir_evaluate/src/value.rs:506-530 | Integers, booleans and unit cast to unit; every other cast is a type error |
| `EvaluationLaws.ParameterGetsArgument` | src/translation/src/hir_evaluate/src/evaluator.rs:169-183 | A parameter is bound to the argument at its position, or to unit; of parameters with one name the last counts |
| `EvaluationLaws.CallReadsArgument` | src/translation/src/hir_evaluate/src/evaluator.rs:160-231 | A function that reads its i-th parameter returns its i-th argument, whatever the frames of its callers bind |
| `EvaluationLaws.CallPassesArgument` | src/translation/src/hir_evaluate/src/value.rs:731-746 | The same for a call expression, positional arguments before named ones |
| `EvaluationLaws.InnermostBindingWins` | src/translation/src/hir_evaluate/src/evaluator.rs:32-34 | The innermost frame that binds a name decides, and in it a local before a parameter |
| `EvaluationLaws.UnboundName` | src/translation/src/hir_evaluate/src/evaluator.rs:265-272 | A name is unbound exactly when no frame binds it |
| `EvaluationLaws.BindThenLookup` | src/translation/src/hir_evaluate/src/evaluator.rs:32-38 | A name that is bound reads the bound value, every other name what it read before |
| `EvaluationLaws.SetThenRead` | src/translation/src/hir_evaluate/src/evaluator.rs:134-154 | After a local is declared or assigned it reads the value of the right-hand side, which ran first, and other names are unchanged |
| `EvaluationLaws.OtherPlacesRefused` | src/translation/src/hir_evaluate/src/value.rs:709-725 | A place that is no local is refused after the right-hand side has run |
| `EvaluationLaws.NoFrameToBind` | src/translation/src/hir_evaluate/src/value.rs:713-721 | Outside every function a declaration is forgotten and an assignment refused |
| `EvaluationLaws.ListRunsInOrder` | src/translation/src/hir_evaluate/src/value.rs:634-654 | A list runs its front, and from the state reached there its rest, unless the front failed |
| `EvaluationLaws.OperandsRunAsList` | src/translation/src/hir_evaluate/src/value.rs:185-190 | The two operands of a strict operator run as the list of both; collection and index too |
| `EvaluationLaws.CallRunsAsList` | src/translation/src/hir_evaluate/src/value.rs:731-746 | A call runs callee, positional and named arguments as one list and applies the first value to the others |
| `EvaluationLaws.ElementsRunInOrder` | src/translation/src/hir_evaluate/src/evaluator.rs:238-249 | Block elements run in order, each from the state and with the value the one before left |
| `EvaluationLaws.RebuiltComponents` | src/translation/src/hir_evaluate/src/value.rs:602-654 | An aggregate keeps its shape and definition and gets every component in its place |
| `EvaluationLaws.FieldOfStruct` | src/translation/src/hir_evaluate/src/value.rs:660-673 | A field access gives the first field of the name and fails when there is none |
| `EvaluationLaws.ElementByIndex` | src/translation/src/hir_evaluate/src/value.rs:675-703 | Indexing counts from the start and fails below zero and from the end on |
| `EvaluationLaws.BlockOfOne` | src/translation/src/hir_evaluate/src/evaluator.rs:234-253 | A block of one expression is that expression in the safety context of the block |
| `EvaluationLaws.ShortCircuitIsIf` | src/translation/src/hir_evaluate/src/value.rs:165-184 | The short-circuit operators are the conditionals they abbreviate, for all operands and outcomes |
| `EvaluationLaws.ConstantCondition` | src/translation/src/hir_evaluate/src/value.rs:536-553 | A constant condition picks its branch, a missing one being unit |
| `EvaluationLaws.WhileTrueIsLoop` | src/translation/src/hir_evaluate/src/value.rs:555-596 | While true and the unconditional loop are the same for every body |
| `EvaluationLaws.BreakEndsLoop` | src/translation/src/hir_evaluate/src/value.rs:559-596 | A break with any label ends the innermost loop after one counted pass |
| `EvaluationLaws.ContinueGoesRound` | src/translation/src/hir_evaluate/src/value.rs:580-596 | A loop that only continues, with any label, uses up the budget exactly and fails |
| `EvaluationLaws.ReturnLeavesLoop` | src/translation/src/hir_evaluate/src/value.rs:580-596 | A return inside a loop leaves the loop as well |
| `EvaluationLaws.JumpEndsCall` | src/translation/src/hir_evaluate/src/evaluator.rs:192-209 | A return ends the call with its value; a break or continue that no loop takes is the error of the call |
| `EvaluationLaws.CalleeEndsCallersLoop` | src/translation/src/hir_evaluate/src/value.rs:580-596 | A break that a function leaves unused ends the loop of its caller |
| `EvaluationLaws.CallRefused` | src/translation/src/hir_evaluate/src/evaluator.rs:160-226 | A call is refused before anything runs when it is too deep, unsafe in a safe context or without a body, in this order |
| `EvaluationLaws.EndlessRecursion` | src/translation/src/hir_evaluate/src/evaluator.rs:160-164 | Endless recursion fails at the call depth limit and leaves no trace |
| `EvaluationLaws.UnsafeNeedsUnsafeBlock` | src/translation/src/hir_evaluate/src/evaluator.rs:185-190 | An unsafe function is refused in a safe block and runs in an unsafe one |
| `ReturnInsertion.LoweredBody.EnsureReturnInBody` | src/translation/src/hir_from_tree/src/item.rs:511-550 | The list of elements is completed in place, or left alone when the return is missing |
| `ReturnInsertion.InsertedBodyEndsInReturn` | src/translation/src/hir_from_tree/src/item.rs:509-550 | Insertion succeeds exactly for bodies ending in an expression and for functions returning unit; the result ends in a return and is not completed twice |
| `ReturnInsertion.InsertedReturnIsTransparent` | src/translation/src/hir_from_tree/src/item.rs:511-550 | Running a completed body gives the same state and, as a call sees it, the same result |
| `SolveOrder.CompletionIsInvisible` | src/translation/src/hir_from_tree/src/item.rs:480-507 | Completing every body of a program at once changes no evaluation of any expression in any state |
| `HeapModel.ReachableValid` | src/translation/src/hir_evaluate/src/memory.rs:40-66 | In every reachable heap live non-empty regions are disjoint, and the byte count is the sum of the live sizes and within the limit |
| `HeapModel.AllocateValid` | src/translation/src/hir_evaluate/src/memory.rs:53-66 | An allocation succeeds exactly when the live bytes leave room; it is aligned, the first such place beyond everything live, can only replace an empty region, and the next address is right behind it |
| `HeapModel.AlignUpLaws` | src/translation/src/hir_evaluate/src/memory.rs:59-60 | The aligned address is a multiple of the alignment less than one step above the address |
| `HeapModel.AlignUpIsLeast` | src/translation/src/hir_evaluate/src/memory.rs:59-60 | No smaller multiple would do |
| `HeapModel.DeallocateValid` | src/translation/src/hir_evaluate/src/memory.rs:114-118 | Freeing takes away one region and gives back exactly its size; the saturating subtraction never saturates |
| `HeapModel.DeadStaysDead` | src/translation/src/hir_evaluate/src/memory.rs:53-66 | A dead base below the next address is never valid again in any run |
| `HeapModel.FreedBaseReturnsIff` | src/translation/src/hir_evaluate/src/memory.rs:53-118 | A freed base can become valid again exactly when it is the next address, which the base of a non-empty region never is |
| `HeapModel.RegionFollowsRequest` | src/translation/src/hir_evaluate/src/memory.rs:13-66 | Every live region has the alignment, size and mutability of the request that made it, and a read-only one is all zero |
| `HeapModel.ContentsRemembered` | src/translation/src/hir_evaluate/src/memory.rs:69-100 | Every byte of every live region of every reachable heap is the last one written there, or zero |
| `HeapModel.ReadReturnsRemembered` | src/translation/src/hir_evaluate/src/memory.rs:69-79 | A read returns exactly those bytes, and fails only for the reason it reports |
| `HeapModel.Memory.AllocateRegion` | src/translation/src/hir_evaluate/src/memory.rs:53-66 | Allocation over the mutable fields |
| `HeapModel.Memory.ReadBytes` | src/translation/src/hir_evaluate/src/memory.rs:69-79 | Reading changes nothing |
| `HeapModel.Memory.WriteBytes` | src/translation/src/hir_evaluate/src/memory.rs:82-100 | Writing changes the bytes of one region only |
| `HeapModel.Memory.DeallocateRegion` | src/translation/src/hir_evaluate/src/memory.rs:114-118 | Deallocation over the mutable fields |
| `HeapModel.WriteSucceedsIff` | src/translation/src/hir_evaluate/src/memory.rs:82-97 | A write succeeds exactly inside a live mutable region, its end included; it changes the bytes written there and nothing else |
| `HeapModel.LowAddressesNeverLive` | src/translation/src/hir_evaluate/src/memory.rs:40-49 | No address below 0x1000 is ever live |
| `HeapModel.FirstAddress` | src/translation/src/hir_evaluate/src/memory.rs:40-66 | The first region is at 0x1000 when its alignment divides that |
| `Numerals.CanonicalIsNumeral` | src/translation/src/hir_mangle/src/string.rs:43-60 | A digit string without leading zeros is the only one of its value |
| `Numerals.NumeralOfValue` | src/translation/src/hir_mangle/src/string.rs:43-60 | Writing the value of a digit string down again drops its leading zeros and nothing else |
| `Numerals.Column` | src/translation/src/hir_mangle/src/string.rs:47-51 | The carry of every column stays below the factor: at most 255 while encoding, at most 62 while decoding |
| `Numerals.MultiplyAddDenotes` | src/translation/src/hir_mangle/src/string.rs:46-55 | The carry loops compute old value times factor plus digit |
| `Numerals.MultiplyAddStaysCanonical` | src/translation/src/hir_mangle/src/string.rs:46-55 | The carry loops never leave a leading zero |
| `Numerals.Absorb` | src/translation/src/hir_mangle/src/string.rs:46-55 | The inner loops over the digit vector, for either direction of conversion |
| `Numerals.Convert` | src/translation/src/hir_mangle/src/string.rs:43-60 | The digit vector after all input digits is the numeral of their value in the other base |
| `Base63.EncodeC99Base63` | src/translation/src/hir_mangle/src/string.rs:38-61 | Encoding writes the big-endian number of the bytes in base 63 |
| `Base63.DecodeC99Base63` | src/translation/src/hir_mangle/src/string.rs:64-93 | Decoding writes the number of the letters in base 256, or fails on a foreign character |
| `Base63.DecodeEncode` | src/translation/src/hir_mangle/src/string.rs:38-93 | Decoding undoes encoding up to leading zero bytes, so exactly on input without any |
| `Base63.EncodeDecode` | src/translation/src/hir_mangle/src/string.rs:38-93 | Encoding undoes decoding exactly on canonical spellings |
| `Base63.EncodeShape` | src/translation/src/hir_mangle/src/string.rs:33-61 | Only identifier characters, at most two a byte and one more |
| `Text.ReadPrinted` | src/translation/src/hir_mangle/src/ty.rs:492-498 | A printed count reads back whatever follows it, when it fits, and is an error otherwise |
| `Text.ParsePrinted` | src/translation/src/hir_mangle/src/string.rs:160-162 | Decimal parsing undoes decimal printing up to the maximum of the target type |
| `Text.JoinOfSplit` | src/translation/src/hir_mangle/src/string.rs:229-252 | Joining undoes splitting at the path separator |
| `Text.SplitKeepsUtf8` | src/translation/src/hir_mangle/src/string.rs:229-233 | Every segment of a UTF-8 path is UTF-8 |
| `Text.HexRoundTrip` | src/translation/src/hir_mangle/src/string.rs:128-132 | The hexadecimal form reads back |
| `Segments.SegmentRoundTrip` | src/translation/src/hir_mangle/src/string.rs:120-217 | A non-empty segment reads back in front of any text, whichever of the identifier, hexadecimal and compressed forms it takes; one level of nesting is enough (the form itself: `EncodingForms.FormByFirstByte`) |
| `Segments.EmptySegmentRoundTripIff` | src/translation/src/hir_mangle/src/string.rs:121-123 | The empty segment reads back exactly when something other than a digit follows |
| `Segments.DeeperAgrees` | src/translation/src/hir_mangle/src/string.rs:157-176 | More stack never changes an answer that was not cut short by it |
| `Segments.DemangleSegment` | src/translation/src/hir_mangle/src/string.rs:151-217 | A segment that is read is UTF-8 and at least one byte was consumed |
| `Segments.PathRoundTripIff` | src/translation/src/hir_mangle/src/string.rs:228-253 | A path reads back in front of a text exactly when every empty segment in it is followed by something that is not a digit |
| `Segments.PathRoundTrip` | src/translation/src/hir_mangle/src/string.rs:219-253 | Paths of non-empty segments are self-delimiting: any suffix may follow |
| `Segments.OverreadEatsIntoRest` | src/translation/src/hir_mangle/src/string.rs:242-253 | Asking for more segments than were printed, or for as many when one is not delimited, fails or eats into what follows |
| `Segments.PathGoesAstray` | src/translation/src/hir_mangle/src/string.rs:242-253 | A path that is not delimited fails to read, yields another path, or eats into what follows; in front of a count it stops behind the digits |
| `Segments.ZeroIsSwallowed` | src/translation/src/hir_mangle/src/string.rs:203-214 | A zero behind a path that ends in an empty segment is swallowed by that segment |
| `Segments.TrailingEmptyPathIff` | src/translation/src/hir_mangle/src/string.rs:203-214 | The same condition for a path in front of any text |
| `Segments.PathShape` | src/translation/src/hir_mangle/src/string.rs:228-235 | A mangled path uses identifier characters and starts with a digit |
| `TypeFraming.TypeRoundTripIff` | src/translation/src/hir_mangle/src/ty.rs:66-463 | A printed type in front of any text reads back as its erasure and exactly that text if and only if it is encodable and every name in it is delimited by what follows that name |
| `TypeFraming.TypesRoundTripIff` | src/translation/src/hir_mangle/src/ty.rs:263-274 | The same for a counted list of types |
| `TypeFraming.TypeGoesAstray` | src/translation/src/hir_mangle/src/ty.rs:194-463 | Where reading goes when a name is not delimited: it fails, yields another type, or eats into the text behind the type |
| `TypeNames.TypeRoundTrip` | src/translation/src/hir_mangle/src/ty.rs:66-463 | When every name is delimited, an encodable type reads back and any other is a syntax error |
| `TypeNames.TypesRoundTrip` | src/translation/src/hir_mangle/src/ty.rs:263-274 | Both outcomes for a counted list of types |
| `TypeNames.WellNamedIsFramed` | src/translation/src/hir_mangle/src/ty.rs:97-110 | Types whose names have non-empty segments meet the framing condition in front of every text |
| `TypeNames.ErasedTypeManglesAlike` | src/translation/src/hir_mangle/src/ty.rs:116-122 | Erasing what is not encoded does not change the encoding |
| `TypeNames.TypesMangleAlikeIff` | src/translation/src/hir_mangle/src/ty.rs:10-66 | Two types mangle alike exactly when their erasures are equal, and no encoding is a proper prefix of another |
| `TypeNames.TypeShape` | src/translation/src/hir_mangle/src/ty.rs:10-14 | Encodings use identifier characters and start with a letter |
| `SymbolNames.NameRoundTripIff` | src/translation/src/hir_mangle/src/mangle.rs:23-51 | A mangled name demangles to package, name and erased type if and only if the type is encodable and each part is delimited by what follows it |
| `SymbolNames.NameReadsBack` | src/translation/src/hir_mangle/src/mangle.rs:23-51 | When each part is delimited, a name whose type is not encodable is rejected |
| `SymbolNames.NameRejectsTail` | src/translation/src/hir_mangle/src/mangle.rs:46-48 | A symbol name with any text left over behind it is rejected |
| `SymbolNames.NameRoundTrip` | src/translation/src/hir_mangle/src/mangle.rs:23-51 | The same for names of non-empty segments |
| `SymbolNames.NamesMangleAlikeIff` | src/translation/src/hir_mangle/src/mangle.rs:8-30 | Mangled names agree exactly when package, name and erased type all agree |
| `SymbolNames.NameIsIdentifier` | src/translation/src/hir_mangle/src/mangle.rs:22-30 | Every mangled name is a C identifier |
| `SymbolNames.ModuleRoundTripIff` | src/translation/src/hir_mangle/src/mangle.rs:56-72 | A mangled module name demangles exactly when no empty segment in it is followed by a digit or the end, and is rejected otherwise |
| `SymbolNames.ModuleIgnoresTail` | src/translation/src/hir_mangle/src/mangle.rs:64-72 | A module name is accepted with any text left over that delimits it |
| `SymbolNames.ModuleIgnoresEveryTail` | src/translation/src/hir_mangle/src/mangle.rs:64-72 | A module name of non-empty segments is accepted with every text left over |
| `SymbolNames.TailCompletesModule` | src/translation/src/hir_mangle/src/mangle.rs:64-72 | A module name that ends in an empty segment is rejected alone and accepted with a zero behind it, although the zero does not delimit it |
| `SymbolNames.TrailingEmptyModuleIff` | src/translation/src/hir_mangle/src/mangle.rs:64-72 | When only a trailing empty segment can go wrong, a module name is accepted with a text left over if and only if that text is a run of zeros and then something that is not a digit |
| `SymbolNames.TailExample` | src/translation/src/hir_mangle/src/mangle.rs:64-72 | For instance `a::` is rejected alone and accepted in front of `0_` |
| `SymbolNames.LastSegmentLaws` | src/translation/src/hir_mangle/src/pass.rs:65-68 | The bare name contains no separator and is the end of the full name |
| `SymbolNames.StripPackageLaws` | src/translation/src/hir_mangle/src/pass.rs:53-63 | Stripping undoes qualification and identifies two names only when one is the other in the package |
| `SymbolNames.SymbolsClashIff` | src/translation/src/hir_mangle/src/pass.rs:16-51 | Two symbols clash exactly when their erased types agree and their names are the same up to the package |
| `SymbolNames.PackageSymbolsAreDistinct` | src/translation/src/hir_mangle/src/pass.rs:16-63 | Symbols named inside the package get pairwise distinct names that demangle to package and rest |
| `SymbolNames.UnmangledClashIff` | src/translation/src/hir_mangle/src/pass.rs:20-21 | Two symbols excluded from mangling clash exactly when their bare names agree, whatever their paths and types |
| `SymbolNames.UnmangledMeetsMangledIff` | src/translation/src/hir_mangle/src/pass.rs:20-37 | A symbol excluded from mangling clashes with a mangled one exactly when its bare name is that mangled name, which every mangled name can be |
| `SymbolNames.MangleSymbols` | src/translation/src/hir_mangle/src/pass.rs:16-51 | The pass gives every symbol its name, functions then globals, and leaves the lookup names alone; on a table of distinct, manglable names inside the package the mangled names are pairwise distinct and each demangles to package, rest and erased type |
| `SymbolNames.NamedTableIsDistinct` | src/translation/src/hir_mangle/src/pass.rs:16-51 | The distinctness and demangling of a whole table of symbols named by the pass |
| `Demangler.Cursor.ReadDecimal` | src/translation/src/hir_mangle/src/ty.rs:492-498 | The cursor is moved exactly when the count is accepted |
| `Demangler.Cursor.Segment` | src/translation/src/hir_mangle/src/string.rs:151-217 | The reader of segments over the mutable cursor, with the cursor position after errors too |
| `Demangler.Cursor.HexSegment` | src/translation/src/hir_mangle/src/string.rs:177-200 | The hexadecimal branch |
| `Demangler.HexPairs` | src/translation/src/hir_mangle/src/string.rs:192-197 | The loop over digit pairs |
| `Demangler.Cursor.Path` | src/translation/src/hir_mangle/src/string.rs:242-253 | The loop over counted segments |
| `Demangler.Cursor.TypeOf` | src/translation/src/hir_mangle/src/ty.rs:194-463 | The reader of types over the mutable cursor |
| `Demangler.Cursor.TypesOf` | src/translation/src/hir_mangle/src/ty.rs:266-269 | The loop over counted types, which stops at the first error |
| `Demangler.Cursor.RefFlags` | src/translation/src/hir_mangle/src/ty.rs:476-489 | The flag character is consumed even when it is rejected |
| `Demangler.ReadSymbolName` | src/translation/src/hir_mangle/src/mangle.rs:35-51 | The reader of whole symbol names over a cursor computes the reading function, final emptiness test included |
| `Demangler.ReadModuleName` | src/translation/src/hir_mangle/src/mangle.rs:64-72 | The same for module names, which have no such test |
| `EncodingForms.FormByFirstByte` | src/translation/src/hir_mangle/src/string.rs:120-148 | A segment starts with z exactly when its other form is longer than 64 bytes and compresses, otherwise with x exactly when it is no identifier, and with a digit when it is one |
| `EncodingForms.IdentifierStandsAsItIs` | src/translation/src/hir_mangle/src/string.rs:125-126 | An identifier that is not compressed stands at the end as it is, behind its length |
| `EncodingForms.ShortIdentifierIsPlain` | src/translation/src/hir_mangle/src/string.rs:136-141 | Identifiers of at most 62 bytes are never compressed |
| `EncodingForms.OtherSegmentInHex` | src/translation/src/hir_mangle/src/string.rs:127-133 | Any other segment that is not compressed is x, a count and two lower-case hexadecimal digits for each byte |
| `EncodingForms.PackedSegmentInBase63` | src/translation/src/hir_mangle/src/string.rs:136-145 | A compressed segment is z, a count and the compression of its other form in base 63 |
| `EncodingForms.HexReadsEitherCase` | src/translation/src/hir_mangle/src/string.rs:192-197 | Upper-case hexadecimal digits read as well |
| `EncodingForms.HexDigitsOnly` | src/translation/src/hir_mangle/src/string.rs:192-197 | No other byte is a hexadecimal digit |
| `EncodingForms.ParsesIff` | src/translation/src/hir_mangle/src/string.rs:160-162 | The texts read as a number are its decimal notation behind any number of zeros and at most one plus sign |
| `EncodingForms.AlphabetOfBase63` | src/translation/src/hir_mangle/src/string.rs:9-12 | The digits are A to Z, a to z, 0 to 9 and the underscore in this order |
| `EncodingForms.TagLetter` | src/translation/src/hir_mangle/src/ty.rs:20-58 | The first letter of an encoded type is the one of the documented table |
| `EncodingForms.FlagDigit` | src/translation/src/hir_mangle/src/ty.rs:60-65 | The flag of a reference counts exclusive twice and mutable once |
| `EncodingForms.SplitIsUnique` | src/translation/src/hir_mangle/src/string.rs:229-252 | The segments of a path are the only parts that join to it and are cut at the leftmost separators |
| `EncodingForms.SegmentExamples` | src/translation/src/hir_mangle/src/string.rs:271-283 | The encodings of main, _foo, the empty name and a Greek letter |
| `EncodingForms.TypeExamples` | src/translation/src/hir_mangle/src/ty.rs:66-188 | The encodings of an array, a parameterized type, a pointer and an inferred type |
| `EncodingForms.ListTypeExamples` | src/translation/src/hir_mangle/src/ty.rs:87-130 | The encodings of a tuple and a function type |
| `EncodingForms.NameExample` | src/translation/src/hir_mangle/src/mangle.rs:8-30 | The mangled name of a constant math::pi |
| `UnicodeText.Utf8Iff` | src/translation/src/hir_mangle/src/string.rs:151-217 | The strings accepted as UTF-8 are exactly the encodings of sequences of scalar values by the table of section 3 of RFC 3629 |
| `FileIds.StepKeepsValid` | src/diagnosis/src/file_id.rs:36-74 | Every move of every thread keeps the invariant: locks exclusive, map a bijection onto 1 to n, counter one ahead modulo 2^16, flag set exactly when the ids are used up |
| `FileIds.EveryRunInterns` | src/diagnosis/src/file_id.rs:36-74 | Safety, over every interleaving of any number of threads: equal paths get equal answers, different paths different ids, ids are 1 to n with n at most 65535, and none is answered only for a path left out of a full map, then forever (that calls return: `FileIds.MoveLowersRank` and `FileIds.FreshCallInterns`) |
| `FileIds.OneWriter` | src/diagnosis/src/file_id.rs:38-46 | At most one thread is past the write lock and none reads meanwhile; the zero id is never drawn, so no thread panics |
| `FileIds.StepIsAtomicIntern` | src/diagnosis/src/file_id.rs:36-74 | Each call takes effect in one move, as one indivisible interning of its path |
| `FileIds.NoDeadlock` | src/diagnosis/src/file_id.rs:36-74 | While any call is in progress some thread inside a call can move (and every such move is progress: `FileIds.MoveLowersRank`) |
| `FileIds.FileIdStore.GetOrCreate` | src/diagnosis/src/file_id.rs:36-74 | An uninterrupted call is exactly one interning |
| `FileIds.FileIdStore.LookupPath` | src/diagnosis/src/file_id.rs:76-79 | An id looks up to the path it was issued for, and exactly the issued ids have one |
| `FileIds.MoveLowersRank` | src/diagnosis/src/file_id.rs:36-74 | Under every interleaving each move inside a call that is not a wait brings the call nearer to its end and moves no other thread, so no call takes more than nine such moves |
| `FileIds.MoveKeepsOutcome` | src/diagnosis/src/file_id.rs:36-74 | A thread that is alone can always move, and a move never changes what its call will return |
| `FileIds.CallAloneEnds` | src/diagnosis/src/file_id.rs:36-74 | From any point inside a call, with all other threads idle, the call ends within its rank in moves, with the map and answer of one indivisible interning |
| `FileIds.FreshCallInterns` | src/diagnosis/src/file_id.rs:36-74 | A fresh call with all other threads idle ends within nine moves, leaves the map of one interning and returns its answer |
| `FileIds.KnownPathOnlyReads` | src/diagnosis/src/file_id.rs:36-46 | A call for a known path returns its id under the read lock alone |
| `Generator.Gen.GenValue` | src/generate/src/rvalue.rs:30-66 | The value always type-checks, and at the requested type exactly when that type has values; it is of the kind the next word picks, at that cost, or a free leaf when that is not affordable; at most four tuples and operators nest; depth counters restored; ends for every stream |
| `Generator.Gen.GenLeafValue` | src/generate/src/rvalue.rs:101-120 | Leaf values type-check and contain no operator; a scalar one is the literal the next word stands for |
| `Generator.Gen.GenIntLeaf` | src/generate/src/rvalue.rs:136-150 | The literal the next word stands for, which fits the type it is cast to and is at most a million |
| `Generator.Gen.GenArithValue` | src/generate/src/rvalue.rs:213-244 | Operator and operands agree with the requested type; the operator is the one the next word selects among those of the type |
| `Generator.Gen.GenConcreteType` | src/generate/src/ty.rs:13-57 | Tuples of two to four members nested at most four deep, one word in eight starting a tuple below that depth; the depth counter is restored |
| `Generator.Gen.EmitSafeStatement` | src/generate/src/rvalue.rs:318-346 | One statement is appended: where allowed and affordable 28 rolls in a hundred give one level of control flow, the others below 70 a declaration whose initialiser has the declared type, the rest a discarded value |
| `Generator.Gen.GenControlStmt` | src/generate/src/rvalue.rs:348-369 | A loop for an odd word and a branch otherwise, a boolean condition drawn from the words that follow, and bodies without further control flow |
| `Generator.Gen.GenFunctionBody` | src/generate/src/item.rs:112-140 | A body ends in a return of the declared type, behind as many statements as the first word modulo three says unless the budget runs out |
| `Generator.Gen.GenItem` | src/generate/src/item.rs:28-40 | The item is of the kind its word picks, or a type alias when that is not affordable; items are well formed and modules nest within what is left of three levels; no more names are drawn than budget is spent |
| `Generator.Gen.GenItemModule` | src/generate/src/item.rs:236-258 | The same for modules, which hold one to three items unless the budget runs out, with the item depth restored |
| `Generator.Gen.GenProgram` | src/generate/src/lib.rs:115-147 | Every program is a well-formed module that starts with main and the other requested functions as far as the budget reaches; its generated names are numbered without gap or repetition, too few to wrap the counter, and pairwise different as texts |
| `Generator.Gen.PickWeighted` | src/generate/src/lib.rs:93-106 | Exactly one word is drawn, and its low 32 bits modulo the total weight are the roll that selects the option; the fallback after the loop is dead |
| `Generator.ChoiceFollowsWeights` | src/generate/src/lib.rs:93-106 | Each option is selected by exactly its weight of rolls |
| `Generator.EveryOptionIsPicked` | src/generate/src/lib.rs:93-106 | Every option of positive weight is picked by some word |
| `Generator.Gen.SelectValueKind` | src/generate/src/rvalue.rs:68-99 | The kind is the one the next word picks among the weighted options of the type |
| `Generator.KindIsPickedIff` | src/generate/src/rvalue.rs:68-99 | The kinds picked for a type over all words are exactly those that suit it |
| `Generator.Gen.SelectItemKind` | src/generate/src/item.rs:14-26 | The kind is the one the next word picks among the weighted options |
| `Generator.ItemIsPickedIff` | src/generate/src/item.rs:14-26 | Every kind of item is picked by some word, modules only below three levels |
| `Generator.CostCountsOperands` | src/generate/src/rvalue.rs:21-28 | A value costs one, and one more for each operand |
| `Generator.LiteralIsDrawnIff` | src/generate/src/rvalue.rs:136-150 | The integer literals drawn over all words are exactly those that fit the type, up to a million |
| `Generator.Gen.GenOperand` | src/generate/src/rvalue.rs:285-293 | An operand is a leaf, a unary expression or a parenthesised value as the next word modulo three says |
| `Generator.Gen.GenBoolCondition` | src/generate/src/rvalue.rs:296-316 | A condition is true, false, a negated constant or a comparison as the next word modulo four says |
| `Generator.Gen.GenItemFunction` | src/generate/src/item.rs:65-110 | Parameters and result type are those the stream holds, in order; a type alias below ten units of budget |
| `Generator.Gen.GenItemStruct` | src/generate/src/item.rs:142-168 | One to four fields of the types the stream holds; a type alias below five units of budget |
| `Generator.Gen.GenItemEnum` | src/generate/src/item.rs:170-199 | Two to four variants, each with a payload behind an odd word; a type alias below five units of budget |
| `Generator.TupleValueFor` | src/generate/src/rvalue.rs:168-184 | A tuple of values for the fields is a value for the tuple type |
| `GeneratedProgram.MagnitudeMaxIsExact` | src/generate/src/ty.rs:191-208 | The magnitude bound is the largest literal of the type |
| `GeneratedProgram.TypedIsConstructible` | src/generate/src/rvalue.rs:30-37 | Only constructible types have values |
| `GeneratedProgram.TypedIsControlFree` | src/generate/src/rvalue.rs:30-37 | Control flow never sits in value position |
| `GeneratedProgram.ProgramTextsDistinct` | src/generate/src/lib.rs:108-147 | No two generated names of a program are the same text, and none is a text without an underscore such as main |
| `GeneratedProgram.NumberedTextsDiffer` | src/generate/src/lib.rs:108-113 | Two numbered names are the same text exactly when prefix and number agree |
| `SymbolTable.StepLaws` | src/translation/src/hir/src/table.rs:118-143 | Every lookup and upsert keeps names and cells one to one, every issued handle, and every variant with its enum |
| `SymbolTable.HandlesNeverChange` | src/translation/src/hir/src/table.rs:206-256 | Over any later sequence of operations a handle once issued stays the handle of its name or variant |
| `SymbolTable.HandlesSeeLatest` | src/translation/src/hir_from_tree/src/helpers.rs:302-400 | Every handle of a name reads the last definition of the name, and the placeholder as long as there is none |
| `SymbolTable.ForwardReferenceResolves` | src/translation/src/hir_from_tree/src/helpers.rs:302-400 | A handle taken before a definition reads the definition afterwards, whatever happened in between |
| `SymbolTable.HandlesAreDistinct` | src/translation/src/hir/src/table.rs:335-401 | Different names never share a handle; a variant points at the cell of its enclosing enum and reads its last definition |
| `SymbolTable.VariantLeadsBackIff` | src/translation/src/hir/src/table.rs:245-254 | The path of a variant leads back to its enum exactly when the path of the enum does not end in a stray colon |
| `SymbolTable.SymbolTab.GetOrInsertPlaceholder` | src/translation/src/hir/src/table.rs:360-378 | Lookup with a placeholder over the mutable maps |
| `SymbolTable.SymbolTab.GetEnumVariantOrInsertPlaceholder` | src/translation/src/hir/src/table.rs:240-256 | Variant lookup through the enclosing enum |
| `SymbolTable.SymbolTab.UpsertDefinition` | src/translation/src/hir_from_tree/src/helpers.rs:304-317 | An existing cell is overwritten in place, a new one appended |
| `SymbolTable.SymbolTab.UpsertEnumDefinition` | src/translation/src/hir_from_tree/src/helpers.rs:319-340 | The same for enums, with the loop that registers the variants |
| `SymbolTable.TableHoldsHistory` | src/translation/src/hir_from_tree/src/helpers.rs:302-400 | The names noted as added are exactly those defined, the keys exactly those looked up or defined, the variants exactly those looked up or of a defined enum |

## Left out

- Floating point: no literal, operator or cast on floats in the evaluator; the generator's float literals are real numbers.
- Rotations: modelled as a type error, which is what the evaluator's operators give because a normalised amount is never the literal kind they accept; the panic on an amount that is not an integer is not modelled.
- Built-in functions, default and registered: a function without a body always reports an extern call.
- Source positions, diagnostics and logging, and the counter of unsafe operations, which nothing reads.
- Store handles in expressions: a symbol is its qualified name, and a name missing from the function table is a placeholder without a body.
- Conversion of results to literals for global initialisers: a thin wrapper over evaluation.
- Machine-word overflow of heap addresses and byte counts, and alignment zero, which divides by zero: alignments are positive and words unbounded.
- Running out of real stack or memory, such as reserving room for a huge count read from a mangled name.
- DEFLATE itself, and how far compressed segments may nest before the stack ends: reading takes a depth, and `DeeperAgrees` shows that the depth only matters when it runs out.
- Mangling after demangling: decimal counts may have leading zeros or a plus sign, so it is not the identity.
- SymbolNames.TrailingEmptyModuleIff: covers the module names whose only segment that is not delimited is a trailing empty one; which texts complete a name with several such segments is not characterised.
- Parts of types and definitions that no encoding mentions are kept as opaque numbers; names of parameters and of named arguments stand beside their types instead of in pairs.
- The splitmix64 step, replaced by an arbitrary stream, and the printing of the generated tree as text.
- FileIds: weak memory orderings are not modelled: the counter and the flag are only touched under the write lock.
- One store for all kinds of symbols instead of one a kind; local variables and parameters, whose entries are overwritten rather than upserted; trait implementations and methods.
- Symbol additions by later passes that replace a handle without an upsert.
- The parser, solver, validator, borrow checker, lowering to MIR and LLVM, layout, package handling, language server and command line.
