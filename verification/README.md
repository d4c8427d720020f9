# HF-RISC runtime: models and proofs

A bare-metal runtime for a 32-bit RISC-V/MIPS core, modelled in Dafny and proved. Each group of files models one
component in the form its source has: loops stay loops, objects stay objects, and every method is proved against a
specification whose own properties are proved as lemmas.

| files | component |
|---|---|
| `Rt*.dfy`, `Sums.dfy` | the rate-monotonic scheduler, one call of `rt_context_switch` being one tick |
| `Heap*.dfy`, `Allocator.dfy` | the block-list allocator |
| `PowersOfTwo.dfy`, `Float*.dfy` | software IEEE add, multiply and divide, single and double at once |
| `Integer.dfy` | software integer multiply and divide, and the 64-bit arithmetic shift |
| `MergeSortSpec.dfy`, `ListJoin.dfy` | the linked-list merge sort of CoreMark, and its remove / undo pair |
| `MazeSpec.dfy`, `Labyrinth.dfy` | wavefront flood and descent in a maze |
| `Sudoku.dfy` | the backtracking Sudoku solver |
| `Aes*.dfy` | AES with the equivalent inverse cipher, its generated S-box, key expansion and chaining |
| `Base64Spec.dfy`, `Base64.dfy` | Base64 encoding and decoding |
| `Crc.dfy` | the 16-bit CRC, bit by bit and by table, forwards and reversed |

`dafny verify dfyconfig.toml` checks the whole project.

## Main results

* **Scheduler.** For every task set and every number of ticks: deadlines are met by all unblocked tasks exactly when
  each has a window, no longer than its period, that holds the demand of the tasks of equal or shorter period
  (`ExactSchedulability`); the same holds of the competitors of any single task (`ExactForRivals`). The simple test on
  the sum of capacities (`DeadlineTheorem`) is a consequence. A fitting window bounds the response time of every job
  (`ResponseTime`), and the least one is reached (`ResponseTimeIsReached`). The model forgets nothing of the tick; the
  runs are turned into an abstract ledger (`RtLedger.dfy`) only to keep the proofs short. Nothing in the source runs
  such a test when a task is added.
* **Allocator.** The headers always tile the heap, live payloads are never touched, and `malloc` returns 0 exactly
  when no maximal run of adjacent free blocks from the search position on is large enough; otherwise it takes the first
  such run and continues from there the next time. After the last live block
  is freed, a request succeeds exactly when it fits the whole heap (`FreeLastThenMalloc`). The size stored in the
  block split off (malloc.c:45) is always 2^32 - 8, whatever the sizes are (`SizeLeftIsStale`); it is overwritten
  before it is used. Eight request sizes near 2^32 wrap the test of line 32 and get a block that stays marked free.
* **Floating point.** Division is correctly rounded and never meets a half-way case. Addition is not always: bits are
  dropped before rounding. `FloatAdditionExact.RoundingIsExact` says exactly for which operands it is: not when
  the bits left end in a tie that the dropped bits decide against the parity rule. By exponents alone, all sums d apart
  are rounded correctly if and only if d <= 5 or d >= 26 (double: d <= 8 or d >= 55), with a misrounded pair for
  every d between (`ExponentsDecide`, `MisroundedPair`). Multiplication rounds halves up and drops the low product;
  `FloatProductExact.RoundingIsExact` says exactly when that is wrong. Every in-range sum is within 17/32 units in the
  last place (double: 129/256), every product within 35/64 (double: 259/512).
* **AES.** The S-box built from powers of 3 is the one of FIPS 197; the packed-word key conversion agrees with the
  byte-wise inverse mixing; chained decryption under the converted schedule gives the text back. `AesStandard.dfy` says
  byte by byte, without the source's words and loops, what the standard's cipher, equivalent inverse cipher, key
  expansion and chaining are; the routines are proved to be those.
* **Base64.** `IsBase64` states the text by its six-bit fields, alphabet, padding and lines, and `Decodes` the bytes of
  any text; the routines compute exactly these.
* **Searches.** The maze search walks a shortest path whenever there is one. The Sudoku solver finds the first completion
  whenever there is one and otherwise leaves the grid as it was.

## Conventions and assumptions

* Words are non-negative integers below a power of two, or bit-vectors in `Aes*.dfy` and `Crc.dfy`; wrap-around is
  written out. Function names follow the source's with Dafny capitals.
* Scheduler: the methods and one tick are modelled for every task `rt_add_task` accepts, negative periods included.
  Theorems about runs start from `Initial`: every task has 1 <= capacity <= period < 65535, the period of the idle
  task. `Start` establishes it exactly when the accepted capacities are positive and the periods below 65535;
  `LongPeriodsNeverRun` shows why the last bound is needed. `executed` is taken to start at 0, although
  `rt_add_task` never writes it, and `rt_time` does not wrap. A preempted task keeps the state RUNNING, as in the
  source, so several tasks can be RUNNING at once. A task's name is its characters, without the terminator, which
  `rt_add_task` does not copy.
* Allocator: the zone is 4-aligned, its length a multiple of 4 with room for two headers, and `free` gets a live
  pointer. Request sizes are any 32-bit words. Addresses are kept in a `nat` array of words.
* Floating point: both formats are instances of one format with precision p and g guard bits. A value is measured as
  an integer in units of 2^-(EXCESS + p), so that all of it is exact integer arithmetic. Operands are normal and the
  exact result lies in range; other words are covered only where a contract says so.
* Shifts: `>>` on a signed number is C's arithmetic shift, the floor of the quotient. A compiler may turn the 64-bit
  one of `__adddf3` into a call of `__ashrdi3` (libc.c:824-846), which is that shift only for counts up to 31
  (`Integer.HelperShiftIsShift`). `FloatShiftHelper.dfy` is that variant: the sum is the same for exponent differences
  up to 31 and from 55, and never correctly rounded from 33 to 54.
* AES: `htonl` and `ntohl` make words of the bytes most significant first on either byte order. The buffers of the
  chaining methods may be the same array, as their documentation allows. Lengths are 16 or more; a remainder of less
  than a block is left alone.
* Merge sort: `cmp` is a fixed function; for sortedness it is a total preorder. Sequences of positions stand for the
  order of the nodes, the nodes themselves being relinked in place.
* Whether `malloc` succeeds in Base64 is a parameter.

## Where the source and its documentation differ

* libc.c:1191-1193 says that dividing a single by zero gives a NaN; the code returns the words of 2^32 and 2^31.
  `FloatDivision.DivSf3` states what the code does.
* libc.c:1145-1146 multiplies two halves as signed 32-bit numbers; the product exceeds that type but fits the word.
  `FloatMultiplication.NoOverflow` shows that no word overflows.
* core_list_join.c:484-488 speaks of the empty list, but the code dereferences a null pointer for it, so the model's
  list is not empty.
* `__moddi3` negates its result for a negative divisor. `Integer.Mod64IsRemainder` gives the exact condition under
  which it is C's remainder.
* `__ashrdi3` keeps the low word instead of the high one for a count of 32, and for larger counts, its variable `bm`
  being unsigned, shifts by 32 too little. `Integer.HelperShiftIsShift` gives the exact condition under which it is
  C's shift.
* base64.c:37 tests for overflow after the fact; `Base64.OverflowCheckIsExact` shows that the test is exact.
* sudoku.c:18-68 never looks for conflicts between the givens; `Sudoku.CompletionsAreSolutions` says what its answer
  then means.

## Model

| member | source | states |
|---|---|---|
| RtScheduler.TaskList.Add | tp1/app/rt.c:158-182 | which parameters are refused, that an accepted task goes to the end of the list with the next identifier and all its parameters, and that a failing append changes nothing |
| RtScheduler.Scheduler.Start | tp1/app/rt.c:102-122 | from any accepted list: idle task with period 65535 and capacity -1 running, clock 0; it is an initial state of the run theorems exactly when capacities are positive and periods below 65535 |
| RtScheduler.Scheduler.Tick | tp1/app/rt.c:52-99 | one tick in place is one Step of the value model, for any list of accepted tasks, negative periods included |
| RtScheduler.Scheduler.ScanTasks | tp1/app/rt.c:67-80 | the loop releases every due task and ends with the choice of the scan, whatever order periods come in |
| RtModel.DispatchesShortestPeriod | tp1/app/rt.c:67-84 | the dispatched task is eligible and no eligible task has a shorter period; idle runs exactly when nothing is eligible; BLOCKED tasks never run |
| RtModel.StepFacts | tp1/app/rt.c:60-90 | a tick keeps budgets, periods and blocked tasks, and moves exactly one budget by one |
| RtModel.TickOfTask | tp1/app/rt.c:52-90 | what one tick makes of each task: budget and state, by whether it is chosen, begins a job or finishes one |
| RtModel.TickChooses | tp1/app/rt.c:60-84 | which task is chosen, from any state: the incumbent unless a waiting task has a shorter period, then the first of the shortest |
| RtModel.TickOfIdle | tp1/app/rt.c:60-90 | what one tick makes of the idle task |
| RtRuns.OwedStep | tp1/app/rt.c:60-90 | a job is started exactly when the task owes nothing at a multiple of its period; each dispatch pays one unit |
| RtRuns.PriorityInRuns | tp1/app/rt.c:67-84 | at every tick of every run the dispatched task owes work and has the shortest period of those that do |
| RtRuns.LongPeriodsNeverRun | tp1/app/rt.c:115-120 | a task whose period reaches the idle task's is never dispatched |
| RtRuns.HistoryIsLegal | tp1/app/rt.c:52-99 | the accounts of every run are a legal ledger: the only facts the theorems use |
| RtSchedulability.WindowSuffices | tp1/app/rt.c:60-90 | if the demand fits a window no longer than the period, nothing is owed at any multiple of the period |
| RtSchedulability.ResponseWithinWindow | tp1/app/rt.c:60-90 | from any moment, the task owes nothing at some later one within a fitting window |
| RtSchedulability.DeadlinesNeedWindow | tp1/app/rt.c:60-90 | if all deadlines are met then such a window exists |
| RtSchedulability.LeastWindowIsReached | tp1/app/rt.c:60-90 | before the end of the least fitting window some task of that period still owes its first job, at the end none does |
| RtTheorems.ExactSchedulability | tp1/app/rt.c:52-99 | all unblocked tasks meet all deadlines if and only if each has a fitting window |
| RtTheorems.FittingWindowSuffices | tp1/app/rt.c:60-90 | a fitting window of one task is enough for all its deadlines, whatever longer-period tasks do |
| RtTheorems.ExactForRivals | tp1/app/rt.c:60-90 | for each task: all its competitors of equal or shorter period meet their deadlines if and only if each of them has a fitting window |
| RtTheorems.ResponseTime | tp1/app/rt.c:60-90 | a job released at any multiple of the period is finished within any window that fits |
| RtTheorems.ResponseTimeIsReached | tp1/app/rt.c:60-90 | the first job takes exactly the least fitting window, if all competitors have shorter periods and meet their deadlines |
| RtTheorems.DeadlineTheorem | tp1/app/rt.c:60-90 | capacities of periods up to the task's sum to at most the shortest period: every deadline of the task is met in every run |
| RtTheorems.ClockIsAllTicks | tp1/app/rt.c:82-90 | the clock is the idle ticks plus all task ticks |
| RtTheorems.TaskConservation | tp1/app/rt.c:60-90 | a task's ticks are capacity times completed jobs plus progress, and at most capacity for every period begun |
| RtTheorems.BlockedGetsNothing | tp1/app/rt.c:69-70 | a BLOCKED task gets no tick in any run |
| RtTheorems.ShortestPeriodRunsExactly | tp1/app/rt.c:60-90 | the task of strictly shortest period runs at tick t exactly when t mod period < capacity |
| HeapModel.LiveBlocksAreDisjoint | software/lib/malloc.c:3-64 | a live payload lies in the heap, apart from all headers and all other live payloads |
| HeapModel.MergeKeepsTiling | software/lib/malloc.c:25-30 | merging a run of free blocks keeps the tiling and every live block |
| HeapModel.WrappingRequests | software/lib/malloc.c:12-32 | which requests wrap the test of line 32, and which are rounded to nothing |
| HeapSteps.SplitKeepsTiling | software/lib/malloc.c:40-46 | splitting a free block, stale size included, keeps the tiling and adds exactly one live block |
| HeapSteps.SizeLeftIsStale | software/lib/malloc.c:42-45 | the size computed for the block split off is 2^32 - 8 for every request |
| HeapSteps.FreeKeepsTiling | software/lib/malloc.c:7-9 | clearing the low bit takes exactly one block out of the live ones |
| HeapSearch.MergeRun | software/lib/malloc.c:21-34 | a run merged in the search is one maximal run of the heap as it was, and its computed size is its true size |
| HeapSearch.EverythingFreed | software/lib/malloc.c:17-38 | once nothing is live, the search from the first block finds a run exactly when the request fits the whole heap |
| HeapSearch.FirstFitIsFurther | software/lib/malloc.c:17-38 | the run taken begins at or after last_free, and after it if that block is in use |
| Allocator.Heap.Init | software/lib/malloc.c:51-64 | one free block and the sentinel, nothing live |
| Allocator.Heap.Malloc | software/lib/malloc.c:12-49 | 0 exactly when no run from last_free on serves the request, last_free then staying put; otherwise one new live block of the aligned size at the start of the first run that serves, where last_free then points; no live word changes; when size and header wrap, the block handed out is not marked in use, and the heap is as before or has a header inside that block |
| Allocator.Heap.MallocTwice | software/lib/malloc.c:17-40 | without a free between them, a later block lies further on than an earlier one |
| Allocator.Heap.FreeLastThenMalloc | software/lib/malloc.c:3-49 | after the last live block is freed a request succeeds exactly when it and 24 bytes of headers fit the heap |
| Allocator.Heap.Free | software/lib/malloc.c:3-10 | exactly one block stops being live, the search starts over, no other live word changes |
| Allocator.Heap.Search | software/lib/malloc.c:17-35 | terminates on increasing addresses, finds a run exactly when one serves, leaves live blocks alone |
| Allocator.Heap.Split | software/lib/malloc.c:40-46 | unless size and header wrap, the block found becomes live and the rest a free block that last_free precedes |
| Allocator.Heap.Store | software/lib/malloc.c:48-48 | a client writing to its payload disturbs no header and no other block |
| FloatWords.SingleFields | software/include/libc.h:110-115 | sign, exponent, mantissa and excess of a single, in numbers |
| FloatWords.DoubleFields | software/include/libc.h:125-131 | sign, exponent, mantissa and excess of a double, in numbers |
| FloatWords.OnesAndTwos | software/include/libc.h:110-131 | the words of 1 and -2 have those values |
| FloatWords.PackSingle | software/include/libc.h:116-116 | packing is the bitwise or of the shifted parts in 32 bits, for any exponent |
| FloatWords.PackDouble | software/include/libc.h:132-132 | packing adds sign and exponent in 32 bits above the mantissa, for any exponent |
| FloatRounding.NearestMantissa | software/lib/libc.c:1175-1233 | rounding the mantissa of a ratio gives the nearest of all mantissas at all exponents |
| FloatDivision.QuotientBits | software/lib/libc.c:1209-1219 | the shift-subtract loop computes the exact floor of the scaled quotient |
| FloatDivision.QuotientIsNearest | software/lib/libc.c:1203-1231 | adding one and halving never carries out of the mantissa, no half-way case arises, the packed word is strictly nearest |
| FloatDivision.Divide | software/lib/libc.c:1175-1233 | for in-range quotients of either format the result is strictly the nearest word |
| FloatDivision.DivSf3 | software/lib/libc.c:1175-1233 | __divsf3: correctly rounded, and the words returned for zero operands |
| FloatDivision.DivDf3 | software/lib/libc.c:1784-1851 | __divdf3: correctly rounded, and the words returned for zero operands |
| FloatAddition.Add | software/lib/libc.c:972-1040 | both loops terminate and the result is AddWords, on all non-zero words |
| FloatAddition.SumFits | software/lib/libc.c:982-997 | no sum of aligned operands, of any words, reaches the sign bit |
| FloatAddition.NormalizeAndRound | software/lib/libc.c:1009-1037 | the loop terminates, and below the sign bit the bit masks of either format are comparisons |
| FloatAddition.AddSf3 | software/lib/libc.c:955-1040 | __addsf3 computes AddWords, and adding the zero word gives the other word, whatever that is |
| FloatAddition.AddDf3 | software/lib/libc.c:1628-1712 | __adddf3 computes AddWords, and adding the zero word gives the other word, whatever that is |
| FloatAddition.AddCommutes | software/lib/libc.c:955-1040 | addition commutes bit for bit on all words, normal or not |
| FloatAddition.ZeroIsNeutral | software/lib/libc.c:965-970 | the zero word is neutral on either side, for all words |
| FloatAdditionError.CloseSumIsNearestEven | software/lib/libc.c:982-1037 | with exponents closer than the guard bits the sum is round-to-nearest-even |
| FloatAdditionError.FarSumIsNearest | software/lib/libc.c:975-980 | with exponents more than p + 1 apart the larger operand is the nearest word |
| FloatAdditionError.SumError | software/lib/libc.c:955-1040 | every in-range sum is within (2^(g-1) + 2) / 2^g units in the last place |
| FloatAdditionExact.RoundingIsExact | software/lib/libc.c:955-1040 | an in-range sum is round-to-nearest-even if and only if it does not end in a false tie, a condition on the operands |
| FloatAdditionExact.OrderedSumIsExact | software/lib/libc.c:982-1037 | the same for operands in order of exponent that are near enough to be aligned |
| FloatAdditionLimits.MisroundedPair | software/lib/libc.c:982-1037 | for every exponent difference from g to p + 1, an in-range pair that is misrounded, in either format |
| FloatAdditionLimits.ExponentsDecide | software/lib/libc.c:955-1040 | all sums of words d apart are round-to-nearest-even if and only if d < g or d > p + 1 |
| FloatTheorems.SingleSum | software/lib/libc.c:955-1040 | 17/32 units for every in-range sum, ties-to-even exactly when there is no false tie, so up to a difference of 5 |
| FloatTheorems.DoubleSum | software/lib/libc.c:1628-1712 | 129/256 units for every in-range sum, ties-to-even exactly when there is no false tie, so up to a difference of 8 |
| FloatTheorems.SingleExponents | software/lib/libc.c:955-1040 | all single sums d apart are correctly rounded if and only if d <= 5 or d >= 26 |
| FloatTheorems.DoubleExponents | software/lib/libc.c:1628-1712 | all double sums d apart are correctly rounded if and only if d <= 8 or d >= 55 |
| FloatShiftHelper.AddDf3 | software/lib/libc.c:1628-1712 | __adddf3 calling __ashrdi3 for its alignment shift computes HelperAddWords, on every pair of words; the zero word is neutral |
| FloatShiftHelper.HelperAgrees | software/lib/libc.c:824-846 | that sum is the plain one for exponent differences up to 31 and from 55, on all words |
| FloatShiftHelper.HelperAt32 | software/lib/libc.c:834-837 | 32 apart it is the plain one if both words of the smaller mantissa are equal, and never nearest if they differ by 4096 or more |
| FloatShiftHelper.HelperNeverNearest | software/lib/libc.c:838-843 | 33 to 54 apart no in-range sum is correctly rounded |
| FloatShiftHelper.HelperExponents | software/lib/libc.c:824-846 | all its sums d apart are correctly rounded if and only if d <= 8 or d >= 55 |
| FloatShiftHelper.HelperInDoubleSums | software/lib/libc.c:824-846 | the shifted operand: right up to 31, at 32 for equal words, off by at least 2^38 from 33 to 54 |
| FloatShiftHelper.FarOffIsNotNearest | software/lib/libc.c:1009-1037 | rounding any other sum than the aligned one, eight units or more away, never gives the nearest word, even if the exponent wraps |
| FloatTheorems.OppositesCancel | software/lib/libc.c:997-1006 | operands that cancel give the zero word |
| FloatTheorems.SixApartIsNotNearest | software/lib/libc.c:955-1040 | two words six exponents apart whose computed sum is not the nearest |
| FloatMultiplication.NoOverflow | software/lib/libc.c:1145-1148 | no partial product and no sum of them leaves the word |
| FloatMultiplication.MulSf3 | software/lib/libc.c:1123-1172 | __mulsf3 computes MulWords, and a zero operand gives the zero word |
| FloatMultiplication.MulDf3 | software/lib/libc.c:1732-1781 | __muldf3 computes MulWords, and a zero operand gives the zero word |
| FloatMultiplication.MulCommutes | software/lib/libc.c:1123-1172 | multiplication commutes bit for bit on all words |
| FloatProductError.ProductError | software/lib/libc.c:1123-1172 | every in-range product is within (2^(g-1) + 3) / 2^g units in the last place, and packs to a normal word |
| FloatProductExact.RoundingIsExact | software/lib/libc.c:1123-1172 | an in-range product is round-to-nearest-even if and only if no even half-way case is rounded up and the dropped part would not have decided otherwise, a condition on the mantissas |
| FloatProductExact.MisroundedPairs | software/lib/libc.c:1123-1172 | in each format an in-range pair for either way of going wrong |
| FloatProductError.PowerOfTwoIsExact | software/lib/libc.c:1123-1172 | a product in which either factor is a power of two is exact |
| FloatTheorems.SingleProduct | software/lib/libc.c:1123-1172 | 35/64 units for every in-range single product, and exactly when it is round-to-nearest-even |
| FloatTheorems.DoubleProduct | software/lib/libc.c:1732-1781 | 259/512 units for every in-range double product, and exactly when it is round-to-nearest-even |
| Integer.TruncationLaw | software/lib/libc.c:751-791 | the quotient and remainder used as specification are C's: dividend is quotient times divisor plus remainder, of smaller magnitude and of the dividend's sign |
| Integer.UDivMod32 | software/lib/libc.c:730-749 | __udivmodsi4: quotient and remainder exactly, and what a zero divisor gives |
| Integer.UDivMod64 | software/lib/libc.c:871-897 | __udivmoddi4: quotient and remainder exactly, nothing stored for a null address, and what a zero divisor gives |
| Integer.DividingStep | software/lib/libc.c:738-745 | one subtraction step keeps quotient times divisor plus remainder and loses no bit |
| Integer.Div32 | software/lib/libc.c:751-771 | __divsi3 truncates, but for the one quotient that overflows, which wraps |
| Integer.Mod32 | software/lib/libc.c:773-791 | __modsi3 is the truncating remainder, the least number included |
| Integer.Div64 | software/lib/libc.c:930-948 | __divdi3 truncates, but for the one quotient that overflows, which wraps |
| Integer.Mod64 | software/lib/libc.c:910-928 | __moddi3: the remainder, negated for a negative divisor; for a zero divisor the contents of a variable never set |
| Integer.Mod64IsRemainder | software/lib/libc.c:910-928 | it is C's remainder exactly when the divisor is positive or divides the dividend |
| Integer.Ashrdi3 | software/lib/libc.c:824-846 | __ashrdi3 on a processor using the low five bits of a count: the shift up to 31, the low word under the sign at 32, the shift by 32 less from 33 |
| Integer.HelperShiftIsShift | software/lib/libc.c:824-846 | it is the arithmetic shift exactly below 32, at 32 for equal words, and above when only sign bits are left |
| Integer.Mul32 | software/lib/libc.c:684-694 | __mulsi3: shift and add is the product modulo 2^32 |
| Integer.MulWide | software/lib/libc.c:696-715 | __muldsi3: the two words are the exact 64-bit product |
| Integer.AddPartials | software/lib/libc.c:701-712 | none of the partial sums wraps |
| Integer.Mul64 | software/lib/libc.c:717-728 | __muldi3: the product modulo 2^64 of signed operands |
| MergeSortSpec.MergeIsSorted | software/app/coremark/core_list_join.c:451-478 | merging two stably sorted runs, taking the left one on ties, gives a stably sorted run |
| MergeSortSpec.PassPermutes | software/app/coremark/core_list_join.c:433-484 | a pass keeps exactly the same elements |
| MergeSortSpec.PassDoublesRuns | software/app/coremark/core_list_join.c:433-496 | a pass over sorted runs of length w leaves sorted runs of length 2w |
| MergeSortSpec.SortIsStable | software/app/coremark/core_list_join.c:405-496 | the passes end with a stable sorted permutation |
| ListJoin.MergeTwo | software/app/coremark/core_list_join.c:451-478 | relinking the two runs in place produces their stable merge and leaves the rest of the list |
| ListJoin.OnePass | software/app/coremark/core_list_join.c:433-484 | a pass in place is Pass on the order of the nodes; it is the last exactly when one merge sufficed |
| ListJoin.MergeSort | software/app/coremark/core_list_join.c:426-496 | for any comparison terminates with a null-terminated list of exactly the same nodes; for a total preorder it is sorted and stable |
| ListJoin.Remove | software/app/coremark/core_list_join.c:316-327 | the next node is unlinked and the two infos are swapped |
| ListJoin.UndoRemove | software/app/coremark/core_list_join.c:345-355 | the node is linked back and the infos swapped |
| ListJoin.RemoveAndUndo | software/app/coremark/core_list_join.c:303-355 | undoing a removal restores every link and info |
| MazeSpec.ExactlyIsShortestPath | software/app/labyrinth.c:17-45 | the distance used in the specification is the length of a shortest path of open cells |
| MazeSpec.NearWithinSize | software/app/labyrinth.c:21-21 | as many sweeps as the maze has cells reach every connected cell |
| Labyrinth.Mark | software/app/labyrinth.c:17-45 | every connected cell is labelled one more than its distance, all other cells keep their value |
| Labyrinth.SweepCell | software/app/labyrinth.c:22-43 | updating in place in row order never labels a cell too early within one sweep |
| Labyrinth.DescentStep | software/app/labyrinth.c:51-78 | a step goes to a label exactly one lower, and there is one until the end is reached |
| Labyrinth.Search | software/app/labyrinth.c:47-83 | terminates; 1 exactly when the start is connected, having walked a shortest path; every step is to the first lower neighbour in the order up, down, left, right |
| Labyrinth.Solve | software/app/labyrinth.c:85-91 | flood and descent together: 1 exactly when the start is connected to the end, by the same walk |
| Sudoku.IsValid | software/app/sudoku.c:18-36 | true exactly when no cell of the row, column and box holds the number |
| Sudoku.OtherCellsOfBox | software/app/sudoku.c:21-33 | the four box cells tested last are exactly the peers outside row and column |
| Sudoku.Solve | software/app/sudoku.c:38-68 | true with the first completion of the grid, digits compared in row-major order, in place, or false with the grid restored and no completion; terminates on the cells remaining |
| Sudoku.CompletionsAreSolutions | software/app/sudoku.c:38-68 | completions are the legal solutions if the givens do not conflict; if they do there is no legal solution |
| Sudoku.SolvePuzzle | software/app/sudoku.c:38-68 | from the first cell: the first completion, a legal solution exactly when the givens do not conflict, and false means there is none |
| AesField.InvMixUndoesMix | software/app/aes_lite/aes.c:226-290 | the inverse column mixing undoes the mixing, on all words |
| AesField.InvMixDistributes | software/app/aes_lite/aes.c:277-289 | the inverse mixing is linear over exclusive or |
| AesField.PackedFormAgrees | software/app/aes_lite/aes.c:22-43 | the four-bytes-at-once macros compute the byte-wise inverse mixing, on all words |
| AesProduct.MixColumnsRow | software/app/aes_lite/aes.c:228-233 | the mixing is MixColumns of FIPS 197 section 5.1.3 |
| AesProduct.InvMixColumnsRow | software/app/aes_lite/aes.c:277-289 | the inverse mixing is InvMixColumns of FIPS 197 section 5.3.3 |
| AesStandard.ProductExamples | software/app/aes_lite/aes.c:63-68 | the products the standard gives as examples |
| AesProduct.PowersAreDistinct | software/app/aes_lite/aes.c:303-307 | the 255 tabulated powers of 3 are distinct, so no S-box entry is written twice |
| AesSBox.GenerateSBox | software/app/aes_lite/aes.c:299-321 | the tables are the S-box of FIPS 197 section 5.1.1 and its inverse |
| AesSBox.AffineBits | software/app/aes_lite/aes.c:309-316 | the transformation of an entry, bit by bit |
| AesSBox.SBoxEntries | software/app/aes_lite/aes.c:309-316 | two entries of the table: those of 0 and of 0x53 |
| AesSBox.SBoxIsUnique | software/app/aes_lite/aes.c:309-316 | that specification determines every entry |
| AesSBox.SBoxIsInjective | software/app/aes_lite/aes.c:309-320 | no two bytes share an S-box entry, which the inverse table needs |
| AesCipher.EncryptBlock | software/app/aes_lite/aes.c:199-244 | the loops in place are the cipher of FIPS 197 section 5.1, byte by byte, for any schedule and number of rounds |
| AesCipher.DecryptBlock | software/app/aes_lite/aes.c:247-297 | the loops in place, keys taken from the end, are the equivalent inverse cipher of section 5.3.5, byte by byte |
| AesCipher.EncryptionIsStandard | software/app/aes_lite/aes.c:199-244 | every state of EncryptedBlock: key addition, then per round substituted bytes from shifted columns, mixed with 2 and 3, plus the round's own key words |
| AesCipher.DecryptionIsStandard | software/app/aes_lite/aes.c:247-297 | the same of DecryptedBlock with the inverse table, shifts and coefficients |
| AesCipher.ConvertKey | software/app/aes_lite/aes.c:124-139 | every round key but the first and last is mixed backwards, no other word changes |
| AesCipher.RoundsUndone | software/app/aes_lite/aes.c:199-297 | after n decryption rounds the state is the one n rounds before the end of encryption |
| AesCipher.DecryptionUndoesEncryption | software/app/aes_lite/aes.c:124-297 | the equivalent inverse cipher under the converted schedule undoes encryption, for any schedule, rounds and block |
| AesCbc.RconIsDoubled | software/app/aes_lite/aes.c:49-53 | the round constants are successive doublings of 1 |
| AesCbc.Context.SetKey | software/app/aes_lite/aes.c:71-122 | every byte of the schedule from the key, the word before and the word one key length before, for 128 and 256 bits; an unknown mode changes nothing |
| AesCbc.ExpansionIsStandard | software/app/aes_lite/aes.c:94-119 | ScheduleWord is the key expansion of FIPS 197 section 5.2, byte by byte |
| AesCbc.Context.CbcEncrypt | software/app/aes_lite/aes.c:150-173 | each output block is the standard's cipher on the sum of its input block and the block before; the rest of the buffer is unchanged, the vector becomes the last block; in place too |
| AesCbc.Context.CbcDecrypt | software/app/aes_lite/aes.c:176-196 | each output block plus the cipher block before is the standard's inverse cipher on its input block; the vector becomes the last cipher block; in place too |
| AesCbc.CbcRoundTrip | software/app/aes_lite/aes.c:150-196 | chained decryption undoes chained encryption, for every number of blocks |
| AesCbc.EncryptThenDecrypt | software/app/aes_lite/aes.c:360-376 | the calls of main, for any key, vector, data and length of at least a block: the first buffer holds the chained cipher text of the standard, byte by byte, under its S-box and the expanded key; the second all whole blocks of the data |
| Base64Spec.RoundTrip | software/app/base64.c:26-152 | decoding an encoding gives the bytes back across line feeds and padding; for no bytes it gives null |
| Base64Spec.LetterIs | software/app/base64.c:11-12 | the alphabet, character by character |
| Base64Spec.EncodedIsBase64 | software/app/base64.c:47-75 | every group is the alphabet's characters for its four six-bit fields, the last one padded, in lines of 72 |
| Base64Spec.ValueIs | software/app/base64.c:101-104 | the decoding table: a symbol's place in the alphabet, 0 for padding, 0x80 for all else |
| Base64Spec.DecodedIs | software/app/base64.c:107-151 | the bytes of any text: three for each group before the first padded one, fewer for that one, or none |
| Base64Spec.Lines | software/app/base64.c:52-57 | line feeds stand after every 72 characters and at the end, and nowhere else |
| Base64.SizeOfEncoded | software/app/base64.c:47-75 | the exact length of the text, line feeds included |
| Base64.OverflowCheckIsExact | software/app/base64.c:34-38 | null for overflow exactly when four times the length does not fit a word; otherwise text and terminator fit the buffer |
| Base64.SizeIsTight | software/app/base64.c:34-36 | the text and its terminator fill the buffer exactly for lengths one past a multiple of 3 whose last four characters do not complete a line |
| Base64.Encode | software/app/base64.c:26-81 | null exactly on overflow or without memory; otherwise the Base64 text of the bytes by its six-bit fields, and its terminator, inside the buffer |
| Base64.DecodingGroup | software/app/base64.c:130-147 | what a full block contributes, by the number of padding characters in it |
| Base64.Decode | software/app/base64.c:94-152 | null exactly when the text decodes to nothing or without memory; otherwise the bytes its groups hold, never past count / 4 * 3 |
| Base64.EncodeThenDecode | software/app/base64.c:165-167 | the two calls of main give any non-empty text back |
| Crc.Icrc1 | software/app/malardalen/crc.c:58-70 | the loop is eight division steps on the byte added at the top |
| Crc.TableStep | software/app/malardalen/crc.c:94-102 | one table look-up replaces eight steps |
| Crc.ReversedFold | software/app/malardalen/crc.c:88-107 | reversing start, bytes and result turns the division into the one least significant bit first, polynomial 0x8408 |
| Crc.ResidueIsZero | software/app/malardalen/crc.c:119-124 | a message followed by the high and low byte of its CRC has CRC zero, from any start |
| Crc.Register.Icrc | software/app/malardalen/crc.c:72-110 | the table-driven CRC of any message equals the bitwise one, in both directions and for every start |
| Crc.StartBytes | software/app/malardalen/crc.c:86-88 | both bytes of the start are jinit's low byte, reversed for the other direction, or the start is the CRC handed in |
| Crc.ReversedBits | software/app/malardalen/crc.c:77-84 | the reversal of a byte, bit by bit |
| Crc.CheckValue | software/app/malardalen/crc.c:58-110 | the CRC of the characters 1 to 9 is 0x31C3 |
| Crc.Register.AppendAndCheck | software/app/malardalen/crc.c:113-126 | the calls of _main: the second CRC is 0, for any message |

## Left out

* Scheduler: stack switching with setjmp and longjmp, timers, printing, delays and the queries for statistics; a jump
  into a task is the end of a tick, and task bodies have no effect. `rt_del_task`, changing a task's state from
  outside, and the circular switch are not modelled. The source's list is a sequence. The wrap of `rt_time` and the
  scratch block that `rt_context_switch` allocates on every call are not modelled.
- RtScheduler.TaskList.Add: the failing allocation of the block or of the name is left out; the source then writes through a null pointer.
* Floating point: denormal, infinite, not-a-number and negative-zero words and results outside the range are excluded
  by preconditions of the accuracy lemmas; subtraction, comparison and conversion routines are not modelled.
* Integer: the 64-bit left and logical right shifts, and the wrappers that only call another routine.
* Allocator: the duplicate copies of the file.
- Allocator.Heap.Malloc: after one of the eight requests that wrap, nothing is said of the calls that follow.
- Integer.Ashrdi3: counts of 64 and more, which C does not define, are excluded.
* CoreMark: find, reverse, insert, the benchmark driver, and comparison functions with side effects.
- ListJoin.MergeSort: doubling of the run length is on unbounded numbers; the memory of the machine bounds the list first.
* Labyrinth and Sudoku: printing, and the maze and puzzle tables of the main programs.
* AES: buffers that overlap without being equal, and lengths below one block, for which the source reads outside its
  buffers.
- AesCbc.EncryptThenDecrypt: the sample vectors of main and its output are left out.
* Base64: the allocator is a parameter, not the one of `Allocator.dfy`; releasing the buffers is not modelled.
* CRC: messages longer than the 256-byte array the source reads from.
* The rest of the repository: peripherals, interrupts, boot loader, mathematics by approximation and the remaining sample
  programs.
