# A verified model of the Alaska memory system

Alaska replaces pointers by handles so that a runtime can move objects. A compiler inserts the
translations from handle to address, a runtime owns the objects, and a stop-the-world barrier with
per-thread pin sets says when objects may be moved. This project models the parts of the repository
whose correctness does not show from reading one function, and proves what they promise.

| file | what it models |
|---|---|
| `Words.dfy`, `Bigint.dfy`, `Pow5.dfy`, `Quorem.dfy` | big-integer arithmetic on arrays of 32-bit words (`runtime/stub/dtoa.c`) |
| `Decimal.dfy`, `Dtoa.dfy`, `DtoaSetup.dfy` | binary-to-decimal conversion, free and fixed format, from mantissa and exponent to digit string |
| `Graphs.dfy`, `Tarjan.dfy`, `TopologicalOrder.dfy` | strongly connected components and topological order (`Graph.h`) |
| `BitMatrix.dfy` | worklist transitive closure in place on a bit vector (`BitMatrix.cpp`) |
| `Liveness.dfy`, `PinTracking.dfy` | liveness of translations and the greedy pin cells that use it |
| `OptimisticTypes.dfy` | the type order and the lattice points over it |
| `TranslationForest.dfy` | hoisting of translations, lowering of its markers, and the translation itself |
| `Common.dfy` | options, bytes and finite sets |
| `Handles.dfy`, `SizedPage.dfy`, `LocalityPage.dfy` | handle-table entries and the two kinds of page, with compaction |
| `SizeClass.dfy`, `ThreadCache.dfy` | size classes, and `halloc`, `hrealloc` and `hfree` over the sized pages |
| `Barrier.dfy` | one stop-the-world round as interleaved thread steps |
| `LiballocHeap.dfy`, `Liballoc.dfy` | the runtime's own first-fit list allocator |

Code that updates arrays, fields or lists in place is a class or a method with loops here. The state
of a class is also available as a value (`Now()`), and what the methods promise about it is stated by
functions and predicates on such values, with lemmas about those. `Value()` is the number a Bigint
denotes; `Holds`, `Stores` and `Live` say what is read through a handle or pointer.

Some places promise less than they seem to. Each has the exact condition, and an input:

* `LocalityPage::alloc` tests the free space as an unsigned difference. `LocalityPages.GuardIsRightIff`
  and `LocalityPages.RoomAfterPlacing` say when that difference is wrong and how a page gets there,
  `LocalityPages.GuardFails` has a page that does. The runtime's only caller, `localize`, always leaves
  enough room and never meets it (`LocalityPages.LocalizeKeepsRoom`).
* The pruning loop of `LocalityPage::compact` stays in the page exactly when some block is live
  (`LocalityPages.LocalityPage.Prune`; `LocalityPages.NothingToStopAt` has a page without one).
* `find_md` on a pointer inside a block may find another one (`LocalityPages.FoundIff`,
  `LocalityPages.InnerPointerMissed`). The runtime passes it the addresses of blocks.
* A handle keeps its object under an offset of 21 bits, not of the 24 that the translation adds: the
  address of the mapping takes the upper three (`TranslationForest.HoistingPreservesIff`,
  `TranslationForest.OffsetLeavesObject`). Objects behind handles are below 64 KB, so this concerns
  pointers that are out of their object.
* A pointer stored in a handle clears its pin bit. `BarrierRound.StoreKeepsPinsIff` gives the condition
  on running threads, `BarrierRound.UndisciplinedStoreLosesPin` a run where it is broken and the leader
  works on the heap while a live handle of a pin set is unpinned.
* `liballoc` keeps a region's size in 32 bits. A new region holds its block as long as the block and both
  headers stay below 4 GB (`LiballocHeap.NewRegionHoldsIff`; `Liballoc.FirstTooLarge` has a larger one, for
  which 16 pages are mapped). In the last page below that, the recorded size wraps to zero
  (`LiballocHeap.NewPageFitsIff`). The block is good all the same (`LiballocHeap.GoodBeyondRecorded`), and so
  are the differences of the counters (`LiballocHeap.GapWithinFree`), but behind the last block of such a
  region malloc then sees endless space (`LiballocHeap.SeemsIff`). `Liballoc.Allocator.Malloc` says exactly
  when a block overruns its region, `Liballoc.FragmentedOverrun` is a run that does, and
  `Liballoc.OrdinaryServed` that with smaller requests none ever does.
* When the system has no pages, mmap says MAP_FAILED and `liballoc_alloc` passes that on, so malloc does not
  see the NULL it tests for and writes through it. `Liballoc.Allocator.Malloc` and
  `Liballoc.Allocator.Realloc` say what each answer of the hook comes to: what they say about NULL is about
  the hook as documented, which this hook is not. `Liballoc.GrowInVain` has inputs for both.
* The zero that `quorem` leaves behind compares below the zero of one word (`BigintArithmetic.Cmp`).

`dafny verify dfyconfig.toml` checks the whole project.

## Model

| member | source | states |
|---|---|---|
| BigintArithmetic.MultAdd | runtime/stub/dtoa.c:1655-1705 | The result denotes b*m+a, grown by a word when the carry needs one; on the zero of no words the addend is stored but stays invisible. |
| BigintArithmetic.Cmp | runtime/stub/dtoa.c:2050-2077 | The sign of the result orders the two numbers; the only equal numbers it separates are the zeros of no words and of one. |
| BigintArithmetic.ZeroForms | runtime/stub/dtoa.c:2055-2065 | Valid numbers that are equal but differ in word count are zero, with no words and one word. |
| BigintArithmetic.Diff | runtime/stub/dtoa.c:2079-2166 | The result denotes the absolute difference, leading zero words stripped, and its sign is set exactly when a < b. |
| BigintArithmetic.Mult | runtime/stub/dtoa.c:1823-1926 | The schoolbook loops leave the exact product within the allocated words. |
| BigintArithmetic.LShift | runtime/stub/dtoa.c:1995-2048 | The result denotes b times 2^k and fits the words it was given. |
| PowersOfFive.Pow5Mult | runtime/stub/dtoa.c:1928-1993 | The result denotes b times 5^k; the cached chain keeps 5^(4*2^i) at place i, only ever grows, and is never handed out. |
| PowersOfFive.ElementIsPower | runtime/stub/dtoa.c:1946-1990 | Repeated squaring from 625 gives 5^(4*2^i). |
| PowersOfFive.RestIsPower | runtime/stub/dtoa.c:1961-1991 | Multiplying in the elements selected by the bits of the exponent gives the power, whatever place one starts from. |
| QuoremStep.Hi0bits | runtime/stub/dtoa.c:1740-1768 | The number of leading zero bits of a word, 32 for zero. |
| QuoremStep.Dshift | runtime/stub/dtoa.c:3086-3093 | Shifting by p2 plus the result leaves exactly four leading zero bits in the top word. |
| QuoremStep.NormalisedTop | runtime/stub/dtoa.c:3086-3093 | A divisor shifted that way has a top word in the range the digit estimate relies on. |
| QuoremStep.QuotientEstimate | runtime/stub/dtoa.c:3116-3117 | The quotient digit estimated from the two top words is never too large and at most one too small. |
| QuoremStep.QuotientUnique | runtime/stub/dtoa.c:3095-3212 | A quotient and remainder with remainder below the divisor are the floor and the modulus. |
| QuoremStep.Quorem | runtime/stub/dtoa.c:3095-3212 | For b < 10S and S normalised, returns the digit floor(b/S) and leaves b mod S in b, with one correction. |
| Decimal.ScaledStrip | runtime/stub/dtoa.c:6170-6172 | Dropping a trailing zero does not change the decimal. |
| Decimal.Target.OnlyNeighbours | runtime/stub/dtoa.c:6039-6042 | Of the decimals of n digits only the one cut off and the next can lie in the rounding interval, and the two comparisons of the loop decide which do. |
| Decimal.Target.StopNearest | runtime/stub/dtoa.c:6061-6106 | Keeping or raising the last digit by those comparisons gives a decimal nearest to the value among those in the interval. |
| Decimal.Target.TieAtNeighbours | runtime/stub/dtoa.c:6061-6106 | If another decimal of n digits in the interval is as near as the one chosen, they are the two neighbours and the value lies halfway between them. |
| Decimal.Target.HalfEven | runtime/stub/dtoa.c:6146-6153 | Comparing twice the remainder with S, and the digit's parity on a tie, rounds to nearest, ties to even. |
| Decimal.Target.EndPointIsShorter | runtime/stub/dtoa.c:6049-6050 | A digit nine raised exactly onto the upper end gives a decimal with fewer digits that the loop would have taken before. |
| DigitLoops.Roundoff | runtime/stub/dtoa.c:6154-6161 | The run-of-nines carry adds one in the last place, and raises the decimal exponent exactly when all digits are nines. |
| DigitLoops.StripTrailingZeros | runtime/stub/dtoa.c:6170-6172 | The decimal is unchanged and does not end in zero. |
| DigitLoops.Choose | runtime/stub/dtoa.c:6039-6106 | The comparisons with mlo and S - mhi stop the loop exactly when a neighbour is in the interval, ends included only for an even mantissa outside mode 1, and pick keep or raise; of two neighbours in the interval that are equally near, the even one. |
| DigitLoops.StopsShortest | runtime/stub/dtoa.c:6044-6106 | When the loop stops, the decimal is in the interval, no shorter one is, and none of the same length is nearer; it is even if another is as near, unless both are the closed ends of the interval. The exception is a first digit nine that would be raised onto the closed upper end, which `DtoaSetup.NoNine` excludes for dtoa. |
| DigitLoops.NoneOfThisLength | runtime/stub/dtoa.c:6110-6120 | When the loop goes on, no decimal of the length produced so far is in the interval. |
| DigitLoops.FreeDigits | runtime/stub/dtoa.c:6019-6161 | The left-right loop ends; its digits, after any carry, denote a shortest and (up to that nine) nearest decimal of the interval, an even one on a tie, or, cut at ilim digits, the decimal rounded half to even. |
| DigitLoops.FixedDigits | runtime/stub/dtoa.c:6122-6172 | The fixed loop yields the decimal of ilim digits nearest to b/S, ties to even; the exponent is raised exactly when the carry leaves the first digit. |
| DtoaSetup.ScaleExponents | runtime/stub/dtoa.c:5722-5745 | The powers of two and five put on b, S and the gap have the differences that make b/S the value times 10^-k. |
| DtoaSetup.RatioOfScaled | runtime/stub/dtoa.c:5920-5995 | Numbers scaled by those powers stand in exactly that ratio. |
| DtoaSetup.BelowTen | runtime/stub/dtoa.c:5984-5995 | When k is the decimal exponent of the value, b < 10S, as quorem demands. |
| DtoaSetup.NoNine | runtime/stub/dtoa.c:6049-6050 | A first digit nine is never raised onto the upper end: ten times S would be an odd number of half-gaps from 11 to 19, and has no such divisor. |
| DtoaSetup.NotBothEnds | runtime/stub/dtoa.c:5920-5995 | Two neighbouring decimals are never both ends of the interval: the value between them would be an odd number of half-gaps, and it is an even one. |
| DtoaSetup.ShortestDecimal | runtime/stub/dtoa.c:5722-6178 | Modes 0 and 1 from mantissa and exponent to digits and decimal point: a shortest decimal in the rounding interval, nearest among those, even if another one is as near, no trailing zeros, and a nonzero first digit when k is not too large. |
| DtoaSetup.RoundedDecimal | runtime/stub/dtoa.c:5722-6178 | Modes 2 and 3 likewise: the decimal of ilim digits nearest to the value, ties to even, first digit nonzero, with decpt raised exactly when rounding reaches the next power of ten. |
| DtoaSetup.NoDigits | runtime/stub/dtoa.c:6005-6018 | With no digit positions left, a one in the last wanted place when the value exceeds half of it, otherwise no digit and decpt -ndigits. |
| TarjanScc.PushKeepsInv | compiler/include/alaska/Graph.h:178-186 | Visiting a node keeps the invariant on indices, lowlinks, stack and finished components. |
| TarjanScc.MutualStaysInTop | compiler/include/alaska/Graph.h:198-212 | When a node's lowlink is its index, everything mutually reachable with it is above it on the stack. |
| TarjanScc.TopIsScc | compiler/include/alaska/Graph.h:198-212 | What is popped then is exactly one strongly connected component. |
| TarjanScc.PopKeepsInv | compiler/include/alaska/Graph.h:198-212 | Popping it keeps the invariant. |
| TarjanScc.Tarjan.Helper | compiler/include/alaska/Graph.h:178-214 | The recursion ends, keeps the invariant, finishes the node, and returns a lowlink that is at most the index of any stack node an edge leads to from a node above, and is itself the index of one that is reached. |
| TarjanScc.StronglyConnectedComponents | compiler/include/alaska/Graph.h:216-236 | For every finite graph the components partition the nodes, and two nodes share one exactly when each reaches the other. |
| TopologicalOrder.Sorter.Helper | compiler/include/alaska/Graph.h:116-146 | The depth-first helper fails only by finding a cycle, and otherwise appends a node after everything it leads to. |
| TopologicalOrder.ReversedIsTopological | compiler/include/alaska/Graph.h:166-171 | The reverse of a list in which every node comes after its successors is a topological order. |
| TopologicalOrder.NoCycle | compiler/include/alaska/Graph.h:149-172 | A graph with a topological order has no cycle, self-loops included. |
| TopologicalOrder.Sort | compiler/include/alaska/Graph.h:149-172 | Returns nothing exactly when the graph has a cycle; otherwise a permutation of the nodes in which every edge goes forward. |
| BitMatrices.BitMatrix.NextSuccessor | compiler/lib/noelle/BitMatrix.cpp:59-72 | The next set column of a row after a given one, or none. |
| BitMatrices.RoundDone | compiler/lib/noelle/BitMatrix.cpp:79-113 | A round on row i keeps, for every original edge, that its source is queued or its row contains the target's row. |
| BitMatrices.RowsAbsorbWalks | compiler/lib/noelle/BitMatrix.cpp:74-114 | If every original edge's row is contained that way, every walk ends in its first row. |
| BitMatrices.BitMatrix.TransitiveClosure | compiler/lib/noelle/BitMatrix.cpp:74-114 | The worklist ends with exactly the transitive closure of the relation at entry, although rows grow while being scanned. |
| TranslationLiveness.StepKeepsInv | compiler/lib/Translations.cpp:225-248 | One worklist step keeps the equations of all blocks not queued, only adds to the sets, and stays below every solution. |
| TranslationLiveness.Solve | compiler/lib/Translations.cpp:217-249 | The worklist ends, whatever block is taken, at the least solution of IN = (GEN + OUT) - KILL, OUT = union of the successors' IN. |
| TranslationLiveness.LeastIsPaths | compiler/lib/Translations.cpp:192-256 | A translation is live into a block exactly when some path from it reaches a release without a block that makes the translation. |
| PinCells.Interferences | compiler/passes/PinTracking.cpp:161-176 | The map built by the nested loops relates two tracked translations exactly when they share a live block. |
| PinCells.FirstFree | compiler/passes/PinTracking.cpp:191-197 | The first cell not taken; it is at most the number of taken cells, so the unbounded loop ends. |
| PinCells.AssignCells | compiler/passes/PinTracking.cpp:182-199 | Interfering translations get different cells, all below the number of tracked translations, each the first its predecessors left free. |
| PinCells.LiveTogetherApart | compiler/passes/PinTracking.cpp:156-205 | Two tracked translations that are live into a common block, or made or released in it, never share a pin cell. |
| PinCells.LiveAtMeans | compiler/lib/Translations.cpp:72-93 | A translation is live at an instruction of a block only if the block holds it: it is live into it, or made or released in it. |
| PinCells.LiveAtInstructionApart | compiler/lib/Translations.cpp:72-93 | Nor do two that are live at the same instruction, even if their ranges overlap only inside a block. |
| OptimisticTypes.LiftsRefl | compiler/lib/OptimisticTypes.cpp:30-81 | Every type lifts into itself. |
| OptimisticTypes.LiftsIffSteps | compiler/lib/OptimisticTypes.cpp:30-81 | One type lifts into another exactly when a sequence of steps derives it, a step being the same type, a pointer to what was derived, or a nonempty struct whose first field was derived. |
| OptimisticTypes.LiftsIsLeast | compiler/lib/OptimisticTypes.cpp:30-81 | Every relation closed under these steps contains it. |
| OptimisticTypes.LiftsInto | compiler/lib/OptimisticTypes.cpp:30-81 | Only a scalar or empty struct itself lifts into it, into a nonempty struct what lifts into its first field, into a pointer a pointer whose element lifts. |
| OptimisticTypes.LiftsAntisym | compiler/lib/OptimisticTypes.cpp:30-81 | Types that lift into each other are equal. |
| OptimisticTypes.LiftsTrans | compiler/lib/OptimisticTypes.cpp:30-81 | Lifting is transitive. |
| OptimisticTypes.DownSetsAreChains | compiler/lib/OptimisticTypes.cpp:30-81 | Of two types that lift into the same type one lifts into the other. |
| OptimisticTypes.MetIsJoin | compiler/lib/OptimisticTypes.cpp:491-548 | The value after a meet is the least upper bound in the order with bottom and top added. |
| OptimisticTypes.FirstFieldOnly | compiler/lib/OptimisticTypes.cpp:491-548 | A scalar meets a struct that starts with it to the struct, the scalar of the second field meets it to overdefined. |
| OptimisticTypes.MetCommutes | compiler/lib/OptimisticTypes.cpp:491-548 | Meeting is commutative. |
| OptimisticTypes.MetAssociates | compiler/lib/OptimisticTypes.cpp:491-548 | Meeting is associative. |
| OptimisticTypes.OrderDoesNotMatter | compiler/lib/OptimisticTypes.cpp:491-548 | A point that meets many others ends the same whatever their order and repetition. |
| OptimisticTypes.OTLatticePoint.Meet | compiler/lib/OptimisticTypes.cpp:491-548 | The point becomes the least upper bound and reports a change exactly when it rose. |
| TranslationForest.Forest.ComputeShared | compiler/lib/TranslationForest.cpp:76-83 | The links of sharing from a node form a chain; the result is the node at its end, or nothing when the node shares with none. |
| TranslationForest.Tree.OwnerEndsChain | compiler/lib/TranslationForest.cpp:76-83 | Whatever chain of sharing one follows from a node, its end is the owner. |
| TranslationForest.Tree.CallDominatesUse | compiler/lib/TranslationForest.cpp:21-34 | For every reflexive and transitive relation that holds along sharing and from a node to its children, as dominance does, the translation a node uses belongs to a node that stands so to it. |
| TranslationForest.Forest.IncomingTranslated | compiler/lib/TranslationForest.cpp:21-34 | The value handed to a node is its parent's derived one, or at the top the translation of its chain's owner. |
| TranslationForest.Forest.ApplyNode | compiler/lib/TranslationForest.cpp:509-520 | Every node of the subtree is rewritten as its path prescribes, and nodes already rewritten stay so. |
| TranslationForest.Forest.Apply | compiler/lib/TranslationForest.cpp:483-506 | Afterwards every access of every tree uses the value its path from the source prescribes, translated where the chain of its own topmost node ends. |
| TranslationForest.Closed | compiler/passes/Lower.cpp:157-171 | After lowering, that value is the translated source plus the sum of the offsets, modulo 2^64. |
| TranslationForest.HoistingPreservesIff | compiler/lib/Translations.cpp:425-448 | Hoisting uses the address that translating at the access would use, for every content of memory, exactly when the program's pointer still selects the source's mapping. |
| TranslationForest.InRangeIsSameObject | runtime/include/alaska/alaska.hpp:153-158 | For a handle that is an offset sum which neither underflows nor overflows the low 21 bits. |
| TranslationForest.OffsetLeavesObject | runtime/include/alaska/alaska.hpp:153-158 | From any handle, an offset of 2 MB, 22 bits, moves the address of the mapping by one byte, and some memory shows that the translation then differs. |
| TranslationForest.StaysPut | runtime/core/translate.cpp:77-119 | Translating commutes with adding an offset that stays within the object. |
| SizedPages.MoveSafe | runtime/core/SizedPage.cpp:182-199 | Moving an unpinned object to a free slot keeps headers and mappings in bijection, every byte read through a mapping, and all pinned addresses. |
| SizedPages.SwapSafe | runtime/core/SizedPage.cpp:250-276 | So does exchanging two unpinned objects. |
| SizedPages.FingersMet | runtime/core/SizedPage.cpp:206-217 | When the fingers meet, every free slot but the meeting one is on the list or at or above the bump index. |
| SizedPages.SizedPage.Compact | runtime/core/SizedPage.cpp:116-218 | For any pattern of free and pinned slots: same objects, pins in place, result equal to the number of objects moved, no free-list or bump slot in use, at most the meeting slot in neither. |
| SizedPages.SizedPage.Jumble | runtime/core/SizedPage.cpp:224-282 | Same objects, pins in place, allocator still in order; the result is half the number of unpinned objects, rounded down, and half the number of objects moved. |
| SizedPages.SizedPage.Extend | runtime/include/alaska/SizedAllocator.hpp:124-137 | Every slot passed by the bump index, in order, goes before the old local list. |
| SizedPages.SizedPage.AllocSlot | runtime/include/alaska/SizedAllocator.hpp:89-121 | Fails exactly when both lists are empty and the bump index is at the end, and then every free slot is one that compaction lost. Otherwise takes the first of the local list, which when empty gets the next slots above the bump index, or if there are none the remote list; no slot is lost. |
| SizedPages.TakenLosesNone | runtime/include/alaska/SizedAllocator.hpp:89-137 | After such an allocation the free slots in neither list and below the bump index are those that were so before. |
| SizedPages.SizedPage.Alloc | runtime/core/SizedPage.cpp:25-35 | Likewise; the slot was free and no slot in use changes. |
| SizedPages.SizedPage.Release | runtime/core/SizedPage.cpp:38-55 | The slot becomes the head of the local or remote list; the other list and the lost slots are as before. |
| LocalityPages.SwapSafe | runtime/core/LocalityPage.cpp:95-156 | Swapping a hole with the unpinned block behind it keeps the tiling, every object's bytes and all other table entries, overlapping memmove included. |
| LocalityPages.SwapCounts | runtime/core/LocalityPage.cpp:95-156 | It removes exactly one pair of a hole before a live block and frees no byte. |
| LocalityPages.PlaceSafe | runtime/core/LocalityPage.cpp:21-44 | A block allocated with room reads back what was copied in and touches no other block. |
| LocalityPages.GuardIsRightIff | runtime/include/alaska/LocalityPage.hpp:97-98 | The unsigned free-space test answers whether a request fits exactly while the true difference is not negative. |
| LocalityPages.RoomAfterPlacing | runtime/core/LocalityPage.cpp:21-44 | An allocation leaves it not negative exactly when it leaves 16 bytes for the next metadata. |
| LocalityPages.LocalizeKeepsRoom | runtime/core/ThreadCache.cpp:273-283 | localize leaves that room, in the page that passes its test and in one got with size + 32. |
| LocalityPages.GuardFails | runtime/include/alaska/LocalityPage.hpp:97-98 | An object that fills a new page to its metadata is accepted, and after it the test accepts any object. |
| LocalityPages.NothingToStopAt | runtime/core/LocalityPage.cpp:160-171 | One object placed and freed leaves a page with nothing for the pruning loop to stop at. |
| LocalityPages.ReleaseSafe | runtime/core/LocalityPage.cpp:47-55 | Freeing a block removes that object only and raises the freed total by its size. |
| LocalityPages.FoundIff | runtime/core/LocalityPage.cpp:58-88 | The search finds the block a pointer lies in exactly when the pointer is the block's start or the guess was a later block. |
| LocalityPages.InnerPointerMissed | runtime/core/LocalityPage.cpp:58-88 | A pointer into the first of two equal blocks finds the second. |
| LocalityPages.LocalityPage.FindMd | runtime/core/LocalityPage.cpp:58-88 | On a block's start returns that block; for other pointers, where the walk from the guess ends: a block, nothing, or metadata that is not there. |
| LocalityPages.LocalityPage.Release | runtime/core/LocalityPage.cpp:47-55 | The page becomes the one with that block a hole, and bytes_freed stays the total of the holes. |
| LocalityPages.LocalityPage.Prune | runtime/core/LocalityPage.cpp:160-171 | The loop stays in the page exactly when some block is live; then the last block is live, the bump pointer is its end, and no object changes. |
| LocalityPages.LocalityPage.Compact | runtime/core/LocalityPage.cpp:91-172 | One pass: each unpinned block with only unpinned blocks between it and a hole goes down by that hole's size, all other objects stay, and the result is the number of those that move. Same objects and pins; inversions drop by the result, which is zero exactly when nothing could move. |
| LocalityPages.DropIs | runtime/core/LocalityPage.cpp:95-155 | What a block goes down by is the size of the hole before it with only unpinned blocks from there on, and nothing when there is none. |
| LocalityPages.LocalityPage.CompactUntilStable | runtime/core/Heap.cpp:300-303 | Repeating compact ends, with no movable block right behind a hole. |
| LocalityPages.HolesBeforePinned | runtime/core/Heap.cpp:300-303 | In such a page every hole lies, with only holes between, before a pinned block. |
| LocalityPages.StableUnpinnedIsFull | runtime/core/Heap.cpp:300-303 | So without pins no byte of the used range is free. |
| SizeClasses.SmearedIsOnes | runtime/core/SizeClass.cpp:68-73 | The five shift-and-or steps set every bit below the highest. |
| SizeClasses.HashOfOnes | runtime/core/SizeClass.cpp:64-76 | The table undoes the multiplicative hash on all 32 words of ones. |
| SizeClasses.Clz32IsLeadingZeros | runtime/core/SizeClass.cpp:64-76 | mi_clz32 counts leading zeros. |
| SizeClasses.BsrIsHighestBit | runtime/core/SizeClass.cpp:80-93 | mi_bsr is 64 above the index of the highest bit. |
| SizeClasses.Octave | runtime/core/SizeClass.cpp:128-150 | The class is four times the octave plus the quarter, less four, for every 64-bit word count. |
| SizeClasses.InTableIff | runtime/core/SizeClass.cpp:107-118 | A request gets a class of the table exactly up to 524288 words. |
| SizeClasses.LeastClass | runtime/core/SizeClass.cpp:128-159 | The least class whose size holds the request, with less than a quarter of the word-rounded request as slack. |
| SizeClasses.Monotone | runtime/core/SizeClass.cpp:128-159 | Larger requests get no smaller class. |
| SizeClasses.RoundUpIdempotent | runtime/core/SizeClass.cpp:156-159 | Rounding up twice is rounding up once. |
| ThreadCaches.MovedKeeps | runtime/core/ThreadCache.cpp:103-211 | When the object of one handle is placed, moved or dropped and nothing else changes, the heap stays consistent and no other handle reads anything else. |
| ThreadCaches.CompactionKeeps | runtime/core/SizedPage.cpp:116-218 | Compacting any page changes nothing that is read through any handle. |
| ThreadCaches.ThreadCache.AllocateBackingData | runtime/core/ThreadCache.cpp:35-49 | Takes the cache's page of the right class unless there is none or it is full, and otherwise a new one that becomes the cache's page of that class; reserves a slot there with the slack of the aligned request, other slots in use untouched. |
| ThreadCaches.ThreadCache.Halloc | runtime/core/ThreadCache.cpp:103-126 | The handle reads a new object of the aligned size, zeroed if asked; all other handles read what they read; zero and huge sizes leave the heap alone. |
| ThreadCaches.ThreadCache.Hrealloc | runtime/core/ThreadCache.cpp:129-195 | The handle stays and reads an object of the new size that starts with the first min(old, new) bytes; for a huge size those bytes move and the handle is freed; other handles are unchanged. |
| ThreadCaches.ThreadCache.Hfree | runtime/core/ThreadCache.cpp:198-211 | That handle no longer reads anything and its entry is free; the others are unchanged. |
| ThreadCaches.ThreadCache.CompactPage | runtime/core/SizedPage.cpp:116-218 | Between operations, compaction changes no handle's object and no pinned entry; the result counts the objects moved. |
| ThreadCaches.ThreadCache.JumblePage | runtime/core/SizedPage.cpp:224-282 | Jumbling a page changes no handle's object and no pinned entry either; it moves two objects for each swap counted. |
| ThreadCaches.OpRefines | runtime/core/ThreadCache.cpp:103-211 | What halloc, hrealloc, hfree or compaction does to the heap by its contract is what it means on a plain map from handles to bytes: a new entry of the aligned size, an entry resized that keeps its first min(old, new) bytes, an entry removed, nothing. |
| ThreadCaches.RunRefines | runtime/core/ThreadCache.cpp:103-211 | Any run of these operations from the empty heap, compaction anywhere in between, keeps the heap in order and is matched step by step, results included, by a run on that map; at every moment the handles read what the map says. |
| BarrierRound.BarrierStep | runtime/rt/barrier.cpp:266-289 | Every step of every thread keeps the phases the barrier's generation allows and the count equal to the waiting threads. |
| BarrierRound.StoreKeepsPinsIff | runtime/include/alaska/alaska.hpp:89-94 | Storing a pointer in a handle keeps all held live handles pinned exactly when no stopping thread holds that handle. |
| BarrierRound.UndisciplinedStoreLosesPin | runtime/rt/barrier.cpp:164-172 | A run of three threads in which one stores in a handle that another has pinned, and all then stop with that live handle unpinned. |
| BarrierRound.NobodyElseRuns | runtime/rt/barrier.cpp:318-424 | In every interleaving of any number of threads, while the leader is between join and leave no other thread runs. |
| BarrierRound.StoppedWorld | runtime/rt/barrier.cpp:318-424 | In every interleaving in which no pointer is stored in a handle that a stopping thread holds, every live handle of every pin set is pinned then, too. |
| BarrierRound.PinnedStayPut | runtime/rt/barrier.cpp:266-289 | So in such an interleaving the entries of those handles are the same at any two moments of the stop, whatever is moved. |
| BarrierRound.RoundLeavesNoPins | runtime/rt/barrier.cpp:279-289 | When every thread is through, no pin bit is left. |
| BarrierRound.SomeThreadCanStep | runtime/rt/barrier.cpp:436-506 | No deadlock: until all threads are through, some thread's next step is enabled. |
| BarrierRound.RoundEnds | runtime/rt/barrier.cpp:266-506 | Every round ends: in any run the protocol steps taken and those left never exceed what was left at the start, and none is left exactly when all threads are through. |
| BarrierRound.CompactionIsAMove | runtime/core/SizedPage.cpp:175-179 | Compacting a sized page is a move the round allows. |
| BarrierRound.LocalityCompactionIsAMove | runtime/core/LocalityPage.cpp:95-104 | So is compacting a locality page. |
| LiballocHeap.AlignRoundTrip | runtime/core/liballoc.c:26-45 | UNALIGN undoes ALIGN; the stored distance and the requested bytes fit in the 32 bytes added to a request. |
| LiballocHeap.GapWithinFree | runtime/core/liballoc.c:363-400 | The 32-bit difference of a major's counters is exactly what is free in its region, and no gap exceeds it, so skipping a major on its counters misses none. |
| LiballocHeap.SeemsIff | runtime/core/liballoc.c:442-540 | A place in a major that malloc takes is a gap that fits, or the end of a region whose recorded size has wrapped around. |
| LiballocHeap.LiveBlocksApart | runtime/core/liballoc.c:286-607 | Live blocks are 16-aligned and no two share a byte. |
| LiballocHeap.NewRegionHoldsIff | runtime/core/liballoc.c:232-251 | The pages asked for hold the request they are made for exactly when the request and both headers stay below 4 GB. |
| LiballocHeap.NewPageFitsIff | runtime/core/liballoc.c:265 | The recorded size does so up to a page less; between the two limits it is zero, with 4 GB mapped. |
| LiballocHeap.GoodBeyondRecorded | runtime/core/liballoc.c:232-281 | Between the two limits the block lies in the region all the same, in a major whose size is zero and whose usage is not. |
| LiballocHeap.NotTakenBeyond | runtime/core/liballoc.c:363-400 | No major takes a request that is too large for a new region. |
| LiballocHeap.InsertKeeps | runtime/core/liballoc.c:407-560 | A minor put in a gap that fits keeps each major sorted, disjoint, in bounds and all totals exact, and adds one live block that was not live. |
| LiballocHeap.RemoveKeeps | runtime/core/liballoc.c:668-690 | Unlinking a minor keeps all that and ends one live block. |
| Liballoc.OrdinaryServed | runtime/core/liballoc.c:286-607 | If no recorded size has wrapped, a request is served exactly when some major has a gap or a new region holds it, and no block overruns its region. |
| Liballoc.FirstTooLarge | runtime/core/liballoc.c:232-281 | The first request of 4 GB less the headers gets 16 pages. |
| Liballoc.FragmentedOverrun | runtime/core/liballoc.c:478-517 | Three blocks in a region of 4 GB, the second freed: a fourth as large as all that is free is put past the region. |
| Liballoc.Allocator.FirstGap | runtime/core/liballoc.c:440-563 | The first place of the major that malloc takes, or proof that there is none. |
| Liballoc.Allocator.Malloc | runtime/core/liballoc.c:286-607 | The first major that takes the request, from the best bet on and then from the root, gets the new block at its first such place, else a new major does; a new aligned live block, all others as they were, exactly when that place is a gap or the new region holds it. Otherwise NULL, a write through MAP_FAILED, or a block past its region, as the majors and the hook's answer say. The best bet is then a major that had at least as much free as any looked at. Restarts at most once; no byte of a block changes. |
| Liballoc.Allocator.Free | runtime/core/liballoc.c:612-716 | Ends exactly that block, its minor leaving the list and an emptied major being unmapped, or counts an error and changes nothing. |
| Liballoc.Allocator.CopyBytes | runtime/core/liballoc.c:173-193 | The bytes at the destination become those at the source and no other changes. |
| Liballoc.CopyKeeps | runtime/core/liballoc.c:807-809 | Copying a block into a new one that is larger changes the bytes of no live block. |
| Liballoc.Allocator.Realloc | runtime/core/liballoc.c:736-812 | Frees, allocates, shrinks in place or moves as the arguments say; the block keeps its first min(old, new) bytes and all other blocks theirs. It copies through NULL exactly when a live block is to grow, is not served and the hook said NULL; it stops in malloc exactly when a block is needed, is not served and the hook said anything else. |
| Liballoc.GrowInVain | runtime/core/liballoc.c:807-809 | A block of one byte that is to grow when there are no pages: the copy goes through NULL, or with MAP_FAILED the new major's header does. |

## Left out

- The BF96 and floating-point fast paths of `dtoa.c`, `strtod`, `gethex`, other rounding modes, SET_INEXACT, the `Balloc` free lists and out-of-memory cases.
- DtoaSetup.ShortestDecimal: takes the decimal exponent k as given and requires it to be right (`ExponentFits`), and takes the distance i of the half-gap as given, which dtoa.c:5937-5947 makes positive; decoding the double's bits is not modelled.
- DtoaSetup.RoundedDecimal: takes k and the digit count as given likewise.
- BigintArithmetic.MultAdd: on a Bigint of no words and a nonzero addend the value is not b*m+a, because the source stores the addend without counting a word; the contract says so.
- Bcopy and Bfree of `dtoa.c`: numbers are copied word for word and never recycled.
- `condense` in `Graph.h`, the hash containers and the 32-bit index of Tarjan's algorithm, which stays below the number of nodes.
- The 32-bit overflow of row times width in `BitMatrix`.
- `extractTranslations` before the worklist (finding calls and releases in LLVM code), and everything `PinTracking` emits after the cells are chosen. Container order by address is a given order.
- `reach_fixed_point` and the visitors of `OptimisticTypes`; types are finite trees, as their constructors make them.
- How the forest is built: dominance is a given ranking of siblings, the flow graph a given tree of address computations, loads and stores; insertion points, releases and the instruction-level dataflow are not modelled. `shouldTranslate` is taken to hold of every source.
- Forest values are evaluated in one memory: that no object moves between a translation and its use is the barrier's concern. The raw word is read as an address, so a mapping whose pin bit is set by a thread that has not yet left the last round is outside the model.
- Page geometry of sized pages, slots as byte ranges (a slot is copied and poisoned as a whole), free-list counters, and the atomic exchange of the remote list. `live_objects` is never updated in the source and stays zero here, so the early return happens for empty pages only.
- SizedPages.SizedPage.Compact: the meeting slot, when free, is lost to the allocator until the next compaction; the contract says so.
- Metadata of a locality page is a list of its own; that it does not meet the data is `Room`, not a property of shared bytes. A page with no live block is not pruned further than its start, where the source reads on.
- Page search in the global heap's magazines (a full page is replaced by a new one), the page table, handle slabs (the free handle is a parameter), huge objects other than the bytes handed to them, and the two huge sources of `hrealloc`.
- Which thread owns a page is a parameter of `Hfree` and `Hrealloc`; the operations of one cache are steps, not interleaved with other threads.
- ThreadCaches.ThreadCache.Hrealloc: sizes of the heap's own bookkeeping and the bytes of the slack are not specified.
- Signals, code patching, retries, aborts, stack walking and `join_status` of the barrier; one round at a time, started with no pin bit set, each thread's pin set given and the leader's the same at begin and end.
- The prev and next pointers of majors and minors: the lists are sequences in list order.
- Headers of majors and minors as bytes of memory, the magic numbers (a pointer is accepted exactly when it is a live block's), `calloc`, the lock, and mmap, whose answer is a parameter: a region apart from all majors, NULL or MAP_FAILED.
- Liballoc.Allocator.Malloc: says when the source writes through MAP_FAILED, puts a block past its region or has the padded size of a request near 2^64 wrap around, but not what memory is like after that.
- `HTLB`, `TLB`, `AccessAutomata`, escapes, replacements, plots and benchmarks.
