# A verified model of libcrunch

libcrunch checks the types and bounds of pointers in C programs while they run. This project models
three of its parts in Dafny and proves what they promise.

**Smoothsort** (`frontend/c/shadowprov/qsort.c`), the in-place `qsort` of section 7.22.5.2 of
ISO/IEC 9899:2011, is modelled with the arrays, loops and buffers of the source.

- `Leonardo`, `SiftTheory`, `ForestTheory`, `BuildTheory`, `FinalTrees`: Leonardo heaps and forests of them, on
  sequences, and which trees are left when all elements are in.
- `OrderOn`: comparison functions that are an order only on the elements they are given.
- `WordPair`, `ForestBits`: the 128-bit number in two words, and how it encodes the orders of a forest.
- `Cycle`, `Elements`: rotating disjoint blocks of bytes through a buffer; bytes as elements.
- `Qsort`: the functions of the file, down to the bytes of the array.

**The instrumentation compiler** (`crunchbound.ml`, `shadow.ml`, `ptrintarith.ml`) is modelled as functions
on syntax trees, as the source is.

- `Code`, `Split`, `SplitSim`, `SplitProof`: the pass that makes a function body into a fast top half and a
  fully checked bottom half, a small-step semantics, and the simulation between the two.
- `FallThrough`, `Returns`: which function bodies never fall off their end, and how bodies run whose returns have been
  instrumented.
- `Flatten`: nested types of pointers flattened into one array of bounds, by an index and by an enumeration.
- `Cil`, `PtrIntArith`, `SimplifyPtr`: CIL expressions, what they evaluate to, and two rewriters.

**The runtime** (`libcrunch_cil_inlines.h`, `libcrunch.c`, `shadow.c`) is modelled with the state it updates in
place, in the configuration with trap pointers, derive checks, full-width sizes and split paths.

- `PointerBounds`, `Derive`: words, bounds, trap tags, the checks, and chains of checked pointer arithmetic.
- `BoundsStack`, `CallProtocol`: the bounds stack and runs of instrumented and uninstrumented functions.
- `ByteMemory`, `ShadowSpace`, `ShadowRuns`: the shadow space against a plain map from locations to bounds.
- `LikeA`: the member-matching loops of the like-a checks.

`MachineWord` holds the C word types, `Wrappers` the option type and `Arithmetic` facts about integers. Each class or
method that updates state in place is proved against a function of the old state, and the lemmas are about that
function.

## Where the code does not do what one would expect

The model follows the code in these places. Each has a lemma that says exactly when the expected property holds,
or gives the family of inputs on which it does not.

- `pntz` counts trailing zeros except when the count is exactly 64, where it gives 0 (`WordPair.PntzIsNtz`,
  `WordPair.PntzGap64`). The bound on `nel` keeps the sort away from it.
- Nothing returns between the halves of a split body. If the original falls off its end, the split body ends with it
  exactly when a primary test has failed on the way; otherwise it goes on at the start of the bottom half and runs the
  body a second time (`SplitProof.FallsOffExact`, `SplitProof.RunsAgain`). A body whose last statement jumps away on
  all its paths, or loops without a break, never falls off (`FallThrough.NeverFallsOff`), and then the split body
  returns exactly when the original does (`SplitProof.SplitExact`). This can be read off the body before its returns
  are instrumented, which turns them into tests with a return in both branches (`Returns.ReturnsEnd`).
- The comment at `frontend/c/shadow/shadow.ml:1304-1305` asks whether the index of a pointer and its place in the
  enumeration agree. They agree exactly on the types without an array of two or more elements that each hold two or
  more pointers (`Flatten.PositionIsIndex`); otherwise they differ by the permutation `Flatten.IndexAt`.
- The decision to take result bounds compares the cookie with the callee expression as it is after the call. If an
  uninstrumented callee changes a function pointer that it was called through, the caller takes its own pushes for
  the result, one word out of step: the first base is the address it called, and the bounds of the arguments follow
  (`CallProtocol.ResultsStale`, `CallProtocol.StaleRun`).
- The initialiser pushes the bounds of argv and a cookie for `main` before anything is called
  (`src/shadow.c:312-320`), so the first call of `main` at that stack pointer sees a cookie that its caller did not
  push (`CallProtocol.CookieExact`, `CallProtocol.ClaimedOnce`). Only one bounds object is there: a `main` with an
  instrumented `envp` peeks past it, at words that nobody wrote (`CallProtocol.MainArguments`).
- The comment at `include/libcrunch_cil_inlines.h:1530-1532` says that an instrumented caller always passes its
  return address. The code passes the callee's address, and only when there are bounds to pass or return.
- Trap tags are toggled, not set. Moving a one-past pointer by zero untraps it, and without
  `LIBCRUNCH_ABORT_ON_INVALID_DERIVE` two invalid steps in a row do (`Derive.ZeroStepUntraps`,
  `Derive.InvalidTwiceUntraps`); `Derive.ChainDetraps` says exactly when a pointer has no tag.
- Sizes in the shadow space are 32 bits wide. Exactly the sizes below 2^32 - 1 and that of max-bounds come back
  unchanged (`ShadowSpace.KeptExact`).
- The comment at `include/libcrunch_cil_inlines.h:1294-1297` gives wider images of the size mapping than the
  address function has.
- `simplifyPtrExprs` turns the start of an array that a pointer points to into that pointer. The value is the same
  but the type is not, so an index added to it is scaled differently (`SimplifyPtr.StartScaled`), and operations that
  look at types can tell (`SimplifyPtr.TypeExact`).
- It sees through one `*&` at a time, so one with an offset is left when what is dereferenced simplifies to the
  address of part of another (`SimplifyPtr.DerefLeft`), as in `(&(&v)->f)->g`.
- `ptrintarith` negates and adds indices in their own type. Below pointer width the address is kept exactly when the
  result is in range, so never for a non-zero unsigned index that is subtracted (`PtrIntArith.MinusExact`,
  `PtrIntArith.MergeExact`); a nest of any depth keeps it exactly when the errors add up to a whole number of address
  spaces (`PtrIntArith.NestExact`).

## Model

| member | source | states |
|---|---|---|
| Leonardo.StrictlyMonotone | frontend/c/shadowprov/qsort.c:176 | Leonardo numbers strictly increase from order 1 on, so the table of sizes tells orders apart |
| SiftTheory.HeapMax | frontend/c/shadowprov/qsort.c:95-120 | no element of a heap-ordered tree is greater than its root |
| SiftTheory.SiftDownFrame | frontend/c/shadowprov/qsort.c:95-120 | sifting changes nothing outside the tree |
| SiftTheory.SiftDownPermutes | frontend/c/shadowprov/qsort.c:95-120 | sifting permutes the elements |
| SiftTheory.SiftDownHeap | frontend/c/shadowprov/qsort.c:95-120 | sifting makes a heap of a tree whose two subtrees are heaps, and its root is the sifted element or one that was in the tree |
| SiftTheory.SiftDownRoot | frontend/c/shadowprov/qsort.c:103-117 | the new root is x unless a child is greater, and otherwise the greater child, the left one if they are equal |
| SiftTheory.SiftDownIdle | frontend/c/shadowprov/qsort.c:95-120 | sifting moves nothing in a heap |
| ForestTheory.OrderedMax | frontend/c/shadowprov/qsort.c:159-221 | in a forest of heaps with ascending roots the last root is the greatest element |
| ForestTheory.TrinkledFrame | frontend/c/shadowprov/qsort.c:122-159 | trinkling changes nothing to the right of the head |
| ForestTheory.TrinkledWithin | frontend/c/shadowprov/qsort.c:122-159 | nothing changes but the roots of the trees walked and the last of these trees |
| ForestTheory.TrinkledLeft | frontend/c/shadowprov/qsort.c:122-159 | the trees left of where the walk stops stay as they are |
| ForestTheory.TrinkledPassed | frontend/c/shadowprov/qsort.c:122-159 | in every tree walked before the last only the root changes |
| ForestTheory.TrinkledPermutes | frontend/c/shadowprov/qsort.c:122-159 | trinkling permutes the elements |
| ForestTheory.TrinkledOrdered | frontend/c/shadowprov/qsort.c:122-159 | trinkling restores heap order and ascending roots over the whole forest to the left, given heaps and ascending roots there; the new root does not exceed an old one that was in order |
| ForestTheory.TrinkledRoot | frontend/c/shadowprov/qsort.c:134-154 | the new root is that of the tree to the left exactly if it is greater than x and, unless the tree is trusted, than both children |
| ForestTheory.TrinkledIdle | frontend/c/shadowprov/qsort.c:122-159 | trinkling moves nothing in an ordered forest |
| BuildTheory.GrownShape | frontend/c/shadowprov/qsort.c:178-201 | a step of the first loop keeps tree orders that strictly fall except for the smallest two, and Leonardo sizes that tile the prefix |
| BuildTheory.ShrunkShape | frontend/c/shadowprov/qsort.c:205-221 | so does a step of the second loop, on one element less |
| BuildTheory.BuildMerge | frontend/c/shadowprov/qsort.c:179-182 | merging the last two trees keeps every tree a heap and the roots that are never merged again ascending |
| BuildTheory.BuildTrinkle | frontend/c/shadowprov/qsort.c:184-185 | trinkling the head when its tree is never merged again orders the forest up to it |
| BuildTheory.BuildSift | frontend/c/shadowprov/qsort.c:186-188 | sifting the head otherwise keeps all trees heaps and the final roots ascending |
| BuildTheory.BuildDone | frontend/c/shadowprov/qsort.c:203 | after the last trinkle every tree is a heap and all roots ascend |
| BuildTheory.AllFinal | frontend/c/shadowprov/qsort.c:184 | once the smallest tree is never merged again, neither is any other |
| FinalTrees.FinalExact | frontend/c/shadowprov/qsort.c:184 | a tree with no adjacent one to its left is still there when all n elements are in if and only if the test of the first loop says so |
| BuildTheory.TakeOff | frontend/c/shadowprov/qsort.c:205-221 | the root taken off is no greater than what comes after it and no smaller than what is left |
| BuildTheory.StaysSorted | frontend/c/shadowprov/qsort.c:205-221 | permuting the elements before the head keeps everything after it final |
| BuildTheory.SplitLeft | frontend/c/shadowprov/qsort.c:211-215 | of the two subtrees exposed, trinkling the left one orders the forest up to it |
| BuildTheory.SplitRight | frontend/c/shadowprov/qsort.c:216-218 | and the right one can then be trinkled with trust |
| BuildTheory.OrdersBounded | frontend/c/shadowprov/qsort.c:163-176 | no tree order exceeds the last entry of the table |
| OrderOn.ExtendedTotal | frontend/c/shadowprov/qsort.c:161-162 | a total preorder on some elements extends to one on everything |
| OrderOn.TrinkledOn | frontend/c/shadowprov/qsort.c:122-159 | trinkling such elements does the same with the extended order |
| WordPair.PntzIsNtz | frontend/c/shadowprov/qsort.c:40-46 | pntz is the trailing-zero count above the lowest bit of the 128-bit number if and only if that count is not 64 |
| WordPair.PntzGap64 | frontend/c/shadowprov/qsort.c:40-46 | inputs on which the count is 64 and pntz gives 0 |
| WordPair.Shl | frontend/c/shadowprov/qsort.c:71-81 | shl multiplies the 128-bit number by a power of two, modulo 2^128, for shifts other than 0 and 64 |
| WordPair.Shr | frontend/c/shadowprov/qsort.c:83-93 | shr divides it by a power of two, for shifts other than 0 and 64 |
| ForestBits.NextTree | frontend/c/shadowprov/qsort.c:150-152 | the trailing-zero count above the lowest bit is the gap to the next tree, and the number is 1 exactly for one tree |
| ForestBits.Adjacent | frontend/c/shadowprov/qsort.c:179 | the two low bits are 3 exactly when the two smallest orders are adjacent |
| ForestBits.RootBits | frontend/c/shadowprov/qsort.c:211-214 | shifting by two, flipping the low three bits and shifting back by one encodes the forest with the last root removed and its left subtree exposed |
| ForestBits.FitsPair | frontend/c/shadowprov/qsort.c:166 | orders up to 64 fit the two words |
| Cycle.Memcpy | frontend/c/shadowprov/qsort.c:61-63 | memcpy between blocks that do not overlap |
| Cycle.Cycle | frontend/c/shadowprov/qsort.c:48-68 | n disjoint blocks of any width rotate one place through a 256-byte buffer: block i gets old block i+1, the last gets old block 0, no other byte changes |
| Elements.CycledIsRotated | frontend/c/shadowprov/qsort.c:48-68 | rotating the blocks of elements rotates the elements on the path |
| Qsort.Sift | frontend/c/shadowprov/qsort.c:95-120 | the loop and the rotation together compute sifting on the elements; all accesses to lp and ar are in range |
| Qsort.Decide | frontend/c/shadowprov/qsort.c:103-117 | the comparisons of one iteration: whether to go on, and to which child |
| Qsort.DecideStep | frontend/c/shadowprov/qsort.c:136-146 | the comparisons of one iteration of trinkle |
| Qsort.Walk | frontend/c/shadowprov/qsort.c:134-154 | the loop of trinkle walks the path along which trinkling moves elements |
| Qsort.Trinkle | frontend/c/shadowprov/qsort.c:122-159 | the loop, the rotation and the sift together compute trinkling on the elements |
| Qsort.Advance | frontend/c/shadowprov/qsort.c:150-152 | pntz and shr move to the encoding of the next tree |
| Qsort.FillLeonardo | frontend/c/shadowprov/qsort.c:175-176 | the table holds the scaled Leonardo numbers up to one that covers the array, within its 96 entries |
| Qsort.GrowStepBuilds | frontend/c/shadowprov/qsort.c:178-201 | a step of the first loop keeps its invariant |
| Qsort.Grow | frontend/c/shadowprov/qsort.c:179-200 | the body of the first loop computes that step; lp[pshift-1] is never lp[-1] |
| Qsort.ShrinkStepOrders | frontend/c/shadowprov/qsort.c:205-221 | a step of the second loop keeps every tree a heap and all roots ascending |
| Qsort.ShrinkStepPermutes | frontend/c/shadowprov/qsort.c:205-221 | and permutes elements before the head only |
| Qsort.Shrink | frontend/c/shadowprov/qsort.c:206-220 | the body of the second loop computes that step |
| Qsort.BuildLoop | frontend/c/shadowprov/qsort.c:178-201 | the first loop ends at the last element with the whole array tiled by heaps |
| Qsort.SortLoop | frontend/c/shadowprov/qsort.c:205-221 | the second loop ends with the array sorted and permuted |
| Qsort.Qsort | frontend/c/shadowprov/qsort.c:161-222 | for every width, every array and every comparator that is a total preorder on the elements in it, qsort ends with the elements ascending; for every comparator, with a permutation of them |
| SplitSim.FindGoto | frontend/c/crunchbound/crunchbound.ml:3701-3740 | in the split body a goto of the source leads to the copy of its target in the same half, and nowhere if the source has no such label |
| SplitSim.ResolvesCheck | frontend/c/crunchbound/crunchbound.ml:3645-3650 | the label that a failed check jumps to leads to the full check with the same number in the bottom half |
| SplitSim.LabelsExact | frontend/c/crunchbound/crunchbound.ml:3517-3581 | the checks of the bottom half are numbered from 0 on without a gap |
| Code.FullExact | include/libcrunch_cil_inlines.h:1190-1219 | a full check does what the primary one does and, only if that fails, what the secondary one does, whose result then counts |
| SplitProof.StepCheck | frontend/c/crunchbound/crunchbound.ml:3583-3664 | a check in the top half either passes, like the full check, or changes nothing and the full check of the bottom half runs instead |
| SplitProof.SimStep | frontend/c/crunchbound/crunchbound.ml:3755-3843 | every step of the original is matched by steps of the split body between corresponding points with equal memory and check results; the top half is left exactly when a primary test fails |
| SplitProof.SplitFollows | frontend/c/crunchbound/crunchbound.ml:3755-3843 | after any number of steps of the original the split body reaches the same program point with equal state; it is in the bottom half, one transition later, if and only if a primary test has failed on the way |
| SplitProof.SplitReturns | frontend/c/crunchbound/crunchbound.ml:3755-3843 | if the original returns, the split body returns the same result in the same state after at most one transition |
| SplitProof.SplitRunsOn | frontend/c/crunchbound/crunchbound.ml:3755-3843 | if the original runs on, so does the split body |
| SplitProof.FallsThrough | frontend/c/crunchbound/crunchbound.ml:3831-3839 | a bottom half that ends without returning ends the body; a top half goes on at the start of the bottom half |
| SplitProof.FallsOffExact | frontend/c/crunchbound/crunchbound.ml:3831-3839 | when the original falls off its end, the split body ends with the same state if and only if a primary test has failed on the way; otherwise it comes to the start of the bottom half with that state |
| SplitProof.RunsAgain | frontend/c/crunchbound/crunchbound.ml:3831-3839 | and from there runs as the original does when started again in that state |
| SplitProof.FallsOffTwice | frontend/c/crunchbound/crunchbound.ml:3831-3839 | so if that falls off too, all effects have been made twice |
| SplitProof.SplitReturnsOnly | frontend/c/crunchbound/crunchbound.ml:3755-3843 | what the split body returns, the original returns; or the original falls off its end without a failed test and returns it when started again in the state it then has |
| FallThrough.NeverFallsOff | frontend/c/crunchbound/crunchbound.ml:3831-3839 | a body whose last statement jumps away on all its paths, or loops without a break, never falls off its end, wherever its gotos, breaks and switches lead |
| Returns.ReturnsEnd | frontend/c/crunchbound/crunchbound.ml:2193-2217 | instrumenting the returns of values, each of which becomes a test with a return in both branches, keeps a body that cannot fall off its end such and makes no other body such |
| Returns.ReturnRuns | frontend/c/crunchbound/crunchbound.ml:2204-2211 | an instrumented return makes all its pushes, in order, whatever the test says, and then returns the value |
| Returns.ReturnsFollow | frontend/c/crunchbound/crunchbound.ml:2049-2217 | until the original returns, the instrumented body stands at the same point with the same state after as many steps |
| Returns.ReturnsReturn | frontend/c/crunchbound/crunchbound.ml:2049-2217 | when the original returns, the instrumented body does too, having made in addition exactly the pushes for that return, in the state of that return |
| Returns.ReturnsOnly | frontend/c/crunchbound/crunchbound.ml:2049-2217 | and it returns only if the original does |
| Returns.ReturnsSource | frontend/c/crunchbound/crunchbound.ml:2193-2217 | what instrumenting makes is code that the split pass takes |
| SplitProof.SplitExact | frontend/c/crunchbound/crunchbound.ml:3755-3843 | for a body that cannot fall off its end in this way the split body therefore returns if and only if the original does, the same result in the same state |
| SplitProof.FallsOffExample | frontend/c/crunchbound/crunchbound.ml:3831-3839 | a body of one instruction whose split form makes its effect twice |
| Flatten.IndexInRange | frontend/c/crunchbound/crunchbound.ml:372-442 | the index of every in-range pointer-yielding offset is below the number of bounds of the type |
| Flatten.IndexInjective | frontend/c/crunchbound/crunchbound.ml:372-442 | different such offsets have different indices |
| Flatten.IndexSurjective | frontend/c/crunchbound/crunchbound.ml:372-442 | every number below the count is the index of such an offset |
| Flatten.OffsetAtIndexOf | frontend/c/crunchbound/crunchbound.ml:372-442 | the inverse of the index |
| Flatten.IndexStart | frontend/c/crunchbound/crunchbound.ml:372-442 | the start expression is only added |
| Flatten.CountArray | frontend/c/crunchbound/crunchbound.ml:137-162 | the number of bounds of an array is its length times that of its element |
| Flatten.CountField | frontend/c/crunchbound/crunchbound.ml:164-254 | the numbers of bounds of the fields of a struct add up |
| Flatten.FormExact | frontend/c/crunchbound/crunchbound.ml:114-254 | whether there are no bounds, a single object or an array of them is decided by their number, but for arrays of none of something with pointers |
| Flatten.SlotIsIndex | frontend/c/crunchbound/crunchbound.ml:480-530 | the bounds object of a pointer in a local is the one at its index; with a single bounds object that index is 0, so leaving it out is right |
| Flatten.LocalSlots | frontend/c/crunchbound/crunchbound.ml:480-530 | different pointers in a local have different bounds objects, all of which exist |
| Flatten.EnumerateLength | frontend/c/crunchbound/crunchbound.ml:1721-1776 | the enumeration of a type is as long as its number of bounds, for every type |
| Flatten.EnumeratesOnce | frontend/c/crunchbound/crunchbound.ml:1721-1776 | it lists exactly the pointer-yielding offsets, each once |
| Flatten.EntryAtPosition | frontend/c/crunchbound/crunchbound.ml:1721-1776 | the position of every offset in the enumeration |
| Flatten.PositionOfEntry | frontend/c/crunchbound/crunchbound.ml:1721-1776 | and the offset at every position |
| Flatten.EntryIndex | frontend/c/crunchbound/crunchbound.ml:1736-1758 | the index of the entry at a position is a function of the position |
| Flatten.IndexAtPermutes | frontend/c/crunchbound/crunchbound.ml:1736-1758 | that function is a permutation |
| Flatten.AgreesIffAligned | frontend/c/crunchbound/crunchbound.ml:1736-1758 | the permutation is the identity if and only if no array of two or more elements, outside arrays of none, has an element with two or more pointers |
| Flatten.PositionIsIndex | frontend/c/shadow/shadow.ml:1304-1305 | so position and index of every pointer agree if and only if the type is of that kind |
| Flatten.WideExample | frontend/c/crunchbound/crunchbound.ml:1736-1758 | an array of two structs of two pointers on which they differ |
| PtrIntArith.RewriteNormal | frontend/c/ptrintarith/ptrintarith.ml:53-86 | the result has no MinusPI, no IndexPI and no PlusPI on a PlusPI, anywhere, for nests of any depth |
| PtrIntArith.RewriteTyped | frontend/c/ptrintarith/ptrintarith.ml:53-86 | the result has the same type |
| PtrIntArith.RewriteFits | frontend/c/ptrintarith/ptrintarith.ml:53-86 | the result has the same value whenever every negation and addition that the pass introduces is in a type as wide as a pointer or has a result in the range of its type, for nests of any depth |
| PtrIntArith.WideFits | frontend/c/ptrintarith/ptrintarith.ml:53-86 | which is so in every environment if all indices are as wide as a pointer |
| PtrIntArith.RewriteSame | frontend/c/ptrintarith/ptrintarith.ml:53-86 | with index types as wide as a pointer the value is therefore the same in every environment |
| PtrIntArith.MergeSame | frontend/c/ptrintarith/ptrintarith.ml:80-85 | merging two additions keeps the address if their sum is harmless in the type of the inner index |
| PtrIntArith.NegSame | frontend/c/ptrintarith/ptrintarith.ml:75-76 | adding the negated index keeps the address if the negation is harmless in its type |
| PtrIntArith.MinusExact | frontend/c/ptrintarith/ptrintarith.ml:75-76 | with a narrower index the address is kept if and only if the negated index is in range |
| PtrIntArith.MergeExact | frontend/c/ptrintarith/ptrintarith.ml:80-85 | whatever the types of the two indices, merging keeps the address if and only if their sum is in the range of the type of the inner one, unless the error is a whole number of address spaces |
| PtrIntArith.MergeOnce | frontend/c/ptrintarith/ptrintarith.ml:80-85 | for two indices of one type that error is smaller than the address space |
| PtrIntArith.NestExact | frontend/c/ptrintarith/ptrintarith.ml:53-86 | a nest of additions, subtractions and indexings of a pointer, of any depth and with any index types, keeps its address if and only if the error accumulated in the index, times the element size, is a multiple of the address space; it is the sum of the indices computed in the type of the innermost, less their true sum |
| PtrIntArith.NestRewritten | frontend/c/ptrintarith/ptrintarith.ml:53-86 | the rewritten nest is one addition to the pointer at its origin, of that computed sum |
| PtrIntArith.PartsFitKept | frontend/c/ptrintarith/ptrintarith.ml:53-86 | the indices and the pointer at the origin keep their values if what is introduced inside them is harmless, whatever is introduced in the nest itself |
| SimplifyPtr.TopSame | frontend/c/shadow/shadow.ml:79-94 | each equivalence keeps value and type |
| SimplifyPtr.SimplifyCollapsed | frontend/c/shadow/shadow.ml:52-94 | nowhere in the result a *&, &* or start of *p without an offset, nor a cast to the type of its operand, but for the offset of the start of part of *p |
| SimplifyPtr.DerefLeft | frontend/c/shadow/shadow.ml:79-86 | a *& with an offset is left exactly when what is dereferenced simplifies to the address of another one |
| SimplifyPtr.SimplifySame | frontend/c/shadow/shadow.ml:52-94 | an expression keeps its value in every memory unless a part of it gets another type where that matters, and keeps its type if and only if it is not a bare start, also under &* |
| SimplifyPtr.SimplifyKept | frontend/c/shadow/shadow.ml:52-94 | the induction behind it: the type that such an expression gets points to an array around what it pointed to before |
| SimplifyPtr.PlusExact | frontend/c/shadow/shadow.ml:52-94 | pointer arithmetic keeps its address if and only if the index times the growth of the element is a multiple of the address space, for every pointer, index and memory |
| SimplifyPtr.StartScaled | frontend/c/shadow/shadow.ml:91 | an addition to a bare start keeps its address if and only if the index times the rest of the array is a multiple of the address space |
| SimplifyPtr.StartScaledOnce | frontend/c/shadow/shadow.ml:91 | so for a product smaller than the address space if and only if the index is 0 or the array has one element |
| SimplifyPtr.PartExact | frontend/c/shadow/shadow.ml:52-94 | the address of a part of what a pointer points to is kept if and only if the part lies as far inside the type that the pointer gets |
| SimplifyPtr.TypeExact | frontend/c/shadow/shadow.ml:52-94 | a load through a pointer, a conversion or another operation that looks at types, on parts that keep their values, keeps its value in every memory if and only if no operand gets another type |
| SimplifyPtr.NestCollapses | frontend/c/shadow/shadow.ml:52-94 | a nest of *& around a variable, however deep, collapses to the variable, and & of it to its address |
| SimplifyPtr.AddressNestCollapses | frontend/c/shadow/shadow.ml:52-94 | a nest of &* around any expression, however deep, simplifies to what the expression does |
| SimplifyPtr.StarExact | frontend/c/shadow/shadow.ml:79-94 | *&lv simplifies to what lv does if and only if lv is not an offset from something that simplifies to an address |
| PointerBounds.InsideIs | include/libcrunch_cil_inlines.h:1015-1018 | the unsigned subtraction test passes exactly for the bytes from the base on, and its equality holds exactly one past the end |
| PointerBounds.BoundsMade | include/libcrunch_cil_inlines.h:740-768 | bounds made from a base and a limit allow exactly what lies between, max-bounds everything but the last byte of all, and invalid bounds, alone, nothing |
| Derive.PrimaryCheckDerivePtr | include/libcrunch_cil_inlines.h:924-1046 | the primary check passes exactly from the base to below the limit, and writes nothing |
| Derive.SecondaryCheckDerivePtr | include/libcrunch_cil_inlines.h:1077-1188 | the secondary check, which updates the derived pointer and the bounds in place |
| Derive.FullCheckDerivePtr | include/libcrunch_cil_inlines.h:1190-1219 | the full check is the primary check followed, if it fails, by the secondary |
| Derive.DetrapTagged | include/libcrunch_cil_inlines.h:637-667 | removing a tag gives back the user address, and a pointer is trapped exactly when its tag is not 0 |
| Derive.TrapTagged | include/libcrunch_cil_inlines.h:576-585 | trapping exclusive-ors the tag |
| Derive.XorBits | include/libcrunch_cil_inlines.h:576-585 | the combination of tags is exclusive or, bit by bit |
| Derive.TrapBits | include/libcrunch_cil_inlines.h:576-585 | trapping changes bits 49 and 50 of a word and no others |
| Derive.DetrapBits | include/libcrunch_cil_inlines.h:637-667 | detrapping makes bits 49 and up equal to bit 48 and changes no others |
| Derive.TaggedBits | include/libcrunch_cil_inlines.h:151-158 | a one-past pointer has bit 49 set and an invalid one bits 49 and 50 |
| Derive.AddTagged | include/libcrunch_cil_inlines.h:1077-1188 | pointer arithmetic on a trapped pointer moves the address and keeps the tag |
| Derive.TaggedOutside | include/libcrunch_cil_inlines.h:1015-1018 | a trapped pointer fails the primary test of every user object |
| Derive.PrimaryHints | include/libcrunch_cil_inlines.h:1199-1207 | when the primary check passes, the pointer derived from was not trapped and its bounds were valid, as the compiler is told |
| Derive.BoundsKept | include/libcrunch_cil_inlines.h:1109-1122 | valid bounds are kept and nothing is fetched for them; invalid ones are replaced by those fetched |
| Derive.PointerKept | include/libcrunch_cil_inlines.h:1132-1160 | a pointer that passes the primary check is left alone, and so is one inside that comes from one not trapped |
| Derive.StepExact | include/libcrunch_cil_inlines.h:1077-1219 | what a checked step makes of pointer and bounds from the base to below the limit, at the limit and elsewhere, whatever the tag and whether or not the bounds were known |
| Derive.ChainExact | include/libcrunch_cil_inlines.h:1077-1219 | over every chain of steps the address is the start plus the sum, the tag is the exclusive or of those applied since the last landing inside, and the chain aborts exactly when told to and outside both object and limit |
| Derive.ChainDetraps | include/libcrunch_cil_inlines.h:1077-1219 | removing the tag gives the start plus the sum of the steps; a pointer is untrapped if and only if it is inside or has since landed both at the limit and elsewhere an even number of times |
| Derive.AbortingExact | include/libcrunch_cil_inlines.h:1169-1178 | with non-zero steps in the aborting configuration a pointer is untrapped exactly strictly inside and has the one-past tag exactly at the limit |
| Derive.AbortingZeroSteps | include/libcrunch_cil_inlines.h:1158-1167 | with zero steps allowed, exactly after an odd number of landings at the limit in a row |
| Derive.ZeroStepUntraps | include/libcrunch_cil_inlines.h:1158-1167 | a zero step at the limit leaves an untrapped pointer there, for every object |
| Derive.InvalidTwiceUntraps | include/libcrunch_cil_inlines.h:1169-1178 | two invalid steps without aborting leave an untrapped pointer outside, for every object |
| BoundsStack.Runtime.AllocBoundsStackSpace | include/libcrunch_cil_inlines.h:1479-1485 | space for the bytes asked for, rounded up to words |
| BoundsStack.Runtime.PushLocalArgumentBounds | include/libcrunch_cil_inlines.h:1564-1583 | two words, base below size, at the new stack pointer |
| BoundsStack.Runtime.PushArgumentBoundsCookie | include/libcrunch_cil_inlines.h:1632-1644 | the callee address at the new stack pointer |
| BoundsStack.Runtime.TweakArgumentBoundsCookie | include/libcrunch_cil_inlines.h:1647-1672 | consumes a cookie that is the callee's, and says whether it was |
| BoundsStack.ConsumedBits | include/libcrunch_cil_inlines.h:1647-1672 | consuming a cookie sets its bit 47 and changes no other |
| BoundsStack.Runtime.PeekArgumentBounds | include/libcrunch_cil_inlines.h:1675-1719 | the bounds at an offset above the cookie |
| BoundsStack.Runtime.PushLocalResultBounds | include/libcrunch_cil_inlines.h:1733-1755 | result bounds, if the caller is instrumented |
| BoundsStack.Runtime.PeekResultBounds | include/libcrunch_cil_inlines.h:1810-1846 | the bounds at an offset from the stack pointer |
| BoundsStack.Runtime.CleanupBoundsStack | include/libcrunch_cil_inlines.h:1849-1856 | the saved stack pointer |
| BoundsStack.PushOrderReverses | frontend/c/crunchbound/crunchbound.ml:2824-2832 | reversing the arguments and the pointers in each pushes the pointers in the reverse of their left-to-right order over all arguments |
| BoundsStack.FlatAt | frontend/c/crunchbound/crunchbound.ml:2481-2490 | the offsets that the callee computes formal by formal count the pointers from left to right |
| BoundsStack.PeeksWhatWasPushed | frontend/c/crunchbound/crunchbound.ml:2435-2490 | for every argument list the callee peeks, at every offset of every formal, the bounds that the caller pushed for that pointer; the formals of a variadic callee are the first arguments |
| BoundsStack.PeeksResultsPushed | frontend/c/crunchbound/crunchbound.ml:2139-2191 | results pushed in reverse are peeked in order |
| CallProtocol.PassesExact | frontend/c/crunchbound/crunchbound.ml:2669-2679 | an instrumented caller pushes for a call exactly when an argument or the result has a pointer |
| CallProtocol.CallPassing | frontend/c/crunchbound/crunchbound.ml:2779-2852 | a call with bounds: an instrumented callee finds and consumes its cookie and gets exactly the bounds; an uninstrumented one leaves the cookie alone |
| CallProtocol.EnterSilent | include/libcrunch_cil_inlines.h:1646-1672 | without a push the only cookie that a function can find is the initialiser's, if it is main and nobody has claimed it |
| CallProtocol.CallSilent | frontend/c/crunchbound/crunchbound.ml:2841-2852 | so in a call without bounds no function takes what lies on the stack for its cookie, but for that first call of main |
| CallProtocol.ReturnRestores | frontend/c/crunchbound/crunchbound.ml:2932-2945 | a return leaves the stack as its caller had it |
| CallProtocol.RunKeeps | include/libcrunch_cil_inlines.h:1487-1545 | the invariant over all active calls holds after every run |
| CallProtocol.CookieExact | include/libcrunch_cil_inlines.h:1646-1672 | in every run from the stack that the initialiser leaves, an instrumented function sees a cookie if and only if its immediate caller is instrumented and this very call has a pointer in an argument or the result, or it is main called at the initial stack pointer while its cookie there was unclaimed; it then holds exactly the bounds passed, or what the initialiser left |
| CallProtocol.MainArguments | src/shadow.c:312-320 | what the initialiser left for main: the bounds of argv, and zero words for further pointers |
| CallProtocol.MainStarts | src/shadow.c:312-320 | main called by uninstrumented start-up code sees its cookie and gets the bounds of argv |
| CallProtocol.ClaimedOnce | src/shadow.c:312-320 | the initialiser's cookie is claimed at most once in every run, and its word changes only then |
| CallProtocol.Balanced | include/libcrunch_cil_inlines.h:1848-1856 | in every run, when a function runs again after a call, the stack pointer is where it was and nothing at or above it has changed, but for the word of the initialiser's cookie if main claimed it meanwhile |
| CallProtocol.ResultsExact | frontend/c/crunchbound/crunchbound.ml:2861-2880 | in every run the caller takes result bounds if and only if the callee is instrumented or the callee expression has changed, and from an instrumented callee it gets those returned |
| CallProtocol.ResultsStale | frontend/c/crunchbound/crunchbound.ml:2861-2880 | from an uninstrumented callee, when the callee expression has changed, it takes its own pushes for this call from the cookie on: the address called as the first base, then the bounds of the arguments, out of step by one word |
| CallProtocol.StaleRun | frontend/c/crunchbound/crunchbound.ml:2861-2880 | a run in which it does, for every such callee and all bounds passed |
| ByteMemory.LoadStore | include/libcrunch_cil_inlines.h:1304-1306 | what is stored in n bytes is loaded from them |
| ByteMemory.LoadMoved | src/libcrunch.c:2220-2226 | after memmove, areas overlapping or not, loads from the destination give what loads from the source gave |
| ShadowSpace.SlotsOutside | src/shadow.c:57-62 | no slot overlaps shadowed user memory |
| ShadowSpace.SlotsApart | include/libcrunch_cil_inlines.h:1250-1269 | base and size slots overlap neither each other nor those of other locations, across all ranges |
| ShadowSpace.SlotsAffine | include/libcrunch_cil_inlines.h:1250-1269 | within a range slots move with their locations, size slots at half the pace |
| ShadowSpace.SlotImages | include/libcrunch_cil_inlines.h:1250-1269 | the base slot has bits 44 to 46 of the location flipped, and the size slot is at half of it |
| ShadowSpace.SlotRanges | include/libcrunch_cil_inlines.h:1282-1299 | where the slots are for each range of locations |
| ShadowSpace.LocationsAre | src/shadow.c:57-62 | the locations that have shadow space |
| ShadowSpace.NullFetched | include/libcrunch_cil_inlines.h:1404 | the bounds fetched for a null pointer allow address 0 and no other, whatever is stored |
| ShadowSpace.AreasApart | src/libcrunch.c:2220-2226 | the shadow of a copied area is clear of the slots of all other locations |
| ShadowSpace.KeptExact | include/libcrunch_cil_inlines.h:1415-1430 | bounds go through the 32-bit size unchanged if and only if the size is below 2^32 - 1 or that of max-bounds |
| ShadowSpace.EntryStored | include/libcrunch_cil_inlines.h:1277-1307 | after a store the location has the bounds stored |
| ShadowSpace.OthersStored | include/libcrunch_cil_inlines.h:1277-1307 | and every other location those it had |
| ShadowSpace.Runtime.ShadowStoreBoundsFor | include/libcrunch_cil_inlines.h:1277-1307 | writes base and truncated size to the two slots, or invalid bounds without a type |
| ShadowSpace.Runtime.StorePointerNonlocal | include/libcrunch_cil_inlines.h:1312-1383 | finds bounds for a value that has none and stores them |
| ShadowSpace.Runtime.FetchBoundsFromShadowSpace | include/libcrunch_cil_inlines.h:1400-1444 | reads both slots, or gives null its own bounds |
| ShadowSpace.Runtime.NotifyCopy | src/libcrunch.c:2199-2230 | moves the shadow of both kinds, if the shadow space is initialised |
| ShadowRuns.CopyMoves | src/libcrunch.c:2220-2226 | every location in the destination gets the bounds its source location had before, for overlapping areas in any two ranges |
| ShadowRuns.CopyKeeps | src/libcrunch.c:2220-2226 | every location outside the destination keeps its bounds |
| ShadowRuns.RunAgrees | include/libcrunch_cil_inlines.h:1277-1444 | after every run of stores, copies and writes to shadowed memory the shadow space agrees with a plain map from locations to bounds |
| ShadowRuns.FetchesLastStored | include/libcrunch_cil_inlines.h:1312-1444 | a non-null pointer fetched from a location gets the bounds last stored with it, whatever else happened, if and only if the size is below 2^32 - 1 or that of max-bounds; without valid bounds these are the ones found for the value or, for null, those of address 0; and without a type they are invalid |
| ShadowRuns.NullRoundTrip | include/libcrunch_cil_inlines.h:1312-1444 | after every run a null stored without bounds and fetched gets the bounds stored for it, and any other pointer fetched from there is outside |
| LikeA.LikeA | src/libcrunch.c:1266-1302 | the strict loop accepts exactly what its specification does |
| LikeA.LooselyLikeA | src/libcrunch.c:1802-1868 | and the loose loop what its specification does |
| LikeA.MeetExact | src/libcrunch.c:1266-1302 | the loops accept if and only if every test member can be met in turn, each at the least place where the object may go on after the one before |
| LikeA.LikeAEmbeds | src/libcrunch.c:1266-1302 | success of the strict loop gives a strictly increasing map from test members to object members that keeps offset and type of every one that is not an array of char |
| LikeA.MeetEmbeds | src/libcrunch.c:1802-1868 | the same for the loose loop, up to loose matching |
| LikeA.StrictIsLoose | src/libcrunch.c:1802-1868 | whatever the strict loop accepts the loose loop accepts, meeting the same members |
| LikeA.PrefixExact | src/libcrunch.c:1266-1302 | without arrays of char in the test type the loops accept if and only if its members match a prefix of the object, one by one |
| LikeA.MatchesExact | src/libcrunch.c:1802-1868 | two members match strictly if they are the same, and loosely also if the test member is a pointer, n deep, to void or a char and the other a pointer at least n deep, or if they are the signed and unsigned form of one base type |
| LikeA.EveryStars | src/libcrunch.c:1616-1626 | every type is some number of pointers around one that is no pointer |
| LikeA.HasDegreeIff | src/libcrunch.c:1604-1614 | a pointer has at least a degree if and only if its degree is that or more |

## Left out

- Qsort.Qsort: requires `3 * nel * width < 2^64`, because the sum in the table would wrap, and fewer than `L(65)` elements, about 5.5e13, because a gap of 64 between trees makes `pntz` and the shifts go wrong; the comparator is a function of the two elements.
- SimplifyPtr.SimplifySame: is one-way for whole expressions, since the errors of several parts may cancel; what happens at the part itself is exact (`SimplifyPtr.PlusExact`, `SimplifyPtr.PartExact`, `SimplifyPtr.TypeExact`).
- PtrIntArith.RewriteFits: is one-way for whole expressions, since what a changed address or index does to the value depends on the expression around it; `PtrIntArith.NestExact` is exact for nests of pointer arithmetic.
- CallProtocol.Balanced: takes `main` to return no pointer, as section 5.1.2.2.1 of ISO/IEC 9899:2011 has it.
- CallProtocol.ResultsExact: states which words are peeked; peeks of several results into one local all go to the bounds of the whole lvalue (`frontend/c/crunchbound/crunchbound.ml:2882-2885`) and are not modelled.
- Flatten.IndexInRange: index and count are unbounded integers; the source computes them as C `int` and OCaml `int64`.
- LikeA.LikeA: covers the loop over members, not the cases before it (identical types, arrays, base types) nor the search for the subobject.
- Qsort: the single function of the source is cut into methods for its loops and their bodies; the order of reads and writes is the source's.
- `restructureInstrsStatement` is not part of this model; groups of instructions become statements of one block.
- Statements are values: the table of copied statements by number and the patching of jump targets are modelled by label search.
- The loops that follow pointers for their degree are recursive functions.
- Deref checks and their pairs, which are constant in the modelled configuration.
- Program state in the split proof is abstract: the effects of instructions and secondary checks are arbitrary functions.
- Machine words are integers with explicit wrap-around, and operations on their bits are arithmetic on those bits.
- Out-of-line fetches of bounds, which query another library, are parameters that give valid bounds.
- The depth of the bounds stack, longjmp, signals, threads, and helpers that return fat pointers.
- Pointers stored at addresses that are not multiples of 8, and the exact extents of the shadow mappings.
- Bounds in one word, kernel pointers, and configurations without trap pointers or without split paths.
- `getConcreteType` is not part of this model: types are concrete, and casts between equal ones are the identity.
- Padding and layout of structs in CIL expressions are arbitrary functions.
- Type queries, caches, suppressions, counters, reports, wrappers of library functions, and the build tools.
