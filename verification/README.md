# Verified model of the running median filter, the buildit resolver and the build graph walks

The project models, in Dafny, the parts of the repository whose correctness rests on an invariant
that no single function shows:

* **Running median** (`sandbox/running_median`). A window of samples lives in one circular array
  that holds two binary heaps around a shared root, T1 at positive positions with the smaller and T2
  at negative positions with the larger values. `push` overwrites the oldest sample wherever it has
  moved to and `balance` carries the new value along the tree, across the root if need be. `CircularArrays`
  and `DoubleHeaps` are the classes, updated in place; `DoubleHeapOrder` holds the order with one
  misplaced value on plain layouts and `DoubleHeapRuns` which swaps a series of samples leads to;
  `DoubleHeapTests` and `RunningMedianTests` are the repository's own checks of the heap, with the
  sorted-window oracle. `Ranks` and `SampleCounts` tell by counting whether the median is in the middle
  of the samples those checks collect, and `EqualSiblings` holds a series on which it is not. `Sinking`
  says where a sinking value goes, past equal neighbours in particular, and `EqualNeighbours` traces a
  series in which one does.
* **buildit resolver** (`deps/buildit/resolver.py`). Sections of options whose values refer to
  defaults, to options of the same section or to other sections are sorted topologically, then
  replaced in place. `TopologicalSorts` is the destructive sort, `ConfigValues` values and tokens,
  `Resolutions` the meaning (a recursive evaluator, and the equations a resolution satisfies),
  `Replacements` and `OpenDefaults` the same for defaults that hold references, `OptionResolvers` and
  `SectionResolvers` the two levels of resolving.
* **Graph walks with shared state**: `PostorderWalks`, `PostorderDepths`, `Postorders` and
  `PostorderCounts` (the `postorder` generator of `deps/buildit/context.py`), `Features`
  (`all_deps` and feature selection in `buildfiles/features.py`), and `LibraryGraphs`, `Libraries`,
  `InternalLibraries`, `BuildHelpers` (the library setup of `buildfiles/libs.py` with its in-progress
  flags).

`Graphs` (paths, cycles), `Sorting`, `Sequences` and `Wrappers` are shared.
`dafny verify dfyconfig.toml` checks everything.

## Main results

1. After every sample of any series, in the fill phase as well as with a full window, `median()` is
   the middle element of the sorted last `window` samples (`RunningMedianTests.AccuracyTest`, resting on
   `DoubleHeap.Push` and `DoubleHeap.Median`). `Balance` repairs any layout with one misplaced value, loses no
   sample, and makes at most 2 * floor(log2(max / 2 + 1)) swaps.
2. `Resolve` succeeds exactly when no references form a cycle, between sections or within one, and
   none is undefined, and an error names what is. Whatever the defaults, there is then only one result
   it can have, in whatever order dictionaries are read (`Replacements.ReplacementIsUnique`). If no
   default that can be referred to holds a reference, it is what the recursive evaluator gives for every
   option (`Resolutions.OptionEvaluates`) and stays the same when resolved again; for defaults without
   cycles, exactly then (`OpenDefaults.DefaultsDecideFixedPoints`).
3. `TopologicalSort` fails exactly on cyclic arcs and then reports exactly the nodes reachable from a
   cycle, each with its direct dependents. What the resolver reports are then the options or sections that
   cycles reach, each with exactly those that refer to it, once for every reference.
4. Setting up an internal library ends on every graph, cyclic or not, and succeeds exactly when
   nothing reachable is unknown or on a cycle. It then adds exactly the link names of what is reachable,
   its own one only if it is not being built itself, and leaves no flag set. The second pass, made without the flag, ends because the first one succeeded.
5. `postorder` yields a task met at depth d below the start n^d times in a row, n the number of its
   namespaces, and, without cycles, after all items of its transitive dependencies
   (`PostorderCounts.YieldCount`, `PostorderCounts.PostorderIsOrdered`).
6. The median is in the middle of the samples the accuracy test collects exactly if, of the positions its
   traversal enters, at most half hold less than the root and fewer than the other half more. How many
   are entered follows from the tree and from which siblings are equal, by a recursion of its own
   (`SampleCounts.EnteredIsCollected`, `SampleCounts.CentredIffMiddle`).

## What the code does that its documentation does not say

* `getSamples` (sandbox/running_median/DoubleHeapTest.h:122-195) visits every position once if and only
  if no two siblings hold equal values: on equal siblings SMALLER and LARGER pick the same node.
  After the samples 6, 5, 7, 5, 8, 1, 9, 2, 10 in a window of nine it returns eleven values with 5 in the
  middle, while the median is 6, and the accuracy test counts a failure
  (`EqualSiblings.EqualSiblingsMislead`). Equal siblings alone do not decide that: after 6, 5, 7, 5, 8 in a
  window of five the median is in the middle (`EqualSiblings.EqualSiblingsMayDoNoHarm`). What does is the
  count of main result 6.
* LARGER and SMALLER prefer their second argument on ties, so a value that sinks past two equal
  neighbours goes to SON or FATHER (`Sinking.SinksPastEqual`). Which way it goes shows in what the accuracy
  test counts: after 6, 3, 2, 8, 3, 4, 1, 5, 6 in a window of nine there is one failure because of it
  (`EqualNeighbours.EqualNeighboursMislead`).
* deps/buildit/README.txt:206-208 promises one execution of a task per namespace. `postorder` keeps that
  for a task exactly if it has one namespace, is the start, or is a dependency of the start to which no
  earlier dependency of the start leads around the start (`PostorderCounts.OncePerNamespace`). A task
  with two namespaces on which both the start and an earlier dependency of it depend is yielded four
  times (`PostorderCounts.SharedDependencyIsYieldedFourTimes`).
* A reference inside a default is copied, and followed only if the value itself refers to the same thing
  further on, since tokens are replaced from left to right (`OpenDefaults.WhatRemains`). Results are free of references for all sections
  exactly if every default that can be referred to is (`OpenDefaults.DefaultsDecide`); a context resolves
  its globals first, so its defaults are. If the references inside defaults form no cycle, results also
  stay the same when resolved again exactly then (`OpenDefaults.DefaultsDecideFixedPoints`). Without that
  condition they may stay the same for another reason: a default that is a reference to itself is
  replaced by itself (`OpenDefaults.SelfReferringStaysTheSame`).
* Sections are ordered as wholes, so two sections that refer to each other are rejected although no
  option depends on itself (`Resolutions.MutualSectionsAreRejected`). The failure condition of
  `Resolve` is stated on sections, as the code has it.
* The first pair that mentions a node missing from `items` creates the node and drops its arc
  (deps/buildit/resolver.py:259-262). `TopologicalSorts.RecordedCycles` shows that for the pairs the
  resolver passes this hides no cycle, and `TopologicalSorts.FirstMentionIsDropped` that nothing else is lost.
* The constructor of the double heap asserts `(window - 1) % 4 == 0`
  (sandbox/running_median/DoubleHeap.h:87). No proof needs it: the results hold for every window of at
  least one sample.
* `InternalLibrary.setup_environment` walks its dependencies a second time although the first pass has
  already added everything (buildfiles/libs.py:617-619).

## Model

| member | source | states |
|---|---|---|
| `CircularArrays.CircularArray.constructor` | sandbox/running_median/CircularArray.h:19-21 | A new buffer of the given size. |
| `CircularArrays.CircularArray.Set` | sandbox/running_median/CircularArray.h:25-30 | Writing through a signed index changes what is read there and at no index naming another slot. |
| `CircularArrays.CircularArray.SlotsAreDistinct` | sandbox/running_median/CircularArray.h:25-30 | Any `max` consecutive positions around zero are in bounds and name pairwise different slots. |
| `DoubleHeapOrder.Inward` | sandbox/running_median/DoubleHeap.h:15-21 | CHILD and PARENT lead one level towards the root and undo FATHER, MOTHER, SON and DAUGHTER, so the two trees cover all positions. |
| `DoubleHeapOrder.InwardOfOuter` | sandbox/running_median/DoubleHeap.h:15-21 | Both outer neighbours of a position lead back to it. |
| `DoubleHeapOrder.SwapInward` | sandbox/running_median/DoubleHeap.h:57-68 | Moving the one misplaced value a step towards the root leaves only the new position misplaced. |
| `DoubleHeapOrder.OutwardT1ComesFirst` | sandbox/running_median/DoubleHeap.h:23-26 | The T1 neighbour NEXTT1 selects is exceeded by no other outer T1 neighbour, or there is none. |
| `DoubleHeapOrder.OutwardT2ComesFirst` | sandbox/running_median/DoubleHeap.h:23-27 | The T2 neighbour NEXTT2 selects exceeds no other outer T2 neighbour, or there is none. |
| `DoubleHeapOrder.SwapOutward` | sandbox/running_median/DoubleHeap.h:69-80 | Moving it outward, past the neighbour NEXTT1 or NEXTT2 selects, leaves only the new position misplaced and repairs the edge to the old one, also when it crosses the root. |
| `DoubleHeapOrder.NoHoleLeft` | sandbox/running_median/DoubleHeap.h:56-81 | When the edges around the misplaced position hold after all, the whole double heap is in order. |
| `DoubleHeapOrder.OverwriteMakesHole` | sandbox/running_median/DoubleHeap.h:103-108 | Overwriting a sample of an ordered heap misplaces at most that one value. |
| `DoubleHeapOrder.AppendMakesHole` | sandbox/running_median/DoubleHeap.h:95-108 | So does filling a new outermost position. |
| `DoubleHeapOrder.RootSeparates` | sandbox/running_median/DoubleHeap.h:111-113 | In an ordered heap every T1 value is at most and every T2 value at least the root's. |
| `DoubleHeapOrder.DepthIsLogarithmic` | sandbox/running_median/DoubleHeap.h:15-21 | The number of steps from a position to the root is the floor of a base-2 logarithm. |
| `DoubleHeapRuns.BalancedInPlace` | sandbox/running_median/DoubleHeap.h:56-81 | A layout already in order is left as it is. |
| `Sinking.FarOnlyIfFirst` | sandbox/running_median/DoubleHeap.h:23-27 | NEXTT1 selects DAUGHTER exactly if it holds strictly more than SON, NEXTT2 MOTHER exactly if it holds strictly less than FATHER; else the near neighbour, on ties too. |
| `Sinking.SinkingMovesOneIn` | sandbox/running_median/DoubleHeap.h:69-80 | A value that has to sink moves the selected neighbour inward by one and leaves everything outside that neighbour's tree where it was. |
| `Sinking.SinksPastEqual` | sandbox/running_median/DoubleHeap.h:69-80 | Past two equal neighbours, in either tree, a value sinks on the near side: the near one moves in, the far one and its tree stay. |
| `DoubleHeapRuns.FillsInPlace` | sandbox/running_median/DoubleHeap.h:88-108 | While the window fills, samples that are in order where the schedule puts them stay there. |
| `DoubleHeapRuns.FirstRound` | sandbox/running_median/DoubleHeap.h:105-107 | In the first round, the n-th sample takes the n-th insertion slot. |
| `DoubleHeaps.SwapKeepsIndex` | sandbox/running_median/DoubleHeap.h:47-55 | Exchanging two nodes with their insertion order entries keeps both maps inverse to each other and every sample in its insertion slot. |
| `DoubleHeaps.BalancingStep` | sandbox/running_median/DoubleHeap.h:56-81 | One iteration of any loop of `balance` keeps shape, index, samples and unused schedule, and at most one misplaced value. |
| `DoubleHeaps.RowIsPermutation` | sandbox/running_median/DoubleHeap.h:44-55 | The data at the filled positions are, with multiplicity, the samples of the filled insertion slots. |
| `DoubleHeaps.RootIsMedian` | sandbox/running_median/DoubleHeap.h:111-113 | With as many values above the root as below it, or one more above, the root holds element size/2 of the sorted contents. |
| `DoubleHeaps.UnrolledAfterAppend` | sandbox/running_median/DoubleHeap.h:94-107 | While the window fills, a new insertion slot makes its sample the youngest of the window. |
| `DoubleHeaps.UnrolledAfterOverwrite` | sandbox/running_median/DoubleHeap.h:94-107 | In a full window, reusing the next slot drops the oldest sample and adds the new one as the youngest. |
| `DoubleHeaps.DoubleHeap.constructor` | sandbox/running_median/DoubleHeap.h:83-90 | A new heap satisfies the whole invariant, schedule of positions included, and its window is empty. |
| `DoubleHeaps.DoubleHeap.DistinctSlots` | sandbox/running_median/DoubleHeap.h:44-46 | Different filled positions are different slots of the circular array. |
| `DoubleHeaps.DoubleHeap.Swap` | sandbox/running_median/DoubleHeap.h:47-55 | Exchanges two nodes and their insertion order entries, nothing else, and moves the caller's index along. |
| `DoubleHeaps.DoubleHeap.T1IsFirstOutward` | sandbox/running_median/DoubleHeap.h:23-26 | NEXTT1 yields an existing neighbour that no other outer T1 neighbour exceeds, or there is none to compare with. |
| `DoubleHeaps.DoubleHeap.T2IsFirstOutward` | sandbox/running_median/DoubleHeap.h:23-27 | NEXTT2 yields an existing neighbour no larger than any other outer T2 neighbour, or there is none to compare with. |
| `DoubleHeaps.DoubleHeap.MoveInward` | sandbox/running_median/DoubleHeap.h:57-68 | The first two loops end with the edge towards the root in order, in at most as many swaps as levels climbed. |
| `DoubleHeaps.DoubleHeap.MoveOutward` | sandbox/running_median/DoubleHeap.h:69-80 | The last two loops, crossing the root included, end with all edges around the value in order, in at most as many swaps as the final depth. |
| `DoubleHeaps.DoubleHeap.Balance` | sandbox/running_median/DoubleHeap.h:56-81 | From any layout with one misplaced value: heap order everywhere, index still inverse, every sample still in its insertion slot, unused schedule untouched, exactly the layout that rising and then sinking the value gives, at most 2 * floor(log2(max/2+1)) swaps. |
| `DoubleHeaps.DoubleHeap.NextScheduled` | sandbox/running_median/DoubleHeap.h:88-102 | While the window fills, the scheduled position is the next one outward on its side, so the filled range stays contiguous and balanced. |
| `DoubleHeaps.DoubleHeap.MakeRoom` | sandbox/running_median/DoubleHeap.h:96-102 | Extends the filled range by exactly the scheduled position. |
| `DoubleHeaps.DoubleHeap.Write` | sandbox/running_median/DoubleHeap.h:95-107 | Before balancing, the window already is the old one with the new sample appended and the oldest dropped if full, and at most the written position is misplaced. |
| `DoubleHeaps.DoubleHeap.NextPlace` | sandbox/running_median/DoubleHeap.h:95 | The insertion order names the position of the sample whose turn it is, or the scheduled one. |
| `DoubleHeaps.DoubleHeap.Settle` | sandbox/running_median/DoubleHeap.h:108 | Balancing after a write restores the invariant and keeps the window. |
| `DoubleHeaps.DoubleHeap.Push` | sandbox/running_median/DoubleHeap.h:94-110 | Keeps the invariant; the window becomes the last `max` of the old window followed by the new sample; the layout and whose turn is next are the ones the old layout determines. |
| `DoubleHeaps.DoubleHeap.WindowIsRow` | sandbox/running_median/DoubleHeap.h:94-110 | Window conservation: the data at the filled positions are exactly the window, with multiplicity. |
| `DoubleHeaps.DoubleHeap.Median` | sandbox/running_median/DoubleHeap.h:111-113 | With at least one sample, the result is element size/2 of the sorted window, read at the root. |
| `DoubleHeapTests.ValidatesIffOrderedUnder` | sandbox/running_median/DoubleHeapTest.h:53-86 | `validate` from a position passes exactly when every edge further out holds. |
| `DoubleHeapTests.ValidatesIffHeapOrdered` | sandbox/running_median/DoubleHeapTest.h:53-86 | `validate(0)` passes exactly on ordered double heaps. |
| `DoubleHeapTests.OnceIffSiblingsDiffer` | sandbox/running_median/DoubleHeapTest.h:125-183 | `getSamples` visits every position of a tree exactly once if and only if no two siblings in it hold equal data. |
| `DoubleHeapTests.SamplesFromRoot` | sandbox/running_median/DoubleHeapTest.h:125-195 | If siblings differ, `samples()` is a permutation of the contents with the root's value at size/2. |
| `DoubleHeapTests.DistinctSiblings` | sandbox/running_median/DoubleHeapTest.h:125-195 | Pairwise distinct samples suffice for that. |
| `EqualSiblings.EqualSiblingsMislead` | sandbox/running_median/DoubleHeapTest.h:125-195 | Nine pushes into a window of nine, two of them of equal samples, after which the layout is not centred: the traversal returns eleven values whose middle, sorted, is 5 while the median is 6, and the accuracy test counts one failure. |
| `EqualSiblings.EqualSiblingsMayDoNoHarm` | sandbox/running_median/DoubleHeapTest.h:125-195 | Five pushes into a window of five, after which two siblings are equal, but the layout is centred and no failure is counted. |
| `EqualNeighbours.EqualNeighboursMislead` | sandbox/running_median/DoubleHeap.h:56-81 | The nine pushes 6, 3, 2, 8, 3, 4, 1, 5, 6 into a window of nine, in which a value sinks past two equal neighbours: they end up as equal siblings, the traversal returns eleven values whose middle is not the median 4, and one failure is counted. |
| `SampleCounts.EnteredIsCollected` | sandbox/running_median/DoubleHeapTest.h:125-183 | The number of samples the traversal from a position collects, in all or leaving out given values, follows from the tree and the equality of siblings alone: the near subtree twice where siblings are equal, both once elsewhere. |
| `Ranks.MiddleByCounting` | sandbox/running_median/RunningMedianTest.cpp:61-104 | A value is in the middle of the sorted samples exactly if at most half of them lie below it and fewer than the other half above it. |
| `SampleCounts.CentredIffMiddle` | sandbox/running_median/DoubleHeapTest.h:125-195 | In an ordered double heap the middle of the collected samples is the value of the root if and only if, of the positions entered, at most half hold less than the root and fewer than the other half more. |
| `SampleCounts.CentredWithoutTies` | sandbox/running_median/DoubleHeapTest.h:125-195 | If no other sample equals the root, that is the case if and only if as many positions are entered in T1 as in T2, or one more. |
| `DoubleHeapTests.DoubleHeapTest.constructor` | sandbox/running_median/DoubleHeapTest.h:91-95 | A test object holds an empty heap. |
| `DoubleHeapTests.DoubleHeapTest.Validate` | sandbox/running_median/DoubleHeapTest.h:53-86 | The recursion on the heap's array gives the verdict of the specification. |
| `DoubleHeapTests.DoubleHeapTest.GetSamples` | sandbox/running_median/DoubleHeapTest.h:124-183 | Appends to the shared vector the data at the positions of the traversal, in its order. |
| `DoubleHeapTests.DoubleHeapTest.Samples` | sandbox/running_median/DoubleHeapTest.h:188-195 | Returns a fresh vector with the traversal from the root. |
| `RunningMedianTests.LastOfPrefix` | sandbox/running_median/RunningMedianTest.cpp:68-99 | Keeping the last w of a window one sample at a time is taking the last w of the whole series. |
| `RunningMedianTests.Compare` | sandbox/running_median/RunningMedianTest.cpp:82-98 | Root and sorted window agree always; the comparison fails exactly if the layout is not centred, which never happens on distinct samples. |
| `RunningMedianTests.AccuracyTest` | sandbox/running_median/RunningMedianTest.cpp:61-104 | After each sample of any series, the median is that of the last `window` samples; the count of failures is exactly the number of full windows whose layout is not centred, zero if the windows hold distinct samples. |
| `TopologicalSorts.BuildGraph` | deps/buildit/resolver.py:238-266 | The graph holds the recorded nodes, each with its in-degree, multiplicity counted, and its successors in recording order. |
| `TopologicalSorts.RecordedItems` | deps/buildit/resolver.py:248-264 | All items become nodes and every pair between two items becomes an arc. |
| `TopologicalSorts.FirstMentionIsDropped` | deps/buildit/resolver.py:251-264 | Of the pairs that start at a missing name only the first mention is dropped; all later ones become arcs in their order. |
| `TopologicalSorts.RecordedNodes` | deps/buildit/resolver.py:251-264 | When second components are items, the faked-up nodes are the missing first components. |
| `TopologicalSorts.RecordedCycles` | deps/buildit/resolver.py:251-264 | Dropping the arc of the first mention of a missing node hides no cycle. |
| `TopologicalSorts.RecordedBehindCycles` | deps/buildit/resolver.py:251-264 | Nor does it change which nodes are reachable from a cycle. |
| `TopologicalSorts.InDegreeIsZero` | deps/buildit/resolver.py:268 | A counter is zero exactly when no node still in the graph has an arc to the node. |
| `TopologicalSorts.InitialRoots` | deps/buildit/resolver.py:268 | Lists, once each and in any order, the nodes with counter zero. |
| `TopologicalSorts.ChildIsHeld` | deps/buildit/resolver.py:275-276 | A child about to be decremented has a counter of at least one, also for repeated arcs. |
| `TopologicalSorts.Release` | deps/buildit/resolver.py:275-278 | One decrement keeps every counter equal to the number of arcs still to go, and roots exact. |
| `TopologicalSorts.FinishReleasing` | deps/buildit/resolver.py:272-279 | One round of the main loop keeps counters, roots and order. |
| `TopologicalSorts.ReachedComesLater` | deps/buildit/resolver.py:272-288 | A listed node comes after every other node it can be reached from, along any number of arcs. |
| `TopologicalSorts.LeftoverIsBehindCycles` | deps/buildit/resolver.py:281-286 | When no roots are left, the nodes left are exactly those reachable from a cycle. |
| `TopologicalSorts.TopologicalSort` | deps/buildit/resolver.py:223-288 | Sorts exactly if the recorded arcs are acyclic, then lists every node once with every arc leading forward; else reports exactly the nodes reachable from a cycle with their successors. |
| `TopologicalSorts.CyclesReported` | deps/buildit/resolver.py:281-286 | A cyclic error names exactly what cycles of known pairs reach, and lists with each exactly what depends on it directly, as often as there are pairs. |
| `Graphs.PredecessorsLeadToCycle` | deps/buildit/resolver.py:281-286 | If every node left has a predecessor left, each is reachable from a cycle. |
| `Graphs.BehindCycleIsClosed` | deps/buildit/resolver.py:281-286 | The reported nodes are closed under successors. |
| `Graphs.BehindCycleHasPredecessor` | deps/buildit/resolver.py:281-286 | Every reported node has a reported predecessor. |
| `ConfigValues.InterpretReadsBack` | deps/buildit/resolver.py:216-221 | Every reference that can be written is read back: the first slash separates namespace and name, `.` is local, no slash is a default. |
| `ConfigValues.TokenFinds` | deps/buildit/resolver.py:195-214 | Each way to write a reference is looked up in its own place and nowhere else: a default, the own section, the named section. |
| `ConfigValues.ReplaceEachIsExpansion` | deps/buildit/resolver.py:195-214 | If what the tokens stand for holds no references, replacing token by token is replacing all tokens at once. |
| `ConfigValues.ReplaceEachSameLookups` | deps/buildit/resolver.py:195-214 | The replaced value depends on nothing but what the tokens are looked up as. |
| `ConfigValues.ReplacedIsExpanded` | deps/buildit/resolver.py:195-214 | Then a resolved value is the simultaneous expansion of the original and holds no reference. |
| `Resolutions.DeeperIsSame` | deps/buildit/resolver.py:181-214 | Once the evaluator has a result, following references deeper does not change it. |
| `Resolutions.ReferenceIsEarlier` | deps/buildit/resolver.py:69-78 | In a resolvable configuration every reference is to something strictly nearer to the start of the dependency order. |
| `Resolutions.OptionEvaluates` | deps/buildit/resolver.py:49-82 | Every option of a resolution has exactly the value the recursive evaluator gives for the original sections. |
| `Resolutions.ResolutionIsUnique` | deps/buildit/resolver.py:49-82 | There is only one resolution. |
| `Resolutions.ResolutionIsFixed` | deps/buildit/resolver.py:49-82 | A resolution is resolvable and its own resolution. |
| `Resolutions.MutualSectionsAreRejected` | deps/buildit/resolver.py:84-101 | Two sections that refer to each other without any option depending on itself are not resolvable, although the evaluator gives both references a value. |
| `Replacements.ReplacementIsUnique` | deps/buildit/resolver.py:71-82 | Whatever the defaults hold, there is only one way for every value to be its original with each token replaced by what it stands for in the result. |
| `Replacements.ReplacedIsResolution` | deps/buildit/resolver.py:71-82 | With every referable default free of references, that one is the resolution. |
| `Replacements.ReplacementIsClosed` | deps/buildit/resolver.py:195-214 | With every referable default free of references, so is every value of the result. |
| `OpenDefaults.DefaultsDecide` | deps/buildit/resolver.py:197-214 | Results are free of references for all sections if and only if every default that can be referred to is. |
| `OpenDefaults.OpenDefaultIsLeft` | deps/buildit/resolver.py:197-214 | With a reference in a default, a resolved section can hold a reference, and resolving it again changes it. |
| `OpenDefaults.WhatRemains` | deps/buildit/resolver.py:195-214 | Tokens are replaced from left to right: a token in the result was brought in by one of the tokens and is none of those replaced after it; one brought in by the first mention of a token, and not replaced after it, is in the result. Without repeated tokens that is an equivalence. |
| `OpenDefaults.DefaultsDecideFixedPoints` | deps/buildit/resolver.py:197-214 | If the references inside defaults form no cycle: every result stays the same when resolved again, for all sections, if and only if every default that can be referred to is free of references. |
| `OpenDefaults.SelfReferringStaysTheSame` | deps/buildit/resolver.py:197-214 | With a default that is a reference to itself, every result stays the same although that default holds a reference. |
| `OptionResolvers.FindTokens` | deps/buildit/resolver.py:187-190 | The tokens of a value, in order. |
| `OptionResolvers.ResolveValue` | deps/buildit/resolver.py:181-214 | Succeeds exactly if every token of the value is defined, with the tokens replaced one after the other; else the error names the first undefined one and the original value. |
| `OptionResolvers.CollectFromOption` | deps/buildit/resolver.py:162-177 | One option adds exactly its local references to the pairs, one pair for each, and to the index. |
| `OptionResolvers.CollectLocalReferences` | deps/buildit/resolver.py:157-177 | The pairs are exactly the local references, with multiplicity; the index lists, for exactly the names referred to, options that refer to them with their values. |
| `OptionResolvers.OptionResolutionOrder` | deps/buildit/resolver.py:157-179 | Fails exactly on a cycle of local references, listing with each option cycles reach exactly the options that refer to it, once for each reference; else every option comes after the local options it refers to, and every listed name that is no option is in the index. |
| `OptionResolvers.OptionDone` | deps/buildit/resolver.py:136-153 | Resolving the next option in order keeps all options done so far equal to their originals with the tokens replaced by what they stood for in their turn. |
| `OptionResolvers.MissingOption` | deps/buildit/resolver.py:141-147 | For a faked-up name the index lookup succeeds, and the error names a local reference that is undefined. |
| `OptionResolvers.ResolveOptions` | deps/buildit/resolver.py:103-155 | Three outcomes: a cyclic error if and only if the local references have a cycle, naming what is reachable from it and with each exactly the options that refer to it, once for each reference; otherwise a missing error if and only if some reference is undefined, naming the first undefined one of an option or a local name that is missing; otherwise there is an order of the options, local references first, in which every option is its original with the tokens replaced by what they stand for when those before it are resolved and the others are not. An unknown section is a key error. |
| `OptionResolvers.OverridesWin` | deps/buildit/resolver.py:123-128 | Overrides win over what the section holds and touch no other section. |
| `OptionResolvers.InTurnIsForGood` | deps/buildit/resolver.py:136-153 | In a section that does not refer to itself by its own name, what a token stands for in turn is what it stands for in the end. |
| `SectionResolvers.CollectSectionReferences` | deps/buildit/resolver.py:84-99 | The pairs are exactly the references to other namespaces, with multiplicity, whatever order the dictionaries are read in. |
| `SectionResolvers.SectionResolutionOrder` | deps/buildit/resolver.py:84-101 | Fails exactly on a cycle of sections, listing with each section cycles reach exactly the sections that refer to it, once for each reference; else every section comes after the sections it refers to. |
| `SectionResolvers.SectionIsReady` | deps/buildit/resolver.py:73-80 | When a section comes up, every section it refers to is another one and resolved already. |
| `SectionResolvers.SectionDone` | deps/buildit/resolver.py:73-80 | Storing a resolved section keeps all sections resolved so far resolved. |
| `SectionResolvers.SectionFails` | deps/buildit/resolver.py:73-80 | If a section fails, the original configuration was not resolvable, and the error is right about the original sections: a cycle of local references of that section with everything behind it, an undefined reference, or a section that is referred to and not there. |
| `SectionResolvers.ResolveSections` | deps/buildit/resolver.py:69-82 | Succeeds exactly on resolvable configurations; every value is then its original with the tokens replaced by what they stand for in the result, for any defaults. The section-level cyclic error arises exactly on a cycle of sections and names what is reachable from it, each with exactly the sections that refer to it, once for each reference; a cyclic error of a section the same of its local references; a missing error names an undefined reference of the original sections with its option and original value, a key error a missing section that is referred to. |
| `SectionResolvers.ApplyOverrides` | deps/buildit/resolver.py:62-67 | Overrides of known sections are written into the caller's dictionaries, shared ones included, others ignored: an option holds one of the overrides given for its dictionary if there are any, and else what it held. |
| `SectionResolvers.Resolve` | deps/buildit/resolver.py:49-82 | Succeeds exactly if, overrides applied, nothing is cyclic or undefined; each value is then its original with the tokens replaced by what they stand for in the result, and if no default that can be referred to holds a reference, this is the resolution. Otherwise the error is right about the sections with their overrides, as for `ResolveSections`. |
| `SectionResolvers.ResolveAgain` | deps/buildit/resolver.py:49-82 | Two runs agree whatever orders they iterate dictionaries in and whatever the defaults; if every default that can be referred to is free of references, resolving a result changes nothing. |
| `PostorderWalks.WalkAddsWhatItMeets` | deps/buildit/context.py:240-254 | A visit meets exactly the tasks it adds to `seen`, each once. |
| `PostorderWalks.WalkFollowsChains` | deps/buildit/context.py:240-254 | A task met at depth n hangs on a chain of n dependencies from where the visit started. |
| `PostorderWalks.WalkMeetsReachable` | deps/buildit/context.py:240-254 | From an empty `seen`, exactly the reachable tasks are met, each once, on cyclic graphs too. |
| `PostorderWalks.WalkIsPostorder` | deps/buildit/context.py:240-254 | Without cycles, each task is met when all its dependencies have been met. |
| `PostorderWalks.DependenciesComeFirst` | deps/buildit/context.py:235-260 | Without cycles, each task comes after everything it transitively depends on. |
| `PostorderDepths.SeenIsReachedAround` | deps/buildit/context.py:240-251 | After a loop over children, exactly what was seen before and what the children reach around it has been seen. |
| `PostorderDepths.DirectlyIsDepthOne` | deps/buildit/context.py:243-251 | A task is met at depth 1 exactly if it is a child that the visits of the earlier children have not seen. |
| `Postorders.RunsDeeper` | deps/buildit/context.py:247-251 | Passing what a child yields through one more level makes the runs of its tasks those of one level deeper. |
| `Postorders.RunLength` | deps/buildit/context.py:247-251 | A task at depth d is yielded n^d times in a row, n the number of its namespaces, in all its namespaces. |
| `Postorders.RunInTurn` | deps/buildit/context.py:247-251 | Such a run goes through the namespaces in the order getNamespaces lists them, again and again. |
| `Postorders.StartInTurn` | deps/buildit/context.py:256-260 | The start comes last, once in each of its namespaces in that order. |
| `PostorderCounts.YieldCount` | deps/buildit/context.py:235-260 | A task met at depth d below the start is yielded exactly n^d times in all, n the number of its namespaces. |
| `PostorderCounts.OncePerNamespace` | deps/buildit/README.txt:206-208 | A reachable task is yielded once per namespace if and only if it has one namespace, is the start, or is a dependency of the start to which no earlier one leads around the start. |
| `PostorderCounts.SharedDependencyIsYieldedFourTimes` | deps/buildit/README.txt:206-208 | A direct dependency of the start with two namespaces, shared with an earlier dependency, is yielded four times. |
| `PostorderCounts.PostorderIsOrdered` | deps/buildit/context.py:235-236 | Without cycles and for any namespaces, every item of a task comes after every item of its transitive dependencies. |
| `Postorders.YieldsReachableInNamespaces` | deps/buildit/context.py:235-260 | What is yielded are exactly the pairs of a reachable task and one of its namespaces. |
| `Postorders.SinglePostorderOnce` | deps/buildit/context.py:235-260 | With single namespaces every reachable task is yielded exactly once, on cyclic graphs too. |
| `Postorders.SinglePostorderIsOrdered` | deps/buildit/context.py:235-236 | And, without cycles, after all its transitive dependencies. |
| `Postorders.Postorder.constructor` | deps/buildit/context.py:238 | Nothing seen, no task with the context yet. |
| `Postorders.Postorder.ReyieldOne` | deps/buildit/context.py:249-251 | One result is yielded in each of its namespaces and left in the last. |
| `Postorders.Postorder.ReyieldAll` | deps/buildit/context.py:248-251 | So is each result of a child's visit, in order. |
| `Postorders.Postorder.Visit` | deps/buildit/context.py:240-254 | Ends on any graph; yields the runs of the newly met tasks, then the task in its current namespace; every task met gets the context. |
| `Postorders.Postorder.Generate` | deps/buildit/context.py:256-260 | Yields the run of every task below the start, then the start in each of its namespaces. |
| `Features.AllDeps` | buildfiles/features.py:208-218 | Ends on cyclic feature graphs; what it adds to the shared set is needed, closed under `deps`, and complete; fails only if an unknown feature is needed. |
| `Features.AllDepsOfAll` | buildfiles/features.py:144-145 | The accumulator ends as exactly what the selected features need, in any order of the selection. |
| `Features.CloseSelection` | buildfiles/features.py:134-153 | The caller's list is kept and followed by exactly the features that are needed and not selected, each once; so a selection without duplicates stays without, and one that is closed stays as it is. The exact conditions of the two failures, the first naming the first selected name that is no feature. |
| `Features.ExtendedOnce` | buildfiles/features.py:140-153 | Appending once what is needed and not selected duplicates nothing and leaves a closed selection unchanged. |
| `Features.ClosureIsLeast` | buildfiles/features.py:140-153 | The result is contained in every set that contains the selection and is closed under `deps`. |
| `Features.ClosureIsClosed` | buildfiles/features.py:140-153 | And is such a set. |
| `LibraryGraphs.TroubleComesFromDependencies` | buildfiles/libs.py:420-437 | A known library fails exactly when one of its dependencies does. |
| `LibraryGraphs.GatheredSplits` | buildfiles/libs.py:403-437 | What a library adds is its own part and what its dependencies add, cycles or not. |
| `LibraryGraphs.BegunLeadToDependency` | buildfiles/libs.py:434-436 | All libraries with their flag set depend on the one being set up next. |
| `LibraryGraphs.SoundDependencyDoesNotReturn` | buildfiles/libs.py:612-619 | A dependency that has been set up without error does not depend on its dependent. |
| `LibraryGraphs.FewerAhead` | buildfiles/libs.py:612-619 | Setting up a dependency leaves strictly fewer libraries ahead, with the flag set or where there is no way back. |
| `Libraries.NewLibrary` | buildfiles/libs.py:383-401 | Exits exactly if the library lists itself; else a library with no dependencies looked up and its flag clear. |
| `Libraries.Library.LookUp` | buildfiles/libs.py:430-432 | Looks dependencies up once, in order; fails exactly with the name of the first unknown one. |
| `Libraries.Library.AddLibs` | buildfiles/libs.py:511-513 | Adds each of the library's link names and nothing else. |
| `Libraries.Library.SetupEnvironment` | buildfiles/libs.py:403-418 | Succeeds exactly if nothing reachable is unknown or on a cycle; then flags are as before and a name is in LIBS exactly if it was there or is one of the link names of a library that is reachable; else the error names a culprit. |
| `Libraries.GatheredIsNeeded` | buildfiles/libs.py:403-418 | What a setup gathers are all link names of all reachable libraries, and no others. |
| `Libraries.Library.SetupDependents` | buildfiles/libs.py:420-437 | The same for the dependencies alone, ending on any finite graph; an unknown dependency is reported before anything is set up, else what is wrong with the first one that fails. |
| `Libraries.ExplanationIsTrouble` | buildfiles/libs.py:425-432 | A reported unknown library or cycle is a reason why the setup cannot succeed. |
| `InternalLibraries.NewInternalLibrary` | buildfiles/libs.py:578-593 | Exits exactly if the library lists itself among its external or internal dependencies; else nothing is looked up and both flags are clear. |
| `InternalLibraries.InternalLibrary.LookUp` | buildfiles/libs.py:608-610 | Looks internal dependencies up once; fails exactly with the name of the first unknown one. |
| `InternalLibraries.InternalLibrary.SetupBase` | buildfiles/libs.py:601 | The inherited step brings in the external dependencies, all of them, or fails with a reason among them. |
| `InternalLibraries.InternalLibrary.SetupEach` | buildfiles/libs.py:613-614 | One pass succeeds exactly if no dependency is in trouble, and adds exactly what they need; else it reports what is wrong with the first that fails. |
| `InternalLibraries.InternalLibrary.SetupInternalDependents` | buildfiles/libs.py:603-619 | Both passes end, on cyclic graphs too, and add exactly what the internal dependencies need; flags are restored. |
| `InternalLibraries.InternalLibrary.SetupEnvironment` | buildfiles/libs.py:595-622 | Fails exactly if an internal library that is unknown, on a cycle, or in need of an unknown or cyclic external one is reachable; else a name is in LIBS exactly if it was there or is the link name of something reachable, other than the library itself when it is being built, or is listed by something reachable or an external library that needs. Building itself, it is linked against itself only if the name was there or something it needs lists it. |
| `InternalLibraries.ContributesLinks` | buildfiles/libs.py:595-622 | What a sound library contributes, told by names and lists alone, with and without building itself. |
| `InternalLibraries.LinkNamesDiffer` | buildfiles/libs.py:596-599 | Link names have the prefix `ram_` and differ for different libraries. |
| `InternalLibraries.OwnNameStaysOut` | buildfiles/libs.py:596-599 | A library being built itself needs its own link name exactly if something it needs lists that name. |
| `InternalLibraries.OwnNameIsTheDifference` | buildfiles/libs.py:596-599 | Built or not, the same names are needed apart from its own link name. |
| `InternalLibraries.AllCanBeAskedAgain` | buildfiles/libs.py:617-619 | The unflagged second pass ends because the first one succeeded. |
| `InternalLibraries.InternalExplanationIsTrouble` | buildfiles/libs.py:603-610 | What an exit reports is a reason why the setup cannot succeed. |
| `InternalLibraries.InternalLibrary.AddOwnLink` | buildfiles/libs.py:596-599 | Adds the library's link name unless it is being built itself, and nothing else. |
| `BuildHelpers.WithoutFirst` | buildfiles/libs.py:57-80 | Removing one item takes away one occurrence of it if there is one, and nothing else. |
| `BuildHelpers.FirstIsTakenOut` | buildfiles/libs.py:57-80 | It is the first occurrence that goes, and the rest keeps its order. |
| `BuildHelpers.AddExternal` | buildfiles/libs.py:331-338 | Nothing is set up when cleaning; else the exact outcome for one external library, link name by link name; either way one NDEBUG is taken out of the defines. |
| `BuildHelpers.AddInternal` | buildfiles/libs.py:340-345 | Nothing when cleaning; else the exact outcome for one internal library, link name by link name, leaving nothing in progress. |
| `BuildHelpers.AddIntDeps` | buildfiles/helpers.py:44-49 | Adding a list adds exactly what is reachable from it, link name by link name, or fails exactly if some of that is unknown or on a cycle, for the reason of the first name that fails. |
| `BuildHelpers.NeededIsLinked` | buildfiles/libs.py:595-622 | Every internal library reachable from the list is in LIBS with the libraries it brings. |
| `BuildHelpers.NeededExternalIsLinked` | buildfiles/libs.py:595-622 | So is every external library one of them needs. |
| `BuildHelpers.OrderDoesNotMatter` | buildfiles/helpers.py:44-49 | The outcome does not depend on the order or repetition of names in the list. |

## Left out

- DoubleHeaps.DoubleHeap.Push: does not return the reference the original returns, which names the overwritten slot before balancing and not the evicted value.
- DoubleHeaps.DoubleHeap.Median: says nothing before the first sample, where the original returns an uninitialised value.
- DoubleHeapTests.DoubleHeapTest.GetSamples: does not state that the samples come out sorted; the comment in the original says so, but a walk over a heap does not sort.
- DoubleHeaps.DoubleHeap.constructor: takes any window of at least one sample, where the original asserts one more than a multiple of four.
- Samples are unbounded integers and positions are not limited to 32 bits; the element type is `int`, not a template parameter.
- Freeing and copying of C++ arrays, printing, random series and timing of the median tests.
- Splitting raw strings into text and tokens by regular expression: values are sequences of segments. So replaced text cannot join with its surroundings into a new token, which in the original it can (`${./${a}}`).
- Tokens are arbitrary strings, where the expression for them allows letters, digits, underscores, dots, slashes and hyphens.
- TopologicalSorts.TopologicalSort: does not model `ignore_missing_partials=False`, which no caller passes, nor the section name in the keys of the report.
- The `TypeError` for values that are not strings and for dependencies that are not tasks: excluded by the types.
- Postorders.Postorder.Generate: returns the whole sequence of yields; a consumer that changes tasks or namespaces between two yields is not modelled, and `getNamespaces` is constant and not empty.
- Task commands, timestamps, file parsing, logging and the construction of a context; `set_section` and `set_file`.
- Features.CloseSelection: starts from the selected list; the parsing of the `with` and `without` options, header generation and `get_dirs` are not modelled.
- Libraries.Library.AddLibs: LIBS is a set that only grows; link order, the header, version and link checks, and the flags other than LIBS and CPPDEFINES are not modelled, nor are the subclasses that run configuration tools.
- After a failed setup the original process ends, so nothing is stated about flags or LIBS then.
- The two registries of libraries are parameters; their lazy creation and their dependence on selected features are not modelled.
- Joystick clients, watchdogs, vision code, backup and bootstrap scripts: input, output and library calls.
