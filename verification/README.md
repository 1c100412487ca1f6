# Slang Netlist, modelled and proved

Slang Netlist elaborates a SystemVerilog design into a directed graph whose nodes are
ports, variables, assignments, conditions, merges, constants and state elements, and
whose edges say which bits of which symbol one node passes to another. This project
models the parts of it that carry the precision, in Dafny, and proves what they compute:

- **Graph algorithms.** One explicit-stack search (`DepthFirstSearch.dfy`) is proved to
  visit exactly what is reachable; the cycle detector, path finder and combinational cones
  are proved on top of it, and the breadth-first signal cones by shortest distances
  (`CycleDetector.dfy`, `PathFinder.dfy`, `CombFan.dfy`, `SignalCone.dfy`), all of them
  stated on the steps of the graph itself (`GraphSteps.dfy`).
- **The driver map.** Disjoint bit intervals name driver lists through handles with a free
  list (`ExternalManager.dfy`, `DriverIntervals.dfy`, `DriverRuns.dfy`, `DriverMap.dfy`,
  `IntervalExtents.dfy`, `AdjacentIntervals.dfy`). The map is compared with the function
  from bits to sets of drivers it stands for, over single calls and over whole runs, in
  replace and merge modes.
- **The bit-slice compiler.** Expressions become slices, two slice lists are aligned, and
  segments are driven back to symbol bits and port nodes (`BitSlices.dfy`,
  `BitSliceList.dfy`, `Segments.dfy`, `Assignments.dfy`, `UnsplitSlices.dfy`,
  `PortCuts.dfy`, `HiddenCuts.dfy`, `CollectedCuts.dfy`, `PortConnections.dfy`), following
  sections 11.4.11, 11.4.12 and 11.4.12.1 of IEEE 1800-2017 as the source does: per-bit
  meaning is preserved from the expression tree to the driven bits, and where slices, nodes
  and port nodes begin is read off the expression and the cuts (`Joints.dfy`). What becomes
  of an index that is not constant is compared with what it is meant to
  (`DynamicPaths.dfy`).
- **R-values.** The difference of two interval maps and the edges and pending bits of an
  r-value (`IntervalDifference.dfy`, `Rvalues.dfy`).
- **Edges and their labels.** The lists and lazy index of a node, and what a dependency
  does to the labels between two nodes (`EdgeStore.dfy`, `DirectedGraph.dfy`,
  `Dependencies.dfy`).
- **Concurrency.** Pending r-values resolved by one thread per target, and the claiming of
  slots, as interleavings of steps (`PendingRvalues.dfy`, `ParallelResolution.dfy`,
  `ResolutionMeaning.dfy`, `SlotProtocol.dfy`), and when the order of the dependencies of
  a pair matters (`DependencyOrder.dfy`).
- **Saving and loading**, on a JSON value (`Json.dfy`, `SavedItems.dfy`, `Serializer.dfy`,
  `RoundTrip.dfy`, `LoadedEdges.dfy`, and `OldDocuments.dfy` for version 3), and **glob
  matching** of hierarchical names (`Wildcard.dfy`).

Code that works step by step is a class or a method with loops, proved against a function
or a predicate; the functions and predicates carry the theorems. `dafny verify
dfyconfig.toml` checks everything. Source files are cited by path and line.

## Where the code and its promises differ

The model follows the code. At these places it does less than its comments or its use
suggest; each is proved, with the exact condition under which the promise holds.

- *Shared list after a split.* When a call splits an interval in two, both remainders keep
  one list (`source/ValueTracker.cpp:114-125`), and a later call that edits or frees the
  list of one reaches the other. `DriverRuns.CallIsRightIffNoEscape` gives the condition
  for all driver lists, `DriverRuns.MergeIsRightIffNoHarm` for one merged list,
  `DriverRuns.ThirdCallSpoils` the smallest inputs: joining a branch that drives [3,3] and
  [4,7] into one that drives [0,7] adds a driver to bits 0 to 2.
- *Adjacent intervals.* `source/ValueTracker.hpp:42` says adjacent intervals have different
  lists. A replacing call that does no harm of the first kind leaves two equal neighbours,
  where there were none, exactly when an interval straddles the low end of its range and
  stops short of its high end, or a bit next to its range has the drivers it sets
  (`AdjacentIntervals.LeavesEqualNeighboursIff`; from any map,
  `AdjacentIntervals.EqualNeighboursAfter`). The inputs: [0,3] and then [2,5]
  (`AdjacentIntervals.NeighboursCanBeEqual`), and [0,3] and then [4,7] with the same drivers
  (`AdjacentIntervals.SameDriversMeet`).
- *Early break in difference.* The walk stops at `current >= end`
  (`source/IntervalMapUtils.hpp:43`) and can keep a last bit that is taken away
  (`IntervalDifference.ExactUnlessSpoilt`); such a bit is both resolved locally and queued.
- *Straddling definitions.* A definition that reaches over one end of an r-value gets no
  edge (`source/DataFlowAnalysis.cpp:88-112`; `Rvalues.StraddlersAreLost`).
- *Labels of partial definitions.* An edge from a definition of part of an r-value is
  labelled with all of it (`source/DataFlowAnalysis.cpp:108`; `Rvalues.LabelsOverstate`,
  `Rvalues.LabelClaimsMore`).
- *Dynamic index.* A path with a dynamic index is as wide as one choice, and its positions
  are mapped to the lowest bits it may read, not to the others
  (`source/DataFlowAnalysis.cpp:488-502`). What an assignment reads is always among what is
  meant, the selectors included (`DynamicPaths.AssignmentReadsOnlyWhatIsMeant`), and all of
  it if every path on the right has the width of the bits it may read; in an expression
  without a conditional that is taken apart, only if so
  (`DynamicPaths.AssignmentReadsAllIffFullWidth`, with an input in
  `DynamicPaths.IndexedReadIsNarrowed`).
- *Lost selectors.* Paths on the left (`source/DataFlowAnalysis.cpp:472-486`) and those of a
  port's actual (`source/PortConnectionHandler.cpp:386-410`) do not have their selectors
  visited, so the dependency on the index is lost exactly when there is one
  (`DynamicPaths.LeftSelectorsAreReadIffNone`, `DynamicPaths.PortSelectorsAreLinkedIffNone`,
  with inputs in `DynamicPaths.IndexOfTargetIsLost` and `DynamicPaths.IndexOfActualIsLost`).
- *Hidden cuts.* A `?:` in an actual contributes no cuts
  (`source/PortConnectionHandler.cpp:101-103`), though its slices may end inside
  (`HiddenCuts.CutsAreCompleteIffNoHiddenEnd`, `HiddenCuts.ConcatenatedArmIsHidden`).
- *Folded cuts.* A conversion that folds to a constant is one slice, but the cuts of its
  operand are collected all the same (`source/PortConnectionHandler.cpp:64-77`), so port
  nodes are split there for nothing (`CollectedCuts.CutsAreEndsIffNoFoldedCut`,
  `CollectedCuts.FoldedCutIsSpurious`).
- *Label overwrite.* Setting a different symbol on an edge drops the bits it carried
  (`include/netlist/NetlistEdge.hpp:80-82`; `Dependencies.DependMarks`), so the order in
  which the dependencies of a pair are added is free exactly when they carry one symbol
  (`DependencyOrder.OrderIsFreeIffOneSymbol`).
- *Deduplicating load.* Loading goes through `addEdge`
  (`source/NetlistSerializer.cpp:428`), so parallel edges collapse
  (`RoundTrip.RestoredExactlyWhenReloadable`, `RoundTrip.ParallelEdgesCollapse`) into one
  with the last label (`LoadedEdges.LoadedLabelsAreLast`).
- *One detection per detector.* `visitedNodes` outlives `detectCycles`
  (`source/CycleDetector.hpp:113-114`): a second call on the same object reports nothing
  (`CycleDetector.CycleDetector.DetectCycles`).

## Model

| member | source | states |
|---|---|---|
| BitRanges.BitRange.UnionWith | include/netlist/DriverBitRange.hpp:27-32 | the union of two touching ranges has the bits of both and no others |
| BitRanges.BitRange.Intersection | include/netlist/DriverBitRange.hpp:34-43 | nothing exactly when no bit is common; otherwise exactly the common bits |
| DepthFirstSearch.Search.VisitsReachable | source/DepthFirstSearch.hpp:81-113 | a finished search has visited a node if and only if a walk of admitted edges leads to it from the start |
| DepthFirstSearch.Search.TraceIsSimple | source/DepthFirstSearch.hpp:81-106 | at every moment the stack is a walk of admitted edges without repeats, and every stacked node is visited |
| DepthFirstSearch.Search.TraceIsSettled | source/DepthFirstSearch.hpp:86-111 | a node that has left the stack has had all its admitted edges examined, and their ends visited |
| DepthFirstSearch.DepthFirstSearch.VisitEdge | source/DepthFirstSearch.hpp:86-107 | one turn of the inner loop: the edge iterator moves, and the end of the edge is visited and pushed if and only if the edge is admitted and its end is new |
| DepthFirstSearch.DepthFirstSearch.PopNode | source/DepthFirstSearch.hpp:108-111 | leaving a node removes the top of the stack once all its edges are done |
| DepthFirstSearch.DepthFirstSearch.Run | source/DepthFirstSearch.hpp:74-113 | the stack machine terminates, and its callbacks form a complete search from the start node |
| CycleDetector.RecordedIsSound | source/CycleDetector.hpp:18-37 | every recorded cycle is a closed walk of admitted edges without repeated nodes, rotated to start at its lowest ID |
| CycleDetector.StartOnCycleIsRecorded | source/CycleDetector.hpp:18-52 | if the start node lies on any cycle of admitted edges, the search records a cycle through it |
| CycleDetector.EdgeToStartIsRecorded | source/CycleDetector.hpp:18-37 | an examined edge back to the start node has closed a recorded cycle: the start is on the stack until the end |
| CycleDetector.CanonicalIsUnique | source/CycleDetector.hpp:28-34 | with distinct IDs a cycle has one lowest-first rotation, so rotations of a cycle are equal as sequences |
| CycleDetector.CycleDetectionVisitor.Receive | source/CycleDetector.hpp:18-50 | the visitor, told the callbacks of a search, ends with exactly the cycles the search implies and with its stack |
| CycleDetector.CycleDetector.FindFrom | source/CycleDetector.hpp:77-94 | one search from an unvisited node reports only real cycles, and of the nodes it marks each one that lies on a cycle lies on one that is reported |
| CycleDetector.CycleDetector.DetectCycles | source/CycleDetector.hpp:70-122 | on a new detector: every report is a simple cycle from its lowest ID; they are unrepeated, none before one with a lower ID at the first difference or a prefix of it; and a node is in some report if and only if it lies on a cycle; on a detector that has run, nothing |
| CycleDetector.ReportsNothingIffAcyclic | source/CycleDetector.hpp:67-110 | the report is empty if and only if no node lies on a cycle of admitted edges |
| CycleDetector.ReportsEachCycleOnce | source/CycleDetector.hpp:28-34 | with distinct IDs no two reports are rotations of each other |
| CycleDetector.IdsLessIsWeakOrder | source/CycleDetector.hpp:101-107 | the comparison by node IDs is irreflexive, transitive and total up to equal IDs, as sorting needs |
| CycleDetector.IdsLessIsFirst | source/CycleDetector.hpp:101-107 | one sequence sorts before another if and only if its ID is lower where the two first differ, or it is a proper prefix by IDs |
| CycleDetector.ReportsAscend | source/CycleDetector.hpp:101-107 | with distinct IDs the reports ascend strictly in that order |
| CycleDetector.GetAllLoops | source/CombLoops.cpp:21-26 | combinational loops: exactly the nodes on cycles of steps over an out-edge that is not disabled to a node that is not State are reported, in canonical cycles |
| PathFinder.TreeGrows | source/PathFinder.cpp:22-28 | giving a newly visited node its parent keeps the parent map a tree whose parents were visited earlier |
| PathFinder.ParentsAreTree | source/PathFinder.cpp:17-33 | the parent map of a search is a tree: no node gets two parents, and every visited node but the start has one |
| PathFinder.BuildPath | source/PathFinder.cpp:49-67 | the walk back ends at the start, the second assertion cannot fail, and the path is simple and runs from start to end over admitted edges |
| PathFinder.FindWith | source/PathFinder.cpp:71-87 | for any edge predicate: a path is returned if and only if the end differs from the start and is reachable, and it is simple |
| PathFinder.Find | source/PathFinder.cpp:71-78 | a simple path of steps over edges that are not disabled, if and only if there is one to another node; from a node to itself none |
| PathFinder.FindComb | source/PathFinder.cpp:80-87 | the same for steps that enter no State node either |
| CombFan.Collect | source/NetlistGraph.cpp:287-319 | the collected nodes are exactly the reachable ones, each once, the start first |
| CombFan.GetCombFanOut | source/NetlistGraph.cpp:301-309 | exactly the nodes reached by steps over an out-edge that is not disabled to a node that is not State, each once, the start first |
| CombFan.GetCombFanIn | source/NetlistGraph.cpp:311-319 | exactly the nodes reached by steps back over an in-edge that is not disabled from a node that is not State, each once, the start first |
| CombFan.FanOutIsFanInReversed | source/NetlistGraph.cpp:275-319 | for nodes that are not State: m is in the fan-out of n if and only if n is in the fan-in of m |
| CombFan.StateBreaksDuality | source/NetlistGraph.cpp:275-285 | from a State node the duality fails: it reaches what does not list it |
| SignalCone.GetBitDrivers | source/NetlistGraph.cpp:152-180 | one entry per labelled edge, clipped to the query, in ascending order and without repeats |
| SignalCone.BitDriversAreExact | source/NetlistGraph.cpp:152-180 | a node is reported for a bit if and only if the bit is queried and one of its edges carries it for the symbol |
| SignalCone.WalkIsListed | source/NetlistGraph.cpp:214-229 | the worklist holds every node a walk within the limit reaches, at no greater depth |
| SignalCone.DepthIsDistance | source/NetlistGraph.cpp:214-229 | the depth of a listed node is its shortest distance from a root |
| SignalCone.Explore | source/NetlistGraph.cpp:214-229 | the breadth-first loop lists exactly the nodes whose shortest distance is within the depth limit (no limit when it is 0), each once, in non-decreasing distance |
| SignalCone.GetSignalCombFanIn | source/NetlistGraph.cpp:201-231 | exactly the ends of walks within the depth limit from the drivers of the queried bits, each step going from a node that is not State over one of its in-edges that is not disabled; each once, by rising distance |
| SignalCone.GetSignalCombFanOut | source/NetlistGraph.cpp:233-271 | exactly the ends of walks within the depth limit from the consumers of the queried bits, each step going over an out-edge that is not disabled to a node that is not State; each once, by rising distance |
| ExternalManager.ExternalManager.Allocate | source/ExternalManager.hpp:44-54 | reuses the oldest freed slot or grows; the handle was not live, and every other slot is untouched |
| ExternalManager.Store.AllocatedIsValid | source/ExternalManager.hpp:44-54 | allocation keeps the free list exact: free handles are distinct, in range and empty, and all empty slots are free |
| ExternalManager.ExternalManager.Erase | source/ExternalManager.hpp:72-79 | frees a live slot and queues its handle |
| ExternalManager.Store.ErasedIsValid | source/ExternalManager.hpp:72-79 | freeing keeps the free list exact |
| ExternalManager.ExternalManager.Get | source/ExternalManager.hpp:56-70 | a live handle yields the value stored for it |
| DriverIntervals.StepIsSound | source/ValueTracker.cpp:83-271 | each of the five overlap cases, taken exhaustively, writes only the bits it should and leaves the rest of the call correct |
| DriverIntervals.StepKeepsNoLeak | source/ValueTracker.cpp:83-271 | no case loses the last interval of a live list without freeing it |
| DriverIntervals.CallIsRight | source/ValueTracker.cpp:76-280 | one call, when every list shared across its border holds the merged drivers already: each bit in range holds the new list (replace) or the union (merge), all others are unchanged, no list dangles, and none leaks |
| DriverIntervals.CallCovers | source/ValueTracker.cpp:76-280 | on every map, shared lists or not, a call covers exactly the bits covered before and those of its range |
| DriverIntervals.MergeStaysLive | source/ValueTracker.cpp:76-280 | a merge call on any map never makes a list dangle, shared lists or not |
| IntervalExtents.CallJoins | source/ValueTracker.cpp:76-284 | where intervals begin and end after any call, for any two neighbouring bits: the ends of the range divide, outside it nothing changes, a merge joins inside what was joined or free on both sides, and a replacement joins all but where a straddler of the low end ended |
| DriverRuns.CallIsRightIffNoEscape | source/ValueTracker.cpp:110-160 | the exact condition: a call is right for every driver list if and only if no interval inside its range shares a list with one that is not |
| DriverRuns.MergeIsRightIffNoHarm | source/ValueTracker.cpp:90-160 | for one driver list: a merge call is right if and only if every list shared across the border of its range holds the drivers already |
| DriverRuns.EscapeMakesCallWrong | source/ValueTracker.cpp:90-160 | when a list is shared across the border, a driver exists whose call changes a bit it should not |
| DriverRuns.RunIsRight | source/ValueTracker.cpp:68-284 | over every sequence of calls without such harm, the map is the per-bit function of the calls, and lists and intervals neither dangle nor leak |
| DriverRuns.RightAlongIffHarmless | source/ValueTracker.cpp:68-284 | a run of merge calls is right after each of its calls if and only if none does harm |
| DriverRuns.RunGoesOnRightIffNoEscape | source/ValueTracker.cpp:68-284 | a run that is right stays right with one more call, for every driver list, if and only if no list is shared across the border of that call |
| DriverRuns.CallKeepsUnshared | source/ValueTracker.cpp:106-145 | a call on a map without shared lists keeps it so if and only if it does not split an interval in two |
| DriverRuns.WithoutSplitsNothingEscapes | source/ValueTracker.cpp:106-145 | a run whose calls never split an interval in two meets the condition throughout |
| DriverRuns.MeaningIsOrderFree | source/NetlistBuilder.cpp:361-375 | merge calls mean the same per-bit union in every order |
| DriverRuns.MergeOrderIsIrrelevant | source/NetlistBuilder.cpp:361-375 | so any two orders of the same merge calls, neither doing harm, end in the same drivers of every bit |
| DriverRuns.JoinIsUnion | source/DataFlowAnalysis.cpp:385-397 | joining another flow state into one: every bit ends with the drivers of both, when the merges do no harm |
| DriverRuns.ThirdCallSpoils | source/ValueTracker.cpp:114-125 | the condition is needed: after [0,7] and [3,3], a call on [0,3] changes bit 5, and one on [4,7] changes bit 0 |
| DriverRuns.MergeOrderCanMatter | source/ValueTracker.cpp:110-145 | without it even merge calls depend on their order: [0,7], [3,3], [4,7] and the reverse differ at bit 0 |
| AdjacentIntervals.RangeIsWholeIff | source/ValueTracker.cpp:195-230 | a replacing call leaves its range as one interval if and only if no interval straddles its low end and stops short of its high end |
| AdjacentIntervals.CallOnlyCuts | source/ValueTracker.cpp:76-284 | after a replacing call every interval lies in its range or was there before, cut at most at the range's ends |
| AdjacentIntervals.EqualNeighboursAfter | source/ValueTracker.cpp:76-284 | two intervals that meet hold the same drivers after the call if and only if one straddled the low end of the range, a bit next to the range has the drivers set, or two such met away from the range before |
| AdjacentIntervals.LeavesEqualNeighboursIff | source/ValueTracker.hpp:42 | so from a map without equal neighbours a replacing call leaves some exactly for a straddler or a bit next to its range with the drivers it sets |
| AdjacentIntervals.SameDriversMeet | source/ValueTracker.cpp:276-284 | the input: replacing [0,3] and then [4,7] with the same drivers, where both ranges stay whole |
| AdjacentIntervals.NeighboursCanBeEqual | source/ValueTracker.hpp:42 | the input: replacing [0,3] and then [2,5] leaves such neighbours |
| DriverMap.DriverMap.Find | source/DriverMap.hpp:113-116 | the first overlapping interval in ascending order, if there is one |
| DriverMap.DriverMap.Examine | source/ValueTracker.cpp:83-271 | the body of the loop on the shared maps does exactly one step of the case analysis |
| DriverMap.DriverMap.AddDrivers | source/ValueTracker.cpp:76-284 | the loop over intervals and lists terminates; where the call does no harm every bit ends as meant, and a merge leaves every bit as meant only there; the intervals begin and end exactly where they are meant to |
| DriverMap.DriverMap.Join | source/DataFlowAnalysis.cpp:385-397 | the join adds every interval of the other state, whose own map it leaves alone |
| DriverMap.DriverMap.CloneOf | source/DriverMap.hpp:47-50 | a clone has the same intervals and lists, in a store of its own |
| BitSlices.SlicesAreExact | source/BitSliceList.cpp:61-239 | for every expression, unless a hint cuts into a path with a dynamic index: the slices are consecutive, have the width of the expression, and say of each bit what its structure depends on |
| BitSlices.LspSlicesSay | source/BitSliceList.cpp:258-301 | a path split at hints still says of each position which symbol bit it is |
| BitSlices.GridSay | source/BitSliceList.cpp:184-220 | on the common grid of its arms each bit of a conditional says what both arms and the condition say, at its place in the outer list |
| BitSlices.WidenedSays | source/BitSliceList.cpp:130-151 | a widening keeps the operand and fills up with zeros or the sign |
| BitSlices.LspWidthIsKept | source/BitSliceList.cpp:258-301 | a path whose index is dynamic keeps its width exactly when no hint cuts into the bits it may read |
| Joints.SlicesStartAtJoints | source/BitSliceList.cpp:61-301 | strictly inside an expression a slice starts at p if and only if an operand, a copy or padding begins there, or a path has a registered cut at its bit there, also within the arms of conditionals taken apart |
| DynamicPaths.TakenIsMeantIffFullWidth | source/DataFlowAnalysis.cpp:488-502 | with no conditional taken apart: each position is taken to depend on all it is meant to if and only if every path taken apart has the width of the bits it may read |
| DynamicPaths.AssignmentReadsOnlyWhatIsMeant | source/DataFlowAnalysis.cpp:488-544 | what the nodes of an assignment read at a position, selectors included, is among what the right-hand side means there |
| DynamicPaths.AssignmentReadsAllIffFullWidth | source/DataFlowAnalysis.cpp:488-544 | and all of it if every path has the width of the bits it may read; where no conditional is taken apart, only if so |
| DynamicPaths.LeftSelectorsAreReadIffNone | source/DataFlowAnalysis.cpp:472-486 | the selectors of paths on the left are never visited: with none on the right, they are read exactly if there are none |
| DynamicPaths.PortSelectorsAreLinkedIffNone | source/PortConnectionHandler.cpp:386-410 | nor are those of an actual: a covered port is linked to its actual's selectors exactly if the actual has none |
| DynamicPaths.IndexedReadIsNarrowed | source/DataFlowAnalysis.cpp:488-544 | the input: y = a[i] with four bits of a reads the index and bit 0, and misses bits 1 to 3 |
| DynamicPaths.IndexOfTargetIsLost | source/DataFlowAnalysis.cpp:472-486 | the input: a[i] = y does not read the index |
| DynamicPaths.IndexOfActualIsLost | source/PortConnectionHandler.cpp:386-410 | the input: a port connected to a[i] is not linked to the index |
| BitSliceList.BitSliceList.PushStretches | source/BitSliceList.cpp:276-297 | one slice per stretch between hints, each with the whole source range |
| BitSliceList.BitSliceList.BuildInto | source/BitSliceList.cpp:61-239 | the recursive walk appends exactly the slices of the expression |
| BitSliceList.BitSliceList.PushGrid | source/BitSliceList.cpp:184-220 | the grid loop appends exactly the aligned, translated slices of both arms |
| BitSliceList.Build | source/BitSliceList.cpp:318-329 | a new list says of every bit what the expression depends on there, and its slices start exactly where an operand, a copy, padding or a registered cut does; switched off, it is one opaque slice |
| Segments.SlicesFit | source/BitSliceList.cpp:61-239 | every source covers the slice it stands on, and a constant has one bit per position: the offset assertions downstream hold |
| Segments.AlignSegments | source/BitSliceList.cpp:331-355 | segments partition the width, end exactly where a slice of either list ends, and carry throughout what both lists have there |
| Segments.OneSegmentHas | source/BitSliceList.cpp:331-355 | each position lies in exactly one segment |
| Segments.SegmentsCoverSlice | source/BitSliceList.cpp:331-355 | a slice is covered from end to end by consecutive segments |
| Segments.SegmentsStart | source/BitSliceList.cpp:331-355 | strictly inside, a segment starts exactly where a slice of either list does |
| Assignments.WritesSay | source/DataFlowAnalysis.cpp:472-486 | bit i of the range driven for a path, if the range has it, is the symbol bit the path has at that position |
| Assignments.WritesSpan | source/DataFlowAnalysis.cpp:472-486 | a driven range has exactly one bit for each position of its segment |
| Assignments.ReadsSay | source/DataFlowAnalysis.cpp:488-544 | bit i of a read range, selector, expression or constant slice, if it has one, is what the source says of that position; sign padding is not read |
| Assignments.ReadsSpan | source/DataFlowAnalysis.cpp:488-544 | a read range or constant slice has exactly one bit for each position of its segment |
| Assignments.AssignBits | source/DataFlowAnalysis.cpp:255-350 | one node per segment, a partition of the width, whose ranges span exactly its positions, which drives at each of them exactly the symbol bits on the left and reads exactly what is taken on the right, dynamic selectors included; strictly inside, a node starts exactly where an operand, a copy, padding or a registered cut of either side does; the fallback exactly when widths differ |
| Assignments.PairsStandTogether | source/DataFlowAnalysis.cpp:292-350 | over the whole assignment a left bit meets a right bit if and only if they stand at the same position |
| Assignments.RangesAreExact | source/DataFlowAnalysis.cpp:292-350 | a symbol bit is in a range driven, or read, by some node if and only if it stands on the left, or on the right, at some position: no range reaches further |
| Assignments.DriveOf | source/DataFlowAnalysis.cpp:292-350 | each position belongs to exactly one Assignment node |
| Assignments.ConstantsRejoin | source/NodeFactory.cpp:34-54 | the slices of a constant over consecutive segments put together are the constant, in order |
| PortCuts.CollectActualCuts | source/PortConnectionHandler.cpp:23-106 | the recursive walk appends exactly the cuts of the expression to those given |
| PortCuts.BoundariesAreCuts | source/PortConnectionHandler.cpp:23-106 | where no conditional that is taken apart has an arm in several slices, every inner slice boundary of the actual is among its cuts, whether or not hints split the slices |
| UnsplitSlices.UnsplitIsOneSlice | source/BitSliceList.cpp:61-239 | read off the structure and the hints: exactly which expressions become at most one slice |
| HiddenCuts.CutsAreCompleteIffNoHiddenEnd | source/PortConnectionHandler.cpp:23-106 | the exact condition: all inner boundaries are among the cuts if and only if no conditional that is taken apart, anywhere in it, has an arm in several slices |
| HiddenCuts.EndIsHidden | source/PortConnectionHandler.cpp:101-103 | otherwise some slice ends strictly inside the expression where no cut is |
| HiddenCuts.ConcatenatedArmIsHidden | source/PortConnectionHandler.cpp:101-103 | the input: in {c ? {a, b} : d, z} the boundary between a and b is no cut |
| CollectedCuts.CutsAreCollected | source/PortConnectionHandler.cpp:23-106 | which positions are collected, read off the structure: operand, copy and padding boundaries and registered cuts, through conversions that fold as well, nothing of conditionals and opaque operands |
| CollectedCuts.CutsAreEndsIffNoFoldedCut | source/PortConnectionHandler.cpp:64-77 | every cut collected strictly inside is where a slice starts if and only if no conversion that folds to a constant has a cut inside |
| CollectedCuts.CutsAreExactIff | source/PortConnectionHandler.cpp:23-106 | so the cuts inside are exactly the slice boundaries if and only if none is hidden by a conditional and none lies in a folded conversion |
| CollectedCuts.FoldedCutIsSpurious | source/PortConnectionHandler.cpp:64-77 | the input: a conversion of {a, b} that folds is cut between a and b although it is one slice |
| PortCuts.CutRegistry.AddCuts | source/CutRegistry.hpp:20-33 | a symbol's cuts grow by the new ones inside its width, sorted and unrepeated; other symbols are untouched |
| PortCuts.CutRegistry.RecordCuts | source/PortConnectionHandler.cpp:167-199 | a connection of the width of the port adds exactly the inner cuts of its actual to those of the port; others add nothing, and other symbols are untouched |
| PortCuts.SplitAtCuts | source/PortConnectionHandler.cpp:134-151 | the driver's range is partitioned into pieces that meet at cuts and that no cut divides; without hints it stays whole |
| PortCuts.PiecesPartition | source/PortConnectionHandler.cpp:134-151 | every bit of the driver lies in exactly one piece |
| PortCuts.PieceIsInOneSlice | source/PortConnectionHandler.cpp:23-151 | each port node made by splitting at the recorded cuts lies inside a single slice of the actual |
| CollectedCuts.RecordedGrows | source/PortConnectionHandler.cpp:167-199 | over any sequence of connections of the width of the port: its cuts are exactly the inner positions collected of its actuals |
| CollectedCuts.PiecesStartWhereCollected | source/PortConnectionHandler.cpp:134-151 | inside a driver a port node starts exactly where a position of some actual was collected |
| CollectedCuts.PiecesStartAtJoints | source/PortConnectionHandler.cpp:134-151 | and, where no folded conversion has a cut inside, only where a slice of some actual starts |
| PortConnections.BuildPortSliceList | source/PortConnectionHandler.cpp:300-358 | the slices tile the width of the port, and on to the end of any node that reaches beyond it, start exactly where the port or a node starts or has just ended, and name at every bit exactly the nodes whose bounds hold it |
| PortConnections.DrivePortSegment | source/PortConnectionHandler.cpp:360-462 | every node of a segment is linked to every source on the other side, except the selectors of paths, and constants on an output |
| PortConnections.HandlePortConnection | source/PortConnectionHandler.cpp:201-257 | bit by bit, each covering node is linked to exactly what is taken of the actual there but its selectors, by ranges that span exactly their segment; a segment starts exactly where a node starts or has ended or where a slice of the actual does; the fallback exactly when widths differ |
| PortConnections.LinkedBitsStand | source/PortConnectionHandler.cpp:386-396 | every bit of a linked range is one the actual depends on at a position the node covers |
| Wildcard.WildcardMatch | include/common/Wildcard.hpp:28-155 | the matcher terminates and accepts exactly the concatenations of its pattern's token languages |
| Wildcard.MatchBoundary | include/common/Wildcard.hpp:57-73 | a recursive token with both dots stands for a dot, or for any text between two dots |
| Wildcard.MatchSuffix | include/common/Wildcard.hpp:76-94 | with a leading dot only: nothing, or a dot and any text |
| Wildcard.MatchPrefix | include/common/Wildcard.hpp:97-109 | with a trailing dot only: nothing, or any text that ends in a dot |
| Wildcard.MatchInSegment | include/common/Wildcard.hpp:122-134 | * stands for any text without a dot |
| Wildcard.MatchKeepsDepth | include/common/Wildcard.hpp:28-155 | without a recursive token, a match has as many dots in the text as in the pattern |
| Wildcard.ScopeIsAPattern | include/common/Wildcard.hpp:157-166 | for a plain scope s: a path is in scope s if and only if it matches s.** |
| IntervalDifference.KeepGaps | source/IntervalMapUtils.hpp:17-48 | the walk keeps exactly the gaps, up to the point where it stops |
| IntervalDifference.SubtractSingle | source/IntervalMapUtils.hpp:12-53 | what is left of one interval: the bits of no second interval, and its last bit when a second interval ends just below it; in pieces that do not touch |
| IntervalDifference.Difference | source/IntervalMapUtils.hpp:55-74 | the difference bit by bit, with values, including the last bits kept too much; ascending, disjoint, and touching only where an interval of the first map ends |
| IntervalDifference.ExactUnlessSpoilt | source/IntervalMapUtils.hpp:43-52 | it is the exact set difference if and only if no multi-bit interval has its last bit start one second interval right after another ends |
| IntervalDifference.LastBitIsKept | source/IntervalMapUtils.hpp:43-52 | such an input: [0,3] without [0,2] and [3,3] keeps bit 3 |
| Rvalues.HandleRvalue | source/DataFlowAnalysis.cpp:34-135 | edges exactly from the drivers of definitions that cover the r-value or lie within it, each labelled with the whole r-value; pending exactly the bits without a definition, and one last bit more in one case, in ascending pieces as long as they can be; without definitions or node everything is pending |
| Rvalues.LabelsOverstate | source/DataFlowAnalysis.cpp:106-110 | the labels of an r-value's edges claim just the bits their sources drive if and only if every driver of a definition that counts drives every bit of the r-value |
| Rvalues.LabelClaimsMore | source/DataFlowAnalysis.cpp:106-110 | the input: reading [3:0] with bit 1 defined claims bit 0 for that definition |
| Rvalues.StraddlersAreLost | source/DataFlowAnalysis.cpp:88-112 | no driver of a defined bit is lost if and only if each driver of a straddling definition also drives one that does not straddle |
| Rvalues.EveryBitIsServed | source/DataFlowAnalysis.cpp:34-135 | without straddlers every bit is defined and has all its edges, or is pending; both only for a last bit kept by the difference |
| Rvalues.StraddlerIsLost | source/DataFlowAnalysis.cpp:88-112 | such an input: a definition of [0,4] and an r-value [2,7] |
| EdgeStore.Node.LookupOutEdge | include/netlist/DirectedGraph.hpp:308-320 | through the index or by a scan, before and after the threshold: the first edge to the target |
| EdgeStore.IndexGrows | include/netlist/DirectedGraph.hpp:332-351 | an added edge enters the index only when it is the first to its target, and the index stays right |
| EdgeStore.IndexShrinks | include/netlist/DirectedGraph.hpp:204-215 | after a removal the entry is dropped or moves to the next parallel edge, and the index stays right |
| EdgeStore.FoundIsFirst | include/netlist/DirectedGraph.hpp:117-129 | the scan finds the first edge to a node; removing it leaves the others in order |
| EdgeStore.Node.AddEdge | include/netlist/DirectedGraph.hpp:131-161 | returns the first edge to the target unchanged, or appends one new edge at both ends |
| EdgeStore.Node.RemoveEdge | include/netlist/DirectedGraph.hpp:196-219 | the edge removed from the source is the very edge removed from the target |
| EdgeStore.PairedAfterRemove | include/netlist/DirectedGraph.hpp:196-219 | removal keeps every pair's out-edges equal to its in-edges, as sequences |
| EdgeStore.PairedAfterAdd | include/netlist/DirectedGraph.hpp:144-194 | so does addition |
| EdgeStore.PairedAfterClear | include/netlist/DirectedGraph.hpp:222-228 | so does forgetting all out-edges of a node at both ends |
| EdgeStore.Node.ClearAllEdges | include/netlist/DirectedGraph.hpp:221-239 | no edge names the node afterwards, self-loops and parallel edges included; all other edges stay, in order |
| DirectedGraphs.DirectedGraph.AddEdge | include/netlist/DirectedGraph.hpp:429-434 | over every run: returns the first edge of the pair or adds one, keeping the store paired and indexed |
| DirectedGraphs.DirectedGraph.AddNewEdge | include/netlist/DirectedGraph.hpp:436-442 | adds a parallel edge at both ends |
| DirectedGraphs.DirectedGraph.RemoveEdge | include/netlist/DirectedGraph.hpp:444-450 | removes the first edge of the pair at both ends, if there is one |
| DirectedGraphs.DirectedGraph.RemoveNode | include/netlist/DirectedGraph.hpp:412-427 | removes the node and every edge that names it; the others keep their order and their other edges |
| Dependencies.NetlistEdge.SetVariable | include/netlist/NetlistEdge.hpp:71-83 | widens the range of the same symbol when the ranges touch, refuses when they do not, overwrites any other symbol |
| Dependencies.AddDependency | source/NetlistBuilder.cpp:76-116 | on the edge objects, after the range was clipped to the bounds of the source: one edge takes the dependency, the first or a parallel one made exactly for a range of the same symbol that does not touch; it ends with the kind and precision given, with role Event for a clocked dependency of role Data and else with the role given, and with the bits given and its own of that symbol; a dependency without annotation sets role and precision only; every other label, and whether an edge is disabled, stays |
| Dependencies.WithinOwnHas | source/NetlistBuilder.cpp:86-99 | clipping keeps only given bits, and of those, where the bounds of the source meet them, only its own |
| Dependencies.DependMarks | source/NetlistBuilder.cpp:104-115 | exactly which bits of which symbol the edges of a pair carry afterwards: the new ones, and all old ones unless the first edge belonged to another symbol |
| PendingRvalues.PairSeesItsOwn | source/PendingRvalueQueue.cpp:103-108 | the labels between two nodes are the result of that pair's dependencies alone |
| PendingRvalues.OneSymbolAccumulates | include/netlist/NetlistEdge.hpp:71-83 | when all labelled dependencies of a pair carry one symbol, its edges carry exactly the old bits and the added ones |
| PendingRvalues.OrderIsIrrelevant | include/netlist/NetlistEdge.hpp:71-83 | then neither order nor repetition changes the bits |
| PendingRvalues.LastSymbolWins | include/netlist/NetlistEdge.hpp:80-82 | with two symbols it does: the first one added is lost |
| DependencyOrder.TwoSymbolsLose | include/netlist/NetlistEdge.hpp:71-83 | among any dependencies of two symbols some bit is lost in one order and kept in another |
| DependencyOrder.OrderIsFreeIffOneSymbol | include/netlist/NetlistEdge.hpp:71-83 | from no labels, all orders of a list of dependencies end in the same bits if and only if its labelled dependencies carry one symbol |
| PendingRvalues.PendingRvalueQueue.EmitEdgesFor | source/PendingRvalueQueue.cpp:63-101 | adds to the labels what the dependencies of the entry make of them |
| ResolutionMeaning.EmissionsAreAskedFor | source/PendingRvalueQueue.cpp:63-101 | bit by bit: an entry adds bit b from s if and only if it reads b and s is its exactly matching state variable, or a driver of an interval with b, and s has b where its own bounds meet that range |
| ResolutionMeaning.ResolvingAddsWhatIsAskedFor | source/PendingRvalueQueue.cpp:103-108 | after the whole queue a one-symbol pair carries exactly its old bits and those its entries ask for |
| ResolutionMeaning.ParallelAddsWhatIsAskedFor | source/PendingRvalueQueue.cpp:110-166 | and so it does after every interleaving of the workers |
| ResolutionMeaning.EachLabelHasOneOrigin | include/netlist/NetlistEdge.hpp:71-83 | after any labelled dependencies of a pair no edge is gone, and each has the very label it had or the kind, role, precision and symbol of one of them |
| ResolutionMeaning.ResolvedLabelsAreExplained | source/PendingRvalueQueue.cpp:63-108 | after the whole queue each edge between two nodes has the label it had, or the kind, role, precision and symbol of one entry that joins the two |
| ResolutionMeaning.LastEntryHasTheLastWord | source/PendingRvalueQueue.cpp:103-108 | the last entry of the queue that joins two nodes leaves its kind, role, precision and symbol on one of their edges |
| ResolutionMeaning.ParallelLabelsAreExplained | source/PendingRvalueQueue.cpp:110-166 | and so it has after every interleaving of the workers |
| PendingRvalues.PendingRvalueQueue.ResolveSequential | source/PendingRvalueQueue.cpp:103-108 | works off the queue in order and empties it |
| PendingRvalues.PendingRvalueQueue.Drain | source/PendingRvalueQueue.cpp:38-61 | appends every task's buffer, in task order |
| ParallelResolution.PartitionRuns | source/PendingRvalueQueue.cpp:118-136 | the runs of the sorted queue cover the entries that have a target, each run holding all entries of its one target |
| ParallelResolution.ThreadsKeepTheirOrder | source/PendingRvalueQueue.cpp:143-157 | in any interleaving, edges into a target see the dependencies of its one thread, in that thread's order |
| ParallelResolution.ThreadsAgree | source/PendingRvalueQueue.cpp:110-166 | every interleaving leaves every pair labelled as working off the sorted queue by one thread does |
| ParallelResolution.ParallelAgreesWithSequential | source/PendingRvalueQueue.cpp:103-166 | for pairs whose dependencies carry one symbol, every interleaving ends with the bits of the sequential loop |
| SlotProtocol.StepKeepsInv | source/ValueTracker.cpp:18-71 | every atomic step of every thread keeps the invariant of maps, locks and sizes |
| SlotProtocol.EachSymbolHasItsOwnSlot | source/ValueTracker.cpp:21-38 | after any schedule no two symbols share a slot |
| SlotProtocol.SlotsAreForGood | source/ValueTracker.cpp:21-38 | a symbol's slot never changes once given |
| SlotProtocol.ReverseIsInverse | source/ValueTracker.cpp:29-37 | once no claimer is in between, the reverse map is the inverse |
| SlotProtocol.SlotIsInside | source/ValueTracker.cpp:40-71 | a thread that takes or holds a slot lock has its slot inside all three vectors, and nobody is resizing |
| SlotProtocol.OneThreadPerSlot | source/ValueTracker.cpp:68-71 | no two threads hold one slot |
| SlotProtocol.SomeoneCanGoOn | source/ValueTracker.cpp:40-71 | whenever a thread waits, another is inside a call and can go on: no deadlock |
| SavedItems.NodeIsReadBack | source/NetlistSerializer.cpp:207-268 | a node is read back with its range ascending and its constant as the text its re-read value prints as |
| SavedItems.EdgeIsReadBack | source/NetlistSerializer.cpp:272-290 | an edge is read back with all its labels, or without semantics in version 3 |
| Serializer.Serialize | source/NetlistSerializer.cpp:187-293 | the loops build exactly the document of the artifact, edges in the order of their sources |
| Serializer.Deserialize | source/NetlistSerializer.cpp:299-451 | the loader builds exactly the graph the document stands for, or reports the first error; the version is refused exactly when it is an integer other than 3 and 4 |
| Serializer.RefusedIffOtherVersion | source/NetlistSerializer.cpp:303-307 | loading fails for a version v if and only if the version of the document is the integer v, and v is neither 3 nor 4 |
| RoundTrip.RecordsLoadIffKnown | source/NetlistSerializer.cpp:407-428 | edges load if and only if all their ends are IDs of nodes; otherwise an end that is not is reported |
| RoundTrip.SavedIsLoaded | source/NetlistSerializer.cpp:187-451 | a save and a load restore nodes, files, black boxes, ID and out-edge lists with all labels |
| RoundTrip.RestoredExactlyWhenReloadable | source/NetlistSerializer.cpp:187-451 | and they do so if and only if edge ends are found by ID, no ordered pair has two edges, equal paths are one record and no file repeats |
| RoundTrip.ParallelEdgesCollapse | source/NetlistSerializer.cpp:428 | the input: of two edges between the same two nodes one is left |
| LoadedEdges.LoadedLabelsAreLast | source/NetlistSerializer.cpp:407-449 | of every document that loads: an edge joins an ordered pair of nodes if and only if some record does, one for each pair, with the label of the last such record and the first symbol of its path |
| RoundTrip.FilesAreUnique | source/NetlistSerializer.cpp:313-316 | the file table holds exactly the names listed, each once, in the order of first occurrence |
| RoundTrip.DistinctIdsAreFound | source/NetlistSerializer.cpp:326-414 | distinct IDs make every edge end found |
| RoundTrip.SecondSaveChangesNothing | source/NetlistSerializer.cpp:187-451 | of any graph whatever, a second save and load changes nothing further if and only if the texts of its constants stay when re-read twice |
| RoundTrip.WhateverLoadsIsReloadable | source/NetlistSerializer.cpp:299-451 | whatever document loads, of either version and from any source, yields a graph that a save and a load restore, settled, with the ID it had or was given |
| OldDocuments.OldDocumentIsRead | source/NetlistSerializer.cpp:299-451 | of any graph whatever, a document of version 3, with or without an ID and with or without semantics, loads as the one of version 4 with unknown semantics does, without an ID |
| OldDocuments.OldIsLoaded | source/NetlistSerializer.cpp:299-451 | of a reloadable artifact it gives the settled artifact with an empty ID and unknown role and precision on every edge |
| OldDocuments.BareDocumentsAgree | source/NetlistSerializer.cpp:303-451 | two documents that differ in the version alone, with no ID and no semantics on edges, load alike, errors included |

## Left out

- BitSlices.SlicesAreExact: leaves out an expression in which a hint cuts into the bits of a path with a dynamic index; `LspWidthIsKept` says that its slices then lose their width.
- HiddenCuts.CutsAreCompleteIffNoHiddenEnd: leaves out an expression in which a registered cut lies inside the bits of a path with a dynamic index; such a cut is collected beyond the path's own width and may fall on any other end.
- CollectedCuts.CutsAreEndsIffNoFoldedCut: leaves out the same expressions.
- CollectedCuts.CutsAreExactIff: leaves them out as well.
- CollectedCuts.RecordedGrows: follows connections whose actuals are not such expressions and have the width of the port; `PortCuts.CutRegistry.RecordCuts` states one connection of any kind.
- DynamicPaths.AssignmentReadsAllIffFullWidth: of a conditional that is taken apart it states one direction only, since one arm may take a bit that the other misses.
- Assignments.AssignBits: the roles and precisions of reads, by which a dynamic path's range is marked as coarser than its selectors, are not part of what a node reads here.
- PendingRvalues.OrderIsIrrelevant: states the bits of symbols only; edge kind, role and precision are last-writer-wins and depend on the order, and `ResolutionMeaning.ResolvedLabelsAreExplained` says which entries they may come from.
- ParallelResolution.ThreadsAgree: one dependency is one atomic step; the finer steps inside it touch edges into the thread's own target only and are not split up.
- SlotProtocol.StepKeepsInv: one library call on a concurrent map, an atomic counter or a lock is one step; memory ordering below that is not modelled.
- Dependencies.AddDependency: works on the list of edges between two nodes; finding that list among a node's edges is EdgeStore's part.
- Serializer.Deserialize: keeps out-edge lists only; in-edges follow from them, in the order of the sources. Negative numbers where the format has counts are an error here.
- RoundTrip.SavedIsLoaded: a constant is compared by its text; which texts read as integers, and what those print as, is a parameter, since parser and printer are foreign code.
- Rvalues.HandleRvalue: labels are the ranges asked for, before an edge's range is clipped to the bounds of a source that has any.
- DepthFirstSearch.DepthFirstSearch.Run: the callbacks of the template visitor are recorded as events that visitor classes replay, instead of being made during the search; the recursive restart of the loop is the loop.
- DriverMap.DriverMap.AddDrivers: the interval map is a set of disjoint intervals with a search for the first overlap, in place of the B+-tree; a driver is its node, as driver comparison has it.
- SignalCone.GetBitDrivers: node positions stand for the pointer order in which equal ranges are sorted.
- EdgeStore.Node.AddEdge: one whole operation at a time; two threads that add parallel edges between the same nodes may list them in different orders at the two ends.
- IntervalDifference.Difference: pieces that touch and have one value are not coalesced as `unionWith` of the library may do; the bits and values are the same.
- Integers are unbounded: ranges are assumed far enough from the 32-bit limits that `+ 1` does not wrap.
- The SystemVerilog front end, its evaluation of constants, its analysis of drivers and its instance cache are foreign code; expressions carry their widths, static bounds and folded constants.
- `mergeStates` merges driver maps here and not the current nodes; the traversal of statements, of loops and of calls is not modelled.
- `hookupOutputPort`, modport and interface resolution, and the legacy whole-path walks are not modelled beyond the choice to take them.
- `getDrivers` of the value tracker skips partial overlaps just as the r-value walk does, and would add only easy members.
- `getConstantDrivers`: its State case cannot occur, because its predicate has dropped State sources before.
- Command-line tools, reports, DOT output, bindings, diagnostics, JSON text, regular-expression search and profiling.
