# scalepnr: a verified model of its algorithmic cores

This project models the self-contained algorithms of scalepnr, an FPGA place-and-route tool, and proves what they are for. Each core has a simple meaning (reachability, a maximum over chains, an equivalence closure, recomputation from scratch) and a quite different fast implementation; the project states the meaning independently and shows that the implementation has it, for every input.

Code that updates state in the source is written here as classes and methods with loops, and proved against functions and predicates over plain values; the laws are lemmas about those.

| Part | Files | The main result |
| --- | --- | --- |
| Spiral search | `Spiral.dfy` | The four-variable stepper visits every cell of the plane once, square by square, so a search from any start finds the first cell of the grid that accepts, and fails only if none does. |
| Active wires | `ActiveWires.dfy`, `PairClosure.dfy` | The fixed-point loop computes exactly the wires connected to a seed, in whatever order the rules come. |
| Route bindings | `RouteBindings.dfy` | Two lazily rebuilt indexes answer as a linear scan does, whatever the hash function; identities stay distinct and stable. |
| Run planner | `DisjointSets.dfy`, `CellGroups.dfy`, `Ordering.dfy`, `RunPlanner.dfy`, `PlanUniqueness.dfy` | Union-find with path halving yields the closure of the sharing rules; the runs hold every cell once, never split a group, and are few; with distinct names there is only one plan. |
| Crossbar indexes | `RouteGraph.dfy`, `Crossbar.dfy`, `CrossbarUses.dfy` | All inverse and transitive indexes agree with routes through at most two joints; pruning keeps the meaning of every lookup and leaves no stale cache. |
| Candidate order | `AngleOrder.dfy`, `JumpBuckets.dfy`, `SourceOrder.dfy`, `SourceTable.dfy`, `CrossbarState.dfy` | The integer comparison is the order by angle; the cached source lists are the only lists in that order, a node's list has exactly the sources that it leads to, and the walk over candidates misses none. |
| Timing forest | `EdgeSeparation.dfy`, `TimingTree.dfy`, `TimingForest.dfy`, `TimingPropagation.dfy` | Shared cones give the times of the unshared recursion; a capture period minus the propagated time is the least slack over all chains and all pairs of clock edges. |
| Element packing | `ElementBits.dfy`, `ElementLoading.dfy`, `ElementPacking.dfy`, `PackingPreview.dfy`, `PackOrder.dfy` | The incremental masks equal recomputation, claims stay disjoint and quotas hold; previews undo exactly; pack ordering is the least dependency order. |

`Common.dfy` holds the small types and facts that several parts share.

## What turned out not to hold everywhere

- A joint's list of outgoing sources looks for a direct connection in one of two tables only. `CrossbarUses.JointListMisses` says exactly which sources are missing, `CrossbarUses.JointListMissesReverseLink` gives one.
- Two bindings preset to one identity resolve to the later one (`RouteBindings.PresetCollision`); resolving is right exactly if no later binding shares the identity (`RouteBindings.RouteIdRoundTrip`).
- Placed positions below zero mean "not placed", yet some of them decode to lane 0, among them -1, because division truncates (`ElementBits.UnplacedDecodes`).
- The search for a lane takes one bit of the mask but claims the bit that its position decodes to. The two agree exactly for canonical lanes, the only ones that loading a site makes (`ElementPacking.SearchClaimsItsLane`, `ElementBits.LaneRoundTrip`, `ElementLoading.LoadedLanesAreCanonical`); disjointness of claims is therefore part of the invariant only for tiles with canonical lanes.
- The searches for the least setup time and the least length start from a cap. The value found is that of the least chain if and only if the pin is driven by a leaf or some chain into it costs at most the cap; otherwise it is the cap itself, which no chain has (`TimingTree.LeastUnderCap`). `TimingTree.LeastStopsAtCap` is a netlist where the time found is the cap and the only chain takes longer. The cap on lengths cuts nothing off in a netlist without cycles of at most a billion and one instances (`TimingTree.LengthsWithinCap`).
- `orderPack` has a branch for dependency cycles. The dedicated arcs run from tables to narrow to wide multiplexers only, so that branch cannot be taken (`PackOrder.SomeReady`): a pack is ordered exactly if its members are present, have a cell and are different.
- A node number that is not in the candidate order ends the walk over candidates at once (`SourceTable.NextFreeOfStranger`).

## Model

| member | source | states |
|---|---|---|
| Spiral.RunInRounds | src/common/Types.h:76-93 | After any number of moves the four variables are those of the closed form: round, leg, place and facing. |
| Spiral.Stepper.RadialSearch | src/common/Types.h:76-93 | One call changes the four variables as the walk's step function does, which the laws below are about. |
| Spiral.VisitReaches | src/common/Types.h:76-93 | Every cell of the plane is reached, at the move that its visit number names. |
| Spiral.VisitIsUnique | src/common/Types.h:76-93 | The visit number of the cell reached at move n is n, so no cell is visited twice. |
| Spiral.SquareIsPrefix | src/common/Types.h:76-102 | A cell is visited within the first (2r+1)^2 moves exactly if it lies in the square of radius r. |
| Spiral.SpiralFillsSquare | src/common/Types.h:76-102 | From any start and direction the first (2r+1)^2 cells are different, and are exactly the square of radius r. |
| Spiral.SearchCells | src/pnr/place/PlaceDesign.cpp:3067-3105 | The search loop takes the first cell of the walk that holds a tile and accepts the instance; if it fails, it has tried every such cell of the grid once, or for a strict anchor the origin alone. |
| ActiveWires.Seeds | src/fpga/Device.cpp:3510-3527 | The seeds are the wires of deferred tile types that some usable rule names and that can be resolved. |
| ActiveWires.PropagateRule | src/fpga/Device.cpp:3534-3542 | One rule adds only connected wires, reports whether it added any, and adds none exactly if the set is closed under its pairs. |
| ActiveWires.Propagate | src/fpga/Device.cpp:3528-3544 | The loop ends, with exactly the wires that are connected to a seed in either direction. |
| ActiveWires.ActiveWires | src/fpga/Device.cpp:3510-3544 | The active wires are those linked to a seed by the symmetric closure of the wire pairs. |
| ActiveWires.ClosedHoldsReached | src/fpga/Device.cpp:3528-3544 | Any closed set that holds the seeds holds every active wire: the result is the least one. |
| ActiveWires.OrderOfRulesIsIrrelevant | src/fpga/Device.cpp:3510-3544 | Rules in another order, or repeated, give the same seeds, the same connections and the same active wires. |
| RouteBindings.Net.RebuildRouteLookup | src/rtl/Net.h:120-136 | The rebuilt table has, for each hash, the first binding with it and their number. |
| RouteBindings.HashIndexGrows | src/rtl/Net.h:200-206 | Extending the table for an appended binding gives the table that a rebuild would. |
| RouteBindings.OnlyCandidate | src/rtl/Net.h:154-159 | If one binding has the hash and it matches, it is the first match and the only one, collisions or not. |
| RouteBindings.Net.FindRouteBinding | src/rtl/Net.h:141-173 | The indexed lookup returns what the linear scan returns, for every hash function. |
| RouteBindings.Net.LinearScan | src/rtl/Net.h:160-172 | The scan returns the first matching index and the number of matches. |
| RouteBindings.Net.AppendRouteBinding | src/rtl/Net.h:175-207 | Appending keeps both indexes right and assigns or respects the identity. |
| RouteBindings.Net.EraseRouteBinding | src/rtl/Net.h:209-217 | Erasing removes one binding, or nothing for an index out of range, and keeps the indexes right. |
| RouteBindings.Net.ClearRouteBindings | src/rtl/Net.h:219-224 | Clearing removes all bindings and keeps the next identity. |
| RouteBindings.Net.RouteId | src/rtl/Net.h:234-248 | The identity is assigned on demand and returned; 0 for an index out of range. |
| RouteBindings.Net.FindRouteBindingById | src/rtl/Net.h:251-271 | The lookup finds the last binding with the identity, and none for 0. |
| RouteBindings.IdsStayDistinct | src/rtl/Net.h:175-248 | With fresh presets, identities are distinct after any sequence of operations. |
| RouteBindings.AssignedIdIsNew | src/rtl/Net.h:79-248 | An identity that is about to be assigned was never held by a binding before, in any earlier state of the run. |
| RouteBindings.RouteIdRoundTrip | src/rtl/Net.h:234-271 | Resolving the identity of binding i gives i back if and only if no later binding has that identity. |
| RouteBindings.PresetCollision | src/rtl/Net.h:175-271 | Two bindings preset to one identity: it resolves to the later one. |
| RouteBindings.IdentitySurvives | src/rtl/Net.h:175-271 | An identity keeps resolving to its binding through every operation that does not remove the binding. |
| RouteBindings.IdentitySurvivesRun | src/rtl/Net.h:175-271 | After any sequence of operations that does not remove the binding, its identity resolves to the place where the binding is then. |
| RouteBindings.IdentityRoundTrip | src/rtl/Net.h:175-271 | After any sequence of operations with fresh presets, the identity given out for binding i resolves to i. |
| PairClosure.LinkedIsLeast | src/pnr/pnr.cpp:74 | Being linked is the least equivalence over the pairs: any labelling that the pairs respect is constant on linked items. |
| DisjointSets.HalvingKeepsRoots | src/pnr/pnr.cpp:70-73 | Pointing an entry at its grandparent keeps the forest, and keeps every root. |
| DisjointSets.JoiningMovesOneTree | src/pnr/pnr.cpp:74 | Hanging one root below another changes the root of that tree's members and of nobody else. |
| DisjointSets.JoinedRoots | src/pnr/pnr.cpp:74 | After a join two cells share a root exactly if they are linked by the joined pairs. |
| DisjointSets.Partition.Root | src/pnr/pnr.cpp:70-73 | The search with path halving ends, returns the root, and changes no cell's root. |
| DisjointSets.Partition.Join | src/pnr/pnr.cpp:74 | A join keeps the invariant that roots are equal exactly for cells linked by the joins so far. |
| CellGroups.JoinBunches | src/pnr/pnr.cpp:75-82 | Cells of one bunch end up linked, and nothing that need not be shared is joined. |
| CellGroups.VisitPins | src/pnr/pnr.cpp:90-112 | The pins of a cell join its dedicated chains and keep, for each clock source, the best consumer so far. |
| CellGroups.JoinChains | src/pnr/pnr.cpp:87-112 | All dedicated chains are joined, and each clock source has its highest-ranked first consumer. |
| CellGroups.JoinCone | src/pnr/pnr.cpp:117-131 | The depth-first walk ends and joins the whole cone of a clock source to its anchor. |
| CellGroups.JoinCells | src/pnr/pnr.cpp:66-131 | Two cells share a root exactly if they are linked by the rules on bunches, chains and clock cones, whatever the order of the joins. |
| Ordering.Sort | src/pnr/pnr.cpp:145-149 | Sorting by a strict weak order gives a sorted permutation. |
| Ordering.SortedIsUnique | src/pnr/pnr.cpp:145-158 | Where the comparison tells all elements apart there is only one sorted permutation; the two sorts of the planner are such sorts if names differ. |
| RunPlanner.BuildGroups | src/pnr/pnr.cpp:132-144 | The groups are the classes of the partition, each with its worst deficit, worst delay and least name. |
| RunPlanner.NextFitKeepsGroups | src/pnr/pnr.cpp:150-160 | Packing neither loses, repeats, reorders nor splits groups. |
| RunPlanner.NextFitIsTight | src/pnr/pnr.cpp:150-160 | A run exceeds the target only if it is one group, and two consecutive runs together always do. |
| RunPlanner.RunsAreFew | src/pnr/pnr.cpp:150-160 | There are at most 2 * (cells / (target + 1)) + 1 runs. |
| RunPlanner.PlanIsRight | src/pnr/pnr.cpp:132-160 | Every cell is in exactly one run, linked cells are together, oversized runs are indivisible, deficits descend, the runs are few, and they are the next-fit packing of the groups by deficit, delay and name with their cells by name. |
| RunPlanner.Pnr.PackRuns | src/pnr/pnr.cpp:150-160 | The loop over the ordered groups sorts the cells of each by name and builds the runs of the next-fit function. |
| RunPlanner.Pnr.Plan | src/pnr/pnr.cpp:61-162 | Planning yields a right plan, or fails on a zero target and leaves the earlier plan. |
| PlanUniqueness.GroupListIsUnique | src/pnr/pnr.cpp:132-158 | With distinct cell names there is only one list of all groups in the source's order, each with its cells by name. |
| PlanUniqueness.PlanIsUnique | src/pnr/pnr.cpp:61-162 | With distinct cell names a design, its list of cells included, has only one plan for a target, in whatever order groups, joins and hash tables are visited. |
| AngleOrder.BeforeIsLexicographic | src/fpga/Crossbar.cpp:201-239 | The cross-multiplied comparison is the comparison of half-plane, tangent and tie-break. |
| AngleOrder.StrictTotalOrder | src/fpga/Crossbar.cpp:201-239 | It is a strict total order on integer vectors for every target. |
| AngleOrder.BeforeIsByAngle | src/fpga/Crossbar.cpp:213-239 | It orders by the angle to the target, measured by the cosine, then by length, dx and dy. |
| AngleOrder.ScalingTheTarget | src/fpga/Crossbar.cpp:201-239 | Scaling the target by a positive factor changes nothing. |
| JumpBuckets.MakeJumpBucketOrder | src/fpga/Crossbar.cpp:241-259 | The list has the 224 jumps within reach 7, each once. |
| JumpBuckets.MakePriorityBucketOrder | src/fpga/Crossbar.cpp:267-285 | The selection returns an ascending permutation. |
| JumpBuckets.PriorityOrderIsUnique | src/fpga/Crossbar.cpp:267-285 | There is only one ascending list of all jumps for a target. |
| JumpBuckets.PriorityBucketOrder | src/fpga/Crossbar.cpp:287-300 | The table entry of a direction is that list. |
| JumpBuckets.AxisWithinReach | src/fpga/Crossbar.cpp:163-173 | A quantised axis stays within 7, keeps its sign, reaches 7 on the longer axis, and otherwise is rounded to nearest. |
| JumpBuckets.TargetWithinTable | src/fpga/Crossbar.cpp:175-182 | Every integer difference quantises into the table of 225, and only the zero difference to its centre. |
| JumpBuckets.DirectionIndexInjective | src/fpga/Crossbar.cpp:293-299 | Different directions have different table entries. |
| JumpBuckets.JumpIndexRoundTrip | src/fpga/Crossbar.cpp:88-117 | Encoding an offset and a lane and decoding gives them back, for every encodable offset. |
| JumpBuckets.JumpDeltaRoundTrip | src/fpga/Crossbar.cpp:93-117 | Every node number is the encoding of its own offset and lane. |
| SourceOrder.BestBucketMeaning | src/fpga/Crossbar.cpp:972-987 | The best bucket of a source is the first one of the order among its priorities. |
| SourceOrder.SourceOrderIsUnique | src/fpga/Crossbar.cpp:944-1008 | Two lists of the same sources in ascending rank are the same list. |
| SourceOrder.ByPriority | src/fpga/Crossbar.cpp:972-987 | The first pass lists each source with a priority bucket once, at its best bucket, lane by lane. |
| SourceOrder.ByOwnDelta | src/fpga/Crossbar.cpp:989-1003 | The second pass lists the remaining sources whose own number names a bucket, in the order of the buckets. |
| SourceOrder.OrderSources | src/fpga/Crossbar.cpp:970-1008 | The three passes list every valid source exactly once in ascending rank. |
| Crossbar.NodeKeyInjective | src/fpga/Crossbar.cpp:1020-1028 | The packed cache key tells direction, role and node apart. |
| Crossbar.CBType.RebuildPrioritySrcsByDelta | src/fpga/Crossbar.cpp:764-798 | The table holds, under each offset, exactly the sources with that priority, and each landing source has the list of its offsets. |
| SourceOrder.PrioritySrcs | src/fpga/Crossbar.cpp:764-798 | The two nested loops build both tables from the landings of the sources. |
| SourceTable.ValidSrcs | src/fpga/Crossbar.cpp:957-969 | The valid sources are those that land somewhere or that some node leads to. |
| SourceTable.OrderedSrcNodes | src/fpga/Crossbar.cpp:944-1008 | With valid indexes, or with nothing cached for the direction, the answer is the list of exactly the sources that land somewhere or that some node leads to, in the order around the direction, and the indexes are valid afterwards; otherwise the cached list comes back and nothing changes. |
| SourceTable.TargetListMembers | src/fpga/Crossbar.cpp:957-969 | With valid indexes the full list has the usable sources of the graph, each once. |
| SourceTable.NodeListMembers | src/fpga/Crossbar.cpp:1035-1048 | With valid indexes the list of a node has the sources that it leads to, each once: those reachable, for locals and destinations. |
| SourceTable.NodeListIsSubsequence | src/fpga/Crossbar.cpp:1035-1048 | The list of a node is the full list without the sources that the node does not lead to. |
| SourceTable.OrderedNodeSrcNodes | src/fpga/Crossbar.cpp:1010-1049 | Connections, indexes and their validity stay. With valid indexes the answer is the list of exactly the sources that the node leads to, in the order around the direction; with stale ones it is the cached list of the node, or else what the cached list of the direction keeps of the listed sources. A value out of range has none and changes nothing. |
| CrossbarState.CBState.IterateSrcMask | src/fpga/Crossbar.cpp:1872-1896 | The answer is the next candidate after the given one that is neither taken nor an unwanted dead end, along the list of the direction; that list is the present graph's and the indexes are valid afterwards, unless the direction was cached before an edit. |
| CrossbarState.CBState.Iterate | src/fpga/Crossbar.cpp:1898-1905 | The same walk over the direct sources of a node; none for a number that is no node. |
| CrossbarState.CBState.AllCandidates | src/fpga/Crossbar.cpp:1872-1896 | Asking from -1 until -1 comes back lists every free candidate once, in order, and keeps valid indexes. |
| CrossbarState.CBState.AllDirect | src/fpga/Crossbar.cpp:1872-1905 | The walk of a node tries exactly its free direct sources, each once; only a direction cached before an edit can make it miss some. |
| SourceTable.NextFreeOfStranger | src/fpga/Crossbar.cpp:1883-1895 | A number that is not listed ends the walk. |
| RouteGraph.ReachableShapes | src/fpga/Crossbar.h:279-303 | Reachable means directly, through one joint, or through two. |
| Crossbar.CBType.RebuildJointIndexes | src/fpga/Crossbar.cpp:839-857 | The joint indexes agree with the connections of both tables between joints and sources. |
| Crossbar.CBType.RebuildDstIndexes | src/fpga/Crossbar.cpp:859-894 | A destination is indexed under a source or a local exactly if it reaches it through at most two joints. |
| Crossbar.CBType.OutgoingOf | src/fpga/Crossbar.cpp:896-939 | The list of a node has, without duplicates, its own sources and those behind its joints. |
| Crossbar.CBType.RebuildOutgoingSrcs | src/fpga/Crossbar.cpp:823-942 | After a rebuild all indexes agree with reachability in the present graph, and the ordered lists and entries cached for an older one are gone. |
| Crossbar.CBType.CanOut | src/fpga/Crossbar.cpp:1750-1781 | True exactly if the source is reachable from the local; the reported joints form a real path. |
| Crossbar.CBType.CanJump | src/fpga/Crossbar.cpp:1783-1813 | True exactly if the source is reachable from the destination; the reported joints form a real path. |
| Crossbar.CBType.CanIn | src/fpga/Crossbar.cpp:1815-1845 | True exactly if the local is reachable from the destination; the reported joints form a real path. |
| Crossbar.CBType.TerminalEntries | src/fpga/Crossbar.cpp:1051-1100 | The list has each legal entry into the local once, cached or not. |
| Crossbar.CBType.CanInAvoidingJoint | src/fpga/Crossbar.cpp:1847-1870 | True exactly if some legal entry avoids the joint. |
| Crossbar.CBType.CollectEntries | src/fpga/Crossbar.cpp:1079-1098 | The nested loops list exactly the legal entries, each once. |
| CrossbarUses.MandatoryInputJoints | src/fpga/Tile.cpp:2031-2065 | The answer has exactly the joints that lie on every incoming entry, in spite of the early exit. |
| CrossbarUses.MandatoryIsUnavoidable | src/fpga/Tile.cpp:2031-2065 | Without a filter a joint is mandatory if and only if entries exist and none avoids it. |
| CrossbarUses.JumpSourcesUsed | src/fpga/Device.cpp:172-184 | The used sources are those that land somewhere or that some table names. |
| CrossbarUses.PruneUnresolvedRouteSources | src/fpga/Device.cpp:285-313 | The graph loses exactly the sources that are named but land nowhere; either nothing changes, or the indexes are those of the new graph and no ordered list of the old one is cached. |
| CrossbarUses.PrunedRoute | src/fpga/Device.cpp:285-313 | Pruning takes away the routes that end in a struck source and no others. |
| CrossbarUses.PruningKeepsMeaning | src/fpga/Device.cpp:285-313 | Afterwards every named source lands somewhere, and reachability of landing sources and of locals is as before. |
| CrossbarUses.JointListMisses | src/fpga/Crossbar.cpp:933-939 | Which reachable sources the list of a joint leaves out, and when it leaves out none. |
| CrossbarUses.JointListMissesReverseLink | src/fpga/Crossbar.cpp:933-939 | A graph in which a joint reaches a source that its list lacks. |
| CrossbarState.CBState.HasFreeOut | src/fpga/Crossbar.cpp:1907-1936 | True exactly if some route out of the local uses only free joints and ends in a free source that lands somewhere. |
| EdgeSeparation.GcdDivides | src/clocks/Timings.cpp:83-87 | The gcd of two periods divides both. |
| EdgeSeparation.SeparationIsReached | src/clocks/Timings.cpp:83-87 | Some launch edge and some later capture edge are exactly the gcd apart. |
| EdgeSeparation.SeparationIsLeast | src/clocks/Timings.cpp:83-87 | No launch edge comes closer before a capture edge. |
| EdgeSeparation.SeparationWithinPeriod | src/clocks/Timings.cpp:83-87 | The separation is positive and at most one capture period, so launch offsets are not negative. |
| TimingTree.LaunchIsUnique | src/clocks/Timings.cpp:65-88 | A leaf has at most one launch offset for a capture clock, and it is not negative. |
| TimingTree.LocksDoNotMatter | src/clocks/Timings.cpp:45-115 | Without combinational cycles the locks never cut anything off. |
| TimingTree.WorstChain | src/clocks/Timings.cpp:151-216 | The worst value of a tree is the value of an accepted chain of the netlist. |
| TimingTree.LeastChain | src/clocks/Timings.cpp:151-216 | The least value of a tree, unless it is the cap, is the value of an accepted chain. |
| TimingTree.LeastUnderCap | src/clocks/Timings.cpp:151-216 | The least value is exact if and only if the pin is driven by a leaf or some chain costs at most the cap, and is the cap otherwise. |
| TimingTree.LeastStopsAtCap | src/clocks/Timings.cpp:180-212 | A netlist where the least time is the cap and every chain costs more. |
| TimingTree.LengthOfChain | src/clocks/Timings.cpp:89-112 | The length of a chain is the number of gates on it. |
| TimingTree.LengthsCountGates | src/clocks/Timings.cpp:89-112 | So the extreme lengths are those of the longest and the shortest chain. |
| TimingTree.GatesOnChain | src/clocks/Timings.cpp:45-112 | Without cycles the gates on a chain are different instances. |
| TimingTree.LengthsWithinCap | src/clocks/Timings.cpp:89-112 | Without cycles the cap on lengths is out of reach of every netlist that has at most one instance more than the cap. |
| TimingTree.ChainWithin | src/clocks/Timings.cpp:45-216 | Without cycles every accepted chain lies between the least and the worst value of the tree. |
| TimingTree.TreeMeasuresChains | src/clocks/Timings.cpp:45-216 | Without cycles the unshared recursion succeeds exactly if a chain exists; its worst values are the worst chains', and its least values the least chains' exactly within the cap, in time and in length. |
| TimingForest.LaunchClock | src/clocks/Timings.cpp:66-76 | The launch clock is the one that some clock pin has and no other contradicts. |
| TimingForest.Timings.LaunchOffset | src/clocks/Timings.cpp:63-91 | The offset is one capture period minus the gcd for a register with a related clock, 0 for a buffer, and none otherwise. |
| TimingForest.Timings.RecurseDataPeers | src/clocks/Timings.cpp:45-115 | The build ends on every netlist, releases its locks, leaves outputs unchanged when it fails, and without cycles agrees with the unshared recursion. |
| TimingForest.Timings.Share | src/clocks/Timings.cpp:56-61 | A known output is referred to, with its lengths. |
| TimingForest.Timings.BuildSubPaths | src/clocks/Timings.cpp:94-110 | The sub-paths that remain are those of the inputs that succeed, in order; if none does, nothing has changed. |
| TimingForest.CapturesAreUnique | src/clocks/Timings.cpp:124-130 | The check fails exactly if one data pin is captured by two clocks. |
| TimingForest.Timings.BuildDomain | src/clocks/Timings.cpp:134-141 | A capture domain gets a forest of its own, whose endpoints are constrained exactly where the build succeeds. |
| TimingForest.Timings.MakeTimingsList | src/clocks/Timings.cpp:117-148 | Either a pin is ambiguous and the earlier forests stay, or every clock has a new forest of its own and no two share a path. |
| TimingPropagation.SharedIsDone | src/clocks/Timings.cpp:156-163 | A shared output is computed before it is read. |
| TimingPropagation.RecurseTimings | src/clocks/Timings.cpp:151-216 | Through shared outputs, the times of a path become those of the tree that it stands for, and every sub-path below gets its own delay. |
| TimingPropagation.LogIsHeld | src/clocks/Timings.cpp:96-114 | Every shared output is a live sub-path below the path under whose construction it became known. |
| TimingPropagation.CalculateTimings | src/clocks/Timings.cpp:219-229 | All constrained endpoints and all shared outputs of all clocks are computed, in whatever order the clocks are visited. |
| TimingPropagation.EndpointIsExact | src/clocks/Timings.cpp:45-229 | Without cycles an endpoint is constrained exactly if a chain ends in it; its worst time and greatest length are exact, its least time is exact exactly within the cap, and its least length is that of the shortest chain exactly within the cap, so for every netlist up to the cap's size. |
| TimingPropagation.EndpointIsRealised | src/clocks/Timings.cpp:45-229 | On any netlist the time of a constrained endpoint is that of one of its chains. |
| TimingPropagation.SlackOfChain | src/clocks/Timings.cpp:82-87 | Capture period minus the value of a chain is its least slack over all pairs of edges. |
| TimingPropagation.WorstSlack | src/clocks/Timings.cpp:82-87 | Capture period minus the propagated time is the least slack over all chains and all pairs of edges, also for cones that mix launch clocks. |
| ElementBits.BelIndexFromPlacedPos | src/fpga/Tile.cpp:411-417 | Subtracting sites one by one gives the remainder, for positions below zero as well. |
| ElementBits.LaneRoundTrip | src/fpga/Tile.cpp:206-238 | Placing and decoding gives a lane back if and only if it is canonical, and otherwise the canonical lane below. |
| ElementBits.UnplacedDecodes | src/fpga/Tile.cpp:454-488 | Which positions below zero decode to lane 0. |
| ElementPacking.Tile.ReserveElementBit | src/fpga/Tile.cpp:193-204 | Exactly the claims of the cell leave the free mask, a full table taking the paired slot too. |
| ElementPacking.Tile.RefreshOccupancy | src/fpga/Tile.cpp:4124-4133 | Recomputed from scratch, free is what no resident claims. |
| ElementPacking.Tile.EnsureElementState | src/fpga/Tile.cpp:1605-1641 | The masks become valid, and valid masks are left alone. |
| ElementPacking.Tile.FreeElementCount | src/fpga/Tile.cpp:4147-4161 | The count is the quota minus what the residents claim. |
| ElementPacking.Tile.CanHost | src/fpga/Tile.cpp:3345-3361 | A sparse tile accepts a cell only within its quota, also for the paired slot. |
| ElementPacking.ClaimedTableHasOwner | src/fpga/Tile.cpp:1576-1596 | A claimed table slot always has an owner that the lookup finds. |
| ElementPacking.Tile.NeighborsCompatible | src/fpga/Tile.cpp:2695-2723 | Two tables share a lane only if neither is a full six-input table. |
| ElementPacking.Tile.QuotaAfter | src/fpga/Tile.cpp:3352-3361 | The quota still holds after an accepted cell. |
| ElementPacking.Tile.TryElementPlacement | src/fpga/Tile.cpp:2732-2773 | The answer is the lowest lane that is free, within quota and compatible; -1 if there is none. |
| ElementPacking.Tile.TryAdd | src/fpga/Tile.cpp:4443-4494 | The cell is placed at the lowest lane that accepts it or nothing changes; masks, disjoint claims and quota are kept. |
| ElementPacking.Tile.TryAddAt | src/fpga/Tile.cpp:4496-4594 | The cell is placed exactly if the position is legal, and nothing else changes. |
| ElementPacking.Tile.PeekAdd | src/fpga/Tile.cpp:4184-4198 | The position that adding would choose, without a change of residents. |
| ElementPacking.Tile.Unassign | src/fpga/Tile.cpp:4089-4137 | The cell leaves the tile and the masks are those of the remaining residents. |
| ElementPacking.SearchClaimsItsLane | src/fpga/Tile.cpp:4478-4486 | The search claims the lane that it took if and only if the lane is canonical. |
| ElementPacking.Tile.ElementInstAt | src/fpga/Tile.cpp:1576-1596 | The lookup finds the first resident that owns the slot, a full table owning the paired slot as well. |
| ElementPacking.Tile.ElementPlacementAtLegal | src/fpga/Tile.cpp:2775-2787 | True exactly if the lane of the position is free, within quota, compatible and not vetoed. |
| ElementPacking.Tile.CandidateIsFree | src/fpga/Tile.cpp:2732-2773 | What the search accepts claims nothing that a resident claims, where lanes are canonical. |
| ElementPacking.Tile.OneResidentLess | src/fpga/Tile.cpp:4089-4137 | With one resident less, claims stay disjoint and no quota is exceeded. |
| ElementPacking.Tile.Withdraw | src/fpga/Tile.cpp:4366-4375 | Taking the newest resident off and putting the old mask back leaves a right mask. |
| ElementLoading.RebuildElementsFromSites | src/fpga/Tile.cpp:3731-3804 | Loading lists exactly the elements that the sites with logic contribute. |
| ElementLoading.LoadedLanesAreCanonical | src/fpga/Tile.cpp:3731-3804 | A loaded tile type has canonical lanes only. |
| PackingPreview.Preview.constructor | src/fpga/Tile.cpp:4230-4237 | A preview starts with no reservation, valid masks and the tile's original masks remembered. |
| PackingPreview.RecordGrows | src/fpga/Tile.cpp:4304-4320 | A reservation extends the record of states by one step. |
| PackingPreview.RecordShrinks | src/fpga/Tile.cpp:4361-4378 | Each recorded state is followed by the next through one reservation, also after the last is taken back. |
| PackingPreview.Preview.ReserveAt | src/fpga/Tile.cpp:4290-4323 | A legal position is reserved and the state before it recorded, or nothing changes. |
| PackingPreview.Preview.Reserve | src/fpga/Tile.cpp:4338-4354 | The lowest lane whose position is accepted is reserved, or nothing changes. |
| PackingPreview.Preview.Rollback | src/fpga/Tile.cpp:4361-4378 | The masks, the residents and every cell's tile, position and coordinate are as when the stack last had that depth. |
| PackingPreview.Preview.ReservePack | src/fpga/Tile.cpp:4420-4441 | All members are reserved in order and listed, or nothing changes. |
| PackingPreview.Preview.Close | src/fpga/Tile.cpp:4255-4282 | The end of a preview restores the tile's original masks and every cell. |
| PackOrder.IndexMembers | src/fpga/Tile.cpp:4383-4387 | Indexing fails exactly for a missing member, one without a cell, or a repeated one. |
| PackOrder.Predecessors | src/fpga/Tile.cpp:4388-4401 | The predecessors are the members that feed a dedicated data input of a cell that is not exempt. |
| PackOrder.SomeReady | src/fpga/Tile.cpp:4404-4413 | There is always a member whose predecessors are selected. |
| PackOrder.FirstReady | src/fpga/Tile.cpp:4405-4411 | The least index that is ready. |
| PackOrder.OrderPack | src/fpga/Tile.cpp:4380-4418 | It succeeds exactly if the members are present, have cells and are different; the result is then the greedy dependency order, and otherwise the list stays as it is. |
| PackOrder.LeastOfAll | src/fpga/Tile.cpp:4402-4416 | Of all dependency orders the result is the least by index. |
| PackOrder.OrderedStays | src/fpga/Tile.cpp:4402-4416 | A pack in order stays as it is. |
| PackOrder.PermutedIsInOrder | src/fpga/Tile.cpp:4402-4416 | In the result no member comes before one that it depends on. |
| PackOrder.OrderingIsIdempotent | src/fpga/Tile.cpp:4380-4418 | Ordering twice changes nothing more. |

## Left out

- Readers of JSON and text, Tcl commands, logging, environment switches, drawing and printing: input, output and user interface.
- The placer, the router, `Pnr::run` and the route tables of wires: not part of this model.
- Spiral.SearchCells: takes the answer of `tryAdd` for a cell as a function of the cell, because a tile that refuses stays as it is; reports, limits on reports and the fatal exit are not modelled.
- Floating point: deficits are reals, times are whole ticks of 1 fs with periods on that grid; rounding is not modelled.
- Integer widths: numbers are unbounded, so the wrap-around of route identities, of lengths and of ratios is not modelled.
- Names of cells are numbers with the same order; technology lookups (delays, clock pins, buffers, declared clocks of a pin) are arbitrary functions or fields.
- `std::sort` is an insertion sort, `std::gcd` is Euclid's rule; hash functions are arbitrary, and the iteration over hash tables and over maps keyed by addresses is an arbitrary choice.
- SourceTable.OrderedNodeSrcNodes: while the indexes are stale, is not asked for a node whose list is not cached if sources are listed for it but the direction's own list is not cached either: the rebuild inside would drop the entry that is being filled (src/fpga/Crossbar.cpp:1032-1043).
- Leases of crossbar nodes, with the taken locals and destinations that only they read, a state without a crossbar type (every question is then answered by no), `materializeIntraCbContinuations`, and the node-name parser and subtype hashes of the crossbar.
- ElementPacking.Tile.NeighborsCompatible: takes the netlist rules about chains, shared clocks, generated pass-throughs and input wires, its own and those of `canHost`, as an arbitrary veto for each lane; only the overlay of tables and the quota are modelled.
- Input-joint reservations of the packer and their snapshots in a preview; the cell counters of a tile; the left and right blockers of elements.
- `reservePlacementAt` differs from `reserveAt` only in flags that feed the veto.
- Timing paths are built inside `makeTimingsList` only, where a capture clock is set; `launch_clock` and the placement fields of a path are not kept.
- Hold times are constant zero in the source and are not propagated here.
- `recurseClockPeers`, which finds the endpoints of a clock: the endpoints of each clock are given.
- ActiveWires.Seeds: reads tile types as sets of known, deferred and resolvable names instead of parsing them, and wires as pairs of tile type and name instead of joined strings.
- ElementPacking.Tile.TryAdd: keeps claims disjoint only where the lanes of the tile type are canonical, because elsewhere they need not be.
- ElementLoading.RebuildElementsFromSites: lists the lanes that sites contribute; names, columns, links between elements and clock groups of the elements are not modelled.
