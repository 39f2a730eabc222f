# roby_bgl graph algorithms — a Dafny model

This project models the graph algorithms of the `roby_bgl` Ruby extension.
They live in `ext/roby_bgl/algorithm.cc` and `ext/roby_bgl/undirected_dfs.hh`.
The model covers these parts:

- **The depth-first kernel.** The explicit-stack walk `undir_dfv_impl_term` is modelled as an imperative method over a colour map and an edge-colour array. With edge colours it is the undirected walk; without them it is Boost's plain `depth_first_visit`, which the directed queries use.
- **Its wrappers.** These are `undirected_depth_first_visit` and the whole-graph driver `undirected_dfs`.
- **The visitors.** These are the edge-yielding visitor with its event mask, the reachability visitor and the vertex recorder. The terminators are: none, the prune-flag `search_terminator`, and the reachability terminator.
- **The queries.** These are `each_dfs` on the direct, reverse and undirected views, `reachable?`, `each_bfs`, `generated_subgraphs` (`graph_components_i`, `graph_components_root_descriptor`), `components` and `topological_sort`.

**How a walk is described.** Every walk returns its history, a sequence of steps:

- initialize;
- discover, carrying the terminator's answer;
- examine an arc, carrying its classification;
- finish;
- dequeue.

A walk's contract states what each step must be, given the steps before it. This covers:

- the stack order: an examination leaves the gray vertex discovered last (the top of the stack), along the first arc of its range not yet examined;
- the classification of each arc, from the colours it reads;
- that the whole unpruned arc range of a vertex is examined before the vertex finishes;
- that a vertex finishes after everything discovered later than it;
- that a back edge closes a cycle.

Only the vertex discovered last may finish, so after any history at most one step fits: a depth-first walk of a run is unique (`DfsFacts.DfsUnique`).

The visitor's state after a walk is the history replayed through its callbacks. So "the block sees exactly the events the mask lets through, in order" is an `ensures` clause.

**The graph.** A graph is a sequence of distinct vertex descriptors and a sequence of edges `(source, target, info)`. An edge's identity is its position. The three views differ only in which arcs leave a vertex:

- direct: the stored out-edges;
- reverse: the in-edges, turned around;
- undirected: both, out-edges first.

**Where the code differs from its own comments.** The model follows the code in each case:

- `reachable?(v, v)` is always false, even with a self-loop. The self-loop is examined from a gray vertex, so it is a back edge, and only a tree edge raises the flag.
- `each_bfs` lowers the prune flag but never consults it. Calling `prune` from its block changes nothing about the walk.
- The undirected `each_dfs` lowers the prune flag only after the root lookup succeeds. With an absent root the flag keeps its value. The directed `each_dfs` lowers it first.
- In the undirected `each_dfs`, forward-or-cross events are reported with their own bit (4), like the directed ones.
- `generated_subgraphs` does not merge groups. A seed whose vertices were already coloured by an earlier seed starts no group. A later group holds only the vertices not coloured before it. A single-vertex group that is not wanted is dropped, but its vertex stays coloured.
- Without seeds, `generated_subgraphs` seeds only the root vertices of the view (those no arc enters). A vertex reachable only from a cycle with no root is in no group.
- `topological_sort` clears the caller's array first. When it raises "the graph is not a DAG", that array is left empty.
- `components` loses the singletons of absent seeds in some cases: see Findings.

## Model

| member | source | states |
|---|---|---|
| Colors.DefaultInsertInvisible | ext/roby_bgl/algorithm.cc:67-88 | the inserting `get` answers what the const `get` answers, and storing the default under a missing key changes no later lookup with that default |
| Colors.ColorMap.constructor | ext/roby_bgl/algorithm.cc:107-108 | a new colour map reads white for every vertex |
| Colors.ColorMap.Lookup | ext/roby_bgl/algorithm.cc:110-114 | returns the colour the key reads (white when never stored), stores white under a missing key, and no vertex's colour changes |
| Colors.ColorMap.Put | ext/roby_bgl/undirected_dfs.hh:56 | the key reads the stored colour afterwards and every other vertex keeps its colour |
| Visitors.MaskConstants | ext/roby_bgl/algorithm.cc:377-381 | NON_TREE is BACK or FORWARD_OR_CROSS, ALL is the three kinds, and the three single kinds share no bit |
| Visitors.Visitor.constructor | ext/roby_bgl/algorithm.cc:536-537 | a new visitor has its role and the given prune flag, with `found` lowered, an empty recorded component and no block calls |
| Visitors.Visitor.YieldEdge | ext/roby_bgl/algorithm.cc:400-410 | the block is called with source, target, info and kind exactly when the kind's bit is in the mask, and the prune flag rises when the block prunes |
| Visitors.Visitor.Notify | ext/roby_bgl/algorithm.cc:390-398 | tree, back and forward-or-cross events go to `yield_edge`; the reachability visitor raises `found` on a tree edge to its goal; other steps change nothing |
| Visitors.Visitor.DiscoverVertex | ext/roby_bgl/algorithm.cc:413-421 | the recorder adds the vertex; the answer is the terminator's; the prune-flag terminator lowers a raised flag, so one request prunes one vertex |
| Visitors.Visitor.ResetPruneFlag | ext/roby_bgl/algorithm.cc:428-432 | lowers the prune flag and changes nothing else |
| Visitors.Visitor.IsPruned | ext/roby_bgl/algorithm.cc:437-441 | answers the prune flag |
| Visitors.Visitor.Prune | ext/roby_bgl/algorithm.cc:448-453 | raises the prune flag and changes nothing else |
| Visitors.YieldsFilter | ext/roby_bgl/algorithm.cc:400-404 | the calls under any mask are the calls under ALL with the events outside the mask removed, in order |
| Visitors.ReplayCalls | ext/roby_bgl/algorithm.cc:400-410 | after a walk the block has received its earlier calls followed by exactly the delivered events of the history |
| Visitors.ReplayRecord | ext/roby_bgl/algorithm.cc:120-130 | the recorder holds its earlier contents plus exactly the vertices the history discovers |
| Visitors.ReplayFound | ext/roby_bgl/algorithm.cc:531-545 | the reachability flag is raised after a walk exactly when it was raised before or a tree edge of the history reaches the goal |
| Visitors.ReplayQuiet | ext/roby_bgl/algorithm.cc:413-421 | a block that never prunes leaves a lowered prune flag lowered |
| UndirectedDfs.DepthFirstVisit | ext/roby_bgl/undirected_dfs.hh:28-97 | the history is a complete depth-first walk of the root's white region in stack order (each examination leaves the gray vertex discovered last, along its next arc in order; every step as the colours call for, every discovered vertex finished with its unpruned range examined); the visitor saw exactly that history; discovered vertices end black and examined edges black, and nothing else changes colour |
| UndirectedDfs.DiscoverRoot | ext/roby_bgl/undirected_dfs.hh:56-64 | the root is discovered gray and its frame, emptied when the terminator prunes it, is the whole stack; the walk invariant holds |
| UndirectedDfs.PopAndFinish | ext/roby_bgl/undirected_dfs.hh:66-96 | one round of the outer loop keeps the walk invariant, and either a white vertex turns gray or the stack shrinks |
| UndirectedDfs.ExhaustFrame | ext/roby_bgl/undirected_dfs.hh:71-93 | the inner loop keeps the walk invariant and ends with the top frame's arcs exhausted |
| UndirectedDfs.ExamineArc | ext/roby_bgl/undirected_dfs.hh:72-92 | examining the next arc keeps the walk invariant and either descends (stack one deeper, one fewer white vertex) or moves one arc on |
| UndirectedDfs.ClassifyArc | ext/roby_bgl/undirected_dfs.hh:74-76 | the kind is the classification of the target's and edge's colours before the read; the edge turns black; white vertices stay white |
| UndirectedDfs.Descend | ext/roby_bgl/undirected_dfs.hh:77-85 | the current frame, one arc on, is saved; the target turns gray, is discovered and becomes the top, with no arcs when pruned |
| UndirectedDfs.FinishTop | ext/roby_bgl/undirected_dfs.hh:94-95 | the exhausted top vertex turns black and is finished, keeping the walk invariant |
| UndirectedDfs.UndirectedDepthFirstVisit | ext/roby_bgl/undirected_dfs.hh:213-220 | a complete depth-first walk of the undirected view, in stack order (each examination leaves the gray vertex discovered last, along its next arc in order), in which an edge examined once is never again reported as a back edge, with the colours as for the kernel |
| UndirectedDfs.InitializeVertices | ext/roby_bgl/undirected_dfs.hh:116-118 | every vertex reads white and the visitor saw one initialize event per vertex, in vertex order |
| UndirectedDfs.WhitenEdges | ext/roby_bgl/undirected_dfs.hh:120-121 | every edge is white |
| UndirectedDfs.ResetAll | ext/roby_bgl/undirected_dfs.hh:115-121 | all vertices and edges are white, and the history is one initialize step per vertex, in vertex order |
| UndirectedDfs.VisitRoot | ext/roby_bgl/undirected_dfs.hh:123-125 | the history grows by `Start(r)` and the undirected depth-first walk from `r`, in stack order, in the colours the history so far leaves (discovered vertices and examined edges black, the rest white); `r` ends black, colours already set are kept, and the driver invariant holds |
| UndirectedDfs.VisitIfWhite | ext/roby_bgl/undirected_dfs.hh:128-131 | a vertex the history has already discovered (one that is not white) adds nothing to the history; any other adds `Start(v)` and the depth-first walk from it, in stack order; `v` ends black and the driver invariant holds |
| UndirectedDfs.VisitAllWhite | ext/roby_bgl/undirected_dfs.hh:127-132 | the history grows by one entry per vertex, in vertex order: nothing for a vertex discovered by its turn, otherwise `Start` and the depth-first walk from it, in stack order, in the colours the history before it leaves; afterwards every vertex is black and the driver invariant holds |
| UndirectedDfs.PaintedDone | ext/roby_bgl/undirected_dfs.hh:127-132 | once every vertex is black, the history discovered exactly the vertices and every edge is black |
| UndirectedDfs.ResetAndStart | ext/roby_bgl/undirected_dfs.hh:115-125 | the history is one initialize step per vertex in vertex order, then, unless `start` is the first vertex, `Start(start)` and the depth-first walk from it, in stack order, over the all-white graph; the driver invariant holds |
| UndirectedDfs.UndirectedDfs | ext/roby_bgl/undirected_dfs.hh:104-133 | the history is exactly: the initialize steps in vertex order; `Start(start)` and its walk unless `start` is the first vertex; then, in vertex order, `Start` and a depth-first walk for each vertex not discovered by its turn, each walk in stack order (an examination leaves the gray vertex discovered last, along its next arc) and in the colours the history before it leaves. Every vertex and every edge ends black, each vertex is discovered exactly once, and the visitor saw exactly the history |
| Walks.InvStart | ext/roby_bgl/undirected_dfs.hh:56-64 | the walk invariant holds after the root's discovery |
| Walks.InvTree | ext/roby_bgl/undirected_dfs.hh:77-85 | a tree edge followed by the target's discovery keeps the walk invariant |
| Walks.InvNonTree | ext/roby_bgl/undirected_dfs.hh:86-92 | a back, forward-or-cross or unreported examination keeps the walk invariant |
| Walks.InvFinish | ext/roby_bgl/undirected_dfs.hh:94-95 | finishing the exhausted top vertex keeps the walk invariant |
| Walks.InvDone | ext/roby_bgl/undirected_dfs.hh:66 | with an empty stack the invariant gives a complete depth-first walk, whose every examination left the top of the stack (the gray vertex discovered last) along its next arc |
| DfsFacts.TreeThenDiscover | ext/roby_bgl/undirected_dfs.hh:77-82 | a tree edge is immediately followed by the discovery of its target |
| DfsFacts.DiscoveredByTree | ext/roby_bgl/undirected_dfs.hh:77-82 | every discovered vertex other than the root is the target of a tree edge |
| DfsFacts.DiscoverOnce | ext/roby_bgl/undirected_dfs.hh:77-82 | no vertex is discovered twice |
| DfsFacts.FinishOnce | ext/roby_bgl/undirected_dfs.hh:94-95 | no vertex is finished twice |
| DfsFacts.BackOnlyFirst | ext/roby_bgl/undirected_dfs.hh:75-76 | with edge colours, a later examination of an already examined edge is never a back edge |
| DfsFacts.NeverPrunes | ext/roby_bgl/undirected_dfs.hh:23-26 | with the default terminator no vertex is pruned |
| DfsFacts.QuietNeverPrunes | ext/roby_bgl/algorithm.cc:413-421 | with the prune-flag terminator, a lowered flag and a block that never prunes, no vertex is pruned |
| DfsFacts.FoundNeverPrunes | ext/roby_bgl/algorithm.cc:547-555 | the reachability terminator prunes nothing while no tree edge has reached the goal |
| DfsFacts.TreeEdgeFacts | ext/roby_bgl/undirected_dfs.hh:77-82 | the target of a tree edge is discovered and is not the root |
| DfsFacts.DiscoveredInGraph | ext/roby_bgl/undirected_dfs.hh:72 | a walk discovers only vertices of the graph |
| DfsFacts.EdgesOfDiscovered | ext/roby_bgl/undirected_dfs.hh:71-76 | in an unpruned undirected walk every edge leaving a discovered vertex is examined |
| DfsFacts.ColorsForward | ext/roby_bgl/undirected_dfs.hh:56 | colours only move forward: white, then gray, then black |
| DfsFacts.ExaminedTargetSeen | ext/roby_bgl/undirected_dfs.hh:72-92 | the target of an examined arc is discovered or was not white before the walk |
| DfsFacts.Closure | ext/roby_bgl/undirected_dfs.hh:66-96 | an unpruned walk discovers exactly the vertices reachable from the root through vertices white before the walk |
| DfsFacts.NextStepSame | ext/roby_bgl/undirected_dfs.hh:66-96 | after a given history at most one step is well-formed: the discovery a tree edge calls for, else the top vertex's next arc, else the top vertex's finish |
| DfsFacts.DfsUnique | ext/roby_bgl/undirected_dfs.hh:66-96 | two histories that are both depth-first walks of the same run are equal: the block sees its calls in one order only |
| DfsFacts.InterleavedRejected | ext/roby_bgl/undirected_dfs.hh:66-93 | on the graph with arcs 0→1, 0→2, 1→3, the history that examines 0→2 while 1, discovered later, is still gray is not a depth-first walk from 0 |
| Reachability.ReachesSymmetric | ext/roby_bgl/algorithm.cc:258-261 | in the undirected view reachability is symmetric |
| Reachability.ReachesTrans | ext/roby_bgl/algorithm.cc:258-261 | reachability is transitive |
| Search.EachDfs | ext/roby_bgl/algorithm.cc:455-469 | lowers the prune flag; with an absent root nothing else happens; otherwise the history is a depth-first walk in stack order (each examination leaves the gray vertex discovered last, along its next arc) with the prune-flag terminator and a fresh colour map, and the block received exactly its delivered events |
| Search.UndirectedEachDfs | ext/roby_bgl/algorithm.cc:506-529 | with an absent root nothing changes; otherwise edges are whitened, the flag lowered and the undirected depth-first walk run, in stack order (each examination leaves the gray vertex discovered last, along its next arc); examined edges end black and all others white; no edge is reported as a back edge twice |
| Search.QuietWalkCovers | ext/roby_bgl/algorithm.cc:455-469 | when the block never prunes, the walk discovers exactly the vertices reachable from the root and examines every arc of each |
| Search.ReachMeans | ext/roby_bgl/algorithm.cc:531-555 | the reachability walk has a tree edge to the goal exactly when the goal differs from the root and is reachable from it |
| Search.Reachable | ext/roby_bgl/algorithm.cc:562-579 | true exactly when both ends are vertices, they differ, and the target is reachable from the source |
| Search.EachBfs | ext/roby_bgl/algorithm.cc:607-625 | a mask with exactly one of the two non-tree bits is refused with its message and nothing changes; an absent root changes nothing; otherwise the flag is lowered and the block receives the delivered events of the one breadth-first walk of the root (see BreadthFirst.BreadthFirstSearch) |
| BreadthFirst.BreadthFirstSearch | ext/roby_bgl/algorithm.cc:619-623 | the history discovers the root, then gives each discovered vertex its turn in discovery (FIFO) order: it is dequeued, its arcs are examined in arc order (a tree arc followed at once by its target's discovery), and it is finished; every reachable vertex is discovered exactly once, each arc is classified by what was already discovered, and the visitor saw exactly that history |
| BreadthFirst.BfsUnique | ext/roby_bgl/algorithm.cc:619-623 | two histories that are both breadth-first walks of the same graph, view and root are equal: the block sees its calls in one order only |
| BreadthFirst.DepthFirstOrderRejected | ext/roby_bgl/algorithm.cc:619-623 | on the graph with arcs 0→1, 0→2, 1→3, the depth-first history from 0 (1 and 3 before 2) is not a breadth-first walk from 0 |
| Grouping.AbsentSingles | ext/roby_bgl/algorithm.cc:184-200 | with singletons wanted, the singletons are exactly `{x}` for the seeds absent from the graph; otherwise none |
| Grouping.RootDescriptor | ext/roby_bgl/algorithm.cc:184-200 | a vertex is answered as its descriptor with the result unchanged; an absent value answers null and, when singletons are wanted, `{v}` is appended at the back |
| Grouping.WalkRegion | ext/roby_bgl/algorithm.cc:172 | a walk that never prunes discovers exactly the region of its root outside the vertices already coloured |
| Grouping.WalkSeed | ext/roby_bgl/algorithm.cc:168-172 | the recorder walk from a white seed records the seed's region outside the coloured vertices and colours exactly that region |
| Grouping.VisitSeed | ext/roby_bgl/algorithm.cc:164-177 | one round of the seed loop leaves the list and colours of one more sweep step |
| Grouping.GraphComponentsI | ext/roby_bgl/algorithm.cc:159-179 | the result is the kept groups, newest first, followed by the singletons of the absent seeds in seed order |
| Grouping.SweepTidy | ext/roby_bgl/algorithm.cc:159-179 | coloured vertices are graph vertices closed under the view's arcs; groups lie among them, are pairwise disjoint, have more than one vertex unless singletons are wanted, and with singletons wanted cover every coloured vertex |
| Grouping.SweepSeeds | ext/roby_bgl/algorithm.cc:164-177 | every kept group holds one of the seeds |
| Grouping.SweepSingles | ext/roby_bgl/algorithm.cc:189-196 | the singletons at the back are those of the absent seeds, in seed order |
| Grouping.SweepCovers | ext/roby_bgl/algorithm.cc:164-172 | the coloured vertices are exactly those reachable from a seed that is a vertex |
| Grouping.Roots | ext/roby_bgl/algorithm.cc:212-229 | the default seeds are exactly the vertices of the view that no arc enters |
| Grouping.GeneratedSubgraphs | ext/roby_bgl/algorithm.cc:202-252 | the answer is the sweep of the given seeds (looked up) or of the roots (no lookup): kept groups, then absent singletons |
| Components.RegionIsComponent | ext/roby_bgl/algorithm.cc:279-281 | outside a closed set of coloured vertices, a walk's region is the whole undirected component of its root |
| Components.SameComponent | ext/roby_bgl/algorithm.cc:258-261 | two vertices joined by an undirected path have the same component |
| Components.AddClass | ext/roby_bgl/algorithm.cc:279-281 | numbering a new walk's region as the next class keeps every class a whole, non-empty component |
| Components.NumberFrom | ext/roby_bgl/algorithm.cc:279-281 | after the walk from a vertex the numbering still consists of whole components, includes the vertex and keeps earlier classes |
| Components.ConnectedComponents | ext/roby_bgl/algorithm.cc:276-281 | every vertex gets a class below the count; every class is used; each vertex's class is exactly its undirected component |
| Components.EnableSeeds | ext/roby_bgl/algorithm.cc:286-306 | the pushed singletons are those of the absent seeds when singletons are wanted, and class `i` is enabled exactly when it holds a seed |
| Components.FillMembers | ext/roby_bgl/algorithm.cc:316-324 | each enabled class receives exactly its members; disabled ones stay empty |
| Components.KeepClasses | ext/roby_bgl/algorithm.cc:326-339 | the array after dropping single-vertex classes and compacting is the enabled member sets that stay, in class order |
| Components.KeptDisjoint | ext/roby_bgl/algorithm.cc:309-324 | the member sets that stay share no vertex |
| Components.KeptPicked | ext/roby_bgl/algorithm.cc:258-264 | every set that stays is a component the call reports |
| Components.PickedKept | ext/roby_bgl/algorithm.cc:258-264 | every component the call reports stays |
| Components.KeptAnswer | ext/roby_bgl/algorithm.cc:258-264 | the sets that stay are exactly the reported components, each once |
| Components.SinglesDistinct | ext/roby_bgl/algorithm.cc:291-304 | distinct seeds, the members of the seed set, report each absent seed's singleton at most once |
| Components.SelectClasses | ext/roby_bgl/algorithm.cc:283-339 | the absent singletons, then exactly the wanted components, pairwise disjoint |
| Components.Components | ext/roby_bgl/algorithm.cc:266-341 | (corrected) the answer is the absent seeds' singletons in seed order, no singleton twice, followed by every wanted component exactly once: all components without seeds, those holding a seed otherwise, without single-vertex ones when singletons are not wanted |
| Components.Store | ext/roby_bgl/algorithm.cc:313 | `rb_ary_store` writes slot `i`, pads with nil up to `i`, and leaves every other slot as it was |
| Components.Compact | ext/roby_bgl/algorithm.cc:339 | `compact!` keeps exactly the non-nil slots |
| Components.ComponentsAsWritten | ext/roby_bgl/algorithm.cc:303-339 | (as written) the array after the store, blank and compact loops holds only pushed singletons and class member sets |
| Components.AsWrittenWithoutSingles | ext/roby_bgl/algorithm.cc:308-339 | with no absent singleton pushed, the loops as written give the intended answer |
| Components.AbsentSingletonOverwritten | ext/roby_bgl/algorithm.cc:303-313 | for one vertex 1 and seeds 5 then 1, the intended answer starts with `{5}`, but the loops as written answer `[{1}]` |
| TopoSort.ResultArray.constructor | ext/roby_bgl/algorithm.cc:679-680 | a new result array is empty |
| TopoSort.ResultArray.Clear | ext/roby_bgl/algorithm.cc:681-682 | the caller's array is emptied |
| TopoSort.ResultArray.Push | ext/roby_bgl/algorithm.cc:693-694 | one vertex is appended |
| TopoSort.FinishOrderHas | ext/roby_bgl/algorithm.cc:690-691 | a vertex is in the finishing order exactly when the walk finishes it |
| TopoSort.FinishPos | ext/roby_bgl/algorithm.cc:690-691 | the k-th finished vertex is finished at a step before which exactly the first k were finished |
| TopoSort.FinishOrderDistinct | ext/roby_bgl/algorithm.cc:690-691 | the finishing order lists no vertex twice |
| TopoSort.SuccessorFinished | ext/roby_bgl/algorithm.cc:690-691 | in a walk without back edges every successor of a vertex finishes before it or was black before the walk |
| TopoSort.SegmentOrder | ext/roby_bgl/algorithm.cc:690-691 | appending one root's finishing order keeps every vertex once and every successor first |
| TopoSort.BackCycle | ext/roby_bgl/algorithm.cc:697-698 | a back edge closes a directed cycle |
| TopoSort.BackMeansCycle | ext/roby_bgl/algorithm.cc:697-698 | a walk that examined a back edge proves the graph has a cycle |
| TopoSort.OrderedAcyclic | ext/roby_bgl/algorithm.cc:697-698 | a graph with a topological order has no directed cycle |
| TopoSort.ReversedTopo | ext/roby_bgl/algorithm.cc:693-694 | reversing a successors-first listing of all vertices gives a topological order |
| TopoSort.Reversed | ext/roby_bgl/algorithm.cc:693-694 | the pushes from the last position to the first give element `i` as the source's element `n - 1 - i` |
| TopoSort.FinishAll | ext/roby_bgl/algorithm.cc:687-691 | either every vertex is listed once and after all its successors, or the graph has a cycle |
| TopoSort.TopologicalSort | ext/roby_bgl/algorithm.cc:674-699 | raises "the graph is not a DAG" exactly when the graph has a directed cycle, leaving the caller's array empty; otherwise returns the caller's (or a new) array holding every vertex once with every edge pointing forward |

## Left out

- Ruby glue is not modelled:
  - argument scanning and conversion;
  - `rb_to_vertex`;
  - the `rb_to_set` type check and its "expected a ValueSet" error;
  - `set_to_rb`;
  - method registration;
  - the view wrappers that only pick a view (`graph_reverse_*`, `graph_undirected_*`).
  A vertex's Ruby object is its descriptor.
- The prune flag is thread-local in the source. Here it is a field of the visitor, and concurrent threads are not modelled.
- The block is a function of the calls made so far that says whether it prunes. Its other effects, and exceptions it raises, are not modelled.
- Boost algorithms are modelled by their standard behaviour, not their code: `depth_first_visit` (the same kernel without edge colours), `breadth_first_search`, `connected_components` and `topological_sort`.
- The `undirected_dfs` overloads at `ext/roby_bgl/undirected_dfs.hh:135-207` are not modelled, because nothing calls them.
- The Ruby files and the benchmarks are not part of this model.
- Components.ConnectedComponents: states that the classes are exactly the components, but not which class gets which number. So the order of the components in the `components` answer is not stated.
- Components.Components: component arrays are modelled as sets, so the order of vertices inside one component is not stated. `Answer` states membership and disjointness, not class order.
- Components.Components: the seed `ValueSet` is taken as a sequence of distinct vertices in its iteration order. That order comes from the Ruby set and is not modelled, so "seed order" means the set's iteration order.
- Components.FillMembers: pushes vertices in map-key order, but the model keeps sets, so that order is lost.
- Grouping.GeneratedSubgraphs: the seed `ValueSet` is taken as a sequence of distinct vertices in its iteration order. That order comes from the Ruby set and is not modelled.
- Grouping.Roots: the root filter `vertex_has_adjacent_i` is declared in a header that is not part of this model. It is modelled as "no arc of the view enters the vertex".
- TopoSort.TopologicalSort: states that the result is a topological order, not which one. The code gives the reversed finishing order of the walk in vertex order.
- TopoSort.FinishAll: Boost throws `not_a_dag` at the first back edge. The model finishes that root's walk and then checks for a back edge. No visitor callback or shared colour map can observe the difference.
- Search.EachBfs: the mask is modelled as a 32-bit vector. Ruby fixnums outside that range are not considered.

## Findings

| source | as written | input that shows it | evidently intended | confidence | as-written member | corrected member |
|---|---|---|---|---|---|---|
| ext/roby_bgl/algorithm.cc:303-313 | The seed loop pushes `[v]` at the front of the answer array for each absent seed. The store loop then writes enabled class `i` to slot `i` with `rb_ary_store`, overwriting the pushed singletons. | A graph whose only vertex is 1, with seeds 5 (absent) then 1 and singletons wanted. The answer is `[[1]]`; `{5}` is lost (Components.AbsentSingletonOverwritten). | The absent seeds' singletons, followed by the enabled components: `[[5], [1]]`. | not executed | Components.ComponentsAsWritten | Components.Components |
