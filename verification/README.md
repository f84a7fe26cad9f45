# Compact-star networks, searches and shortest paths

A Dafny model of the core of the `networks` Rust library. It covers:

- **The compact star.** `CompactStar` builds a network's compact (forward and reverse) star from an arc list and answers queries on it:
  - adjacency;
  - the first arc to a node;
  - cost and capacity;
  - node count, arc count, the invalid id and `infinity()`.
- **Generic graph search.** `Search` models the queue/stack search behind breadth-first and depth-first search. Its containers are in `Collections`.
- **Dijkstra.** `DijkstraAlgorithms` models both variants:
  - the vanilla variant with its `find_min` and `find_min_index` scans;
  - the heap variant, over the negated-cost max-heap in `Heaps`.
- **Reading an arc list from text.** `ParseText` models `edges_from_file`, `parse_line` and `inc_node_counter`.

Modules follow the library's files:

- `Types` (types.dfy): arcs (`tail, head, cost, capacity`), arc projections and sums.
- `ArcSort` (arc_sort.dfy): the stable sort of the arc list by tail.
- `CompactStar` (compact_star.dfy): the `Star` datatype, the queries and the construction.
- `Collections` (collections.dfy): `Queue` and `Stack` as one `Collection` with a `Fifo`/`Lifo` discipline.
- `Heaps` (heaps.dfy): the heap members, their order, and the binary heap.
- `Paths` (paths.dfy): walks, their costs, reachability.
- `Search` (search.dfy): the generic search, BFS and DFS.
- `ShortestPaths` (shortest_paths.dfy): what a Dijkstra result promises, and why that promise is unique.
- `DijkstraAlgorithms` (dijkstra.dfy): relaxation, `find_min`, `find_min_index` and both variants.
- `ParseText` (parse_text.dfy): name-to-id assignment, line parsing and the reading loop.
- `CompactStarExamples`, `SearchExamples`, `DijkstraExamples`: the library's own tests, as lemmas.

**The compact star.**
- A network is the datatype `Star`. Its fields are `point`, `rpoint`, `tail`, `head`, `trace`, `costs`, `capacities` and `costSum`.
- `StarOf` is the reference definition of construction, field by field:
  - sort the arcs by tail, stably;
  - `point[p]` counts the arcs with tail below `p`;
  - node `i`'s slice of `trace` lists the indices of the arcs into `i`, in ascending order.
- `FromEdgeVec` models the loop of `compact_star_from_edge_vec`, and its contract says it computes `StarOf`. It also returns the caller's arc list as the source leaves it, sorted in place by tail.

**Dijkstra results.**
- Each variant is specified by `ShortestPaths.ShortestPathResult`, which says:
  - every step `u -> v` of a walk is priced at the first arc `u -> v`, since that is the arc `cost(u, v)` finds;
  - every finite distance is the cost of a walk;
  - no arc offers a shortcut at that price;
  - a predecessor is recorded exactly for the nodes other than the source whose distance dropped below the start value.
- `DistUnique` shows that such a result has only one distance list. So the two variants agree on distances, and the library's test values follow from the contract alone.

**Numbers and strings.**
- Costs and capacities are natural numbers, not `f64`.
- Node ids are unbounded naturals.
- Node names are `string`s.

## Model

| member | source | states |
|---|---|---|
| Collections.New | src/collections.rs:22-26 | a new collection is empty and has the requested discipline |
| Collections.WithCapacity | src/collections.rs:28-32 | the capacity hint gives the same empty collection as `new` |
| Collections.IsEmpty | src/collections.rs:46-48 | empty exactly when the size is 0, for the queue and (lines 76-78) the stack alike |
| Collections.Push | src/collections.rs:34-36 | push appends at the back for queue and stack alike; the old contents stay in front and the size grows by one |
| Collections.Peek | src/collections.rs:42-44 | `None` exactly on an empty collection, otherwise an element it holds |
| Collections.Pop | src/collections.rs:38-40 | pop returns what peek shows and removes it: the front of a queue, the back of a stack; an empty collection is unchanged |
| Collections.PushAllData | src/collections.rs:34-36 | pushing a list appends it to the contents |
| Collections.DrainQueue | src/collections.rs:38-40 | popping a queue until empty yields its contents front to back (first in, first out) |
| Collections.DrainStack | src/collections.rs:68-70 | popping a stack until empty yields its contents back to front (last in, first out) |
| Collections.StackPushPop | src/collections.rs:64-70 | on a stack, pop right after push returns the pushed element and restores the stack |
| Collections.QueuePushPop | src/collections.rs:34-40 | on a non-empty queue, push at the back and pop at the front commute |
| Collections.PushThenDrain | src/collections.rs:81-115 | elements pushed on a fresh queue come out in push order, and from a fresh stack reversed |
| Collections.QueueExample | src/collections.rs:81-97 | the queue test: after pushing 0..4, pop gives 0, peek shows 1, and four more pops empty it |
| Collections.StackExample | src/collections.rs:99-115 | the stack test: after pushing 0..4, pop gives 4, peek shows 3, and four more pops empty it |
| Heaps.Cmp | src/heaps.rs:101-110 | members compare by cost alone: Less, Equal or Greater exactly as the costs compare |
| Heaps.CmpConsistent | src/heaps.rs:72-98 | `lt`, `gt`, `le` and `ge` agree with `cmp`; `cmp` is antisymmetric; keys play no part |
| Heaps.OrderingExamples | src/heaps.rs:113-136 | the ordering tests on costs 0, 1 and -1 |
| Heaps.New | src/heaps.rs:27-31 | a new heap is empty with size 0 |
| Heaps.WithCapacity | src/heaps.rs:32-36 | the capacity hint gives the same empty heap |
| Heaps.IsEmpty | src/heaps.rs:46-51 | `is_empty` holds exactly when `size` is 0 |
| Heaps.TopIndexMax | src/heaps.rs:40-45 | the top position holds a greatest stored cost, and every member before it is strictly smaller |
| Heaps.Top | src/heaps.rs:40-45 | the top member is in the heap and no member has a greater stored cost |
| Heaps.FindMin | src/heaps.rs:40-45 | `None` exactly on an empty heap; otherwise the key of a member whose real (un-negated) cost is minimal |
| Heaps.Insert | src/heaps.rs:52-56 | adds exactly one member, the key with its cost negated; the size grows by one |
| Heaps.DeleteMin | src/heaps.rs:57-59 | removes exactly the top member and shrinks the size by one; an empty heap is unchanged |
| Heaps.DeleteMinSub | src/heaps.rs:57-59 | delete-min adds no member |
| Heaps.DeleteMinKeeps | src/heaps.rs:57-59 | every member other than the top survives delete-min |
| Heaps.InsertMembers | src/heaps.rs:54-56 | after insert, the members are the old ones plus the inserted one |
| Heaps.HeapExampleStart | src/heaps.rs:139-144 | heap test: key 0 is the minimum; inserting key 1 then deleting the minimum leaves key 1 alone |
| Heaps.HeapExampleGrow | src/heaps.rs:145-148 | heap test: with keys 2 and 3 added the size is 3 and key 1 is the minimum |
| Heaps.HeapExampleEnd | src/heaps.rs:149-152 | heap test: with keys 4 and 5 added the size is 5 and key 1 is still the minimum |
| Heaps.HeapExampleReinsert | src/heaps.rs:153 | heap test: re-inserting key 0 at cost 0 adds one member and keeps the rest |
| Heaps.HeapExampleLast | src/heaps.rs:154 | heap test: key 0 is the minimum again |
| ArcSort.Insert | src/compact_star.rs:119 | one insertion step of the sort adds exactly the inserted arc |
| ArcSort.SortSorts | src/compact_star.rs:119 | the sorted arc list has non-decreasing tails |
| ArcSort.SortPermutes | src/compact_star.rs:119 | sorting permutes the arcs: same multiset |
| ArcSort.InsertSorted | src/compact_star.rs:119 | inserting into a sorted list keeps it sorted |
| ArcSort.SortStable | src/compact_star.rs:119 | the sort is stable: the arcs leaving each node keep their input order |
| ArcSort.SortEdges | src/compact_star.rs:115-119 | the caller's vector after the in-place sort holds the same arcs (same multiset), with non-decreasing tails, and the arcs leaving each node in input order |
| ArcSort.SortOfSorted | src/compact_star.rs:119 | a list already sorted by tail is left unchanged |
| ArcSort.SortTotalCost | src/compact_star.rs:136 | the cost sum of the sorted list is that of the input |
| CompactStar.NumArcs | src/compact_star.rs:98-100 | in a valid star, the arc count is the length of the arc arrays and the end of the last `point` range |
| CompactStar.InvalidId | src/compact_star.rs:102-104 | the invalid id is the node count; in a valid star no arc enters it |
| CompactStar.Adjacent | src/compact_star.rs:63-79 | the heads in `from`'s range, each a node id; empty when `from` is not a node |
| CompactStar.FirstHead | src/compact_star.rs:45-51 | the first index in `[lo, hi)` whose head is `to`; `None` exactly when no head there is `to` |
| CompactStar.GetHead | src/compact_star.rs:33-52 | an arc index is found exactly when `to` is adjacent to `from`; it lies in `from`'s range, has head `to`, and no earlier arc of the range does |
| CompactStar.Get | src/compact_star.rs:54-58 | a value exactly when `to` is adjacent to `from`; it is the vector's entry at `get_head`'s index |
| CompactStar.Cost | src/compact_star.rs:81-83 | a cost exactly when the arc `i -> j` exists |
| CompactStar.Capacity | src/compact_star.rs:85-87 | a capacity exactly when the arc `i -> j` exists |
| CompactStar.InArcsFacts | src/compact_star.rs:144-145 | a node's in-arc list holds, in ascending order, exactly the indices of the arcs into it |
| CompactStar.TraceMembers | src/compact_star.rs:150-160 | the trace of the first `i` nodes lists each arc into them exactly once |
| CompactStar.SortedIds | src/compact_star.rs:114-119 | sorting keeps every endpoint a valid node id |
| CompactStar.FromEdgeVec | src/compact_star.rs:115-170 | construction yields the reference star of the sorted arcs; it is valid, with `nodes` nodes, `nodes` as invalid id, one arc per input arc, and infinity equal to the cost sum; the caller's list comes back sorted in place, as `SortByTail` of the input (ArcSort.SortEdges) |
| CompactStar.ForwardPass | src/compact_star.rs:126-148 | the arc loop fills `tail`, `head`, `costs` and `capacities` in sorted order and sums the costs; `point[p]` counts the arcs with tail below `p`; the in-node map lists each node's incoming arc indices |
| CompactStar.AppendArrays | src/compact_star.rs:133-137 | one arc extends every arc array by its field and adds its cost to the sum |
| CompactStar.OpenRanges | src/compact_star.rs:139-142 | the inner loop opens every range up to the arc's tail, each starting at the number of arcs with smaller tail |
| CompactStar.ReversePass | src/compact_star.rs:150-160 | the node loop lays out `trace` node by node and `rpoint` as the running count |
| CompactStar.ClosePoint | src/compact_star.rs:162-167 | the closing loop completes `point` to `nodes + 1` entries, the last one the arc count |
| CompactStar.StarOfValid | src/compact_star.rs:89-108 | a constructed star is valid: `point` runs from 0 to the arc count without decreasing; on it `num_nodes` is `nodes`, `num_arcs` the number of input arcs, `invalid_id` is `nodes`, and `infinity` the sum of the input costs |
| CompactStar.StarOfAdjacent | src/compact_star.rs:63-79 | in a constructed star, `adjacent(i)` is the heads of the input arcs leaving `i`, in input order |
| CompactStar.StarOfGrouping | src/compact_star.rs:133-142 | `tail` is sorted, and `tail[k] == i` exactly for `k` in `[point[i], point[i + 1])` |
| CompactStar.TailRange | src/compact_star.rs:139-142 | in a sorted list, the arcs leaving `i` sit between the counts of tails below `i` and below `i + 1` |
| CompactStar.StarOfCost | src/compact_star.rs:81-87 | in a constructed star, `cost(i, j)` and `capacity(i, j)` come from the first input arc `i -> j`, and are `None` when there is none |
| CompactStar.StarOfReverse | src/compact_star.rs:150-168 | `rpoint` has `nodes + 1` non-decreasing entries from 0 to the arc count; `trace` lists every arc index exactly once |
| CompactStar.StarOfTraceGroups | src/compact_star.rs:150-160 | node `i`'s slice of `trace` lists, ascending, exactly the arcs whose head is `i` |
| CompactStar.StarOfSorted | src/compact_star.rs:119 | for an already sorted list, construction is the field-wise layout with no reordering |
| CompactStarExamples.SampleQueries | src/compact_star.rs:181-203 | the sample-network test: `get_head(3,4)`, `cost(4,3)`, `capacity(1,3)`, the node count, every adjacency and the invalid id |
| CompactStarExamples.BuildSample | src/compact_star.rs:205-228 | building from the eight test arcs gives the test's star, with cost sum 240 |
| CompactStarExamples.SampleForward | src/compact_star.rs:208-215 | the test's `point`, `tail`, `head`, `costs`, `capacities` and cost sum |
| CompactStarExamples.SampleReverse | src/compact_star.rs:209-214 | the test's `rpoint` and `trace` |
| CompactStarExamples.BuildShortestPathNetwork | src/compact_star.rs:230-245 | the second construction test: 6 nodes and `point == [0,2,4,6,7,9,9]` |
| Search.FirstUnmarked | src/algorithms/search_algorithms.rs:61-67 | the candidate scan finds an unmarked neighbour, or reports that all neighbours are marked |
| Search.FirstUnmarkedIsFirst | src/algorithms/search_algorithms.rs:62-67 | the scan stops at the first unmarked neighbour: everything before it is marked |
| Search.Step | src/algorithms/search_algorithms.rs:59-76 | one loop iteration either marks a new node or pops one, so the measure `2·unmarked + queued` drops |
| Search.RunFacts | src/algorithms.rs:45-83 | from the initial state, the final predecessor and order lists meet the search specification |
| Search.SearchStep | src/algorithms/search_algorithms.rs:60-76 | the loop body computes one iteration |
| Search.SearchLoop | src/algorithms/search_algorithms.rs:59-77 | the while loop computes the run to an empty container |
| Search.GenericSearch | src/algorithms/search_algorithms.rs:47-85 | `pred[v]` is set exactly for the nodes other than `start` reachable from it, via an arc from an earlier-discovered node; `start` keeps the invalid id and order `start`; undiscovered nodes keep order 0; discovery numbers are distinct and have no gaps |
| Search.BreadthFirstSearch | src/algorithms/search_algorithms.rs:27-31 | the search over a queue, meeting the search specification |
| Search.DepthFirstSearch | src/algorithms/search_algorithms.rs:40-44 | the search over a stack, meeting the search specification |
| Search.SameDiscovered | src/algorithms/search_algorithms.rs:27-44 | BFS and DFS discover the same nodes |
| Search.IterationsBound | src/algorithms/search_algorithms.rs:59-77 | the loop runs at most twice per unmarked node plus once per queued node |
| Search.SearchTerminates | src/algorithms/search_algorithms.rs:59-77 | from the initial state the loop makes fewer than `2n` iterations |
| SearchExamples.BfsExample | src/algorithms/search_algorithms.rs:14-24 | the documented example: BFS from 0 on the sample network gives predecessors `[5,0,0,1,3]` and order `[0,1,2,3,4]` |
| ShortestPaths.ResultBelowWalks | src/algorithms/search_algorithms.rs:95-130 | no walk from the source is cheaper than the computed distance, each step priced at the first arc between its two nodes |
| ShortestPaths.DistUnique | src/algorithms/search_algorithms.rs:87-93 | two results from the same source and start value have equal distances, so both variants agree |
| ShortestPaths.ShortenWalk | src/algorithms/search_algorithms.rs:95-130 | any walk can be cut to a simple walk with the same ends and no greater cost |
| ShortestPaths.SimpleWalkBound | src/compact_star.rs:106-108 | a walk that visits no node twice costs at most the sum of all arc costs |
| ShortestPaths.ReachableWithinSum | src/compact_star.rs:106-108 | every reachable node is reachable at cost at most the sum of all arc costs |
| ShortestPaths.ResultReachable | src/algorithms/search_algorithms.rs:103-105 | with a start value above the cost sum, a node is reachable exactly when its distance is below the start value, and a non-source node exactly when it has a predecessor |
| DijkstraAlgorithms.Relax | src/algorithms/search_algorithms.rs:111-119 | relaxing node `i` gives an arc `i -> x` a new distance and predecessor `i` exactly on a strict improvement; everything else is kept; reports each improved node exactly once |
| DijkstraAlgorithms.RelaxTriangle | src/algorithms/search_algorithms.rs:111-119 | after relaxing `i`, no arc out of `i` offers a shortcut, `i`'s distance is unchanged, and no distance rose |
| DijkstraAlgorithms.FindMin | src/algorithms/search_algorithms.rs:132-143 | returns the invalid id exactly when no distance is below the limit; otherwise the first occurrence of a minimal distance below the limit |
| DijkstraAlgorithms.FindMinIndex | src/algorithms/search_algorithms.rs:145-153 | returns the last position of the node, or 0 when it is absent |
| DijkstraAlgorithms.VanillaPick | src/algorithms/search_algorithms.rs:107-110 | the node picked from the temporary list is unsettled, and its distance is minimal among unsettled nodes |
| DijkstraAlgorithms.Settle | src/algorithms/search_algorithms.rs:107-119 | settling the picked node and relaxing its arcs keeps the loop invariant |
| DijkstraAlgorithms.VanillaDijkstraFrom | src/algorithms/search_algorithms.rs:95-130 | with distances starting at `inf`, the vanilla loop returns a shortest-path result |
| DijkstraAlgorithms.HeapPick | src/algorithms/search_algorithms.rs:166-176 | an unmarked node at the heap top has a distance minimal among unsettled nodes |
| DijkstraAlgorithms.HeapSkip | src/algorithms/search_algorithms.rs:172-174 | dropping a marked node from the heap keeps the heap invariant |
| DijkstraAlgorithms.InsertAllMembers | src/algorithms/search_algorithms.rs:178-186 | after re-inserting the improved nodes, the heap holds the old members plus, for each improved node, a member with that node as key and its new distance, negated, as the stored cost; nothing else |
| DijkstraAlgorithms.InsertAllSize | src/algorithms/search_algorithms.rs:181-184 | re-inserting adds exactly one member per improved node: the size grows by their number |
| DijkstraAlgorithms.HeapExpand | src/algorithms/search_algorithms.rs:176-186 | marking and relaxing the top node, then inserting the improved nodes, keeps the heap invariant |
| DijkstraAlgorithms.HeapDijkstraFrom | src/algorithms/search_algorithms.rs:155-197 | with distances starting at `inf`, the heap loop returns a shortest-path result |
| DijkstraAlgorithms.VanillaDijkstra | src/algorithms/search_algorithms.rs:95-130 | `vanilla_dijkstra` returns a shortest-path result whose start value is `infinity()` |
| DijkstraAlgorithms.HeapDijkstra | src/algorithms/search_algorithms.rs:155-197 | `heap_dijkstra` returns a shortest-path result whose start value is `infinity()` |
| DijkstraAlgorithms.Dijkstra | src/algorithms/search_algorithms.rs:87-93 | either variant returns a shortest-path result whose start value is `infinity()` |
| DijkstraAlgorithms.BothVariants | src/algorithms/search_algorithms.rs:87-93 | the vanilla and heap variants return the same distances |
| DijkstraAlgorithms.DijkstraCorrected | src/algorithms/search_algorithms.rs:103-105 | starting one above the cost sum, a node is reachable exactly when its distance is at most the cost sum, and a non-source node exactly when it has a predecessor |
| DijkstraExamples.DijkstraTest | src/algorithms/search_algorithms.rs:199-237 | the library's Dijkstra tests: either variant gives predecessors `[6,0,0,2,2,4]` and distances `[0,6,4,5,6,9]` |
| DijkstraExamples.BuildG6 | src/compact_star.rs:230-245 | the test network built from its nine arcs |
| DijkstraExamples.InfinityHidesReachable | src/algorithms/search_algorithms.rs:160 | on one arc `0 -> 1` of cost 5, any result starting at `infinity()` leaves the reachable node 1 without a predecessor |
| DijkstraExamples.CorrectedFindsReachable | src/algorithms/search_algorithms.rs:160 | on the same network, starting one above the cost sum gives node 1 predecessor 0 and distance 5 |
| DijkstraExamples.TinyAsWritten | src/algorithms/search_algorithms.rs:87-93 | both variants as written report node 1 of the one-arc network as unreached |
| DijkstraExamples.TinyCorrected | src/algorithms/search_algorithms.rs:87-93 | both variants with the corrected start find node 1 |
| ParseText.StartDense | src/parse_text.rs:64 | the empty map with counter 0 is dense |
| ParseText.Resolve | src/parse_text.rs:34-53 | a known name keeps its id and changes nothing; a new name gets the counter's value as its id and the counter advances by one; the map gains only that name and other bindings are kept |
| ParseText.ResolveDense | src/parse_text.rs:34-45 | resolving a name keeps the ids `0 .. next - 1` each bound to exactly one name |
| ParseText.ParseLine | src/parse_text.rs:17-48 | the arc joins the ids its two names are bound to; a missing cost or capacity is 0; only the two names join the map; old ids are kept |
| ParseText.ParseLineOrder | src/parse_text.rs:34-45 | two new names get the next two ids, tail first; one new name on both ends gets a single id |
| ParseText.NonMatchingLine | src/parse_text.rs:19-32 | a line the pattern does not match becomes a zero-cost, zero-capacity loop at the id of the empty name |
| ParseText.ParseLineDense | src/parse_text.rs:34-45 | parsing a line keeps the ids dense, and both arc ends are handed-out ids |
| ParseText.OkPrefix | src/parse_text.rs:67-71 | the lines before the first read error are all read, and the next one is an error |
| ParseText.Process | src/parse_text.rs:67-77 | the loop keeps the arcs already present in front, and every name bound before it keeps its id |
| ParseText.ProcessLength | src/parse_text.rs:67-77 | each line before the first read error adds one arc, or two when undirected; earlier arcs stay in front |
| ParseText.ProcessStops | src/parse_text.rs:68-71 | lines after the first read error have no effect |
| ParseText.ProcessReverses | src/parse_text.rs:72-76 | when undirected, the new arcs come in pairs: an arc, then its reverse with the same cost and capacity |
| ParseText.ProcessDense | src/parse_text.rs:67-77 | reading keeps the ids dense and every new arc's ends below the counter |
| ParseText.ReadFileIds | src/main.rs:43-53 | reading into an empty map hands out the ids below the map's size, one per name; once a line is read, the arcs fit a network with as many nodes as the map has names |
| ParseText.EdgesFromFile | src/parse_text.rs:61-78 | the first `skip` lines are dropped; the counter starts at 0; lines are read up to the first read error |

## Left out

- File opening, line reading, the regular expression (`parse_pattern`, matching, and parsing the captured numbers) are outside the model. A file is a sequence of `Line` values: a read error, or the captures the pattern produced, with cost and capacity already parsed.
- Costs and capacities are natural numbers, not `f64`. So the model has no NaN case in `partial_cmp` (src/heaps.rs:74-76), no negative or fractional costs, and no rounding in the cost sum.
- Node ids and sizes are unbounded naturals, not `u32`/`usize`. Wrap-around is not modelled.
- ShortestPaths.ShortestPathResult: distances are shortest only when each step is priced at the first arc between its two nodes, as `cost(u, v)` does (src/compact_star.rs:46-50, read at src/algorithms/search_algorithms.rs:114 and 179). With parallel arcs, for example an undirected file listing both `a b 10` and `b a 3`, the cheaper later arc is ignored, as in the source.
- CompactStar.FromEdgeVec: requires at least one node. With zero nodes, `nodes as NodeId - 1` (src/compact_star.rs:162) underflows.
- `CompactStar::new` and the `access` test only reserve capacity and poke at a raw field. Construction starts from empty arrays, and no separate member models `new`.
- Heaps.Top: which of several equally cheap members the heap hands out is left to Rust's `BinaryHeap`. The model picks the earliest inserted one. The Dijkstra contracts hold for any choice of minimal member, but the recorded predecessor could differ on ties.
- DijkstraAlgorithms.VanillaDijkstra: the crate-level `INF` constant that `find_min` starts from is not part of this model. It is the parameter `limit`, required to exceed `infinity()`.
- DijkstraAlgorithms.Dijkstra: the source must be a node id. The source indexes `d[source]` and panics otherwise.
- Search.GenericSearch: requires `start` to be a node id, for the same reason (`marks[start]` panics otherwise).
- ParseText.EdgesFromFile: the counter starts at 0 whatever map is passed in, as in the source. Only an empty map (what the command line front end passes) gives dense ids, and ReadFileIds states that case.
- The `skip` header lines are dropped unread, read errors among them included, as `lines().skip(skip)` does.
- PageRank, the command line front end (argument parsing, `alg_runner`, usage text) and printing are not part of this model.

## Findings

| source | as written | input that shows it | evidently intended | confidence | as-written member | corrected member |
|---|---|---|---|---|---|---|
| src/algorithms/search_algorithms.rs:160 | distances start at `infinity()`, which is the plain sum of all arc costs (src/compact_star.rs:106-108), and an arc is taken only on a strict improvement | two nodes and one arc `0 -> 1` of cost 5: the cost sum is 5, `d[1] > d[0] + 5` is false, so node 1 keeps the invalid predecessor and distance `infinity()`, exactly like an unreachable node | a start value strictly above every path cost, such as the cost sum plus one | not executed | DijkstraExamples.InfinityHidesReachable | DijkstraAlgorithms.DijkstraCorrected |
