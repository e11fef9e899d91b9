# Graph and shortest paths, modelled in Dafny

This project models a small Python graph library and its two
single-source shortest-path engines:

- **`graph.py`** holds an undirected weighted `Graph`.
  - Each `Node` keeps a map from neighbour name to the shared `Edge`.
  - The graph keeps a map from name to node, and an edge map keyed by edge.
  - Edges are equal and hash alike whatever the order of their ends.
- **`shortest_path.py`** holds `ShortestPathBase` and its two subclasses:
  - `Dijkstra` orders the queue by distance.
  - `A_Star` orders the queue by distance plus a heuristic.

  Each engine does the following:
  - It keeps a list of queue tuples `(node, distance, predecessor[, estimate])`.
  - It sorts that list on every access.
  - It pops the front into a `visited` dictionary and relaxes the unvisited neighbours.
  - It answers `shortest_path` by following predecessors back from the end, and `shortest_distance` by reading the end's entry.

## Files

| file | contents |
|---|---|
| `wrappers.dfy` | `Option`, `Result` and `Outcome` for error paths. |
| `walks.dfy` | Distances (`Fin(n)` or `Inf`) and `float('inf')` arithmetic. Walks over a weighted adjacency and their weights. Lower bounds from relaxed distances and from a consistent heuristic. |
| `queues.dfy` | Queue entries and the two strategies. The stable sort behind `priority_queue`: it is sorted, a permutation, stable, and has the earliest minimum at its front. The relaxation of the first entry for a node. |
| `graph.dfy` | `Edge` as a value; `Node` and `Graph` as classes whose fields the methods update in place. The consistency of neighbour maps and the edge map as value predicates, with lemmas that each update keeps it. |
| `search.dfy` | The invariant of the search loop over values, with one lemma per step (initialise, sort, dequeue, relax) that keeps it. What holds once the queue is empty: the predecessor chain is a walk, its weight is the recorded distance, and a distance is finite exactly when the node is reachable. With a consistent heuristic, no walk is lighter. |
| `shortest_path.dfy` | The engine as class `PathSearch`, with methods proved against the invariant and the lemmas of `search.dfy`. |
| `test_graph.dfy` | The weighted graph of the test suite and the answer Dijkstra's search must give on it. What A* is proved to give on it. The first two `add_edge` calls of the test's `setUp`, chained on one graph. |

**The search invariant** (`Search.Inv`) has these parts:
- The queue and the visited map hold each node exactly once.
- Every visited entry has an earlier-visited predecessor; the start's predecessor is the start itself.
- Every finite queued distance is the weight of a walk.
- Whatever the heuristic, reaching spreads along edges:
  - an edge out of a visited node with a finite distance leads to a node with a finite distance, unless that edge is still to relax;
  - once a node with distance `inf` is visited, every queued node, and the node being expanded, also has distance `inf`.
- When the heuristic is consistent, the following also hold:
  - visited keys never exceed the last key dequeued, and queued keys are never below it;
  - every edge out of a visited node, except those still to relax, is relaxed.

## Where the model follows the code rather than its docstrings

- **`is_empty`** tests for no nodes (`graph.py:93`), not for no edges as its docstring says. `Graphs.Graph.IsEmpty` follows the code. `Graphs.Graph.NoNodesNoEdges` shows that no nodes implies no edges.
- **The end node** is looked up with `get_node` in the constructor (`shortest_path.py:10`), so a missing end fails at construction. It is not detected lazily during the search.
- **`shortest_distance` on an unreachable end** returns the end's `inf` entry; it does not fail. All nodes are visited when the search ends, so the entry exists. `shortest_path` on an unreachable end fails, where the code reads `.name` of the missing predecessor `None`.
- **A second query on the same engine** does no new work. The queue is already empty and the visited map is kept, so the search is not rerun from scratch. `ShortestPaths` states `old(queue) == [] ==> unchanged(this)`.

## Model

| member | source | states |
|---|---|---|
| Walks.Plus | shortest_path.py:77 | Adding an edge weight to a distance keeps `inf` infinite and a finite distance finite, and never decreases it. |
| Walks.WalkLowerBound | shortest_path.py:54-78 | If every edge is relaxed under `d`, then `d` at a walk's last node is at most `d` at its first node plus the walk's weight. |
| Walks.WalkKeepsFinite | shortest_path.py:54-78 | If every edge out of a node with a finite distance leads to a node with a finite distance, then a walk that starts at a finite node ends at one. This is the half of "finite exactly when reachable" that does not need a consistent heuristic. |
| Walks.AppendWalk | shortest_path.py:127-130 | Extending a walk by an adjacent node gives a walk, heavier by exactly that edge's weight. |
| Walks.WalkUpperPotential | shortest_path.py:209-219 | With a heuristic that never drops by more than an edge weighs, no walk weighs less than the drop of the heuristic along it. |
| Queues.Insert | shortest_path.py:28 | Inserting into a sorted queue gives a sorted queue whose multiset is the old one plus the new entry. |
| Queues.SortByKey | shortest_path.py:24-29 | `priority_queue`'s sort: the result is sorted by the strategy's key (distance, or estimate for A*), is a permutation of the queue, and has the same length. |
| Queues.SortIsStable | shortest_path.py:28 | For every key value, the entries with that key appear in the same relative order before and after sorting, as `list.sort` guarantees. |
| Queues.EarliestMin | shortest_path.py:41 | Returns the first position holding the smallest key. |
| Queues.SortHead | shortest_path.py:38-44 | The entry `dequeue` pops is the earliest entry with the smallest key in the unsorted queue. |
| Queues.SortSorted | shortest_path.py:24-29 | Sorting an already sorted queue returns it unchanged, so reading `priority_queue` twice sorts once. |
| Queues.SortKeepsEntries | shortest_path.py:28 | Sorting keeps exactly the same entries and the same node names. |
| Queues.SortDistinct | shortest_path.py:28 | Sorting a queue with one entry per node keeps one entry per node. |
| Queues.InsertDistinct | shortest_path.py:28 | Inserting an entry for a new node into a queue with one entry per node keeps one entry per node. |
| Queues.ImprovesIffShorter | shortest_path.py:209-219 | For an entry whose estimate is its distance plus the heuristic, A*'s test on estimates is the same as Dijkstra's test on distances. |
| Queues.RelaxFirst | shortest_path.py:168-176 | The queue after an update has the same length and the same node at every position. |
| Queues.RelaxFirstAt | shortest_path.py:168-176 | With one entry per node, position `i` becomes the improved entry exactly when it holds `v` and the candidate beats its key; every other position is unchanged. |
| Queues.RelaxFirstFound | shortest_path.py:171-176 | Only the first entry for `v` can change: the update is a single-position replacement there. |
| Queues.RelaxFirstAbsent | shortest_path.py:171-176 | A queue without an entry for `v` is left unchanged. |
| Graphs.NewEdge | graph.py:59-64 | Creating an edge fails with `SelfLoop` exactly when both ends are the same node. Otherwise the edge joins the unordered pair `{a, b}` with weight `w`. |
| Graphs.EqualityAgreesWithHash | graph.py:66-78 | Two edges are equal (the same ends, in either order) exactly when their frozenset keys agree, and this equality is symmetric. |
| Graphs.PairKeyCases | graph.py:75-78 | Two unordered pair keys agree exactly when their ends match in one order or the other. |
| Graphs.Without | graph.py:180 | Deleting a name from the node list keeps every other name and drops that one. |
| Graphs.WithoutDistinct | graph.py:180 | Deleting a name keeps the node names distinct. |
| Graphs.PairLinked | graph.py:148-152 | In a consistent graph, a stored pair `{a, b}` appears in `a`'s neighbour map under `b` as the stored edge. |
| Graphs.BackedKey | graph.py:24-29 | Every neighbour-map entry is the stored edge for the pair it is filed under. |
| Graphs.NeighborsArePairs | graph.py:42-44 | `b` is a neighbour of `a` exactly when `a != b` and the pair `{a, b}` is a stored edge. |
| Graphs.WeightsSymmetric | graph.py:148-158 | The weighted adjacency has no self-loops and is symmetric: `W[a][b] == W[b][a]`. |
| Graphs.EdgeCount | graph.py:100-103 | Stored edges are pairwise different, so the edge list has as many entries as the edge map. |
| Graphs.StoredEdgesLinked | graph.py:110-113 | Every edge in the edge list joins two different nodes and is filed in both ends' neighbour maps. Every neighbour-map entry is in the edge list. |
| Graphs.ConsistentAddNode | graph.py:126-131 | Adding a node with no edges keeps the graph consistent; the weighted adjacency gains an empty row. |
| Graphs.ConsistentConnect | graph.py:138-158 | Storing a new edge, or reweighting an existing one, in the edge map and both neighbour maps keeps the graph consistent. The weighted adjacency becomes `Connect(W, a, b, w)`. |
| Graphs.ConnectRow | graph.py:148-158 | Row by row, the weights after linking `a` and `b` are the old weights with `w` in both directions. |
| Graphs.TouchingStored | graph.py:183-185 | Every edge incident to the removed node is in the edge map; removing them lowers the edge count by the node's degree. |
| Graphs.ConsistentRemove | graph.py:174-192 | Dropping a node, its incident edges and the neighbours' entries for it keeps the graph consistent. The edge count falls by the node's degree. |
| Graphs.NonNeighborsUntouched | graph.py:183-192 | Nodes not adjacent to the removed node keep their neighbour maps. |
| Graphs.ConsistentRemoveIsolated | graph.py:174-181 | Dropping a node with no edges, and nothing else, keeps the graph consistent. |
| Graphs.DanglingNeighbor | graph.py:180 | Dropping a node that has a neighbour, without touching that neighbour, cannot leave a consistent graph, whatever the edge map. |
| Graphs.CoherentAddNode | graph.py:126-131 | As `ConsistentAddNode`, with the node list extended in insertion order and kept distinct. |
| Graphs.CoherentConnect | graph.py:147-158 | As `ConsistentConnect`, with the node list unchanged. |
| Graphs.CoherentRemove | graph.py:174-192 | As `ConsistentRemove`, with the name deleted from the node list. |
| Graphs.CoherentRemoveIsolated | graph.py:174-181 | As `ConsistentRemoveIsolated`, with the name deleted from the node list. |
| Graphs.IncoherentRemove | graph.py:180 | As `DanglingNeighbor`, with the name deleted from the node list. |
| Graphs.Node.constructor | graph.py:5-11 | A new node carries its name and no edges. |
| Graphs.Node.AddEdge | graph.py:24-29 | An edge is filed under the name of its other end; an edge that does not touch the node leaves it unchanged. |
| Graphs.Node.RemoveEdge | graph.py:31-36 | The entry for the other end is removed. A missing entry fails (the `KeyError` of `del`); an edge that does not touch the node changes nothing. |
| Graphs.Graph.constructor | graph.py:85-88 | A new graph has no nodes, no edges and an empty weighted adjacency. |
| Graphs.Graph.IsEmpty | graph.py:90-93 | True exactly when there are no nodes; then there are no edges either. |
| Graphs.Graph.NoNodesNoEdges | graph.py:90-93 | An empty node map means an empty node list and an empty edge map. |
| Graphs.Graph.NumNodes | graph.py:95-98 | The number of node names. |
| Graphs.Graph.Edges | graph.py:110-113 | Every listed edge joins two different nodes and is filed in both ends' neighbour maps. Every neighbour-map entry is listed. There are as many as stored pairs. |
| Graphs.Graph.NumEdges | graph.py:100-103 | The size of the edge list. |
| Graphs.Graph.Nodes | graph.py:105-108 | Distinct names, exactly the graph's nodes. |
| Graphs.Graph.GetNode | graph.py:133-136 | Succeeds exactly for a stored name, with the node object of that name; otherwise fails with `NodeMissing` (the assertion). |
| Graphs.Graph.GetEdge | graph.py:160-164 | Succeeds exactly when the two nodes are adjacent, with the stored edge for their pair. Fails with `SelfLoop` for equal nodes (the `Edge` assertion), otherwise with `EdgeMissing`. |
| Graphs.Graph.Adjacent | graph.py:166-168 | Fails with `NodeMissing` exactly when the first name is unknown (the dict lookup). Otherwise true exactly when the names differ and their pair is a stored edge. |
| Graphs.Graph.Neighbors | graph.py:170-172 | Fails with `NodeMissing` exactly for an unknown name. Otherwise the names joined to `a` by a stored edge. |
| Graphs.Graph.AdjacentSymmetric | graph.py:166-172 | `adjacent(a, b) == adjacent(b, a)`, and `b` is adjacent to `a` exactly when it is among `a`'s neighbours. |
| Graphs.Graph.WeightMap | shortest_path.py:75-77 | The weights the engine reads through `get_edge(current, neighbour).weight` are the graph's weighted adjacency. |
| Graphs.Graph.WeightsWellFormed | graph.py:105-108 | The node list is distinct and names exactly the rows of the weighted adjacency. Every row names only nodes, and never its own node. |
| Graphs.Graph.AdjacencyMap | graph.py:115-124 | One entry per node, in node order; entry `i` holds exactly the names joined to node `i` by a stored edge. |
| Graphs.Graph.AddNode | graph.py:126-131 | Returns the node of that name. An existing name changes nothing. A new name gets a fresh node with no edges, appended to the node list, and an empty row in the weighted adjacency. |
| Graphs.Graph.AddEdge | graph.py:138-158 | Missing endpoints are created, even when a self-loop then fails. The node map gains exactly the missing endpoints, as fresh nodes, and keeps every old node object. A new pair gets one edge in the edge map and both neighbour maps; an existing pair only has its weight replaced. The weighted adjacency becomes `Connect(W, a, b, w)`. |
| Graphs.Graph.AddEnds | graph.py:141-143 | The two `add_node` calls: names, node map and weighted adjacency gain each missing endpoint in order, and the edge map is unchanged. |
| Graphs.Graph.Link | graph.py:147-158 | With both endpoints present, the edge map gains or reweights the pair's edge; nodes and names are unchanged; the weights become `Connect`. |
| Graphs.Graph.AddEdgeAsWritten | graph.py:154-158 | As written, an existing pair's weight update completes. Then `add_edge` fails with `UnhashableNode` at the dict assignment keyed by a `Node`; a new pair succeeds. The name list, the node map and the edge map change as in `AddEdge`: a new pair gains one edge, an existing pair only a new weight, and a self-loop leaves the edges as they were. |
| Graphs.Graph.RemoveNode | graph.py:174-192 | Removing an unknown name fails with `NodeMissing` and changes nothing. Otherwise the name, its node object, its incident edges and the neighbours' entries for it go; the edge count falls by the node's degree and the graph stays consistent. |
| Graphs.Graph.DetachEdges | graph.py:183-192 | The loop over incident edges leaves exactly the other edges and removes the node from each neighbour's map. |
| Graphs.Graph.RemoveNodeAsWritten | graph.py:174-192 | As written, removing a node with no edges succeeds and keeps the graph consistent. With an edge, exactly one edge is deleted: an edge touching the node, every other edge being kept. Then the comparison of a `Node` with a name fails with `NodeComparedToName`, leaving the graph inconsistent. |
| Search.InitInv | shortest_path.py:150-165 | The initial queue (start at 0, every other node at `inf`, in node order), with nothing visited, satisfies the search invariant. |
| Search.SortInv | shortest_path.py:24-29 | Sorting the queue keeps the search invariant. |
| Search.KeyGrows | shortest_path.py:209-219 | With a consistent heuristic, the key offered to a neighbour is never below the key of the entry just dequeued. |
| Search.DequeueInv | shortest_path.py:38-44 | Popping the front of the sorted queue into the visited map keeps the invariant. The popped node was not visited, and its unvisited neighbours become the nodes still to relax. |
| Search.DequeueSpread | shortest_path.py:38-44 | Whatever the heuristic, dequeuing keeps reaching spread along edges. The head has a finite distance if a visited neighbour does. If the head's distance is `inf`, the sorted queue behind it holds only `inf`. |
| Search.DequeueSettled | shortest_path.py:38-44 | With a consistent heuristic, every edge out of a visited node, including the new one, is relaxed except those still to relax. |
| Search.RelaxInv | shortest_path.py:75-78 | Relaxing one pending neighbour with the candidate distance keeps the invariant and retires that neighbour. |
| Search.RelaxSpread | shortest_path.py:75-78 | Whatever the heuristic, relaxing keeps reaching spread. A candidate through a finite node is finite, so it replaces an `inf` entry. A candidate through an `inf` node changes nothing. |
| Search.Chain | shortest_path.py:127-130 | The predecessor chain of a finitely reached node ends at that node. |
| Search.ChainIsWalk | shortest_path.py:127-133 | The predecessor chain of a node is a walk from the start to that node, and its weight is the node's recorded distance. |
| Search.SearchDone | shortest_path.py:54-58 | When the queue is empty, every node has been visited and the start keeps its initial entry. Every edge out of a node with a finite distance leads to a node with a finite distance. With a consistent heuristic, every edge is relaxed under the recorded distances. |
| Search.ChainIsShortest | shortest_path.py:54-78 | With a consistent heuristic, the recorded distance of a node is at most the weight of any walk from the start to it. |
| Search.FoundIffReachable | shortest_path.py:54-78 | Whatever the heuristic, a node's recorded distance is finite exactly when some walk reaches it from the start. |
| Search.ChainFacts | shortest_path.py:115-133 | After the search, a finitely reached node's predecessor chain is a walk from the start whose weight is the recorded distance. |
| Search.ChainIsLightest | shortest_path.py:115-135 | With a consistent heuristic, no walk from the start to the node is lighter than its predecessor chain. |
| Search.DistanceFacts | shortest_path.py:137-142 | A finite recorded distance is the weight of some walk, and the distance is finite exactly when the node is reachable. With a consistent heuristic it is at most the weight of every walk. |
| ShortestPaths.ReversedAt | shortest_path.py:133 | Position `i` of the reversed list holds position `len - 1 - i` of the original. |
| ShortestPaths.ReversedSnoc | shortest_path.py:129-133 | Appending a name and then reversing puts that name first. |
| ShortestPaths.ChainBack | shortest_path.py:127-130 | One step back along predecessors keeps the collected names, reversed, a suffix of the end's chain. The predecessor was visited earlier, which makes the loop terminate. |
| ShortestPaths.ChainBackDone | shortest_path.py:127-133 | On reaching the start, the reversed names are exactly the end's chain. |
| ShortestPaths.PathSearch.New | shortest_path.py:6-14 | Construction fails with `StartMissing` for an unknown start, otherwise with `NodeMissing` for an unknown end. Otherwise the engine holds the graph's weights, one initial entry per node in node order, and nothing visited, and its invariant holds. |
| ShortestPaths.PathSearch.constructor | shortest_path.py:6-14 | A new engine with the initial queue and nothing visited satisfies the invariant. |
| ShortestPaths.PathSearch.InitializeQueue | shortest_path.py:150-165 | One entry per node in node order. The start has distance 0, itself as predecessor, and for A* key `h(start)`; every other node has `inf` and no predecessor. |
| ShortestPaths.PathSearch.PriorityQueue | shortest_path.py:24-29 | The queue is replaced by its stable sort and returned; the visited map is unchanged; an empty queue changes nothing. |
| ShortestPaths.PathSearch.Dequeue | shortest_path.py:38-44 | Pops the earliest entry with the smallest key, files it under its node name (a node not visited before), and leaves the rest of the sorted queue. An empty queue fails with `EmptyQueue`. |
| ShortestPaths.PathSearch.UnvisitedNeighbors | shortest_path.py:46-52 | Exactly the neighbours of `n` that are not visited. |
| ShortestPaths.PathSearch.UpdateQueue | shortest_path.py:168-176 | Both strategies' update (lines 209-219 for A*): the first entry for `v` becomes `(v, distance, u[, estimate])` exactly when the candidate beats its key; every other entry is unchanged. |
| ShortestPaths.PathSearch.ShortestPaths | shortest_path.py:54-78 | The loop ends with an empty queue and every node visited, and never changes a visited entry. A second run changes nothing. |
| ShortestPaths.PathSearch.RelaxNeighbors | shortest_path.py:75-78 | Offering each unvisited neighbour the dequeued distance plus the edge weight keeps the invariant; the visited map stays the same. |
| ShortestPaths.PathSearch.ShortestPath | shortest_path.py:115-135 | Fails with `Unreachable` exactly when the end's distance is `inf`, which is exactly when no walk reaches the end. Otherwise the result is a walk from start to end whose weight is the end's distance, and with a consistent heuristic (always for Dijkstra) no walk is lighter. |
| ShortestPaths.PathSearch.FollowPredecessors | shortest_path.py:119-135 | Walking predecessors back from the end and reversing gives the end's predecessor chain; an end never reached fails with `Unreachable`. |
| ShortestPaths.PathSearch.ShortestDistance | shortest_path.py:137-142 | The end's recorded distance. If finite, it is the weight of some walk from start to end. It is finite exactly when the end is reachable. With a consistent heuristic it is at most the weight of every walk. |
| ShortestPaths.Calculate | graph_path_testing.py:87-94 | Reading `shortest_path` and then `shortest_distance` from one engine: the path fails exactly when the distance is `inf`, and exists exactly when the end is reachable; otherwise the distance is the path's weight; with a consistent heuristic the path is lightest. |
| Examples.TestGraphWeights | graph_path_testing.py:62-73 | The test's five `add_node` and six `add_edge` calls, composed through their weight effects, give the test graph's weights. |
| Examples.SetUpFirstEdges | graph_path_testing.py:68-69 | Two `add_edge` calls chain on one `Graph`: the second may update node objects the first created. Both pass, and the weighted adjacency becomes `Connect(Connect(W, A, B, 5), B, C, 3)`. |
| Examples.LightestAToE | graph_path_testing.py:87-94 | In the test graph, every walk from A to E weighs at least 7, and `['A', 'E']` is the only one that weighs 7. |
| Examples.ShortestPathCalculation | graph_path_testing.py:87-94 | Dijkstra from A to E on the test graph gives the path `['A', 'E']` and the distance 7. |
| Examples.AStarPathCalculation | graph_path_testing.py:87-94 | A* from A to E on the test graph, with the test's heuristic, finds a path. It is a walk from A to E whose weight is the distance, at least 7. |
| Examples.TestHeuristicInconsistent | graph_path_testing.py:74-78 | The test's rounded straight-line heuristic to E (positions at lines 74-78) drops by 4 along the edge B-C of weight 3, so it is not consistent. |

## Left out

- Logging: the `log` flag, `_print_queues` and `tabulate` only print, so they are not modelled.
- `Node.data`, `add_data`, `get_data` and the `__repr__` methods are not modelled. The data dictionary only carries the positions A* reads.
- `_distance_to_target` (Euclidean distance from stored positions, `math.sqrt` and `round`) is not modelled: A* takes its heuristic as a function `h: string -> nat` in `Strategy.AStar`. `Examples.TestHeuristic` states the test positions' values by hand.
- Weights are natural numbers and distances are `Fin(n)` or `Inf`. Negative or fractional weights, which Python would accept, are not modelled.
- The order of lists that the source builds from dictionaries is not modelled: `get_adjacent_nodes`, `get_edges`, `neighbors` and `edges` are sets. `AdjacencyMap` keeps node order but not the order within an entry. The order in which unvisited neighbours are relaxed is arbitrary, as Python's set iteration is.
- Python shares one `Edge` object between the edge map and both neighbour maps. The model stores equal copies, and every update writes all three.
- The engine reads the graph's weighted adjacency once, when it is built. Changing the graph between construction and a query is not modelled; the source would see such changes.
- `list.sort` is modelled as a stable insertion sort. A stable sort's result is fully determined, so only the running time differs.
- `Dequeue`, and `shortest_path` for an unreachable end, return `Failure` values where the source raises `IndexError` and `AttributeError`. `_shortest_paths` never dequeues from an empty queue.
- `networkX_util.py`, `Part 2/` and the unit tests are not part of this model, apart from the test graph in `test_graph.dfy`.
- ShortestPaths.PathSearch.ShortestPath: the result is proved lightest only under a consistent heuristic (Dijkstra always qualifies). A* without reopening visited nodes can return a heavier path when the heuristic is not consistent.
- ShortestPaths.PathSearch.ShortestDistance: the distance is proved minimal only under a consistent heuristic. A* without reopening visited nodes can record a distance above the lightest walk's weight when the heuristic is not consistent. Finiteness exactly for a reachable end holds for every heuristic.
- ShortestPaths.PathSearch.RelaxNeighbors: states the invariant it keeps and that the visited map is unchanged, not the queue entry by entry. `UpdateQueue` states each step entry by entry.
- Examples.ShortestPathCalculation: the engine is built from the test graph's weights, not from a `Graph` object. `Examples.TestGraphWeights` connects those weights to the `add_node` and `add_edge` contracts. `Examples.SetUpFirstEdges` chains only two of the six `add_edge` calls on a `Graph` object, because longer chains of heap updates make the proof too costly.
- Examples.AStarPathCalculation: proves that A* finds a walk of weight at least 7, not that it is `['A', 'E']` of weight 7. The test's heuristic is not consistent (`Examples.TestHeuristicInconsistent`), so the optimality proof does not apply. `test_heuristic_calculation` is not modelled, because it needs the square root.

## Findings

| source | as written | input that shows it | evidently intended | confidence | as-written member | corrected member |
|---|---|---|---|---|---|---|
| graph.py:157-158 | For an existing pair, `add_edge` stores the new weight into the nodes' neighbour maps under a `Node` key. `Node` defines `__eq__` without `__hash__`, so it is unhashable and the call raises `TypeError`. With the default identity hash, a hashable `Node` would put the weight under a second, `Node`-valued key, and the `Edge` filed under the name would stay as it was. With a hash that agreed with `__eq__`, the dict would compare the stored name string with the `Node`, and `Node.__eq__` would raise `AttributeError` reading `.name` of a `str`. | `add_edge('A', 'B', 5)` then `add_edge('A', 'B', 6)` | Only the weight of the shared edge changes, which line 156 already does. | high, not executed | Graphs.Graph.AddEdgeAsWritten | Graphs.Graph.AddEdge |
| graph.py:187 | `edge.node1 != nodeToRemove` compares a `Node` with a name string. `Node.__eq__` reads `other.name`, which a `str` lacks, so `remove_node` raises `AttributeError` after the node and the first edge are already gone. | `add_edge('A', 'B', 1)` then `remove_node('A')` | Each incident edge is removed from the other endpoint's neighbour map. | high, not executed | Graphs.Graph.RemoveNodeAsWritten | Graphs.Graph.RemoveNode |
