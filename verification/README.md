# GraphSDL graph engine in Dafny

GraphSDL is an interactive undirected-graph editor. This project models its
graph engine (Graph.cpp with the layout of Graph.h) and proves properties
about it. The model covers:

- the node store with its creation-order id counter;
- the edge list with mirrored neighbour lists;
- the mouse hit test;
- the depth-first cycle check;
- the unit-weight Dijkstra shortest path;
- the path line of the textual report.

The program's `shared_ptr` identity becomes integer ids in an arena. A
`Graph` holds:

- an ordered `seq<Node>`, where each node has an id, its 40x40 box and an
  ordered neighbour-id list;
- a `seq<Edge>` of `(a, b, optional weight)` records;
- the id counter (the static `Node::nextID`);
- the two optional search selections.

Every mutating member of `Graph` is a pure function from one state to the
next. Every `const` member is a function or method that only reads the graph
it is given, so "does not modify nodes, edges or selections" holds by
construction.

The files are:

- `wrappers.dfy`: `Option`.
- `sets.dfy`: cardinality helpers for the termination measures.
- `adjacency.dfy`: `Node::addNeighbor` and `Node::removeNeighbor`.
- `graph_state.dfy`:
  - the data model;
  - `hasEdge`;
  - the well-formedness predicate `WF`;
  - `Undirected`, the lighter adjacency view the searches need.
- `graph_ops.dfy`: `addNode`, `pop_nodes`, `addEdge`, `removeEdge`, `clear`, the selection setters and getters, and `getNodeAt`.
- `graph_invariants.dfy`: how each mutation relates to `WF`, plus the algebraic laws between the operations.
- `cycle_detection.dfy`:
  - `hasCycle` and `hasCycleUtil`;
  - a reference definition of a simple cycle;
  - a forest witness (a parent map with decreasing ranks) that shows the absence of a cycle.
- `shortest_path.dfy`: `shortestPath`, with walks, reachability and hop-count minimality as the reference.
- `path_report.dfy`: the path line of `Graph::info`, with a parse-back function that shows the rendering loses nothing.

`WF` says:

- ids strictly increase along the arena and lie below the counter;
- neighbour lists have no duplicates and no self-entries;
- adjacency is symmetric and only refers to live nodes;
- every adjacency is backed by an edge record, and every edge record is reflected in both lists;
- no two records name the same pair.

The selections are not part of `WF`, because the setters store whatever they
are given. `addNode`, `removeEdge` and `clear` keep `WF`, and so does
`addEdge` between two live nodes. `addEdge` itself does not check that its
endpoints are live.
`pop_nodes` keeps it exactly when the removed node has no neighbours. When it
has neighbours, `WF` is lost, because the other nodes still list the removed
one.

`shortestPath(x, x)` returns -1 and leaves the path untouched. `start` is
popped first and equals `end`, so the loop stops before any node gets a
predecessor (Graph.cpp:248-250, 263-265). `ShortestPathLength` returns -1
exactly when `start == end` or `end` is unreachable.

`std::reverse` (Graph.cpp:271) reverses the whole output vector, including
anything the caller had already put in it. The model keeps that behaviour:
the caller's old contents come out reversed after the new path.
`Graph::info` always passes an empty vector, so the report is unaffected.

## Model

| member | source | states |
|---|---|---|
| Adjacency.AddNeighbor | Graph.cpp:15-20 | The id is in the result. The list grows by one exactly when the id was absent, keeps its old entries as a prefix, gains no other id, and stays duplicate-free |
| Adjacency.FirstIndex | Graph.cpp:22 | The position `std::find` stops at holds the id, and no earlier position does |
| Adjacency.RemoveNeighbor | Graph.cpp:22-27 | A list without the id is returned unchanged. Otherwise the first occurrence is erased: the entries before it and after it keep their order, and the length drops by one. As a multiset, exactly one copy of the id goes |
| Adjacency.RemoveNeighborNoDup | Graph.cpp:22-27 | On a duplicate-free list, removal deletes the id completely, keeps every other id, and keeps the list duplicate-free |
| Adjacency.RemoveNeighborHas | Graph.cpp:22-27 | On a duplicate-free list, an id survives the removal of x exactly when it was in the list and differs from x |
| Adjacency.RemoveKeepsNoDup | Graph.cpp:22-27 | Removal keeps a duplicate-free list duplicate-free |
| Adjacency.RemoveAfterAdd | Graph.cpp:15-27 | Removing an id just appended to a list that lacked it gives back the original list |
| GraphState.NewNode | Graph.cpp:5-7 | A new node has the given id and no neighbours, and its box is 40x40 with its centre on the creation point |
| GraphState.HasEdge | Graph.cpp:81-87 | True exactly when some edge record names the pair, in either orientation |
| GraphOps.AddNode | Graph.cpp:69-73 | The new node's id is the counter's old value and the counter advances by one. The node is appended after the unchanged old nodes, with an empty list and the 40x40 box centred on the given point. Edges and selections are untouched |
| GraphOps.PopNodes | Graph.cpp:75-79 | No-op on an empty arena. Otherwise exactly the last node goes and the others stay in place. Edges, counter and selections are untouched |
| GraphOps.AddEdge | Graph.cpp:89-97 | A self-loop or an already-joined pair changes nothing. Otherwise exactly one record is appended and the pair is then joined. When both endpoints are live, each gains the other through addNeighbor. Ids, counter, selections, boxes and every other node's list are unchanged |
| GraphOps.RemoveMatching | Graph.cpp:101-105 | Keeps exactly the records that do not join the pair. A list with no matching record is returned unchanged, and a single record is kept exactly when it does not join the pair |
| GraphOps.RemoveMatchingConcat | Graph.cpp:101-105 | remove_if is stable: filtering two lists joined together gives the two filtered lists joined in the same order. With the single-record case, this fixes the survivors and their order |
| GraphOps.Unlink | Graph.cpp:107-108 | For distinct endpoints, each endpoint's list loses the other through removeNeighbor. Ids, boxes, and the lists and records of all other nodes are unchanged |
| GraphOps.RemoveEdge | Graph.cpp:99-109 | No remaining record joins the pair, and every other record survives. For distinct endpoints, each endpoint's list loses the other through removeNeighbor. Ids, counter, selections, boxes and every other node's list are unchanged |
| GraphOps.Clear | Graph.cpp:142-148 | No nodes, no edges, counter 0, both selections empty |
| GraphOps.SetStartNode | Graph.cpp:187-197 | The getter returns what was stored, with no validation. The other selection, nodes, edges and counter are unchanged |
| GraphOps.SetEndNode | Graph.cpp:191-197 | The getter returns what was stored, with no validation. The other selection, nodes, edges and counter are unchanged |
| GraphOps.FirstHit | Graph.cpp:115-125 | None exactly when no node's circle holds the point. Otherwise it gives the position of a hit node that has no hit node before it |
| GraphOps.FirstHitAppend | Graph.cpp:115-125 | Appending a node keeps an earlier first hit. Otherwise the new node is the first hit exactly when its circle holds the point |
| GraphOps.NodeAt | Graph.cpp:115-125 | None exactly when nothing is hit. Otherwise it gives the id of the first node, in creation order, whose circle holds the point |
| GraphInvariants.AddNodeFound | Graph.cpp:5-7 | Right after addNode at a point, getNodeAt at that point finds a node. It is the node an earlier click there would have found, or else the new node |
| GraphInvariants.HasEdgeSymmetric | Graph.cpp:81-87 | hasEdge(a, b) equals hasEdge(b, a) for every a and b |
| GraphInvariants.EdgeIffMirrored | Graph.cpp:89-109 | On a well-formed graph, a record for {a, b} exists exactly when each of a and b lists the other |
| GraphInvariants.ClearWF | Graph.cpp:142-148 | The cleared graph is well-formed |
| GraphInvariants.ClearThenAddNode | Graph.cpp:142-148 | The first node added after clear gets id 0 and is the only node, there are no edges, and the graph is well-formed |
| GraphInvariants.AddNodeWF | Graph.cpp:69-73 | The new id is fresh. The live ids gain exactly it. Its list is empty, no other list changes, and well-formedness is kept |
| GraphInvariants.PopAfterAdd | Graph.cpp:69-79 | pop_nodes right after addNode gives back the old graph, except that the counter stays advanced |
| GraphInvariants.NbrsAfterPop | Graph.cpp:75-79 | After pop_nodes, the removed node has no list and every other node's list is unchanged |
| GraphInvariants.IdsAfterPop | Graph.cpp:75-79 | pop_nodes removes exactly the last node's id from the live ids |
| GraphInvariants.PopIsolatedWF | Graph.cpp:75-79 | Popping a node with no neighbours keeps the graph well-formed |
| GraphInvariants.PopConnectedBreaksWF | Graph.cpp:75-79 | Popping a node that has neighbours always breaks well-formedness, because a survivor still lists it |
| GraphInvariants.NbrsAfterAddEdge | Graph.cpp:92-95 | Between two distinct live nodes that are not yet joined, addEdge changes a's list to AddNeighbor(a's list, b) and b's list to AddNeighbor(b's list, a). Every other list is unchanged |
| GraphInvariants.AddEdgeWF | Graph.cpp:89-97 | On a well-formed graph, a fresh edge between two distinct live nodes appends b once to a's list and a once to b's list, and keeps well-formedness |
| GraphInvariants.AddEdgeKeepsMirror | Graph.cpp:92-95 | Appending a record for two distinct live nodes, and each to the other's list, keeps adjacency symmetric, among live nodes, and backed by a record |
| GraphInvariants.AddEdgeIdempotent | Graph.cpp:89-97 | Adding the same edge a second time, with any weight, changes nothing |
| GraphInvariants.NbrsAfterRemoveEdge | Graph.cpp:107-108 | On a well-formed graph, for a != b each endpoint's list loses the other through removeNeighbor. For a == b no list changes, because a well-formed list has no self-entry. Every other list is unchanged |
| GraphInvariants.RemoveEdgeWF | Graph.cpp:99-109 | On a well-formed graph, afterwards the pair is not joined, neither endpoint lists the other, and the graph is still well-formed |
| GraphInvariants.RemoveEdgeKeepsLists | Graph.cpp:107-108 | Removing each endpoint from the other's list keeps every list free of duplicates and self-entries |
| GraphInvariants.RemoveEdgeKeepsMirror | Graph.cpp:99-109 | After the pair's records and list entries go, adjacency is still symmetric, among live nodes, and backed by a surviving record |
| GraphInvariants.RemoveEdgeKeepsListed | Graph.cpp:99-109 | Every surviving record still has its second endpoint in its first endpoint's list |
| GraphInvariants.RemoveMatchingDistinct | Graph.cpp:101-105 | Erasing matching records keeps the records pairwise distinct |
| GraphInvariants.RemoveAbsentEdge | Graph.cpp:99-109 | On a well-formed graph, removing an edge that does not exist changes nothing |
| GraphInvariants.RemoveAfterAddEdge | Graph.cpp:89-109 | On a well-formed graph, for two distinct live nodes that are not yet joined, removeEdge right after a fresh addEdge restores the edge list, both neighbour lists and the rest of the graph exactly |
| CycleDetection.ForestHasNoCycle | Graph.cpp:199-225 | A graph whose every adjacency is a parent link of a ranked forest has no simple cycle |
| CycleDetection.BackEdgeCycle | Graph.cpp:220-221 | While visiting v from the search path, a neighbour of v that is on the path but is not v's parent closes a simple cycle |
| CycleDetection.HasCycleFrom | Graph.cpp:211-225 | True only when the graph has a simple cycle. When false: every node reached and not on the search path, v included, is finished (all its neighbours are visited and joined to it by parent links); the parent links extend the old ones and still form a ranked forest; and v hangs off its parent |
| CycleDetection.SearchLeavesForest | Graph.cpp:199-209 | When the sweep has visited every node and finished each one, the graph has no simple cycle |
| CycleDetection.HasCycle | Graph.cpp:199-209 | Returns true exactly when the graph has a simple cycle (a closed walk of at least three distinct nodes), that is, exactly when the graph is not a forest |
| ShortestPath.Reverse | Graph.cpp:271 | The result has the same length, and element i is element len-1-i of the input |
| ShortestPath.MinExists | Graph.cpp:245-246 | A non-empty queue has an entry of least distance, which the pop may take |
| ShortestPath.Relax | Graph.cpp:252-260 | The neighbour's label becomes the smaller of its old label and the current label plus one; an unlabelled neighbour gets the latter. All other labels and the set of labelled nodes are unchanged. A step that does not improve the label changes nothing. Otherwise the neighbour's predecessor becomes the current node and its new label is queued |
| ShortestPath.WalkDistBound | Graph.cpp:244-261 | Along any walk from start whose first k nodes are finished, the k-th node is labelled with at most k |
| ShortestPath.ExitAtEnd | Graph.cpp:248-250 | Stopping when end is popped leaves intact predecessor chains. If end has a predecessor, its label is no longer than any walk from start to end. If it has none, then start == end or end is unreachable |
| ShortestPath.ExitExhausted | Graph.cpp:244-265 | When the queue runs dry without end being popped, end has no predecessor and is unreachable from start |
| ShortestPath.Expand | Graph.cpp:252-260 | Relaxing every neighbour of the popped node restores the search invariant with that node finished. A node that was already finished changes nothing |
| ShortestPath.Search | Graph.cpp:230-261 | The labels form predecessor chains back to start along edges. If end has a predecessor, its label is at most the length of every walk from start to end. If it has none, start == end or end is unreachable |
| ShortestPath.FollowPredecessors | Graph.cpp:267-270 | Appends end's chain after the caller's contents: dist[end] + 1 ids, from end to start, each adjacent to the next |
| ShortestPath.ReversedWalk | Graph.cpp:271 | Reversing a predecessor chain gives a walk from start to end |
| ShortestPath.ShortestPathLength | Graph.cpp:227-273 | Returns -1 exactly when start == end or end is unreachable, and then the path is untouched. Otherwise it returns the minimum hop count d. The first d + 1 entries of the new vector are a walk from start to end, followed by the caller's old contents reversed |
| PathReport.Decimal | Graph.cpp:176-178 | A number prints as a non-empty run of digits with no leading zero |
| PathReport.DecimalRoundTrip | Graph.cpp:176-178 | Reading the digits back gives the number |
| PathReport.ShowIdRoundTrip | Graph.cpp:176-178 | A printed id, with a leading '-' when negative, reads back as the same id |
| PathReport.PathText | Graph.cpp:174-180 | The path line is empty exactly when the path is |
| PathReport.PathTextRoundTrip | Graph.cpp:174-180 | Splitting the arrow-joined line back at "->" recovers the exact id sequence |
| PathReport.InfoPath | Graph.cpp:168-181 | The path part is reported exactly when both selections are set. The length is -1 exactly when the selections coincide or are disconnected, and then the line is empty. Otherwise the line prints a shortest walk from start to end of that length |

## Left out

- `Node::draw`, `Graph::draw` and everything in main.cpp: rendering, fonts and the event loop are foreign SDL/TTF calls.
- `Graph::info`: the per-node listing, the cycle line and stdout itself are not modelled. Only the text of the path line and the returned length are (`PathReport.InfoPath`).
- `Node::getCircle`, `Node::setCircle`, `Node::getID`, `Node::getNeighbors` and `Graph::getNodes` are field reads or writes of the arena records. No algorithm in the core calls `setCircle`.
- `shared_ptr` ownership and aliasing: nodes are named by id, and pointer equality is id equality.
- Weights: an edge record keeps its optional weight, but nothing reads it, just as in the source.
- GraphOps.AddNode: the counter is an unbounded `nat`. The source's `int` would overflow after 2^31 creations, which the model does not capture.
- GraphOps.NodeAt: coordinates are unbounded integers. The `int` overflow of `dx * dx` for far-away points is not modelled.
- GraphOps.AddEdge: keeps `WF` only when both endpoints are live (`GraphInvariants.AddEdgeWF`). The source does not check liveness either, and the editor only passes nodes it found with `getNodeAt`.
- CycleDetection.HasCycle: requires `Undirected` (symmetric, clean adjacency between live nodes). The source also runs on states where `pop_nodes` has left other nodes still listing the removed one. The arena keeps such a dangling id (`GraphInvariants.PopConnectedBreaksWF`), but it drops the removed node's own neighbour list. The source's search would still follow that list through the surviving `shared_ptr`, so the model does not cover searches over such states.
- ShortestPath.ShortestPathLength: requires `Undirected`, for the same reason. It also does not say which shortest path is returned: on equal distances the source's priority queue compares `shared_ptr` addresses. The model pops any least entry, which covers every such tie-break.
- ShortestPath.Search: `std::numeric_limits<int>::max()` as the initial distance is a missing map key, and distances are unbounded `nat`s. The map default-inserting 0 for a never-initialised id (reachable only through dangling references) is not modelled.
