# dyng in Dafny

A model of the core of dyng, a C++ header-only library that lays out dynamic
graphs: a sequence of graph states (frames) in which nodes and edges appear
and disappear over time. The model covers

- the graph store: node and edge identifiers, the id-indexed entity
  containers, nodes and edges with their flags, and the static graph with its
  adjacency index (`graph.h`), both as values (`Graphs.Frame`) and as an
  object updated in place (`GraphObjects.Graph`);
- the dynamic-graph builder, which queues modifications per time slot and
  replays them into states, marking what appears and disappears
  (`DynamicGraphs.DynamicGraph`);
- live sets and the partitions of the foresighted layout: the supergraph of
  the whole animation, graph animation partitioning (GAP) and its reduced
  form (RGAP);
- the foresighted layout with tolerance: one static layout of the RGAP, the
  rounds of refinement in which a frame accepts one more iteration only while
  it stays close to its neighbours, sequentially and with the work split
  over a thread pool, then rescaling and centring on the canvas;
- the work splitting of the thread pool (`parallel.h`);
- the optimisation grid that buckets nodes by square, and the
  combinatorial part of the Fruchterman-Reingold layout: which pairs repel,
  how far a node may move, the clamp to the canvas and the cooling schedule;
- the interpolator, which turns a time into a phase of a transition and
  blends two consecutive states into the displayed one;
- the text format: the whitespace reducer, the splitter, the record
  writers and the stream readers for nodes, edges, graphs and dynamic graphs.

Floating-point values are modelled as `real`, the square root is a parameter
that the lemmas needing it assume to be one, and exceptions are the `Err`
case of a `Result`.

## Model

| member | source | states |
|---|---|---|
| `Identifiers.Inc` | dyng/dynamic_graph.h:54-58 | the id counters are C++ `unsigned`: incrementing the largest value wraps to 0, any other value goes up by one |
| `Identifiers.Eq` | dyng/identifiers.h:38-41 | `==` on ids holds exactly when the wrapped values are equal, i.e. when the ids are the same |
| `Identifiers.Ne` | dyng/identifiers.h:43-46 | `!=` is the negation of `==` |
| `Identifiers.Lt` | dyng/identifiers.h:48-51 | `<` holds exactly when the wrapped values are in numeric order; two different ids are always ordered one way |
| `Identifiers.Gt` | dyng/identifiers.h:53-56 | `>` compares the values and is `<` with its operands swapped |
| `Identifiers.Le` | dyng/identifiers.h:58-61 | `<=`, written as `!(a > b)`, is numeric `<=` on the values and equals `<` or `==` |
| `Identifiers.Ge` | dyng/identifiers.h:63-66 | `>=`, written as `!(a < b)`, is numeric `>=` and the converse of `<=` |
| `Identifiers.LtIsStrictTotalOrder` | dyng/identifiers.h:48-66 | `<` is irreflexive, transitive and total on ids of one kind, and `>` is its converse, so ids can key an ordered map |
| `Container.Container.At` | dyng/container.h:37-38 | `at(id)` (both overloads) is the element at `map[id]`, and fails with out_of_range exactly when `id` is not a key of the map |
| `Container.AtFindsStored` | dyng/container.h:37-38 | in an indexed container, `at` of the id of element i finds element i, and no other element carries that id |
| `Container.KeysAreIds` | dyng/container.h:35-36 | in an indexed container the map's keys are exactly the stored ids |
| `Container.Reindex` | dyng/graph.h:347-350 | rebuilding the map by `map[vec[i].id] = i` in order gives a map whose keys are the stored ids and whose every value points at an element carrying that key |
| `Container.ReindexIndexes` | dyng/graph.h:347-350 | when the ids are unique, the rebuilt map indexes the container |
| `Container.ReindexOfIndexed` | dyng/graph.h:347-350 | rebuilding the map of an already indexed container gives back the same map |
| `Container.AppendIndexed` | dyng/graph.h:243-245 | appending an element with a fresh id and mapping that id to the new position keeps the container indexed |
| `Container.StoredIsFound` | dyng/container.h:37-38 | any stored element is what `at` returns for its id |
| `Nodes.NewNode` | dyng/node.h:35-36 | a new node has the given id, the origin as position, alpha 1 and neither flag set |
| `Nodes.Node.SetIsNew` | dyng/node.h:45 | `is_new(v)` sets the new flag to v and changes nothing else (the id in particular) |
| `Nodes.Node.SetIsOld` | dyng/node.h:51 | `is_old(v)` sets the old flag to v and changes nothing else |
| `Nodes.Node.SetAlpha` | dyng/node.h:63 | `alpha(v)` sets alpha to v and changes nothing else |
| `Nodes.Node.SetPos` | dyng/node.h:66-69 | writing through the mutable `pos()` changes the coordinates only |
| `Edges.NewEdge` | dyng/edge.h:44-47 | a new edge stores the id and both endpoint ids, with alpha 1 and neither flag set |
| `Edges.Edge.SetIsNew` | dyng/edge.h:61 | `is_new(v)` sets the new flag and leaves id, endpoints, alpha and the old flag |
| `Edges.Edge.SetIsOld` | dyng/edge.h:67 | `is_old(v)` sets the old flag and leaves everything else |
| `Edges.Edge.SetAlpha` | dyng/edge.h:79 | `alpha(v)` sets alpha and leaves id, endpoints and both flags |
| `Edges.Edge.NodeOne` | dyng/edge.h:82-85 | `node_one()` is the node whose id is `one_id()` in the owning container, and fails with out_of_range when that node is absent |
| `Edges.Edge.NodeTwo` | dyng/edge.h:88-91 | `node_two()` is the node whose id is `two_id()` in the owning container, and fails with out_of_range when it is absent |
| `LiveSets.Add` | dyng/live_set.h:32-34 | `add(t)` appends t at the end and keeps the earlier values as they were |
| `LiveSets.AddKeepsIncreasing` | dyng/live_set.h:32-34 | appending a time larger than every stored one keeps the live set strictly increasing |
| `LiveSets.AddDoesNotDeduplicate` | dyng/live_set.h:32-34 | appending a time already present makes the set not strictly increasing: `add` neither sorts nor deduplicates |
| `LiveSets.Intersection` | dyng/live_set.h:36-41 | every value `std::set_intersection` emits occurs in both inputs |
| `LiveSets.IntersectionOfIncreasing` | dyng/live_set.h:36-41 | for strictly increasing inputs, `intersection` is strictly increasing and holds exactly the common values |
| `LiveSets.SetUnion` | dyng/live_set.h:44-49 | `std::set_union` emits exactly the values of either input |
| `LiveSets.UnionOfIncreasing` | dyng/live_set.h:44-49 | for strictly increasing inputs, `setunion` is strictly increasing, so it has no duplicates |
| `LiveSets.Join` | dyng/live_set.h:53-55 | after `join(o)` the values are exactly those of the old set or of o |
| `LiveSets.JoinKeepsIncreasing` | dyng/live_set.h:53-55 | `join` keeps a live set strictly increasing |
| `LiveSets.DisjointIffNoSharedTime` | dyng/live_set.h:36-41 | for increasing sets, an empty intersection means no shared time, and the test is symmetric: the compatibility test of GAP and RGAP |
| `LiveSets.UnionWithSubset` | dyng/live_set.h:44-49 | the union with a subset of the values gives back the same set |
| `LiveSets.JoinIdempotent` | dyng/live_set.h:53-55 | joining the same set twice equals joining it once |
| `Partitions.NewNodePartition` | dyng/partitions.h:35-36 | a new node partition is a new node whose live time is empty |
| `Partitions.NewEdgePartition` | dyng/partitions.h:58-59 | a new edge partition is a new edge with the given endpoints whose live time is empty |
| `Partitions.AddNodeLiveTime` | dyng/partitions.h:38-40 | `add_live_time(s)` makes the live time old ∪ s and leaves id, position, alpha and flags |
| `Partitions.AddEdgeLiveTime` | dyng/partitions.h:61-63 | `add_live_time(s)` makes the live time old ∪ s and leaves id and both endpoints |
| `Partitions.AddNodeLiveTimeIdempotent` | dyng/partitions.h:38-40 | adding the same increasing set twice is adding it once, and the live time stays increasing |
| `Partitions.AddEdgeLiveTimeIdempotent` | dyng/partitions.h:61-63 | the same for edge partitions |
| `Graphs.Emplace` | dyng/graph.h:243-244 | `unordered_map::emplace` inserts the key only when it is absent and never overwrites an earlier value; every other key keeps its value |
| `Graphs.Filter` | dyng/graph.h:344-345 | `std::remove_if` plus `erase` keeps exactly the elements the predicate rejects, each of them from the input |
| `Graphs.AdjacencyKeys` | dyng/graph.h:262-263 | the index entry push_edge builds for node a lists exactly the nodes that some stored edge joins to a |
| `Graphs.AdjacencyFirst` | dyng/graph.h:262-263 | each neighbour in an entry is mapped to the first edge joining the two nodes, since emplace never overwrites |
| `Graphs.AdjacencySymmetric` | dyng/graph.h:262-263 | if b is listed under a then a is listed under b, with the same edge |
| `Graphs.EmptyFrame` | dyng/graph.h:67 | a default graph has no nodes and no edges and satisfies the graph invariant |
| `Graphs.NodeAt` | dyng/graph.h:131-137 | `node_at(id)` is the stored node with that id, and fails with out_of_range exactly when no node has it |
| `Graphs.EdgeAt` | dyng/graph.h:143-149 | `edge_at(id)` is the stored edge with that id, and fails with out_of_range exactly when no edge has it |
| `Graphs.NodeIndex` | dyng/graph.h:155 | `node_index(id)` is the position of the node with that id in `nodes()`; out_of_range when absent |
| `Graphs.EdgeIndex` | dyng/graph.h:161 | `edge_index(id)` is the position of the edge with that id in `edges()`; out_of_range when absent |
| `Graphs.NodeExists` | dyng/graph.h:296 | `node_exists(id)` holds exactly when some stored node carries the id |
| `Graphs.EdgeExists` | dyng/graph.h:302 | `edge_exists(id)` holds exactly when some stored edge carries the id |
| `Graphs.EdgesAtNode` | dyng/graph.h:324-326 | `edges_at_node(a)` succeeds exactly when a is stored and has an index entry, and fails with out_of_range otherwise |
| `Graphs.EdgeBetweenMeansConnected` | dyng/graph.h:304-314 | on a valid graph `edge_exists(a, b)` fails exactly when a or b is missing, and is true exactly when some stored edge joins a and b |
| `Graphs.EdgeBetweenSymmetric` | dyng/graph.h:304-314 | the documented equivalence: `edge_exists(a, b) == edge_exists(b, a)` on every valid graph, and both entries name the same edge |
| `Graphs.PushNodeSpec` | dyng/graph.h:238-247 | push_node keeps the graph valid and stores the id; a stored id changes nothing, a new one appends the node, maps its id to the new position and gives it an empty entry |
| `Graphs.PushEdgeAsWritten` | dyng/graph.h:256-271 | push_edge as written agrees with the repaired `PushEdge` whenever it succeeds, and fails exactly when the repaired one fails |
| `Graphs.PushEdgeSpec` | dyng/graph.h:256-271 | push_edge succeeds exactly when the id is stored (then nothing changes) or both endpoints are stored; its failure is invalid_graph; a success appends the edge, keeps the graph valid and makes both endpoints adjacent |
| `Graphs.RemoveEdgesIfSpec` | dyng/graph.h:170-184 | with the index recomputed, remove_edges_if keeps the graph valid and the nodes, and keeps exactly the edges the predicate rejects |
| `Graphs.RemoveEdgesIfKeeps` | dyng/graph.h:339-351 | an edge the predicate rejects is still found by its id after removal (the rebuilt map points at it) |
| `Graphs.RemoveEdgeSpec` | dyng/graph.h:217-222 | remove_edge fails with invalid_graph exactly for an unknown id; otherwise the edge is gone, the graph valid, and the nodes unchanged |
| `Graphs.RemoveEdgeKeepsOthers` | dyng/graph.h:217-222 | remove_edge leaves every other edge findable by its id |
| `Graphs.RemoveNodesIfSpec` | dyng/graph.h:193-209 | remove_nodes_if keeps the graph valid, keeps exactly the nodes the predicate rejects and exactly the edges whose both endpoints remain |
| `Graphs.RemoveNodeSpec` | dyng/graph.h:230-235 | remove_node fails with invalid_graph exactly for an unknown id; otherwise the node, every edge attached to it and its entry are gone and every other node stays |
| `Graphs.ClearEdgesSpec` | dyng/graph.h:280-286 | clear_edges keeps the nodes, drops every edge and leaves every node with an empty entry |
| `Graphs.ClearNodesSpec` | dyng/graph.h:289-293 | clear_nodes drops every node and index entry but leaves the edge vector; the graph is valid afterwards exactly when it had no edges |
| `Graphs.SetNodeSpec` | dyng/graph.h:109 | writing a node through the mutable `nodes()` vector (id unchanged) keeps the graph valid; that node is found under its id and every other lookup is as before |
| `Graphs.SetEdgeSpec` | dyng/graph.h:125 | writing an edge through the mutable `edges()` vector (id and endpoints unchanged) keeps the graph valid and every index entry as it was |
| `Graphs.AdjacencyIgnoresPayloads` | dyng/graph.h:125 | the index entries depend only on the ids and endpoints of the edges, not on their positions, alpha or flags |
| `Graphs.PayloadsValid` | dyng/graph.h:109-125 | rewriting every node and edge without touching ids or endpoints keeps the graph valid |
| `Graphs.FilterUnique` | dyng/graph.h:344-345 | erasing elements cannot make two ids collide, so the rebuilt map is an index |
| `Graphs.WithEdgesValid` | dyng/graph.h:339-351 | recomputing the index from edges between stored nodes with distinct ids gives a valid graph |
| `Graphs.AsWrittenEntries` | dyng/graph.h:176-179 | as written, when a removed edge x = (a, b) and a surviving edge y = (a, c) share endpoint a, the entry of c loses a while the entry of a keeps c |
| `Graphs.AsWrittenKeepsEdge` | dyng/graph.h:183 | as written, remove_edges_if still keeps every edge the predicate rejects |
| `Graphs.RemoveEdgesIfAsWrittenBreaksSymmetry` | dyng/graph.h:164-184 | as written, after removing x = (a, b) the surviving edge y = (a, c) gives `edge_exists(a, c) == true` but `edge_exists(c, a) == false`, while the repaired removal reports it from both sides |
| `Graphs.RemovedEdgesIfStillJoins` | dyng/graph.h:164-166 | with the index recomputed, every surviving edge is reported by `edge_exists` from both endpoints, as the doc-comment promises |
| `Graphs.PushEdgeAsWrittenLeavesStaleEntry` | dyng/graph.h:261-266 | as written, pushing edge (1, 2) onto a graph holding only node 1 throws invalid_graph but leaves 2 in the entry of 1, so once node 2 is pushed `edge_exists(1, 2)` is true with no edge stored; the repaired push fails leaving the graph as it was |
| `Graphs.FilterTwice` | dyng/graph.h:193-209 | erasing with two predicates in turn (the per-node erasures of remove_nodes_if) is erasing with their disjunction |
| `Graphs.ReindexLoop` | dyng/graph.h:347-350 | the map-rebuilding loop `map[vec[i].id] = i` computes `Reindex` of the vector |
| `Graphs.RemoveElementsIf` | dyng/graph.h:339-351 | remove_elements_if leaves the elements the predicate rejects, in order, with the map rebuilt from them |
| `GraphObjects.Graph.constructor` | dyng/graph.h:67 | a new graph object is valid and empty |
| `GraphObjects.Graph.PushNode` | dyng/graph.h:238-247 | push_node updates the object as `Graphs.PushNode`, keeps it valid, and returns the node stored under the id |
| `GraphObjects.Graph.PushEdge` | dyng/graph.h:256-271 | push_edge updates the object as `Graphs.PushEdge` and returns the stored edge; on a missing endpoint it fails with invalid_graph and leaves the object unchanged |
| `GraphObjects.Graph.RemoveEdgesIf` | dyng/graph.h:170-184 | remove_edges_if (index recomputed) updates the object as `Graphs.RemoveEdgesIf` and keeps it valid |
| `GraphObjects.Graph.RemoveNodesIf` | dyng/graph.h:193-209 | remove_nodes_if updates the object as `Graphs.RemoveNodesIf` and keeps it valid |
| `GraphObjects.Graph.RemoveEdge` | dyng/graph.h:217-222 | remove_edge fails with invalid_graph on an unknown id leaving the object unchanged, and otherwise updates it as `Graphs.RemoveEdge` |
| `GraphObjects.Graph.RemoveNode` | dyng/graph.h:230-235 | remove_node fails with invalid_graph on an unknown id leaving the object unchanged, and otherwise updates it as `Graphs.RemoveNode` |
| `GraphObjects.Graph.ClearEdges` | dyng/graph.h:280-286 | clear_edges updates the object as `Graphs.ClearEdges` and keeps it valid |
| `GraphObjects.Graph.ClearNodes` | dyng/graph.h:289-293 | clear_nodes updates the object as `Graphs.ClearNodes`; the object stays valid exactly when it had no edges |
| `GraphObjects.DropNode` | dyng/graph.h:196-206 | the side effect for a selected node: the edges touching it are erased, the edge map rebuilt, its entry erased and every other entry recomputed |
| `GraphObjects.RemoveNodesLoop` | dyng/graph.h:193-209 | the node loop of remove_nodes_if, calling the side effect for each selected node and rebuilding the node map, computes `Graphs.RemoveNodesIf` |
| `MappedGraphs.Mapped.NodeAt` | dyng/mapped_graph.h:53-59 | `node_at(id)` is `graph.node_at(alias)` when id has an alias and `graph.node_at(id)` otherwise; an unaliased id the graph lacks fails with out_of_range |
| `MappedGraphs.Mapped.EdgeAt` | dyng/mapped_graph.h:65-71 | `edge_at(id)` resolves edge aliases the same way, and fails with out_of_range for an unaliased unknown id |
| `MappedGraphs.Mapped.MapNode` | dyng/mapped_graph.h:81-83 | `map_node` adds the id to the aliased ids; an id that already had an alias keeps it, and every other id resolves as before |
| `MappedGraphs.Mapped.MapEdge` | dyng/mapped_graph.h:93-95 | `map_edge` does the same for edge aliases |
| `MappedGraphs.Mapped.ClearNodes` | dyng/mapped_graph.h:97-100 | `clear_nodes` empties the graph's nodes and the node aliases and leaves the edges and edge aliases |
| `MappedGraphs.Mapped.ClearEdges` | dyng/mapped_graph.h:102-105 | `clear_edges` empties the graph's edges and the edge aliases and leaves the nodes and node aliases |
| `MappedGraphs.FromGraph` | dyng/mapped_graph.h:43-44 | a mapped graph built from a graph holds that graph and no aliases |
| `MappedGraphs.MapNodeFirstWins` | dyng/mapped_graph.h:81-83 | mapping an id a second time, to any target, changes nothing: the first alias wins and lookups resolve to it |
| `MappedGraphs.MapEdgeFirstWins` | dyng/mapped_graph.h:93-95 | the same for edge aliases |
| `MappedGraphs.ClearedLookupsFail` | dyng/mapped_graph.h:97-105 | after clear_nodes no node id resolves and after clear_edges no edge id does (out_of_range); clear_edges keeps the nodes and every node alias |
| `MappedGraphs.MappedGraph.constructor` | dyng/mapped_graph.h:43-44 | the object starts as the given graph with no aliases |
| `MappedGraphs.MappedGraph.MapNode` | dyng/mapped_graph.h:81-83 | the object's node aliases gain the id only when it had none |
| `MappedGraphs.MappedGraph.MapEdge` | dyng/mapped_graph.h:93-95 | the object's edge aliases gain the id only when it had none |
| `MappedGraphs.MappedGraph.ClearNodes` | dyng/mapped_graph.h:97-100 | the object's nodes and node aliases are cleared, nothing else |
| `MappedGraphs.MappedGraph.ClearEdges` | dyng/mapped_graph.h:102-105 | the object's edges and edge aliases are cleared, nothing else |
| `DynamicGraphs.ScheduledSpec` | dyng/dynamic_graph.h:196-201 | add_modification grows the log to time + 1 slots when it is shorter (new slots empty), appends the operation to slot `time` and leaves every other slot |
| `DynamicGraphs.ApplyOpSpec` | dyng/dynamic_graph.h:54-101 | a queued operation fails exactly when it adds an edge with a new id and a missing endpoint, or removes an absent node or edge; the failure is invalid_graph and a success keeps the state valid |
| `DynamicGraphs.ApplyOpNodes` | dyng/dynamic_graph.h:54-89 | after an operation, node a is present exactly when the operation added it, or it was present and the operation did not remove it |
| `DynamicGraphs.ApplyOpEdges` | dyng/dynamic_graph.h:71-101 | a successful add_edge operation leaves its edge in the state and a successful remove_edge operation leaves it out |
| `DynamicGraphs.ApplySlotValid` | dyng/dynamic_graph.h:210-212 | a slot's operations, applied in insertion order, fail only with invalid_graph, and a slot applied without failure keeps the state valid |
| `DynamicGraphs.ApplySlotNodes` | dyng/dynamic_graph.h:210-212 | after a slot, node a is present as the last add or removal of a in that slot decides (its presence before, when the slot does not mention it) |
| `DynamicGraphs.FateUntouched` | dyng/dynamic_graph.h:205-214 | a slot that neither adds nor removes node a carries its presence over from the previous state |
| `DynamicGraphs.ReplayFromShape` | dyng/dynamic_graph.h:203-216 | apply_modifications keeps the states already pushed, pushes one per slot while no operation fails, and on the first failure stops with invalid_graph and fewer states than slots; every state pushed is valid |
| `DynamicGraphs.ReplayFromSteps` | dyng/dynamic_graph.h:205-213 | each state pushed is its slot applied to a copy of the state pushed before it |
| `DynamicGraphs.ReplaySpec` | dyng/dynamic_graph.h:203-216 | a successful build yields one state per slot (max scheduled time + 1); state 0 is slot 0 applied to an empty graph and state t is slot t applied to state t - 1; a failure is invalid_graph with fewer states than slots |
| `DynamicGraphs.ReplayNodePresence` | dyng/dynamic_graph.h:205-214 | node a is present in state t exactly as slot t decides given its presence in state t - 1 (absent before state 0) |
| `DynamicGraphs.ApplyOpEdgeEnds` | dyng/dynamic_graph.h:71-101 | each successful operation changes edge e only as `EdgeStep` says: add_edge stores a new edge with its endpoints, remove_edge drops it, remove_node of an endpoint drops it with the node |
| `DynamicGraphs.RemoveNodeEnds` | dyng/graph.h:193-209 | remove_node drops edge e exactly when one of its endpoints is the removed node |
| `DynamicGraphs.ApplySlotEdges` | dyng/dynamic_graph.h:210-212 | after a slot, edge e is present, with the endpoints it was added with, exactly as the slot's operations in order decide |
| `DynamicGraphs.ReplayHistory` | dyng/dynamic_graph.h:203-216 | over the whole replay, state t holds node a exactly when the log up to slot t added it and did not remove it since, and holds edge e (with its endpoints as added) exactly when the log up to t added it and removed neither it nor one of its endpoints since; both endpoints of a held edge are nodes of that state |
| `DynamicGraphs.FlagNode` | dyng/dynamic_graph.h:238-243 | flagging a node of state i keeps its id |
| `DynamicGraphs.FlagEdge` | dyng/dynamic_graph.h:244-249 | flagging an edge of state i keeps its id and endpoints |
| `DynamicGraphs.FlagFrameIndexes` | dyng/dynamic_graph.h:236-251 | the flags of state i depend only on the ids the neighbouring states hold, so flagging earlier states first does not change them |
| `DynamicGraphs.FlaggedValid` | dyng/dynamic_graph.h:236-251 | set_bool_values keeps every state valid, with the same ids at the same positions |
| `DynamicGraphs.FlaggedNode` | dyng/dynamic_graph.h:238-243 | after set_bool_values a node of state i is old exactly when i is not last and state i + 1 lacks it, new exactly when i > 0 and state i - 1 lacks it, and nothing else about it changed |
| `DynamicGraphs.FlaggedEdge` | dyng/dynamic_graph.h:244-249 | the same for the edges of state i |
| `DynamicGraphs.FlaggedIdempotent` | dyng/dynamic_graph.h:236-251 | flagging twice is flagging once |
| `DynamicGraphs.MaxNodeId` | dyng/dynamic_graph.h:221-222 | `std::max_element` by id: a node id of the vector that no other node id exceeds |
| `DynamicGraphs.MaxEdgeId` | dyng/dynamic_graph.h:221-222 | the same for edge ids |
| `DynamicGraphs.RaisedNodeCounterSpec` | dyng/dynamic_graph.h:224-228 | recalculate_ids never lowers the node counter and leaves it above every node id of every state, except in a state whose largest id is the largest unsigned value, where max id + 1 wraps to 0 |
| `DynamicGraphs.RaisedEdgeCounterSpec` | dyng/dynamic_graph.h:229-232 | the same for the edge counter |
| `DynamicGraphs.CounterAboveIdsKept` | dyng/dynamic_graph.h:224-228 | a node counter already above every id is left unchanged |
| `DynamicGraphs.DynamicGraph.constructor` | dyng/dynamic_graph.h:45 | a new dynamic graph has both counters at 0, no states and an empty log |
| `DynamicGraphs.DynamicGraph.NodeCount` | dyng/dynamic_graph.h:178 | `node_count()` is the node counter |
| `DynamicGraphs.DynamicGraph.EdgeCount` | dyng/dynamic_graph.h:186 | `edge_count()` is the edge counter |
| `DynamicGraphs.DynamicGraph.AddModification` | dyng/dynamic_graph.h:196-201 | the log becomes `Scheduled(old log, time, op)`; states and counters unchanged |
| `DynamicGraphs.DynamicGraph.AddNode` | dyng/dynamic_graph.h:54-60 | returns the old node counter as the id, moves the counter on by one (unsigned) and queues adding that node at `time` |
| `DynamicGraphs.DynamicGraph.AddEdge` | dyng/dynamic_graph.h:71-77 | returns the old edge counter as the id, moves it on by one and queues adding the edge at `time` without checking its endpoints |
| `DynamicGraphs.DynamicGraph.RemoveNode` | dyng/dynamic_graph.h:85-89 | queues removing the node at `time`; nothing is checked until build |
| `DynamicGraphs.DynamicGraph.RemoveEdge` | dyng/dynamic_graph.h:97-101 | queues removing the edge at `time` |
| `DynamicGraphs.DynamicGraph.Clear` | dyng/dynamic_graph.h:139-142 | clear empties states and log and keeps both counters |
| `DynamicGraphs.DynamicGraph.Build` | dyng/dynamic_graph.h:113-117 | build() returns the replay's outcome; on success the states are the replayed states flagged and the log is empty (so a second build with nothing queued yields no states); on failure the states built before the failing slot stay, unflagged, and the log is kept |
| `DynamicGraphs.DynamicGraph.ApplyModifications` | dyng/dynamic_graph.h:203-217 | the nested loop computes `Replay` of the log, clearing the log only when no operation failed |
| `DynamicGraphs.DynamicGraph.SetBoolValues` | dyng/dynamic_graph.h:236-251 | the loop flags every state in place, giving `Flagged` of the old states, and keeps valid states valid |
| `DynamicGraphs.DynamicGraph.FlagState` | dyng/dynamic_graph.h:238-249 | the two inner loops flag every node and edge of state i |
| `DynamicGraphs.DynamicGraph.BuildFrom` | dyng/dynamic_graph.h:131-136 | build(states) clears the log, stores the given states flagged (without validating them) and raises each counter as recalculate_ids does |
| `DynamicGraphs.DynamicGraph.RecalculateIds` | dyng/dynamic_graph.h:219-234 | the loop raises each counter to max(counter, max id + 1) state by state, leaving states and log |
| `Supergraphs.NodeIds` | dyng/foresighted_layout.h:221 | the node ids of a frame, one per stored node, in vector order |
| `Supergraphs.EdgeIds` | dyng/foresighted_layout.h:231 | the edge ids of a frame, one per stored edge, in vector order |
| `Supergraphs.CollectLiveTimes` | dyng/foresighted_layout.h:218-236 | the loop of node_live_times and edge_live_times computes the frame-by-frame live-set map |
| `Supergraphs.AddTimeKeys` | dyng/foresighted_layout.h:221-223 | one frame's pass gives a live set to exactly the ids already mapped and the ids of the frame |
| `Supergraphs.AddTimeElsewhere` | dyng/foresighted_layout.h:221-223 | one frame's pass leaves the live set of every id the frame does not list unchanged |
| `Supergraphs.AddTimeSpec` | dyng/foresighted_layout.h:221-223 | one frame's pass adds time t to exactly the live sets of the frame's ids |
| `Supergraphs.AddTimeOnce` | dyng/foresighted_layout.h:221-223 | when a frame lists no id twice, t is appended exactly once to each of its ids' live sets |
| `Supergraphs.LiveTimesSpec` | dyng/foresighted_layout.h:218-236 | an id has a live set exactly when some frame lists it, and t is in that set exactly when frame t lists the id |
| `Supergraphs.LiveTimesIncreasing` | dyng/foresighted_layout.h:218-236 | when no frame lists an id twice, every live set lists its times in strictly increasing order |
| `Supergraphs.LiveTimesBelow` | dyng/foresighted_layout.h:220 | every recorded time is the index of a frame |
| `Supergraphs.ValidIdsDistinct` | dyng/graph.h:238-271 | the node and edge ids of a valid frame are distinct, so the live-set passes meet each id once per frame |
| `Supergraphs.CalculateSupergraph` | dyng/foresighted_layout.h:239-250 | the loop over frames, emplacing each frame's nodes and then its edges, computes the supergraph function |
| `Supergraphs.PushNodesFromValid` | dyng/foresighted_layout.h:242-244 | emplacing nodes keeps a valid graph valid and leaves its edges alone |
| `Supergraphs.PushNodesFromKeys` | dyng/foresighted_layout.h:242-244 | emplacing nodes stores exactly the ids stored before plus those of the run, each new one as a default node |
| `Supergraphs.PushEdgesFromValid` | dyng/foresighted_layout.h:245-247 | emplacing edges whose endpoints are stored succeeds and keeps a valid graph valid with the same nodes |
| `Supergraphs.PushEdgesFromKeys` | dyng/foresighted_layout.h:245-247 | emplacing edges keeps every stored edge at its position and stores exactly the old ids plus those of the run |
| `Supergraphs.PushEdgesFromFirst` | dyng/foresighted_layout.h:245-247 | an edge id new to the graph is stored as a default edge with the endpoints of its first occurrence in the run |
| `Supergraphs.EndpointsListed` | dyng/graph.h:256-271 | the endpoints of a valid frame's edges are among the ids of its nodes |
| `Supergraphs.SupergraphFromValid` | dyng/foresighted_layout.h:239-250 | growing a valid graph by valid frames never throws and gives a valid graph |
| `Supergraphs.SupergraphFromKeys` | dyng/foresighted_layout.h:239-250 | the grown graph stores exactly the ids stored before and those of some frame |
| `Supergraphs.SupergraphFromFirst` | dyng/foresighted_layout.h:245-247 | an edge first met in frame t at position i is stored with that occurrence's endpoints |
| `Supergraphs.IdsOfValid` | dyng/graph.h:238-271 | in a valid frame the ids in the vectors are exactly the indexed ids |
| `Supergraphs.SupergraphNodes` | dyng/foresighted_layout.h:239-250 | over valid frames the supergraph is built without error, is valid, holds exactly the node and edge ids alive at some time, and every node is a default node |
| `Supergraphs.SupergraphEdges` | dyng/foresighted_layout.h:245-247 | each supergraph edge joins the endpoints it has in the first frame that holds it |
| `Gap.FirstDisjoint` | dyng/foresighted_layout.h:260-268 | the position of the first partition whose live time shares no time with the node's; every earlier partition overlaps it |
| `Gap.JoinPartition` | dyng/foresighted_layout.h:259-273 | one node's step keeps the partition index faithful and leaves the edges and edge aliases alone |
| `Gap.GapNodes` | dyng/foresighted_layout.h:258-273 | the node loop keeps the partition index faithful and touches neither edges nor edge aliases |
| `Gap.GapEdge` | dyng/foresighted_layout.h:276-279 | one edge's step keeps both indexes faithful and leaves the partitions and aliases alone |
| `Gap.GapEdges` | dyng/foresighted_layout.h:275-280 | the edge loop keeps both indexes faithful and leaves the partitions and aliases alone |
| `Gap.FindPartition` | dyng/foresighted_layout.h:260-268 | the scan over the partitions stops at the first one whose live time is disjoint from the node's |
| `Gap.AssignPartition` | dyng/foresighted_layout.h:259-273 | the body of the node loop computes one node's step: joining the partition found or founding one under its own id |
| `Gap.PartitionNodes` | dyng/foresighted_layout.h:258-273 | the node loop computes the node phase, failing with out_of_range where nodes_live.at would throw |
| `Gap.PartitionEdges` | dyng/foresighted_layout.h:275-280 | the edge loop computes the edge phase, stopping at the first failure |
| `Gap.CalculateGap` | dyng/foresighted_layout.h:254-282 | calculate_gap computes the node phase over the supergraph's nodes and then the edge phase over its edges |
| `Gap.FoundForm` | dyng/foresighted_layout.h:269-272 | when no partition fits, the node founds a partition appended under its own id with its live time |
| `Gap.JoinedForm` | dyng/foresighted_layout.h:263-267 | when a partition fits, its live time gains the node's and the node is aliased to it |
| `Gap.FoundShape` | dyng/foresighted_layout.h:269-272 | founding a partition makes the node its own target, adds one partition and changes no other live time |
| `Gap.JoinedShape` | dyng/foresighted_layout.h:263-267 | joining maps the node to the partition, whose live time grows by the node's disjoint one, and changes no other partition |
| `Gap.JoinKeeps` | dyng/foresighted_layout.h:259-273 | one node step keeps the node-phase invariant: placed ids resolve, partition members never coexist, a partition lives only when a member does |
| `Gap.GapNodesKeep` | dyng/foresighted_layout.h:258-273 | the node loop over distinct new ids with live times succeeds and keeps the node-phase invariant |
| `Gap.EmptyPhase` | dyng/foresighted_layout.h:257 | the invariant holds of the empty partitioning |
| `Gap.GapNodesOk` | dyng/foresighted_layout.h:258-273 | the node loop fails, with out_of_range, exactly when some node has no live time |
| `Gap.GapNodesAdj` | dyng/graph.h:238-247 | the partitions pushed by the node loop all get adjacency entries |
| `Gap.GapEdgeForm` | dyng/foresighted_layout.h:276-279 | an edge with a new id and resolvable endpoints fails, with out_of_range, exactly when it has no live time, and otherwise appends its carrier edge between its endpoints' partitions |
| `Gap.GapEdgesPhase` | dyng/foresighted_layout.h:275-280 | the edge loop over a valid supergraph fails, with out_of_range, exactly when an edge has no live time, and otherwise stores one carrier per supergraph edge, in order |
| `Gap.GapNodesDone` | dyng/foresighted_layout.h:258-273 | after a successful node loop every supergraph node resolves to a partition and no edge is stored yet |
| `Gap.GapSpec` | dyng/foresighted_layout.h:254-282 | calculate_gap fails, with out_of_range, exactly when a node or edge lacks a live time; otherwise every node resolves to a partition holding its live time, members of a partition never coexist, a partition lives only when a member does, there are no more partitions than nodes, and the partition edges are the supergraph edges, in order, between their endpoints' partitions with their own live times |
| `Rgap.Merge` | dyng/foresighted_layout.h:301-303 | one merge keeps the edge index faithful, the node partitions, the node aliases and the number of stored edges |
| `Rgap.Absorb` | dyng/foresighted_layout.h:296-305 | the inner loop keeps the edge index faithful, the node partitions, the node aliases and the number of stored edges |
| `Rgap.Found` | dyng/foresighted_layout.h:293-295 | emplacing a GAP edge returns a valid position of the stored partition and leaves nodes and all aliases alone |
| `Rgap.RgapFrom` | dyng/foresighted_layout.h:290-307 | the outer loop keeps the edge index faithful and leaves the node partitions and node aliases alone |
| `Rgap.AbsorbEdges` | dyng/foresighted_layout.h:296-305 | the inner loop, writing through current_partition, computes the merge pass for GAP edge i |
| `Rgap.CalculateRgap` | dyng/foresighted_layout.h:286-316 | calculate_rgap's two loops over a copy of the GAP without edges compute the RGAP function |
| `Rgap.MergeForm` | dyng/foresighted_layout.h:301-303 | a merge rewrites only the live time at the current position and records the merged edge's alias to the current partition |
| `Rgap.FoundForm` | dyng/foresighted_layout.h:293-295 | founding a partition for a new edge id whose endpoints are nodes appends the edge with its live time at the end |
| `Rgap.FreshAt` | dyng/foresighted_layout.h:292 | a GAP edge not yet reached by the outer loop is not stored in the RGAP |
| `Rgap.FoundElsewhere` | dyng/foresighted_layout.h:293-295 | founding a partition leaves every other stored partition, its endpoints and its target unchanged |
| `Rgap.FoundTargets` | dyng/foresighted_layout.h:293-295 | the founding edge is its own target and every edge dealt with before keeps its older target |
| `Rgap.FreshLater` | dyng/foresighted_layout.h:296-297 | the GAP edges after i are not stored while edge i's partition absorbs |
| `Rgap.MergeTargets` | dyng/foresighted_layout.h:301 | a merge maps the merged edge to the current partition and leaves every other target alone |
| `Rgap.SameEdgeThrough` | dyng/foresighted_layout.h:289-292 | same_edge is transitive |
| `Rgap.FoundKeeps` | dyng/foresighted_layout.h:292-295 | founding a partition never fails under the loop invariant and keeps it |
| `Rgap.MergeKeeps` | dyng/foresighted_layout.h:298-304 | merging a disjoint edge between the same nodes keeps the loop invariant |
| `Rgap.SkipKeeps` | dyng/foresighted_layout.h:292 | skipping a removed edge keeps the loop invariant |
| `Rgap.AbsorbStep` | dyng/foresighted_layout.h:296-305 | one step of the inner loop merges exactly the mergeable edges |
| `Rgap.AbsorbNext` | dyng/foresighted_layout.h:296-305 | one step of the inner loop keeps the invariant |
| `Rgap.AbsorbKeeps` | dyng/foresighted_layout.h:296-305 | the whole inner loop keeps the invariant |
| `Rgap.RgapNext` | dyng/foresighted_layout.h:290-307 | one step of the outer loop cannot fail and keeps the invariant |
| `Rgap.RgapFromKeeps` | dyng/foresighted_layout.h:290-307 | the outer loop succeeds and keeps the invariant to the end, with exactly the aliased edges removed |
| `Rgap.InitKept` | dyng/foresighted_layout.h:287-289 | the copy of the GAP without edges and with nothing removed meets the invariant |
| `Rgap.RgapSpec` | dyng/foresighted_layout.h:286-316 | calculate_rgap never fails on a GAP with distinct edge ids, increasing live times and node endpoints; it keeps node partitions and aliases; every GAP edge resolves to an RGAP edge between the same node partitions whose live time includes its own; GAP edges sharing an RGAP edge never coexist; an RGAP edge lives only when one of its GAP edges does; there are at most as many RGAP edges as GAP edges |
| `Rgap.CarriersReady` | dyng/foresighted_layout.h:275-280 | the carriers the GAP stores for a valid supergraph have distinct ids, increasing live times and endpoints that are node partitions |
| `Rgap.GapFeedsRgap` | dyng/foresighted_layout.h:119-121 | on a valid supergraph where every node and edge has an increasing live time, calculate_gap and then calculate_rgap both succeed and the RGAP keeps the GAP's node partitions and aliases |
| `Foresighted.Positions` | dyng/foresighted_layout.h:179-181 | one position per node of the frame |
| `Foresighted.WithPositionsSpec` | dyng/foresighted_layout.h:178-183 | writing node positions moves the nodes there and keeps ids, flags, the index, the edges, the adjacency and validity |
| `Foresighted.WithOwnPositions` | dyng/foresighted_layout.h:178-183 | writing back the positions a frame already has changes nothing |
| `Foresighted.WithPositionsTwice` | dyng/foresighted_layout.h:178-183 | of two position writes only the last one counts |
| `Foresighted.Scaled` | dyng/foresighted_layout.h:193-196 | scaling keeps the number of positions |
| `Foresighted.Shifted` | dyng/foresighted_layout.h:209-212 | shifting keeps the number of positions |
| `Foresighted.Rescale` | dyng/foresighted_layout.h:186-200 | rescale multiplies every node position by (dst_width / src_width, dst_height / src_height) and changes nothing else |
| `Foresighted.Move` | dyng/foresighted_layout.h:202-216 | move shifts every node position by (dst_x - src_x, dst_y - src_y) and changes nothing else |
| `Foresighted.MaxNodes` | dyng/foresighted_layout.h:318-324 | max_nodes returns the node count of some frame that no frame exceeds |
| `Foresighted.Largest` | dyng/foresighted_layout.h:318-324 | the largest node count is that of some frame and at least that of every frame |
| `Foresighted.LargestUnique` | dyng/foresighted_layout.h:318-324 | a count some frame has and no frame exceeds is the largest |
| `Foresighted.Distance` | dyng/foresighted_layout.h:327-343 | distance's loop computes the mental distance: the summed distances of shared nodes, divided by their count in relative mode |
| `Foresighted.DistanceStep` | dyng/foresighted_layout.h:331-339 | one more node of the first layout adds its distance and one to the count exactly when the second layout has it |
| `Foresighted.SharedDistancesCount` | dyng/foresighted_layout.h:331-339 | no distance is summed exactly when the layouts share no node |
| `Foresighted.MentalDistanceSpec` | dyng/foresighted_layout.h:327-343 | the mental distance is never negative, and in relative mode it is undefined (0/0) exactly when the layouts share no node |
| `Foresighted.HomePositions` | dyng/foresighted_layout.h:179-181 | one partition position per node of the frame |
| `Foresighted.NodeLivesAt` | dyng/foresighted_layout.h:218-226 | a node of frame t has a live set holding t |
| `Foresighted.EdgeLivesAt` | dyng/foresighted_layout.h:228-236 | an edge of frame t has a live set |
| `Foresighted.LivesIncreasing` | dyng/foresighted_layout.h:167-168 | the live sets of valid frames list their times in increasing order |
| `Foresighted.SupergraphLives` | dyng/foresighted_layout.h:167-171 | the supergraph of valid frames is valid and each of its ids has a live set |
| `Foresighted.InSupergraph` | dyng/foresighted_layout.h:171 | every node id of a valid frame is a node of the supergraph |
| `Foresighted.GapOfFrames` | dyng/foresighted_layout.h:171-173 | on valid frames GAP and RGAP succeed, RGAP keeps GAP's node partitions and aliases, and every supergraph node resolves |
| `Foresighted.PipelineOk` | dyng/foresighted_layout.h:171-173 | supergraph, GAP and RGAP all succeed on valid frames |
| `Foresighted.FramesInSupergraph` | dyng/foresighted_layout.h:171 | every node of every valid frame is a supergraph node |
| `Foresighted.ResolvesAll` | dyng/foresighted_layout.h:180 | when every frame's nodes are among the resolved ids, node_at succeeds for every node of every frame |
| `Foresighted.PlacedRgapOk` | dyng/foresighted_layout.h:166-180 | basic_layout never fails on valid frames: node_at finds a partition for every node of every frame |
| `Foresighted.PlacedKeepsPartitions` | dyng/foresighted_layout.h:175 | the static layout of the RGAP keeps its partition index and aliases |
| `Foresighted.HomeFrame` | dyng/foresighted_layout.h:179-182 | the loop over a frame's nodes gives each node the position of its partition |
| `Foresighted.BasicLayout` | dyng/foresighted_layout.h:166-184 | basic_layout rewrites the frames in place to the frames with every node at its partition's place in one static layout of the RGAP |
| `Foresighted.Basic` | dyng/foresighted_layout.h:166-184 | basic_layout keeps the number of frames |
| `Foresighted.BasicIs` | dyng/foresighted_layout.h:178-183 | frames whose nodes each took their partition's position are the basic_layout result |
| `Foresighted.PlaceRgap` | dyng/foresighted_layout.h:167-175 | the preparation succeeds on valid frames and every node of every frame resolves in the placed RGAP |
| `Foresighted.GapApartOfFrames` | dyng/foresighted_layout.h:258-273 | on the animation's own live sets, GAP puts two nodes into one partition only when they never live at the same time |
| `Foresighted.FrameNodesApart` | dyng/foresighted_layout.h:166-184 | two different nodes of one frame never share a partition, so basic_layout places them by different partitions |
| `Foresighted.FrameInSupergraph` | dyng/foresighted_layout.h:167-171 | every node of frame t is a supergraph node with a live set holding t |
| `Foresighted.ApartInFrame` | dyng/foresighted_layout.h:258-273 | two distinct nodes alive at the same time resolve to different partitions |
| `Foresighted.PlacedAliases` | dyng/foresighted_layout.h:172-175 | the placed RGAP has GAP's node aliases |
| `Foresighted.FrameIdsDistinct` | dyng/graph.h:238-247 | two slots of a valid frame's node vector hold different ids |
| `Foresighted.SamePartitionSamePosition` | dyng/foresighted_layout.h:178-183 | the mental map: after basic_layout nodes that share a partition have the same position, in whichever frames they are |
| `Foresighted.Decide` | dyng/foresighted_layout.h:154-160 | deciding one frame keeps the number of frames |
| `Foresighted.DecideSpec` | dyng/foresighted_layout.h:154-160 | deciding frame s leaves it or replaces it by its candidate and leaves every other frame alone |
| `Foresighted.RoundUpTo` | dyng/foresighted_layout.h:153-161 | a partial round keeps the number of frames |
| `Foresighted.Rounds` | dyng/foresighted_layout.h:152-163 | the rounds keep the number of frames |
| `Foresighted.RelaidSpec` | dyng/foresighted_layout.h:154-159 | a relaid frame is the original with new positions: same ids, index, edges, adjacency and validity |
| `Foresighted.RelaidTrans` | dyng/foresighted_layout.h:152-163 | relaying out twice is relaying out once |
| `Foresighted.CandidateRelaid` | dyng/foresighted_layout.h:154-155 | a candidate is its frame with new positions only |
| `Foresighted.RelaidSelf` | dyng/foresighted_layout.h:154-160 | a frame left alone is relaid |
| `Foresighted.DecideRelaid` | dyng/foresighted_layout.h:154-160 | deciding a frame only moves nodes |
| `Foresighted.RoundUpToRelaid` | dyng/foresighted_layout.h:153-161 | the decisions of a round only move nodes |
| `Foresighted.RoundsRelaid` | dyng/foresighted_layout.h:152-163 | however many rounds run, every frame keeps its nodes, edges and adjacency and only node positions change |
| `Foresighted.LoneFrameTakes` | dyng/foresighted_layout.h:156-159 | a single frame has no neighbour to compare with, so it always takes its candidate |
| `Foresighted.NonPositiveThresholdKeeps` | dyng/foresighted_layout.h:156-158 | with a threshold of zero or less and two frames or more, no frame ever takes a candidate |
| `Foresighted.NeverTakes` | dyng/foresighted_layout.h:156-158 | with such a threshold deciding a frame among two or more keeps it |
| `Foresighted.NeverClose` | dyng/foresighted_layout.h:156-158 | no mental distance is below a threshold of zero or less |
| `Foresighted.RelativeDisjointKeeps` | dyng/foresighted_layout.h:156 | in relative mode a candidate sharing no node with the frame before has an undefined distance and is rejected |
| `Foresighted.ToleranceRound` | dyng/foresighted_layout.h:153-161 | one round rewrites the frames in place to the round function: each frame in order takes its candidate when it is close to both neighbours as they stand |
| `Foresighted.Accepts` | dyng/foresighted_layout.h:156-158 | the condition compares the copy with the frame before and, only if that passes, with the frame after |
| `Foresighted.RoundStep` | dyng/foresighted_layout.h:154-160 | one decided frame extends the partial round by one |
| `Foresighted.ThresholdFor` | dyng/foresighted_layout.h:149-151 | in absolute mode the threshold is the tolerance times the canvas unit times max_nodes; otherwise the tolerance itself |
| `Foresighted.RoundsStep` | dyng/foresighted_layout.h:152-163 | one more round at the annealed temperature extends the rounds by one |
| `Foresighted.Tolerance` | dyng/foresighted_layout.h:140-164 | tolerance rewrites the frames in place to cooling.iterations rounds, the temperature annealed after each, against the scaled threshold |
| `Foresighted.DefaultCooling` | dyng/foresighted_layout.h:135 | the default cooling runs 250 rounds from 0.4, multiplying by 0.977 each time |
| `Foresighted.DefaultCoolingCools` | dyng/foresighted_layout.h:135 | the default cooling lowers the temperature round after round |
| `Foresighted.CalculationScale` | dyng/foresighted_layout.h:109-110 | the calculation canvas has the requested aspect ratio, so rescaling multiplies both axes by the requested height |
| `Foresighted.Finish` | dyng/foresighted_layout.h:121-124 | one frame is rescaled from the calculation canvas and moved to the centre |
| `Foresighted.Refined` | dyng/foresighted_layout.h:113-118 | the calculation keeps the number of frames |
| `Foresighted.FinishAll` | dyng/foresighted_layout.h:121-124 | finishing keeps the number of frames |
| `Foresighted.FinishFrames` | dyng/foresighted_layout.h:121-124 | the last loop of operator() rewrites every frame in place, rescaled and moved |
| `Foresighted.Foresight` | dyng/foresighted_layout.h:104-125 | operator() keeps the number of frames |
| `Foresighted.ForesightedLayout.Settings` | dyng/foresighted_layout.h:130-137 | the settings are the object's fields |
| `Foresighted.ForesightedLayout.constructor` | dyng/foresighted_layout.h:135-137 | a new layout has the given tolerance, canvas and centre, the default cooling and relative distances |
| `Foresighted.ForesightedLayout.WithTolerance` | dyng/foresighted_layout.h:130-137 | a tolerance on the unit canvas around the origin |
| `Foresighted.ForesightedLayout.Default` | dyng/foresighted_layout.h:130-137 | tolerance zero on the unit canvas around the origin |
| `Foresighted.ForesightedLayout.SetCanvas` | dyng/foresighted_layout.h:130-137 | only the canvas and its centre change |
| `Foresighted.ForesightedLayout.SetTolerance` | dyng/foresighted_layout.h:130 | only the tolerance changes |
| `Foresighted.ForesightedLayout.UseRelativeDistance` | dyng/foresighted_layout.h:137 | only the distance mode changes |
| `Foresighted.ForesightedLayout.SetCooling` | dyng/foresighted_layout.h:101 | only the cooling changes |
| `Foresighted.ForesightedLayout.Apply` | dyng/foresighted_layout.h:104-125 | operator() leaves an empty animation alone; otherwise it runs basic_layout and, for a non-zero tolerance, tolerance on a canvas of height 1 with the requested aspect ratio, then rescales every frame to the canvas and moves it to the centre |
| `Foresighted.ForesightRelaid` | dyng/foresighted_layout.h:104-125 | operator() only moves nodes: every frame keeps its nodes, edges and adjacency and stays valid |
| `Foresighted.AllRelaidTrans` | dyng/foresighted_layout.h:104-125 | relaying out every frame twice is relaying out every frame once |
| `Foresighted.AllRelaidValid` | dyng/foresighted_layout.h:104-125 | relaid valid frames are valid |
| `Foresighted.FinishAllRelaid` | dyng/foresighted_layout.h:121-124 | rescaling and moving every frame only moves nodes |
| `Foresighted.FinishedRelaid` | dyng/foresighted_layout.h:121-124 | rescaling and moving only move nodes |
| `Foresighted.RefinedRelaid` | dyng/foresighted_layout.h:113-118 | basic_layout and the tolerance rounds only move nodes |
| `Foresighted.BasicRelaid` | dyng/foresighted_layout.h:166-184 | basic_layout only moves nodes |
| `Foresighted.ForesightPlacement` | dyng/foresighted_layout.h:109-124 | operator() puts a node at its calculated position scaled by the canvas height on both axes and moved by the centre |
| `Foresighted.FinishedPlacement` | dyng/foresighted_layout.h:121-124 | finishing one frame scales node j by the height and moves it by the centre |
| `Foresighted.ForesightOnCanvas` | dyng/foresighted_layout.h:109-124 | a node calculated on the calculation canvas ends on the requested canvas around the centre |
| `Foresighted.PlacementOnCanvas` | dyng/foresighted_layout.h:121-124 | placement sends the calculation canvas onto the requested canvas around the centre |
| `Foresighted.WidthBack` | dyng/foresighted_layout.h:110 | the calculation width times the height is the width |
| `Foresighted.ScaledOnCanvas` | dyng/foresighted_layout.h:193-196 | scaling by a positive height sends [-c/2, c/2] onto [-w/2, w/2] when the height times c is w |
| `Foresighted.ZeroToleranceMentalMap` | dyng/foresighted_layout.h:104-125 | with tolerance zero, nodes in one RGAP partition, in particular one node in any two frames, end at the same position |
| `Foresighted.ZeroToleranceBasic` | dyng/foresighted_layout.h:116-118 | with tolerance zero the calculation is basic_layout alone |
| `Foresighted.BasicSharePosition` | dyng/foresighted_layout.h:178-183 | after basic_layout nodes in one partition have one position |
| `ForesightedParallel.Committed` | dyng/foresighted_parallel.h:91-97 | the restore phase keeps the number of frames |
| `ForesightedParallel.Candidates` | dyng/foresighted_parallel.h:98-100 | the iterate phase keeps the number of frames |
| `ForesightedParallel.View` | dyng/foresighted_parallel.h:79-84 | what `get` returns keeps the number of frames |
| `ForesightedParallel.DecisionsUpTo` | dyng/foresighted_parallel.h:105-112 | the decide phase gives one decision per frame decided |
| `ForesightedParallel.TakesLocal` | dyng/foresighted_parallel.h:107-109 | a frame's decision reads only its two neighbours |
| `ForesightedParallel.CommittedUpTo` | dyng/foresighted_parallel.h:91-97 | committing the decisions so far keeps the number of frames |
| `ForesightedParallel.DecideStep` | dyng/foresighted_parallel.h:105-112 | deciding a frame against `get` and committing it agrees with deciding it sequentially against the frames decided so far |
| `ForesightedParallel.DecisionsMatch` | dyng/foresighted_parallel.h:105-112 | the parallel decisions for the first s frames, once committed, are the sequential round with its first s frames decided |
| `ForesightedParallel.RoundMatches` | dyng/foresighted_parallel.h:90-116 | one parallel round, once committed, is one sequential tolerance round |
| `ForesightedParallel.RestorePhase` | dyng/foresighted_parallel.h:91-97 | the restore loops of all workers commit the accepted copies into the frames and refresh the other copies from the frames |
| `ForesightedParallel.IteratePhase` | dyng/foresighted_parallel.h:98-100 | the iterate loops of all workers replace every copy by its candidate |
| `ForesightedParallel.DecidePhase` | dyng/foresighted_parallel.h:105-112 | worker 0's loop sets each apply flag by the tolerance condition against `get` for the frame before and the frame after as it stands |
| `ForesightedParallel.WorkersRound` | dyng/foresighted_parallel.h:90-116 | one round: restore, iterate at the current temperature, then decide |
| `ForesightedParallel.RunRounds` | dyng/foresighted_parallel.h:89-117 | after the rounds, committing the pending decisions gives the sequential rounds, while the frames themselves hold one round fewer |
| `ForesightedParallel.ToleranceAsWritten` | dyng/foresighted_parallel.h:66-118 | the parallel tolerance as written leaves the frames one round behind the sequential tolerance |
| `ForesightedParallel.Tolerance` | dyng/foresighted_parallel.h:66-118 | with the decisions of the last round committed, the parallel tolerance gives the sequential tolerance's frames |
| `ForesightedParallel.OneNode` | dyng/foresighted_parallel.h:66-118 | a frame with one node at the origin (the witness of the lost round) |
| `ForesightedParallel.Mover` | dyng/foresighted_parallel.h:99 | a static layout whose iteration moves every node to (1, 0) |
| `ForesightedParallel.LastRoundLost` | dyng/foresighted_parallel.h:90-116 | with one frame and one round, the sequential tolerance moves the node while the parallel tolerance as written leaves it at the origin |
| `Parallel.Pool.Count` | dyng/parallel.h:89 | count() is the number of workers plus the calling thread, at least 1 |
| `Parallel.NewPool` | dyng/parallel.h:81-84 | a pool of zero threads is refused with invalid_argument; otherwise count() is the requested number |
| `Parallel.CeilDiv` | dyng/parallel.h:167 | the ceiling of a / b: the least c with c * b >= a |
| `Parallel.GetChunk` | dyng/parallel.h:166-180 | get_chunk's loop returns the thread's chunk [min(t * c, size), min((t + 1) * c, size)) |
| `Parallel.ChunkBounds` | dyng/parallel.h:166-180 | every chunk lies within the range, and the first starts at 0 |
| `Parallel.ChunksAdjacent` | dyng/parallel.h:166-180 | each chunk ends where the next begins, and the last thread's chunk ends at the end of the range |
| `Parallel.ChunksTile` | dyng/parallel.h:136-180 | the chunks tile the range: every index belongs to exactly one thread's chunk |
| `Parallel.InterleavedJobs` | dyng/parallel.h:155-163 | for_each_interleaved hands job i the pair (i, count()) |
| `Parallel.InterleavedPartition` | dyng/parallel.h:147-163 | the interleaved index sets partition the range: index j is owned by job j % count() and by no other |
| `Parallel.WorkerIndices` | dyng/foresighted_parallel.h:91 | a worker loop visits exactly the indices the worker owns, in increasing order |
| `Parallel.NextOwned` | dyng/foresighted_parallel.h:91 | between two consecutive owned indices there is no other owned one |
| `OptimizationGrids.Floor` | dyng/optimization_grid.h:44-45 | std::floor: the greatest integer not above the value |
| `OptimizationGrids.Ceil` | dyng/optimization_grid.h:70-71 | std::ceil: the least integer not below the value |
| `OptimizationGrids.AxisCellSpan` | dyng/optimization_grid.h:44-52 | the square computed along an axis is the one whose span of side 2k holds p + size / 2 |
| `OptimizationGrids.FloorScaled` | dyng/optimization_grid.h:44-45 | floor(v / t) * t <= v < (floor(v / t) + 1) * t for t > 0 |
| `OptimizationGrids.Clamp` | dyng/optimization_grid.h:53-54 | the nearest value of [0, n): the value itself inside, 0 below, n - 1 above |
| `OptimizationGrids.Resize` | dyng/optimization_grid.h:72 | std::vector::resize keeps the first n buckets and adds empty ones |
| `OptimizationGrids.RowCellsSpec` | dyng/optimization_grid.h:54 | a row visit lists the squares (x0 + i, y) in order, exactly those of the row between the bounds |
| `OptimizationGrids.CellBlockSpec` | dyng/optimization_grid.h:53-54 | a block visit lists exactly the squares of its rows and columns, each once, in row-major order |
| `OptimizationGrids.BlockInGrid` | dyng/optimization_grid.h:53-85 | every square of a block inside the grid has its bucket |
| `OptimizationGrids.GatherSnoc` | dyng/optimization_grid.h:55-57 | visiting one more square appends its bucket's indices |
| `OptimizationGrids.GatherContains` | dyng/optimization_grid.h:55-57 | every index stored in the bucket of a visited square is passed to func |
| `OptimizationGrids.GatherFrom` | dyng/optimization_grid.h:55-57 | everything passed to func comes from the bucket of a visited square |
| `OptimizationGrids.GatherNoDup` | dyng/optimization_grid.h:50-60 | visiting distinct squares of buckets that share no index passes every index at most once |
| `OptimizationGrids.OptimizationGrid.Cell` | dyng/optimization_grid.h:43-47 | the square add stores into, clipped to the grid; a square inside the grid is kept |
| `OptimizationGrids.OptimizationGrid.Slot` | dyng/optimization_grid.h:83-85 | the row-major bucket position y * grid_w + x of a square of the grid lies within the buckets |
| `OptimizationGrids.OptimizationGrid.AroundCells` | dyng/optimization_grid.h:53-54 | for_each_around visits exactly the grid squares at most one step away in each direction, each once |
| `OptimizationGrids.OptimizationGrid.constructor` | dyng/optimization_grid.h:39-41 | a new grid has squares of side 2k, ceil(w / 2k) x ceil(h / 2k) of them, all empty |
| `OptimizationGrids.OptimizationGrid.Reset` | dyng/optimization_grid.h:66-73 | reset sets squares of side 2k, ceil(w / 2k) columns and ceil(h / 2k) rows, and resizes the bucket vector, keeping surviving buckets |
| `OptimizationGrids.OptimizationGrid.Add` | dyng/optimization_grid.h:43-47 | add with its square clipped to the grid appends the index to that square's bucket and changes nothing else |
| `OptimizationGrids.OptimizationGrid.AddAsWritten` | dyng/optimization_grid.h:43-47 | add as written appends to the unclipped slot when it lies within the buckets, and otherwise fails with nothing changed |
| `OptimizationGrids.OptimizationGrid.RawSlotInGrid` | dyng/optimization_grid.h:43-47 | inside the grid add as written and the clipped add use the same bucket |
| `OptimizationGrids.OptimizationGrid.ForEachAround` | dyng/optimization_grid.h:50-60 | for_each_around passes func the indices of the buckets around the position's square, row by row, each bucket front to back |
| `OptimizationGrids.OptimizationGrid.AroundInGrid` | dyng/optimization_grid.h:53-54 | every square for_each_around visits has a bucket |
| `OptimizationGrids.OptimizationGrid.Clear` | dyng/optimization_grid.h:62-64 | clear empties the bucket vector and keeps the shape |
| `OptimizationGrids.VisitBlock` | dyng/optimization_grid.h:53-59 | the nested loop passes the buckets of the block's squares in row-major order |
| `OptimizationGrids.VisitRow` | dyng/optimization_grid.h:54-58 | the inner loop passes the buckets of one row's squares left to right |
| `OptimizationGrids.NearbyCells` | dyng/optimization_grid.h:44-54 | coordinates less than 2k apart fall into squares at most one apart, clipped or not |
| `OptimizationGrids.CellGap` | dyng/optimization_grid.h:44-45 | squares two or more apart hold points more than 2k apart |
| `OptimizationGrids.NearbyClipped` | dyng/optimization_grid.h:43-54 | the clipped square of a canvas point is next to the unclipped square of any canvas point less than 2k away |
| `OptimizationGrids.NeighbourFound` | dyng/optimization_grid.h:43-60 | two canvas points closer than 2k along both axes see each other: the clipped square of one is among those visited around the other |
| `OptimizationGrids.CanvasCells` | dyng/optimization_grid.h:44-71 | a canvas point lies in a grid square, or one past it only when it sits exactly on the right or top border |
| `OptimizationGrids.AsWrittenCellOutOfRange` | dyng/optimization_grid.h:43-47 | on a 2 x 2 grid the canvas corner (2, 2) indexes slot 6 of 4, and (2, -2) the bucket of another square, where the clipped square keeps both in their own |
| `OptimizationGrids.AsWrittenMissesNeighbour` | dyng/optimization_grid.h:43-60 | on a 4 x 4 grid a node on the right border is stored by add as written where a node half a unit away never looks, while the clipped square is visited |
| `FruchtermanReingold.DefaultFirstCooling` | dyng/fruchterman_reingold.h:148 | the first pass runs 500 iterations from 0.8, multiplying by 0.9893 each time |
| `FruchtermanReingold.DefaultSecondCooling` | dyng/fruchterman_reingold.h:149 | the second pass runs 500 iterations from 0.05, multiplying by 0.993 each time |
| `FruchtermanReingold.LengthSpec` | dyng/fruchterman_reingold.h:310-312 | length(a, b) is the non-negative root of a^2 + b^2 |
| `FruchtermanReingold.RelativeUnitSpec` | dyng/fruchterman_reingold.h:71-73 | relative_unit is non-negative and its square is 0.68^2 (w^2 + h^2): 0.68 times the canvas diagonal |
| `FruchtermanReingold.WithinRadiusIsNear` | dyng/fruchterman_reingold.h:195 | nodes closer than 2k are closer than 2k along each axis, so repulsion within the radius only involves near pairs |
| `FruchtermanReingold.GlobalPairs` | dyng/fruchterman_reingold.h:213-218 | the global mode enumerates exactly the pairs (i, j) with j < i < n, each once |
| `FruchtermanReingold.BelowSpec` | dyng/fruchterman_reingold.h:228-232 | the callback forwards exactly the visited indices below i, and none twice when none was visited twice |
| `FruchtermanReingold.FillGrid` | dyng/fruchterman_reingold.h:220-224 | the grid setup makes squares of side 2k and stores node i under index i in its square, once, and nothing else |
| `FruchtermanReingold.GridPairs` | dyng/fruchterman_reingold.h:219-234 | the grid mode yields pairs (i, j) with j < i, none twice, and every pair of canvas nodes closer than 2k along both axes |
| `FruchtermanReingold.PairsBelow` | dyng/fruchterman_reingold.h:228-232 | the callback loop forwards (i, j) for every visited j below i |
| `FruchtermanReingold.GridStep` | dyng/fruchterman_reingold.h:226-233 | one node's round of the grid mode adds new, distinct pairs that include every near pair (i, j) |
| `FruchtermanReingold.VisitsNoDup` | dyng/fruchterman_reingold.h:228 | for_each_around in a grid where no index is stored twice yields no index twice |
| `FruchtermanReingold.VisitsNear` | dyng/fruchterman_reingold.h:228 | for_each_around for node i yields every node near it on the canvas |
| `FruchtermanReingold.ForEachPairOfNodes` | dyng/fruchterman_reingold.h:205-235 | the callback receives pairs (i, j) with j < i, never twice; all of them in the global mode, and in the grid mode every pair of canvas nodes closer than 2k |
| `FruchtermanReingold.ClampCoord` | dyng/fruchterman_reingold.h:275-277 | the clamp lands in [-size, size] and leaves a coordinate inside alone |
| `FruchtermanReingold.StepSpec` | dyng/fruchterman_reingold.h:269-274 | a node moves along its displacement by min(|d|, t), and not at all for a zero displacement |
| `FruchtermanReingold.StepBounded` | dyng/fruchterman_reingold.h:269-274 | a node never moves further than the temperature in one step |
| `FruchtermanReingold.DisplacedOnCanvas` | dyng/fruchterman_reingold.h:266-280 | after displacement a node is on the canvas; a step that stays on the canvas is not clamped |
| `FruchtermanReingold.DisplaceAll` | dyng/fruchterman_reingold.h:266-280 | displacing all nodes keeps their number |
| `FruchtermanReingold.Displacement` | dyng/fruchterman_reingold.h:259-281 | displacement moves every node by its own displacement, in place |
| `FruchtermanReingold.DisplaceAllOnCanvas` | dyng/fruchterman_reingold.h:266-280 | after displacement every node is on the canvas |
| `FruchtermanReingold.DefaultSettings` | dyng/fruchterman_reingold.h:144-149 | a new object has k coefficient 0.6, repulsion limited to 2k and the two default coolings |
| `FruchtermanReingold.IdealLengthPositive` | dyng/fruchterman_reingold.h:129-130 | on a canvas of positive size with a positive coefficient, k is positive, so the grid exists |
| `FruchtermanReingold.AllForces` | dyng/fruchterman_reingold.h:133-136 | one displacement per node |
| `FruchtermanReingold.IterationOf` | dyng/fruchterman_reingold.h:128-138 | one iteration keeps the number of nodes |
| `FruchtermanReingold.Iteration` | dyng/fruchterman_reingold.h:128-138 | iteration scales k and the temperature to the canvas, enumerates the pairs the repulsion needs, and leaves every node displaced by its force and on the canvas |
| `FruchtermanReingold.TemperatureFalls` | dyng/fruchterman_reingold.h:298-302 | under a cooling that lowers positive temperatures, the temperatures of successive rounds fall strictly and stay positive |
| `FruchtermanReingold.FirstCoolingCools` | dyng/fruchterman_reingold.h:148 | the default first cooling lowers the temperature |
| `FruchtermanReingold.SecondCoolingCools` | dyng/fruchterman_reingold.h:149 | the default second cooling lowers the temperature |
| `FruchtermanReingold.Iterated` | dyng/fruchterman_reingold.h:298-302 | the rounds of a cooling keep the number of nodes |
| `FruchtermanReingold.IteratedSnoc` | dyng/fruchterman_reingold.h:299-302 | one more round at the annealed temperature extends the rounds by its pairs |
| `FruchtermanReingold.LayoutPass` | dyng/fruchterman_reingold.h:292-303 | layout_pass runs cooling.iterations iterations, the temperature annealed after each, and leaves every node on the canvas when it ran at least once |
| `FruchtermanReingold.Initial` | dyng/fruchterman_reingold.h:59 | the initial placement gives one position per node |
| `FruchtermanReingold.Layout` | dyng/fruchterman_reingold.h:53-62 | operator() leaves a graph without nodes alone; otherwise it applies the initial placement and runs the first and then the second pass, leaving every node on the canvas unless both coolings are empty |
| `Interpolators.Durations.Set` | dyng/interpolator.h:153-175 | writing through duration(p) changes that kind's duration only |
| `Interpolators.DefaultDurations` | dyng/interpolator.h:273-277 | the defaults: idle 0.5, appear 0.25, disappear 0.25, morph 1, simultaneous 1.5, all positive |
| `Interpolators.CheckPhases` | dyng/interpolator.h:122-140 | set_phases' two tests pass exactly when the three separate phases occur once each and no simultaneous phase, or one simultaneous phase and none of the three; a failure is invalid_argument |
| `Interpolators.DefaultOrdersValid` | dyng/interpolator.h:75-86 | both built-in orders, phased and simultaneous, pass set_phases' tests |
| `Interpolators.ValidNotIdleOnly` | dyng/interpolator.h:122-140 | an accepted list always names a phase other than idle |
| `Interpolators.TotalPositive` | dyng/interpolator.h:181-187 | with positive durations a non-empty list takes a positive time |
| `Interpolators.TotalCons` | dyng/interpolator.h:181-187 | the total of a list is its first duration plus the total of the rest |
| `Interpolators.AnimationLengthSpec` | dyng/interpolator.h:195-197 | n >= 1 states take n - 1 transitions; with no states the size_t subtraction wraps to 2^64 - 1 transitions |
| `Interpolators.PhaseFromSpec` | dyng/interpolator.h:305-314 | the search from phase i finds a phase whenever the time left is below the remaining durations; it returns the first phase whose duration exceeds the time left, with that time left; its only failure is out_of_range |
| `Interpolators.TotalStep` | dyng/interpolator.h:183-185 | the durations up to phase i + 1 are those up to i plus phase i's |
| `Interpolators.CurrentPhaseSpec` | dyng/interpolator.h:305-314 | get_current_phase fails with out_of_range only when the value is outside the transition; otherwise it returns the first phase k with value minus the durations before k below duration(k), and that offset |
| `Interpolators.PerformSpec` | dyng/interpolator.h:316-349 | a phase never resets added or deleted; run to its end it sets the flag it completes and clears the one in progress; within it, its in-progress flag is set and every fraction stays in [0, 1] |
| `Interpolators.PerformAllStep` | dyng/interpolator.h:225-227 | performing one more phase in full extends the phases performed |
| `Interpolators.PerformAllSpec` | dyng/interpolator.h:225-227 | after complete phases every fraction is in [0, 1], a completed appear or simultaneous phase has set added, a completed disappear or simultaneous phase deleted, and nothing else sets them |
| `Interpolators.ReplayFractions` | dyng/interpolator.h:225-229 | within the current phase every fraction stays in [0, 1] |
| `Interpolators.CalcAlphaSpec` | dyng/interpolator.h:284-303 | an entity neither new nor old keeps its alpha; otherwise the alpha stays in [0, 1]; a new entity is invisible before it appears, fades in while it appears and is drawn as is once added; an old entity fades out while deleted and is invisible once deleted |
| `Interpolators.Lerp` | dyng/interpolator.h:279-281 | lerp gives a at 0, b at 1, and a when both ends agree |
| `Interpolators.LerpBetween` | dyng/interpolator.h:279-281 | for a fraction in [0, 1] the interpolated value lies between the two ends |
| `Interpolators.BlendNode` | dyng/interpolator.h:257-264 | blending a node keeps its id and flags |
| `Interpolators.FadeEdge` | dyng/interpolator.h:265-267 | fading an edge keeps its id, endpoints and flags |
| `Interpolators.Clip` | dyng/interpolator.h:231-232 | std::min with size - 1 gives a valid state index |
| `Interpolators.Offset` | dyng/interpolator.h:217-219 | the offset into the transition lies in [0, transition duration) |
| `Interpolators.AnimationAt` | dyng/interpolator.h:221-229 | the animation state within a transition has every fraction in [0, 1] |
| `Interpolators.Transition` | dyng/interpolator.h:217-232 | the two state indices a time falls between are valid indices |
| `Interpolators.ImportNodesValid` | dyng/interpolator.h:243-248 | pushing the next state's new nodes keeps a graph valid |
| `Interpolators.ImportEdgesValid` | dyng/interpolator.h:249-254 | pushing the next state's new edges keeps a graph valid when it succeeds |
| `Interpolators.ImportEdgesSpec` | dyng/interpolator.h:249-254 | importing edges keeps the nodes and existing edges, appends only new edges of the next state, no longer old, then stores every such edge; it fails only with invalid_graph and changes nothing when all were stored already |
| `Interpolators.DisplayErrors` | dyng/interpolator.h:233-268 | displaying fails only with invalid_graph, and never when the current and next states are one valid state |
| `Interpolators.InterpolationErrors` | dyng/interpolator.h:207-216 | operator() fails with out_of_range exactly when the time is before 0 or after length(); its only other failure is invalid_graph; with no states a time in range gives the empty graph |
| `Interpolators.ImportShape` | dyng/interpolator.h:237-254 | after unflagging and importing, the current state's entities stay in place no longer new, and every further entity is a new entity of the next state, no longer old |
| `Interpolators.DisplayFlags` | dyng/interpolator.h:237-254 | the displayed frame carries the flags that way |
| `Interpolators.InterpolationFlags` | dyng/interpolator.h:207-269 | in operator()'s frame the current state's entities keep their ids and old flags and are no longer new, and the others are exactly the next state's new entities, no longer old |
| `Interpolators.DisplayMoves` | dyng/interpolator.h:257-262 | shared nodes are lerped towards the next state and imported nodes stand where the next state has them |
| `Interpolators.DisplaySameState` | dyng/interpolator.h:237-268 | a state blended with itself imports nothing and every node stays where the state has it |
| `Interpolators.InterpolationPositions` | dyng/interpolator.h:207-269 | operator() lerps shared nodes and shows imported nodes at their next-state place; when both indices select one state every node stands where that state has it |
| `Interpolators.DisplayAlphas` | dyng/interpolator.h:257-267 | with alphas and fractions in [0, 1], every alpha of the displayed frame is in [0, 1] |
| `Interpolators.InterpolationAlphas` | dyng/interpolator.h:207-269 | when every alpha of every state is in [0, 1], so is every alpha of operator()'s frame |
| `Interpolators.ClearNewFlags` | dyng/interpolator.h:237-242 | the first two loops clear the new flag of every node and edge and keep the graph valid |
| `Interpolators.ImportNew` | dyng/interpolator.h:243-254 | the third and fourth loops push the next state's new nodes and edges, no longer old, keeping the graph valid |
| `Interpolators.BlendFrame` | dyng/interpolator.h:257-267 | the last two loops move each node towards the next state, give it and each edge its alpha, and keep the graph valid |
| `Interpolators.Interpolator.PhasedTransition` | dyng/interpolator.h:75-94 | interpolator(phased): idle, disappear, morph, appear with the default durations |
| `Interpolators.Interpolator.SimultaneousTransition` | dyng/interpolator.h:85-86 | interpolator(simultaneous): idle then simultaneous with the default durations |
| `Interpolators.Interpolator.WithPhases` | dyng/interpolator.h:102-104 | interpolator(phases) fails with invalid_argument exactly when set_phases would, and otherwise stores the list with the default durations |
| `Interpolators.Interpolator.SetPhases` | dyng/interpolator.h:122-140 | set_phases stores the list exactly when it passes both tests, otherwise fails with invalid_argument and changes nothing |
| `Interpolators.Interpolator.SetDuration` | dyng/interpolator.h:153-155 | writing duration(p) changes that kind's duration and nothing else |
| `Interpolators.Interpolator.TransitionDuration` | dyng/interpolator.h:181-187 | transition_duration sums the duration of every listed phase |
| `Interpolators.Interpolator.Length` | dyng/interpolator.h:195-197 | length is (number of states - 1) transitions in size_t arithmetic |
| `Interpolators.Interpolator.CurrentPhaseAt` | dyng/interpolator.h:305-314 | the loop computes get_current_phase |
| `Interpolators.Interpolator.AnimationAtTime` | dyng/interpolator.h:221-229 | the animation state at a value inside the transition: the phases before the current one in full, then the current one; every fraction in [0, 1] |
| `Interpolators.Interpolator.Interpolate` | dyng/interpolator.h:207-269 | operator() computes the interpolation function and returns a valid graph when it succeeds |
| `Interpolators.DefaultOrderCounts` | dyng/interpolator.h:75-86 | the phased order has appear, disappear and morph once and no simultaneous phase; the simultaneous order one simultaneous phase and none of the others |
| `Interpolators.IdleOnlyCounts` | dyng/interpolator.h:126-129 | a list of idle phases counts no simultaneous and no appear phase |
| `Interpolators.SizeMinusOne` | dyng/interpolator.h:196 | size() - 1 in size_t: n - 1 for n >= 1, 2^64 - 1 for n = 0 |
| `Interpolators.PhaseFromFinds` | dyng/interpolator.h:305-314 | the search succeeds whenever the time left is below the remaining durations |
| `Interpolators.PhaseFromFails` | dyng/interpolator.h:313 | the search fails only with out_of_range |
| `Interpolators.PhaseFromFound` | dyng/interpolator.h:306-309 | a phase found is the first whose duration exceeds the time left, returned with that time left |
| `Interpolators.FractionOf` | dyng/interpolator.h:323-336 | time / d lies in [0, 1] for a time within a positive duration |
| `Interpolators.FractionProduct` | dyng/interpolator.h:300-301 | the product of two fractions is a fraction |
| `Interpolators.ScaleWithin` | dyng/interpolator.h:279-281 | a fraction of a positive length lies between 0 and that length |
| `Interpolators.LerpCoords` | dyng/interpolator.h:260-261 | lerping a position towards itself leaves it |
| `Interpolators.ImportNodesSpec` | dyng/interpolator.h:243-248 | importing nodes appends only new nodes of the next state, no longer old, then stores every such node, and changes nothing when all were stored already |
| `Interpolators.ImportParts` | dyng/interpolator.h:237-254 | after unflagging and importing, the current state's entities stay in place no longer new, further entities are the next state's new ones no longer old, and every new entity of the next state is stored |
| `Interpolators.BlendedKeepsFlags` | dyng/interpolator.h:257-267 | blending keeps the flags carried |
| `Interpolators.ImportedStandsStill` | dyng/interpolator.h:258-262 | an imported node is found in the next state and is lerped to exactly where it stands there |
| `Interpolators.ClearNodeFlags` | dyng/interpolator.h:237-239 | the first loop clears the new flag of every node |
| `Interpolators.ClearEdgeFlags` | dyng/interpolator.h:240-242 | the second loop clears the new flag of every edge |
| `Interpolators.ImportNodeVector` | dyng/interpolator.h:243-248 | the third loop pushes the next state's new nodes and keeps the graph valid |
| `Interpolators.ImportEdgeVector` | dyng/interpolator.h:249-254 | the fourth loop pushes the next state's new edges, stopping at a failing push, and keeps the graph valid |
| `Interpolators.BlendNodeVector` | dyng/interpolator.h:257-264 | the fifth loop blends every node |
| `Interpolators.FadeEdgeVector` | dyng/interpolator.h:265-267 | the last loop fades every edge |
| `Interpolators.Interpolator.DisplayFrame` | dyng/interpolator.h:237-269 | the current state unflagged, the new entities of the next state imported and the two blended give the displayed frame, which is a valid graph; a failing import is passed on |
| `Parse.CollapsedSpec` | dyng/parse.h:45-54 | the loop's text has only ' ' as whitespace and never two in a row, is empty only for an empty input, ends in ' ' exactly when the input ends in whitespace, and keeps every other character in order |
| `Parse.TidyPushed` | dyng/parse.h:50-53 | appending a character the loop lets through keeps the text free of other whitespace and of double spaces |
| `Parse.CollapsedTidy` | dyng/parse.h:48-54 | the loop leaves an already reduced text unchanged |
| `Parse.TrimFirst` | dyng/parse.h:55-57 | erasing a leading ' ' keeps the other characters and leaves no leading ' ' |
| `Parse.TrimLast` | dyng/parse.h:58-60 | popping a trailing ' ' keeps the other characters and leaves neither a leading nor a trailing ' ' |
| `Parse.ReducedSpec` | dyng/parse.h:45-62 | reduce_whitespace: no leading or trailing space, no two spaces in a row, every whitespace character turned into ' ', every other character kept in order |
| `Parse.ReducedIdempotent` | dyng/parse.h:45-62 | reducing twice is reducing once |
| `Parse.ReduceWhitespace` | dyng/parse.h:45-62 | the loop with its ignore flag and the two trims compute the reduced text |
| `Parse.Pieces` | dyng/parse.h:64-77 | a text has at least one piece between delimiters |
| `Parse.PiecesSpec` | dyng/parse.h:64-77 | the pieces hold no delimiter, number one more than the delimiters, and join back to the text |
| `Parse.JoinPushed` | dyng/parse.h:71-73 | pushing a piece adds a delimiter and that piece to the joined text |
| `Parse.JoinExtended` | dyng/parse.h:68-70 | extending the current chunk extends the joined text by that character |
| `Parse.PiecesAppend` | dyng/parse.h:64-77 | a delimiter followed by delimiter-free text adds that text as one more piece |
| `Parse.PiecesSingle` | dyng/parse.h:64-77 | delimiter-free text is a single piece |
| `Parse.PiecesLeading` | dyng/parse.h:71-73 | a leading delimiter gives an empty first piece |
| `Parse.SplitSpec` | dyng/parse.h:64-77 | split: no piece holds the delimiter; empty text gives no pieces; a leading delimiter gives an empty first piece; the pieces join back to the text, less a final delimiter; their count is the delimiters, plus one unless the text ends in one |
| `Parse.SplitText` | dyng/parse.h:64-77 | the loop with its chunk accumulator computes split |
| `Parse.PiecesStep` | dyng/parse.h:67-75 | one more character opens a new piece at a delimiter and extends the last piece otherwise |
| `Parse.DigitPrefix` | dyng/parse.h:166-186 | the longest leading run of digits std::stoi consumes |
| `Parse.DecimalSpec` | dyng/parse.h:126-128 | a printed id is a non-empty run of digits that reads back as the id |
| `Parse.StoiDecimal` | dyng/parse.h:126-186 | a printed id reads back through std::stoi when it fits an int and is out_of_range otherwise |
| `Parse.FieldCount` | dyng/parse.h:162-188 | a record whose reduced body does not split into three fields is rejected, and every failure is the runtime_error the readers throw |
| `Parse.SpacedTidy` | dyng/parse.h:126-129 | two reduced texts joined by one space stay reduced |
| `Parse.DecimalTidy` | dyng/parse.h:126-128 | a printed id is non-empty and holds no whitespace and no ';' |
| `Parse.EdgeBodyReduced` | dyng/parse.h:126-129 | the body of a written edge reduces to itself without the space after 'e' and holds no ';' |
| `Parse.EdgeBodySplit` | dyng/parse.h:126-129 | the body of a written edge splits into its three printed ids |
| `Parse.EdgeRoundTrip` | dyng/parse.h:125-191 | a written edge record is 'e', a body without ';', then ';', and its body reads back as the three ids when each fits an int, and is rejected otherwise |
| `Parse.LargeIdNotRead` | dyng/parse.h:125-189 | an edge with id 2^31 is written but its record cannot be read back |
| `Readers.Input.constructor` | dyng/parse.h:79-102 | a fresh stream holds the whole text and is good |
| `Readers.Input.Get` | dyng/parse.h:84-96 | get() returns and consumes the next character, or returns EOF and clears good |
| `Readers.Input.Peek` | dyng/parse.h:199-227 | peek() returns the next character without consuming it, or EOF and clears good |
| `Readers.IndexOf` | dyng/parse.h:84-100 | the position of the first occurrence of a character |
| `Readers.FirstNonSpace` | dyng/parse.h:213-239 | the position of the first non-whitespace character |
| `Readers.SkipUntil` | dyng/parse.h:79-86 | skip_until reports true exactly when the stream is good and holds ch, then stands just past the first ch; otherwise the stream is no longer good |
| `Readers.ReadUntil` | dyng/parse.h:88-102 | read_until returns the text before the first ch and consumes the ch; without one it is a runtime_error and the stream is no longer good |
| `Readers.Validate` | dyng/parse.h:104-112 | validate accepts exactly whitespace; end of input and any other character are a runtime_error |
| `Readers.NodeOf` | dyng/parse.h:166-168 | a record's node has the id read, the coordinates read, full alpha and no flags |
| `Readers.ReadNode` | dyng/parse.h:155-173 | operator>> for a node: without an 'n' nothing is read; a record without ';' is a runtime_error; otherwise the stream stands after the ';' and the result is the node its fields describe, or a runtime_error |
| `Readers.ReadEdge` | dyng/parse.h:175-191 | operator>> for an edge: without an 'e' nothing is read; a record without ';' is a runtime_error; otherwise the stream stands after the ';' and the result is the three ids read, or a runtime_error |
| `Readers.ReadWrittenEdge` | dyng/parse.h:125-191 | a written edge record is found at once, leaves the input after it, and reads back as its ids when they fit an int |
| `Readers.FindRecordAt` | dyng/parse.h:156-179 | a record at the start of the input is found with its body and the input after its ';' |
| `Readers.NodeCase` | dyng/parse.h:203-207 | the 'n' case succeeds exactly when the record at the head of the input is terminated and its fields read; the result is the graph with that node pushed, and the stream stands after the record's ';' |
| `Readers.EdgeCase` | dyng/parse.h:208-212 | the 'e' case gives the result of push_edge with the edge the record describes; it is invalid_graph exactly when that edge's id is new and an endpoint is missing, and a runtime_error when the record does not read |
| `Readers.NodeItem` | dyng/parse.h:203-207 | the 'n' case as a value: it goes on exactly when the located record's fields read, with the node pushed and the input after the ';' |
| `Readers.EdgeItem` | dyng/parse.h:208-212 | the 'e' case as a value: a record that does not read is a runtime_error; otherwise push_edge's failure is invalid_graph and its success goes on with the input after the ';' |
| `Readers.ItemStep` | dyng/parse.h:199-216 | one pass of the frame switch as a value: it stops with success exactly on ']', giving the graph unchanged and the input after it; end of input and stray characters are a runtime_error; whitespace is skipped; a pass that goes on shortens the input |
| `Readers.Items` | dyng/parse.h:198-218 | the frame loop as a value: on success the rest of the input is what follows a ']' |
| `Readers.ItemsOpening` | dyng/parse.h:198-218 | how the frame loop ends is decided by the first non-whitespace character: ']' gives the starting graph, running out or a stray character a runtime_error |
| `Readers.ItemsRunOut` | dyng/parse.h:198-218 | a frame whose input runs out before ']' is a runtime_error |
| `Readers.OpeningSkip` | dyng/parse.h:213-216 | whitespace at the head of the input does not change how a reader ends |
| `Readers.FindRecordHead` | dyng/parse.h:156-179 | a record whose tag opens the input ends at the first ';' after it |
| `Readers.OpeningForget` | dyng/parse.h:221-244 | the loop's outcome carries over to the reader's result |
| `Readers.GraphStep` | dyng/parse.h:199-216 | one pass of the switch takes the step ItemStep gives for the text the stream holds, and leaves the stream where ItemStep says |
| `Readers.ReadItems` | dyng/parse.h:198-218 | the frame loop reports what Items gives for the text after '[', stands where Items says on success, and its outcome is fixed by the first non-whitespace character |
| `Readers.ReadGraph` | dyng/parse.h:193-219 | operator>> for a graph: nothing without '['; otherwise the result Items gives for the text after the first '[', leaving the stream just past the ']' |
| `Readers.ClosedTrans` | dyng/parse.h:200-202 | closed by ch within a suffix is closed by ch within the whole input |
| `Readers.ClosedAt` | dyng/parse.h:200-231 | consuming the ch found at a position leaves a rest closed by ch |
| `Readers.AnimationStep` | dyng/parse.h:227-240 | one pass of the switch takes the step AnimStep gives for the text the stream holds, with end of input a runtime_error as written |
| `Readers.FrameCase` | dyng/parse.h:234-238 | the '[' case appends the graph Items reads after the '[' to the frames, or stops with its error |
| `Readers.AnimStep` | dyng/parse.h:227-240 | one pass of the dynamic switch as a value: '}' stops with the frames, leaving the '}'; end of input is the given ending; '[' appends a frame; whitespace is skipped; anything else is a runtime_error; the frames only grow |
| `Readers.Frames` | dyng/parse.h:226-242 | the dynamic loop as a value: on success the frames extend the starting ones and the input left starts with '}' |
| `Readers.FramesOpening` | dyng/parse.h:226-242 | how the dynamic loop ends is decided by the first non-whitespace character: '}' gives no frames, running out is the ending, a stray character a runtime_error |
| `Readers.FramesRunOut` | dyng/parse.h:226-242 | input that runs out at the level of the dynamic graph, after any number of frames, ends the loop with the ending error |
| `Readers.FrameThenRunOut` | dyng/parse.h:234-242 | a complete frame followed by nothing but whitespace ends the loop with the ending error: out_of_range once corrected, a runtime_error as written |
| `Readers.FramesEndingOnly` | dyng/parse.h:226-242 | the as-written and corrected loops agree on every input except where it runs out: same success, same frames, and errors that differ only as the two endings |
| `Readers.ReadFramesAsWritten` | dyng/parse.h:226-241 | the loop as written reports what Frames gives with a runtime_error for running out, standing at the '}' on success |
| `Readers.FramesStep` | dyng/parse.h:226-242 | the corrected pass takes the step AnimStep gives with out_of_range for running out |
| `Readers.ReadFrames` | dyng/parse.h:226-242 | the corrected loop reports what Frames gives with out_of_range for running out, standing at the '}' on success |
| `Readers.Finish` | dyng/parse.h:228-231 | on '}', build(states) empties the log, stores the frames read flagged and raises both id counters as recalculate_ids does, then the '}' is consumed; a failure changes neither |
| `Readers.ReadBodyAsWritten` | dyng/parse.h:225-242 | from just after '{', as written: succeeds exactly when Frames (runtime_error ending) does, fails with its error (runtime_error or invalid_graph) leaving the dynamic graph unchanged, and on success the dynamic graph holds exactly the frames Frames reads, flagged, with both id counters raised over them as recalculate_ids does, and the reader stands past the closing '}' |
| `Readers.ReadBody` | dyng/parse.h:225-242 | from just after '{': succeeds exactly when Frames (out_of_range ending) does, fails with its error leaving the dynamic graph unchanged (out_of_range only when the text ran out), and on success the dynamic graph holds exactly the frames Frames reads, flagged, with both id counters raised over them as recalculate_ids does, and the reader stands past the closing '}' |
| `Readers.ReadAnimationAsWritten` | dyng/parse.h:221-244 | operator>> for a dynamic graph as written: nothing without '{'; otherwise it succeeds exactly when Frames (runtime_error ending) does on the text after '{', fails with its error, and builds the dynamic graph from the frames Frames reads, raising both id counters over their ids as recalculate_ids does |
| `Readers.ReadAnimation` | dyng/parse.h:221-244 | operator>> for a dynamic graph: nothing without '{'; otherwise it succeeds exactly when Frames (out_of_range ending) does on the text after '{', fails with its error, and builds the dynamic graph from the frames Frames reads, raising both id counters over their ids as recalculate_ids does |
| `Readers.FindRecord` | dyng/parse.h:156-179 | no record exactly when the stream is not good or holds no tag; a record found has a body without ';' and leaves a strictly shorter rest of the input |
| `Parse.TrimmedSpec` | dyng/parse.h:55-60 | on a text with no other whitespace and no double space, the two trims leave no leading or trailing space, keep every other character, and change nothing when neither end is a space |

## Findings

| source | as written | input that shows it | evidently intended | confidence | as-written member | corrected member |
|---|---|---|---|---|---|---|
| dyng/graph.h:176-179 | remove_edges_if erases the keys `one` and `two` of each removed edge from every entry of the adjacency index | edges x = (a, b) and y = (a, c), remove x: the entry of c loses a while the entry of a keeps c, so `edge_exists(a, c)` and `edge_exists(c, a)` disagree | afterwards each node's entry lists exactly the neighbours it still shares a surviving edge with, so the index stays symmetric (the model recomputes it from the surviving edges) | high, not executed | `Graphs.RemoveEdgesIfAsWrittenBreaksSymmetry` | `Graphs.RemoveEdgesIfSpec` |
| dyng/graph.h:261-266 | push_edge adds `two` to the entry of `one` before finding that `two` is missing and throwing | a graph with only node 1, push edge (1, 2): invalid_graph is thrown, yet after pushing node 2 `edge_exists(1, 2)` is true with no such edge | check both endpoints before changing the index | high, not executed | `Graphs.PushEdgeAsWrittenLeavesStaleEntry` | `Graphs.PushEdgeSpec` |
| dyng/optimization_grid.h:43-47 | add indexes the bucket of the unclipped square of a position | a node on the right border x = w/2 with w/(2k) whole lands in the first square of the next row, and the bottom-right corner past the last bucket | clip the square to the grid, as for_each_around's callers expect | high, not executed | `OptimizationGrids.AsWrittenMissesNeighbour` | `OptimizationGrids.OptimizationGrid.Add` |
| dyng/foresighted_parallel.h:90-116 | the frames accepted in the last round are decided but never committed, because the commit happens at the start of the next round | one frame, one round: the sequential tolerance moves the node, the parallel one leaves it where it was | commit once more after the last round, which makes the result that of the sequential tolerance | high, not executed | `ForesightedParallel.LastRoundLost` | `ForesightedParallel.Tolerance` |
| dyng/parse.h:226-242 | end of input is peeked as EOF and handed to validate, which throws runtime_error, so the loop never ends by its condition and the out_of_range after it is unreachable | the text `{` with nothing after it | input ending before `}` raises out_of_range, as the message of the throw after the loop says | medium, not executed | `Readers.ReadAnimationAsWritten` | `Readers.ReadAnimation` |

## Left out

- `unsigned` is modelled as the subtype `u32` with wrap-around written out where the source increments or adds; `size_t` appears only where the source subtracts from a size.
- Floating point is modelled as `real`: rounding, NaN and infinities are not modelled, and `std::sqrt` is a parameter.
- Strings are sequences of characters; `std::isspace` is the C locale's set of six characters, and no encoding is modelled.
- Exceptions are the `Err` case of a `Result`; their message texts are not modelled.
- `std::function` arguments (the modifications queued by the dynamic graph, the predicates of the removal operations, the callbacks of the grid and of the thread pool) are represented by the kinds of function they can be, or by function-typed parameters.
- Setters that return a reference to the changed entity are functional updates that change only that field.
- The raw pointer an edge keeps to the node container (`set_ptr`) and the copy and move operators are not modelled: the container is passed where an edge reads its endpoints.
- Threads, the barrier and the internals of the thread pool are not modelled; a phase between two barriers is modelled as the workers running one after another, which is sound because each worker touches only the frames it owns.
- The border, repulsive and attractive force magnitudes of the Fruchterman-Reingold layout are a parameter (`FruchtermanReingold.Forces`), and the initial placement is a parameter too; the swapped argument order of the border-force call in `fruchterman_reingold.h` therefore has no effect in the model.
- The random displacement of two nodes at the same position (a seeded `std::mt19937` drawing an angle) is part of the force computation and so belongs to the `FruchtermanReingold.Forces` parameter.
- Conversions between numbers and text for coordinates are not modelled: `std::stof` is a parameter of the node reader, and the node writer and the graph and dynamic-graph writers that use it (which print floats) are not modelled; the edge writer and the printing and reading of identifiers are.
- `Parallel.GetChunk`: computes the chunk size as the integer ceiling of size over count, where `parallel.h` divides by `static_cast<float>(count())` in single precision before `std::ceil`; the two agree for every size up to 2^24, and above that the rounded quotient can be too small, so that the last indices go to no thread (size 2^24 + 1 with one thread gives [0, 2^24) and never hands out index 2^24).
- The `duration(phase)` default case that throws cannot be reached for any value of the enumeration and is not modelled; nor is the unreachable fallback return of `get_chunk`.
- `DynamicGraphs.DynamicGraph.AddModification`, `DynamicGraphs.DynamicGraph.AddNode`, `DynamicGraphs.DynamicGraph.AddEdge`, `DynamicGraphs.DynamicGraph.RemoveNode`, `DynamicGraphs.DynamicGraph.RemoveEdge`: each requires `time < 2^32 - 1`; the source takes any unsigned, where `time + 1` wraps at the largest value and the one below it asks for a vector of 2^32 - 1 slots.
- `Interpolators.Interpolator.Interpolate`: requires every phase duration to be positive; the source also accepts a zero duration for a phase it never divides by.
- `Interpolators.Interpolator.AnimationAtTime`: requires every phase duration to be positive, for the same reason.
- `Graphs.RemoveEdge`: built on the repaired `remove_edges_if` (see Findings), which erases a removed edge from the index entries of both endpoints; in `graph.h` the removal operations go through the as-written loop, so the asymmetry `Graphs.RemoveEdgesIfAsWrittenBreaksSymmetry` shows spreads to them (edges x = (n, b) and y = (b, c), then removing node n: the source leaves `edge_exists(c, b)` false while the model keeps it true). Their contracts describe the repaired graph, not the one the source leaves.
- `Graphs.RemoveNode`: the same departure as `Graphs.RemoveEdge`, for the same reason.
- `Graphs.RemoveNodesIf`: the same departure as `Graphs.RemoveEdge`, for the same reason.
- `Graphs.RemoveEdgeSpec`: the same departure as `Graphs.RemoveEdge`, for the same reason.
- `Graphs.RemoveNodeSpec`: the same departure as `Graphs.RemoveEdge`, for the same reason.
- `Graphs.RemoveNodesIfSpec`: the same departure as `Graphs.RemoveEdge`, for the same reason.
- `GraphObjects.Graph.RemoveNodesIf`: proved against the repaired `Graphs.RemoveNodesIf`, so it shares the departure from the as-written index described for `Graphs.RemoveEdge`.
- `GraphObjects.Graph.RemoveEdge`: the same departure as `GraphObjects.Graph.RemoveNodesIf`, for the same reason.
- `GraphObjects.Graph.RemoveNode`: the same departure as `GraphObjects.Graph.RemoveNodesIf`, for the same reason.
- `GraphObjects.DropNode`: the same departure as `GraphObjects.Graph.RemoveNodesIf`, for the same reason.
- `GraphObjects.RemoveNodesLoop`: the same departure as `GraphObjects.Graph.RemoveNodesIf`, for the same reason.
- `FruchtermanReingold.FillGrid`: fills the grid with the repaired, clipped `OptimizationGrids.OptimizationGrid.Add` (see Findings); with the unclipped `add` of `optimization_grid.h` a node on the right or bottom border lands in a cell past the row, and the near pairs these members promise to visit completely can be missed, as `OptimizationGrids.AsWrittenMissesNeighbour` shows. The as-written insertion is modelled as `OptimizationGrids.OptimizationGrid.AddAsWritten`.
- `FruchtermanReingold.GridPairs`: the same departure as `FruchtermanReingold.FillGrid`, for the same reason.
- `FruchtermanReingold.GridStep`: the same departure as `FruchtermanReingold.FillGrid`, for the same reason.
- `FruchtermanReingold.VisitsNear`: the same departure as `FruchtermanReingold.FillGrid`, for the same reason.
- `FruchtermanReingold.ForEachPairOfNodes`: the same departure as `FruchtermanReingold.FillGrid`, for the same reason.
- `FruchtermanReingold.Iteration`: the same departure as `FruchtermanReingold.FillGrid`, for the same reason.
- `Foresighted.BasicLayout`: requires every frame to be a valid graph, adjacency index included, although the layout reads only the node and edge lists; a frame the source would accept with its index out of step, or one whose edges name a node it no longer has (after `clear_nodes`, for which building the supergraph throws `invalid_graph`), is excluded by the precondition instead of being returned as an error.
- `Foresighted.Basic`: the same departure as `Foresighted.BasicLayout`, for the same reason.
- `Foresighted.PlaceRgap`: the same departure as `Foresighted.BasicLayout`, for the same reason.
- `Foresighted.Refined`: the same departure as `Foresighted.BasicLayout`, for the same reason.
- `Foresighted.Foresight`: the same departure as `Foresighted.BasicLayout`, for the same reason.
- `Foresighted.ForesightedLayout.Apply`: the same departure as `Foresighted.BasicLayout`, for the same reason.
- `DynamicGraphs.DynamicGraph.Build` replays the queued modifications with the repaired `remove_edges_if` and `push_edge` (see Findings); the as-written versions are modelled beside them.
- `Foresighted.MaxNodes` and the other functions over the list of states require it to be non-empty, which `operator()` guarantees by returning early on an empty list.
- The demo programs (windowing, drawing, random graph generators, command-line entry points) and the initial placement of `initial_placement.h` are not part of this model.
