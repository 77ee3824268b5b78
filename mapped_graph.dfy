/** The partitioned graph of dyng/mapped_graph.h: a graph of partitions plus
    two alias maps that let further node and edge ids stand for a partition.
    The layout copies it by value (RGAP starts from a copy of GAP), so its
    value is the datatype Mapped; the class MappedGraph is the object whose
    methods update the three members in place. */
module MappedGraphs {
  import opened Wrappers
  import opened Identifiers
  import opened Container
  import opened Nodes
  import opened Edges
  import opened LiveSets
  import opened Partitions
  import opened Graphs

  /** graph_partitioning: a graph whose nodes and edges are partitions. */
  type Partitioning = Frame<LiveSet>

  datatype Mapped = Mapped(graph: Partitioning, nodeAlias: map<NodeId, NodeId>, edgeAlias: map<EdgeId, EdgeId>) {

    /** The id node_at looks up in the graph for `id`. */
    function NodeTarget(id: NodeId): NodeId
    {
      if id in nodeAlias then nodeAlias[id] else id
    }

    /** The id edge_at looks up in the graph for `id`. */
    function EdgeTarget(id: EdgeId): EdgeId
    {
      if id in edgeAlias then edgeAlias[id] else id
    }

    /** node_at: an aliased id resolves to its target's partition, any other id
        to its own; out_of_range when the graph lacks the id looked up. */
    function NodeAt(id: NodeId): (r: Result<NodePartition>)
      requires graph.nodes.IndexedBy(NodeIdOf)
      ensures r.Ok? <==> NodeTarget(id) in graph.nodes.index
      ensures r.Ok? ==> r.value.id == NodeTarget(id) && r.value in graph.nodes.vec
      ensures id !in nodeAlias && id !in graph.nodes.index ==> r == Err(OutOfRange)
      ensures id in nodeAlias ==> r == Graphs.NodeAt(graph, nodeAlias[id])
    {
      if id in nodeAlias then Graphs.NodeAt(graph, nodeAlias[id]) else Graphs.NodeAt(graph, id)
    }

    /** edge_at: resolves edge aliases in the same way. */
    function EdgeAt(id: EdgeId): (r: Result<EdgePartition>)
      requires graph.edges.IndexedBy(EdgeIdOf)
      ensures r.Ok? <==> EdgeTarget(id) in graph.edges.index
      ensures r.Ok? ==> r.value.id == EdgeTarget(id) && r.value in graph.edges.vec
      ensures id !in edgeAlias && id !in graph.edges.index ==> r == Err(OutOfRange)
      ensures id in edgeAlias ==> r == Graphs.EdgeAt(graph, edgeAlias[id])
    {
      if id in edgeAlias then Graphs.EdgeAt(graph, edgeAlias[id]) else Graphs.EdgeAt(graph, id)
    }

    /** map_node: records `node` as standing for `target` unless `node`
        already has an alias (emplace). */
    function MapNode(node: NodeId, target: NodeId): (r: Mapped)
      ensures r.graph == graph && r.edgeAlias == edgeAlias
      ensures r.nodeAlias.Keys == nodeAlias.Keys + {node}
      ensures r.NodeTarget(node) == if node in nodeAlias then nodeAlias[node] else target
      ensures forall id :: id != node ==> r.NodeTarget(id) == NodeTarget(id)
    {
      this.(nodeAlias := Emplace(nodeAlias, node, target))
    }

    /** map_edge: records `edge` as standing for `target` unless `edge`
        already has an alias (emplace). */
    function MapEdge(edge: EdgeId, target: EdgeId): (r: Mapped)
      ensures r.graph == graph && r.nodeAlias == nodeAlias
      ensures r.edgeAlias.Keys == edgeAlias.Keys + {edge}
      ensures r.EdgeTarget(edge) == if edge in edgeAlias then edgeAlias[edge] else target
      ensures forall id :: id != edge ==> r.EdgeTarget(id) == EdgeTarget(id)
    {
      this.(edgeAlias := Emplace(edgeAlias, edge, target))
    }

    /** clear_nodes: the graph's nodes and the node aliases go; edges and edge
        aliases stay. */
    function ClearNodes(): (r: Mapped)
      ensures r.nodeAlias == map[] && r.graph.nodes.vec == []
      ensures r.edgeAlias == edgeAlias && r.graph.edges == graph.edges
    {
      Mapped(Graphs.ClearNodes(graph), map[], edgeAlias)
    }

    /** clear_edges: the graph's edges and the edge aliases go; nodes and node
        aliases stay. */
    function ClearEdges(): (r: Mapped)
      ensures r.edgeAlias == map[] && r.graph.edges.vec == []
      ensures r.nodeAlias == nodeAlias && r.graph.nodes == graph.nodes
    {
      Mapped(Graphs.ClearEdges(graph), nodeAlias, map[])
    }
  }

  /** mapped_graph(graph_partitioning): the graph with no aliases. */
  function FromGraph(g: Partitioning): (m: Mapped)
    ensures m.graph == g && m.nodeAlias == map[] && m.edgeAlias == map[]
  {
    Mapped(g, map[], map[])
  }

  /** The first alias recorded for an id wins: mapping it again, to any
      target, changes nothing, and lookups of it resolve to the first target. */
  lemma MapNodeFirstWins(m: Mapped, node: NodeId, t1: NodeId, t2: NodeId)
    requires m.graph.nodes.IndexedBy(NodeIdOf)
    ensures m.MapNode(node, t1).MapNode(node, t2) == m.MapNode(node, t1)
    ensures node !in m.nodeAlias ==> m.MapNode(node, t1).NodeAt(node) == Graphs.NodeAt(m.graph, t1)
  {
  }

  lemma MapEdgeFirstWins(m: Mapped, edge: EdgeId, t1: EdgeId, t2: EdgeId)
    requires m.graph.edges.IndexedBy(EdgeIdOf)
    ensures m.MapEdge(edge, t1).MapEdge(edge, t2) == m.MapEdge(edge, t1)
    ensures edge !in m.edgeAlias ==> m.MapEdge(edge, t1).EdgeAt(edge) == Graphs.EdgeAt(m.graph, t1)
  {
  }

  /** An id that is neither aliased nor stored fails to resolve; after
      clear_nodes no node id resolves, after clear_edges no edge id does. */
  lemma ClearedLookupsFail(m: Mapped, n: NodeId, e: EdgeId)
    requires m.graph.Valid()
    ensures m.ClearNodes().graph.nodes.IndexedBy(NodeIdOf) && m.ClearNodes().NodeAt(n) == Err(OutOfRange)
    ensures m.ClearEdges().graph.Valid() && m.ClearEdges().EdgeAt(e) == Err(OutOfRange)
    ensures m.ClearEdges().graph.nodes == m.graph.nodes
    ensures forall id :: m.ClearEdges().NodeTarget(id) == m.NodeTarget(id)
  {
    ClearEdgesSpec(m.graph);
  }

  /** The mapped_graph object: the partition graph and both alias maps are
      fields that map_node, map_edge and clear_* update in place. */
  class MappedGraph {
    var graph: Partitioning
    var nodeAlias: map<NodeId, NodeId>
    var edgeAlias: map<EdgeId, EdgeId>

    function Value(): Mapped
      reads this
    {
      Mapped(graph, nodeAlias, edgeAlias)
    }

    constructor (g: Partitioning)
      ensures Value() == FromGraph(g)
    {
      graph := g;
      nodeAlias := map[];
      edgeAlias := map[];
    }

    method MapNode(node: NodeId, target: NodeId)
      modifies this
      ensures Value() == old(Value()).MapNode(node, target)
    {
      if node !in nodeAlias {
        nodeAlias := nodeAlias[node := target];
      }
    }

    method MapEdge(edge: EdgeId, target: EdgeId)
      modifies this
      ensures Value() == old(Value()).MapEdge(edge, target)
    {
      if edge !in edgeAlias {
        edgeAlias := edgeAlias[edge := target];
      }
    }

    method ClearNodes()
      modifies this
      ensures Value() == old(Value()).ClearNodes()
    {
      graph := Graphs.ClearNodes(graph);
      nodeAlias := map[];
    }

    method ClearEdges()
      modifies this
      ensures Value() == old(Value()).ClearEdges()
    {
      graph := Graphs.ClearEdges(graph);
      edgeAlias := map[];
    }
  }
}
