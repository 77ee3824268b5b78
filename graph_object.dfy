/** The graph object of dyng/graph.h: its three members are fields, and each
    method changes them in place as the function of the same name in module
    Graphs changes a frame. */
module GraphObjects {
  import opened Wrappers
  import opened Identifiers
  import opened Container
  import opened Nodes
  import opened Edges
  import opened Graphs

  class Graph<L> {
    var nodes: Container<NodeId, Node<L>>
    var edges: Container<EdgeId, Edge<L>>
    var adj: Adjacency

    /** The graph as a value. */
    function Value(): Frame<L>
      reads this
    {
      Frame(nodes, edges, adj)
    }

    ghost predicate Valid()
      reads this
    {
      Value().Valid()
    }

    constructor ()
      ensures Valid() && Value() == EmptyFrame()
    {
      nodes := Container([], map[]);
      edges := Container([], map[]);
      adj := map[];
    }

    /** push_node: returns the stored node with that id. */
    method PushNode(n: Node<L>) returns (r: Node<L>)
      requires Valid()
      modifies this
      ensures Valid() && Value() == Graphs.PushNode(old(Value()), n)
      ensures NodeAt(Value(), n.id) == Ok(r)
    {
      PushNodeSpec(Value(), n);
      ghost var v := Graphs.PushNode(Value(), n);
      if n.id in nodes.index {
        return nodes.vec[nodes.index[n.id]];
      }
      nodes := Container(nodes.vec + [n], nodes.index[n.id := |nodes.vec|]);
      adj := Emplace(adj, n.id, map[]);
      r := n;
      assert Value() == v;
      assert nodes.vec[nodes.index[n.id]] == n;
    }

    /** push_edge: returns the stored edge with that id, or fails with
        invalid_graph when an endpoint is missing, leaving the graph as it was. */
    method PushEdge(e: Edge<L>) returns (r: Result<Edge<L>>)
      requires Valid()
      modifies this
      ensures Valid()
      ensures r.Ok? <==> Graphs.PushEdge(old(Value()), e).Ok?
      ensures r.Ok? ==> Value() == Graphs.PushEdge(old(Value()), e).value && EdgeAt(Value(), e.id) == Ok(r.value)
      ensures r.Err? ==> r.error == InvalidGraph && Value() == old(Value())
    {
      ghost var f := Value();
      PushEdgeSpec(f, e);
      if e.id in edges.index {
        return Ok(edges.vec[edges.index[e.id]]);
      }
      if e.one !in adj || e.two !in adj {
        return Err(InvalidGraph);
      }
      var adj1 := adj[e.one := Emplace(adj[e.one], e.two, e.id)];
      var adj2 := adj1[e.two := Emplace(adj1[e.two], e.one, e.id)];
      var es := Container(edges.vec + [e], edges.index[e.id := |edges.vec|]);
      assert Frame(nodes, es, adj2) == Graphs.PushEdge(f, e).value;
      assert es.vec[es.index[e.id]] == e;
      edges, adj := es, adj2;
      r := Ok(e);
    }

    /** remove_edges_if, with each node's entry recomputed from the remaining
        edges instead of erasing endpoints from every entry. */
    method RemoveEdgesIf(pred: Edge<L> -> bool)
      requires Valid()
      modifies this
      ensures Valid() && Value() == Graphs.RemoveEdgesIf(old(Value()), pred)
    {
      RemoveEdgesIfSpec(Value(), pred);
      edges := RemoveElementsIf(edges, EdgeIdOf, pred);
      adj := map a | a in adj :: AdjacencyOf(edges.vec, a);
    }

    /** remove_nodes_if (see RemoveNodesLoop). */
    method RemoveNodesIf(pred: Node<L> -> bool)
      requires Valid()
      modifies this
      ensures Valid() && Value() == Graphs.RemoveNodesIf(old(Value()), pred)
    {
      RemoveNodesIfValid(Value(), pred);
      ReindexOfIndexed(edges, EdgeIdOf);
      var r := RemoveNodesLoop(Value(), pred);
      nodes, edges, adj := r.nodes, r.edges, r.adj;
    }

    /** remove_edge: invalid_graph for an unknown id. */
    method RemoveEdge(id: EdgeId) returns (r: Result<()>)
      requires Valid()
      modifies this
      ensures Valid()
      ensures r.Ok? <==> Graphs.RemoveEdge(old(Value()), id).Ok?
      ensures r.Ok? ==> Value() == Graphs.RemoveEdge(old(Value()), id).value
      ensures r.Err? ==> r.error == InvalidGraph && Value() == old(Value())
    {
      if id !in edges.index {
        return Err(InvalidGraph);
      }
      RemoveEdgesIf(EdgeWithId(id));
      r := Ok(());
    }

    /** remove_node: invalid_graph for an unknown id. */
    method RemoveNode(id: NodeId) returns (r: Result<()>)
      requires Valid()
      modifies this
      ensures Valid()
      ensures r.Ok? <==> Graphs.RemoveNode(old(Value()), id).Ok?
      ensures r.Ok? ==> Value() == Graphs.RemoveNode(old(Value()), id).value
      ensures r.Err? ==> r.error == InvalidGraph && Value() == old(Value())
    {
      if id !in nodes.index {
        return Err(InvalidGraph);
      }
      RemoveNodesIf(NodeWithId(id));
      r := Ok(());
    }

    /** clear_edges. */
    method ClearEdges()
      requires Valid()
      modifies this
      ensures Valid() && Value() == Graphs.ClearEdges(old(Value()))
    {
      ClearEdgesSpec(Value());
      edges := Container([], map[]);
      adj := map a | a in adj :: map[];
    }

    /** clear_nodes; the graph is valid afterwards only if it had no edges. */
    method ClearNodes()
      requires Valid()
      modifies this
      ensures Value() == Graphs.ClearNodes(old(Value()))
      ensures Valid() <==> old(Value()).edges.vec == []
    {
      ClearNodesSpec(Value());
      nodes := Container([], map[]);
      adj := map[];
    }
  }

  /** The side effect of remove_nodes_if's predicate for a selected node:
      remove_edges_if on the edges attached to it, then its index entry erased. */
  method DropNode<L>(edges: Container<EdgeId, Edge<L>>, adj: Adjacency, id: NodeId)
    returns (edges': Container<EdgeId, Edge<L>>, adj': Adjacency)
    ensures edges'.vec == Filter(edges.vec, Touching({id})) && edges'.index == Reindex(edges'.vec, EdgeIdOf)
    ensures adj'.Keys == adj.Keys - {id}
    ensures forall a :: a in adj' ==> adj'[a] == AdjacencyOf(edges'.vec, a)
  {
    edges' := RemoveElementsIf(edges, EdgeIdOf, Touching({id}));
    var entries := map a | a in adj :: AdjacencyOf(edges'.vec, a);
    adj' := entries - {id};
  }

  lemma RestrictedEntries<L>(fadj: Adjacency, es: seq<Edge<L>>, R: set<NodeId>, adj: Adjacency)
    requires adj.Keys == fadj.Keys - R
    requires forall a :: a in adj ==> adj[a] == AdjacencyOf(es, a)
    ensures var entries := map b | b in fadj :: AdjacencyOf(es, b);
            adj == map a | a in entries && a !in R :: entries[a]
  {
    var entries := map b | b in fadj :: AdjacencyOf(es, b);
    var spec := map a | a in entries && a !in R :: entries[a];
    assert forall a :: a in adj <==> a in spec;
  }

  /** The state the loop of RemoveNodesLoop ends in is the frame RemoveNodesIf
      describes. */
  lemma RemoveNodesLoopDone<L>(f: Frame<L>, pred: Node<L> -> bool, R: set<NodeId>, nodes: Container<NodeId, Node<L>>,
                               edges: Container<EdgeId, Edge<L>>, adj: Adjacency)
    requires R == RemovedIds(f.nodes.vec, pred)
    requires nodes.vec == Filter(f.nodes.vec, pred) && nodes.index == Reindex(nodes.vec, NodeIdOf)
    requires edges.vec == Filter(f.edges.vec, Touching(R)) && edges.index == Reindex(edges.vec, EdgeIdOf)
    requires adj.Keys == f.adj.Keys - R
    requires forall a :: a in adj ==> adj[a] == AdjacencyOf(edges.vec, a)
    ensures Frame(nodes, edges, adj) == RemoveNodesIf(f, pred)
  {
    RestrictedEntries(f.adj, edges.vec, R, adj);
  }

  /** The state RemoveNodesLoop keeps after looking at the first i nodes. */
  ghost predicate NodeLoopState<L>(f: Frame<L>, pred: Node<L> -> bool, i: nat, kept: seq<Node<L>>, R: set<NodeId>,
                                   edges: Container<EdgeId, Edge<L>>, adj: Adjacency)
  {
    && i <= |f.nodes.vec|
    && kept == Filter(f.nodes.vec[..i], pred)
    && R == RemovedIds(f.nodes.vec[..i], pred)
    && edges.vec == Filter(f.edges.vec, Touching(R))
    && edges.index == Reindex(edges.vec, EdgeIdOf)
    && adj.Keys == f.adj.Keys - R
    && (forall a :: a in adj ==> adj[a] == AdjacencyOf(edges.vec, a))
  }

  /** A selected node: its id joins R and DropNode's result is the new state. */
  lemma NodeLoopDrop<L>(f: Frame<L>, pred: Node<L> -> bool, i: nat, kept: seq<Node<L>>, R: set<NodeId>,
                        edges: Container<EdgeId, Edge<L>>, adj: Adjacency,
                        edges': Container<EdgeId, Edge<L>>, adj': Adjacency)
    requires NodeLoopState(f, pred, i, kept, R, edges, adj) && i < |f.nodes.vec| && pred(f.nodes.vec[i])
    requires edges'.vec == Filter(edges.vec, Touching({f.nodes.vec[i].id})) && edges'.index == Reindex(edges'.vec, EdgeIdOf)
    requires adj'.Keys == adj.Keys - {f.nodes.vec[i].id}
    requires forall a :: a in adj' ==> adj'[a] == AdjacencyOf(edges'.vec, a)
    ensures NodeLoopState(f, pred, i + 1, kept, R + {f.nodes.vec[i].id}, edges', adj')
  {
    var id := f.nodes.vec[i].id;
    FilterPrefix(f.nodes.vec, i, pred);
    RemovedIdsPrefix(f.nodes.vec, i, pred);
    FilterTwice(f.edges.vec, Touching(R), Touching({id}), Touching(R + {id}));
  }

  /** A node that stays: it joins the kept nodes. */
  lemma NodeLoopKeep<L>(f: Frame<L>, pred: Node<L> -> bool, i: nat, kept: seq<Node<L>>, R: set<NodeId>,
                        edges: Container<EdgeId, Edge<L>>, adj: Adjacency)
    requires NodeLoopState(f, pred, i, kept, R, edges, adj) && i < |f.nodes.vec| && !pred(f.nodes.vec[i])
    ensures NodeLoopState(f, pred, i + 1, kept + [f.nodes.vec[i]], R, edges, adj)
  {
    FilterPrefix(f.nodes.vec, i, pred);
    RemovedIdsPrefix(f.nodes.vec, i, pred);
  }

  /** remove_nodes_if as the source runs it: std::remove_if over the nodes,
      calling DropNode for each selected node; afterwards the node map is
      rebuilt. */
  method RemoveNodesLoop<L>(f: Frame<L>, pred: Node<L> -> bool) returns (r: Frame<L>)
    requires f.edges.index == Reindex(f.edges.vec, EdgeIdOf)
    requires forall a :: a in f.adj ==> f.adj[a] == AdjacencyOf(f.edges.vec, a)
    ensures r == RemoveNodesIf(f, pred)
  {
    FilterNothing(f.edges.vec, Touching({}));
    var edges := f.edges;
    var adj := f.adj;
    var kept: seq<Node<L>> := [];
    ghost var R: set<NodeId> := {};
    var i := 0;
    assert f.nodes.vec[..0] == [];
    while i < |f.nodes.vec|
      invariant NodeLoopState(f, pred, i, kept, R, edges, adj)
    {
      var n := f.nodes.vec[i];
      if pred(n) {
        var edges', adj' := DropNode(edges, adj, n.id);
        NodeLoopDrop(f, pred, i, kept, R, edges, adj, edges', adj');
        edges, adj := edges', adj';
        R := R + {n.id};
      } else {
        NodeLoopKeep(f, pred, i, kept, R, edges, adj);
        kept := kept + [n];
      }
      i := i + 1;
    }
    assert f.nodes.vec[..|f.nodes.vec|] == f.nodes.vec;
    var m := ReindexLoop(kept, NodeIdOf);
    RemoveNodesLoopDone(f, pred, R, Container(kept, m), edges, adj);
    r := Frame(Container(kept, m), edges, adj);
  }
}
