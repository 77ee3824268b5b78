/** A static graph (dyng/graph.h): a node container, an edge container and the
    adjacency index that maps every node to its neighbours and the connecting
    edge. `Frame` is the value of a graph (graph_state when L is unit,
    graph_partitioning when L is a live set); the class `Graph` is the object
    whose methods change it in place, each proved against the function on
    frames of the same name. */
module Graphs {
  import opened Wrappers
  import opened Identifiers
  import opened Container
  import opened Nodes
  import opened Edges

  type Adjacency = map<NodeId, map<NodeId, EdgeId>>

  function NodeIdOf<L>(n: Node<L>): NodeId { n.id }
  function EdgeIdOf<L>(e: Edge<L>): EdgeId { e.id }

  /** unordered_map::emplace: inserts only when the key is absent. */
  function Emplace<K, V>(m: map<K, V>, k: K, v: V): (r: map<K, V>)
    ensures r.Keys == m.Keys + {k}
    ensures r[k] == (if k in m then m[k] else v)
    ensures r - {k} == m - {k}
  {
    if k in m then m else m[k := v]
  }

  /** std::remove_if followed by erase: the elements for which `drop` is false,
      in their original order. */
  function Filter<T>(s: seq<T>, drop: T -> bool): (r: seq<T>)
    ensures |r| <= |s|
    ensures forall i :: 0 <= i < |r| ==> r[i] in s && !drop(r[i])
    ensures forall i :: 0 <= i < |s| && !drop(s[i]) ==> s[i] in r
  {
    if s == [] then []
    else
      var init := Filter(s[..|s| - 1], drop);
      var x := s[|s| - 1];
      assert forall i :: 0 <= i < |s| - 1 ==> s[..|s| - 1][i] == s[i];
      if drop(x) then init else init + [x]
  }

  /** The endpoint of `e` that is not `a` (for a loop, `a` itself). */
  function Other<L>(e: Edge<L>, a: NodeId): NodeId
  {
    if e.one == a then e.two else e.one
  }

  /** The entry a graph built by push_edge keeps for node `a`: every neighbour
      joined to `a` by some edge of `es`, mapped to the first such edge, since
      push_edge inserts with emplace and never overwrites (AdjacencyFirst). */
  function AdjacencyOf<L>(es: seq<Edge<L>>, a: NodeId): (m: map<NodeId, EdgeId>)
  {
    if es == [] then map[]
    else
      var init := es[..|es| - 1];
      var e := es[|es| - 1];
      var m := AdjacencyOf(init, a);
      if e.one == a || e.two == a then Emplace(m, Other(e, a), e.id) else m
  }

  /** The neighbours listed are exactly the nodes some edge of `es` joins to `a`. */
  lemma {:induction false} AdjacencyKeys<L>(es: seq<Edge<L>>, a: NodeId, b: NodeId)
    ensures b in AdjacencyOf(es, a) <==> exists i :: 0 <= i < |es| && Connects(es[i], a, b)
  {
    if es != [] {
      var init := es[..|es| - 1];
      var e := es[|es| - 1];
      AdjacencyKeys(init, a, b);
      assert forall i :: 0 <= i < |init| ==> init[i] == es[i];
      if b in AdjacencyOf(init, a) {
        var i :| 0 <= i < |init| && Connects(init[i], a, b);
        assert Connects(es[i], a, b);
      } else if Connects(e, a, b) {
        assert Connects(es[|es| - 1], a, b);
      } else {
        assert b !in AdjacencyOf(es, a);
      }
    }
  }

  /** Each neighbour is mapped to the id of the first edge joining it to `a`. */
  lemma {:induction false} AdjacencyFirst<L>(es: seq<Edge<L>>, a: NodeId, b: NodeId)
    requires b in AdjacencyOf(es, a)
    ensures exists i :: 0 <= i < |es| && Connects(es[i], a, b) && es[i].id == AdjacencyOf(es, a)[b]
                        && forall j :: 0 <= j < i ==> !Connects(es[j], a, b)
  {
    var init := es[..|es| - 1];
    var e := es[|es| - 1];
    assert forall i :: 0 <= i < |init| ==> init[i] == es[i];
    if b in AdjacencyOf(init, a) {
      AdjacencyFirst(init, a, b);
      var i :| 0 <= i < |init| && Connects(init[i], a, b) && init[i].id == AdjacencyOf(init, a)[b]
               && forall j :: 0 <= j < i ==> !Connects(init[j], a, b);
      assert Connects(es[i], a, b);
    } else {
      AdjacencyKeys(init, a, b);
      assert Connects(e, a, b);
      assert forall j :: 0 <= j < |init| ==> !Connects(es[j], a, b);
      assert Connects(es[|es| - 1], a, b);
    }
  }

  datatype Frame<L> = Frame(nodes: Container<NodeId, Node<L>>, edges: Container<EdgeId, Edge<L>>, adj: Adjacency) {

    /** The invariant every operation of the graph keeps: both containers are
        indexed by id, every edge joins two stored nodes, the index has one
        entry per node, and each entry is what the stored edges induce. */
    ghost predicate Valid()
    {
      && nodes.IndexedBy(NodeIdOf)
      && edges.IndexedBy(EdgeIdOf)
      && (forall i :: 0 <= i < |edges.vec| ==> edges.vec[i].one in nodes.index && edges.vec[i].two in nodes.index)
      && adj.Keys == nodes.index.Keys
      && (forall a :: a in adj ==> adj[a] == AdjacencyOf(edges.vec, a))
    }
  }

  /** graph(): no nodes, no edges. */
  function EmptyFrame<L>(): (f: Frame<L>)
    ensures f.Valid() && f.nodes.vec == [] && f.edges.vec == []
  {
    Frame(Container([], map[]), Container([], map[]), map[])
  }

  /** graph_state: a graph of plain nodes and edges. */
  type GraphState = Frame<()>

  // ---------------------------------------------------------------- queries

  /** node_at: out_of_range for an unknown id. */
  function NodeAt<L>(f: Frame<L>, id: NodeId): (r: Result<Node<L>>)
    requires f.nodes.IndexedBy(NodeIdOf)
    ensures r.Ok? <==> id in f.nodes.index
    ensures r.Ok? ==> r.value.id == id && r.value in f.nodes.vec
    ensures r.Err? ==> r.error == OutOfRange
  {
    f.nodes.At(id)
  }

  /** edge_at: out_of_range for an unknown id. */
  function EdgeAt<L>(f: Frame<L>, id: EdgeId): (r: Result<Edge<L>>)
    requires f.edges.IndexedBy(EdgeIdOf)
    ensures r.Ok? <==> id in f.edges.index
    ensures r.Ok? ==> r.value.id == id && r.value in f.edges.vec
    ensures r.Err? ==> r.error == OutOfRange
  {
    f.edges.At(id)
  }

  /** node_index: the position of the node in nodes(). */
  function NodeIndex<L>(f: Frame<L>, id: NodeId): (r: Result<nat>)
    requires f.nodes.IndexedBy(NodeIdOf)
    ensures r.Ok? <==> id in f.nodes.index
    ensures r.Ok? ==> r.value < |f.nodes.vec| && f.nodes.vec[r.value].id == id
    ensures r.Err? ==> r.error == OutOfRange
  {
    if id in f.nodes.index then Ok(f.nodes.index[id]) else Err(OutOfRange)
  }

  /** edge_index: the position of the edge in edges(). */
  function EdgeIndex<L>(f: Frame<L>, id: EdgeId): (r: Result<nat>)
    requires f.edges.IndexedBy(EdgeIdOf)
    ensures r.Ok? <==> id in f.edges.index
    ensures r.Ok? ==> r.value < |f.edges.vec| && f.edges.vec[r.value].id == id
    ensures r.Err? ==> r.error == OutOfRange
  {
    if id in f.edges.index then Ok(f.edges.index[id]) else Err(OutOfRange)
  }

  /** node_exists. */
  function NodeExists<L>(f: Frame<L>, id: NodeId): (r: bool)
    requires f.nodes.IndexedBy(NodeIdOf)
    ensures r <==> exists i :: 0 <= i < |f.nodes.vec| && f.nodes.vec[i].id == id
  {
    assert id in f.nodes.index ==> f.nodes.vec[f.nodes.index[id]].id == id;
    id in f.nodes.index
  }

  /** edge_exists(edge_id). */
  function EdgeExists<L>(f: Frame<L>, id: EdgeId): (r: bool)
    requires f.edges.IndexedBy(EdgeIdOf)
    ensures r <==> exists i :: 0 <= i < |f.edges.vec| && f.edges.vec[i].id == id
  {
    assert id in f.edges.index ==> f.edges.vec[f.edges.index[id]].id == id;
    id in f.edges.index
  }

  /** edges_at_node: the index entry of a stored node; out_of_range otherwise. */
  function EdgesAtNode<L>(f: Frame<L>, id: NodeId): (r: Result<map<NodeId, EdgeId>>)
    requires f.nodes.IndexInBounds()
    ensures r.Ok? <==> id in f.nodes.index && f.nodes.vec[f.nodes.index[id]].id in f.adj
    ensures r.Err? ==> r.error == OutOfRange
  {
    var n :- f.nodes.At(id);
    if n.id in f.adj then Ok(f.adj[n.id]) else Err(OutOfRange)
  }

  /** edge_exists(node_id, node_id): whether the entry of `one` lists `two`;
      out_of_range when either node is missing. */
  function EdgeBetween<L>(f: Frame<L>, one: NodeId, two: NodeId): (r: Result<bool>)
    requires f.nodes.IndexInBounds()
  {
    var entry :- EdgesAtNode(f, one);
    var n :- f.nodes.At(two);
    Ok(n.id in entry)
  }

  /** On a valid graph edge_exists(a, b) fails exactly when a node is missing,
      and otherwise says whether some stored edge joins a and b. */
  lemma EdgeBetweenMeansConnected<L>(f: Frame<L>, a: NodeId, b: NodeId)
    requires f.Valid()
    ensures EdgeBetween(f, a, b).Err? <==> a !in f.nodes.index || b !in f.nodes.index
    ensures EdgeBetween(f, a, b) == Ok(true) <==>
      a in f.nodes.index && b in f.nodes.index &&
      exists i :: 0 <= i < |f.edges.vec| && Connects(f.edges.vec[i], a, b)
  {
    if a in f.nodes.index {
      assert f.nodes.vec[f.nodes.index[a]].id == a;
    }
    if b in f.nodes.index {
      assert f.nodes.vec[f.nodes.index[b]].id == b;
    }
    AdjacencyKeys(f.edges.vec, a, b);
  }

  /** The documented equivalence of edge_exists(a, b) and edge_exists(b, a)
      holds on every valid graph, and both entries name the same edge. */
  lemma EdgeBetweenSymmetric<L>(f: Frame<L>, a: NodeId, b: NodeId)
    requires f.Valid()
    ensures EdgeBetween(f, a, b) == EdgeBetween(f, b, a)
    ensures a in f.adj && b in f.adj && b in f.adj[a] ==> a in f.adj[b] && f.adj[a][b] == f.adj[b][a]
  {
    EdgeBetweenMeansConnected(f, a, b);
    EdgeBetweenMeansConnected(f, b, a);
    if a in f.adj && b in f.adj && b in f.adj[a] {
      AdjacencySymmetric(f.edges.vec, a, b);
    }
  }

  /** Connecting is symmetric, so the first edge joining a to b is the first
      edge joining b to a. */
  lemma {:induction false} AdjacencySymmetric<L>(es: seq<Edge<L>>, a: NodeId, b: NodeId)
    requires b in AdjacencyOf(es, a)
    ensures a in AdjacencyOf(es, b) && AdjacencyOf(es, a)[b] == AdjacencyOf(es, b)[a]
  {
    var init := es[..|es| - 1];
    var e := es[|es| - 1];
    assert forall i :: 0 <= i < |init| ==> init[i] == es[i];
    if b in AdjacencyOf(init, a) {
      AdjacencySymmetric(init, a, b);
    } else if a in AdjacencyOf(init, b) {
      AdjacencySymmetric(init, b, a);
    } else {
      assert Connects(e, a, b) && Connects(e, b, a);
    }
  }

  // ------------------------------------------------------------- operations

  /** push_node: appends the node and gives it an empty index entry; a node
      whose id is already stored is left as it is. */
  function PushNode<L>(f: Frame<L>, n: Node<L>): Frame<L>
  {
    if n.id in f.nodes.index then f
    else Frame(Container(f.nodes.vec + [n], f.nodes.index[n.id := |f.nodes.vec|]), f.edges, Emplace(f.adj, n.id, map[]))
  }

  /** push_edge with the failure leaving the graph untouched: an edge whose id
      is stored is ignored, one with a missing endpoint fails with
      invalid_graph, otherwise the edge is appended and both endpoints' index
      entries gain the other endpoint unless they already list it. */
  function PushEdge<L>(f: Frame<L>, e: Edge<L>): Result<Frame<L>>
  {
    if e.id in f.edges.index then Ok(f)
    else if e.one !in f.adj || e.two !in f.adj then Err(InvalidGraph)
    else
      var adj1 := f.adj[e.one := Emplace(f.adj[e.one], e.two, e.id)];
      var adj2 := adj1[e.two := Emplace(adj1[e.two], e.one, e.id)];
      Ok(Frame(f.nodes, Container(f.edges.vec + [e], f.edges.index[e.id := |f.edges.vec|]), adj2))
  }

  /** push_edge as written: when `one` is stored but `two` is not, the entry of
      `one` has already gained `two` by the time invalid_graph is thrown, and
      that change is not undone. */
  function PushEdgeAsWritten<L>(f: Frame<L>, e: Edge<L>): (r: (Frame<L>, Result<()>))
    ensures r.1.Ok? <==> PushEdge(f, e).Ok?
    ensures r.1.Ok? ==> r.0 == PushEdge(f, e).value
  {
    if e.id in f.edges.index then (f, Ok(()))
    else if e.one !in f.adj then (f, Err(InvalidGraph))
    else
      var adj1 := f.adj[e.one := Emplace(f.adj[e.one], e.two, e.id)];
      if e.two !in adj1 then (f.(adj := adj1), Err(InvalidGraph))
      else
        var adj2 := adj1[e.two := Emplace(adj1[e.two], e.one, e.id)];
        (Frame(f.nodes, Container(f.edges.vec + [e], f.edges.index[e.id := |f.edges.vec|]), adj2), Ok(()))
  }

  /** The graph with its edges replaced by `es` (kept in order), the edge map
      rebuilt and every index entry recomputed from `es`. */
  function WithEdges<L>(f: Frame<L>, es: seq<Edge<L>>): Frame<L>
  {
    Frame(f.nodes, Container(es, Reindex(es, EdgeIdOf)), map a | a in f.adj :: AdjacencyOf(es, a))
  }

  /** remove_edges_if with the index repaired: the edges for which `pred`
      holds are erased (std::remove_if keeps the others in order), the edge
      map is rebuilt, and each node's entry lists exactly the neighbours some
      remaining edge joins it to. */
  function RemoveEdgesIf<L>(f: Frame<L>, pred: Edge<L> -> bool): Frame<L>
  {
    WithEdges(f, Filter(f.edges.vec, pred))
  }

  /** The endpoints of the edges `pred` selects. */
  function EndpointsOf<L>(es: seq<Edge<L>>, pred: Edge<L> -> bool): (R: set<NodeId>)
    ensures forall x :: x in R <==> exists i :: 0 <= i < |es| && pred(es[i]) && (es[i].one == x || es[i].two == x)
  {
    if es == [] then {}
    else
      var init := es[..|es| - 1];
      assert forall i :: 0 <= i < |init| ==> init[i] == es[i];
      var e := es[|es| - 1];
      EndpointsOf(init, pred) + (if pred(e) then {e.one, e.two} else {})
  }

  /** remove_edges_if as written: every edge `pred` selects is erased, and
      both of its endpoints are erased as neighbours from EVERY index entry,
      whichever edge those entries recorded. */
  function RemoveEdgesIfAsWritten<L>(f: Frame<L>, pred: Edge<L> -> bool): Frame<L>
  {
    var es := Filter(f.edges.vec, pred);
    var gone := EndpointsOf(f.edges.vec, pred);
    Frame(f.nodes, Container(es, Reindex(es, EdgeIdOf)), map a | a in f.adj :: f.adj[a] - gone)
  }

  /** The ids of the nodes `pred` selects. */
  function RemovedIds<L>(ns: seq<Node<L>>, pred: Node<L> -> bool): (R: set<NodeId>)
    ensures forall x :: x in R <==> exists i :: 0 <= i < |ns| && pred(ns[i]) && ns[i].id == x
  {
    if ns == [] then {}
    else
      var init := ns[..|ns| - 1];
      assert forall i :: 0 <= i < |init| ==> init[i] == ns[i];
      var n := ns[|ns| - 1];
      RemovedIds(init, pred) + (if pred(n) then {n.id} else {})
  }

  /** Selects the edges with an endpoint in R. */
  function Touching<L>(R: set<NodeId>): Edge<L> -> bool
  {
    (e: Edge<L>) => e.one in R || e.two in R
  }

  /** remove_nodes_if: the nodes `pred` selects are erased with every edge
      attached to them and their index entries; the node map is rebuilt. */
  function RemoveNodesIf<L>(f: Frame<L>, pred: Node<L> -> bool): Frame<L>
  {
    var R := RemovedIds(f.nodes.vec, pred);
    var g := RemoveEdgesIf(f, Touching(R));
    var ns := Filter(f.nodes.vec, pred);
    Frame(Container(ns, Reindex(ns, NodeIdOf)), g.edges, map a | a in g.adj && a !in R :: g.adj[a])
  }

  /** Selects the edge with the given id. */
  function EdgeWithId<L>(id: EdgeId): Edge<L> -> bool
  {
    (e: Edge<L>) => e.id == id
  }

  /** Selects the node with the given id. */
  function NodeWithId<L>(id: NodeId): Node<L> -> bool
  {
    (n: Node<L>) => n.id == id
  }

  /** remove_edge: invalid_graph for an unknown id. */
  function RemoveEdge<L>(f: Frame<L>, id: EdgeId): Result<Frame<L>>
  {
    if id !in f.edges.index then Err(InvalidGraph)
    else Ok(RemoveEdgesIf(f, EdgeWithId(id)))
  }

  /** remove_node: invalid_graph for an unknown id. */
  function RemoveNode<L>(f: Frame<L>, id: NodeId): Result<Frame<L>>
  {
    if id !in f.nodes.index then Err(InvalidGraph)
    else Ok(RemoveNodesIf(f, NodeWithId(id)))
  }

  /** clear_edges: no edges; every node keeps an empty entry. */
  function ClearEdges<L>(f: Frame<L>): Frame<L>
  {
    Frame(f.nodes, Container([], map[]), map a | a in f.adj :: map[])
  }

  /** clear_nodes: no nodes and no index entries (edges are left to the caller). */
  function ClearNodes<L>(f: Frame<L>): Frame<L>
  {
    Frame(Container([], map[]), f.edges, map[])
  }

  /** Writing a node through the mutable nodes() vector: its id has no
      setter, so only the rest of the node can change. */
  function SetNode<L>(f: Frame<L>, i: nat, n: Node<L>): Frame<L>
    requires i < |f.nodes.vec| && n.id == f.nodes.vec[i].id
  {
    f.(nodes := Container(f.nodes.vec[i := n], f.nodes.index))
  }

  /** Writing an edge through the mutable edges() vector: id and endpoints
      have no setters, so only the rest of the edge can change. */
  function SetEdge<L>(f: Frame<L>, i: nat, e: Edge<L>): Frame<L>
    requires i < |f.edges.vec|
    requires e.id == f.edges.vec[i].id && e.one == f.edges.vec[i].one && e.two == f.edges.vec[i].two
  {
    f.(edges := Container(f.edges.vec[i := e], f.edges.index))
  }

  // ------------------------------------------------ what the operations keep

  lemma IndexedUnique<K, T>(c: Container<K, T>, idOf: T -> K)
    requires c.IndexedBy(idOf)
    ensures UniqueIds(c.vec, idOf)
  {
    forall i, j | 0 <= i < j < |c.vec| ensures idOf(c.vec[i]) != idOf(c.vec[j]) {
      AtFindsStored(c, idOf, i);
    }
  }

  /** Erasing elements cannot make two ids collide. */
  lemma {:induction false} FilterUnique<K, T>(s: seq<T>, drop: T -> bool, idOf: T -> K)
    requires UniqueIds(s, idOf)
    ensures UniqueIds(Filter(s, drop), idOf)
  {
    if s != [] {
      var init := s[..|s| - 1];
      assert forall i :: 0 <= i < |init| ==> init[i] == s[i];
      assert UniqueIds(init, idOf);
      FilterUnique(init, drop, idOf);
      var r := Filter(init, drop);
      var x := s[|s| - 1];
      forall i | 0 <= i < |r| ensures idOf(r[i]) != idOf(x) {
        var j :| 0 <= j < |init| && init[j] == r[i];
      }
    }
  }

  /** Recomputing the index from a set of edges between stored nodes with
      distinct ids gives a valid graph. */
  lemma WithEdgesValid<L>(f: Frame<L>, es: seq<Edge<L>>)
    requires f.Valid() && UniqueIds(es, EdgeIdOf)
    requires forall i :: 0 <= i < |es| ==> es[i].one in f.nodes.index && es[i].two in f.nodes.index
    ensures WithEdges(f, es).Valid()
  {
    ReindexIndexes(es, EdgeIdOf);
  }

  /** push_node keeps the graph valid; a new id appends the node with no
      neighbours, a stored id changes nothing. */
  lemma NoEdgeAtMissingNode<L>(f: Frame<L>, id: NodeId)
    requires f.Valid() && id !in f.nodes.index
    ensures AdjacencyOf(f.edges.vec, id) == map[]
  {
    forall b ensures b !in AdjacencyOf(f.edges.vec, id) {
      AdjacencyKeys(f.edges.vec, id, b);
      assert forall i :: 0 <= i < |f.edges.vec| ==> !Connects(f.edges.vec[i], id, b);
    }
  }

  lemma PushNewNodeValid<L>(f: Frame<L>, n: Node<L>)
    requires f.Valid() && n.id !in f.nodes.index
    ensures PushNode(f, n).Valid()
  {
    var r := PushNode(f, n);
    AppendIndexed(f.nodes, NodeIdOf, n);
    assert r.nodes == Container(f.nodes.vec + [n], f.nodes.index[n.id := |f.nodes.vec|]);
    assert r.adj == f.adj[n.id := map[]];
    NoEdgeAtMissingNode(f, n.id);
  }

  lemma PushNodeSpec<L>(f: Frame<L>, n: Node<L>)
    requires f.Valid()
    ensures PushNode(f, n).Valid()
    ensures NodeExists(PushNode(f, n), n.id)
    ensures n.id in f.nodes.index ==> PushNode(f, n) == f
    ensures n.id !in f.nodes.index ==>
      && PushNode(f, n).nodes.vec == f.nodes.vec + [n]
      && PushNode(f, n).edges == f.edges
      && EdgesAtNode(PushNode(f, n), n.id) == Ok(map[])
  {
    if n.id !in f.nodes.index {
      var r := PushNode(f, n);
      PushNewNodeValid(f, n);
      assert r.nodes.vec[r.nodes.index[n.id]] == n;
    }
  }

  lemma AdjacencyOfAppend<L>(es: seq<Edge<L>>, e: Edge<L>, a: NodeId)
    ensures AdjacencyOf(es + [e], a) ==
      if e.one == a || e.two == a then Emplace(AdjacencyOf(es, a), Other(e, a), e.id) else AdjacencyOf(es, a)
  {
    assert (es + [e])[..|es|] == es;
  }

  /** push_edge succeeds exactly when the id is already stored or both
      endpoints are; a new edge is appended, the graph stays valid and the two
      endpoints are then adjacent. */
  lemma PushEdgeSpec<L>(f: Frame<L>, e: Edge<L>)
    requires f.Valid()
    ensures PushEdge(f, e).Ok? <==> e.id in f.edges.index || (e.one in f.nodes.index && e.two in f.nodes.index)
    ensures PushEdge(f, e).Err? ==> PushEdge(f, e).error == InvalidGraph
    ensures e.id in f.edges.index ==> PushEdge(f, e) == Ok(f)
    ensures PushEdge(f, e).Ok? ==> PushEdge(f, e).value.Valid()
    ensures PushEdge(f, e).Ok? && e.id !in f.edges.index ==>
      && PushEdge(f, e).value.edges.vec == f.edges.vec + [e]
      && PushEdge(f, e).value.nodes == f.nodes
      && EdgeBetween(PushEdge(f, e).value, e.one, e.two) == Ok(true)
  {
    if PushEdge(f, e).Ok? && e.id !in f.edges.index {
      var r := PushEdge(f, e).value;
      PushedEdgeValid(f, e, r);
      assert r.edges.vec[|f.edges.vec|] == e;
      EdgeBetweenMeansConnected(r, e.one, e.two);
    }
  }

  /** The graph a new edge is pushed onto is valid. */
  lemma PushedEdgeValid<L>(f: Frame<L>, e: Edge<L>, r: Frame<L>)
    requires f.Valid() && e.id !in f.edges.index && e.one in f.adj && e.two in f.adj
    requires r.nodes == f.nodes && r.edges == Container(f.edges.vec + [e], f.edges.index[e.id := |f.edges.vec|])
    requires r.adj == (var adj1 := f.adj[e.one := Emplace(f.adj[e.one], e.two, e.id)];
      adj1[e.two := Emplace(adj1[e.two], e.one, e.id)])
    ensures r.Valid()
  {
    AppendIndexed(f.edges, EdgeIdOf, e);
    EndpointsAppended(f.edges.vec, e, f.nodes.index);
    PushedAdjacency(f.adj, f.edges.vec, e, r.adj);
  }

  /** Appending an edge between stored nodes keeps every edge between
      stored nodes. */
  lemma EndpointsAppended<L>(es: seq<Edge<L>>, e: Edge<L>, index: map<NodeId, nat>)
    requires forall i :: 0 <= i < |es| ==> es[i].one in index && es[i].two in index
    requires e.one in index && e.two in index
    ensures forall i :: 0 <= i < |es + [e]| ==> (es + [e])[i].one in index && (es + [e])[i].two in index
  {
    forall i | 0 <= i < |es + [e]| ensures (es + [e])[i].one in index && (es + [e])[i].two in index {
      if i < |es| {
        assert (es + [e])[i] == es[i];
      }
    }
  }

  /** The index entries push_edge updates are those of the edges with the
      new one appended. */
  lemma PushedAdjacency<L>(before: Adjacency, es: seq<Edge<L>>, e: Edge<L>, after: Adjacency)
    requires forall a :: a in before ==> before[a] == AdjacencyOf(es, a)
    requires e.one in before && e.two in before
    requires after == (var adj1 := before[e.one := Emplace(before[e.one], e.two, e.id)];
      adj1[e.two := Emplace(adj1[e.two], e.one, e.id)])
    ensures after.Keys == before.Keys
    ensures forall a :: a in after ==> after[a] == AdjacencyOf(es + [e], a)
  {
    forall a | a in after ensures after[a] == AdjacencyOf(es + [e], a) {
      AdjacencyOfAppend(es, e, a);
      if a == e.two && a == e.one {
        var m := Emplace(before[a], a, e.id);
        assert a in m;
        assert Emplace(m, a, e.id) == m;
      }
    }
  }

  /** remove_edges_if (with the index repaired) keeps the graph valid, keeps
      the nodes, and keeps exactly the edges `pred` rejects. */
  lemma RemoveEdgesIfSpec<L>(f: Frame<L>, pred: Edge<L> -> bool)
    requires f.Valid()
    ensures RemoveEdgesIf(f, pred).Valid()
    ensures RemoveEdgesIf(f, pred).nodes == f.nodes
    ensures forall i :: 0 <= i < |RemoveEdgesIf(f, pred).edges.vec| ==>
      !pred(RemoveEdgesIf(f, pred).edges.vec[i]) && RemoveEdgesIf(f, pred).edges.vec[i] in f.edges.vec
    ensures forall i :: 0 <= i < |f.edges.vec| && !pred(f.edges.vec[i]) ==> f.edges.vec[i] in RemoveEdgesIf(f, pred).edges.vec
  {
    var es := Filter(f.edges.vec, pred);
    IndexedUnique(f.edges, EdgeIdOf);
    FilterUnique(f.edges.vec, pred, EdgeIdOf);
    WithEdgesValid(f, es);
  }

  /** An edge `pred` rejects is still found by its id. */
  lemma RemoveEdgesIfKeeps<L>(f: Frame<L>, pred: Edge<L> -> bool, x: Edge<L>)
    requires f.Valid() && x in f.edges.vec && !pred(x)
    ensures RemoveEdgesIf(f, pred).Valid()
    ensures EdgeAt(RemoveEdgesIf(f, pred), x.id) == Ok(x)
  {
    RemoveEdgesIfSpec(f, pred);
    StoredIsFound(RemoveEdgesIf(f, pred).edges, EdgeIdOf, x);
  }

  /** remove_edge fails with invalid_graph exactly for an unknown id;
      otherwise that edge is gone and the graph is valid. */
  lemma RemoveEdgeSpec<L>(f: Frame<L>, id: EdgeId)
    requires f.Valid()
    ensures RemoveEdge(f, id).Err? <==> !EdgeExists(f, id)
    ensures RemoveEdge(f, id).Err? ==> RemoveEdge(f, id).error == InvalidGraph
    ensures RemoveEdge(f, id).Ok? ==>
      && RemoveEdge(f, id).value.Valid()
      && RemoveEdge(f, id).value.nodes == f.nodes
      && !EdgeExists(RemoveEdge(f, id).value, id)
  {
    if id in f.edges.index {
      RemoveEdgesIfSpec(f, EdgeWithId(id));
    }
  }

  /** remove_edge leaves every other edge in place. */
  lemma RemoveEdgeKeepsOthers<L>(f: Frame<L>, id: EdgeId, x: Edge<L>)
    requires f.Valid() && id in f.edges.index && x in f.edges.vec && x.id != id
    ensures RemoveEdge(f, id).Ok? && RemoveEdge(f, id).value.Valid()
    ensures EdgeAt(RemoveEdge(f, id).value, x.id) == Ok(x)
  {
    RemoveEdgesIfKeeps(f, EdgeWithId(id), x);
  }

  /** The ids left after erasing the nodes `pred` selects are the stored ids
      outside the removed set (ids are unique, so no removed id survives on
      another node). */
  lemma KeptNodeIds<L>(nodes: Container<NodeId, Node<L>>, pred: Node<L> -> bool, a: NodeId)
    requires nodes.IndexedBy(NodeIdOf)
    ensures a in Reindex(Filter(nodes.vec, pred), NodeIdOf) <==> a in nodes.index && a !in RemovedIds(nodes.vec, pred)
  {
    var ns := Filter(nodes.vec, pred);
    if a in Reindex(ns, NodeIdOf) {
      var i := Reindex(ns, NodeIdOf)[a];
      KeptNodeWasStored(nodes, pred, ns[i]);
    }
    if a in nodes.index && a !in RemovedIds(nodes.vec, pred) {
      var k := nodes.index[a];
      assert nodes.vec[k].id == a;
      assert nodes.vec[k] in ns;
    }
  }

  /** A stored node that was not selected is the only node with its id, so
      its id is stored and selected on no node. */
  lemma KeptNodeWasStored<L>(nodes: Container<NodeId, Node<L>>, pred: Node<L> -> bool, x: Node<L>)
    requires nodes.IndexedBy(NodeIdOf)
    requires x in nodes.vec && !pred(x)
    ensures x.id in nodes.index
    ensures forall j :: 0 <= j < |nodes.vec| && nodes.vec[j].id == x.id ==> !pred(nodes.vec[j])
  {
    var vs := nodes.vec;
    var k :| 0 <= k < |vs| && vs[k] == x;
    assert NodeIdOf(vs[k]) == x.id;
    IndexedUnique(nodes, NodeIdOf);
    forall j | 0 <= j < |vs| && vs[j].id == x.id ensures j == k {
      assert NodeIdOf(vs[j]) == NodeIdOf(vs[k]);
    }
  }

  /** Dropping the nodes with ids in R, when no edge touches them, keeps a
      graph valid. */
  lemma DropNodesValid<L>(g: Frame<L>, nodes: Container<NodeId, Node<L>>, R: set<NodeId>)
    requires g.Valid() && nodes.IndexedBy(NodeIdOf)
    requires forall a :: a in nodes.index <==> a in g.nodes.index && a !in R
    requires forall i :: 0 <= i < |g.edges.vec| ==> g.edges.vec[i].one !in R && g.edges.vec[i].two !in R
    ensures Frame(nodes, g.edges, map a | a in g.adj && a !in R :: g.adj[a]).Valid()
  {
  }

  lemma RemoveNodesIfValid<L>(f: Frame<L>, pred: Node<L> -> bool)
    requires f.Valid()
    ensures RemoveNodesIf(f, pred).Valid()
    ensures forall a :: a in RemoveNodesIf(f, pred).nodes.index <==> a in f.nodes.index && a !in RemovedIds(f.nodes.vec, pred)
    ensures RemoveNodesIf(f, pred).edges == RemoveEdgesIf(f, Touching(RemovedIds(f.nodes.vec, pred))).edges
  {
    var R := RemovedIds(f.nodes.vec, pred);
    var g := RemoveEdgesIf(f, Touching(R));
    RemoveEdgesIfSpec(f, Touching(R));
    var ns := Filter(f.nodes.vec, pred);
    IndexedUnique(f.nodes, NodeIdOf);
    FilterUnique(f.nodes.vec, pred, NodeIdOf);
    ReindexIndexes(ns, NodeIdOf);
    var c := Container(ns, Reindex(ns, NodeIdOf));
    forall a ensures a in c.index <==> a in g.nodes.index && a !in R {
      KeptNodeIds(f.nodes, pred, a);
    }
    forall i | 0 <= i < |g.edges.vec| ensures g.edges.vec[i].one !in R && g.edges.vec[i].two !in R {
      assert !Touching(R)(g.edges.vec[i]);
    }
    DropNodesValid(g, c, R);
  }

  /** remove_nodes_if keeps the graph valid, keeps exactly the nodes `pred`
      rejects, and keeps exactly the edges whose both endpoints remain. */
  lemma RemoveNodesIfSpec<L>(f: Frame<L>, pred: Node<L> -> bool)
    requires f.Valid()
    ensures RemoveNodesIf(f, pred).Valid()
    ensures forall i :: 0 <= i < |RemoveNodesIf(f, pred).nodes.vec| ==>
      !pred(RemoveNodesIf(f, pred).nodes.vec[i]) && RemoveNodesIf(f, pred).nodes.vec[i] in f.nodes.vec
    ensures forall i :: 0 <= i < |f.nodes.vec| && !pred(f.nodes.vec[i]) ==> f.nodes.vec[i] in RemoveNodesIf(f, pred).nodes.vec
    ensures forall x :: x in RemoveNodesIf(f, pred).edges.vec ==> x in f.edges.vec
    ensures forall x :: x in f.edges.vec ==>
      (x in RemoveNodesIf(f, pred).edges.vec <==> x.one in RemoveNodesIf(f, pred).nodes.index && x.two in RemoveNodesIf(f, pred).nodes.index)
  {
    var R := RemovedIds(f.nodes.vec, pred);
    RemoveNodesIfValid(f, pred);
    RemoveEdgesIfSpec(f, Touching(R));
    var r := RemoveNodesIf(f, pred);
    EdgesAmongKept(f.edges.vec, r.edges.vec, f.nodes.index, r.nodes.index, R);
  }

  /** Of the edges es, whose endpoints are all stored, ks keeps those
      touching no node of R; the nodes left are the stored ones outside R.
      So ks keeps exactly the edges of es between two nodes left. */
  lemma EdgesAmongKept<L>(es: seq<Edge<L>>, ks: seq<Edge<L>>, before: map<NodeId, nat>, after: map<NodeId, nat>, R: set<NodeId>)
    requires forall i :: 0 <= i < |es| ==> es[i].one in before && es[i].two in before
    requires forall a :: a in after <==> a in before && a !in R
    requires forall i :: 0 <= i < |ks| ==> !(ks[i].one in R || ks[i].two in R)
    requires forall i :: 0 <= i < |es| && !(es[i].one in R || es[i].two in R) ==> es[i] in ks
    ensures forall x :: x in es ==> (x in ks <==> x.one in after && x.two in after)
  {
    forall x | x in es
      ensures x in ks <==> x.one in after && x.two in after
    {
      var k :| 0 <= k < |es| && es[k] == x;
      assert x.one in before && x.two in before;
      if x in ks {
        var j :| 0 <= j < |ks| && ks[j] == x;
      }
    }
  }

  /** remove_node fails with invalid_graph exactly for an unknown id;
      otherwise that node is gone and every other node stays. */
  lemma RemoveNodeSpec<L>(f: Frame<L>, id: NodeId)
    requires f.Valid()
    ensures RemoveNode(f, id).Err? <==> !NodeExists(f, id)
    ensures RemoveNode(f, id).Err? ==> RemoveNode(f, id).error == InvalidGraph
    ensures RemoveNode(f, id).Ok? ==>
      && RemoveNode(f, id).value.Valid()
      && forall a :: a in RemoveNode(f, id).value.nodes.index <==> a in f.nodes.index && a != id
  {
    if id in f.nodes.index {
      var pred := NodeWithId<L>(id);
      RemoveNodesIfValid(f, pred);
      var R := RemovedIds(f.nodes.vec, pred);
      assert f.nodes.vec[f.nodes.index[id]].id == id;
      assert forall a :: a in R <==> a == id;
    }
  }

  /** clear_edges keeps the nodes, drops every edge and empties every entry. */
  lemma ClearEdgesSpec<L>(f: Frame<L>)
    requires f.Valid()
    ensures ClearEdges(f).Valid()
    ensures ClearEdges(f).nodes == f.nodes && ClearEdges(f).edges.vec == []
    ensures forall a :: a in f.nodes.index ==> EdgesAtNode(ClearEdges(f), a) == Ok(map[])
  {
    forall a | a in f.nodes.index ensures EdgesAtNode(ClearEdges(f), a) == Ok(map[]) {
      assert f.nodes.vec[f.nodes.index[a]].id == a;
    }
  }

  /** clear_nodes drops every node and entry but leaves the edges; the result
      is a valid graph when the edges were cleared first. */
  lemma ClearNodesSpec<L>(f: Frame<L>)
    requires f.Valid()
    ensures ClearNodes(f).nodes.vec == [] && ClearNodes(f).adj == map[] && ClearNodes(f).edges == f.edges
    ensures ClearNodes(f).Valid() <==> f.edges.vec == []
  {
    if f.edges.vec != [] {
      assert f.edges.vec[0].one !in ClearNodes(f).nodes.index;
    }
  }

  /** Changing a stored node in place keeps the graph valid; that node is now
      found under its id and every other node is found as before. */
  lemma SetNodeSpec<L>(f: Frame<L>, i: nat, n: Node<L>)
    requires f.Valid() && i < |f.nodes.vec| && n.id == f.nodes.vec[i].id
    ensures SetNode(f, i, n).Valid()
    ensures NodeAt(SetNode(f, i, n), n.id) == Ok(n)
    ensures forall id :: id != n.id ==> NodeAt(SetNode(f, i, n), id) == NodeAt(f, id)
    ensures SetNode(f, i, n).edges == f.edges && SetNode(f, i, n).adj == f.adj
  {
    var r := SetNode(f, i, n);
    ReplaceIndexed(f.nodes, NodeIdOf, i, n);
    assert f.nodes.index[n.id] == i;
    forall id | id != n.id && id in f.nodes.index
      ensures NodeAt(r, id) == NodeAt(f, id)
    {
      assert f.nodes.index[id] != i;
    }
  }

  /** The index entries only depend on the ids and endpoints of the edges. */
  lemma {:induction false} AdjacencyIgnoresPayload<L>(es: seq<Edge<L>>, i: nat, e: Edge<L>, a: NodeId)
    requires i < |es| && e.id == es[i].id && e.one == es[i].one && e.two == es[i].two
    ensures AdjacencyOf(es[i := e], a) == AdjacencyOf(es, a)
  {
    var es' := es[i := e];
    assert es'[..|es'| - 1] == if i < |es| - 1 then es[..|es| - 1][i := e] else es[..|es| - 1];
    if i < |es| - 1 {
      AdjacencyIgnoresPayload(es[..|es| - 1], i, e, a);
    }
  }

  /** Changing a stored edge in place keeps the graph valid and leaves every
      index entry as it was. */
  lemma SetEdgeSpec<L>(f: Frame<L>, i: nat, e: Edge<L>)
    requires f.Valid() && i < |f.edges.vec|
    requires e.id == f.edges.vec[i].id && e.one == f.edges.vec[i].one && e.two == f.edges.vec[i].two
    ensures SetEdge(f, i, e).Valid()
    ensures EdgeAt(SetEdge(f, i, e), e.id) == Ok(e)
    ensures forall id :: id != e.id ==> EdgeAt(SetEdge(f, i, e), id) == EdgeAt(f, id)
    ensures SetEdge(f, i, e).nodes == f.nodes && SetEdge(f, i, e).adj == f.adj
  {
    var r := SetEdge(f, i, e);
    SetEdgeValid(f, i, e);
    assert f.edges.index[e.id] == i;
    forall id | id != e.id && id in f.edges.index
      ensures EdgeAt(r, id) == EdgeAt(f, id)
    {
      assert f.edges.index[id] != i;
    }
  }

  lemma SetEdgeValid<L>(f: Frame<L>, i: nat, e: Edge<L>)
    requires f.Valid() && i < |f.edges.vec|
    requires e.id == f.edges.vec[i].id && e.one == f.edges.vec[i].one && e.two == f.edges.vec[i].two
    ensures SetEdge(f, i, e).Valid()
  {
    var r := SetEdge(f, i, e);
    ReplaceIndexed(f.edges, EdgeIdOf, i, e);
    forall a | a in f.adj ensures r.adj[a] == AdjacencyOf(r.edges.vec, a) {
      AdjacencyIgnoresPayload(f.edges.vec, i, e, a);
    }
    assert forall j :: 0 <= j < |r.edges.vec| ==> r.edges.vec[j].one == f.edges.vec[j].one && r.edges.vec[j].two == f.edges.vec[j].two;
  }

  /** Edges that agree in id and endpoints, position by position, induce
      the same index entries. */
  lemma {:induction false} AdjacencyIgnoresPayloads<L>(es: seq<Edge<L>>, es2: seq<Edge<L>>, a: NodeId)
    requires |es2| == |es|
    requires forall j :: 0 <= j < |es| ==> es2[j].id == es[j].id && es2[j].one == es[j].one && es2[j].two == es[j].two
    ensures AdjacencyOf(es2, a) == AdjacencyOf(es, a)
  {
    if es != [] {
      AdjacencyIgnoresPayloads(es[..|es| - 1], es2[..|es2| - 1], a);
    }
  }

  /** Rewriting every stored node and edge without touching ids or
      endpoints keeps the graph valid. */
  lemma PayloadsValid<L>(f: Frame<L>, ns: seq<Node<L>>, es: seq<Edge<L>>)
    requires f.Valid()
    requires |ns| == |f.nodes.vec| && forall j :: 0 <= j < |ns| ==> ns[j].id == f.nodes.vec[j].id
    requires |es| == |f.edges.vec|
    requires forall j :: 0 <= j < |es| ==>
      es[j].id == f.edges.vec[j].id && es[j].one == f.edges.vec[j].one && es[j].two == f.edges.vec[j].two
    ensures Frame(Container(ns, f.nodes.index), Container(es, f.edges.index), f.adj).Valid()
  {
    RewriteIndexed(f.nodes, NodeIdOf, ns);
    RewriteIndexed(f.edges, EdgeIdOf, es);
    forall a | a in f.adj ensures f.adj[a] == AdjacencyOf(es, a) {
      AdjacencyIgnoresPayloads(f.edges.vec, es, a);
    }
  }

  // ------------------------------------------------------------------ findings

  lemma AsWrittenEntries<L>(f: Frame<L>, pred: Edge<L> -> bool, x: Edge<L>, y: Edge<L>)
    requires f.Valid() && x in f.edges.vec && y in f.edges.vec
    requires pred(x) && !pred(y) && x.one == y.one && y.two !in EndpointsOf(f.edges.vec, pred)
    ensures y.one in f.adj && y.two in f.adj
    ensures y.two in RemoveEdgesIfAsWritten(f, pred).adj[y.one]
    ensures y.one !in RemoveEdgesIfAsWritten(f, pred).adj[y.two]
  {
    var gone := EndpointsOf(f.edges.vec, pred);
    var i :| 0 <= i < |f.edges.vec| && f.edges.vec[i] == x;
    assert y.one in gone;
    var k :| 0 <= k < |f.edges.vec| && f.edges.vec[k] == y;
    assert Connects(f.edges.vec[k], y.one, y.two);
    AdjacencyKeys(f.edges.vec, y.one, y.two);
  }

  lemma AsWrittenKeepsEdge<L>(f: Frame<L>, pred: Edge<L> -> bool, y: Edge<L>)
    requires f.Valid() && y in f.edges.vec && !pred(y)
    ensures RemoveEdgesIfAsWritten(f, pred).edges.IndexedBy(EdgeIdOf)
    ensures RemoveEdgesIfAsWritten(f, pred).nodes == f.nodes
    ensures EdgeExists(RemoveEdgesIfAsWritten(f, pred), y.id)
  {
    var es := Filter(f.edges.vec, pred);
    IndexedUnique(f.edges, EdgeIdOf);
    FilterUnique(f.edges.vec, pred, EdgeIdOf);
    ReindexIndexes(es, EdgeIdOf);
    var j :| 0 <= j < |es| && es[j] == y;
  }

  /** Between two stored nodes with index entries, edge_exists reads the
      entry of the first. */
  lemma EdgeBetweenLooksUp<L>(f: Frame<L>, a: NodeId, b: NodeId)
    requires f.nodes.IndexedBy(NodeIdOf) && a in f.nodes.index && b in f.nodes.index && a in f.adj
    ensures EdgeBetween(f, a, b) == Ok(b in f.adj[a])
  {
    assert f.nodes.vec[f.nodes.index[a]].id == a;
    assert f.nodes.vec[f.nodes.index[b]].id == b;
  }

  /** remove_edges_if as written: when a removed edge x and a surviving edge
      y share the endpoint y.one, and y.two is not an endpoint of any removed
      edge, the entry of y.two loses y.one although y still joins them:
      edge_exists(y.one, y.two) holds and edge_exists(y.two, y.one) does
      not, breaking the equivalence the header documents. The smallest case
      is nodes 1, 2, 3 with edges (1, 2) and (1, 3), removing (1, 2). The
      repaired version reports the edge from both sides. */
  lemma RemoveEdgesIfAsWrittenBreaksSymmetry<L>(f: Frame<L>, pred: Edge<L> -> bool, x: Edge<L>, y: Edge<L>)
    requires f.Valid() && x in f.edges.vec && y in f.edges.vec
    requires pred(x) && !pred(y) && x.one == y.one && y.two !in EndpointsOf(f.edges.vec, pred)
    ensures RemoveEdgesIfAsWritten(f, pred).edges.IndexedBy(EdgeIdOf)
    ensures EdgeExists(RemoveEdgesIfAsWritten(f, pred), y.id)
    ensures EdgeBetween(RemoveEdgesIfAsWritten(f, pred), y.one, y.two) == Ok(true)
    ensures EdgeBetween(RemoveEdgesIfAsWritten(f, pred), y.two, y.one) == Ok(false)
    ensures EdgeBetween(RemoveEdgesIf(f, pred), y.one, y.two) == Ok(true)
    ensures EdgeBetween(RemoveEdgesIf(f, pred), y.two, y.one) == Ok(true)
  {
    AsWrittenEntries(f, pred, x, y);
    AsWrittenKeepsEdge(f, pred, y);
    var g := RemoveEdgesIfAsWritten(f, pred);
    EdgeBetweenLooksUp(g, y.one, y.two);
    EdgeBetweenLooksUp(g, y.two, y.one);
    RemovedEdgesIfStillJoins(f, pred, y);
  }

  /** With the index repaired, a surviving edge is seen from both endpoints. */
  lemma RemovedEdgesIfStillJoins<L>(f: Frame<L>, pred: Edge<L> -> bool, y: Edge<L>)
    requires f.Valid() && y in f.edges.vec && !pred(y)
    ensures EdgeBetween(RemoveEdgesIf(f, pred), y.one, y.two) == Ok(true)
    ensures EdgeBetween(RemoveEdgesIf(f, pred), y.two, y.one) == Ok(true)
  {
    RemoveEdgesIfSpec(f, pred);
    var h := RemoveEdgesIf(f, pred);
    var j :| 0 <= j < |h.edges.vec| && h.edges.vec[j] == y;
    assert Connects(h.edges.vec[j], y.two, y.one) && Connects(h.edges.vec[j], y.one, y.two);
    EdgeBetweenMeansConnected(h, y.one, y.two);
    EdgeBetweenMeansConnected(h, y.two, y.one);
  }

  /** push_edge as written: pushing edge (1, 2) into a graph holding only node
      1 fails, but the entry of node 1 already lists 2; once node 2 is pushed,
      edge_exists(1, 2) holds in a graph without edges. The repaired
      push_edge leaves the graph untouched on failure. */
  lemma PushEdgeAsWrittenLeavesStaleEntry()
    ensures PushEdgeAsWritten(PushNode(EmptyFrame<()>(), NewNode(Id(1), ())), NewEdge(Id(7), Id(1), Id(2), ())).1.Err?
    ensures EdgeBetween(PushNode(PushEdgeAsWritten(PushNode(EmptyFrame<()>(), NewNode(Id(1), ())), NewEdge(Id(7), Id(1), Id(2), ())).0,
                                 NewNode(Id(2), ())), Id(1), Id(2)) == Ok(true)
    ensures PushNode(PushEdgeAsWritten(PushNode(EmptyFrame<()>(), NewNode(Id(1), ())), NewEdge(Id(7), Id(1), Id(2), ())).0,
                     NewNode(Id(2), ())).edges.vec == []
    ensures PushEdge(PushNode(EmptyFrame<()>(), NewNode(Id(1), ())), NewEdge(Id(7), Id(1), Id(2), ())) == Err(InvalidGraph)
  {
    var f := PushNode(EmptyFrame<()>(), NewNode(Id(1), ()));
    var g := PushEdgeAsWritten(f, NewEdge(Id(7), Id(1), Id(2), ())).0;
    assert g.adj[Id(1)] == map[Id(2) := Id(7)];
    var h := PushNode(g, NewNode(Id(2), ()));
    assert h.nodes.vec[h.nodes.index[Id(2)]].id == Id(2);
  }

  // ------------------------------------------------------ the mutable graph

  /** Erasing with two predicates in turn is erasing with their disjunction. */
  lemma {:induction false} FilterTwice<T>(s: seq<T>, p: T -> bool, q: T -> bool, pq: T -> bool)
    requires forall x :: pq(x) == (p(x) || q(x))
    ensures Filter(Filter(s, p), q) == Filter(s, pq)
  {
    if s != [] {
      var init := s[..|s| - 1];
      FilterTwice(init, p, q, pq);
      var x := s[|s| - 1];
      if !p(x) {
        var fp := Filter(init, p);
        assert (fp + [x])[..|fp|] == fp;
      }
    }
  }

  /** Erasing from a sequence extended by one element. */
  lemma FilterPrefix<T>(s: seq<T>, i: nat, drop: T -> bool)
    requires i < |s|
    ensures Filter(s[..i + 1], drop) == if drop(s[i]) then Filter(s[..i], drop) else Filter(s[..i], drop) + [s[i]]
  {
    assert s[..i + 1][..i] == s[..i];
  }

  lemma RemovedIdsPrefix<L>(ns: seq<Node<L>>, i: nat, pred: Node<L> -> bool)
    requires i < |ns|
    ensures RemovedIds(ns[..i + 1], pred) == RemovedIds(ns[..i], pred) + (if pred(ns[i]) then {ns[i].id} else {})
  {
    assert ns[..i + 1][..i] == ns[..i];
  }

  /** An erase that selects nothing keeps the sequence. */
  lemma {:induction false} FilterNothing<T>(s: seq<T>, drop: T -> bool)
    requires forall i :: 0 <= i < |s| ==> !drop(s[i])
    ensures Filter(s, drop) == s
  {
    if s != [] {
      FilterNothing(s[..|s| - 1], drop);
    }
  }

  /** The map-rebuilding loop of remove_elements_if: map[vec[i].id] = i for
      every i in order. */
  method ReindexLoop<K, T>(vec: seq<T>, idOf: T -> K) returns (m: map<K, nat>)
    ensures m == Reindex(vec, idOf)
  {
    m := map[];
    var i := 0;
    while i < |vec|
      invariant 0 <= i <= |vec|
      invariant m == Reindex(vec[..i], idOf)
    {
      assert vec[..i + 1][..i] == vec[..i];
      m := m[idOf(vec[i]) := i];
      i := i + 1;
    }
    assert vec[..|vec|] == vec;
  }

  /** remove_elements_if: std::remove_if over the vector, then the map rebuilt
      from scratch. */
  method RemoveElementsIf<K, T>(c: Container<K, T>, idOf: T -> K, drop: T -> bool) returns (r: Container<K, T>)
    ensures r.vec == Filter(c.vec, drop) && r.index == Reindex(r.vec, idOf)
  {
    var kept: seq<T> := [];
    var i := 0;
    while i < |c.vec|
      invariant 0 <= i <= |c.vec|
      invariant kept == Filter(c.vec[..i], drop)
    {
      assert c.vec[..i + 1][..i] == c.vec[..i];
      if !drop(c.vec[i]) {
        kept := kept + [c.vec[i]];
      }
      i := i + 1;
    }
    assert c.vec[..|c.vec|] == c.vec;
    var m := ReindexLoop(kept, idOf);
    r := Container(kept, m);
  }
}
