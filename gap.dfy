/** Graph animation partitioning, GAP (calculate_gap in
    dyng/foresighted_layout.h): the nodes of the supergraph are grouped into
    partitions whose members never exist at the same time, and every
    supergraph edge is carried over between the partitions of its endpoints,
    with its live time. */
module Gap {
  import opened Wrappers
  import opened Identifiers
  import opened Container
  import opened Nodes
  import opened Edges
  import opened LiveSets
  import opened Partitions
  import opened Graphs
  import opened MappedGraphs
  import opened Supergraphs

  // ------------------------------------------------------------ node phase

  /** The position of the first partition whose live time shares no state
      with `live`; |ps| when there is none. */
  function FirstDisjoint(ps: seq<NodePartition>, live: LiveSet): (k: nat)
    ensures k <= |ps|
    ensures k < |ps| ==> Empty(Intersection(ps[k].live, live))
    ensures forall j :: 0 <= j < k ==> !Empty(Intersection(ps[j].live, live))
    decreases |ps|
  {
    if ps == [] then 0
    else if Empty(Intersection(ps[0].live, live)) then 0
    else 1 + FirstDisjoint(ps[1..], live)
  }

  /** Both containers of a partitioning map ids to positions faithfully. */
  ghost predicate Indexed(f: Partitioning)
  {
    f.nodes.IndexedBy(NodeIdOf) && f.edges.IndexedBy(EdgeIdOf)
  }

  lemma PushedIndexed<L>(f: Frame<L>, n: Node<L>)
    requires f.nodes.IndexedBy(NodeIdOf)
    ensures PushNode(f, n).nodes.IndexedBy(NodeIdOf) && n.id in PushNode(f, n).nodes.index
  {
    if n.id !in f.nodes.index {
      AppendIndexed(f.nodes, NodeIdOf, n);
    }
  }

  lemma PushedEdgeIndexed<L>(f: Frame<L>, e: Edge<L>)
    requires f.edges.IndexedBy(EdgeIdOf) && PushEdge(f, e).Ok?
    ensures PushEdge(f, e).value.edges.IndexedBy(EdgeIdOf) && e.id in PushEdge(f, e).value.edges.index
    ensures PushEdge(f, e).value.nodes == f.nodes
  {
    if e.id !in f.edges.index {
      AppendIndexed(f.edges, EdgeIdOf, e);
    }
  }

  /** One node of the node phase: it joins the first partition whose live
      time is disjoint from its own, and is mapped to it; otherwise
      push_node gives it a partition under its own id (the stored one, when
      the id is already a partition), whose live time then gains its own. */
  function JoinPartition(m: Mapped, id: NodeId, live: LiveSet): (r: Mapped)
    requires m.graph.nodes.IndexedBy(NodeIdOf)
    ensures r.graph.nodes.IndexedBy(NodeIdOf) && r.graph.edges == m.graph.edges && r.edgeAlias == m.edgeAlias
  {
    var ps := m.graph.nodes.vec;
    var k := FirstDisjoint(ps, live);
    if k < |ps| then
      ReplaceIndexed(m.graph.nodes, NodeIdOf, k, AddNodeLiveTime(ps[k], live));
      m.(graph := SetNode(m.graph, k, AddNodeLiveTime(ps[k], live))).MapNode(id, ps[k].id)
    else
      var g := PushNode(m.graph, NewNodePartition(id));
      PushedIndexed(m.graph, NewNodePartition(id));
      var j := g.nodes.index[id];
      ReplaceIndexed(g.nodes, NodeIdOf, j, AddNodeLiveTime(g.nodes.vec[j], live));
      m.(graph := SetNode(g, j, AddNodeLiveTime(g.nodes.vec[j], live)))
  }

  /** The node phase over the remaining ids; nodes_live.at fails with
      out_of_range for an id without a live time. */
  function GapNodes(m: Mapped, ids: seq<NodeId>, nodesLive: map<NodeId, LiveSet>): (r: Result<Mapped>)
    requires m.graph.nodes.IndexedBy(NodeIdOf)
    ensures r.Ok? ==> r.value.graph.nodes.IndexedBy(NodeIdOf) && r.value.graph.edges == m.graph.edges
    ensures r.Ok? ==> r.value.edgeAlias == m.edgeAlias
    decreases |ids|
  {
    if ids == [] then Ok(m)
    else if ids[0] !in nodesLive then Err(OutOfRange)
    else GapNodes(JoinPartition(m, ids[0], nodesLive[ids[0]]), ids[1..], nodesLive)
  }

  // ------------------------------------------------------------ edge phase

  /** One edge of the edge phase: an edge between the partitions of its
      endpoints is emplaced under the edge's id and gains the edge's live
      time. node_at and edges_live.at fail with out_of_range, emplace_edge
      with invalid_graph. */
  function GapEdge(m: Mapped, e: Edge<()>, edgesLive: map<EdgeId, LiveSet>): (r: Result<Mapped>)
    requires Indexed(m.graph)
    ensures r.Ok? ==> Indexed(r.value.graph) && r.value.graph.nodes == m.graph.nodes
    ensures r.Ok? ==> r.value.nodeAlias == m.nodeAlias && r.value.edgeAlias == m.edgeAlias
  {
    var one :- m.NodeAt(e.one);
    var two :- m.NodeAt(e.two);
    var p := NewEdgePartition(e.id, one.id, two.id);
    var g :- PushEdge(m.graph, p);
    PushedEdgeIndexed(m.graph, p);
    if e.id !in edgesLive then Err(OutOfRange)
    else
      var j := g.edges.index[e.id];
      ReplaceIndexed(g.edges, EdgeIdOf, j, AddEdgeLiveTime(g.edges.vec[j], edgesLive[e.id]));
      Ok(m.(graph := SetEdge(g, j, AddEdgeLiveTime(g.edges.vec[j], edgesLive[e.id]))))
  }

  /** The edge phase over the remaining edges. */
  function GapEdges(m: Mapped, es: seq<Edge<()>>, edgesLive: map<EdgeId, LiveSet>): (r: Result<Mapped>)
    requires Indexed(m.graph)
    ensures r.Ok? ==> Indexed(r.value.graph) && r.value.graph.nodes == m.graph.nodes
    ensures r.Ok? ==> r.value.nodeAlias == m.nodeAlias && r.value.edgeAlias == m.edgeAlias
    decreases |es|
  {
    if es == [] then Ok(m)
    else
      var h :- GapEdge(m, es[0], edgesLive);
      GapEdges(h, es[1..], edgesLive)
  }

  /** calculate_gap: the node phase over the supergraph's nodes, then the
      edge phase over its edges, starting from an empty partitioning. */
  function Gap(supergraph: GraphState, nodesLive: map<NodeId, LiveSet>, edgesLive: map<EdgeId, LiveSet>): Result<Mapped>
  {
    var m :- GapNodes(FromGraph(EmptyFrame()), NodeIds(supergraph), nodesLive);
    GapEdges(m, supergraph.edges.vec, edgesLive)
  }

  /** The inner loop of the node phase: the partitions in order, up to the
      first whose live time is disjoint from `live`. */
  method FindPartition(ps: seq<NodePartition>, live: LiveSet) returns (k: nat)
    ensures k == FirstDisjoint(ps, live)
  {
    k := 0;
    while k < |ps| && !Empty(Intersection(ps[k].live, live))
      invariant k <= |ps| && forall j :: 0 <= j < k ==> !Empty(Intersection(ps[j].live, live))
    {
      k := k + 1;
    }
  }

  /** The body of the node loop of calculate_gap for one node: the scan,
      then either joining the partition found or founding one. */
  method AssignPartition(gap: Mapped, id: NodeId, live: LiveSet) returns (r: Mapped)
    requires gap.graph.nodes.IndexedBy(NodeIdOf)
    ensures r == JoinPartition(gap, id, live)
  {
    var ps := gap.graph.nodes.vec;
    var k := FindPartition(ps, live);
    if k < |ps| {
      r := gap.(graph := SetNode(gap.graph, k, AddNodeLiveTime(ps[k], live))).MapNode(id, ps[k].id);
    } else {
      var g := PushNode(gap.graph, NewNodePartition(id));
      PushedIndexed(gap.graph, NewNodePartition(id));
      var added := g.nodes.index[id];
      r := gap.(graph := SetNode(g, added, AddNodeLiveTime(g.nodes.vec[added], live)));
    }
  }

  /** The node loop of calculate_gap: for every node, a scan of the
      partitions for the first one it fits into. */
  method PartitionNodes(ids: seq<NodeId>, nodesLive: map<NodeId, LiveSet>) returns (r: Result<Mapped>)
    ensures r == GapNodes(FromGraph(EmptyFrame()), ids, nodesLive)
  {
    var gap := FromGraph(EmptyFrame());
    var i := 0;
    while i < |ids|
      invariant i <= |ids| && Indexed(gap.graph)
      invariant GapNodes(gap, ids[i..], nodesLive) == GapNodes(FromGraph(EmptyFrame()), ids, nodesLive)
    {
      assert ids[i..][1..] == ids[i + 1..];
      var id := ids[i];
      if id !in nodesLive {
        return Err(OutOfRange);
      }
      assert GapNodes(gap, ids[i..], nodesLive) == GapNodes(JoinPartition(gap, id, nodesLive[id]), ids[i + 1..], nodesLive);
      gap := AssignPartition(gap, id, nodesLive[id]);
      i := i + 1;
    }
    assert ids[i..] == [];
    r := Ok(gap);
  }

  /** The edge loop of calculate_gap. */
  method PartitionEdges(m: Mapped, es: seq<Edge<()>>, edgesLive: map<EdgeId, LiveSet>) returns (r: Result<Mapped>)
    requires Indexed(m.graph)
    ensures r == GapEdges(m, es, edgesLive)
  {
    var gap := m;
    var j := 0;
    while j < |es|
      invariant j <= |es| && Indexed(gap.graph)
      invariant GapEdges(gap, es[j..], edgesLive) == GapEdges(m, es, edgesLive)
    {
      assert es[j..][1..] == es[j + 1..];
      var step := GapEdge(gap, es[j], edgesLive);
      if step.Err? {
        assert GapEdges(gap, es[j..], edgesLive) == Err(step.error);
        return Err(step.error);
      }
      assert GapEdges(gap, es[j..], edgesLive) == GapEdges(step.value, es[j + 1..], edgesLive);
      gap := step.value;
      j := j + 1;
    }
    assert es[j..] == [];
    r := Ok(gap);
  }

  /** calculate_gap: the node loop, then the edge loop. */
  method CalculateGap(supergraph: GraphState, nodesLive: map<NodeId, LiveSet>, edgesLive: map<EdgeId, LiveSet>)
    returns (r: Result<Mapped>)
    ensures r == Gap(supergraph, nodesLive, edgesLive)
  {
    var nodes := PartitionNodes(NodeIds(supergraph), nodesLive);
    if nodes.Err? {
      return Err(nodes.error);
    }
    r := PartitionEdges(nodes.value, supergraph.edges.vec, edgesLive);
  }

  // ------------------------------------------------- what the node phase keeps

  /** The live time of the partition stored under `p`; empty when there is none. */
  ghost function PartitionLive(m: Mapped, p: NodeId): LiveSet
  {
    if p in m.graph.nodes.index && m.graph.nodes.index[p] < |m.graph.nodes.vec|
    then m.graph.nodes.vec[m.graph.nodes.index[p]].live else []
  }

  ghost predicate PartitionsIncreasing(m: Mapped)
  {
    forall i :: 0 <= i < |m.graph.nodes.vec| ==> Increasing(m.graph.nodes.vec[i].live)
  }

  /** The partitions and aliases after an id founds a partition. */
  lemma FoundForm(m: Mapped, x: NodeId, l: LiveSet)
    requires m.graph.nodes.IndexedBy(NodeIdOf) && x !in m.graph.nodes.index
    requires FirstDisjoint(m.graph.nodes.vec, l) == |m.graph.nodes.vec|
    ensures JoinPartition(m, x, l).graph.nodes ==
      Container(m.graph.nodes.vec + [AddNodeLiveTime(NewNodePartition(x), l)], m.graph.nodes.index[x := |m.graph.nodes.vec|])
    ensures JoinPartition(m, x, l).nodeAlias == m.nodeAlias
  {
    var ps := m.graph.nodes.vec;
    assert (ps + [NewNodePartition(x)])[|ps| := AddNodeLiveTime(NewNodePartition(x), l)] == ps + [AddNodeLiveTime(NewNodePartition(x), l)];
  }

  /** The partitions and aliases after an id joins the partition found. */
  lemma JoinedForm(m: Mapped, x: NodeId, l: LiveSet)
    requires m.graph.nodes.IndexedBy(NodeIdOf) && x !in m.nodeAlias
    requires FirstDisjoint(m.graph.nodes.vec, l) < |m.graph.nodes.vec|
    ensures var ps := m.graph.nodes.vec; var k := FirstDisjoint(ps, l);
      && JoinPartition(m, x, l).graph.nodes == Container(ps[k := AddNodeLiveTime(ps[k], l)], m.graph.nodes.index)
      && JoinPartition(m, x, l).nodeAlias == m.nodeAlias[x := ps[k].id]
  {
  }

  /** Rewriting the partition at position k changes the live time found
      under its id only. */
  lemma ReplacedLive(m: Mapped, r: Mapped, k: nat, n: NodePartition)
    requires m.graph.nodes.IndexedBy(NodeIdOf) && k < |m.graph.nodes.vec| && n.id == m.graph.nodes.vec[k].id
    requires r.graph.nodes == Container(m.graph.nodes.vec[k := n], m.graph.nodes.index)
    ensures PartitionLive(r, n.id) == n.live
    ensures forall q :: q != n.id ==> PartitionLive(r, q) == PartitionLive(m, q)
  {
    forall q | q != n.id && q in m.graph.nodes.index ensures PartitionLive(r, q) == PartitionLive(m, q) {
      assert m.graph.nodes.vec[m.graph.nodes.index[q]].id == q;
    }
  }

  /** Appending a partition under a new id changes the live time found
      under that id only. */
  lemma AppendedLive(m: Mapped, r: Mapped, n: NodePartition)
    requires m.graph.nodes.IndexInBounds() && n.id !in m.graph.nodes.index
    requires r.graph.nodes == Container(m.graph.nodes.vec + [n], m.graph.nodes.index[n.id := |m.graph.nodes.vec|])
    ensures PartitionLive(r, n.id) == n.live
    ensures forall q :: q != n.id ==> PartitionLive(r, q) == PartitionLive(m, q)
  {
  }

  /** Founding a partition (r is the result of FoundForm): the id
      becomes its own target, and the new partition's live time holds the
      id's. */
  lemma FoundShape(m: Mapped, r: Mapped, x: NodeId, l: LiveSet)
    requires m.graph.nodes.IndexedBy(NodeIdOf) && x !in m.nodeAlias && x !in m.graph.nodes.index
    requires r.graph.nodes ==
      Container(m.graph.nodes.vec + [AddNodeLiveTime(NewNodePartition(x), l)], m.graph.nodes.index[x := |m.graph.nodes.vec|])
    requires r.nodeAlias == m.nodeAlias
    requires PartitionsIncreasing(m) && Increasing(l)
    ensures r.NodeTarget(x) == x && (forall y :: r.NodeTarget(y) == m.NodeTarget(y))
    ensures r.graph.nodes.index.Keys == m.graph.nodes.index.Keys + {x}
    ensures |r.graph.nodes.vec| == |m.graph.nodes.vec| + 1
    ensures PartitionsIncreasing(r)
    ensures forall p :: p != x ==> PartitionLive(r, p) == PartitionLive(m, p)
    ensures forall t :: t in PartitionLive(r, x) <==> t in l
  {
    AppendedLive(m, r, AddNodeLiveTime(NewNodePartition(x), l));
    JoinKeepsIncreasing([], l);
  }

  /** Joining the partition at position k (r is the result of JoinedForm):
      the id is mapped to it, and only that partition's live time grows, by
      the id's own, which shared no state with it. */
  lemma JoinedShape(m: Mapped, r: Mapped, x: NodeId, l: LiveSet, k: nat)
    requires m.graph.nodes.IndexedBy(NodeIdOf) && x !in m.nodeAlias && k < |m.graph.nodes.vec|
    requires Empty(Intersection(m.graph.nodes.vec[k].live, l))
    requires r.graph.nodes == Container(m.graph.nodes.vec[k := AddNodeLiveTime(m.graph.nodes.vec[k], l)], m.graph.nodes.index)
    requires r.nodeAlias == m.nodeAlias[x := m.graph.nodes.vec[k].id]
    requires PartitionsIncreasing(m) && Increasing(l)
    ensures var p := m.graph.nodes.vec[k].id;
      && r.NodeTarget(x) == p && p in m.graph.nodes.index
      && (forall y :: y != x ==> r.NodeTarget(y) == m.NodeTarget(y))
      && (forall q :: q != p ==> PartitionLive(r, q) == PartitionLive(m, q))
      && (forall t :: t in PartitionLive(r, p) <==> t in PartitionLive(m, p) || t in l)
      && (forall t :: t in PartitionLive(m, p) ==> t !in l)
    ensures r.graph.nodes.index == m.graph.nodes.index && |r.graph.nodes.vec| == |m.graph.nodes.vec|
    ensures PartitionsIncreasing(r)
  {
    var ps := m.graph.nodes.vec;
    ReplacedLive(m, r, k, AddNodeLiveTime(ps[k], l));
    ReplacedLive(m, m, k, ps[k]);
    JoinKeepsIncreasing(ps[k].live, l);
    DisjointIffNoSharedTime(ps[k].live, l);
  }

  /** Only x's target may have changed from m to r. */
  ghost predicate Retargeted(m: Mapped, r: Mapped, x: NodeId)
  {
    forall y :: y != x ==> r.NodeTarget(y) == m.NodeTarget(y)
  }

  /** Only P's live time may have changed from m to r, by gaining l. */
  ghost predicate Grown(m: Mapped, r: Mapped, P: NodeId, l: LiveSet)
  {
    && (forall q :: q != P ==> PartitionLive(r, q) == PartitionLive(m, q))
    && (forall t :: t in PartitionLive(r, P) <==> t in PartitionLive(m, P) || t in l)
  }

  /** r stores the partitions of m and P, and the aliases of m and x. */
  ghost predicate Reshaped(m: Mapped, r: Mapped, x: NodeId, P: NodeId)
  {
    && r.graph.nodes.IndexedBy(NodeIdOf) && PartitionsIncreasing(r)
    && (forall a :: a in r.nodeAlias ==> a in m.nodeAlias || a == x)
    && (P in m.graph.nodes.index || P == x)
    && (forall p :: p in r.graph.nodes.index <==> p in m.graph.nodes.index || p == P)
    && |r.graph.nodes.vec| <= |m.graph.nodes.vec| + 1
  }

  /** A stored partition P shares no state with l. */
  ghost predicate Fits(m: Mapped, P: NodeId, l: LiveSet)
  {
    P in m.graph.nodes.index ==> forall t :: t in PartitionLive(m, P) ==> t !in l
  }

  /** How r, the result of one step of the node phase for id x with live
      time l, differs from m: x's target P is a stored partition or x
      itself, only P's live time changes, gaining l, and a stored P shared
      no state with l. */
  ghost predicate StepFrom(m: Mapped, r: Mapped, x: NodeId, l: LiveSet)
  {
    && Retargeted(m, r, x)
    && Reshaped(m, r, x, r.NodeTarget(x))
    && Grown(m, r, r.NodeTarget(x), l)
    && Fits(m, r.NodeTarget(x), l)
  }

  /** One step of the node phase, for an id that is neither a partition nor
      mapped yet. */
  lemma JoinStep(m: Mapped, x: NodeId, l: LiveSet)
    requires m.graph.nodes.IndexedBy(NodeIdOf) && x !in m.nodeAlias && x !in m.graph.nodes.index
    requires PartitionsIncreasing(m) && Increasing(l)
    ensures StepFrom(m, JoinPartition(m, x, l), x, l)
  {
    var r := JoinPartition(m, x, l);
    var ps := m.graph.nodes.vec;
    var k := FirstDisjoint(ps, l);
    if k < |ps| {
      JoinedForm(m, x, l);
      JoinedShape(m, r, x, l, k);
    } else {
      FoundForm(m, x, l);
      FoundShape(m, r, x, l);
    }
  }

  /** Every placed id resolves to a partition. */
  ghost predicate Resolved(m: Mapped, done: seq<NodeId>)
  {
    forall x :: x in done ==> m.NodeTarget(x) in m.graph.nodes.index
  }

  /** Partitions and aliases exist for placed ids only, every placed id
      resolves to a partition, and there are no more partitions than
      placed ids. */
  ghost predicate Placed(m: Mapped, done: seq<NodeId>)
  {
    && m.graph.nodes.IndexedBy(NodeIdOf)
    && PartitionsIncreasing(m)
    && (forall p :: p in m.graph.nodes.index ==> p in done)
    && (forall a :: a in m.nodeAlias ==> a in done)
    && Resolved(m, done)
    && |m.graph.nodes.vec| <= |done|
  }

  /** The partition of every placed id holds the id's live time. */
  ghost predicate Covered(m: Mapped, done: seq<NodeId>, nodesLive: map<NodeId, LiveSet>)
  {
    forall x, t :: x in done && x in nodesLive && t in nodesLive[x] ==> t in PartitionLive(m, m.NodeTarget(x))
  }

  /** Placed ids that share a partition never live at the same time. */
  ghost predicate Apart(m: Mapped, done: seq<NodeId>, nodesLive: map<NodeId, LiveSet>)
  {
    forall x, y, t ::
      (x in done && y in done && x != y && m.NodeTarget(x) == m.NodeTarget(y)
       && x in nodesLive && y in nodesLive && t in nodesLive[x]) ==> t !in nodesLive[y]
  }

  lemma PlacedStep(m: Mapped, r: Mapped, done: seq<NodeId>, x: NodeId)
    requires Placed(m, done) && x !in done
    requires Retargeted(m, r, x) && Reshaped(m, r, x, r.NodeTarget(x))
    ensures Placed(r, done + [x])
  {
    var P := r.NodeTarget(x);
    forall y | y in done + [x] ensures r.NodeTarget(y) in r.graph.nodes.index {
      if y != x {
        assert y in done && r.NodeTarget(y) == m.NodeTarget(y);
      }
    }
    forall p | p in r.graph.nodes.index ensures p in done + [x] {
      if p != P {
        assert p in m.graph.nodes.index;
      }
    }
  }

  lemma CoveredStep(m: Mapped, r: Mapped, done: seq<NodeId>, x: NodeId, nodesLive: map<NodeId, LiveSet>)
    requires Covered(m, done, nodesLive) && x !in done && x in nodesLive
    requires Retargeted(m, r, x) && Grown(m, r, r.NodeTarget(x), nodesLive[x])
    ensures Covered(r, done + [x], nodesLive)
  {
    var P := r.NodeTarget(x);
    forall y, t | y in done + [x] && y in nodesLive && t in nodesLive[y]
      ensures t in PartitionLive(r, r.NodeTarget(y))
    {
      if y != x {
        assert y in done && r.NodeTarget(y) == m.NodeTarget(y);
        assert t in PartitionLive(m, m.NodeTarget(y));
      }
    }
  }

  lemma ApartStep(m: Mapped, r: Mapped, done: seq<NodeId>, x: NodeId, nodesLive: map<NodeId, LiveSet>)
    requires Resolved(m, done) && Covered(m, done, nodesLive) && Apart(m, done, nodesLive)
    requires x !in done && x in nodesLive
    requires Retargeted(m, r, x) && Fits(m, r.NodeTarget(x), nodesLive[x])
    ensures Apart(r, done + [x], nodesLive)
  {
    var P := r.NodeTarget(x);
    forall y, z, t | y in done + [x] && z in done + [x] && y != z && r.NodeTarget(y) == r.NodeTarget(z)
        && y in nodesLive && z in nodesLive && t in nodesLive[y]
      ensures t !in nodesLive[z]
    {
      if y == x {
        assert z in done && m.NodeTarget(z) == P;
        assert t in nodesLive[z] ==> t in PartitionLive(m, P);
      } else if z == x {
        assert y in done && m.NodeTarget(y) == P;
        assert t in PartitionLive(m, P);
      } else {
        assert m.NodeTarget(y) == m.NodeTarget(z);
      }
    }
  }

  /** Every state in a partition's live time is a state of some placed id
      resolving to it. */
  ghost predicate Gathered(m: Mapped, done: seq<NodeId>, nodesLive: map<NodeId, LiveSet>)
  {
    forall p, t :: p in m.graph.nodes.index && t in PartitionLive(m, p) ==>
      exists x :: x in done && x in nodesLive && m.NodeTarget(x) == p && t in nodesLive[x]
  }

  lemma GatheredStep(m: Mapped, r: Mapped, done: seq<NodeId>, x: NodeId, nodesLive: map<NodeId, LiveSet>)
    requires Gathered(m, done, nodesLive) && x !in done && x in nodesLive
    requires Retargeted(m, r, x) && Reshaped(m, r, x, r.NodeTarget(x)) && Grown(m, r, r.NodeTarget(x), nodesLive[x])
    ensures Gathered(r, done + [x], nodesLive)
  {
    var P := r.NodeTarget(x);
    forall p, t | p in r.graph.nodes.index && t in PartitionLive(r, p)
      ensures exists y :: y in done + [x] && y in nodesLive && r.NodeTarget(y) == p && t in nodesLive[y]
    {
      if p == P && t in nodesLive[x] {
        assert x in done + [x];
      } else {
        assert t in PartitionLive(m, p);
        assert p in m.graph.nodes.index;
        var y :| y in done && y in nodesLive && m.NodeTarget(y) == p && t in nodesLive[y];
        assert y in done + [x] && r.NodeTarget(y) == p;
      }
    }
  }

  /** Everything the node phase keeps. */
  ghost predicate NodePhase(m: Mapped, done: seq<NodeId>, nodesLive: map<NodeId, LiveSet>)
  {
    Placed(m, done) && Covered(m, done, nodesLive) && Apart(m, done, nodesLive) && Gathered(m, done, nodesLive)
  }

  /** Ids that can be placed after `done`: distinct, new, with increasing
      live times. */
  ghost predicate Placeable(ids: seq<NodeId>, done: seq<NodeId>, nodesLive: map<NodeId, LiveSet>)
  {
    && (forall i :: 0 <= i < |ids| ==> ids[i] in nodesLive && Increasing(nodesLive[ids[i]]) && ids[i] !in done)
    && (forall i, j :: 0 <= i < j < |ids| ==> ids[i] != ids[j])
  }

  /** One step of the node phase keeps NodePhase. */
  lemma JoinKeeps(m: Mapped, done: seq<NodeId>, x: NodeId, nodesLive: map<NodeId, LiveSet>)
    requires NodePhase(m, done, nodesLive)
    requires x in nodesLive && Increasing(nodesLive[x]) && x !in done
    ensures NodePhase(JoinPartition(m, x, nodesLive[x]), done + [x], nodesLive)
  {
    var l := nodesLive[x];
    var r := JoinPartition(m, x, l);
    JoinStep(m, x, l);
    PlacedStep(m, r, done, x);
    CoveredStep(m, r, done, x, nodesLive);
    ApartStep(m, r, done, x, nodesLive);
    GatheredStep(m, r, done, x, nodesLive);
  }

  lemma PlaceableTail(ids: seq<NodeId>, done: seq<NodeId>, nodesLive: map<NodeId, LiveSet>)
    requires |ids| > 0 && Placeable(ids, done, nodesLive)
    ensures Placeable(ids[1..], done + [ids[0]], nodesLive)
    ensures done + [ids[0]] + ids[1..] == done + ids
  {
    assert ids == [ids[0]] + ids[1..];
    forall i | 0 <= i < |ids[1..]| ensures ids[1..][i] !in done + [ids[0]] {
      assert ids[1..][i] == ids[i + 1];
    }
  }

  /** The node phase succeeds and keeps NodePhase. */
  lemma {:induction false} GapNodesKeep(m: Mapped, done: seq<NodeId>, ids: seq<NodeId>, nodesLive: map<NodeId, LiveSet>)
    requires NodePhase(m, done, nodesLive) && Placeable(ids, done, nodesLive)
    ensures GapNodes(m, ids, nodesLive).Ok?
    ensures NodePhase(GapNodes(m, ids, nodesLive).value, done + ids, nodesLive)
    decreases |ids|
  {
    if ids == [] {
      assert done + ids == done;
    } else {
      var x := ids[0];
      var r := JoinPartition(m, x, nodesLive[x]);
      JoinKeeps(m, done, x, nodesLive);
      PlaceableTail(ids, done, nodesLive);
      GapNodesKeep(r, done + [x], ids[1..], nodesLive);
    }
  }

  /** The node phase starts from an empty mapped graph with nothing placed. */
  lemma EmptyPhase(nodesLive: map<NodeId, LiveSet>)
    ensures NodePhase(FromGraph(EmptyFrame()), [], nodesLive)
  {
    var m := FromGraph(EmptyFrame());
    assert m.graph.nodes.vec == [] && m.graph.nodes.index == map[] && m.nodeAlias == map[];
  }

  /** The node phase fails, with out_of_range, exactly when some id has no
      entry in nodes_live. */
  lemma {:induction false} GapNodesOk(m: Mapped, ids: seq<NodeId>, nodesLive: map<NodeId, LiveSet>)
    requires m.graph.nodes.IndexedBy(NodeIdOf)
    ensures GapNodes(m, ids, nodesLive).Ok? <==> forall i :: 0 <= i < |ids| ==> ids[i] in nodesLive
    ensures GapNodes(m, ids, nodesLive).Err? ==> GapNodes(m, ids, nodesLive).error == OutOfRange
    decreases |ids|
  {
    if ids != [] && ids[0] in nodesLive {
      GapNodesOk(JoinPartition(m, ids[0], nodesLive[ids[0]]), ids[1..], nodesLive);
      AllInTail(ids, nodesLive);
    }
  }

  lemma AllInTail<K, V>(ids: seq<K>, m: map<K, V>)
    requires ids != [] && ids[0] in m
    ensures (forall i :: 0 <= i < |ids| ==> ids[i] in m) <==> forall i :: 0 <= i < |ids[1..]| ==> ids[1..][i] in m
  {
    assert forall i :: 1 <= i < |ids| ==> ids[i] == ids[1..][i - 1];
  }

  /** The node ids of a valid graph are its index keys, without repeats. */
  lemma NodeIdsListed(f: GraphState)
    requires f.Valid()
    ensures forall id :: id in f.nodes.index <==> id in NodeIds(f)
    ensures forall i, j :: 0 <= i < j < |NodeIds(f)| ==> NodeIds(f)[i] != NodeIds(f)[j]
  {
    var ids := NodeIds(f);
    forall id ensures id in f.nodes.index <==> id in ids {
      if id in f.nodes.index {
        assert ids[f.nodes.index[id]] == id;
      }
    }
    ValidIdsDistinct([f]);
    assert NodeIdLists([f])[0] == ids;
  }

  /** The node phase over distinct ids with increasing live times keeps
      NodePhase from the empty mapped graph on. */
  lemma GapNodesFromEmpty(ids: seq<NodeId>, nodesLive: map<NodeId, LiveSet>)
    requires Placeable(ids, [], nodesLive)
    ensures GapNodes(FromGraph(EmptyFrame()), ids, nodesLive).Ok?
    ensures NodePhase(GapNodes(FromGraph(EmptyFrame()), ids, nodesLive).value, ids, nodesLive)
  {
    assert [] + ids == ids;
    EmptyPhase(nodesLive);
    GapNodesKeep(FromGraph(EmptyFrame()), [], ids, nodesLive);
  }

  /** The node phase over the nodes of a valid supergraph, given increasing
      live times: it succeeds iff every node has a live time, and then every
      node resolves to a partition holding its live time, nodes sharing a
      partition never coexist, a partition lives only when one of its nodes
      does, and there are no more partitions than nodes. */
  lemma GapNodesPhase(supergraph: GraphState, nodesLive: map<NodeId, LiveSet>)
    requires supergraph.Valid()
    requires forall id :: id in nodesLive ==> Increasing(nodesLive[id])
    ensures GapNodes(FromGraph(EmptyFrame()), NodeIds(supergraph), nodesLive).Ok?
      <==> forall id :: id in supergraph.nodes.index ==> id in nodesLive
    ensures GapNodes(FromGraph(EmptyFrame()), NodeIds(supergraph), nodesLive).Ok? ==>
      NodePhase(GapNodes(FromGraph(EmptyFrame()), NodeIds(supergraph), nodesLive).value, NodeIds(supergraph), nodesLive)
  {
    var ids := NodeIds(supergraph);
    NodeIdsListed(supergraph);
    GapNodesOk(FromGraph(EmptyFrame()), ids, nodesLive);
    if GapNodes(FromGraph(EmptyFrame()), ids, nodesLive).Ok? {
      GapNodesFromEmpty(ids, nodesLive);
    }
  }

  // ------------------------------------------------- what the edge phase keeps

  /** Every stored partition has an adjacency entry, so edges between
      partitions can be emplaced. */
  ghost predicate AdjCovers<L>(f: Frame<L>)
  {
    forall p :: p in f.nodes.index ==> p in f.adj
  }

  lemma JoinAdj(m: Mapped, x: NodeId, l: LiveSet)
    requires m.graph.nodes.IndexedBy(NodeIdOf) && AdjCovers(m.graph)
    ensures AdjCovers(JoinPartition(m, x, l).graph)
  {
  }

  /** The node phase gives every partition an adjacency entry. */
  lemma {:induction false} GapNodesAdj(m: Mapped, ids: seq<NodeId>, nodesLive: map<NodeId, LiveSet>)
    requires m.graph.nodes.IndexedBy(NodeIdOf) && AdjCovers(m.graph)
    ensures GapNodes(m, ids, nodesLive).Ok? ==> AdjCovers(GapNodes(m, ids, nodesLive).value.graph)
    decreases |ids|
  {
    if ids != [] && ids[0] in nodesLive {
      JoinAdj(m, ids[0], nodesLive[ids[0]]);
      GapNodesAdj(JoinPartition(m, ids[0], nodesLive[ids[0]]), ids[1..], nodesLive);
    }
  }

  /** The partition edge that carries supergraph edge e: e's id, the
      partitions of e's endpoints, and the given live time. */
  function Carrier(m: Mapped, e: Edge<()>, live: LiveSet): EdgePartition
  {
    NewEdge(e.id, m.NodeTarget(e.one), m.NodeTarget(e.two), live)
  }

  /** One step of the edge phase, for an edge whose id is new and whose
      endpoints resolve: it fails, with out_of_range, exactly when the edge
      has no live time, and otherwise appends the edge's carrier. */
  lemma GapEdgeForm(m: Mapped, e: Edge<()>, edgesLive: map<EdgeId, LiveSet>)
    requires Indexed(m.graph) && AdjCovers(m.graph) && e.id !in m.graph.edges.index
    requires m.NodeTarget(e.one) in m.graph.nodes.index && m.NodeTarget(e.two) in m.graph.nodes.index
    ensures GapEdge(m, e, edgesLive).Ok? <==> e.id in edgesLive
    ensures GapEdge(m, e, edgesLive).Err? ==> GapEdge(m, e, edgesLive).error == OutOfRange
    ensures e.id in edgesLive ==>
      && GapEdge(m, e, edgesLive).value.graph.edges.vec == m.graph.edges.vec + [Carrier(m, e, edgesLive[e.id])]
      && AdjCovers(GapEdge(m, e, edgesLive).value.graph)
  {
    var p := NewEdgePartition(e.id, m.NodeTarget(e.one), m.NodeTarget(e.two));
    assert PushEdge(m.graph, p).Ok?;
    PushedEdgeIndexed(m.graph, p);
    if e.id in edgesLive {
      var l := edgesLive[e.id];
      assert Join([], l) == l;
      var g := PushEdge(m.graph, p).value;
      assert g.edges.index[e.id] == |m.graph.edges.vec|;
      assert (m.graph.edges.vec + [p])[|m.graph.edges.vec| := AddEdgeLiveTime(p, l)]
        == m.graph.edges.vec + [Carrier(m, e, l)];
    }
  }

  /** The partition edges are, position by position, the carriers of the
      supergraph edges placed so far, each with its own live time. */
  ghost predicate EdgePhase(m: Mapped, done: seq<Edge<()>>, edgesLive: map<EdgeId, LiveSet>)
  {
    && Indexed(m.graph) && AdjCovers(m.graph)
    && |m.graph.edges.vec| == |done|
    && forall i :: 0 <= i < |done| ==>
      done[i].id in edgesLive && m.graph.edges.vec[i] == Carrier(m, done[i], edgesLive[done[i].id])
  }

  /** Edges that can be placed after `done`: distinct new ids and endpoints
      that resolve to partitions. */
  ghost predicate Carriable(m: Mapped, es: seq<Edge<()>>, done: seq<Edge<()>>)
  {
    && (forall i :: 0 <= i < |es| ==>
      m.NodeTarget(es[i].one) in m.graph.nodes.index && m.NodeTarget(es[i].two) in m.graph.nodes.index)
    && (forall i, j :: 0 <= i < |es| && 0 <= j < |done| ==> es[i].id != done[j].id)
    && (forall i, j :: 0 <= i < j < |es| ==> es[i].id != es[j].id)
  }

  /** An edge id not placed yet is not stored. */
  lemma FreshEdge(m: Mapped, done: seq<Edge<()>>, e: Edge<()>, edgesLive: map<EdgeId, LiveSet>)
    requires EdgePhase(m, done, edgesLive)
    requires forall j :: 0 <= j < |done| ==> e.id != done[j].id
    ensures e.id !in m.graph.edges.index
  {
  }

  lemma EdgeStepKeeps(m: Mapped, done: seq<Edge<()>>, e: Edge<()>, edgesLive: map<EdgeId, LiveSet>)
    requires EdgePhase(m, done, edgesLive) && e.id in edgesLive
    requires m.NodeTarget(e.one) in m.graph.nodes.index && m.NodeTarget(e.two) in m.graph.nodes.index
    requires forall j :: 0 <= j < |done| ==> e.id != done[j].id
    ensures GapEdge(m, e, edgesLive).Ok?
    ensures EdgePhase(GapEdge(m, e, edgesLive).value, done + [e], edgesLive)
  {
    FreshEdge(m, done, e, edgesLive);
    GapEdgeForm(m, e, edgesLive);
    EdgeAppended(m, GapEdge(m, e, edgesLive).value, done, e, edgesLive);
  }

  lemma EdgeAppended(m: Mapped, r: Mapped, done: seq<Edge<()>>, e: Edge<()>, edgesLive: map<EdgeId, LiveSet>)
    requires EdgePhase(m, done, edgesLive) && e.id in edgesLive
    requires Indexed(r.graph) && AdjCovers(r.graph)
    requires r.graph.nodes == m.graph.nodes && r.nodeAlias == m.nodeAlias
    requires r.graph.edges.vec == m.graph.edges.vec + [Carrier(m, e, edgesLive[e.id])]
    ensures EdgePhase(r, done + [e], edgesLive)
  {
    var es := done + [e];
    forall i | 0 <= i < |es| ensures es[i].id in edgesLive && r.graph.edges.vec[i] == Carrier(r, es[i], edgesLive[es[i].id]) {
      assert r.NodeTarget(es[i].one) == m.NodeTarget(es[i].one);
      assert r.NodeTarget(es[i].two) == m.NodeTarget(es[i].two);
      if i < |done| {
        assert es[i] == done[i] && r.graph.edges.vec[i] == m.graph.edges.vec[i];
      }
    }
  }

  lemma CarriableTail(m: Mapped, r: Mapped, es: seq<Edge<()>>, done: seq<Edge<()>>)
    requires |es| > 0 && Carriable(m, es, done)
    requires r.graph.nodes == m.graph.nodes && r.nodeAlias == m.nodeAlias
    ensures Carriable(r, es[1..], done + [es[0]])
    ensures forall j :: 0 <= j < |done| ==> es[0].id != done[j].id
    ensures done + [es[0]] + es[1..] == done + es
  {
    assert es == [es[0]] + es[1..];
    assert forall y :: r.NodeTarget(y) == m.NodeTarget(y);
    forall i, j | 0 <= i < |es[1..]| && 0 <= j < |done + [es[0]]| ensures es[1..][i].id != (done + [es[0]])[j].id {
      assert es[1..][i] == es[i + 1];
    }
  }

  /** The edge phase fails, with out_of_range, exactly when some edge has no
      live time, and otherwise carries every edge. */
  lemma {:induction false} GapEdgesKeep(m: Mapped, done: seq<Edge<()>>, es: seq<Edge<()>>, edgesLive: map<EdgeId, LiveSet>)
    requires EdgePhase(m, done, edgesLive) && Carriable(m, es, done)
    ensures GapEdges(m, es, edgesLive).Ok? <==> forall i :: 0 <= i < |es| ==> es[i].id in edgesLive
    ensures GapEdges(m, es, edgesLive).Err? ==> GapEdges(m, es, edgesLive).error == OutOfRange
    ensures GapEdges(m, es, edgesLive).Ok? ==> EdgePhase(GapEdges(m, es, edgesLive).value, done + es, edgesLive)
    decreases |es|
  {
    if es == [] {
      assert done + es == done;
    } else if es[0].id !in edgesLive {
      GapEdgeOutOfRange(m, done, es[0], edgesLive);
    } else {
      EdgeStepKeeps(m, done, es[0], edgesLive);
      var r := GapEdge(m, es[0], edgesLive).value;
      CarriableTail(m, r, es, done);
      GapEdgesKeep(r, done + [es[0]], es[1..], edgesLive);
      assert forall i :: 1 <= i < |es| ==> es[i] == es[1..][i - 1];
    }
  }

  lemma GapEdgeOutOfRange(m: Mapped, done: seq<Edge<()>>, e: Edge<()>, edgesLive: map<EdgeId, LiveSet>)
    requires EdgePhase(m, done, edgesLive) && e.id !in edgesLive
    requires m.NodeTarget(e.one) in m.graph.nodes.index && m.NodeTarget(e.two) in m.graph.nodes.index
    requires forall j :: 0 <= j < |done| ==> e.id != done[j].id
    ensures GapEdge(m, e, edgesLive) == Err(OutOfRange)
  {
    FreshEdge(m, done, e, edgesLive);
    GapEdgeForm(m, e, edgesLive);
  }

  // ------------------------------------------------------------ the theorem

  lemma SameNodes(m: Mapped, r: Mapped)
    requires r.graph.nodes == m.graph.nodes && r.nodeAlias == m.nodeAlias
    ensures forall y :: r.NodeTarget(y) == m.NodeTarget(y)
    ensures forall p :: PartitionLive(r, p) == PartitionLive(m, p)
  {
  }

  /** The edge phase leaves nodes and node aliases alone, so it keeps what
      the node phase established. */
  lemma NodePhaseKept(m: Mapped, r: Mapped, done: seq<NodeId>, nodesLive: map<NodeId, LiveSet>)
    requires NodePhase(m, done, nodesLive)
    requires r.graph.nodes == m.graph.nodes && r.nodeAlias == m.nodeAlias
    ensures NodePhase(r, done, nodesLive)
  {
    SameNodes(m, r);
    assert Placed(r, done);
    assert Covered(r, done, nodesLive);
    assert Apart(r, done, nodesLive);
    assert Gathered(r, done, nodesLive);
  }

  /** The edges of a valid graph have distinct ids, are its index keys, and
      join stored nodes. */
  lemma EdgeIdsListed(f: GraphState)
    requires f.Valid()
    ensures forall id :: id in f.edges.index <==> exists i :: 0 <= i < |f.edges.vec| && f.edges.vec[i].id == id
    ensures forall i, j :: 0 <= i < j < |f.edges.vec| ==> f.edges.vec[i].id != f.edges.vec[j].id
  {
    forall id | id in f.edges.index ensures exists i :: 0 <= i < |f.edges.vec| && f.edges.vec[i].id == id {
      assert f.edges.vec[f.edges.index[id]].id == id;
    }
    IndexedUnique(f.edges, EdgeIdOf);
  }

  /** After a node phase over all nodes of a valid supergraph, its edges can
      be carried. */
  lemma EdgesCarriable(supergraph: GraphState, m: Mapped)
    requires supergraph.Valid() && Resolved(m, NodeIds(supergraph))
    ensures Carriable(m, supergraph.edges.vec, [])
  {
    NodeIdsListed(supergraph);
    EdgeIdsListed(supergraph);
  }

  /** The edge phase over the edges of a valid supergraph, after a node
      phase that resolved all its nodes. */
  lemma GapEdgesPhase(supergraph: GraphState, m: Mapped, edgesLive: map<EdgeId, LiveSet>)
    requires supergraph.Valid() && Resolved(m, NodeIds(supergraph))
    requires m.graph.nodes.IndexedBy(NodeIdOf) && AdjCovers(m.graph) && m.graph.edges == EmptyFrame<LiveSet>().edges
    ensures GapEdges(m, supergraph.edges.vec, edgesLive).Ok? <==>
      forall id :: id in supergraph.edges.index ==> id in edgesLive
    ensures GapEdges(m, supergraph.edges.vec, edgesLive).Err? ==> GapEdges(m, supergraph.edges.vec, edgesLive).error == OutOfRange
    ensures GapEdges(m, supergraph.edges.vec, edgesLive).Ok? ==>
      EdgePhase(GapEdges(m, supergraph.edges.vec, edgesLive).value, supergraph.edges.vec, edgesLive)
  {
    var es := supergraph.edges.vec;
    assert [] + es == es;
    assert EdgePhase(m, [], edgesLive);
    EdgesCarriable(supergraph, m);
    EdgeIdsLive(supergraph, edgesLive);
    GapEdgesKeep(m, [], es, edgesLive);
  }

  lemma EdgeIdsLive(f: GraphState, edgesLive: map<EdgeId, LiveSet>)
    requires f.Valid()
    ensures (forall i :: 0 <= i < |f.edges.vec| ==> f.edges.vec[i].id in edgesLive) <==>
      (forall id :: id in f.edges.index ==> id in edgesLive)
  {
    EdgeIdsListed(f);
  }

  /** What the node phase leaves for the edge phase. */
  lemma GapNodesDone(supergraph: GraphState, nodesLive: map<NodeId, LiveSet>)
    requires supergraph.Valid()
    requires forall id :: id in nodesLive ==> Increasing(nodesLive[id])
    requires GapNodes(FromGraph(EmptyFrame()), NodeIds(supergraph), nodesLive).Ok?
    ensures var m := GapNodes(FromGraph(EmptyFrame()), NodeIds(supergraph), nodesLive).value;
      && Resolved(m, NodeIds(supergraph)) && NodePhase(m, NodeIds(supergraph), nodesLive)
      && m.graph.nodes.IndexedBy(NodeIdOf) && AdjCovers(m.graph) && m.graph.edges == EmptyFrame<LiveSet>().edges
  {
    GapNodesPhase(supergraph, nodesLive);
    GapNodesAdj(FromGraph(EmptyFrame()), NodeIds(supergraph), nodesLive);
  }

  /** calculate_gap on a valid supergraph with increasing node live times
      fails, with out_of_range, exactly when a node or an edge has no live
      time; otherwise every node resolves to a partition holding its live
      time, nodes sharing a partition never coexist, a partition lives only
      when one of its nodes does, there are no more partitions than nodes,
      and the partition edges are the supergraph edges, in order, between
      the partitions of their endpoints, each with its own live time. */
  lemma GapSpec(supergraph: GraphState, nodesLive: map<NodeId, LiveSet>, edgesLive: map<EdgeId, LiveSet>)
    requires supergraph.Valid()
    requires forall id :: id in nodesLive ==> Increasing(nodesLive[id])
    ensures Gap(supergraph, nodesLive, edgesLive).Ok? <==>
      (forall id :: id in supergraph.nodes.index ==> id in nodesLive) &&
      (forall id :: id in supergraph.edges.index ==> id in edgesLive)
    ensures Gap(supergraph, nodesLive, edgesLive).Err? ==> Gap(supergraph, nodesLive, edgesLive).error == OutOfRange
    ensures Gap(supergraph, nodesLive, edgesLive).Ok? ==>
      && NodePhase(Gap(supergraph, nodesLive, edgesLive).value, NodeIds(supergraph), nodesLive)
      && EdgePhase(Gap(supergraph, nodesLive, edgesLive).value, supergraph.edges.vec, edgesLive)
  {
    var ids := NodeIds(supergraph);
    var m0 := FromGraph(EmptyFrame());
    GapNodesPhase(supergraph, nodesLive);
    GapNodesOk(m0, ids, nodesLive);
    if GapNodes(m0, ids, nodesLive).Ok? {
      var m := GapNodes(m0, ids, nodesLive).value;
      GapNodesDone(supergraph, nodesLive);
      GapEdgesPhase(supergraph, m, edgesLive);
      if GapEdges(m, supergraph.edges.vec, edgesLive).Ok? {
        NodePhaseKept(m, GapEdges(m, supergraph.edges.vec, edgesLive).value, ids, nodesLive);
      }
    }
  }
}
