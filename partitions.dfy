/** Partition nodes and edges: a node or edge that also records the union of
    the live sets of the entities merged into it (dyng/partitions.h). */
module Partitions {
  import opened Identifiers
  import opened Nodes
  import opened Edges
  import opened LiveSets

  type NodePartition = Node<LiveSet>
  type EdgePartition = Edge<LiveSet>

  /** node_partition(id): a node whose live time starts empty. */
  function NewNodePartition(id: NodeId): (p: NodePartition)
    ensures p == NewNode(id, []) && Empty(p.live)
  {
    NewNode(id, [])
  }

  /** edge_partition(id, one, two): an edge whose live time starts empty. */
  function NewEdgePartition(id: EdgeId, one: NodeId, two: NodeId): (p: EdgePartition)
    ensures p == NewEdge(id, one, two, []) && Empty(p.live)
  {
    NewEdge(id, one, two, [])
  }

  /** node_partition::add_live_time: the live time becomes old ∪ s; nothing else changes. */
  function AddNodeLiveTime(p: NodePartition, s: LiveSet): (r: NodePartition)
    ensures forall x :: x in r.live <==> x in p.live || x in s
    ensures r.id == p.id && r.pos == p.pos && r.alpha == p.alpha && r.isNew == p.isNew && r.isOld == p.isOld
  {
    p.(live := Join(p.live, s))
  }

  /** edge_partition::add_live_time: the live time becomes old ∪ s; id and
      endpoints stay. */
  function AddEdgeLiveTime(p: EdgePartition, s: LiveSet): (r: EdgePartition)
    ensures forall x :: x in r.live <==> x in p.live || x in s
    ensures r.id == p.id && r.one == p.one && r.two == p.two
    ensures r.alpha == p.alpha && r.isNew == p.isNew && r.isOld == p.isOld
  {
    p.(live := Join(p.live, s))
  }

  /** Since add_live_time is a union, adding the same set twice is adding it once,
      and the live time stays increasing. */
  lemma AddNodeLiveTimeIdempotent(p: NodePartition, s: LiveSet)
    requires Increasing(p.live) && Increasing(s)
    ensures Increasing(AddNodeLiveTime(p, s).live)
    ensures AddNodeLiveTime(AddNodeLiveTime(p, s), s) == AddNodeLiveTime(p, s)
  {
    JoinKeepsIncreasing(p.live, s);
    JoinIdempotent(p.live, s);
  }

  /** The same for partition edges. */
  lemma AddEdgeLiveTimeIdempotent(p: EdgePartition, s: LiveSet)
    requires Increasing(p.live) && Increasing(s)
    ensures Increasing(AddEdgeLiveTime(p, s).live)
    ensures AddEdgeLiveTime(AddEdgeLiveTime(p, s), s) == AddEdgeLiveTime(p, s)
  {
    JoinKeepsIncreasing(p.live, s);
    JoinIdempotent(p.live, s);
  }
}
