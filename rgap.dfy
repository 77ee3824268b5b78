/** Reduced graph animation partitioning, RGAP (calculate_rgap in
    dyng/foresighted_layout.h): the GAP's edge partitions between the same
    two node partitions are merged greedily, in order, whenever their live
    times are disjoint; a merged edge becomes an alias of the partition it
    joined. Node partitions and node aliases are left as they are. */
module Rgap {
  import opened Wrappers
  import opened Identifiers
  import opened Container
  import opened Edges
  import opened LiveSets
  import opened Partitions
  import opened Graphs
  import opened MappedGraphs
  import opened Supergraphs
  import opened Gap

  /** same_edge: a and b join the same two nodes, in either direction. */
  predicate SameEdge(a: EdgePartition, b: EdgePartition)
  {
    (a.one == b.one && a.two == b.two) || (a.one == b.two && a.two == b.one)
  }

  /** One merge of the inner loop: the edge partition stored at position j
      (current_partition) gains x's live time, and x's id is mapped to it. */
  function Merge(rg: Mapped, j: nat, x: EdgePartition): (r: Mapped)
    requires rg.graph.edges.IndexedBy(EdgeIdOf) && j < |rg.graph.edges.vec|
    ensures r.graph.edges.IndexedBy(EdgeIdOf) && r.graph.nodes == rg.graph.nodes && r.nodeAlias == rg.nodeAlias
    ensures |r.graph.edges.vec| == |rg.graph.edges.vec|
  {
    var cur := rg.graph.edges.vec[j];
    ReplaceIndexed(rg.graph.edges, EdgeIdOf, j, AddEdgeLiveTime(cur, x.live));
    rg.MapEdge(x.id, cur.id).(graph := SetEdge(rg.graph, j, AddEdgeLiveTime(cur, x.live)))
  }

  /** GAP edge k joins the current partition at position j: it is not
      removed yet, joins the same nodes as edge i, and its live time is
      disjoint from the partition's. */
  predicate Mergeable(es: seq<EdgePartition>, i: nat, k: nat, j: nat, rg: Mapped, removed: set<EdgeId>)
    requires i < |es| && k < |es| && j < |rg.graph.edges.vec|
  {
    es[k].id !in removed && SameEdge(es[i], es[k]) && Empty(Intersection(rg.graph.edges.vec[j].live, es[k].live))
  }

  /** The inner loop over the GAP edges from k on, for the edge partition
      founded by GAP edge i and stored at position j: an edge not removed
      yet, between the same nodes as edge i, whose live time is disjoint
      from the current one, is merged and marked removed. */
  function Absorb(es: seq<EdgePartition>, i: nat, k: nat, j: nat, rg: Mapped, removed: set<EdgeId>)
    : (r: (Mapped, set<EdgeId>))
    requires i < |es| && rg.graph.edges.IndexedBy(EdgeIdOf) && j < |rg.graph.edges.vec|
    ensures r.0.graph.edges.IndexedBy(EdgeIdOf) && r.0.graph.nodes == rg.graph.nodes && r.0.nodeAlias == rg.nodeAlias
    ensures |r.0.graph.edges.vec| == |rg.graph.edges.vec|
    decreases |es| - k
  {
    if k >= |es| then (rg, removed)
    else if Mergeable(es, i, k, j, rg, removed) then Absorb(es, i, k + 1, j, Merge(rg, j, es[k]), removed + {es[k].id})
    else Absorb(es, i, k + 1, j, rg, removed)
  }

  /** emplace_edge for a GAP edge, then add_live_time on the partition it
      returns; the result carries that partition's position. */
  function Found(rg: Mapped, e: EdgePartition): (r: Result<(Mapped, nat)>)
    requires rg.graph.edges.IndexedBy(EdgeIdOf)
    ensures r.Ok? ==> r.value.0.graph.edges.IndexedBy(EdgeIdOf) && r.value.1 < |r.value.0.graph.edges.vec|
    ensures r.Ok? ==> r.value.0.graph.nodes == rg.graph.nodes && r.value.0.nodeAlias == rg.nodeAlias
    ensures r.Ok? ==> r.value.0.edgeAlias == rg.edgeAlias
  {
    var p := NewEdgePartition(e.id, e.one, e.two);
    var g :- PushEdge(rg.graph, p);
    PushedEdgeIndexed(rg.graph, p);
    var j := g.edges.index[e.id];
    ReplaceIndexed(g.edges, EdgeIdOf, j, AddEdgeLiveTime(g.edges.vec[j], e.live));
    Ok((rg.(graph := SetEdge(g, j, AddEdgeLiveTime(g.edges.vec[j], e.live))), j))
  }

  /** The outer loop over the GAP edges from i on: an edge not removed yet
      founds a partition and absorbs the later edges it can. emplace_edge
      fails with invalid_graph when an endpoint is not a node partition. */
  function RgapFrom(es: seq<EdgePartition>, i: nat, rg: Mapped, removed: set<EdgeId>): (r: Result<Mapped>)
    requires rg.graph.edges.IndexedBy(EdgeIdOf)
    ensures r.Ok? ==> r.value.graph.edges.IndexedBy(EdgeIdOf)
    ensures r.Ok? ==> r.value.graph.nodes == rg.graph.nodes && r.value.nodeAlias == rg.nodeAlias
    decreases |es| - i
  {
    if i >= |es| then Ok(rg)
    else if es[i].id in removed then RgapFrom(es, i + 1, rg, removed)
    else
      var f :- Found(rg, es[i]);
      var a := Absorb(es, i, i + 1, f.1, f.0, removed);
      RgapFrom(es, i + 1, a.0, a.1)
  }

  /** calculate_rgap: a copy of the GAP without edges or edge aliases, then
      the outer loop over the GAP's edges. */
  function Rgap(gap: Mapped): Result<Mapped>
  {
    RgapFrom(gap.graph.edges.vec, 0, gap.ClearEdges(), {})
  }

  // ------------------------------------------------------------ the loops

  /** The inner loop of calculate_rgap; writing through current_partition
      updates the stored partition at position j. */
  method AbsorbEdges(es: seq<EdgePartition>, i: nat, j: nat, rg: Mapped, removed: set<EdgeId>)
    returns (r: Mapped, gone: set<EdgeId>)
    requires i < |es| && rg.graph.edges.IndexedBy(EdgeIdOf) && j < |rg.graph.edges.vec|
    ensures (r, gone) == Absorb(es, i, i + 1, j, rg, removed)
  {
    r, gone := rg, removed;
    var k := i + 1;
    while k < |es|
      invariant r.graph.edges.IndexedBy(EdgeIdOf) && j < |r.graph.edges.vec|
      invariant Absorb(es, i, k, j, r, gone) == Absorb(es, i, i + 1, j, rg, removed)
      decreases |es| - k
    {
      if es[k].id !in gone && SameEdge(es[i], es[k]) && Empty(Intersection(r.graph.edges.vec[j].live, es[k].live)) {
        assert Mergeable(es, i, k, j, r, gone);
        r := Merge(r, j, es[k]);
        gone := gone + {es[k].id};
      }
      k := k + 1;
    }
  }

  /** calculate_rgap with its two loops. */
  method CalculateRgap(gap: Mapped) returns (r: Result<Mapped>)
    ensures r == Rgap(gap)
  {
    var es := gap.graph.edges.vec;
    var rgap := gap.ClearEdges();
    var removed: set<EdgeId> := {};
    var i := 0;
    while i < |es|
      invariant i <= |es| && rgap.graph.edges.IndexedBy(EdgeIdOf)
      invariant RgapFrom(es, i, rgap, removed) == Rgap(gap)
    {
      if es[i].id !in removed {
        var f := Found(rgap, es[i]);
        if f.Err? {
          return Err(f.error);
        }
        rgap, removed := AbsorbEdges(es, i, f.value.1, f.value.0, removed);
      }
      i := i + 1;
    }
    r := Ok(rgap);
  }

  // ------------------------------------------------- the steps, spelled out

  /** A merge rewrites the live time at position j and records x's alias. */
  lemma MergeForm(rg: Mapped, j: nat, x: EdgePartition)
    requires rg.graph.edges.IndexedBy(EdgeIdOf) && j < |rg.graph.edges.vec| && x.id !in rg.edgeAlias
    ensures var r := Merge(rg, j, x);
      && r.graph.edges.index == rg.graph.edges.index && r.graph.adj == rg.graph.adj
      && r.graph.edges.vec == rg.graph.edges.vec[j := AddEdgeLiveTime(rg.graph.edges.vec[j], x.live)]
      && r.edgeAlias == rg.edgeAlias[x.id := rg.graph.edges.vec[j].id]
  {
  }

  /** Founding a partition for an edge whose id is not stored and whose
      endpoints have adjacency entries appends the edge with its live time. */
  lemma FoundForm(rg: Mapped, e: EdgePartition)
    requires rg.graph.edges.IndexedBy(EdgeIdOf) && e.id !in rg.graph.edges.index
    requires e.one in rg.graph.adj && e.two in rg.graph.adj
    ensures Found(rg, e).Ok?
    ensures var r := Found(rg, e).value.0;
      && Found(rg, e).value.1 == |rg.graph.edges.vec|
      && r.graph.edges.vec == rg.graph.edges.vec + [NewEdge(e.id, e.one, e.two, e.live)]
      && r.graph.edges.index == rg.graph.edges.index[e.id := |rg.graph.edges.vec|]
      && r.edgeAlias == rg.edgeAlias
      && (forall a :: a in r.graph.adj <==> a in rg.graph.adj)
  {
    var p := NewEdgePartition(e.id, e.one, e.two);
    assert Join([], e.live) == e.live;
    var g := PushEdge(rg.graph, p).value;
    assert (rg.graph.edges.vec + [p])[|rg.graph.edges.vec| := AddEdgeLiveTime(p, e.live)]
      == rg.graph.edges.vec + [NewEdge(e.id, e.one, e.two, e.live)];
  }

  // ------------------------------------------------------ what the loops keep

  /** The GAP edges have distinct ids and increasing live times. */
  ghost predicate GapEdgesWellFormed(es: seq<EdgePartition>)
  {
    && (forall k1, k2 :: 0 <= k1 < k2 < |es| ==> es[k1].id != es[k2].id)
    && (forall k :: 0 <= k < |es| ==> Increasing(es[k].live))
  }

  /** The live time of the edge partition stored under p; empty when there
      is none. */
  ghost function EdgeLive(rg: Mapped, p: EdgeId): LiveSet
  {
    if p in rg.graph.edges.index && rg.graph.edges.index[p] < |rg.graph.edges.vec|
    then rg.graph.edges.vec[rg.graph.edges.index[p]].live else []
  }

  /** An edge partition is stored under p and joins the nodes e joins. */
  ghost predicate Joins(rg: Mapped, p: EdgeId, e: EdgePartition)
  {
    && p in rg.graph.edges.index && rg.graph.edges.index[p] < |rg.graph.edges.vec|
    && SameEdge(e, rg.graph.edges.vec[rg.graph.edges.index[p]])
  }

  /** The bookkeeping after the GAP edges before b: the removed edges are
      the aliased ones, stored partitions are edges before b that were not
      removed, at most one per edge, with increasing live times, and every
      endpoint of a GAP edge has an adjacency entry. */
  ghost predicate Booked(es: seq<EdgePartition>, rg: Mapped, removed: set<EdgeId>, b: nat)
  {
    && rg.graph.edges.IndexedBy(EdgeIdOf)
    && (forall id :: id in rg.edgeAlias <==> id in removed)
    && (forall p :: p in rg.graph.edges.index ==> p !in removed)
    && (forall p :: p in rg.graph.edges.index ==> exists k :: 0 <= k < b && k < |es| && es[k].id == p)
    && |rg.graph.edges.vec| <= b
    && (forall q :: 0 <= q < |rg.graph.edges.vec| ==> Increasing(rg.graph.edges.vec[q].live))
    && (forall k :: 0 <= k < |es| ==> es[k].one in rg.graph.adj && es[k].two in rg.graph.adj)
  }

  /** Every GAP edge dealt with (before b, or removed) resolves to a stored
      partition between the same nodes whose live time includes its own. */
  ghost predicate Resolved(es: seq<EdgePartition>, rg: Mapped, removed: set<EdgeId>, b: nat)
  {
    forall k :: 0 <= k < |es| && (k < b || es[k].id in removed) ==>
      && Joins(rg, rg.EdgeTarget(es[k].id), es[k])
      && forall t :: t in es[k].live ==> t in EdgeLive(rg, rg.EdgeTarget(es[k].id))
  }

  /** GAP edges dealt with that resolve to the same partition never live at
      the same time. */
  ghost predicate Apart(es: seq<EdgePartition>, rg: Mapped, removed: set<EdgeId>, b: nat)
  {
    forall k1, k2, t ::
      (0 <= k1 < |es| && 0 <= k2 < |es| && k1 != k2
       && (k1 < b || es[k1].id in removed) && (k2 < b || es[k2].id in removed)
       && rg.EdgeTarget(es[k1].id) == rg.EdgeTarget(es[k2].id) && t in es[k1].live) ==> t !in es[k2].live
  }

  /** A stored partition lives only when some GAP edge resolving to it
      does. */
  ghost predicate Gathered(es: seq<EdgePartition>, rg: Mapped, removed: set<EdgeId>, b: nat)
  {
    forall p, t :: p in rg.graph.edges.index && t in EdgeLive(rg, p) ==>
      exists k :: 0 <= k < |es| && (k < b || es[k].id in removed) && rg.EdgeTarget(es[k].id) == p && t in es[k].live
  }

  /** Everything the outer loop keeps. */
  ghost predicate Kept(es: seq<EdgePartition>, rg: Mapped, removed: set<EdgeId>, b: nat)
  {
    Booked(es, rg, removed, b) && Resolved(es, rg, removed, b) && Apart(es, rg, removed, b) && Gathered(es, rg, removed, b)
  }

  // ------------------------------------------------------ founding a partition

  /** The edge at the boundary is not stored yet. */
  lemma FreshAt(es: seq<EdgePartition>, rg: Mapped, removed: set<EdgeId>, i: nat)
    requires GapEdgesWellFormed(es) && Booked(es, rg, removed, i) && i < |es|
    ensures es[i].id !in rg.graph.edges.index
  {
  }

  /** How founding a partition for GAP edge i (not removed) changes the
      state: the edge is appended with its own live time. */
  ghost predicate Appended(rg: Mapped, r: Mapped, x: EdgePartition)
  {
    && r.graph.edges.IndexedBy(EdgeIdOf)
    && r.graph.edges.vec == rg.graph.edges.vec + [NewEdge(x.id, x.one, x.two, x.live)]
    && r.graph.edges.index == rg.graph.edges.index[x.id := |rg.graph.edges.vec|]
    && r.edgeAlias == rg.edgeAlias
    && (forall a :: a in r.graph.adj <==> a in rg.graph.adj)
  }

  lemma BookedFound(es: seq<EdgePartition>, rg: Mapped, r: Mapped, removed: set<EdgeId>, i: nat)
    requires GapEdgesWellFormed(es) && Booked(es, rg, removed, i) && i < |es| && es[i].id !in removed
    requires es[i].id !in rg.graph.edges.index && Appended(rg, r, es[i])
    ensures Booked(es, r, removed, i + 1)
  {
    forall p | p in r.graph.edges.index ensures exists k :: 0 <= k < i + 1 && k < |es| && es[k].id == p {
      if p != es[i].id {
        var k :| 0 <= k < i && k < |es| && es[k].id == p;
      }
    }
    forall q | 0 <= q < |r.graph.edges.vec| ensures Increasing(r.graph.edges.vec[q].live) {
      if q < |rg.graph.edges.vec| {
        assert r.graph.edges.vec[q] == rg.graph.edges.vec[q];
      }
    }
  }

  /** Stored partitions other than the new one are unchanged. */
  lemma FoundElsewhere(rg: Mapped, r: Mapped, x: EdgePartition, p: EdgeId)
    requires rg.graph.edges.IndexedBy(EdgeIdOf) && x.id !in rg.graph.edges.index && Appended(rg, r, x)
    requires p != x.id
    ensures EdgeLive(r, p) == EdgeLive(rg, p)
    ensures forall e :: Joins(r, p, e) <==> Joins(rg, p, e)
    ensures r.EdgeTarget(p) == rg.EdgeTarget(p)
  {
    if p in rg.graph.edges.index {
      assert r.graph.edges.vec[rg.graph.edges.index[p]] == rg.graph.edges.vec[rg.graph.edges.index[p]];
    }
  }

  lemma ResolvedFound(es: seq<EdgePartition>, rg: Mapped, r: Mapped, removed: set<EdgeId>, i: nat)
    requires GapEdgesWellFormed(es) && i < |es| && es[i].id !in removed
    requires rg.graph.edges.IndexedBy(EdgeIdOf) && (forall id :: id in rg.edgeAlias <==> id in removed)
    requires Resolved(es, rg, removed, i)
    requires es[i].id !in rg.graph.edges.index && Appended(rg, r, es[i])
    ensures Resolved(es, r, removed, i + 1)
  {
    var x := es[i];
    forall k | 0 <= k < |es| && (k < i + 1 || es[k].id in removed)
      ensures Joins(r, r.EdgeTarget(es[k].id), es[k])
      ensures forall t :: t in es[k].live ==> t in EdgeLive(r, r.EdgeTarget(es[k].id))
    {
      if k == i {
        assert r.EdgeTarget(x.id) == x.id;
        assert r.graph.edges.vec[r.graph.edges.index[x.id]] == NewEdge(x.id, x.one, x.two, x.live);
      } else {
        var p := rg.EdgeTarget(es[k].id);
        assert p in rg.graph.edges.index;
        FoundElsewhere(rg, r, x, es[k].id);
        FoundElsewhere(rg, r, x, p);
      }
    }
  }

  /** The edges dealt with before GAP edge i keep their targets, which are
      all older than edge i's new partition. */
  lemma FoundTargets(es: seq<EdgePartition>, rg: Mapped, r: Mapped, removed: set<EdgeId>, i: nat)
    requires GapEdgesWellFormed(es) && i < |es| && es[i].id !in removed
    requires rg.graph.edges.IndexedBy(EdgeIdOf) && (forall id :: id in rg.edgeAlias <==> id in removed)
    requires Resolved(es, rg, removed, i)
    requires es[i].id !in rg.graph.edges.index && Appended(rg, r, es[i])
    ensures r.EdgeTarget(es[i].id) == es[i].id
    ensures forall k :: 0 <= k < |es| && k != i && (k < i || es[k].id in removed) ==>
      r.EdgeTarget(es[k].id) == rg.EdgeTarget(es[k].id) && r.EdgeTarget(es[k].id) != es[i].id
  {
    forall k | 0 <= k < |es| && k != i && (k < i || es[k].id in removed)
      ensures r.EdgeTarget(es[k].id) == rg.EdgeTarget(es[k].id) && r.EdgeTarget(es[k].id) != es[i].id
    {
      assert Joins(rg, rg.EdgeTarget(es[k].id), es[k]);
      FoundElsewhere(rg, r, es[i], es[k].id);
    }
  }

  lemma ApartFound(es: seq<EdgePartition>, rg: Mapped, r: Mapped, removed: set<EdgeId>, i: nat)
    requires GapEdgesWellFormed(es) && i < |es| && es[i].id !in removed
    requires rg.graph.edges.IndexedBy(EdgeIdOf) && (forall id :: id in rg.edgeAlias <==> id in removed)
    requires Resolved(es, rg, removed, i) && Apart(es, rg, removed, i)
    requires es[i].id !in rg.graph.edges.index && Appended(rg, r, es[i])
    ensures Apart(es, r, removed, i + 1)
  {
    FoundTargets(es, rg, r, removed, i);
  }

  lemma GatheredFound(es: seq<EdgePartition>, rg: Mapped, r: Mapped, removed: set<EdgeId>, i: nat)
    requires GapEdgesWellFormed(es) && i < |es| && es[i].id !in removed
    requires rg.graph.edges.IndexedBy(EdgeIdOf) && (forall id :: id in rg.edgeAlias <==> id in removed)
    requires Gathered(es, rg, removed, i)
    requires es[i].id !in rg.graph.edges.index && Appended(rg, r, es[i])
    ensures Gathered(es, r, removed, i + 1)
  {
    var x := es[i];
    forall p, t | p in r.graph.edges.index && t in EdgeLive(r, p)
      ensures exists k :: 0 <= k < |es| && (k < i + 1 || es[k].id in removed) && r.EdgeTarget(es[k].id) == p && t in es[k].live
    {
      if p == x.id {
        assert r.graph.edges.vec[r.graph.edges.index[x.id]] == NewEdge(x.id, x.one, x.two, x.live);
        assert r.EdgeTarget(x.id) == x.id;
      } else {
        FoundElsewhere(rg, r, x, p);
        var k :| 0 <= k < |es| && (k < i || es[k].id in removed) && rg.EdgeTarget(es[k].id) == p && t in es[k].live;
        assert es[k].id != x.id;
        FoundElsewhere(rg, r, x, es[k].id);
      }
    }
  }

  // ------------------------------------------------------ merging an edge

  /** How merging GAP edge x into the partition at position j changes the
      state. */
  ghost predicate Merged(rg: Mapped, r: Mapped, j: nat, x: EdgePartition)
  {
    && r.graph.edges.IndexedBy(EdgeIdOf)
    && r.graph.edges.index == rg.graph.edges.index && r.graph.adj == rg.graph.adj
    && j < |rg.graph.edges.vec|
    && r.graph.edges.vec == rg.graph.edges.vec[j := AddEdgeLiveTime(rg.graph.edges.vec[j], x.live)]
    && r.edgeAlias == rg.edgeAlias[x.id := rg.graph.edges.vec[j].id]
  }

  /** The state of the inner loop for GAP edge i, whose partition is stored
      at position j. */
  ghost predicate Current(es: seq<EdgePartition>, rg: Mapped, removed: set<EdgeId>, i: nat, j: nat)
  {
    && i < |es| && es[i].id !in removed
    && es[i].id in rg.graph.edges.index && rg.graph.edges.index[es[i].id] == j && j < |rg.graph.edges.vec|
  }

  /** A GAP edge after i is not stored. */
  lemma FreshLater(es: seq<EdgePartition>, rg: Mapped, removed: set<EdgeId>, i: nat, k: nat)
    requires GapEdgesWellFormed(es) && Booked(es, rg, removed, i + 1) && i < k < |es|
    ensures es[k].id !in rg.graph.edges.index
  {
  }

  lemma MergeElsewhere(rg: Mapped, r: Mapped, j: nat, x: EdgePartition, p: EdgeId)
    requires rg.graph.edges.IndexedBy(EdgeIdOf) && Merged(rg, r, j, x)
    ensures p != rg.graph.edges.vec[j].id ==> EdgeLive(r, p) == EdgeLive(rg, p)
    ensures p == rg.graph.edges.vec[j].id ==> forall t :: t in EdgeLive(r, p) <==> t in EdgeLive(rg, p) || t in x.live
    ensures forall e :: Joins(r, p, e) <==> Joins(rg, p, e)
  {
    if p in rg.graph.edges.index {
      var q := rg.graph.edges.index[p];
      if q != j {
        assert r.graph.edges.vec[q] == rg.graph.edges.vec[q];
      }
    }
  }

  lemma BookedMerge(es: seq<EdgePartition>, rg: Mapped, r: Mapped, removed: set<EdgeId>, i: nat, j: nat, k: nat)
    requires GapEdgesWellFormed(es) && Booked(es, rg, removed, i + 1) && i < k < |es| && es[k].id !in removed
    requires Merged(rg, r, j, es[k])
    ensures Booked(es, r, removed + {es[k].id}, i + 1)
  {
    FreshLater(es, rg, removed, i, k);
    var cur := rg.graph.edges.vec[j];
    JoinKeepsIncreasing(cur.live, es[k].live);
    forall q | 0 <= q < |r.graph.edges.vec| ensures Increasing(r.graph.edges.vec[q].live) {
      if q != j {
        assert r.graph.edges.vec[q] == rg.graph.edges.vec[q];
      }
    }
  }

  /** A merge maps the merged edge to the current partition and leaves
      every other target alone. */
  lemma MergeTargets(es: seq<EdgePartition>, rg: Mapped, r: Mapped, removed: set<EdgeId>, i: nat, j: nat, k: nat)
    requires Current(es, rg, removed, i, j) && k < |es|
    requires rg.graph.edges.IndexedBy(EdgeIdOf) && (forall id :: id in rg.edgeAlias <==> id in removed)
    requires Merged(rg, r, j, es[k])
    ensures rg.EdgeTarget(es[i].id) == es[i].id && rg.graph.edges.vec[j].id == es[i].id
    ensures r.EdgeTarget(es[k].id) == es[i].id
    ensures forall id :: id != es[k].id ==> r.EdgeTarget(id) == rg.EdgeTarget(id)
  {
  }

  /** Edge partitions that join the same nodes as a third one join the same
      nodes as each other. */
  lemma SameEdgeThrough(a: EdgePartition, b: EdgePartition, c: EdgePartition)
    requires SameEdge(a, b) && SameEdge(b, c)
    ensures SameEdge(a, c)
  {
  }

  lemma ResolvedMerge(es: seq<EdgePartition>, rg: Mapped, r: Mapped, removed: set<EdgeId>, i: nat, j: nat, k: nat)
    requires GapEdgesWellFormed(es) && Current(es, rg, removed, i, j) && i < k < |es| && es[k].id !in removed
    requires SameEdge(es[i], es[k])
    requires rg.graph.edges.IndexedBy(EdgeIdOf) && (forall id :: id in rg.edgeAlias <==> id in removed)
    requires Resolved(es, rg, removed, i + 1)
    requires Merged(rg, r, j, es[k])
    ensures Resolved(es, r, removed + {es[k].id}, i + 1)
  {
    var x := es[k];
    var P := es[i].id;
    MergeTargets(es, rg, r, removed, i, j, k);
    forall q | 0 <= q < |es| && (q < i + 1 || es[q].id in removed + {x.id})
      ensures Joins(r, r.EdgeTarget(es[q].id), es[q])
      ensures forall t :: t in es[q].live ==> t in EdgeLive(r, r.EdgeTarget(es[q].id))
    {
      if q == k {
        assert Joins(rg, P, es[i]);
        SameEdgeThrough(x, es[i], rg.graph.edges.vec[j]);
        MergeElsewhere(rg, r, j, x, P);
      } else {
        var p := rg.EdgeTarget(es[q].id);
        MergeElsewhere(rg, r, j, x, p);
      }
    }
  }

  lemma ApartMerge(es: seq<EdgePartition>, rg: Mapped, r: Mapped, removed: set<EdgeId>, i: nat, j: nat, k: nat)
    requires GapEdgesWellFormed(es) && Current(es, rg, removed, i, j) && i < k < |es| && es[k].id !in removed
    requires forall t :: t in EdgeLive(rg, es[i].id) ==> t !in es[k].live
    requires rg.graph.edges.IndexedBy(EdgeIdOf) && (forall id :: id in rg.edgeAlias <==> id in removed)
    requires Resolved(es, rg, removed, i + 1) && Apart(es, rg, removed, i + 1)
    requires Merged(rg, r, j, es[k])
    ensures Apart(es, r, removed + {es[k].id}, i + 1)
  {
    MergeTargets(es, rg, r, removed, i, j, k);
    forall q | 0 <= q < |es| && (q < i + 1 || es[q].id in removed) && r.EdgeTarget(es[q].id) == es[i].id
      ensures forall t :: t in es[q].live ==> t !in es[k].live
    {
      assert es[q].id != es[k].id;
    }
  }

  lemma GatheredMerge(es: seq<EdgePartition>, rg: Mapped, r: Mapped, removed: set<EdgeId>, i: nat, j: nat, k: nat)
    requires GapEdgesWellFormed(es) && Current(es, rg, removed, i, j) && i < k < |es| && es[k].id !in removed
    requires rg.graph.edges.IndexedBy(EdgeIdOf) && (forall id :: id in rg.edgeAlias <==> id in removed)
    requires Gathered(es, rg, removed, i + 1)
    requires Merged(rg, r, j, es[k])
    ensures Gathered(es, r, removed + {es[k].id}, i + 1)
  {
    var x := es[k];
    MergeTargets(es, rg, r, removed, i, j, k);
    forall p, t | p in r.graph.edges.index && t in EdgeLive(r, p)
      ensures exists q :: 0 <= q < |es| && (q < i + 1 || es[q].id in removed + {x.id}) && r.EdgeTarget(es[q].id) == p && t in es[q].live
    {
      MergeElsewhere(rg, r, j, x, p);
      if p == es[i].id && t in x.live {
        assert r.EdgeTarget(es[k].id) == p;
      } else {
        var q :| 0 <= q < |es| && (q < i + 1 || es[q].id in removed) && rg.EdgeTarget(es[q].id) == p && t in es[q].live;
        assert es[q].id != x.id;
      }
    }
  }

  // ------------------------------------------------------ the loops keep Kept

  /** Founding a partition for GAP edge i, not removed, keeps the invariant
      and makes it the current partition. */
  lemma FoundKeeps(es: seq<EdgePartition>, rg: Mapped, removed: set<EdgeId>, i: nat)
    requires GapEdgesWellFormed(es) && i < |es| && es[i].id !in removed && Kept(es, rg, removed, i)
    ensures Found(rg, es[i]).Ok?
    ensures Kept(es, Found(rg, es[i]).value.0, removed, i + 1)
    ensures Current(es, Found(rg, es[i]).value.0, removed, i, Found(rg, es[i]).value.1)
  {
    FreshAt(es, rg, removed, i);
    FoundForm(rg, es[i]);
    var r := Found(rg, es[i]).value.0;
    assert Appended(rg, r, es[i]);
    BookedFound(es, rg, r, removed, i);
    ResolvedFound(es, rg, r, removed, i);
    ApartFound(es, rg, r, removed, i);
    GatheredFound(es, rg, r, removed, i);
  }

  /** Merging GAP edge k into the current partition keeps the invariant. */
  lemma MergeKeeps(es: seq<EdgePartition>, rg: Mapped, removed: set<EdgeId>, i: nat, j: nat, k: nat)
    requires GapEdgesWellFormed(es) && Kept(es, rg, removed, i + 1) && Current(es, rg, removed, i, j)
    requires i < k < |es| && es[k].id !in removed && SameEdge(es[i], es[k])
    requires Empty(Intersection(rg.graph.edges.vec[j].live, es[k].live))
    ensures Kept(es, Merge(rg, j, es[k]), removed + {es[k].id}, i + 1)
    ensures Current(es, Merge(rg, j, es[k]), removed + {es[k].id}, i, j)
  {
    MergeForm(rg, j, es[k]);
    var r := Merge(rg, j, es[k]);
    assert Merged(rg, r, j, es[k]);
    DisjointIffNoSharedTime(rg.graph.edges.vec[j].live, es[k].live);
    assert EdgeLive(rg, es[i].id) == rg.graph.edges.vec[j].live;
    BookedMerge(es, rg, r, removed, i, j, k);
    ResolvedMerge(es, rg, r, removed, i, j, k);
    ApartMerge(es, rg, r, removed, i, j, k);
    GatheredMerge(es, rg, r, removed, i, j, k);
  }

  /** A removed GAP edge at the boundary was dealt with already. */
  lemma SkipKeeps(es: seq<EdgePartition>, rg: Mapped, removed: set<EdgeId>, b: nat)
    requires b < |es| && es[b].id in removed && Kept(es, rg, removed, b)
    ensures Kept(es, rg, removed, b + 1)
  {
  }

  /** One step of the inner loop, unfolded. */
  lemma AbsorbStep(es: seq<EdgePartition>, i: nat, k: nat, j: nat, rg: Mapped, removed: set<EdgeId>)
    requires i < |es| && rg.graph.edges.IndexedBy(EdgeIdOf) && j < |rg.graph.edges.vec| && k < |es|
    ensures Absorb(es, i, k, j, rg, removed) ==
      if Mergeable(es, i, k, j, rg, removed) then Absorb(es, i, k + 1, j, Merge(rg, j, es[k]), removed + {es[k].id})
      else Absorb(es, i, k + 1, j, rg, removed)
  {
  }

  /** One step of the inner loop keeps the invariant. */
  lemma AbsorbNext(es: seq<EdgePartition>, i: nat, k: nat, j: nat, rg: Mapped, removed: set<EdgeId>)
    returns (rg': Mapped, removed': set<EdgeId>)
    requires GapEdgesWellFormed(es) && Kept(es, rg, removed, i + 1) && Current(es, rg, removed, i, j) && i < k < |es|
    requires rg.graph.edges.IndexedBy(EdgeIdOf)
    ensures Kept(es, rg', removed', i + 1) && Current(es, rg', removed', i, j) && rg'.graph.edges.IndexedBy(EdgeIdOf)
    ensures Absorb(es, i, k, j, rg, removed) == Absorb(es, i, k + 1, j, rg', removed')
  {
    AbsorbStep(es, i, k, j, rg, removed);
    rg', removed' := rg, removed;
    if Mergeable(es, i, k, j, rg, removed) {
      MergeKeeps(es, rg, removed, i, j, k);
      rg', removed' := Merge(rg, j, es[k]), removed + {es[k].id};
    }
  }

  /** The inner loop keeps the invariant; r is its result. */
  lemma {:induction false} AbsorbKeeps(es: seq<EdgePartition>, i: nat, k: nat, j: nat, rg: Mapped, removed: set<EdgeId>,
                                       r: (Mapped, set<EdgeId>))
    requires GapEdgesWellFormed(es) && Kept(es, rg, removed, i + 1) && Current(es, rg, removed, i, j) && i < k
    requires rg.graph.edges.IndexedBy(EdgeIdOf) && r == Absorb(es, i, k, j, rg, removed)
    ensures Kept(es, r.0, r.1, i + 1)
    decreases |es| - k
  {
    if k < |es| {
      var rg', removed' := AbsorbNext(es, i, k, j, rg, removed);
      AbsorbKeeps(es, i, k + 1, j, rg', removed', r);
    }
  }

  /** One step of the outer loop keeps the invariant and cannot fail. */
  lemma RgapNext(es: seq<EdgePartition>, b: nat, rg: Mapped, removed: set<EdgeId>)
    returns (rg': Mapped, removed': set<EdgeId>)
    requires GapEdgesWellFormed(es) && b < |es| && Kept(es, rg, removed, b)
    requires rg.graph.edges.IndexedBy(EdgeIdOf)
    ensures Kept(es, rg', removed', b + 1) && rg'.graph.edges.IndexedBy(EdgeIdOf)
    ensures RgapFrom(es, b, rg, removed) == RgapFrom(es, b + 1, rg', removed')
  {
    if es[b].id in removed {
      SkipKeeps(es, rg, removed, b);
      rg', removed' := rg, removed;
    } else {
      FoundKeeps(es, rg, removed, b);
      var f := Found(rg, es[b]).value;
      var a := Absorb(es, b, b + 1, f.1, f.0, removed);
      AbsorbKeeps(es, b, b + 1, f.1, f.0, removed, a);
      rg', removed' := a.0, a.1;
    }
  }

  /** The outer loop keeps the invariant and succeeds; r is its result. */
  lemma {:induction false} RgapFromKeeps(es: seq<EdgePartition>, b: nat, rg: Mapped, removed: set<EdgeId>, r: Result<Mapped>)
    requires GapEdgesWellFormed(es) && b <= |es| && Kept(es, rg, removed, b)
    requires rg.graph.edges.IndexedBy(EdgeIdOf) && r == RgapFrom(es, b, rg, removed)
    ensures r.Ok? && Kept(es, r.value, r.value.edgeAlias.Keys, |es|)
    decreases |es| - b
  {
    if b == |es| {
      assert removed == rg.edgeAlias.Keys;
    } else {
      var rg', removed' := RgapNext(es, b, rg, removed);
      RgapFromKeeps(es, b + 1, rg', removed', r);
    }
  }

  // ------------------------------------------------------------ the theorem

  /** The copy without edges keeps the invariant before the first GAP edge. */
  lemma InitKept(es: seq<EdgePartition>, gap: Mapped)
    requires forall k :: 0 <= k < |es| ==> es[k].one in gap.graph.adj && es[k].two in gap.graph.adj
    ensures Kept(es, gap.ClearEdges(), {}, 0)
  {
  }

  /** calculate_rgap never fails on a GAP whose edges have distinct ids,
      increasing live times and endpoints with adjacency entries; it keeps
      the node partitions and node aliases, and afterwards every GAP edge
      resolves (directly or through its alias) to an RGAP edge between the
      same node partitions whose live time includes its own, GAP edges
      resolving to the same RGAP edge never live at the same time, an RGAP
      edge lives only when one of its GAP edges does, and there are at most
      as many RGAP edges as GAP edges. */
  lemma RgapSpec(gap: Mapped)
    requires GapEdgesWellFormed(gap.graph.edges.vec)
    requires forall k :: 0 <= k < |gap.graph.edges.vec| ==>
      gap.graph.edges.vec[k].one in gap.graph.adj && gap.graph.edges.vec[k].two in gap.graph.adj
    ensures Rgap(gap).Ok?
    ensures Rgap(gap).value.graph.nodes == gap.graph.nodes && Rgap(gap).value.nodeAlias == gap.nodeAlias
    ensures Kept(gap.graph.edges.vec, Rgap(gap).value, Rgap(gap).value.edgeAlias.Keys, |gap.graph.edges.vec|)
  {
    var es := gap.graph.edges.vec;
    InitKept(es, gap);
    RgapFromKeeps(es, 0, gap.ClearEdges(), {}, Rgap(gap));
  }

  /** Carriers of a valid supergraph's edges, over node partitions that
      every node id resolves to, have distinct ids, increasing live times and
      endpoints with adjacency entries. */
  lemma CarriersReady(supergraph: GraphState, m: Mapped, edgesLive: map<EdgeId, LiveSet>)
    requires supergraph.Valid()
    requires forall id :: id in edgesLive ==> Increasing(edgesLive[id])
    requires Gap.Resolved(m, NodeIds(supergraph)) && AdjCovers(m.graph)
    requires |m.graph.edges.vec| == |supergraph.edges.vec|
    requires forall i :: 0 <= i < |supergraph.edges.vec| ==>
      && supergraph.edges.vec[i].id in edgesLive
      && m.graph.edges.vec[i] == Carrier(m, supergraph.edges.vec[i], edgesLive[supergraph.edges.vec[i].id])
    ensures GapEdgesWellFormed(m.graph.edges.vec)
    ensures forall k :: 0 <= k < |m.graph.edges.vec| ==>
      m.graph.edges.vec[k].one in m.graph.adj && m.graph.edges.vec[k].two in m.graph.adj
  {
    var es := m.graph.edges.vec;
    EdgeIdsListed(supergraph);
    NodeIdsListed(supergraph);
    forall k | 0 <= k < |es| ensures es[k].one in m.graph.adj && es[k].two in m.graph.adj {
      var e := supergraph.edges.vec[k];
      assert e.one in NodeIds(supergraph) && e.two in NodeIds(supergraph);
    }
  }

  /** The GAP computed from a valid supergraph in which every node and edge
      has a live time, with increasing live times, meets RgapSpec's
      requirements: calculate_gap followed by calculate_rgap succeeds. */
  lemma GapFeedsRgap(supergraph: GraphState, nodesLive: map<NodeId, LiveSet>, edgesLive: map<EdgeId, LiveSet>)
    requires supergraph.Valid()
    requires forall id :: id in nodesLive ==> Increasing(nodesLive[id])
    requires forall id :: id in edgesLive ==> Increasing(edgesLive[id])
    requires forall id :: id in supergraph.nodes.index ==> id in nodesLive
    requires forall id :: id in supergraph.edges.index ==> id in edgesLive
    ensures Gap.Gap(supergraph, nodesLive, edgesLive).Ok?
    ensures GapEdgesWellFormed(Gap.Gap(supergraph, nodesLive, edgesLive).value.graph.edges.vec)
    ensures Rgap(Gap.Gap(supergraph, nodesLive, edgesLive).value).Ok?
    ensures Rgap(Gap.Gap(supergraph, nodesLive, edgesLive).value).value.graph.nodes == Gap.Gap(supergraph, nodesLive, edgesLive).value.graph.nodes
    ensures Rgap(Gap.Gap(supergraph, nodesLive, edgesLive).value).value.nodeAlias == Gap.Gap(supergraph, nodesLive, edgesLive).value.nodeAlias
  {
    GapSpec(supergraph, nodesLive, edgesLive);
    var m := Gap.Gap(supergraph, nodesLive, edgesLive).value;
    CarriersReady(supergraph, m, edgesLive);
    RgapSpec(m);
  }
}
