/** The foresighted layout with tolerance (dyng/foresighted_layout.h): one
    static layout of the RGAP of the whole animation fixes every node's
    position in every frame; then, round by round, each frame may take the
    result of one more static-layout iteration on it, as long as it stays
    close enough to its neighbouring frames; finally the positions are
    scaled to the canvas and moved to its centre. */
module Foresighted {
  import opened Wrappers
  import opened Identifiers
  import opened LiveSets
  import opened Container
  import opened Nodes
  import opened Graphs
  import opened MappedGraphs
  import opened Supergraphs
  import opened Gap
  import opened Rgap
  import FR = FruchtermanReingold
  import OptimizationGrids

  // ------------------------------------------------------------ positions

  /** The positions of a frame's nodes, in vector order. */
  function Positions<L>(f: Frame<L>): (ps: seq<Coords>)
    ensures |ps| == |f.nodes.vec|
  {
    seq(|f.nodes.vec|, j requires 0 <= j < |f.nodes.vec| => f.nodes.vec[j].pos)
  }

  /** f with node j moved to ps[j]. */
  function WithPositions<L>(f: Frame<L>, ps: seq<Coords>): Frame<L>
    requires |ps| == |f.nodes.vec|
  {
    f.(nodes := Container(seq(|ps|, j requires 0 <= j < |ps| => f.nodes.vec[j].SetPos(ps[j])), f.nodes.index))
  }

  /** Writing positions moves the nodes there and changes nothing else: ids,
      flags, the index, the edges and the adjacency stay, and so does
      validity. */
  lemma WithPositionsSpec<L>(f: Frame<L>, ps: seq<Coords>)
    requires |ps| == |f.nodes.vec|
    ensures Positions(WithPositions(f, ps)) == ps
    ensures |WithPositions(f, ps).nodes.vec| == |f.nodes.vec|
    ensures forall j :: 0 <= j < |ps| ==> WithPositions(f, ps).nodes.vec[j] == f.nodes.vec[j].(pos := ps[j])
    ensures WithPositions(f, ps).nodes.index == f.nodes.index
    ensures WithPositions(f, ps).edges == f.edges && WithPositions(f, ps).adj == f.adj
    ensures f.Valid() ==> WithPositions(f, ps).Valid()
  {
    var g := WithPositions(f, ps);
    if f.Valid() {
      PayloadsValid(f, g.nodes.vec, f.edges.vec);
      assert f.edges == Container(f.edges.vec, f.edges.index);
    }
  }

  /** Writing back the positions a frame already has changes nothing. */
  lemma WithOwnPositions<L>(f: Frame<L>)
    ensures WithPositions(f, Positions(f)) == f
  {
    var g := WithPositions(f, Positions(f));
    assert g.nodes.vec == f.nodes.vec;
  }

  /** Positions written one after the other: only the last write counts. */
  lemma WithPositionsTwice<L>(f: Frame<L>, ps: seq<Coords>, qs: seq<Coords>)
    requires |ps| == |qs| == |f.nodes.vec|
    ensures WithPositions(WithPositions(f, ps), qs) == WithPositions(f, qs)
  {
    WithPositionsSpec(f, ps);
    assert WithPositions(WithPositions(f, ps), qs).nodes.vec == WithPositions(f, qs).nodes.vec;
  }

  // ------------------------------------------------------- rescale and move

  /** Every position multiplied by (a, b). */
  function Scaled(ps: seq<Coords>, a: real, b: real): (r: seq<Coords>)
    ensures |r| == |ps|
  {
    seq(|ps|, j requires 0 <= j < |ps| => Coords(ps[j].x * a, ps[j].y * b))
  }

  /** Every position shifted by (dx, dy). */
  function Shifted(ps: seq<Coords>, dx: real, dy: real): (r: seq<Coords>)
    ensures |r| == |ps|
  {
    seq(|ps|, j requires 0 <= j < |ps| => Coords(ps[j].x + dx, ps[j].y + dy))
  }

  /** rescale: every node of the frame is scaled from the source canvas to
      the destination canvas, by (dst_width / src_width, dst_height /
      src_height). */
  method Rescale(f: GraphState, srcWidth: real, srcHeight: real, dstWidth: real, dstHeight: real) returns (g: GraphState)
    requires srcWidth != 0.0 && srcHeight != 0.0
    ensures g == WithPositions(f, Scaled(Positions(f), dstWidth / srcWidth, dstHeight / srcHeight))
  {
    var wCoeff := dstWidth / srcWidth;
    var hCoeff := dstHeight / srcHeight;
    var ns := f.nodes.vec;
    var j := 0;
    while j < |ns|
      invariant j <= |ns| == |f.nodes.vec|
      invariant forall q :: 0 <= q < |ns| ==>
        ns[q] == if q < j then f.nodes.vec[q].SetPos(Coords(f.nodes.vec[q].pos.x * wCoeff, f.nodes.vec[q].pos.y * hCoeff)) else f.nodes.vec[q]
    {
      ns := ns[j := ns[j].SetPos(Coords(ns[j].pos.x * wCoeff, ns[j].pos.y * hCoeff))];
      j := j + 1;
    }
    g := f.(nodes := Container(ns, f.nodes.index));
    forall q | 0 <= q < |ns| ensures Scaled(Positions(f), wCoeff, hCoeff)[q] == Coords(f.nodes.vec[q].pos.x * wCoeff, f.nodes.vec[q].pos.y * hCoeff) {
      assert Positions(f)[q] == f.nodes.vec[q].pos;
    }
    assert g.nodes.vec == WithPositions(f, Scaled(Positions(f), wCoeff, hCoeff)).nodes.vec;
  }

  /** move: every node of the frame is shifted by (dst_x - src_x, dst_y -
      src_y). */
  method Move(f: GraphState, srcX: real, srcY: real, dstX: real, dstY: real) returns (g: GraphState)
    ensures g == WithPositions(f, Shifted(Positions(f), dstX - srcX, dstY - srcY))
  {
    var xDiff := dstX - srcX;
    var yDiff := dstY - srcY;
    var ns := f.nodes.vec;
    var j := 0;
    while j < |ns|
      invariant j <= |ns| == |f.nodes.vec|
      invariant forall q :: 0 <= q < |ns| ==>
        ns[q] == if q < j then f.nodes.vec[q].SetPos(Coords(f.nodes.vec[q].pos.x + xDiff, f.nodes.vec[q].pos.y + yDiff)) else f.nodes.vec[q]
    {
      ns := ns[j := ns[j].SetPos(Coords(ns[j].pos.x + xDiff, ns[j].pos.y + yDiff))];
      j := j + 1;
    }
    g := f.(nodes := Container(ns, f.nodes.index));
    assert g.nodes.vec == WithPositions(f, Shifted(Positions(f), xDiff, yDiff)).nodes.vec;
  }

  // ------------------------------------------------------------ max_nodes

  /** max_nodes: the largest number of nodes in a frame (std::max_element on
      an empty range is undefined; the caller has at least one frame). */
  method MaxNodes(states: seq<GraphState>) returns (m: nat)
    requires |states| > 0
    ensures exists t :: 0 <= t < |states| && m == |states[t].nodes.vec|
    ensures forall t :: 0 <= t < |states| ==> |states[t].nodes.vec| <= m
  {
    var best := 0;
    var t := 1;
    while t < |states|
      invariant 0 <= best < t <= |states|
      invariant forall q :: 0 <= q < t ==> |states[q].nodes.vec| <= |states[best].nodes.vec|
    {
      if |states[best].nodes.vec| < |states[t].nodes.vec| {
        best := t;
      }
      t := t + 1;
    }
    m := |states[best].nodes.vec|;
  }

  /** The largest node count of a frame. */
  function Largest(states: seq<GraphState>): (m: nat)
    requires |states| > 0
    ensures forall t :: 0 <= t < |states| ==> |states[t].nodes.vec| <= m
    ensures exists t :: 0 <= t < |states| && m == |states[t].nodes.vec|
  {
    if |states| == 1 then |states[0].nodes.vec|
    else
      var m := Largest(states[..|states| - 1]);
      assert forall t :: 0 <= t < |states| - 1 ==> states[..|states| - 1][t] == states[t];
      if |states[|states| - 1].nodes.vec| > m then |states[|states| - 1].nodes.vec| else m
  }

  /** A count that some frame has and no frame exceeds is the largest. */
  lemma LargestUnique(states: seq<GraphState>, m: nat)
    requires |states| > 0
    requires exists t :: 0 <= t < |states| && m == |states[t].nodes.vec|
    requires forall t :: 0 <= t < |states| ==> |states[t].nodes.vec| <= m
    ensures m == Largest(states)
  {
    var t :| 0 <= t < |states| && m == |states[t].nodes.vec|;
    assert m <= Largest(states);
  }

  // ------------------------------------------------------------- distance

  /** The distances between the nodes of ns that two also has and their
      counterparts in two, in the order of ns. node_exists and node_at look
      the id up in two's node index. */
  function SharedDistances(sqrt: real -> real, ns: seq<Node<()>>, two: GraphState): (ds: seq<real>)
    requires two.nodes.IndexInBounds()
    decreases |ns|
  {
    if ns == [] then []
    else
      var n := ns[|ns| - 1];
      SharedDistances(sqrt, ns[..|ns| - 1], two)
        + if n.id in two.nodes.index
          then [FR.Length(sqrt, n.pos.x - two.nodes.vec[two.nodes.index[n.id]].pos.x, n.pos.y - two.nodes.vec[two.nodes.index[n.id]].pos.y)]
          else []
  }

  function Sum(xs: seq<real>): real
  {
    if xs == [] then 0.0 else Sum(xs[..|xs| - 1]) + xs[|xs| - 1]
  }

  /** The mental distance between two layouts: the sum of the distances of
      the shared nodes, divided by their number in relative mode. With no
      shared node the relative distance is 0/0, a NaN, which compares false
      with everything: None. */
  function MentalDistance(sqrt: real -> real, relative: bool, one: GraphState, two: GraphState): Option<real>
    requires two.nodes.IndexInBounds()
  {
    var ds := SharedDistances(sqrt, one.nodes.vec, two);
    if !relative then Some(Sum(ds))
    else if |ds| == 0 then None
    else Some(Sum(ds) / |ds| as real)
  }

  /** distance: the loop over the nodes of `one`, summing the distances of
      those `two` has and counting them. */
  method Distance(sqrt: real -> real, relative: bool, one: GraphState, two: GraphState) returns (d: Option<real>)
    requires two.nodes.IndexInBounds()
    ensures d == MentalDistance(sqrt, relative, one, two)
  {
    var result := 0.0;
    var count := 0;
    var ns := one.nodes.vec;
    var j := 0;
    while j < |ns|
      invariant j <= |ns|
      invariant result == Sum(SharedDistances(sqrt, ns[..j], two))
      invariant count == |SharedDistances(sqrt, ns[..j], two)|
    {
      var n := ns[j];
      DistanceStep(sqrt, ns, two, j);
      if n.id in two.nodes.index {
        var other := two.nodes.vec[two.nodes.index[n.id]];
        result := result + FR.Length(sqrt, n.pos.x - other.pos.x, n.pos.y - other.pos.y);
        count := count + 1;
      }
      j := j + 1;
    }
    assert ns[..j] == ns;
    if relative {
      if count == 0 {
        return None;
      }
      return Some(result / count as real);
    }
    return Some(result);
  }

  /** One more node of `one` adds its distance, and one to the count, when
      two has it. */
  lemma DistanceStep(sqrt: real -> real, ns: seq<Node<()>>, two: GraphState, j: nat)
    requires two.nodes.IndexInBounds() && j < |ns|
    ensures ns[j].id in two.nodes.index ==>
      && Sum(SharedDistances(sqrt, ns[..j + 1], two)) == Sum(SharedDistances(sqrt, ns[..j], two)) +
           FR.Length(sqrt, ns[j].pos.x - two.nodes.vec[two.nodes.index[ns[j].id]].pos.x, ns[j].pos.y - two.nodes.vec[two.nodes.index[ns[j].id]].pos.y)
      && |SharedDistances(sqrt, ns[..j + 1], two)| == |SharedDistances(sqrt, ns[..j], two)| + 1
    ensures ns[j].id !in two.nodes.index ==>
      SharedDistances(sqrt, ns[..j + 1], two) == SharedDistances(sqrt, ns[..j], two)
  {
    assert ns[..j + 1][..j] == ns[..j];
    if ns[j].id in two.nodes.index {
      var o := two.nodes.vec[two.nodes.index[ns[j].id]];
      SumAppend(SharedDistances(sqrt, ns[..j], two), FR.Length(sqrt, ns[j].pos.x - o.pos.x, ns[j].pos.y - o.pos.y));
    } else {
      assert SharedDistances(sqrt, ns[..j], two) + [] == SharedDistances(sqrt, ns[..j], two);
    }
  }

  lemma SumAppend(xs: seq<real>, x: real)
    ensures Sum(xs + [x]) == Sum(xs) + x
  {
    assert (xs + [x])[..|xs|] == xs;
  }

  lemma {:induction false} SumNonNegative(xs: seq<real>)
    requires forall i :: 0 <= i < |xs| ==> xs[i] >= 0.0
    ensures Sum(xs) >= 0.0
  {
    if xs != [] {
      SumNonNegative(xs[..|xs| - 1]);
    }
  }

  lemma {:induction false} SharedDistancesNonNegative(sqrt: real -> real, ns: seq<Node<()>>, two: GraphState)
    requires FR.IsSqrt(sqrt) && two.nodes.IndexInBounds()
    ensures forall i :: 0 <= i < |SharedDistances(sqrt, ns, two)| ==> SharedDistances(sqrt, ns, two)[i] >= 0.0
    decreases |ns|
  {
    if ns != [] {
      SharedDistancesNonNegative(sqrt, ns[..|ns| - 1], two);
      var n := ns[|ns| - 1];
      if n.id in two.nodes.index {
        var o := two.nodes.vec[two.nodes.index[n.id]];
        FR.LengthSpec(sqrt, n.pos.x - o.pos.x, n.pos.y - o.pos.y);
      }
    }
  }

  /** One distance per node of ns that two has. */
  lemma {:induction false} SharedDistancesCount(sqrt: real -> real, ns: seq<Node<()>>, two: GraphState)
    requires two.nodes.IndexInBounds()
    ensures |SharedDistances(sqrt, ns, two)| == 0 <==> forall j :: 0 <= j < |ns| ==> ns[j].id !in two.nodes.index
    decreases |ns|
  {
    if ns != [] {
      SharedDistancesCount(sqrt, ns[..|ns| - 1], two);
    }
  }

  /** The mental distance is never negative, and in relative mode it is
      undefined (NaN) exactly when the layouts share no node. */
  lemma MentalDistanceSpec(sqrt: real -> real, relative: bool, one: GraphState, two: GraphState)
    requires FR.IsSqrt(sqrt) && two.nodes.IndexInBounds()
    ensures MentalDistance(sqrt, relative, one, two).Some? ==> MentalDistance(sqrt, relative, one, two).value >= 0.0
    ensures MentalDistance(sqrt, relative, one, two).None? <==>
      relative && forall j :: 0 <= j < |one.nodes.vec| ==> one.nodes.vec[j].id !in two.nodes.index
  {
    var ds := SharedDistances(sqrt, one.nodes.vec, two);
    SharedDistancesNonNegative(sqrt, one.nodes.vec, two);
    SumNonNegative(ds);
    SharedDistancesCount(sqrt, one.nodes.vec, two);
  }

  // ---------------------------------------------------------- basic layout

  /** node_live_times: every node id with the frames it is in. */
  function NodesLive(states: seq<GraphState>): map<NodeId, LiveSet>
  {
    LiveTimes(NodeIdLists(states))
  }

  /** edge_live_times: every edge id with the frames it is in. */
  function EdgesLive(states: seq<GraphState>): map<EdgeId, LiveSet>
  {
    LiveTimes(EdgeIdLists(states))
  }

  /** The RGAP of the frames with its partition graph laid out on a w by h
      canvas by the static layout. */
  function PlacedRgap(place: (Partitioning, real, real, nat) -> Coords, states: seq<GraphState>, w: real, h: real): Result<Mapped>
  {
    var supergraph :- Supergraph(states);
    var gap :- Gap.Gap(supergraph, NodesLive(states), EdgesLive(states));
    var rgap :- Rgap.Rgap(gap);
    Ok(Placed(place, rgap, w, h))
  }

  /** The static layout of the RGAP's graph on a w x h canvas: partition j
      is placed where `place` puts it. */
  function Placed(place: (Partitioning, real, real, nat) -> Coords, rgap: Mapped, w: real, h: real): Mapped
  {
    var g := rgap.graph;
    rgap.(graph := WithPositions(g, seq(|g.nodes.vec|, j requires 0 <= j < |g.nodes.vec| => place(g, w, h, j))))
  }

  /** Every node of f resolves to a partition of m. */
  ghost predicate Resolves(f: GraphState, m: Mapped)
  {
    && m.graph.nodes.IndexedBy(NodeIdOf)
    && forall j :: 0 <= j < |f.nodes.vec| ==> m.NodeTarget(f.nodes.vec[j].id) in m.graph.nodes.index
  }

  /** The positions node_at finds in m for the nodes of f. */
  function HomePositions(f: GraphState, m: Mapped): (ps: seq<Coords>)
    requires Resolves(f, m)
    ensures |ps| == |f.nodes.vec|
  {
    seq(|f.nodes.vec|, j requires 0 <= j < |f.nodes.vec| => m.NodeAt(f.nodes.vec[j].id).value.pos)
  }

  /** f with every node moved to the position of its partition in m. */
  function Homed(f: Layout, m: Mapped): Layout
    requires Resolves(f, m)
  {
    WithPositionsSpec(f, HomePositions(f, m));
    WithPositions(f, HomePositions(f, m))
  }

  /** A node id of frame t has a live set that holds t. */
  lemma NodeLivesAt(states: seq<GraphState>, t: nat, id: NodeId)
    requires t < |states| && states[t].Valid() && id in states[t].nodes.index
    ensures id in NodesLive(states) && t in NodesLive(states)[id]
  {
    assert NodeIdLists(states)[t][states[t].nodes.index[id]] == id;
    LiveTimesSpec(NodeIdLists(states), id);
  }

  /** An edge id of frame t has a live set that holds t. */
  lemma EdgeLivesAt(states: seq<GraphState>, t: nat, id: EdgeId)
    requires t < |states| && states[t].Valid() && id in states[t].edges.index
    ensures id in EdgesLive(states)
  {
    assert EdgeIdLists(states)[t][states[t].edges.index[id]] == id;
    LiveTimesSpec(EdgeIdLists(states), id);
  }

  /** The live sets of valid frames are increasing. */
  lemma LivesIncreasing(states: seq<GraphState>)
    requires forall t :: 0 <= t < |states| ==> states[t].Valid()
    ensures forall id :: id in NodesLive(states) ==> Increasing(NodesLive(states)[id])
    ensures forall id :: id in EdgesLive(states) ==> Increasing(EdgesLive(states)[id])
  {
    ValidIdsDistinct(states);
    forall id | id in NodesLive(states) ensures Increasing(NodesLive(states)[id]) {
      LiveTimesIncreasing(NodeIdLists(states), id);
    }
    forall id | id in EdgesLive(states) ensures Increasing(EdgesLive(states)[id]) {
      LiveTimesIncreasing(EdgeIdLists(states), id);
    }
  }

  /** The supergraph of valid frames is valid, and each of its ids has a
      live set. */
  lemma SupergraphLives(states: seq<GraphState>)
    requires forall t :: 0 <= t < |states| ==> states[t].Valid()
    ensures Supergraph(states).Ok? && Supergraph(states).value.Valid()
    ensures forall id :: id in Supergraph(states).value.nodes.index ==> id in NodesLive(states)
    ensures forall id :: id in Supergraph(states).value.edges.index ==> id in EdgesLive(states)
  {
    SupergraphNodes(states);
    var sg := Supergraph(states).value;
    forall id | id in sg.nodes.index ensures id in NodesLive(states) {
      assert NodeExists(sg, id);
      var t :| 0 <= t < |states| && id in states[t].nodes.index;
      NodeLivesAt(states, t, id);
    }
    forall id | id in sg.edges.index ensures id in EdgesLive(states) {
      assert EdgeExists(sg, id);
      var t :| 0 <= t < |states| && id in states[t].edges.index;
      EdgeLivesAt(states, t, id);
    }
  }

  /** Every node id of a valid frame is a node of the supergraph. */
  lemma InSupergraph(states: seq<GraphState>, t: nat, x: NodeId)
    requires forall u :: 0 <= u < |states| ==> states[u].Valid()
    requires t < |states| && x in states[t].nodes.index
    ensures Supergraph(states).Ok? && x in NodeIds(Supergraph(states).value)
  {
    SupergraphNodes(states);
    var sg := Supergraph(states).value;
    assert NodeExists(sg, x);
    assert NodeIds(sg)[sg.nodes.index[x]] == x;
  }

  /** GAP and RGAP succeed on the lives of valid frames, RGAP keeps GAP's
      partitions, and every id of the supergraph resolves to one. */
  lemma GapOfFrames(states: seq<GraphState>)
    requires forall t :: 0 <= t < |states| ==> states[t].Valid()
    ensures Supergraph(states).Ok?
    ensures var gap := Gap.Gap(Supergraph(states).value, NodesLive(states), EdgesLive(states));
      && gap.Ok? && Rgap.Rgap(gap.value).Ok?
      && Rgap.Rgap(gap.value).value.graph.nodes == gap.value.graph.nodes
      && Rgap.Rgap(gap.value).value.nodeAlias == gap.value.nodeAlias
      && gap.value.graph.nodes.IndexedBy(NodeIdOf)
      && Gap.Resolved(gap.value, NodeIds(Supergraph(states).value))
  {
    SupergraphLives(states);
    LivesIncreasing(states);
    var sg := Supergraph(states).value;
    GapFeedsRgap(sg, NodesLive(states), EdgesLive(states));
    GapSpec(sg, NodesLive(states), EdgesLive(states));
    assert NodePhase(Gap.Gap(sg, NodesLive(states), EdgesLive(states)).value, NodeIds(sg), NodesLive(states));
  }

  /** Supergraph, GAP and RGAP all succeed on valid frames. */
  lemma PipelineOk(states: seq<GraphState>)
    requires forall t :: 0 <= t < |states| ==> states[t].Valid()
    ensures Supergraph(states).Ok? && Gap.Gap(Supergraph(states).value, NodesLive(states), EdgesLive(states)).Ok?
    ensures Rgap.Rgap(Gap.Gap(Supergraph(states).value, NodesLive(states), EdgesLive(states)).value).Ok?
  {
    GapOfFrames(states);
  }

  /** Every node of every valid frame is a node of the supergraph. */
  lemma FramesInSupergraph(states: seq<GraphState>)
    requires forall t :: 0 <= t < |states| ==> states[t].Valid()
    ensures Supergraph(states).Ok?
    ensures forall t, j :: 0 <= t < |states| && 0 <= j < |states[t].nodes.vec| ==>
      states[t].nodes.vec[j].id in NodeIds(Supergraph(states).value)
  {
    SupergraphNodes(states);
    forall t, j | 0 <= t < |states| && 0 <= j < |states[t].nodes.vec|
      ensures states[t].nodes.vec[j].id in NodeIds(Supergraph(states).value)
    {
      assert states[t].nodes.IndexedBy(NodeIdOf);
      InSupergraph(states, t, states[t].nodes.vec[j].id);
    }
  }

  /** If every node of every frame is among `ids` and every id of `ids`
      resolves in `gap`, every frame resolves in a graph with GAP's index and
      aliases. */
  lemma ResolvesAll(states: seq<GraphState>, ids: seq<NodeId>, gap: Mapped, m: Mapped)
    requires m.graph.nodes.index == gap.graph.nodes.index && m.nodeAlias == gap.nodeAlias
    requires m.graph.nodes.IndexedBy(NodeIdOf) && Gap.Resolved(gap, ids)
    requires forall t, j :: 0 <= t < |states| && 0 <= j < |states[t].nodes.vec| ==> states[t].nodes.vec[j].id in ids
    ensures forall t :: 0 <= t < |states| ==> Resolves(states[t], m)
  {
    forall t | 0 <= t < |states| ensures Resolves(states[t], m) {
      forall j | 0 <= j < |states[t].nodes.vec| ensures m.NodeTarget(states[t].nodes.vec[j].id) in m.graph.nodes.index {
        assert gap.NodeTarget(states[t].nodes.vec[j].id) in gap.graph.nodes.index;
      }
    }
  }

  /** basic_layout never fails on valid frames: the supergraph, GAP and
      RGAP all succeed, and node_at finds a partition for every node of
      every frame. */
  lemma PlacedRgapOk(place: (Partitioning, real, real, nat) -> Coords, states: seq<GraphState>, w: real, h: real)
    requires forall t :: 0 <= t < |states| ==> states[t].Valid()
    ensures PlacedRgap(place, states, w, h).Ok?
    ensures forall t :: 0 <= t < |states| ==> Resolves(states[t], PlacedRgap(place, states, w, h).value)
  {
    GapOfFrames(states);
    FramesInSupergraph(states);
    var gap := Gap.Gap(Supergraph(states).value, NodesLive(states), EdgesLive(states)).value;
    var m := PlacedRgap(place, states, w, h).value;
    PlacedKeepsPartitions(place, gap, Rgap.Rgap(gap).value, m, w, h);
    ResolvesAll(states, NodeIds(Supergraph(states).value), gap, m);
  }

  /** Laying out the RGAP keeps its partitions, their index and the
      aliases. */
  lemma PlacedKeepsPartitions(place: (Partitioning, real, real, nat) -> Coords, gap: Mapped, rgap: Mapped, m: Mapped, w: real, h: real)
    requires rgap.graph.nodes == gap.graph.nodes && rgap.nodeAlias == gap.nodeAlias
    requires m == Placed(place, rgap, w, h)
    ensures m.graph.nodes.index == gap.graph.nodes.index && m.nodeAlias == gap.nodeAlias
    ensures gap.graph.nodes.IndexedBy(NodeIdOf) ==> m.graph.nodes.IndexedBy(NodeIdOf)
  {
    WithPositionsSpec(rgap.graph, Positions(m.graph));
    if gap.graph.nodes.IndexedBy(NodeIdOf) {
      RewriteIndexed(rgap.graph.nodes, NodeIdOf, m.graph.nodes.vec);
    }
  }

  /** node_at on the laid-out RGAP for every node of f: the loop over the
      frame's nodes copying the position of their partition. */
  method HomeFrame(f: Layout, m: Mapped) returns (g: Layout)
    requires Resolves(f, m)
    ensures g == Homed(f, m)
  {
    var ns := f.nodes.vec;
    var j := 0;
    while j < |ns|
      invariant j <= |ns| == |f.nodes.vec|
      invariant forall q :: 0 <= q < |ns| ==>
        ns[q] == if q < j then f.nodes.vec[q].SetPos(m.NodeAt(f.nodes.vec[q].id).value.pos) else f.nodes.vec[q]
    {
      var target := m.NodeAt(ns[j].id);
      ns := ns[j := ns[j].SetPos(target.value.pos)];
      j := j + 1;
    }
    g := f.(nodes := Container(ns, f.nodes.index));
    assert g.nodes.vec == Homed(f, m).nodes.vec;
  }

  /** basic_layout: the live sets, the supergraph, GAP and RGAP of the
      whole animation, one static layout of the RGAP, then every node of
      every frame takes the position of its partition. */
  method BasicLayout(place: (Partitioning, real, real, nat) -> Coords, states: array<Layout>, w: real, h: real)
    requires forall t :: 0 <= t < states.Length ==> states[t].Valid()
    modifies states
    ensures states[..] == Basic(place, old(states[..]), w, h)
  {
    ghost var frames := states[..];
    var placed := PlaceRgap(place, states[..], w, h);
    HomeFrames(states, placed);
    BasicIs(place, frames, w, h, placed, states[..]);
  }

  /** The frames after basic_layout: each node at its partition's place in
      the one static layout of the RGAP. */
  function Basic(place: (Partitioning, real, real, nat) -> Coords, frames: seq<Layout>, w: real, h: real): (r: seq<Layout>)
    requires forall t :: 0 <= t < |frames| ==> frames[t].Valid()
    ensures |r| == |frames|
  {
    PlacedRgapOk(place, frames, w, h);
    var m := PlacedRgap(place, frames, w, h).value;
    seq(|frames|, t requires 0 <= t < |frames| => Homed(frames[t], m))
  }

  /** Frames that each took their partition's place are Basic. */
  lemma BasicIs(place: (Partitioning, real, real, nat) -> Coords, frames: seq<Layout>, w: real, h: real, m: Mapped, r: seq<Layout>)
    requires forall t :: 0 <= t < |frames| ==> frames[t].Valid()
    requires PlacedRgap(place, frames, w, h) == Ok(m) && |r| == |frames|
    requires forall t :: 0 <= t < |frames| ==> Resolves(frames[t], m)
    requires forall t :: 0 <= t < |frames| ==> r[t] == Homed(frames[t], m)
    ensures r == Basic(place, frames, w, h)
  {
  }

  /** The preparation of basic_layout: live sets, supergraph, GAP and RGAP
      of the frames, and the static layout of the RGAP's graph. */
  method PlaceRgap(place: (Partitioning, real, real, nat) -> Coords, frames: seq<GraphState>, w: real, h: real) returns (placed: Mapped)
    requires forall t :: 0 <= t < |frames| ==> frames[t].Valid()
    ensures PlacedRgap(place, frames, w, h) == Ok(placed)
    ensures forall t :: 0 <= t < |frames| ==> Resolves(frames[t], placed)
  {
    PipelineOk(frames);
    var nodesLive := CollectLiveTimes(NodeIdLists(frames));
    var edgesLive := CollectLiveTimes(EdgeIdLists(frames));
    var supergraph := CalculateSupergraph(frames);
    var gap := CalculateGap(supergraph.value, nodesLive, edgesLive);
    var rgap := CalculateRgap(gap.value);
    placed := Placed(place, rgap.value, w, h);
    PlacedRgapOk(place, frames, w, h);
  }

  /** The loop of basic_layout over the frames: each takes the positions of
      its nodes' partitions. */
  method HomeFrames(states: array<Layout>, m: Mapped)
    requires forall t :: 0 <= t < states.Length ==> Resolves(states[t], m)
    modifies states
    ensures forall t :: 0 <= t < states.Length ==> states[t] == Homed(old(states[t]), m)
  {
    var t := 0;
    while t < states.Length
      invariant t <= states.Length
      invariant forall q :: 0 <= q < t ==> states[q] == Homed(old(states[q]), m)
      invariant forall q :: t <= q < states.Length ==> states[q] == old(states[q])
    {
      states[t] := HomeFrame(states[t], m);
      t := t + 1;
    }
  }

  /** GAP puts two nodes of the supergraph into one partition only when
      they never live at the same time. */
  lemma GapApartOfFrames(states: seq<GraphState>)
    requires forall t :: 0 <= t < |states| ==> states[t].Valid()
    ensures Supergraph(states).Ok? && Gap.Gap(Supergraph(states).value, NodesLive(states), EdgesLive(states)).Ok?
    ensures Gap.Apart(Gap.Gap(Supergraph(states).value, NodesLive(states), EdgesLive(states)).value, NodeIds(Supergraph(states).value), NodesLive(states))
  {
    SupergraphLives(states);
    LivesIncreasing(states);
    GapSpec(Supergraph(states).value, NodesLive(states), EdgesLive(states));
  }

  /** Two different nodes of one frame never share a partition: after
      basic_layout a frame's nodes are placed by different partitions of
      the RGAP. */
  lemma FrameNodesApart(place: (Partitioning, real, real, nat) -> Coords, states: seq<GraphState>, w: real, h: real, t: nat, i: nat, j: nat)
    requires forall u :: 0 <= u < |states| ==> states[u].Valid()
    requires t < |states| && i < |states[t].nodes.vec| && j < |states[t].nodes.vec| && i != j
    ensures PlacedRgap(place, states, w, h).Ok?
    ensures PlacedRgap(place, states, w, h).value.NodeTarget(states[t].nodes.vec[i].id)
      != PlacedRgap(place, states, w, h).value.NodeTarget(states[t].nodes.vec[j].id)
  {
    PlacedAliases(place, states, w, h);
    GapApartOfFrames(states);
    FrameInSupergraph(states, t);
    FrameIdsDistinct(states[t], i, j);
    ApartInFrame(states[t], t, NodeIds(Supergraph(states).value), NodesLive(states),
      Gap.Gap(Supergraph(states).value, NodesLive(states), EdgesLive(states)).value,
      PlacedRgap(place, states, w, h).value, i, j);
  }

  /** Every node of frame t is a node of the supergraph, with a live set
      holding t. */
  lemma FrameInSupergraph(states: seq<GraphState>, t: nat)
    requires forall u :: 0 <= u < |states| ==> states[u].Valid()
    requires t < |states|
    ensures Supergraph(states).Ok?
    ensures forall x :: x in states[t].nodes.index ==>
      x in NodeIds(Supergraph(states).value) && x in NodesLive(states) && t in NodesLive(states)[x]
  {
    forall x | x in states[t].nodes.index
      ensures Supergraph(states).Ok? && x in NodeIds(Supergraph(states).value) && x in NodesLive(states) && t in NodesLive(states)[x]
    {
      InSupergraph(states, t, x);
      NodeLivesAt(states, t, x);
    }
    SupergraphLives(states);
  }

  /** Apart, for two distinct nodes of a frame that are all placed ids
      living at time t. */
  lemma ApartInFrame(f: GraphState, t: nat, ids: seq<NodeId>, live: map<NodeId, LiveSet>, gap: Mapped, m: Mapped, i: nat, j: nat)
    requires Gap.Apart(gap, ids, live) && m.nodeAlias == gap.nodeAlias
    requires forall x :: x in f.nodes.index ==> x in ids && x in live && t in live[x]
    requires f.nodes.IndexedBy(NodeIdOf)
    requires i < |f.nodes.vec| && j < |f.nodes.vec| && f.nodes.vec[i].id != f.nodes.vec[j].id
    ensures m.NodeTarget(f.nodes.vec[i].id) != m.NodeTarget(f.nodes.vec[j].id)
  {
    var x, y := f.nodes.vec[i].id, f.nodes.vec[j].id;
    assert x in f.nodes.index && y in f.nodes.index;
    assert gap.NodeTarget(x) != gap.NodeTarget(y);
  }

  /** The placed RGAP has GAP's aliases. */
  lemma PlacedAliases(place: (Partitioning, real, real, nat) -> Coords, states: seq<GraphState>, w: real, h: real)
    requires forall u :: 0 <= u < |states| ==> states[u].Valid()
    ensures Supergraph(states).Ok? && Gap.Gap(Supergraph(states).value, NodesLive(states), EdgesLive(states)).Ok?
    ensures PlacedRgap(place, states, w, h).Ok?
    ensures PlacedRgap(place, states, w, h).value.nodeAlias
      == Gap.Gap(Supergraph(states).value, NodesLive(states), EdgesLive(states)).value.nodeAlias
  {
    GapOfFrames(states);
    var gap := Gap.Gap(Supergraph(states).value, NodesLive(states), EdgesLive(states)).value;
    PlacedKeepsPartitions(place, gap, Rgap.Rgap(gap).value, PlacedRgap(place, states, w, h).value, w, h);
  }

  /** Two slots of a valid frame's node vector hold different ids. */
  lemma FrameIdsDistinct(f: GraphState, i: nat, j: nat)
    requires f.Valid() && i < |f.nodes.vec| && j < |f.nodes.vec| && i != j
    ensures f.nodes.vec[i].id != f.nodes.vec[j].id
  {
    assert f.nodes.IndexedBy(NodeIdOf);
    assert f.nodes.index[f.nodes.vec[i].id] == i && f.nodes.index[f.nodes.vec[j].id] == j;
  }

  /** The mental map: after basic_layout, nodes that share a partition have
      the same position, in whichever frames they are; in particular a node
      keeps its position from frame to frame. */
  lemma SamePartitionSamePosition(f: Layout, g: Layout, m: Mapped, i: nat, j: nat)
    requires Resolves(f, m) && Resolves(g, m)
    requires i < |f.nodes.vec| && j < |g.nodes.vec|
    requires m.NodeTarget(f.nodes.vec[i].id) == m.NodeTarget(g.nodes.vec[j].id)
    ensures Homed(f, m).nodes.vec[i].pos == Homed(g, m).nodes.vec[j].pos
  {
    WithPositionsSpec(f, HomePositions(f, m));
    WithPositionsSpec(g, HomePositions(g, m));
    var p := m.NodeAt(f.nodes.vec[i].id).value;
    var q := m.NodeAt(g.nodes.vec[j].id).value;
    assert p == m.graph.nodes.vec[m.graph.nodes.index[p.id]];
    assert q == m.graph.nodes.vec[m.graph.nodes.index[q.id]];
  }

  // ------------------------------------------------------------ tolerance

  /** The static layout the algorithm is parameterised with, reduced to the
      three things it is asked for: `place` is where operator() puts node j
      of a graph on a w by h canvas, `iteration` where one iteration at a
      temperature moves node j of a frame, and `relativeUnit` the unit of a
      canvas. Both only write positions. */
  datatype StaticLayout = StaticLayout(
    place: (Partitioning, real, real, nat) -> Coords,
    iteration: (GraphState, real, real, real, nat) -> Coords,
    relativeUnit: (real, real) -> real)

  /** What a tolerance round compares with: the static layout, the square
      root used by distance, the distance mode, the canvas and the threshold
      the mental distance must stay below. */
  datatype Tuning = Tuning(lay: StaticLayout, sqrt: real -> real, relative: bool, width: real, height: real, threshold: real)

  /** A frame whose node index points into its node vector, as in every
      frame a graph builds: node lookups in it are defined. */
  type Layout = f: GraphState | f.nodes.IndexInBounds() witness EmptyFrame()

  /** The copy of a frame after one static-layout iteration at temperature
      temp. */
  function Candidate(tu: Tuning, f: Layout, temp: real): Layout
  {
    var ps := seq(|f.nodes.vec|, j requires 0 <= j < |f.nodes.vec| => tu.lay.iteration(f, tu.width, tu.height, temp, j));
    WithPositionsSpec(f, ps);
    WithPositions(f, ps)
  }

  /** distance(a, b) < threshold; a NaN distance is never below it. */
  predicate Close(tu: Tuning, a: GraphState, b: Layout)
  {
    var d := MentalDistance(tu.sqrt, tu.relative, a, b);
    d.Some? && d.value < tu.threshold
  }

  /** Frame s takes its candidate c when c is close to the frame before it
      and to the frame after it; the first frame has no frame before it and
      the last none after it. */
  predicate Takes(tu: Tuning, c: GraphState, states: seq<Layout>, s: nat)
    requires s < |states|
  {
    (s == 0 || Close(tu, c, states[s - 1])) && (s >= |states| - 1 || Close(tu, c, states[s + 1]))
  }

  /** Frame s of a round decided: it takes its candidate when Takes says
      so, against the frames as they stand. */
  function Decide(tu: Tuning, temp: real, states: seq<Layout>, s: nat): (r: seq<Layout>)
    requires s < |states|
    ensures |r| == |states|
  {
    var c := Candidate(tu, states[s], temp);
    if Takes(tu, c, states, s) then states[s := c] else states
  }

  /** Deciding frame s leaves it or replaces it by its candidate, and leaves
      every other frame alone. */
  lemma DecideSpec(tu: Tuning, temp: real, states: seq<Layout>, s: nat)
    requires s < |states|
    ensures Decide(tu, temp, states, s)[s] in {states[s], Candidate(tu, states[s], temp)}
    ensures forall t :: 0 <= t < |states| && t != s ==> Decide(tu, temp, states, s)[t] == states[t]
  {
  }

  /** A round at temperature temp with its first s frames decided, in
      order: each frame compares its candidate with the already decided
      frame before it and the undecided frame after it. */
  function RoundUpTo(tu: Tuning, temp: real, states: seq<Layout>, s: nat): (r: seq<Layout>)
    requires s <= |states|
    ensures |r| == |states|
  {
    if s == 0 then states else Decide(tu, temp, RoundUpTo(tu, temp, states, s - 1), s - 1)
  }

  /** A whole round. */
  function Round(tu: Tuning, temp: real, states: seq<Layout>): seq<Layout>
  {
    RoundUpTo(tu, temp, states, |states|)
  }

  /** The frames after r rounds: round q runs at the temperature annealed q
      times. */
  function Rounds(tu: Tuning, c: FR.Cooling, states: seq<Layout>, r: nat): (res: seq<Layout>)
    ensures |res| == |states|
  {
    if r == 0 then states
    else Round(tu, FR.Temperature(c, r - 1), Rounds(tu, c, states, r - 1))
  }

  /** a is b with its nodes moved and nothing else changed. */
  ghost predicate Relaid(a: GraphState, b: GraphState)
  {
    && a.nodes.index == b.nodes.index && a.edges == b.edges && a.adj == b.adj
    && |a.nodes.vec| == |b.nodes.vec|
    && forall j :: 0 <= j < |a.nodes.vec| ==> a.nodes.vec[j] == b.nodes.vec[j].(pos := a.nodes.vec[j].pos)
  }

  /** Frame t of xs is frame t of ys relaid, for every t. */
  ghost predicate AllRelaid(xs: seq<GraphState>, ys: seq<GraphState>)
  {
    |xs| == |ys| && forall t :: 0 <= t < |xs| ==> Relaid(xs[t], ys[t])
  }

  /** Relaying out keeps ids, the index, the edges, the adjacency and
      validity. */
  lemma RelaidSpec(a: GraphState, b: GraphState)
    requires Relaid(a, b)
    ensures a == WithPositions(b, Positions(a))
    ensures forall j :: 0 <= j < |a.nodes.vec| ==> a.nodes.vec[j].id == b.nodes.vec[j].id
    ensures b.Valid() ==> a.Valid()
  {
    WithPositionsSpec(b, Positions(a));
    assert a.nodes.vec == WithPositions(b, Positions(a)).nodes.vec;
  }

  /** Relaying out twice is relaying out once. */
  lemma RelaidTrans(a: GraphState, b: GraphState, c: GraphState)
    requires Relaid(a, b) && Relaid(b, c)
    ensures Relaid(a, c)
  {
    forall j | 0 <= j < |a.nodes.vec| ensures a.nodes.vec[j] == c.nodes.vec[j].(pos := a.nodes.vec[j].pos) {
      assert b.nodes.vec[j] == c.nodes.vec[j].(pos := b.nodes.vec[j].pos);
    }
  }

  /** A candidate is its frame relaid. */
  lemma CandidateRelaid(tu: Tuning, f: Layout, temp: real)
    ensures Relaid(Candidate(tu, f, temp), f)
  {
    var ps := seq(|f.nodes.vec|, j requires 0 <= j < |f.nodes.vec| => tu.lay.iteration(f, tu.width, tu.height, temp, j));
    WithPositionsSpec(f, ps);
  }

  /** Every frame is itself relaid. */
  lemma RelaidSelf(f: GraphState)
    ensures Relaid(f, f)
  {
  }

  /** Every list of frames is itself relaid. */
  lemma AllRelaidSelf(states: seq<GraphState>)
    ensures AllRelaid(states, states)
  {
    forall t | 0 <= t < |states| ensures Relaid(states[t], states[t]) {
      RelaidSelf(states[t]);
    }
  }

  /** Deciding a frame only moves nodes. */
  lemma DecideRelaid(tu: Tuning, temp: real, prev: seq<Layout>, s: nat, states: seq<Layout>, next: seq<Layout>)
    requires s < |prev| && AllRelaid(prev, states) && next == Decide(tu, temp, prev, s)
    ensures AllRelaid(next, states)
  {
    DecideSpec(tu, temp, prev, s);
    forall t | 0 <= t < |states| ensures Relaid(next[t], states[t]) {
      if t == s && next[t] != prev[t] {
        CandidateRelaid(tu, prev[t], temp);
        RelaidTrans(next[t], prev[t], states[t]);
      }
    }
  }

  /** The first s decisions of a round, whose result is r, only move
      nodes. */
  lemma {:induction false} RoundUpToRelaid(tu: Tuning, temp: real, states: seq<Layout>, s: nat, r: seq<Layout>)
    requires s <= |states| && r == RoundUpTo(tu, temp, states, s)
    ensures AllRelaid(r, states)
  {
    if s == 0 {
      AllRelaidSelf(states);
    } else {
      var prev := RoundUpTo(tu, temp, states, s - 1);
      RoundUpToRelaid(tu, temp, states, s - 1, prev);
      DecideRelaid(tu, temp, prev, s - 1, states, r);
    }
  }

  /** However many rounds run, every frame keeps its nodes, edges and
      adjacency and only its node positions change: r is the result of
      the rounds. */
  lemma {:induction false} RoundsRelaid(tu: Tuning, c: FR.Cooling, states: seq<Layout>, n: nat, r: seq<Layout>)
    requires r == Rounds(tu, c, states, n)
    ensures AllRelaid(r, states)
  {
    if n == 0 {
      RoundUpToRelaid(tu, 0.0, states, 0, r);
    } else {
      var prev := Rounds(tu, c, states, n - 1);
      RoundsRelaid(tu, c, states, n - 1, prev);
      RoundUpToRelaid(tu, FR.Temperature(c, n - 1), prev, |prev|, r);
      forall t | 0 <= t < |states| ensures Relaid(r[t], states[t]) {
        RelaidTrans(r[t], prev[t], states[t]);
      }
    }
  }

  /** A lone frame has no neighbour to stay close to: it always takes its
      candidate. */
  lemma LoneFrameTakes(tu: Tuning, temp: real, f: Layout)
    ensures Round(tu, temp, [f]) == [Candidate(tu, f, temp)]
  {
    assert RoundUpTo(tu, temp, [f], 1) == Decide(tu, temp, [f], 0);
  }

  /** A threshold of zero or less is never met, since a mental distance is
      never negative: with two frames or more no frame takes a candidate. */
  lemma {:induction false} NonPositiveThresholdKeeps(tu: Tuning, temp: real, states: seq<Layout>, s: nat)
    requires FR.IsSqrt(tu.sqrt) && tu.threshold <= 0.0
    requires |states| >= 2 && s <= |states|
    ensures RoundUpTo(tu, temp, states, s) == states
  {
    if s > 0 {
      var prev := RoundUpTo(tu, temp, states, s - 1);
      assert prev == states by {
        NonPositiveThresholdKeeps(tu, temp, states, s - 1);
      }
      assert Decide(tu, temp, prev, s - 1) == prev by {
        NeverTakes(tu, temp, prev, s - 1);
      }
    }
  }

  /** With such a threshold deciding a frame, among two or more, keeps it. */
  lemma NeverTakes(tu: Tuning, temp: real, states: seq<Layout>, s: nat)
    requires FR.IsSqrt(tu.sqrt) && tu.threshold <= 0.0
    requires |states| >= 2 && s < |states|
    ensures Decide(tu, temp, states, s) == states
  {
    var c := Candidate(tu, states[s], temp);
    if s == 0 {
      NeverClose(tu, c, states[1]);
    } else {
      NeverClose(tu, c, states[s - 1]);
    }
  }

  /** No layout is closer than a threshold of zero or less. */
  lemma NeverClose(tu: Tuning, a: GraphState, b: Layout)
    requires FR.IsSqrt(tu.sqrt) && tu.threshold <= 0.0
    ensures !Close(tu, a, b)
  {
    MentalDistanceSpec(tu.sqrt, tu.relative, a, b);
  }

  /** In relative mode a candidate that shares no node with the frame
      before it has an undefined (NaN) distance to it and is rejected. */
  lemma RelativeDisjointKeeps(tu: Tuning, temp: real, states: seq<Layout>, s: nat)
    requires FR.IsSqrt(tu.sqrt) && tu.relative && 0 < s < |states|
    requires forall j :: 0 <= j < |states[s].nodes.vec| ==> states[s].nodes.vec[j].id !in states[s - 1].nodes.index
    ensures Decide(tu, temp, states, s) == states
  {
    var c := Candidate(tu, states[s], temp);
    CandidateRelaid(tu, states[s], temp);
    RelaidSpec(c, states[s]);
    MentalDistanceSpec(tu.sqrt, tu.relative, c, states[s - 1]);
  }

  /** The absolute-mode threshold: the tolerance times the canvas unit
      times the node count of the largest frame. */
  function AbsoluteThreshold(tolerance: real, unit: real, maxNodes: nat): real
  {
    tolerance * (unit * maxNodes as real)
  }

  /** The threshold: the tolerance itself in relative mode, scaled in
      absolute mode. */
  function Threshold(lay: StaticLayout, relative: bool, width: real, height: real, tolerance: real, maxNodes: nat): real
  {
    if relative then tolerance else AbsoluteThreshold(tolerance, lay.relativeUnit(width, height), maxNodes)
  }

  /** The tuning tolerance() works with. */
  function TuningOf(lay: StaticLayout, sqrt: real -> real, relative: bool, width: real, height: real,
                    tolerance: real, states: seq<GraphState>): Tuning
    requires |states| > 0
  {
    Tuning(lay, sqrt, relative, width, height, Threshold(lay, relative, width, height, tolerance, Largest(states)))
  }

  /** One round of tolerance(), the loop over the frames. */
  method ToleranceRound(tu: Tuning, temp: real, states: array<Layout>)
    modifies states
    ensures states[..] == Round(tu, temp, old(states[..]))
  {
    ghost var start := states[..];
    var s := 0;
    while s < states.Length
      invariant s <= states.Length
      invariant states[..] == RoundUpTo(tu, temp, start, s)
    {
      ghost var cur := states[..];
      var copy := Candidate(tu, states[s], temp);
      var take := Accepts(tu, copy, states[..], s);
      if take {
        states[s] := copy;
      }
      ghost var next := states[..];
      RoundStep(tu, temp, start, s, cur, take, next);
      s := s + 1;
    }
  }

  /** The condition of tolerance(): the copy is compared with the frame
      before it and, only if that passes, with the frame after it. */
  method Accepts(tu: Tuning, copy: GraphState, states: seq<Layout>, s: nat) returns (take: bool)
    requires s < |states|
    ensures take == Takes(tu, copy, states, s)
  {
    take := true;
    if s > 0 {
      var d := Distance(tu.sqrt, tu.relative, copy, states[s - 1]);
      take := d.Some? && d.value < tu.threshold;
    }
    if take && s < |states| - 1 {
      var d := Distance(tu.sqrt, tu.relative, copy, states[s + 1]);
      take := d.Some? && d.value < tu.threshold;
    }
  }

  /** One frame of a round, decided. */
  lemma RoundStep(tu: Tuning, temp: real, states: seq<Layout>, s: nat, cur: seq<Layout>, take: bool, next: seq<Layout>)
    requires s < |states| && cur == RoundUpTo(tu, temp, states, s)
    requires take == Takes(tu, Candidate(tu, cur[s], temp), cur, s)
    requires next == if take then cur[s := Candidate(tu, cur[s], temp)] else cur
    ensures next == RoundUpTo(tu, temp, states, s + 1)
  {
  }

  /** The threshold tolerance() starts with: in absolute mode the
      tolerance scaled by the canvas unit and max_nodes. */
  method ThresholdFor(lay: StaticLayout, relative: bool, states: seq<Layout>, width: real, height: real, tolerance: real)
    returns (threshold: real)
    requires |states| > 0
    ensures threshold == Threshold(lay, relative, width, height, tolerance, Largest(states))
  {
    threshold := tolerance;
    if !relative {
      var m := MaxNodes(states);
      LargestUnique(states, m);
      threshold := AbsoluteThreshold(threshold, lay.relativeUnit(width, height), m);
    }
  }

  /** One more round on top of the first i. */
  lemma RoundsStep(tu: Tuning, c: FR.Cooling, states: seq<Layout>, i: nat, cur: seq<Layout>, next: seq<Layout>)
    requires cur == Rounds(tu, c, states, i) && next == Round(tu, FR.Temperature(c, i), cur)
    ensures next == Rounds(tu, c, states, i + 1)
  {
  }

  /** tolerance: cooling.iterations rounds, the temperature annealed after
      each; in absolute mode the threshold is first scaled by the canvas
      unit and max_nodes. */
  method Tolerance(lay: StaticLayout, sqrt: real -> real, relative: bool, cooling: FR.Cooling,
                   states: array<Layout>, width: real, height: real, tolerance: real)
    requires states.Length > 0
    modifies states
    ensures states[..] == Rounds(TuningOf(lay, sqrt, relative, width, height, tolerance, old(states[..])), cooling, old(states[..]), cooling.iterations)
  {
    ghost var start := states[..];
    var temp := cooling.startTemperature;
    var threshold := ThresholdFor(lay, relative, states[..], width, height, tolerance);
    var tu := Tuning(lay, sqrt, relative, width, height, threshold);
    var i := 0;
    while i < cooling.iterations
      invariant i <= cooling.iterations && temp == FR.Temperature(cooling, i)
      invariant states[..] == Rounds(tu, cooling, start, i)
    {
      ghost var cur := states[..];
      ToleranceRound(tu, temp, states);
      RoundsStep(tu, cooling, start, i, cur, states[..]);
      temp := cooling.anneal(temp);
      i := i + 1;
    }
  }

  // ------------------------------------------------------------ operator()

  /** The cooling a new foresighted_layout uses: 250 rounds from 0.4,
      multiplied by 0.977 each time. */
  function DefaultCooling(): (c: FR.Cooling)
    ensures c.iterations == 250 && c.startTemperature == 0.4
    ensures forall t :: c.anneal(t) == t * 0.977
  {
    FR.Cooling(250, 0.4, t => t * 0.977)
  }

  /** The default cooling lowers the temperature round after round. */
  lemma DefaultCoolingCools()
    ensures FR.Cools(DefaultCooling())
  {
    var c := DefaultCooling();
    forall t | t > 0.0 ensures 0.0 < c.anneal(t) < t {
      assert c.anneal(t) == t * 0.977;
    }
  }

  /** The height of the canvas the layout is calculated on. */
  const CalculationHeight: real := 1.0

  /** The width of that canvas: the height times the aspect ratio of the
      requested canvas. */
  function CalculationWidth(w: real, h: real): real
    requires h != 0.0
  {
    CalculationHeight * w / h
  }

  /** The calculation canvas has the aspect ratio of the requested one, so
      rescaling multiplies both axes by the requested height. */
  lemma CalculationScale(w: real, h: real)
    requires w != 0.0 && h != 0.0
    ensures CalculationWidth(w, h) != 0.0
    ensures w / CalculationWidth(w, h) == h && h / CalculationHeight == h
    ensures h * CalculationWidth(w, h) == w
  {
    var cw := CalculationWidth(w, h);
    assert cw * h == w;
  }

  /** rescale from the calculation canvas to the requested one, then move
      from the origin to the centre. */
  function Finished(f: Layout, srcWidth: real, srcHeight: real, dstWidth: real, dstHeight: real, center: Coords): Layout
    requires srcWidth != 0.0 && srcHeight != 0.0
  {
    var ps := Shifted(Scaled(Positions(f), dstWidth / srcWidth, dstHeight / srcHeight), center.x, center.y);
    WithPositionsSpec(f, ps);
    WithPositions(f, ps)
  }

  /** The last loop of operator() for one frame: rescale, then move. */
  method Finish(f: Layout, srcWidth: real, srcHeight: real, dstWidth: real, dstHeight: real, center: Coords)
    returns (g: Layout)
    requires srcWidth != 0.0 && srcHeight != 0.0
    ensures g == Finished(f, srcWidth, srcHeight, dstWidth, dstHeight, center)
  {
    var scaled := Scaled(Positions(f), dstWidth / srcWidth, dstHeight / srcHeight);
    var r := Rescale(f, srcWidth, srcHeight, dstWidth, dstHeight);
    WithPositionsSpec(f, scaled);
    var m := Move(r, 0.0, 0.0, center.x, center.y);
    assert Shifted(Positions(r), center.x - 0.0, center.y - 0.0) == Shifted(scaled, center.x, center.y);
    WithPositionsTwice(f, scaled, Shifted(scaled, center.x, center.y));
    WithPositionsSpec(f, Shifted(scaled, center.x, center.y));
    g := m;
  }

  /** What operator() reads of a foresighted_layout object. */
  datatype Config = Config(
    tolerance: real, canvasWidth: real, canvasHeight: real, center: Coords,
    cooling: FR.Cooling, lay: StaticLayout, relative: bool, sqrt: real -> real)

  /** The frames on the calculation canvas: basic_layout, then the
      tolerance rounds unless the tolerance is zero. */
  function Refined(cfg: Config, frames: seq<Layout>): (r: seq<Layout>)
    requires forall t :: 0 <= t < |frames| ==> frames[t].Valid()
    requires cfg.canvasHeight != 0.0 && |frames| > 0
    ensures |r| == |frames|
  {
    var cw := CalculationWidth(cfg.canvasWidth, cfg.canvasHeight);
    var basic := Basic(cfg.lay.place, frames, cw, CalculationHeight);
    if cfg.tolerance != 0.0
    then Rounds(TuningOf(cfg.lay, cfg.sqrt, cfg.relative, cw, CalculationHeight, cfg.tolerance, basic), cfg.cooling, basic, cfg.cooling.iterations)
    else basic
  }

  /** Every frame rescaled from the calculation canvas and moved to the
      centre. */
  function FinishAll(fs: seq<Layout>, srcWidth: real, srcHeight: real, dstWidth: real, dstHeight: real, center: Coords): (r: seq<Layout>)
    requires srcWidth != 0.0 && srcHeight != 0.0
    ensures |r| == |fs|
  {
    seq(|fs|, t requires 0 <= t < |fs| => Finished(fs[t], srcWidth, srcHeight, dstWidth, dstHeight, center))
  }

  /** The loop of operator() over the frames after the calculation. */
  method FinishFrames(states: array<Layout>, srcWidth: real, srcHeight: real, dstWidth: real, dstHeight: real, center: Coords)
    requires srcWidth != 0.0 && srcHeight != 0.0
    modifies states
    ensures states[..] == FinishAll(old(states[..]), srcWidth, srcHeight, dstWidth, dstHeight, center)
  {
    var t := 0;
    while t < states.Length
      invariant t <= states.Length
      invariant forall q :: 0 <= q < t ==> states[q] == Finished(old(states[q]), srcWidth, srcHeight, dstWidth, dstHeight, center)
      invariant forall q :: t <= q < states.Length ==> states[q] == old(states[q])
    {
      states[t] := Finish(states[t], srcWidth, srcHeight, dstWidth, dstHeight, center);
      t := t + 1;
    }
  }

  /** What operator() leaves in the frames: nothing changes in an empty
      animation; otherwise the refined frames are rescaled to the canvas
      and moved to its centre. */
  function Foresight(cfg: Config, frames: seq<Layout>): (r: seq<Layout>)
    requires forall t :: 0 <= t < |frames| ==> frames[t].Valid()
    requires cfg.canvasWidth != 0.0 && cfg.canvasHeight != 0.0
    ensures |r| == |frames|
  {
    if |frames| == 0 then frames
    else
      CalculationScale(cfg.canvasWidth, cfg.canvasHeight);
      FinishAll(Refined(cfg, frames), CalculationWidth(cfg.canvasWidth, cfg.canvasHeight), CalculationHeight,
        cfg.canvasWidth, cfg.canvasHeight, cfg.center)
  }

  /** The foresighted_layout object: the tolerance, the canvas and its
      centre, the cooling and the distance mode are fields its setters
      update; the static layout and the square root it works with are fixed
      at construction. operator() rewrites the frames of the animation in
      place. */
  class ForesightedLayout {
    var tolerance: real
    var canvasWidth: real
    var canvasHeight: real
    var center: Coords
    var cooling: FR.Cooling
    var relative: bool
    const lay: StaticLayout
    const sqrt: real -> real

    /** The settings operator() reads. */
    function Settings(): (cfg: Config)
      reads this
      ensures cfg.tolerance == tolerance && cfg.canvasWidth == canvasWidth && cfg.canvasHeight == canvasHeight
      ensures cfg.center == center && cfg.cooling == cooling && cfg.relative == relative
      ensures cfg.lay == lay && cfg.sqrt == sqrt
    {
      Config(tolerance, canvasWidth, canvasHeight, center, cooling, lay, relative, sqrt)
    }

    /** A tolerance, a canvas and its centre; the default cooling and
        relative distances. */
    constructor (tolerance: real, canvasWidth: real, canvasHeight: real, center: Coords, lay: StaticLayout, sqrt: real -> real)
      ensures this.tolerance == tolerance && this.canvasWidth == canvasWidth && this.canvasHeight == canvasHeight
      ensures this.center == center && this.cooling == DefaultCooling() && this.relative
      ensures this.lay == lay && this.sqrt == sqrt
    {
      this.tolerance := tolerance;
      this.canvasWidth := canvasWidth;
      this.canvasHeight := canvasHeight;
      this.center := center;
      this.cooling := DefaultCooling();
      this.relative := true;
      this.lay := lay;
      this.sqrt := sqrt;
    }

    /** A tolerance on the unit canvas around the origin. */
    constructor WithTolerance(tolerance: real, lay: StaticLayout, sqrt: real -> real)
      ensures this.tolerance == tolerance && canvasWidth == 1.0 && canvasHeight == 1.0
      ensures center == Origin && cooling == DefaultCooling() && relative
      ensures this.lay == lay && this.sqrt == sqrt
    {
      this.tolerance := tolerance;
      canvasWidth := 1.0;
      canvasHeight := 1.0;
      center := Origin;
      cooling := DefaultCooling();
      relative := true;
      this.lay := lay;
      this.sqrt := sqrt;
    }

    /** Tolerance zero on the unit canvas around the origin. */
    constructor Default(lay: StaticLayout, sqrt: real -> real)
      ensures tolerance == 0.0 && canvasWidth == 1.0 && canvasHeight == 1.0
      ensures center == Origin && cooling == DefaultCooling() && relative
      ensures this.lay == lay && this.sqrt == sqrt
    {
      tolerance := 0.0;
      canvasWidth := 1.0;
      canvasHeight := 1.0;
      center := Origin;
      cooling := DefaultCooling();
      relative := true;
      this.lay := lay;
      this.sqrt := sqrt;
    }

    /** set_canvas: the canvas and its centre change, nothing else. */
    method SetCanvas(w: real, h: real, c: Coords)
      modifies this
      ensures canvasWidth == w && canvasHeight == h && center == c
      ensures tolerance == old(tolerance) && cooling == old(cooling) && relative == old(relative)
    {
      canvasWidth := w;
      canvasHeight := h;
      center := c;
    }

    /** set_tolerance: only the tolerance changes. */
    method SetTolerance(t: real)
      modifies this
      ensures tolerance == t
      ensures canvasWidth == old(canvasWidth) && canvasHeight == old(canvasHeight) && center == old(center)
      ensures cooling == old(cooling) && relative == old(relative)
    {
      tolerance := t;
    }

    /** use_relative_distance: only the distance mode changes. */
    method UseRelativeDistance(r: bool)
      modifies this
      ensures relative == r
      ensures tolerance == old(tolerance) && canvasWidth == old(canvasWidth) && canvasHeight == old(canvasHeight)
      ensures center == old(center) && cooling == old(cooling)
    {
      relative := r;
    }

    /** set_cooling: only the cooling changes. */
    method SetCooling(c: FR.Cooling)
      modifies this
      ensures cooling == c
      ensures tolerance == old(tolerance) && canvasWidth == old(canvasWidth) && canvasHeight == old(canvasHeight)
      ensures center == old(center) && relative == old(relative)
    {
      cooling := c;
    }

    /** operator(): an empty animation is left alone; otherwise the layout
        is calculated on a canvas of height 1 with the requested aspect
        ratio by basic_layout and, for a non-zero tolerance, tolerance; then
        every frame is rescaled to the requested canvas and moved to its
        centre. */
    method Apply(states: array<Layout>)
      requires forall t :: 0 <= t < states.Length ==> states[t].Valid()
      requires canvasWidth != 0.0 && canvasHeight != 0.0
      modifies states
      ensures states[..] == Foresight(Settings(), old(states[..]))
    {
      if states.Length == 0 {
        return;
      }
      ghost var frames := states[..];
      var calculationH := CalculationHeight;
      var calculationW := CalculationWidth(canvasWidth, canvasHeight);
      CalculationScale(canvasWidth, canvasHeight);
      BasicLayout(lay.place, states, calculationW, calculationH);
      if tolerance != 0.0 {
        Tolerance(lay, sqrt, relative, cooling, states, calculationW, calculationH, tolerance);
      }
      assert states[..] == Refined(Settings(), frames);
      FinishFrames(states, calculationW, calculationH, canvasWidth, canvasHeight, center);
    }
  }

  /** operator() only moves nodes: every frame keeps its nodes, edges and
      adjacency, and stays valid. */
  lemma ForesightRelaid(cfg: Config, frames: seq<Layout>, r: seq<Layout>)
    requires forall t :: 0 <= t < |frames| ==> frames[t].Valid()
    requires cfg.canvasWidth != 0.0 && cfg.canvasHeight != 0.0
    requires r == Foresight(cfg, frames)
    ensures AllRelaid(r, frames)
    ensures forall t :: 0 <= t < |r| ==> r[t].Valid()
  {
    if |frames| == 0 {
    } else {
      var refined := Refined(cfg, frames);
      RefinedRelaid(cfg, frames, refined);
      CalculationScale(cfg.canvasWidth, cfg.canvasHeight);
      var cw := CalculationWidth(cfg.canvasWidth, cfg.canvasHeight);
      FinishAllRelaid(refined, cw, CalculationHeight, cfg.canvasWidth, cfg.canvasHeight, cfg.center, r);
      AllRelaidTrans(r, refined, frames);
      AllRelaidValid(r, frames);
    }
  }

  /** Relaying out every frame twice is relaying out every frame once. */
  lemma AllRelaidTrans(a: seq<GraphState>, b: seq<GraphState>, c: seq<GraphState>)
    requires AllRelaid(a, b) && AllRelaid(b, c)
    ensures AllRelaid(a, c)
  {
    forall t | 0 <= t < |a| ensures Relaid(a[t], c[t]) {
      RelaidTrans(a[t], b[t], c[t]);
    }
  }

  /** Relaid valid frames are valid. */
  lemma AllRelaidValid(a: seq<GraphState>, b: seq<GraphState>)
    requires AllRelaid(a, b) && forall t :: 0 <= t < |b| ==> b[t].Valid()
    ensures forall t :: 0 <= t < |a| ==> a[t].Valid()
  {
    forall t | 0 <= t < |a| ensures a[t].Valid() {
      RelaidSpec(a[t], b[t]);
    }
  }

  /** Rescaling and moving every frame only moves nodes. */
  lemma FinishAllRelaid(fs: seq<Layout>, srcWidth: real, srcHeight: real, dstWidth: real, dstHeight: real, center: Coords, r: seq<Layout>)
    requires srcWidth != 0.0 && srcHeight != 0.0
    requires r == FinishAll(fs, srcWidth, srcHeight, dstWidth, dstHeight, center)
    ensures AllRelaid(r, fs)
  {
    forall t | 0 <= t < |fs| ensures Relaid(r[t], fs[t]) {
      FinishedRelaid(fs[t], srcWidth, srcHeight, dstWidth, dstHeight, center, r[t]);
    }
  }

  /** Rescaling and moving only move nodes. */
  lemma FinishedRelaid(f: Layout, srcWidth: real, srcHeight: real, dstWidth: real, dstHeight: real, center: Coords, g: Layout)
    requires srcWidth != 0.0 && srcHeight != 0.0
    requires g == Finished(f, srcWidth, srcHeight, dstWidth, dstHeight, center)
    ensures Relaid(g, f)
  {
    WithPositionsSpec(f, Shifted(Scaled(Positions(f), dstWidth / srcWidth, dstHeight / srcHeight), center.x, center.y));
  }

  /** basic_layout and the tolerance rounds only move nodes. */
  lemma RefinedRelaid(cfg: Config, frames: seq<Layout>, r: seq<Layout>)
    requires forall t :: 0 <= t < |frames| ==> frames[t].Valid()
    requires cfg.canvasHeight != 0.0 && |frames| > 0
    requires r == Refined(cfg, frames)
    ensures AllRelaid(r, frames)
  {
    var cw := CalculationWidth(cfg.canvasWidth, cfg.canvasHeight);
    var basic := Basic(cfg.lay.place, frames, cw, CalculationHeight);
    BasicRelaid(cfg.lay.place, frames, cw, CalculationHeight, basic);
    if cfg.tolerance != 0.0 {
      var tu := TuningOf(cfg.lay, cfg.sqrt, cfg.relative, cw, CalculationHeight, cfg.tolerance, basic);
      RoundsRelaid(tu, cfg.cooling, basic, cfg.cooling.iterations, r);
      forall t | 0 <= t < |frames| ensures Relaid(r[t], frames[t]) {
        RelaidTrans(r[t], basic[t], frames[t]);
      }
    }
  }

  /** basic_layout only moves nodes. */
  lemma BasicRelaid(place: (Partitioning, real, real, nat) -> Coords, frames: seq<Layout>, w: real, h: real, r: seq<Layout>)
    requires forall t :: 0 <= t < |frames| ==> frames[t].Valid()
    requires r == Basic(place, frames, w, h)
    ensures AllRelaid(r, frames)
  {
    PlacedRgapOk(place, frames, w, h);
    var m := PlacedRgap(place, frames, w, h).value;
    forall t | 0 <= t < |frames| ensures Relaid(r[t], frames[t]) {
      WithPositionsSpec(frames[t], HomePositions(frames[t], m));
    }
  }

  /** Where operator() puts a node: its refined position scaled by the
      canvas height on both axes (the aspect ratio is kept) and moved by the
      centre. */
  lemma ForesightPlacement(cfg: Config, frames: seq<Layout>, t: nat, j: nat)
    requires forall u :: 0 <= u < |frames| ==> frames[u].Valid()
    requires cfg.canvasWidth != 0.0 && cfg.canvasHeight != 0.0
    requires t < |frames| && j < |frames[t].nodes.vec|
    ensures |Refined(cfg, frames)[t].nodes.vec| == |frames[t].nodes.vec|
    ensures |Foresight(cfg, frames)[t].nodes.vec| == |frames[t].nodes.vec|
    ensures Foresight(cfg, frames)[t].nodes.vec[j].pos == Placement(cfg.canvasHeight, cfg.center, Refined(cfg, frames)[t].nodes.vec[j].pos)
  {
    var refined := Refined(cfg, frames);
    RefinedRelaid(cfg, frames, refined);
    assert Relaid(refined[t], frames[t]);
    CalculationScale(cfg.canvasWidth, cfg.canvasHeight);
    var cw := CalculationWidth(cfg.canvasWidth, cfg.canvasHeight);
    var r := Foresight(cfg, frames);
    assert r == FinishAll(refined, cw, CalculationHeight, cfg.canvasWidth, cfg.canvasHeight, cfg.center);
    FinishedPlacement(refined[t], cfg.canvasWidth, cfg.canvasHeight, cfg.center, r[t], j);
  }

  /** A position of the calculation canvas scaled by h on both axes and
      moved by the centre. */
  function Placement(h: real, center: Coords, p: Coords): Coords
  {
    Coords(h * p.x + center.x, h * p.y + center.y)
  }

  /** One frame finished from the calculation canvas: node j is scaled by
      the height and moved by the centre. */
  lemma FinishedPlacement(f: Layout, w: real, h: real, center: Coords, g: Layout, j: nat)
    requires w != 0.0 && h != 0.0 && j < |f.nodes.vec|
    requires CalculationWidth(w, h) != 0.0
    requires g == Finished(f, CalculationWidth(w, h), CalculationHeight, w, h, center)
    ensures |g.nodes.vec| == |f.nodes.vec|
    ensures g.nodes.vec[j].pos == Placement(h, center, f.nodes.vec[j].pos)
  {
    CalculationScale(w, h);
    var ps := Shifted(Scaled(Positions(f), w / CalculationWidth(w, h), h / CalculationHeight), center.x, center.y);
    WithPositionsSpec(f, ps);
    assert g.nodes.vec[j].pos == ps[j];
  }

  /** A node the calculation placed on the calculation canvas ends on the
      requested canvas, [cx - w/2, cx + w/2] x [cy - h/2, cy + h/2]. */
  lemma ForesightOnCanvas(cfg: Config, frames: seq<Layout>, t: nat, j: nat)
    requires forall u :: 0 <= u < |frames| ==> frames[u].Valid()
    requires cfg.canvasWidth > 0.0 && cfg.canvasHeight > 0.0
    requires t < |frames| && j < |frames[t].nodes.vec|
    requires j < |Refined(cfg, frames)[t].nodes.vec|
    requires OptimizationGrids.OnCanvas(CalculationWidth(cfg.canvasWidth, cfg.canvasHeight), CalculationHeight, Refined(cfg, frames)[t].nodes.vec[j].pos)
    ensures j < |Foresight(cfg, frames)[t].nodes.vec|
    ensures var q := Foresight(cfg, frames)[t].nodes.vec[j].pos;
      OptimizationGrids.OnCanvas(cfg.canvasWidth, cfg.canvasHeight, Coords(q.x - cfg.center.x, q.y - cfg.center.y))
  {
    ForesightPlacement(cfg, frames, t, j);
    PlacementOnCanvas(cfg.canvasWidth, cfg.canvasHeight, cfg.center, Refined(cfg, frames)[t].nodes.vec[j].pos);
  }

  /** Placement sends the calculation canvas onto the canvas around the
      centre. */
  lemma PlacementOnCanvas(w: real, h: real, center: Coords, p: Coords)
    requires w > 0.0 && h > 0.0
    requires OptimizationGrids.OnCanvas(CalculationWidth(w, h), CalculationHeight, p)
    ensures var q := Placement(h, center, p);
      OptimizationGrids.OnCanvas(w, h, Coords(q.x - center.x, q.y - center.y))
  {
    var cw := CalculationWidth(w, h);
    WidthBack(w, h);
    var q := Placement(h, center, p);
    assert q.x - center.x == h * p.x && q.y - center.y == h * p.y;
    ScaledOnCanvas(h, cw, w, p.x);
    ScaledOnCanvas(h, CalculationHeight, h, p.y);
  }

  /** The calculation width times the height is the width. */
  lemma WidthBack(w: real, h: real)
    requires h != 0.0
    ensures h * CalculationWidth(w, h) == w
  {
    assert CalculationWidth(w, h) == w / h;
  }

  /** Scaling by h > 0 sends [-c/2, c/2] to [-w/2, w/2] when h * c == w. */
  lemma ScaledOnCanvas(h: real, c: real, w: real, x: real)
    requires h > 0.0 && h * c == w && -c / 2.0 <= x <= c / 2.0
    ensures -w / 2.0 <= h * x <= w / 2.0
  {
    assert h * (c / 2.0) == w / 2.0;
    assert h * x <= h * (c / 2.0);
    assert h * (-c / 2.0) <= h * x;
  }

  /** The mental map when the tolerance is zero: nodes in the same
      partition of the RGAP, in particular one node in any two frames, end
      at the same position. */
  lemma ZeroToleranceMentalMap(cfg: Config, frames: seq<Layout>, t1: nat, i: nat, t2: nat, j: nat)
    requires forall u :: 0 <= u < |frames| ==> frames[u].Valid()
    requires cfg.canvasWidth != 0.0 && cfg.canvasHeight != 0.0 && cfg.tolerance == 0.0
    requires t1 < |frames| && i < |frames[t1].nodes.vec| && t2 < |frames| && j < |frames[t2].nodes.vec|
    requires PlacedRgap(cfg.lay.place, frames, CalculationWidth(cfg.canvasWidth, cfg.canvasHeight), CalculationHeight).Ok?
    requires var m := PlacedRgap(cfg.lay.place, frames, CalculationWidth(cfg.canvasWidth, cfg.canvasHeight), CalculationHeight).value;
      m.NodeTarget(frames[t1].nodes.vec[i].id) == m.NodeTarget(frames[t2].nodes.vec[j].id)
    ensures |Foresight(cfg, frames)[t1].nodes.vec| == |frames[t1].nodes.vec|
    ensures |Foresight(cfg, frames)[t2].nodes.vec| == |frames[t2].nodes.vec|
    ensures Foresight(cfg, frames)[t1].nodes.vec[i].pos == Foresight(cfg, frames)[t2].nodes.vec[j].pos
  {
    var cw := CalculationWidth(cfg.canvasWidth, cfg.canvasHeight);
    ZeroToleranceBasic(cfg, frames);
    BasicSharePosition(cfg.lay.place, frames, cw, CalculationHeight, Refined(cfg, frames), t1, i, t2, j);
    ForesightPlacement(cfg, frames, t1, i);
    ForesightPlacement(cfg, frames, t2, j);
  }

  /** With tolerance zero the calculation is basic_layout alone. */
  lemma ZeroToleranceBasic(cfg: Config, frames: seq<Layout>)
    requires forall u :: 0 <= u < |frames| ==> frames[u].Valid()
    requires cfg.canvasHeight != 0.0 && cfg.tolerance == 0.0 && |frames| > 0
    ensures Refined(cfg, frames) == Basic(cfg.lay.place, frames, CalculationWidth(cfg.canvasWidth, cfg.canvasHeight), CalculationHeight)
  {
  }

  /** After basic_layout (whose result is r) nodes in one partition have
      one position. */
  lemma BasicSharePosition(place: (Partitioning, real, real, nat) -> Coords, frames: seq<Layout>, w: real, h: real, r: seq<Layout>,
                           t1: nat, i: nat, t2: nat, j: nat)
    requires forall u :: 0 <= u < |frames| ==> frames[u].Valid()
    requires r == Basic(place, frames, w, h)
    requires t1 < |frames| && i < |frames[t1].nodes.vec| && t2 < |frames| && j < |frames[t2].nodes.vec|
    requires PlacedRgap(place, frames, w, h).Ok?
    requires var m := PlacedRgap(place, frames, w, h).value;
      m.NodeTarget(frames[t1].nodes.vec[i].id) == m.NodeTarget(frames[t2].nodes.vec[j].id)
    ensures |r[t1].nodes.vec| == |frames[t1].nodes.vec| && |r[t2].nodes.vec| == |frames[t2].nodes.vec|
    ensures r[t1].nodes.vec[i].pos == r[t2].nodes.vec[j].pos
  {
    PlacedRgapOk(place, frames, w, h);
    var m := PlacedRgap(place, frames, w, h).value;
    assert r[t1] == Homed(frames[t1], m) && r[t2] == Homed(frames[t2], m);
    WithPositionsSpec(frames[t1], HomePositions(frames[t1], m));
    WithPositionsSpec(frames[t2], HomePositions(frames[t2], m));
    SamePartitionSamePosition(frames[t1], frames[t2], m, i, j);
  }
}
