/** The first steps of foresighted layout (dyng/foresighted_layout.h): the
    live times of every node and edge of an animation, and the supergraph
    that holds every node and edge that ever appears in it. */
module Supergraphs {
  import opened Wrappers
  import opened Identifiers
  import opened Container
  import opened Nodes
  import opened Edges
  import opened LiveSets
  import opened Graphs

  // ------------------------------------------------------------ live times

  /** The ids of a frame's nodes, in vector order. */
  function NodeIds(f: GraphState): (ids: seq<NodeId>)
    ensures |ids| == |f.nodes.vec| && forall i :: 0 <= i < |ids| ==> ids[i] == f.nodes.vec[i].id
  {
    seq(|f.nodes.vec|, i requires 0 <= i < |f.nodes.vec| => f.nodes.vec[i].id)
  }

  /** The ids of a frame's edges, in vector order. */
  function EdgeIds(f: GraphState): (ids: seq<EdgeId>)
    ensures |ids| == |f.edges.vec| && forall i :: 0 <= i < |ids| ==> ids[i] == f.edges.vec[i].id
  {
    seq(|f.edges.vec|, i requires 0 <= i < |f.edges.vec| => f.edges.vec[i].id)
  }

  /** The node ids of every frame. */
  function NodeIdLists(states: seq<GraphState>): (r: seq<seq<NodeId>>)
    ensures |r| == |states| && forall t :: 0 <= t < |r| ==> r[t] == NodeIds(states[t])
  {
    seq(|states|, t requires 0 <= t < |states| => NodeIds(states[t]))
  }

  /** The edge ids of every frame. */
  function EdgeIdLists(states: seq<GraphState>): (r: seq<seq<EdgeId>>)
    ensures |r| == |states| && forall t :: 0 <= t < |r| ==> r[t] == EdgeIds(states[t])
  {
    seq(|states|, t requires 0 <= t < |states| => EdgeIds(states[t]))
  }

  /** The live set of `k` in m, a default-constructed (empty) one when m
      has none: what `result[id]` yields. */
  function LiveOf<K>(m: map<K, LiveSet>, k: K): LiveSet
  {
    if k in m then m[k] else []
  }

  /** `result[id].add(t)` for each id of one frame, in order. */
  function AddTime<K>(m: map<K, LiveSet>, ids: seq<K>, t: nat): map<K, LiveSet>
  {
    if ids == [] then m
    else
      var r := AddTime(m, ids[..|ids| - 1], t);
      var k := ids[|ids| - 1];
      r[k := Add(LiveOf(r, k), t)]
  }

  /** The live sets built frame by frame: each id of frame t gets t. */
  function LiveTimes<K>(frames: seq<seq<K>>): map<K, LiveSet>
  {
    if frames == [] then map[]
    else AddTime(LiveTimes(frames[..|frames| - 1]), frames[|frames| - 1], |frames| - 1)
  }

  /** node_live_times and edge_live_times, the same loop over the ids of
      each frame: for t from 0, every id of frame t gets t added. */
  method CollectLiveTimes<K>(frames: seq<seq<K>>) returns (result: map<K, LiveSet>)
    ensures result == LiveTimes(frames)
  {
    result := map[];
    var t := 0;
    while t < |frames|
      invariant t <= |frames| && result == LiveTimes(frames[..t])
    {
      var i := 0;
      while i < |frames[t]|
        invariant i <= |frames[t]| && result == AddTime(LiveTimes(frames[..t]), frames[t][..i], t)
      {
        var k := frames[t][i];
        AddTimeStep(LiveTimes(frames[..t]), frames[t], i, t);
        result := result[k := Add(LiveOf(result, k), t)];
        i := i + 1;
      }
      LiveTimesStep(frames, t);
      t := t + 1;
    }
    assert frames[..t] == frames;
  }

  lemma AddTimeStep<K>(m: map<K, LiveSet>, ids: seq<K>, i: nat, t: nat)
    requires i < |ids|
    ensures AddTime(m, ids[..i + 1], t) ==
      AddTime(m, ids[..i], t)[ids[i] := Add(LiveOf(AddTime(m, ids[..i], t), ids[i]), t)]
  {
    assert ids[..i + 1][..i] == ids[..i];
  }

  lemma LiveTimesStep<K>(frames: seq<seq<K>>, t: nat)
    requires t < |frames|
    ensures LiveTimes(frames[..t + 1]) == AddTime(LiveTimes(frames[..t]), frames[t][..|frames[t]|], t)
  {
    assert frames[..t + 1][..t] == frames[..t];
    assert frames[t][..|frames[t]|] == frames[t];
  }

  /** One frame's pass gives a live set to exactly its ids. */
  lemma {:induction false} AddTimeKeys<K>(m: map<K, LiveSet>, ids: seq<K>, t: nat, k: K)
    ensures k in AddTime(m, ids, t) <==> k in m || k in ids
  {
    if ids != [] {
      AddTimeKeys(m, ids[..|ids| - 1], t, k);
      assert ids == ids[..|ids| - 1] + [ids[|ids| - 1]];
    }
  }

  /** One frame's pass leaves the live set of an id it does not list alone. */
  lemma {:induction false} AddTimeElsewhere<K>(m: map<K, LiveSet>, ids: seq<K>, t: nat, k: K)
    requires k !in ids
    ensures LiveOf(AddTime(m, ids, t), k) == LiveOf(m, k)
  {
    if ids != [] {
      assert ids == ids[..|ids| - 1] + [ids[|ids| - 1]];
      AddTimeElsewhere(m, ids[..|ids| - 1], t, k);
    }
  }

  /** One frame's pass adds t to exactly the live sets of its ids. */
  lemma {:induction false} AddTimeSpec<K>(m: map<K, LiveSet>, ids: seq<K>, t: nat, k: K)
    ensures forall x :: x in LiveOf(AddTime(m, ids, t), k) <==> x in LiveOf(m, k) || (k in ids && x == t)
  {
    if ids != [] {
      var init := ids[..|ids| - 1];
      var last := ids[|ids| - 1];
      AddTimeSpec(m, init, t, k);
      assert ids == init + [last];
      var r := AddTime(m, init, t);
      if last == k {
        assert LiveOf(AddTime(m, ids, t), k) == LiveOf(r, k) + [t];
      } else {
        assert LiveOf(AddTime(m, ids, t), k) == LiveOf(r, k);
      }
    }
  }

  /** With distinct ids in the frame, t is appended to each of their live
      sets exactly once. */
  lemma {:induction false} AddTimeOnce<K>(m: map<K, LiveSet>, ids: seq<K>, t: nat, k: K)
    requires forall i, j :: 0 <= i < j < |ids| ==> ids[i] != ids[j]
    requires k in ids
    ensures LiveOf(AddTime(m, ids, t), k) == LiveOf(m, k) + [t]
  {
    var init := ids[..|ids| - 1];
    if ids[|ids| - 1] == k {
      assert k !in init;
      AddTimeElsewhere(m, init, t, k);
    } else {
      assert k in init;
      AddTimeOnce(m, init, t, k);
    }
  }

  /** t is in the live set of k exactly when k is an id of frame t: the
      ids with a live set are those of some frame. */
  lemma {:induction false} LiveTimesSpec<K>(frames: seq<seq<K>>, k: K)
    ensures k in LiveTimes(frames) <==> exists u :: 0 <= u < |frames| && k in frames[u]
    ensures forall t: nat :: t in LiveOf(LiveTimes(frames), k) <==> t < |frames| && k in frames[t]
  {
    if frames != [] {
      var n := |frames| - 1;
      var init := frames[..n];
      LiveTimesSpec(init, k);
      AddTimeKeys(LiveTimes(init), frames[n], n, k);
      AddTimeSpec(LiveTimes(init), frames[n], n, k);
      assert forall u :: 0 <= u < n ==> init[u] == frames[u];
      if k in frames[n] {
        assert k in LiveTimes(frames);
      }
    }
  }

  /** When no frame lists an id twice (as in every valid graph), every live
      set lists its times in strictly increasing order. */
  lemma {:induction false} LiveTimesIncreasing<K>(frames: seq<seq<K>>, k: K)
    requires forall u, i, j :: 0 <= u < |frames| && 0 <= i < j < |frames[u]| ==> frames[u][i] != frames[u][j]
    ensures Increasing(LiveOf(LiveTimes(frames), k))
  {
    if frames != [] {
      var n := |frames| - 1;
      var init := frames[..n];
      DistinctPrefix(frames, n);
      LiveTimesIncreasing(init, k);
      LiveTimesLast(frames, k);
      var before := LiveOf(LiveTimes(init), k);
      if k in frames[n] {
        LiveTimesBelow(init, k);
        AddKeepsIncreasing(before, n);
      }
    }
  }

  /** No frame lists an id twice. */
  ghost predicate FramesDistinct<K>(frames: seq<seq<K>>)
  {
    forall u, i, j :: 0 <= u < |frames| && 0 <= i < j < |frames[u]| ==> frames[u][i] != frames[u][j]
  }

  lemma DistinctPrefix<K>(frames: seq<seq<K>>, n: nat)
    requires n <= |frames| && FramesDistinct(frames)
    ensures FramesDistinct(frames[..n])
  {
    assert forall u :: 0 <= u < n ==> frames[..n][u] == frames[u];
  }

  /** The last frame adds its index to the live set of each of its ids. */
  lemma LiveTimesLast<K>(frames: seq<seq<K>>, k: K)
    requires frames != [] && FramesDistinct(frames)
    ensures var n := |frames| - 1;
      LiveOf(LiveTimes(frames), k) ==
        if k in frames[n] then Add(LiveOf(LiveTimes(frames[..n]), k), n) else LiveOf(LiveTimes(frames[..n]), k)
  {
    var n := |frames| - 1;
    if k in frames[n] {
      AddTimeOnce(LiveTimes(frames[..n]), frames[n], n, k);
    } else {
      AddTimeElsewhere(LiveTimes(frames[..n]), frames[n], n, k);
    }
  }

  /** Every recorded time is the index of a frame. */
  lemma LiveTimesBelow<K>(frames: seq<seq<K>>, k: K)
    ensures forall i :: 0 <= i < |LiveOf(LiveTimes(frames), k)| ==> LiveOf(LiveTimes(frames), k)[i] < |frames|
  {
    LiveTimesSpec(frames, k);
    var s := LiveOf(LiveTimes(frames), k);
    assert forall i :: 0 <= i < |s| ==> s[i] in s;
  }

  /** The ids of a valid frame are distinct. */
  lemma ValidIdsDistinct(states: seq<GraphState>)
    requires forall t :: 0 <= t < |states| ==> states[t].Valid()
    ensures forall u, i, j :: 0 <= u < |states| && 0 <= i < j < |NodeIdLists(states)[u]| ==> NodeIdLists(states)[u][i] != NodeIdLists(states)[u][j]
    ensures forall u, i, j :: 0 <= u < |states| && 0 <= i < j < |EdgeIdLists(states)[u]| ==> EdgeIdLists(states)[u][i] != EdgeIdLists(states)[u][j]
  {
    forall u | 0 <= u < |states| ensures UniqueIds(states[u].nodes.vec, NodeIdOf) && UniqueIds(states[u].edges.vec, EdgeIdOf) {
      IndexedUnique(states[u].nodes, NodeIdOf);
      IndexedUnique(states[u].edges, EdgeIdOf);
    }
  }

  // ------------------------------------------------------------ supergraph

  /** emplace_node(node.id()) for each node, in order: a fresh node per id
      not yet stored. */
  function PushNodesFrom(g: GraphState, ns: seq<Node<()>>): GraphState
    decreases |ns|
  {
    if ns == [] then g else PushNodesFrom(PushNode(g, NewNode(ns[0].id, ())), ns[1..])
  }

  /** emplace_edge(edge.id(), edge.one_id(), edge.two_id()) for each edge,
      in order; the first push that finds an endpoint missing throws. */
  function PushEdgesFrom(g: GraphState, es: seq<Edge<()>>): Result<GraphState>
    decreases |es|
  {
    if es == [] then Ok(g)
    else
      var h :- PushEdge(g, NewEdge(es[0].id, es[0].one, es[0].two, ()));
      PushEdgesFrom(h, es[1..])
  }

  /** The supergraph grown by the remaining frames: each frame's nodes,
      then its edges. */
  function SupergraphFrom(g: GraphState, animation: seq<GraphState>): Result<GraphState>
    decreases |animation|
  {
    if animation == [] then Ok(g)
    else
      var h :- PushEdgesFrom(PushNodesFrom(g, animation[0].nodes.vec), animation[0].edges.vec);
      SupergraphFrom(h, animation[1..])
  }

  /** calculate_supergraph: the union of every frame's nodes and edges. */
  function Supergraph(animation: seq<GraphState>): Result<GraphState>
  {
    SupergraphFrom(EmptyFrame(), animation)
  }

  /** calculate_supergraph, the loop: every frame's nodes, then its edges,
      are emplaced into one graph. */
  method CalculateSupergraph(animation: seq<GraphState>) returns (r: Result<GraphState>)
    ensures r == Supergraph(animation)
  {
    var supergraph: GraphState := EmptyFrame();
    var t := 0;
    while t < |animation|
      invariant t <= |animation|
      invariant SupergraphFrom(supergraph, animation[t..]) == Supergraph(animation)
    {
      var state := animation[t];
      ghost var g0 := supergraph;
      var i := 0;
      while i < |state.nodes.vec|
        invariant i <= |state.nodes.vec|
        invariant PushNodesFrom(supergraph, state.nodes.vec[i..]) == PushNodesFrom(g0, state.nodes.vec)
      {
        assert state.nodes.vec[i..][1..] == state.nodes.vec[i + 1..];
        supergraph := PushNode(supergraph, NewNode(state.nodes.vec[i].id, ()));
        i := i + 1;
      }
      assert state.nodes.vec[i..] == [];
      ghost var g1 := supergraph;
      var j := 0;
      while j < |state.edges.vec|
        invariant j <= |state.edges.vec|
        invariant PushEdgesFrom(supergraph, state.edges.vec[j..]) == PushEdgesFrom(g1, state.edges.vec)
      {
        var e := state.edges.vec[j];
        assert state.edges.vec[j..][1..] == state.edges.vec[j + 1..];
        var pushed := PushEdge(supergraph, NewEdge(e.id, e.one, e.two, ()));
        if pushed.Err? {
          assert animation[t..][0] == state;
          assert PushEdgesFrom(g1, state.edges.vec) == Err(pushed.error);
          return Err(pushed.error);
        }
        supergraph := pushed.value;
        j := j + 1;
      }
      assert state.edges.vec[j..] == [];
      assert animation[t..][0] == state && animation[t..][1..] == animation[t + 1..];
      t := t + 1;
    }
    assert animation[t..] == [];
    r := Ok(supergraph);
  }

  /** The ids of a run of nodes. */
  function NodeIdsOf(ns: seq<Node<()>>): set<NodeId>
  {
    set n | n in ns :: n.id
  }

  /** The ids of a run of edges. */
  function EdgeIdsOf(es: seq<Edge<()>>): set<EdgeId>
  {
    set e | e in es :: e.id
  }

  /** Every node is a default one, made from its id alone. */
  ghost predicate FreshNodes(g: GraphState)
  {
    forall i :: 0 <= i < |g.nodes.vec| ==> g.nodes.vec[i] == NewNode(g.nodes.vec[i].id, ())
  }

  /** Emplacing nodes keeps a valid graph valid and leaves its edges. */
  lemma {:induction false} PushNodesFromValid(g: GraphState, ns: seq<Node<()>>)
    requires g.Valid()
    ensures PushNodesFrom(g, ns).Valid() && PushNodesFrom(g, ns).edges == g.edges
    decreases |ns|
  {
    if ns != [] {
      PushNodeSpec(g, NewNode(ns[0].id, ()));
      PushNodesFromValid(PushNode(g, NewNode(ns[0].id, ())), ns[1..]);
    }
  }

  /** Emplacing nodes stores exactly the ids stored before and the ids of
      the run, each new one as a default node. */
  lemma {:induction false} PushNodesFromKeys(g: GraphState, ns: seq<Node<()>>)
    ensures forall id :: id in PushNodesFrom(g, ns).nodes.index <==> id in g.nodes.index || id in NodeIdsOf(ns)
    ensures FreshNodes(g) ==> FreshNodes(PushNodesFrom(g, ns))
    ensures PushNodesFrom(g, ns).edges == g.edges
    decreases |ns|
  {
    if ns != [] {
      PushNodesFromKeys(PushNode(g, NewNode(ns[0].id, ())), ns[1..]);
      assert NodeIdsOf(ns) == {ns[0].id} + NodeIdsOf(ns[1..]) by {
        assert ns == [ns[0]] + ns[1..];
      }
    }
  }

  /** Emplacing edges between stored nodes succeeds and keeps a valid
      graph valid, with its nodes. */
  lemma {:induction false} PushEdgesFromValid(g: GraphState, es: seq<Edge<()>>)
    requires g.Valid()
    requires forall i :: 0 <= i < |es| ==> es[i].one in g.nodes.index && es[i].two in g.nodes.index
    ensures PushEdgesFrom(g, es).Ok?
    ensures PushEdgesFrom(g, es).value.Valid() && PushEdgesFrom(g, es).value.nodes == g.nodes
    decreases |es|
  {
    if es != [] {
      var e := NewEdge(es[0].id, es[0].one, es[0].two, ());
      PushEdgeSpec(g, e);
      PushEdgesFromValid(PushEdge(g, e).value, es[1..]);
    }
  }

  /** Emplacing edges keeps every stored edge where it was and stores
      exactly the ids of the run besides. */
  lemma {:induction false} PushEdgesFromKeys(g: GraphState, es: seq<Edge<()>>)
    requires PushEdgesFrom(g, es).Ok?
    ensures forall id :: id in PushEdgesFrom(g, es).value.edges.index <==> id in g.edges.index || id in EdgeIdsOf(es)
    ensures |g.edges.vec| <= |PushEdgesFrom(g, es).value.edges.vec|
    ensures PushEdgesFrom(g, es).value.edges.vec[..|g.edges.vec|] == g.edges.vec
    ensures forall id :: id in g.edges.index ==> PushEdgesFrom(g, es).value.edges.index[id] == g.edges.index[id]
    ensures g.edges.IndexInBounds() ==> PushEdgesFrom(g, es).value.edges.IndexInBounds()
    ensures PushEdgesFrom(g, es).value.nodes == g.nodes
    decreases |es|
  {
    if es != [] {
      var h := PushEdge(g, NewEdge(es[0].id, es[0].one, es[0].two, ())).value;
      PushEdgesFromKeys(h, es[1..]);
      assert EdgeIdsOf(es) == {es[0].id} + EdgeIdsOf(es[1..]) by {
        assert es == [es[0]] + es[1..];
      }
      assert h.edges.vec[..|g.edges.vec|] == g.edges.vec;
    }
  }

  /** An id new to the graph is stored with the endpoints of its first
      occurrence in the run, as a default edge. */
  lemma {:induction false} PushEdgesFromFirst(g: GraphState, es: seq<Edge<()>>, i: nat)
    requires PushEdgesFrom(g, es).Ok? && g.edges.IndexInBounds()
    requires i < |es| && es[i].id !in g.edges.index && forall j :: 0 <= j < i ==> es[j].id != es[i].id
    ensures es[i].id in PushEdgesFrom(g, es).value.edges.index
    ensures PushEdgesFrom(g, es).value.edges.index[es[i].id] < |PushEdgesFrom(g, es).value.edges.vec|
    ensures PushEdgesFrom(g, es).value.edges.vec[PushEdgesFrom(g, es).value.edges.index[es[i].id]]
      == NewEdge(es[i].id, es[i].one, es[i].two, ())
    decreases |es|
  {
    var h := PushEdge(g, NewEdge(es[0].id, es[0].one, es[0].two, ())).value;
    PushEdgesFromKeys(h, es[1..]);
    if i == 0 {
      assert h.edges.index[es[0].id] == |g.edges.vec|;
    } else {
      assert es[1..][i - 1] == es[i];
      assert forall j :: 0 <= j < i - 1 ==> es[1..][j] == es[j + 1];
      assert h.edges.IndexInBounds();
      PushEdgesFromFirst(h, es[1..], i - 1);
    }
  }

  /** The endpoints of a valid frame's edges are among its node ids. */
  lemma EndpointsListed(s: GraphState)
    requires s.Valid()
    ensures forall i :: 0 <= i < |s.edges.vec| ==>
      s.edges.vec[i].one in NodeIdsOf(s.nodes.vec) && s.edges.vec[i].two in NodeIdsOf(s.nodes.vec)
  {
    forall i | 0 <= i < |s.edges.vec|
      ensures s.edges.vec[i].one in NodeIdsOf(s.nodes.vec) && s.edges.vec[i].two in NodeIdsOf(s.nodes.vec)
    {
      var a, b := s.edges.vec[i].one, s.edges.vec[i].two;
      assert s.nodes.vec[s.nodes.index[a]] in s.nodes.vec && s.nodes.vec[s.nodes.index[b]] in s.nodes.vec;
    }
  }

  /** Growing a valid graph by valid frames succeeds and gives a valid graph. */
  lemma {:induction false} SupergraphFromValid(g: GraphState, animation: seq<GraphState>)
    requires g.Valid() && forall t :: 0 <= t < |animation| ==> animation[t].Valid()
    ensures SupergraphFrom(g, animation).Ok? && SupergraphFrom(g, animation).value.Valid()
    decreases |animation|
  {
    if animation != [] {
      var s := animation[0];
      var h1 := PushNodesFrom(g, s.nodes.vec);
      PushNodesFromValid(g, s.nodes.vec);
      PushNodesFromKeys(g, s.nodes.vec);
      EndpointsListed(s);
      PushEdgesFromValid(h1, s.edges.vec);
      SupergraphFromValid(PushEdgesFrom(h1, s.edges.vec).value, animation[1..]);
    }
  }

  /** The supergraph stores exactly the ids stored before and those of
      some frame, keeps every stored edge where it was, and adds default
      nodes only. */
  lemma {:induction false} SupergraphFromKeys(g: GraphState, animation: seq<GraphState>)
    requires SupergraphFrom(g, animation).Ok?
    ensures forall id :: id in SupergraphFrom(g, animation).value.nodes.index <==>
      id in g.nodes.index || exists t :: 0 <= t < |animation| && id in NodeIdsOf(animation[t].nodes.vec)
    ensures forall id :: id in SupergraphFrom(g, animation).value.edges.index <==>
      id in g.edges.index || exists t :: 0 <= t < |animation| && id in EdgeIdsOf(animation[t].edges.vec)
    ensures FreshNodes(g) ==> FreshNodes(SupergraphFrom(g, animation).value)
    ensures |g.edges.vec| <= |SupergraphFrom(g, animation).value.edges.vec|
    ensures SupergraphFrom(g, animation).value.edges.vec[..|g.edges.vec|] == g.edges.vec
    ensures forall id :: id in g.edges.index ==> SupergraphFrom(g, animation).value.edges.index[id] == g.edges.index[id]
    decreases |animation|
  {
    if animation != [] {
      var s := animation[0];
      var h1 := PushNodesFrom(g, s.nodes.vec);
      PushNodesFromKeys(g, s.nodes.vec);
      PushEdgesFromKeys(h1, s.edges.vec);
      var h2 := PushEdgesFrom(h1, s.edges.vec).value;
      SupergraphFromKeys(h2, animation[1..]);
      assert forall t :: 1 <= t < |animation| ==> animation[1..][t - 1] == animation[t];
      assert h2.edges.vec[..|g.edges.vec|] == g.edges.vec;
    }
  }

  /** An edge met for the first time, in frame t at position i, is stored
      with that edge's endpoints, as a default edge. */
  lemma {:induction false} SupergraphFromFirst(g: GraphState, animation: seq<GraphState>, t: nat, i: nat)
    requires SupergraphFrom(g, animation).Ok? && g.edges.IndexInBounds()
    requires t < |animation| && i < |animation[t].edges.vec|
    requires animation[t].edges.vec[i].id !in g.edges.index
    requires forall u :: 0 <= u < t ==> animation[t].edges.vec[i].id !in EdgeIdsOf(animation[u].edges.vec)
    requires forall j :: 0 <= j < i ==> animation[t].edges.vec[j].id != animation[t].edges.vec[i].id
    ensures var r := SupergraphFrom(g, animation).value; var x := animation[t].edges.vec[i];
      && x.id in r.edges.index && r.edges.index[x.id] < |r.edges.vec|
      && r.edges.vec[r.edges.index[x.id]] == NewEdge(x.id, x.one, x.two, ())
    decreases |animation|
  {
    var s := animation[0];
    var h1 := PushNodesFrom(g, s.nodes.vec);
    var h2 := PushEdgesFrom(h1, s.edges.vec).value;
    var x := animation[t].edges.vec[i];
    PushNodesFromKeys(g, s.nodes.vec);
    PushEdgesFromKeys(h1, s.edges.vec);
    if t == 0 {
      PushEdgesFromFirst(h1, s.edges.vec, i);
      SupergraphFromKeys(h2, animation[1..]);
      var r := SupergraphFrom(g, animation).value;
      var k := h2.edges.index[x.id];
      assert r.edges.vec[..|h2.edges.vec|][k] == r.edges.vec[k];
    } else {
      assert animation[1..][t - 1] == animation[t];
      assert forall u :: 0 <= u < t - 1 ==> animation[1..][u] == animation[u + 1];
      assert x.id !in EdgeIdsOf(s.edges.vec);
      assert h2.edges.IndexInBounds();
      SupergraphFromFirst(h2, animation[1..], t - 1, i);
    }
  }

  /** In a valid frame the ids listed in the vectors are the stored ids. */
  lemma IdsOfValid(s: GraphState)
    requires s.Valid()
    ensures forall id :: id in NodeIdsOf(s.nodes.vec) <==> id in s.nodes.index
    ensures forall id :: id in EdgeIdsOf(s.edges.vec) <==> id in s.edges.index
  {
    forall id | id in s.nodes.index ensures id in NodeIdsOf(s.nodes.vec) {
      assert s.nodes.vec[s.nodes.index[id]] in s.nodes.vec;
    }
    forall id | id in s.edges.index ensures id in EdgeIdsOf(s.edges.vec) {
      assert s.edges.vec[s.edges.index[id]] in s.edges.vec;
    }
  }

  /** compute_supergraph on valid frames: it succeeds with a valid graph
      holding a node for exactly the node ids alive at some time, each a
      default node, and an edge for exactly the edge ids alive at some
      time. */
  lemma SupergraphNodes(animation: seq<GraphState>)
    requires forall t :: 0 <= t < |animation| ==> animation[t].Valid()
    ensures Supergraph(animation).Ok? && Supergraph(animation).value.Valid()
    ensures var r := Supergraph(animation).value;
      && (forall id :: NodeExists(r, id) <==> exists t :: 0 <= t < |animation| && id in animation[t].nodes.index)
      && (forall id :: EdgeExists(r, id) <==> exists t :: 0 <= t < |animation| && id in animation[t].edges.index)
      && (forall id :: NodeExists(r, id) ==> NodeAt(r, id) == Ok(NewNode(id, ())))
  {
    SupergraphFromValid(EmptyFrame(), animation);
    SupergraphFromKeys(EmptyFrame(), animation);
    var r := Supergraph(animation).value;
    forall t | 0 <= t < |animation| { IdsOfValid(animation[t]); }
    forall id | NodeExists(r, id) ensures NodeAt(r, id) == Ok(NewNode(id, ())) {
      assert r.nodes.vec[r.nodes.index[id]].id == id;
    }
  }

  /** Each edge of the supergraph joins the endpoints the edge has in the
      first frame that holds it. */
  lemma SupergraphEdges(animation: seq<GraphState>, t: nat, i: nat)
    requires forall u :: 0 <= u < |animation| ==> animation[u].Valid()
    requires t < |animation| && i < |animation[t].edges.vec|
    requires forall u :: 0 <= u < t ==> animation[t].edges.vec[i].id !in animation[u].edges.index
    ensures Supergraph(animation).Ok? && Supergraph(animation).value.Valid()
    ensures var x := animation[t].edges.vec[i];
      EdgeAt(Supergraph(animation).value, x.id) == Ok(NewEdge(x.id, x.one, x.two, ()))
  {
    SupergraphFromValid(EmptyFrame(), animation);
    var x := animation[t].edges.vec[i];
    forall u | 0 <= u < t ensures x.id !in EdgeIdsOf(animation[u].edges.vec) { IdsOfValid(animation[u]); }
    SupergraphFromFirst(EmptyFrame(), animation, t, i);
  }
}
