/** The builder of a sequence of graph states (dyng/dynamic_graph.h).
    Modifications are queued per time slot; build() replays them slot by
    slot, each slot starting from a copy of the previous state, and then
    marks which entities appear and disappear between neighbouring states.
    The queued std::function objects are represented by the four kinds of
    modification they can be. */
module DynamicGraphs {
  import opened Wrappers
  import opened Identifiers
  import opened Container
  import opened Nodes
  import opened Edges
  import opened Graphs

  /** One queued modification: what the lambda of add_node, add_edge,
      remove_node or remove_edge does to the state it is given. */
  datatype Operation =
    | AddNodeOp(node: NodeId)
    | AddEdgeOp(edge: EdgeId, one: NodeId, two: NodeId)
    | RemoveNodeOp(node: NodeId)
    | RemoveEdgeOp(edge: EdgeId)

  // ------------------------------------------------------------- the log

  /** add_modification: the log grows to time + 1 slots when it is shorter,
      and the operation is appended to slot `time`. */
  function Scheduled(log: seq<seq<Operation>>, time: nat, op: Operation): seq<seq<Operation>>
  {
    var grown := if time >= |log| then log + seq(time + 1 - |log|, _ => []) else log;
    grown[time := grown[time] + [op]]
  }

  /** The log is at least time + 1 slots long, slot `time` gained the
      operation at its end, every other slot is as before (empty when new). */
  lemma ScheduledSpec(log: seq<seq<Operation>>, time: nat, op: Operation)
    ensures |Scheduled(log, time, op)| == if time < |log| then |log| else time + 1
    ensures Scheduled(log, time, op)[time] == (if time < |log| then log[time] else []) + [op]
    ensures forall j :: 0 <= j < |log| && j != time ==> Scheduled(log, time, op)[j] == log[j]
    ensures forall j :: |log| <= j < |Scheduled(log, time, op)| && j != time ==> Scheduled(log, time, op)[j] == []
  {
  }

  // ------------------------------------------------------------ replaying

  /** What one queued lambda does: push a fresh node or edge, or remove one
      (failing with invalid_graph as graph::remove_* and push_edge do). */
  function ApplyOp(f: GraphState, op: Operation): Result<GraphState>
  {
    match op
    case AddNodeOp(id) => Ok(PushNode(f, NewNode(id, ())))
    case AddEdgeOp(id, one, two) => PushEdge(f, NewEdge(id, one, two, ()))
    case RemoveNodeOp(id) => RemoveNode(f, id)
    case RemoveEdgeOp(id) => RemoveEdge(f, id)
  }

  /** The inner loop of apply_modifications, from operation j of a slot on:
      the operations in insertion order, the first failure ending it. */
  function ApplySlotFrom(f: GraphState, ops: seq<Operation>, j: nat): Result<GraphState>
    decreases |ops| - j
  {
    if j >= |ops| then Ok(f)
    else match ApplyOp(f, ops[j])
      case Err(e) => Err(e)
      case Ok(g) => ApplySlotFrom(g, ops, j + 1)
  }

  /** The state a slot starts from: a copy of the last state built, or an
      empty graph for the first slot. */
  function Previous(fs: seq<GraphState>): GraphState
  {
    if fs == [] then EmptyFrame() else fs[|fs| - 1]
  }

  /** The outer loop of apply_modifications, from slot i on, with `fs` the
      states built so far: the states it has pushed when it ends, and whether
      it ended by an exception. */
  function ReplayFrom(log: seq<seq<Operation>>, i: nat, fs: seq<GraphState>): (seq<GraphState>, Result<()>)
    decreases |log| - i
  {
    if i >= |log| then (fs, Ok(()))
    else match ApplySlotFrom(Previous(fs), log[i], 0)
      case Err(e) => (fs, Err(e))
      case Ok(g) => ReplayFrom(log, i + 1, fs + [g])
  }

  /** apply_modifications on an emptied state vector. */
  function Replay(log: seq<seq<Operation>>): (seq<GraphState>, Result<()>)
  {
    ReplayFrom(log, 0, [])
  }

  /** An operation fails exactly when it adds an edge (with a new id) whose
      endpoint is absent, or removes an absent node or edge; the failure is
      invalid_graph. A success keeps the state valid. */
  lemma ApplyOpSpec(f: GraphState, op: Operation)
    requires f.Valid()
    ensures ApplyOp(f, op).Err? <==>
      || (op.AddEdgeOp? && !EdgeExists(f, op.edge) && (!NodeExists(f, op.one) || !NodeExists(f, op.two)))
      || (op.RemoveNodeOp? && !NodeExists(f, op.node))
      || (op.RemoveEdgeOp? && !EdgeExists(f, op.edge))
    ensures ApplyOp(f, op).Err? ==> ApplyOp(f, op).error == InvalidGraph
    ensures ApplyOp(f, op).Ok? ==> ApplyOp(f, op).value.Valid()
  {
    match op
    case AddNodeOp(id) => PushNodeSpec(f, NewNode(id, ()));
    case AddEdgeOp(id, one, two) => PushEdgeSpec(f, NewEdge(id, one, two, ()));
    case RemoveNodeOp(id) => RemoveNodeSpec(f, id);
    case RemoveEdgeOp(id) => RemoveEdgeSpec(f, id);
  }

  /** Which nodes an operation leaves in the state: the one it adds, and the
      ones already there except the one it removes. */
  lemma ApplyOpNodes(f: GraphState, op: Operation, a: NodeId)
    requires f.Valid() && ApplyOp(f, op).Ok?
    ensures ApplyOp(f, op).value.Valid()
    ensures NodeExists(ApplyOp(f, op).value, a) <==>
      op == AddNodeOp(a) || (NodeExists(f, a) && op != RemoveNodeOp(a))
  {
    ApplyOpSpec(f, op);
    match op
    case AddNodeOp(id) => AddedNodePresent(f, id, a);
    case AddEdgeOp(id, one, two) => PushEdgeSpec(f, NewEdge(id, one, two, ()));
    case RemoveNodeOp(id) => RemoveNodeSpec(f, id);
    case RemoveEdgeOp(id) => RemoveEdgeSpec(f, id);
  }

  lemma AddedNodePresent(f: GraphState, id: NodeId, a: NodeId)
    requires f.Valid()
    ensures PushNode(f, NewNode(id, ())).Valid()
    ensures NodeExists(PushNode(f, NewNode(id, ())), a) <==> a == id || NodeExists(f, a)
  {
    PushNodeSpec(f, NewNode(id, ()));
  }

  /** A successful add_edge operation leaves its edge in the state, a
      successful remove_edge operation leaves it out. */
  lemma ApplyOpEdges(f: GraphState, op: Operation)
    requires f.Valid() && ApplyOp(f, op).Ok?
    ensures ApplyOp(f, op).value.Valid()
    ensures op.AddEdgeOp? ==> EdgeExists(ApplyOp(f, op).value, op.edge)
    ensures op.RemoveEdgeOp? ==> !EdgeExists(ApplyOp(f, op).value, op.edge)
  {
    ApplyOpSpec(f, op);
    if op.AddEdgeOp? {
      var e := NewEdge(op.edge, op.one, op.two, ());
      PushEdgeSpec(f, e);
      if op.edge !in f.edges.index {
        var g := ApplyOp(f, op).value;
        assert g.edges.vec[|g.edges.vec| - 1].id == op.edge;
      }
    } else if op.RemoveEdgeOp? {
      RemoveEdgeSpec(f, op.edge);
    }
  }

  /** Whether node a is present after operations j.. of a slot, given
      whether it was present before them: the last add or removal of a
      decides. */
  function NodeFate(present: bool, ops: seq<Operation>, j: nat, a: NodeId): bool
    decreases |ops| - j
  {
    if j >= |ops| then present
    else NodeFate(if ops[j] == AddNodeOp(a) then true else if ops[j] == RemoveNodeOp(a) then false else present, ops, j + 1, a)
  }

  /** A slot fails only with invalid_graph, and one applied without failure
      keeps the state valid. */
  lemma {:induction false} ApplySlotValid(f: GraphState, ops: seq<Operation>, j: nat)
    requires f.Valid()
    ensures ApplySlotFrom(f, ops, j).Err? ==> ApplySlotFrom(f, ops, j).error == InvalidGraph
    ensures ApplySlotFrom(f, ops, j).Ok? ==> ApplySlotFrom(f, ops, j).value.Valid()
    decreases |ops| - j
  {
    if j < |ops| {
      ApplyOpSpec(f, ops[j]);
      if ApplyOp(f, ops[j]).Ok? {
        ApplySlotValid(ApplyOp(f, ops[j]).value, ops, j + 1);
      }
    }
  }

  /** A slot applied without failure leaves node a present exactly as
      NodeFate says. */
  lemma {:induction false} ApplySlotNodes(f: GraphState, ops: seq<Operation>, j: nat, a: NodeId)
    requires f.Valid() && ApplySlotFrom(f, ops, j).Ok?
    ensures ApplySlotFrom(f, ops, j).value.Valid()
    ensures NodeExists(ApplySlotFrom(f, ops, j).value, a) <==> NodeFate(NodeExists(f, a), ops, j, a)
    decreases |ops| - j
  {
    ApplySlotValid(f, ops, j);
    if j < |ops| {
      ApplyOpNodes(f, ops[j], a);
      ApplySlotNodes(ApplyOp(f, ops[j]).value, ops, j + 1, a);
    }
  }

  /** A slot that never adds or removes node a leaves its presence as it was. */
  lemma {:induction false} FateUntouched(present: bool, ops: seq<Operation>, j: nat, a: NodeId)
    requires forall k :: j <= k < |ops| ==> ops[k] != AddNodeOp(a) && ops[k] != RemoveNodeOp(a)
    ensures NodeFate(present, ops, j, a) == present
    decreases |ops| - j
  {
    if j < |ops| {
      FateUntouched(present, ops, j + 1, a);
    }
  }

  /** Replaying from slot i keeps the states built before it, pushes one
      state per slot that succeeds, and stops at the first slot that fails,
      with invalid_graph and fewer states than slots; every state is valid. */
  lemma {:induction false} ReplayFromShape(log: seq<seq<Operation>>, i: nat, fs: seq<GraphState>)
    requires i <= |log|
    requires forall k :: 0 <= k < |fs| ==> fs[k].Valid()
    ensures |fs| <= |ReplayFrom(log, i, fs).0|
    ensures ReplayFrom(log, i, fs).0[..|fs|] == fs
    ensures ReplayFrom(log, i, fs).1.Ok? ==> |ReplayFrom(log, i, fs).0| == |fs| + |log| - i
    ensures ReplayFrom(log, i, fs).1.Err? ==>
      |ReplayFrom(log, i, fs).0| < |fs| + |log| - i && ReplayFrom(log, i, fs).1.error == InvalidGraph
    ensures forall k :: 0 <= k < |ReplayFrom(log, i, fs).0| ==> ReplayFrom(log, i, fs).0[k].Valid()
    decreases |log| - i
  {
    if i < |log| {
      ApplySlotValid(Previous(fs), log[i], 0);
      if ApplySlotFrom(Previous(fs), log[i], 0).Ok? {
        var fs' := fs + [ApplySlotFrom(Previous(fs), log[i], 0).value];
        ReplayFromShape(log, i + 1, fs');
        assert ReplayFrom(log, i + 1, fs').0[..|fs'|][..|fs|] == fs;
      }
    }
  }

  /** Each state replaying pushes is its slot applied to the state before it. */
  lemma {:induction false} ReplayFromSteps(log: seq<seq<Operation>>, i: nat, fs: seq<GraphState>)
    requires i <= |log|
    ensures |fs| <= |ReplayFrom(log, i, fs).0| <= |fs| + |log| - i
    ensures ReplayFrom(log, i, fs).0[..|fs|] == fs
    ensures forall k :: |fs| <= k < |ReplayFrom(log, i, fs).0| ==>
      ApplySlotFrom(Previous(ReplayFrom(log, i, fs).0[..k]), log[k - |fs| + i], 0) == Ok(ReplayFrom(log, i, fs).0[k])
    decreases |log| - i
  {
    if i < |log| && ApplySlotFrom(Previous(fs), log[i], 0).Ok? {
      var fs' := fs + [ApplySlotFrom(Previous(fs), log[i], 0).value];
      ReplayFromSteps(log, i + 1, fs');
      var out := ReplayFrom(log, i + 1, fs').0;
      assert ReplayFrom(log, i, fs).0 == out;
      assert out[..|fs'|][..|fs|] == fs;
      forall k | |fs| <= k < |out| ensures ApplySlotFrom(Previous(out[..k]), log[k - |fs| + i], 0) == Ok(out[k]) {
        if k == |fs| {
          assert out[..k] == fs && out[k] == fs'[|fs|];
        } else {
          assert k - |fs'| + (i + 1) == k - |fs| + i;
        }
      }
    } else {
      assert ReplayFrom(log, i, fs).0 == fs;
    }
  }

  /** build() on its log: with no failure there is one state per slot, the
      first being slot 0 applied to an empty graph and each later one the
      slot applied to the state before it; a failure is invalid_graph and
      leaves fewer states than slots. */
  lemma ReplaySpec(log: seq<seq<Operation>>)
    ensures Replay(log).1.Ok? ==> |Replay(log).0| == |log|
    ensures Replay(log).1.Err? ==> |Replay(log).0| < |log| && Replay(log).1.error == InvalidGraph
    ensures forall k :: 0 <= k < |Replay(log).0| ==> Replay(log).0[k].Valid()
    ensures |Replay(log).0| > 0 ==> ApplySlotFrom(EmptyFrame(), log[0], 0) == Ok(Replay(log).0[0])
    ensures forall k :: 0 < k < |Replay(log).0| ==> ApplySlotFrom(Replay(log).0[k - 1], log[k], 0) == Ok(Replay(log).0[k])
  {
    ReplayFromShape(log, 0, []);
    ReplayFromSteps(log, 0, []);
    var out := Replay(log).0;
    forall k | 0 < k < |out| ensures Previous(out[..k]) == out[k - 1] {
    }
  }

  /** Node a is present in state t exactly as slot t decides, given its
      presence in state t - 1 (absent before state 0); a slot that does not
      mention a carries its presence over. */
  lemma ReplayNodePresence(log: seq<seq<Operation>>, t: nat, a: NodeId)
    requires t < |Replay(log).0|
    ensures |Replay(log).0| <= |log|
    ensures Replay(log).0[t].Valid() && (t > 0 ==> Replay(log).0[t - 1].Valid())
    ensures NodeExists(Replay(log).0[t], a) <==>
      NodeFate(t > 0 && NodeExists(Replay(log).0[t - 1], a), log[t], 0, a)
  {
    ReplaySpec(log);
    var out := Replay(log).0;
    var prev := if t == 0 then EmptyFrame() else out[t - 1];
    ApplySlotNodes(prev, log[t], 0, a);
  }

  /** The endpoints of edge e in a state that holds it. */
  function EdgeEnds(f: GraphState, e: EdgeId): Option<(NodeId, NodeId)>
    requires f.edges.IndexInBounds()
  {
    if e in f.edges.index then Some((f.edges.vec[f.edges.index[e]].one, f.edges.vec[f.edges.index[e]].two)) else None
  }

  /** What one operation does to edge e, given its endpoints before it (none
      when absent): add_edge with e's id stores it when absent and is
      ignored otherwise, remove_edge of e drops it, remove_node of an
      endpoint drops it with the node. */
  function EdgeStep(cur: Option<(NodeId, NodeId)>, op: Operation, e: EdgeId): Option<(NodeId, NodeId)>
  {
    match op
    case AddNodeOp(_) => cur
    case AddEdgeOp(id, one, two) => if id == e && cur.None? then Some((one, two)) else cur
    case RemoveEdgeOp(id) => if id == e then None else cur
    case RemoveNodeOp(a) => if cur.Some? && (cur.value.0 == a || cur.value.1 == a) then None else cur
  }

  /** Edge e after operations j.. of a slot. */
  function EdgeFate(cur: Option<(NodeId, NodeId)>, ops: seq<Operation>, j: nat, e: EdgeId): Option<(NodeId, NodeId)>
    decreases |ops| - j
  {
    if j >= |ops| then cur else EdgeFate(EdgeStep(cur, ops[j], e), ops, j + 1, e)
  }

  /** A state whose edges are some of another's holds each edge it holds
      with the same endpoints. */
  lemma EdgeEndsKept(f: GraphState, g: GraphState, e: EdgeId)
    requires f.edges.IndexedBy(EdgeIdOf) && g.edges.IndexedBy(EdgeIdOf)
    requires forall x :: x in g.edges.vec ==> x in f.edges.vec
    ensures EdgeEnds(g, e) == None || EdgeEnds(g, e) == EdgeEnds(f, e)
  {
    if e in g.edges.index {
      var x := g.edges.vec[g.edges.index[e]];
      assert x.id == e;
      StoredIsFound(f.edges, EdgeIdOf, x);
    }
  }

  /** Erasing exactly the edges at node a drops e exactly when one of its
      endpoints is a. */
  lemma EdgeEndsWithoutNode(f: GraphState, g: GraphState, a: NodeId, e: EdgeId)
    requires f.edges.IndexedBy(EdgeIdOf) && g.edges.IndexedBy(EdgeIdOf)
    requires forall x :: x in g.edges.vec ==> x in f.edges.vec
    requires forall x :: x in f.edges.vec ==> (x in g.edges.vec <==> x.one != a && x.two != a)
    ensures EdgeEnds(g, e) == EdgeStep(EdgeEnds(f, e), RemoveNodeOp(a), e)
  {
    EdgeEndsKept(f, g, e);
    if e in f.edges.index {
      var x := f.edges.vec[f.edges.index[e]];
      assert x.id == e;
      if x.one != a && x.two != a {
        StoredIsFound(g.edges, EdgeIdOf, x);
      }
    }
  }

  /** remove_edge of an edge other than e keeps e as it was. */
  lemma RemoveEdgeEnds(f: GraphState, id: EdgeId, e: EdgeId)
    requires f.Valid() && RemoveEdge(f, id).Ok? && id != e
    ensures EdgeEnds(RemoveEdge(f, id).value, e) == EdgeEnds(f, e)
  {
    var g := RemoveEdge(f, id).value;
    RemoveEdgesIfSpec(f, EdgeWithId(id));
    if e in f.edges.index {
      var x := f.edges.vec[f.edges.index[e]];
      RemoveEdgeKeepsOthers(f, id, x);
    } else {
      EdgeEndsKept(f, g, e);
    }
  }

  /** remove_node drops e exactly when one of its endpoints is the node. */
  lemma RemoveNodeEnds(f: GraphState, a: NodeId, e: EdgeId)
    requires f.Valid() && RemoveNode(f, a).Ok?
    ensures EdgeEnds(RemoveNode(f, a).value, e) == EdgeStep(EdgeEnds(f, e), RemoveNodeOp(a), e)
  {
    var g := RemoveNode(f, a).value;
    RemoveNodeSpec(f, a);
    RemoveNodesIfSpec(f, NodeWithId(a));
    forall x | x in f.edges.vec ensures x in g.edges.vec <==> x.one != a && x.two != a {
      var i :| 0 <= i < |f.edges.vec| && f.edges.vec[i] == x;
      assert x.one in f.nodes.index && x.two in f.nodes.index;
    }
    EdgeEndsWithoutNode(f, g, a, e);
  }

  /** push_edge of a new edge appends it and leaves every other edge. */
  lemma PushEdgeEnds(f: GraphState, id: EdgeId, one: NodeId, two: NodeId, e: EdgeId)
    requires f.edges.IndexInBounds() && PushEdge(f, NewEdge(id, one, two, ())).Ok?
    ensures EdgeEnds(PushEdge(f, NewEdge(id, one, two, ())).value, e) == EdgeStep(EdgeEnds(f, e), AddEdgeOp(id, one, two), e)
  {
    var x := NewEdge(id, one, two, ());
    if id !in f.edges.index {
      var g := PushEdge(f, x).value;
      assert g.edges.vec == f.edges.vec + [x] && g.edges.index == f.edges.index[id := |f.edges.vec|];
    }
  }

  /** What an operation that succeeds does to edge e is EdgeStep. */
  lemma ApplyOpEdgeEnds(f: GraphState, op: Operation, e: EdgeId)
    requires f.Valid() && ApplyOp(f, op).Ok?
    ensures ApplyOp(f, op).value.edges.IndexInBounds()
    ensures EdgeEnds(ApplyOp(f, op).value, e) == EdgeStep(EdgeEnds(f, e), op, e)
  {
    match op
    case AddNodeOp(id) => PushNodeSpec(f, NewNode(id, ()));
    case AddEdgeOp(id, one, two) =>
      PushEdgeEnds(f, id, one, two, e);
      PushEdgeSpec(f, NewEdge(id, one, two, ()));
    case RemoveEdgeOp(id) =>
      RemoveEdgeSpec(f, id);
      if id != e {
        RemoveEdgeEnds(f, id, e);
      }
    case RemoveNodeOp(a) =>
      RemoveNodeSpec(f, a);
      RemoveNodeEnds(f, a, e);
  }

  /** A slot applied without failure leaves edge e as EdgeFate says. */
  lemma {:induction false} ApplySlotEdges(f: GraphState, ops: seq<Operation>, j: nat, e: EdgeId)
    requires f.Valid() && ApplySlotFrom(f, ops, j).Ok?
    ensures ApplySlotFrom(f, ops, j).value.Valid()
    ensures EdgeEnds(ApplySlotFrom(f, ops, j).value, e) == EdgeFate(EdgeEnds(f, e), ops, j, e)
    decreases |ops| - j
  {
    ApplySlotValid(f, ops, j);
    if j < |ops| {
      ApplyOpSpec(f, ops[j]);
      ApplyOpEdgeEnds(f, ops[j], e);
      ApplySlotEdges(ApplyOp(f, ops[j]).value, ops, j + 1, e);
    }
  }

  /** Node a after slots 0..t of the log: absent at first, then each slot's
      adds and removals in order. */
  function NodeHistory(log: seq<seq<Operation>>, t: nat, a: NodeId): bool
    requires t < |log|
  {
    NodeFate(t > 0 && NodeHistory(log, t - 1, a), log[t], 0, a)
  }

  /** Edge e after slots 0..t of the log: absent at first, then each slot's
      operations in order. */
  function EdgeHistory(log: seq<seq<Operation>>, t: nat, e: EdgeId): Option<(NodeId, NodeId)>
    requires t < |log|
  {
    EdgeFate(if t == 0 then None else EdgeHistory(log, t - 1, e), log[t], 0, e)
  }

  /** Over the whole replay: state t holds node a exactly when the log up
      to slot t leaves it added and not removed since, and holds edge e,
      with the endpoints it was added with, exactly when the log up to slot
      t added it and neither removed it nor removed one of its endpoints
      since; the endpoints of an edge held are nodes of that state. */
  lemma {:induction false} ReplayHistory(log: seq<seq<Operation>>, t: nat, a: NodeId, e: EdgeId)
    requires t < |Replay(log).0|
    ensures |Replay(log).0| <= |log| && Replay(log).0[t].Valid()
    ensures NodeExists(Replay(log).0[t], a) <==> NodeHistory(log, t, a)
    ensures EdgeEnds(Replay(log).0[t], e) == EdgeHistory(log, t, e)
    ensures EdgeHistory(log, t, e).Some? ==>
      NodeExists(Replay(log).0[t], EdgeHistory(log, t, e).value.0) && NodeExists(Replay(log).0[t], EdgeHistory(log, t, e).value.1)
  {
    ReplaySpec(log);
    var out := Replay(log).0;
    var prev := if t == 0 then EmptyFrame() else out[t - 1];
    if t > 0 {
      ReplayHistory(log, t - 1, a, e);
    }
    ApplySlotNodes(prev, log[t], 0, a);
    ApplySlotEdges(prev, log[t], 0, e);
    var g := out[t];
    if e in g.edges.index {
      assert g.edges.vec[g.edges.index[e]].one in g.nodes.index;
    }
  }

  // ---------------------------------------------------------- new and old

  /** set_bool_values for one node of state i: old when a later state
      exists and lacks it, new when an earlier state exists and lacks it. */
  function FlagNode(ss: seq<GraphState>, i: nat, x: Node<()>): (r: Node<()>)
    requires i < |ss|
    ensures r.id == x.id
  {
    x.SetIsOld(i + 1 < |ss| && x.id !in ss[i + 1].nodes.index)
     .SetIsNew(i > 0 && x.id !in ss[i - 1].nodes.index)
  }

  /** The same for one edge of state i. */
  function FlagEdge(ss: seq<GraphState>, i: nat, x: Edge<()>): (r: Edge<()>)
    requires i < |ss|
    ensures r.id == x.id && r.one == x.one && r.two == x.two
  {
    x.SetIsOld(i + 1 < |ss| && x.id !in ss[i + 1].edges.index)
     .SetIsNew(i > 0 && x.id !in ss[i - 1].edges.index)
  }

  function FlagNodes(ss: seq<GraphState>, i: nat, ns: seq<Node<()>>): seq<Node<()>>
    requires i < |ss|
  {
    seq(|ns|, k requires 0 <= k < |ns| => FlagNode(ss, i, ns[k]))
  }

  function FlagEdges(ss: seq<GraphState>, i: nat, es: seq<Edge<()>>): seq<Edge<()>>
    requires i < |ss|
  {
    seq(|es|, k requires 0 <= k < |es| => FlagEdge(ss, i, es[k]))
  }

  /** State i with every node and edge flagged. */
  function FlagFrame(ss: seq<GraphState>, i: nat): GraphState
    requires i < |ss|
  {
    var f := ss[i];
    Frame(Container(FlagNodes(ss, i, f.nodes.vec), f.nodes.index),
          Container(FlagEdges(ss, i, f.edges.vec), f.edges.index),
          f.adj)
  }

  /** set_bool_values over the whole vector. */
  function Flagged(ss: seq<GraphState>): seq<GraphState>
  {
    seq(|ss|, i requires 0 <= i < |ss| => FlagFrame(ss, i))
  }

  /** Flagging changes no id and no index: the flags computed on states
      whose indexes agree are the same. */
  lemma FlagFrameIndexes(ss: seq<GraphState>, tt: seq<GraphState>, i: nat)
    requires |ss| == |tt| && i < |ss| && ss[i] == tt[i]
    requires forall j :: 0 <= j < |ss| ==> ss[j].nodes.index == tt[j].nodes.index && ss[j].edges.index == tt[j].edges.index
    ensures FlagFrame(ss, i) == FlagFrame(tt, i)
  {
    assert FlagNodes(ss, i, ss[i].nodes.vec) == FlagNodes(tt, i, tt[i].nodes.vec);
    assert FlagEdges(ss, i, ss[i].edges.vec) == FlagEdges(tt, i, tt[i].edges.vec);
  }

  /** Flagging keeps every state valid, with the same ids in the same places. */
  lemma FlaggedValid(ss: seq<GraphState>, i: nat)
    requires i < |ss| && ss[i].Valid()
    ensures |Flagged(ss)| == |ss|
    ensures Flagged(ss)[i].Valid()
    ensures Flagged(ss)[i].nodes.index == ss[i].nodes.index && Flagged(ss)[i].edges.index == ss[i].edges.index
    ensures |Flagged(ss)[i].nodes.vec| == |ss[i].nodes.vec| && |Flagged(ss)[i].edges.vec| == |ss[i].edges.vec|
  {
    PayloadsValid(ss[i], FlagNodes(ss, i, ss[i].nodes.vec), FlagEdges(ss, i, ss[i].edges.vec));
  }

  /** After flagging, node k of state i is old exactly when a next state
      exists and does not hold it, new exactly when a previous state exists
      and does not hold it; nothing else about it changes. */
  lemma FlaggedNode(ss: seq<GraphState>, i: nat, k: nat)
    requires i < |ss| && k < |ss[i].nodes.vec|
    requires i + 1 < |ss| ==> ss[i + 1].Valid()
    requires i > 0 ==> ss[i - 1].Valid()
    ensures |Flagged(ss)| == |ss| && |Flagged(ss)[i].nodes.vec| == |ss[i].nodes.vec|
    ensures var x := Flagged(ss)[i].nodes.vec[k];
      && x == ss[i].nodes.vec[k].(isNew := x.isNew, isOld := x.isOld)
      && (x.isOld <==> i + 1 < |ss| && !NodeExists(ss[i + 1], x.id))
      && (x.isNew <==> i > 0 && !NodeExists(ss[i - 1], x.id))
  {
  }

  /** The same for edge k of state i. */
  lemma FlaggedEdge(ss: seq<GraphState>, i: nat, k: nat)
    requires i < |ss| && k < |ss[i].edges.vec|
    requires i + 1 < |ss| ==> ss[i + 1].Valid()
    requires i > 0 ==> ss[i - 1].Valid()
    ensures |Flagged(ss)| == |ss| && |Flagged(ss)[i].edges.vec| == |ss[i].edges.vec|
    ensures var x := Flagged(ss)[i].edges.vec[k];
      && x == ss[i].edges.vec[k].(isNew := x.isNew, isOld := x.isOld)
      && (x.isOld <==> i + 1 < |ss| && !EdgeExists(ss[i + 1], x.id))
      && (x.isNew <==> i > 0 && !EdgeExists(ss[i - 1], x.id))
  {
  }

  /** Flagging twice is flagging once: the flags depend only on which ids
      the neighbouring states hold, which flagging does not change. */
  lemma FlaggedIdempotent(ss: seq<GraphState>)
    ensures Flagged(Flagged(ss)) == Flagged(ss)
  {
    var fs := Flagged(ss);
    forall i | 0 <= i < |ss| ensures FlagFrame(fs, i) == fs[i] {
      assert FlagNodes(fs, i, fs[i].nodes.vec) == fs[i].nodes.vec;
      assert FlagEdges(fs, i, fs[i].edges.vec) == fs[i].edges.vec;
    }
  }

  // -------------------------------------------------------------- the ids

  /** The largest node id in a non-empty vector (std::max_element). */
  function MaxNodeId(ns: seq<Node<()>>): (m: u32)
    requires ns != []
    ensures exists k :: 0 <= k < |ns| && ns[k].id.value == m
    ensures forall k :: 0 <= k < |ns| ==> ns[k].id.value <= m
  {
    if |ns| == 1 then ns[0].id.value
    else
      var m := MaxNodeId(ns[..|ns| - 1]);
      assert forall k :: 0 <= k < |ns| - 1 ==> ns[..|ns| - 1][k] == ns[k];
      if ns[|ns| - 1].id.value > m then ns[|ns| - 1].id.value else m
  }

  /** The largest edge id in a non-empty vector. */
  function MaxEdgeId(es: seq<Edge<()>>): (m: u32)
    requires es != []
    ensures exists k :: 0 <= k < |es| && es[k].id.value == m
    ensures forall k :: 0 <= k < |es| ==> es[k].id.value <= m
  {
    if |es| == 1 then es[0].id.value
    else
      var m := MaxEdgeId(es[..|es| - 1]);
      assert forall k :: 0 <= k < |es| - 1 ==> es[..|es| - 1][k] == es[k];
      if es[|es| - 1].id.value > m then es[|es| - 1].id.value else m
  }

  function MaxU(a: u32, b: u32): u32
  {
    if a < b then b else a
  }

  /** recalculate_ids for the node counter, from state i on: each non-empty
      state raises it to max(counter, max id + 1), the + 1 in unsigned
      arithmetic. */
  function RaisedNodeCounter(c: u32, ss: seq<GraphState>, i: nat): u32
    decreases |ss| - i
  {
    if i >= |ss| then c
    else RaisedNodeCounter(if ss[i].nodes.vec == [] then c else MaxU(c, Inc(MaxNodeId(ss[i].nodes.vec))), ss, i + 1)
  }

  /** The same for the edge counter. */
  function RaisedEdgeCounter(c: u32, ss: seq<GraphState>, i: nat): u32
    decreases |ss| - i
  {
    if i >= |ss| then c
    else RaisedEdgeCounter(if ss[i].edges.vec == [] then c else MaxU(c, Inc(MaxEdgeId(ss[i].edges.vec))), ss, i + 1)
  }

  /** The node counter is never lowered, and ends above every node id of
      each state i.. whose largest id is not the largest u32 value (for that
      one, max id + 1 wraps to 0 and raises nothing). */
  lemma {:induction false} RaisedNodeCounterSpec(c: u32, ss: seq<GraphState>, i: nat)
    ensures RaisedNodeCounter(c, ss, i) >= c
    ensures forall j, k :: i <= j < |ss| && 0 <= k < |ss[j].nodes.vec| && MaxNodeId(ss[j].nodes.vec) < U32_LIMIT - 1 ==>
      ss[j].nodes.vec[k].id.value < RaisedNodeCounter(c, ss, i)
    decreases |ss| - i
  {
    if i < |ss| {
      var c' := if ss[i].nodes.vec == [] then c else MaxU(c, Inc(MaxNodeId(ss[i].nodes.vec)));
      RaisedNodeCounterSpec(c', ss, i + 1);
    }
  }

  /** The edge counter likewise. */
  lemma {:induction false} RaisedEdgeCounterSpec(c: u32, ss: seq<GraphState>, i: nat)
    ensures RaisedEdgeCounter(c, ss, i) >= c
    ensures forall j, k :: i <= j < |ss| && 0 <= k < |ss[j].edges.vec| && MaxEdgeId(ss[j].edges.vec) < U32_LIMIT - 1 ==>
      ss[j].edges.vec[k].id.value < RaisedEdgeCounter(c, ss, i)
    decreases |ss| - i
  {
    if i < |ss| {
      var c' := if ss[i].edges.vec == [] then c else MaxU(c, Inc(MaxEdgeId(ss[i].edges.vec)));
      RaisedEdgeCounterSpec(c', ss, i + 1);
    }
  }

  /** A counter already above every id is left as it is. */
  lemma {:induction false} CounterAboveIdsKept(c: u32, ss: seq<GraphState>, i: nat)
    requires forall j, k :: i <= j < |ss| && 0 <= k < |ss[j].nodes.vec| ==> ss[j].nodes.vec[k].id.value < c
    ensures RaisedNodeCounter(c, ss, i) == c
    decreases |ss| - i
  {
    if i < |ss| {
      CounterAboveIdsKept(c, ss, i + 1);
    }
  }

  // ------------------------------------------------------------ the object

  /** dynamic_graph: the id counters, the log of modifications per time slot,
      and the states built from it. */
  class DynamicGraph {
    var lastNodeId: u32
    var lastEdgeId: u32
    var states: seq<GraphState>
    var log: seq<seq<Operation>>

    /** Every state the object holds is a valid graph. */
    ghost predicate Valid()
      reads this
    {
      forall k :: 0 <= k < |states| ==> states[k].Valid()
    }

    /** dynamic_graph(): counters at 0, no states, nothing queued. */
    constructor ()
      ensures lastNodeId == 0 && lastEdgeId == 0 && states == [] && log == []
      ensures Valid()
    {
      lastNodeId := 0;
      lastEdgeId := 0;
      states := [];
      log := [];
    }

    /** node_count. */
    function NodeCount(): u32
      reads this
    {
      lastNodeId
    }

    /** edge_count. */
    function EdgeCount(): u32
      reads this
    {
      lastEdgeId
    }

    /** add_modification. */
    method AddModification(time: u32, op: Operation)
      modifies this
      requires time < U32_LIMIT - 1
      ensures log == Scheduled(old(log), time, op)
      ensures states == old(states) && lastNodeId == old(lastNodeId) && lastEdgeId == old(lastEdgeId)
    {
      if time >= |log| {
        log := log + seq(time + 1 - |log|, _ => []);
      }
      log := log[time := log[time] + [op]];
    }

    /** add_node: the id is the node counter, which moves on by one; adding
        the node is queued at `time`. */
    method AddNode(time: u32) returns (id: NodeId)
      modifies this
      requires time < U32_LIMIT - 1
      ensures id.value == old(lastNodeId) && lastNodeId == Inc(id.value)
      ensures log == Scheduled(old(log), time, AddNodeOp(id))
      ensures states == old(states) && lastEdgeId == old(lastEdgeId)
    {
      id := Id(lastNodeId);
      lastNodeId := Inc(lastNodeId);
      AddModification(time, AddNodeOp(id));
    }

    /** add_edge: the id is the edge counter, which moves on by one; adding
        the edge is queued at `time` without looking at its endpoints. */
    method AddEdge(time: u32, one: NodeId, two: NodeId) returns (id: EdgeId)
      modifies this
      requires time < U32_LIMIT - 1
      ensures id.value == old(lastEdgeId) && lastEdgeId == Inc(id.value)
      ensures log == Scheduled(old(log), time, AddEdgeOp(id, one, two))
      ensures states == old(states) && lastNodeId == old(lastNodeId)
    {
      id := Id(lastEdgeId);
      lastEdgeId := Inc(lastEdgeId);
      AddModification(time, AddEdgeOp(id, one, two));
    }

    /** remove_node: queued at `time`, checked only when built. */
    method RemoveNode(time: u32, id: NodeId)
      modifies this
      requires time < U32_LIMIT - 1
      ensures log == Scheduled(old(log), time, RemoveNodeOp(id))
      ensures states == old(states) && lastNodeId == old(lastNodeId) && lastEdgeId == old(lastEdgeId)
    {
      AddModification(time, RemoveNodeOp(id));
    }

    /** remove_edge: queued at `time`, checked only when built. */
    method RemoveEdge(time: u32, id: EdgeId)
      modifies this
      requires time < U32_LIMIT - 1
      ensures log == Scheduled(old(log), time, RemoveEdgeOp(id))
      ensures states == old(states) && lastNodeId == old(lastNodeId) && lastEdgeId == old(lastEdgeId)
    {
      AddModification(time, RemoveEdgeOp(id));
    }

    /** clear: no states and nothing queued; the counters are kept. */
    method Clear()
      modifies this
      ensures states == [] && log == []
      ensures lastNodeId == old(lastNodeId) && lastEdgeId == old(lastEdgeId)
    {
      states := [];
      log := [];
    }

    /** build(): the states replayed from the log and flagged. A failing
        operation ends it with invalid_graph, leaving the states built before
        its slot unflagged and the log as it was. */
    method Build() returns (r: Result<()>)
      modifies this
      ensures r == Replay(old(log)).1
      ensures r.Ok? ==> states == Flagged(Replay(old(log)).0) && log == []
      ensures r.Err? ==> states == Replay(old(log)).0 && log == old(log)
      ensures lastNodeId == old(lastNodeId) && lastEdgeId == old(lastEdgeId)
      ensures Valid()
    {
      states := [];
      ReplaySpec(log);
      r := ApplyModifications();
      if r.Err? {
        return;
      }
      SetBoolValues();
    }

    /** apply_modifications, on the emptied state vector. */
    method ApplyModifications() returns (r: Result<()>)
      modifies this
      requires states == []
      ensures r == Replay(old(log)).1 && states == Replay(old(log)).0
      ensures r.Ok? ==> log == []
      ensures r.Err? ==> log == old(log)
      ensures lastNodeId == old(lastNodeId) && lastEdgeId == old(lastEdgeId)
    {
      var i := 0;
      while i < |log|
        invariant i <= |log|
        invariant log == old(log) && lastNodeId == old(lastNodeId) && lastEdgeId == old(lastEdgeId)
        invariant ReplayFrom(log, i, states) == Replay(log)
      {
        var next := Previous(states);
        var j := 0;
        while j < |log[i]|
          invariant j <= |log[i]|
          invariant ApplySlotFrom(next, log[i], j) == ApplySlotFrom(Previous(states), log[i], 0)
        {
          var step := ApplyOp(next, log[i][j]);
          if step.Err? {
            return Err(step.error);
          }
          next := step.value;
          j := j + 1;
        }
        states := states + [next];
        i := i + 1;
      }
      log := [];
      return Ok(());
    }

    /** set_bool_values: the loop over the states, each node and edge given
        its flags in place. */
    method SetBoolValues()
      modifies this
      ensures states == Flagged(old(states))
      ensures old(Valid()) ==> Valid()
      ensures log == old(log) && lastNodeId == old(lastNodeId) && lastEdgeId == old(lastEdgeId)
    {
      ghost var orig := states;
      var i := 0;
      while i < |states|
        invariant i <= |states| == |orig|
        invariant forall j :: 0 <= j < i ==> states[j] == FlagFrame(orig, j)
        invariant forall j :: i <= j < |states| ==> states[j] == orig[j]
        invariant log == old(log) && lastNodeId == old(lastNodeId) && lastEdgeId == old(lastEdgeId)
      {
        FlagFrameIndexes(states, orig, i);
        var f := FlagState(states, i);
        states := states[i := f];
        i := i + 1;
      }
      if forall k :: 0 <= k < |orig| ==> orig[k].Valid() {
        forall k | 0 <= k < |states| ensures states[k].Valid() {
          FlaggedValid(orig, k);
        }
      }
    }

    /** The two inner loops of set_bool_values for state i. */
    static method FlagState(ss: seq<GraphState>, i: nat) returns (f: GraphState)
      requires i < |ss|
      ensures f == FlagFrame(ss, i)
    {
      var ns := ss[i].nodes.vec;
      var k := 0;
      while k < |ns|
        invariant k <= |ns| == |ss[i].nodes.vec|
        invariant forall j :: 0 <= j < k ==> ns[j] == FlagNode(ss, i, ss[i].nodes.vec[j])
        invariant forall j :: k <= j < |ns| ==> ns[j] == ss[i].nodes.vec[j]
      {
        ns := ns[k := FlagNode(ss, i, ns[k])];
        k := k + 1;
      }
      var es := ss[i].edges.vec;
      k := 0;
      while k < |es|
        invariant k <= |es| == |ss[i].edges.vec|
        invariant forall j :: 0 <= j < k ==> es[j] == FlagEdge(ss, i, ss[i].edges.vec[j])
        invariant forall j :: k <= j < |es| ==> es[j] == ss[i].edges.vec[j]
      {
        es := es[k := FlagEdge(ss, i, es[k])];
        k := k + 1;
      }
      f := Frame(Container(ns, ss[i].nodes.index), Container(es, ss[i].edges.index), ss[i].adj);
    }

    /** build(states): nothing queued, the given states flagged, then each
        counter raised above the ids they hold. */
    method BuildFrom(ss: seq<GraphState>)
      modifies this
      ensures log == [] && states == Flagged(ss)
      ensures (forall k :: 0 <= k < |ss| ==> ss[k].Valid()) ==> Valid()
      ensures lastNodeId == RaisedNodeCounter(old(lastNodeId), Flagged(ss), 0)
      ensures lastEdgeId == RaisedEdgeCounter(old(lastEdgeId), Flagged(ss), 0)
    {
      log := [];
      states := ss;
      SetBoolValues();
      RecalculateIds();
    }

    /** recalculate_ids: the loop over the states raising both counters. */
    method RecalculateIds()
      modifies this
      ensures lastNodeId == RaisedNodeCounter(old(lastNodeId), states, 0)
      ensures lastEdgeId == RaisedEdgeCounter(old(lastEdgeId), states, 0)
      ensures states == old(states) && log == old(log)
    {
      var i := 0;
      while i < |states|
        invariant i <= |states|
        invariant states == old(states) && log == old(log)
        invariant RaisedNodeCounter(lastNodeId, states, i) == RaisedNodeCounter(old(lastNodeId), states, 0)
        invariant RaisedEdgeCounter(lastEdgeId, states, i) == RaisedEdgeCounter(old(lastEdgeId), states, 0)
      {
        if states[i].nodes.vec != [] {
          lastNodeId := MaxU(lastNodeId, Inc(MaxNodeId(states[i].nodes.vec)));
        }
        if states[i].edges.vec != [] {
          lastEdgeId := MaxU(lastEdgeId, Inc(MaxEdgeId(states[i].edges.vec)));
        }
        i := i + 1;
      }
    }
  }
}
