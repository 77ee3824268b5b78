/** The parallel tolerance of dyng/foresighted_parallel.h. The workers of
    for_each_interleaved run the same rounds as the sequential version, each
    split into phases by the barrier: restore (commit the frames accepted in
    the previous round, or refresh their copies), iterate (one static-layout
    iteration on each copy) and decide (done by worker 0 alone, in frame
    order). Within a phase every worker touches only the frames it owns, so
    the phase is modelled as the workers running one after the other. */
module ForesightedParallel {
  import opened Identifiers
  import opened Nodes
  import opened Graphs
  import Container
  import opened Foresighted
  import opened Parallel
  import FR = FruchtermanReingold

  /** The restore phase: frame i becomes its copy when the last round
      accepted it and keeps its value otherwise. */
  function Committed(states: seq<Layout>, copies: seq<Layout>, apply: seq<bool>): (r: seq<Layout>)
    requires |copies| == |apply| == |states|
    ensures |r| == |states|
  {
    seq(|states|, i requires 0 <= i < |states| => if apply[i] then copies[i] else states[i])
  }

  /** The iterate phase: every frame's candidate at temperature temp. */
  function Candidates(tu: Tuning, temp: real, states: seq<Layout>): (r: seq<Layout>)
    ensures |r| == |states|
  {
    seq(|states|, i requires 0 <= i < |states| => Candidate(tu, states[i], temp))
  }

  /** What `get` returns for frames below s: the copy of an accepted frame,
      the frame itself otherwise; the frames from s on as they stand. Only
      frame s - 1 is read by the decision of frame s. */
  function View(states: seq<Layout>, copies: seq<Layout>, apply: seq<bool>, s: nat): (v: seq<Layout>)
    requires |copies| == |states| && s <= |apply| && s <= |states|
    ensures |v| == |states|
  {
    if s == 0 then states else states[s - 1 := if apply[s - 1] then copies[s - 1] else states[s - 1]]
  }

  /** The decide phase for the frames below s: frame i is accepted when its
      copy is close to what `get` gives for frame i - 1 and to frame i + 1
      as it stands. */
  function DecisionsUpTo(tu: Tuning, copies: seq<Layout>, states: seq<Layout>, s: nat): (a: seq<bool>)
    requires |copies| == |states| && s <= |states|
    ensures |a| == s
  {
    if s == 0 then []
    else
      var a := DecisionsUpTo(tu, copies, states, s - 1);
      a + [Takes(tu, copies[s - 1], View(states, copies, a, s - 1), s - 1)]
  }

  // ------------------------------------------------------------------ lemmas

  /** Takes reads only the frames next to s. */
  lemma TakesLocal(tu: Tuning, c: GraphState, xs: seq<Layout>, ys: seq<Layout>, s: nat)
    requires s < |xs| == |ys|
    requires s > 0 ==> xs[s - 1] == ys[s - 1]
    requires s + 1 < |xs| ==> xs[s + 1] == ys[s + 1]
    ensures Takes(tu, c, xs, s) == Takes(tu, c, ys, s)
  {
  }

  /** The frames below s committed with the decisions so far, the others
      as they stand. */
  function CommittedUpTo(states: seq<Layout>, copies: seq<Layout>, a: seq<bool>, s: nat): (r: seq<Layout>)
    requires |copies| == |states| && s <= |states| && |a| == s
    ensures |r| == |states|
  {
    seq(|states|, i requires 0 <= i < |states| => if i < s && a[i] then copies[i] else states[i])
  }

  /** Frame s - 1 decided the parallel way, against `get`, agrees with
      deciding it the sequential way, against the frames decided so far. */
  lemma DecideStep(tu: Tuning, temp: real, states: seq<Layout>, cands: seq<Layout>, a: seq<bool>, prev: seq<Layout>, s: nat, take: bool)
    requires 0 < s <= |states| == |cands| && |a| == s - 1
    requires cands[s - 1] == Candidate(tu, states[s - 1], temp)
    requires prev == CommittedUpTo(states, cands, a, s - 1)
    requires take == Takes(tu, cands[s - 1], View(states, cands, a, s - 1), s - 1)
    ensures CommittedUpTo(states, cands, a + [take], s) == Decide(tu, temp, prev, s - 1)
  {
    var view := View(states, cands, a, s - 1);
    assert prev[s - 1] == states[s - 1];
    if s > 1 {
      assert view[s - 2] == prev[s - 2];
    }
    TakesLocal(tu, cands[s - 1], view, prev, s - 1);
    var next := CommittedUpTo(states, cands, a + [take], s);
    assert next == if take then prev[s - 1 := cands[s - 1]] else prev;
  }

  /** Deciding the frames below s in the parallel way and committing them
      gives the sequential round with its first s frames decided. */
  lemma {:induction false} DecisionsMatch(tu: Tuning, temp: real, states: seq<Layout>, cands: seq<Layout>, s: nat)
    requires s <= |states| && cands == Candidates(tu, temp, states)
    ensures CommittedUpTo(states, cands, DecisionsUpTo(tu, cands, states, s), s) == RoundUpTo(tu, temp, states, s)
  {
    if s > 0 {
      DecisionsMatch(tu, temp, states, cands, s - 1);
      var a := DecisionsUpTo(tu, cands, states, s - 1);
      var take := Takes(tu, cands[s - 1], View(states, cands, a, s - 1), s - 1);
      DecideStep(tu, temp, states, cands, a, RoundUpTo(tu, temp, states, s - 1), s, take);
    }
  }

  /** One parallel round, once committed, is one sequential round. */
  lemma RoundMatches(tu: Tuning, temp: real, states: seq<Layout>)
    ensures var copies := Candidates(tu, temp, states);
      Committed(states, copies, DecisionsUpTo(tu, copies, states, |states|)) == Round(tu, temp, states)
  {
    var copies := Candidates(tu, temp, states);
    DecisionsMatch(tu, temp, states, copies, |states|);
    assert Committed(states, copies, DecisionsUpTo(tu, copies, states, |states|))
      == CommittedUpTo(states, copies, DecisionsUpTo(tu, copies, states, |states|), |states|);
  }

  // ----------------------------------------------------------------- phases

  /** The restore phase, worker by worker over the frames each owns. */
  method RestorePhase(pool: Pool, states: array<Layout>, copies: array<Layout>, apply: array<bool>)
    requires states != copies && states.Length == copies.Length == apply.Length
    modifies states, copies
    ensures states[..] == Committed(old(states[..]), old(copies[..]), apply[..])
    ensures copies[..] == states[..]
  {
    var n := states.Length;
    var step := pool.Count();
    var w := 0;
    while w < step
      invariant w <= step
      invariant forall i :: 0 <= i < n ==>
        if i % step < w
        then states[i] == copies[i] == (if apply[i] then old(copies[i]) else old(states[i]))
        else states[i] == old(states[i]) && copies[i] == old(copies[i])
    {
      var visited := WorkerIndices(w, step, n);
      var k := 0;
      while k < |visited|
        invariant k <= |visited|
        invariant forall i :: 0 <= i < n ==>
          if i % step < w || i in visited[..k]
          then states[i] == copies[i] == (if apply[i] then old(copies[i]) else old(states[i]))
          else states[i] == old(states[i]) && copies[i] == old(copies[i])
      {
        var i := visited[k];
        assert i in Owned(w, step, n);
        assert i !in visited[..k] by {
          forall a | 0 <= a < k ensures visited[a] != i {
          }
        }
        if apply[i] {
          states[i] := copies[i];
        } else {
          copies[i] := states[i];
        }
        assert visited[..k + 1] == visited[..k] + [i];
        k := k + 1;
      }
      assert visited[..k] == visited;
      w := w + 1;
    }
    assert states[..] == Committed(old(states[..]), old(copies[..]), apply[..]);
  }

  /** The iterate phase, worker by worker: one static-layout iteration on
      every copy. */
  method IteratePhase(pool: Pool, tu: Tuning, temp: real, copies: array<Layout>)
    modifies copies
    ensures copies[..] == Candidates(tu, temp, old(copies[..]))
  {
    var n := copies.Length;
    var step := pool.Count();
    var w := 0;
    while w < step
      invariant w <= step
      invariant forall i :: 0 <= i < n ==>
        copies[i] == if i % step < w then Candidate(tu, old(copies[i]), temp) else old(copies[i])
    {
      var visited := WorkerIndices(w, step, n);
      var k := 0;
      while k < |visited|
        invariant k <= |visited|
        invariant forall i :: 0 <= i < n ==>
          copies[i] == if i % step < w || i in visited[..k] then Candidate(tu, old(copies[i]), temp) else old(copies[i])
      {
        var i := visited[k];
        assert i in Owned(w, step, n);
        assert i !in visited[..k] by {
          forall a | 0 <= a < k ensures visited[a] != i {
          }
        }
        copies[i] := Candidate(tu, copies[i], temp);
        assert visited[..k + 1] == visited[..k] + [i];
        k := k + 1;
      }
      assert visited[..k] == visited;
      w := w + 1;
    }
  }

  /** The decide phase, run by worker 0 alone, frame after frame. */
  method DecidePhase(tu: Tuning, states: array<Layout>, copies: array<Layout>, apply: array<bool>)
    requires states.Length == copies.Length == apply.Length
    modifies apply
    ensures apply[..] == DecisionsUpTo(tu, copies[..], states[..], states.Length)
  {
    var n := states.Length;
    ghost var frames, cands := states[..], copies[..];
    var i := 0;
    while i < n
      invariant i <= n
      invariant apply[..i] == DecisionsUpTo(tu, cands, frames, i)
    {
      ghost var decided := apply[..i];
      apply[i] := false;
      var view := if i == 0 then states[..] else states[..][i - 1 := if apply[i - 1] then copies[i - 1] else states[i - 1]];
      assert view == View(frames, cands, decided, i);
      var take := Accepts(tu, copies[i], view, i);
      if take {
        apply[i] := true;
      }
      assert apply[..i + 1] == decided + [take];
      i := i + 1;
    }
    assert apply[..] == apply[..n];
  }

  /** One round of the workers: restore, iterate at temperature temp,
      decide. */
  method WorkersRound(pool: Pool, tu: Tuning, temp: real, states: array<Layout>, copies: array<Layout>, apply: array<bool>)
    requires states != copies && states.Length == copies.Length == apply.Length
    modifies states, copies, apply
    ensures states[..] == Committed(old(states[..]), old(copies[..]), old(apply[..]))
    ensures copies[..] == Candidates(tu, temp, states[..])
    ensures apply[..] == DecisionsUpTo(tu, copies[..], states[..], states.Length)
  {
    RestorePhase(pool, states, copies, apply);
    IteratePhase(pool, tu, temp, copies);
    DecidePhase(tu, states, copies, apply);
  }

  /** The rounds of the workers: each round restores, iterates and
      decides, and worker 0 anneals the temperature once. Committing the
      pending decisions gives the sequential rounds; the frames themselves
      lag one round behind. */
  method RunRounds(pool: Pool, tu: Tuning, cooling: FR.Cooling, states: array<Layout>, copies: array<Layout>, apply: array<bool>)
    requires states != copies && states.Length == copies.Length == apply.Length
    requires copies[..] == states[..]
    modifies states, copies, apply
    ensures Committed(states[..], copies[..], apply[..]) == Rounds(tu, cooling, old(states[..]), cooling.iterations)
    ensures states[..] == if cooling.iterations == 0 then old(states[..]) else Rounds(tu, cooling, old(states[..]), cooling.iterations - 1)
  {
    ghost var start := states[..];
    assert Committed(states[..], copies[..], apply[..]) == start;
    var temp := cooling.startTemperature;
    var r := 0;
    while r < cooling.iterations
      invariant r <= cooling.iterations && temp == FR.Temperature(cooling, r)
      invariant Committed(states[..], copies[..], apply[..]) == Rounds(tu, cooling, start, r)
      invariant r == 0 ==> states[..] == start
      invariant r > 0 ==> states[..] == Rounds(tu, cooling, start, r - 1)
    {
      ghost var cur := Rounds(tu, cooling, start, r);
      WorkersRound(pool, tu, temp, states, copies, apply);
      RoundMatches(tu, temp, states[..]);
      RoundsStep(tu, cooling, start, r, cur, Committed(states[..], copies[..], apply[..]));
      temp := cooling.anneal(temp);
      r := r + 1;
    }
  }

  /** tolerance() as written: the decisions of the last round are made
      but never committed, so the frames hold one round fewer than the
      sequential tolerance() computes. */
  method ToleranceAsWritten(pool: Pool, lay: StaticLayout, sqrt: real -> real, relative: bool, cooling: FR.Cooling,
                            states: array<Layout>, width: real, height: real, tolerance: real)
    requires states.Length > 0
    modifies states
    ensures var tu := TuningOf(lay, sqrt, relative, width, height, tolerance, old(states[..]));
      states[..] == if cooling.iterations == 0 then old(states[..]) else Rounds(tu, cooling, old(states[..]), cooling.iterations - 1)
  {
    var threshold := ThresholdFor(lay, relative, states[..], width, height, tolerance);
    var tu := Tuning(lay, sqrt, relative, width, height, threshold);
    var init := states[..];
    var copies := new Layout[states.Length](i requires 0 <= i < |init| => init[i]);
    var apply := new bool[states.Length](i => false);
    RunRounds(pool, tu, cooling, states, copies, apply);
  }

  /** tolerance() with the missing commit: after the rounds, the frames the
      last round accepted take their copies. The result is the sequential
      tolerance(). */
  method Tolerance(pool: Pool, lay: StaticLayout, sqrt: real -> real, relative: bool, cooling: FR.Cooling,
                   states: array<Layout>, width: real, height: real, tolerance: real)
    requires states.Length > 0
    modifies states
    ensures states[..] == Rounds(TuningOf(lay, sqrt, relative, width, height, tolerance, old(states[..])), cooling, old(states[..]), cooling.iterations)
  {
    var threshold := ThresholdFor(lay, relative, states[..], width, height, tolerance);
    var tu := Tuning(lay, sqrt, relative, width, height, threshold);
    var init := states[..];
    var copies := new Layout[states.Length](i requires 0 <= i < |init| => init[i]);
    var apply := new bool[states.Length](i => false);
    RunRounds(pool, tu, cooling, states, copies, apply);
    RestorePhase(pool, states, copies, apply);
  }

  // ------------------------------------------------------- the lost round

  /** A frame with one node, 0, at the origin. */
  function OneNode(): Layout
  {
    Graphs.EmptyFrame().(nodes := Container.Container([Node(Id(0), Origin, 1.0, false, false, ())], map[Id(0) := 0]))
  }

  /** A static layout whose iteration moves every node to (1, 0). */
  function Mover(): StaticLayout
  {
    StaticLayout((g, w, h, j) => Origin, (f, w, h, t, j) => Coords(1.0, 0.0), (w, h) => 1.0)
  }

  /** One frame, one round: the sequential tolerance moves the node (a lone
      frame always takes its candidate), the parallel one as written
      leaves it at the origin. */
  lemma LastRoundLost(sqrt: real -> real)
    ensures var c := FR.Cooling(1, 1.0, t => t);
      var tu := TuningOf(Mover(), sqrt, true, 1.0, 1.0, 1.0, [OneNode()]);
      && Positions(OneNode()) == [Origin]
      && Rounds(tu, c, [OneNode()], c.iterations - 1) == [OneNode()]
      && Rounds(tu, c, [OneNode()], c.iterations) == [Candidate(tu, OneNode(), 1.0)]
      && Positions(Candidate(tu, OneNode(), 1.0)) == [Coords(1.0, 0.0)]
  {
    var c := FR.Cooling(1, 1.0, t => t);
    var tu := TuningOf(Mover(), sqrt, true, 1.0, 1.0, 1.0, [OneNode()]);
    var f := OneNode();
    LoneFrameTakes(tu, 1.0, f);
    var ps := seq(|f.nodes.vec|, j requires 0 <= j < |f.nodes.vec| => tu.lay.iteration(f, tu.width, tu.height, 1.0, j));
    WithPositionsSpec(f, ps);
    assert ps == [Coords(1.0, 0.0)];
    assert Positions(f) == [Origin];
  }
}
