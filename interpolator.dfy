/** The animation between graph states (dyng/interpolator.h): the list of
    phases a transition goes through, the duration of each phase, the state
    machine that turns a point in time into animation parameters, and the
    blending of two consecutive states into one displayed frame.
    Durations and times are `real`; the floating-point rounding of the
    original is not modelled. */
module Interpolators {
  import opened Wrappers
  import opened Identifiers
  import opened Container
  import opened Nodes
  import opened Edges
  import opened Graphs
  import opened OptimizationGrids

  datatype Phase = Idle | Appear | Disappear | Morph | Simultaneous

  /** The duration of each kind of phase. */
  datatype Durations = Durations(idle: real, appear: real, disappear: real, morph: real, simultaneous: real) {

    /** duration(p): the stored duration of that kind of phase. */
    function Of(p: Phase): real
    {
      match p
      case Idle => idle
      case Appear => appear
      case Disappear => disappear
      case Morph => morph
      case Simultaneous => simultaneous
    }

    /** Writing through the reference duration(p) returns: only that
        kind's duration changes. */
    function Set(p: Phase, v: real): (r: Durations)
      ensures r.Of(p) == v
      ensures forall q :: q != p ==> r.Of(q) == Of(q)
    {
      match p
      case Idle => this.(idle := v)
      case Appear => this.(appear := v)
      case Disappear => this.(disappear := v)
      case Morph => this.(morph := v)
      case Simultaneous => this.(simultaneous := v)
    }

    predicate Positive()
    {
      idle > 0.0 && appear > 0.0 && disappear > 0.0 && morph > 0.0 && simultaneous > 0.0
    }
  }

  /** The member initialisers: idle 0.5, appear 0.25, disappear 0.25, morph 1,
      simultaneous 1.5. */
  function DefaultDurations(): (d: Durations)
    ensures d.Of(Idle) == 0.5 && d.Of(Appear) == 0.25 && d.Of(Disappear) == 0.25
    ensures d.Of(Morph) == 1.0 && d.Of(Simultaneous) == 1.5
    ensures d.Positive()
  {
    Durations(0.5, 0.25, 0.25, 1.0, 1.5)
  }

  /** interpolator(phased): idle, disappear, morph, appear. */
  const PhasedOrder: seq<Phase> := [Idle, Disappear, Morph, Appear]

  /** interpolator(simultaneous): idle, then everything at once. */
  const SimultaneousOrder: seq<Phase> := [Idle, Simultaneous]

  // ------------------------------------------------------------ phase lists

  /** std::count of one phase in the list. */
  function Count(ps: seq<Phase>, p: Phase): nat
  {
    if ps == [] then 0 else Count(ps[..|ps| - 1], p) + (if ps[|ps| - 1] == p then 1 else 0)
  }

  /** The documented rule: either the three separate phases once each and no
      simultaneous phase, or one simultaneous phase and none of the three;
      idle phases are free. */
  predicate PhasesValid(ps: seq<Phase>)
  {
    || (Count(ps, Simultaneous) == 0 && Count(ps, Appear) == 1 && Count(ps, Disappear) == 1 && Count(ps, Morph) == 1)
    || (Count(ps, Simultaneous) == 1 && Count(ps, Appear) == 0 && Count(ps, Disappear) == 0 && Count(ps, Morph) == 0)
  }

  /** The two tests set_phases makes before it stores the list: first that no
      phase other than idle repeats, then that the counts fit one of the two
      approaches; either failure is invalid_argument. */
  function CheckPhases(ps: seq<Phase>): (r: Result<()>)
    ensures r.Ok? <==> PhasesValid(ps)
    ensures r.Err? ==> r.error == InvalidArgument
  {
    var a := Count(ps, Appear);
    var d := Count(ps, Disappear);
    var m := Count(ps, Morph);
    var s := Count(ps, Simultaneous);
    var eitherThree := a > 0 || d > 0 || m > 0;
    var threeCorrect := a == 1 && d == 1 && m == 1;
    if s > 1 || a > 1 || d > 1 || m > 1 then Err(InvalidArgument)
    else if (s == 0 && !threeCorrect) || (s == 1 && eitherThree) then Err(InvalidArgument)
    else Ok(())
  }

  /** Both built-in orderings pass the check. */
  lemma DefaultOrdersValid()
    ensures CheckPhases(PhasedOrder) == Ok(())
    ensures CheckPhases(SimultaneousOrder) == Ok(())
  {
    DefaultOrderCounts();
  }

  lemma DefaultOrderCounts()
    ensures Count(PhasedOrder, Appear) == 1 && Count(PhasedOrder, Disappear) == 1
    ensures Count(PhasedOrder, Morph) == 1 && Count(PhasedOrder, Simultaneous) == 0
    ensures Count(SimultaneousOrder, Appear) == 0 && Count(SimultaneousOrder, Disappear) == 0
    ensures Count(SimultaneousOrder, Morph) == 0 && Count(SimultaneousOrder, Simultaneous) == 1
  {
    var s1: seq<Phase> := [Idle];
    var s2: seq<Phase> := [Idle, Disappear];
    var s3: seq<Phase> := [Idle, Disappear, Morph];
    assert s1[..0] == [];
    assert s2[..1] == s1;
    assert s3[..2] == s2;
    assert PhasedOrder[..3] == s3;
    assert SimultaneousOrder[..1] == s1;
    forall p: Phase ensures Count(s1, p) == (if p == Idle then 1 else 0) {
    }
    forall p: Phase ensures Count(s2, p) == Count(s1, p) + (if p == Disappear then 1 else 0) {
    }
    forall p: Phase ensures Count(s3, p) == Count(s2, p) + (if p == Morph then 1 else 0) {
    }
  }

  /** A valid list always names a phase that is not idle. */
  lemma ValidNotIdleOnly(ps: seq<Phase>)
    requires PhasesValid(ps)
    ensures exists i :: 0 <= i < |ps| && ps[i] != Idle
  {
    if forall i :: 0 <= i < |ps| ==> ps[i] == Idle {
      IdleOnlyCounts(ps);
    }
  }

  lemma {:induction false} IdleOnlyCounts(ps: seq<Phase>)
    requires forall i :: 0 <= i < |ps| ==> ps[i] == Idle
    ensures Count(ps, Simultaneous) == 0 && Count(ps, Appear) == 0
  {
    if ps != [] {
      IdleOnlyCounts(ps[..|ps| - 1]);
    }
  }

  // -------------------------------------------------------------- durations

  /** The sum of the durations of the listed phases. */
  function TotalDuration(ps: seq<Phase>, ds: Durations): real
  {
    if ps == [] then 0.0 else TotalDuration(ps[..|ps| - 1], ds) + ds.Of(ps[|ps| - 1])
  }

  /** With positive durations, a valid list takes a positive time. */
  lemma {:induction false} TotalPositive(ps: seq<Phase>, ds: Durations)
    requires ds.Positive()
    ensures TotalDuration(ps, ds) >= 0.0
    ensures ps != [] ==> TotalDuration(ps, ds) > 0.0
  {
    if ps != [] {
      TotalPositive(ps[..|ps| - 1], ds);
    }
  }

  /** The total of a list is the first duration plus the total of the rest. */
  lemma {:induction false} TotalCons(ps: seq<Phase>, ds: Durations)
    requires ps != []
    ensures TotalDuration(ps, ds) == ds.Of(ps[0]) + TotalDuration(ps[1..], ds)
  {
    if |ps| > 1 {
      assert ps[..|ps| - 1][1..] == ps[1..][..|ps| - 2];
      TotalCons(ps[..|ps| - 1], ds);
    } else {
      assert ps[..|ps| - 1] == [];
      assert ps[1..] == [];
    }
  }

  /** size_t arithmetic: size() - 1 wraps to 2^64 - 1 for an empty list. */
  const SizeLimit: int := 0x1_0000_0000_0000_0000

  function SizeMinusOne(n: nat): (r: nat)
    requires n < SizeLimit
    ensures n >= 1 ==> r == n - 1
    ensures n == 0 ==> r == SizeLimit - 1
  {
    (n + SizeLimit - 1) % SizeLimit
  }

  /** length: (number of states - 1) times the transition duration. */
  function AnimationLength(n: nat, td: real): (r: real)
    requires n < SizeLimit
  {
    SizeMinusOne(n) as real * td
  }

  /** For n >= 1 states the animation is n - 1 transitions long; with no
      states the subtraction wraps and the length is 2^64 - 1 transitions,
      not 0. */
  lemma AnimationLengthSpec(n: nat, td: real)
    requires n < SizeLimit
    ensures n >= 1 ==> AnimationLength(n, td) == (n - 1) as real * td
    ensures n == 0 ==> AnimationLength(n, td) == (SizeLimit - 1) as real * td
    ensures n == 1 ==> AnimationLength(n, td) == 0.0
    ensures n == 0 && td > 0.0 ==> AnimationLength(n, td) > 0.0
  {
    if n == 0 && td > 0.0 {
      RealMulAtLeast(SizeLimit - 1, td);
    }
  }

  // ------------------------------------------------------- the current phase

  /** get_current_phase from phase i on, with `time` already reduced by the
      phases before i: the first phase whose duration exceeds what is left,
      with the time spent in it; out_of_range when the list runs out. */
  function PhaseFrom(ps: seq<Phase>, ds: Durations, time: real, i: nat): Result<(real, nat)>
    decreases |ps| - i
  {
    if i >= |ps| then Err(OutOfRange)
    else if time < ds.Of(ps[i]) then Ok((time, i))
    else PhaseFrom(ps, ds, time - ds.Of(ps[i]), i + 1)
  }

  function CurrentPhase(ps: seq<Phase>, ds: Durations, time: real): Result<(real, nat)>
  {
    PhaseFrom(ps, ds, time, 0)
  }

  /** The search from phase i: it finds a phase whenever the time left is
      below the duration of the remaining phases; the phase k it returns is
      the first one whose duration exceeds the time left at k, and the time
      returned is that time left. */
  lemma PhaseFromSpec(ps: seq<Phase>, ds: Durations, time: real, i: nat)
    requires i <= |ps|
    ensures 0.0 <= time && time + TotalDuration(ps[..i], ds) < TotalDuration(ps, ds) ==> PhaseFrom(ps, ds, time, i).Ok?
    ensures PhaseFrom(ps, ds, time, i).Err? ==> PhaseFrom(ps, ds, time, i).error == OutOfRange
    ensures PhaseFrom(ps, ds, time, i).Ok? ==>
      var (t, k) := PhaseFrom(ps, ds, time, i).value;
      && i <= k < |ps|
      && t < ds.Of(ps[k])
      && t == time + TotalDuration(ps[..i], ds) - TotalDuration(ps[..k], ds)
      && (time >= 0.0 ==> t >= 0.0)
      && (forall j :: i <= j < k ==> time + TotalDuration(ps[..i], ds) - TotalDuration(ps[..j], ds) >= ds.Of(ps[j]))
  {
    if 0.0 <= time && time + TotalDuration(ps[..i], ds) < TotalDuration(ps, ds) {
      PhaseFromFinds(ps, ds, time, i);
    }
    PhaseFromFails(ps, ds, time, i);
    if PhaseFrom(ps, ds, time, i).Ok? {
      PhaseFromFound(ps, ds, time, i);
    }
  }

  /** The durations up to phase i + 1 are those up to i and phase i's. */
  lemma TotalStep(ps: seq<Phase>, ds: Durations, i: nat)
    requires i < |ps|
    ensures TotalDuration(ps[..i + 1], ds) == TotalDuration(ps[..i], ds) + ds.Of(ps[i])
  {
    assert ps[..i + 1][..i] == ps[..i];
  }

  lemma {:induction false} PhaseFromFinds(ps: seq<Phase>, ds: Durations, time: real, i: nat)
    requires i <= |ps| && 0.0 <= time && time + TotalDuration(ps[..i], ds) < TotalDuration(ps, ds)
    ensures PhaseFrom(ps, ds, time, i).Ok?
    decreases |ps| - i
  {
    assert ps[..|ps|] == ps;
    if i < |ps| && time >= ds.Of(ps[i]) {
      TotalStep(ps, ds, i);
      PhaseFromFinds(ps, ds, time - ds.Of(ps[i]), i + 1);
    }
  }

  lemma {:induction false} PhaseFromFails(ps: seq<Phase>, ds: Durations, time: real, i: nat)
    ensures PhaseFrom(ps, ds, time, i).Err? ==> PhaseFrom(ps, ds, time, i).error == OutOfRange
    decreases |ps| - i
  {
    if i < |ps| && time >= ds.Of(ps[i]) {
      PhaseFromFails(ps, ds, time - ds.Of(ps[i]), i + 1);
    }
  }

  lemma {:induction false} PhaseFromFound(ps: seq<Phase>, ds: Durations, time: real, i: nat)
    requires i <= |ps| && PhaseFrom(ps, ds, time, i).Ok?
    ensures var (t, k) := PhaseFrom(ps, ds, time, i).value;
      && i <= k < |ps|
      && t < ds.Of(ps[k])
      && t == time + TotalDuration(ps[..i], ds) - TotalDuration(ps[..k], ds)
      && (time >= 0.0 ==> t >= 0.0)
      && (forall j :: i <= j < k ==> time + TotalDuration(ps[..i], ds) - TotalDuration(ps[..j], ds) >= ds.Of(ps[j]))
    decreases |ps| - i
  {
    if time >= ds.Of(ps[i]) {
      var rest := time - ds.Of(ps[i]);
      TotalStep(ps, ds, i);
      PhaseFromFound(ps, ds, rest, i + 1);
      var (t, k) := PhaseFrom(ps, ds, rest, i + 1).value;
      assert rest + TotalDuration(ps[..i + 1], ds) == time + TotalDuration(ps[..i], ds);
      forall j | i <= j < k ensures time + TotalDuration(ps[..i], ds) - TotalDuration(ps[..j], ds) >= ds.Of(ps[j]) {
        if j == i {
          assert time + TotalDuration(ps[..i], ds) - TotalDuration(ps[..j], ds) == time;
        }
      }
    }
  }

  /** get_current_phase(v): out_of_range only when v is at least the
      transition duration; otherwise the first phase k with
      v - (durations before k) < duration(k), together with that offset. */
  lemma CurrentPhaseSpec(ps: seq<Phase>, ds: Durations, v: real)
    ensures 0.0 <= v < TotalDuration(ps, ds) ==> CurrentPhase(ps, ds, v).Ok?
    ensures CurrentPhase(ps, ds, v).Err? ==> CurrentPhase(ps, ds, v).error == OutOfRange
    ensures CurrentPhase(ps, ds, v).Ok? ==>
      var (t, k) := CurrentPhase(ps, ds, v).value;
      && k < |ps|
      && t == v - TotalDuration(ps[..k], ds)
      && t < ds.Of(ps[k])
      && (v >= 0.0 ==> t >= 0.0)
      && (forall j :: 0 <= j < k ==> v - TotalDuration(ps[..j], ds) >= ds.Of(ps[j]))
  {
    assert ps[..0] == [];
    PhaseFromSpec(ps, ds, v, 0);
  }

  // ------------------------------------------------------ the state machine

  /** frame_state: the parameters one frame of animation is drawn with. */
  datatype Animation = Animation(interpolation: real, alpha: real, adding: bool, added: bool, deleting: bool, deleted: bool)

  const StartAnimation := Animation(0.0, 0.0, false, false, false, false)

  /** perform_phase(p, time, a), `d` being the duration of p. */
  function Perform(p: Phase, time: real, d: real, a: Animation): Animation
    requires p == Idle || d != 0.0
  {
    match p
    case Idle => a
    case Appear =>
      a.(adding := time < d, alpha := time / d, added := a.added || time >= d)
    case Disappear =>
      a.(deleting := time < d, alpha := time / d, deleted := a.deleted || time >= d)
    case Morph =>
      a.(interpolation := time / d)
    case Simultaneous =>
      a.(adding := time < d, deleting := time < d, alpha := time / d, interpolation := time / d,
         deleted := a.deleted || time >= d, added := a.added || time >= d)
  }

  predicate Fraction(x: real)
  {
    0.0 <= x <= 1.0
  }

  predicate FractionsIn(a: Animation)
  {
    Fraction(a.alpha) && Fraction(a.interpolation)
  }

  lemma FractionOf(t: real, d: real)
    requires 0.0 <= t <= d && d > 0.0
    ensures Fraction(t / d)
  {
    var q := t / d;
    assert q * d == t;
    if q > 1.0 {
      RealMulStrict(1.0, q, d);
      assert false;
    }
    if q < 0.0 {
      RealMulStrict(q, 0.0, d);
      assert false;
    }
  }

  /** One phase: the flags added and deleted are never reset, a phase run
      to its end sets the flag it completes (and clears the one saying it is
      in progress), and for a time within the phase every fraction stays in
      [0, 1]. */
  lemma PerformSpec(p: Phase, time: real, d: real, a: Animation)
    requires d > 0.0
    ensures a.added ==> Perform(p, time, d, a).added
    ensures a.deleted ==> Perform(p, time, d, a).deleted
    ensures (p == Appear || p == Simultaneous) && time >= d ==>
      Perform(p, time, d, a).added && !Perform(p, time, d, a).adding
    ensures (p == Disappear || p == Simultaneous) && time >= d ==>
      Perform(p, time, d, a).deleted && !Perform(p, time, d, a).deleting
    ensures (p == Appear || p == Simultaneous) && 0.0 <= time < d ==> Perform(p, time, d, a).adding
    ensures (p == Disappear || p == Simultaneous) && 0.0 <= time < d ==> Perform(p, time, d, a).deleting
    ensures FractionsIn(a) && 0.0 <= time <= d ==> FractionsIn(Perform(p, time, d, a))
  {
    if 0.0 <= time <= d {
      FractionOf(time, d);
    }
  }

  /** The phases before the current one, each performed with its full duration. */
  function PerformAll(ps: seq<Phase>, ds: Durations): Animation
    requires ds.Positive()
  {
    if ps == [] then StartAnimation
    else Perform(ps[|ps| - 1], ds.Of(ps[|ps| - 1]), ds.Of(ps[|ps| - 1]), PerformAll(ps[..|ps| - 1], ds))
  }

  /** Performing one more phase in full extends the phases performed. */
  lemma PerformAllStep(ps: seq<Phase>, ds: Durations, i: nat)
    requires ds.Positive() && i < |ps|
    ensures PerformAll(ps[..i + 1], ds) == Perform(ps[i], ds.Of(ps[i]), ds.Of(ps[i]), PerformAll(ps[..i], ds))
  {
    assert ps[..i + 1][..i] == ps[..i];
  }

  /** After complete phases every fraction is in [0, 1], and a completed
      appear (or simultaneous) phase has set added, a completed disappear (or
      simultaneous) phase deleted. */
  lemma {:induction false} PerformAllSpec(ps: seq<Phase>, ds: Durations)
    requires ds.Positive()
    ensures FractionsIn(PerformAll(ps, ds))
    ensures Appear in ps || Simultaneous in ps ==> PerformAll(ps, ds).added && !PerformAll(ps, ds).adding
    ensures Disappear in ps || Simultaneous in ps ==> PerformAll(ps, ds).deleted && !PerformAll(ps, ds).deleting
    ensures Appear !in ps && Simultaneous !in ps ==> !PerformAll(ps, ds).added && !PerformAll(ps, ds).adding
    ensures Disappear !in ps && Simultaneous !in ps ==> !PerformAll(ps, ds).deleted && !PerformAll(ps, ds).deleting
  {
    if ps != [] {
      var init := ps[..|ps| - 1];
      var p := ps[|ps| - 1];
      assert ps == init + [p];
      PerformAllSpec(init, ds);
      PerformSpec(p, ds.Of(p), ds.Of(p), PerformAll(init, ds));
    }
  }

  /** The animation state of one frame: the phases before the current one in
      full, then the current one for the time spent in it. */
  function Replay(ps: seq<Phase>, ds: Durations, t: real, k: nat): Animation
    requires ds.Positive() && k < |ps|
  {
    Perform(ps[k], t, ds.Of(ps[k]), PerformAll(ps[..k], ds))
  }

  /** Within the current phase every fraction stays in [0, 1]. */
  lemma ReplayFractions(ps: seq<Phase>, ds: Durations, t: real, k: nat)
    requires ds.Positive() && k < |ps| && 0.0 <= t < ds.Of(ps[k])
    ensures FractionsIn(Replay(ps, ds, t, k))
  {
    PerformAllSpec(ps[..k], ds);
    PerformSpec(ps[k], t, ds.Of(ps[k]), PerformAll(ps[..k], ds));
  }

  // ----------------------------------------------------------------- alpha

  function Indicator(b: bool): real
  {
    if b then 1.0 else 0.0
  }

  /** calc_alpha: the alpha an entity with these flags and this alpha is
      drawn with. */
  function CalcAlpha(isNew: bool, isOld: bool, alpha: real, a: Animation): real
  {
    if !isOld && !isNew then alpha
    else
      var a1 := if isNew && !a.added then 0.0 else alpha;
      var a2 := if isOld && a.deleted then 0.0 else a1;
      var ape := isNew && a.adding && !a.added;
      var dis := isOld && a.deleting;
      if ape || dis then (Indicator(!ape) + a.alpha * Indicator(ape)) * (1.0 - a.alpha * Indicator(dis))
      else a2
  }

  lemma FractionProduct(x: real, y: real)
    requires Fraction(x) && Fraction(y)
    ensures Fraction(x * y)
  {
    if y > 0.0 {
      RealMulMonotone(0.0, x, y);
      RealMulMonotone(x, 1.0, y);
      assert 0.0 * y == 0.0;
      assert 1.0 * y == y;
      assert 0.0 <= x * y <= y;
    } else {
      assert x * y == x * 0.0;
    }
  }

  /** An entity neither new nor old keeps its alpha. Otherwise the result
      stays in [0, 1] when both the entity's alpha and the animation's are
      there; a new entity is invisible before its appearance starts, fades in
      with the animation's alpha while it appears, and is drawn as it is
      once added (unless it is also old and already deleted); an old entity
      is invisible once deleted. */
  lemma CalcAlphaSpec(isNew: bool, isOld: bool, alpha: real, a: Animation)
    ensures !isNew && !isOld ==> CalcAlpha(isNew, isOld, alpha, a) == alpha
    ensures Fraction(alpha) && Fraction(a.alpha) ==> Fraction(CalcAlpha(isNew, isOld, alpha, a))
    ensures isNew && !isOld && !a.adding && !a.added ==> CalcAlpha(isNew, isOld, alpha, a) == 0.0
    ensures isNew && !isOld && a.adding && !a.added ==> CalcAlpha(isNew, isOld, alpha, a) == a.alpha
    ensures isNew && !isOld && a.added ==> CalcAlpha(isNew, isOld, alpha, a) == alpha
    ensures isOld && !isNew && a.deleted && !a.deleting ==> CalcAlpha(isNew, isOld, alpha, a) == 0.0
    ensures isOld && !isNew && a.deleting ==> CalcAlpha(isNew, isOld, alpha, a) == 1.0 - a.alpha
  {
    if Fraction(alpha) && Fraction(a.alpha) {
      FractionProduct(a.alpha, 1.0 - a.alpha);
    }
  }

  // ---------------------------------------------------------------- lerp

  /** lerp: the point a fraction `v` of the way from a to b. */
  function Lerp(a: real, b: real, v: real): (r: real)
    ensures v == 0.0 ==> r == a
    ensures v == 1.0 ==> r == b
    ensures a == b ==> r == a
  {
    a + v * (b - a)
  }

  lemma ScaleWithin(v: real, c: real)
    requires Fraction(v) && c > 0.0
    ensures 0.0 <= v * c <= c
  {
    RealMulMonotone(0.0, v, c);
    assert c - v * c == (1.0 - v) * c;
    RealMulMonotone(0.0, 1.0 - v, c);
  }

  /** For a fraction in [0, 1] the interpolated value lies between the two ends. */
  lemma LerpBetween(a: real, b: real, v: real)
    requires Fraction(v)
    ensures a <= b ==> a <= Lerp(a, b, v) <= b
    ensures b <= a ==> b <= Lerp(a, b, v) <= a
  {
    if a < b {
      ScaleWithin(v, b - a);
    } else if b < a {
      var c := a - b;
      ScaleWithin(v, c);
      var m := v * c;
      assert 0.0 <= m <= c;
      assert b == a - c;
      assert Lerp(a, b, v) == a + v * (-c);
      assert v * (-c) == -m;
    }
  }

  function LerpCoords(a: Coords, b: Coords, v: real): (r: Coords)
    ensures a == b ==> r == a
  {
    Coords(Lerp(a.x, b.x, v), Lerp(a.y, b.y, v))
  }

  // ------------------------------------------------------- frame blending

  /** The first two loops of operator(): every node and edge of the
      current state stops being new. */
  function Unflag(f: GraphState): GraphState
  {
    Frame(Container(UnflagNodes(f.nodes.vec), f.nodes.index),
          Container(UnflagEdges(f.edges.vec), f.edges.index),
          f.adj)
  }

  function UnflagNodes(ns: seq<Node<()>>): seq<Node<()>>
  {
    seq(|ns|, i requires 0 <= i < |ns| => ns[i].SetIsNew(false))
  }

  function UnflagEdges(es: seq<Edge<()>>): seq<Edge<()>>
  {
    seq(|es|, i requires 0 <= i < |es| => es[i].SetIsNew(false))
  }

  /** The third loop, from the i-th node of `ns` on: each node new in the next
      state is pushed, no longer old. */
  function ImportNodesFrom(g: GraphState, ns: seq<Node<()>>, i: nat): GraphState
    decreases |ns| - i
  {
    if i >= |ns| then g
    else ImportNodesFrom(if ns[i].isNew then PushNode(g, ns[i].SetIsOld(false)) else g, ns, i + 1)
  }

  /** The fourth loop, from the i-th edge of `es` on: each edge new in the
      next state is pushed, no longer old; a push that throws ends it. */
  function ImportEdgesFrom(g: GraphState, es: seq<Edge<()>>, i: nat): Result<GraphState>
    decreases |es| - i
  {
    if i >= |es| then Ok(g)
    else if !es[i].isNew then ImportEdgesFrom(g, es, i + 1)
    else match PushEdge(g, es[i].SetIsOld(false))
      case Err(e) => Err(e)
      case Ok(h) => ImportEdgesFrom(h, es, i + 1)
  }

  function Import(g: GraphState, next: GraphState): Result<GraphState>
  {
    ImportEdgesFrom(ImportNodesFrom(g, next.nodes.vec, 0), next.edges.vec, 0)
  }

  /** The fifth loop's work on one node: moved towards its place in the next
      state when it has one there, then given its alpha. */
  function BlendNode(n: Node<()>, next: GraphState, a: Animation): (r: Node<()>)
    requires next.nodes.IndexedBy(NodeIdOf)
    ensures r.id == n.id && r.isNew == n.isNew && r.isOld == n.isOld
  {
    var moved := if NodeExists(next, n.id) then n.SetPos(LerpCoords(n.pos, NodeAt(next, n.id).value.pos, a.interpolation)) else n;
    moved.SetAlpha(CalcAlpha(moved.isNew, moved.isOld, moved.alpha, a))
  }

  /** The last loop's work on one edge: it is given its alpha. */
  function FadeEdge(e: Edge<()>, a: Animation): (r: Edge<()>)
    ensures r.id == e.id && r.one == e.one && r.two == e.two && r.isNew == e.isNew && r.isOld == e.isOld
  {
    e.SetAlpha(CalcAlpha(e.isNew, e.isOld, e.alpha, a))
  }

  function Blended(g: GraphState, next: GraphState, a: Animation): GraphState
    requires next.nodes.IndexedBy(NodeIdOf)
  {
    Frame(Container(BlendNodes(g.nodes.vec, next, a), g.nodes.index),
          Container(FadeEdges(g.edges.vec, a), g.edges.index),
          g.adj)
  }

  function BlendNodes(ns: seq<Node<()>>, next: GraphState, a: Animation): seq<Node<()>>
    requires next.nodes.IndexedBy(NodeIdOf)
  {
    seq(|ns|, i requires 0 <= i < |ns| => BlendNode(ns[i], next, a))
  }

  function FadeEdges(es: seq<Edge<()>>, a: Animation): seq<Edge<()>>
  {
    seq(|es|, i requires 0 <= i < |es| => FadeEdge(es[i], a))
  }

  /** std::min<unsigned>(index, size - 1). */
  function Clip(i: nat, n: nat): (r: nat)
    requires n > 0
    ensures r < n
  {
    if i < n - 1 then i else n - 1
  }

  /** How far into its transition a point in time lies:
      time - floor(time / td) * td. */
  function Offset(td: real, time: real): (v: real)
    requires td > 0.0 && time >= 0.0
    ensures 0.0 <= v < td
  {
    FloorScaled(time, td);
    time - Floor(time / td) as real * td
  }

  /** The animation state at offset v into a transition: the phase v falls
      in, performed after all the phases before it. Every fraction in it is in
      [0, 1]. */
  function AnimationAt(ps: seq<Phase>, ds: Durations, v: real): (a: Animation)
    requires ds.Positive() && 0.0 <= v < TotalDuration(ps, ds)
    ensures FractionsIn(a)
  {
    CurrentPhaseSpec(ps, ds, v);
    var tk := CurrentPhase(ps, ds, v).value;
    ReplayFractions(ps, ds, tk.0, tk.1);
    Replay(ps, ds, tk.0, tk.1)
  }

  /** Where a point in time falls: the two states it lies between and the
      animation state within the transition. */
  function Transition(ps: seq<Phase>, ds: Durations, n: nat, time: real): (r: (nat, nat, Animation))
    requires ds.Positive() && ps != [] && n > 0 && time >= 0.0
    ensures r.0 < n && r.1 < n
  {
    TotalPositive(ps, ds);
    var td := TotalDuration(ps, ds);
    (Clip(Floor(time / td), n), Clip(Ceil(time / td), n), AnimationAt(ps, ds, Offset(td, time)))
  }

  /** One displayed frame from the current and the next state: the
      current state unflagged, the next state's new entities imported, then
      everything blended with the animation state `a`. */
  function Display(cur: GraphState, next: GraphState, a: Animation): Result<GraphState>
    requires next.nodes.IndexedBy(NodeIdOf)
  {
    match Import(Unflag(cur), next)
    case Err(e) => Err(e)
    case Ok(g) => Ok(Blended(g, next, a))
  }

  /** operator(): out_of_range before 0 and after the end, an empty graph
      when there are no states, otherwise the blend of the two states the
      time falls between. */
  function InterpolationOf(ps: seq<Phase>, ds: Durations, states: seq<GraphState>, time: real): Result<GraphState>
    requires ds.Positive() && ps != [] && |states| < SizeLimit
    requires forall k :: 0 <= k < |states| ==> states[k].Valid()
  {
    if time < 0.0 || time > AnimationLength(|states|, TotalDuration(ps, ds)) then Err(OutOfRange)
    else if states == [] then Ok(EmptyFrame())
    else
      var t := Transition(ps, ds, |states|, time);
      assert states[t.1].Valid();
      Display(states[t.0], states[t.1], t.2)
  }


  // ------------------------------------------------- what the blending keeps

  /** `x` is a new node of `ns`, from the i-th on, no longer old. */
  ghost predicate NodeFrom(x: Node<()>, ns: seq<Node<()>>, i: nat)
  {
    exists k :: i <= k < |ns| && ns[k].isNew && x == ns[k].SetIsOld(false)
  }

  /** `r` is `g` with nodes appended, each a new node of `ns` (from the i-th
      on) that is no longer old, and stores every such node. */
  ghost predicate NodesImported(g: GraphState, r: GraphState, ns: seq<Node<()>>, i: nat)
  {
    && r.edges == g.edges
    && |g.nodes.vec| <= |r.nodes.vec|
    && r.nodes.vec[..|g.nodes.vec|] == g.nodes.vec
    && (forall j :: |g.nodes.vec| <= j < |r.nodes.vec| ==> NodeFrom(r.nodes.vec[j], ns, i))
    && g.nodes.index.Keys <= r.nodes.index.Keys
    && (forall k :: i <= k < |ns| && ns[k].isNew ==> ns[k].id in r.nodes.index)
  }

  /** Importing nodes keeps the nodes already there, in place, and appends
      only nodes new in the next state, each no longer old; afterwards every
      new node of the next state is stored, and when all of them were stored
      already nothing changes. */
  /** Pushing the next state's new nodes keeps a graph valid. */
  lemma {:induction false} ImportNodesValid(g: GraphState, ns: seq<Node<()>>, i: nat)
    requires g.Valid()
    ensures ImportNodesFrom(g, ns, i).Valid()
    decreases |ns| - i
  {
    if i < |ns| {
      if ns[i].isNew {
        PushNodeSpec(g, ns[i].SetIsOld(false));
      }
      ImportNodesValid(if ns[i].isNew then PushNode(g, ns[i].SetIsOld(false)) else g, ns, i + 1);
    }
  }

  /** Pushing the next state's new edges keeps a graph valid when it succeeds. */
  lemma {:induction false} ImportEdgesValid(g: GraphState, es: seq<Edge<()>>, i: nat)
    requires g.Valid()
    ensures ImportEdgesFrom(g, es, i).Ok? ==> ImportEdgesFrom(g, es, i).value.Valid()
    decreases |es| - i
  {
    if i < |es| {
      if !es[i].isNew {
        ImportEdgesValid(g, es, i + 1);
      } else {
        PushEdgeSpec(g, es[i].SetIsOld(false));
        if PushEdge(g, es[i].SetIsOld(false)).Ok? {
          ImportEdgesValid(PushEdge(g, es[i].SetIsOld(false)).value, es, i + 1);
        }
      }
    }
  }

  lemma {:induction false} ImportNodesSpec(g: GraphState, ns: seq<Node<()>>, i: nat)
    requires i <= |ns|
    ensures NodesImported(g, ImportNodesFrom(g, ns, i), ns, i)
    ensures (forall k :: i <= k < |ns| ==> ns[k].id in g.nodes.index) ==> ImportNodesFrom(g, ns, i) == g
    decreases |ns| - i
  {
    if i < |ns| {
      var h := if ns[i].isNew then PushNode(g, ns[i].SetIsOld(false)) else g;
      ImportNodesSpec(h, ns, i + 1);
      var r := ImportNodesFrom(g, ns, i);
      assert r == ImportNodesFrom(h, ns, i + 1);
      assert NodesImported(h, r, ns, i + 1);
      assert h.nodes.vec[..|g.nodes.vec|] == g.nodes.vec;
      assert r.nodes.vec[..|g.nodes.vec|] == r.nodes.vec[..|h.nodes.vec|][..|g.nodes.vec|];
      forall j | |g.nodes.vec| <= j < |r.nodes.vec|
        ensures NodeFrom(r.nodes.vec[j], ns, i)
      {
        if j < |h.nodes.vec| {
          assert r.nodes.vec[j] == r.nodes.vec[..|h.nodes.vec|][j] == h.nodes.vec[j];
          assert i <= i < |ns| && ns[i].isNew && r.nodes.vec[j] == ns[i].SetIsOld(false);
        } else {
          assert NodeFrom(r.nodes.vec[j], ns, i + 1);
          var k :| i + 1 <= k < |ns| && ns[k].isNew && r.nodes.vec[j] == ns[k].SetIsOld(false);
          assert i <= k < |ns|;
        }
      }
      assert NodesImported(g, r, ns, i);
    }
  }

  /** `x` is a new edge of `es`, from the i-th on, no longer old. */
  ghost predicate EdgeFrom(x: Edge<()>, es: seq<Edge<()>>, i: nat)
  {
    exists k :: i <= k < |es| && es[k].isNew && x == es[k].SetIsOld(false)
  }

  /** `r` is `g` with edges appended, each a new edge of `es` (from the i-th
      on) that is no longer old, and stores every such edge. */
  ghost predicate EdgesImported(g: GraphState, r: GraphState, es: seq<Edge<()>>, i: nat)
  {
    && r.nodes == g.nodes
    && |g.edges.vec| <= |r.edges.vec|
    && r.edges.vec[..|g.edges.vec|] == g.edges.vec
    && (forall j :: |g.edges.vec| <= j < |r.edges.vec| ==> EdgeFrom(r.edges.vec[j], es, i))
    && g.edges.index.Keys <= r.edges.index.Keys
    && (forall k :: i <= k < |es| && es[k].isNew ==> es[k].id in r.edges.index)
  }

  /** Importing edges keeps the nodes and the edges already there, appends
      only edges new in the next state, each no longer old, and then stores
      every new edge of the next state; it can only fail with invalid_graph,
      and when every edge was stored already it changes nothing. */
  lemma {:induction false} ImportEdgesSpec(g: GraphState, es: seq<Edge<()>>, i: nat)
    requires i <= |es|
    ensures ImportEdgesFrom(g, es, i).Err? ==> ImportEdgesFrom(g, es, i).error == InvalidGraph
    ensures ImportEdgesFrom(g, es, i).Ok? ==> EdgesImported(g, ImportEdgesFrom(g, es, i).value, es, i)
    ensures (forall k :: i <= k < |es| ==> es[k].id in g.edges.index) ==> ImportEdgesFrom(g, es, i) == Ok(g)
    decreases |es| - i
  {
    if i < |es| && es[i].isNew && PushEdge(g, es[i].SetIsOld(false)).Ok? {
      var h := PushEdge(g, es[i].SetIsOld(false)).value;
      ImportEdgesSpec(h, es, i + 1);
      if ImportEdgesFrom(g, es, i).Ok? {
        var r := ImportEdgesFrom(g, es, i).value;
        assert r == ImportEdgesFrom(h, es, i + 1).value;
        assert EdgesImported(h, r, es, i + 1);
        assert h.edges.vec[..|g.edges.vec|] == g.edges.vec;
        assert r.edges.vec[..|g.edges.vec|] == r.edges.vec[..|h.edges.vec|][..|g.edges.vec|];
        forall j | |g.edges.vec| <= j < |r.edges.vec|
          ensures EdgeFrom(r.edges.vec[j], es, i)
        {
          if j < |h.edges.vec| {
            assert r.edges.vec[j] == r.edges.vec[..|h.edges.vec|][j] == h.edges.vec[j];
            assert i <= i < |es| && es[i].isNew && r.edges.vec[j] == es[i].SetIsOld(false);
          } else {
            assert EdgeFrom(r.edges.vec[j], es, i + 1);
            var k :| i + 1 <= k < |es| && es[k].isNew && r.edges.vec[j] == es[k].SetIsOld(false);
            assert i <= k < |es|;
          }
        }
        assert EdgesImported(g, r, es, i);
      }
    } else if i < |es| {
      ImportEdgesSpec(g, es, i + 1);
      if ImportEdgesFrom(g, es, i).Ok? {
        var r := ImportEdgesFrom(g, es, i).value;
        assert !es[i].isNew && r == ImportEdgesFrom(g, es, i + 1).value;
        assert EdgesImported(g, r, es, i + 1);
        forall j | |g.edges.vec| <= j < |r.edges.vec|
          ensures EdgeFrom(r.edges.vec[j], es, i)
        {
          assert EdgeFrom(r.edges.vec[j], es, i + 1);
          var k :| i + 1 <= k < |es| && es[k].isNew && r.edges.vec[j] == es[k].SetIsOld(false);
          assert i <= k < |es|;
        }
        assert EdgesImported(g, r, es, i);
      }
    }
  }

  // ------------------------------------------------ what operator() returns

  /** Displaying fails only with invalid_graph, and not at all when the
      current and the next state are one valid state. */
  lemma DisplayErrors(cur: GraphState, next: GraphState, a: Animation)
    requires next.Valid()
    ensures Display(cur, next, a).Err? ==> Display(cur, next, a).error == InvalidGraph
    ensures cur == next ==> Display(cur, next, a) == Ok(Blended(Unflag(cur), cur, a))
  {
    DisplayFails(cur, next, a);
    if cur == next {
      DisplaySame(cur, a);
    }
  }

  lemma DisplayFails(cur: GraphState, next: GraphState, a: Animation)
    requires next.Valid()
    ensures Display(cur, next, a).Err? ==> Display(cur, next, a).error == InvalidGraph
  {
    ImportEdgesSpec(ImportNodesFrom(Unflag(cur), next.nodes.vec, 0), next.edges.vec, 0);
  }

  lemma DisplaySame(cur: GraphState, a: Animation)
    requires cur.Valid()
    ensures Display(cur, cur, a) == Ok(Blended(Unflag(cur), cur, a))
  {
    ImportSelf(cur);
  }

  lemma ImportSelf(cur: GraphState)
    requires cur.Valid()
    ensures Import(Unflag(cur), cur) == Ok(Unflag(cur))
  {
    var g0 := Unflag(cur);
    StoredIds(cur);
    ImportNodesSpec(g0, cur.nodes.vec, 0);
    assert ImportNodesFrom(g0, cur.nodes.vec, 0) == g0;
    ImportEdgesSpec(g0, cur.edges.vec, 0);
    assert ImportEdgesFrom(g0, cur.edges.vec, 0) == Ok(g0);
  }

  lemma StoredIds(f: GraphState)
    requires f.Valid()
    ensures forall k :: 0 <= k < |f.nodes.vec| ==> f.nodes.vec[k].id in Unflag(f).nodes.index
    ensures forall k :: 0 <= k < |f.edges.vec| ==> f.edges.vec[k].id in Unflag(f).edges.index
  {
    assert f.nodes.IndexedBy(NodeIdOf) && f.edges.IndexedBy(EdgeIdOf);
  }

  /** operator() fails with out_of_range exactly when the time lies before 0
      or after the end of the animation; its only other failure is
      invalid_graph, from pushing a new edge of the next state whose endpoint
      is in neither state. With no states, a time in range gives the empty
      graph. */
  lemma InterpolationErrors(ps: seq<Phase>, ds: Durations, states: seq<GraphState>, time: real)
    requires ds.Positive() && ps != [] && |states| < SizeLimit
    requires forall k :: 0 <= k < |states| ==> states[k].Valid()
    ensures InterpolationOf(ps, ds, states, time).Err? && InterpolationOf(ps, ds, states, time).error == OutOfRange
      <==> time < 0.0 || time > AnimationLength(|states|, TotalDuration(ps, ds))
    ensures InterpolationOf(ps, ds, states, time).Err? ==>
      InterpolationOf(ps, ds, states, time).error in {OutOfRange, InvalidGraph}
    ensures 0.0 <= time <= AnimationLength(|states|, TotalDuration(ps, ds)) && states == [] ==>
      InterpolationOf(ps, ds, states, time) == Ok(EmptyFrame())
  {
    if 0.0 <= time <= AnimationLength(|states|, TotalDuration(ps, ds)) && states != [] {
      var t := Transition(ps, ds, |states|, time);
      assert states[t.1].Valid();
      DisplayErrors(states[t.0], states[t.1], t.2);
    }
  }

  /** How the flags of the displayed frame come about: the entities of the
      current state keep their ids, endpoints and old flags in place and are
      no longer new; every further entity is one that is new in the next state
      (so stored there), still new but no longer old; and every entity new in
      the next state is displayed. */
  ghost predicate FlagsCarried(cur: GraphState, next: GraphState, r: GraphState)
  {
    && |cur.nodes.vec| <= |r.nodes.vec|
    && |cur.edges.vec| <= |r.edges.vec|
    && (forall j :: 0 <= j < |cur.nodes.vec| ==>
          r.nodes.vec[j].id == cur.nodes.vec[j].id && !r.nodes.vec[j].isNew && r.nodes.vec[j].isOld == cur.nodes.vec[j].isOld)
    && (forall j :: 0 <= j < |cur.edges.vec| ==>
          && r.edges.vec[j].id == cur.edges.vec[j].id && r.edges.vec[j].one == cur.edges.vec[j].one
          && r.edges.vec[j].two == cur.edges.vec[j].two
          && !r.edges.vec[j].isNew && r.edges.vec[j].isOld == cur.edges.vec[j].isOld)
    && (forall j :: |cur.nodes.vec| <= j < |r.nodes.vec| ==>
          r.nodes.vec[j].isNew && !r.nodes.vec[j].isOld && r.nodes.vec[j].id in next.nodes.index)
    && (forall j :: |cur.edges.vec| <= j < |r.edges.vec| ==>
          r.edges.vec[j].isNew && !r.edges.vec[j].isOld && r.edges.vec[j].id in next.edges.index)
    && (forall k :: 0 <= k < |next.nodes.vec| && next.nodes.vec[k].isNew ==> next.nodes.vec[k].id in r.nodes.index)
    && (forall k :: 0 <= k < |next.edges.vec| && next.edges.vec[k].isNew ==> next.edges.vec[k].id in r.edges.index)
  }

  /** The unflagged current state with the next state's new entities
      imported, in the shape the blending step receives it. */
  lemma ImportShape(cur: GraphState, next: GraphState, g: GraphState)
    requires next.Valid()
    requires Import(Unflag(cur), next) == Ok(g)
    ensures FlagsCarried(cur, next, g)
    ensures forall j :: 0 <= j < |cur.nodes.vec| ==> g.nodes.vec[j] == cur.nodes.vec[j].SetIsNew(false)
    ensures forall j :: 0 <= j < |cur.edges.vec| ==> g.edges.vec[j] == cur.edges.vec[j].SetIsNew(false)
    ensures forall j :: |cur.nodes.vec| <= j < |g.nodes.vec| ==> NodeFrom(g.nodes.vec[j], next.nodes.vec, 0)
    ensures forall j :: |cur.edges.vec| <= j < |g.edges.vec| ==> EdgeFrom(g.edges.vec[j], next.edges.vec, 0)
  {
    ImportParts(cur, next, g);
    forall j | |cur.nodes.vec| <= j < |g.nodes.vec|
      ensures g.nodes.vec[j].isNew && !g.nodes.vec[j].isOld && g.nodes.vec[j].id in next.nodes.index
    {
      assert NodeFrom(g.nodes.vec[j], next.nodes.vec, 0);
    }
    forall j | |cur.edges.vec| <= j < |g.edges.vec|
      ensures g.edges.vec[j].isNew && !g.edges.vec[j].isOld && g.edges.vec[j].id in next.edges.index
    {
      assert EdgeFrom(g.edges.vec[j], next.edges.vec, 0);
    }
  }

  lemma ImportParts(cur: GraphState, next: GraphState, g: GraphState)
    requires Import(Unflag(cur), next) == Ok(g)
    ensures |cur.nodes.vec| <= |g.nodes.vec| && |cur.edges.vec| <= |g.edges.vec|
    ensures forall j :: 0 <= j < |cur.nodes.vec| ==> g.nodes.vec[j] == cur.nodes.vec[j].SetIsNew(false)
    ensures forall j :: 0 <= j < |cur.edges.vec| ==> g.edges.vec[j] == cur.edges.vec[j].SetIsNew(false)
    ensures forall j :: |cur.nodes.vec| <= j < |g.nodes.vec| ==> NodeFrom(g.nodes.vec[j], next.nodes.vec, 0)
    ensures forall j :: |cur.edges.vec| <= j < |g.edges.vec| ==> EdgeFrom(g.edges.vec[j], next.edges.vec, 0)
    ensures forall k :: 0 <= k < |next.nodes.vec| && next.nodes.vec[k].isNew ==> next.nodes.vec[k].id in g.nodes.index
    ensures forall k :: 0 <= k < |next.edges.vec| && next.edges.vec[k].isNew ==> next.edges.vec[k].id in g.edges.index
  {
    var g0 := Unflag(cur);
    var g1 := ImportNodesFrom(g0, next.nodes.vec, 0);
    ImportNodesSpec(g0, next.nodes.vec, 0);
    ImportEdgesSpec(g1, next.edges.vec, 0);
    assert NodesImported(g0, g1, next.nodes.vec, 0);
    assert EdgesImported(g1, g, next.edges.vec, 0);
    forall j | 0 <= j < |cur.nodes.vec|
      ensures g.nodes.vec[j] == g0.nodes.vec[j]
    {
      assert g.nodes.vec[j] == g1.nodes.vec[j] == g1.nodes.vec[..|g0.nodes.vec|][j];
    }
    forall j | 0 <= j < |cur.edges.vec|
      ensures g.edges.vec[j] == g0.edges.vec[j]
    {
      assert g.edges.vec[j] == g.edges.vec[..|g1.edges.vec|][j];
    }
  }

  /** The displayed frame carries the flags as described above. */
  lemma DisplayFlags(cur: GraphState, next: GraphState, a: Animation)
    requires next.Valid()
    ensures Display(cur, next, a).Ok? ==> FlagsCarried(cur, next, Display(cur, next, a).value)
  {
    if Display(cur, next, a).Ok? {
      var g := Import(Unflag(cur), next).value;
      ImportShape(cur, next, g);
      BlendedKeepsFlags(cur, next, g, a);
    }
  }

  lemma BlendedKeepsFlags(cur: GraphState, next: GraphState, g: GraphState, a: Animation)
    requires next.Valid() && FlagsCarried(cur, next, g)
    ensures FlagsCarried(cur, next, Blended(g, next, a))
  {
  }

  /** In the displayed frame the entities of the current state keep their
      ids and old flags and are no longer new; the others are exactly the
      next state's new entities, no longer old. */
  lemma InterpolationFlags(ps: seq<Phase>, ds: Durations, states: seq<GraphState>, time: real)
    requires ds.Positive() && ps != [] && |states| < SizeLimit
    requires forall k :: 0 <= k < |states| ==> states[k].Valid()
    requires 0.0 <= time <= AnimationLength(|states|, TotalDuration(ps, ds)) && states != []
    ensures InterpolationOf(ps, ds, states, time).Ok? ==>
      FlagsCarried(states[Transition(ps, ds, |states|, time).0], states[Transition(ps, ds, |states|, time).1],
                   InterpolationOf(ps, ds, states, time).value)
  {
    var t := Transition(ps, ds, |states|, time);
    assert states[t.1].Valid();
    assert InterpolationOf(ps, ds, states, time) == Display(states[t.0], states[t.1], t.2);
    DisplayFlags(states[t.0], states[t.1], t.2);
  }

  /** Where the nodes of the displayed frame stand: a node of the current
      state that the next state also has is interpolated towards its place
      there by `v`, one the next state lacks stays put, and a node imported
      from the next state stands where the next state has it. */
  ghost predicate Moved(cur: GraphState, next: GraphState, r: GraphState, v: real)
    requires next.nodes.IndexedBy(NodeIdOf)
  {
    && |cur.nodes.vec| <= |r.nodes.vec|
    && (forall j :: 0 <= j < |cur.nodes.vec| ==>
          r.nodes.vec[j].pos ==
            if NodeExists(next, cur.nodes.vec[j].id)
            then LerpCoords(cur.nodes.vec[j].pos, NodeAt(next, cur.nodes.vec[j].id).value.pos, v)
            else cur.nodes.vec[j].pos)
    && (forall j :: |cur.nodes.vec| <= j < |r.nodes.vec| ==>
          NodeExists(next, r.nodes.vec[j].id) && r.nodes.vec[j].pos == NodeAt(next, r.nodes.vec[j].id).value.pos)
  }

  /** `r` has the nodes of `f`, each where `f` has it. */
  ghost predicate SamePlaces(f: GraphState, r: GraphState)
  {
    |r.nodes.vec| == |f.nodes.vec| && forall j :: 0 <= j < |f.nodes.vec| ==> r.nodes.vec[j].pos == f.nodes.vec[j].pos
  }

  lemma ImportedStandsStill(next: GraphState, x: Node<()>, a: Animation)
    requires next.Valid() && NodeFrom(x, next.nodes.vec, 0)
    ensures NodeExists(next, x.id) && BlendNode(x, next, a).pos == NodeAt(next, x.id).value.pos
  {
    var k :| 0 <= k < |next.nodes.vec| && next.nodes.vec[k].isNew && x == next.nodes.vec[k].SetIsOld(false);
    AtFindsStored(next.nodes, NodeIdOf, k);
  }

  /** Shared nodes are blended with lerp and imported nodes appear where the
      next state has them. */
  lemma DisplayMoves(cur: GraphState, next: GraphState, a: Animation)
    requires next.Valid()
    ensures Display(cur, next, a).Ok? ==> Moved(cur, next, Display(cur, next, a).value, a.interpolation)
  {
    if Display(cur, next, a).Ok? {
      var g := Import(Unflag(cur), next).value;
      ImportShape(cur, next, g);
      var r := Blended(g, next, a);
      forall j | |cur.nodes.vec| <= j < |r.nodes.vec|
        ensures NodeExists(next, r.nodes.vec[j].id) && r.nodes.vec[j].pos == NodeAt(next, r.nodes.vec[j].id).value.pos
      {
        ImportedStandsStill(next, g.nodes.vec[j], a);
      }
    }
  }

  /** A state blended with itself: nothing is imported and every node stays
      exactly where the state has it. */
  lemma DisplaySameState(f: GraphState, a: Animation)
    requires f.Valid()
    ensures Display(f, f, a).Ok? && SamePlaces(f, Display(f, f, a).value)
  {
    DisplayErrors(f, f, a);
    var r := Display(f, f, a).value;
    forall j | 0 <= j < |f.nodes.vec|
      ensures r.nodes.vec[j].pos == f.nodes.vec[j].pos
    {
      AtFindsStored(f.nodes, NodeIdOf, j);
    }
  }

  /** operator() blends shared nodes with lerp and shows imported nodes where
      the next state has them; when both indices select the same state, every
      node stands exactly where that state has it. */
  lemma InterpolationPositions(ps: seq<Phase>, ds: Durations, states: seq<GraphState>, time: real)
    requires ds.Positive() && ps != [] && |states| < SizeLimit
    requires forall k :: 0 <= k < |states| ==> states[k].Valid()
    requires 0.0 <= time <= AnimationLength(|states|, TotalDuration(ps, ds)) && states != []
    ensures InterpolationOf(ps, ds, states, time).Ok? ==>
      Moved(states[Transition(ps, ds, |states|, time).0], states[Transition(ps, ds, |states|, time).1],
            InterpolationOf(ps, ds, states, time).value, Transition(ps, ds, |states|, time).2.interpolation)
    ensures Transition(ps, ds, |states|, time).0 == Transition(ps, ds, |states|, time).1 ==>
      && InterpolationOf(ps, ds, states, time).Ok?
      && SamePlaces(states[Transition(ps, ds, |states|, time).0], InterpolationOf(ps, ds, states, time).value)
  {
    var t := Transition(ps, ds, |states|, time);
    assert states[t.0].Valid() && states[t.1].Valid();
    DisplayMoves(states[t.0], states[t.1], t.2);
    if t.0 == t.1 {
      DisplaySameState(states[t.0], t.2);
    }
  }

  /** Every alpha of a graph lies in [0, 1]. */
  ghost predicate AlphasInRange(f: GraphState)
  {
    && (forall j :: 0 <= j < |f.nodes.vec| ==> Fraction(f.nodes.vec[j].alpha))
    && (forall j :: 0 <= j < |f.edges.vec| ==> Fraction(f.edges.vec[j].alpha))
  }

  /** With alphas in [0, 1] in both states and fractions in [0, 1] in the
      animation state, every alpha of the displayed frame is in [0, 1]. */
  lemma DisplayAlphas(cur: GraphState, next: GraphState, a: Animation)
    requires next.Valid() && AlphasInRange(cur) && AlphasInRange(next) && FractionsIn(a)
    ensures Display(cur, next, a).Ok? ==> AlphasInRange(Display(cur, next, a).value)
  {
    if Display(cur, next, a).Ok? {
      var g := Import(Unflag(cur), next).value;
      ImportShape(cur, next, g);
      forall j | 0 <= j < |g.nodes.vec|
        ensures Fraction(g.nodes.vec[j].alpha)
      {
        if j >= |cur.nodes.vec| {
          assert NodeFrom(g.nodes.vec[j], next.nodes.vec, 0);
        }
      }
      forall j | 0 <= j < |g.edges.vec|
        ensures Fraction(g.edges.vec[j].alpha)
      {
        if j >= |cur.edges.vec| {
          assert EdgeFrom(g.edges.vec[j], next.edges.vec, 0);
        }
      }
      var r := Blended(g, next, a);
      forall j | 0 <= j < |r.nodes.vec|
        ensures Fraction(r.nodes.vec[j].alpha)
      {
        var x := g.nodes.vec[j];
        var moved := if NodeExists(next, x.id) then x.SetPos(LerpCoords(x.pos, NodeAt(next, x.id).value.pos, a.interpolation)) else x;
        CalcAlphaSpec(moved.isNew, moved.isOld, moved.alpha, a);
      }
      forall j | 0 <= j < |r.edges.vec|
        ensures Fraction(r.edges.vec[j].alpha)
      {
        var e := g.edges.vec[j];
        CalcAlphaSpec(e.isNew, e.isOld, e.alpha, a);
      }
    }
  }

  /** When every alpha of every state is in [0, 1], so is every alpha of
      the displayed frame. */
  lemma InterpolationAlphas(ps: seq<Phase>, ds: Durations, states: seq<GraphState>, time: real)
    requires ds.Positive() && ps != [] && |states| < SizeLimit
    requires forall k :: 0 <= k < |states| ==> states[k].Valid() && AlphasInRange(states[k])
    ensures InterpolationOf(ps, ds, states, time).Ok? ==> AlphasInRange(InterpolationOf(ps, ds, states, time).value)
  {
    if InterpolationOf(ps, ds, states, time).Ok? && states != [] {
      var t := Transition(ps, ds, |states|, time);
      assert states[t.1].Valid() && AlphasInRange(states[t.0]) && AlphasInRange(states[t.1]);
      DisplayAlphas(states[t.0], states[t.1], t.2);
    }
  }

  // ------------------------------------------------- the loops of operator()

  /** The first two loops of operator(), on its copy of the current state:
      they clear the new flag of every node and every edge. */
  method ClearNewFlags(f: GraphState) returns (g: GraphState)
    requires f.Valid()
    ensures g == Unflag(f) && g.Valid()
  {
    var ns := ClearNodeFlags(f.nodes.vec);
    var es := ClearEdgeFlags(f.edges.vec);
    PayloadsValid(f, ns, es);
    g := Frame(Container(ns, f.nodes.index), Container(es, f.edges.index), f.adj);
  }

  method ClearNodeFlags(ns0: seq<Node<()>>) returns (ns: seq<Node<()>>)
    ensures ns == UnflagNodes(ns0)
  {
    ns := ns0;
    var i := 0;
    while i < |ns|
      invariant i <= |ns| == |ns0|
      invariant forall j :: 0 <= j < i ==> ns[j] == ns0[j].SetIsNew(false)
      invariant forall j :: i <= j < |ns| ==> ns[j] == ns0[j]
    {
      ns := ns[i := ns[i].SetIsNew(false)];
      i := i + 1;
    }
  }

  method ClearEdgeFlags(es0: seq<Edge<()>>) returns (es: seq<Edge<()>>)
    ensures es == UnflagEdges(es0)
  {
    es := es0;
    var i := 0;
    while i < |es|
      invariant i <= |es| == |es0|
      invariant forall j :: 0 <= j < i ==> es[j] == es0[j].SetIsNew(false)
      invariant forall j :: i <= j < |es| ==> es[j] == es0[j]
    {
      es := es[i := es[i].SetIsNew(false)];
      i := i + 1;
    }
  }

  /** The third and fourth loops: the next state's new nodes, then its new
      edges, pushed with the old flag cleared; a failing push ends it. */
  method ImportNew(f: GraphState, next: GraphState) returns (r: Result<GraphState>)
    requires f.Valid()
    ensures r == Import(f, next)
    ensures r.Ok? ==> r.value.Valid()
  {
    var g := ImportNodeVector(f, next.nodes.vec);
    r := ImportEdgeVector(g, next.edges.vec);
  }

  method ImportNodeVector(f: GraphState, ns: seq<Node<()>>) returns (g: GraphState)
    requires f.Valid()
    ensures g == ImportNodesFrom(f, ns, 0) && g.Valid()
  {
    g := f;
    var i := 0;
    while i < |ns|
      invariant i <= |ns|
      invariant ImportNodesFrom(g, ns, i) == ImportNodesFrom(f, ns, 0)
    {
      if ns[i].isNew {
        g := PushNode(g, ns[i].SetIsOld(false));
      }
      i := i + 1;
    }
    ImportNodesValid(f, ns, 0);
  }

  method ImportEdgeVector(f: GraphState, es: seq<Edge<()>>) returns (r: Result<GraphState>)
    requires f.Valid()
    ensures r == ImportEdgesFrom(f, es, 0)
    ensures r.Ok? ==> r.value.Valid()
  {
    ImportEdgesValid(f, es, 0);
    var g := f;
    var i := 0;
    while i < |es|
      invariant i <= |es|
      invariant ImportEdgesFrom(g, es, i) == ImportEdgesFrom(f, es, 0)
    {
      if es[i].isNew {
        var pushed := PushEdge(g, es[i].SetIsOld(false));
        if pushed.Err? {
          return Err(pushed.error);
        }
        g := pushed.value;
      }
      i := i + 1;
    }
    return Ok(g);
  }

  /** The last two loops: each node moved towards the next state and given
      its alpha, then each edge given its alpha. */
  method BlendFrame(f: GraphState, next: GraphState, a: Animation) returns (g: GraphState)
    requires f.Valid() && next.Valid()
    ensures g == Blended(f, next, a) && g.Valid()
  {
    var ns := BlendNodeVector(f.nodes.vec, next, a);
    var es := FadeEdgeVector(f.edges.vec, a);
    PayloadsValid(f, ns, es);
    g := Frame(Container(ns, f.nodes.index), Container(es, f.edges.index), f.adj);
  }

  method BlendNodeVector(ns0: seq<Node<()>>, next: GraphState, a: Animation) returns (ns: seq<Node<()>>)
    requires next.nodes.IndexedBy(NodeIdOf)
    ensures ns == BlendNodes(ns0, next, a)
  {
    ns := ns0;
    var i := 0;
    while i < |ns|
      invariant i <= |ns| == |ns0|
      invariant forall j :: 0 <= j < i ==> ns[j] == BlendNode(ns0[j], next, a)
      invariant forall j :: i <= j < |ns| ==> ns[j] == ns0[j]
    {
      ns := ns[i := BlendNode(ns[i], next, a)];
      i := i + 1;
    }
  }

  method FadeEdgeVector(es0: seq<Edge<()>>, a: Animation) returns (es: seq<Edge<()>>)
    ensures es == FadeEdges(es0, a)
  {
    es := es0;
    var i := 0;
    while i < |es|
      invariant i <= |es| == |es0|
      invariant forall j :: 0 <= j < i ==> es[j] == FadeEdge(es0[j], a)
      invariant forall j :: i <= j < |es| ==> es[j] == es0[j]
    {
      es := es[i := FadeEdge(es[i], a)];
      i := i + 1;
    }
  }

  // ------------------------------------------------------------ the object

  /** interpolator: an order of phases and the duration of each kind of phase. */
  class Interpolator {
    var phases: seq<Phase>
    var durations: Durations

    /** Every way of building or changing the object keeps the order of
        phases acceptable to set_phases. */
    ghost predicate Valid()
      reads this
    {
      PhasesValid(phases)
    }

    /** interpolator(phased), which the default constructor delegates to. */
    constructor PhasedTransition()
      ensures phases == PhasedOrder && durations == DefaultDurations()
      ensures Valid()
    {
      phases := PhasedOrder;
      durations := DefaultDurations();
      DefaultOrdersValid();
    }

    /** interpolator(simultaneous). */
    constructor SimultaneousTransition()
      ensures phases == SimultaneousOrder && durations == DefaultDurations()
      ensures Valid()
    {
      phases := SimultaneousOrder;
      durations := DefaultDurations();
      DefaultOrdersValid();
    }

    /** interpolator(phases): an object whose set_phases(phases) succeeded;
        invalid_argument when it throws. */
    static method WithPhases(ps: seq<Phase>) returns (r: Result<Interpolator>)
      ensures r.Err? <==> !PhasesValid(ps)
      ensures r.Err? ==> r.error == InvalidArgument
      ensures r.Ok? ==> fresh(r.value) && r.value.Valid()
      ensures r.Ok? ==> r.value.phases == ps && r.value.durations == DefaultDurations()
    {
      var it := new Interpolator.PhasedTransition();
      var checked := it.SetPhases(ps);
      if checked.Err? {
        return Err(checked.error);
      }
      return Ok(it);
    }

    /** set_phases: the list is stored only when it passes both tests;
        otherwise invalid_argument and nothing changes. */
    method SetPhases(ps: seq<Phase>) returns (r: Result<()>)
      modifies this
      ensures r.Ok? <==> PhasesValid(ps)
      ensures r.Err? ==> r.error == InvalidArgument && phases == old(phases)
      ensures r.Ok? ==> phases == ps
      ensures durations == old(durations)
      ensures old(Valid()) ==> Valid()
    {
      r := CheckPhases(ps);
      if r.Ok? {
        phases := ps;
      }
    }

    /** duration(p), read. */
    function Duration(p: Phase): real
      reads this
    {
      durations.Of(p)
    }

    /** duration(p), written through the reference it returns: that kind's
        duration and nothing else changes. */
    method SetDuration(p: Phase, v: real)
      modifies this
      ensures Duration(p) == v
      ensures forall q :: q != p ==> Duration(q) == old(Duration(q))
      ensures phases == old(phases)
    {
      durations := durations.Set(p, v);
    }

    /** transition_duration: the loop summing the duration of every listed phase. */
    method TransitionDuration() returns (total: real)
      ensures total == TotalDuration(phases, durations)
    {
      total := 0.0;
      var i := 0;
      while i < |phases|
        invariant i <= |phases|
        invariant total == TotalDuration(phases[..i], durations)
      {
        assert phases[..i + 1][..i] == phases[..i];
        total := total + durations.Of(phases[i]);
        i := i + 1;
      }
      assert phases[..i] == phases;
    }

    /** length: (number of states - 1) transitions, in size_t arithmetic. */
    method Length(n: nat) returns (len: real)
      requires n < SizeLimit
      ensures len == AnimationLength(n, TotalDuration(phases, durations))
    {
      var td := TransitionDuration();
      len := SizeMinusOne(n) as real * td;
    }

    /** get_current_phase: the loop that subtracts phase durations until
        one exceeds the time left; out_of_range when none does. */
    method CurrentPhaseAt(time: real) returns (r: Result<(real, nat)>)
      ensures r == CurrentPhase(phases, durations, time)
    {
      var t := time;
      var i := 0;
      while i < |phases|
        invariant i <= |phases|
        invariant PhaseFrom(phases, durations, t, i) == CurrentPhase(phases, durations, time)
      {
        if t < durations.Of(phases[i]) {
          return Ok((t, i));
        }
        t := t - durations.Of(phases[i]);
        i := i + 1;
      }
      return Err(OutOfRange);
    }

    /** The animation state `value` time units into a transition: the
        current phase found, the phases before it performed in full, then the
        current one for the time spent in it. */
    method AnimationAtTime(value: real) returns (animation: Animation)
      requires durations.Positive() && 0.0 <= value < TotalDuration(phases, durations)
      ensures animation == AnimationAt(phases, durations, value)
      ensures FractionsIn(animation)
    {
      CurrentPhaseSpec(phases, durations, value);
      var current := CurrentPhaseAt(value);
      var t := current.value.0;
      var k := current.value.1;
      animation := StartAnimation;
      var i := 0;
      while i < k
        invariant i <= k
        invariant animation == PerformAll(phases[..i], durations)
      {
        PerformAllStep(phases, durations, i);
        animation := Perform(phases[i], durations.Of(phases[i]), durations.Of(phases[i]), animation);
        i := i + 1;
      }
      animation := Perform(phases[k], t, durations.Of(phases[k]), animation);
    }

    /** operator(): the frame of animation at `time` between the given states. */
    method Interpolate(states: seq<GraphState>, time: real) returns (r: Result<GraphState>)
      requires Valid() && durations.Positive()
      requires |states| < SizeLimit && forall k :: 0 <= k < |states| ==> states[k].Valid()
      ensures phases != []
      ensures r == InterpolationOf(phases, durations, states, time)
      ensures r.Ok? ==> r.value.Valid()
    {
      ValidNotIdleOnly(phases);
      TotalPositive(phases, durations);
      if time < 0.0 {
        return Err(OutOfRange);
      }
      var len := Length(|states|);
      if time > len {
        return Err(OutOfRange);
      }
      if states == [] {
        return Ok(EmptyFrame());
      }
      var td := TransitionDuration();
      var indexOne := Floor(time / td);
      var indexTwo := Ceil(time / td);
      var value := time - indexOne as real * td;
      assert value == Offset(td, time);
      var animation := AnimationAtTime(value);
      var one := Clip(indexOne, |states|);
      var two := Clip(indexTwo, |states|);
      r := DisplayFrame(states[one], states[two], animation);
    }

    /** The body of operator() once the two states are chosen: the current
        state unflagged, the next state's new entities imported, and the
        blend of the two. */
    method DisplayFrame(cur: GraphState, next: GraphState, animation: Animation) returns (r: Result<GraphState>)
      requires cur.Valid() && next.Valid()
      ensures r == Display(cur, next, animation)
      ensures r.Ok? ==> r.value.Valid()
    {
      var unflagged := ClearNewFlags(cur);
      var imported := ImportNew(unflagged, next);
      if imported.Err? {
        return Err(imported.error);
      }
      var g := BlendFrame(imported.value, next, animation);
      return Ok(g);
    }
  }
}
