/** The combinatorial parts of the Fruchterman-Reingold layout of
    dyng/fruchterman_reingold.h: which pairs of nodes repel each other, how far
    a node may move in one iteration, the clamp to the canvas and the annealing
    loop. The force magnitudes and the initial placement are parameters; the
    square root is a parameter too, and the lemmas that need it assume only
    that it is one. Node positions live in an array in the order of the
    graph's node vector, which is what the algorithm updates in place. */
module FruchtermanReingold {
  import opened Nodes
  import opened OptimizationGrids

  /** relative_unit's factor on the canvas diagonal. */
  const UnitCoeff: real := 0.68
  /** The border force keeps |size * SmallOffset| away from a zero divisor. */
  const SmallOffset: real := 0.001
  /** Defaults of set_k_coeff and set_border_force_coeff. */
  const DefaultKCoeff: real := 0.6
  const DefaultBorderForce: real := 0.6

  /** cooling (dyng/cooling.h): the number of iterations, the starting
      temperature and the function lowering it after each iteration. */
  datatype Cooling = Cooling(iterations: nat, startTemperature: real, anneal: real -> real)

  /** The first pass: 500 iterations from 0.8, multiplied by 0.9893 each time. */
  function DefaultFirstCooling(): (c: Cooling)
    ensures c.iterations == 500 && c.startTemperature == 0.8
    ensures forall t :: c.anneal(t) == t * 0.9893
  {
    Cooling(500, 0.8, t => t * 0.9893)
  }

  /** The second pass: 500 iterations from 0.05, multiplied by 0.993 each time. */
  function DefaultSecondCooling(): (c: Cooling)
    ensures c.iterations == 500 && c.startTemperature == 0.05
    ensures forall t :: c.anneal(t) == t * 0.993
  {
    Cooling(500, 0.05, t => t * 0.993)
  }

  /** `sqrt` is a square root on the non-negative reals. */
  ghost predicate IsSqrt(sqrt: real -> real)
  {
    forall x: real {:trigger sqrt(x)} :: 0.0 <= x ==> 0.0 <= sqrt(x) && sqrt(x) * sqrt(x) == x
  }

  /** length(a, b): the hypotenuse sqrt(a^2 + b^2). */
  function Length(sqrt: real -> real, a: real, b: real): real
  {
    sqrt(a * a + b * b)
  }

  /** relative_unit(width, height): 0.68 times the canvas diagonal. */
  function RelativeUnit(sqrt: real -> real, w: real, h: real): real
  {
    Length(sqrt, w, h) * UnitCoeff
  }

  lemma SquareNonNegative(a: real)
    ensures a * a >= 0.0
  {
    if a < 0.0 {
      assert a * a == (-a) * (-a);
    }
  }

  lemma SquaresNonNegative(a: real, b: real)
    ensures a * a + b * b >= 0.0
  {
    SquareNonNegative(a);
    SquareNonNegative(b);
  }

  /** The length is the non-negative root of a^2 + b^2. */
  lemma LengthSpec(sqrt: real -> real, a: real, b: real)
    requires IsSqrt(sqrt)
    ensures Length(sqrt, a, b) >= 0.0
    ensures Length(sqrt, a, b) * Length(sqrt, a, b) == a * a + b * b
  {
    SquaresNonNegative(a, b);
  }

  /** The relative unit of a canvas is 0.68 times its diagonal: non-negative,
      with square 0.68^2 (w^2 + h^2). */
  lemma RelativeUnitSpec(sqrt: real -> real, w: real, h: real)
    requires IsSqrt(sqrt)
    ensures RelativeUnit(sqrt, w, h) >= 0.0
    ensures RelativeUnit(sqrt, w, h) * RelativeUnit(sqrt, w, h) == UnitCoeff * UnitCoeff * (w * w + h * h)
  {
    var l := Length(sqrt, w, h);
    LengthSpec(sqrt, w, h);
    assert (l * UnitCoeff) * (l * UnitCoeff) == UnitCoeff * UnitCoeff * (l * l);
  }

  // ---------------------------------------------------------------------
  // for_each_pair_of_nodes

  /** Two positions closer than twoK along both axes. */
  predicate Near(twoK: real, p: Coords, q: Coords)
  {
    p.x - q.x < twoK && q.x - p.x < twoK && p.y - q.y < twoK && q.y - p.y < twoK
  }

  /** Repulsion between nodes closer than 2k (dst < 2k) only involves
      pairs that are Near. */
  lemma WithinRadiusIsNear(p: Coords, q: Coords, twoK: real)
    requires twoK > 0.0
    requires (q.x - p.x) * (q.x - p.x) + (q.y - p.y) * (q.y - p.y) < twoK * twoK
    ensures Near(twoK, p, q)
  {
    var dx, dy := q.x - p.x, q.y - p.y;
    SquaresNonNegative(dy, 0.0);
    SquaresNonNegative(dx, 0.0);
    if dx >= twoK || -dx >= twoK {
      SquareAtLeast(dx, twoK);
    }
    if dy >= twoK || -dy >= twoK {
      SquareAtLeast(dy, twoK);
    }
  }

  lemma SquareAtLeast(a: real, t: real)
    requires t > 0.0 && (a >= t || -a >= t)
    ensures a * a >= t * t
  {
    var b := if a >= 0.0 then a else -a;
    assert a * a == b * b;
    assert b * b - t * t == (b - t) * (b + t);
  }

  /** The global mode: for i in [0, n), for j in [0, i), func(i, j). */
  method GlobalPairs(n: nat) returns (pairs: seq<(nat, nat)>)
    ensures forall i: nat, j: nat :: (i, j) in pairs <==> j < i < n
    ensures NoDup(pairs)
  {
    pairs := [];
    var i := 0;
    while i < n
      invariant i <= n
      invariant forall a: nat, b: nat :: (a, b) in pairs <==> b < a < i
      invariant NoDup(pairs)
    {
      var j := 0;
      while j < i
        invariant j <= i
        invariant forall a: nat, b: nat :: (a, b) in pairs <==> b < a < i || (a == i && b < j)
        invariant NoDup(pairs)
      {
        NoDupAppend(pairs, [(i, j)]);
        pairs := pairs + [(i, j)];
        j := j + 1;
      }
      i := i + 1;
    }
  }

  /** The pairs (i, j) the grid-mode callback forwards for the indices
      `visited` for_each_around produced around node i: those with j < i. */
  function Below(i: nat, visited: seq<nat>): seq<(nat, nat)>
  {
    if visited == [] then []
    else
      var j := visited[|visited| - 1];
      Below(i, visited[..|visited| - 1]) + (if j < i then [(i, j)] else [])
  }

  /** Below keeps exactly the visited indices below i, each as often as it
      was visited. */
  lemma {:induction false} BelowSpec(i: nat, visited: seq<nat>)
    ensures forall a, j :: (a, j) in Below(i, visited) <==> a == i && j in visited && j < i
    ensures NoDup(visited) ==> NoDup(Below(i, visited))
  {
    if visited != [] {
      var init := visited[..|visited| - 1];
      var j := visited[|visited| - 1];
      BelowSpec(i, init);
      assert visited == init + [j];
      if NoDup(visited) {
        assert NoDup(init);
        NoDupAppend(Below(i, init), if j < i then [(i, j)] else []);
      }
    }
  }

  /** The row-major slot of the square add stores a position in. */
  function HomeSlot(twoK: real, w: real, h: real, gw: int, gh: int, p: Coords): int
    requires twoK > 0.0 && gw >= 1 && gh >= 1
  {
    ClippedCell(twoK, w, h, gw, gh, p).1 * gw + ClippedCell(twoK, w, h, gw, gh, p).0
  }

  /** The slot of every position. */
  function Homes(twoK: real, w: real, h: real, gw: int, gh: int, ps: seq<Coords>): seq<int>
    requires twoK > 0.0 && gw >= 1 && gh >= 1
  {
    seq(|ps|, j requires 0 <= j < |ps| => HomeSlot(twoK, w, h, gw, gh, ps[j]))
  }

  /** The buckets after adding the nodes 0..i-1: node j sits in its home
      bucket, once, and nothing else is stored. */
  ghost predicate Filled(buckets: seq<seq<nat>>, home: seq<int>, i: nat)
  {
    && i <= |home|
    && (forall j :: 0 <= j < i ==> 0 <= home[j] < |buckets| && j in buckets[home[j]])
    && (forall s, x {:trigger x in buckets[s]} :: 0 <= s < |buckets| && x in buckets[s] ==> x < i && s == home[x])
    && (forall s :: 0 <= s < |buckets| ==> NoDup(buckets[s]))
  }

  lemma FillStep(buckets: seq<seq<nat>>, home: seq<int>, i: nat)
    requires Filled(buckets, home, i) && i < |home| && 0 <= home[i] < |buckets|
    ensures Filled(buckets[home[i] := buckets[home[i]] + [i]], home, i + 1)
  {
    var b := buckets[home[i] := buckets[home[i]] + [i]];
    forall j | 0 <= j < i + 1 ensures 0 <= home[j] < |b| && j in b[home[j]] {
      if j < i && home[j] == home[i] {
        assert j in buckets[home[j]];
      }
    }
    forall s, x | 0 <= s < |b| && x in b[s] ensures x < i + 1 && s == home[x] {
      if s != home[i] {
        assert b[s] == buckets[s];
        assert x < i && s == home[x];
      } else if x != i {
        assert x in buckets[s];
        assert x < i && s == home[x];
      }
    }
    forall s | 0 <= s < |b| ensures NoDup(b[s]) {
      if s == home[i] {
        forall x: nat | x in buckets[s] ensures x !in [i] {
          assert 0 <= s < |buckets| && x in buckets[s];
          assert x < i && s == home[x];
        }
        NoDupAppend(buckets[s], [i]);
      } else {
        assert b[s] == buckets[s];
      }
    }
  }

  lemma FilledExclusive(buckets: seq<seq<nat>>, home: seq<int>, i: nat)
    requires Filled(buckets, home, i)
    ensures Exclusive(buckets)
  {
    forall s1, s2, j | 0 <= s1 < |buckets| && 0 <= s2 < |buckets| && j in buckets[s1] && j in buckets[s2]
      ensures s1 == s2
    {
      assert s1 == home[j] && s2 == home[j];
    }
  }

  /** "setup the grid": a grid of squares of side 2k with node i added under
      index i for every node, in node order. */
  method FillGrid(ps: seq<Coords>, w: real, h: real, k: real) returns (grid: OptimizationGrid)
    requires w > 0.0 && h > 0.0 && k > 0.0
    ensures fresh(grid)
    ensures grid.Sized() && grid.twoK == 2.0 * k && grid.w == w && grid.h == h
    ensures grid.gridW == Ceil(w / (2.0 * k)) && grid.gridH == Ceil(h / (2.0 * k))
    ensures Filled(grid.indices, Homes(grid.twoK, w, h, grid.gridW, grid.gridH, ps), |ps|)
  {
    grid := new OptimizationGrid(w, h, k);
    ghost var home := Homes(grid.twoK, w, h, grid.gridW, grid.gridH, ps);
    var i := 0;
    while i < |ps|
      invariant i <= |ps|
      invariant grid.Sized() && grid.twoK == 2.0 * k && grid.w == w && grid.h == h
      invariant grid.gridW == Ceil(w / (2.0 * k)) && grid.gridH == Ceil(h / (2.0 * k))
      invariant Filled(grid.indices, home, i)
    {
      assert grid.Slot(grid.Cell(ps[i])) == home[i];
      FillStep(grid.indices, home, i);
      grid.Add(ps[i], i);
      i := i + 1;
    }
  }

  /** The pairs collected for the nodes before i: each (a, j) with j < a < i,
      none twice, and every near pair of nodes on the canvas among them. */
  ghost predicate PairsBefore(ps: seq<Coords>, w: real, h: real, twoK: real, pairs: seq<(nat, nat)>, i: nat)
  {
    && i <= |ps|
    && (forall p :: p in pairs ==> p.1 < p.0 < i)
    && NoDup(pairs)
    && (forall a, j :: 0 <= j < a < i && OnCanvas(w, h, ps[a]) && OnCanvas(w, h, ps[j]) && Near(twoK, ps[a], ps[j]) ==>
          (a, j) in pairs)
  }

  /** The grid mode: every node is added to the grid under its index, then
      each node i is paired with every index below i that for_each_around
      finds in the squares around it. */
  method GridPairs(ps: seq<Coords>, w: real, h: real, k: real) returns (pairs: seq<(nat, nat)>)
    requires w > 0.0 && h > 0.0 && k > 0.0
    ensures PairsBefore(ps, w, h, 2.0 * k, pairs, |ps|)
  {
    var grid := FillGrid(ps, w, h, k);
    ghost var home := Homes(grid.twoK, w, h, grid.gridW, grid.gridH, ps);
    FilledExclusive(grid.indices, home, |ps|);
    pairs := [];
    var i := 0;
    while i < |ps|
      invariant grid.Sized() && grid.twoK == 2.0 * k && grid.w == w && grid.h == h
      invariant grid.gridW == Ceil(w / (2.0 * k)) && grid.gridH == Ceil(h / (2.0 * k))
      invariant Filled(grid.indices, home, |ps|) && Exclusive(grid.indices)
      invariant PairsBefore(ps, w, h, 2.0 * k, pairs, i)
    {
      var visited := grid.ForEachAround(ps[i]);
      var added := PairsBelow(i, visited);
      GridStep(grid, ps, home, i, visited, pairs);
      pairs := pairs + added;
      i := i + 1;
    }
  }

  /** The callback for_each_around calls for node i: it forwards (i, j) for
      every visited j below i. */
  method PairsBelow(i: nat, visited: seq<nat>) returns (added: seq<(nat, nat)>)
    ensures added == Below(i, visited)
  {
    added := [];
    var m := 0;
    while m < |visited|
      invariant m <= |visited|
      invariant added == Below(i, visited[..m])
    {
      assert visited[..m + 1][..m] == visited[..m];
      if visited[m] < i {
        added := added + [(i, visited[m])];
      }
      m := m + 1;
    }
    assert visited[..m] == visited;
  }

  /** One round of the grid mode keeps PairsBefore: the pairs for_each_around
      yields for node i are new, distinct, and include every near pair (i, j). */
  lemma GridStep(grid: OptimizationGrid, ps: seq<Coords>, home: seq<int>, i: nat, visited: seq<nat>, pairs: seq<(nat, nat)>)
    requires grid.Sized() && grid.gridW == Ceil(grid.w / grid.twoK) && grid.gridH == Ceil(grid.h / grid.twoK)
    requires home == Homes(grid.twoK, grid.w, grid.h, grid.gridW, grid.gridH, ps)
    requires Filled(grid.indices, home, |ps|) && Exclusive(grid.indices) && i < |ps|
    requires visited == Gather(grid.indices, grid.gridW, grid.Around(grid.Square(ps[i]).0, grid.Square(ps[i]).1))
    requires PairsBefore(ps, grid.w, grid.h, grid.twoK, pairs, i)
    ensures PairsBefore(ps, grid.w, grid.h, grid.twoK, pairs + Below(i, visited), i + 1)
  {
    VisitsNoDup(grid, i, ps[i], visited);
    VisitsNear(grid, ps, home, i, visited);
    BelowSpec(i, visited);
    NoDupAppend(pairs, Below(i, visited));
  }

  /** for_each_around in a grid where no index is stored twice yields no index twice. */
  lemma VisitsNoDup(grid: OptimizationGrid, i: nat, p: Coords, visited: seq<nat>)
    requires grid.Sized() && Exclusive(grid.indices)
    requires visited == Gather(grid.indices, grid.gridW, grid.Around(grid.Square(p).0, grid.Square(p).1))
    ensures NoDup(visited)
  {
    var cells := grid.Around(grid.Square(p).0, grid.Square(p).1);
    grid.AroundCells(grid.Square(p).0, grid.Square(p).1);
    grid.AroundInGrid(grid.Square(p).0, grid.Square(p).1);
    GatherNoDup(grid.indices, grid.gridW, cells);
  }

  /** for_each_around for node i in the filled grid yields every node j near
      it on the canvas. */
  lemma VisitsNear(grid: OptimizationGrid, ps: seq<Coords>, home: seq<int>, i: nat, visited: seq<nat>)
    requires grid.Sized() && grid.gridW == Ceil(grid.w / grid.twoK) && grid.gridH == Ceil(grid.h / grid.twoK)
    requires home == Homes(grid.twoK, grid.w, grid.h, grid.gridW, grid.gridH, ps)
    requires Filled(grid.indices, home, |ps|) && i < |ps|
    requires visited == Gather(grid.indices, grid.gridW, grid.Around(grid.Square(ps[i]).0, grid.Square(ps[i]).1))
    ensures forall j :: 0 <= j < |ps| && OnCanvas(grid.w, grid.h, ps[i]) && OnCanvas(grid.w, grid.h, ps[j]) && Near(grid.twoK, ps[i], ps[j]) ==>
      j in visited
  {
    forall j | 0 <= j < |ps| && OnCanvas(grid.w, grid.h, ps[i]) && OnCanvas(grid.w, grid.h, ps[j]) && Near(grid.twoK, ps[i], ps[j])
      ensures j in visited
    {
      var c := grid.Cell(ps[j]);
      NeighbourFound(grid, ps[i], ps[j]);
      assert j in grid.indices[home[j]];
      assert Bucket(grid.indices, grid.gridW, c) == grid.indices[home[j]];
      GatherContains(grid.indices, grid.gridW, grid.Around(grid.Square(ps[i]).0, grid.Square(ps[i]).1), c, j);
    }
  }

  /** The squared distance between two positions. */
  function SquaredDistance(p: Coords, q: Coords): real
  {
    (q.x - p.x) * (q.x - p.x) + (q.y - p.y) * (q.y - p.y)
  }

  /** The pairs one iteration hands the repulsion for the positions ps:
      below the diagonal and each once; every pair in the global mode; in
      the grid mode at least every pair of nodes on the canvas closer than
      2k. */
  ghost predicate PairsFor(global: bool, ps: seq<Coords>, w: real, h: real, k: real, pairs: seq<(nat, nat)>)
  {
    && (forall p :: p in pairs ==> p.1 < p.0 < |ps|)
    && NoDup(pairs)
    && (global ==> forall i: nat, j: nat :: j < i < |ps| ==> (i, j) in pairs)
    && (!global ==> forall i, j ::
      0 <= j < i < |ps| && OnCanvas(w, h, ps[i]) && OnCanvas(w, h, ps[j]) && SquaredDistance(ps[i], ps[j]) < (2.0 * k) * (2.0 * k)
      ==> (i, j) in pairs)
  }

  /** for_each_pair_of_nodes: the pairs (i, j), j < i, the callback receives.
      In the global mode every pair once; in the grid mode every pair at most
      once, and every pair of nodes on the canvas closer than 2k, the radius
      within which repulsive_forces acts. The grid needs a canvas and a k of
      positive size. */
  method ForEachPairOfNodes(global: bool, ps: seq<Coords>, w: real, h: real, k: real) returns (pairs: seq<(nat, nat)>)
    requires !global ==> w > 0.0 && h > 0.0 && k > 0.0
    ensures forall p :: p in pairs ==> p.1 < p.0 < |ps|
    ensures NoDup(pairs)
    ensures global ==> forall i: nat, j: nat :: j < i < |ps| ==> (i, j) in pairs
    ensures !global ==> forall i, j ::
      0 <= j < i < |ps| && OnCanvas(w, h, ps[i]) && OnCanvas(w, h, ps[j]) && SquaredDistance(ps[i], ps[j]) < (2.0 * k) * (2.0 * k)
      ==> (i, j) in pairs
    ensures PairsFor(global, ps, w, h, k, pairs)
  {
    if global {
      pairs := GlobalPairs(|ps|);
    } else {
      pairs := GridPairs(ps, w, h, k);
      forall i, j | 0 <= j < i < |ps| && OnCanvas(w, h, ps[i]) && OnCanvas(w, h, ps[j]) &&
        SquaredDistance(ps[i], ps[j]) < (2.0 * k) * (2.0 * k)
        ensures (i, j) in pairs
      {
        WithinRadiusIsNear(ps[i], ps[j], 2.0 * k);
      }
    }
  }

  // ---------------------------------------------------------------------
  // displacement

  function RMin(a: real, b: real): real
  {
    if a <= b then a else b
  }

  function RMax(a: real, b: real): real
  {
    if a >= b then a else b
  }

  /** The clamp of displacement: min(size, max(-size, coord)). */
  function ClampCoord(size: real, c: real): (r: real)
    ensures size >= 0.0 ==> -size <= r <= size
    ensures -size <= c <= size ==> r == c
  {
    RMin(size, RMax(-size, c))
  }

  /** The move of one node before the clamp: by its displacement d scaled to
      length min(|d|, t), and not at all when |d| is 0. */
  function Step(sqrt: real -> real, p: Coords, d: Coords, t: real): Coords
  {
    var len := Length(sqrt, d.x, d.y);
    if len != 0.0 then
      var r := RMin(len, t) / len;
      Coords(p.x + r * d.x, p.y + r * d.y)
    else p
  }

  /** The new position displacement gives a node: the step, clamped to the
      canvas [-w/2, w/2] x [-h/2, h/2]. */
  function Displaced(sqrt: real -> real, p: Coords, d: Coords, w: real, h: real, t: real): Coords
  {
    var q := Step(sqrt, p, d, t);
    Coords(ClampCoord(w * 0.5, q.x), ClampCoord(h * 0.5, q.y))
  }

  /** The step has length min(|d|, t) along d: it is r * d for r =
      min(|d|, t) / |d|, non-negative for a non-negative t, and its square is
      min(|d|, t)^2; a zero displacement does not move the node. */
  lemma StepSpec(sqrt: real -> real, p: Coords, d: Coords, t: real)
    requires IsSqrt(sqrt)
    ensures Length(sqrt, d.x, d.y) == 0.0 ==> Step(sqrt, p, d, t) == p
    ensures Length(sqrt, d.x, d.y) != 0.0 ==>
      var m := RMin(Length(sqrt, d.x, d.y), t);
      var r := m / Length(sqrt, d.x, d.y);
      && Step(sqrt, p, d, t) == Coords(p.x + r * d.x, p.y + r * d.y)
      && (t >= 0.0 ==> r >= 0.0)
      && SquaredDistance(p, Step(sqrt, p, d, t)) == m * m
  {
    var len := Length(sqrt, d.x, d.y);
    LengthSpec(sqrt, d.x, d.y);
    if len != 0.0 {
      var m := RMin(len, t);
      var q := Step(sqrt, p, d, t);
      assert q.x - p.x == m / len * d.x && q.y - p.y == m / len * d.y;
      StepSquare(d.x, d.y, len, m);
    }
  }

  lemma StepSquare(dx: real, dy: real, len: real, m: real)
    requires len > 0.0 && len * len == dx * dx + dy * dy
    ensures (m / len * dx) * (m / len * dx) + (m / len * dy) * (m / len * dy) == m * m
  {
    var r := m / len;
    assert r * len == m;
    calc {
      (r * dx) * (r * dx) + (r * dy) * (r * dy);
      r * r * (dx * dx + dy * dy);
      (r * len) * (r * len);
    }
  }

  /** A node never moves further than t in one step: min(|d|, t)^2 <= t^2
      for t >= 0. */
  lemma StepBounded(sqrt: real -> real, p: Coords, d: Coords, t: real)
    requires IsSqrt(sqrt) && t >= 0.0
    ensures SquaredDistance(p, Step(sqrt, p, d, t)) <= t * t
  {
    StepSpec(sqrt, p, d, t);
    var len := Length(sqrt, d.x, d.y);
    LengthSpec(sqrt, d.x, d.y);
    if len != 0.0 {
      var m := RMin(len, t);
      if m > 0.0 {
        RealMulMonotone(m, t, m);
        RealMulMonotone(m, t, t);
      } else {
        SquareNonNegative(t);
      }
    }
  }

  /** Whatever the displacement, the node ends on the canvas; a node already
      on the canvas whose step stays on it is not clamped. */
  lemma DisplacedOnCanvas(sqrt: real -> real, p: Coords, d: Coords, w: real, h: real, t: real)
    requires w >= 0.0 && h >= 0.0
    ensures OnCanvas(w, h, Displaced(sqrt, p, d, w, h, t))
    ensures OnCanvas(w, h, Step(sqrt, p, d, t)) ==> Displaced(sqrt, p, d, w, h, t) == Step(sqrt, p, d, t)
  {
  }

  /** The displacements of all nodes. */
  function DisplaceAll(sqrt: real -> real, ps: seq<Coords>, disp: seq<Coords>, w: real, h: real, t: real): (r: seq<Coords>)
    requires |disp| == |ps|
    ensures |r| == |ps|
  {
    seq(|ps|, i requires 0 <= i < |ps| => Displaced(sqrt, ps[i], disp[i], w, h, t))
  }

  /** displacement: moves every node by its own displacement, in place. */
  method Displacement(sqrt: real -> real, pos: array<Coords>, disp: seq<Coords>, w: real, h: real, t: real)
    requires pos.Length == |disp|
    modifies pos
    ensures pos[..] == DisplaceAll(sqrt, old(pos[..]), disp, w, h, t)
  {
    var i := 0;
    while i < pos.Length
      invariant i <= pos.Length
      invariant forall j :: 0 <= j < i ==> pos[j] == Displaced(sqrt, old(pos[j]), disp[j], w, h, t)
      invariant forall j :: i <= j < pos.Length ==> pos[j] == old(pos[j])
    {
      pos[i] := Displaced(sqrt, pos[i], disp[i], w, h, t);
      i := i + 1;
    }
  }

  /** After displacement every node is on the canvas. */
  lemma DisplaceAllOnCanvas(sqrt: real -> real, ps: seq<Coords>, disp: seq<Coords>, w: real, h: real, t: real)
    requires |disp| == |ps| && w >= 0.0 && h >= 0.0
    ensures forall i :: 0 <= i < |ps| ==> OnCanvas(w, h, DisplaceAll(sqrt, ps, disp, w, h, t)[i])
  {
    forall i | 0 <= i < |ps| ensures OnCanvas(w, h, DisplaceAll(sqrt, ps, disp, w, h, t)[i]) {
      DisplacedOnCanvas(sqrt, ps[i], disp[i], w, h, t);
    }
  }

  // ---------------------------------------------------------------------
  // iteration, layout_pass and operator()

  /** The settings of a fruchterman_reingold object that the modelled part
      reads: k's coefficient, the repulsion mode and the two coolings. */
  datatype Settings = Settings(kCoeff: real, global: bool, first: Cooling, second: Cooling)

  /** A new object: k coefficient 0.6, repulsion limited to 2k, and the two
      default coolings. */
  function DefaultSettings(): (s: Settings)
    ensures s.kCoeff == DefaultKCoeff && !s.global
    ensures s.first == DefaultFirstCooling() && s.second == DefaultSecondCooling()
  {
    Settings(DefaultKCoeff, false, DefaultFirstCooling(), DefaultSecondCooling())
  }

  /** What one iteration computes the forces with: the canvas, k and the
      temperature scaled to the canvas. */
  datatype Scale = Scale(w: real, h: real, k: real, t: real)

  /** The displacement of node i from the border, repulsive and attractive
      forces, given the positions and the pairs for_each_pair_of_nodes
      produced. Its magnitudes are not modelled. */
  type Forces = (seq<Coords>, seq<(nat, nat)>, Scale, nat) -> Coords

  /** k = k_coeff * sqrt(w * h / n): the ideal edge length. */
  function IdealLength(sqrt: real -> real, kCoeff: real, w: real, h: real, n: nat): real
    requires n > 0
  {
    kCoeff * sqrt(w * h / n as real)
  }

  /** On a canvas of positive size and with a positive coefficient, k is
      positive, so the grid of squares of side 2k exists. */
  lemma IdealLengthPositive(sqrt: real -> real, kCoeff: real, w: real, h: real, n: nat)
    requires IsSqrt(sqrt) && kCoeff > 0.0 && w > 0.0 && h > 0.0 && n > 0
    ensures IdealLength(sqrt, kCoeff, w, h, n) > 0.0
  {
    var a := w * h / n as real;
    RealMulStrict(0.0, w, h);
    assert a > 0.0;
    var r := sqrt(a);
    assert r >= 0.0 && r * r == a;
    RealMulStrict(0.0, r, kCoeff);
  }

  /** The displacements of all nodes. */
  function AllForces(forces: Forces, ps: seq<Coords>, pairs: seq<(nat, nat)>, sc: Scale): (r: seq<Coords>)
    ensures |r| == |ps|
  {
    seq(|ps|, i requires 0 <= i < |ps| => forces(ps, pairs, sc, i))
  }

  /** The positions one iteration at temperature `temperature` leaves,
      given the pairs it enumerated: every node displaced by its force,
      with k and the temperature scaled to the canvas. */
  function IterationOf(sqrt: real -> real, forces: Forces, s: Settings, ps: seq<Coords>, w: real, h: real,
                       temperature: real, pairs: seq<(nat, nat)>): (r: seq<Coords>)
    ensures |r| == |ps|
  {
    if |ps| == 0 then ps
    else
      var k := IdealLength(sqrt, s.kCoeff, w, h, |ps|);
      var t := temperature * RelativeUnit(sqrt, w, h);
      DisplaceAll(sqrt, ps, AllForces(forces, ps, pairs, Scale(w, h, k, t)), w, h, t)
  }

  /** iteration: with k and the temperature scaled by relative_unit, the
      pairs are enumerated, the forces summed, and every node displaced by
      at most that temperature and clamped to the canvas. The pairs are
      returned to state what the repulsion saw. With no nodes nothing
      happens (k, a division by zero, is not used then). */
  method Iteration(sqrt: real -> real, forces: Forces, s: Settings, pos: array<Coords>, w: real, h: real, temperature: real)
    returns (pairs: seq<(nat, nat)>)
    requires IsSqrt(sqrt) && w > 0.0 && h > 0.0 && s.kCoeff > 0.0
    modifies pos
    ensures pos.Length == 0 ==> pairs == []
    ensures pos.Length > 0 ==> PairsFor(s.global, old(pos[..]), w, h, IdealLength(sqrt, s.kCoeff, w, h, pos.Length), pairs)
    ensures pos[..] == IterationOf(sqrt, forces, s, old(pos[..]), w, h, temperature, pairs)
    ensures forall i :: 0 <= i < pos.Length ==> OnCanvas(w, h, pos[i])
  {
    if pos.Length == 0 {
      return [];
    }
    var ps := pos[..];
    var k := IdealLength(sqrt, s.kCoeff, w, h, pos.Length);
    var t := temperature * RelativeUnit(sqrt, w, h);
    IdealLengthPositive(sqrt, s.kCoeff, w, h, pos.Length);
    pairs := ForEachPairOfNodes(s.global, ps, w, h, k);
    var disp := AllForces(forces, ps, pairs, Scale(w, h, k, t));
    DisplaceAllOnCanvas(sqrt, ps, disp, w, h, t);
    Displacement(sqrt, pos, disp, w, h, t);
  }

  /** The temperature of round r of a cooling: the start temperature,
      annealed once per earlier round. */
  function Temperature(c: Cooling, r: nat): real
  {
    if r == 0 then c.startTemperature else c.anneal(Temperature(c, r - 1))
  }

  /** A cooling whose anneal lowers every positive temperature and keeps it
      positive. */
  ghost predicate Cools(c: Cooling)
  {
    c.startTemperature > 0.0 && forall t :: t > 0.0 ==> 0.0 < c.anneal(t) < t
  }

  /** Under such a cooling the temperatures fall strictly and stay positive. */
  lemma {:induction false} TemperatureFalls(c: Cooling, r: nat)
    requires Cools(c)
    ensures 0.0 < Temperature(c, r + 1) < Temperature(c, r) <= c.startTemperature
  {
    if r > 0 {
      TemperatureFalls(c, r - 1);
    }
  }

  /** The default first cooling lowers the temperature. */
  lemma FirstCoolingCools()
    ensures Cools(DefaultFirstCooling())
  {
    var c := DefaultFirstCooling();
    forall t | t > 0.0 ensures 0.0 < c.anneal(t) < t {
      assert c.anneal(t) == t * 0.9893;
    }
  }

  /** The default second cooling lowers the temperature. */
  lemma SecondCoolingCools()
    ensures Cools(DefaultSecondCooling())
  {
    var c := DefaultSecondCooling();
    forall t | t > 0.0 ensures 0.0 < c.anneal(t) < t {
      assert c.anneal(t) == t * 0.993;
    }
  }

  /** The positions after the rounds of a cooling, given the pairs each
      round enumerated: round r is an iteration at Temperature(c, r). */
  function Iterated(sqrt: real -> real, forces: Forces, s: Settings, ps: seq<Coords>, w: real, h: real,
                    c: Cooling, rounds: seq<seq<(nat, nat)>>): (r: seq<Coords>)
    ensures |r| == |ps|
    decreases |rounds|
  {
    if |rounds| == 0 then ps
    else
      var q := |rounds| - 1;
      IterationOf(sqrt, forces, s, Iterated(sqrt, forces, s, ps, w, h, c, rounds[..q]), w, h, Temperature(c, q), rounds[q])
  }

  /** Every round enumerated the pairs its iteration needs, against the
      positions that round started from. */
  ghost predicate Enumerated(sqrt: real -> real, forces: Forces, s: Settings, ps: seq<Coords>, w: real, h: real,
                             c: Cooling, rounds: seq<seq<(nat, nat)>>)
  {
    |ps| > 0 ==> forall r :: 0 <= r < |rounds| ==>
      PairsFor(s.global, Iterated(sqrt, forces, s, ps, w, h, c, rounds[..r]), w, h, IdealLength(sqrt, s.kCoeff, w, h, |ps|), rounds[r])
  }

  /** One more round extends the rounds by its pairs. */
  lemma IteratedSnoc(sqrt: real -> real, forces: Forces, s: Settings, ps: seq<Coords>, w: real, h: real,
                     c: Cooling, rounds: seq<seq<(nat, nat)>>, pairs: seq<(nat, nat)>, next: seq<Coords>)
    requires Enumerated(sqrt, forces, s, ps, w, h, c, rounds)
    requires |ps| > 0 ==> PairsFor(s.global, Iterated(sqrt, forces, s, ps, w, h, c, rounds), w, h, IdealLength(sqrt, s.kCoeff, w, h, |ps|), pairs)
    requires next == IterationOf(sqrt, forces, s, Iterated(sqrt, forces, s, ps, w, h, c, rounds), w, h, Temperature(c, |rounds|), pairs)
    ensures next == Iterated(sqrt, forces, s, ps, w, h, c, rounds + [pairs])
    ensures Enumerated(sqrt, forces, s, ps, w, h, c, rounds + [pairs])
  {
    var more := rounds + [pairs];
    assert more[..|rounds|] == rounds;
    forall r | 0 <= r <= |rounds| ensures more[..r] == rounds[..r] {
    }
  }

  /** layout_pass: c.iterations rounds, the temperature annealed after
      each. The rounds returned are the pairs each round enumerated; the
      positions are the ones those rounds give. */
  method LayoutPass(sqrt: real -> real, forces: Forces, s: Settings, pos: array<Coords>, w: real, h: real, c: Cooling)
    returns (rounds: seq<seq<(nat, nat)>>)
    requires IsSqrt(sqrt) && w > 0.0 && h > 0.0 && s.kCoeff > 0.0
    modifies pos
    ensures |rounds| == c.iterations
    ensures pos[..] == Iterated(sqrt, forces, s, old(pos[..]), w, h, c, rounds)
    ensures Enumerated(sqrt, forces, s, old(pos[..]), w, h, c, rounds)
    ensures c.iterations > 0 ==> forall i :: 0 <= i < pos.Length ==> OnCanvas(w, h, pos[i])
  {
    ghost var start := pos[..];
    var t := c.startTemperature;
    rounds := [];
    var r := 0;
    while r < c.iterations
      invariant r <= c.iterations && |rounds| == r
      invariant t == Temperature(c, r)
      invariant pos[..] == Iterated(sqrt, forces, s, start, w, h, c, rounds)
      invariant Enumerated(sqrt, forces, s, start, w, h, c, rounds)
      invariant r > 0 ==> forall i :: 0 <= i < pos.Length ==> OnCanvas(w, h, pos[i])
    {
      var pairs := Iteration(sqrt, forces, s, pos, w, h, t);
      IteratedSnoc(sqrt, forces, s, start, w, h, c, rounds, pairs, pos[..]);
      rounds := rounds + [pairs];
      t := c.anneal(t);
      r := r + 1;
    }
  }

  /** The initial placement of n nodes. */
  function Initial(place: (nat, real, real) -> Coords, n: nat, w: real, h: real): (ps: seq<Coords>)
    ensures |ps| == n
  {
    seq(n, i requires 0 <= i < n => place(i, w, h))
  }

  /** operator(): a graph with no nodes is left alone; otherwise the initial
      placement `place` (node index to position) is applied and the two
      passes run, the first then the second. The final positions are the
      two passes' rounds applied to the initial placement; afterwards every
      node is on the canvas unless both coolings are empty, in which case
      the nodes keep their initial places. Returns the pairs each round of
      both passes enumerated. */
  method Layout(sqrt: real -> real, forces: Forces, place: (nat, real, real) -> Coords, s: Settings, pos: array<Coords>, w: real, h: real)
    returns (first: seq<seq<(nat, nat)>>, second: seq<seq<(nat, nat)>>)
    requires IsSqrt(sqrt) && w > 0.0 && h > 0.0 && s.kCoeff > 0.0
    modifies pos
    ensures pos.Length == 0 ==> first == [] && second == [] && pos[..] == old(pos[..])
    ensures pos.Length > 0 ==>
      && |first| == s.first.iterations && |second| == s.second.iterations
      && Enumerated(sqrt, forces, s, Initial(place, pos.Length, w, h), w, h, s.first, first)
      && Enumerated(sqrt, forces, s, Iterated(sqrt, forces, s, Initial(place, pos.Length, w, h), w, h, s.first, first), w, h, s.second, second)
      && pos[..] == Iterated(sqrt, forces, s, Iterated(sqrt, forces, s, Initial(place, pos.Length, w, h), w, h, s.first, first), w, h, s.second, second)
    ensures pos.Length > 0 && s.first.iterations + s.second.iterations > 0 ==>
      forall i :: 0 <= i < pos.Length ==> OnCanvas(w, h, pos[i])
    ensures pos.Length > 0 && s.first.iterations + s.second.iterations == 0 ==>
      forall i :: 0 <= i < pos.Length ==> pos[i] == place(i, w, h)
  {
    if pos.Length == 0 {
      return [], [];
    }
    forall i | 0 <= i < pos.Length {
      pos[i] := place(i, w, h);
    }
    assert pos[..] == Initial(place, pos.Length, w, h);
    first := LayoutPass(sqrt, forces, s, pos, w, h, s.first);
    second := LayoutPass(sqrt, forces, s, pos, w, h, s.second);
  }
}
