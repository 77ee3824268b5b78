/** The bucket grid of dyng/optimization_grid.h that limits the repulsion of
    Fruchterman-Reingold to nearby nodes. The canvas [-w/2, w/2] x [-h/2, h/2]
    is cut into squares of side 2k; each square keeps the indices of the
    nodes added in it, in a row-major vector of buckets. */
module OptimizationGrids {
  import opened Arithmetic
  import opened Nodes
  import opened Wrappers

  /** std::floor on a real. */
  function Floor(r: real): (f: int)
    ensures f as real <= r < f as real + 1.0
  {
    r.Floor
  }

  /** std::ceil on a real. */
  function Ceil(r: real): (c: int)
    ensures c as real - 1.0 < r <= c as real
  {
    -((-r).Floor)
  }

  /** The cell along one axis that add and for_each_around compute:
      floor((p + size / 2) / 2k), the square whose span holds p + size / 2. */
  function AxisCell(p: real, size: real, twoK: real): int
    requires twoK > 0.0
  {
    Floor((p + size / 2.0) / twoK)
  }

  /** The square AxisCell picks is the one whose span holds p + size / 2. */
  lemma AxisCellSpan(p: real, size: real, twoK: real)
    requires twoK > 0.0
    ensures AxisCell(p, size, twoK) as real * twoK <= p + size / 2.0 < (AxisCell(p, size, twoK) + 1) as real * twoK
  {
    assert AxisCell(p, size, twoK) == Floor((p + size / 2.0) / twoK);
    FloorScaled(p + size / 2.0, twoK);
  }

  /** floor(v / t) * t <= v < (floor(v / t) + 1) * t for t > 0. */
  lemma FloorScaled(v: real, t: real)
    requires t > 0.0
    ensures Floor(v / t) as real * t <= v < (Floor(v / t) + 1) as real * t
  {
    var u := v / t;
    var c := Floor(u);
    assert c as real <= u < c as real + 1.0;
    assert u * t == v;
    RealMulMonotone(c as real, u, t);
    RealMulStrict(u, c as real + 1.0, t);
    assert (c as real + 1.0) * t > v;
    assert (c + 1) as real == c as real + 1.0;
    assert (c + 1) as real * t > v;
  }

  lemma RealMulMonotone(a: real, b: real, t: real)
    requires a <= b && t > 0.0
    ensures a * t <= b * t
  {
    assert b * t - a * t == (b - a) * t;
  }

  lemma RealMulStrict(a: real, b: real, t: real)
    requires a < b && t > 0.0
    ensures a * t < b * t
  {
    assert b * t - a * t == (b - a) * t;
  }

  lemma RealMulAtLeast(d: int, t: real)
    requires d >= 1 && t > 0.0
    ensures d as real * t >= t
  {
    RealMulMonotone(1.0, d as real, t);
  }

  /** The nearest value in [0, n). */
  function Clamp(c: int, n: int): (r: int)
    requires n >= 1
    ensures 0 <= r < n
    ensures 0 <= c < n ==> r == c
    ensures c < 0 ==> r == 0
    ensures c >= n ==> r == n - 1
  {
    if c < 0 then 0 else if c >= n then n - 1 else c
  }

  /** std::vector::resize: keeps the first n buckets, adding empty ones. */
  function Resize(buckets: seq<seq<nat>>, n: nat): (r: seq<seq<nat>>)
    ensures |r| == n
    ensures forall i :: 0 <= i < n && i < |buckets| ==> r[i] == buckets[i]
    ensures forall i :: |buckets| <= i < n ==> r[i] == []
  {
    if n <= |buckets| then buckets[..n] else buckets + seq(n - |buckets|, _ => [])
  }

  /** The cells (x, y) of row y with x0 <= x < x1, left to right. */
  function RowCells(y: int, x0: int, x1: int): seq<(int, int)>
    decreases x1 - x0
  {
    if x1 <= x0 then [] else RowCells(y, x0, x1 - 1) + [(x1 - 1, y)]
  }

  /** The cells of rows y0 <= y < y1 and columns x0 <= x < x1 in row-major order. */
  function CellBlock(y0: int, y1: int, x0: int, x1: int): seq<(int, int)>
    decreases y1 - y0
  {
    if y1 <= y0 then [] else CellBlock(y0, y1 - 1, x0, x1) + RowCells(y1 - 1, x0, x1)
  }

  /** Row y from x0 to x1 is the squares (x0 + i, y) in order. */
  lemma {:induction false} RowCellsSpec(y: int, x0: int, x1: int)
    ensures |RowCells(y, x0, x1)| == if x1 <= x0 then 0 else x1 - x0
    ensures forall i :: 0 <= i < |RowCells(y, x0, x1)| ==> RowCells(y, x0, x1)[i] == (x0 + i, y)
    ensures forall c :: c in RowCells(y, x0, x1) <==> c.1 == y && x0 <= c.0 < x1
    decreases x1 - x0
  {
    var r := RowCells(y, x0, x1);
    if x1 > x0 {
      RowCellsSpec(y, x0, x1 - 1);
    }
    forall c: (int, int) | c.1 == y && x0 <= c.0 < x1 ensures c in r {
      assert r[c.0 - x0] == c;
    }
  }

  /** A block holds exactly the cells of its rows and columns, each once, in
      row-major order. */
  lemma {:induction false} CellBlockSpec(y0: int, y1: int, x0: int, x1: int)
    ensures forall c :: c in CellBlock(y0, y1, x0, x1) <==> y0 <= c.1 < y1 && x0 <= c.0 < x1
    ensures forall i, j :: 0 <= i < j < |CellBlock(y0, y1, x0, x1)| ==>
      CellBlock(y0, y1, x0, x1)[i].1 < CellBlock(y0, y1, x0, x1)[j].1 ||
      (CellBlock(y0, y1, x0, x1)[i].1 == CellBlock(y0, y1, x0, x1)[j].1 && CellBlock(y0, y1, x0, x1)[i].0 < CellBlock(y0, y1, x0, x1)[j].0)
    decreases y1 - y0
  {
    if y1 > y0 {
      CellBlockSpec(y0, y1 - 1, x0, x1);
      RowCellsSpec(y1 - 1, x0, x1);
      var before := CellBlock(y0, y1 - 1, x0, x1);
      var row := RowCells(y1 - 1, x0, x1);
      assert forall i :: 0 <= i < |before| ==> before[i] in before;
      assert forall i :: 0 <= i < |row| ==> row[i] in row;
    }
  }

  /** No element occurs twice. */
  predicate NoDup<T(==)>(s: seq<T>)
  {
    forall i, j :: 0 <= i < j < |s| ==> s[i] != s[j]
  }

  lemma NoDupAppend<T>(a: seq<T>, b: seq<T>)
    requires NoDup(a) && NoDup(b)
    requires forall x :: x in a ==> x !in b
    ensures NoDup(a + b)
  {
    forall i, j | 0 <= i < j < |a + b| ensures (a + b)[i] != (a + b)[j] {
      if i < |a| && j >= |a| {
        assert (a + b)[i] in a && (a + b)[j] in b;
      }
    }
  }

  /** The bucket of square c in a row-major grid of width w; none outside it. */
  function Bucket(buckets: seq<seq<nat>>, w: int, c: (int, int)): seq<nat>
  {
    var slot := c.1 * w + c.0;
    if 0 <= slot < |buckets| then buckets[slot] else []
  }

  /** The contents of the buckets of `cells`, in the order of the cells, each
      bucket front to back: the calls for_each_around makes. */
  function Gather(buckets: seq<seq<nat>>, w: int, cells: seq<(int, int)>): seq<nat>
  {
    if cells == [] then []
    else Gather(buckets, w, cells[..|cells| - 1]) + Bucket(buckets, w, cells[|cells| - 1])
  }

  /** Every cell has a bucket. */
  ghost predicate InGrid(buckets: seq<seq<nat>>, w: int, cells: seq<(int, int)>)
  {
    forall c :: c in cells ==> 0 <= c.1 * w + c.0 < |buckets|
  }

  /** Every square of a block inside a w x h grid has its bucket. */
  lemma BlockInGrid(buckets: seq<seq<nat>>, w: int, h: int, y0: int, y1: int, x0: int, x1: int)
    requires |buckets| == w * h && 0 <= y0 && y1 <= h && 0 <= x0 && x1 <= w
    ensures InGrid(buckets, w, CellBlock(y0, y1, x0, x1))
  {
    CellBlockSpec(y0, y1, x0, x1);
    forall c | c in CellBlock(y0, y1, x0, x1) ensures 0 <= c.1 * w + c.0 < |buckets| {
      SlotInRange(w, h, c.0, c.1);
    }
  }

  lemma {:induction false} GatherAppend(buckets: seq<seq<nat>>, w: int, cells: seq<(int, int)>, more: seq<(int, int)>)
    ensures Gather(buckets, w, cells + more) == Gather(buckets, w, cells) + Gather(buckets, w, more)
    decreases |more|
  {
    if more != [] {
      assert (cells + more)[..|cells + more| - 1] == cells + more[..|more| - 1];
      GatherAppend(buckets, w, cells, more[..|more| - 1]);
    } else {
      assert cells + more == cells;
    }
  }

  /** Visiting one more square appends its bucket. */
  lemma GatherSnoc(buckets: seq<seq<nat>>, w: int, cells: seq<(int, int)>, c: (int, int))
    ensures Gather(buckets, w, cells + [c]) == Gather(buckets, w, cells) + Bucket(buckets, w, c)
  {
    assert (cells + [c])[..|cells|] == cells;
  }

  /** Every index stored in the bucket of one of the cells is visited. */
  lemma {:induction false} GatherContains(buckets: seq<seq<nat>>, w: int, cells: seq<(int, int)>, c: (int, int), j: nat)
    requires c in cells && j in Bucket(buckets, w, c)
    ensures j in Gather(buckets, w, cells)
  {
    var init := cells[..|cells| - 1];
    if c != cells[|cells| - 1] {
      var i :| 0 <= i < |cells| && cells[i] == c;
      assert init[i] == c;
      GatherContains(buckets, w, init, c, j);
    }
  }

  /** Everything visited comes from the bucket of one of the cells. */
  lemma {:induction false} GatherFrom(buckets: seq<seq<nat>>, w: int, cells: seq<(int, int)>, j: nat)
    requires j in Gather(buckets, w, cells)
    ensures exists c :: c in cells && j in Bucket(buckets, w, c)
  {
    var init := cells[..|cells| - 1];
    var last := cells[|cells| - 1];
    if j in Gather(buckets, w, init) {
      GatherFrom(buckets, w, init, j);
      var c :| c in init && j in Bucket(buckets, w, c);
      assert c in cells;
    } else {
      assert last in cells;
    }
  }

  /** Every index is stored in at most one bucket, at most once. */
  ghost predicate Exclusive(buckets: seq<seq<nat>>)
  {
    && (forall s :: 0 <= s < |buckets| ==> NoDup(buckets[s]))
    && (forall s1, s2, j :: 0 <= s1 < |buckets| && 0 <= s2 < |buckets| && j in buckets[s1] && j in buckets[s2] ==> s1 == s2)
  }

  /** Visiting distinct squares of buckets that share no index visits every
      index at most once. */
  lemma {:induction false} GatherNoDup(buckets: seq<seq<nat>>, w: int, cells: seq<(int, int)>)
    requires Exclusive(buckets) && InGrid(buckets, w, cells)
    requires forall c :: c in cells ==> 0 <= c.0 < w
    requires forall a, b :: 0 <= a < b < |cells| ==> cells[a] != cells[b]
    ensures NoDup(Gather(buckets, w, cells))
  {
    if cells != [] {
      var init := cells[..|cells| - 1];
      var last := cells[|cells| - 1];
      assert forall c :: c in init ==> c in cells;
      GatherNoDup(buckets, w, init);
      forall x | x in Gather(buckets, w, init) ensures x !in Bucket(buckets, w, last) {
        GatherFrom(buckets, w, init, x);
        var c :| c in init && x in Bucket(buckets, w, c);
        if x in Bucket(buckets, w, last) {
          assert last in cells;
          SlotUnique(w, c.0, c.1, last.0, last.1);
          assert false;
        }
      }
      NoDupAppend(Gather(buckets, w, init), Bucket(buckets, w, last));
    }
  }

  class OptimizationGrid {
    var twoK: real
    var w: real
    var h: real
    var gridW: int
    var gridH: int
    var indices: seq<seq<nat>>

    /** The shape reset establishes: squares of side 2k covering a canvas
        of positive size. */
    ghost predicate Valid()
      reads this
    {
      && twoK > 0.0 && w > 0.0 && h > 0.0
      && gridW >= 1 && gridH >= 1
    }

    /** One bucket per square, as reset leaves it and clear does not. */
    ghost predicate Sized()
      reads this
    {
      Valid() && |indices| == gridW * gridH
    }

    /** The square of a position as add and for_each_around compute it,
        not clipped to the grid. */
    function Square(pos: Coords): (int, int)
      reads this
      requires Valid()
    {
      (AxisCell(pos.x, w, twoK), AxisCell(pos.y, h, twoK))
    }

    /** The square add stores a position in: Square clipped to the grid. */
    function Cell(pos: Coords): (c: (int, int))
      reads this
      requires Valid()
      ensures 0 <= c.0 < gridW && 0 <= c.1 < gridH
      ensures 0 <= Square(pos).0 < gridW && 0 <= Square(pos).1 < gridH ==> c == Square(pos)
    {
      ClippedCell(twoK, w, h, gridW, gridH, pos)
    }

    /** The row-major position of a square's bucket. */
    function Slot(c: (int, int)): (s: nat)
      reads this
      requires Sized() && 0 <= c.0 < gridW && 0 <= c.1 < gridH
      ensures s < |indices| && s == c.1 * gridW + c.0
    {
      SlotInRange(gridW, gridH, c.0, c.1);
      c.1 * gridW + c.0
    }

    /** The squares for_each_around visits around the square (cx, cy): the
        3 x 3 neighbourhood clipped to the grid, row by row. */
    function Around(cx: int, cy: int): seq<(int, int)>
      reads this
      requires Valid()
    {
      CellBlock(Max(cy - 1, 0), Min(cy + 1, gridH - 1) + 1, Max(cx - 1, 0), Min(cx + 1, gridW - 1) + 1)
    }

    /** Around holds exactly the squares of the grid at most one step away in
        each direction, each once, row by row. */
    lemma AroundCells(cx: int, cy: int)
      requires Valid()
      ensures forall c :: c in Around(cx, cy) <==>
        0 <= c.0 < gridW && 0 <= c.1 < gridH && cx - 1 <= c.0 <= cx + 1 && cy - 1 <= c.1 <= cy + 1
      ensures forall i, j :: 0 <= i < j < |Around(cx, cy)| ==> Around(cx, cy)[i] != Around(cx, cy)[j]
    {
      CellBlockSpec(Max(cy - 1, 0), Min(cy + 1, gridH - 1) + 1, Max(cx - 1, 0), Min(cx + 1, gridW - 1) + 1);
    }

    /** optimization_grid(w, h, k): reset on an empty bucket vector. */
    constructor (w0: real, h0: real, k: real)
      requires w0 > 0.0 && h0 > 0.0 && k > 0.0
      ensures Sized() && twoK == 2.0 * k && w == w0 && h == h0
      ensures gridW == Ceil(w0 / (2.0 * k)) && gridH == Ceil(h0 / (2.0 * k))
      ensures forall i :: 0 <= i < |indices| ==> indices[i] == []
    {
      twoK := 2.0 * k;
      w := w0;
      h := h0;
      gridW := Ceil(w0 / (2.0 * k));
      gridH := Ceil(h0 / (2.0 * k));
      new;
      CeilPositive(w0, 2.0 * k);
      CeilPositive(h0, 2.0 * k);
      indices := Resize([], gridW * gridH);
    }

    /** reset: squares of side 2k, ceil(w / 2k) columns and ceil(h / 2k) rows;
        the bucket vector is resized, so surviving buckets keep their contents. */
    method Reset(w0: real, h0: real, k: real)
      requires w0 > 0.0 && h0 > 0.0 && k > 0.0
      modifies this
      ensures Sized() && twoK == 2.0 * k && w == w0 && h == h0
      ensures gridW == Ceil(w0 / (2.0 * k)) && gridH == Ceil(h0 / (2.0 * k))
      ensures indices == Resize(old(indices), gridW * gridH)
    {
      twoK := 2.0 * k;
      w := w0;
      h := h0;
      gridW := Ceil(w / twoK);
      gridH := Ceil(h / twoK);
      CeilPositive(w0, 2.0 * k);
      CeilPositive(h0, 2.0 * k);
      indices := Resize(indices, gridW * gridH);
    }

    /** add with its square clipped to the grid: appends the index to the
        bucket of the position's square; every other bucket is unchanged.
        AddAsWritten is the unclipped computation, which can index past the
        buckets or into the wrong one. */
    method Add(pos: Coords, index: nat)
      requires Sized()
      modifies this
      ensures Sized() && twoK == old(twoK) && w == old(w) && h == old(h)
      ensures gridW == old(gridW) && gridH == old(gridH)
      ensures indices == old(indices)[old(Slot(Cell(pos))) := old(indices)[old(Slot(Cell(pos)))] + [index]]
    {
      var slot := Slot(Cell(pos));
      indices := indices[slot := indices[slot] + [index]];
    }

    /** The bucket add as written indexes, y * gridW + x, with the square
        not clipped to the grid. */
    function RawSlot(pos: Coords): int
      reads this
      requires Valid()
    {
      Square(pos).1 * gridW + Square(pos).0
    }

    /** add as written: the unclipped slot is indexed directly. Inside the
        bucket vector the index is appended there; outside it the vector
        access is undefined in the library, modelled as OutOfRange with
        nothing changed. */
    method AddAsWritten(pos: Coords, index: nat) returns (r: Result<nat>)
      requires Sized()
      modifies this
      ensures Sized() && twoK == old(twoK) && w == old(w) && h == old(h)
      ensures gridW == old(gridW) && gridH == old(gridH)
      ensures 0 <= old(RawSlot(pos)) < |old(indices)| ==>
        r == Ok(old(RawSlot(pos))) && indices == old(indices)[r.value := old(indices)[r.value] + [index]]
      ensures !(0 <= old(RawSlot(pos)) < |old(indices)|) ==> r == Err(OutOfRange) && indices == old(indices)
    {
      var slot := RawSlot(pos);
      if 0 <= slot < |indices| {
        indices := indices[slot := indices[slot] + [index]];
        r := Ok(slot);
      } else {
        r := Err(OutOfRange);
      }
    }

    /** Where the square of a position lies in the grid, add as written and
        the clipped add use the same bucket. */
    lemma RawSlotInGrid(pos: Coords)
      requires Sized() && 0 <= Square(pos).0 < gridW && 0 <= Square(pos).1 < gridH
      ensures RawSlot(pos) == Slot(Cell(pos))
      ensures 0 <= RawSlot(pos) < |indices|
    {
    }

    /** for_each_around: the indices func is called with, in call order,
        i.e. the buckets of the squares around the position's unclipped
        square. */
    method ForEachAround(pos: Coords) returns (visited: seq<nat>)
      requires Sized()
      ensures visited == Gather(indices, gridW, Around(Square(pos).0, Square(pos).1))
    {
      var (cx, cy) := Square(pos);
      var y0, y1 := Max(cy - 1, 0), Min(cy + 1, gridH - 1);
      var x0, x1 := Max(cx - 1, 0), Min(cx + 1, gridW - 1);
      ghost var cells := Around(cx, cy);
      assert cells == CellBlock(y0, y1 + 1, x0, x1 + 1);
      visited := VisitBlock(indices, gridW, gridH, y0, y1, x0, x1);
    }

    /** Every square for_each_around visits has a bucket. */
    lemma AroundInGrid(cx: int, cy: int)
      requires Sized()
      ensures InGrid(indices, gridW, Around(cx, cy))
    {
      BlockInGrid(indices, gridW, gridH, Max(cy - 1, 0), Min(cy + 1, gridH - 1) + 1, Max(cx - 1, 0), Min(cx + 1, gridW - 1) + 1);
    }

    /** clear: the bucket vector itself is emptied, leaving no buckets until
        the next reset. */
    method Clear()
      modifies this
      ensures indices == []
      ensures twoK == old(twoK) && w == old(w) && h == old(h) && gridW == old(gridW) && gridH == old(gridH)
    {
      indices := [];
    }
  }

  /** The nested loop of for_each_around: rows y0..y1, and in each row the
      columns x0..x1, appending each square's bucket. */
  method VisitBlock(buckets: seq<seq<nat>>, gw: int, gh: int, y0: int, y1: int, x0: int, x1: int)
    returns (visited: seq<nat>)
    requires |buckets| == gw * gh && 0 <= y0 && y1 < gh && 0 <= x0 && x1 < gw
    ensures visited == Gather(buckets, gw, CellBlock(y0, y1 + 1, x0, x1 + 1))
  {
    visited := [];
    var y := y0;
    while y <= y1
      invariant y0 <= y && (y <= y1 + 1 || y == y0)
      invariant visited == Gather(buckets, gw, CellBlock(y0, y, x0, x1 + 1))
    {
      var row := VisitRow(buckets, gw, gh, y, x0, x1);
      GatherAppend(buckets, gw, CellBlock(y0, y, x0, x1 + 1), RowCells(y, x0, x1 + 1));
      visited := visited + row;
      y := y + 1;
    }
  }

  /** The inner loop of for_each_around: the columns x0..x1 of row y. */
  method VisitRow(buckets: seq<seq<nat>>, gw: int, gh: int, y: int, x0: int, x1: int)
    returns (visited: seq<nat>)
    requires |buckets| == gw * gh && 0 <= y < gh && 0 <= x0 && x1 < gw
    ensures visited == Gather(buckets, gw, RowCells(y, x0, x1 + 1))
  {
    visited := [];
    var x := x0;
    while x <= x1
      invariant x0 <= x && (x <= x1 + 1 || x == x0)
      invariant visited == Gather(buckets, gw, RowCells(y, x0, x))
    {
      SlotInRange(gw, gh, x, y);
      GatherSnoc(buckets, gw, RowCells(y, x0, x), (x, y));
      visited := visited + buckets[y * gw + x];
      x := x + 1;
    }
  }

  function Max(a: int, b: int): int
  {
    if a >= b then a else b
  }

  function Min(a: int, b: int): int
  {
    if a <= b then a else b
  }

  lemma CeilPositive(size: real, twoK: real)
    requires size > 0.0 && twoK > 0.0
    ensures Ceil(size / twoK) >= 1
  {
    assert size / twoK > 0.0;
  }

  /** Two coordinates less than 2k apart fall into squares at most one apart,
      and clipping to the grid keeps them at most one apart. */
  lemma NearbyCells(p: real, q: real, size: real, twoK: real, n: int)
    requires twoK > 0.0 && n >= 1
    requires p - q < twoK && q - p < twoK
    ensures -1 <= AxisCell(p, size, twoK) - AxisCell(q, size, twoK) <= 1
    ensures -1 <= Clamp(AxisCell(p, size, twoK), n) - Clamp(AxisCell(q, size, twoK), n) <= 1
  {
    var a, b := AxisCell(p, size, twoK), AxisCell(q, size, twoK);
    AxisCellSpan(p, size, twoK);
    AxisCellSpan(q, size, twoK);
    if a >= b + 2 {
      CellGap(a, b, p + size / 2.0, q + size / 2.0, twoK);
    } else if b >= a + 2 {
      CellGap(b, a, q + size / 2.0, p + size / 2.0, twoK);
    }
  }

  /** Squares two or more apart hold points at least 2k apart. */
  lemma CellGap(a: int, b: int, pa: real, pb: real, t: real)
    requires t > 0.0 && a as real * t <= pa && pb < (b + 1) as real * t && a >= b + 2
    ensures pa - pb > t
  {
    assert a as real * t - (b + 1) as real * t == (a - b - 1) as real * t;
    RealMulAtLeast(a - b - 1, t);
  }

  /** The square of a position clipped to a grid of gw x gh squares of side twoK. */
  function ClippedCell(twoK: real, w: real, h: real, gw: int, gh: int, pos: Coords): (int, int)
    requires twoK > 0.0 && gw >= 1 && gh >= 1
  {
    (Clamp(AxisCell(pos.x, w, twoK), gw), Clamp(AxisCell(pos.y, h, twoK), gh))
  }

  /** The canvas [-w/2, w/2] x [-h/2, h/2]. */
  predicate OnCanvas(w: real, h: real, p: Coords)
  {
    -w / 2.0 <= p.x <= w / 2.0 && -h / 2.0 <= p.y <= h / 2.0
  }

  /** The square add clips a coordinate to lies around the unclipped square
      of any coordinate less than 2k away, both on the canvas. */
  lemma NearbyClipped(p: real, q: real, size: real, twoK: real)
    requires twoK > 0.0 && size > 0.0
    requires -size / 2.0 <= p <= size / 2.0 && -size / 2.0 <= q <= size / 2.0
    requires p - q < twoK && q - p < twoK
    ensures Ceil(size / twoK) >= 1
    ensures -1 <= Clamp(AxisCell(q, size, twoK), Ceil(size / twoK)) - AxisCell(p, size, twoK) <= 1
  {
    CeilPositive(size, twoK);
    NearbyCells(p, q, size, twoK, Ceil(size / twoK));
    CanvasCells(p, size, twoK);
    CanvasCells(q, size, twoK);
  }

  /** Points on the canvas closer than 2k along both axes see each other:
      the square q is stored in is among those for_each_around visits for p. */
  lemma NeighbourFound(g: OptimizationGrid, p: Coords, q: Coords)
    requires g.Valid() && g.gridW == Ceil(g.w / g.twoK) && g.gridH == Ceil(g.h / g.twoK)
    requires OnCanvas(g.w, g.h, p) && OnCanvas(g.w, g.h, q)
    requires p.x - q.x < g.twoK && q.x - p.x < g.twoK
    requires p.y - q.y < g.twoK && q.y - p.y < g.twoK
    ensures g.Cell(q) in g.Around(g.Square(p).0, g.Square(p).1)
  {
    NearbyClipped(p.x, q.x, g.w, g.twoK);
    NearbyClipped(p.y, q.y, g.h, g.twoK);
    g.AroundCells(g.Square(p).0, g.Square(p).1);
  }

  /** A position on the canvas lies in a square of the unclipped grid or,
      only when it sits exactly on the right or top border, one past it. */
  lemma CanvasCells(p: real, size: real, twoK: real)
    requires twoK > 0.0 && size > 0.0
    requires -size / 2.0 <= p <= size / 2.0
    ensures 0 <= AxisCell(p, size, twoK) <= Ceil(size / twoK)
    ensures AxisCell(p, size, twoK) == Ceil(size / twoK) ==> p == size / 2.0
  {
    var c := AxisCell(p, size, twoK);
    var n := Ceil(size / twoK);
    AxisCellSpan(p, size, twoK);
    assert size / twoK * twoK == size;
    RealMulMonotone(size / twoK, n as real, twoK);
    if c > n {
      RealMulMonotone((n + 1) as real, c as real, twoK);
    }
    if c == n {
      assert n as real * twoK <= p + size / 2.0;
    }
  }

  /** add as written takes the square without clipping it and stores into
      slot y * gridW + x with gridW = ceil(w / 2k). */
  function AsWrittenSlot(twoK: real, w: real, h: real, pos: Coords): int
    requires twoK > 0.0
  {
    AxisCell(pos.y, h, twoK) * Ceil(w / twoK) + AxisCell(pos.x, w, twoK)
  }

  /** With w = h = 4 and k = 1 the grid has 2 x 2 buckets. The corner (2, 2),
      which the canvas clamp of Fruchterman-Reingold can produce, lands in
      slot 6, past the last of the 4 buckets; the corner (2, -2) lands in slot
      2, the bucket of square (0, 1), although its clipped square is (1, 0).
      The clipped Cell of the grid keeps both in their own squares. */
  lemma AsWrittenCellOutOfRange()
    ensures Ceil(4.0 / 2.0) * Ceil(4.0 / 2.0) == 4
    ensures AsWrittenSlot(2.0, 4.0, 4.0, Coords(2.0, 2.0)) == 6
    ensures AsWrittenSlot(2.0, 4.0, 4.0, Coords(2.0, -2.0)) == 1 * 2 + 0
    ensures Clamp(AxisCell(2.0, 4.0, 2.0), 2) == 1 && Clamp(AxisCell(-2.0, 4.0, 2.0), 2) == 0
  {
    assert (4.0 / 2.0).Floor == 2;
    assert -((-(4.0 / 2.0)).Floor) == 2;
    assert ((2.0 + 4.0 / 2.0) / 2.0).Floor == 2;
    assert ((-2.0 + 4.0 / 2.0) / 2.0).Floor == 0;
  }

  /** On the 4 x 4 grid of an 8 x 8 canvas with k = 1, node 0 at (4, -3.5)
      sits on the right border and its unclipped square (4, 0) makes add as
      written store it in slot 4, the bucket of square (0, 1). Node 1 at
      (3.5, -3.5), half a unit away and also on the canvas, looks around
      square (3, 0) and never visits slot 4, so the pair is missed. The
      clipped Cell stores node 0 in square (3, 0), which node 1 visits. */
  lemma AsWrittenMissesNeighbour(g: OptimizationGrid)
    requires g.Sized() && g.twoK == 2.0 && g.w == 8.0 && g.h == 8.0 && g.gridW == 4 && g.gridH == 4
    ensures OnCanvas(g.w, g.h, Coords(4.0, -3.5)) && OnCanvas(g.w, g.h, Coords(3.5, -3.5))
    ensures g.RawSlot(Coords(4.0, -3.5)) == 4 && 4 < |g.indices|
    ensures forall c :: c in g.Around(g.Square(Coords(3.5, -3.5)).0, g.Square(Coords(3.5, -3.5)).1) ==> c.1 * g.gridW + c.0 != 4
    ensures g.Cell(Coords(4.0, -3.5)) in g.Around(g.Square(Coords(3.5, -3.5)).0, g.Square(Coords(3.5, -3.5)).1)
  {
    var p0, p1 := Coords(4.0, -3.5), Coords(3.5, -3.5);
    assert ((4.0 + 8.0 / 2.0) / 2.0).Floor == 4;
    assert ((-3.5 + 8.0 / 2.0) / 2.0).Floor == 0;
    assert ((3.5 + 8.0 / 2.0) / 2.0).Floor == 3;
    assert g.Square(p0) == (4, 0) && g.Square(p1) == (3, 0);
    g.AroundCells(3, 0);
    assert (8.0 / 2.0).Floor == 4;
    assert -((-(8.0 / 2.0)).Floor) == 4;
    NeighbourFound(g, p1, p0);
  }
}
