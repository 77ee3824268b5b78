/** Facts about integer division and multiplication that the index
    arithmetic of the thread pool and of the optimisation grid rely on. */
module Arithmetic {

  /** Quotient and remainder are unique: any decomposition a == step * q + r
      with the remainder in range is the one `/` and `%` compute. */
  lemma DivModUnique(a: int, step: int, q: int, r: int)
    requires step > 0 && 0 <= r < step && a == step * q + r
    ensures q == a / step && r == a % step
  {
    var q0, r0 := a / step, a % step;
    assert a == step * q0 + r0;
    assert step * (q - q0) == r0 - r;
    if q > q0 {
      MulAtLeastOne(step, q - q0);
    } else if q < q0 {
      MulAtLeastOne(step, q0 - q);
    }
  }

  lemma MulAtLeastOne(step: int, d: int)
    requires step > 0 && d >= 1
    ensures step * d >= step
  {
  }

  /** Row-major slots are unique: a cell of a grid of width w is determined by
      its slot y * w + x. */
  lemma SlotUnique(w: int, x1: int, y1: int, x2: int, y2: int)
    requires 0 <= x1 < w && 0 <= x2 < w && y1 * w + x1 == y2 * w + x2
    ensures x1 == x2 && y1 == y2
  {
    DivModUnique(y1 * w + x1, w, y1, x1);
    DivModUnique(y2 * w + x2, w, y2, x2);
  }

  /** A cell of a w by h grid has a slot below w * h. */
  lemma SlotInRange(w: int, h: int, x: int, y: int)
    requires 0 <= x < w && 0 <= y < h
    ensures 0 <= y * w + x < w * h
  {
    assert y * w <= (h - 1) * w by {
      MulMonotone(y, h - 1, w);
    }
    assert (h - 1) * w + w == h * w;
  }

  lemma MulMonotone(a: int, b: int, c: int)
    requires a <= b && c >= 0
    ensures a * c <= b * c
  {
    assert b * c - a * c == (b - a) * c;
  }
}
