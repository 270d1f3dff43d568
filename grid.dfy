/** Row-major coordinates on a square grid of side `size`: cell `c` sits in
    column `c % size` and row `c / size`. */
module Grid {

  function Col(size: nat, c: int): int
    requires size > 0
  {
    c % size
  }

  function Row(size: nat, c: int): int
    requires size > 0
  {
    c / size
  }

  predicate InGrid(size: nat, x: int, y: int) {
    0 <= x < size && 0 <= y < size
  }

  /** The flat index of column `x`, row `y`: a cell of the board. */
  function Idx(size: nat, x: int, y: int): (c: int)
    requires InGrid(size, x, y)
    ensures 0 <= c < size * size
  {
    IdxCoords(size, x, y);
    y * size + x
  }

  /** The cell at column `x`, row `y` has coordinates `(x, y)` again. */
  lemma IdxCoords(size: nat, x: int, y: int)
    requires InGrid(size, x, y)
    ensures 0 <= y * size + x < size * size
    ensures Col(size, y * size + x) == x && Row(size, y * size + x) == y
  {
    var n := y * size + x;
    assert y * size <= (size - 1) * size by {
      MulMono(y, size - 1, size);
    }
    assert (size - 1) * size == size * size - size;
    DivModUnique(n, size, y, x);
  }

  lemma MulMono(a: int, b: int, k: nat)
    requires a <= b
    ensures a * k <= b * k
  {
    assert b * k - a * k == (b - a) * k;
  }

  /** Euclidean division has a unique quotient and remainder. */
  lemma DivModUnique(n: int, d: int, q: int, r: int)
    requires d > 0 && 0 <= r < d && n == q * d + r
    ensures n / d == q && n % d == r
  {
    var q', r' := n / d, n % d;
    assert n == q' * d + r';
    assert (q - q') * d == r' - r;
    if q' < q {
      MulMono(1, q - q', d);
    } else if q < q' {
      MulMono(1, q' - q, d);
    }
  }

  /** Every cell is the index of its own coordinates. */
  lemma CellIsIdx(size: nat, c: int)
    requires 0 <= c < size * size
    ensures size > 0 && InGrid(size, Col(size, c), Row(size, c))
    ensures Idx(size, Col(size, c), Row(size, c)) == c
  {
    assert size > 0;
    var x, y := c % size, c / size;
    assert c == y * size + x;
    if y >= size {
      MulMono(size, y, size);
    }
  }

  /** One step of `(dx, dy)` that stays on the grid moves the flat index by
      `dx + dy * size` and does not wrap across an edge. */
  lemma Neighbour(size: nat, c: int, dx: int, dy: int)
    requires 0 <= c < size * size
    requires size > 0 && InGrid(size, Col(size, c) + dx, Row(size, c) + dy)
    ensures var n := c + dx + dy * size;
            0 <= n < size * size && Col(size, n) == Col(size, c) + dx && Row(size, n) == Row(size, c) + dy
  {
    CellIsIdx(size, c);
    var x, y := Col(size, c), Row(size, c);
    assert c == y * size + x;
    assert (y + dy) * size == y * size + dy * size;
    IdxCoords(size, x + dx, y + dy);
  }

  /** Walking `i` steps of `(dx, dy)` from cell `c` lands on the flat index
      `c + (dx + dy * size) * i`, the formula the search's win check uses. */
  lemma StepIndex(size: nat, c: int, dx: int, dy: int, i: int)
    requires 0 <= c < size * size
    requires size > 0 && InGrid(size, Col(size, c) + dx * i, Row(size, c) + dy * i)
    ensures Idx(size, Col(size, c) + dx * i, Row(size, c) + dy * i) == c + (dx + dy * size) * i
  {
    CellIsIdx(size, c);
    var x, y := Col(size, c), Row(size, c);
    calc {
      Idx(size, x + dx * i, y + dy * i);
      (y + dy * i) * size + x + dx * i;
      { assert (y + dy * i) * size == y * size + dy * i * size; }
      y * size + x + dx * i + dy * i * size;
      { assert (dx + dy * size) * i == dx * i + dy * size * i; }
      c + (dx + dy * size) * i;
    }
  }
}
