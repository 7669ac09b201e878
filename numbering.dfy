/** Row-major numbering of a grid that is stored twice, once per side.

    Both passes of the surface builder lay their output out this way: the
    vertex pass numbers vertex (side, i, j) of an n × m sample grid as
    side·n·m + i·m + j, and the index pass emits the triangles of cell
    (side, i, j) of the (n-1) × (m-1) cell grid in the same order. This
    module gives the numbering, its inverse, and the facts that make the
    numbering a bijection between triples and slots. */
module Numbering {

  /** Slot of entry (side, i, j) in a grid of `rows` × `cols` entries per side. */
  function Slot(rows: nat, cols: nat, side: nat, i: nat, j: nat): nat
  {
    side * (rows * cols) + i * cols + j
  }

  /** The side a slot belongs to. */
  function SideOf(rows: nat, cols: nat, t: nat): nat
    requires rows > 0 && cols > 0
  {
    t / (rows * cols)
  }

  /** The row within its side of a slot. */
  function RowOf(rows: nat, cols: nat, t: nat): nat
    requires rows > 0 && cols > 0
  {
    (t % (rows * cols)) / cols
  }

  /** The column within its row of a slot. */
  function ColOf(rows: nat, cols: nat, t: nat): nat
    requires rows > 0 && cols > 0
  {
    (t % (rows * cols)) % cols
  }

  /** Multiplying by a natural number keeps the order. */
  lemma {:induction false} MulMonotone(a: int, b: int, c: nat)
    requires a <= b
    ensures a * c <= b * c
    decreases c
  {
    if c > 0 {
      MulMonotone(a, b, c - 1);
      assert a * c == a * (c - 1) + a && b * c == b * (c - 1) + b;
    }
  }

  /** A non-zero integer times d is at least d away from zero. */
  lemma MulAwayFromZero(e: int, d: int)
    requires d >= 0
    ensures e >= 1 ==> e * d >= d
    ensures e <= -1 ==> e * d <= -d
  {
    if e >= 1 {
      MulMonotone(1, e, d);
    } else if e <= -1 {
      MulMonotone(e, -1, d);
    }
  }

  /** Euclidean division has exactly one quotient and remainder. */
  lemma DivModUnique(k: int, d: int, q: int, r: int)
    requires d > 0 && 0 <= r < d && k == q * d + r
    ensures k / d == q && k % d == r
  {
    var e := q - k / d;
    assert k == (k / d) * d + k % d;
    assert e * d == k % d - r;
    MulAwayFromZero(e, d);
  }

  /** A quotient below the bound when the dividend is below bound · divisor. */
  lemma QuotientBelow(w: nat, d: nat, bound: nat)
    requires d > 0 && w < bound * d
    ensures w / d < bound
  {
    assert w == (w / d) * d + w % d;
    MulAwayFromZero(w / d - bound + 1, d);
  }

  /** Rows and columns inside the grid land in the side's own block. */
  lemma SlotInBlock(rows: nat, cols: nat, side: nat, i: nat, j: nat)
    requires i < rows && j < cols
    ensures side * (rows * cols) <= Slot(rows, cols, side, i, j) < (side + 1) * (rows * cols)
    ensures i * cols + j < rows * cols
  {
    assert i * cols <= (rows - 1) * cols;
  }

  /** Decoding a slot gives back the triple it was made from. */
  lemma SlotDecodes(rows: nat, cols: nat, side: nat, i: nat, j: nat)
    requires i < rows && j < cols
    ensures SideOf(rows, cols, Slot(rows, cols, side, i, j)) == side
    ensures RowOf(rows, cols, Slot(rows, cols, side, i, j)) == i
    ensures ColOf(rows, cols, Slot(rows, cols, side, i, j)) == j
  {
    var w := i * cols + j;
    SlotInBlock(rows, cols, side, i, j);
    DivModUnique(Slot(rows, cols, side, i, j), rows * cols, side, w);
    DivModUnique(w, cols, i, j);
  }

  /** Every slot is the encoding of its decoded triple, whose row and column
      are inside the grid; slots below 2·rows·cols are on side 0 or 1. */
  lemma SlotEncodes(rows: nat, cols: nat, t: nat)
    requires rows > 0 && cols > 0
    ensures RowOf(rows, cols, t) < rows && ColOf(rows, cols, t) < cols
    ensures Slot(rows, cols, SideOf(rows, cols, t), RowOf(rows, cols, t), ColOf(rows, cols, t)) == t
    ensures t < 2 * (rows * cols) ==> SideOf(rows, cols, t) < 2
    ensures SideOf(rows, cols, t) == 0 <==> t < rows * cols
  {
    var b := rows * cols;
    var w := t % b;
    assert t == (t / b) * b + w;
    assert w == (w / cols) * cols + w % cols;
    QuotientBelow(w, cols, rows);
    if t < 2 * b {
      QuotientBelow(t, b, 2);
    }
    if t < b {
      DivModUnique(t, b, 0, t);
    }
  }
}
