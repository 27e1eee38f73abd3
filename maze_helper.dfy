/**
 * Arithmetic helpers of the maze: conversions between (row, column) indices and cell IDs,
 * the rounded-up percentage used for item counts and theft, and the wall budget of a
 * perfect maze. Java's `/` and `%` truncate toward zero; they are written out here.
 */
module MazeHelper {
  import opened Locations

  /** Share of cells that receive a gold coin, and share of cells (or of gold) for thieves. */
  const GoldCoinPercent: int := 20
  const ThiefPercent: int := 10

  /** `idxToID`: the row-major ID of cell (i, j); for a column inside the width it encodes the cell uniquely. */
  function IdxToId(i: int, j: int, cols: int): (id: int)
    ensures cols > 0 && i >= 0 && 0 <= j < cols ==> id >= 0 && id / cols == i && id % cols == j
  {
    if cols > 0 && i >= 0 && 0 <= j < cols then
      MulLe(0, i, cols);
      DivModUnique(i * cols + j, cols, i, j);
      i * cols + j
    else
      i * cols + j
  }

  /** `locationToID`: the ID of a position, the same as `idxToID` of its row and column. */
  function LocationToId(l: Coord, cols: int): (id: int)
    ensures id == IdxToId(l.i, l.j, cols)
  {
    l.i * cols + l.j
  }

  /** Integer division rounding toward zero, as Java's `/` on `int`. */
  function JavaDiv(a: int, b: int): (q: int)
    requires b != 0
    ensures (a < 0) == (b < 0) ==> q >= 0
    ensures (a < 0) != (b < 0) ==> q <= 0
    ensures a >= 0 && b > 0 ==> q == a / b
  {
    var m := (if a < 0 then -a else a) / (if b < 0 then -b else b);
    NonNegativeQuotient(if a < 0 then -a else a, if b < 0 then -b else b);
    if (a < 0) != (b < 0) then -m else m
  }

  /** Java's `%` on `int`: the remainder that goes with `JavaDiv`, carrying the sign of `a`. */
  function JavaRem(a: int, b: int): (r: int)
    requires b != 0
    ensures a >= 0 ==> 0 <= r < (if b < 0 then -b else b)
    ensures a < 0 ==> -(if b < 0 then -b else b) < r <= 0
  {
    DivMod(if a < 0 then -a else a, if b < 0 then -b else b);
    a - b * JavaDiv(a, b)
  }

  /** `IDToLocation`: the row and column of an ID, with Java's truncating division. */
  function IdToLocation(id: int, cols: int): (l: Coord)
    requires cols != 0
    ensures LocationToId(l, cols) == id
    ensures id >= 0 && cols > 0 ==> l.i >= 0 && 0 <= l.j < cols
  {
    Coord(JavaDiv(id, cols), JavaRem(id, cols))
  }

  /** For a non-negative ID and a positive width, the truncating operators are the floor ones. */
  lemma {:induction false} IdToLocationOfNonNegative(id: int, cols: int)
    requires id >= 0 && cols > 0
    ensures IdToLocation(id, cols) == Coord(id / cols, id % cols)
    ensures 0 <= id / cols && 0 <= id % cols < cols
  {
    assert JavaRem(id, cols) == id % cols by {
      DivMod(id, cols);
    }
  }

  lemma {:induction false} NonNegativeQuotient(a: int, b: int)
    requires a >= 0 && b > 0
    ensures a / b >= 0
  {
    DivMod(a, b);
    if a / b < 0 {
      MulLe(a / b, -1, b);
    }
  }

  lemma DivMod(a: int, b: int)
    requires b > 0
    ensures a == (a / b) * b + a % b && 0 <= a % b < b
  {
  }

  /** An ID maps back to the same ID, for every ID and every non-zero width. */
  lemma IdOfLocation(id: int, cols: int)
    requires cols != 0
    ensures LocationToId(IdToLocation(id, cols), cols) == id
  {
  }

  /** A position with its column inside the width maps to an ID and back to itself. */
  lemma {:induction false} LocationOfId(i: int, j: int, cols: int)
    requires cols > 0 && i >= 0 && 0 <= j < cols
    ensures IdxToId(i, j, cols) >= 0
    ensures IdToLocation(IdxToId(i, j, cols), cols) == Coord(i, j)
  {
    var id := i * cols + j;
    MulLe(0, i, cols);
    IdToLocationOfNonNegative(id, cols);
    DivModUnique(id, cols, i, j);
  }

  lemma {:induction false} MulLe(a: int, b: int, c: int)
    requires a <= b && c >= 0
    ensures a * c <= b * c
  {
    assert (b - a) * c >= 0;
    assert b * c - a * c == (b - a) * c;
  }

  lemma {:induction false} MulGap(a: int, b: int, c: int)
    requires a < b && c >= 0
    ensures a * c + c <= b * c
  {
    MulLe(a + 1, b, c);
    assert (a + 1) * c == a * c + c;
  }

  /** Euclidean division has one quotient and one remainder. */
  lemma {:induction false} DivModUnique(n: int, d: int, q: int, r: int)
    requires d > 0 && 0 <= r < d && n == q * d + r
    ensures n / d == q && n % d == r
  {
    var q', r' := n / d, n % d;
    assert n == q' * d + r';
    if q > q' {
      MulGap(q', q, d);
      assert false;
    } else if q < q' {
      MulGap(q, q', d);
      assert false;
    }
  }

  /** IDs of a rows x cols grid are exactly 0 .. rows*cols-1, and every such ID has its cell inside. */
  lemma {:induction false} IdInGrid(id: int, rows: int, cols: int)
    requires rows > 0 && cols > 0 && 0 <= id < rows * cols
    ensures 0 <= IdToLocation(id, cols).i < rows && 0 <= IdToLocation(id, cols).j < cols
  {
    IdToLocationOfNonNegative(id, cols);
    var i := id / cols;
    assert id == i * cols + id % cols;
    if i >= rows {
      MulLe(rows, i, cols);
    }
  }

  /** A cell inside a rows x cols grid has its ID in 0 .. rows*cols-1. */
  lemma {:induction false} IdxInGrid(i: int, j: int, rows: int, cols: int)
    requires 0 <= i < rows && 0 <= j < cols
    ensures 0 <= IdxToId(i, j, cols) < rows * cols
  {
    MulLe(0, i, cols);
    MulGap(i, rows, cols);
  }

  /**
   * `percent` percent of `total`, rounded up (Java: `(int) Math.ceil(total * percent / 100.0)`).
   * Written as an integer ceiling; the floating-point product is not modelled.
   */
  function XPercentageInInt(total: int, percent: int): (r: int)
    ensures 100 * r >= total * percent && 100 * (r - 1) < total * percent
  {
    (total * percent + 99) / 100
  }

  /** The wall count of a maze whose open walls form a spanning tree of the cells. */
  function MaxRemainingWalls(rows: int, cols: int): (r: int)
    ensures r == rows * cols + rows + cols + 1
  {
    var totalWalls := 2 * rows * cols + rows + cols;
    totalWalls - rows * cols + 1
  }

  lemma GoldAndThiefCountsExamples()
    ensures XPercentageInInt(24, GoldCoinPercent) == 5 && XPercentageInInt(24, ThiefPercent) == 3
    ensures XPercentageInInt(7, ThiefPercent) == 1 && XPercentageInInt(0, ThiefPercent) == 0
  {
  }
}
