/**
 * The maze grid: `rows` lists of `cols` cells, where the cell at row `i`, column `j` has
 * ID `i*cols + j` and location (i, j). Wall counts and wall segments are read off the
 * wall maps of the cells, row by row and column by column.
 */
module Grids {
  import opened Directions
  import opened Locations
  import opened MazeHelper
  import opened Cells

  /** The wall maps of a grid, as values. */
  type WallGrid = seq<seq<map<Direction, bool>>>

  /** `rows` rows of `cols` complete wall maps. */
  predicate Shape(ws: WallGrid, rows: int, cols: int)
  {
    rows > 0 && cols > 0 && |ws| == rows
    && (forall i :: 0 <= i < rows ==> |ws[i]| == cols)
    && (forall i, j :: 0 <= i < rows && 0 <= j < cols ==> Complete(ws[i][j]))
  }

  predicate InGrid(c: Coord, rows: int, cols: int)
  {
    0 <= c.i < rows && 0 <= c.j < cols
  }

  function CellsOf(grid: seq<seq<Cell>>): set<Cell>
  {
    set i, j | 0 <= i < |grid| && 0 <= j < |grid[i]| :: grid[i][j]
  }

  /** A `rows` x `cols` grid of valid cells, each knowing its own position (so no cell occurs twice). */
  ghost predicate WellFormed(grid: seq<seq<Cell>>, rows: int, cols: int)
    reads CellsOf(grid)
  {
    rows > 0 && cols > 0 && |grid| == rows
    && (forall i :: 0 <= i < rows ==> |grid[i]| == cols)
    && (forall i, j {:trigger grid[i][j]} :: 0 <= i < rows && 0 <= j < cols ==>
          grid[i][j].Valid() && grid[i][j].location == Coord(i, j))
  }

  function Walls(grid: seq<seq<Cell>>): (ws: WallGrid)
    reads CellsOf(grid)
    ensures |ws| == |grid|
    ensures forall i :: 0 <= i < |grid| ==> |ws[i]| == |grid[i]|
    ensures forall i, j :: 0 <= i < |grid| && 0 <= j < |grid[i]| ==> ws[i][j] == grid[i][j].walls
  {
    seq(|grid|, i requires 0 <= i < |grid| reads CellsOf(grid) =>
      seq(|grid[i]|, j requires 0 <= j < |grid[i]| reads CellsOf(grid) => grid[i][j].walls))
  }

  /** The cells of the grid carry the wall maps of `ws`. */
  ghost predicate Mirrors(grid: seq<seq<Cell>>, ws: WallGrid, rows: int, cols: int)
    reads CellsOf(grid)
    requires WellFormed(grid, rows, cols) && Shape(ws, rows, cols)
  {
    forall i, j :: 0 <= i < rows && 0 <= j < cols ==> grid[i][j].walls == ws[i][j]
  }

  lemma MirrorsWalls(grid: seq<seq<Cell>>, ws: WallGrid, rows: int, cols: int)
    requires WellFormed(grid, rows, cols) && Shape(ws, rows, cols)
    ensures Mirrors(grid, ws, rows, cols) <==> Walls(grid) == ws
  {
    if Mirrors(grid, ws, rows, cols) {
      forall i | 0 <= i < rows ensures Walls(grid)[i] == ws[i] {
      }
    }
  }

  lemma WellFormedShape(grid: seq<seq<Cell>>, rows: int, cols: int)
    requires WellFormed(grid, rows, cols)
    ensures Shape(Walls(grid), rows, cols)
  {
  }

  /** The cell at a position of a well-formed grid is the one whose location it is. */
  lemma CellsAreDistinct(grid: seq<seq<Cell>>, rows: int, cols: int, a: Coord, b: Coord)
    requires WellFormed(grid, rows, cols) && InGrid(a, rows, cols) && InGrid(b, rows, cols)
    ensures grid[a.i][a.j] == grid[b.i][b.j] <==> a == b
  {
    assert grid[a.i][a.j].location == a && grid[b.i][b.j].location == b;
  }

  function UpdateCell(ws: WallGrid, i: int, j: int, w: map<Direction, bool>): (r: WallGrid)
    requires 0 <= i < |ws| && 0 <= j < |ws[i]|
    ensures |r| == |ws| && forall i' :: 0 <= i' < |ws| ==> |r[i']| == |ws[i']|
    ensures r[i][j] == w
    ensures forall i', j' :: 0 <= i' < |ws| && 0 <= j' < |ws[i']| && (i', j') != (i, j) ==> r[i'][j'] == ws[i'][j']
  {
    ws[i := ws[i][j := w]]
  }

  /**
   * Walls a cell contributes to the count: its NORTH and WEST walls always, its SOUTH wall
   * in the last row and its EAST wall in the last column, so that no wall is counted twice.
   */
  function CellWallCount(w: map<Direction, bool>, rows: int, cols: int, i: int, j: int): nat
    requires Complete(w)
  {
    (if w[North] then 1 else 0) + (if w[West] then 1 else 0)
    + (if i == rows - 1 && w[South] then 1 else 0) + (if j == cols - 1 && w[East] then 1 else 0)
  }

  /** Walls counted in the first `n` cells of row `i`. */
  function RowWallCount(ws: WallGrid, rows: int, cols: int, i: int, n: nat): nat
    requires Shape(ws, rows, cols) && 0 <= i < rows && n <= cols
  {
    if n == 0 then 0 else RowWallCount(ws, rows, cols, i, n - 1) + CellWallCount(ws[i][n - 1], rows, cols, i, n - 1)
  }

  /** Walls counted in the first `m` rows. */
  function WallCountUpTo(ws: WallGrid, rows: int, cols: int, m: nat): nat
    requires Shape(ws, rows, cols) && m <= rows
  {
    if m == 0 then 0 else WallCountUpTo(ws, rows, cols, m - 1) + RowWallCount(ws, rows, cols, m - 1, cols)
  }

  /** The number of walls standing in the maze (`countRemainedWalls`). */
  function CountWalls(ws: WallGrid, rows: int, cols: int): (r: nat)
    requires Shape(ws, rows, cols)
    ensures r <= TotalWalls(rows, cols)
  {
    CountUpToBound(ws, rows, cols, rows);
    assert rows * (2 * cols + 1) == 2 * rows * cols + rows;
    WallCountUpTo(ws, rows, cols, rows)
  }

  lemma {:induction false} RowWallBound(ws: WallGrid, rows: int, cols: int, i: int, n: nat)
    requires Shape(ws, rows, cols) && 0 <= i < rows && n <= cols
    ensures RowWallCount(ws, rows, cols, i, n) <= 2 * n + (if i == rows - 1 then n else 0) + (if n == cols then 1 else 0)
  {
    if n > 0 {
      RowWallBound(ws, rows, cols, i, n - 1);
    }
  }

  lemma {:induction false} CountUpToBound(ws: WallGrid, rows: int, cols: int, m: nat)
    requires Shape(ws, rows, cols) && m <= rows
    ensures WallCountUpTo(ws, rows, cols, m) <= m * (2 * cols + 1) + (if m == rows then cols else 0)
  {
    if m > 0 {
      CountUpToBound(ws, rows, cols, m - 1);
      RowWallBound(ws, rows, cols, m - 1, cols);
      assert m * (2 * cols + 1) == (m - 1) * (2 * cols + 1) + 2 * cols + 1;
    }
  }

  /** Walls of a maze where no wall is torn down yet (`calculateTotalWalls`). */
  function TotalWalls(rows: int, cols: int): (r: int)
    ensures r == MaxRemainingWalls(rows, cols) + rows * cols - 1
  {
    2 * rows * cols + rows + cols
  }

  /** Every wall standing in every cell. */
  predicate AllStanding(ws: WallGrid, rows: int, cols: int)
    requires Shape(ws, rows, cols)
  {
    forall i, j :: 0 <= i < rows && 0 <= j < cols ==> ws[i][j] == AllWallsStanding
  }

  lemma {:induction false} FreshRowCount(ws: WallGrid, rows: int, cols: int, i: int, n: nat)
    requires Shape(ws, rows, cols) && AllStanding(ws, rows, cols) && 0 <= i < rows && n <= cols
    ensures RowWallCount(ws, rows, cols, i, n) == 2 * n + (if i == rows - 1 then n else 0) + (if n == cols then 1 else 0)
  {
    AllWallsStandingComplete();
    if n > 0 {
      FreshRowCount(ws, rows, cols, i, n - 1);
    }
  }

  lemma {:induction false} FreshCountUpTo(ws: WallGrid, rows: int, cols: int, m: nat)
    requires Shape(ws, rows, cols) && AllStanding(ws, rows, cols) && m <= rows
    ensures WallCountUpTo(ws, rows, cols, m) == m * (2 * cols + 1) + (if m == rows then cols else 0)
  {
    if m > 0 {
      FreshCountUpTo(ws, rows, cols, m - 1);
      FreshRowCount(ws, rows, cols, m - 1, cols);
      assert m * (2 * cols + 1) == (m - 1) * (2 * cols + 1) + 2 * cols + 1;
    }
  }

  /** A grid with every wall standing counts `calculateTotalWalls` walls. */
  lemma FreshGridWallCount(ws: WallGrid, rows: int, cols: int)
    requires Shape(ws, rows, cols) && AllStanding(ws, rows, cols)
    ensures CountWalls(ws, rows, cols) == TotalWalls(rows, cols)
  {
    FreshCountUpTo(ws, rows, cols, rows);
    assert rows * (2 * cols + 1) == 2 * rows * cols + rows;
  }

  lemma {:induction false} RowCountUpdate(ws: WallGrid, rows: int, cols: int, i: int, n: nat,
                                          i0: int, j0: int, w: map<Direction, bool>)
    requires Shape(ws, rows, cols) && 0 <= i < rows && n <= cols
    requires 0 <= i0 < rows && 0 <= j0 < cols && Complete(w)
    ensures Shape(UpdateCell(ws, i0, j0, w), rows, cols)
    ensures RowWallCount(UpdateCell(ws, i0, j0, w), rows, cols, i, n)
      == RowWallCount(ws, rows, cols, i, n)
         + (if i == i0 && j0 < n then CellWallCount(w, rows, cols, i0, j0) - CellWallCount(ws[i0][j0], rows, cols, i0, j0) else 0)
  {
    if n > 0 {
      RowCountUpdate(ws, rows, cols, i, n - 1, i0, j0, w);
    }
  }

  lemma {:induction false} CountUpToUpdate(ws: WallGrid, rows: int, cols: int, m: nat,
                                           i0: int, j0: int, w: map<Direction, bool>)
    requires Shape(ws, rows, cols) && m <= rows
    requires 0 <= i0 < rows && 0 <= j0 < cols && Complete(w)
    ensures Shape(UpdateCell(ws, i0, j0, w), rows, cols)
    ensures WallCountUpTo(UpdateCell(ws, i0, j0, w), rows, cols, m)
      == WallCountUpTo(ws, rows, cols, m)
         + (if i0 < m then CellWallCount(w, rows, cols, i0, j0) - CellWallCount(ws[i0][j0], rows, cols, i0, j0) else 0)
  {
    if m > 0 {
      CountUpToUpdate(ws, rows, cols, m - 1, i0, j0, w);
      RowCountUpdate(ws, rows, cols, m - 1, cols, i0, j0, w);
    }
  }

  /** Changing one cell's walls changes the count by exactly the change in that cell's contribution. */
  lemma CountAfterUpdate(ws: WallGrid, rows: int, cols: int, i0: int, j0: int, w: map<Direction, bool>)
    requires Shape(ws, rows, cols) && 0 <= i0 < rows && 0 <= j0 < cols && Complete(w)
    ensures Shape(UpdateCell(ws, i0, j0, w), rows, cols)
    ensures CountWalls(UpdateCell(ws, i0, j0, w), rows, cols)
      == CountWalls(ws, rows, cols) + CellWallCount(w, rows, cols, i0, j0) - CellWallCount(ws[i0][j0], rows, cols, i0, j0)
  {
    CountUpToUpdate(ws, rows, cols, rows, i0, j0, w);
  }

  /** The outer perimeter: NORTH of the first row, SOUTH of the last, WEST of the first column, EAST of the last. */
  predicate BorderStanding(ws: WallGrid, rows: int, cols: int)
    requires Shape(ws, rows, cols)
  {
    forall i, j :: 0 <= i < rows && 0 <= j < cols ==>
      (i == 0 ==> ws[i][j][North]) && (i == rows - 1 ==> ws[i][j][South])
      && (j == 0 ==> ws[i][j][West]) && (j == cols - 1 ==> ws[i][j][East])
  }

  /** A wall drawn as the line between two grid corners. */
  datatype Segment = Segment(start: Coord, end: Coord)

  /** The corners of the wall of the cell at `loc` on side `d` (`findWallStartAndEndPoint`). */
  function FindWallStartAndEndPoint(d: Direction, loc: Coord): (s: Segment)
    ensures s.start.i <= s.end.i && s.start.j <= s.end.j
    ensures (s.end.i - s.start.i) + (s.end.j - s.start.j) == 1
    ensures loc.i <= s.start.i <= loc.i + 1 && loc.j <= s.start.j <= loc.j + 1
    ensures loc.i <= s.end.i <= loc.i + 1 && loc.j <= s.end.j <= loc.j + 1
    ensures (d == North || d == South) <==> s.start.i == s.end.i
  {
    var i, j := loc.i, loc.j;
    match d
    case North => Segment(Coord(i, j), Coord(i, j + 1))
    case West => Segment(Coord(i, j), Coord(i + 1, j))
    case South => Segment(Coord(i + 1, j), Coord(i + 1, j + 1))
    case East => Segment(Coord(i, j + 1), Coord(i + 1, j + 1))
  }

  /** Neighbouring cells draw the wall between them as the same line. */
  lemma SharedWallsCoincide(i: int, j: int)
    ensures FindWallStartAndEndPoint(South, Coord(i, j)) == FindWallStartAndEndPoint(North, Coord(i + 1, j))
    ensures FindWallStartAndEndPoint(East, Coord(i, j)) == FindWallStartAndEndPoint(West, Coord(i, j + 1))
    ensures FindWallStartAndEndPoint(North, Coord(i, j)) != FindWallStartAndEndPoint(West, Coord(i, j))
  {
  }

  /** The segments one cell adds to the wall list, in the order NORTH, WEST, SOUTH, EAST. */
  function CellSegments(w: map<Direction, bool>, rows: int, cols: int, i: int, j: int): (r: seq<Segment>)
    requires Complete(w)
    ensures |r| == CellWallCount(w, rows, cols, i, j)
  {
    (if w[North] then [FindWallStartAndEndPoint(North, Coord(i, j))] else [])
    + (if w[West] then [FindWallStartAndEndPoint(West, Coord(i, j))] else [])
    + (if i == rows - 1 && w[South] then [FindWallStartAndEndPoint(South, Coord(i, j))] else [])
    + (if j == cols - 1 && w[East] then [FindWallStartAndEndPoint(East, Coord(i, j))] else [])
  }

  function RowSegments(ws: WallGrid, rows: int, cols: int, i: int, n: nat): (r: seq<Segment>)
    requires Shape(ws, rows, cols) && 0 <= i < rows && n <= cols
    ensures |r| == RowWallCount(ws, rows, cols, i, n)
  {
    if n == 0 then [] else RowSegments(ws, rows, cols, i, n - 1) + CellSegments(ws[i][n - 1], rows, cols, i, n - 1)
  }

  function SegmentsUpTo(ws: WallGrid, rows: int, cols: int, m: nat): (r: seq<Segment>)
    requires Shape(ws, rows, cols) && m <= rows
    ensures |r| == WallCountUpTo(ws, rows, cols, m)
  {
    if m == 0 then [] else SegmentsUpTo(ws, rows, cols, m - 1) + RowSegments(ws, rows, cols, m - 1, cols)
  }

  /** The wall list used for drawing (`generateWallsLocation`): one segment per wall counted. */
  function WallSegments(ws: WallGrid, rows: int, cols: int): (r: seq<Segment>)
    requires Shape(ws, rows, cols)
    ensures |r| == CountWalls(ws, rows, cols)
  {
    SegmentsUpTo(ws, rows, cols, rows)
  }

  /** A freshly built cell at (i, j): its ID and location, all four walls, no item. */
  ghost predicate NewCellAt(c: Cell, i: int, j: int, cols: int)
    reads c
  {
    c.Valid() && c.location == Coord(i, j) && c.id == IdxToId(i, j, cols)
    && c.walls == AllWallsStanding && !c.hasGoldCoin && !c.hasThief
  }

  /** The cells of row `i`, from left to right. */
  method InitializeRow(i: int, cols: int) returns (row: seq<Cell>)
    requires i >= 0 && cols > 0
    ensures |row| == cols
    ensures forall j :: 0 <= j < cols ==> fresh(row[j]) && NewCellAt(row[j], i, j, cols)
  {
    row := [];
    var j := 0;
    while j < cols
      invariant 0 <= j <= cols && |row| == j
      invariant forall j' :: 0 <= j' < j ==> fresh(row[j']) && NewCellAt(row[j'], i, j', cols)
    {
      var id := IdxToId(i, j, cols);
      LocationOfId(i, j, cols);
      var c := new Cell(id, cols);
      row := row + [c];
      j := j + 1;
    }
  }

  /** Builds the grid, every cell with its ID and all four walls, row by row (`initializeGrid`). */
  method InitializeGrid(rows: int, cols: int) returns (grid: seq<seq<Cell>>)
    requires rows > 0 && cols > 0
    ensures WellFormed(grid, rows, cols)
    ensures AllStanding(Walls(grid), rows, cols)
    ensures forall i, j :: 0 <= i < rows && 0 <= j < cols ==> fresh(grid[i][j]) && NewCellAt(grid[i][j], i, j, cols)
  {
    grid := [];
    var i := 0;
    while i < rows
      invariant 0 <= i <= rows && |grid| == i
      invariant forall i' :: 0 <= i' < i ==> |grid[i']| == cols
      invariant forall i', j :: 0 <= i' < i && 0 <= j < cols ==> fresh(grid[i'][j]) && NewCellAt(grid[i'][j], i', j, cols)
    {
      var row := InitializeRow(i, cols);
      grid := grid + [row];
      i := i + 1;
    }
  }
}
