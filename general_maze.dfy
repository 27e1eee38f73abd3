/**
 * The maze as a whole. Construction checks its arguments, builds the grid (all walls up,
 * a perfect maze by Kruskal's algorithm, then the variant's extra removals), places the
 * items, lists the walls for drawing and runs the solver. The game then moves the player
 * through open walls, collecting gold and meeting thieves, until the goal is reached.
 * The three variants differ in the wall budget they accept, in the walls they remove after
 * the perfect maze, and in whether a move across the perimeter wraps around.
 */
module GeneralMazes {
  import opened Directions
  import opened Locations
  import opened MazeHelper
  import opened Cells
  import opened Edges
  import opened Grids
  import opened GridEdges
  import opened DisjointSet
  import opened Kruskal
  import opened Items
  import opened Solver
  import opened Connectivity
  import opened Players
  import RoomMaze
  import WrapRoomMaze

  /** `PerfectMaze`, `RoomMaze` and `WrapRoomMaze`. */
  datatype Kind = Perfect | Room | WrapRoom

  /** The exceptions construction can raise, in the order they are checked or met. */
  datatype MazeError =
    | NonPositiveSize
    | BudgetOutOfRange
    | StartOutsideGrid
    | GoalOutsideGrid
    | NoEdgeToDraw
    | CellOutOfGrid

  datatype Outcome = Built(maze: GeneralMaze) | Failed(error: MazeError)

  /** The variant's `isNumOfRemainingWallsValid`: a perfect maze accepts every budget. */
  predicate IsNumOfRemainingWallsValid(kind: Kind, rows: int, cols: int, remaining: int)
    ensures IsNumOfRemainingWallsValid(kind, rows, cols, remaining) && kind != Perfect && rows > 0 && cols > 0 ==>
      0 <= remaining < MaxRemainingWalls(rows, cols)
  {
    match kind
    case Perfect => true
    case Room => RoomMaze.IsNumOfRemainingWallsValid(rows, cols, remaining)
    case WrapRoom => WrapRoomMaze.IsNumOfRemainingWallsValid(rows, cols, remaining)
  }

  /** `isStartAndGoalInsideGrid` as written: both bounds are checked on the row index. */
  predicate IsStartAndGoalInsideGrid(l: Coord, rows: int, cols: int)
    ensures IsStartAndGoalInsideGrid(l, rows, cols) <==> InGrid(Coord(l.i, l.i), rows, cols)
  {
    var i := l.i;
    var j := l.i;
    i >= 0 && i < rows && j >= 0 && j < cols
  }

  /**
   * The range check never looks at the column: it accepts `l` exactly when its row is
   * inside the grid and also below the number of columns.
   */
  lemma RangeCheckIgnoresColumn(l: Coord, j: int, rows: int, cols: int)
    ensures IsStartAndGoalInsideGrid(Coord(l.i, j), rows, cols) == IsStartAndGoalInsideGrid(l, rows, cols)
    ensures IsStartAndGoalInsideGrid(l, rows, cols) ==> 0 <= l.i < rows
    ensures InGrid(l, rows, cols) && l.i < cols ==> IsStartAndGoalInsideGrid(l, rows, cols)
  {
  }

  /** In a 4 x 6 maze the check accepts (0, 100); in a 6 x 4 maze it rejects the cell (5, 0). */
  lemma RangeCheckExamples()
    ensures !InGrid(Coord(0, 100), 4, 6) && IsStartAndGoalInsideGrid(Coord(0, 100), 4, 6)
    ensures InGrid(Coord(5, 0), 6, 4) && !IsStartAndGoalInsideGrid(Coord(5, 0), 6, 4)
  {
  }

  /** Every argument check of the constructor passes. */
  predicate ArgumentsAccepted(kind: Kind, rows: int, cols: int, remaining: int, start: Coord, goal: Coord)
  {
    rows > 0 && cols > 0 && IsNumOfRemainingWallsValid(kind, rows, cols, remaining)
    && IsStartAndGoalInsideGrid(start, rows, cols) && IsStartAndGoalInsideGrid(goal, rows, cols)
  }

  /**
   * A wrap room maze one cell thin whose budget leaves an odd gap after the perfect maze
   * ends up drawing from an empty edge list.
   */
  predicate WrapDrawsFromEmptyList(kind: Kind, rows: int, cols: int, remaining: int)
  {
    kind == WrapRoom && (rows - 1) * (cols - 1) == 0 && (MaxRemainingWalls(rows, cols) - remaining) % 2 == 1
  }

  /** The IDs `decorateMazeGridWithItems` reserves before placing items. */
  function ReservedIds(start: Coord, goal: Coord, cols: int): set<int>
  {
    {LocationToId(start, cols), LocationToId(goal, cols)}
  }

  /** Room mazes are at least 2 x 2, so their items always fit. */
  lemma RoomMazeItemsFit(rows: int, cols: int, remaining: int, start: Coord, goal: Coord)
    requires rows > 0 && cols > 0 && IsNumOfRemainingWallsValid(Room, rows, cols, remaining)
    ensures ItemsWanted(rows * cols) <= |Free(rows * cols, ReservedIds(start, goal, cols))|
  {
    if rows == 1 || cols == 1 {
      RoomMaze.ThinMazeHasNoBudget(rows, cols, remaining);
    }
    MulLe(2, rows, cols);
    MulLe(2, cols, 2);
    ItemsFitFromFourCells(rows * cols, LocationToId(start, cols), LocationToId(goal, cols));
  }

  /** A 1 x 1 maze passes every check as a perfect maze, but its items can never be placed. */
  lemma OneCellMazeCannotPlaceItems(start: Coord, goal: Coord)
    requires ArgumentsAccepted(Perfect, 1, 1, MaxRemainingWalls(1, 1), start, goal)
    ensures start.i == 0 && goal.i == 0
    ensures ItemsWanted(1) > |Free(1, ReservedIds(start, goal, 1))|
  {
    assert IsStartAndGoalInsideGrid(start, 1, 1) && IsStartAndGoalInsideGrid(goal, 1, 1);
    OneCellHasNoRoom(LocationToId(start, 1), LocationToId(goal, 1));
  }

  /** `generateInnerEdgeList`: for each cell in row-major order, its EAST edge, then its SOUTH edge. */
  method GenerateInnerEdgeList(rows: int, cols: int) returns (innerEdgeList: seq<Edge>)
    ensures rows > 0 && cols > 0 ==> innerEdgeList == InnerEdges(rows, cols)
    ensures rows <= 0 || cols <= 0 ==> innerEdgeList == []
  {
    innerEdgeList := [];
    var i: nat := 0;
    while i < rows
      invariant 0 <= i && (i <= rows || i == 0)
      invariant cols > 0 ==> innerEdgeList == InnerEdgesUpTo(rows, cols, i)
      invariant cols <= 0 ==> innerEdgeList == []
      decreases rows - i
    {
      innerEdgeList := AddRowInnerEdges(innerEdgeList, rows, cols, i);
      i := i + 1;
    }
    assert rows > 0 ==> i == rows;
  }

  /** The inner loop of `generateInnerEdgeList`: the EAST and SOUTH edges of the cells of row `i`. */
  method AddRowInnerEdges(edges: seq<Edge>, rows: int, cols: int, i: int) returns (edges': seq<Edge>)
    ensures cols > 0 ==> edges' == edges + RowInnerEdges(rows, cols, i, cols)
    ensures cols <= 0 ==> edges' == edges
  {
    edges' := edges;
    var j: nat := 0;
    while j < cols
      invariant 0 <= j && (j <= cols || j == 0)
      invariant cols > 0 ==> edges' == edges + RowInnerEdges(rows, cols, i, j)
      invariant cols <= 0 ==> edges' == edges
      decreases cols - j
    {
      var id := IdxToId(i, j, cols);
      ghost var before := edges';
      if j != cols - 1 {
        edges' := edges' + [Edge(id, IdxToId(i, j + 1, cols))];
      }
      if i != rows - 1 {
        edges' := edges' + [Edge(id, IdxToId(i + 1, j, cols))];
      }
      assert edges' == before + CellInnerEdges(rows, cols, i, j);
      ConcatAssoc(edges, RowInnerEdges(rows, cols, i, j), CellInnerEdges(rows, cols, i, j));
      j := j + 1;
    }
    assert cols > 0 ==> j == cols;
  }

  /** The inner edge list has `R*(C-1) + C*(R-1)` distinct edges, exactly the neighbour pairs. */
  lemma InnerEdgeListShape(rows: int, cols: int)
    requires rows > 0 && cols > 0
    ensures |InnerEdges(rows, cols)| == rows * (cols - 1) + cols * (rows - 1)
    ensures Distinct(InnerEdges(rows, cols))
    ensures forall e :: e in InnerEdges(rows, cols) <==> Inner(e, rows, cols)
  {
    InnerEdgesLength(rows, cols);
    InnerEdgesDistinct(rows, cols);
    InnerEdgesMembers(rows, cols);
  }

  /**
   * `makeGridConnectedUsingKruskalAlgorithm`: a perfect maze by Kruskal's algorithm, then the
   * variant's `continueRemoveWalls`. The wall count ends at the budget, except in a wrap room
   * maze of one row, only the wrap room maze takes down perimeter walls, and every cell can
   * be reached from every other through torn walls.
   */
  method MakeGridConnected(kind: Kind, numOfRemainingWalls: int, grid: seq<seq<Cell>>, rows: int, cols: int)
    returns (ok: bool, ghost ws: WallGrid)
    requires WellFormed(grid, rows, cols) && AllStanding(Walls(grid), rows, cols)
    requires IsNumOfRemainingWallsValid(kind, rows, cols, numOfRemainingWalls)
    requires kind == Perfect ==> numOfRemainingWalls == MaxRemainingWalls(rows, cols)
    modifies CellsOf(grid)`walls
    ensures WellFormed(grid, rows, cols) && Shape(ws, rows, cols) && Mirrors(grid, ws, rows, cols)
    ensures !ok <==> WrapDrawsFromEmptyList(kind, rows, cols, numOfRemainingWalls)
    ensures ok && (kind != WrapRoom || rows >= 2) ==> CountWalls(ws, rows, cols) == numOfRemainingWalls
    ensures kind != WrapRoom ==> BorderStanding(ws, rows, cols)
    ensures Connected(ws, rows, cols)
  {
    var innerEdgeList := GenerateInnerEdgeList(rows, cols);
    MulLe(1, rows, cols);
    var parent := MakeSet(rows * cols);
    var remained, innerList := CreatePerfectMazeGrid(TotalWalls(rows, cols), innerEdgeList, grid, rows, cols, parent);
    WellFormedShape(grid, rows, cols);
    RoomMaze.PerfectMazeIsRoomState(Walls(grid), rows, cols, remained, innerList);
    ok := ContinueRemoveWalls(kind, numOfRemainingWalls, remained, innerList, grid, rows, cols);
    ws := Walls(grid);
    MirrorsWalls(grid, ws, rows, cols);
  }

  /**
   * `continueRemoveWalls` of each variant: nothing for a perfect maze, the room maze's and the
   * wrap room maze's own loops for the others. Walls only come down, so the grid stays connected.
   */
  method ContinueRemoveWalls(kind: Kind, numOfRemainingWalls: int, remainedWalls: int, innerList: seq<Edge>,
                             grid: seq<seq<Cell>>, rows: int, cols: int)
    returns (ok: bool)
    requires WellFormed(grid, rows, cols) && RoomMaze.RoomState(Walls(grid), rows, cols, remainedWalls, innerList)
    requires remainedWalls == MaxRemainingWalls(rows, cols)
    requires IsNumOfRemainingWallsValid(kind, rows, cols, numOfRemainingWalls)
    requires kind == Perfect ==> numOfRemainingWalls == MaxRemainingWalls(rows, cols)
    requires Connected(Walls(grid), rows, cols)
    modifies CellsOf(grid)`walls
    ensures WellFormed(grid, rows, cols) && Shape(Walls(grid), rows, cols)
    ensures !ok <==> WrapDrawsFromEmptyList(kind, rows, cols, numOfRemainingWalls)
    ensures ok && (kind != WrapRoom || rows >= 2) ==> CountWalls(Walls(grid), rows, cols) == numOfRemainingWalls
    ensures kind != WrapRoom ==> BorderStanding(Walls(grid), rows, cols)
    ensures kind == Perfect ==> unchanged(CellsOf(grid))
    ensures Connected(Walls(grid), rows, cols)
  {
    match kind
    case Perfect =>
      ok := true;
    case Room =>
      ok := true;
      var rest := RoomMaze.ContinueRemoveWalls(numOfRemainingWalls, remainedWalls, innerList, grid, rows, cols);
      WellFormedShape(grid, rows, cols);
    case WrapRoom =>
      var rest;
      ok, rest := WrapRoomMaze.ContinueRemoveWalls(numOfRemainingWalls, remainedWalls, innerList, grid, rows, cols);
      WellFormedShape(grid, rows, cols);
  }

  lemma ConcatAssoc<T>(a: seq<T>, b: seq<T>, c: seq<T>)
    ensures a + b + c == a + (b + c)
  {
  }

  /** One cell's turn in `generateWallsLocation`: its walls in the order NORTH, WEST, SOUTH, EAST. */
  method AddCellWalls(walls: seq<Segment>, w: map<Direction, bool>, rows: int, cols: int, i: int, j: int)
    returns (walls': seq<Segment>)
    requires Complete(w)
    ensures walls' == walls + CellSegments(w, rows, cols, i, j)
  {
    var location := Coord(i, j);
    ghost var n := if w[North] then [FindWallStartAndEndPoint(North, location)] else [];
    ghost var we := if w[West] then [FindWallStartAndEndPoint(West, location)] else [];
    ghost var s := if i == rows - 1 && w[South] then [FindWallStartAndEndPoint(South, location)] else [];
    ghost var e := if j == cols - 1 && w[East] then [FindWallStartAndEndPoint(East, location)] else [];
    walls' := walls;
    if w[North] {
      walls' := walls' + [FindWallStartAndEndPoint(North, location)];
    }
    assert walls' == walls + n;
    if w[West] {
      walls' := walls' + [FindWallStartAndEndPoint(West, location)];
    }
    ConcatAssoc(walls, n, we);
    assert walls' == walls + (n + we);
    if i == rows - 1 && w[South] {
      walls' := walls' + [FindWallStartAndEndPoint(South, location)];
    }
    ConcatAssoc(walls, n + we, s);
    assert walls' == walls + (n + we + s);
    if j == cols - 1 && w[East] {
      walls' := walls' + [FindWallStartAndEndPoint(East, location)];
    }
    ConcatAssoc(walls, n + we + s, e);
  }

  /** One row's turn in `generateWallsLocation`: the segments of the first `i + 1` rows. */
  method AddRowWalls(walls: seq<Segment>, ws: WallGrid, rows: int, cols: int, i: nat) returns (walls': seq<Segment>)
    requires Shape(ws, rows, cols) && i < rows
    requires walls == SegmentsUpTo(ws, rows, cols, i)
    ensures walls' == SegmentsUpTo(ws, rows, cols, i + 1)
  {
    walls' := walls;
    var j: nat := 0;
    while j < cols
      invariant j <= cols
      invariant walls' == walls + RowSegments(ws, rows, cols, i, j)
      decreases cols - j
    {
      walls' := AddCellWalls(walls', ws[i][j], rows, cols, i, j);
      ConcatAssoc(walls, RowSegments(ws, rows, cols, i, j), CellSegments(ws[i][j], rows, cols, i, j));
      j := j + 1;
    }
    assert j == cols;
  }

  /**
   * `generateWallsLocation`: the segment of every wall counted by `countRemainedWalls`, in the
   * same order (row by row; NORTH, WEST, then SOUTH on the last row and EAST on the last column).
   * `ws` holds the wall maps of the grid's cells (`Walls(grid)`); nothing changes them while
   * the list is built.
   */
  method GenerateWallsLocation(ws: WallGrid, rows: int, cols: int) returns (walls: seq<Segment>)
    requires Shape(ws, rows, cols)
    ensures walls == WallSegments(ws, rows, cols)
  {
    walls := [];
    var i: nat := 0;
    while i < rows
      invariant i <= rows
      invariant walls == SegmentsUpTo(ws, rows, cols, i)
      decreases rows - i
    {
      walls := AddRowWalls(walls, ws, rows, cols, i);
      i := i + 1;
    }
    assert i == rows;
  }

  /** The loops of `countRemainedWalls`: each wall counted once, as `CountWalls` does. */
  method CountGridWalls(grid: seq<seq<Cell>>, rows: int, cols: int, ghost ws: WallGrid) returns (count: int)
    requires WellFormed(grid, rows, cols) && Shape(ws, rows, cols) && Mirrors(grid, ws, rows, cols)
    ensures count == CountWalls(ws, rows, cols)
  {
    count := 0;
    var i: nat := 0;
    while i < rows
      invariant 0 <= i <= rows
      invariant count == WallCountUpTo(ws, rows, cols, i)
      decreases rows - i
    {
      var j: nat := 0;
      while j < cols
        invariant 0 <= j <= cols
        invariant count == WallCountUpTo(ws, rows, cols, i) + RowWallCount(ws, rows, cols, i, j)
        decreases cols - j
      {
        var c := grid[i][j];
        if c.walls[North] {
          count := count + 1;
        }
        if c.walls[West] {
          count := count + 1;
        }
        if i == rows - 1 && c.walls[South] {
          count := count + 1;
        }
        if j == cols - 1 && c.walls[East] {
          count := count + 1;
        }
        j := j + 1;
      }
      assert j == cols;
      i := i + 1;
    }
    assert i == rows;
  }

  /**
   * `generateGrid`: a grid of fresh cells, connected by Kruskal's algorithm and the variant's
   * extra removals, then decorated with gold coins and thieves. `ok` is false when the wrap
   * room maze draws from an empty edge list; the grid is then left undecorated.
   */
  method GenerateGrid(kind: Kind, rows: int, cols: int, numOfRemainingWalls: int, start: Coord, goal: Coord)
    returns (ok: bool, grid: seq<seq<Cell>>, ghost ws: WallGrid, ghost goldIds: set<int>, ghost thiefIds: set<int>)
    requires rows > 0 && cols > 0 && IsNumOfRemainingWallsValid(kind, rows, cols, numOfRemainingWalls)
    requires kind == Perfect ==> numOfRemainingWalls == MaxRemainingWalls(rows, cols)
    requires !WrapDrawsFromEmptyList(kind, rows, cols, numOfRemainingWalls) ==>
      ItemsWanted(rows * cols) <= |Free(rows * cols, ReservedIds(start, goal, cols))|
    ensures !ok <==> WrapDrawsFromEmptyList(kind, rows, cols, numOfRemainingWalls)
    ensures ok ==> WellFormed(grid, rows, cols) && Shape(ws, rows, cols) && Mirrors(grid, ws, rows, cols)
    ensures ok && (kind != WrapRoom || rows >= 2) ==> CountWalls(ws, rows, cols) == numOfRemainingWalls
    ensures ok && kind != WrapRoom ==> BorderStanding(ws, rows, cols)
    ensures ok ==> Connected(ws, rows, cols)
    ensures ok ==> ItemIdsChosen(goldIds, thiefIds, rows * cols, ReservedIds(start, goal, cols))
    ensures ok ==> fresh(CellsOf(grid))
    ensures ok ==> ItemsPlaced(grid, rows, cols, goldIds, thiefIds)
  {
    goldIds, thiefIds := {}, {};
    ok, grid, ws := ConnectedGrid(kind, rows, cols, numOfRemainingWalls);
    if !ok {
      return;
    }
    goldIds, thiefIds := DecorateMazeGridWithItems(grid, rows, cols, start, goal);
  }

  /** The first half of `generateGrid`: fresh cells with no items, connected as `MakeGridConnected` says. */
  method ConnectedGrid(kind: Kind, rows: int, cols: int, numOfRemainingWalls: int)
    returns (ok: bool, grid: seq<seq<Cell>>, ghost ws: WallGrid)
    requires rows > 0 && cols > 0 && IsNumOfRemainingWallsValid(kind, rows, cols, numOfRemainingWalls)
    requires kind == Perfect ==> numOfRemainingWalls == MaxRemainingWalls(rows, cols)
    ensures !ok <==> WrapDrawsFromEmptyList(kind, rows, cols, numOfRemainingWalls)
    ensures WellFormed(grid, rows, cols) && Shape(ws, rows, cols) && Mirrors(grid, ws, rows, cols)
    ensures ok && (kind != WrapRoom || rows >= 2) ==> CountWalls(ws, rows, cols) == numOfRemainingWalls
    ensures kind != WrapRoom ==> BorderStanding(ws, rows, cols)
    ensures Connected(ws, rows, cols)
    ensures fresh(CellsOf(grid))
    ensures FreeCellsEmpty(grid, rows, cols, {})
  {
    grid := InitializeGrid(rows, cols);
    assert FreeCellsEmpty(grid, rows, cols, {});
    ok, ws := MakeGridConnected(kind, numOfRemainingWalls, grid, rows, cols);
  }

  /**
   * `m` is the maze asked for: the arguments stored, a player with no gold on the start,
   * the budget of walls met (a one-row wrap room maze aside), the perimeter standing unless
   * moves wrap around, every cell reachable from every other, the wall list of the grid, and
   * a path walked back from the goal, empty only when the goal lies outside the grid.
   */
  ghost predicate Describes(m: GeneralMaze, kind: Kind, rows: int, cols: int, numOfRemainingWalls: int,
                            start: Coord, goal: Coord)
    reads m, m.player, m.player.location, CellsOf(m.grid)
  {
    m.Valid()
    && m.kind == kind && m.numOfRows == rows && m.numOfCols == cols
    && m.numOfRemainingWalls == numOfRemainingWalls && m.numOfCells == rows * cols
    && m.startLocation == start && m.goalLocation == goal
    && m.player.location.Value() == start && m.player.gold == 0
    && ((kind != WrapRoom || rows >= 2) ==> CountWalls(m.wallGrid, rows, cols) == numOfRemainingWalls)
    && (kind != WrapRoom ==> BorderStanding(m.wallGrid, rows, cols))
    && Connected(m.wallGrid, rows, cols)
    && m.wallsLocation == WallSegments(m.wallGrid, rows, cols)
    && (m.solveLocation != [] ==> m.solveLocation[0] == goal && m.solveLocation[|m.solveLocation| - 1] == start)
    && (m.solveLocation == [] <==> start != goal && !InGrid(goal, rows, cols))
    && WalksBack(m.wallGrid, rows, cols, kind == WrapRoom, goal, m.solveLocation, 0)
  }

  /**
   * The constructor of `GeneralMaze`: the argument checks in the source's order, then the
   * maze is built. A perfect maze is built with the budget `MaxRemainingWalls`. Placing the
   * items loops forever in the source when too few cells are free; that is the second
   * precondition.
   */
  method NewMaze(kind: Kind, rows: int, cols: int, numOfRemainingWalls: int, start: Coord, goal: Coord)
    returns (r: Outcome, ghost goldIds: set<int>, ghost thiefIds: set<int>)
    requires kind == Perfect ==> numOfRemainingWalls == MaxRemainingWalls(rows, cols)
    requires (ArgumentsAccepted(kind, rows, cols, numOfRemainingWalls, start, goal)
              && !WrapDrawsFromEmptyList(kind, rows, cols, numOfRemainingWalls)) ==>
      ItemsWanted(rows * cols) <= |Free(rows * cols, ReservedIds(start, goal, cols))|
    ensures r == Failed(NonPositiveSize) <==> rows <= 0 || cols <= 0
    ensures r == Failed(BudgetOutOfRange) <==>
      rows > 0 && cols > 0 && !IsNumOfRemainingWallsValid(kind, rows, cols, numOfRemainingWalls)
    ensures r == Failed(StartOutsideGrid) <==>
      rows > 0 && cols > 0 && IsNumOfRemainingWallsValid(kind, rows, cols, numOfRemainingWalls)
      && !IsStartAndGoalInsideGrid(start, rows, cols)
    ensures r == Failed(GoalOutsideGrid) <==>
      rows > 0 && cols > 0 && IsNumOfRemainingWallsValid(kind, rows, cols, numOfRemainingWalls)
      && IsStartAndGoalInsideGrid(start, rows, cols) && !IsStartAndGoalInsideGrid(goal, rows, cols)
    ensures r == Failed(NoEdgeToDraw) <==>
      ArgumentsAccepted(kind, rows, cols, numOfRemainingWalls, start, goal)
      && WrapDrawsFromEmptyList(kind, rows, cols, numOfRemainingWalls)
    ensures r == Failed(CellOutOfGrid) <==>
      ArgumentsAccepted(kind, rows, cols, numOfRemainingWalls, start, goal)
      && !WrapDrawsFromEmptyList(kind, rows, cols, numOfRemainingWalls)
      && start != goal && !InGrid(start, rows, cols)
    ensures r.Built? ==>
      fresh(r.maze) && fresh(r.maze.player) && fresh(r.maze.player.location)
      && Describes(r.maze, kind, rows, cols, numOfRemainingWalls, start, goal)
    ensures r.Built? ==>
      ItemIdsChosen(goldIds, thiefIds, rows * cols, ReservedIds(start, goal, cols))
      && fresh(CellsOf(r.maze.grid))
      && ItemsPlaced(r.maze.grid, rows, cols, goldIds, thiefIds)
  {
    goldIds, thiefIds := {}, {};
    if rows <= 0 || cols <= 0 {
      r := Failed(NonPositiveSize);
      return;
    }
    if !IsNumOfRemainingWallsValid(kind, rows, cols, numOfRemainingWalls) {
      r := Failed(BudgetOutOfRange);
      return;
    }
    if !IsStartAndGoalInsideGrid(start, rows, cols) {
      r := Failed(StartOutsideGrid);
      return;
    }
    if !IsStartAndGoalInsideGrid(goal, rows, cols) {
      r := Failed(GoalOutsideGrid);
      return;
    }
    r, goldIds, thiefIds := BuildMaze(kind, rows, cols, numOfRemainingWalls, start, goal);
  }

  /**
   * The constructor of `GeneralMaze` past its checks: the player on the start, the grid with
   * its items, the solver's path, then the maze with its wall list. It fails where
   * the wrap room maze draws from an empty edge list, or where the solver looks up a start
   * outside the grid.
   */
  method BuildMaze(kind: Kind, rows: int, cols: int, numOfRemainingWalls: int, start: Coord, goal: Coord)
    returns (r: Outcome, ghost goldIds: set<int>, ghost thiefIds: set<int>)
    requires ArgumentsAccepted(kind, rows, cols, numOfRemainingWalls, start, goal)
    requires kind == Perfect ==> numOfRemainingWalls == MaxRemainingWalls(rows, cols)
    requires !WrapDrawsFromEmptyList(kind, rows, cols, numOfRemainingWalls) ==>
      ItemsWanted(rows * cols) <= |Free(rows * cols, ReservedIds(start, goal, cols))|
    ensures r.Failed? ==> r == Failed(NoEdgeToDraw) || r == Failed(CellOutOfGrid)
    ensures r == Failed(NoEdgeToDraw) <==> WrapDrawsFromEmptyList(kind, rows, cols, numOfRemainingWalls)
    ensures r == Failed(CellOutOfGrid) <==>
      !WrapDrawsFromEmptyList(kind, rows, cols, numOfRemainingWalls) && start != goal && !InGrid(start, rows, cols)
    ensures r.Built? ==>
      fresh(r.maze) && fresh(r.maze.player) && fresh(r.maze.player.location)
      && Describes(r.maze, kind, rows, cols, numOfRemainingWalls, start, goal)
    ensures r.Built? ==>
      ItemIdsChosen(goldIds, thiefIds, rows * cols, ReservedIds(start, goal, cols))
      && fresh(CellsOf(r.maze.grid))
      && ItemsPlaced(r.maze.grid, rows, cols, goldIds, thiefIds)
  {
    var location := new Location(start.i, start.j);
    var player := new Player(location);
    var connected, grid;
    ghost var ws;
    connected, grid, ws, goldIds, thiefIds := GenerateGrid(kind, rows, cols, numOfRemainingWalls, start, goal);
    if !connected {
      r := Failed(NoEdgeToDraw);
      return;
    }
    r := AssembleMaze(kind, rows, cols, numOfRemainingWalls, grid, player, start, goal, ws);
    assert ItemsPlaced(grid, rows, cols, goldIds, thiefIds);
  }

  /**
   * The rest of the constructor once the player is on the start and the grid is generated
   * (its walls are `ws`): the solver's path, then the maze.
   */
  method AssembleMaze(kind: Kind, rows: int, cols: int, numOfRemainingWalls: int, grid: seq<seq<Cell>>,
                      player: Player, start: Coord, goal: Coord, ghost ws: WallGrid)
    returns (r: Outcome)
    requires WellFormed(grid, rows, cols) && Shape(ws, rows, cols) && Mirrors(grid, ws, rows, cols)
    requires Closed(ws, rows, cols, kind == WrapRoom) && Connected(ws, rows, cols)
    requires player.Valid() && player.location.Value() == start && player.gold == 0
    ensures r.Failed? ==> r == Failed(CellOutOfGrid)
    ensures r.Failed? <==> start != goal && !InGrid(start, rows, cols)
    ensures r.Built? ==>
      fresh(r.maze) && r.maze.player == player
      && r.maze.grid == grid && r.maze.wallGrid == ws && r.maze.Valid()
      && r.maze.kind == kind && r.maze.numOfRows == rows && r.maze.numOfCols == cols
      && r.maze.numOfRemainingWalls == numOfRemainingWalls && r.maze.numOfCells == rows * cols
      && r.maze.startLocation == start && r.maze.goalLocation == goal
      && r.maze.player.location.Value() == start && r.maze.player.gold == 0
      && r.maze.wallsLocation == WallSegments(ws, rows, cols)
      && (r.maze.solveLocation != [] ==>
            r.maze.solveLocation[0] == goal && r.maze.solveLocation[|r.maze.solveLocation| - 1] == start)
      && (r.maze.solveLocation == [] <==> start != goal && !InGrid(goal, rows, cols))
      && WalksBack(ws, rows, cols, kind == WrapRoom, goal, r.maze.solveLocation, 0)
  {
    MirrorsWalls(grid, ws, rows, cols);
    var solved, solveLocation := SolveByDfs(grid, rows, cols, kind == WrapRoom, start, goal);
    if !solved {
      r := Failed(CellOutOfGrid);
      return;
    }
    assert Mirrors(grid, ws, rows, cols);
    MirrorsWalls(grid, ws, rows, cols);
    var maze := new GeneralMaze(kind, rows, cols, numOfRemainingWalls, grid, player, start, goal, solveLocation);
    r := Built(maze);
  }

  /**
   * The `PerfectMaze` constructor: the budget is `MaxRemainingWalls`, so no budget is
   * rejected and the finished maze keeps `R*C + R + C + 1` walls.
   */
  method NewPerfectMaze(rows: int, cols: int, start: Coord, goal: Coord) returns (r: Outcome)
    requires ArgumentsAccepted(Perfect, rows, cols, MaxRemainingWalls(rows, cols), start, goal) ==>
      ItemsWanted(rows * cols) <= |Free(rows * cols, ReservedIds(start, goal, cols))|
    ensures r != Failed(BudgetOutOfRange) && r != Failed(NoEdgeToDraw)
    ensures r.Built? ==>
      fresh(r.maze) && r.maze.Valid() && r.maze.numOfRows == rows && r.maze.numOfCols == cols
      && CountWalls(r.maze.wallGrid, rows, cols) == rows * cols + rows + cols + 1
      && BorderStanding(r.maze.wallGrid, rows, cols)
  {
    ghost var goldIds, thiefIds;
    r, goldIds, thiefIds := NewMaze(Perfect, rows, cols, MaxRemainingWalls(rows, cols), start, goal);
  }

  /**
   * A maze being played. The grid and everything computed at construction stay fixed; the
   * player's position and gold, and the gold coins of the cells, change as the player moves.
   */
  class GeneralMaze {
    const kind: Kind
    const numOfRows: int
    const numOfCols: int
    const numOfRemainingWalls: int
    const numOfCells: int
    const grid: seq<seq<Cell>>
    const player: Player
    const startLocation: Coord
    const goalLocation: Coord
    const wallsLocation: seq<Segment>
    const solveLocation: seq<Coord>
    /** The wall maps of the cells, which nothing changes once the maze is built. */
    ghost const wallGrid: WallGrid

    /**
     * The grid is well formed and closed (its perimeter stands, or moves across it wrap
     * around), the gold count is not negative, and the player stands on a cell of the grid
     * unless it stands on the goal.
     */
    ghost predicate Valid()
      reads this, player, player.location, CellsOf(grid)
    {
      WellFormed(grid, numOfRows, numOfCols) && numOfCells == numOfRows * numOfCols
      && Shape(wallGrid, numOfRows, numOfCols) && Mirrors(grid, wallGrid, numOfRows, numOfCols)
      && Closed(wallGrid, numOfRows, numOfCols, kind == WrapRoom)
      && player.Valid()
      && (InGrid(player.location.Value(), numOfRows, numOfCols) || player.location.Value() == goalLocation)
    }

    /**
     * Stores the grid, the player (on a cell of the grid, or on the goal) and the solver's
     * path, and lists the grid's walls.
     */
    constructor (kind: Kind, rows: int, cols: int, numOfRemainingWalls: int, grid: seq<seq<Cell>>,
                 player: Player, start: Coord, goal: Coord, solveLocation: seq<Coord>)
      requires WellFormed(grid, rows, cols) && Closed(Walls(grid), rows, cols, kind == WrapRoom)
      requires player.Valid() && (InGrid(player.location.Value(), rows, cols) || player.location.Value() == goal)
      ensures Valid()
      ensures this.kind == kind && numOfRows == rows && numOfCols == cols
      ensures this.numOfRemainingWalls == numOfRemainingWalls && numOfCells == rows * cols
      ensures this.grid == grid && this.player == player
      ensures startLocation == start && goalLocation == goal
      ensures wallGrid == old(Walls(grid))
      ensures wallsLocation == WallSegments(wallGrid, rows, cols) && this.solveLocation == solveLocation
    {
      var walls := Walls(grid);
      wallGrid := walls;
      WellFormedShape(grid, rows, cols);
      MirrorsWalls(grid, walls, rows, cols);
      var segments := GenerateWallsLocation(walls, rows, cols);
      this.player := player;
      this.kind := kind;
      numOfRows := rows;
      numOfCols := cols;
      this.numOfRemainingWalls := numOfRemainingWalls;
      numOfCells := rows * cols;
      this.grid := grid;
      startLocation := start;
      goalLocation := goal;
      wallsLocation := segments;
      this.solveLocation := solveLocation;
      new;
      assert Mirrors(grid, walls, rows, cols);
    }

    /** The game is over when the player's position equals the goal. */
    predicate IsGameOver()
      reads this, player, player.location
    {
      player.location.Value() == goalLocation
    }

    /** `produceNextPossibleMove`: none once the game is over, else the open sides of the player's cell. */
    method ProduceNextPossibleMove() returns (moves: seq<Direction>)
      requires Valid()
      ensures IsGameOver() ==> moves == []
      ensures !IsGameOver() ==>
        var c := player.location.Value();
        moves == OpenDirections(grid[c.i][c.j].walls) && forall d :: d in moves <==> !grid[c.i][c.j].walls[d]
    {
      if IsGameOver() {
        return [];
      }
      var i, j := player.GetLocation().GetI(), player.GetLocation().GetJ();
      moves := grid[i][j].FindNoWallDirection();
      OpenDirectionsSpec(grid[i][j].walls);
    }

    /** `countRemainedWalls`: the number of walls standing in the grid. */
    method CountRemainedWalls() returns (count: int)
      requires Valid()
      ensures count == CountWalls(wallGrid, numOfRows, numOfCols)
    {
      count := CountGridWalls(grid, numOfRows, numOfCols, wallGrid);
    }

    /**
     * `updatePlayerAndGridAfterGoldCollection`: a coin on the player's cell is collected and
     * removed; otherwise a thief there takes a tenth of the gold.
     */
    method UpdatePlayerAndGridAfterGoldCollection()
      requires Valid() && InGrid(player.location.Value(), numOfRows, numOfCols)
      modifies player, CellsOf(grid)
      ensures Valid()
      ensures var c := player.location.Value();
        if old(grid[c.i][c.j].hasGoldCoin) then player.gold == old(player.gold) + 1
        else if grid[c.i][c.j].hasThief then player.gold == GoldAfterTheft(old(player.gold))
        else player.gold == old(player.gold)
      ensures forall i, j :: 0 <= i < numOfRows && 0 <= j < numOfCols ==>
        grid[i][j].walls == old(grid[i][j].walls) && grid[i][j].hasThief == old(grid[i][j].hasThief)
        && grid[i][j].hasGoldCoin == (old(grid[i][j].hasGoldCoin) && Coord(i, j) != player.location.Value())
    {
      var i, j := player.GetLocation().GetI(), player.GetLocation().GetJ();
      var c := grid[i][j];
      if c.hasGoldCoin {
        player.CollectGold();
        var cleared := c.SetHasGoldCoin(false);
      } else if c.hasThief {
        player.LoseGold();
      }
    }

    /**
     * `movePlayer`. Once the game is over nothing changes. A move toward a standing wall is
     * refused (`ok` is false, the source's `IllegalArgumentException`) and changes nothing.
     * Otherwise the player steps to the neighbour, across the perimeter in a wrap room maze,
     * and collects the coin there or meets the thief there.
     */
    method MovePlayer(d: Direction) returns (ok: bool)
      requires Valid()
      modifies player, player.location, CellsOf(grid)
      ensures Valid()
      ensures forall i, j :: 0 <= i < numOfRows && 0 <= j < numOfCols ==>
        grid[i][j].walls == old(grid[i][j].walls) && grid[i][j].hasThief == old(grid[i][j].hasThief)
      ensures old(IsGameOver()) ==> ok
      ensures !old(IsGameOver()) ==>
        var here := old(player.location.Value());
        ok <==> !old(grid[here.i][here.j].walls[d])
      ensures !ok || old(IsGameOver()) ==>
        player.location.Value() == old(player.location.Value()) && player.gold == old(player.gold)
        && forall i, j :: 0 <= i < numOfRows && 0 <= j < numOfCols ==> grid[i][j].hasGoldCoin == old(grid[i][j].hasGoldCoin)
      ensures ok && !old(IsGameOver()) ==>
        var there := NextInSolve(kind == WrapRoom, numOfRows, numOfCols, old(player.location.Value()), d);
        player.location.Value() == there && InGrid(there, numOfRows, numOfCols)
        && (if old(grid[there.i][there.j].hasGoldCoin) then player.gold == old(player.gold) + 1
            else if grid[there.i][there.j].hasThief then player.gold == GoldAfterTheft(old(player.gold))
            else player.gold == old(player.gold))
        && forall i, j :: 0 <= i < numOfRows && 0 <= j < numOfCols ==>
             grid[i][j].hasGoldCoin == (old(grid[i][j].hasGoldCoin) && Coord(i, j) != there)
    {
      if IsGameOver() {
        return true;
      }
      var moves := ProduceNextPossibleMove();
      if d !in moves {
        return false;
      }
      StepPlayer(d);
      UpdatePlayerAndGridAfterGoldCollection();
      ok := true;
    }

    /** The player steps through the open side `d` of its cell, across the perimeter in a wrap room maze. */
    method StepPlayer(d: Direction)
      requires Valid() && !IsGameOver()
      requires var c := player.location.Value(); !grid[c.i][c.j].walls[d]
      modifies player.location
      ensures Valid()
      ensures var there := NextInSolve(kind == WrapRoom, numOfRows, numOfCols, old(player.location.Value()), d);
        player.location.Value() == there && InGrid(there, numOfRows, numOfCols)
    {
      ghost var here := player.location.Value();
      if kind == WrapRoom {
        WrapRoomMaze.MovePlayerToNextCell(player, numOfRows, numOfCols, d);
      } else {
        player.Move(d);
      }
      OpenMoveStaysInGrid(wallGrid, numOfRows, numOfCols, kind == WrapRoom, here, d);
    }
  }
}
