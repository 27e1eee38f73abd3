/**
 * Tearing down the wall pair between the two cells of an inner edge, as wall maps and on the
 * cells themselves, and the effect of that on the wall count and on the other edges' walls.
 */
module Tearing {
  import opened Directions
  import opened Locations
  import opened MazeHelper
  import opened Cells
  import opened Edges
  import opened Grids
  import opened GridEdges

  function Abs(x: int): nat
  {
    if x < 0 then -x else x
  }

  /** Both walls an inner edge owns are standing. */
  predicate WallsStand(ws: WallGrid, e: Edge, rows: int, cols: int)
    requires Shape(ws, rows, cols) && Inner(e, rows, cols)
  {
    var s, d := Src(e, cols), Dst(e, cols);
    if Horizontal(e, rows, cols) then ws[s.i][s.j][East] && ws[d.i][d.j][West]
    else ws[s.i][s.j][South] && ws[d.i][d.j][North]
  }

  /** Both walls an inner edge owns are down. */
  predicate WallsDown(ws: WallGrid, e: Edge, rows: int, cols: int)
    requires Shape(ws, rows, cols) && Inner(e, rows, cols)
  {
    var s, d := Src(e, cols), Dst(e, cols);
    if Horizontal(e, rows, cols) then !ws[s.i][s.j][East] && !ws[d.i][d.j][West]
    else !ws[s.i][s.j][South] && !ws[d.i][d.j][North]
  }

  /** Tears down the wall on side `da` of cell `a`, then the wall on side `db` of cell `b`. */
  function TearPair(ws: WallGrid, rows: int, cols: int, a: Coord, da: Direction, b: Coord, db: Direction): (r: WallGrid)
    requires Shape(ws, rows, cols) && InGrid(a, rows, cols) && InGrid(b, rows, cols)
    ensures Shape(r, rows, cols)
    ensures !r[a.i][a.j][da] && !r[b.i][b.j][db]
    ensures forall i, j, d ::
              0 <= i < rows && 0 <= j < cols && !(Coord(i, j) == a && d == da) && !(Coord(i, j) == b && d == db)
              ==> r[i][j][d] == ws[i][j][d]
  {
    var ws1 := UpdateCell(ws, a.i, a.j, TornDown(ws[a.i][a.j], da));
    UpdateCell(ws1, b.i, b.j, TornDown(ws1[b.i][b.j], db))
  }

  /**
   * The walls after `tearDownInnerWall(sourceID, destID)`: EAST of the source and WEST of the
   * destination when their columns differ by one, otherwise SOUTH and NORTH when their rows
   * differ by one, otherwise nothing.
   */
  function TearInnerResult(ws: WallGrid, rows: int, cols: int, sourceId: int, destId: int): (r: WallGrid)
    requires Shape(ws, rows, cols)
    requires InGrid(IdToLocation(sourceId, cols), rows, cols) && InGrid(IdToLocation(destId, cols), rows, cols)
    ensures Shape(r, rows, cols)
  {
    var s, d := IdToLocation(sourceId, cols), IdToLocation(destId, cols);
    if Abs(s.j - d.j) == 1 then TearPair(ws, rows, cols, s, East, d, West)
    else if Abs(s.i - d.i) == 1 then TearPair(ws, rows, cols, s, South, d, North)
    else ws
  }

  /** Both cells of an inner edge lie in the grid. */
  lemma InnerEndsInGrid(e: Edge, rows: int, cols: int)
    requires cols > 0 && Inner(e, rows, cols)
    ensures InGrid(Src(e, cols), rows, cols) && InGrid(Dst(e, cols), rows, cols)
  {
  }

  /** The walls an edge owns are owned by no other inner edge. */
  lemma {:induction false} OwnedWallsDisjoint(e: Edge, e': Edge, rows: int, cols: int)
    requires cols > 0 && Inner(e, rows, cols) && Inner(e', rows, cols) && e != e'
    ensures Horizontal(e, rows, cols) && Horizontal(e', rows, cols) ==>
      Src(e, cols) != Src(e', cols) && Dst(e, cols) != Dst(e', cols)
    ensures Vertical(e, rows, cols) && Vertical(e', rows, cols) ==>
      Src(e, cols) != Src(e', cols) && Dst(e, cols) != Dst(e', cols)
  {
    if Src(e, cols) == Src(e', cols) || Dst(e, cols) == Dst(e', cols) {
      if Horizontal(e, rows, cols) && Horizontal(e', rows, cols) {
        SameEndsSameEdge(e, e', cols);
      } else if Vertical(e, rows, cols) && Vertical(e', rows, cols) {
        SameEndsSameEdge(e, e', cols);
      }
    }
  }

  lemma CellCountWithout(w: map<Direction, bool>, rows: int, cols: int, i: int, j: int, d: Direction)
    requires Complete(w)
    ensures CellWallCount(TornDown(w, d), rows, cols, i, j) ==
      CellWallCount(w, rows, cols, i, j)
      - (if w[d] && (d == North || d == West || (d == South && i == rows - 1) || (d == East && j == cols - 1)) then 1 else 0)
  {
  }

  /** The side of the source and of the destination whose walls an inner edge owns. */
  function SourceSide(e: Edge, rows: int, cols: int): Direction
    requires cols > 0
  {
    if Horizontal(e, rows, cols) then East else South
  }

  function DestSide(e: Edge, rows: int, cols: int): Direction
    requires cols > 0
  {
    if Horizontal(e, rows, cols) then West else North
  }

  /** `tearDownInnerWall` on an inner edge takes down exactly the two walls the edge owns. */
  lemma TearInnerPicksOwnedWalls(ws: WallGrid, rows: int, cols: int, e: Edge)
    requires Shape(ws, rows, cols) && Inner(e, rows, cols)
    ensures InGrid(Src(e, cols), rows, cols) && InGrid(Dst(e, cols), rows, cols)
    ensures TearInnerResult(ws, rows, cols, e.source, e.dest)
      == TearPair(ws, rows, cols, Src(e, cols), SourceSide(e, rows, cols), Dst(e, cols), DestSide(e, rows, cols))
  {
  }

  /** Tearing down an inner edge leaves the walls of every other inner edge as they were. */
  lemma {:induction false} TearInnerKeepsOthers(ws: WallGrid, rows: int, cols: int, e: Edge, e': Edge)
    requires Shape(ws, rows, cols) && Inner(e, rows, cols) && Inner(e', rows, cols) && e' != e
    ensures InGrid(Src(e, cols), rows, cols) && InGrid(Dst(e, cols), rows, cols)
    ensures var r := TearInnerResult(ws, rows, cols, e.source, e.dest);
      Shape(r, rows, cols)
      && (WallsStand(r, e', rows, cols) <==> WallsStand(ws, e', rows, cols))
      && (WallsDown(r, e', rows, cols) <==> WallsDown(ws, e', rows, cols))
  {
    TearInnerPicksOwnedWalls(ws, rows, cols, e);
    OwnedWallsDisjoint(e, e', rows, cols);
  }

  /** Tearing down an inner edge takes its own walls down and keeps the outer perimeter standing. */
  lemma TearInnerOwnAndBorder(ws: WallGrid, rows: int, cols: int, e: Edge)
    requires Shape(ws, rows, cols) && Inner(e, rows, cols)
    ensures InGrid(Src(e, cols), rows, cols) && InGrid(Dst(e, cols), rows, cols)
    ensures var r := TearInnerResult(ws, rows, cols, e.source, e.dest);
      Shape(r, rows, cols)
      && WallsDown(r, e, rows, cols)
      && (BorderStanding(ws, rows, cols) ==> BorderStanding(r, rows, cols))
  {
    TearInnerPicksOwnedWalls(ws, rows, cols, e);
  }

  /** Tearing down an inner edge whose walls stand lowers the wall count by exactly one. */
  lemma {:induction false} TearInnerCount(ws: WallGrid, rows: int, cols: int, e: Edge)
    requires Shape(ws, rows, cols) && Inner(e, rows, cols) && WallsStand(ws, e, rows, cols)
    ensures InGrid(Src(e, cols), rows, cols) && InGrid(Dst(e, cols), rows, cols)
    ensures var r := TearInnerResult(ws, rows, cols, e.source, e.dest);
      Shape(r, rows, cols) && CountWalls(r, rows, cols) == CountWalls(ws, rows, cols) - 1
  {
    var s, d := Src(e, cols), Dst(e, cols);
    var da, db := SourceSide(e, rows, cols), DestSide(e, rows, cols);
    TearInnerPicksOwnedWalls(ws, rows, cols, e);
    var ws1 := UpdateCell(ws, s.i, s.j, TornDown(ws[s.i][s.j], da));
    CountAfterUpdate(ws, rows, cols, s.i, s.j, TornDown(ws[s.i][s.j], da));
    CountAfterUpdate(ws1, rows, cols, d.i, d.j, TornDown(ws1[d.i][d.j], db));
    CellCountWithout(ws[s.i][s.j], rows, cols, s.i, s.j, da);
    CellCountWithout(ws1[d.i][d.j], rows, cols, d.i, d.j, db);
    assert ws1[d.i][d.j] == ws[d.i][d.j];
  }

  /** The wall at side `d` of cell `c` is one `countRemainedWalls` counts. */
  predicate Counted(rows: int, cols: int, c: Coord, d: Direction)
  {
    d == North || d == West || (d == South && c.i == rows - 1) || (d == East && c.j == cols - 1)
  }

  /** Tearing down two different walls lowers the count by the number of them that stood and are counted. */
  lemma {:induction false} TearPairCount(ws: WallGrid, rows: int, cols: int, a: Coord, da: Direction, b: Coord, db: Direction)
    requires Shape(ws, rows, cols) && InGrid(a, rows, cols) && InGrid(b, rows, cols)
    requires a != b || da != db
    ensures CountWalls(TearPair(ws, rows, cols, a, da, b, db), rows, cols)
      == CountWalls(ws, rows, cols)
         - (if ws[a.i][a.j][da] && Counted(rows, cols, a, da) then 1 else 0)
         - (if ws[b.i][b.j][db] && Counted(rows, cols, b, db) then 1 else 0)
  {
    var ws1 := UpdateCell(ws, a.i, a.j, TornDown(ws[a.i][a.j], da));
    TearOneCount(ws, rows, cols, a, da);
    assert ws1[b.i][b.j][db] == ws[b.i][b.j][db];
    TearOneCount(ws1, rows, cols, b, db);
  }

  /** Tearing down one wall lowers the count by one exactly when that wall stood and is counted. */
  lemma TearOneCount(ws: WallGrid, rows: int, cols: int, c: Coord, d: Direction)
    requires Shape(ws, rows, cols) && InGrid(c, rows, cols)
    ensures var r := UpdateCell(ws, c.i, c.j, TornDown(ws[c.i][c.j], d));
      Shape(r, rows, cols)
      && CountWalls(r, rows, cols) == CountWalls(ws, rows, cols) - (if ws[c.i][c.j][d] && Counted(rows, cols, c, d) then 1 else 0)
  {
    CountAfterUpdate(ws, rows, cols, c.i, c.j, TornDown(ws[c.i][c.j], d));
    CellCountWithout(ws[c.i][c.j], rows, cols, c.i, c.j, d);
  }

  lemma SameWallGrid(x: WallGrid, y: WallGrid, rows: int, cols: int)
    requires Shape(x, rows, cols) && Shape(y, rows, cols)
    requires forall i, j :: 0 <= i < rows && 0 <= j < cols ==> x[i][j] == y[i][j]
    ensures x == y
  {
    forall i | 0 <= i < rows ensures x[i] == y[i] {
    }
  }

  /** The cell that holds ID `id`. */
  function CellAt(grid: seq<seq<Cell>>, cols: int, id: int): (c: Cell)
    requires cols != 0
    requires 0 <= IdToLocation(id, cols).i < |grid| && 0 <= IdToLocation(id, cols).j < |grid[IdToLocation(id, cols).i]|
    ensures c in CellsOf(grid)
  {
    grid[IdToLocation(id, cols).i][IdToLocation(id, cols).j]
  }

  /** Tears down the wall on side `da` of cell `a` and on side `db` of cell `b`, on the cells themselves. */
  method TearDownPair(grid: seq<seq<Cell>>, rows: int, cols: int, a: Coord, da: Direction, b: Coord, db: Direction,
                      ghost ws: WallGrid)
    requires WellFormed(grid, rows, cols) && Shape(ws, rows, cols) && Mirrors(grid, ws, rows, cols)
    requires InGrid(a, rows, cols) && InGrid(b, rows, cols)
    modifies (grid[a.i][a.j] as Cell)`walls, (grid[b.i][b.j] as Cell)`walls
    ensures WellFormed(grid, rows, cols) && Mirrors(grid, TearPair(ws, rows, cols, a, da, b, db), rows, cols)
  {
    ghost var r := TearPair(ws, rows, cols, a, da, b, db);
    var ca, cb := grid[a.i][a.j], grid[b.i][b.j];
    CellsAreDistinct(grid, rows, cols, a, b);
    ca.TearDownWall(da);
    cb.TearDownWall(db);
    forall i, j | 0 <= i < rows && 0 <= j < cols ensures grid[i][j].walls == r[i][j] {
      CellsAreDistinct(grid, rows, cols, Coord(i, j), a);
      CellsAreDistinct(grid, rows, cols, Coord(i, j), b);
    }
  }

  /** `tearDownInnerWall`: the cells of the two IDs lose the walls between them. */
  method TearDownInnerWall(sourceId: int, destId: int, grid: seq<seq<Cell>>, rows: int, cols: int, ghost ws: WallGrid)
    requires WellFormed(grid, rows, cols) && Shape(ws, rows, cols) && Mirrors(grid, ws, rows, cols)
    requires InGrid(IdToLocation(sourceId, cols), rows, cols) && InGrid(IdToLocation(destId, cols), rows, cols)
    modifies CellAt(grid, cols, sourceId)`walls, CellAt(grid, cols, destId)`walls
    ensures WellFormed(grid, rows, cols) && Mirrors(grid, TearInnerResult(ws, rows, cols, sourceId, destId), rows, cols)
  {
    var s := IdToLocation(sourceId, cols);
    var d := IdToLocation(destId, cols);
    if Abs(s.j - d.j) == 1 {
      TearDownPair(grid, rows, cols, s, East, d, West, ws);
    } else if Abs(s.i - d.i) == 1 {
      TearDownPair(grid, rows, cols, s, South, d, North, ws);
    }
  }
}
