/**
 * Border edges of a wrap maze. Each cell of the first column faces the cell of the last
 * column in its row, and each cell of the first row faces the cell of the last row in its
 * column; tearing such an edge down opens the outer perimeter on both sides at once.
 */
module Borders {
  import opened Directions
  import opened Locations
  import opened MazeHelper
  import opened Cells
  import opened Edges
  import opened Grids
  import opened GridEdges
  import opened Tearing

  /** The first cell of a row and the last cell of the same row. */
  predicate RowBorder(e: Edge, rows: int, cols: int)
    requires cols > 0
  {
    InGrid(Src(e, cols), rows, cols) && Src(e, cols).j == 0 && Dst(e, cols) == Coord(Src(e, cols).i, cols - 1)
  }

  /** The first cell of a column and the last cell of the same column. */
  predicate ColBorder(e: Edge, rows: int, cols: int)
    requires cols > 0
  {
    InGrid(Src(e, cols), rows, cols) && Src(e, cols).i == 0 && Dst(e, cols) == Coord(rows - 1, Src(e, cols).j)
  }

  predicate Border(e: Edge, rows: int, cols: int)
    requires cols > 0
  {
    RowBorder(e, rows, cols) || ColBorder(e, rows, cols)
  }

  /** `generateBorderEdgeList`: one edge per row, then one edge per column. */
  function BorderEdges(rows: nat, cols: nat): (r: seq<Edge>)
    ensures |r| == rows + cols
  {
    seq(rows, i => Edge(IdxToId(i, 0, cols), IdxToId(i, cols - 1, cols)))
    + seq(cols, j => Edge(IdxToId(0, j, cols), IdxToId(rows - 1, j, cols)))
  }

  /** The list holds exactly the border edges of the grid. */
  lemma BorderEdgesMembers(rows: nat, cols: nat)
    requires rows > 0 && cols > 0
    ensures forall e :: e in BorderEdges(rows, cols) <==> Border(e, rows, cols)
  {
    var r := BorderEdges(rows, cols);
    forall e | e in r ensures Border(e, rows, cols) {
      var k :| 0 <= k < |r| && r[k] == e;
      if k < rows {
        LocationOfId(k, 0, cols);
        LocationOfId(k, cols - 1, cols);
        assert RowBorder(e, rows, cols);
      } else {
        LocationOfId(0, k - rows, cols);
        LocationOfId(rows - 1, k - rows, cols);
        assert ColBorder(e, rows, cols);
      }
    }
    forall e | Border(e, rows, cols) ensures e in r {
      var s := Src(e, cols);
      IdOfLocation(e.source, cols);
      IdOfLocation(e.dest, cols);
      if RowBorder(e, rows, cols) {
        assert r[s.i] == e;
      } else {
        assert r[rows + s.j] == e;
      }
    }
  }

  /** With at least two rows no border edge is listed twice. */
  lemma BorderEdgesDistinct(rows: nat, cols: nat)
    requires rows >= 2 && cols > 0
    ensures Distinct(BorderEdges(rows, cols))
  {
    var r := BorderEdges(rows, cols);
    forall a, b | 0 <= a < b < |r| ensures r[a] != r[b] {
      if b < rows {
        LocationOfId(a, 0, cols);
        LocationOfId(b, 0, cols);
      } else if a < rows {
        LocationOfId(a, cols - 1, cols);
        LocationOfId(rows - 1, b - rows, cols);
      } else {
        LocationOfId(0, a - rows, cols);
        LocationOfId(0, b - rows, cols);
      }
    }
  }

  lemma BorderEndsInGrid(e: Edge, rows: int, cols: int)
    requires cols > 0 && Border(e, rows, cols)
    ensures InGrid(Src(e, cols), rows, cols) && InGrid(Dst(e, cols), rows, cols)
  {
  }

  /** The sides `tearDownBorderWall` takes down: WEST and EAST across a row, NORTH and SOUTH across a column. */
  function BorderSourceSide(e: Edge, cols: int): Direction
    requires cols != 0
  {
    if Src(e, cols).i == Dst(e, cols).i then West else North
  }

  function BorderDestSide(e: Edge, cols: int): Direction
    requires cols != 0
  {
    if Src(e, cols).i == Dst(e, cols).i then East else South
  }

  predicate BorderWallsStand(ws: WallGrid, e: Edge, rows: int, cols: int)
    requires Shape(ws, rows, cols) && Border(e, rows, cols)
  {
    ws[Src(e, cols).i][Src(e, cols).j][BorderSourceSide(e, cols)] && ws[Dst(e, cols).i][Dst(e, cols).j][BorderDestSide(e, cols)]
  }

  predicate BorderWallsDown(ws: WallGrid, e: Edge, rows: int, cols: int)
    requires Shape(ws, rows, cols) && Border(e, rows, cols)
  {
    !ws[Src(e, cols).i][Src(e, cols).j][BorderSourceSide(e, cols)] && !ws[Dst(e, cols).i][Dst(e, cols).j][BorderDestSide(e, cols)]
  }

  /**
   * The walls after `tearDownBorderWall(sourceID, destID)`: WEST of the source and EAST of
   * the destination when they share a row, otherwise NORTH and SOUTH when they share a
   * column, otherwise nothing.
   */
  function TearBorderResult(ws: WallGrid, rows: int, cols: int, sourceId: int, destId: int): (r: WallGrid)
    requires Shape(ws, rows, cols)
    requires InGrid(IdToLocation(sourceId, cols), rows, cols) && InGrid(IdToLocation(destId, cols), rows, cols)
    ensures Shape(r, rows, cols)
  {
    var s, d := IdToLocation(sourceId, cols), IdToLocation(destId, cols);
    if s.i == d.i then TearPair(ws, rows, cols, s, West, d, East)
    else if s.j == d.j then TearPair(ws, rows, cols, s, North, d, South)
    else ws
  }

  /** On a border edge `tearDownBorderWall` takes down the two walls the edge owns. */
  lemma TearBorderPicksOwnedWalls(ws: WallGrid, rows: int, cols: int, e: Edge)
    requires Shape(ws, rows, cols) && Border(e, rows, cols)
    ensures InGrid(Src(e, cols), rows, cols) && InGrid(Dst(e, cols), rows, cols)
    ensures TearBorderResult(ws, rows, cols, e.source, e.dest)
      == TearPair(ws, rows, cols, Src(e, cols), BorderSourceSide(e, cols), Dst(e, cols), BorderDestSide(e, cols))
  {
  }

  /** Tearing down a border edge takes its own walls down. */
  lemma TearBorderOwn(ws: WallGrid, rows: int, cols: int, e: Edge)
    requires Shape(ws, rows, cols) && Border(e, rows, cols)
    ensures InGrid(Src(e, cols), rows, cols) && InGrid(Dst(e, cols), rows, cols)
    ensures var r := TearBorderResult(ws, rows, cols, e.source, e.dest);
      Shape(r, rows, cols) && BorderWallsDown(r, e, rows, cols)
  {
    TearBorderPicksOwnedWalls(ws, rows, cols, e);
  }

  /**
   * With at least two rows, tearing down a border edge whose walls stand lowers the wall
   * count by exactly two: both of its walls lie on the outer perimeter, where every wall counts.
   */
  lemma TearBorderCount(ws: WallGrid, rows: int, cols: int, e: Edge)
    requires Shape(ws, rows, cols) && rows >= 2 && Border(e, rows, cols) && BorderWallsStand(ws, e, rows, cols)
    ensures InGrid(Src(e, cols), rows, cols) && InGrid(Dst(e, cols), rows, cols)
    ensures var r := TearBorderResult(ws, rows, cols, e.source, e.dest);
      Shape(r, rows, cols) && CountWalls(r, rows, cols) == CountWalls(ws, rows, cols) - 2
  {
    TearBorderPicksOwnedWalls(ws, rows, cols, e);
    TearPairCount(ws, rows, cols, Src(e, cols), BorderSourceSide(e, cols), Dst(e, cols), BorderDestSide(e, cols));
  }

  /** With at least two rows, the walls a border edge owns are not owned by any inner edge. */
  lemma TearBorderKeepsInner(ws: WallGrid, rows: int, cols: int, e: Edge, e': Edge)
    requires Shape(ws, rows, cols) && rows >= 2 && Border(e, rows, cols) && Inner(e', rows, cols)
    ensures InGrid(Src(e, cols), rows, cols) && InGrid(Dst(e, cols), rows, cols)
    ensures var r := TearBorderResult(ws, rows, cols, e.source, e.dest);
      Shape(r, rows, cols)
      && (WallsStand(r, e', rows, cols) <==> WallsStand(ws, e', rows, cols))
      && (WallsDown(r, e', rows, cols) <==> WallsDown(ws, e', rows, cols))
  {
    TearBorderPicksOwnedWalls(ws, rows, cols, e);
  }

  /** With at least two rows, two different border edges own different walls. */
  lemma TearBorderKeepsBorder(ws: WallGrid, rows: int, cols: int, e: Edge, e': Edge)
    requires Shape(ws, rows, cols) && rows >= 2 && Border(e, rows, cols) && Border(e', rows, cols) && e != e'
    ensures InGrid(Src(e, cols), rows, cols) && InGrid(Dst(e, cols), rows, cols)
    ensures var r := TearBorderResult(ws, rows, cols, e.source, e.dest);
      Shape(r, rows, cols)
      && (BorderWallsStand(r, e', rows, cols) <==> BorderWallsStand(ws, e', rows, cols))
      && (BorderWallsDown(r, e', rows, cols) <==> BorderWallsDown(ws, e', rows, cols))
  {
    TearBorderPicksOwnedWalls(ws, rows, cols, e);
    if Src(e, cols) == Src(e', cols) || Dst(e, cols) == Dst(e', cols) {
      if RowBorder(e, rows, cols) == RowBorder(e', rows, cols) {
        SameEndsSameEdge(e, e', cols);
      }
    }
  }

  /** With at least two rows, tearing down an inner edge leaves every border edge's walls as they were. */
  lemma TearInnerKeepsBorder(ws: WallGrid, rows: int, cols: int, e: Edge, e': Edge)
    requires Shape(ws, rows, cols) && rows >= 2 && Inner(e, rows, cols) && Border(e', rows, cols)
    ensures InGrid(Src(e, cols), rows, cols) && InGrid(Dst(e, cols), rows, cols)
    ensures var r := TearInnerResult(ws, rows, cols, e.source, e.dest);
      Shape(r, rows, cols)
      && (BorderWallsStand(r, e', rows, cols) <==> BorderWallsStand(ws, e', rows, cols))
      && (BorderWallsDown(r, e', rows, cols) <==> BorderWallsDown(ws, e', rows, cols))
  {
    TearInnerPicksOwnedWalls(ws, rows, cols, e);
  }

  /** `tearDownBorderWall`, on the cells themselves. */
  method TearDownBorderWall(sourceId: int, destId: int, grid: seq<seq<Cell>>, rows: int, cols: int, ghost ws: WallGrid)
    requires WellFormed(grid, rows, cols) && Shape(ws, rows, cols) && Mirrors(grid, ws, rows, cols)
    requires InGrid(IdToLocation(sourceId, cols), rows, cols) && InGrid(IdToLocation(destId, cols), rows, cols)
    modifies CellAt(grid, cols, sourceId)`walls, CellAt(grid, cols, destId)`walls
    ensures WellFormed(grid, rows, cols) && Mirrors(grid, TearBorderResult(ws, rows, cols, sourceId, destId), rows, cols)
  {
    var s := IdToLocation(sourceId, cols);
    var d := IdToLocation(destId, cols);
    if s.i == d.i {
      TearDownPair(grid, rows, cols, s, West, d, East, ws);
    } else if s.j == d.j {
      TearDownPair(grid, rows, cols, s, North, d, South, ws);
    }
  }
}
