/**
 * The wrap room maze: the perimeter can be opened too. After the perfect maze is built,
 * border edges come down first, two walls at a time, then inner edges one wall at a time;
 * moving off one side of the grid lands on the opposite side.
 */
module WrapRoomMaze {
  import opened Directions
  import opened Locations
  import opened MazeHelper
  import opened Cells
  import opened Edges
  import opened Grids
  import opened GridEdges
  import opened EdgeDraw
  import opened Tearing
  import opened Borders
  import opened Moves
  import opened Players
  import opened Connectivity
  import RoomMaze

  /** A budget between zero and two less than the perfect maze's wall count. */
  predicate IsNumOfRemainingWallsValid(rows: int, cols: int, remaining: int)
    ensures IsNumOfRemainingWallsValid(rows, cols, remaining) <==> 0 <= remaining <= rows * cols + rows + cols - 1
  {
    remaining >= 0 && remaining <= MaxRemainingWalls(rows, cols) - 2
  }

  /** The valid range of a 4 x 6 wrap room maze is 0 .. 33. */
  lemma BudgetOf4By6(remaining: int)
    ensures IsNumOfRemainingWallsValid(4, 6, remaining) <==> 0 <= remaining <= 33
  {
  }

  /**
   * Walls and lists agree: every listed inner or border edge (each listed once) has both its
   * walls standing, every unlisted one has both down, and the counter is the wall count.
   */
  ghost predicate WallsAccounted(ws: WallGrid, rows: int, cols: int, remained: int,
                                 innerList: seq<Edge>, borderList: seq<Edge>)
  {
    Shape(ws, rows, cols) && Distinct(innerList) && Distinct(borderList)
    && (forall e :: Inner(e, rows, cols) ==>
          (e in innerList ==> WallsStand(ws, e, rows, cols)) && (e !in innerList ==> WallsDown(ws, e, rows, cols)))
    && (forall e :: Border(e, rows, cols) ==>
          (e in borderList ==> BorderWallsStand(ws, e, rows, cols)) && (e !in borderList ==> BorderWallsDown(ws, e, rows, cols)))
    && remained == CountWalls(ws, rows, cols)
  }

  /**
   * The grid while `continueRemoveWalls` runs: the counter is two per listed border edge
   * plus one per listed inner edge, and with at least two rows the walls agree with the
   * lists. In a one-row maze a column border edge joins a cell to itself and
   * `tearDownBorderWall` takes down its WEST and EAST walls, which are inner walls, so there
   * the counter is all that is tracked.
   */
  ghost predicate WrapState(ws: WallGrid, rows: int, cols: int, remained: int,
                            innerList: seq<Edge>, borderList: seq<Edge>)
  {
    Shape(ws, rows, cols)
    && (forall e :: e in innerList ==> Inner(e, rows, cols))
    && (forall e :: e in borderList ==> Border(e, rows, cols))
    && remained == 2 * |borderList| + |innerList|
    && (rows >= 2 ==> WallsAccounted(ws, rows, cols, remained, innerList, borderList))
  }

  /** A perfect maze with the full border edge list is in this state. */
  lemma WrapStart(ws: WallGrid, rows: int, cols: int, remained: int, innerList: seq<Edge>)
    requires RoomMaze.RoomState(ws, rows, cols, remained, innerList)
    ensures WrapState(ws, rows, cols, remained, innerList, BorderEdges(rows, cols))
  {
    BorderEdgesMembers(rows, cols);
    if rows >= 2 {
      BorderEdgesDistinct(rows, cols);
    }
  }

  /** Tearing down the listed border edge `borderList[k]`: two walls less, one border edge less. */
  lemma {:induction false} WrapBorderStep(ws: WallGrid, rows: int, cols: int, remained: int,
                                          innerList: seq<Edge>, borderList: seq<Edge>, k: int)
    requires WrapState(ws, rows, cols, remained, innerList, borderList) && 0 <= k < |borderList|
    ensures Border(borderList[k], rows, cols)
    ensures InGrid(Src(borderList[k], cols), rows, cols) && InGrid(Dst(borderList[k], cols), rows, cols)
    ensures var e := borderList[k];
      WrapState(TearBorderResult(ws, rows, cols, e.source, e.dest), rows, cols, remained - 2, innerList, RemoveAt(borderList, k))
  {
    var e := borderList[k];
    TearBorderOwn(ws, rows, cols, e);
    var ws' := TearBorderResult(ws, rows, cols, e.source, e.dest);
    var rest := RemoveAt(borderList, k);
    if rows >= 2 {
      TearBorderCount(ws, rows, cols, e);
      forall e' | Inner(e', rows, cols)
        ensures (e' in innerList ==> WallsStand(ws', e', rows, cols)) && (e' !in innerList ==> WallsDown(ws', e', rows, cols))
      {
        TearBorderKeepsInner(ws, rows, cols, e, e');
      }
      forall e' | Border(e', rows, cols)
        ensures (e' in rest ==> BorderWallsStand(ws', e', rows, cols)) && (e' !in rest ==> BorderWallsDown(ws', e', rows, cols))
      {
        if e' != e {
          TearBorderKeepsBorder(ws, rows, cols, e, e');
        }
      }
      assert WallsAccounted(ws', rows, cols, remained - 2, innerList, rest);
    }
  }

  /** Tearing down the listed inner edge `innerList[k]`: one wall less, one inner edge less. */
  lemma {:induction false} WrapInnerStep(ws: WallGrid, rows: int, cols: int, remained: int,
                                         innerList: seq<Edge>, borderList: seq<Edge>, k: int)
    requires WrapState(ws, rows, cols, remained, innerList, borderList) && 0 <= k < |innerList|
    ensures Inner(innerList[k], rows, cols)
    ensures InGrid(Src(innerList[k], cols), rows, cols) && InGrid(Dst(innerList[k], cols), rows, cols)
    ensures var e := innerList[k];
      WrapState(TearInnerResult(ws, rows, cols, e.source, e.dest), rows, cols, remained - 1, RemoveAt(innerList, k), borderList)
  {
    var e := innerList[k];
    TearInnerOwnAndBorder(ws, rows, cols, e);
    var ws' := TearInnerResult(ws, rows, cols, e.source, e.dest);
    var rest := RemoveAt(innerList, k);
    if rows >= 2 {
      TearInnerCount(ws, rows, cols, e);
      forall e' | Inner(e', rows, cols)
        ensures (e' in rest ==> WallsStand(ws', e', rows, cols)) && (e' !in rest ==> WallsDown(ws', e', rows, cols))
      {
        if e' != e {
          TearInnerKeepsOthers(ws, rows, cols, e, e');
        }
      }
      forall e' | Border(e', rows, cols)
        ensures (e' in borderList ==> BorderWallsStand(ws', e', rows, cols))
             && (e' !in borderList ==> BorderWallsDown(ws', e', rows, cols))
      {
        TearInnerKeepsBorder(ws, rows, cols, e, e');
      }
      assert WallsAccounted(ws', rows, cols, remained - 1, rest, borderList);
    }
  }

  /** A draw from the border edge list (`randomSelectAndRemoveEdges`), then `tearDownBorderWall`. */
  method WrapBorderDraw(grid: seq<seq<Cell>>, rows: int, cols: int, remained: int,
                        innerList: seq<Edge>, borderList: seq<Edge>, ghost ws: WallGrid)
    returns (remained': int, borderList': seq<Edge>, ghost ws': WallGrid)
    requires WrapState(ws, rows, cols, remained, innerList, borderList)
    requires WellFormed(grid, rows, cols) && Mirrors(grid, ws, rows, cols)
    requires |borderList| > 0
    requires Connected(ws, rows, cols)
    modifies CellsOf(grid)`walls
    ensures WrapState(ws', rows, cols, remained', innerList, borderList')
    ensures WellFormed(grid, rows, cols) && Mirrors(grid, ws', rows, cols)
    ensures remained' == remained - 2 && |borderList'| == |borderList| - 1
    ensures Connected(ws', rows, cols)
  {
    var ok, sourceId, destId;
    ok, sourceId, destId, borderList' := RandomSelectAndRemoveEdges(borderList);
    ghost var k :| 0 <= k < |borderList| && borderList[k] == Edge(sourceId, destId) && borderList' == RemoveAt(borderList, k);
    remained' := remained - 2;
    ws' := TearBorderResult(ws, rows, cols, sourceId, destId);
    assert InGrid(IdToLocation(sourceId, cols), rows, cols) && InGrid(IdToLocation(destId, cols), rows, cols)
      && WrapState(ws', rows, cols, remained', innerList, borderList') by {
      WrapBorderStep(ws, rows, cols, remained, innerList, borderList, k);
    }
    TearBorderKeepsConnected(ws, rows, cols, sourceId, destId);
    TearDownBorderWall(sourceId, destId, grid, rows, cols, ws);
  }

  /** A draw from the inner edge list (`randomSelectAndRemoveEdges`), then `tearDownInnerWall`. */
  method WrapInnerDraw(grid: seq<seq<Cell>>, rows: int, cols: int, remained: int,
                       innerList: seq<Edge>, borderList: seq<Edge>, ghost ws: WallGrid)
    returns (remained': int, innerList': seq<Edge>, ghost ws': WallGrid)
    requires WrapState(ws, rows, cols, remained, innerList, borderList)
    requires WellFormed(grid, rows, cols) && Mirrors(grid, ws, rows, cols)
    requires |innerList| > 0
    requires Connected(ws, rows, cols)
    modifies CellsOf(grid)`walls
    ensures WrapState(ws', rows, cols, remained', innerList', borderList)
    ensures WellFormed(grid, rows, cols) && Mirrors(grid, ws', rows, cols)
    ensures remained' == remained - 1 && |innerList'| == |innerList| - 1
    ensures forall e :: e in innerList' ==> e in innerList
    ensures Connected(ws', rows, cols)
  {
    var ok, sourceId, destId;
    ok, sourceId, destId, innerList' := RandomSelectAndRemoveEdges(innerList);
    ghost var k :| 0 <= k < |innerList| && innerList[k] == Edge(sourceId, destId) && innerList' == RemoveAt(innerList, k);
    remained' := remained - 1;
    ws' := TearInnerResult(ws, rows, cols, sourceId, destId);
    assert InGrid(IdToLocation(sourceId, cols), rows, cols) && InGrid(IdToLocation(destId, cols), rows, cols)
      && WrapState(ws', rows, cols, remained', innerList', borderList) by {
      WrapInnerStep(ws, rows, cols, remained, innerList, borderList, k);
    }
    TearInnerKeepsConnected(ws, rows, cols, sourceId, destId);
    TearDownInnerWall(sourceId, destId, grid, rows, cols, ws);
  }

  /**
   * The first loop of `continueRemoveWalls`: border edges come down, two walls each, while
   * the counter is more than two above the budget and border edges are left.
   */
  method RemoveBorderEdges(numOfRemainingWalls: int, remainedWalls: int, innerList: seq<Edge>,
                           grid: seq<seq<Cell>>, rows: int, cols: int, ghost ws0: WallGrid)
    returns (remained: int, borderList: seq<Edge>, ghost ws: WallGrid)
    requires WellFormed(grid, rows, cols)
    requires WrapState(ws0, rows, cols, remainedWalls, innerList, BorderEdges(rows, cols)) && Mirrors(grid, ws0, rows, cols)
    requires remainedWalls > numOfRemainingWalls
    requires Connected(ws0, rows, cols)
    modifies CellsOf(grid)`walls
    ensures WrapState(ws, rows, cols, remained, innerList, borderList)
    ensures WellFormed(grid, rows, cols) && Mirrors(grid, ws, rows, cols)
    ensures remained == remainedWalls - 2 * (rows + cols - |borderList|) && |borderList| <= rows + cols
    ensures remained > numOfRemainingWalls && (|borderList| == 0 || remained <= numOfRemainingWalls + 2)
    ensures Connected(ws, rows, cols)
  {
    borderList := BorderEdges(rows, cols);
    remained := remainedWalls;
    ws := ws0;
    while remained > numOfRemainingWalls + 2 && |borderList| > 0
      invariant WrapState(ws, rows, cols, remained, innerList, borderList)
      invariant WellFormed(grid, rows, cols) && Mirrors(grid, ws, rows, cols)
      invariant remained == remainedWalls - 2 * (rows + cols - |borderList|) && |borderList| <= rows + cols
      invariant remained > numOfRemainingWalls
      invariant Connected(ws, rows, cols)
      decreases |borderList|
    {
      remained, borderList, ws := WrapBorderDraw(grid, rows, cols, remained, innerList, borderList, ws);
    }
  }

  /** The second loop of `continueRemoveWalls`: with no border edge left, inner edges come down until the budget is met. */
  method RemoveInnerEdges(numOfRemainingWalls: int, remainedWalls: int, innerEdgeList: seq<Edge>,
                          grid: seq<seq<Cell>>, rows: int, cols: int, ghost ws0: WallGrid)
    returns (innerList: seq<Edge>, ghost ws: WallGrid)
    requires WrapState(ws0, rows, cols, remainedWalls, innerEdgeList, [])
    requires WellFormed(grid, rows, cols) && Mirrors(grid, ws0, rows, cols)
    requires remainedWalls >= numOfRemainingWalls >= 0
    requires Connected(ws0, rows, cols)
    modifies CellsOf(grid)`walls
    ensures WrapState(ws, rows, cols, numOfRemainingWalls, innerList, [])
    ensures WellFormed(grid, rows, cols) && Mirrors(grid, ws, rows, cols)
    ensures forall e :: e in innerList ==> e in innerEdgeList
    ensures Connected(ws, rows, cols)
  {
    var remained := remainedWalls;
    innerList := innerEdgeList;
    ws := ws0;
    while remained > numOfRemainingWalls
      invariant WrapState(ws, rows, cols, remained, innerList, [])
      invariant WellFormed(grid, rows, cols) && Mirrors(grid, ws, rows, cols)
      invariant remained >= numOfRemainingWalls
      invariant forall e :: e in innerList ==> e in innerEdgeList
      invariant Connected(ws, rows, cols)
      decreases remained
    {
      remained, innerList, ws := WrapInnerDraw(grid, rows, cols, remained, innerList, [], ws);
    }
  }

  /**
   * What remains after the first loop of `continueRemoveWalls`: with no border edge left,
   * inner edges come down to the budget; a gap of one is closed with an inner edge, which
   * fails (Java's `nextInt(0)` throws) when the inner list is empty; a gap of two is closed
   * with a border edge.
   */
  method CloseGap(numOfRemainingWalls: int, remained: int, innerEdgeList: seq<Edge>, borderList: seq<Edge>,
                  grid: seq<seq<Cell>>, rows: int, cols: int, ghost ws0: WallGrid)
    returns (ok: bool, innerList: seq<Edge>, ghost ws: WallGrid)
    requires WrapState(ws0, rows, cols, remained, innerEdgeList, borderList)
    requires WellFormed(grid, rows, cols) && Mirrors(grid, ws0, rows, cols)
    requires 0 <= numOfRemainingWalls < remained && (|borderList| == 0 || remained <= numOfRemainingWalls + 2)
    requires Connected(ws0, rows, cols)
    modifies CellsOf(grid)`walls
    ensures Shape(ws, rows, cols) && WellFormed(grid, rows, cols) && Mirrors(grid, ws, rows, cols)
    ensures !ok <==> |borderList| > 0 && remained - numOfRemainingWalls == 1 && |innerEdgeList| == 0
    ensures ok && rows >= 2 ==> CountWalls(ws, rows, cols) == numOfRemainingWalls
    ensures forall e :: e in innerList ==> e in innerEdgeList
    ensures Connected(ws, rows, cols)
  {
    innerList := innerEdgeList;
    ws := ws0;
    if |borderList| == 0 {
      ok := true;
      innerList, ws := RemoveInnerEdges(numOfRemainingWalls, remained, innerList, grid, rows, cols, ws0);
    } else if Abs(numOfRemainingWalls - remained) == 1 {
      if |innerList| == 0 {
        return false, innerList, ws;
      }
      ok := true;
      var remained';
      remained', innerList, ws := WrapInnerDraw(grid, rows, cols, remained, innerList, borderList, ws0);
    } else {
      ok := true;
      var remained', borderList';
      remained', borderList', ws := WrapBorderDraw(grid, rows, cols, remained, innerList, borderList, ws0);
    }
  }

  /**
   * The arithmetic of the outcome: after `b` of `total` border edges are left the gap to the
   * budget is one exactly when the perfect maze's count and the budget differ in parity, and
   * with no border edge left the counter equals the inner edge count, which is then positive.
   */
  lemma {:induction false} GapOutcome(max: int, budget: int, inner: int, total: int, b: int, remained: int)
    requires max - 2 * total == inner >= 0 && 0 <= b <= total && remained == max - 2 * (total - b)
    requires 0 <= budget < remained && (b == 0 || remained <= budget + 2)
    ensures (b > 0 && remained - budget == 1 && inner == 0) <==> (inner == 0 && (max - budget) % 2 == 1)
  {
    var n := total - b;
    if b > 0 {
      assert max - budget == 2 * n + (remained - budget);
      if remained - budget == 1 {
        assert (2 * n + 1) % 2 == 1;
      } else {
        assert (2 * n + 2) % 2 == 0;
      }
    }
  }

  /**
   * `continueRemoveWalls` of the wrap room maze. Border edges come down while the counter
   * is more than two above the budget, then the gap is closed (`CloseGap`). `ok` is false
   * exactly when the maze is one cell thin and the budget has the other parity than the
   * perfect maze's count. With at least two rows the wall count then equals the budget.
   */
  method ContinueRemoveWalls(numOfRemainingWalls: int, remainedWalls: int, innerEdgeList: seq<Edge>,
                             grid: seq<seq<Cell>>, rows: int, cols: int)
    returns (ok: bool, innerList: seq<Edge>)
    requires WellFormed(grid, rows, cols) && RoomMaze.RoomState(Walls(grid), rows, cols, remainedWalls, innerEdgeList)
    requires remainedWalls == MaxRemainingWalls(rows, cols)
    requires IsNumOfRemainingWallsValid(rows, cols, numOfRemainingWalls)
    requires Connected(Walls(grid), rows, cols)
    modifies CellsOf(grid)`walls
    ensures WellFormed(grid, rows, cols)
    ensures !ok <==> (rows - 1) * (cols - 1) == 0 && (remainedWalls - numOfRemainingWalls) % 2 == 1
    ensures ok && rows >= 2 ==> CountWalls(Walls(grid), rows, cols) == numOfRemainingWalls
    ensures forall e :: e in innerList ==> e in innerEdgeList
    ensures Connected(Walls(grid), rows, cols)
  {
    RoomMaze.RemovableWalls(rows, cols);
    ghost var inner := (rows - 1) * (cols - 1);
    assert |innerEdgeList| == inner;
    ghost var ws := Walls(grid);
    WrapStart(ws, rows, cols, remainedWalls, innerEdgeList);
    MirrorsWalls(grid, ws, rows, cols);
    var remained, borderList;
    remained, borderList, ws := RemoveBorderEdges(numOfRemainingWalls, remainedWalls, innerEdgeList, grid, rows, cols, ws);
    GapOutcome(remainedWalls, numOfRemainingWalls, inner, rows + cols, |borderList|, remained);
    ok, innerList, ws := CloseGap(numOfRemainingWalls, remained, innerEdgeList, borderList, grid, rows, cols, ws);
    MirrorsWalls(grid, ws, rows, cols);
  }

  /** `moveToOppositeCell`: `times - 1` unit steps toward `d`. */
  function MoveToOppositeCell(times: int, c: Coord, d: Direction): (r: Coord)
    ensures times >= 1 ==> r == Coord(c.i + (times - 1) * RowDelta(d), c.j + (times - 1) * ColDelta(d))
  {
    if times >= 1 then StepsShift(times - 1, c, d); Steps(times - 1, c, d)
    else Steps(times - 1, c, d)
  }

  /**
   * `moveInSolveMaze` of the wrap maze: leaving the grid through one side lands on the
   * opposite side, by walking `rows - 1` (or `cols - 1`) steps back across the grid.
   */
  function MoveInSolveMaze(rows: int, cols: int, c: Coord, d: Direction): (r: Coord)
    ensures r.i == c.i || r.j == c.j
    ensures InGrid(c, rows, cols) ==> InGrid(r, rows, cols)
  {
    if d == North && c.i == 0 then MoveToOppositeCell(rows, c, South)
    else if d == South && c.i == rows - 1 then MoveToOppositeCell(rows, c, North)
    else if d == West && c.j == 0 then MoveToOppositeCell(cols, c, East)
    else if d == East && c.j == cols - 1 then MoveToOppositeCell(cols, c, West)
    else MoveToNextCell(c, d)
  }

  /** From inside the grid a wrap move lands inside the grid: on the opposite side at an edge, one step away elsewhere. */
  lemma WrapMoveLands(rows: int, cols: int, c: Coord, d: Direction)
    requires InGrid(c, rows, cols)
    ensures var r := MoveInSolveMaze(rows, cols, c, d);
      InGrid(r, rows, cols)
      && (d == North && c.i == 0 ==> r == Coord(rows - 1, c.j))
      && (d == South && c.i == rows - 1 && c.i != 0 ==> r == Coord(0, c.j))
      && (d == West && c.j == 0 ==> r == Coord(c.i, cols - 1))
      && (d == East && c.j == cols - 1 && c.j != 0 ==> r == Coord(c.i, 0))
      && ((!(d == North && c.i == 0) && !(d == South && c.i == rows - 1)
           && !(d == West && c.j == 0) && !(d == East && c.j == cols - 1))
          ==> r == MoveToNextCell(c, d))
  {
  }

  /** `movePlayerToOppositeCell`: the player takes `times - 1` unit steps toward `d`. */
  method MovePlayerToOppositeCell(player: Player, times: int, d: Direction)
    modifies player.location
    ensures player.location.Value() == MoveToOppositeCell(times, old(player.location.Value()), d)
  {
    ghost var start := player.location.Value();
    var k := 0;
    while k < times - 1
      invariant 0 <= k <= (if times >= 1 then times - 1 else 0)
      invariant player.location.Value() == Steps(k, start, d)
    {
      StepsSnoc(k, start, d);
      player.Move(d);
      k := k + 1;
    }
  }

  /** `movePlayerToNextCell` of the wrap maze: the player's position follows `moveInSolveMaze`. */
  method MovePlayerToNextCell(player: Player, rows: int, cols: int, d: Direction)
    modifies player.location
    ensures player.location.Value() == MoveInSolveMaze(rows, cols, old(player.location.Value()), d)
  {
    var i, j := player.GetLocation().GetI(), player.GetLocation().GetJ();
    if d == North && i == 0 {
      MovePlayerToOppositeCell(player, rows, South);
    } else if d == South && i == rows - 1 {
      MovePlayerToOppositeCell(player, rows, North);
    } else if d == West && j == 0 {
      MovePlayerToOppositeCell(player, cols, East);
    } else if d == East && j == cols - 1 {
      MovePlayerToOppositeCell(player, cols, West);
    } else {
      player.Move(d);
    }
  }
}
