/**
 * The room maze: after the perfect maze is built, inner walls keep coming down, one per
 * drawn inner edge, until the wall count reaches the requested budget. The outer
 * perimeter is never opened.
 */
module RoomMaze {
  import opened Locations
  import opened MazeHelper
  import opened Cells
  import opened Edges
  import opened Grids
  import opened GridEdges
  import opened EdgeDraw
  import opened Tearing
  import opened Borders
  import opened Connectivity

  /** `calculateBorderWalls`: the walls of the outer perimeter. */
  function BorderWalls(rows: int, cols: int): (r: int)
    ensures rows >= 0 && cols >= 0 ==> r == 2 * |BorderEdges(rows, cols)|
    ensures r + (rows - 1) * (cols - 1) == MaxRemainingWalls(rows, cols)
  {
    rows * 2 + cols * 2
  }

  /** A budget between the perimeter and one less than the perfect maze's wall count. */
  predicate IsNumOfRemainingWallsValid(rows: int, cols: int, remaining: int)
    ensures IsNumOfRemainingWallsValid(rows, cols, remaining) && rows > 0 && cols > 0 ==>
      rows >= 2 && cols >= 2 && 1 <= MaxRemainingWalls(rows, cols) - remaining <= (rows - 1) * (cols - 1)
  {
    remaining >= BorderWalls(rows, cols) && remaining <= MaxRemainingWalls(rows, cols) - 1
  }

  /**
   * The walls a room maze may still remove are exactly the inner walls a perfect maze keeps,
   * so a budget at the lower bound removes every one of them.
   */
  lemma RemovableWalls(rows: int, cols: int)
    ensures MaxRemainingWalls(rows, cols) - BorderWalls(rows, cols) == (rows - 1) * (cols - 1)
  {
  }

  /** A maze one cell thin has no inner wall left to remove, so no budget is valid. */
  lemma ThinMazeHasNoBudget(rows: int, cols: int, remaining: int)
    requires rows > 0 && cols > 0 && (rows == 1 || cols == 1)
    ensures !IsNumOfRemainingWallsValid(rows, cols, remaining)
  {
    RemovableWalls(rows, cols);
  }

  /** The valid range of a 4 x 6 room maze is 20 .. 34. */
  lemma BudgetOf4By6(remaining: int)
    ensures IsNumOfRemainingWallsValid(4, 6, remaining) <==> 20 <= remaining <= 34
  {
  }

  /**
   * The grid while inner walls are removed: `innerList` holds, once each, exactly the inner
   * edges whose walls stand (every other inner edge has both walls down), the counter is the
   * wall count, the perimeter stands, and so every standing wall beyond the perimeter
   * belongs to a listed edge.
   */
  ghost predicate RoomState(ws: WallGrid, rows: int, cols: int, remained: int, innerList: seq<Edge>)
  {
    Shape(ws, rows, cols) && Distinct(innerList)
    && (forall e :: e in innerList ==> Inner(e, rows, cols))
    && (forall e :: Inner(e, rows, cols) ==>
          (e in innerList ==> WallsStand(ws, e, rows, cols)) && (e !in innerList ==> WallsDown(ws, e, rows, cols)))
    && remained == CountWalls(ws, rows, cols)
    && |innerList| == remained - BorderWalls(rows, cols)
    && BorderStanding(ws, rows, cols)
  }

  /** A perfect maze, as `createPerfectMazeGrid` leaves it, is in this state. */
  lemma PerfectMazeIsRoomState(ws: WallGrid, rows: int, cols: int, remained: int, innerList: seq<Edge>)
    requires Shape(ws, rows, cols) && remained == MaxRemainingWalls(rows, cols) && CountWalls(ws, rows, cols) == remained
    requires |innerList| == (rows - 1) * (cols - 1) && Distinct(innerList)
    requires forall e :: e in innerList ==> e in InnerEdges(rows, cols)
    requires forall e :: Inner(e, rows, cols) ==>
      (e in innerList ==> WallsStand(ws, e, rows, cols)) && (e !in innerList ==> WallsDown(ws, e, rows, cols))
    requires BorderStanding(ws, rows, cols)
    ensures RoomState(ws, rows, cols, remained, innerList)
  {
    InnerEdgesMembers(rows, cols);
    RemovableWalls(rows, cols);
  }

  /** Tearing down the listed edge `innerList[k]`: one wall less, one edge less, perimeter intact. */
  lemma {:induction false} RoomStep(ws: WallGrid, rows: int, cols: int, remained: int, innerList: seq<Edge>, k: int)
    requires RoomState(ws, rows, cols, remained, innerList) && 0 <= k < |innerList|
    ensures Inner(innerList[k], rows, cols)
    ensures InGrid(Src(innerList[k], cols), rows, cols) && InGrid(Dst(innerList[k], cols), rows, cols)
    ensures var e := innerList[k];
      RoomState(TearInnerResult(ws, rows, cols, e.source, e.dest), rows, cols, remained - 1, RemoveAt(innerList, k))
  {
    var e := innerList[k];
    TearInnerOwnAndBorder(ws, rows, cols, e);
    var ws' := TearInnerResult(ws, rows, cols, e.source, e.dest);
    var rest := RemoveAt(innerList, k);
    TearInnerCount(ws, rows, cols, e);
    forall e' | Inner(e', rows, cols)
      ensures (e' in rest ==> WallsStand(ws', e', rows, cols)) && (e' !in rest ==> WallsDown(ws', e', rows, cols))
    {
      if e' != e {
        TearInnerKeepsOthers(ws, rows, cols, e, e');
      }
    }
  }

  /** One iteration of `continueRemoveWalls`: draw an inner edge and tear its walls down. */
  method RoomDraw(grid: seq<seq<Cell>>, rows: int, cols: int, remained: int, innerList: seq<Edge>, ghost ws: WallGrid)
    returns (remained': int, innerList': seq<Edge>, ghost ws': WallGrid)
    requires RoomState(ws, rows, cols, remained, innerList)
    requires WellFormed(grid, rows, cols) && Mirrors(grid, ws, rows, cols)
    requires |innerList| > 0
    requires Connected(ws, rows, cols)
    modifies CellsOf(grid)`walls
    ensures RoomState(ws', rows, cols, remained', innerList')
    ensures WellFormed(grid, rows, cols) && Mirrors(grid, ws', rows, cols)
    ensures remained' == remained - 1 && |innerList'| == |innerList| - 1
    ensures forall e :: e in innerList' ==> e in innerList
    ensures Connected(ws', rows, cols)
  {
    var ok, sourceId, destId;
    ok, sourceId, destId, innerList' := RandomSelectAndRemoveEdges(innerList);
    ghost var k :| 0 <= k < |innerList| && innerList[k] == Edge(sourceId, destId) && innerList' == RemoveAt(innerList, k);
    remained' := remained - 1;
    ws' := TearInnerResult(ws, rows, cols, sourceId, destId);
    assert InGrid(IdToLocation(sourceId, cols), rows, cols) && InGrid(IdToLocation(destId, cols), rows, cols)
      && RoomState(ws', rows, cols, remained', innerList') by {
      RoomStep(ws, rows, cols, remained, innerList, k);
    }
    TearInnerKeepsConnected(ws, rows, cols, sourceId, destId);
    TearDownInnerWall(sourceId, destId, grid, rows, cols, ws);
  }

  /**
   * `continueRemoveWalls` of the room maze: inner walls come down one at a time until the
   * counter reaches the budget. Each step lowers the wall count by one and removes one edge
   * from `innerEdgeList`; the perimeter stays, and the list never runs dry because the
   * budget is at least the perimeter.
   */
  method ContinueRemoveWalls(numOfRemainingWalls: int, remainedWalls: int, innerEdgeList: seq<Edge>,
                             grid: seq<seq<Cell>>, rows: int, cols: int)
    returns (innerList: seq<Edge>)
    requires WellFormed(grid, rows, cols) && RoomState(Walls(grid), rows, cols, remainedWalls, innerEdgeList)
    requires numOfRemainingWalls >= BorderWalls(rows, cols)
    requires Connected(Walls(grid), rows, cols)
    modifies CellsOf(grid)`walls
    ensures WellFormed(grid, rows, cols)
    ensures var final := if remainedWalls > numOfRemainingWalls then numOfRemainingWalls else remainedWalls;
      RoomState(Walls(grid), rows, cols, final, innerList)
      && CountWalls(Walls(grid), rows, cols) == final
      && |innerEdgeList| - |innerList| == remainedWalls - final
    ensures BorderStanding(Walls(grid), rows, cols)
    ensures forall e :: e in innerList ==> e in innerEdgeList
    ensures Connected(Walls(grid), rows, cols)
  {
    var remained := remainedWalls;
    innerList := innerEdgeList;
    ghost var ws := Walls(grid);
    MirrorsWalls(grid, ws, rows, cols);
    while remained > numOfRemainingWalls
      invariant RoomState(ws, rows, cols, remained, innerList)
      invariant WellFormed(grid, rows, cols) && Mirrors(grid, ws, rows, cols)
      invariant remainedWalls > numOfRemainingWalls ==> remained >= numOfRemainingWalls
      invariant remainedWalls <= numOfRemainingWalls ==> remained == remainedWalls
      invariant remained <= remainedWalls && |innerEdgeList| - |innerList| == remainedWalls - remained
      invariant forall e :: e in innerList ==> e in innerEdgeList
      invariant Connected(ws, rows, cols)
      decreases remained
    {
      remained, innerList, ws := RoomDraw(grid, rows, cols, remained, innerList, ws);
    }
    MirrorsWalls(grid, ws, rows, cols);
  }
}
