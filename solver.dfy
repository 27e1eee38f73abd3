/**
 * The maze solver: a depth-first search from the start that shares one visited set across
 * the whole search and appends to one path. A call that reaches the goal appends the goal;
 * a call that returns after some successful neighbour appends its own cell once per
 * successful neighbour. The path therefore begins at the goal and ends at the start, and in
 * a maze with cycles it can hold several walks to the goal one after the other.
 */
module Solver {
  import opened Directions
  import opened Locations
  import opened Cells
  import opened Grids
  import opened Moves
  import opened Connectivity
  import WrapRoomMaze

  /** `moveInSolveMaze`: a unit step, or in a wrap maze the step that may cross to the opposite side. */
  function NextInSolve(wrap: bool, rows: int, cols: int, c: Coord, d: Direction): (r: Coord)
    ensures r.i == c.i || r.j == c.j
    ensures wrap && InGrid(c, rows, cols) ==> InGrid(r, rows, cols)
    ensures !wrap ==> r == Coord(c.i + RowDelta(d), c.j + ColDelta(d))
  {
    if wrap then WrapRoomMaze.MoveInSolveMaze(rows, cols, c, d) else MoveToNextCell(c, d)
  }

  /** Open moves cannot leave the grid: the maze wraps, or its perimeter stands. */
  predicate Closed(ws: WallGrid, rows: int, cols: int, wrap: bool)
    requires Shape(ws, rows, cols)
  {
    wrap || BorderStanding(ws, rows, cols)
  }

  /** From a cell of a closed maze, a move through an open wall lands on a cell of the grid. */
  lemma OpenMoveStaysInGrid(ws: WallGrid, rows: int, cols: int, wrap: bool, c: Coord, d: Direction)
    requires Shape(ws, rows, cols) && Closed(ws, rows, cols, wrap) && InGrid(c, rows, cols) && !ws[c.i][c.j][d]
    ensures InGrid(NextInSolve(wrap, rows, cols, c, d), rows, cols)
  {
    if wrap {
      WrapRoomMaze.WrapMoveLands(rows, cols, c, d);
    }
  }

  /** `b` is one move through an open wall away from the cell `a`. */
  ghost predicate Step(ws: WallGrid, rows: int, cols: int, wrap: bool, a: Coord, b: Coord)
    requires Shape(ws, rows, cols)
  {
    InGrid(a, rows, cols) && exists d: Direction :: !ws[a.i][a.j][d] && NextInSolve(wrap, rows, cols, a, d) == b
  }

  /** Read from its end, `path[lo..]` moves through open walls, except where it jumps back to the goal. */
  ghost predicate WalksBack(ws: WallGrid, rows: int, cols: int, wrap: bool, goal: Coord, path: seq<Coord>, lo: int)
    requires Shape(ws, rows, cols) && 0 <= lo
  {
    forall k :: lo <= k < |path| - 1 ==> path[k + 1] == goal || Step(ws, rows, cols, wrap, path[k + 1], path[k])
  }

  /** Read from its end, `path[lo..]` is a walk through open walls. */
  ghost predicate Route(ws: WallGrid, rows: int, cols: int, wrap: bool, path: seq<Coord>, lo: int)
    requires Shape(ws, rows, cols) && 0 <= lo
  {
    forall k :: lo <= k < |path| - 1 ==> Step(ws, rows, cols, wrap, path[k + 1], path[k])
  }

  /** Every open move out of a cell that `seen'` holds and `seen` did not lands in `seen'`. */
  ghost predicate ClosedOver(ws: WallGrid, rows: int, cols: int, wrap: bool, seen: set<Coord>, seen': set<Coord>)
    requires Shape(ws, rows, cols)
  {
    forall x, d :: x in seen' && x !in seen && InGrid(x, rows, cols) && !ws[x.i][x.j][d] ==>
      NextInSolve(wrap, rows, cols, x, d) in seen'
  }

  function GridCoords(rows: int, cols: int): set<Coord>
  {
    set i, j | 0 <= i < rows && 0 <= j < cols :: Coord(i, j)
  }

  lemma InGridCoords(c: Coord, rows: int, cols: int)
    requires InGrid(c, rows, cols)
    ensures c in GridCoords(rows, cols)
  {
    assert c == Coord(c.i, c.j);
  }

  /**
   * `dfs` from `c`. The goal is tested before the visited set, so the goal is never marked
   * visited; any other cell is marked before its open neighbours are searched in NORTH,
   * SOUTH, EAST, WEST order, and the search does not stop at the first success. What is
   * appended starts with the goal and ends with `c` when the goal was reached, and nothing
   * is appended otherwise; then every open move out of a cell this call marked lands on a
   * marked cell.
   */
  method Dfs(grid: seq<seq<Cell>>, rows: int, cols: int, wrap: bool, goal: Coord,
             c: Coord, seen: set<Coord>, path: seq<Coord>, ghost ws: WallGrid)
    returns (found: bool, seen': set<Coord>, path': seq<Coord>)
    requires WellFormed(grid, rows, cols) && Shape(ws, rows, cols) && Mirrors(grid, ws, rows, cols) && Closed(ws, rows, cols, wrap)
    requires InGrid(c, rows, cols) || c == goal
    requires seen <= GridCoords(rows, cols) && goal !in seen
    ensures seen <= seen' <= GridCoords(rows, cols) && goal !in seen'
    ensures c == goal ==> found && path' == path + [goal]
    ensures c != goal ==> c in seen'
    ensures |path| <= |path'| && path'[..|path|] == path
    ensures found <==> |path'| > |path|
    ensures found ==> path'[|path|] == goal && path'[|path'| - 1] == c
    ensures WalksBack(ws, rows, cols, wrap, goal, path', |path|)
    ensures found ==> c == goal || InGrid(goal, rows, cols)
    ensures !found ==> ClosedOver(ws, rows, cols, wrap, seen, seen')
    decreases GridCoords(rows, cols) - seen, 1
  {
    if c == goal {
      return true, seen, path + [c];
    }
    if c in seen {
      return false, seen, path;
    }
    InGridCoords(c, rows, cols);
    var dirs := grid[c.i][c.j].FindNoWallDirection();
    OpenDirectionsSpec(ws[c.i][c.j]);
    found, seen', path' := SearchNeighbours(grid, rows, cols, wrap, goal, c, dirs, seen + {c}, path, ws);
  }

  /** The loop of `dfs` over the open sides `dirs` of `c`; it does not stop at the first success. */
  method SearchNeighbours(grid: seq<seq<Cell>>, rows: int, cols: int, wrap: bool, goal: Coord,
                          c: Coord, dirs: seq<Direction>, seen: set<Coord>, path: seq<Coord>, ghost ws: WallGrid)
    returns (found: bool, seen': set<Coord>, path': seq<Coord>)
    requires WellFormed(grid, rows, cols) && Shape(ws, rows, cols) && Mirrors(grid, ws, rows, cols) && Closed(ws, rows, cols, wrap)
    requires InGrid(c, rows, cols) && c in seen && forall d :: d in dirs ==> !ws[c.i][c.j][d]
    requires seen <= GridCoords(rows, cols) && goal !in seen
    ensures seen <= seen' <= GridCoords(rows, cols) && goal !in seen'
    ensures |path| <= |path'| && path'[..|path|] == path
    ensures found <==> |path'| > |path|
    ensures found ==> path'[|path|] == goal && path'[|path'| - 1] == c
    ensures WalksBack(ws, rows, cols, wrap, goal, path', |path|)
    ensures found ==> InGrid(goal, rows, cols)
    ensures !found ==> ClosedOver(ws, rows, cols, wrap, seen, seen')
    ensures !found ==> forall d :: d in dirs ==> NextInSolve(wrap, rows, cols, c, d) in seen'
    decreases GridCoords(rows, cols) - seen, 3
  {
    seen' := seen;
    path' := path;
    found := false;
    var k := 0;
    while k < |dirs|
      invariant 0 <= k <= |dirs|
      invariant seen <= seen' <= GridCoords(rows, cols) && goal !in seen'
      invariant |path| <= |path'| && path'[..|path|] == path
      invariant found <==> |path'| > |path|
      invariant found ==> path'[|path|] == goal && path'[|path'| - 1] == c
      invariant WalksBack(ws, rows, cols, wrap, goal, path', |path|)
      invariant found ==> InGrid(goal, rows, cols)
      invariant !found ==> ClosedOver(ws, rows, cols, wrap, seen, seen')
      invariant !found ==> forall m :: 0 <= m < k ==> NextInSolve(wrap, rows, cols, c, dirs[m]) in seen'
    {
      var innerFound, seen'';
      innerFound, seen'', path' := SearchNeighbour(grid, rows, cols, wrap, goal, c, dirs[k], seen', |path|, path', ws);
      if !found && !innerFound {
        ClosedOverGrows(ws, rows, cols, wrap, seen, seen', seen'');
      }
      seen' := seen'';
      found := found || innerFound;
      k := k + 1;
    }
  }

  /**
   * One turn of the loop in `dfs`: the search from the neighbour of `c` toward the open
   * side `d`, after which `c` is appended if that search reached the goal.
   */
  method SearchNeighbour(grid: seq<seq<Cell>>, rows: int, cols: int, wrap: bool, goal: Coord,
                         c: Coord, d: Direction, seen: set<Coord>, lo: int, path: seq<Coord>, ghost ws: WallGrid)
    returns (innerFound: bool, seen': set<Coord>, path': seq<Coord>)
    requires WellFormed(grid, rows, cols) && Shape(ws, rows, cols) && Mirrors(grid, ws, rows, cols) && Closed(ws, rows, cols, wrap)
    requires InGrid(c, rows, cols) && !ws[c.i][c.j][d] && c in seen
    requires seen <= GridCoords(rows, cols) && goal !in seen
    requires 0 <= lo <= |path| && (|path| > lo ==> path[lo] == goal && path[|path| - 1] == c)
    requires WalksBack(ws, rows, cols, wrap, goal, path, lo)
    ensures seen <= seen' <= GridCoords(rows, cols) && goal !in seen'
    ensures |path| <= |path'| && path'[..|path|] == path
    ensures innerFound <==> |path'| > |path|
    ensures |path'| > lo ==> path'[lo] == goal && path'[|path'| - 1] == c
    ensures WalksBack(ws, rows, cols, wrap, goal, path', lo)
    ensures innerFound ==> InGrid(goal, rows, cols)
    ensures !innerFound ==> ClosedOver(ws, rows, cols, wrap, seen, seen') && NextInSolve(wrap, rows, cols, c, d) in seen'
    decreases GridCoords(rows, cols) - seen, 2
  {
    var next := NextInSolve(wrap, rows, cols, c, d);
    OpenMoveStaysInGrid(ws, rows, cols, wrap, c, d);
    var p2;
    innerFound, seen', p2 := Dfs(grid, rows, cols, wrap, goal, next, seen, path, ws);
    if innerFound {
      path' := p2 + [c];
      assert path'[..|path|] == path && path'[lo] == goal && path'[|path'| - 1] == c
        && WalksBack(ws, rows, cols, wrap, goal, path', lo) by {
        StepThroughOpenSide(ws, rows, cols, wrap, c, d);
        ReturnExtendsWalk(ws, rows, cols, wrap, goal, lo, path, p2, c, next);
      }
    } else {
      assert p2 == p2[..|path|];
      path' := path;
    }
  }

  /** Closing over `seen'` from `seen`, then over `seen''` from `seen'`, closes over `seen''` from `seen`. */
  lemma ClosedOverGrows(ws: WallGrid, rows: int, cols: int, wrap: bool, seen: set<Coord>, seen': set<Coord>, seen'': set<Coord>)
    requires Shape(ws, rows, cols) && seen' <= seen''
    requires ClosedOver(ws, rows, cols, wrap, seen, seen') && ClosedOver(ws, rows, cols, wrap, seen', seen'')
    ensures ClosedOver(ws, rows, cols, wrap, seen, seen'')
  {
  }

  /** Moving toward an open side of a cell is a step. */
  lemma StepThroughOpenSide(ws: WallGrid, rows: int, cols: int, wrap: bool, c: Coord, d: Direction)
    requires Shape(ws, rows, cols) && InGrid(c, rows, cols) && !ws[c.i][c.j][d]
    ensures Step(ws, rows, cols, wrap, c, NextInSolve(wrap, rows, cols, c, d))
  {
  }

  /**
   * After a successful search from the neighbour `next` of `c` appended `p2[|path|..]`,
   * appending `c` keeps the path walking back through open walls.
   */
  lemma ReturnExtendsWalk(ws: WallGrid, rows: int, cols: int, wrap: bool, goal: Coord, lo: int,
                          path: seq<Coord>, p2: seq<Coord>, c: Coord, next: Coord)
    requires Shape(ws, rows, cols) && 0 <= lo <= |path| < |p2| && p2[..|path|] == path
    requires p2[|path|] == goal && p2[|p2| - 1] == next && Step(ws, rows, cols, wrap, c, next)
    requires WalksBack(ws, rows, cols, wrap, goal, path, lo) && WalksBack(ws, rows, cols, wrap, goal, p2, |path|)
    requires |path| > lo ==> path[lo] == goal
    ensures (p2 + [c])[..|path|] == path && (p2 + [c])[lo] == goal && (p2 + [c])[|p2|] == c
    ensures WalksBack(ws, rows, cols, wrap, goal, p2 + [c], lo)
  {
    var q := p2 + [c];
    assert q[..|path|] == p2[..|path|];
    forall k | lo <= k < |q| - 1 ensures q[k + 1] == goal || Step(ws, rows, cols, wrap, q[k + 1], q[k]) {
      if k < |path| - 1 {
        assert q[k] == path[k] && q[k + 1] == path[k + 1];
      } else if k == |path| - 1 {
        assert q[k + 1] == goal;
      } else if k < |p2| - 1 {
        assert q[k] == p2[k] && q[k + 1] == p2[k + 1];
      }
    }
  }

  /**
   * `solveByDfs`: the search from the start with nothing visited. A start outside the grid
   * that is not the goal makes the first grid lookup fail (`ok` is false); otherwise a
   * non-empty path begins at the goal and ends at the start. The path is empty only when
   * the goal lies outside the grid, and in a connected maze a goal inside the grid is found.
   */
  method SolveByDfs(grid: seq<seq<Cell>>, rows: int, cols: int, wrap: bool, start: Coord, goal: Coord)
    returns (ok: bool, path: seq<Coord>)
    requires WellFormed(grid, rows, cols) && Closed(Walls(grid), rows, cols, wrap)
    ensures ok <==> start == goal || InGrid(start, rows, cols)
    ensures start == goal ==> path == [goal]
    ensures ok && path != [] ==> path[0] == goal && path[|path| - 1] == start
    ensures ok ==> WalksBack(Walls(grid), rows, cols, wrap, goal, path, 0)
    ensures ok && path != [] ==> start == goal || InGrid(goal, rows, cols)
    ensures ok && InGrid(goal, rows, cols) && Connected(Walls(grid), rows, cols) ==> path != []
  {
    if start != goal && !InGrid(start, rows, cols) {
      return false, [];
    }
    ghost var ws := Walls(grid);
    MirrorsWalls(grid, ws, rows, cols);
    var found, seen;
    found, seen, path := Dfs(grid, rows, cols, wrap, goal, start, {}, [], ws);
    ok := true;
    if !found && start != goal && InGrid(goal, rows, cols) {
      FailedSearchSeparates(ws, rows, cols, wrap, start, goal, seen);
    }
    MirrorsWalls(grid, ws, rows, cols);
  }

  /** Two cells next to each other across torn-down walls are one move apart, in a wrap maze too. */
  lemma OpenPairIsStep(ws: WallGrid, rows: int, cols: int, wrap: bool, a: Coord, b: Coord)
    requires Shape(ws, rows, cols) && OpenPair(ws, rows, cols, a, b)
    ensures Step(ws, rows, cols, wrap, a, b)
  {
    var d := if b == Coord(a.i, a.j + 1) then East else if a == Coord(b.i, b.j + 1) then West
             else if b == Coord(a.i + 1, a.j) then South else North;
    assert !ws[a.i][a.j][d] && NextInSolve(wrap, rows, cols, a, d) == b;
  }

  /**
   * In a connected maze every cell can be reached from every other by moves through open
   * walls: read from its end, some route leads from `from` to `to`.
   */
  lemma ConnectedMazeHasRoutes(ws: WallGrid, rows: int, cols: int, wrap: bool, from: Coord, to: Coord)
    requires Shape(ws, rows, cols) && Connected(ws, rows, cols)
    requires InGrid(from, rows, cols) && InGrid(to, rows, cols)
    ensures exists path :: |path| > 0 && path[0] == to && path[|path| - 1] == from && Route(ws, rows, cols, wrap, path, 0)
  {
    var path :| Walk(ws, rows, cols, path) && path[0] == to && path[|path| - 1] == from;
    forall k | 0 <= k < |path| - 1 ensures Step(ws, rows, cols, wrap, path[k + 1], path[k]) {
      OpenPairIsStep(ws, rows, cols, wrap, path[k + 1], path[k]);
    }
    assert Route(ws, rows, cols, wrap, path, 0);
  }

  /** A walk that starts in a set closed under open moves stays in it. */
  lemma {:induction false} WalkStaysIn(ws: WallGrid, rows: int, cols: int, wrap: bool, s: set<Coord>, path: seq<Coord>)
    requires Shape(ws, rows, cols) && ClosedOver(ws, rows, cols, wrap, {}, s)
    requires Walk(ws, rows, cols, path) && path[0] in s
    ensures path[|path| - 1] in s
  {
    if |path| > 1 {
      var p := path[..|path| - 1];
      assert Walk(ws, rows, cols, p) by {
        forall k | 0 <= k < |p| - 1 ensures OpenPair(ws, rows, cols, p[k], p[k + 1]) {
          assert p[k] == path[k] && p[k + 1] == path[k + 1];
        }
      }
      WalkStaysIn(ws, rows, cols, wrap, s, p);
      var a, b := path[|path| - 2], path[|path| - 1];
      OpenPairIsStep(ws, rows, cols, wrap, a, b);
      var d :| !ws[a.i][a.j][d] && NextInSolve(wrap, rows, cols, a, d) == b;
    }
  }

  /**
   * A search from `start` that fails leaves behind a set `seen` closed under open moves,
   * holding the start and not the goal: no walk then leads from the start to the goal.
   */
  lemma FailedSearchSeparates(ws: WallGrid, rows: int, cols: int, wrap: bool, start: Coord, goal: Coord, seen: set<Coord>)
    requires Shape(ws, rows, cols)
    requires ClosedOver(ws, rows, cols, wrap, {}, seen) && start in seen && goal !in seen
    ensures !Linked(ws, rows, cols, start, goal)
  {
    forall path | Walk(ws, rows, cols, path) && path[0] == start ensures path[|path| - 1] != goal {
      WalkStaysIn(ws, rows, cols, wrap, seen, path);
    }
  }


  /**
   * A solver path holds a real route: from its last cell back to some occurrence of the
   * goal, every step goes through an open wall.
   */
  lemma {:induction false} PathHoldsRoute(ws: WallGrid, rows: int, cols: int, wrap: bool, goal: Coord, path: seq<Coord>)
    requires Shape(ws, rows, cols)
    requires |path| > 0 && path[0] == goal && WalksBack(ws, rows, cols, wrap, goal, path, 0)
    ensures exists k :: 0 <= k < |path| && path[k] == goal && Route(ws, rows, cols, wrap, path, k)
  {
    if |path| == 1 {
      assert Route(ws, rows, cols, wrap, path, 0);
    } else {
      var p := path[..|path| - 1];
      assert WalksBack(ws, rows, cols, wrap, goal, p, 0) by {
        forall m | 0 <= m < |p| - 1 ensures p[m + 1] == goal || Step(ws, rows, cols, wrap, p[m + 1], p[m]) {
          assert p[m] == path[m] && p[m + 1] == path[m + 1];
        }
      }
      PathHoldsRoute(ws, rows, cols, wrap, goal, p);
      var k :| 0 <= k < |p| && p[k] == goal && Route(ws, rows, cols, wrap, p, k);
      if path[|path| - 1] == goal {
        assert Route(ws, rows, cols, wrap, path, |path| - 1);
      } else {
        forall m | k <= m < |path| - 1 ensures Step(ws, rows, cols, wrap, path[m + 1], path[m]) {
          if m < |path| - 2 {
            assert p[m] == path[m] && p[m + 1] == path[m + 1];
          }
        }
        assert Route(ws, rows, cols, wrap, path, k);
      }
    }
  }
}
