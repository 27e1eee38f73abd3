/**
 * The randomized Kruskal phase of maze generation: draw inner edges at random; when the two
 * cells are still in different sets, join the sets and tear down the wall between them,
 * until the remaining-wall counter reaches `rows*cols + rows + cols + 1`.
 */
module Kruskal {
  import opened Directions
  import opened Locations
  import opened MazeHelper
  import opened Cells
  import opened Edges
  import opened Grids
  import opened GridEdges
  import opened Tearing
  import opened DisjointSet
  import opened Connectivity

  /**
   * What holds between draws: the disjoint sets are flat and count `rows*cols - unions` sets
   * whose sizes add up to `rows*cols`; the counter and the wall count both stand at
   * `calculateTotalWalls - unions`; `innerList` holds exactly the inner edges whose walls
   * still stand; every edge already drawn joins cells of the same set; the perimeter stands.
   */
  ghost predicate KruskalState(ws: WallGrid, p: seq<int>, rows: int, cols: int, remained: int,
                               innerList: seq<Edge>, edgeList: seq<Edge>, unions: int)
  {
    Shape(ws, rows, cols) && |p| == rows * cols && Flat(p)
    && 0 <= unions && CountRoots(p, |p|) == rows * cols - unions && RootMass(p, |p|) == rows * cols
    && remained == TotalWalls(rows, cols) - unions
    && CountWalls(ws, rows, cols) == remained
    && Distinct(innerList) && Distinct(edgeList)
    && (forall e :: e in innerList ==> Inner(e, rows, cols))
    && (forall e :: e in edgeList ==> e in innerList)
    && |innerList| == rows * (cols - 1) + cols * (rows - 1) - unions
    && (forall e :: Inner(e, rows, cols) ==>
          (e in innerList ==> WallsStand(ws, e, rows, cols)) && (e !in innerList ==> WallsDown(ws, e, rows, cols)))
    && (forall e :: Inner(e, rows, cols) && e !in edgeList ==>
          0 <= e.source < |p| && 0 <= e.dest < |p| && Root(p, e.source) == Root(p, e.dest))
    && BorderStanding(ws, rows, cols)
  }

  lemma KruskalInit(ws: WallGrid, p: seq<int>, rows: int, cols: int)
    requires Shape(ws, rows, cols) && AllStanding(ws, rows, cols)
    requires |p| == rows * cols && forall k :: 0 <= k < |p| ==> p[k] == -1
    ensures KruskalState(ws, p, rows, cols, TotalWalls(rows, cols), InnerEdges(rows, cols), InnerEdges(rows, cols), 0)
  {
    var edges := InnerEdges(rows, cols);
    assert CountWalls(ws, rows, cols) == TotalWalls(rows, cols) by {
      FreshGridWallCount(ws, rows, cols);
    }
    assert Flat(p) && CountRoots(p, |p|) == |p| && RootMass(p, |p|) == |p| by {
      SingletonsAreFlat(p);
    }
    assert Distinct(edges) && |edges| == rows * (cols - 1) + cols * (rows - 1) by {
      InnerEdgesDistinct(rows, cols);
      InnerEdgesLength(rows, cols);
    }
    InnerEdgesMembers(rows, cols);
  }

  /** The cell at (i, j) is in the same set as the cell at (0, 0) once every inner edge joins its two cells. */
  lemma {:induction false} JoinedToOrigin(p: seq<int>, rows: int, cols: int, i: int, j: int)
    requires rows > 0 && cols > 0 && |p| == rows * cols && Flat(p)
    requires forall e :: Inner(e, rows, cols) ==> 0 <= e.source < |p| && 0 <= e.dest < |p| && Root(p, e.source) == Root(p, e.dest)
    requires 0 <= i < rows && 0 <= j < cols
    ensures 0 <= IdxToId(i, j, cols) < |p| && Root(p, IdxToId(i, j, cols)) == Root(p, 0)
    decreases i, j
  {
    IdxInGrid(i, j, rows, cols);
    if j > 0 {
      var e := Edge(IdxToId(i, j - 1, cols), IdxToId(i, j, cols));
      LocationOfId(i, j - 1, cols);
      LocationOfId(i, j, cols);
      assert Horizontal(e, rows, cols);
      JoinedToOrigin(p, rows, cols, i, j - 1);
    } else if i > 0 {
      var e := Edge(IdxToId(i - 1, 0, cols), IdxToId(i, 0, cols));
      LocationOfId(i - 1, 0, cols);
      LocationOfId(i, 0, cols);
      assert Vertical(e, rows, cols);
      JoinedToOrigin(p, rows, cols, i - 1, 0);
    }
  }

  /** The inner edges connect the whole grid: when each joins its two cells, there is one set. */
  lemma AllJoined(p: seq<int>, rows: int, cols: int)
    requires rows > 0 && cols > 0 && |p| == rows * cols && Flat(p)
    requires forall e :: Inner(e, rows, cols) ==> 0 <= e.source < |p| && 0 <= e.dest < |p| && Root(p, e.source) == Root(p, e.dest)
    ensures forall k :: 0 <= k < |p| ==> Root(p, k) == Root(p, 0)
    ensures CountRoots(p, |p|) == 1
  {
    forall k | 0 <= k < |p| ensures Root(p, k) == Root(p, 0) {
      IdInGrid(k, rows, cols);
      IdOfLocation(k, cols);
      var l := IdToLocation(k, cols);
      JoinedToOrigin(p, rows, cols, l.i, l.j);
    }
    OneRootWhenAllJoined(p, Root(p, 0), |p|);
  }

  /** Two different roots make at least two sets. */
  lemma {:induction false} TwoRoots(p: seq<int>, n: nat, a: int, b: int)
    requires n <= |p| && 0 <= a < b < n && p[a] < 0 && p[b] < 0
    ensures CountRoots(p, n) >= 2
  {
    if b < n - 1 {
      TwoRoots(p, n - 1, a, b);
    } else {
      SomeRoot(p, n - 1, a);
    }
  }

  /** While the counter is above its target, some edge is left to draw. */
  lemma {:induction false} KruskalProgress(ws: WallGrid, p: seq<int>, rows: int, cols: int, remained: int,
                                           innerList: seq<Edge>, edgeList: seq<Edge>, unions: int)
    requires KruskalState(ws, p, rows, cols, remained, innerList, edgeList, unions)
    requires remained > MaxRemainingWalls(rows, cols)
    ensures |edgeList| > 0
  {
    if |edgeList| == 0 {
      AllJoined(p, rows, cols);
      assert false;
    }
  }

  /** When the counter no longer exceeds its target it equals it, `(rows-1)*(cols-1)` inner edges remain, and all cells are in one set. */
  lemma {:induction false} KruskalExit(ws: WallGrid, p: seq<int>, rows: int, cols: int, remained: int,
                                       innerList: seq<Edge>, edgeList: seq<Edge>, unions: int)
    requires KruskalState(ws, p, rows, cols, remained, innerList, edgeList, unions)
    requires remained <= MaxRemainingWalls(rows, cols)
    ensures remained == MaxRemainingWalls(rows, cols)
    ensures |innerList| == (rows - 1) * (cols - 1)
    ensures forall k :: 0 <= k < |p| ==> Root(p, k) == Root(p, 0)
  {
    IdxInGrid(0, 0, rows, cols);
    SomeRoot(p, |p|, Root(p, 0));
    assert unions == rows * cols - 1;
    assert (rows - 1) * (cols - 1) == rows * cols - rows - cols + 1;
    forall k | 0 <= k < |p| ensures Root(p, k) == Root(p, 0) {
      var a, b := Root(p, k), Root(p, 0);
      if a < b {
        TwoRoots(p, |p|, a, b);
      } else if b < a {
        TwoRoots(p, |p|, b, a);
      }
    }
  }

  /** The edge drawn from `edgeList` is an inner edge whose two cell IDs are in range. */
  lemma KruskalDrawnEdge(p: seq<int>, rows: int, cols: int, innerList: seq<Edge>, edgeList: seq<Edge>, k: int)
    requires cols > 0 && |p| == rows * cols && 0 <= k < |edgeList|
    requires (forall e :: e in innerList ==> Inner(e, rows, cols)) && (forall e :: e in edgeList ==> e in innerList)
    ensures Inner(edgeList[k], rows, cols)
    ensures 0 <= edgeList[k].source < |p| && 0 <= edgeList[k].dest < |p|
    ensures InGrid(Src(edgeList[k], cols), rows, cols) && InGrid(Dst(edgeList[k], cols), rows, cols)
  {
    assert edgeList[k] in innerList;
    InnerEdgeIds(edgeList[k], rows, cols);
  }

  /** Tearing down the wall pair of the listed inner edge `e` keeps the wall part of the state. */
  lemma JoinWalls(ws: WallGrid, rows: int, cols: int, remained: int, innerList: seq<Edge>, e: Edge)
    requires Shape(ws, rows, cols) && CountWalls(ws, rows, cols) == remained && BorderStanding(ws, rows, cols)
    requires Distinct(innerList) && e in innerList && Inner(e, rows, cols)
    requires forall e' :: Inner(e', rows, cols) ==>
      (e' in innerList ==> WallsStand(ws, e', rows, cols)) && (e' !in innerList ==> WallsDown(ws, e', rows, cols))
    ensures var ws', inner' := TearInnerResult(ws, rows, cols, e.source, e.dest), RemoveFirst(innerList, e);
      Shape(ws', rows, cols) && CountWalls(ws', rows, cols) == remained - 1 && BorderStanding(ws', rows, cols)
      && (forall e' :: Inner(e', rows, cols) ==>
            (e' in inner' ==> WallsStand(ws', e', rows, cols)) && (e' !in inner' ==> WallsDown(ws', e', rows, cols)))
  {
    var ws' := TearInnerResult(ws, rows, cols, e.source, e.dest);
    var inner' := RemoveFirst(innerList, e);
    TearInnerOwnAndBorder(ws, rows, cols, e);
    TearInnerCount(ws, rows, cols, e);
    RemoveFirstDistinct(innerList, e);
    forall e' | Inner(e', rows, cols)
      ensures (e' in inner' ==> WallsStand(ws', e', rows, cols)) && (e' !in inner' ==> WallsDown(ws', e', rows, cols))
    {
      if e' != e {
        TearInnerKeepsOthers(ws, rows, cols, e, e');
      }
    }
  }

  /** Joining the sets of the drawn edge's cells keeps the disjoint-set part of the state. */
  lemma JoinSets(p: seq<int>, rows: int, cols: int, edgeList: seq<Edge>, unions: int, k: int)
    requires cols > 0 && |p| == rows * cols && Flat(p) && 0 <= unions
    requires CountRoots(p, |p|) == rows * cols - unions && RootMass(p, |p|) == rows * cols
    requires 0 <= k < |edgeList| && 0 <= edgeList[k].source < |p| && 0 <= edgeList[k].dest < |p|
    requires Root(p, edgeList[k].source) != Root(p, edgeList[k].dest)
    requires forall e :: Inner(e, rows, cols) && e !in edgeList ==>
      0 <= e.source < |p| && 0 <= e.dest < |p| && Root(p, e.source) == Root(p, e.dest)
    ensures var p', rest := UnionResult(p, edgeList[k].source, edgeList[k].dest), RemoveAt(edgeList, k);
      |p'| == rows * cols && Flat(p')
      && CountRoots(p', |p'|) == rows * cols - (unions + 1) && RootMass(p', |p'|) == rows * cols
      && (forall e :: Inner(e, rows, cols) && e !in rest ==>
            0 <= e.source < |p'| && 0 <= e.dest < |p'| && Root(p', e.source) == Root(p', e.dest))
  {
    var e := edgeList[k];
    var rest := RemoveAt(edgeList, k);
    var p' := UnionResult(p, e.source, e.dest);
    UnionJoins(p, e.source, e.dest);
    forall e' | Inner(e', rows, cols) && e' !in rest
      ensures 0 <= e'.source < |p'| && 0 <= e'.dest < |p'| && Root(p', e'.source) == Root(p', e'.dest)
    {
      InnerEdgeIds(e', rows, cols);
    }
  }

  /** Drawing `edgeList[k]` whose cells are in different sets: join, tear down, count one wall less. */
  lemma {:induction false} KruskalJoinStep(ws: WallGrid, p: seq<int>, rows: int, cols: int, remained: int,
                                           innerList: seq<Edge>, edgeList: seq<Edge>, unions: int, k: int)
    requires KruskalState(ws, p, rows, cols, remained, innerList, edgeList, unions)
    requires 0 <= k < |edgeList| && 0 <= edgeList[k].source < |p| && 0 <= edgeList[k].dest < |p|
    requires Root(p, edgeList[k].source) != Root(p, edgeList[k].dest)
    ensures var e := edgeList[k];
      KruskalState(TearInnerResult(ws, rows, cols, e.source, e.dest), UnionResult(p, e.source, e.dest), rows, cols,
                   remained - 1, RemoveFirst(innerList, e), RemoveAt(edgeList, k), unions + 1)
  {
    var e := edgeList[k];
    assert e in innerList;
    JoinWalls(ws, rows, cols, remained, innerList, e);
    JoinSets(p, rows, cols, edgeList, unions, k);
    RemoveFirstDistinct(innerList, e);
    var rest := RemoveAt(edgeList, k);
    forall e' | e' in rest ensures e' in RemoveFirst(innerList, e) {
    }
  }

  /** Drawing `edgeList[k]` whose cells are already in one set only shortens `edgeList`. */
  lemma {:induction false} KruskalSkipStep(ws: WallGrid, p: seq<int>, rows: int, cols: int, remained: int,
                                           innerList: seq<Edge>, edgeList: seq<Edge>, unions: int, k: int)
    requires KruskalState(ws, p, rows, cols, remained, innerList, edgeList, unions)
    requires 0 <= k < |edgeList| && 0 <= edgeList[k].source < |p| && 0 <= edgeList[k].dest < |p|
    requires Root(p, edgeList[k].source) == Root(p, edgeList[k].dest)
    ensures KruskalState(ws, p, rows, cols, remained, innerList, RemoveAt(edgeList, k), unions)
  {
    var rest := RemoveAt(edgeList, k);
    forall e' | Inner(e', rows, cols) && e' !in rest
      ensures 0 <= e'.source < |p| && 0 <= e'.dest < |p| && Root(p, e'.source) == Root(p, e'.dest)
    {
      InnerEdgeIds(e', rows, cols);
    }
  }

  /**
   * The rest of one iteration once `findAndUnion` has answered `joined` for `edgeList[k]`:
   * when the sets were joined, tear its wall pair down, decrement the counter and remove it
   * from `innerEdgeList`; in every case remove it from `edgeList`.
   */
  method KruskalApply(grid: seq<seq<Cell>>, rows: int, cols: int, remained: int, innerList: seq<Edge>,
                      edgeList: seq<Edge>, k: int, joined: bool, ghost ws: WallGrid, ghost p: seq<int>, ghost p': seq<int>,
                      ghost unions: int)
    returns (remained': int, innerList': seq<Edge>, edgeList': seq<Edge>, ghost ws': WallGrid, ghost unions': int)
    requires KruskalState(ws, p, rows, cols, remained, innerList, edgeList, unions)
    requires WellFormed(grid, rows, cols) && Mirrors(grid, ws, rows, cols)
    requires 0 <= k < |edgeList| && 0 <= edgeList[k].source < |p| && 0 <= edgeList[k].dest < |p|
    requires joined == (Root(p, edgeList[k].source) != Root(p, edgeList[k].dest))
    requires p' == if joined then UnionResult(p, edgeList[k].source, edgeList[k].dest) else p
    requires RootsLinked(ws, p, rows, cols)
    modifies CellsOf(grid)`walls
    ensures KruskalState(ws', p', rows, cols, remained', innerList', edgeList', unions')
    ensures RootsLinked(ws', p', rows, cols)
    ensures WellFormed(grid, rows, cols) && Mirrors(grid, ws', rows, cols)
    ensures edgeList' == RemoveAt(edgeList, k)
    ensures forall e :: e in innerList' ==> e in innerList
    ensures InGrid(IdToLocation(edgeList[k].source, cols), rows, cols) && InGrid(IdToLocation(edgeList[k].dest, cols), rows, cols)
    ensures joined ==> (ws' == TearInnerResult(ws, rows, cols, edgeList[k].source, edgeList[k].dest)
      && remained' == remained - 1 && innerList' == RemoveFirst(innerList, edgeList[k]))
    ensures !joined ==> ws' == ws && remained' == remained && innerList' == innerList
  {
    var e := edgeList[k];
    edgeList' := RemoveAt(edgeList, k);
    KruskalDrawnEdge(p, rows, cols, innerList, edgeList, k);
    if joined {
      ws' := TearInnerResult(ws, rows, cols, e.source, e.dest);
      remained', innerList', unions' := remained - 1, RemoveFirst(innerList, e), unions + 1;
      assert KruskalState(ws', p', rows, cols, remained', innerList', edgeList', unions') by {
        KruskalJoinStep(ws, p, rows, cols, remained, innerList, edgeList, unions, k);
      }
      assert forall x :: x in innerList' ==> x in innerList by {
        RemoveFirstDistinct(innerList, e);
      }
      RootsLinkedJoin(ws, p, rows, cols, e);
      TearDownInnerWall(e.source, e.dest, grid, rows, cols, ws);
    } else {
      KruskalSkipStep(ws, p, rows, cols, remained, innerList, edgeList, unions, k);
      ws', remained', innerList', unions' := ws, remained, innerList, unions;
    }
  }

  /** Draws the index of an edge of `edgeList`; while the counter is above its target there is one. */
  method PickEdge(rows: int, cols: int, remained: int, innerList: seq<Edge>, edgeList: seq<Edge>,
                  ghost ws: WallGrid, ghost p: seq<int>, ghost unions: int)
    returns (k: int)
    requires KruskalState(ws, p, rows, cols, remained, innerList, edgeList, unions)
    requires remained > MaxRemainingWalls(rows, cols)
    ensures 0 <= k < |edgeList| && 0 <= edgeList[k].source < |p| && 0 <= edgeList[k].dest < |p|
  {
    KruskalProgress(ws, p, rows, cols, remained, innerList, edgeList, unions);
    k :| 0 <= k < |edgeList|;
    KruskalDrawnEdge(p, rows, cols, innerList, edgeList, k);
  }

  /**
   * One iteration of `createPerfectMazeGrid` once edge `k` is drawn: if its cells are in
   * different sets, join them, tear the wall pair down, decrement the counter and remove the
   * edge from `innerEdgeList`; in every case remove it from `edgeList`.
   */
  method KruskalDraw(grid: seq<seq<Cell>>, rows: int, cols: int, parent: array<int>, remained: int,
                     innerList: seq<Edge>, edgeList: seq<Edge>, k: int, ghost ws: WallGrid, ghost p: seq<int>, ghost unions: int)
    returns (remained': int, innerList': seq<Edge>, edgeList': seq<Edge>, ghost ws': WallGrid, ghost p': seq<int>, ghost unions': int)
    requires KruskalState(ws, p, rows, cols, remained, innerList, edgeList, unions)
    requires WellFormed(grid, rows, cols) && Mirrors(grid, ws, rows, cols) && parent.Length == rows * cols && parent[..] == p
    requires 0 <= k < |edgeList| && 0 <= edgeList[k].source < |p| && 0 <= edgeList[k].dest < |p|
    requires RootsLinked(ws, p, rows, cols)
    modifies CellsOf(grid)`walls, parent
    ensures KruskalState(ws', p', rows, cols, remained', innerList', edgeList', unions')
    ensures RootsLinked(ws', p', rows, cols)
    ensures WellFormed(grid, rows, cols) && Mirrors(grid, ws', rows, cols) && parent[..] == p'
    ensures |edgeList'| < |edgeList|
    ensures forall e :: e in innerList' ==> e in innerList
    ensures InGrid(IdToLocation(edgeList[k].source, cols), rows, cols) && InGrid(IdToLocation(edgeList[k].dest, cols), rows, cols)
    ensures Root(p, edgeList[k].source) != Root(p, edgeList[k].dest) ==>
      (ws' == TearInnerResult(ws, rows, cols, edgeList[k].source, edgeList[k].dest)
       && remained' == remained - 1 && innerList' == RemoveFirst(innerList, edgeList[k]))
    ensures Root(p, edgeList[k].source) == Root(p, edgeList[k].dest) ==>
      (ws' == ws && remained' == remained && innerList' == innerList)
  {
    var joined := FindAndUnion(edgeList[k].source, edgeList[k].dest, parent);
    p' := parent[..];
    remained', innerList', edgeList', ws', unions' :=
      KruskalApply(grid, rows, cols, remained, innerList, edgeList, k, joined, ws, p, p', unions);
    assert parent[..] == p';
  }

  /**
   * `createPerfectMazeGrid`: draws inner edges at random until the counter reaches
   * `calculateMaxRemainingWalls`. The result is a perfect maze: every cell in one set, the
   * counter and the wall count at the target, and `innerEdgeList` holding exactly the
   * `(rows-1)*(cols-1)` inner edges whose walls still stand. Because every cell stays linked
   * to the root of its set through torn walls, one set means a connected grid.
   */
  method CreatePerfectMazeGrid(remainedWalls: int, innerEdgeList: seq<Edge>, grid: seq<seq<Cell>>,
                               rows: int, cols: int, parent: array<int>)
    returns (remained: int, innerList: seq<Edge>)
    requires WellFormed(grid, rows, cols) && AllStanding(Walls(grid), rows, cols)
    requires innerEdgeList == InnerEdges(rows, cols) && remainedWalls == TotalWalls(rows, cols)
    requires parent.Length == rows * cols && forall k :: 0 <= k < parent.Length ==> parent[k] == -1
    modifies CellsOf(grid)`walls, parent
    ensures WellFormed(grid, rows, cols)
    ensures remained == MaxRemainingWalls(rows, cols) && CountWalls(Walls(grid), rows, cols) == remained
    ensures |innerList| == (rows - 1) * (cols - 1) && Distinct(innerList)
    ensures forall e :: e in innerList ==> e in innerEdgeList
    ensures forall e :: Inner(e, rows, cols) ==>
      (e in innerList ==> WallsStand(Walls(grid), e, rows, cols)) && (e !in innerList ==> WallsDown(Walls(grid), e, rows, cols))
    ensures BorderStanding(Walls(grid), rows, cols)
    ensures Flat(parent[..]) && forall k :: 0 <= k < parent.Length ==> Root(parent[..], k) == Root(parent[..], 0)
    ensures Connected(Walls(grid), rows, cols)
  {
    WellFormedShape(grid, rows, cols);
    KruskalInit(Walls(grid), parent[..], rows, cols);
    RootsLinkedInit(Walls(grid), parent[..], rows, cols);
    var maxRemainingWalls := MaxRemainingWalls(rows, cols);
    var edgeList := innerEdgeList;
    remained := remainedWalls;
    innerList := innerEdgeList;
    ghost var unions := 0;
    ghost var ws := Walls(grid);
    ghost var p := parent[..];
    MirrorsWalls(grid, ws, rows, cols);
    while remained > maxRemainingWalls
      invariant KruskalState(ws, p, rows, cols, remained, innerList, edgeList, unions)
      invariant WellFormed(grid, rows, cols) && Mirrors(grid, ws, rows, cols) && parent.Length == rows * cols && parent[..] == p
      invariant forall e :: e in innerList ==> e in innerEdgeList
      invariant RootsLinked(ws, p, rows, cols)
      decreases |edgeList|
    {
      var randEdgeIdx := PickEdge(rows, cols, remained, innerList, edgeList, ws, p, unions);
      remained, innerList, edgeList, ws, p, unions := KruskalDraw(grid, rows, cols, parent, remained, innerList, edgeList, randEdgeIdx, ws, p, unions);
    }
    KruskalExit(ws, p, rows, cols, remained, innerList, edgeList, unions);
    RootsLinkedConnected(ws, p, rows, cols);
    MirrorsWalls(grid, ws, rows, cols);
  }
}
