/**
 * Connectivity of the maze through torn walls. Two cells are linked when a walk joins them
 * in which every cell is next to the one before across a wall pair that is down on both
 * sides. Tearing walls down never breaks a link, tearing down an inner edge links its two
 * cells, and during the Kruskal phase every cell stays linked to the root cell of its set in
 * the disjoint set, so that one set at the end means one connected maze.
 */
module Connectivity {
  import opened Directions
  import opened Locations
  import opened MazeHelper
  import opened Edges
  import opened Grids
  import opened GridEdges
  import opened Tearing
  import opened Borders
  import opened DisjointSet

  /** `a` and `b` are neighbours in the grid and the walls between them are down on both sides. */
  ghost predicate OpenPair(ws: WallGrid, rows: int, cols: int, a: Coord, b: Coord)
    requires Shape(ws, rows, cols)
  {
    InGrid(a, rows, cols) && InGrid(b, rows, cols)
    && ((b == Coord(a.i, a.j + 1) && !ws[a.i][a.j][East] && !ws[b.i][b.j][West])
        || (a == Coord(b.i, b.j + 1) && !ws[b.i][b.j][East] && !ws[a.i][a.j][West])
        || (b == Coord(a.i + 1, a.j) && !ws[a.i][a.j][South] && !ws[b.i][b.j][North])
        || (a == Coord(b.i + 1, b.j) && !ws[b.i][b.j][South] && !ws[a.i][a.j][North]))
  }

  /** A non-empty walk of grid cells, each one next to the one before across a torn-down wall pair. */
  ghost predicate Walk(ws: WallGrid, rows: int, cols: int, path: seq<Coord>)
    requires Shape(ws, rows, cols)
  {
    |path| > 0
    && (forall k :: 0 <= k < |path| ==> InGrid(path[k], rows, cols))
    && (forall k :: 0 <= k < |path| - 1 ==> OpenPair(ws, rows, cols, path[k], path[k + 1]))
  }

  /** Some walk leads from `a` to `b`. */
  ghost predicate Linked(ws: WallGrid, rows: int, cols: int, a: Coord, b: Coord)
    requires Shape(ws, rows, cols)
  {
    exists path :: Walk(ws, rows, cols, path) && path[0] == a && path[|path| - 1] == b
  }

  /** Every cell of the grid is linked to every other: the maze has no closed-off part. */
  ghost predicate Connected(ws: WallGrid, rows: int, cols: int)
    requires Shape(ws, rows, cols)
  {
    forall a, b :: InGrid(a, rows, cols) && InGrid(b, rows, cols) ==> Linked(ws, rows, cols, a, b)
  }

  /** Every wall that is down in `ws` is down in `ws'` too: walls only came down in between. */
  ghost predicate OnlyTornDown(ws: WallGrid, ws': WallGrid, rows: int, cols: int)
    requires Shape(ws, rows, cols) && Shape(ws', rows, cols)
  {
    forall i, j, d :: 0 <= i < rows && 0 <= j < cols && !ws[i][j][d] ==> !ws'[i][j][d]
  }

  lemma LinkedItself(ws: WallGrid, rows: int, cols: int, c: Coord)
    requires Shape(ws, rows, cols) && InGrid(c, rows, cols)
    ensures Linked(ws, rows, cols, c, c)
  {
    assert Walk(ws, rows, cols, [c]);
  }

  lemma OpenPairLinked(ws: WallGrid, rows: int, cols: int, a: Coord, b: Coord)
    requires Shape(ws, rows, cols) && OpenPair(ws, rows, cols, a, b)
    ensures Linked(ws, rows, cols, a, b)
  {
    assert Walk(ws, rows, cols, [a, b]);
  }

  /** A walk read backwards is a walk: links go both ways. */
  lemma LinkedBack(ws: WallGrid, rows: int, cols: int, a: Coord, b: Coord)
    requires Shape(ws, rows, cols) && Linked(ws, rows, cols, a, b)
    ensures Linked(ws, rows, cols, b, a)
  {
    var path :| Walk(ws, rows, cols, path) && path[0] == a && path[|path| - 1] == b;
    var n := |path|;
    var back := seq(n, k requires 0 <= k < n => path[n - 1 - k]);
    forall k | 0 <= k < n - 1 ensures OpenPair(ws, rows, cols, back[k], back[k + 1]) {
      assert OpenPair(ws, rows, cols, path[n - 2 - k], path[n - 1 - k]);
    }
    assert Walk(ws, rows, cols, back) && back[0] == b && back[n - 1] == a;
  }

  /** Two walks that meet make one. */
  lemma LinkedThrough(ws: WallGrid, rows: int, cols: int, a: Coord, b: Coord, c: Coord)
    requires Shape(ws, rows, cols) && Linked(ws, rows, cols, a, b) && Linked(ws, rows, cols, b, c)
    ensures Linked(ws, rows, cols, a, c)
  {
    var p :| Walk(ws, rows, cols, p) && p[0] == a && p[|p| - 1] == b;
    var q :| Walk(ws, rows, cols, q) && q[0] == b && q[|q| - 1] == c;
    var r := p + q[1..];
    forall k | 0 <= k < |r| ensures InGrid(r[k], rows, cols) {
      if k >= |p| {
        assert r[k] == q[k - |p| + 1];
      }
    }
    forall k | 0 <= k < |r| - 1 ensures OpenPair(ws, rows, cols, r[k], r[k + 1]) {
      if k < |p| - 1 {
        assert r[k] == p[k] && r[k + 1] == p[k + 1];
      } else {
        assert r[k] == q[k - |p| + 1] && r[k + 1] == q[k - |p| + 2];
      }
    }
    assert Walk(ws, rows, cols, r) && r[0] == a && r[|r| - 1] == c;
  }

  /** Tearing walls down keeps every walk a walk. */
  lemma LinkedAfterTearing(ws: WallGrid, ws': WallGrid, rows: int, cols: int, a: Coord, b: Coord)
    requires Shape(ws, rows, cols) && Shape(ws', rows, cols) && OnlyTornDown(ws, ws', rows, cols)
    requires Linked(ws, rows, cols, a, b)
    ensures Linked(ws', rows, cols, a, b)
  {
    var path :| Walk(ws, rows, cols, path) && path[0] == a && path[|path| - 1] == b;
    forall k | 0 <= k < |path| - 1 ensures OpenPair(ws', rows, cols, path[k], path[k + 1]) {
      assert OpenPair(ws, rows, cols, path[k], path[k + 1]);
    }
    assert Walk(ws', rows, cols, path);
  }

  /** A connected maze stays connected while walls come down. */
  lemma ConnectedAfterTearing(ws: WallGrid, ws': WallGrid, rows: int, cols: int)
    requires Shape(ws, rows, cols) && Shape(ws', rows, cols) && OnlyTornDown(ws, ws', rows, cols)
    requires Connected(ws, rows, cols)
    ensures Connected(ws', rows, cols)
  {
    forall a, b | InGrid(a, rows, cols) && InGrid(b, rows, cols) ensures Linked(ws', rows, cols, a, b) {
      LinkedAfterTearing(ws, ws', rows, cols, a, b);
    }
  }

  /** `tearDownInnerWall` only takes walls down. */
  lemma TearInnerOnlyTearsDown(ws: WallGrid, rows: int, cols: int, sourceId: int, destId: int)
    requires Shape(ws, rows, cols)
    requires InGrid(IdToLocation(sourceId, cols), rows, cols) && InGrid(IdToLocation(destId, cols), rows, cols)
    ensures OnlyTornDown(ws, TearInnerResult(ws, rows, cols, sourceId, destId), rows, cols)
  {
  }

  /** `tearDownBorderWall` only takes walls down. */
  lemma TearBorderOnlyTearsDown(ws: WallGrid, rows: int, cols: int, sourceId: int, destId: int)
    requires Shape(ws, rows, cols)
    requires InGrid(IdToLocation(sourceId, cols), rows, cols) && InGrid(IdToLocation(destId, cols), rows, cols)
    ensures OnlyTornDown(ws, TearBorderResult(ws, rows, cols, sourceId, destId), rows, cols)
  {
  }

  /** Tearing down an inner edge keeps a connected maze connected. */
  lemma TearInnerKeepsConnected(ws: WallGrid, rows: int, cols: int, sourceId: int, destId: int)
    requires Shape(ws, rows, cols) && Connected(ws, rows, cols)
    requires InGrid(IdToLocation(sourceId, cols), rows, cols) && InGrid(IdToLocation(destId, cols), rows, cols)
    ensures Connected(TearInnerResult(ws, rows, cols, sourceId, destId), rows, cols)
  {
    TearInnerOnlyTearsDown(ws, rows, cols, sourceId, destId);
    ConnectedAfterTearing(ws, TearInnerResult(ws, rows, cols, sourceId, destId), rows, cols);
  }

  /** Tearing down a border edge keeps a connected maze connected. */
  lemma TearBorderKeepsConnected(ws: WallGrid, rows: int, cols: int, sourceId: int, destId: int)
    requires Shape(ws, rows, cols) && Connected(ws, rows, cols)
    requires InGrid(IdToLocation(sourceId, cols), rows, cols) && InGrid(IdToLocation(destId, cols), rows, cols)
    ensures Connected(TearBorderResult(ws, rows, cols, sourceId, destId), rows, cols)
  {
    TearBorderOnlyTearsDown(ws, rows, cols, sourceId, destId);
    ConnectedAfterTearing(ws, TearBorderResult(ws, rows, cols, sourceId, destId), rows, cols);
  }

  /** Tearing down an inner edge links its two cells. */
  lemma TornEdgeLinks(ws: WallGrid, rows: int, cols: int, e: Edge)
    requires Shape(ws, rows, cols) && Inner(e, rows, cols)
    ensures Linked(TearInnerResult(ws, rows, cols, e.source, e.dest), rows, cols, Src(e, cols), Dst(e, cols))
  {
    TearInnerOwnAndBorder(ws, rows, cols, e);
    OpenPairLinked(TearInnerResult(ws, rows, cols, e.source, e.dest), rows, cols, Src(e, cols), Dst(e, cols));
  }

  /** Every cell is linked to the root cell of its set in the disjoint set `p`. */
  ghost predicate RootsLinked(ws: WallGrid, p: seq<int>, rows: int, cols: int)
    requires Shape(ws, rows, cols) && Flat(p)
  {
    forall k :: 0 <= k < |p| ==> Linked(ws, rows, cols, IdToLocation(k, cols), IdToLocation(Root(p, k), cols))
  }

  /** With every cell in a set of its own, every cell is its own root. */
  lemma RootsLinkedInit(ws: WallGrid, p: seq<int>, rows: int, cols: int)
    requires Shape(ws, rows, cols) && |p| == rows * cols && Flat(p)
    requires forall k :: 0 <= k < |p| ==> p[k] == -1
    ensures RootsLinked(ws, p, rows, cols)
  {
    forall k | 0 <= k < |p|
      ensures Linked(ws, rows, cols, IdToLocation(k, cols), IdToLocation(Root(p, k), cols))
    {
      IdInGrid(k, rows, cols);
      LinkedItself(ws, rows, cols, IdToLocation(k, cols));
    }
  }

  /**
   * Joining the sets of the two cells of an inner edge and tearing its walls down keeps every
   * cell linked to its root: the two old roots are now linked through the torn edge.
   */
  lemma {:induction false} RootsLinkedJoin(ws: WallGrid, p: seq<int>, rows: int, cols: int, e: Edge)
    requires Shape(ws, rows, cols) && |p| == rows * cols && Flat(p) && RootsLinked(ws, p, rows, cols)
    requires Inner(e, rows, cols)
    requires 0 <= e.source < |p| && 0 <= e.dest < |p| && Root(p, e.source) != Root(p, e.dest)
    ensures Flat(UnionResult(p, e.source, e.dest))
    ensures RootsLinked(TearInnerResult(ws, rows, cols, e.source, e.dest), UnionResult(p, e.source, e.dest), rows, cols)
  {
    InnerEndsInGrid(e, rows, cols);
    UnionJoins(p, e.source, e.dest);
    var ws' := TearInnerResult(ws, rows, cols, e.source, e.dest);
    var q := UnionResult(p, e.source, e.dest);
    TearInnerOnlyTearsDown(ws, rows, cols, e.source, e.dest);
    var r1, r2, r := Root(p, e.source), Root(p, e.dest), Root(q, e.source);
    var c1, c2 := IdToLocation(r1, cols), IdToLocation(r2, cols);
    assert Linked(ws', rows, cols, c1, c2) by {
      LinkedAfterTearing(ws, ws', rows, cols, Src(e, cols), c1);
      LinkedBack(ws', rows, cols, Src(e, cols), c1);
      TornEdgeLinks(ws, rows, cols, e);
      LinkedAfterTearing(ws, ws', rows, cols, Dst(e, cols), c2);
      LinkedThrough(ws', rows, cols, c1, Src(e, cols), Dst(e, cols));
      LinkedThrough(ws', rows, cols, c1, Dst(e, cols), c2);
    }
    LinkedBack(ws', rows, cols, c1, c2);
    forall k | 0 <= k < |q|
      ensures Linked(ws', rows, cols, IdToLocation(k, cols), IdToLocation(Root(q, k), cols))
    {
      var rk := Root(p, k);
      LinkedAfterTearing(ws, ws', rows, cols, IdToLocation(k, cols), IdToLocation(rk, cols));
      if (rk == r1 || rk == r2) && rk != r {
        LinkedThrough(ws', rows, cols, IdToLocation(k, cols), IdToLocation(rk, cols), IdToLocation(r, cols));
      }
    }
  }

  /** When every cell has the same root, every cell is linked to every other. */
  lemma RootsLinkedConnected(ws: WallGrid, p: seq<int>, rows: int, cols: int)
    requires Shape(ws, rows, cols) && |p| == rows * cols && Flat(p) && RootsLinked(ws, p, rows, cols)
    requires forall k :: 0 <= k < |p| ==> Root(p, k) == Root(p, 0)
    ensures Connected(ws, rows, cols)
  {
    forall a, b | InGrid(a, rows, cols) && InGrid(b, rows, cols) ensures Linked(ws, rows, cols, a, b) {
      IdxInGrid(a.i, a.j, rows, cols);
      IdxInGrid(b.i, b.j, rows, cols);
      LocationOfId(a.i, a.j, cols);
      LocationOfId(b.i, b.j, cols);
      var ka, kb := IdxToId(a.i, a.j, cols), IdxToId(b.i, b.j, cols);
      var root := IdToLocation(Root(p, 0), cols);
      assert Linked(ws, rows, cols, IdToLocation(ka, cols), IdToLocation(Root(p, ka), cols));
      assert Linked(ws, rows, cols, IdToLocation(kb, cols), IdToLocation(Root(p, kb), cols));
      assert Root(p, ka) == Root(p, 0) && Root(p, kb) == Root(p, 0);
      LinkedBack(ws, rows, cols, b, root);
      LinkedThrough(ws, rows, cols, a, root, b);
    }
  }
}
