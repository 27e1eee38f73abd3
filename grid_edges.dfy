/**
 * The edges of the maze graph and the walls they own. An inner edge joins a cell to its
 * EAST or SOUTH neighbour and owns the two wall flags between them; a border edge of a wrap
 * maze joins a cell of the first row (column) to the cell of the last row (column) it faces.
 */
module GridEdges {
  import opened Directions
  import opened Locations
  import opened MazeHelper
  import opened Cells
  import opened Edges
  import opened Grids

  function Src(e: Edge, cols: int): Coord
    requires cols != 0
  {
    IdToLocation(e.source, cols)
  }

  function Dst(e: Edge, cols: int): Coord
    requires cols != 0
  {
    IdToLocation(e.dest, cols)
  }

  /** A cell and its EAST neighbour. */
  predicate Horizontal(e: Edge, rows: int, cols: int)
    requires cols > 0
  {
    InGrid(Src(e, cols), rows, cols) && Src(e, cols).j < cols - 1
    && Dst(e, cols) == Coord(Src(e, cols).i, Src(e, cols).j + 1)
  }

  /** A cell and its SOUTH neighbour. */
  predicate Vertical(e: Edge, rows: int, cols: int)
    requires cols > 0
  {
    InGrid(Src(e, cols), rows, cols) && Src(e, cols).i < rows - 1
    && Dst(e, cols) == Coord(Src(e, cols).i + 1, Src(e, cols).j)
  }

  predicate Inner(e: Edge, rows: int, cols: int)
    requires cols > 0
  {
    Horizontal(e, rows, cols) || Vertical(e, rows, cols)
  }

  /** An edge is determined by the positions of its two cells. */
  lemma SameEndsSameEdge(e: Edge, e': Edge, cols: int)
    requires cols != 0
    requires Src(e, cols) == Src(e', cols) && Dst(e, cols) == Dst(e', cols)
    ensures e == e'
  {
    IdOfLocation(e.source, cols);
    IdOfLocation(e'.source, cols);
    IdOfLocation(e.dest, cols);
    IdOfLocation(e'.dest, cols);
  }

  /** Inner edges in terms of IDs: `(id, id+1)` across a column, `(id, id+cols)` across a row. */
  lemma InnerEdgeIds(e: Edge, rows: int, cols: int)
    requires cols > 0 && Inner(e, rows, cols)
    ensures 0 <= e.source < rows * cols && 0 <= e.dest < rows * cols
    ensures Horizontal(e, rows, cols) ==> e.dest == e.source + 1
    ensures Vertical(e, rows, cols) ==> e.dest == e.source + cols
    ensures !(Horizontal(e, rows, cols) && Vertical(e, rows, cols))
  {
    var s := Src(e, cols);
    IdOfLocation(e.source, cols);
    IdOfLocation(e.dest, cols);
    IdxInGrid(s.i, s.j, rows, cols);
    IdxInGrid(Dst(e, cols).i, Dst(e, cols).j, rows, cols);
    if Vertical(e, rows, cols) {
      assert (s.i + 1) * cols == s.i * cols + cols;
    }
  }

  /** The edges `generateInnerEdgeList` adds at cell (i, j): EAST first, then SOUTH. */
  function CellInnerEdges(rows: int, cols: int, i: int, j: int): seq<Edge>
  {
    var id := IdxToId(i, j, cols);
    (if j != cols - 1 then [Edge(id, IdxToId(i, j + 1, cols))] else [])
    + (if i != rows - 1 then [Edge(id, IdxToId(i + 1, j, cols))] else [])
  }

  function RowInnerEdges(rows: int, cols: nat, i: int, n: nat): seq<Edge>
  {
    if n == 0 then [] else RowInnerEdges(rows, cols, i, n - 1) + CellInnerEdges(rows, cols, i, n - 1)
  }

  function InnerEdgesUpTo(rows: int, cols: nat, m: nat): seq<Edge>
  {
    if m == 0 then [] else InnerEdgesUpTo(rows, cols, m - 1) + RowInnerEdges(rows, cols, m - 1, cols)
  }

  /** The inner edge list, in row-major order (`generateInnerEdgeList`). */
  function InnerEdges(rows: nat, cols: nat): seq<Edge>
  {
    InnerEdgesUpTo(rows, cols, rows)
  }

  lemma {:induction false} RowInnerEdgesLength(rows: int, cols: nat, i: int, n: nat)
    requires 0 < cols && n <= cols
    ensures |RowInnerEdges(rows, cols, i, n)| == (if n == cols then n - 1 else n) + (if i != rows - 1 then n else 0)
  {
    if n > 0 {
      RowInnerEdgesLength(rows, cols, i, n - 1);
      assert |CellInnerEdges(rows, cols, i, n - 1)| == (if n - 1 != cols - 1 then 1 else 0) + (if i != rows - 1 then 1 else 0);
    }
  }

  lemma {:induction false} InnerEdgesUpToLength(rows: int, cols: nat, m: nat)
    requires cols > 0 && 0 < rows && m <= rows
    ensures |InnerEdgesUpTo(rows, cols, m)| == m * (cols - 1) + (if m == rows then (m - 1) * cols else m * cols)
  {
    if m > 0 {
      InnerEdgesUpToLength(rows, cols, m - 1);
      RowInnerEdgesLength(rows, cols, m - 1, cols);
      var prev := |InnerEdgesUpTo(rows, cols, m - 1)|;
      var row := |RowInnerEdges(rows, cols, m - 1, cols)|;
      assert prev == (m - 1) * (cols - 1) + (m - 1) * cols;
      assert |InnerEdgesUpTo(rows, cols, m)| == prev + row;
      var a, b := (m - 1) * (cols - 1), (m - 1) * cols;
      assert m * (cols - 1) == a + cols - 1;
      assert m * cols == b + cols;
      if m == rows {
        assert row == cols - 1;
        assert prev + row == m * (cols - 1) + b;
      } else {
        assert row == cols - 1 + cols;
        assert prev + row == m * (cols - 1) + m * cols;
      }
    }
  }

  /** A grid has `R*(C-1)` EAST edges and `C*(R-1)` SOUTH edges. */
  lemma InnerEdgesLength(rows: nat, cols: nat)
    requires rows > 0 && cols > 0
    ensures |InnerEdges(rows, cols)| == rows * (cols - 1) + cols * (rows - 1)
  {
    InnerEdgesUpToLength(rows, cols, rows);
  }

  lemma {:induction false} CellInnerEdgesAreInner(rows: int, cols: int, i: int, j: int)
    requires cols > 0 && 0 <= i < rows && 0 <= j < cols
    ensures forall e :: e in CellInnerEdges(rows, cols, i, j) ==> Inner(e, rows, cols)
    ensures forall e :: e in CellInnerEdges(rows, cols, i, j) ==> Src(e, cols) == Coord(i, j)
    ensures forall e :: Inner(e, rows, cols) && Src(e, cols) == Coord(i, j) ==> e in CellInnerEdges(rows, cols, i, j)
  {
    var id := IdxToId(i, j, cols);
    LocationOfId(i, j, cols);
    if j != cols - 1 {
      LocationOfId(i, j + 1, cols);
    }
    if i != rows - 1 {
      LocationOfId(i + 1, j, cols);
    }
    forall e | Inner(e, rows, cols) && Src(e, cols) == Coord(i, j) ensures e in CellInnerEdges(rows, cols, i, j) {
      if Horizontal(e, rows, cols) {
        SameEndsSameEdge(e, Edge(id, IdxToId(i, j + 1, cols)), cols);
      } else {
        SameEndsSameEdge(e, Edge(id, IdxToId(i + 1, j, cols)), cols);
      }
    }
  }

  lemma {:induction false} RowInnerEdgesMembers(rows: int, cols: nat, i: int, n: nat)
    requires cols > 0 && 0 <= i < rows && n <= cols
    ensures forall e :: e in RowInnerEdges(rows, cols, i, n) <==>
      Inner(e, rows, cols) && Src(e, cols).i == i && Src(e, cols).j < n
  {
    if n > 0 {
      RowInnerEdgesMembers(rows, cols, i, n - 1);
      CellInnerEdgesAreInner(rows, cols, i, n - 1);
    }
  }

  lemma {:induction false} InnerEdgesUpToMembers(rows: int, cols: nat, m: nat)
    requires cols > 0 && m <= rows
    ensures forall e :: e in InnerEdgesUpTo(rows, cols, m) <==> Inner(e, rows, cols) && Src(e, cols).i < m
  {
    if m > 0 {
      InnerEdgesUpToMembers(rows, cols, m - 1);
      RowInnerEdgesMembers(rows, cols, m - 1, cols);
    }
  }

  /** The inner edge list holds exactly the EAST and SOUTH neighbour pairs of the grid. */
  lemma InnerEdgesMembers(rows: nat, cols: nat)
    requires cols > 0
    ensures forall e :: e in InnerEdges(rows, cols) <==> Inner(e, rows, cols)
  {
    InnerEdgesUpToMembers(rows, cols, rows);
  }

  /** Sources never decrease along the list, and equal sources have increasing destinations. */
  ghost predicate Increasing(s: seq<Edge>)
  {
    forall a, b :: 0 <= a < b < |s| ==>
      s[a].source < s[b].source || (s[a].source == s[b].source && s[a].dest < s[b].dest)
  }

  lemma IncreasingConcat(s: seq<Edge>, t: seq<Edge>, lo: int)
    requires Increasing(s) && Increasing(t)
    requires forall k :: 0 <= k < |s| ==> s[k].source < lo
    requires forall k :: 0 <= k < |t| ==> lo <= t[k].source
    ensures Increasing(s + t)
  {
    forall a, b | 0 <= a < b < |s + t|
      ensures (s + t)[a].source < (s + t)[b].source || ((s + t)[a].source == (s + t)[b].source && (s + t)[a].dest < (s + t)[b].dest)
    {
      if b < |s| {
        assert (s + t)[a] == s[a] && (s + t)[b] == s[b];
      } else if a < |s| {
        assert (s + t)[a] == s[a] && (s + t)[b] == t[b - |s|];
      } else {
        assert (s + t)[a] == t[a - |s|] && (s + t)[b] == t[b - |s|];
      }
    }
  }

  lemma {:induction false} RowInnerEdgesIncreasing(rows: int, cols: nat, i: int, n: nat)
    requires cols > 0 && 0 <= i && n <= cols
    ensures Increasing(RowInnerEdges(rows, cols, i, n))
    ensures forall k :: 0 <= k < |RowInnerEdges(rows, cols, i, n)| ==>
      i * cols <= RowInnerEdges(rows, cols, i, n)[k].source < i * cols + n
  {
    if n > 0 {
      RowInnerEdgesIncreasing(rows, cols, i, n - 1);
      var r, c := RowInnerEdges(rows, cols, i, n - 1), CellInnerEdges(rows, cols, i, n - 1);
      IncreasingConcat(r, c, i * cols + n - 1);
      forall k | 0 <= k < |r + c| ensures i * cols <= (r + c)[k].source < i * cols + n {
        if k >= |r| {
          assert (r + c)[k] == c[k - |r|];
        }
      }
    }
  }

  lemma {:induction false} InnerEdgesUpToSources(rows: int, cols: nat, m: nat)
    requires cols > 0
    ensures forall k :: 0 <= k < |InnerEdgesUpTo(rows, cols, m)| ==> 0 <= InnerEdgesUpTo(rows, cols, m)[k].source < m * cols
  {
    if m > 0 {
      var s: seq<Edge>, t: seq<Edge> := InnerEdgesUpTo(rows, cols, m - 1), RowInnerEdges(rows, cols, m - 1, cols);
      InnerEdgesUpToSources(rows, cols, m - 1);
      RowInnerEdgesIncreasing(rows, cols, m - 1, cols);
      var lo := (m - 1) * cols;
      assert m * cols == lo + cols;
      MulLe(0, m - 1, cols);
      forall k: int | 0 <= k < |s + t| ensures 0 <= (s + t)[k].source < m * cols {
        if k >= |s| {
          assert (s + t)[k] == t[k - |s|];
        }
      }
    }
  }

  lemma {:induction false} InnerEdgesUpToIncreasing(rows: int, cols: nat, m: nat)
    requires cols > 0
    ensures Increasing(InnerEdgesUpTo(rows, cols, m))
  {
    if m > 0 {
      var s, t := InnerEdgesUpTo(rows, cols, m - 1), RowInnerEdges(rows, cols, m - 1, cols);
      var lo := (m - 1) * cols;
      assert forall k :: 0 <= k < |s| ==> s[k].source < lo by {
        InnerEdgesUpToSources(rows, cols, m - 1);
      }
      assert Increasing(t) && forall k :: 0 <= k < |t| ==> lo <= t[k].source by {
        RowInnerEdgesIncreasing(rows, cols, m - 1, cols);
      }
      InnerEdgesUpToIncreasing(rows, cols, m - 1);
      IncreasingConcat(s, t, lo);
    }
  }

  /** No inner edge is listed twice. */
  lemma InnerEdgesDistinct(rows: nat, cols: nat)
    requires cols > 0
    ensures Distinct(InnerEdges(rows, cols))
  {
    InnerEdgesUpToIncreasing(rows, cols, rows);
  }
}

/** Drawing an edge at random from an edge list. */
module EdgeDraw {
  import opened Edges

  /**
   * `randomSelectAndRemoveEdges`: any index of the list may be drawn; the edge's two IDs are
   * returned and the edge leaves the list. An empty list makes the draw fail (`nextInt(0)`
   * throws), which is reported as `ok == false` with the list unchanged.
   */
  method RandomSelectAndRemoveEdges(edgeList: seq<Edge>) returns (ok: bool, sourceId: int, destId: int, rest: seq<Edge>)
    ensures ok == (|edgeList| > 0)
    ensures !ok ==> rest == edgeList
    ensures ok ==> exists k :: 0 <= k < |edgeList| && edgeList[k] == Edge(sourceId, destId) && rest == RemoveAt(edgeList, k)
    ensures ok ==> Edge(sourceId, destId) in edgeList && |rest| == |edgeList| - 1 && forall e :: e in rest ==> e in edgeList
    ensures ok && Distinct(edgeList) ==> Distinct(rest) && forall e :: e in rest <==> e in edgeList && e != Edge(sourceId, destId)
  {
    if |edgeList| == 0 {
      return false, 0, 0, edgeList;
    }
    var k :| 0 <= k < |edgeList|;
    ok := true;
    sourceId := edgeList[k].source;
    destId := edgeList[k].dest;
    rest := RemoveAt(edgeList, k);
  }
}
