/**
 * Items: gold coins and thieves. A fifth of the cells (rounded up) get a gold coin and a
 * tenth (rounded up) a thief, each on a cell drawn at random among those that hold no item
 * yet and are neither the start nor the goal.
 */
module Items {
  import opened Locations
  import opened MazeHelper
  import opened Cells
  import opened Grids

  datatype TypeOfItem = GoldCoin | Thief

  /** The IDs of the grid, 0 .. n-1, that are not in `taken`. */
  function Free(n: int, taken: set<int>): (r: set<int>)
    ensures forall id :: id in r <==> 0 <= id < n && id !in taken
  {
    set id | 0 <= id < n && id !in taken
  }

  /** A grid of `n` cells has `n` IDs. */
  lemma {:induction false} FreeOfNothing(n: nat)
    ensures |Free(n, {})| == n
  {
    if n > 0 {
      FreeOfNothing(n - 1);
      assert Free(n, {}) == Free(n - 1, {}) + {n - 1};
    }
  }

  /** Reserving `taken` removes at most `|taken|` of the IDs. */
  lemma FreeAtLeast(n: nat, taken: set<int>)
    ensures |Free(n, taken)| >= n - |taken|
  {
    FreeOfNothing(n);
    var all := Free(n, {});
    assert Free(n, taken) == all - taken;
    assert all <= (all - taken) + taken;
    SubsetCard(all, (all - taken) + taken);
  }

  lemma SubsetCard(a: set<int>, b: set<int>)
    requires a <= b
    ensures |a| <= |b|
  {
    assert b == a + (b - a);
  }

  lemma DiffCard(a: set<int>, b: set<int>)
    requires b <= a
    ensures |a - b| == |a| - |b|
  {
    assert a == (a - b) + b;
  }

  /** Coins and thieves asked for in a grid of `n` cells. */
  function ItemsWanted(n: int): int
  {
    XPercentageInInt(n, GoldCoinPercent) + XPercentageInInt(n, ThiefPercent)
  }

  /**
   * From four cells on, the items always fit beside a start and a goal: the rounded-up
   * fifth and tenth never exceed `n - 2`.
   */
  lemma ItemsFitFromFourCells(n: int, start: int, goal: int)
    requires n >= 4
    ensures ItemsWanted(n) <= n - 2
    ensures ItemsWanted(n) <= |Free(n, {start, goal})|
  {
    if n >= 6 {
      assert 100 * XPercentageInInt(n, GoldCoinPercent) < 20 * n + 100;
      assert 100 * XPercentageInInt(n, ThiefPercent) < 10 * n + 100;
    }
    FreeAtLeast(n, {start, goal});
  }

  /** A one-cell grid asks for a coin and a thief but has at most one cell to put them on. */
  lemma OneCellHasNoRoom(start: int, goal: int)
    ensures ItemsWanted(1) == 2 && |Free(1, {start, goal})| <= 1
  {
    assert Free(1, {start, goal}) <= {0};
    SubsetCard(Free(1, {start, goal}), {0});
  }

  /** Every cell whose ID is not in `taken` holds no item. */
  ghost predicate FreeCellsEmpty(grid: seq<seq<Cell>>, rows: int, cols: int, taken: set<int>)
    reads CellsOf(grid)
    requires WellFormed(grid, rows, cols)
  {
    forall i, j :: 0 <= i < rows && 0 <= j < cols && IdxToId(i, j, cols) !in taken ==>
      !grid[i][j].hasGoldCoin && !grid[i][j].hasThief
  }

  /**
   * The IDs chosen for the items: the percentages of the `n` cells, no cell with two items,
   * none of the `reserved` cells used, every ID naming a cell.
   */
  ghost predicate ItemIdsChosen(goldIds: set<int>, thiefIds: set<int>, n: int, reserved: set<int>)
  {
    |goldIds| == XPercentageInInt(n, GoldCoinPercent) && |thiefIds| == XPercentageInInt(n, ThiefPercent)
    && goldIds !! thiefIds && (goldIds + thiefIds) !! reserved
    && forall id :: id in goldIds + thiefIds ==> 0 <= id < n
  }

  /** The gold coins lie exactly on the cells with IDs in `goldIds`, the thieves on those in `thiefIds`. */
  ghost predicate ItemsPlaced(grid: seq<seq<Cell>>, rows: int, cols: int, goldIds: set<int>, thiefIds: set<int>)
    reads CellsOf(grid)
    requires WellFormed(grid, rows, cols)
  {
    forall i, j :: 0 <= i < rows && 0 <= j < cols ==>
      (grid[i][j].hasGoldCoin <==> IdxToId(i, j, cols) in goldIds)
      && (grid[i][j].hasThief <==> IdxToId(i, j, cols) in thiefIds)
  }

  /** Puts `item` on the free cell with ID `id`; nothing else changes. */
  method PlaceOne(item: TypeOfItem, id: int, taken: set<int>, grid: seq<seq<Cell>>, rows: int, cols: int)
    requires WellFormed(grid, rows, cols) && id in Free(rows * cols, taken) && FreeCellsEmpty(grid, rows, cols, taken)
    modifies CellsOf(grid)
    ensures WellFormed(grid, rows, cols) && FreeCellsEmpty(grid, rows, cols, taken + {id})
    ensures forall i, j :: 0 <= i < rows && 0 <= j < cols ==>
      grid[i][j].walls == old(grid[i][j].walls)
      && grid[i][j].hasGoldCoin == (old(grid[i][j].hasGoldCoin) || (item == GoldCoin && IdxToId(i, j, cols) == id))
      && grid[i][j].hasThief == (old(grid[i][j].hasThief) || (item == Thief && IdxToId(i, j, cols) == id))
  {
    IdInGrid(id, rows, cols);
    var l := IdToLocation(id, cols);
    IdToLocationOfNonNegative(id, cols);
    IdOfLocation(id, cols);
    var c := grid[l.i][l.j];
    var ok;
    if item == GoldCoin {
      ok := c.SetHasGoldCoin(true);
    } else {
      ok := c.SetHasThiefTrue();
    }
    forall i, j | 0 <= i < rows && 0 <= j < cols
      ensures grid[i][j] != c ==> IdxToId(i, j, cols) != id
      ensures grid[i][j] == c ==> IdxToId(i, j, cols) == id
    {
      CellsAreDistinct(grid, rows, cols, Coord(i, j), l);
      LocationOfId(i, j, cols);
    }
  }

  /**
   * `placeItems`: puts `numOfItems` items of one type on distinct cells whose IDs are not in
   * `itemsIdSet`, and adds those IDs to the set. The source redraws an ID that is taken; here
   * only free IDs are drawn, which skips the draws that change nothing. The source loops
   * forever when fewer than `numOfItems` IDs are free, which is the precondition here.
   */
  method PlaceItems(item: TypeOfItem, numOfItems: int, itemsIdSet: set<int>, grid: seq<seq<Cell>>, rows: int, cols: int)
    returns (idSet: set<int>)
    requires WellFormed(grid, rows, cols) && 0 <= numOfItems <= |Free(rows * cols, itemsIdSet)|
    requires FreeCellsEmpty(grid, rows, cols, itemsIdSet)
    modifies CellsOf(grid)
    ensures WellFormed(grid, rows, cols) && FreeCellsEmpty(grid, rows, cols, idSet)
    ensures itemsIdSet <= idSet && |idSet - itemsIdSet| == numOfItems
    ensures forall id :: id in idSet - itemsIdSet ==> 0 <= id < rows * cols
    ensures forall i, j :: 0 <= i < rows && 0 <= j < cols ==>
      grid[i][j].walls == old(grid[i][j].walls)
      && grid[i][j].hasGoldCoin == (old(grid[i][j].hasGoldCoin) || (item == GoldCoin && IdxToId(i, j, cols) in idSet - itemsIdSet))
      && grid[i][j].hasThief == (old(grid[i][j].hasThief) || (item == Thief && IdxToId(i, j, cols) in idSet - itemsIdSet))
  {
    idSet := itemsIdSet;
    var count := 0;
    while count != numOfItems
      invariant 0 <= count <= numOfItems
      invariant WellFormed(grid, rows, cols) && FreeCellsEmpty(grid, rows, cols, idSet)
      invariant itemsIdSet <= idSet && |idSet - itemsIdSet| == count
      invariant |Free(rows * cols, idSet)| == |Free(rows * cols, itemsIdSet)| - count
      invariant forall id :: id in idSet - itemsIdSet ==> 0 <= id < rows * cols
      invariant forall i, j :: 0 <= i < rows && 0 <= j < cols ==> grid[i][j].walls == old(grid[i][j].walls)
      invariant forall i, j :: 0 <= i < rows && 0 <= j < cols ==>
        grid[i][j].hasGoldCoin == (old(grid[i][j].hasGoldCoin) || (item == GoldCoin && IdxToId(i, j, cols) in idSet - itemsIdSet))
        && grid[i][j].hasThief == (old(grid[i][j].hasThief) || (item == Thief && IdxToId(i, j, cols) in idSet - itemsIdSet))
      decreases numOfItems - count
    {
      var id :| id in Free(rows * cols, idSet);
      PlaceOne(item, id, idSet, grid, rows, cols);
      assert Free(rows * cols, idSet + {id}) == Free(rows * cols, idSet) - {id};
      assert (idSet + {id}) - itemsIdSet == (idSet - itemsIdSet) + {id};
      idSet := idSet + {id};
      count := count + 1;
    }
  }

  /**
   * `decorateMazeGridWithItems`: the IDs of the start and the goal are reserved, then the
   * rounded-up fifth of the cells get a gold coin and the rounded-up tenth a thief, no cell
   * two items and neither the start nor the goal any. `goldIds` and `thiefIds` name the
   * cells chosen.
   */
  method DecorateMazeGridWithItems(grid: seq<seq<Cell>>, rows: int, cols: int, start: Coord, goal: Coord)
    returns (ghost goldIds: set<int>, ghost thiefIds: set<int>)
    requires WellFormed(grid, rows, cols) && FreeCellsEmpty(grid, rows, cols, {})
    requires ItemsWanted(rows * cols) <= |Free(rows * cols, {LocationToId(start, cols), LocationToId(goal, cols)})|
    modifies CellsOf(grid)
    ensures WellFormed(grid, rows, cols)
    ensures |goldIds| == XPercentageInInt(rows * cols, GoldCoinPercent)
    ensures |thiefIds| == XPercentageInInt(rows * cols, ThiefPercent)
    ensures goldIds !! thiefIds
    ensures forall id :: id in goldIds + thiefIds ==> 0 <= id < rows * cols
    ensures LocationToId(start, cols) !in goldIds + thiefIds && LocationToId(goal, cols) !in goldIds + thiefIds
    ensures forall i, j :: 0 <= i < rows && 0 <= j < cols ==>
      grid[i][j].walls == old(grid[i][j].walls)
      && (grid[i][j].hasGoldCoin <==> IdxToId(i, j, cols) in goldIds)
      && (grid[i][j].hasThief <==> IdxToId(i, j, cols) in thiefIds)
  {
    var n := rows * cols;
    var itemsIdSet: set<int> := {};
    itemsIdSet := itemsIdSet + {LocationToId(start, cols)};
    itemsIdSet := itemsIdSet + {LocationToId(goal, cols)};
    var reserved := itemsIdSet;
    assert reserved == {LocationToId(start, cols), LocationToId(goal, cols)};
    MulLe(1, rows, cols);
    var numOfGoldCoin := XPercentageInInt(n, GoldCoinPercent);
    var afterGold := PlaceItems(GoldCoin, numOfGoldCoin, itemsIdSet, grid, rows, cols);
    goldIds := afterGold - reserved;
    assert Free(n, afterGold) == Free(n, reserved) - goldIds;
    DiffCard(Free(n, reserved), goldIds);
    var numOfThief := XPercentageInInt(n, ThiefPercent);
    var afterThief := PlaceItems(Thief, numOfThief, afterGold, grid, rows, cols);
    thiefIds := afterThief - afterGold;
  }
}
