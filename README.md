# Maze engine: generation, solver and play

This project models the core of a Java maze game in Dafny and proves properties of it.

A maze is a `rows` x `cols` grid of cells. Each cell has a wall flag per direction (NORTH, SOUTH, EAST, WEST) and at most one item: a gold coin or a thief. There are three variants:

- a **perfect maze**, where exactly one path joins any two cells;
- a **room maze**, which removes further inner walls down to a wall budget;
- a **wrap room maze**, which may also remove perimeter walls and where moves across the perimeter come back on the opposite side.

Construction runs in this order:

1. It checks its arguments.
2. It builds a grid with every wall standing.
3. It joins all cells with Kruskal's algorithm over a flat disjoint-set forest.
4. It lets the variant remove more walls.
5. It puts gold coins on a fifth of the cells and thieves on a tenth, rounded up, never on the start or the goal.
6. It lists the walls as line segments for drawing.
7. It runs a depth-first solver from the start to the goal.

The game then moves the player through open walls. The player collects a coin where there is one and loses a tenth of their gold, rounded up, to a thief. The game ends when the player reaches the goal.

The model follows the source's own form:

- **Mutable objects are classes.** `Cell`, `Location`, `Player` and `GeneralMaze` are classes whose methods update their fields in place.
- **Generation and the solver work on the cells of the grid.** The generation algorithms and the solver are methods over a `seq<seq<Cell>>` grid. They are proved against value-level functions over the grid's wall maps (`WallGrid`): `CountWalls`, `InnerEdges`, `BorderEdges`, `TearInnerResult`, `TearBorderResult` and `WallSegments`.
- **The disjoint-set forest is an `array<int>`.** It is specified by functions on its contents.
- **The three subclasses become a `Kind` tag.** The variant-specific operations are dispatched on it.
- **Exceptions become results.** The source's exceptions become an `Outcome` (`Built(maze)` or `Failed(error)`), or an `ok` flag where the exception is recoverable.
- **Randomness becomes a nondeterministic choice.** Every random draw (`nextInt`) is a choice among all allowed values (`:|`), so every property holds for every sequence of draws.

Where the code and its own doc comments disagree, the model follows the code:

- **The start/goal range check.** It reads the row index twice and never reads the column (GeneralMaze.java:282-287). A location such as (0, 100) in a 4 x 6 maze is therefore accepted (`RangeCheckExamples`). As a start, the first grid lookup of the solver then fails: `NewMaze` returns `Failed(CellOutOfGrid)` unless the start equals the goal. As a goal, the search never reaches it and the maze is built with an empty solver path; this is the only case where the path is empty.
- **The empty edge list of a thin wrap room maze.** A wrap room maze one cell thin has no inner edges left after the perfect maze. When the budget leaves an odd gap, it draws from an empty edge list and `nextInt(0)` throws. `NewMaze` returns `Failed(NoEdgeToDraw)` exactly then.
- **The solver's path.** The depth-first search does not stop at its first success. The path it returns can therefore hold several segments, each starting at the goal. Read backward, every consecutive pair is an open move, except where the path jumps back to the goal (`WalksBack`). `Solver.PathHoldsRoute` extracts a genuine route from it.
- **Connectivity.** The class comment promises a path from the start to the goal (GeneralMaze.java:3-4). The model proves that every generated grid is connected: any two cells are joined by a walk through torn-down wall pairs (`Connectivity.Connected`). During the Kruskal phase every cell stays linked to the root cell of its disjoint set, so one set at the end means one connected grid. The later removals only take walls down. From connectivity the model proves that the search finds every goal inside the grid.
- **Item placement on tiny grids.** Placing items loops forever when fewer cells are free than items are wanted, which happens in a 1 x 1 maze (`OneCellMazeCannotPlaceItems`). The model makes "the items fit" a precondition of construction. Room mazes always satisfy it (`RoomMazeItemsFit`).

## Model

| member | source | states |
|---|---|---|
| MazeHelper.IdxToId | MazeHelper.java:8-10 | for a column inside the width and a non-negative row, the ID is non-negative and its floor quotient and remainder by the width give back the row and the column |
| MazeHelper.LocationToId | MazeHelper.java:12-14 | the ID of a location is `idxToID` of its row and column |
| MazeHelper.JavaDiv | MazeHelper.java:16-18 | the quotient is non-negative when the operands share a sign and non-positive otherwise (rounding toward zero), and equals the floor quotient for a non-negative dividend and positive divisor |
| MazeHelper.JavaRem | MazeHelper.java:16-18 | the remainder carries the sign of the dividend and is smaller in size than the divisor |
| MazeHelper.IdToLocation | MazeHelper.java:16-18 | the location maps back to the same ID, and for a non-negative ID and positive width its row is non-negative and its column inside the width |
| MazeHelper.IdToLocationOfNonNegative | MazeHelper.java:16-18 | for a non-negative ID and positive width, Java's truncating `/` and `%` give the floor quotient and a column in 0 .. cols-1 |
| MazeHelper.IdOfLocation | MazeHelper.java:12-18 | converting an ID to a location and back yields the same ID, for every ID and non-zero width |
| MazeHelper.LocationOfId | MazeHelper.java:8-18 | a position whose column is inside the width maps to a non-negative ID and back to itself |
| MazeHelper.IdInGrid | MazeHelper.java:16-18 | every ID in 0 .. rows*cols-1 names a cell inside the grid |
| MazeHelper.IdxInGrid | MazeHelper.java:8-10 | every cell inside the grid has an ID in 0 .. rows*cols-1 |
| MazeHelper.XPercentageInInt | MazeHelper.java:20-22 | the result is the ceiling of `total * percent / 100`: the least r with 100r >= total*percent |
| MazeHelper.MaxRemainingWalls | MazeHelper.java:24-33 | the wall count of a spanning-tree maze is R*C + R + C + 1 |
| MazeHelper.GoldAndThiefCountsExamples | MazeHelper.java:20-22 | 24 cells get 5 coins and 3 thieves; a tenth of 7 gold rounds up to 1, of 0 gold to 0 |
| Locations.Location.constructor | Location.java:10-13 | the new location holds the given row and column |
| Locations.Location.GetI | Location.java:14-16 | (no contract) reads the row field |
| Locations.Location.GetJ | Location.java:18-20 | (no contract) reads the column field |
| Locations.Location.SetI | Location.java:23-25 | only the row changes, to the given value |
| Locations.Location.SetJ | Location.java:27-29 | only the column changes, to the given value |
| Locations.Location.Equals | Location.java:31-38 | holds exactly when the two locations hold the same position |
| Locations.Location.HashCode | Location.java:40-44 | (no contract) `17 * i + j`; `EqualLocationsHashAlike` states its agreement with `Equals` |
| Locations.EqualsIsValueEquality | Location.java:31-38 | `equals` is reflexive, symmetric and transitive, and holds exactly when the two positions are equal |
| Locations.EqualLocationsHashAlike | Location.java:40-44 | equal locations have equal hash codes |
| Players.GoldAfterTheft | PlayerImpl.java:35-42 | gold after a theft stays between 0 and the old gold; exactly the rounded-up tenth is lost; a positive count always drops |
| Players.GoldAfterTheftExamples | PlayerImpl.java:35-42 | 7 gold becomes 6, 0 stays 0, 10 becomes 9, 11 becomes 9 |
| Players.Player.constructor | PlayerImpl.java:15-18 | the player stands on the given location with no gold |
| Players.Player.GetGold | PlayerImpl.java:44-47 | (no contract) reads the gold count |
| Players.Player.GetLocation | PlayerImpl.java:49-52 | (no contract) returns the location object itself, so callers see and share its updates |
| Players.Player.Move | PlayerImpl.java:20-28 | the position takes one unit step toward the direction |
| Players.Player.CollectGold | PlayerImpl.java:30-33 | gold grows by one and stays non-negative |
| Players.Player.LoseGold | PlayerImpl.java:35-42 | gold becomes `GoldAfterTheft` of the old gold and stays non-negative |
| Players.Player.UpdateLocationI | PlayerImpl.java:63-65 | the row moves by `delta`, the column stays |
| Players.Player.UpdateLocationJ | PlayerImpl.java:71-73 | the column moves by `delta`, the row stays |
| Moves.MoveToNextCell | GeneralMaze.java:215-224 | the position moves by the direction's unit delta: exactly one coordinate changes, by one |
| Moves.Steps | WrapRoomMaze.java:77-83 | repeated steps toward a vertical direction keep the column, toward a horizontal one keep the row |
| Moves.StepsShift | WrapRoomMaze.java:77-83 | n unit steps toward d shift the position by n times the direction's delta |
| Moves.StepsSnoc | WrapRoomMaze.java:79-81 | n+1 steps are n steps followed by one more |
| Cells.AllWallsStandingComplete | CellImpl.java:91-95 | a fresh wall map has an entry for every direction, all standing |
| Cells.OpenAmongPrefix | CellImpl.java:54-58 | after the first n directions, the list holds exactly their open ones, in increasing order |
| Cells.OpenDirections | CellImpl.java:51-60 | a direction is listed iff its wall is down |
| Cells.OpenDirectionsSpec | CellImpl.java:51-60 | the open-direction list holds a direction iff its wall is down, each once, in NORTH, SOUTH, EAST, WEST order |
| Cells.TornDown | CellImpl.java:28-32 | tearing down the wall at d takes that wall down and leaves the other three as they were |
| Cells.TearDownIdempotent | CellImpl.java:28-32 | tearing the same wall down twice equals tearing it down once |
| Cells.Cell.constructor | CellImpl.java:19-26 | a new cell has its ID, the location its ID names, all four walls and no item |
| Cells.Cell.TearDownWall | CellImpl.java:28-32 | the wall map becomes `TornDown` of the old one and the cell stays valid |
| Cells.Cell.SetHasGoldCoin | CellImpl.java:34-40 | adding a coin where a thief is fails and changes nothing; otherwise the flag is set; walls and thief unchanged |
| Cells.Cell.SetHasThiefTrue | CellImpl.java:42-49 | adding a thief where a coin is fails and changes nothing; otherwise the flag is set; walls and coin unchanged |
| Cells.Cell.FindNoWallDirection | CellImpl.java:51-60 | the loop returns exactly `OpenDirections` of the cell's walls |
| Edges.RemoveAt | GeneralMaze.java:371 | removing by index shortens the list by one; in a list of distinct edges exactly that edge leaves and every other stays |
| Edges.RemoveFirst | GeneralMaze.java:368 | the result has exactly the old elements minus one occurrence of the edge, and is one shorter iff the edge was listed |
| Edges.RemoveFirstDistinct | GeneralMaze.java:366-368 | removing a listed edge from a list of distinct edges shortens it by one and drops exactly that edge |
| EdgeDraw.RandomSelectAndRemoveEdges | GeneralMaze.java:263-272 | any index may be drawn; its two IDs are returned and it leaves the list; an empty list fails |
| Grids.CellsAreDistinct | GeneralMaze.java:308-321 | two positions of a built grid hold the same cell iff they are the same position |
| Grids.TotalWalls | GeneralMaze.java:421-423 | the total wall count is the perfect-maze count plus the R*C - 1 walls a spanning tree tears down |
| Grids.CountWalls | GeneralMaze.java:148-168 | the count of standing walls never exceeds `calculateTotalWalls` |
| Grids.FreshGridWallCount | GeneralMaze.java:421-423 | a grid with every wall standing counts `calculateTotalWalls` = 2RC + R + C walls |
| Grids.CountAfterUpdate | GeneralMaze.java:148-168 | changing one cell's walls changes the count by exactly the change in that cell's contribution |
| Grids.FindWallStartAndEndPoint | GeneralMaze.java:594-606 | a wall is a unit segment between two corners of its cell, horizontal exactly for NORTH and SOUTH |
| Grids.SharedWallsCoincide | GeneralMaze.java:594-606 | the SOUTH wall of a cell and the NORTH wall of the cell below are one segment, and likewise for EAST and WEST |
| Grids.CellSegments | GeneralMaze.java:570-582 | a cell adds one segment per wall it contributes to the count |
| Grids.WallSegments | GeneralMaze.java:566-586 | the drawing list has exactly as many segments as `countRemainedWalls` counts walls |
| Grids.InitializeRow | GeneralMaze.java:311-317 | a row of `cols` fresh cells, the j-th at (i, j) with its ID, all walls and no item |
| Grids.InitializeGrid | GeneralMaze.java:308-321 | a well-formed grid of fresh cells, each at its own position with its ID, every wall standing |
| GridEdges.InnerEdgeIds | GeneralMaze.java:405-415 | an inner edge joins IDs (id, id+1) across a column or (id, id+C) across a row, both inside the grid, never both |
| GridEdges.CellInnerEdgesAreInner | GeneralMaze.java:405-415 | the edges added at a cell are exactly the inner edges leaving that cell |
| GridEdges.InnerEdgesUpToLength | GeneralMaze.java:403-417 | after m rows the list has m(C-1) EAST edges and m*C (or (m-1)*C at the last row) SOUTH edges |
| GridEdges.InnerEdgesLength | GeneralMaze.java:401-419 | the inner edge list has R(C-1) + C(R-1) edges |
| GridEdges.InnerEdgesMembers | GeneralMaze.java:401-419 | the inner edge list holds exactly the EAST and SOUTH neighbour pairs |
| GridEdges.InnerEdgesDistinct | GeneralMaze.java:401-419 | no inner edge is listed twice |
| Tearing.TearPair | GeneralMaze.java:387-393 | the two named walls come down and every other wall keeps its state |
| Tearing.InnerEndsInGrid | GeneralMaze.java:383-386 | both cells of an inner edge lie in the grid |
| Tearing.OwnedWallsDisjoint | GeneralMaze.java:387-393 | two different inner edges own different walls |
| Tearing.TearInnerPicksOwnedWalls | GeneralMaze.java:382-394 | on an inner edge, `tearDownInnerWall` takes down exactly the wall pair the edge owns |
| Tearing.TearInnerKeepsOthers | GeneralMaze.java:382-394 | tearing down one inner edge leaves every other inner edge's walls as they were |
| Tearing.TearInnerOwnAndBorder | GeneralMaze.java:382-394 | tearing down an inner edge takes its walls down and keeps the perimeter standing |
| Tearing.TearInnerCount | GeneralMaze.java:363-365 | tearing down an inner edge whose walls stand lowers the wall count by exactly one |
| Tearing.TearDownPair | GeneralMaze.java:387-393 | on the cells, the two walls come down as `TearPair` says |
| Tearing.TearDownInnerWall | GeneralMaze.java:382-394 | on the cells, the walls become `TearInnerResult` |
| Borders.BorderEdges | WrapRoomMaze.java:90-106 | the border edge list has R + C edges |
| Borders.BorderEdgesMembers | WrapRoomMaze.java:90-106 | the list holds exactly the first-to-last edges of each row and each column |
| Borders.BorderEdgesDistinct | WrapRoomMaze.java:90-106 | with at least two rows no border edge is listed twice |
| Borders.BorderEndsInGrid | WrapRoomMaze.java:92-103 | both cells of a border edge lie in the grid |
| Borders.TearBorderPicksOwnedWalls | WrapRoomMaze.java:114-126 | on a border edge, `tearDownBorderWall` takes down exactly the pair the edge owns |
| Borders.TearBorderOwn | WrapRoomMaze.java:114-126 | tearing down a border edge takes both of its walls down |
| Borders.TearBorderCount | WrapRoomMaze.java:22-26 | with at least two rows, removing a standing border edge lowers the wall count by exactly two |
| Borders.TearBorderKeepsInner | WrapRoomMaze.java:114-126 | with at least two rows, removing a border edge leaves every inner edge's walls unchanged |
| Borders.TearBorderKeepsBorder | WrapRoomMaze.java:114-126 | with at least two rows, removing a border edge leaves every other border edge's walls unchanged |
| Borders.TearInnerKeepsBorder | GeneralMaze.java:382-394 | with at least two rows, removing an inner edge leaves every border edge's walls unchanged |
| Borders.TearDownBorderWall | WrapRoomMaze.java:114-126 | on the cells, the walls become `TearBorderResult` |
| DisjointSet.Root | GeneralMaze.java:461-466 | in a flat forest the root of k is k itself or its parent, and it is a root |
| DisjointSet.SingletonsAreFlat | GeneralMaze.java:430-436 | all entries -1 make a flat forest of singleton sets, n sets of total size n, sizes recorded |
| DisjointSet.UpdateSetResult | GeneralMaze.java:491-500 | the absorbed root and every entry that pointed at it now point at the absorbing root; every other entry except the absorbing root keeps its value |
| DisjointSet.UnionResult | GeneralMaze.java:474-483 | every entry outside the two joined sets keeps its value |
| DisjointSet.UpdateSetMerges | GeneralMaze.java:491-500 | the smaller root's members move to the larger root, nobody else moves, the larger root records the sum |
| DisjointSet.UpdateSetCounts | GeneralMaze.java:491-500 | merging two roots removes exactly one set and keeps the total recorded size |
| DisjointSet.UpdateSetMembers | GeneralMaze.java:491-500 | the absorbing root gains the absorbed set's members and every other set keeps its members |
| DisjointSet.UpdateSetKeepsSizes | GeneralMaze.java:491-500 | every root still records minus the size of its set |
| DisjointSet.UnionJoins | GeneralMaze.java:474-483 | union of different sets joins them under the larger set's root, one set fewer, total size kept, others unchanged |
| DisjointSet.MakeSet | GeneralMaze.java:430-436 | a fresh array of one entry per cell, all -1 |
| DisjointSet.FindSet | GeneralMaze.java:461-466 | the loop returns the root of the ID |
| DisjointSet.UpdateSet | GeneralMaze.java:491-500 | the array becomes `UpdateSetResult` of the old one |
| DisjointSet.UnionSet | GeneralMaze.java:474-483 | the array becomes `UnionResult` of the old one |
| DisjointSet.FindAndUnion | GeneralMaze.java:446-453 | reports true iff the two roots differed, and then joins the sets; otherwise changes nothing |
| Kruskal.KruskalInit | GeneralMaze.java:328-331 | the fresh grid, singleton sets, full lists and total wall count satisfy the loop invariant |
| Kruskal.JoinedToOrigin | GeneralMaze.java:323-326 | once every inner edge joins its cells, every cell is in the set of cell (0, 0) |
| Kruskal.AllJoined | GeneralMaze.java:323-326 | once every inner edge joins its cells, there is exactly one set |
| Kruskal.KruskalProgress | GeneralMaze.java:357-358 | while the counter is above its target, the edge list is not empty, so the draw never fails |
| Kruskal.KruskalExit | GeneralMaze.java:357-373 | on exit the counter equals its target, (R-1)(C-1) inner edges remain, and all cells share one root |
| Kruskal.KruskalDrawnEdge | GeneralMaze.java:358-360 | a drawn edge is an inner edge whose IDs and cells lie in the grid |
| Kruskal.JoinWalls | GeneralMaze.java:363-368 | tearing the drawn edge down and removing it from the inner list keeps walls, count and list in step |
| Kruskal.JoinSets | GeneralMaze.java:363 | the union keeps the set count and sizes in step and every processed edge joined |
| Kruskal.KruskalJoinStep | GeneralMaze.java:363-371 | a joining draw preserves the invariant with one union more and one wall less |
| Kruskal.KruskalSkipStep | GeneralMaze.java:370-371 | a draw inside one set preserves the invariant and only shortens the working list |
| Kruskal.KruskalApply | GeneralMaze.java:363-371 | one iteration after the union test: when the sets were joined, the walls become the drawn edge torn down, the counter drops by one and the edge leaves the inner list; otherwise walls, counter and inner list are unchanged; in both cases the edge leaves the working list, the invariant holds and every cell stays linked to its set's root |
| Kruskal.PickEdge | GeneralMaze.java:358 | while the counter is above its target an index of the working list can be drawn |
| Kruskal.KruskalDraw | GeneralMaze.java:358-371 | one iteration: when the drawn edge's cells have different roots, exactly its walls come down, the counter drops by one and it leaves the inner list; otherwise walls, counter and inner list are unchanged; the invariant and the root links hold and the working list shrinks |
| Kruskal.CreatePerfectMazeGrid | GeneralMaze.java:353-374 | ends with the count at R*C+R+C+1, one set, every cell reachable from every other through torn walls, the perimeter standing, and exactly the (R-1)(C-1) standing inner edges listed |
| Connectivity.LinkedItself | GeneralMaze.java:4-5 | every cell of the grid is linked to itself |
| Connectivity.OpenPairLinked | GeneralMaze.java:4-5 | two neighbours with the walls between them down are linked |
| Connectivity.LinkedBack | GeneralMaze.java:4-5 | links go both ways: a walk read backwards is a walk |
| Connectivity.LinkedThrough | GeneralMaze.java:4-5 | a link from a to b and one from b to c make one from a to c |
| Connectivity.LinkedAfterTearing | CellImpl.java:28-32 | when walls only come down, every link stays a link |
| Connectivity.ConnectedAfterTearing | CellImpl.java:28-32 | when walls only come down, a connected grid stays connected |
| Connectivity.TearInnerOnlyTearsDown | GeneralMaze.java:382-394 | `tearDownInnerWall` raises no wall |
| Connectivity.TearBorderOnlyTearsDown | WrapRoomMaze.java:114-126 | `tearDownBorderWall` raises no wall |
| Connectivity.TearInnerKeepsConnected | GeneralMaze.java:382-394 | tearing down an inner edge keeps a connected grid connected |
| Connectivity.TearBorderKeepsConnected | WrapRoomMaze.java:114-126 | tearing down a border edge keeps a connected grid connected |
| Connectivity.TornEdgeLinks | GeneralMaze.java:363-364 | once an inner edge is torn down, its two cells are linked |
| Connectivity.RootsLinkedInit | GeneralMaze.java:430-436 | with every cell a singleton set, every cell is linked to its root |
| Connectivity.RootsLinkedJoin | GeneralMaze.java:363-365 | joining the sets of an inner edge's cells and tearing its walls down keeps every cell linked to the root of its set |
| Connectivity.RootsLinkedConnected | GeneralMaze.java:346-347 | when every cell has the same root, every cell is linked to every other: the grid is connected |
| RoomMaze.BorderWalls | RoomMaze.java:27-29 | the perimeter has two walls per border edge, and it plus the (R-1)(C-1) removable inner walls make the perfect-maze count |
| RoomMaze.IsNumOfRemainingWallsValid | RoomMaze.java:12-16 | an accepted budget needs at least two rows and two columns and asks to remove between one and (R-1)(C-1) walls from the perfect maze |
| RoomMaze.RemovableWalls | RoomMaze.java:12-16 | the walls a room maze may still remove are exactly the (R-1)(C-1) inner walls a perfect maze keeps |
| RoomMaze.ThinMazeHasNoBudget | RoomMaze.java:12-16 | a room maze one cell thin accepts no budget |
| RoomMaze.BudgetOf4By6 | RoomMaze.java:12-16 | a 4 x 6 room maze accepts exactly the budgets 20 .. 34 |
| RoomMaze.PerfectMazeIsRoomState | GeneralMaze.java:331-333 | the perfect maze handed to `continueRemoveWalls` satisfies the room loop's invariant |
| RoomMaze.RoomStep | RoomMaze.java:20-24 | removing a listed inner edge lowers the count by one, shortens the list by one and keeps the invariant |
| RoomMaze.RoomDraw | RoomMaze.java:21-23 | one draw on the cells keeps the invariant and connectivity, one wall and one edge fewer |
| RoomMaze.ContinueRemoveWalls | RoomMaze.java:18-25 | the counter and the real wall count end at the budget, the perimeter stands, the grid stays connected, and the list never runs dry |
| WrapRoomMaze.IsNumOfRemainingWallsValid | WrapRoomMaze.java:12-16 | a budget is accepted iff it lies in 0 .. R*C + R + C - 1 |
| WrapRoomMaze.BudgetOf4By6 | WrapRoomMaze.java:12-16 | a 4 x 6 wrap room maze accepts exactly the budgets 0 .. 33 |
| WrapRoomMaze.WrapStart | WrapRoomMaze.java:19-20 | the perfect maze with the full border list satisfies the wrap loop's invariant |
| WrapRoomMaze.WrapBorderStep | WrapRoomMaze.java:22-26 | removing a listed border edge lowers the counter by two and keeps the invariant |
| WrapRoomMaze.WrapInnerStep | WrapRoomMaze.java:30-34 | removing a listed inner edge lowers the counter by one and keeps the invariant |
| WrapRoomMaze.WrapBorderDraw | WrapRoomMaze.java:23-25 | one border draw on the cells: two walls fewer, one border edge fewer, invariant and connectivity kept |
| WrapRoomMaze.WrapInnerDraw | WrapRoomMaze.java:31-33 | one inner draw on the cells: one wall fewer, one inner edge fewer, invariant and connectivity kept |
| WrapRoomMaze.RemoveBorderEdges | WrapRoomMaze.java:22-26 | the first loop stops above the budget, within two of it unless the border list is empty, and keeps the grid connected |
| WrapRoomMaze.RemoveInnerEdges | WrapRoomMaze.java:29-34 | the second loop brings the counter exactly to the budget and keeps the grid connected |
| WrapRoomMaze.CloseGap | WrapRoomMaze.java:29-44 | it fails iff border edges remain, the gap is one and the inner list is empty; otherwise, with at least two rows, the count ends at the budget; the grid stays connected |
| WrapRoomMaze.GapOutcome | WrapRoomMaze.java:35-44 | an empty draw happens iff no inner edge exists and the perfect count and the budget differ in parity |
| WrapRoomMaze.ContinueRemoveWalls | WrapRoomMaze.java:18-45 | fails iff the maze is one cell thin and the gap is odd; otherwise, with at least two rows, the wall count ends at the budget; the grid stays connected |
| WrapRoomMaze.MoveToOppositeCell | WrapRoomMaze.java:77-83 | `times - 1` steps shift the position by `times - 1` unit deltas |
| WrapRoomMaze.MoveInSolveMaze | WrapRoomMaze.java:62-75 | a wrap move keeps the row or the column, and from inside the grid it lands inside the grid |
| WrapRoomMaze.WrapMoveLands | WrapRoomMaze.java:62-75 | from inside the grid, a move at a side lands on the opposite side of the same row or column, elsewhere one step away, always in the grid |
| WrapRoomMaze.MovePlayerToOppositeCell | WrapRoomMaze.java:133-137 | the player ends where `MoveToOppositeCell` says |
| WrapRoomMaze.MovePlayerToNextCell | WrapRoomMaze.java:47-60 | the player's position follows `moveInSolveMaze` |
| Solver.NextInSolve | GeneralMaze.java:211-213 | a solver move keeps the row or the column; without wrapping it is the unit step, with wrapping it stays in the grid |
| Solver.OpenMoveStaysInGrid | GeneralMaze.java:196-201 | from a cell of a closed maze, a move through an open wall lands on a cell of the grid |
| Solver.StepThroughOpenSide | GeneralMaze.java:196-200 | moving toward an open side is a step of the walk relation |
| Solver.ReturnExtendsWalk | GeneralMaze.java:201-205 | appending the current cell after a successful recursive search keeps the path walking back through open walls |
| Solver.Dfs | GeneralMaze.java:185-209 | the goal is never marked visited; success iff the path grew, and then the goal is this cell or inside the grid; what is appended starts at the goal and ends at the current cell, walking back through open walls; on failure every open move out of a newly marked cell lands on a marked cell |
| Solver.SearchNeighbours | GeneralMaze.java:198-206 | the loop over the open sides keeps the visited set in the grid and the path walking back, and reports success iff it appended; on failure every neighbour through an open side is marked and the newly marked cells are closed under open moves |
| Solver.SearchNeighbour | GeneralMaze.java:199-205 | one recursive search plus the conditional append keeps the path walking back; on failure the neighbour is marked and the newly marked cells are closed under open moves |
| Solver.ClosedOverGrows | GeneralMaze.java:198-206 | two searches in a row, each closing its newly marked cells under open moves, together close all cells marked since the first began |
| Solver.SolveByDfs | GeneralMaze.java:175-183 | fails iff the start is outside the grid and not the goal; otherwise a non-empty path starts at the goal, ends at the start and walks back through open walls; a non-empty path means the goal is the start or in the grid; in a connected maze a goal in the grid gives a non-empty path |
| Solver.OpenPairIsStep | GeneralMaze.java:199-201 | two neighbours across a torn-down wall pair are one solver move apart, in a wrap maze too |
| Solver.ConnectedMazeHasRoutes | GeneralMaze.java:3-5 | in a connected maze some route of moves through open walls leads from any cell to any other |
| Solver.WalkStaysIn | GeneralMaze.java:185-209 | a walk that starts in a set of cells closed under open moves ends in it |
| Solver.FailedSearchSeparates | GeneralMaze.java:175-183 | when the search from the start fails, no walk leads from the start to the goal |
| Solver.PathHoldsRoute | GeneralMaze.java:175-183 | a solver path contains an occurrence of the goal from which it is a genuine route of open moves |
| Items.Free | GeneralMaze.java:531-532 | the free IDs are exactly the IDs of the grid not yet taken |
| Items.ItemsFitFromFourCells | GeneralMaze.java:506-518 | from four cells on, the coins and thieves always fit beside a start and a goal |
| Items.OneCellHasNoRoom | GeneralMaze.java:527-543 | a one-cell grid wants a coin and a thief but has at most one free cell |
| Items.PlaceOne | GeneralMaze.java:531-541 | one item lands on the chosen free cell; nothing else changes; the remaining free cells stay empty |
| Items.PlaceItems | GeneralMaze.java:527-544 | exactly `numOfItems` new IDs are taken, all in the grid; exactly those cells get the item; walls unchanged |
| Items.DecorateMazeGridWithItems | GeneralMaze.java:506-518 | the rounded-up fifth get a coin and the rounded-up tenth a thief, on distinct cells, none on the start or goal |
| GeneralMazes.IsNumOfRemainingWallsValid | PerfectMaze.java:12-15 | the variant dispatch (a perfect maze accepts every budget): an accepted room or wrap room budget lies in 0 .. (perfect count - 1), so some wall must still come down |
| GeneralMazes.IsStartAndGoalInsideGrid | GeneralMaze.java:282-287 | a location is accepted iff the diagonal cell (i, i) lies in the grid: the column is never read |
| GeneralMazes.RangeCheckIgnoresColumn | GeneralMaze.java:282-287 | the range check accepts a location iff its row is below both the row count and the column count; the column is never read |
| GeneralMazes.RangeCheckExamples | GeneralMaze.java:282-287 | (0, 100) passes in a 4 x 6 maze; the cell (5, 0) of a 6 x 4 maze is rejected |
| GeneralMazes.RoomMazeItemsFit | GeneralMaze.java:506-518 | every accepted room maze has room for its items |
| GeneralMazes.OneCellMazeCannotPlaceItems | GeneralMaze.java:527-543 | a 1 x 1 perfect maze passes every check but can never place its items |
| GeneralMazes.GenerateInnerEdgeList | GeneralMaze.java:401-419 | the nested loops build exactly `InnerEdges` |
| GeneralMazes.AddRowInnerEdges | GeneralMaze.java:404-416 | the inner loop appends exactly the row's edges |
| GeneralMazes.InnerEdgeListShape | GeneralMaze.java:401-419 | the list has R(C-1) + C(R-1) distinct edges, exactly the neighbour pairs |
| GeneralMazes.MakeGridConnected | GeneralMaze.java:328-334 | fails iff a thin wrap maze draws from an empty list; otherwise the count ends at the budget (one-row wrap aside) and non-wrap perimeters stand; in every case every cell is reachable from every other through torn walls |
| GeneralMazes.ContinueRemoveWalls | GeneralMaze.java:336-342 | per variant: a perfect maze's cells are untouched, the room and wrap room mazes meet the budget as their own loops promise; the grid stays connected |
| GeneralMazes.AddCellWalls | GeneralMaze.java:570-582 | one cell appends its segments in NORTH, WEST, SOUTH, EAST order |
| GeneralMazes.AddRowWalls | GeneralMaze.java:568-584 | one row appends its cells' segments |
| GeneralMazes.GenerateWallsLocation | GeneralMaze.java:566-586 | the list is `WallSegments` of the grid's walls, one segment per counted wall |
| GeneralMazes.CountGridWalls | GeneralMaze.java:148-168 | the loops count `CountWalls` of the grid |
| GeneralMazes.GenerateGrid | GeneralMaze.java:294-302 | a fresh connected grid, meeting the budget (one-row wrap room maze aside), with the items chosen as `ItemIdsChosen` and placed exactly there |
| GeneralMazes.ConnectedGrid | GeneralMaze.java:294-297 | fresh item-free cells connected as `MakeGridConnected` promises |
| GeneralMazes.NewMaze | GeneralMaze.java:39-73 | each error occurs exactly when its check is the first to fail; a built maze stores its arguments, puts the player on the start with no gold, meets the wall budget, is connected, lists its walls and holds a path walked back from the goal that is empty exactly when the goal lies outside the grid |
| GeneralMazes.BuildMaze | GeneralMaze.java:60-72 | past the checks, fails only by an empty draw or the solver's out-of-grid lookup, each exactly when it occurs |
| GeneralMazes.AssembleMaze | GeneralMaze.java:67-72 | the solver runs on the built grid and the maze stores it, its wall list and the path, which is empty exactly when the goal lies outside the grid |
| GeneralMazes.NewPerfectMaze | PerfectMaze.java:5-10 | a perfect maze never rejects its budget and ends with R*C + R + C + 1 walls and its perimeter standing |
| GeneralMazes.GeneralMaze.constructor | GeneralMaze.java:61-72 | the fields hold the arguments, the wall list is `WallSegments` of the grid, the maze is valid |
| GeneralMazes.GeneralMaze.ProduceNextPossibleMove | GeneralMaze.java:612-621 | no move once the game is over; otherwise exactly the open sides of the player's cell, in declaration order |
| GeneralMazes.GeneralMaze.IsGameOver | GeneralMaze.java:142-145 | (no contract) the player's position equals the goal |
| GeneralMazes.GeneralMaze.CountRemainedWalls | GeneralMaze.java:147-168 | the number of walls standing, each counted once |
| GeneralMazes.GeneralMaze.UpdatePlayerAndGridAfterGoldCollection | GeneralMaze.java:636-647 | a coin on the player's cell is collected (+1) and cleared; otherwise a thief takes the rounded-up tenth; nothing else changes |
| GeneralMazes.GeneralMaze.MovePlayer | GeneralMaze.java:100-111 | no change after the game is over; a blocked move fails and changes nothing; an open move lands in the grid and settles the item there; walls and thieves never change |
| GeneralMazes.GeneralMaze.StepPlayer | GeneralMaze.java:628-630 | the player moves through the open side to the neighbour, wrapping in a wrap room maze, and stays in the grid |

## Left out

- User interface: the Swing view, the controller and the driver are not part of this model; they only read the maze and forward moves.
- Text output: `toString`, `printMaze`, `printPlayerStatus` and `printNextPossibleMove` produce text only, so they are not modelled.
- Location lists kept for display: `generateThiefLocation`, `getThiefLocation` and `getGoldCoinLocation` only collect the positions of items for display, so they are not modelled. `ItemsPlaced` states where the items are.
- Read accessors: `getGoalLocation`, `getStartLocation`, `getWallsLocation`, `getSolveLocation`, `getPlayerLocation` and `getPlayerGoldCount` are plain field reads on the class.
- Random numbers: every `nextInt` draw is a nondeterministic choice over all allowed values; the uniform distribution is not modelled.
- Floating point: `getXPercentageInInt` is modelled as an exact integer ceiling; the double-precision product is not.
- 32-bit overflow: Java `int` arithmetic is unbounded here, because the grids in question are far below the overflow range.
- Items.PlaceItems: requires that enough IDs are free. The source's loop never ends otherwise, and that non-termination is not modelled; `NewMaze` carries the same precondition.
- Items.PlaceItems: redraws of an ID that is already taken are skipped, because they change nothing.
- GeneralMazes.MakeGridConnected: claims the wall budget only for at least two rows in a wrap room maze. With one row, the two cells of a column border edge coincide, and `tearDownBorderWall` (WrapRoomMaze.java:114-126) takes down that cell's WEST and EAST walls rather than its NORTH and SOUTH walls. The row's own border edge takes down the WEST wall of (0, 0) and the EAST wall of (0, C-1). After the perfect maze every inner wall of a one-row maze is already down, and these edges share perimeter walls, so what a tear removes depends on the draw order. The row's edge lowers the real wall count by at most two. A column edge in the first or last column lowers it by at most one, and by none once the row's edge has come down. A column edge in between lowers it by nothing. In a 1 x 1 maze the row edge and the column edge clear the same WEST and EAST pair: the first one drawn lowers the count by two and the second by none. The source's counter drops by two every time.
- WrapRoomMaze.ContinueRemoveWalls: the same one-row limit as `MakeGridConnected`.
- WrapRoomMaze.CloseGap: the same one-row limit as `MakeGridConnected`.
- GeneralMazes.NewMaze: the same one-row limit for the wall budget of a wrap room maze.
- GeneralMazes.GenerateGrid: the same one-row limit as `MakeGridConnected`; no wall count is claimed for a one-row wrap room maze.
- GeneralMazes.GenerateWallsLocation: reads the walls from a value snapshot of the grid taken after generation, not from the cells. Nothing changes the walls after generation, and `MovePlayer` keeps them unchanged.
- GeneralMazes.BuildMaze: allocates the player's location before the grid rather than after, because the order of these allocations cannot be observed.
- Location storage: the start and goal are stored as values. The source stores the caller's `Location` objects, so a caller that mutates them later would be aliased; that aliasing is not modelled.
