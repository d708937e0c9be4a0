# Maze core: a verified Dafny model

This project models the maze-and-grid core of a Unity maze game in which a
ball is steered across a tilting platform. The model covers:

- the random maze generator (`MazeGenerator`);
- the conversion of its wall masks into the boolean block grid the game
  uses (`MazeController`);
- the runtime grid object (`MazeRuntimeGrid`) and the wall border added
  around it (`MazePadding`);
- the three path searches over that grid: breadth-first search with path
  reconstruction (`BFS.cs`), A* (`AStar.cs`) and the older A* variant
  (`PathFinder.cs`);
- the waypoint planner built on A* (`AStarPlanner`);
- the loader for hand-drawn ASCII mazes (`AsciiMazeLoader`).

Modules, one per source file, plus shared vocabulary:

- `Geometry`: positions (`Vector2Int`), unit steps and list reversal.
- `Walks`: walks over a set of open cells, reachability and shortest
  distance. Every search is specified in these terms.
- `Random`: `System.Random` as a replayed stream of draws.
- `RuntimeGrid`: the class `MazeRuntimeGrid` over a 2-D `bool` array.
- `MazeWalls`: wall masks (`East = 1`, `North = 2`, `West = 4`,
  `South = 8`), the direction tables, and boards (maps from cell to mask).
  A board can be *sound*: both sides of every wall agree and the boundary
  is closed. It can be *connected*: every cell reaches every other one
  through open walls.
- `MazeGenerator`: the depth-first carve, loop injection, dead-end pruning
  and the difficulty settings, as imperative code over `array2<bv8>`.
- `MazeController`, `MazePadding`, `Bfs`, `BfsPath`, `AStar`, `Pathfinder`,
  `Planner`, `AsciiMaze`: the remaining source files.

The main results:

- `Generate` always produces a sound, connected maze.
- The block grid matches the masks block by block.
- Padding preserves every wall and every shortest distance.
- BFS fills in exact shortest distances and a consistent parent table, and
  reconstruction follows it.
- A* answers a shortest walk, and answers `null` exactly when the goal is
  unreachable.
- The older path finder always terminates, with a walk or with `null` for
  an unreachable goal. With a heuristic that changes by at most one per
  step, such as the exact Euclidean distance, the walk is a shortest one.
- The ASCII parser fills every block from its character and keeps the last
  `B` as the ball cell.

Edge cases, as the code handles them:

- `Generate` returns a `0 × 0` array for a non-positive width or height;
  it does not throw (`MazeGenerator.cs:66-70`).
- `AStar.Search` returns `null`, not an empty list, when there is no path
  (`AStar.cs:85`).
- `Pad` returns the grid and both positions unchanged when the padding is
  zero or negative (`MazePadding.cs:21-24`).
- `MazeRuntimeGrid.Init` accepts zero sizes and then has no cell in bounds
  (`MazeRuntimeGrid.cs:28-35`).
- BFS path reconstruction follows parent links until it meets the start or
  the sentinel, with no guard against a cycle in the parent table
  (`BFS.cs:149-158`; see `BfsPath.ReconstructPath` below).

Conventions:

- In the grids, a `Pos(x, y)` is (row, column). In the generator it is
  (column, row), as in the source.
- `Option` stands for a C# reference that may be `null`.

## Model

| member | source | states |
|---|---|---|
| RuntimeGrid.MazeRuntimeGrid.constructor | Assets/Scripts/MazeRuntimeGrid.cs:26 | a new grid holds no rows until `Init` |
| RuntimeGrid.MazeRuntimeGrid.IsWithinBounds | Assets/Scripts/MazeRuntimeGrid.cs:71-74 | a position is in bounds exactly when its row and column lie inside the grid; an uninitialised grid has no position in bounds |
| RuntimeGrid.MazeRuntimeGrid.HasWall | Assets/Scripts/MazeRuntimeGrid.cs:61-74 | any position outside the grid, and every position of an uninitialised grid, counts as a wall |
| RuntimeGrid.MazeRuntimeGrid.OpenCells | Assets/Scripts/MazeRuntimeGrid.cs:61-74 | the open cells are exactly the positions `HasWall` denies, all inside the grid |
| RuntimeGrid.MazeRuntimeGrid.Init | Assets/Scripts/MazeRuntimeGrid.cs:28-35 | a fresh `rowCount × colCount` grid (zero sizes allowed): exactly the positions inside it are in bounds, and every one of them is empty |
| RuntimeGrid.MazeRuntimeGrid.AddWall | Assets/Scripts/MazeRuntimeGrid.cs:37-47 | an in-bounds cell becomes a wall and nothing else changes; out of bounds, nothing changes |
| RuntimeGrid.MazeRuntimeGrid.RemoveWall | Assets/Scripts/MazeRuntimeGrid.cs:49-59 | an in-bounds cell becomes empty and nothing else changes; out of bounds, nothing changes |
| Random.Rng.Next | Assets/Scripts/MazeGenerator.cs:89 | a draw in `[0, maxValue)`, or `0` when `maxValue` is `0`; one draw consumed |
| Random.Rng.NextInRange | Assets/Scripts/MazeGenerator.cs:236 | a draw in `[minValue, maxValue)`, or `minValue` when the range is empty |
| Random.Rng.NextDouble | Assets/Scripts/MazeGenerator.cs:243 | a draw in `[0, 1)` |
| MazeWalls.Clear | Assets/Scripts/MazeGenerator.cs:182-184 | clearing one wall bit removes that wall and keeps every other one |
| MazeWalls.DirectionTables | Assets/Scripts/MazeGenerator.cs:34-53 | each direction index moves one step East, North, West or South, crosses that side's wall and enters through the opposite wall |
| MazeWalls.CellCount | Assets/Scripts/MazeGenerator.cs:74 | a `w × h` maze has `w · h` cells |
| MazeWalls.CellsSplit | Assets/Scripts/MazeGenerator.cs:74 | the cells of a `w × h` maze split into the first `w − 1` columns and the last one |
| MazeWalls.AllWallsSound | Assets/Scripts/MazeGenerator.cs:78-85 | the all-walls maze is sound |
| MazeWalls.RemoveWallEffect | Assets/Scripts/MazeGenerator.cs:178-185 | removing a wall between two cells clears exactly the two matching bits and nothing else |
| MazeWalls.RemoveWallFewer | Assets/Scripts/MazeGenerator.cs:178-185 | removing a wall only takes walls down |
| MazeWalls.RemoveWallSound | Assets/Scripts/MazeGenerator.cs:178-185 | removing a wall between two in-bounds neighbours keeps the maze sound |
| MazeWalls.RemoveWallOpens | Assets/Scripts/MazeGenerator.cs:178-185 | after the removal the two cells are joined by a passage |
| MazeWalls.FewerTransitive | Assets/Scripts/MazeGenerator.cs:129-171 | taking walls down in several phases takes them down overall |
| MazeWalls.ConnectedKept | Assets/Scripts/MazeGenerator.cs:129-171 | taking walls down never disconnects a connected maze |
| MazeWalls.ConnectsBack | Assets/Scripts/MazeGenerator.cs:178-185 | in a sound maze every passage walk can be walked backwards |
| MazeWalls.ConnectedFromOne | Assets/Scripts/MazeGenerator.cs:87-127 | a sound maze in which one cell reaches every cell is connected |
| MazeWalls.Edge | Assets/Scripts/MazeGenerator.cs:178-185 | a wall named from either side is the same wall named from its West or South side |
| MazeWalls.OpenInner | Assets/Scripts/MazeGenerator.cs:129-134 | the inner walls that are down, each named once, are exactly the East and North walls of a cell that lead to a cell and do not stand |
| MazeWalls.OpenInnerAllWalls | Assets/Scripts/MazeGenerator.cs:78-85 | with every wall up no inner wall is down |
| MazeWalls.OpenInnerRemove | Assets/Scripts/MazeGenerator.cs:178-185 | removing a wall opens that inner wall and no other one; it was not open before exactly when it stood |
| MazeWalls.OpenInnerGrows | Assets/Scripts/MazeGenerator.cs:129-171 | taking walls down never closes an inner wall |
| MazeWalls.BothSides | Assets/Scripts/MazeGenerator.cs:178-185 | on a sound maze the two sides of an inner wall stand together |
| MazeWalls.OpenEachSnoc | Assets/Scripts/MazeGenerator.cs:136-161 | opening one more wall extends the record of opened walls |
| MazeWalls.OpenEachFacts | Assets/Scripts/MazeGenerator.cs:136-161 | opening in-bounds walls in turn keeps a maze sound and only takes walls down, with at most one more inner wall down per wall, and exactly one more when each still stood |
| MazeGenerator.RemoveWallBetween | Assets/Scripts/MazeGenerator.cs:178-185 | the array afterwards holds the board with that wall removed, and soundness is kept |
| MazeGenerator.FillAllWalls | Assets/Scripts/MazeGenerator.cs:78-85 | every cell has all four walls |
| MazeGenerator.UnvisitedDirections | Assets/Scripts/MazeGenerator.cs:97-108 | exactly the directions, in increasing order, that lead to an in-bounds unvisited neighbour |
| MazeGenerator.MarkVisited | Assets/Scripts/MazeGenerator.cs:124 | the visited set grows by that cell |
| MazeGenerator.CarveStart | Assets/Scripts/MazeGenerator.cs:88-91 | the carve's invariant holds with only the start cell visited and stacked |
| MazeGenerator.CarvePop | Assets/Scripts/MazeGenerator.cs:110-114 | popping a cell with no unvisited neighbour keeps every off-stack visited cell closed |
| MazeGenerator.TopClosed | Assets/Scripts/MazeGenerator.cs:97-114 | a cell with no unvisited in-bounds neighbour is closed |
| MazeGenerator.FrontierPush | Assets/Scripts/MazeGenerator.cs:124-125 | pushing a newly visited cell keeps the frontier invariant and visits one more cell |
| MazeGenerator.RoutedPush | Assets/Scripts/MazeGenerator.cs:118-125 | the new cell is reached from the start through the wall just carved |
| MazeGenerator.ClosedReaches | Assets/Scripts/MazeGenerator.cs:93-127 | once the stack is empty, every cell is visited |
| MazeGenerator.RoutedDone | Assets/Scripts/MazeGenerator.cs:93-127 | a sound maze in which every cell is routed from the start is connected |
| MazeGenerator.CarveForward | Assets/Scripts/MazeGenerator.cs:115-126 | a carve into a random unvisited neighbour keeps the carve invariant and visits one more cell |
| MazeGenerator.CarveInto | Assets/Scripts/MazeGenerator.cs:118-124 | carving into an unvisited neighbour keeps the maze sound, routes the new cell from the start, and takes down exactly one more inner wall |
| MazeGenerator.CarveStep | Assets/Scripts/MazeGenerator.cs:93-127 | one round either visits a new cell or pops the stack |
| MazeGenerator.CarveEnd | Assets/Scripts/MazeGenerator.cs:93-127 | with the stack empty every cell is visited, exactly `w · h − 1` inner walls are down, and the maze is sound and connected |
| MazeGenerator.CarvePerfect | Assets/Scripts/MazeGenerator.cs:87-127 | the depth-first carve visits every cell, leaves exactly `w · h − 1` inner walls down (a spanning tree), and leaves the maze sound and connected |
| MazeGenerator.PickLoopWall | Assets/Scripts/MazeGenerator.cs:141-151 | a cell off the last column and row, offering East exactly when there are two or more columns and North exactly when there are two or more rows |
| MazeGenerator.OpenIfStanding | Assets/Scripts/MazeGenerator.cs:156-160 | the chosen wall comes down if it stands; otherwise nothing changes |
| MazeGenerator.AddLoop | Assets/Scripts/MazeGenerator.cs:138-160 | with more than one cell, one loop round picks an East or North wall of a cell off the last column and row and leaves the board with exactly that wall opened (unchanged if it was already down); a `1 × 1` maze is left unchanged; soundness is kept |
| MazeGenerator.AddLoops | Assets/Scripts/MazeGenerator.cs:133-161 | exactly `extra` rounds run (none for a `1 × 1` maze or a non-positive count), each a loop wall; the board is the old one with those walls opened in turn, sound, connected if it was, and with at most one more inner wall down per round |
| MazeGenerator.LoopRound | Assets/Scripts/MazeGenerator.cs:136-161 | one round of the loop extends the record of loop walls by one and the board follows it |
| MazeGenerator.LoopWallsSnoc | Assets/Scripts/MazeGenerator.cs:141-154 | appending a loop wall keeps every recorded round a loop wall |
| MazeGenerator.LoopsDone | Assets/Scripts/MazeGenerator.cs:136-161 | after the rounds the board has only lost walls, stays connected, and has at most one more inner wall down per round |
| MazeGenerator.OpeningsClear | Assets/Scripts/MazeGenerator.cs:212-218 | taking down a standing wall raises the cell's count of open directions by one |
| MazeGenerator.CountOpenings | Assets/Scripts/MazeGenerator.cs:210-218 | the number of open directions of a mask |
| MazeGenerator.CollectDeadEnds | Assets/Scripts/MazeGenerator.cs:200-227 | exactly the cells with one open direction, in scan order |
| MazeGenerator.Shuffle | Assets/Scripts/MazeGenerator.cs:232-239 | the shuffled list is a permutation of the dead ends |
| MazeGenerator.FirstOpening | Assets/Scripts/MazeGenerator.cs:245-255 | the first direction without a wall, or `-1` when every wall stands |
| MazeGenerator.WallsToOpen | Assets/Scripts/MazeGenerator.cs:257-274 | exactly the standing walls, other than the opening, that lead to an in-bounds neighbour, in increasing direction order without repeats |
| MazeGenerator.OpenWall | Assets/Scripts/MazeGenerator.cs:278-281 | the chosen standing wall comes down, keeping soundness, and the cell gains one opening |
| MazeGenerator.OpenDeadEnd | Assets/Scripts/MazeGenerator.cs:245-282 | either nothing changes or one standing wall to an in-bounds neighbour comes down |
| MazeGenerator.PruneCell | Assets/Scripts/MazeGenerator.cs:243-283 | with the drawn probability a dead end gains one opening; soundness is kept either way |
| MazeGenerator.PrunePass | Assets/Scripts/MazeGenerator.cs:231-285 | the board afterwards is the old one with the recorded walls opened in turn; each stood at its turn, leaves a listed dead end towards an in-bounds neighbour, and the dead ends that lost one appear in list order; the result is `true` exactly when a wall came down, and `false` means the board is unchanged |
| MazeGenerator.PruneEntry | Assets/Scripts/MazeGenerator.cs:241-284 | one dead end's turn extends the pass record by the wall it lost, if any |
| MazeGenerator.EntryChanged | Assets/Scripts/MazeGenerator.cs:276-282 | when a dead end loses a standing wall, the pass record moves on with that wall appended |
| MazeGenerator.PickedSnoc | Assets/Scripts/MazeGenerator.cs:241-282 | a dead end that lost a wall is recorded after the earlier ones |
| MazeGenerator.PickedSkip | Assets/Scripts/MazeGenerator.cs:241-283 | a dead end that lost no wall leaves the record as it is |
| MazeGenerator.SwapNoDuplicates | Assets/Scripts/MazeGenerator.cs:233-239 | a shuffle swap keeps the list free of duplicates |
| MazeGenerator.PassDeadEnds | Assets/Scripts/MazeGenerator.cs:200-285 | the walls a pass takes down each leave a distinct dead end of the board the pass started from |
| MazeGenerator.PruneDeadEnds | Assets/Scripts/MazeGenerator.cs:187-287 | at most two passes run, and every pass but the last took a wall down; each pass opens walls of distinct dead ends of the board it started from, and the final board is the last pass's result; the maze stays sound, only loses walls, and stays connected |
| MazeGenerator.PruneOnce | Assets/Scripts/MazeGenerator.cs:198-286 | one pass of the outer loop extends the record of passes, and a pass that does not stop took a wall down |
| MazeGenerator.PassRecorded | Assets/Scripts/MazeGenerator.cs:198-286 | a pass from the board the earlier passes ended on extends the record |
| MazeGenerator.EachPassRecorded | Assets/Scripts/MazeGenerator.cs:198-286 | every recorded pass still opens walls of dead ends of its own starting board after one is appended |
| MazeGenerator.ChainRecorded | Assets/Scripts/MazeGenerator.cs:198-286 | every recorded board is still the one before it with that pass's walls opened after one is appended |
| MazeGenerator.ChangedBefore | Assets/Scripts/MazeGenerator.cs:285 | the loop only goes on after a pass that took a wall down |
| MazeGenerator.Clamp01 | Assets/Scripts/MazeGenerator.cs:72 | the difficulty is pulled into `[0, 1]` and left alone when already there |
| MazeGenerator.RoundToInt | Assets/Scripts/MazeGenerator.cs:134 | the nearest whole number, halves going to the even one |
| MazeGenerator.RoundToIntUnique | Assets/Scripts/MazeGenerator.cs:134 | no other whole number rounds that way |
| MazeGenerator.RoundToIntMonotone | Assets/Scripts/MazeGenerator.cs:134 | rounding keeps order |
| MazeGenerator.LoopShareBounds | Assets/Scripts/MazeGenerator.cs:133-134 | the unrounded loop count lies between none and a quarter of the inner walls, and grows with difficulty |
| MazeGenerator.ExtraConnections | Assets/Scripts/MazeGenerator.cs:133-134 | the loop count is at most the number of inner walls, and zero at difficulty `0` |
| MazeGenerator.ExtraConnectionsMonotone | Assets/Scripts/MazeGenerator.cs:129-134 | a harder maze asks for at least as many loops |
| MazeGenerator.PruneProbability | Assets/Scripts/MazeGenerator.cs:164-171 | below difficulty `0.3` the pruning probability lies in `(0, 0.6]` |
| MazeGenerator.Generate | Assets/Scripts/MazeGenerator.cs:64-174 | a non-positive size gives a `0 × 0` array; otherwise a `w × h` maze that is sound and connected, with at least `w · h − 1` inner walls down and, when no pruning runs, at most that many plus the loop count |
| MazeController.CarveCell | Assets/Scripts/MazeController.cs:134-157 | carving one maze cell makes its block and its open East and North passages floor, and touches no other block |
| MazeController.RowDone | Assets/Scripts/MazeController.cs:130-159 | after a row of maze cells, the carved region covers that whole row |
| MazeController.ConvertGeneratedMazeToBlockGrid | Assets/Scripts/MazeController.cs:111-166 | a `(2h + 1) × (2w + 1)` grid in which a block is floor exactly when it is a cell centre or an opening between two cells; the spawn `(1, 1)` is floor |
| MazeController.FindFirstEmptyCell | Assets/Scripts/MazeController.cs:98-109 | the first floor block in row-major order, or `(0, 0)` when every scanned block is a wall |
| MazePadding.FillBlock | Assets/Scripts/MazePadding.cs:40-60 | the filled region grows by one block, which is a wall exactly when it is border or a wall of the original |
| MazePadding.NextRow | Assets/Scripts/MazePadding.cs:35-63 | after a full row the filled region covers it |
| MazePadding.Pad | Assets/Scripts/MazePadding.cs:19-72 | a non-positive padding returns everything unchanged; otherwise a new grid grows by `2 · padding` each way, the border is walls, every original cell keeps its state at the shifted position, and both positions are shifted |
| MazePadding.PaddedWalls | Assets/Scripts/MazePadding.cs:34-63 | the open cells of the padded grid are exactly the shifted open cells of the original |
| MazePadding.ShiftWalk | Assets/Scripts/MazePadding.cs:65-69 | a walk stays a walk when cells and walk are shifted together, and only then |
| MazePadding.PaddingKeepsDistance | Assets/Scripts/MazePadding.cs:19-72 | every shortest distance is the same between the shifted positions of the padded grid |
| Bfs.BfsResult.constructor | Assets/Scripts/PathFinding/BFS.cs:21-25 | the result holds the two tables it is given |
| Bfs.DistanceAnswer | Assets/Scripts/PathFinding/BFS.cs:32-44 | on the tables `SearchBFS` fills from an open start, `GetDistanceTo` answers the shortest distance when it answers a non-negative value, and `-1` exactly when the target is unreachable, which covers every target outside the grid |
| Bfs.ReachableInGrid | Assets/Scripts/PathFinding/BFS.cs:116-118 | every cell reachable from an open start lies inside the grid |
| Bfs.WalkFromParents | Assets/Scripts/PathFinding/BFS.cs:118-123 | every reached cell has a walk from the start of its recorded length |
| Bfs.WalkBound | Assets/Scripts/PathFinding/BFS.cs:107-126 | once the queue is drained, every walk from the start ends on a reached cell at no more than its own length |
| Bfs.FinishedSearch | Assets/Scripts/PathFinding/BFS.cs:107-126 | a drained search has exact shortest distances, with `-1` exactly on the unreachable cells |
| Bfs.VisitKeepsLinks | Assets/Scripts/PathFinding/BFS.cs:118-123 | recording a neighbour one step further keeps every parent link consistent |
| Bfs.VisitKeepsQueue | Assets/Scripts/PathFinding/BFS.cs:123 | the queue stays ordered by distance when a neighbour is enqueued |
| Bfs.QueueStep | Assets/Scripts/PathFinding/BFS.cs:107-109 | cells leave the queue in non-decreasing distance |
| Bfs.BeginInv | Assets/Scripts/PathFinding/BFS.cs:99-102 | the search's invariant holds with only the start enqueued at distance `0` |
| Bfs.DirectionIsStep | Assets/Scripts/PathFinding/BFS.cs:104 | each of the four directions is one step |
| Bfs.StepKeepsInv | Assets/Scripts/PathFinding/BFS.cs:107-126 | one dequeue and its neighbour visits keep the invariant |
| Bfs.RunKeepsInv | Assets/Scripts/PathFinding/BFS.cs:107-126 | any number of rounds keeps the invariant |
| Bfs.StepProgress | Assets/Scripts/PathFinding/BFS.cs:107-126 | each round dequeues one cell, so the loop ends |
| Bfs.RunFinished | Assets/Scripts/PathFinding/BFS.cs:107-128 | when the queue is empty the tables are consistent and hold exact shortest distances |
| Bfs.NewTables | Assets/Scripts/PathFinding/BFS.cs:74-86 | fresh tables of the grid's size: every distance `-1`, every parent the sentinel, nothing visited |
| Bfs.MarkStart | Assets/Scripts/PathFinding/BFS.cs:99-102 | the tables mirror the search state with only the start reached |
| Bfs.RecordVisit | Assets/Scripts/PathFinding/BFS.cs:120-122 | the tables mirror the state with one more cell recorded |
| Bfs.VisitNeighbour | Assets/Scripts/PathFinding/BFS.cs:114-124 | the arrays and queue match one visit of the search state |
| Bfs.ProcessNext | Assets/Scripts/PathFinding/BFS.cs:109-125 | the arrays and queue match one round of the search state |
| Bfs.Flood | Assets/Scripts/PathFinding/BFS.cs:95-126 | from an open start, the tables end consistent and holding exact shortest distances |
| Bfs.SearchBFS | Assets/Scripts/PathFinding/BFS.cs:60-129 | empty tables for a missing or empty grid; all `-1` when the start is a wall; otherwise every distance is the exact shortest distance (`-1` exactly when unreachable) and every reached non-start cell's parent is an adjacent cell one step nearer |
| BfsPath.SentinelOffTable | Assets/Scripts/PathFinding/BFS.cs:143 | the sentinel `(-1, -1)` is never a cell of the table |
| BfsPath.StepBack | Assets/Scripts/PathFinding/BFS.cs:149-158 | following one parent link extends a parent path backwards |
| BfsPath.CollectedPath | Assets/Scripts/PathFinding/BFS.cs:159-162 | the collected cells, reversed, form a parent path from the start to the end |
| BfsPath.CollectStep | Assets/Scripts/PathFinding/BFS.cs:149-158 | one round of collection keeps the loop's invariant and lowers the rank |
| BfsPath.PathsThroughParent | Assets/Scripts/PathFinding/BFS.cs:143-156 | a cell without a parent, other than the start, lies on no parent path from the start |
| BfsPath.ReconstructPath | Assets/Scripts/PathFinding/BFS.cs:138-163 | a non-empty answer is a parent path from the start to the end; an empty one means no parent path exists; `[start]` when the end is the start |
| BfsPath.BfsTableRanked | Assets/Scripts/PathFinding/BFS.cs:118-123 | a BFS parent table has no cycles, so reconstruction always ends on it |
| BfsPath.BfsPathExists | Assets/Scripts/PathFinding/BFS.cs:138-163 | for every reached cell a parent path of its distance plus one cells exists, so reconstruction does not come back empty |
| BfsPath.BfsPathIsShortest | Assets/Scripts/PathFinding/BFS.cs:138-163 | every parent path through a BFS table is a walk of the recorded shortest length |
| AStar.GetManhattanDistance | Assets/Scripts/PathFinding/AStar.cs:103-106 | zero exactly at the goal |
| AStar.WalkLength | Assets/Scripts/PathFinding/AStar.cs:103-106 | along any walk the heuristic drops by at most one per step, so it never overestimates |
| AStar.RootedChain | Assets/Scripts/PathFinding/AStar.cs:88-101 | the chain of a node grown from the start is a walk from the start of `G + 1` cells |
| AStar.RetracePath | Assets/Scripts/PathFinding/AStar.cs:88-101 | the positions from the start node along the parent links to the end node, in order |
| AStar.SelectCurrent | Assets/Scripts/PathFinding/AStar.cs:30-37 | the first open node of least `F`, ties broken by least `H` |
| AStar.FindOpen | Assets/Scripts/PathFinding/AStar.cs:60-69 | the first open node at the position, or `-1` when there is none |
| Geometry.Without | Assets/Scripts/PathFinding/AStar.cs:39 | the list with exactly the chosen entry removed, the rest in order |
| AStar.ChosenShortest | Assets/Scripts/PathFinding/AStar.cs:30-40 | the chosen node's `G` is the shortest distance to its position |
| AStar.ClosedWalk | Assets/Scripts/PathFinding/AStar.cs:28-85 | when the open list is empty every walk from the start stays among closed cells |
| AStar.VisitNeighbor | Assets/Scripts/PathFinding/AStar.cs:57-81 | the neighbour ends on the open list at most one step dearer than the current node, and no open entry gets dearer |
| AStar.Expand | Assets/Scripts/PathFinding/AStar.cs:47-82 | after the four neighbours every open cell next to a closed one is listed at most one step dearer |
| AStar.FoundShortest | Assets/Scripts/PathFinding/AStar.cs:42-45 | when the goal is chosen, its chain is a shortest walk |
| AStar.SearchStep | Assets/Scripts/PathFinding/AStar.cs:28-82 | a round either answers a shortest walk from start to goal, `[start]` when they coincide, or keeps the invariant and closes one more cell |
| AStar.Initial | Assets/Scripts/PathFinding/AStar.cs:22-26 | the search invariant holds with the start node alone on the open list |
| AStar.Exhausted | Assets/Scripts/PathFinding/AStar.cs:85 | an empty open list means the goal is unreachable |
| AStar.Search | Assets/Scripts/PathFinding/AStar.cs:20-86 | `null` exactly when the goal is unreachable; otherwise a shortest walk from start to goal, `[start]` when they coincide |
| Pathfinder.Chain | Assets/Scripts/PathFinder.cs:44-51 | the chain ends at the node's own position |
| Pathfinder.LineageCount | Assets/Scripts/PathFinder.cs:54-64 | a node's ancestors are distinct open cells, so `G` is below the number of cells |
| Pathfinder.ChainIsWalk | Assets/Scripts/PathFinder.cs:44-51 | the chain is a walk from the start of `G + 1` cells |
| Pathfinder.ReconstructPath | Assets/Scripts/PathFinder.cs:44-51 | the positions from the start node down to the end node, in order |
| Pathfinder.SelectCurrent | Assets/Scripts/PathFinder.cs:29-36 | the first node of least `F`, ties broken by least `H`, and no earlier entry equals it |
| Pathfinder.FirstAt | Assets/Scripts/PathFinder.cs:67 | the first node at the position, or the list length when there is none |
| Pathfinder.PotentialWithout | Assets/Scripts/PathFinder.cs:39 | taking a node off lowers the list's weight by that node's weight |
| Pathfinder.ChildrenPotential | Assets/Scripts/PathFinder.cs:54-71 | children one step dearer together weigh a fifth of their parent's weight per child, so up to four weigh less than the parent |
| Pathfinder.ProcessedWalk | Assets/Scripts/PathFinder.cs:27-74 | when the list runs out every walk from the start stays among processed cells |
| Pathfinder.VisitNeighbor | Assets/Scripts/PathFinder.cs:56-70 | a node is added exactly when the neighbour is no wall, is not processed, and is either not listed or listed first at a dearer `G`; the added node is at the neighbour, one step dearer than the current node, with the heuristic as `H` and the current node as parent; afterwards the neighbour is covered |
| Pathfinder.Expand | Assets/Scripts/PathFinder.cs:54-72 | the list only grows at its end, every open unprocessed neighbour is listed at most one step dearer than the current node, and the list gains less weight than the current node had |
| Pathfinder.FindStep | Assets/Scripts/PathFinder.cs:29-72 | a round either answers a walk to the end, a shortest one when the heuristic is consistent, or keeps the invariant and lowers the weight |
| Pathfinder.FindPath | Assets/Scripts/PathFinder.cs:22-75 | always terminates; `null` only when the goal is unreachable; otherwise a walk from start to goal, `[start]` when they coincide, and a shortest walk when `distance` is consistent (changes by at most one per step), in particular when it is the Euclidean distance |
| Pathfinder.EuclideanConsistent | Assets/Scripts/PathFinder.cs:63 | the Euclidean distance to the goal changes by at most one per step |
| Pathfinder.EuclideanStep | Assets/Scripts/PathFinder.cs:63 | one unit step raises the Euclidean distance to the goal by at most one |
| Pathfinder.UnitStep | Assets/Scripts/PathFinder.cs:63 | the triangle inequality for a unit step, stated on squares |
| Pathfinder.WalkHeuristic | Assets/Scripts/PathFinder.cs:63 | along a walk of `k` steps a consistent heuristic drops by at most `k` |
| Pathfinder.TakeOff | Assets/Scripts/PathFinder.cs:38-39 | taking a node off keeps the list invariant; the frontier holds again except around a newly processed position |
| Pathfinder.Covered | Assets/Scripts/PathFinder.cs:54-72 | once all four neighbours are covered the frontier holds again |
| Pathfinder.SelectedShortest | Assets/Scripts/PathFinder.cs:29-36 | with a consistent heuristic the chosen node at a new position is no dearer than any walk to it |
| Pathfinder.ProcessShortest | Assets/Scripts/PathFinder.cs:29-39 | with a consistent heuristic every processed position keeps the `G` of its first processing, its shortest distance |
| Pathfinder.FoundStep | Assets/Scripts/PathFinder.cs:41-51 | when the end is chosen its chain is a walk from the start, shortest when the heuristic is consistent, and `[start]` when the start is the end |
| Pathfinder.CloseStep | Assets/Scripts/PathFinder.cs:38-39 | taking the chosen node off and processing its position leaves what the expansion needs |
| Pathfinder.Reassembled | Assets/Scripts/PathFinder.cs:54-72 | after the expansion the search invariant holds again |
| Planner.RunFollowsPlan | Assets/Scripts/Strategies/Planners/AStarPlanner.cs:26-34 | repeated calls hand out the plan in order, then its last waypoint again and again |
| Planner.AStarPlanner.constructor | Assets/Scripts/Strategies/Planners/AStarPlanner.cs:7-8 | no plan, cursor at `0` |
| Planner.AStarPlanner.GeneratePlan | Assets/Scripts/Strategies/Planners/AStarPlanner.cs:10-19 | cursor at `0`; no plan exactly when the goal is unreachable, otherwise a non-empty shortest walk |
| Planner.AStarPlanner.GetPlan | Assets/Scripts/Strategies/Planners/AStarPlanner.cs:21-24 | a missing plan counts as finished; an unfinished plan has a waypoint under the cursor |
| Planner.AStarPlanner.IsPlanFinished | Assets/Scripts/Strategies/Planners/AStarPlanner.cs:36-39 | an unfinished plan exists and has a waypoint under the cursor; with a plan, finished means the cursor is at its end |
| Planner.AStarPlanner.GetNextWaypoint | Assets/Scripts/Strategies/Planners/AStarPlanner.cs:26-39 | the waypoint under the cursor, moving on; once finished, the last waypoint, cursor left alone |
| AsciiMaze.RemoveCarriageReturns | Assets/Scripts/AsciiMazeLoader.cs:28 | no `\r` is left, every other character is kept, and the length drops by exactly the number of `\r` in the text |
| AsciiMaze.RemoveCarriageReturnsAppend | Assets/Scripts/AsciiMazeLoader.cs:28 | the removal works piecewise on concatenated text, so the kept characters stay in the text's order |
| AsciiMaze.Split | Assets/Scripts/AsciiMazeLoader.cs:28 | at least one piece, and no piece holds the separator |
| AsciiMaze.JoinSplit | Assets/Scripts/AsciiMazeLoader.cs:28 | joining the pieces with the separator gives back the text |
| AsciiMaze.SplitJoin | Assets/Scripts/AsciiMazeLoader.cs:28 | splitting pieces joined by a separator they lack gives back the pieces |
| AsciiMaze.NonBlank | Assets/Scripts/AsciiMazeLoader.cs:31 | exactly the lines that are not empty or white space |
| AsciiMaze.NonBlankAppend | Assets/Scripts/AsciiMazeLoader.cs:31 | the filter works piecewise on concatenated lists |
| AsciiMaze.MazeLines | Assets/Scripts/AsciiMazeLoader.cs:28-31 | every maze line is non-blank and free of line breaks |
| AsciiMaze.LastBallStep | Assets/Scripts/AsciiMazeLoader.cs:78-85 | a later `B` replaces the ball cell; otherwise it is kept |
| AsciiMaze.FillBlock | Assets/Scripts/AsciiMazeLoader.cs:63-91 | one block becomes floor for a space or `B`, wall otherwise, and the last `B` so far is tracked |
| AsciiMaze.ParseAsciiMaze | Assets/Scripts/AsciiMazeLoader.cs:17-101 | no file or no non-blank line gives `0 × 0` and no ball; otherwise a rows × first-row-width grid in which each block is floor exactly for a space or `B` (wall past a short row), and the ball is the last `B` in row-major order, on a floor block |

## Left out

- Unity glue is not part of this model: `MonoBehaviour` life cycle, spawning of walls, floor and ball, ML-Agents, physics and editor tooling.
- Log calls (`Debug.Log*`) are not part of this model: they have no effect on the results.
- `System.Random` is modelled as a replayed stream of raw draws. Its internal algorithm, and so the exact maze a given seed yields, is not modelled.
- Floating point is modelled with exact reals. `difficulty`, `0.3f`, `0.25f` and the A* costs of the older path finder are `float` in the source; single-precision rounding is not modelled.
- `Vector2Int.Distance`, the heuristic of the older path finder, is a parameter `distance`. The walk and termination hold for any function; the walk is proved shortest whenever `distance` towards the goal changes by at most one per step, which the exact Euclidean distance does. The `float` rounding of that distance is not modelled.
- `MazeRuntimeGrid` stores an `int` per cell and tests `== 1`. The model stores a `bool`, because only `AddWall` (1) and `RemoveWall` (0) ever write a cell. The serialisable jagged `MazeRow[]` is a rectangular 2-D array, since `Init` gives every row the same length.
- Several calls in the source name members `MazeRuntimeGrid` does not declare, each read as the nearest member that exists:
  - `new MazeRuntimeGrid(rows, cols)` is creation followed by `Init`;
  - `grid.Length` and `grid[0].Length` are the row and column counts;
  - `grid[r][c]` is the stored cell;
  - `grid.IsWall` is `HasWall`.
- `AStarPlanner.GeneratePlan` calls `AStar.FindPath`, which the source does not declare; it is read as `AStar.Search`.
- MazeController.ConvertGeneratedMazeToBlockGrid: requires a non-empty generated maze. For a `0 × 0` maze the source builds a `1 × 1` block grid and then reads block `(1, 1)`, which is out of range.
- Planner.AStarPlanner.GetNextWaypoint: requires a non-empty plan. With no plan, or an empty one, the source indexes a null or empty list. `GeneratePlan` never stores an empty plan.
- BfsPath.ReconstructPath: requires a ghost rank that decreases along parent links, i.e. an acyclic table. On a cyclic table the source loops forever. `BfsTableRanked` supplies the rank for every table `SearchBFS` produces.
- BfsPath.ReconstructPath: requires `endPos` inside the table, where the source would throw.
- MazePadding.Pad: requires an initialised grid with at least one row when padding is positive, where the source reads `originalGrid[0]`.
- AsciiMaze.ParseAsciiMaze: the row-length check (lines 45-54) only logs, so it is left out; rows longer than the first are cut to the first row's width. The `ballFound` flag only feeds log messages and is dropped.
- AsciiMaze.ParseAsciiMaze: counts characters as Unicode scalar values (`seq<char>`), while the source's `string.Length` and indexing count UTF-16 code units. A line holding characters outside the Basic Multilingual Plane gets a different width, different column positions and a different `B` position.
- AsciiMaze.IsWhiteSpace follows .NET's `char.IsWhiteSpace` over the Unicode space separators and control white space. Unicode categories are written out as explicit character ranges.
