# Grid path search, modelled in Dafny

This project models the core of a console path-finding demo.

- A `Grid` of `Cell`s has a wall border and a floor interior. One start cell and one goal cell are placed at random inside it.
- Walls can be scattered over the interior.
- Four searches share one loop: depth-first, breadth-first, greedy best-first and A*. Each looks for a path from the start to the goal. Each then clears the search bookkeeping of every cell before it returns.

## How the model is built

- **Cells** (`cells.dfy`). `Cell` is an immutable datatype. The parent pointer becomes `Option<Pos>`, a coordinate. `Tile` carries the character codes of the enum.
- **Grids** (`grids.dfy`). The grid is `seq<seq<Cell>>`, indexed `[x][y]`.
  - Each mutator is a pure function returning the new grid, plus the `bool` result where the C++ method has one.
  - `rand()` draws are parameters:
    - a start draw and a sequence of goal draws for `SetRandomStartGoal`;
    - a function from position to draw for `PepperWalls`.
  - `Valid` is the grid invariant:
    - every cell sits at its own coordinates;
    - there is exactly one start flag, at `startPos`, and exactly one goal flag, at `goalPos`;
    - the search bookkeeping is reset.
- **Geometry** (`geometry.dfy`).
  - The neighbour query.
  - The Euclidean distance as the integer floor square root of dx² + dy². This is the value the `int` field `h` keeps.
  - The Manhattan distance, as written and as intended.
- **Search core** (`search_core.dfy`). One iteration of the shared loop is the pure function `Step`, parameterised by the strategy. Its parts:
  - `SelectIndex` picks a fringe entry. Depth-first takes the stack top. Breadth-first takes the queue front. Greedy takes the last entry of least `h`. A* takes the first entry of least `g + h`.
  - An entry that is already visited is discarded.
  - Otherwise `Visit` marks the cell and counts it, and stops at a goal-flagged cell.
  - If it does not stop, `Expand` re-parents every unvisited valid neighbour and pushes it. Greedy and A* also set `h`; A* also sets `g` to the parent's `g` + 1.
  - `Run` iterates `Step` to the end. It terminates on the lexicographic measure (number of unvisited cells, fringe length).
- **Search invariant** (`search_invariant.dfy`). A ghost visit-order map records when each cell was visited. The invariant `Inv` says:
  - every parent link points inside the grid, to a 4-adjacent cell visited earlier;
  - the start is the only visited cell without a parent;
  - the traversal count equals the number of visited cells.
- **Search coverage** (`search_coverage.dfy`). A second invariant, `Explored`, says two things:
  - the only visited goal-flagged cell is the one the loop stopped at;
  - every visited cell that is not goal-flagged has each passable neighbour visited or on the fringe, and the start is visited or on the fringe.
  Once the fringe is empty, the visited cells are therefore closed under stepping onto passable neighbours. So every route from the start ends at a visited cell that is not goal-flagged.
  Conversely, parent links lead from every visited cell back to the start through cells visited earlier, so every visited cell is reachable. At exhaustion the visited cells are exactly the reachable ones.
- **Layers** (`layers.dfy`). Why breadth-first search returns a shortest path. The proof carries two ghost records:
  - a depth map, giving each visited cell the length of its parent chain;
  - one label per queue entry, one more than the depth of the cell that pushed it.
  The invariant `Layered` says:
  - the labels never decrease along the queue and span at most two consecutive values;
  - every passable neighbour of a visited cell is visited or queued with a label at most one more than that cell's depth;
  - each depth is the length of a shortest route.
  Every 4-step changes the parity of x + y. So the cell taken off the front is reached by a route of exactly its label's length, and by none shorter.
- **Searches** (`searches.dfy`). `Search` is a `while` loop over `Step` followed by the path rebuild and the reset. The rebuild loop terminates because visit order decreases along parent links. The four public searches instantiate it.
  - The contract `SearchContract` pins the returned path to the end state of `Run`.
  - It also states the facts a caller relies on:
    - the path is a walk of distinct, passable, 4-adjacent cells, beginning next to the start;
    - it ends at `goalPos`;
    - the returned grid equals the input grid;
    - the traversal count is at most `sizeX * sizeY`;
    - the loop stops at the first goal-flagged cell it visits;
    - if the fringe runs out, no route from the start reaches a goal-flagged cell, the visited cells are exactly those reachable from the start, and the printed count is their number;
    - with start and goal marked, a path comes back exactly when `goalPos` is reachable from the start.
  - `BreadthFirstSearch` also promises that, with start and goal marked, the path it returns, preceded by the start, is a shortest route to `goalPos`.

## Model

| member | source | states |
|---|---|---|
| Cells.TileCodesDistinct | AIProject/AIProject/Cell.h:5-10 | Two tiles have the same character code exactly when they are the same tile. The codes are floor 177, wall 219, 'S' and 'G'. |
| Cells.NewCellAt | AIProject/AIProject/Cell.cpp:11-14 | `Cell(x, y)` has exactly the given coordinates. It starts with no parent, a floor tile, and the start, goal and visited flags false, which are the field defaults of Cell.h. |
| Cells.NewCell | AIProject/AIProject/Cell.cpp:6-9 | `Cell()` sits at (0, 0) with the same field defaults. |
| Cells.GetF | AIProject/AIProject/Cell.cpp:16-18 | The A* key of a cell with reset bookkeeping is 0. |
| Cells.DefaultCellIsOrigin | AIProject/AIProject/Cell.cpp:6-14 | `Cell()` and `Cell(0, 0)` agree on coordinates, tile, parent and all three flags. |
| Grids.DefaultGrid | SourceFiles/Grid.h:55-60 | The field defaults: size 2 by 2, no cells, default start and goal cells, trace flag off. |
| Grids.ResizeGrid | AIProject/AIProject/Grid.cpp:24-47 | The new grid has the requested size. Every cell sits at its own coordinates. Border cells are walls and interior cells are floor. No cell is flagged start or goal, and all bookkeeping is reset. The other fields are untouched. |
| Grids.ResizeSquare | AIProject/AIProject/Grid.cpp:20-22 | A square x by x grid, every cell at its own coordinates, with a wall border and a floor interior. No cell is flagged start or goal, and all bookkeeping is reset. The cached start and goal cells and the trace flag are kept. |
| Grids.DrawPos | AIProject/AIProject/Grid.cpp:51-52 | `rand() % (size - 2) + 1` on each axis lands strictly inside the border. |
| Grids.FirstDistinct | AIProject/AIProject/Grid.cpp:55-57 | The retry loop keeps the first goal draw that differs from the start, and every earlier draw equals the start. It finds none exactly when all supplied draws equal the start. |
| Grids.SetRandomStartGoal | AIProject/AIProject/Grid.cpp:49-62 | Start and goal are distinct interior positions given by the draws. The cells there gain the start and goal flag. `startPos` and `goalPos` become fresh cells at those positions. Nothing else changes. |
| Grids.FreshPlacementIsValid | AIProject/AIProject/Grid.cpp:49-62 | On a freshly resized grid the placement gives exactly one start flag and one goal flag, at `startPos` and `goalPos`. |
| Grids.NewGrid | AIProject/AIProject/Grid.cpp:10-18 | The constructors `Grid(x)` and `Grid(x, y)` give no grid exactly when every supplied goal draw lands on the start. Otherwise the grid is valid and of the given size, with a wall border and a floor interior. The start is at the start draw. The goal is at the first goal draw away from the start. Both lie strictly inside the border. The trace flag is off. |
| Grids.NewDefaultGrid | AIProject/AIProject/Grid.cpp:5-8 | `Grid()` gives the same guarantees for a 10 by 10 grid. |
| Grids.AsWrittenAdmitsOnePastEnd | AIProject/AIProject/Grid.cpp:65 | The bounds test as written admits x == gridSizeX, which is past the last column. |
| Grids.InBoundsIsIndexable | AIProject/AIProject/Grid.cpp:64-94 | The strict bounds test admits exactly the indexable positions, and each of them is also admitted by the test as written. |
| Grids.SetCell | AIProject/AIProject/Grid.cpp:64-71 | Returns true exactly for in-bounds positions. On true, only that cell's tile changes, to the given tile. On false, nothing changes. |
| Grids.SetCellFrom | AIProject/AIProject/Grid.cpp:73-80 | As written: true exactly in bounds, and nothing changes on false. On true, the target cell changes only its tile, which becomes the cell argument's own tile. Every other cell is unchanged. |
| Grids.SetCellFromIgnoresTile | AIProject/AIProject/Grid.cpp:77 | Asking for a wall with a floor-typed cell argument reports success and leaves a floor. |
| Grids.SetCellFromIntended | SourceFiles/Grid.h:25 | As declared: true exactly in bounds. On true, the cell at the argument's coordinates changes only its tile, to `tile`, and every other cell is unchanged. On false nothing changes. |
| Grids.GetCell | AIProject/AIProject/Grid.cpp:82-87 | In bounds it returns the stored cell. Out of bounds it returns a default `Cell()`. |
| Grids.GetCellFrom | AIProject/AIProject/Grid.cpp:89-94 | The same lookup at the argument cell's coordinates. |
| Grids.SetThenGet | SourceFiles/Grid.h:24-27 | After an accepted write the getter sees the new tile at that position. After a rejected write it sees a default cell. Every other position reads as before. |
| Grids.SetCellKeepsValid | AIProject/AIProject/Grid.cpp:64-71 | Writing a tile keeps the grid invariant. |
| Grids.GetStartPos | AIProject/AIProject/Grid.cpp:117-119 | On a valid grid the returned cell locates the start: the cell at its coordinates is inside the grid and is the only start-flagged cell. |
| Grids.GetGoalPos | AIProject/AIProject/Grid.cpp:104-106 | On a valid grid the returned cell locates the goal: the cell at its coordinates is inside the grid and is the only goal-flagged cell. |
| Grids.SetStartPos | AIProject/AIProject/Grid.cpp:121-128 | Out of bounds: no change. In bounds: the old start flag is cleared and the flag at (x, y) is set. `startPos` becomes the cell copied from (x, y). Every other cell and field is unchanged. |
| Grids.SetGoalPos | AIProject/AIProject/Grid.cpp:108-115 | The same for the goal flag and `goalPos`. |
| Grids.RelocationKeepsValid | SourceFiles/Grid.h:29-32 | Relocation keeps exactly one start flag and one goal flag. The getters then report (x, y). |
| Grids.PepperWalls | AIProject/AIProject/Grid.cpp:475-492 | Afterwards each cell differs from before only in its tile. Border cells are walls. An interior cell is a wall exactly when its draw % 100 < 25, and floor otherwise. |
| Grids.PepperWallsKeepsValid | AIProject/AIProject/Grid.cpp:475-492 | Scattering walls keeps the grid invariant. |
| Grids.ResetCells | AIProject/AIProject/Grid.cpp:464-473 | Every cell ends unvisited and parentless with g = h = 0. Its coordinates, tile and flags are kept. |
| Grids.ResetCellSearchSettings | SourceFiles/Grid.h:48 | The whole grid's bookkeeping is cleared. Size, start, goal and trace flag are kept. |
| Grids.ResetRestores | AIProject/AIProject/Grid.cpp:464-473 | Resetting a grid that differs from a reset grid only in bookkeeping gives back exactly that grid. |
| Grids.ResetIdempotent | AIProject/AIProject/Grid.cpp:464-473 | Resetting twice is resetting once. A reset grid is a fixed point. |
| Grids.SetDisplayAllTraversedCells | AIProject/AIProject/Grid.cpp:494-496 | Sets the trace flag and changes nothing else. |
| Grids.GetDisplayAllTraversedCells | AIProject/AIProject/Grid.cpp:498-500 | Storing the value read back leaves the grid unchanged. |
| Grids.DisplayFlagRoundTrip | SourceFiles/Grid.h:52-53 | The getter returns what was set. Setting the value read back is the identity. Setting keeps the grid invariant. |
| Geometry.GetValidNeighbors | AIProject/AIProject/Grid.cpp:140-159 | At most four cells. Each is the current in-bounds cell at a 4-adjacent position, and is floor or goal-flagged. Every such neighbour is included. They come in west, north, east, south order. |
| Geometry.Isqrt | AIProject/AIProject/Grid.cpp:172 | The integer root s satisfies s² ≤ n < (s + 1)². |
| Geometry.IsqrtUnique | AIProject/AIProject/Grid.cpp:172 | Only one natural number satisfies that bound, so the stored heuristic is determined. |
| Geometry.GetEuclidianDistance | AIProject/AIProject/Grid.cpp:168-173 | −1 exactly when the range test (as written) rejects the points. Otherwise it is non-negative and is the distance rounded down. |
| Geometry.EuclidSymmetricAndDefinite | AIProject/AIProject/Grid.cpp:168-173 | Swapping the two points does not change the distance. The distance is zero exactly when the points coincide. |
| Geometry.ManhattanAsWritten | AIProject/AIProject/Grid.cpp:161-166 | −1 outside the range. Otherwise abs(dx) plus the signed difference y1 − y2. |
| Geometry.ManhattanAsWrittenIsSigned | AIProject/AIProject/Grid.cpp:165 | Two points of one column give −2 one way round and 2 the other. |
| Geometry.ManhattanDistance | SourceFiles/Grid.h:40 | The intended distance: non-negative, zero exactly at coincident points, and one exactly at 4-adjacent points. |
| Geometry.ManhattanSymmetric | SourceFiles/Grid.h:40 | The intended distance does not depend on the order of the points. |
| SearchCore.SelectIndex | AIProject/AIProject/Grid.cpp:326-333 | The chosen index is inside the fringe. Depth-first takes the last entry (the stack top) and breadth-first the first (the queue front). Greedy takes the last entry whose current grid `h` is minimal. A* takes the first entry whose current grid `GetF()` = g + h is minimal. |
| SearchCore.ScanLast | AIProject/AIProject/Grid.cpp:328-330 | Replacing on `>=` ends at the last minimum. |
| SearchCore.ScanFirst | AIProject/AIProject/Grid.cpp:400-402 | Replacing on `>` ends at the first minimum of `GetF()`. |
| SearchCore.SelectionIsUnique | AIProject/AIProject/Grid.cpp:398-405 | There is only one last minimum and only one first minimum, so the choice is determined. |
| SearchCore.Relax | AIProject/AIProject/Grid.cpp:447-454 | A neighbour gains the current cell as parent. Greedy and A* also set `h` to the truncated distance to `goalPos`; A* sets `g` to the current cell's `g` + 1. Its tile, flags and visited mark are kept. |
| SearchCore.RelaxedKeys | AIProject/AIProject/Grid.cpp:379 | After relaxation, the greedy key of a neighbour is its truncated distance to `goalPos`. Its A* key `GetF()` is the parent's `g` + 1 plus that distance. |
| SearchCore.Expand | AIProject/AIProject/Grid.cpp:231-239 | The fringe grows by exactly the unvisited neighbours, in neighbour order. |
| SearchCore.ExpandEffect | AIProject/AIProject/Grid.cpp:375-381 | Every unvisited neighbour is re-parented to the current cell, overwriting any earlier parent. Every other cell is unchanged. |
| SearchCore.Visit | AIProject/AIProject/Grid.cpp:194-200 | Visiting marks exactly one more cell as visited and raises the count by one. The loop stops exactly when that cell is goal-flagged. It then records the copy taken before marking, and leaves the rest of the fringe as it was. |
| SearchCore.VisitEffect | AIProject/AIProject/Grid.cpp:194-239 | Only the visited cell changes its visited flag, and no cell changes tile or role flags. Every other fringe entry stays. Unless the loop stops there, every passable neighbour of the cell is afterwards visited or on the fringe. |
| SearchCore.ExpandCovers | AIProject/AIProject/Grid.cpp:231-239 | After the neighbour loop, every in-grid, passable 4-neighbour of the current cell is visited or on the fringe. |
| SearchCore.RemainingKeepsOthers | AIProject/AIProject/Grid.cpp:197 | Taking out the chosen entry leaves every other entry on the fringe. |
| SearchCore.Step | AIProject/AIProject/Grid.cpp:186-239 | One iteration of the loop body keeps the state well formed: the grid keeps its shape, every cell keeps its own coordinates, and every fringe entry stays inside the grid. What the iteration does is stated by `StepProgress`, `VisitEffect` and `StepKeepsInv`. |
| SearchCore.StepProgress | AIProject/AIProject/Grid.cpp:186-197 | An iteration either discards one already-visited entry and changes nothing else, or visits a new cell, counts it and shrinks the set of unvisited cells by one. |
| SearchCore.Run | AIProject/AIProject/Grid.cpp:185-240 | The loop ends, either with the goal reached or with an empty fringe. |
| SearchCore.VisitedAtMostArea | AIProject/AIProject/Grid.cpp:195 | At most sizeX · sizeY cells can be marked visited. |
| SearchInvariant.InitInv | AIProject/AIProject/Grid.cpp:180 | A fringe holding only the start, on a reset grid, satisfies the search invariant. |
| SearchInvariant.StepKeepsInv | AIProject/AIProject/Grid.cpp:185-240 | Each iteration keeps the invariant. Parents lie inside the grid, are adjacent, and were visited earlier. The start is the only parentless visited cell. The count equals the number of visited cells. |
| SearchInvariant.RunKeepsInv | AIProject/AIProject/Grid.cpp:175-245 | The invariant holds when the loop ends. |
| SearchCoverage.InitExplored | AIProject/AIProject/Grid.cpp:180 | Before the loop no cell is visited and the start is on the fringe, so the coverage invariant holds. |
| SearchCoverage.StepKeepsExplored | AIProject/AIProject/Grid.cpp:185-240 | Each iteration keeps it. Only the cell the loop stops at is a visited goal-flagged cell. Every other visited cell has each passable neighbour visited or on the fringe. The start is visited or on the fringe. |
| SearchCoverage.RunKeepsExplored | AIProject/AIProject/Grid.cpp:185-240 | The coverage invariant holds when the loop ends. |
| SearchCoverage.ExhaustionCoversRoutes | AIProject/AIProject/Grid.cpp:185 | When the fringe is empty and no goal was reached, every route from the start ends at a visited cell that is not goal-flagged. |
| Searches.Reconstruct | AIProject/AIProject/Grid.cpp:206-225 | The path is empty if the goal was not reached. It is the goal cell alone if that cell has no parent. Otherwise it is the chain of parent links from `goalPos`, start cell excluded, in start-to-goal order. |
| Searches.TraceIsWalk | AIProject/AIProject/Grid.cpp:213-221 | The rebuilt chain has distinct positions and 4-adjacent consecutive cells, all passable. It begins next to the start and never contains it. |
| Searches.TracesBackUnique | AIProject/AIProject/Grid.cpp:213-221 | The parent links determine the rebuilt chain. |
| Searches.OutcomeFacts | AIProject/AIProject/Grid.cpp:206-225 | When start and goal are marked, a path is non-empty exactly when the goal was reached, and it ends at `goalPos`. A parentless goal means the path is exactly the start cell. |
| Searches.NoGoalOnRoutes | AIProject/AIProject/Grid.cpp:185-244 | A loop that ended without reaching a goal leaves no route from the start, over the input grid's tiles, that ends at a goal-flagged cell. |
| Searches.FoundRoute | AIProject/AIProject/Grid.cpp:206-225 | A non-empty returned path, with the start in front of it, is a route to `goalPos`. |
| Searches.PathRoute | AIProject/AIProject/Grid.cpp:279-296 | The positions of a returned path, preceded by the start unless the path begins there: a sequence that begins at the start and has one position per step plus one. |
| Searches.TraceRoute | AIProject/AIProject/Grid.cpp:284-292 | A trace back from the goal never contains the start, and with the start in front of it is a route over the input grid's tiles. |
| Searches.ChainDepths | AIProject/AIProject/Grid.cpp:287-290 | Walking the trace back from the goal, each cell is one breadth-first depth above the next, so the goal's depth exceeds that of the i-th cell by the number of cells after it. |
| Searches.TraceDepth | AIProject/AIProject/Grid.cpp:279-296 | The breadth-first depth of the goal is the length of the trace back, so no route from the start to it has fewer positions than the trace plus the start. |
| Searches.BreadthFirstShortest | AIProject/AIProject/Grid.cpp:247-316 | With start and goal marked, a non-empty breadth-first path, preceded by the start, is a route to `goalPos` that no other route from the start beats. |
| Layers.StepFlipsParity | AIProject/AIProject/Grid.cpp:140-159 | Each step to a 4-neighbour changes the parity of x + y. |
| Layers.InitLayered | AIProject/AIProject/Grid.cpp:249-252 | Before the loop, with only the start on the queue at label 0 and nothing visited, the layering holds. |
| Layers.DiscardLayered | AIProject/AIProject/Grid.cpp:258-264 | Popping an already-visited front entry keeps the layering: the labels stay in order, and every uncovered neighbour is still queued. |
| Layers.CloseRoutesVisited | AIProject/AIProject/Grid.cpp:257-311 | Every route from the start with no more positions than the front label ends at a visited cell. |
| Layers.NearVisited | AIProject/AIProject/Grid.cpp:257-311 | The same cell by cell along one route: every position below the front label is visited, because its predecessor is visited and the queue entry for it would already have been popped. |
| Layers.VisitDepth | AIProject/AIProject/Grid.cpp:258-270 | The unvisited front entry is reached by a route as long as its label plus one and by no shorter one. Its parent, set when it was pushed, is exactly one label shallower. The start, if it is at the front, has label 0. |
| Layers.FrontParent | AIProject/AIProject/Grid.cpp:302-310 | A visited neighbour of the front entry is at least one depth shallower than the front label, by the parity of the steps. |
| Layers.DepthsAfterVisit | AIProject/AIProject/Grid.cpp:266-270 | Marking the front cell visited at its label's depth, with the parent links of visited cells untouched, keeps the depths exact: the domain is the visited cells, each depth is a shortest route length, and below the start the depth grows by one along every parent link. |
| Layers.PushLabelsOk | AIProject/AIProject/Grid.cpp:302-310 | After the neighbours are pushed at one more than the visited cell's depth, the queue labels are still in order, within one of the front, and of their entries' parity. |
| Layers.PushCoverOk | AIProject/AIProject/Grid.cpp:302-310 | After the visit, every passable neighbour of a visited cell is visited or queued within one more than that cell's depth. |
| Layers.VisitShape | AIProject/AIProject/Grid.cpp:300-310 | Expanding a non-goal cell leaves the rest of the queue in front, pushes only 4-neighbours of the cell, and re-parents no visited cell. |
| Layers.VisitLayered | AIProject/AIProject/Grid.cpp:258-310 | Visiting the unvisited front entry, when it is not the goal, keeps the layering. The entry gets its label as depth and the pushed neighbours one more. |
| Layers.GoalDepths | AIProject/AIProject/Grid.cpp:266-271 | Visiting the goal at the front keeps the depths exact as the loop stops. |
| Layers.BfsStep | AIProject/AIProject/Grid.cpp:257-311 | One breadth-first iteration keeps the layering, or, if it stops at the goal, the exact depths. |
| Layers.BfsRun | AIProject/AIProject/Grid.cpp:257-311 | When the breadth-first loop stops at the goal, the depths of all visited cells are shortest route lengths and climb by one along parent links. |
| Searches.MarkedReachable | AIProject/AIProject/Grid.cpp:175-245 | With start and goal marked, a path comes back exactly when some route from the start reaches `goalPos`. |
| Searches.VisitedIsReachable | AIProject/AIProject/Grid.cpp:194-235 | At any point of the loop, every visited cell is reachable from the start: its parent link, set when it was pushed, leads to a cell visited earlier, and the chain ends at the start. |
| Searches.ExhaustionVisitsReachable | AIProject/AIProject/Grid.cpp:185-244 | When the fringe runs out, the set of visited cells equals the set of cells reachable from the start over the input grid's tiles, and `totalTraversedCells` is the number of reachable cells. |
| Searches.SuccessFacts | AIProject/AIProject/Grid.cpp:199-200 | The loop stops at a goal-flagged cell, and that is the only visited goal-flagged cell. If it ran out instead, no route from the start reaches a goal-flagged cell, and the visited cells and the count are exactly the reachable cells. With start and goal marked, a path is returned exactly when the goal is reachable. |
| Searches.Search | AIProject/AIProject/Grid.cpp:175-245 | The loop's end state matches `Run`. The returned grid equals the input. The count equals the number of visited cells and is at most sizeX · sizeY. The path satisfies the facts above. The search stops at the first goal-flagged cell it visits. An empty fringe means no route from the start reaches a goal-flagged cell, and that the count is the number of cells reachable from the start. On a marked grid the path is non-empty exactly when `goalPos` is reachable. |
| Searches.DepthFirstSearch | AIProject/AIProject/Grid.cpp:175-245 | The shared contract with a stack fringe: stop at the first goal-flagged cell visited; on exhaustion count exactly the reachable cells; return a path exactly when the goal is reachable. |
| Searches.BreadthFirstSearch | AIProject/AIProject/Grid.cpp:247-316 | The shared contract with a queue fringe, the same success and exhaustion clauses included. With start and goal marked, a returned path, preceded by the start, is a shortest route to `goalPos`. |
| Searches.GreedySearch | AIProject/AIProject/Grid.cpp:318-388 | The shared contract with the least-`h` selection, the same success and exhaustion clauses included. |
| Searches.AStarSearch | AIProject/AIProject/Grid.cpp:390-460 | The shared contract with the least-`g + h` selection, the same success and exhaustion clauses included. |
| Searches.SearchIsDeterministic | SourceFiles/Grid.h:52-53 | Grids that differ only in the trace flag give the same path and count. |
| Searches.SearchIsRepeatable | AIProject/AIProject/Grid.cpp:464-473 | Searching again the grid a search hands back gives the same path and count, and the grid again. |

## Left out

- Console output: `OutputGrid`, the traversal trace and the "Total Visited Cells" lines. The count is returned as an extra result instead. The trace flag is kept and provably has no effect on a search.
- `rand()`: the draws are parameters.
- Grids.FirstDistinct: the retry loop of `SetRandomStartGoal` sees a finite list of goal draws, and the model reports `None` if they all repeat the start. The C++ loop keeps drawing, and on a 3 by 3 grid, whose interior is one cell, it never stops.
- Grids.SetRandomStartGoal: requires sizes of at least 3. At size 2 the draw is `rand() % 0`, which has no defined result. At size 1 or 0 the divisor is −1 or −2. The draw is then defined, but it lands at 1 or 2, outside the grid, and the flag writes at Grid.cpp:60-61 index past the storage.
- Cells.NewCellAt: sets `g` and `h` to 0. The constructors leave these uninitialised, and the searches require a reset grid instead.
- Grids.ResizeGrid: sizes are natural numbers. A negative size has no meaningful `vector::resize`.
- Geometry.GetEuclidianDistance: the floating-point square root is replaced by the integer floor square root. That is the value left once the double is stored in the `int` field `h`.
- Geometry.GetEuclidianDistance: the range test is kept as written. It accepts y == gridSizeY, but no array is indexed there.
- Grids.SetStartPos and Grids.SetGoalPos: require the current start (goal) to lie inside the grid. `Grid.cpp` indexes the grid at it.
- Grids.NewDefaultGrid: builds the 10 by 10 grid the constructor code builds. The header comment of `Grid()` speaks of a (2, 2) grid, and the model follows the code.
- Searches.Reconstruct: prepends as it walks, instead of appending and then reversing. The result is the same sequence.
- Searches.SearchContract: promises reachability, not a shortest path. Depth-first and greedy search return whatever their selection rule finds first. Only `BreadthFirstSearch` adds the shortest-path promise.
- Searches.AStarSearch: does not promise a shortest path, because A* as written does not find one. Grid.cpp:448-453 re-parents every unvisited neighbour and overwrites its `g` with the current cell's `g` + 1, even when the neighbour already holds a smaller `g`. Example: a 7 by 7 grid with the wall border and interior walls at (5, 1), (2, 2), (4, 3), (5, 3), (2, 4) and (3, 4), start (2, 1) and goal (5, 4). A shortest route takes 10 steps, but the A* loop returns a 12-cell path. (1, 3) is first pushed from (1, 2) with g = 3, then re-parented from (2, 3) with g = 5.
- Raw `Cell*` parent pointers are coordinates. The path holds copies of the grid's cells taken before the reset, as `Grid.cpp` does.

## Findings

| source | as written | input that shows it | evidently intended | confidence | as-written member | corrected member |
|---|---|---|---|---|---|---|
| AIProject/AIProject/Grid.cpp:65 | `x > gridSizeX` and `y > gridSizeY` reject, so x == gridSizeX passes. The same test appears at lines 74, 83, 90, 109 and 122. | `SetCell(gridSizeX, 0, wall)` writes one column past the end of the storage. | `x >= gridSizeX` and `y >= gridSizeY` | high, not executed | Grids.AsWrittenAdmitsOnePastEnd | Grids.InBoundsIsIndexable |
| AIProject/AIProject/Grid.cpp:77 | `SetCell(Cell, Tile)` stores `cell.tileType` and ignores `tile`. | `SetCell(Cell(), wall)` on a floor cell returns true and leaves floor. | store `tile` | high, not executed | Grids.SetCellFromIgnoresTile | Grids.SetCellFromIntended |
| AIProject/AIProject/Grid.cpp:165 | `abs(x1 - x2) + (y1 - y2)` | (1, 0) to (1, 2) on a 3 by 3 grid gives −2. | `abs(x1 - x2) + abs(y1 - y2)` | high, not executed | Geometry.ManhattanAsWrittenIsSigned | Geometry.ManhattanSymmetric |
