# Pathfinding visualiser: grid model and breadth-first search

This project models the core of the pathfinding visualiser in Dafny. The visualiser keeps a grid of cells. Each cell is in one of five states: EMPTY, WALL, START, TARGET or PATH. The user edits the grid with mouse clicks:
- a left click toggles a wall;
- a right click places the start, then the target.

The space key runs a breadth-first search (BFS) from the start to the target. The search then walks the parent links back from the target and marks the route as PATH.

The model has four modules. `Grid`, `Pathfinder` and `Events` each model one part of `main.cpp`; `Routes` holds the definitions the search is proved against:

- `Grid` (`grid.dfy`):
  - the five cell states, coordinates `(x, y)` indexing `grid[x][y]`, and the grid dimensions;
  - the neighbour offsets `dx = {-1, 1, 0, 0}`, `dy = {0, 0, -1, 1}`;
  - `isValid` (`Grid.IsValid`).
- `Routes` (`routes.dfy`): what the search looks for.
  - A route is a chain of 4-neighbouring cells, each after the first enterable.
  - Reachability and "shortest" are defined over routes, with lemmas about them.
- `Pathfinder` (`pathfinder.dfy`): `findShortestPath` as imperative Dafny over `array2` matrices.
  - `visited` and `parent` are arrays filled in place. The FIFO queue is a sequence.
  - The BFS loop is `Search`. The four-neighbour `for` loop is `PushNeighbours`, with one pass in `VisitNeighbourCell`. `Expand` wraps it with the ghost depths of the cells it discovers. The parent-chain walk that writes PATH into the grid is `MarkRoute`. `FindShortestPath` runs them in the order of the source.
  - `Discovered` names the cells one expansion pushes: in offset order, the enterable neighbours not yet visited.
  - Each is proved against the route definitions. Ghost state holds the BFS depth of each visited cell and the set of expanded cells.
- `Events` (`events.dfy`): the grid-editing branches of `handleEvents`.
  - A `Visualizer` class holds the grid and the four endpoint coordinates, with -1 meaning "not placed".
  - The three commands take cell coordinates directly: `ToggleWall`, `PlaceEndpoint` and `RunSearch`.
  - The commands keep the invariant `Valid`: START and TARGET appear only on the recorded endpoints, and placed endpoints lie on the grid.

The model follows the code as written:
- Reconstruction marks the target cell and every intermediate cell as PATH, but not the start cell.
- PATH cells from an earlier search are not cleared before a new one.
- PATH, START and TARGET cells are all enterable.
- Placing the target on the start cell is allowed. A search from a cell to itself changes nothing.
- A left click on a START, TARGET or PATH cell does nothing.

The search is stated for any grid size. The `Visualizer` fixes it at 40 × 30, as in the source.

## Model

| member | source | states |
|---|---|---|
| Grid.IsValid | main.cpp:59-61 | a cell is enterable exactly when it lies inside the grid and its state is EMPTY, START, TARGET or PATH (not WALL); the grid is read only in bounds |
| Grid.Passable | main.cpp:59-61 | the set of enterable cells holds exactly the cells `IsValid` accepts |
| Grid.Neighbour | main.cpp:71-92 | the i-th offset of the search reaches a 4-neighbour of the cell, different from it |
| Grid.AdjacentIsNeighbour | main.cpp:71-92 | every 4-neighbour of a cell is reached by one of the four offsets, so the search skips none |
| Grid.InBoundsBound | main.cpp:64-65 | a set of cells inside a W × H grid has at most W · H members, which bounds the visited cells |
| Routes.ShortestRouteIsDistinct | main.cpp:79-86 | a shortest route never passes the same cell twice |
| Routes.ShortestRouteMarkedCount | main.cpp:79-86 | the cells of a shortest route after the start number exactly its hop count |
| Routes.ShortestRouteToSelf | main.cpp:79-81 | from a cell to itself the shortest route is that cell alone, so nothing is marked |
| Routes.ManhattanLowerBound | main.cpp:90-92 | every route is at least as many hops long as the Manhattan distance between its ends |
| Routes.NoWallsShortestIsManhattan | main.cpp:63-100 | on a grid without walls, the shortest route between two cells is exactly their Manhattan distance long |
| Routes.FewerOpenCellsNeverShorter | main.cpp:60 | adding walls never makes the shortest route shorter |
| Routes.ClosedSetHoldsRoutes | main.cpp:74-99 | a set of cells closed under stepping to enterable neighbours holds every route that starts in it |
| Pathfinder.StartExpanding | main.cpp:75-77 | dequeuing the head keeps the queue ordered by depth: the rest is still depth d followed by depth d + 1 |
| Pathfinder.VisitNeighbour | main.cpp:93-96 | queuing an unvisited enterable neighbour records it one level deeper and keeps the queue ordered by depth |
| Pathfinder.SkipNeighbour | main.cpp:93 | a wall, an out-of-bounds cell or an already visited neighbour is already at most one level deeper |
| Pathfinder.FinishExpanding | main.cpp:90-98 | after all four offsets, every enterable neighbour of the expanded cell has been visited at most one level deeper |
| Pathfinder.FrontierBound | main.cpp:74-77 | any route from a visited cell to a cell not yet expanded is at least as long as the depth of the queue's head allows |
| Pathfinder.HeadIsNearest | main.cpp:79 | when the target is dequeued, its depth is no more than the hop count of any route from the start to it |
| Pathfinder.ExhaustedMeansUnreachable | main.cpp:74-100 | when the queue empties without the target being dequeued, no route leads from the start to the target |
| Pathfinder.TablesBound | main.cpp:64-69 | the visited cells are no more than the cells of the grid |
| Pathfinder.VisitNeighbourCell | main.cpp:91-97 | one offset: the neighbour is appended to the queue, marked visited and given the current cell as parent exactly when it is enterable and was not visited; the queue is otherwise unchanged, and every other entry of both tables keeps its value |
| Pathfinder.DiscoveredCells | main.cpp:93-96 | every cell an expansion pushes is an enterable 4-neighbour of the expanded cell that was not visited before |
| Pathfinder.LaterNotDiscovered | main.cpp:90-92 | a neighbour whose offset has not been tried yet has not been pushed by this expansion |
| Pathfinder.DiscoveredNext | main.cpp:90-97 | trying one more offset appends its neighbour to the pushed cells exactly when it is enterable and unvisited, and then assigns it the new depth; otherwise nothing changes |
| Pathfinder.ExpandingStep | main.cpp:91-97 | handling one more offset, by visiting or skipping its neighbour, keeps the search state ordered by depth |
| Pathfinder.ExpandingAfter | main.cpp:90-98 | after the first k offsets the queue is the old queue followed by the pushed cells at one level deeper, and every enterable neighbour tried so far is visited |
| Pathfinder.DiscoveredCount | main.cpp:93-96 | each pushed cell is newly visited, so the visited cells grow by exactly as many as the queue |
| Pathfinder.TablesAfterExpand | main.cpp:94-96 | marking the pushed cells visited with the expanded cell as parent keeps the tables consistent with their depth, one more than the parent's |
| Pathfinder.PushNeighbours | main.cpp:90-98 | the four offsets in order: the queue becomes the old queue followed by the enterable unvisited neighbours in offset order; exactly those cells become visited with the current cell as parent, and every other table entry is unchanged |
| Pathfinder.Expand | main.cpp:90-98 | the queue gains the pushed cells in offset order, each one level deeper; exactly those cells become visited with `cur` as parent, and every other `visited` and `parent` entry is unchanged; afterwards every enterable neighbour is visited, the tables stay consistent, and the visited cells grow by as many as the queue |
| Pathfinder.NewTables | main.cpp:64-69 | initially only the start is visited, and every cell, the start included, has parent {-1, -1} |
| Pathfinder.Search | main.cpp:64-99 | the ghost `steps` counts the cells the loop dequeues, and it is at most W · H. On return every visited cell other than the start is enterable and its parent is a visited 4-neighbour one level shallower; the start keeps {-1, -1}. When the target is dequeued its depth is the shortest hop count. When the queue empties, the target is unreachable |
| Pathfinder.StepBack | main.cpp:83-85 | prepending the parent of the first cell to a route of growing depths keeps it a route of growing depths |
| Pathfinder.ChainBack | main.cpp:83-85 | prepending the parent of the first cell keeps every cell after the first linked to the cell before it by the parent table |
| Pathfinder.WalkBack | main.cpp:81-86 | away from the start, the walk's current cell is in the table, its parent is one level shallower, and stepping to it marks the current cell |
| Pathfinder.WalkDone | main.cpp:81 | when the walk reaches the start it has built a route from the start to the target with no repeated cell and depth + 1 cells, and the marked cells are exactly its cells other than the start |
| Pathfinder.MarkRoute | main.cpp:79-87 | the parent walk from the target follows a route of exactly depth + 1 cells with no repeats, each cell after the first the parent-table entry of the next. Exactly its cells other than the start become PATH and every other cell is unchanged |
| Pathfinder.FindShortestPath | main.cpp:63-100 | a route is marked exactly when the target is reachable, and then it is a shortest one. The start and every cell off the route are unchanged, the target and intermediate cells become PATH. When the target is unreachable, or equals the start, the grid is left as it was. The set of enterable cells is the same afterwards |
| Events.Toggle | main.cpp:115-118 | a click turns EMPTY into WALL and WALL into EMPTY and leaves the other states |
| Events.ToggleTwice | main.cpp:115-118 | two clicks on a cell restore it |
| Events.Visualizer.constructor | main.cpp:159 | all cells start EMPTY and neither endpoint is placed |
| Events.Visualizer.ToggleWall | main.cpp:113-119 | only the clicked cell, and only when inside the grid, is toggled; nothing else changes. A new wall removes exactly that cell from the enterable cells and a removed wall adds it, so by FewerOpenCellsNeverShorter a new wall never shortens the shortest route |
| Events.Visualizer.PlaceEndpoint | main.cpp:120-133 | on an in-bounds non-wall cell the first click places the start and the second the target (possibly on the start); otherwise nothing changes |
| Events.Visualizer.RunSearch | main.cpp:136-137 | the search runs only with both endpoints placed and then has the effect of FindShortestPath; the enterable cells and the invariant of the visualiser are kept |

## Left out

- SDL set-up and teardown, the exit on a quit event, rendering, event polling, the mouse position and its division by the cell size, the frame loop and its delay. These are foreign library calls, I/O and timing. The commands take cell coordinates directly.
- The dispatch on the event type and the key code in `handleEvents` is not modelled. Each branch is a method of `Visualizer`.
- Pathfinder.FindShortestPath: does not state which of several shortest routes is marked. The neighbour order picks one; the model proves only that the marked route is shortest and that exactly its cells change.
- Pathfinder.Search: "visited earlier" is stated as "one BFS level shallower", not as an order in time. The queue is shown to grow by one newly visited cell per push, not to be free of duplicates directly.
- The `visited` flags and the parent links are separate arrays, as in the source. The depth of each cell is ghost state that the source does not keep.
- Integer widths: coordinates are unbounded integers. All values stay within 0..40 and -1, so no overflow can occur in the source.
