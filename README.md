# Maze solver: a verified model of the grid search and its editor

`maze_solver.py` is a small tkinter application. The player edits a 15 × 15
maze and asks for a shortest route between two marked cells. The maze is a
matrix of `0` (open) and `1` (wall) cells.

- A left click walls an open cell.
- The first right click sets the start and scatters 56 random walls.
- The second right click sets the end.
- "Solve" runs `dijkstra`, a priority-queue search over 4-connected moves of
  unit cost, and shows the route found or reports that there is none.

This project models that core in Dafny and proves what it promises.

- `grid.dfy` (module `Grid`) holds the shared vocabulary:
  - coordinates, the maze matrix and the four moves in the search's order;
  - single-cell updates;
  - walks, i.e. sequences of 4-adjacent cells whose cells after the first are
    open, and shortest walks.
- `path_engine.dfy` (module `PathEngine`) is `dijkstra`.
  - The `dist` and `prev` matrices are the search's own values. Each update
    is a one-cell replacement.
  - The heap is a sequence. A pop extracts its least entry in Python's tuple
    order, `(d, (x, y))`.
  - The search is written as the source's loops:
    - `RelaxNeighbor` is one direction of the inner loop;
    - `Expand` is the `for` over the four directions;
    - `Explore` is the `while pq` loop with its early `break`;
    - `TracePath` is the walk back along `prev` followed by the reverse.
  - The invariants that carry the proof:
    - `Linked`: `dist[start]` stays 0, `prev[start]` is never set, and each
      link leads to an adjacent cell that is strictly closer;
    - `Queued`: queue entries are sound;
    - `Frontier`: every reached cell is queued or has all its neighbours
      relaxed;
    - `Settled`: cells expanded fresh stay out of the queue. This set also
      drives termination.
  - From these, `Dijkstra` returns `None` exactly when no walk exists.
    Otherwise it returns a walk that is as short as any.
- `walks.dfy` (module `Walks`) pins the result down in two cases:
  - On an all-open grid a shortest walk has Manhattan distance + 1 cells.
  - A walled end other than the start is unreachable.
- `maze_editor.dfy` (module `MazeEditor`) is the class `MazeSolverApp`.
  - Its fields `maze`, `start` and `end` are updated in place.
  - `Valid()` is the invariant: a 15 × 15 board of zeros and ones, with an
    end only after a start and apart from it.
  - The handlers: the left click (`AddWall`), the right click, the
    wall-placement loop (`PlaceWalls`, one draw at a time), reset and the
    solve button.
  - The random draws are a parameter: the sequence of coordinates that
    `random.randint` would produce.
  - As written, the placement loop can run forever. The model therefore
    caps the number of walls at the number of eligible cells; see
    "## Findings". When at least 56 cells are eligible, which is every case
    the application normally meets, this is exactly the source's behaviour.

Two behaviours of the program are kept as they are:

- The start may be set on a walled cell, and then stays walled. The search
  begins there anyway, because it never tests the start cell.
- A wall toggle only ever adds a wall, never removes one.

## Model

| member | source | states |
|---|---|---|
| `Grid.Neighbor` | maze_solver.py:131-138 | for the four directions `j < 4` only, direction `j` is the `j`-th entry of the move list (up, down, left, right) and leads to an adjacent cell |
| `Grid.DirectionOf` | maze_solver.py:131-138 | every 4-adjacent cell is reached by one of the four moves |
| `Grid.SetCell` | maze_solver.py:142-143 | assigning `m[row][col]` changes that one cell and keeps the shape and every other cell |
| `PathEngine.MinIndex` | maze_solver.py:134 | the popped entry is least in Python's order on `(d, (x, y))` |
| `PathEngine.LeastEntryUnique` | maze_solver.py:134 | two least entries are equal, so the pop agrees with `heapq.heappop` whatever the heap layout |
| `PathEngine.RemoveAt` | maze_solver.py:134 | a pop removes exactly one copy of the popped entry and keeps the rest |
| `PathEngine.QueuedAfterPop` | maze_solver.py:133-134 | after popping the least entry every remaining entry is at least its distance and still sound |
| `PathEngine.FreshPop` | maze_solver.py:133-137 | popping an entry that carries its cell's current distance settles the cell: queue, settled set and frontier stay sound |
| `PathEngine.StalePop` | maze_solver.py:133-137 | a popped entry beaten since it was pushed belongs to a cell whose neighbours are already relaxed, and removing it keeps every invariant |
| `PathEngine.ImprovedOnlyWhenFresh` | maze_solver.py:140-141 | `new_dist < dist[nx][ny]` can only hold when `d` is the popped cell's current distance, so a re-expanded stale entry changes nothing |
| `PathEngine.LinkedKept` | maze_solver.py:141-143 | an improvement keeps `dist[start] == 0`, `prev[start]` unset, and every `prev` link pointing to an adjacent, strictly closer cell |
| `PathEngine.QueuedKept` | maze_solver.py:141-144 | pushing `(new_dist, (nx, ny))` keeps every queue entry sound and the queue free of duplicates |
| `PathEngine.SettledKept` | maze_solver.py:141-144 | an improvement never touches a settled cell |
| `PathEngine.FrontierStep` | maze_solver.py:139-141 | a neighbour that is walled, out of bounds or not improved is already relaxed |
| `PathEngine.FrontierKept` | maze_solver.py:141-144 | an improved neighbour is queued with its new distance and the rest of the frontier survives |
| `PathEngine.RelaxedKept` | maze_solver.py:141-142 | distances only decrease, so a relaxed cell stays relaxed |
| `PathEngine.RelaxNeighbor` | maze_solver.py:138-144 | one direction of the inner loop keeps every search invariant, never raises a distance, and changes nothing for a stale pop |
| `PathEngine.Expand` | maze_solver.py:137-144 | after the four directions the popped cell is fully relaxed, every invariant holds again and no distance has grown |
| `PathEngine.ImprovedKeeps` | maze_solver.py:141-144 | recording an improved neighbour's distance, predecessor and queue entry keeps every search invariant and raises no distance |
| `PathEngine.WalkBound` | maze_solver.py:133-144 | along any walk from `start`, the `i`-th cell has `dist <= i` unless some queued entry is at most `i` |
| `PathEngine.BoundAtPop` | maze_solver.py:134-136 | the cell popped with the least entry has a distance below the length of every walk to it, which is what makes the `break` at `end` sound |
| `PathEngine.BoundWhenDrained` | maze_solver.py:133 | once the queue is empty, every reachable cell has a distance below the length of every walk to it |
| `PathEngine.Explore` | maze_solver.py:125-144 | the search loop terminates, leaves `prev` links sound, and leaves `dist[end]` finite and below every walk's length whenever a walk exists |
| `PathEngine.Reversed` | maze_solver.py:154 | `path.reverse()` puts element `i` at `len - 1 - i` |
| `PathEngine.ReversedBackTrail` | maze_solver.py:150-154 | reversing the cells collected from `end` back to `start` gives a walk from `start` to `end` |
| `PathEngine.TracePath` | maze_solver.py:146-155 | following `prev` from `end` terminates and yields a walk from `start` to `end` of at most `dist[end] + 1` cells |
| `PathEngine.Dijkstra` | maze_solver.py:124-155 | `None` exactly when no walk leads from `start` to `end`, otherwise a walk as short as any; `[start]` when `start == end` |
| `Walks.StraightRoute` | maze_solver.py:131-139 | between any two cells there is a 4-connected route of Manhattan distance + 1 cells that stays in their bounding box |
| `Walks.WalkAtLeastManhattan` | maze_solver.py:137-139 | no walk has fewer than Manhattan distance + 1 cells |
| `Walks.OpenGridDistance` | maze_solver.py:124-155 | on an all-open grid every end is reachable and the returned path has Manhattan distance + 1 cells |
| `Walks.WalledEndUnreachable` | maze_solver.py:139-149 | a walled end other than the start is reachable by no walk, so `dijkstra` returns `None` |
| `MazeEditor.AddWall` | maze_solver.py:77-78 | the clicked cell becomes a wall exactly when it is open and neither marker; no other cell changes |
| `MazeEditor.AddWallIdempotent` | maze_solver.py:77-78 | clicking the same cell twice is the same as clicking it once |
| `MazeEditor.AddWallEffect` | maze_solver.py:77-78 | a click adds exactly the clicked cell as a new wall when it is eligible and nothing otherwise, never opens a wall and never changes a marker's cell |
| `MazeEditor.PlaceWalls` | maze_solver.py:96-102 | trying the draws in order keeps the board's shape |
| `MazeEditor.PlaceWallsChanges` | maze_solver.py:96-102 | placement only walls eligible cells that were drawn, never opens a cell and never walls the start or the end |
| `MazeEditor.PlaceWallsCount` | maze_solver.py:95-102 | placement adds at most `wall_count` walls, and fewer only when no draw is still eligible |
| `MazeEditor.NewWallsEligible` | maze_solver.py:99-100 | every placed wall was an eligible cell |
| `MazeEditor.WallTargetUnreachable` | maze_solver.py:94-102 | with fewer eligible cells than `wall_count`, no sequence of draws reaches `wall_count` new walls |
| `MazeEditor.WallTarget` | maze_solver.py:94 | the target is `wall_count` capped at the number of eligible cells |
| `MazeEditor.CappedTargetReached` | maze_solver.py:94-102 | with the capped target, draws that cover the board place exactly the target number of walls |
| `MazeEditor.MazeSolverApp.constructor` | maze_solver.py:26-29 | the board starts all open with no markers |
| `MazeEditor.MazeSolverApp.LeftClick` | maze_solver.py:75-79 | the maze becomes `AddWall` of the old maze at the clicked cell; the markers stay |
| `MazeEditor.MazeSolverApp.RightClick` | maze_solver.py:81-91 | the first click sets the start and places walls. The next sets the end unless it hits the start. Otherwise nothing changes |
| `MazeEditor.WallStep` | maze_solver.py:99-102 | an accepted draw walls one more cell, raising the number of placed walls by exactly one and opening none |
| `MazeEditor.MazeSolverApp.GenerateRandomWalls` | maze_solver.py:93-102 | the loop leaves the maze `PlaceWalls` describes and keeps the markers and the board invariant; its counter `placed` always equals the number of walls placed so far |
| `MazeEditor.MazeSolverApp.Reset` | maze_solver.py:104-107 | every cell open and both markers unset |
| `MazeEditor.MazeSolverApp.SolveMaze` | maze_solver.py:112-122 | missing markers are reported exactly when one is unset. Otherwise the outcome is "no path" exactly when the end is unreachable, or else a shortest walk |

## Left out

- Drawing and dialogs are not modelled, because they carry no logic:
  - the canvas and `draw_grid`;
  - `itemconfig` colouring and the `rects` matrix;
  - button styling and the instructions text;
  - the `messagebox` calls;
  - the `mainloop` bootstrap.

  `SolveMaze` returns the outcome the dialogs would show.
- Mouse events are not modelled. The pixel-to-cell conversion `event.y // CELL_SIZE` is GUI input, so the handlers take an on-board `(row, col)`.
- `random.randint` is replaced by a finite sequence of draws. The model's loop also stops when the draws run out; the source would keep drawing.
- The float `density` and `int(ROWS * COLS * density)` are not modelled. The wall count is a natural number, and the default is 56.
- The heap's array layout and sift operations are not modelled. The queue is a sequence with least-entry extraction, and `LeastEntryUnique` shows the popped entry is the one `heapq` returns.
- In-place mutation of `dist` and `prev` is modelled as value replacement. These lists are local to the search and never aliased, so nothing observable is lost.
- `PathEngine.TracePath`: states `len(path) <= dist[end] + 1` rather than equality. Equality follows by combining it with `Explore`'s bound, as `Dijkstra` does, and is not stated on one member.
- `PathEngine.Dijkstra`: requires a rectangular maze with at least one row and in-bounds `start` and `end`. The source indexes `maze[0]` and `dist[start[0]][start[1]]` without checks, and its callers pass the 15 × 15 board and clicked cells.
- `MazeEditor.MazeSolverApp.RightClick`: places `WallTarget(maze, start, end, 56)` walls instead of exactly 56, following the corrected loop bound under "## Findings".

## Findings

| source | as written | input that shows it | evidently intended | confidence | as-written member | corrected member |
|---|---|---|---|---|---|---|
| maze_solver.py:94-102 | the placement loop exits only once `wall_count` (56) walls are placed | wall 170 of the 225 cells with left clicks before the first right click, then right-click an open cell: 54 eligible cells remain, so `placed` never reaches 56 and the handler never returns | place walls on as many eligible cells as exist, at most `wall_count`, then stop | high, not executed | `MazeEditor.WallTargetUnreachable` | `MazeEditor.CappedTargetReached` |
