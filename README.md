# Maze solver: searches, endpoint selectors and the polar maze, in Dafny

This project models the algorithmic core of a small maze-solving repository
and proves what each piece promises.

- **Searches.** `bfs_pixels` is a FIFO flood over 4-connected 255-pixels. It
  records the dequeue order and a predecessor map, and rebuilds the path from
  `goal`. `astar_pixels` is an A* search with the Manhattan heuristic, a
  binary heap of `(f, (row, col))` entries and a closed set checked at pop
  time.
- **Endpoint selectors of the demo script.** `find_start_pixel` and
  `find_goal_pixel` are row-major scans over 255-pixels. They start from the
  sentinel `1e9` and keep the first strictly better pixel.
- **Grid utilities.**
  - `image_to_grid` downsamples a binary image into `cell_size` blocks.
  - `find_start` picks the free (0) cell nearest the border.
  - `find_goal` returns the centre, or else searches square rings of
    growing radius around it.
- **The polar maze generator.** `PolarMaze` has cells `(ring, sector)`, each
  owning a bottom and a right wall.
  - `get_neighbors` lists the moves out of a cell.
  - `generate` carves a maze with a randomized depth-first backtracker.
  - `verify_path` searches breadth-first from the entry on the rim to ring 0.

Images and grids are `seq<seq<int>>` values, and a pixel is `Cell(row, col)`.
A route is a sequence of 4-adjacent open cells from `start`. The BFS
`visited` array is an `array2<bool>`. The A* cost table is a `map` in which
an absent key stands for `np.inf`. The heap is a `multiset` whose pop
returns the least entry in tuple order. The polar maze is a class. Its wall
array is an `array3<int>` and its visited array an `array2<bool>`. Ghost
sets of open wall slots and visited cells mirror these arrays. Random
choices are arbitrary choices or parameters.

Modules:

| module | file | models |
|---|---|---|
| `Wrappers` | wrappers.dfy | `Option` and `Result` |
| `Grid` | grid.dfy | images, cells, unit steps, Manhattan distance, routes |
| `Bfs` | bfs.dfy | src/bfs.py |
| `AStar` | astar.dfy | src/astar.py |
| `Scan` | scan.dfy | the shared "first strictly better cell" scan |
| `PixelSelect` | pixel_select.dfy | `find_start_pixel`, `find_goal_pixel` in main.py |
| `GridUtils` | grid_utils.dfy | src/grid_utils.py |
| `CreateMaze` | create_maze.dfy | `PolarMaze` in src/create_maze.py |

## Model

| member | source | states |
|---|---|---|
| `Bfs.BfsPixels` | src/bfs.py:5-41 | The order starts at `start`, has no repeats, and holds only reachable cells that are `start` or 255. `goal`, once dequeued, is last. A path is returned iff `goal` is reachable, iff `goal` was dequeued. The path is a repeat-free route from `start` to `goal`, no longer than any route. Without a path, every reachable cell was dequeued. `start == goal` gives `([start], [start])`. |
| `Bfs.Search` | src/bfs.py:11-30 | The loop either dequeues `goal` at the head of a queue in breadth-first level order, or runs dry after dequeuing every reachable cell. The order is repeat-free and starts at `start`. |
| `Bfs.Expand` | src/bfs.py:24-30 | Over the four directions, the queue grows by the cells newly added to the parent map. Each is new, distinct and one level deeper than `cur`, and old depths are unchanged. Afterwards every open neighbour of `cur` is known, and the visited array still matches the parent map's keys. |
| `Bfs.Advance` | src/bfs.py:17-30 | Expanding a dequeued cell other than `goal` restores the loop invariant with that cell appended to the dequeue order. Every known cell is dequeued or queued exactly once. The queue stays in breadth-first level order. Every dequeued cell has all its open neighbours known. The visited array still matches the parent map's keys. |
| `Bfs.Visit` | src/bfs.py:25-30 | One direction of that loop. An in-bounds 255-neighbour `n` missing from the parent map gets exactly the entry `n ↦ cur`, and the queue gains exactly `n` at its end. Otherwise the map and the queue are unchanged. The visited array keeps matching the map's keys, and the newly added cells keep their depth and distinctness facts. |
| `Bfs.Reconstruct` | src/bfs.py:35-41 | Walking the parent map back from `goal` and reversing yields exactly the parent chain from `start` to `goal`. |
| `Bfs.ChainIsRoute` | src/bfs.py:29-39 | The parent chain of a discovered cell is a route from `start`, and its i-th cell sits at depth i. |
| `Bfs.ChainReaches` | src/bfs.py:13-29 | Every key of the parent map is reachable from `start` and is `start` or a 255-pixel. |
| `Bfs.HeadIsShortest` | src/bfs.py:17-30 | When `goal` heads the FIFO queue, no route to it has fewer cells than its depth + 1. |
| `Bfs.ShortestChain` | src/bfs.py:17-41 | The rebuilt path to a dequeued `goal` is a shortest, repeat-free route. |
| `AStar.AstarPixels` | src/astar.py:5-53 | The order starts at `start`, is repeat-free and holds only reachable cells. `goal`, once closed, is last, and otherwise every reachable cell is closed. A path is returned iff `goal != start` and `goal` is reachable (iff `goal` was closed). It is a repeat-free route, no longer than any route. `start == goal` gives `(None, [start])`. |
| `AStar.Search` | src/astar.py:17-41 | The closed set equals the order's cells, which are repeat-free and start at `start`. If `goal` is closed, it is last and its cost is optimal. Otherwise `goal` is never costed and every reachable cell is closed. |
| `AStar.MinExists` | src/astar.py:20 | A non-empty heap has a least entry in `(f, row, col)` order. |
| `AStar.PopMin` | src/astar.py:20 | `heappop` removes the least entry, which is unique, and leaves the rest. |
| `AStar.PoppedOptimal` | src/astar.py:19-25 | A cell popped un-closed already holds its optimal cost, because the Manhattan heuristic is consistent. |
| `AStar.Relax` | src/astar.py:32-41 | One neighbour `n` at the tentative cost `v`. Suppose `n` is an in-bounds 255-pixel and `v` beats its cost, where a missing cost counts as infinite. Then the new cost table is the old one with `n ↦ v`, and the new parent map is the old one with `n ↦ cur`. The heap gains exactly the entry `(v + h(n), n)`. Otherwise all three are unchanged. |
| `AStar.RelaxKeeps` | src/astar.py:30-41 | Either outcome of `Relax` with `v = g[cur] + 1` keeps the search invariants. Costs still form a predecessor tree of strictly falling costs over open pixels, and costs only fall. Closed cells keep their costs. Every heap entry is at least its cell's `g + h`, and every open costed cell has an entry with exactly that `f`. Direction `k`'s open neighbour now costs at most `g[cur] + 1`. |
| `AStar.RelaxDirection` | src/astar.py:30-41 | One direction of the neighbour loop, at the tentative cost `g[cur] + 1`, keeps the search invariants of `RelaxKeeps`, and leaves that direction's open neighbour costing at most `g[cur] + 1`. |
| `AStar.Expand` | src/astar.py:30-41 | After all four directions, every open neighbour of `cur` costs at most `g[cur] + 1`, and the invariants are kept. |
| `AStar.ClosedTransfer` | src/astar.py:36-38 | Lowering costs outside the closed set keeps every closed cell optimal and expanded. |
| `AStar.Reconstruct` | src/astar.py:46-53 | Walking the parent map back from `goal` until `start`, then reversing, yields exactly the parent chain. |
| `AStar.ChainIsRoute` | src/astar.py:36-51 | The parent chain of a costed cell is a route with at most `g + 1` cells and strictly rising costs, so the backward walk ends at `start`. |
| `AStar.ChainReaches` | src/astar.py:36-39 | Every costed cell is reachable from `start` and is `start` or a 255-pixel. |
| `AStar.Exhausted` | src/astar.py:19-44 | An empty heap means every reachable cell is closed and `goal` was never costed. |
| `AStar.ShortestChain` | src/astar.py:36-53 | The rebuilt path to an optimally costed `goal` is a shortest, repeat-free route with exactly `g[goal] + 1` cells. |
| `Grid.ManhattanProperties` | src/astar.py:14-15 | `h_cost` is symmetric and zero exactly on equal cells. It drops by at most one per unit step (consistency). |
| `Grid.ManhattanAlongRoute` | src/astar.py:14-15 | Along a route, the heuristic never exceeds the remaining steps plus the heuristic at the route's end (admissibility). |
| `Grid.DirectionTo` | src/bfs.py:15 | Each 4-neighbour is reached by exactly one of the four direction offsets. |
| `Grid.ClosedSetHoldsRoute` | src/bfs.py:24-30 | A set holding `start` and closed under open unit steps holds the end of every route. |
| `Scan.ArgminScan` | main.py:16-21 | The nested row-major loop returns `None` iff no cell holding the value scores below the bound. Otherwise it returns the cell of least score, with every row-major-earlier such cell scoring strictly more. |
| `Scan.FirstMinUnique` | main.py:16-21 | The strict `<` makes the scan's choice unique. |
| `Scan.FirstMinBeatsAll` | main.py:15-21 | Against a finite sentinel, the choice also beats every matching cell that the sentinel excluded. |
| `Scan.NoCandidate` | main.py:15-22 | Returning `None` against a finite sentinel means every matching cell scores at least the sentinel. |
| `Scan.SentinelNeverBinds` | main.py:15-19 | On images under `1e9` pixels in each dimension, both scores of an in-bounds pixel lie in `[0, 1e9)`. |
| `PixelSelect.FindStartPixel` | main.py:13-22 | Returns a 255-pixel of least `min(i, j, h-1-i, w-1-j)`, the first in row-major order among ties. It returns `None` iff no 255-pixel scores below `1e9`, which on images under `1e9` pixels means iff there is no 255-pixel. |
| `PixelSelect.FindGoalPixel` | main.py:25-35 | The same, for `abs(i - h//2) + abs(j - w//2)`. |
| `GridUtils.AnyZero` | src/grid_utils.py:23-27 | `np.any(cell == 0)` over one block: true iff some pixel of the block is 0. |
| `GridUtils.GridRow` | src/grid_utils.py:22-30 | Row `i` of the grid: entry `j` is 1 iff block `(i, j)` has a 0-pixel, else 0. |
| `GridUtils.ImageToGrid` | src/grid_utils.py:4-32 | The whole grid equals `Downsample`, of shape `(h // cs, w // cs)`. |
| `GridUtils.DownsampleShape` | src/grid_utils.py:15-30 | The grid has `h // cs` rows of `w // cs` entries, each 0 or 1, with 1 iff the block holds a 0-pixel. |
| `GridUtils.DownsampleIgnoresTrailing` | src/grid_utils.py:16-26 | Pixels beyond the last whole block do not affect the grid. |
| `GridUtils.FindStart` | src/grid_utils.py:34-54 | Fails with "No free cell found for start" iff no cell is 0. Otherwise returns a 0-cell of least edge distance, the first in row-major order among ties. |
| `GridUtils.RingFound` | src/grid_utils.py:67-73 | The first free cell met in the `radius`, `dx`, `dy` loops has the least square-ring radius around the centre, and the least row-major position on that ring. |
| `GridUtils.RingsCover` | src/grid_utils.py:67-75 | Rings of radius below `max(h, w)` cover the grid, so finishing the loops means there is no free cell. |
| `GridUtils.FindGoal` | src/grid_utils.py:57-75 | Returns the centre when it is free. Otherwise returns the free cell nearest the centre in square-ring radius, the first in `(dx, dy)` order on its ring. It fails iff no cell is free; an empty grid fails too. |
| `CreateMaze.PolarMaze.constructor` | src/create_maze.py:10-20 | Every wall stands, no cell is visited, and the entry sector is the given one. The arrays agree with the ghost sets. |
| `CreateMaze.PolarMaze.NeighborsShape` | src/create_maze.py:22-39 | Lists `in` iff `r > 0` and `out` iff `r < rings - 1`, then always `cw` and `ccw`, last and in that order, with wrap-around. Membership in the list is exactly a legal move, and every target is in range. |
| `CreateMaze.PolarMaze.KnockOpens` | src/create_maze.py:58-70 | The wall `generate` knocks down for a move is the wall `verify_path` tests for that move. |
| `CreateMaze.PolarMaze.NeighborClosedIsAll` | src/create_maze.py:22-39 | The move graph is connected: a set holding the entry and closed under moves holds every cell. |
| `CreateMaze.PolarMaze.Unvisited` | src/create_maze.py:50-54 | The filter keeps exactly the neighbours whose cell is unvisited. |
| `CreateMaze.PolarMaze.Knock` | src/create_maze.py:58-70 | The four branches open exactly the slot `WallFor` names, and nothing else changes. |
| `CreateMaze.PolarMaze.MarkVisited` | src/create_maze.py:71 | Marks exactly one cell visited. |
| `CreateMaze.PolarMaze.DfsPush` | src/create_maze.py:56-72 | A move to an unvisited cell keeps the backtracker invariant. Stack and newly visited cells stay reachable through open walls. On a fresh maze it adds one passage and one visited cell, and the knocked wall was not open before. |
| `CreateMaze.PolarMaze.DfsPop` | src/create_maze.py:73-74 | Popping a cell with no unvisited neighbour keeps the invariant. |
| `CreateMaze.PolarMaze.DfsEnd` | src/create_maze.py:46-75 | With the stack empty, a run from a fresh maze has visited every cell. It has one open wall fewer than there are cells, and can reach every cell. |
| `CreateMaze.PolarMaze.Generate` | src/create_maze.py:41-75 | Walls only come down and cells only become visited, and every newly visited cell is reachable from the entry. On a fresh maze every cell ends visited and reachable through exactly `cells - 1` open walls: a spanning tree. |
| `CreateMaze.PolarMaze.OpenSides` | src/create_maze.py:102-122 | The four wall tests read the slots of the inward, outward, clockwise and counter-clockwise moves. |
| `CreateMaze.PolarMaze.ExpandCell` | src/create_maze.py:101-125 | The four checks take the far cells of the open sides in the order in, out, clockwise, counter-clockwise. The queue grows by exactly those not found before, in that order and each once. The found set becomes the old set plus all of them. |
| `CreateMaze.PolarMaze.Offer` | src/create_maze.py:103-105 | One `not in visited_verify` block: a new cell is added to the found set and appended to the queue. A cell already found changes nothing. |
| `CreateMaze.FreshElems` | src/create_maze.py:101-125 | The cells a run of offers appends are exactly the offered cells not found before, with no repeats. |
| `CreateMaze.PolarMaze.TargetsLinked` | src/create_maze.py:101-122 | With the four wall flags read from the walls, the far cells of the open sides are exactly the cells one open passage away. |
| `CreateMaze.PolarMaze.DiscoverAll` | src/create_maze.py:101-125 | Offering cells one passage away from the popped cell keeps the search invariant. The entry and every found cell are reachable cells of the maze, and the queue holds distinct found cells. Every found cell off the queue, other than the popped one, is off ring 0 and has all its passages leading to found cells. |
| `CreateMaze.PolarMaze.ExpandKeeps` | src/create_maze.py:101-125 | After the four checks the popped cell is expanded: every passage out of it leads to a found cell, and the search invariant holds. |
| `CreateMaze.PolarMaze.OfferedGrows` | src/create_maze.py:101-125 | The checks only add to the found set. If they find nothing new, the queue is unchanged. |
| `CreateMaze.PolarMaze.CheckSides` | src/create_maze.py:100-125 | The loop body after the ring-0 test keeps the search invariant, with no popped cell left unexpanded. It only adds to the found set, and it leaves the queue unchanged when nothing new is found. This gives the loop its termination measure. |
| `CreateMaze.PolarMaze.SearchEnd` | src/create_maze.py:93-127 | An exhausted search has discovered every reachable cell, and none is on ring 0. |
| `CreateMaze.PolarMaze.VerifyPath` | src/create_maze.py:81-127 | Returns True iff some ring-0 cell is reachable from the entry through open walls. |
| `CreateMaze.GenerateAndVerify` | src/create_maze.py:195-203 | Building a fresh maze, generating it and verifying it always reports success. |

## Left out

- Image loading, binarisation, plotting and animation are left out. So are the hard-coded paths, `save_image` and the random file name. They are I/O and foreign libraries; the model takes the binary image as input.
- Randomness: `random.randint` for the entry sector becomes a constructor parameter, and `random.choice` becomes an arbitrary choice (`:|`). The proofs hold for every choice, but the model does not describe the distribution.
- Floating-point sentinels: `np.inf` in the A* cost table is an absent map key. `float("inf")` in `find_start` is the `Infinite` bound. The `1e9` of the pixel selectors is the exact integer `1_000_000_000`, compared against integer scores as Python does.
- `heapq` internals are left out. The heap is a multiset whose pop returns the least `(f, row, col)` entry, which is what `heappop` returns.
- `Bfs.BfsPixels`, `AStar.AstarPixels`: require an in-bounds `start`. This is a precondition of the model, not a guarantee from the callers. `main` in main.py passes whatever `find_start_pixel` returns. On an image with no 255-pixel that is `None`, and `bfs_pixels` and `astar_pixels` then fail when they unpack or index it. A start outside the image, which numpy would index from the other end when negative, is not modelled either. An out-of-bounds `goal` is allowed and simply never reached.
- The image is a sequence of rows. The check that every row has the same length stands for numpy's rectangular shape.
- Path reversal: the model builds the path front-first by prepending. This gives the same sequence as appending and then `[::-1]`.
- `GridUtils.ImageToGrid`: requires `cellSize > 0`, because `image_to_grid` divides by it and fails otherwise. The grid is built row by row rather than by in-place writes into a zero array; the resulting values are the same.
- `GridUtils.FindGoal`: on an empty grid `find_goal` raises an `IndexError` when it reads the centre. The model reports that as a `Failure`.
- `CreateMaze.PolarMaze.constructor`: requires at least one ring and one sector. With no sectors `randint(0, -1)` raises, and with no rings `generate` indexes out of bounds.
- `CreateMaze.PolarMaze.Generate`: the full visit and spanning-tree results are stated for a maze with no visited cell and no open wall. That is the state `main` calls it in. On a maze that is already partly carved, only the monotonicity and reachability facts are promised.
- `CreateMaze.PolarMaze.Unvisited`: states which neighbours the filter keeps, but not their order. The order would only matter to `random.choice`, which is modelled as an arbitrary choice.
- `CreateMaze.GenerateAndVerify`: takes the ring and sector counts as parameters; `main` uses 12 and 36. The console messages are left out.
- The ghost sets `openSlots` and `seen` in `PolarMaze` exist only in the model. `Valid` ties them to the `walls` and `visited` arrays.
