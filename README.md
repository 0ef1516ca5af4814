# A* search and maze generation on a character grid

A model of `AI.py`, a small path-finding program:

- `generate_grid_world` carves a maze into a grid of characters. It runs a randomized depth-first walk with an explicit stack. A carved cell becomes `'0'`, a rejected cell becomes `'1'`, and a cell never reached stays `'#'`.
- `a_star_search` finds a path between two cells with A*. It uses a `heapq` open list ordered by `Node.__lt__`, a closed set of positions, parent links, and the Manhattan heuristic.
- `reconstruct_path` follows the parent links back to the start and reverses them.
- `get_neighbors` returns the open 4-neighbours of a cell.
- The heuristic-update step of `adaptive_a_star` is modelled on its own.

Modules:

- `Grid` (grid.dfy) holds the grid, positions, the neighbour query and walks through open cells.
- `SearchNode` (node.dfy) holds `Node`, its order and `manhattan_heuristic`.
- `AStar` (astar.dfy) holds `reconstruct_path` and `a_star_search`. The nodes live in an arena: a sequence in creation order where each parent is an earlier index. The open list is a sequence of arena indices, and a pop removes a node that no other open node is `Less` than.
- `Maze` (maze.dfy) holds `generate_grid_world`. The functions `Maze.Step`, `Maze.Carve` and `Maze.Generated` follow the loop as written. Its backtrack abandons cells (see Findings). `Maze.StepDfs`, `Maze.CarveDfs` and `Maze.GeneratedDfs` resume from the new top of the stack instead. The method `Maze.GenerateGridWorld` reassigns the grid cell by cell with the corrected backtrack and is proved equal to `Maze.GeneratedDfs`.
- `Adaptive` (adaptive.dfy) holds the heuristic-update rule.
- `Wrappers` (wrappers.dfy) holds `Option`.

The generator's random draws are parameters:

- the origin is a given cell;
- `random.choice` over the `k` candidate neighbours becomes index `pick(t) % k`;
- `random.random() < 1 - blocked_probability` becomes `carve(t)`, where `t` counts the draws made so far.

The generator comments `'1'` as a blocked cell (AI.py:125), while the plotting script reads both `0` and `1` as unblocked (visual.py:19). The model follows `get_neighbors` (AI.py:61-67), which returns only `'0'` cells, so `'1'` cells are not traversable.

## Model

| member | source | states |
|---|---|---|
| Grid.CellsAround | AI.py:108-116 | The cells listed around `p` are exactly its in-bounds 4-neighbours holding the given character, at most four of them. The generator asks for `'#'` cells. |
| Grid.Neighbors | AI.py:58-69 | `get_neighbors` returns exactly the in-bounds 4-neighbours that hold `'0'`, so never a `'#'` or `'1'` cell, and at most four of them. |
| Grid.CellsAroundOrdered | AI.py:61-68 | The neighbours come in the order left, right, up, down. |
| Grid.NeighborsDistinct | AI.py:58-69 | `get_neighbors` lists no cell twice. |
| SearchNode.NewNode | AI.py:7-13 | A new node holds the given position, `g` and `h`, has `f = g + h` and no parent. |
| SearchNode.Less | AI.py:15-19 | `a < b` implies `a.f ≤ b.f`, and on equal `f` it implies `a.g > b.g`. |
| SearchNode.LessIsStrictOrder | AI.py:15-19 | `__lt__` is irreflexive, asymmetric and transitive. |
| SearchNode.LessIsLexicographic | AI.py:15-19 | `__lt__` orders by `f` ascending and, on equal `f`, by `g` descending. Two nodes are unordered exactly when both `f` and `g` are equal. |
| SearchNode.NotLessBoundsF | AI.py:15-19 | A node that no other node is less than has the smallest `f`. |
| SearchNode.Manhattan | AI.py:21-22 | The heuristic is a natural number that is 0 exactly at the goal. It is at least the distance along each axis. |
| SearchNode.ManhattanStep | AI.py:21-22 | At two 4-adjacent cells the heuristic differs by exactly one. |
| SearchNode.ManhattanAlongPath | AI.py:21-22 | Along any walk, the heuristic drops by at most the number of steps. This is consistency. |
| SearchNode.ManhattanAdmissible | AI.py:21-22 | No walk reaches the goal in fewer steps than the heuristic. |
| AStar.Reverse | AI.py:29 | `path[::-1]` has the same length, and element `i` is element `n-1-i` of the input. |
| AStar.ChainShape | AI.py:24-29 | The parent chain of a node has one entry per node from its root to itself. It starts at the root's position and ends at the node's own position. |
| AStar.ReconstructPath | AI.py:24-29 | `reconstruct_path` returns the parent chain, root first. Its length is the number of parent links plus one, its first cell is the root's and its last cell is the node's. |
| AStar.Child | AI.py:50-52 | A child of node `k` sits at the neighbour's position, is one step deeper, has the Manhattan `h` and `f = g + h`, and has parent `k`. |
| AStar.ArenaChain | AI.py:50-52 | Every node's chain is a walk from the start to its position with exactly `g` steps, because each child is one step from its parent with `g + 1`. |
| AStar.MinIndex | AI.py:38 | `heappop` takes a node that no other open node is less than. |
| AStar.Removed | AI.py:38 | Popping entry `b` leaves one entry fewer, and the remaining entries plus the popped one are the same multiset as before. |
| AStar.Unclosed | AI.py:47-48 | The skipped neighbours are exactly the closed ones. |
| AStar.ExpandNeighbors | AI.py:46-53 | Expanding node `k` appends one child per unclosed neighbour, in neighbour order, and pushes each child. Each child is one step deeper, has the Manhattan `h` and has parent `k`. No node is pushed for a closed position. Earlier nodes are untouched. |
| AStar.FreshNotStale | AI.py:47-48 | Newly pushed entries are for unclosed positions, so they do not count towards the stale entries of the termination measure. |
| AStar.PoppedIsShortest | AI.py:37-43 | A popped node for an unclosed position carries the length of a shortest walk to that position. |
| AStar.ExpansionKeepsInv | AI.py:43-53 | Closing the popped position and pushing its children keeps the loop invariant. The invariant says that every closed cell's neighbours are closed or wait in the open list one step deeper, and every closed cell was closed at its shortest distance. |
| AStar.ExpansionShrinks | AI.py:37-53 | Each pass shrinks the unclosed cells, or keeps them and shrinks the stale open entries. |
| AStar.OrderKept | AI.py:37-53 | Popped `f` values never decrease: the popped node's `f` is at least the previous one, every open node's `f` is at least it, and every closed cell's `g + Manhattan` is at most it. |
| AStar.WalksKept | AI.py:43-52 | The `g` a cell is closed with is the length of some walk from the start to it. |
| AStar.ClosedBelowGoal | AI.py:37-41 | When the goal is popped, every closed cell's `g + Manhattan` is at most the goal's `g`. |
| AStar.AncestorsKept | AI.py:43-52 | A node is only created by expanding its parent, so every node's parent position stays closed. |
| AStar.ChainClosed | AI.py:24-29 | Every cell on a node's parent chain before the node itself is closed. |
| AStar.ClosedAlongShortest | AI.py:37-53 | On a shortest walk to the goal whose earlier cells are all closed, each of those cells was closed with `g` equal to its index on the walk. |
| AStar.CheaperCellsClosed | AI.py:37-53 | When a node no open node is less than is popped, every cell that a walk from `start` reaches with steps + Manhattan below that node's `f` is already closed. |
| AStar.ClosedAreReachable | AI.py:37-56 | When the open list runs empty, the closed cells are exactly the cells reachable from `start`. |
| AStar.CloseAndExpand | AI.py:43-53 | Closing the popped position and expanding it adds exactly that position to the closed set, keeps all loop invariants and decreases the termination measure. |
| AStar.AStarSearch | AI.py:31-56 | A returned path is a walk from `start` to `goal` by 4-adjacent steps onto `'0'` cells, and no walk is shorter. `None` is returned exactly when no such walk exists. The search always terminates. `expanded` maps each closed cell to the `g` it was closed with, and the goal is never in it. On success, each closed cell's `g` is its shortest distance and the length of some walk to it, with `g + Manhattan ≤ g(goal)`. Every cell of the returned path except the goal is closed, with `g` equal to its index on the path. Every cell that some walk from `start` reaches with steps + Manhattan below `g(goal)` is closed. On failure, the closed cells are exactly the cells reachable from `start`. |
| Maze.Uncarved | AI.py:101 | The initial grid has `height` rows of `width` cells, all `'#'`. |
| Maze.Resolve | AI.py:121 | Writing one cell changes that cell and no other, and keeps the grid's shape. |
| Maze.ResolveShrinks | AI.py:121-125 | Resolving a `'#'` cell leaves one `'#'` cell fewer. |
| Maze.Chosen | AI.py:119 | The chosen neighbour is an in-bounds `'#'` cell next to the current cell. |
| Maze.Advance | AI.py:118-125 | The chosen `'#'` neighbour becomes `'0'`, is pushed and becomes current, or becomes `'1'` and nothing else changes. No cell already `'0'` or `'1'` is rewritten, and the measure `2·#'#' + stack height` decreases. |
| Maze.Step | AI.py:107-127 | One pass of the loop keeps the cells in bounds and never rewrites a resolved cell. It decreases the measure, and its backtrack makes the popped cell current. |
| Maze.Carve | AI.py:107-127 | Running the loop to the end never rewrites a cell that was already `'0'` or `'1'`. |
| Maze.Generated | AI.py:100-129 | The grid the loop as written produces has `height` rows of `width` cells. |
| Maze.Start | AI.py:101-105 | The state before the loop has the requested shape. |
| Maze.StartInv | AI.py:101-105 | The loop invariant holds before the loop: every cell is known, the origin is `'0'`, the current and stacked cells are `'0'`, and every `'0'` cell is connected to the origin. |
| Maze.OpenKeepsConnected | AI.py:120-123 | Opening a `'#'` cell next to a connected `'0'` cell keeps every `'0'` cell connected to the origin. |
| Maze.BlockKeepsConnected | AI.py:124-125 | Blocking a `'#'` cell keeps every `'0'` cell connected to the origin. |
| Maze.OpenKeepsInv | AI.py:120-123 | Carving a neighbour keeps the invariant: cells known, the origin, current and stacked cells `'0'`, connectivity. |
| Maze.BlockKeepsInv | AI.py:124-125 | Blocking a neighbour keeps the same invariant. |
| Maze.AdvanceKeepsInv | AI.py:118-125 | Either outcome of a draw keeps the invariant. |
| Maze.StepKeepsInv | AI.py:107-127 | A pass of the loop as written, including its backtrack, keeps the invariant. |
| Maze.CarveKeepsInv | AI.py:107-127 | When the loop ends, every cell is `'#'`, `'0'` or `'1'`, the origin is `'0'` and every `'0'` cell is connected to it. |
| Maze.GeneratedShape | AI.py:100-129 | The generated grid has `height` rows of `width` cells, each `'#'`, `'0'` or `'1'`. The origin is `'0'` and every `'0'` cell is reachable from it through `'0'` cells. |
| Maze.CarveOnce | AI.py:108-127 | The imperative loop body computes exactly one pass of the loop, with the corrected backtrack. |
| Maze.GenerateGridWorld | AI.py:100-129 | The method returns the grid the corrected loop defines. That grid has the requested shape, only known characters and an open origin. Every open cell is reachable from the origin and has no `'#'` neighbour. |
| Maze.AsWrittenAbandonsCell | AI.py:126-127 | As written, a 3 × 1 carve from the middle yields `00#`: a `'#'` cell is left next to an open cell. |
| Maze.Backtrack | AI.py:126-127 | The corrected backtrack pops the exhausted cell and makes the new top current. It keeps the grid and decreases the measure. |
| Maze.StepDfs | AI.py:107-127 | The corrected pass stays in bounds, never rewrites a resolved cell and decreases the measure. |
| Maze.StepDfsKeepsInv | AI.py:107-127 | The corrected pass keeps the invariant, keeps the current cell on top of the stack, and keeps every `'0'` cell off the stack without `'#'` neighbours. |
| Maze.CarveDfs | AI.py:107-127 | Running the corrected loop to the end never rewrites a cell that was already `'0'` or `'1'`. |
| Maze.CarveDfsKeepsInv | AI.py:107-127 | When the corrected loop ends, every cell is `'#'`, `'0'` or `'1'`, the origin is `'0'`, every `'0'` cell is connected to it, and no `'0'` cell has a `'#'` neighbour. |
| Maze.GeneratedDfs | AI.py:100-129 | The grid the corrected loop produces has `height` rows of `width` cells. |
| Maze.GeneratedDfsExhausted | AI.py:100-129 | With the corrected backtrack, the grid keeps the shape, cell and connectivity properties, and no `'0'` cell has a `'#'` neighbour left. |
| Maze.DfsCarvesAll | AI.py:126-127 | On the same draws as the counterexample, the corrected carve opens all three cells. |
| Adaptive.UpdatedHeuristic | AI.py:84-86 | Every expanded cell gets `h = g(goal) - g(cell)`, and only expanded cells get a value. |
| Adaptive.UpdatedHeuristicAdmissible | AI.py:84-86 | If `g(goal)` is a shortest distance and each expanded `g` is the length of some walk, then the updated `h` never exceeds the remaining distance to the goal. |
| Adaptive.UpdatedHeuristicDominates | AI.py:84-86 | At each expanded cell with `g + Manhattan ≤ g(goal)`, the updated `h` is at least the Manhattan heuristic. `AStar.AStarSearch` ensures that hypothesis for every cell it closed. |
| Adaptive.SearchAndUpdate | AI.py:80-87 | The returned path is a shortest walk, and `None` comes back exactly when the goal is unreachable. After a successful search, `h` covers exactly the cells in `expanded`, with `h + g = g(goal)`. These include every cell that a walk from `start` reaches with steps + Manhattan below `g(goal)`. Cells whose steps + Manhattan equal `g(goal)` may or may not have been closed. Each updated `h` lies between the Manhattan heuristic and the true remaining distance to the goal. Along the returned path, `h` is exactly the number of steps left. After a failed search, `h` is empty and `expanded` holds exactly the reachable cells. |

## Left out

- The module-level loop that writes 50 grids to text files (AI.py:131-138) is I/O.
- `visual.py` is not part of this model: it reads files and plots with numpy and matplotlib.
- The distributions of `random.randint`, `random.choice` and the floating-point test `random.random() < 1 - blocked_probability` (AI.py:103, 119-120) are replaced by arbitrary caller-supplied draws. No probability is modelled.
- `heapq` is abstracted as "remove a node that no open node is less than". `MinIndex` takes the first such node, while a binary heap may return a different one among nodes with equal `f` and `g`. All proved properties hold for any such choice, but among equally short paths the one returned may differ.
- The `print` calls (AI.py:55, 97) are left out; failure is the `None` result.
- `manhattan_heuristic` reads `.x` and `.y`, but AI.py:34 and AI.py:51 pass it a tuple, which would raise before any search step. The model computes the heuristic on coordinates, as the code evidently intends.
- The loop of `adaptive_a_star` (AI.py:71-98) is not modelled. As written it reads `goal.g` from a tuple (AI.py:86). It never uses `previous_search_g`. It calls `manhattan_heuristic` on the start tuple (AI.py:77), which raises before the loop runs. Past that, it pushes neighbours without a closed-set check, so it can loop forever when the goal is unreachable. It does not recompute `f` after changing `h`. Only the update rule at AI.py:84-86 is modelled, keyed by coordinate rather than by node object.
- Adaptive.UpdatedHeuristicAdmissible: proves that the updated `h` never overestimates. It does not prove that it equals the exact remaining distance, which does not hold in general: an expanded cell's cheapest way to the goal need not pass along the goal's shortest path.
- AStar.AStarSearch: requires a rectangular, non-empty grid and a start inside it. Outside the grid, `get_neighbors` would index out of range, or wrap around through Python's negative indices.
- Adaptive.SearchAndUpdate: does not pin down whether a cell whose steps + Manhattan equal `g(goal)` gets an update. Whether such a cell is closed before the goal depends on the heap's order among nodes with equal `f`.
- Adaptive.SearchAndUpdate: runs the loop of `a_star_search`, with its closed-set check, and then applies the update rule of AI.py:84-86. The loop of `adaptive_a_star` itself is not modelled, as said above.
- AStar.AStarSearch: "the closed set only grows" is stated by the loop body, `AStar.CloseAndExpand`, whose contract says the new closed set is the old one plus the popped position. It is not restated on `AStarSearch` itself.
- The generator's grid is a Python list of lists mutated in place. The model reassigns a `seq<seq<char>>` value one cell at a time, so aliasing of rows is not modelled.
- Maze.GenerateGridWorld: requires `width` and `height` of at least 1, as `random.randint(0, width - 1)` does.

## Findings

| source | as written | input that shows it | evidently intended | confidence | as-written member | corrected member |
|---|---|---|---|---|---|---|
| AI.py:127 | On backtrack, `current_x, current_y = stack.pop()` makes the popped cell current. The first pop returns the exhausted cell itself. When the last cell is popped, the stack is empty and the loop ends before that cell is examined, so its remaining `'#'` neighbours are abandoned. | width 3, height 1, origin (1, 0), `random.choice` always taking the first neighbour, every carve test passing: the result is `00#`, with the right cell still `'#'` next to the open middle cell. | Pop the exhausted cell and resume from the new top of the stack, as a depth-first backtracker does. Then no open cell keeps a `'#'` neighbour, and the same draws give `000`. | high, not executed | Maze.AsWrittenAbandonsCell | Maze.GeneratedDfsExhausted |
