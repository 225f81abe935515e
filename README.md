# Maze generator and solvers: a verified Dafny model

This project models the computational core of `maze_solver.py`: the recursive
backtracker that carves a maze out of a grid of walls (`generate_maze` and its
inner `walk`), and the three solvers that search the maze from the start cell
(1, 1) to the end cell (h-2, w-2): breadth-first (`bfs_solve`), depth-first
(`dfs_solve`) and A* with the Manhattan heuristic (`astar_solve`). It also
models their shared helpers `get_moves`, `mark_cell` and `get_path`.

The program's grid is a list of rows of display strings. Cells are changed in
place. Here it is an `array2<State>`, where `State` names the glyphs the
program draws: wall, path, start, end, scan, visited and step. Each solver
copies the maze it is given (`CopyGrid`) and marks only its copy, so the maze
it was given is left unchanged. The solvers' frontiers, visited sets, parent
dictionaries and g-score tables are Dafny `seq`, `set` and `map` values that
the solver methods reassign.

Modules:

- `Grid` (`grid.dfy`): cell states and positions, `get_moves`, `mark_cell`,
  the row copy, and routes over open cells.
- `Paths` (`paths.dfy`): `get_path`.
- `Search` (`search.dfy`): `bfs_solve` and `dfs_solve`, with the expansion
  step they share and the bookkeeping invariant of their loops.
- `AStar` (`astar.dfy`): `astar_solve`, with the heap pop, the relaxation
  loop and the A* loop invariant.
- `Generator` (`generator.dfy`): `generate_maze` and `walk`.

Each solver is proved to return one of two results:

- A path. The path is a route of unit steps from the start (the start itself
  is excluded) to the end. Every cell of the route is an open cell of the
  base maze, and no cell repeats.
- An empty path. This happens only when no route exists, or when the start
  is itself the end.

Each solver also returns, as a ghost value, the set of cells it expanded. It
is proved to mark exactly those cells, apart from the start and the end,
which stay unmarked. The end is never among the expanded cells. For BFS and DFS, the number of expansions
is bounded by the number of open cells plus one.

The generator is proved to produce an h-by-w maze with these properties:

- START is at (1, 1) and END is at (h-2, w-2). END overwrites START when the
  two cells coincide.
- Apart from the START and END stamps, the outer ring is wall, and so is
  every cell with two even coordinates.
- Every interior cell with two odd coordinates (a "room") is open.
- `walk` enters each room exactly once, and enters only rooms that are
  interior or (1, 1) itself, so never a cell of the outer ring. Each room
  after the first is entered through a jump from an earlier room, and the
  cell between the two is opened. These passages form a tree.
- The open cells that are not rooms are exactly these passages, apart from
  the END stamp, and distinct links open distinct cells. So n rooms are
  joined by n - 1 passages: the "perfect maze" of the docstring at
  `maze_solver.py:36`.
- Every interior room is reachable from (1, 1) through cells that are not
  walls. When h and w are odd and the end is not the start, a route over
  PATH and END cells leads from the start to the end, so the solvers have a
  route to find. With an even side the END stamp need not be reachable: in a
  4-by-4 grid END lands on (2, 2), whose four neighbours stay WALL.

Some details of the code that the model follows:

- The path `get_path` returns does not contain the start cell. Its loop
  stops at the first cell that has no parent entry (`maze_solver.py:93-96`).
- When the end is popped, the solver returns before `explored += 1`, so the
  end cell is never counted as explored (`maze_solver.py:113-116`, and the
  same at :144-147 and :176-179).
- A* pops the least `(f, g, (row, col))` tuple, so ties in `f` are broken by
  `g` and then by the cell's coordinates (`maze_solver.py:175`).
- The only word on the maze's size is the comment `# Must be odd` beside
  `WIDTH` and `HEIGHT` (`maze_solver.py:29-30`). Nothing enforces it:
  `generate_maze` does not check the size.
- The solvers never look for START or END cells in the grid. They take the
  start to be (1, 1) and the end to be (h-2, w-2) (`maze_solver.py:98-104`).

## Model

| member | source | states |
|---|---|---|
| Grid.Goal | maze_solver.py:104 | `end = (h-2, w-2)` lies on the grid exactly when both sides are at least 2, and off the border once both are at least 3. |
| Grid.Moves | maze_solver.py:56-64 | A cell is yielded exactly when it is an orthogonal neighbour inside the grid whose state is PATH or END. The cells come in east, south, west, north order. The directions come from `Neighbour`, whose cases are the `(0,1), (1,0), (0,-1), (-1,0)` list at :60. |
| Grid.MovesFrom | maze_solver.py:60-64 | The same as Grid.Moves, restricted to the directions from the k-th onwards. |
| Grid.MovesDistinct | maze_solver.py:60-64 | `get_moves` never yields the same cell twice. |
| Grid.MarkCell | maze_solver.py:84-87 | `sym` is written at `pos` exactly when `pos` is neither the start nor the end. Every other cell keeps its state. |
| Grid.CopyGrid | maze_solver.py:100 | The copy is a new grid of the same dimensions, with the same state in every cell. |
| Paths.Reversed | maze_solver.py:96 | `path[::-1]` has the same length, with element i taken from position `len-1-i`. |
| Paths.GetPath | maze_solver.py:89-96 | The result is empty exactly when `end` has no parent entry. Otherwise its last element is `end`, and each element is the parent of the next. The first element's parent has no parent entry, and no element repeats. It terminates whenever the parent links are ranked, that is, acyclic. |
| Search.Unseen | maze_solver.py:122 | The cells pushed are moves that are not in `visited`, and there are no more of them than moves. |
| Search.UnseenExactly | maze_solver.py:121-125 | The moves pushed are exactly those not in `visited`, and none is pushed twice. |
| Search.PushUnseen | maze_solver.py:121-125 | The neighbour loop: `visited` gains every move, the unvisited moves are appended to the frontier in order, and each gets `curr` as its parent. |
| Search.PopSplit | maze_solver.py:111-112 | Popping `curr` from a frontier with no repeats leaves every other cell exactly once. |
| Search.CloseCell | maze_solver.py:117-119 | Marking SCAN then VSTD leaves the copy equal to the base maze, except on the expanded cells other than the start and the end. |
| Search.MovesOnMarked | maze_solver.py:121 | On the marked copy, `get_moves` yields only open neighbours in the base maze, and every open neighbour that has not been expanded. |
| Search.DiscoverKeepsBooks | maze_solver.py:116-125 | One expansion keeps the loop invariant. The frontier holds exactly the discovered cells not yet expanded, each once. Parent links join cells to expanded neighbours one level less deep. Every open neighbour of an expanded cell is discovered. `explored` counts the expanded cells, and the end is never among them. |
| Search.DiscoverKeepsFrontier | maze_solver.py:120-125 | The frontier part of the invariant: after the pop and the pushes, the frontier holds exactly the discovered cells that have not been expanded, each once. |
| Search.DiscoverKeepsCover | maze_solver.py:120-125 | Every open neighbour of an expanded cell has been discovered. |
| Search.DiscoverKeepsLinks | maze_solver.py:120-125 | Each newly discovered cell is an open neighbour of `curr`, linked to `curr` one level deeper. |
| Search.Expand | maze_solver.py:116-125 | The shared expansion step adds `curr` to the expanded cells and 1 to `explored`. `visited` gains every move of `curr`, the frontier gains the unvisited moves in order, and each of those gets `curr` as its parent. The marks and the bookkeeping invariant are kept. |
| Search.LinksRanked | maze_solver.py:93-95 | The parent links a search records are acyclic, so `get_path` terminates on them. |
| Search.LinkedPathIsRoute | maze_solver.py:89-96 | A path rebuilt from the recorded links is a route of open cells from the start to the end, and does not contain the start. |
| Search.CoveredNoRoute | maze_solver.py:126-127 | Suppose the expanded cells hold the start and every open neighbour of their members, but not the end. Then no route leads from the start to the end. |
| Search.ExploredBound | maze_solver.py:116 | BFS and DFS expand each cell at most once, so `explored` is at most the number of open cells plus one (the start). |
| Search.MarkedOnlyVisited | maze_solver.py:117-119 | Only expanded cells that are PATH or END in the base maze, and are neither the start nor the end, are marked. |
| Search.FoundOutcome | maze_solver.py:112-114 | When the end is popped, the returned path is a route from the start to the end with no repeats. If the start is the end, the path is empty and nothing was explored. |
| Search.ExhaustedOutcome | maze_solver.py:111-127 | When the frontier empties, no route from the start to the end exists. |
| Search.StartBooks | maze_solver.py:105-109 | The initial frontier `[start]`, visited set `{start}` and empty parent map meet the loop invariant. |
| Search.BfsSolve | maze_solver.py:98-127 | `bfs_solve` returns one of two results. The first is a non-empty path: a route from the start to the end over open cells, with no repeats. The second is an empty path, which means no route exists or the start is the end. The base maze is unchanged, and the returned copy is a different grid. The copy differs from the base exactly on the expanded cells other than the start and the end, which carry VSTD and were open. `explored` is the number of expanded cells, the end is never among them, and there are at most the open cells plus one. |
| Search.DfsSolve | maze_solver.py:129-158 | The same guarantees as BfsSolve, for `dfs_solve` with a LIFO stack. |
| AStar.Le | maze_solver.py:175 | The heap compares `(f, g, (row, col))` tuples: the order is reflexive, a smaller `f` comes first, among equal `f` a smaller `g` comes first, and among equal `f` and `g` the row and then the column decide. |
| AStar.LeTotalOrder | maze_solver.py:175 | The tuple order on `(f, g, (row, col))` is total, transitive and antisymmetric, so the least entry is unique. |
| AStar.Manhattan | maze_solver.py:170 | `h_func` is 0 exactly at the end cell, does not depend on the order of its two cells, and bounds each coordinate difference. |
| AStar.ManhattanConsistent | maze_solver.py:170 | One step changes `h_func` by at most one, so the heuristic is consistent. |
| AStar.PopMin | maze_solver.py:175 | `heappop` returns an entry no greater than any entry in the queue, and removes exactly that one entry. |
| AStar.Relax | maze_solver.py:184-189 | The relaxation loop's result is the move-by-move relaxation RelaxFrom of the old scores, links and queue. `Improve` is one improving update of `g_score`, `parent` and the queue (:187-189). |
| AStar.RelaxLowers | maze_solver.py:186-187 | Relaxation never removes a score and never raises one. |
| AStar.RelaxDomain | maze_solver.py:184-187 | After relaxation, the scored cells are the old scored cells plus the moves. |
| AStar.RelaxChangedScore | maze_solver.py:185-187 | Every score that changes belongs to a move and becomes `g_score[curr] + 1`. |
| AStar.RelaxMovesBound | maze_solver.py:184-187 | Afterwards every move is scored at most `g_score[curr] + 1`. |
| AStar.RelaxParentDomain | maze_solver.py:186-188 | The cells with a parent entry afterwards are the old ones plus the cells whose score changed. |
| AStar.RelaxParentLinks | maze_solver.py:188 | A cell whose score changed gets `curr` as its parent. Every other link stays as it was. |
| AStar.RelaxKeepsQueued | maze_solver.py:189 | Relaxation only adds queue entries. |
| AStar.RelaxNewEntries | maze_solver.py:189 | Every pushed entry has the form `(t + h(move), t, move)`, where `t = g_score[curr] + 1`. |
| AStar.RelaxChangedQueued | maze_solver.py:186-189 | Every cell whose score changed has its new entry `(t + h, t, cell)` in the queue. |
| AStar.RelaxSettled | maze_solver.py:186 | When every move already has a score of at most `g_score[curr] + 1`, relaxation changes nothing. |
| AStar.MovesUnmarked | maze_solver.py:180-184 | The moves of the marked copy are never expanded cells, apart from the start and the end. |
| AStar.StartABooks | maze_solver.py:170-172 | The initial queue `[(h(start), 0, start)]` and the scores `{start: 0}` meet the A* invariant. `StartEntry` is that first entry (:171). |
| AStar.ExpandedFrozen | maze_solver.py:184-189 | Expanded cells keep their scores: the start's score stays 0, and every other expanded cell is not a move. |
| AStar.ExpandKeepsKeys | maze_solver.py:179-189 | After an expansion, the start is still scored 0 and every expanded cell is scored. The end is still unexpanded. Exactly the scored cells other than the start have parent entries. |
| AStar.ExpandKeepsEntryScores | maze_solver.py:175-189 | Every queue entry is `(g + h, g, cell)`, where `g` is the cell's current score or a stale higher one. |
| AStar.ExpandKeepsOpenEntries | maze_solver.py:175-189 | Every scored cell that has not been expanded has its current entry in the queue. |
| AStar.LinksAfterExpand | maze_solver.py:186-188 | After relaxing `curr`, every link joins an open cell to an expanded neighbour whose score is one less. |
| AStar.ExpandKeepsLinks | maze_solver.py:186-188 | After an expansion, `g_score[move] == g_score[parent[move]] + 1` holds on every link, and parents are expanded neighbours. |
| AStar.ExpandKeepsSettles | maze_solver.py:184-189 | Every open neighbour of an expanded cell that has not been expanded itself is scored at most one more than that cell. |
| AStar.ExpandKeepsABooks | maze_solver.py:179-189 | One expansion keeps the whole A* loop invariant. |
| AStar.ReexpandChangesNothing | maze_solver.py:175-189 | A second pop of an expanded cell, from a stale entry, changes no score, link or entry. |
| AStar.ExpandShrinks | maze_solver.py:174-189 | Each pass either expands a new cell, or leaves the scores alone and shrinks the queue. This is the loop's termination measure. |
| AStar.AExpand | maze_solver.py:179-189 | The expansion step adds `curr` to the expanded cells and 1 to `explored`. The new scores, links and queue are the move-by-move relaxation RelaxFrom of the old ones over the moves of `curr`. The marks and the A* invariant are kept, and the termination measure decreases. |
| AStar.AFoundOutcome | maze_solver.py:176-177 | When the end is popped, the path is a route from the start to the end. It is empty exactly when the start is the end, and then nothing was explored. |
| AStar.AExhaustedOutcome | maze_solver.py:174-191 | When the queue empties, every scored cell has been expanded and no route from the start to the end exists. |
| AStar.AStarSolve | maze_solver.py:160-191 | The same outcome as BfsSolve: a non-empty path is a route from the start to the end over open cells, with no repeats, and an empty path means no route exists or the start is the end. The base maze is unchanged, and the returned copy is a different grid, marked VSTD exactly on the expanded cells other than the start and the end. The end is never expanded. |
| Generator.Put | maze_solver.py:40 | `grid[r][c] = v` changes that one cell and no other. |
| Generator.WalkBegins | maze_solver.py:40 | Opening the room that `walk` was called on starts the walk's invariant. |
| Generator.OpenBetween | maze_solver.py:44-46 | The cell between two rooms is not itself a room, and the jump's target is a room. Opening the cell between keeps the walk's frame and does not add walls. |
| Generator.WallsShrink | maze_solver.py:40 | Once `walk` has opened its room, there are strictly fewer walls than when it began. This is the recursion's termination measure. |
| Generator.WalkSkips | maze_solver.py:45 | A jump whose target is outside the interior, or already open, keeps the invariant. |
| Generator.WalkRecurses | maze_solver.py:46-47 | The recursive walk enters only rooms that were still walls, so after it the rooms entered are all distinct, and the tried jump's target is open. |
| Generator.PathsStay | maze_solver.py:46-47 | After the cell between is opened and the recursive walk runs, the cell between is PATH, and every cell that was PATH, or not a wall, stays so. |
| Generator.RecurseFrame | maze_solver.py:46-47 | The rooms entered by the walk and by its recursive walk are distinct, were walls, are PATH, and are all the rooms opened. The changed cells are of the allowed kind. |
| Generator.RecurseTries | maze_solver.py:43-47 | After the recursive walk, the rooms already finished stay finished, every jump tried so far lands on an open room, and the recursive walk's passages join the walk's own. |
| Generator.RecursePassages | maze_solver.py:46-47 | After the recursive walk, every cell opened since `walk(r, c)` began that is not a room is a passage of the grafted tree: one opened earlier by this walk, the cell just opened between `(r, c)` and the target, or one opened by the recursive walk. |
| Generator.TreeGraft | maze_solver.py:46-47 | The recursive walk's passages, renumbered, join the walk's passages through the jump just taken. Together they still link each entered room to an earlier one through an open cell. |
| Generator.WalkEnds | maze_solver.py:43-47 | Once every jump of the shuffled order has been tried, every interior room one jump away is open. |
| Generator.Walk | maze_solver.py:39-47 | `walk(r, c)` enters each room at most once, and only while it is a wall. It changes only cells with an odd coordinate, each to PATH, and each interior or `(r, c)` itself. Every room it opens is among those it enters. Each entered room after the first is reached by a jump from an earlier one, through an opened in-between cell, and every cell it opens that is not a room is one of those in-between cells. It returns with every entered room's neighbours opened. |
| Generator.Carve | maze_solver.py:43-47 | One pass of the jump loop keeps the walk's invariant, one jump further on. If the target is an interior wall, the cell between is opened and the target becomes the next entered room, linked to `(r, c)`. Otherwise nothing changes. `Jumps` is the `dirs` list (:41), `Jump` the target `r + dr` (:44), `Interior` the bounds test (:45) and `Between` the cell `r + dr//2` (:46). |
| Generator.Descend | maze_solver.py:45-47 | A jump to an interior wall room opens the cell between and walks on. The target becomes the next entered room, linked to `(r, c)`, and the walk's invariant holds one jump further on. |
| Generator.AllRoomsOpen | maze_solver.py:39-49 | If the start room is open and every open room has all its interior neighbour rooms open, then every interior room is open. |
| Generator.WalkCarves | maze_solver.py:37-49 | After `walk(1, 1)` on an all-wall grid, only WALL and PATH occur. The outer ring is wall (apart from (1, 1)), even-even cells are walls, and every interior room is entered exactly once and is open. |
| Generator.JumpSteps | maze_solver.py:44-46 | A jump of two cells crosses the cell `(r + dr//2, c + dc//2)` in two unit steps. |
| Generator.TreeChain | maze_solver.py:39-47 | Following the passages back from any entered room gives a chain of unit steps over open cells from the first room to it. |
| Generator.StripStart | maze_solver.py:39-47 | A chain of open cells to a different cell can be cut so that it never returns to its starting cell. |
| Generator.RoomChain | maze_solver.py:49 | After `walk(1, 1)`, every interior room other than (1, 1) is reached from (1, 1) by a chain of open cells. |
| Generator.RoomsReachable | maze_solver.py:49-52 | In the stamped maze, every interior room other than (1, 1) is reached from (1, 1) through cells that are not walls. |
| Generator.EndReachable | maze_solver.py:49-52 | With odd h and w, and an end that is not the start, the stamped maze has a route over PATH and END cells from the start to the end. |
| Generator.Connected | maze_solver.py:35-52 | In the generated maze every interior room is reachable from (1, 1), and the end is reachable from the start when h and w are odd. |
| Generator.StampedShape | maze_solver.py:50-51 | Stamping START and END onto the carved grid gives the maze shape. |
| Generator.Flanks | maze_solver.py:44-46 | The two rooms a jump joins flank its in-between cell, along a row or along a column. |
| Generator.PassagesDistinct | maze_solver.py:45-47 | Two different links open two different cells, because a cell between rooms determines the two rooms it joins and each link joins its room to an earlier one. |
| Generator.StampedPerfect | maze_solver.py:36-52 | The stamped maze is perfect: the open cells that are not rooms are exactly the passages of the tree (apart from END), and there is one distinct passage per room after the first. |
| Generator.CarvedRooms | maze_solver.py:45-49 | The rooms `walk(1, 1)` entered are (1, 1) first, each once, every interior room, and only rooms that are interior or (1, 1), the bounds test at :45. |
| Generator.StampedMaze | maze_solver.py:35-52 | Stamping START and END on the carved grid gives the maze shape, a perfect maze over the entered rooms, room reachability, and a route to the end for odd h and w. |
| Generator.GenerateMaze | maze_solver.py:35-52 | The grid is h-by-w. START is exactly at (1, 1), unless that cell is the end. END is exactly at (h-2, w-2). Every other cell is WALL or PATH. The border and even-even cells are walls, apart from the two stamps. Every interior room is open, and `walk` entered each room once, and only rooms that are interior or (1, 1). The passages form a spanning tree: each room after the first hangs on an earlier one, distinct links open distinct cells, and the open non-room cells (apart from END) are exactly the passages. Every interior room is reachable from (1, 1) through cells that are not walls. With odd h and w, and an end that is not the start, a route leads from the start to the end. |

## Left out

- `draw_maze`, the ANSI colour and glyph constants, and `time.sleep`: presentation only. `State` stands for the glyphs. The `draw_maze` call between the SCAN and VSTD marks is not modelled, so the SCAN mark shows up only as an intermediate write in `CloseCell`.
- `run_comparison` and the `__main__` entry point: timing, printing and the STEP marks drawn along the final path are presentation.
- `random.shuffle`: `GenerateMaze` takes an oracle `shuffle` that gives, for each cell, some reordering of the four jumps. One order per cell is enough because `walk` enters each cell at most once.
- `heapq` layout: the priority queue is a sequence, and `PopMin` removes a least entry in the same `(f, g, (row, col))` order. The binary-heap arrangement is not modelled. The order is total and antisymmetric (LeTotalOrder), so any two least entries are equal and the pop order is the same.
- Paths.GetPath: requires a ghost ranking of the parent links, so it is not modelled on cyclic parent maps, where the source loops forever. The solvers only produce ranked links.
- Shortest-path optimality of BFS and A*: not proved. The solvers are proved to return a valid route or to report correctly that none exists, not a shortest one.
- Generator.GenerateMaze: "no cycles" is not stated as a property of paths in the grid. It is stated through `Perfect`: each room after the first hangs on one earlier room, the open non-room cells are exactly those links' distinct passages, and so the rooms and passages form the walk's own tree. With an even h or w the END stamp can open a non-room cell outside that tree, which the source does too; `Perfect` leaves that one cell out.
- Generator.GenerateMaze: requires `2 <= w` and `2 <= h`. With a smaller size, `walk(1, 1)` or the END stamp indexes outside the grid and Python raises IndexError; that error path is not modelled.
- Search.BfsSolve: requires a grid with at least one row. With none, `len(maze[0])` raises IndexError; that error path is not modelled.
- Search.DfsSolve: requires a grid with at least one row, for the same `len(maze[0])` IndexError.
- AStar.AStarSolve: requires a grid with at least one row, for the same `len(maze[0])` IndexError.
- AStar.AStarSolve: states no bound on `explored`. A stale queue entry can re-expand a cell, and each re-expansion is counted. ReexpandChangesNothing shows that such a pass changes nothing else.
- Generator.Walk: the recursion's depth (Python's recursion limit) is not modelled.
