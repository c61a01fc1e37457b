# Maze_walker core in Dafny

This project models the engine of Maze_walker, a small maze solver and
generator, and proves properties of the model.

- **The maze** (`maze.py`) is a rectangular character grid. A `#` is a wall
  and any other character is passable.
  - The constructor caches the height and width.
  - It finds `S` and `E` by a row-major scan.
  - It answers whether a move stays in bounds and off the walls.
  - It lists the passable orthogonal neighbours of a cell in a fixed order.
- **The solvers** (`algorithms.py`) are breadth-first search, depth-first
  search and A*. All three share one skeleton:
  - a frontier;
  - a parent map;
  - a `nodes_explored` counter that goes up on every pop;
  - path reconstruction along the parent links.
- **The generators** (`generators.py`) are the recursive backtracker and
  randomised Prim's. Both carve a `rows x cols` maze into a
  `(2 rows + 1) x (2 cols + 1)` grid of walls, then set `S` and `E`.

The Dafny modules follow that structure:

| module | contents |
|---|---|
| `Wrappers` | `Option` |
| `Sequences` | helpers on sequences and sets |
| `Grid` | `maze.py` |
| `Search` | walks, reachability, and the solver skeleton the three loops share |
| `Bfs`, `Dfs`, `AStar` | the three solvers |
| `Carving` | the cells, the character grid and the shape of a generated maze, which both generators share |
| `Backtracker`, `Prim` | the two generators |
| `Spanning` | the tree of joins both generators build, and the proof that a generated maze is connected |

Modelling choices:

- A position is `Pos(x, y)`, and the cell it names is `grid[y][x]`.
- A parent link is `Option<Pos>`, where `None` marks the root. This replaces
  the source's loop `while current:`, which stops at the `None` parent.
- Each solver returns the path, or `None`, together with `nodes_explored`.
- Each generator returns the grid as rows of characters.
- Random choices are parameters, and every property holds for every choice:
  - the start cell is given as `startR`, `startC`, with the range that
    `randrange` guarantees;
  - the `k`-th pick (from `random.choice` or from the popped frontier
    index) is `choices[k]` modulo the number of candidates, or 0 once
    `choices` runs out.

Proved properties:

- **Solvers.** Each solver returns a valid path from `S` to `E`:
  - it starts at `S` and ends at `E`;
  - each step moves to an adjacent passable cell;
  - no cell repeats.

  Each returns `None` exactly when `E` is unreachable. When `S == E`, each
  returns `[S]` after one pop.
- **BFS and A\*** return a path no longer than any walk from `S` to `E`, so
  both return paths of the same length.
- **BFS and DFS.** When no path exists, they pop as many cells as `S`'s
  component holds.
- **A\*** can re-pop stale heap entries, so when no path exists its count is
  only bounded below by the number of reachable cells.
- **Generators.** Both generators produce the shape of a generated maze
  (`Carving.WellCarved`):
  - the grid has the right dimensions;
  - `S` and `E` are in the corner centres;
  - every other centre is open;
  - the border and the posts stay walls;
  - exactly `rows * cols - 1` mid-walls are open.

  The grid is also connected (`Spanning.Connected`). A connected graph on
  `rows * cols` cells with `rows * cols - 1` open joins is a spanning tree,
  so every solver finds a path in a generated maze of more than one cell.

Four facts about the code that are easy to get wrong:

- **A\* ties.** The heap holds `(f, (x, y))` tuples, so ties in `f` are
  broken by position. `AStar.PopMin` pops the least entry in that tuple
  order.
- **A\* on an unreachable goal.** Stale heap entries are popped and counted
  again, so only a lower bound on `nodes_explored` holds (`AStar.Solve`).
- **Prim's status check.** The check at `generators.py:109` can never fail:
  each frontier cell is the target of exactly one frontier entry.
  `Prim.Grow` proves the check passes, and the model's other branch is
  unreachable.
- **Neighbour order.** The comment at `maze.py:26` reads "right, down, left,
  up". The first offset is `(0, 1)`, which is one row down under
  `grid[y][x]`. The order modelled is `(x, y+1), (x+1, y), (x, y-1),
  (x-1, y)`.

## Model

| member | source | states |
|---|---|---|
| Grid.NewMaze | maze.py:2-7 | height is the number of rows; width is the first row's length, or 0 for an empty grid; start and end are the row-major first `S` and `E`, and a found marker is a passable cell |
| Grid.FindInRow | maze.py:12-14 | the inner loop over columns finds the first matching column in the row, and `None` means no column from `x` on matches |
| Grid.FindFrom | maze.py:11-15 | the scan from row `y` returns a matching cell with no match before it in row-major order, or `None` when no row from `y` on holds the character |
| Grid.FindPoint | maze.py:9-15 | `_find_point` returns the first cell holding the character in row-major order, as `(x, y)`, or `None` exactly when no cell holds it |
| Grid.IsValidMove | maze.py:17-21 | true exactly when `(x, y)` is inside the grid and not `#` |
| Grid.MarkersPassable | maze.py:6-7 | a found `S` or `E` satisfies the move check |
| Grid.NeighborsFrom | maze.py:26-29 | the neighbours from offset `k` on: passable, in offset order, and every passable one is listed |
| Grid.Neighbors | maze.py:23-30 | at most 4 entries with no repeats, each at Manhattan distance 1 and passable; a cell is listed exactly when it is one passable step away; listed in offset order |
| Grid.OffsetHasDirection | maze.py:26 | the `k`-th offset is the `k`-th neighbour position, and only it |
| Search.ReconstructPath | algorithms.py:37-41 | following parent links from the goal yields a walk from the root to the goal with no repeated cell, no longer than the goal's rank |
| Search.PrependLink | algorithms.py:38-40 | putting a cell's parent in front of the path built so far keeps it a walk with no repeats and increasing ranks |
| Search.Discover | algorithms.py:48-51 | the undiscovered neighbours are appended to the frontier in neighbour order and get `current` as parent; a known cell keeps its parent |
| Search.ExpandTree | algorithms.py:47-51 | after an expansion, every discovered cell is reachable and its parent is one step before it, and every step out of `current` reaches a discovered cell |
| Search.ExpandFrontier | algorithms.py:31-33 | one pop plus the new entries keep the count of popped plus queued cells equal to the number of discovered cells, with no repeated frontier entry |
| Search.ExpandShrinks | algorithms.py:31-51 | each round discovers a cell or shrinks the frontier, so the loop ends |
| Search.ClosedIsComponent | algorithms.py:53-54 | a set closed under steps, holding the start and reachable from it, is exactly the start's component |
| Search.Exhausted | algorithms.py:53-54 | with the frontier empty, the goal is unreachable and `nodes_explored` equals the number of reachable cells |
| Search.ReachableReverse | maze.py:17-29 | a walk can be run backwards, because a step between passable cells goes both ways |
| Search.ReachableTrans | maze.py:23-30 | two walks that meet make one walk |
| Bfs.WalkPrefixBound | algorithms.py:28-51 | along any walk from the start, each cell is discovered within its walk index, unless the queue head is already that close |
| Bfs.HeadIsNearest | algorithms.py:35-44 | when the goal heads the queue, its distance is at most the length of any walk to it |
| Bfs.ExpandedLayers | algorithms.py:46-51 | after expanding the head, the queue holds distances `d` then `d + 1` in order |
| Bfs.ExpandKeepsLayers | algorithms.py:46-51 | expanding the head keeps the queue sorted by distance, and every discovered cell is queued or has all its neighbours discovered |
| Bfs.ExpandHead | algorithms.py:31-51 | one round pops and counts the head and discovers all its neighbours, keeping the loop invariant |
| Bfs.Solve | algorithms.py:22-54 | a returned path is a repeat-free walk from `S` to `E` no longer than any walk; `None` exactly when `E` is unreachable, with `nodes_explored` equal to the number of reachable cells; `S == E` gives `[S]` after 1 pop |
| Dfs.ExpandTop | algorithms.py:65-85 | one round pops and counts the top of the stack and discovers all its neighbours, keeping the loop invariant |
| Dfs.Solve | algorithms.py:56-88 | a returned path is a repeat-free walk from `S` to `E`; `None` exactly when `E` is unreachable, with `nodes_explored` equal to the number of reachable cells; `S == E` gives `[S]` after 1 pop |
| AStar.Heuristic | algorithms.py:91-93 | zero exactly at the goal, and at least each coordinate's distance |
| AStar.HeuristicConsistent | algorithms.py:91-93 | between adjacent cells the heuristic changes by at most 1 |
| AStar.HeuristicAdmissible | algorithms.py:91-93 | the heuristic never exceeds the number of moves left on any walk to the goal |
| AStar.PopMin | algorithms.py:109 | `heappop` returns the unique least entry in `(f, x, y)` order and leaves the remaining entries |
| AStar.LowerCap | algorithms.py:129-131 | lowering a score shrinks the measure of possible scores, so rescoring cannot go on forever |
| AStar.RelaxStep | algorithms.py:127-134 | one neighbour: a new cell, or a cheaper path to a known one, sets score `g[current] + 1`, parent `current` and a heap entry `(g + h, next)`; otherwise nothing changes |
| AStar.Relax | algorithms.py:123-134 | after all neighbours, scores only decrease; each rescored cell is a neighbour scored `g[current] + 1` with parent `current` and has its heap entry; old entries stay |
| AStar.ExpandCovers | algorithms.py:123-134 | after an expansion, every scored cell is fully relaxed or has a pending entry no worse than its score |
| AStar.ExpandCount | algorithms.py:109-110 | every pop is counted, and every scored cell has been popped or still has an entry |
| AStar.GoalIsNearest | algorithms.py:112-121 | when the goal's entry is the least, its score is at most the length of any walk to it |
| AStar.ExpandMin | algorithms.py:108-134 | one round pops and counts the least entry and relaxes its neighbours, keeping the loop invariant; scores drop or the heap shrinks |
| AStar.Exhausted | algorithms.py:136-137 | with the heap empty, the goal is unreachable and at least the reachable cells were popped |
| AStar.Solve | algorithms.py:95-137 | a returned path is a repeat-free walk from `S` to `E` no longer than any walk; `None` exactly when `E` is unreachable; `S == E` gives `[S]` after 1 pop |
| Sequences.RemoveAt | generators.py:106 | `list.pop(i)`: the entries before `i` stay and those after move down by one, so the result is the input less one copy of `s[i]` |
| Sequences.WithoutMembers | algorithms.py:48-51 | the neighbours kept by the "not in visited" filter are exactly those not yet visited |
| Carving.AllWalls | generators.py:13-15 | `2 rows + 1` rows of `2 cols + 1` characters, all `#` |
| Carving.Put | generators.py:35 | one assignment: that cell holds the character, and no other cell or row length changes |
| Carving.ToGridCoords | generators.py:26-27 | a cell's centre is odd in both coordinates, and halving it back gives the cell |
| Carving.NeighbourAdjacent | generators.py:48-49 | each of the four offsets leads to an adjacent cell |
| Carving.WallBetweenIsMidWall | generators.py:39-41 | the grid cell between two in-range adjacent cells is a mid-wall and not a centre |
| Carving.SidesOfWallBetween | generators.py:39-41 | the two cells a mid-wall separates are the two cells it was carved between |
| Carving.CarveMidWall | generators.py:38-41 | opening a closed mid-wall between two joined cells opens exactly one more mid-wall and keeps the carving invariant |
| Carving.ClosedIsAll | generators.py:43-65 | a set of cells holding a cell and every in-range neighbour of its members is all the cells |
| Carving.PlaceMarkers | generators.py:67-69 | `E` at the last centre, `S` at the first unless the maze is one cell, where `E` overwrites it; nothing else changes |
| Carving.MarkersMakeWellCarved | generators.py:67-69 | a fully carved grid with its markers set has the shape of a generated maze |
| Carving.Pick | generators.py:55 | every random draw (`random.choice`, `random.randrange(len(frontier))`, here also line 106) is an index below the number of options |
| Backtracker.FreshDirections | generators.py:47-51 | the directions whose neighbour is in range and unvisited, each listed once, in offset order |
| Backtracker.FreshDirectionsComplete | generators.py:48-51 | every in-range unvisited neighbour's direction is listed |
| Backtracker.Unvisited | generators.py:47-51 | one `(nr, nc, dr, dc)` candidate per fresh direction, in offset order; empty exactly when every in-range neighbour is visited |
| Backtracker.Picked | generators.py:55 | the chosen candidate is the in-range unvisited neighbour in some direction |
| Backtracker.HalfwayIsWallBetween | generators.py:39-40 | the halfway point of two adjacent centres is their mid-wall, and is neither centre |
| Backtracker.CarvePath | generators.py:29-41 | `carve_path` keeps the grid's shape and leaves both centres and the cell halfway between them open; `CarvePathSteps` gives the order of the writes and `CarvePathWider` shows nothing else is closed |
| Backtracker.CentresMissWall | generators.py:35-41 | opening the two centres leaves the mid-wall between them as it was |
| Backtracker.CarvePathSteps | generators.py:29-41 | `carve_path` opens the first centre, then the second, then the mid-wall, and the mid-wall is untouched until its own step |
| Backtracker.CarvePathCarves | generators.py:29-41 | carving to a neighbour opens both centres and exactly one more mid-wall, keeping the carving invariant |
| Backtracker.CarvePathWider | generators.py:29-41 | `carve_path` only opens cells, and it opens the wall between the two cells |
| Backtracker.CarvePathLinks | generators.py:58-61 | carving to a fresh neighbour and marking it visited joins it to the tree of visited cells |
| Backtracker.PushTracks | generators.py:61-62 | pushing a fresh cell keeps the start visited and the stack within the visited cells; a visited cell off the stack has no unvisited neighbour |
| Backtracker.PopTracks | generators.py:63-65 | popping a cell without unvisited neighbours keeps the same bookkeeping |
| Backtracker.PushCarves | generators.py:57-62 | moving to a fresh neighbour opens one more mid-wall, so open mid-walls stay one fewer than visited cells |
| Backtracker.Push | generators.py:53-62 | a fresh adjacent cell is visited and pushed, exactly one mid-wall is opened, and the loop invariant holds |
| Backtracker.Advance | generators.py:43-65 | each round either pushes a fresh adjacent cell, opening exactly one mid-wall, or pops a cell with no unvisited neighbour and changes nothing else; visited cells only grow; the measure decreases |
| Backtracker.AllVisited | generators.py:43-69 | when the stack empties every cell is visited, and the marked grid has the generated-maze shape |
| Backtracker.Generate | generators.py:11-72 | the result has the generated-maze shape and is connected |
| Prim.Rank | generators.py:82 | status 0, 1, 2 in order; only `Unvisited` is 0 and only `InMaze` is 2 |
| Prim.SetAt | generators.py:93 | one status assignment changes that cell only |
| Prim.AllUnvisited | generators.py:83 | the status grid has `rows` rows of `cols` entries, every cell unvisited |
| Prim.EntryAt | generators.py:121 | the entry `(r2, c2, dr, dc)` leads from the cell to its neighbour in that direction |
| Prim.MidWall | generators.py:113 | the mid-wall written at line 113 is the midpoint of the two cells' centres, as `carve_path` computes it in the first generator |
| Prim.DirectionOf | generators.py:106-113 | an entry's offset is one of the four, its target is that neighbour, and its mid-wall (line 113) is the wall between them |
| Prim.AddFrom | generators.py:117-122 | adds one entry for each in-range unvisited neighbour, in offset order, and marks it frontier; no other status changes |
| Prim.SeedFrom | generators.py:96-101 | the seeding loop, which has no status check |
| Prim.SeedMatchesAdd | generators.py:96-101 | when every neighbour is unvisited, the unchecked seeding loop gives exactly what the checked loop at lines 117-122 gives |
| Prim.SeedMatches | generators.py:91-101 | after seeding, only the start is in the maze, the frontier matches the statuses, and no unvisited cell touches the maze |
| Prim.Seed | generators.py:78-101 | the start is the one in-maze cell, its centre is open, and the loop invariant holds |
| Prim.PopCovers | generators.py:106-115 | after popping the entry and absorbing its target, every remaining frontier cell is still the target of an entry |
| Prim.AddMatches | generators.py:117-122 | after adding the walls of the new cell, every entry again leads from an in-maze cell to a frontier cell, and no two lead to the same cell |
| Prim.AddEncloses | generators.py:115-122 | after absorbing a cell and adding its walls, no unvisited cell is adjacent to an in-maze cell |
| Prim.AddJoins | generators.py:115-122 | the in-maze set grows by exactly the absorbed cell, and no status ever goes down |
| Prim.JoinCarves | generators.py:112-113 | opening the new centre and its mid-wall keeps the carving invariant with one more mid-wall and one more in-maze cell |
| Prim.JoinLinks | generators.py:112-115 | the absorbed cell joins the tree with the entry's origin as parent |
| Prim.GrowKeeps | generators.py:104-122 | one absorbing round keeps the loop invariant, keeps statuses monotone, keeps the rest of the frontier in order, and opens one mid-wall |
| Prim.Join | generators.py:109-122 | the carve-and-add branch: one more in-maze cell, one more open mid-wall, statuses monotone, the loop invariant kept |
| Prim.Grow | generators.py:104-122 | the popped entry always leads to a frontier cell, so the check at line 109 always passes; the round absorbs that cell and keeps the invariant |
| Prim.AllInMaze | generators.py:104-126 | with the frontier empty every cell has status 2, and the marked grid has the generated-maze shape |
| Prim.Generate | generators.py:76-129 | the result has the generated-maze shape and is connected |
| Spanning.LinkedGrow | generators.py:58-61 | joining a fresh cell to a tree member through their open mid-wall grows the tree by one node |
| Spanning.LinkedWider | generators.py:35-41 | carving only opens cells, so every join stays open |
| Spanning.MarkersKeepLinks | generators.py:67-69 | setting `S` and `E` keeps every join open |
| Spanning.ReachCentre | generators.py:29-41 | along the joins, the centre of every tree member is reachable from the root's centre |
| Spanning.NearCentre | generators.py:26-27 | a passable cell of a generated grid is a centre or next to one |
| Spanning.TreeConnects | generators.py:43-72 | a generated-maze grid whose joins span all cells is connected: any passable cell reaches any other |
| Spanning.Solvable | generators.py:67-72 | read as a maze, a generated grid has `E` at the last centre, and `S` at the first unless it is one cell, in which case it has no `S`; when it has an `S`, `E` is reachable from it |

## Left out

- `app.py` is not part of this model. It holds the web routes and request
  parsing. It also halves the requested dimensions (`// 2`) and pads short
  lines with `ljust`. The model takes a parsed grid and cell counts directly.
- Timing and `time_ms`: these use a wall clock and floating point.
- `setup.py`: packaging only.
- The `random` module: the draws become parameters, as described above. Their
  distribution is not modelled.
- A missing `S` or `E`, and ragged rows. The solvers require a rectangular
  grid with both markers present, and the source does not handle the missing
  cases. A single-cell generated maze has no `S`, so it falls outside the
  solvers' preconditions.
- A*'s `f_score` dictionary: the source only writes it and never reads it.
- The heap's array layout: the priority queue is a sequence, and a pop takes
  its least `(f, x, y)` entry. `heapq` returns that same entry.
- A*'s initial entry is `(0, start)`, as in the source, not
  `(h(start), start)`.
- Path reconstruction builds the path by prepending, which gives the same
  sequence as appending followed by `reverse()`.
- Rows stay sequences of characters. The final `"".join(row)` of each
  generator is not modelled.
- AStar.Solve: when no path exists it proves only a lower bound on
  `nodes_explored` (the number of reachable cells). Stale heap entries are
  popped and counted again, so no exact count holds.
- AStar.Solve: it does not state that the returned path has
  `g_score[goal] + 1` cells. Its contract states that the path is no longer
  than any walk, so it has the same length as the BFS path.
- Backtracker.Generate and Prim.Generate: neither states acyclicity by
  itself. It follows from being connected with `rows * cols - 1` open joins
  between `rows * cols` cells.
