/** The maze as a read-only view over a rectangular character grid
    (maze.py): dimensions, the `S`/`E` markers, passability and the
    orthogonal neighbours of a cell. */
module Grid {
  import opened Wrappers
  import opened Sequences

  /** Rows of cells, top row first. */
  type Grid = seq<seq<char>>

  /** A cell address: column `x` and row `y`, so the cell is `grid[y][x]`. */
  datatype Pos = Pos(x: int, y: int)

  const Wall: char := '#'

  /** The unit offsets in the order the source tries them. For the maze they
      are read as (dx, dy), for the generators as (dr, dc). */
  const Directions: seq<(int, int)> := [(0, 1), (1, 0), (0, -1), (-1, 0)]

  function Abs(n: int): nat {
    if n < 0 then -n else n
  }

  predicate Rectangular(grid: Grid) {
    forall y :: 0 <= y < |grid| ==> |grid[y]| == |grid[0]|
  }

  /** The width the source computes: the length of the first row, 0 without rows. */
  function Width(grid: Grid): nat {
    if |grid| > 0 then |grid[0]| else 0
  }

  /** `grid[y][x]` exists. */
  predicate InGrid(grid: Grid, x: int, y: int) {
    0 <= y < |grid| && 0 <= x < |grid[y]|
  }

  /** The maze object after construction: the grid plus the fields the
      constructor caches. */
  datatype Maze = Maze(grid: Grid, height: nat, width: nat, start: Option<Pos>, end: Option<Pos>)

  /** The cached dimensions agree with a rectangular grid. */
  predicate WellFormed(m: Maze) {
    Rectangular(m.grid) && m.height == |m.grid| && m.width == Width(m.grid)
  }

  /** Row-major scan of row `y` from column `x` up to (not including) `width`. */
  function FindInRow(row: seq<char>, c: char, x: nat, width: nat): (r: Option<nat>)
    requires x <= width <= |row|
    ensures r.Some? ==> x <= r.value < width && row[r.value] == c
    ensures r.Some? ==> forall k :: x <= k < r.value ==> row[k] != c
    ensures r.None? ==> forall k :: x <= k < width ==> row[k] != c
    decreases width - x
  {
    if x == width then None
    else if row[x] == c then Some(x)
    else FindInRow(row, c, x + 1, width)
  }

  /** Row-major scan of rows `y`, `y + 1`, ... */
  function FindFrom(grid: Grid, c: char, y: nat): (r: Option<Pos>)
    requires Rectangular(grid)
    requires y <= |grid|
    ensures r.Some? ==> y <= r.value.y < |grid| && InGrid(grid, r.value.x, r.value.y)
    ensures r.Some? ==> grid[r.value.y][r.value.x] == c
    ensures r.Some? ==> forall j, i :: y <= j < |grid| && 0 <= i < |grid[j]| && (j < r.value.y || (j == r.value.y && i < r.value.x)) ==> grid[j][i] != c
    ensures r.None? ==> forall j, i :: y <= j < |grid| && 0 <= i < |grid[j]| ==> grid[j][i] != c
    decreases |grid| - y
  {
    if y == |grid| then None
    else
      match FindInRow(grid[y], c, 0, Width(grid))
      case Some(x) => Some(Pos(x, y))
      case None => FindFrom(grid, c, y + 1)
  }

  /** The first cell holding `c` in row-major order (the outer loop runs over
      rows, the inner over columns), as `(x, y)`; `None` when `c` is absent. */
  function FindPoint(grid: Grid, c: char): (r: Option<Pos>)
    requires Rectangular(grid)
    ensures r.Some? ==> InGrid(grid, r.value.x, r.value.y) && grid[r.value.y][r.value.x] == c
    ensures r.Some? ==> forall j, i :: 0 <= j < |grid| && 0 <= i < |grid[j]| && (j < r.value.y || (j == r.value.y && i < r.value.x)) ==> grid[j][i] != c
    ensures r.None? ==> forall j, i :: 0 <= j < |grid| && 0 <= i < |grid[j]| ==> grid[j][i] != c
  {
    FindFrom(grid, c, 0)
  }

  /** A maze as the constructor builds it from its grid. */
  ghost predicate Valid(m: Maze) {
    WellFormed(m) && m.start == FindPoint(m.grid, 'S') && m.end == FindPoint(m.grid, 'E')
  }

  /** Bounds check plus "not a wall". */
  predicate IsValidMove(m: Maze, x: int, y: int)
    requires WellFormed(m)
    ensures IsValidMove(m, x, y) <==> InGrid(m.grid, x, y) && m.grid[y][x] != Wall
  {
    0 <= x < m.width && 0 <= y < m.height && m.grid[y][x] != Wall
  }

  /** The constructor: height is the number of rows, width the length of the
      first row, and the markers are located by the row-major scan. */
  function NewMaze(grid: Grid): (m: Maze)
    requires Rectangular(grid)
    ensures Valid(m) && m.grid == grid
    ensures m.height == |grid| && forall y :: 0 <= y < |grid| ==> |grid[y]| == m.width
    ensures |grid| == 0 ==> m.width == 0
    ensures m.start.Some? ==> grid[m.start.value.y][m.start.value.x] == 'S' && IsValidMove(m, m.start.value.x, m.start.value.y)
    ensures m.end.Some? ==> grid[m.end.value.y][m.end.value.x] == 'E' && IsValidMove(m, m.end.value.x, m.end.value.y)
  {
    var height := |grid|;
    var width := if height > 0 then |grid[0]| else 0;
    Maze(grid, height, width, FindPoint(grid, 'S'), FindPoint(grid, 'E'))
  }

  /** A valid maze's markers are passable cells. */
  lemma MarkersPassable(m: Maze)
    requires Valid(m)
    ensures m.start.Some? ==> IsValidMove(m, m.start.value.x, m.start.value.y)
    ensures m.end.Some? ==> IsValidMove(m, m.end.value.x, m.end.value.y)
  {
  }

  /** `a` and `b` are one orthogonal unit step apart. */
  predicate Adjacent(a: Pos, b: Pos) {
    Abs(a.x - b.x) + Abs(a.y - b.y) == 1
  }

  /** One move of a solver: to an adjacent passable cell. */
  predicate Step(m: Maze, a: Pos, b: Pos)
    requires WellFormed(m)
  {
    Adjacent(a, b) && IsValidMove(m, b.x, b.y)
  }

  /** Every cell of the grid. */
  function Cells(m: Maze): set<Pos> {
    set x, y | 0 <= x < m.width && 0 <= y < m.height :: Pos(x, y)
  }

  lemma StepStaysInCells(m: Maze, a: Pos, b: Pos)
    requires WellFormed(m) && Step(m, a, b)
    ensures b in Cells(m)
  {
  }

  /** `p` moved by the `k`-th direction. */
  function Offset(p: Pos, k: nat): Pos
    requires k < |Directions|
  {
    Pos(p.x + Directions[k].0, p.y + Directions[k].1)
  }

  /** Which of the four orthogonal neighbours of `p` the cell `q` is, in the
      order (x, y+1), (x+1, y), (x, y-1), (x-1, y); 4 when it is none of them. */
  function DirectionIndex(p: Pos, q: Pos): nat {
    if q == Pos(p.x, p.y + 1) then 0
    else if q == Pos(p.x + 1, p.y) then 1
    else if q == Pos(p.x, p.y - 1) then 2
    else if q == Pos(p.x - 1, p.y) then 3
    else 4
  }

  lemma OffsetHasDirection(p: Pos, k: nat)
    requires k < |Directions|
    ensures DirectionIndex(p, Offset(p, k)) == k
    ensures forall q :: DirectionIndex(p, q) == k ==> q == Offset(p, k)
  {
    if k == 0 {} else if k == 1 {} else if k == 2 {} else {}
  }

  lemma AdjacentHasDirection(p: Pos, q: Pos)
    ensures Adjacent(p, q) <==> DirectionIndex(p, q) < 4
  {
  }

  function NeighborsFrom(m: Maze, p: Pos, k: nat): (r: seq<Pos>)
    requires WellFormed(m)
    requires k <= |Directions|
    ensures |r| <= |Directions| - k
    ensures forall i :: 0 <= i < |r| ==> k <= DirectionIndex(p, r[i]) < 4 && IsValidMove(m, r[i].x, r[i].y)
    ensures forall d :: k <= d < |Directions| && IsValidMove(m, Offset(p, d).x, Offset(p, d).y) ==> Offset(p, d) in r
    ensures forall i, j :: 0 <= i < j < |r| ==> DirectionIndex(p, r[i]) < DirectionIndex(p, r[j])
    decreases |Directions| - k
  {
    if k == |Directions| then []
    else
      var q := Offset(p, k);
      OffsetHasDirection(p, k);
      var rest := NeighborsFrom(m, p, k + 1);
      if IsValidMove(m, q.x, q.y) then [q] + rest else rest
  }

  /** The passable orthogonal neighbours of `(x, y)`, tried in the fixed order
      (x, y+1), (x+1, y), (x, y-1), (x-1, y). */
  function Neighbors(m: Maze, x: int, y: int): (r: seq<Pos>)
    requires WellFormed(m)
    ensures |r| <= 4 && Distinct(r)
    ensures forall i :: 0 <= i < |r| ==> Abs(r[i].x - x) + Abs(r[i].y - y) == 1 && IsValidMove(m, r[i].x, r[i].y)
    ensures forall q :: Step(m, Pos(x, y), q) <==> q in r
    ensures forall i, j :: 0 <= i < j < |r| ==> DirectionIndex(Pos(x, y), r[i]) < DirectionIndex(Pos(x, y), r[j])
  {
    var r := NeighborsFrom(m, Pos(x, y), 0);
    forall q
      ensures Step(m, Pos(x, y), q) <==> q in r
    {
      AdjacentHasDirection(Pos(x, y), q);
      var d := DirectionIndex(Pos(x, y), q);
      if d < 4 {
        OffsetHasDirection(Pos(x, y), d);
      }
    }
    forall i | 0 <= i < |r|
      ensures Abs(r[i].x - x) + Abs(r[i].y - y) == 1
    {
      AdjacentHasDirection(Pos(x, y), r[i]);
    }
    r
  }
}
