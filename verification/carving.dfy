/** What the two maze generators of generators.py share: the logical cells,
    the `(2 * rows + 1) x (2 * cols + 1)` character grid they are carved into,
    and the shape every generated maze has. Logical cell `(r, c)` has its
    centre at grid row `2 * r + 1`, column `2 * c + 1`; the grid cell between
    two adjacent centres is their mid-wall; the border and the cells with
    both coordinates even (the posts) are never carved. */
module Carving {
  import opened Grid

  /** A logical cell: row `r`, column `c`. */
  datatype Cell = Cell(r: int, c: int)

  predicate InRange(rows: nat, cols: nat, cell: Cell) {
    0 <= cell.r < rows && 0 <= cell.c < cols
  }

  ghost function AllCells(rows: nat, cols: nat): set<Cell> {
    set r, c | 0 <= r < rows && 0 <= c < cols :: Cell(r, c)
  }

  lemma AllCellsInRange(rows: nat, cols: nat, cell: Cell)
    requires cell in AllCells(rows, cols)
    ensures InRange(rows, cols, cell)
  {
  }

  ghost function RowCells(r: int, cols: nat): set<Cell> {
    set c | 0 <= c < cols :: Cell(r, c)
  }

  lemma {:induction false} RowCellsSize(r: int, cols: nat)
    ensures |RowCells(r, cols)| == cols
  {
    if cols > 0 {
      RowCellsSize(r, cols - 1);
      assert RowCells(r, cols) == RowCells(r, cols - 1) + {Cell(r, cols - 1)};
    }
  }

  /** There are `rows * cols` logical cells. */
  lemma {:induction false} AllCellsSize(rows: nat, cols: nat)
    ensures |AllCells(rows, cols)| == rows * cols
  {
    if rows > 0 {
      AllCellsSize(rows - 1, cols);
      RowCellsSize(rows - 1, cols);
      var prev, row := AllCells(rows - 1, cols), RowCells(rows - 1, cols);
      forall x | x in AllCells(rows, cols)
        ensures x in prev + row
      {
        if x.r < rows - 1 {
          assert x in prev;
        } else {
          assert x in row;
        }
      }
      assert AllCells(rows, cols) == prev + row;
      assert prev !! row;
      assert (rows - 1) * cols + cols == rows * cols;
    }
  }

  /** The cell one step from `cell` in direction `d`, read as `(dr, dc)`. */
  function Neighbour(cell: Cell, d: nat): Cell
    requires d < |Directions|
  {
    Cell(cell.r + Directions[d].0, cell.c + Directions[d].1)
  }

  /** Two cells one row or one column apart. */
  predicate CellsAdjacent(a: Cell, b: Cell) {
    Abs(a.r - b.r) + Abs(a.c - b.c) == 1
  }

  lemma NeighbourAdjacent(cell: Cell, d: nat)
    requires d < |Directions|
    ensures CellsAdjacent(cell, Neighbour(cell, d)) && CellsAdjacent(Neighbour(cell, d), cell)
  {
    if d == 0 {} else if d == 1 {} else if d == 2 {} else {}
  }

  /** `to_grid_coords`: the grid row and column of a cell's centre. The
      centre is odd in both coordinates and halving it back gives the cell. */
  function ToGridCoords(cell: Cell): (p: (int, int))
    ensures IsCentre(p.0, p.1)
    ensures Cell((p.0 - 1) / 2, (p.1 - 1) / 2) == cell
  {
    (2 * cell.r + 1, 2 * cell.c + 1)
  }

  predicate IsCentre(i: int, j: int) {
    i % 2 == 1 && j % 2 == 1
  }

  lemma CentreIsCentre(cell: Cell)
    ensures IsCentre(2 * cell.r + 1, 2 * cell.c + 1)
  {
  }

  /** Grid cell `(i, j)` lies between two horizontally or vertically adjacent
      centres of the `rows x cols` maze. */
  predicate IsMidWall(rows: nat, cols: nat, i: int, j: int) {
    0 < i < 2 * rows && 0 < j < 2 * cols && (i % 2 == 0) != (j % 2 == 0)
  }

  /** The mid-wall between `cell` and its neighbour in direction `d`, as Prim's
      generator computes it: the centre moved by `(dr, dc)`. */
  function WallBetween(cell: Cell, d: nat): (int, int)
    requires d < |Directions|
  {
    (2 * cell.r + 1 + Directions[d].0, 2 * cell.c + 1 + Directions[d].1)
  }

  lemma WallBetweenIsMidWall(rows: nat, cols: nat, cell: Cell, d: nat)
    requires d < |Directions| && InRange(rows, cols, cell) && InRange(rows, cols, Neighbour(cell, d))
    ensures IsMidWall(rows, cols, WallBetween(cell, d).0, WallBetween(cell, d).1)
    ensures !IsCentre(WallBetween(cell, d).0, WallBetween(cell, d).1)
  {
  }

  /** The initial all-wall grid. */
  function AllWalls(rows: nat, cols: nat): (g: Grid)
    ensures |g| == 2 * rows + 1 && forall i :: 0 <= i < |g| ==> |g[i]| == 2 * cols + 1
    ensures forall i, j :: 0 <= i < |g| && 0 <= j < |g[i]| ==> g[i][j] == Wall
  {
    seq(2 * rows + 1, _ => seq(2 * cols + 1, _ => Wall))
  }

  /** `grid[i][j] = ch`. */
  function Put(grid: Grid, i: int, j: int, ch: char): (g: Grid)
    requires 0 <= i < |grid| && 0 <= j < |grid[i]|
    ensures |g| == |grid| && forall k :: 0 <= k < |g| ==> |g[k]| == |grid[k]|
    ensures g[i][j] == ch
    ensures forall k, l :: 0 <= k < |g| && 0 <= l < |g[k]| && (k != i || l != j) ==> g[k][l] == grid[k][l]
  {
    grid[i := grid[i][j := ch]]
  }

  /** The carved grid cells that are not centres (in a carved maze, exactly
      its open mid-walls). */
  ghost function OpenMidWalls(grid: Grid): set<(int, int)> {
    set i, j | 0 <= i < |grid| && 0 <= j < |grid[i]| && grid[i][j] != Wall && (i % 2 == 0) != (j % 2 == 0) :: (i, j)
  }

  /** Writing a centre leaves the open mid-walls alone. */
  lemma PutCentreKeepsMidWalls(grid: Grid, i: int, j: int, ch: char)
    requires 0 <= i < |grid| && 0 <= j < |grid[i]| && IsCentre(i, j)
    ensures OpenMidWalls(Put(grid, i, j, ch)) == OpenMidWalls(grid)
  {
  }

  /** Opening a closed mid-wall adds exactly it. */
  lemma PutMidWallAddsOne(grid: Grid, i: int, j: int, ch: char)
    requires 0 <= i < |grid| && 0 <= j < |grid[i]| && (i % 2 == 0) != (j % 2 == 0)
    requires grid[i][j] == Wall && ch != Wall
    ensures OpenMidWalls(Put(grid, i, j, ch)) == OpenMidWalls(grid) + {(i, j)}
    ensures (i, j) !in OpenMidWalls(grid)
  {
  }

  /** The two cells a mid-wall separates. */
  function Sides(i: int, j: int): (Cell, Cell) {
    if i % 2 == 0 then (Cell(i / 2 - 1, (j - 1) / 2), Cell(i / 2, (j - 1) / 2))
    else (Cell((i - 1) / 2, j / 2 - 1), Cell((i - 1) / 2, j / 2))
  }

  lemma SidesOfWallBetween(cell: Cell, d: nat)
    requires d < |Directions|
    ensures var (a, b) := Sides(WallBetween(cell, d).0, WallBetween(cell, d).1);
            (a == cell && b == Neighbour(cell, d)) || (b == cell && a == Neighbour(cell, d))
  {
    if d == 0 {} else if d == 1 {} else if d == 2 {} else {}
  }

  /** The invariant of both generators' carving loops: the grid has the
      maze's dimensions and holds only walls and spaces; only centres and
      mid-walls are open; the open centres are those of `open`; and an open
      mid-wall separates two cells of `members`, the cells joined so far. */
  ghost predicate Carved(grid: Grid, rows: nat, cols: nat, members: set<Cell>, open: set<Cell>) {
    && |grid| == 2 * rows + 1 && (forall i :: 0 <= i < |grid| ==> |grid[i]| == 2 * cols + 1)
    && open <= members && members <= AllCells(rows, cols)
    && (forall i, j :: 0 <= i < |grid| && 0 <= j < |grid[i]| ==> grid[i][j] == Wall || grid[i][j] == ' ')
    && (forall i, j :: 0 <= i < |grid| && 0 <= j < |grid[i]| && grid[i][j] != Wall ==>
          IsCentre(i, j) || IsMidWall(rows, cols, i, j))
    && (forall cell :: InRange(rows, cols, cell) ==> (grid[2 * cell.r + 1][2 * cell.c + 1] != Wall <==> cell in open))
    && (forall i, j :: 0 <= i < |grid| && 0 <= j < |grid[i]| && IsMidWall(rows, cols, i, j) && grid[i][j] != Wall ==>
          Sides(i, j).0 in members && Sides(i, j).1 in members)
  }

  lemma AllWallsCarved(rows: nat, cols: nat, members: set<Cell>)
    requires members <= AllCells(rows, cols)
    ensures Carved(AllWalls(rows, cols), rows, cols, members, {})
    ensures OpenMidWalls(AllWalls(rows, cols)) == {}
  {
  }

  /** The centre of `cell` lies in `grid`. */
  predicate HasCentre(grid: Grid, cell: Cell) {
    0 <= 2 * cell.r + 1 < |grid| && 0 <= 2 * cell.c + 1 < |grid[2 * cell.r + 1]|
  }

  /** A carved grid is rectangular and holds the centres of its joined cells. */
  lemma CarvedShape(grid: Grid, rows: nat, cols: nat, members: set<Cell>, open: set<Cell>, cell: Cell)
    requires Carved(grid, rows, cols, members, open) && cell in members
    ensures Rectangular(grid) && HasCentre(grid, cell)
  {
  }

  /** Joining one more cell (`members'`) keeps the invariant. */
  lemma CarvedJoin(grid: Grid, rows: nat, cols: nat, members: set<Cell>, open: set<Cell>, cell: Cell, members': set<Cell>)
    requires Carved(grid, rows, cols, members, open) && InRange(rows, cols, cell)
    requires members' == members + {cell}
    ensures Carved(grid, rows, cols, members', open)
  {
  }

  /** Opening the centre of a joined cell gives `g`, whose open centres are
      `open'`. */
  lemma CarveCentre(grid: Grid, rows: nat, cols: nat, members: set<Cell>, open: set<Cell>, cell: Cell,
                    g: Grid, open': set<Cell>)
    requires Carved(grid, rows, cols, members, open) && cell in members && HasCentre(grid, cell)
    requires g == Put(grid, 2 * cell.r + 1, 2 * cell.c + 1, ' ') && open' == open + {cell}
    ensures Carved(g, rows, cols, members, open')
    ensures OpenMidWalls(g) == OpenMidWalls(grid)
  {
    var ci, cj := 2 * cell.r + 1, 2 * cell.c + 1;
    CentreIsCentre(cell);
    PutCentreKeepsMidWalls(grid, ci, cj, ' ');
    forall x | InRange(rows, cols, x)
      ensures g[2 * x.r + 1][2 * x.c + 1] != Wall <==> x in open'
    {
      if x != cell {
        assert 2 * x.r + 1 != ci || 2 * x.c + 1 != cj;
      }
    }
    forall k, l | 0 <= k < |g| && 0 <= l < |g[k]| && g[k][l] != Wall
      ensures IsCentre(k, l) || IsMidWall(rows, cols, k, l)
    {
      if k != ci || l != cj {
        assert grid[k][l] == g[k][l];
      }
    }
    forall k, l | 0 <= k < |g| && 0 <= l < |g[k]| && IsMidWall(rows, cols, k, l) && g[k][l] != Wall
      ensures Sides(k, l).0 in members && Sides(k, l).1 in members
    {
      assert k != ci || l != cj;
      assert grid[k][l] == g[k][l];
    }
  }

  /** A cell not joined yet has all its mid-walls closed. */
  lemma FreshWallClosed(grid: Grid, rows: nat, cols: nat, members: set<Cell>, open: set<Cell>, cell: Cell, d: nat)
    requires Carved(grid, rows, cols, members, open) && d < |Directions|
    requires InRange(rows, cols, cell) && InRange(rows, cols, Neighbour(cell, d)) && Neighbour(cell, d) !in members
    ensures 0 <= WallBetween(cell, d).0 < |grid| && 0 <= WallBetween(cell, d).1 < |grid[WallBetween(cell, d).0]|
    ensures grid[WallBetween(cell, d).0][WallBetween(cell, d).1] == Wall
  {
    WallBetweenIsMidWall(rows, cols, cell, d);
    SidesOfWallBetween(cell, d);
  }

  /** Opening the mid-wall between two joined cells gives `g`, with exactly
      one more open mid-wall. */
  lemma CarveMidWall(grid: Grid, rows: nat, cols: nat, members: set<Cell>, open: set<Cell>, cell: Cell, d: nat, g: Grid)
    requires Carved(grid, rows, cols, members, open) && d < |Directions|
    requires cell in members && Neighbour(cell, d) in members
    requires 0 <= WallBetween(cell, d).0 < |grid| && 0 <= WallBetween(cell, d).1 < |grid[WallBetween(cell, d).0]|
    requires grid[WallBetween(cell, d).0][WallBetween(cell, d).1] == Wall
    requires g == Put(grid, WallBetween(cell, d).0, WallBetween(cell, d).1, ' ')
    ensures Carved(g, rows, cols, members, open)
    ensures OpenMidWalls(g) == OpenMidWalls(grid) + {WallBetween(cell, d)}
    ensures WallBetween(cell, d) !in OpenMidWalls(grid)
    ensures |OpenMidWalls(g)| == |OpenMidWalls(grid)| + 1
  {
    var i, j := WallBetween(cell, d).0, WallBetween(cell, d).1;
    WallBetweenIsMidWall(rows, cols, cell, d);
    SidesOfWallBetween(cell, d);
    PutMidWallCarved(grid, rows, cols, members, open, i, j, g);
    PutMidWallAddsOne(grid, i, j, ' ');
  }

  /** Opening a mid-wall whose sides are both joined keeps the invariant. */
  lemma PutMidWallCarved(grid: Grid, rows: nat, cols: nat, members: set<Cell>, open: set<Cell>, i: int, j: int, g: Grid)
    requires Carved(grid, rows, cols, members, open)
    requires 0 <= i < |grid| && 0 <= j < |grid[i]| && IsMidWall(rows, cols, i, j) && !IsCentre(i, j)
    requires Sides(i, j).0 in members && Sides(i, j).1 in members
    requires g == Put(grid, i, j, ' ')
    ensures Carved(g, rows, cols, members, open)
  {
    forall cell | InRange(rows, cols, cell)
      ensures g[2 * cell.r + 1][2 * cell.c + 1] != Wall <==> cell in open
    {
      CentreIsCentre(cell);
    }
    forall k, l | 0 <= k < |g| && 0 <= l < |g[k]| && IsMidWall(rows, cols, k, l) && g[k][l] != Wall
      ensures Sides(k, l).0 in members && Sides(k, l).1 in members
    {
      if k != i || l != j {
        assert grid[k][l] == g[k][l];
      }
    }
  }

  /** The cells reached from `a` along its row. */
  lemma {:induction false} AlongRow(rows: nat, cols: nat, S: set<Cell>, a: Cell, c: int)
    requires a in S && InRange(rows, cols, a) && 0 <= c < cols
    requires forall x, d :: x in S && 0 <= d < |Directions| && InRange(rows, cols, Neighbour(x, d)) ==> Neighbour(x, d) in S
    ensures Cell(a.r, c) in S
    decreases if c < a.c then a.c - c else c - a.c
  {
    if c > a.c {
      AlongRow(rows, cols, S, a, c - 1);
      assert Neighbour(Cell(a.r, c - 1), 0) == Cell(a.r, c);
    } else if c < a.c {
      AlongRow(rows, cols, S, a, c + 1);
      assert Neighbour(Cell(a.r, c + 1), 2) == Cell(a.r, c);
    }
  }

  /** The cells reached from `a` along its column. */
  lemma {:induction false} AlongColumn(rows: nat, cols: nat, S: set<Cell>, a: Cell, r: int)
    requires a in S && InRange(rows, cols, a) && 0 <= r < rows
    requires forall x, d :: x in S && 0 <= d < |Directions| && InRange(rows, cols, Neighbour(x, d)) ==> Neighbour(x, d) in S
    ensures Cell(r, a.c) in S
    decreases if r < a.r then a.r - r else r - a.r
  {
    if r > a.r {
      AlongColumn(rows, cols, S, a, r - 1);
      assert Neighbour(Cell(r - 1, a.c), 1) == Cell(r, a.c);
    } else if r < a.r {
      AlongColumn(rows, cols, S, a, r + 1);
      assert Neighbour(Cell(r + 1, a.c), 3) == Cell(r, a.c);
    }
  }

  /** The logical cells form a connected grid: a set of cells holding one
      cell and closed under moves to in-range neighbours is all of them. */
  lemma ClosedIsAll(rows: nat, cols: nat, S: set<Cell>, a: Cell)
    requires S <= AllCells(rows, cols) && a in S
    requires forall x, d :: x in S && 0 <= d < |Directions| && InRange(rows, cols, Neighbour(x, d)) ==> Neighbour(x, d) in S
    ensures S == AllCells(rows, cols)
  {
    forall x | x in AllCells(rows, cols)
      ensures x in S
    {
      AlongRow(rows, cols, S, a, x.c);
      AlongColumn(rows, cols, S, Cell(a.r, x.c), x.r);
    }
  }

  /** The shape of a generated maze: the dimensions; `E` at the last centre
      and, unless the maze is a single cell (where `E` overwrites it), `S` at
      the first; every other centre open; border and posts walls; mid-walls
      wall or space; and exactly `rows * cols - 1` open mid-walls. */
  ghost predicate WellCarved(g: Grid, rows: nat, cols: nat)
    requires rows >= 1 && cols >= 1
  {
    && |g| == 2 * rows + 1 && (forall i :: 0 <= i < |g| ==> |g[i]| == 2 * cols + 1)
    && g[2 * rows - 1][2 * cols - 1] == 'E'
    && g[1][1] == (if rows == 1 && cols == 1 then 'E' else 'S')
    && (forall i, j :: 0 <= i < |g| && 0 <= j < |g[i]| && IsCentre(i, j) && (i != 1 || j != 1) && (i != 2 * rows - 1 || j != 2 * cols - 1) ==>
          g[i][j] == ' ')
    && (forall i, j :: 0 <= i < |g| && 0 <= j < |g[i]| && !IsCentre(i, j) && !IsMidWall(rows, cols, i, j) ==> g[i][j] == Wall)
    && (forall i, j :: 0 <= i < |g| && 0 <= j < |g[i]| && IsMidWall(rows, cols, i, j) ==> g[i][j] == Wall || g[i][j] == ' ')
    && |OpenMidWalls(g)| == rows * cols - 1
  }

  /** The markers both generators set last: `S` at the first centre, then
      `E` at the last. */
  function PlaceMarkers(grid: Grid, rows: nat, cols: nat): (g: Grid)
    requires rows >= 1 && cols >= 1
    requires |grid| == 2 * rows + 1 && forall i :: 0 <= i < |grid| ==> |grid[i]| == 2 * cols + 1
    ensures |g| == |grid| && forall i :: 0 <= i < |g| ==> |g[i]| == |grid[i]|
    ensures g[2 * rows - 1][2 * cols - 1] == 'E'
    ensures g[1][1] == (if rows == 1 && cols == 1 then 'E' else 'S')
    ensures forall i, j :: 0 <= i < |g| && 0 <= j < |g[i]| && (i != 1 || j != 1) && (i != 2 * rows - 1 || j != 2 * cols - 1) ==>
              g[i][j] == grid[i][j]
  {
    Put(Put(grid, 1, 1, 'S'), 2 * rows - 1, 2 * cols - 1, 'E')
  }

  /** Centres of the cells of `open`, stated over grid coordinates. */
  lemma OpenCentres(grid: Grid, rows: nat, cols: nat, open: set<Cell>)
    requires |grid| == 2 * rows + 1 && (forall i :: 0 <= i < |grid| ==> |grid[i]| == 2 * cols + 1)
    requires forall cell :: InRange(rows, cols, cell) ==> (grid[2 * cell.r + 1][2 * cell.c + 1] != Wall <==> cell in open)
    requires forall cell :: InRange(rows, cols, cell) && cell != Cell(0, 0) ==> cell in open
    ensures forall i, j :: 0 <= i < |grid| && 0 <= j < |grid[i]| && IsCentre(i, j) && (i != 1 || j != 1) ==> grid[i][j] != Wall
  {
    forall i, j | 0 <= i < |grid| && 0 <= j < |grid[i]| && IsCentre(i, j) && (i != 1 || j != 1)
      ensures grid[i][j] != Wall
    {
      var cell := Cell((i - 1) / 2, (j - 1) / 2);
      assert 2 * cell.r + 1 == i && 2 * cell.c + 1 == j;
      assert InRange(rows, cols, cell) && cell != Cell(0, 0);
    }
  }

  /** Setting the markers on a grid of the right shape gives a well-carved
      maze. */
  lemma MarkedShape(grid: Grid, rows: nat, cols: nat)
    requires rows >= 1 && cols >= 1
    requires |grid| == 2 * rows + 1 && (forall i :: 0 <= i < |grid| ==> |grid[i]| == 2 * cols + 1)
    requires forall i, j :: 0 <= i < |grid| && 0 <= j < |grid[i]| && IsCentre(i, j) && (i != 1 || j != 1) ==> grid[i][j] == ' '
    requires forall i, j :: 0 <= i < |grid| && 0 <= j < |grid[i]| && !IsCentre(i, j) && !IsMidWall(rows, cols, i, j) ==> grid[i][j] == Wall
    requires forall i, j :: 0 <= i < |grid| && 0 <= j < |grid[i]| ==> grid[i][j] == Wall || grid[i][j] == ' '
    requires |OpenMidWalls(grid)| + 1 == rows * cols
    ensures WellCarved(PlaceMarkers(grid, rows, cols), rows, cols)
  {
    CentreIsCentre(Cell(0, 0));
    CentreIsCentre(Cell(rows - 1, cols - 1));
    PutCentreKeepsMidWalls(grid, 1, 1, 'S');
    PutCentreKeepsMidWalls(Put(grid, 1, 1, 'S'), 2 * rows - 1, 2 * cols - 1, 'E');
  }

  /** A fully carved grid (every cell joined, every centre but perhaps the
      first open, one open mid-wall fewer than cells) becomes a well-carved
      maze once the markers are set. */
  lemma MarkersMakeWellCarved(grid: Grid, rows: nat, cols: nat, open: set<Cell>)
    requires rows >= 1 && cols >= 1
    requires Carved(grid, rows, cols, AllCells(rows, cols), open)
    requires forall cell :: InRange(rows, cols, cell) && cell != Cell(0, 0) ==> cell in open
    requires |OpenMidWalls(grid)| + 1 == rows * cols
    ensures WellCarved(PlaceMarkers(grid, rows, cols), rows, cols)
  {
    OpenCentres(grid, rows, cols, open);
    MarkedShape(grid, rows, cols);
  }

  /** The `k`-th random choice among `n` options, supplied by the caller as
      `choices` (0 once they run out). */
  function Pick(choices: seq<nat>, k: nat, n: nat): (i: nat)
    requires n > 0
    ensures i < n
  {
    (if k < |choices| then choices[k] else 0) % n
  }
}
