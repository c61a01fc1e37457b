/** The carved passages as a spanning tree of the logical cells. Both
    generators only ever join a cell to one already joined, through the
    mid-wall between them; a ghost parent table recording those joins shows
    that the finished grid is connected, and so (with its `rows * cols - 1`
    open mid-walls) a spanning tree. Read as a `Maze`, a generated grid has
    `S` and `E` in its corner centres with a walk between them. */
module Spanning {
  import opened Wrappers
  import opened Grid
  import opened Search
  import opened Carving

  /** The mid-wall between adjacent cells `a` and `b` (grid row `a.r + b.r + 1`,
      column `a.c + b.c + 1`) is in the grid and open. */
  predicate OpenBetween(grid: Grid, a: Cell, b: Cell) {
    0 <= a.r + b.r + 1 < |grid| && 0 <= a.c + b.c + 1 < |grid[a.r + b.r + 1]| && grid[a.r + b.r + 1][a.c + b.c + 1] != Wall
  }

  /** The joins so far form a tree over `members` rooted at `root`: every
      other member has a parent among the members, adjacent to it, of
      smaller rank, with the mid-wall between them open. */
  ghost predicate Linked(grid: Grid, members: set<Cell>, root: Cell, parent: map<Cell, Cell>, rank: map<Cell, nat>) {
    && root in members
    && (forall x :: x in members ==> x in rank)
    && (forall x :: x in members && x != root ==>
          && x in parent && parent[x] in members && CellsAdjacent(x, parent[x])
          && rank[parent[x]] < rank[x] && OpenBetween(grid, x, parent[x]))
  }

  /** `grid'` has the shape of `grid` and every open cell of `grid` is still
      open in it: carving only ever opens cells. */
  ghost predicate Wider(grid: Grid, grid': Grid) {
    && |grid'| == |grid| && (forall i :: 0 <= i < |grid| ==> |grid'[i]| == |grid[i]|)
    && (forall i, j :: 0 <= i < |grid| && 0 <= j < |grid[i]| && grid[i][j] != Wall ==> grid'[i][j] != Wall)
  }

  lemma PutWider(grid: Grid, i: int, j: int, ch: char)
    requires 0 <= i < |grid| && 0 <= j < |grid[i]| && ch != Wall
    ensures Wider(grid, Put(grid, i, j, ch))
  {
  }

  lemma WiderTrans(g1: Grid, g2: Grid, g3: Grid)
    requires Wider(g1, g2) && Wider(g2, g3)
    ensures Wider(g1, g3)
  {
  }

  /** Opening cells keeps every join open. */
  lemma LinkedWider(grid: Grid, grid': Grid, members: set<Cell>, root: Cell, parent: map<Cell, Cell>, rank: map<Cell, nat>)
    requires Linked(grid, members, root, parent, rank) && Wider(grid, grid')
    ensures Linked(grid', members, root, parent, rank)
  {
    forall x | x in members && x != root
      ensures OpenBetween(grid', x, parent[x])
    {
      assert OpenBetween(grid, x, parent[x]);
    }
  }

  /** Setting the markers keeps every join open. */
  lemma MarkersKeepLinks(grid: Grid, rows: nat, cols: nat, members: set<Cell>, root: Cell, parent: map<Cell, Cell>, rank: map<Cell, nat>)
    requires rows >= 1 && cols >= 1
    requires |grid| == 2 * rows + 1 && forall i :: 0 <= i < |grid| ==> |grid[i]| == 2 * cols + 1
    requires Linked(grid, members, root, parent, rank)
    ensures Linked(PlaceMarkers(grid, rows, cols), members, root, parent, rank)
  {
    var g1 := Put(grid, 1, 1, 'S');
    PutWider(grid, 1, 1, 'S');
    PutWider(g1, 2 * rows - 1, 2 * cols - 1, 'E');
    WiderTrans(grid, g1, PlaceMarkers(grid, rows, cols));
    LinkedWider(grid, PlaceMarkers(grid, rows, cols), members, root, parent, rank);
  }

  /** A maze of just the start cell. */
  lemma LinkedRoot(grid: Grid, root: Cell)
    ensures Linked(grid, {root}, root, map[], map[root := 0])
  {
  }

  /** Joining a fresh cell `n` to a member `p` through their open mid-wall
      grows the tree by one node. */
  lemma LinkedGrow(grid: Grid, members: set<Cell>, root: Cell, parent: map<Cell, Cell>, rank: map<Cell, nat>, n: Cell, p: Cell)
    requires Linked(grid, members, root, parent, rank)
    requires p in members && n !in members && CellsAdjacent(n, p) && OpenBetween(grid, n, p)
    ensures Linked(grid, members + {n}, root, parent[n := p], rank[n := rank[p] + 1])
  {
  }

  /** The maze position of a cell's centre: column `2c + 1`, row `2r + 1`. */
  function CentrePos(x: Cell): Pos {
    Pos(2 * x.c + 1, 2 * x.r + 1)
  }

  /** From the centre of `p` through the open mid-wall `mid` to the centre of
      the adjacent cell `x` takes two moves. */
  lemma ThroughMidWall(m: Maze, p: Cell, x: Cell, mid: Pos)
    requires WellFormed(m) && CellsAdjacent(x, p) && OpenBetween(m.grid, x, p)
    requires mid == Pos(x.c + p.c + 1, x.r + p.r + 1) && IsValidMove(m, CentrePos(x).x, CentrePos(x).y)
    ensures Step(m, CentrePos(p), mid) && Step(m, mid, CentrePos(x))
  {
  }

  /** Along the parent links, the centre of every member is reachable from
      the centre of the root, when the member centres are passable. */
  lemma {:induction false} ReachCentre(m: Maze, members: set<Cell>, root: Cell, parent: map<Cell, Cell>, rank: map<Cell, nat>, x: Cell)
    requires WellFormed(m) && Linked(m.grid, members, root, parent, rank) && x in members
    requires forall y :: y in members ==> IsValidMove(m, CentrePos(y).x, CentrePos(y).y)
    ensures Reachable(m, CentrePos(root), CentrePos(x))
    decreases rank[x]
  {
    if x == root {
      ReachableFromItself(m, CentrePos(root));
    } else {
      var p := parent[x];
      ReachCentre(m, members, root, parent, rank, p);
      var mid := Pos(x.c + p.c + 1, x.r + p.r + 1);
      ThroughMidWall(m, p, x, mid);
      ExtendReachable(m, CentrePos(root), CentrePos(p), mid);
      ExtendReachable(m, CentrePos(root), mid, CentrePos(x));
    }
  }

  /** Every passable position is reachable from every other: the maze is one
      component. */
  ghost predicate Connected(g: Grid) {
    && Rectangular(g)
    && var m := NewMaze(g);
       forall p: Pos, q: Pos :: IsValidMove(m, p.x, p.y) && IsValidMove(m, q.x, q.y) ==> Reachable(m, p, q)
  }

  /** In a well-carved maze every centre is passable. */
  lemma CentresOpen(g: Grid, rows: nat, cols: nat)
    requires rows >= 1 && cols >= 1 && WellCarved(g, rows, cols)
    ensures forall x :: InRange(rows, cols, x) ==> g[2 * x.r + 1][2 * x.c + 1] != Wall
  {
    forall x | InRange(rows, cols, x)
      ensures g[2 * x.r + 1][2 * x.c + 1] != Wall
    {
      CentreIsCentre(x);
    }
  }

  /** A passable position of a well-carved maze is a centre or next to one. */
  lemma NearCentre(g: Grid, rows: nat, cols: nat, p: Pos) returns (x: Cell)
    requires rows >= 1 && cols >= 1 && WellCarved(g, rows, cols)
    requires InGrid(g, p.x, p.y) && g[p.y][p.x] != Wall
    ensures InRange(rows, cols, x) && (p == CentrePos(x) || Adjacent(CentrePos(x), p))
  {
    if IsCentre(p.y, p.x) {
      x := Cell((p.y - 1) / 2, (p.x - 1) / 2);
    } else {
      assert IsMidWall(rows, cols, p.y, p.x);
      if p.y % 2 == 0 {
        x := Cell((p.y - 2) / 2, (p.x - 1) / 2);
      } else {
        x := Cell((p.y - 1) / 2, (p.x - 2) / 2);
      }
    }
  }

  /** A well-carved grid whose joins form a tree over all cells is connected. */
  lemma TreeConnects(g: Grid, rows: nat, cols: nat, root: Cell, parent: map<Cell, Cell>, rank: map<Cell, nat>)
    requires rows >= 1 && cols >= 1 && WellCarved(g, rows, cols)
    requires Linked(g, AllCells(rows, cols), root, parent, rank)
    ensures Connected(g)
  {
    var m := NewMaze(g);
    var members := AllCells(rows, cols);
    CentresOpen(g, rows, cols);
    forall y | y in members
      ensures IsValidMove(m, CentrePos(y).x, CentrePos(y).y)
    {
      AllCellsInRange(rows, cols, y);
    }
    AllCellsInRange(rows, cols, root);
    forall p: Pos | IsValidMove(m, p.x, p.y)
      ensures Reachable(m, CentrePos(root), p)
    {
      var x := NearCentre(g, rows, cols, p);
      assert x in members;
      ReachCentre(m, members, root, parent, rank, x);
      if p != CentrePos(x) {
        ExtendReachable(m, CentrePos(root), CentrePos(x), p);
      }
    }
    forall p: Pos, q: Pos | IsValidMove(m, p.x, p.y) && IsValidMove(m, q.x, q.y)
      ensures Reachable(m, p, q)
    {
      ReachableReverse(m, CentrePos(root), p);
      ReachableTrans(m, p, CentrePos(root), q);
    }
  }

  /** Only the first centre can hold `S`, and only it and the last centre `E`. */
  lemma MarkerCells(g: Grid, rows: nat, cols: nat, i: int, j: int)
    requires rows >= 1 && cols >= 1 && WellCarved(g, rows, cols)
    requires 0 <= i < |g| && 0 <= j < |g[i]|
    ensures g[i][j] == 'S' ==> i == 1 && j == 1
    ensures g[i][j] == 'E' ==> (i == 2 * rows - 1 && j == 2 * cols - 1) || (i == 1 && j == 1)
  {
  }

  /** Read as a `Maze`, a generated grid has `S` in the first centre and `E`
      in the last (a single-cell maze has only `E`, which overwrote `S`), and
      when connected has a walk from `S` to `E`, so every solver finds a path. */
  lemma Solvable(g: Grid, rows: nat, cols: nat)
    requires rows >= 1 && cols >= 1 && WellCarved(g, rows, cols) && Connected(g)
    ensures NewMaze(g).end == Some(Pos(2 * cols - 1, 2 * rows - 1))
    ensures rows == 1 && cols == 1 ==> NewMaze(g).start == None
    ensures !(rows == 1 && cols == 1) ==> NewMaze(g).start == Some(Pos(1, 1))
    ensures NewMaze(g).start.Some? ==> Reachable(NewMaze(g), NewMaze(g).start.value, NewMaze(g).end.value)
  {
    var m := NewMaze(g);
    forall i, j | 0 <= i < |g| && 0 <= j < |g[i]|
      ensures g[i][j] == 'S' ==> i == 1 && j == 1
      ensures g[i][j] == 'E' ==> (i == 2 * rows - 1 && j == 2 * cols - 1) || (i == 1 && j == 1)
    {
      MarkerCells(g, rows, cols, i, j);
    }
    if !(rows == 1 && cols == 1) {
      assert g[1][1] == 'S';
      assert m.start.Some?;
    }
    assert m.end.Some?;
    assert IsValidMove(m, m.end.value.x, m.end.value.y);
    if m.start.Some? {
      assert IsValidMove(m, m.start.value.x, m.start.value.y);
    }
  }
}
