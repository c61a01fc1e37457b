/** The recursive-backtracker generator (DFSMazeGenerator.generate in
    generators.py): a depth-first walk over the logical cells with an
    explicit stack, carving the path to each freshly visited neighbour. */
module Backtracker {
  import opened Sequences
  import opened Grid
  import opened Carving
  import opened Spanning

  /** An unvisited neighbour as the generator lists it: `(nr, nc, dr, dc)`. */
  datatype Candidate = Candidate(nr: int, nc: int, dr: int, dc: int)

  /** The candidate for the neighbour of `cell` in direction `d`. */
  function CandidateAt(cell: Cell, d: nat): Candidate
    requires d < |Directions|
  {
    Candidate(cell.r + Directions[d].0, cell.c + Directions[d].1, Directions[d].0, Directions[d].1)
  }

  /** The neighbour of `cell` in direction `d` is in range and not visited yet. */
  predicate Fresh(rows: nat, cols: nat, visited: set<Cell>, cell: Cell, d: nat)
    requires d < |Directions|
  {
    InRange(rows, cols, Neighbour(cell, d)) && Neighbour(cell, d) !in visited
  }

  /** The directions `k`, `k + 1`, ... in which `cell` has an in-range
      unvisited neighbour, in the order they are tried. */
  function FreshDirections(rows: nat, cols: nat, visited: set<Cell>, cell: Cell, k: nat): (r: seq<nat>)
    requires k <= |Directions|
    ensures |r| <= |Directions| - k
    ensures forall i :: 0 <= i < |r| ==> k <= r[i] < |Directions| && Fresh(rows, cols, visited, cell, r[i])
    ensures forall i :: 0 < i < |r| ==> r[i - 1] < r[i]
    decreases |Directions| - k
  {
    if k == |Directions| then []
    else
      var rest := FreshDirections(rows, cols, visited, cell, k + 1);
      if Fresh(rows, cols, visited, cell, k) then
        var r := [k] + rest;
        assert forall i :: 0 < i < |r| ==> r[i] == rest[i - 1];
        r
      else rest
  }

  /** Every fresh direction from `k` on is listed. */
  lemma {:induction false} FreshDirectionsComplete(rows: nat, cols: nat, visited: set<Cell>, cell: Cell, k: nat)
    requires k <= |Directions|
    ensures forall d :: k <= d < |Directions| && Fresh(rows, cols, visited, cell, d) ==> d in FreshDirections(rows, cols, visited, cell, k)
    decreases |Directions| - k
  {
    if k < |Directions| {
      FreshDirectionsComplete(rows, cols, visited, cell, k + 1);
    }
  }

  /** The unvisited neighbours of `cell` as the generator lists them: one
      candidate per fresh direction, in the order (r, c+1), (r+1, c),
      (r, c-1), (r-1, c). */
  function Unvisited(rows: nat, cols: nat, visited: set<Cell>, cell: Cell): (r: seq<Candidate>)
    ensures |r| == |FreshDirections(rows, cols, visited, cell, 0)| <= 4
    ensures forall i :: 0 <= i < |r| ==> r[i] == CandidateAt(cell, FreshDirections(rows, cols, visited, cell, 0)[i])
    ensures r == [] <==> forall d :: 0 <= d < |Directions| && InRange(rows, cols, Neighbour(cell, d)) ==> Neighbour(cell, d) in visited
  {
    var dirs := FreshDirections(rows, cols, visited, cell, 0);
    FreshDirectionsComplete(rows, cols, visited, cell, 0);
    seq(|dirs|, i requires 0 <= i < |dirs| => CandidateAt(cell, dirs[i]))
  }

  /** The `i`-th candidate is the fresh neighbour in direction `d`. */
  lemma Picked(rows: nat, cols: nat, visited: set<Cell>, cell: Cell, i: nat) returns (d: nat)
    requires i < |Unvisited(rows, cols, visited, cell)|
    ensures d < |Directions| && Fresh(rows, cols, visited, cell, d)
    ensures Cell(Unvisited(rows, cols, visited, cell)[i].nr, Unvisited(rows, cols, visited, cell)[i].nc) == Neighbour(cell, d)
  {
    d := FreshDirections(rows, cols, visited, cell, 0)[i];
  }

  /** `carve_path`: open both centres, then the grid cell halfway between.
      The grid keeps its shape and the three cells end up open. */
  function CarvePath(grid: Grid, a: Cell, b: Cell): (g: Grid)
    requires Rectangular(grid) && HasCentre(grid, a) && HasCentre(grid, b)
    ensures |g| == |grid| && forall i :: 0 <= i < |grid| ==> |g[i]| == |grid[i]|
    ensures g[2 * a.r + 1][2 * a.c + 1] == ' ' && g[2 * b.r + 1][2 * b.c + 1] == ' '
    ensures 0 <= a.r + b.r + 1 < |g| && 0 <= a.c + b.c + 1 < |g[a.r + b.r + 1]| && g[a.r + b.r + 1][a.c + b.c + 1] == ' '
  {
    var p1 := ToGridCoords(a);
    var p2 := ToGridCoords(b);
    var g1 := Put(grid, p1.0, p1.1, ' ');
    var g2 := Put(g1, p2.0, p2.1, ' ');
    Put(g2, (p1.0 + p2.0) / 2, (p1.1 + p2.1) / 2, ' ')
  }

  /** Between adjacent cells, `carve_path`'s halfway point is the mid-wall,
      which is neither centre. */
  lemma HalfwayIsWallBetween(cell: Cell, d: nat)
    requires d < |Directions|
    ensures ((2 * cell.r + 1) + (2 * Neighbour(cell, d).r + 1)) / 2 == WallBetween(cell, d).0
    ensures ((2 * cell.c + 1) + (2 * Neighbour(cell, d).c + 1)) / 2 == WallBetween(cell, d).1
    ensures WallBetween(cell, d).0 != 2 * cell.r + 1 || WallBetween(cell, d).1 != 2 * cell.c + 1
    ensures WallBetween(cell, d).0 != 2 * Neighbour(cell, d).r + 1 || WallBetween(cell, d).1 != 2 * Neighbour(cell, d).c + 1
  {
    if d == 0 {} else if d == 1 {} else if d == 2 {} else {}
  }

  /** Opening the two centres leaves the mid-wall between them as it was. */
  lemma CentresMissWall(grid: Grid, cell: Cell, d: nat, n: Cell, g1: Grid, g2: Grid)
    requires d < |Directions| && n == Neighbour(cell, d)
    requires Rectangular(grid) && HasCentre(grid, cell) && HasCentre(grid, n)
    requires g1 == Put(grid, 2 * cell.r + 1, 2 * cell.c + 1, ' ') && g2 == Put(g1, 2 * n.r + 1, 2 * n.c + 1, ' ')
    ensures HasCentre(g1, n)
    ensures 0 <= WallBetween(cell, d).0 < |g2| && 0 <= WallBetween(cell, d).1 < |g2[WallBetween(cell, d).0]|
    ensures g2[WallBetween(cell, d).0][WallBetween(cell, d).1] == grid[WallBetween(cell, d).0][WallBetween(cell, d).1]
  {
    var w := WallBetween(cell, d);
    HalfwayIsWallBetween(cell, d);
    assert g1[w.0][w.1] == grid[w.0][w.1];
    assert |grid[w.0]| == |grid[0]|;
  }

  /** `carve_path` from `cell` to its neighbour in direction `d` as three
      writes: the two centres (`g1`, then `g2`), then the mid-wall between
      them, which the first two writes leave untouched. */
  lemma CarvePathSteps(grid: Grid, cell: Cell, d: nat, n: Cell) returns (g1: Grid, g2: Grid)
    requires d < |Directions| && n == Neighbour(cell, d)
    requires Rectangular(grid) && HasCentre(grid, cell) && HasCentre(grid, n)
    ensures g1 == Put(grid, 2 * cell.r + 1, 2 * cell.c + 1, ' ') && HasCentre(g1, n)
    ensures g2 == Put(g1, 2 * n.r + 1, 2 * n.c + 1, ' ')
    ensures 0 <= WallBetween(cell, d).0 < |g2| && 0 <= WallBetween(cell, d).1 < |g2[WallBetween(cell, d).0]|
    ensures g2[WallBetween(cell, d).0][WallBetween(cell, d).1] == grid[WallBetween(cell, d).0][WallBetween(cell, d).1]
    ensures CarvePath(grid, cell, n) == Put(g2, WallBetween(cell, d).0, WallBetween(cell, d).1, ' ')
  {
    var w := WallBetween(cell, d);
    g1 := Put(grid, 2 * cell.r + 1, 2 * cell.c + 1, ' ');
    g2 := Put(g1, 2 * n.r + 1, 2 * n.c + 1, ' ');
    CentresMissWall(grid, cell, d, n, g1, g2);
    HalfwayIsWallBetween(cell, d);
  }

  /** Opening the centres of two joined cells. */
  lemma CarveBothCentres(grid: Grid, rows: nat, cols: nat, members: set<Cell>, open: set<Cell>, a: Cell, b: Cell,
                         g1: Grid, g2: Grid, open2: set<Cell>)
    requires Carved(grid, rows, cols, members, open) && a in members && b in members
    requires HasCentre(grid, a) && g1 == Put(grid, 2 * a.r + 1, 2 * a.c + 1, ' ')
    requires HasCentre(g1, b) && g2 == Put(g1, 2 * b.r + 1, 2 * b.c + 1, ' ')
    requires open2 == open + {a, b}
    ensures Carved(g2, rows, cols, members, open2)
    ensures OpenMidWalls(g2) == OpenMidWalls(grid)
  {
    CarveCentre(grid, rows, cols, members, open, a, g1, open + {a});
    assert open + {a} + {b} == open2;
    CarveCentre(g1, rows, cols, members, open + {a}, b, g2, open2);
  }

  /** Carving the path `g` from a joined cell to a joined neighbour whose
      mid-wall is still closed opens both centres and exactly that mid-wall. */
  lemma CarvePathCarves(grid: Grid, rows: nat, cols: nat, members: set<Cell>, open: set<Cell>, cell: Cell, d: nat,
                        g: Grid, open': set<Cell>)
    requires d < |Directions| && Carved(grid, rows, cols, members, open)
    requires cell in members && Neighbour(cell, d) in members
    requires 0 <= WallBetween(cell, d).0 < |grid| && 0 <= WallBetween(cell, d).1 < |grid[WallBetween(cell, d).0]|
    requires grid[WallBetween(cell, d).0][WallBetween(cell, d).1] == Wall
    requires Rectangular(grid) && HasCentre(grid, cell) && HasCentre(grid, Neighbour(cell, d))
    requires g == CarvePath(grid, cell, Neighbour(cell, d)) && open' == open + {cell, Neighbour(cell, d)}
    ensures Carved(g, rows, cols, members, open')
    ensures |OpenMidWalls(g)| == |OpenMidWalls(grid)| + 1
  {
    var n := Neighbour(cell, d);
    var g1, g2 := CarvePathSteps(grid, cell, d, n);
    CarveBothCentres(grid, rows, cols, members, open, cell, n, g1, g2, open');
    CarveMidWall(g2, rows, cols, members, open', cell, d, g);
  }

  /** Every in-range neighbour of `cell` has been visited. */
  ghost predicate Finished(rows: nat, cols: nat, visited: set<Cell>, cell: Cell) {
    forall d :: 0 <= d < |Directions| && InRange(rows, cols, Neighbour(cell, d)) ==> Neighbour(cell, d) in visited
  }

  /** Without candidates, every in-range neighbour is visited. */
  lemma NoneUnvisited(rows: nat, cols: nat, visited: set<Cell>, cell: Cell)
    requires Unvisited(rows, cols, visited, cell) == []
    ensures Finished(rows, cols, visited, cell)
  {
  }

  /** The open centres while carving: none before the first path is carved
      (the start cell's centre is opened by its first path), then exactly
      the visited cells. */
  ghost function OpenSoFar(visited: set<Cell>): set<Cell> {
    if |visited| > 1 then visited else {}
  }

  /** The bookkeeping part of the loop invariant: the start is visited, the
      stack holds visited cells, and a visited cell off the stack has no
      unvisited neighbour left. */
  ghost predicate Tracked(rows: nat, cols: nat, start: Cell, visited: set<Cell>, stack: seq<Cell>) {
    && start in visited
    && (forall i :: 0 <= i < |stack| ==> stack[i] in visited)
    && (forall v :: v in visited ==> v in stack || Finished(rows, cols, visited, v))
    && (|visited| == 1 ==> visited == {start})
  }

  /** The loop invariant of the generator: the bookkeeping, and a grid
      carved over the visited cells with one open mid-wall fewer than
      visited cells. */
  ghost predicate BacktrackInv(grid: Grid, rows: nat, cols: nat, start: Cell, visited: set<Cell>, stack: seq<Cell>) {
    && Tracked(rows, cols, start, visited, stack)
    && Carved(grid, rows, cols, visited, OpenSoFar(visited))
    && |OpenMidWalls(grid)| + 1 == |visited|
  }

  /** Pushing a fresh cell keeps the bookkeeping. */
  lemma PushTracks(rows: nat, cols: nat, start: Cell, visited: set<Cell>, stack: seq<Cell>, n: Cell)
    requires Tracked(rows, cols, start, visited, stack) && n !in visited
    ensures Tracked(rows, cols, start, visited + {n}, stack + [n])
  {
    var visited', stack' := visited + {n}, stack + [n];
    AddFresh(visited, n);
    assert stack'[|stack|] == n;
    forall v | v in visited'
      ensures v in stack' || Finished(rows, cols, visited', v)
    {
      if v in stack {
        var i :| 0 <= i < |stack| && stack[i] == v;
        assert stack'[i] == v;
      }
    }
  }

  /** Popping a cell without unvisited neighbours keeps the bookkeeping. */
  lemma PopTracks(rows: nat, cols: nat, start: Cell, visited: set<Cell>, stack: seq<Cell>)
    requires Tracked(rows, cols, start, visited, stack) && stack != []
    requires Finished(rows, cols, visited, stack[|stack| - 1])
    ensures Tracked(rows, cols, start, visited, stack[..|stack| - 1])
  {
    var stack' := stack[..|stack| - 1];
    forall v | v in visited
      ensures v in stack' || Finished(rows, cols, visited, v)
    {
      if v in stack && v != stack[|stack| - 1] {
        var i :| 0 <= i < |stack| && stack[i] == v;
        assert stack'[i] == v;
      }
    }
  }

  /** Moving to a fresh neighbour of a visited cell carves one more
      mid-wall and keeps the grid part of the invariant. */
  lemma PushCarves(grid: Grid, rows: nat, cols: nat, start: Cell, visited: set<Cell>, top: Cell, d: nat,
                    g: Grid, visited': set<Cell>)
    requires d < |Directions| && top in visited && Fresh(rows, cols, visited, top, d)
    requires Carved(grid, rows, cols, visited, OpenSoFar(visited)) && |OpenMidWalls(grid)| + 1 == |visited|
    requires |visited| == 1 ==> visited == {start}
    requires Rectangular(grid) && HasCentre(grid, top) && HasCentre(grid, Neighbour(top, d))
    requires g == CarvePath(grid, top, Neighbour(top, d)) && visited' == visited + {Neighbour(top, d)}
    ensures Carved(g, rows, cols, visited', OpenSoFar(visited'))
    ensures |OpenMidWalls(g)| + 1 == |visited'|
    ensures |OpenMidWalls(g)| == |OpenMidWalls(grid)| + 1
  {
    var n := Neighbour(top, d);
    AllCellsInRange(rows, cols, top);
    OpenSoFarGrows(start, visited, top, n);
    CarvePathJoins(grid, rows, cols, visited, OpenSoFar(visited), top, d, g, visited', OpenSoFar(visited'));
    AddFresh(visited, n);
  }

  /** A fresh neighbour of a joined cell also has its centre in the grid. */
  lemma HasCentreOfFresh(grid: Grid, rows: nat, cols: nat, visited: set<Cell>, open: set<Cell>, top: Cell, d: nat)
    requires Carved(grid, rows, cols, visited, open) && d < |Directions| && Fresh(rows, cols, visited, top, d)
    ensures HasCentre(grid, Neighbour(top, d))
  {
  }

  /** The open centres after the first path out of the start, or any later one. */
  lemma OpenSoFarGrows(start: Cell, visited: set<Cell>, top: Cell, n: Cell)
    requires top in visited && n !in visited && (|visited| == 1 ==> visited == {start})
    ensures OpenSoFar(visited) + {top, n} == OpenSoFar(visited + {n})
  {
    AddFresh(visited, n);
    if |visited| == 1 {
      assert top == start;
    }
  }

  /** Carving the path `g` from a joined cell to a fresh neighbour joins it. */
  lemma CarvePathJoins(grid: Grid, rows: nat, cols: nat, visited: set<Cell>, open: set<Cell>, top: Cell, d: nat,
                       g: Grid, visited': set<Cell>, open': set<Cell>)
    requires d < |Directions| && top in visited && InRange(rows, cols, top) && Fresh(rows, cols, visited, top, d)
    requires Carved(grid, rows, cols, visited, open)
    requires Rectangular(grid) && HasCentre(grid, top) && HasCentre(grid, Neighbour(top, d))
    requires g == CarvePath(grid, top, Neighbour(top, d))
    requires visited' == visited + {Neighbour(top, d)} && open' == open + {top, Neighbour(top, d)}
    ensures Carved(g, rows, cols, visited', open')
    ensures |OpenMidWalls(g)| == |OpenMidWalls(grid)| + 1
  {
    var n := Neighbour(top, d);
    CarvedJoin(grid, rows, cols, visited, open, n, visited');
    FreshWallClosed(grid, rows, cols, visited, open, top, d);
    CarvePathCarves(grid, rows, cols, visited', open, top, d, g, open');
  }

  /** Move from the top of the stack to its fresh neighbour `next` (in
      direction `d`): carve the path, mark it visited and push it. */
  method Push(rows: nat, cols: nat, ghost start: Cell, grid: Grid, visited: set<Cell>, stack: seq<Cell>,
              next: Cell, ghost d: nat, ghost parent: map<Cell, Cell>, ghost rank: map<Cell, nat>)
    returns (grid': Grid, visited': set<Cell>, stack': seq<Cell>, ghost parent': map<Cell, Cell>, ghost rank': map<Cell, nat>)
    requires stack != [] && BacktrackInv(grid, rows, cols, start, visited, stack)
    requires d < |Directions| && Fresh(rows, cols, visited, stack[|stack| - 1], d)
    requires next == Neighbour(stack[|stack| - 1], d)
    requires Linked(grid, visited, start, parent, rank)
    ensures BacktrackInv(grid', rows, cols, start, visited', stack')
    ensures |stack'| == |stack| + 1 && stack'[..|stack|] == stack && stack'[|stack|] == next
    ensures next !in visited && InRange(rows, cols, next) && CellsAdjacent(stack[|stack| - 1], next)
    ensures visited' == visited + {next} && visited' <= AllCells(rows, cols)
    ensures (AllCells(rows, cols) - visited') < (AllCells(rows, cols) - visited)
    ensures |OpenMidWalls(grid')| == |OpenMidWalls(grid)| + 1
    ensures Linked(grid', visited', start, parent', rank')
  {
    var top := stack[|stack| - 1];
    CarvedShape(grid, rows, cols, visited, OpenSoFar(visited), top);
    HasCentreOfFresh(grid, rows, cols, visited, OpenSoFar(visited), top, d);
    grid' := CarvePath(grid, top, next);
    visited', stack' := visited + {next}, stack + [next];
    PushCarves(grid, rows, cols, start, visited, top, d, grid', visited');
    PushTracks(rows, cols, start, visited, stack, next);
    NeighbourAdjacent(top, d);
    parent', rank' := parent[next := top], rank[next := rank[top] + 1];
    CarvePathLinks(grid, top, d, next, grid', visited, start, parent, rank);
    assert stack'[..|stack|] == stack;
    assert next in AllCells(rows, cols) - visited;
    assert next !in AllCells(rows, cols) - visited';
  }

  /** One round of the loop: look at the top of the stack, and either move
      to a randomly chosen unvisited neighbour, carving the path to it, or
      backtrack when there is none. `k` counts the random choices made. */
  method Advance(rows: nat, cols: nat, ghost start: Cell, grid: Grid, visited: set<Cell>, stack: seq<Cell>,
                 choices: seq<nat>, k: nat, ghost parent: map<Cell, Cell>, ghost rank: map<Cell, nat>)
    returns (grid': Grid, visited': set<Cell>, stack': seq<Cell>, k': nat, ghost parent': map<Cell, Cell>, ghost rank': map<Cell, nat>)
    requires stack != [] && BacktrackInv(grid, rows, cols, start, visited, stack)
    requires Linked(grid, visited, start, parent, rank)
    ensures BacktrackInv(grid', rows, cols, start, visited', stack')
    ensures || (&& |stack'| == |stack| + 1 && stack'[..|stack|] == stack
                && stack'[|stack|] !in visited && InRange(rows, cols, stack'[|stack|])
                && CellsAdjacent(stack[|stack| - 1], stack'[|stack|])
                && visited' == visited + {stack'[|stack|]}
                && |OpenMidWalls(grid')| == |OpenMidWalls(grid)| + 1)
            || (&& Finished(rows, cols, visited, stack[|stack| - 1])
                && visited' == visited && stack' == stack[..|stack| - 1] && grid' == grid)
    ensures visited <= visited' <= AllCells(rows, cols)
    ensures (AllCells(rows, cols) - visited') < (AllCells(rows, cols) - visited) || (visited' == visited && |stack'| < |stack|)
    ensures Linked(grid', visited', start, parent', rank')
  {
    var top := stack[|stack| - 1];
    var candidates := Unvisited(rows, cols, visited, top);
    if candidates != [] {
      var i := Pick(choices, k, |candidates|);
      var pick := candidates[i];
      ghost var d := Picked(rows, cols, visited, top, i);
      var next := Cell(pick.nr, pick.nc);
      grid', visited', stack', parent', rank' := Push(rows, cols, start, grid, visited, stack, next, d, parent, rank);
      k' := k + 1;
    } else {
      NoneUnvisited(rows, cols, visited, top);
      PopTracks(rows, cols, start, visited, stack);
      grid', visited', stack', k' := grid, visited, stack[..|stack| - 1], k;
      parent', rank' := parent, rank;
    }
  }

  /** `DFSMazeGenerator.generate`: carve a `rows x cols` maze by a
      randomised depth-first walk from `(startR, startC)` (the source draws
      the start with `randrange`), then set `S` and `E`. The result has the
      shape of every generated maze: one open mid-wall fewer than cells. */
  method Generate(rows: nat, cols: nat, startR: int, startC: int, choices: seq<nat>) returns (maze: Grid)
    requires rows >= 1 && cols >= 1
    requires 0 <= startR < rows && 0 <= startC < cols
    ensures WellCarved(maze, rows, cols)
    ensures Connected(maze)
  {
    var grid := AllWalls(rows, cols);
    var start := Cell(startR, startC);
    var visited := {start};
    var stack := [start];
    var k := 0;
    ghost var parent: map<Cell, Cell>, rank: map<Cell, nat> := map[], map[start := 0];
    AllWallsCarved(rows, cols, visited);
    LinkedRoot(grid, start);
    while stack != []
      invariant BacktrackInv(grid, rows, cols, start, visited, stack)
      invariant Linked(grid, visited, start, parent, rank)
      decreases AllCells(rows, cols) - visited, |stack|
    {
      grid, visited, stack, k, parent, rank := Advance(rows, cols, start, grid, visited, stack, choices, k, parent, rank);
    }
    AllVisited(grid, rows, cols, start, visited);
    maze := PlaceMarkers(grid, rows, cols);
    MarkersKeepLinks(grid, rows, cols, visited, start, parent, rank);
    TreeConnects(maze, rows, cols, start, parent, rank);
  }

  /** Carving the path from the top of the stack to its fresh neighbour
      `next` opens the mid-wall that joins `next` to the tree. */
  lemma CarvePathLinks(grid: Grid, top: Cell, d: nat, next: Cell, g: Grid,
                       members: set<Cell>, root: Cell, parent: map<Cell, Cell>, rank: map<Cell, nat>)
    requires d < |Directions| && next == Neighbour(top, d) && top in members && next !in members
    requires Rectangular(grid) && HasCentre(grid, top) && HasCentre(grid, next) && g == CarvePath(grid, top, next)
    requires Linked(grid, members, root, parent, rank)
    ensures Linked(g, members + {next}, root, parent[next := top], rank[next := rank[top] + 1])
  {
    CarvePathWider(grid, top, d, next, g);
    LinkedWider(grid, g, members, root, parent, rank);
    LinkedGrow(g, members, root, parent, rank, next, top);
  }

  /** `carve_path` only opens cells, and it opens the mid-wall between the
      two cells. */
  lemma CarvePathWider(grid: Grid, top: Cell, d: nat, next: Cell, g: Grid)
    requires d < |Directions| && next == Neighbour(top, d)
    requires Rectangular(grid) && HasCentre(grid, top) && HasCentre(grid, next) && g == CarvePath(grid, top, next)
    ensures Wider(grid, g) && CellsAdjacent(next, top) && OpenBetween(g, next, top)
  {
    var g1, g2 := CarvePathSteps(grid, top, d, next);
    var w := WallBetween(top, d);
    PutWider(grid, 2 * top.r + 1, 2 * top.c + 1, ' ');
    PutWider(g1, 2 * next.r + 1, 2 * next.c + 1, ' ');
    PutWider(g2, w.0, w.1, ' ');
    WiderTrans(grid, g1, g2);
    WiderTrans(grid, g2, g);
    NeighbourAdjacent(top, d);
    assert next.r + top.r + 1 == w.0 && next.c + top.c + 1 == w.1;
  }

  /** When the stack runs empty every cell has been visited, and setting the
      markers gives a well-carved maze. */
  lemma AllVisited(grid: Grid, rows: nat, cols: nat, start: Cell, visited: set<Cell>)
    requires rows >= 1 && cols >= 1
    requires BacktrackInv(grid, rows, cols, start, visited, [])
    ensures visited == AllCells(rows, cols)
    ensures WellCarved(PlaceMarkers(grid, rows, cols), rows, cols)
  {
    ClosedIsAll(rows, cols, visited, start);
    AllCellsSize(rows, cols);
    forall cell | InRange(rows, cols, cell) && cell != Cell(0, 0)
      ensures cell in OpenSoFar(visited)
    {
      assert cell in AllCells(rows, cols) && Cell(0, 0) in AllCells(rows, cols);
      TwoMembers(visited, cell, Cell(0, 0));
    }
    MarkersMakeWellCarved(grid, rows, cols, OpenSoFar(visited));
  }
}
