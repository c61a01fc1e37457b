/** Randomised Prim's generator (PrimMazeGenerator.generate in
    generators.py): grow the maze from one cell by repeatedly taking a
    random wall off a frontier list and joining the cell behind it. */
module Prim {
  import opened Sequences
  import opened Grid
  import opened Carving
  import opened Spanning

  /** A cell's progress; the source stores 0, 1 and 2. */
  datatype Status = Unvisited | Frontier | InMaze

  function Rank(s: Status): (n: nat)
    ensures n <= 2
    ensures s == Unvisited <==> n == 0
    ensures s == InMaze <==> n == 2
  {
    match s
    case Unvisited => 0
    case Frontier => 1
    case InMaze => 2
  }

  /** `cell_status`: one row of statuses per logical row. */
  type StatusGrid = seq<seq<Status>>

  predicate Shaped(status: StatusGrid, rows: nat, cols: nat) {
    |status| == rows && forall r :: 0 <= r < rows ==> |status[r]| == cols
  }

  function At(status: StatusGrid, cell: Cell): Status
    requires 0 <= cell.r < |status| && 0 <= cell.c < |status[cell.r]|
  {
    status[cell.r][cell.c]
  }

  /** `cell_status[r][c] = s`. */
  function SetAt(status: StatusGrid, cell: Cell, s: Status): (st: StatusGrid)
    requires 0 <= cell.r < |status| && 0 <= cell.c < |status[cell.r]|
    ensures |st| == |status| && forall r :: 0 <= r < |st| ==> |st[r]| == |status[r]|
    ensures At(st, cell) == s
    ensures forall x: Cell :: 0 <= x.r < |st| && 0 <= x.c < |st[x.r]| && x != cell ==> At(st, x) == At(status, x)
  {
    status[cell.r := status[cell.r][cell.c := s]]
  }

  /** A frontier wall `(r, c, dr, dc)`: from maze cell `(r, c)` towards
      `(r + dr, c + dc)`. */
  datatype WallEntry = WallEntry(r: int, c: int, dr: int, dc: int)

  function From(e: WallEntry): Cell {
    Cell(e.r, e.c)
  }

  function To(e: WallEntry): Cell {
    Cell(e.r + e.dr, e.c + e.dc)
  }

  /** The frontier wall from `cell` in direction `d`. */
  function EntryAt(cell: Cell, d: nat): (e: WallEntry)
    requires d < |Directions|
    ensures From(e) == cell && To(e) == Neighbour(cell, d) && (e.dr, e.dc) == Directions[d]
  {
    WallEntry(cell.r, cell.c, Directions[d].0, Directions[d].1)
  }

  /** The grid cell between the centres of `From(e)` and `To(e)`: the first
      centre moved by `(dr, dc)`. */
  function MidWall(e: WallEntry): (w: (int, int))
    ensures 2 * w.0 == ToGridCoords(From(e)).0 + ToGridCoords(To(e)).0
    ensures 2 * w.1 == ToGridCoords(From(e)).1 + ToGridCoords(To(e)).1
  {
    (2 * e.r + 1 + e.dr, 2 * e.c + 1 + e.dc)
  }

  /** Which of the four directions the entry's `(dr, dc)` is. */
  function DirectionOf(e: WallEntry): (d: nat)
    requires (e.dr, e.dc) in Directions
    ensures d < |Directions| && Directions[d] == (e.dr, e.dc)
    ensures To(e) == Neighbour(From(e), d) && MidWall(e) == WallBetween(From(e), d)
  {
    if (e.dr, e.dc) == Directions[0] then 0
    else if (e.dr, e.dc) == Directions[1] then 1
    else if (e.dr, e.dc) == Directions[2] then 2
    else 3
  }

  /** The cells the frontier walls from index `lo` on lead to. */
  ghost function TargetsFrom(frontier: seq<WallEntry>, lo: int): set<Cell> {
    set i | lo <= i < |frontier| && 0 <= i :: To(frontier[i])
  }

  /** The cells the frontier walls lead to. */
  ghost function Targets(frontier: seq<WallEntry>): set<Cell> {
    TargetsFrom(frontier, 0)
  }

  /** Neighbours in different directions are different cells. */
  lemma NeighboursDiffer(cell: Cell, d1: nat, d2: nat)
    requires d1 < |Directions| && d2 < |Directions| && d1 != d2
    ensures Neighbour(cell, d1) != Neighbour(cell, d2)
  {
  }

  /** What adding the walls of `cell` in directions `k`, `k + 1`, ... does to
      the statuses `status` and the frontier `frontier`, giving `st` and `fr`:
      the old entries stay in front; each new entry leads from `cell` to an
      in-range cell that was unvisited and is now frontier, no two to the
      same cell; the only status changes are those cells; and every in-range
      unvisited neighbour in those directions is now frontier. */
  ghost predicate AddedFrom(rows: nat, cols: nat, status: StatusGrid, frontier: seq<WallEntry>, cell: Cell, k: nat,
                            st: StatusGrid, fr: seq<WallEntry>)
    requires Shaped(status, rows, cols) && k <= |Directions|
  {
    && Shaped(st, rows, cols)
    && |fr| >= |frontier| && fr[..|frontier|] == frontier
    && (forall i :: |frontier| <= i < |fr| ==> From(fr[i]) == cell && (fr[i].dr, fr[i].dc) in Directions)
    && (forall i :: |frontier| <= i < |fr| ==>
          InRange(rows, cols, To(fr[i])) && At(status, To(fr[i])) == Unvisited && At(st, To(fr[i])) == Frontier)
    && (forall i, j :: |frontier| <= i < j < |fr| ==> To(fr[i]) != To(fr[j]))
    && (forall x :: InRange(rows, cols, x) && At(st, x) != At(status, x) ==>
          At(status, x) == Unvisited && At(st, x) == Frontier && x in TargetsFrom(fr, |frontier|))
    && (forall d :: k <= d < |Directions| && InRange(rows, cols, Neighbour(cell, d)) && At(status, Neighbour(cell, d)) == Unvisited ==>
          At(st, Neighbour(cell, d)) == Frontier)
  }

  /** Adding the wall in direction `k` first, then the rest: the frontier
      part of `AddedFrom`. */
  lemma FirstEntries(rows: nat, cols: nat, status: StatusGrid, frontier: seq<WallEntry>, cell: Cell, k: nat,
                     st: StatusGrid, fr: seq<WallEntry>)
    requires Shaped(status, rows, cols) && k < |Directions|
    requires InRange(rows, cols, Neighbour(cell, k)) && At(status, Neighbour(cell, k)) == Unvisited
    requires AddedFrom(rows, cols, SetAt(status, Neighbour(cell, k), Frontier), frontier + [EntryAt(cell, k)], cell, k + 1, st, fr)
    ensures |fr| > |frontier| && fr[..|frontier|] == frontier && fr[|frontier|] == EntryAt(cell, k)
    ensures forall i :: |frontier| <= i < |fr| ==> From(fr[i]) == cell && (fr[i].dr, fr[i].dc) in Directions
    ensures forall i :: |frontier| <= i < |fr| ==>
              InRange(rows, cols, To(fr[i])) && At(status, To(fr[i])) == Unvisited && At(st, To(fr[i])) == Frontier
    ensures forall i, j :: |frontier| <= i < j < |fr| ==> To(fr[i]) != To(fr[j])
  {
    var n := Neighbour(cell, k);
    var frontier1 := frontier + [EntryAt(cell, k)];
    assert fr[..|frontier1|] == frontier1;
    assert fr[..|frontier|] == frontier by {
      assert fr[..|frontier|] == fr[..|frontier1|][..|frontier|];
    }
    assert fr[|frontier|] == EntryAt(cell, k);
    forall i | |frontier| < i < |fr|
      ensures At(status, To(fr[i])) == Unvisited && To(fr[i]) != n
    {
    }
  }

  /** Adding the wall in direction `k` first, then the rest: the status part
      of `AddedFrom`. */
  lemma FirstStatuses(rows: nat, cols: nat, status: StatusGrid, frontier: seq<WallEntry>, cell: Cell, k: nat,
                      st: StatusGrid, fr: seq<WallEntry>)
    requires Shaped(status, rows, cols) && k < |Directions|
    requires InRange(rows, cols, Neighbour(cell, k)) && At(status, Neighbour(cell, k)) == Unvisited
    requires |fr| > |frontier| && fr[|frontier|] == EntryAt(cell, k)
    requires AddedFrom(rows, cols, SetAt(status, Neighbour(cell, k), Frontier), frontier + [EntryAt(cell, k)], cell, k + 1, st, fr)
    ensures forall x :: InRange(rows, cols, x) && At(st, x) != At(status, x) ==>
              At(status, x) == Unvisited && At(st, x) == Frontier && x in TargetsFrom(fr, |frontier|)
    ensures forall d :: k <= d < |Directions| && InRange(rows, cols, Neighbour(cell, d)) && At(status, Neighbour(cell, d)) == Unvisited ==>
              At(st, Neighbour(cell, d)) == Frontier
  {
    var n := Neighbour(cell, k);
    var frontier1 := frontier + [EntryAt(cell, k)];
    assert At(st, n) == Frontier;
    forall x | InRange(rows, cols, x) && At(st, x) != At(status, x)
      ensures At(status, x) == Unvisited && At(st, x) == Frontier && x in TargetsFrom(fr, |frontier|)
    {
      if x == n {
        assert To(fr[|frontier|]) == x;
      } else {
        var i :| |frontier1| <= i < |fr| && To(fr[i]) == x;
      }
    }
    forall d | k < d < |Directions|
      ensures Neighbour(cell, d) != n
    {
      NeighboursDiffer(cell, d, k);
    }
  }

  /** Adding the wall in direction `k` first, then the rest. */
  lemma AddedFirst(rows: nat, cols: nat, status: StatusGrid, frontier: seq<WallEntry>, cell: Cell, k: nat,
                   st: StatusGrid, fr: seq<WallEntry>)
    requires Shaped(status, rows, cols) && k < |Directions|
    requires InRange(rows, cols, Neighbour(cell, k)) && At(status, Neighbour(cell, k)) == Unvisited
    requires AddedFrom(rows, cols, SetAt(status, Neighbour(cell, k), Frontier), frontier + [EntryAt(cell, k)], cell, k + 1, st, fr)
    ensures AddedFrom(rows, cols, status, frontier, cell, k, st, fr)
  {
    FirstEntries(rows, cols, status, frontier, cell, k, st, fr);
    FirstStatuses(rows, cols, status, frontier, cell, k, st, fr);
  }

  /** Skipping direction `k`, then the rest. */
  lemma AddedSkip(rows: nat, cols: nat, status: StatusGrid, frontier: seq<WallEntry>, cell: Cell, k: nat,
                  st: StatusGrid, fr: seq<WallEntry>)
    requires Shaped(status, rows, cols) && k < |Directions|
    requires !(InRange(rows, cols, Neighbour(cell, k)) && At(status, Neighbour(cell, k)) == Unvisited)
    requires AddedFrom(rows, cols, status, frontier, cell, k + 1, st, fr)
    ensures AddedFrom(rows, cols, status, frontier, cell, k, st, fr)
  {
  }

  /** The walls of `cell` in directions `k`, `k + 1`, ... leading to in-range
      unvisited cells are appended to the frontier, and those cells marked
      frontier. */
  function AddFrom(rows: nat, cols: nat, status: StatusGrid, frontier: seq<WallEntry>, cell: Cell, k: nat)
    : (res: (StatusGrid, seq<WallEntry>))
    requires Shaped(status, rows, cols) && k <= |Directions|
    ensures AddedFrom(rows, cols, status, frontier, cell, k, res.0, res.1)
    decreases |Directions| - k
  {
    if k == |Directions| then (status, frontier)
    else
      var n := Neighbour(cell, k);
      if InRange(rows, cols, n) && At(status, n) == Unvisited then
        var res := AddFrom(rows, cols, SetAt(status, n, Frontier), frontier + [EntryAt(cell, k)], cell, k + 1);
        AddedFirst(rows, cols, status, frontier, cell, k, res.0, res.1);
        res
      else
        var res := AddFrom(rows, cols, status, frontier, cell, k + 1);
        AddedSkip(rows, cols, status, frontier, cell, k, res.0, res.1);
        res
  }

  /** The seeding loop: the walls of the start cell to every in-range
      neighbour, with no status check. `SeedMatchesAdd` shows that, while
      those neighbours are all unvisited, it adds exactly what `AddFrom`
      (the checked loop of the growing phase) adds. */
  function SeedFrom(rows: nat, cols: nat, status: StatusGrid, frontier: seq<WallEntry>, cell: Cell, k: nat)
    : (res: (StatusGrid, seq<WallEntry>))
    requires Shaped(status, rows, cols) && k <= |Directions|
    ensures Shaped(res.0, rows, cols)
    decreases |Directions| - k
  {
    if k == |Directions| then (status, frontier)
    else
      var n := Neighbour(cell, k);
      if InRange(rows, cols, n) then SeedFrom(rows, cols, SetAt(status, n, Frontier), frontier + [EntryAt(cell, k)], cell, k + 1)
      else SeedFrom(rows, cols, status, frontier, cell, k + 1)
  }

  /** While the neighbours are all unvisited, the seeding loop's missing
      status check changes nothing: it adds exactly what the growing loop
      would. */
  lemma {:induction false} SeedMatchesAdd(rows: nat, cols: nat, status: StatusGrid, frontier: seq<WallEntry>, cell: Cell, k: nat)
    requires Shaped(status, rows, cols) && k <= |Directions|
    requires forall d :: k <= d < |Directions| && InRange(rows, cols, Neighbour(cell, d)) ==> At(status, Neighbour(cell, d)) == Unvisited
    ensures SeedFrom(rows, cols, status, frontier, cell, k) == AddFrom(rows, cols, status, frontier, cell, k)
    decreases |Directions| - k
  {
    if k < |Directions| {
      var n := Neighbour(cell, k);
      if InRange(rows, cols, n) {
        var status1 := SetAt(status, n, Frontier);
        forall d | k + 1 <= d < |Directions| && InRange(rows, cols, Neighbour(cell, d))
          ensures At(status1, Neighbour(cell, d)) == Unvisited
        {
          NeighboursDiffer(cell, d, k);
        }
        SeedMatchesAdd(rows, cols, status1, frontier + [EntryAt(cell, k)], cell, k + 1);
      } else {
        SeedMatchesAdd(rows, cols, status, frontier, cell, k + 1);
      }
    }
  }

  /** A frontier wall as the loop keeps it: from an in-maze cell one unit
      step to an in-range frontier cell. */
  ghost predicate EntryOk(rows: nat, cols: nat, status: StatusGrid, e: WallEntry)
    requires Shaped(status, rows, cols)
  {
    && (e.dr, e.dc) in Directions
    && InRange(rows, cols, From(e)) && At(status, From(e)) == InMaze
    && InRange(rows, cols, To(e)) && At(status, To(e)) == Frontier
  }

  /** The frontier list and the statuses agree: every entry is a frontier
      wall, no two lead to the same cell, and every frontier cell is led to
      by one (so by exactly one). */
  ghost predicate FrontierMatches(rows: nat, cols: nat, status: StatusGrid, frontier: seq<WallEntry>)
    requires Shaped(status, rows, cols)
  {
    && (forall i :: 0 <= i < |frontier| ==> EntryOk(rows, cols, status, frontier[i]))
    && (forall i, j :: 0 <= i < j < |frontier| ==> To(frontier[i]) != To(frontier[j]))
    && (forall x :: InRange(rows, cols, x) && At(status, x) == Frontier ==> x in Targets(frontier))
  }

  /** No unvisited cell is next to an in-maze cell. */
  ghost predicate Enclosed(rows: nat, cols: nat, status: StatusGrid)
    requires Shaped(status, rows, cols)
  {
    forall x, d :: InRange(rows, cols, x) && At(status, x) == InMaze && 0 <= d < |Directions| && InRange(rows, cols, Neighbour(x, d)) ==>
      At(status, Neighbour(x, d)) != Unvisited
  }

  ghost function InMazeCells(rows: nat, cols: nat, status: StatusGrid): set<Cell>
    requires Shaped(status, rows, cols)
  {
    set r, c | 0 <= r < rows && 0 <= c < cols && status[r][c] == InMaze :: Cell(r, c)
  }

  /** The loop invariant of the generator: the frontier matches the
      statuses, the maze is enclosed by frontier cells, and the grid is
      carved over the in-maze cells with one open mid-wall fewer. */
  ghost predicate PrimInv(grid: Grid, rows: nat, cols: nat, status: StatusGrid, frontier: seq<WallEntry>) {
    && Shaped(status, rows, cols)
    && FrontierMatches(rows, cols, status, frontier)
    && Enclosed(rows, cols, status)
    && InMazeCells(rows, cols, status) != {}
    && Carved(grid, rows, cols, InMazeCells(rows, cols, status), InMazeCells(rows, cols, status))
    && |OpenMidWalls(grid)| + 1 == |InMazeCells(rows, cols, status)|
  }

  /** Taking the wall at `idx` off the frontier and moving the cell it leads
      to into the maze leaves a frontier that matches the new statuses. */
  lemma PopMatches(rows: nat, cols: nat, status: StatusGrid, frontier: seq<WallEntry>, idx: nat, st1: StatusGrid)
    requires Shaped(status, rows, cols) && FrontierMatches(rows, cols, status, frontier) && idx < |frontier|
    requires st1 == SetAt(status, To(frontier[idx]), InMaze)
    ensures Shaped(st1, rows, cols) && FrontierMatches(rows, cols, st1, RemoveAt(frontier, idx))
  {
    var rest := RemoveAt(frontier, idx);
    assert EntryOk(rows, cols, status, frontier[idx]);
    PopEntries(rows, cols, status, frontier, idx, st1, rest);
    PopDistinct(frontier, idx, rest);
    PopCovers(rows, cols, status, frontier, idx, st1, rest);
  }

  lemma PopEntries(rows: nat, cols: nat, status: StatusGrid, frontier: seq<WallEntry>, idx: nat, st1: StatusGrid,
                   rest: seq<WallEntry>)
    requires Shaped(status, rows, cols) && idx < |frontier|
    requires forall i :: 0 <= i < |frontier| ==> EntryOk(rows, cols, status, frontier[i])
    requires forall i, j :: 0 <= i < j < |frontier| ==> To(frontier[i]) != To(frontier[j])
    requires InRange(rows, cols, To(frontier[idx]))
    requires st1 == SetAt(status, To(frontier[idx]), InMaze) && rest == RemoveAt(frontier, idx)
    ensures Shaped(st1, rows, cols) && forall i :: 0 <= i < |rest| ==> EntryOk(rows, cols, st1, rest[i])
  {
    var t := To(frontier[idx]);
    assert EntryOk(rows, cols, status, frontier[idx]);
    forall i | 0 <= i < |rest|
      ensures EntryOk(rows, cols, st1, rest[i])
    {
      var j := if i < idx then i else i + 1;
      assert rest[i] == frontier[j] && EntryOk(rows, cols, status, frontier[j]);
      assert To(frontier[j]) != t;
    }
  }

  lemma PopDistinct(frontier: seq<WallEntry>, idx: nat, rest: seq<WallEntry>)
    requires idx < |frontier| && rest == RemoveAt(frontier, idx)
    requires forall i, j :: 0 <= i < j < |frontier| ==> To(frontier[i]) != To(frontier[j])
    ensures forall i, j :: 0 <= i < j < |rest| ==> To(rest[i]) != To(rest[j])
  {
    forall i, j | 0 <= i < j < |rest|
      ensures To(rest[i]) != To(rest[j])
    {
      var i', j' := if i < idx then i else i + 1, if j < idx then j else j + 1;
      assert rest[i] == frontier[i'] && rest[j] == frontier[j'];
    }
  }

  lemma PopCovers(rows: nat, cols: nat, status: StatusGrid, frontier: seq<WallEntry>, idx: nat, st1: StatusGrid,
                  rest: seq<WallEntry>)
    requires Shaped(status, rows, cols) && idx < |frontier|
    requires forall x :: InRange(rows, cols, x) && At(status, x) == Frontier ==> x in Targets(frontier)
    requires forall i, j :: 0 <= i < j < |frontier| ==> To(frontier[i]) != To(frontier[j])
    requires InRange(rows, cols, To(frontier[idx]))
    requires st1 == SetAt(status, To(frontier[idx]), InMaze) && rest == RemoveAt(frontier, idx)
    ensures Shaped(st1, rows, cols)
    ensures forall x :: InRange(rows, cols, x) && At(st1, x) == Frontier ==> x in Targets(rest)
  {
    var t := To(frontier[idx]);
    forall x | InRange(rows, cols, x) && At(st1, x) == Frontier
      ensures x in Targets(rest)
    {
      assert x != t && At(status, x) == Frontier;
      var j :| 0 <= j < |frontier| && To(frontier[j]) == x;
      assert j != idx;
      var i := if j < idx then j else j - 1;
      assert rest[i] == frontier[j];
    }
  }

  /** Adding the walls of the newly joined cell `t` keeps the frontier
      matching the statuses. */
  lemma AddMatches(rows: nat, cols: nat, st1: StatusGrid, rest: seq<WallEntry>, t: Cell, st2: StatusGrid, fr2: seq<WallEntry>)
    requires Shaped(st1, rows, cols) && FrontierMatches(rows, cols, st1, rest)
    requires InRange(rows, cols, t) && At(st1, t) == InMaze
    requires AddedFrom(rows, cols, st1, rest, t, 0, st2, fr2)
    ensures FrontierMatches(rows, cols, st2, fr2)
  {
    forall i | 0 <= i < |fr2|
      ensures EntryOk(rows, cols, st2, fr2[i])
    {
      if i < |rest| {
        assert fr2[i] == fr2[..|rest|][i] == rest[i];
        assert EntryOk(rows, cols, st1, rest[i]);
      }
    }
    forall i, j | 0 <= i < j < |fr2|
      ensures To(fr2[i]) != To(fr2[j])
    {
      if j < |rest| {
        assert fr2[i] == fr2[..|rest|][i] && fr2[j] == fr2[..|rest|][j];
      } else if i < |rest| {
        assert fr2[i] == fr2[..|rest|][i] == rest[i];
        assert EntryOk(rows, cols, st1, rest[i]);
      }
    }
    forall x | InRange(rows, cols, x) && At(st2, x) == Frontier
      ensures x in Targets(fr2)
    {
      if At(st1, x) == Frontier {
        var i :| 0 <= i < |rest| && To(rest[i]) == x;
        assert fr2[i] == fr2[..|rest|][i] == rest[i];
      } else {
        var i :| |rest| <= i < |fr2| && To(fr2[i]) == x;
      }
    }
  }

  /** Joining `t` and adding its walls keeps the maze enclosed. */
  lemma AddEncloses(rows: nat, cols: nat, status: StatusGrid, t: Cell, st1: StatusGrid, rest: seq<WallEntry>,
                    st2: StatusGrid, fr2: seq<WallEntry>)
    requires Shaped(status, rows, cols) && Enclosed(rows, cols, status) && InRange(rows, cols, t)
    requires st1 == SetAt(status, t, InMaze)
    requires Shaped(st1, rows, cols) && AddedFrom(rows, cols, st1, rest, t, 0, st2, fr2)
    ensures Enclosed(rows, cols, st2)
  {
    forall x, d | InRange(rows, cols, x) && At(st2, x) == InMaze && 0 <= d < |Directions| && InRange(rows, cols, Neighbour(x, d))
      ensures At(st2, Neighbour(x, d)) != Unvisited
    {
      var n := Neighbour(x, d);
      assert At(st1, x) == InMaze;
      if x != t {
        assert At(status, x) == InMaze;
        assert At(status, n) != Unvisited;
        assert At(st1, n) != Unvisited;
      }
    }
  }

  /** Joining `t` (a frontier cell) and adding its walls adds exactly `t` to
      the maze, and moves every status up. */
  lemma AddJoins(rows: nat, cols: nat, status: StatusGrid, t: Cell, st1: StatusGrid, rest: seq<WallEntry>,
                 st2: StatusGrid, fr2: seq<WallEntry>)
    requires Shaped(status, rows, cols) && InRange(rows, cols, t) && At(status, t) == Frontier
    requires st1 == SetAt(status, t, InMaze)
    requires Shaped(st1, rows, cols) && AddedFrom(rows, cols, st1, rest, t, 0, st2, fr2)
    ensures t !in InMazeCells(rows, cols, status)
    ensures InMazeCells(rows, cols, st2) == InMazeCells(rows, cols, status) + {t}
    ensures forall x :: InRange(rows, cols, x) ==> Rank(At(status, x)) <= Rank(At(st2, x))
  {
    forall x | x in InMazeCells(rows, cols, st2)
      ensures x in InMazeCells(rows, cols, status) + {t}
    {
      assert At(st2, x) == InMaze && At(st1, x) == InMaze;
    }
    forall x | x in InMazeCells(rows, cols, status) + {t}
      ensures x in InMazeCells(rows, cols, st2)
    {
      assert At(st1, x) == InMaze && At(st2, x) == InMaze;
    }
  }

  /** Joining the fresh cell `t`, the neighbour of the in-maze cell `s` in
      direction `d`: open its centre (`g1`), then the mid-wall between them
      (`g`). */
  lemma JoinCarves(grid: Grid, rows: nat, cols: nat, members: set<Cell>, s: Cell, d: nat, t: Cell,
                   g1: Grid, g: Grid, members': set<Cell>)
    requires Carved(grid, rows, cols, members, members) && |OpenMidWalls(grid)| + 1 == |members|
    requires s in members && d < |Directions| && t == Neighbour(s, d)
    requires InRange(rows, cols, t) && t !in members && members' == members + {t}
    requires HasCentre(grid, t) && g1 == Put(grid, 2 * t.r + 1, 2 * t.c + 1, ' ')
    requires 0 <= WallBetween(s, d).0 < |g1| && 0 <= WallBetween(s, d).1 < |g1[WallBetween(s, d).0]|
    requires g == Put(g1, WallBetween(s, d).0, WallBetween(s, d).1, ' ')
    ensures Carved(g, rows, cols, members', members')
    ensures |OpenMidWalls(g)| == |OpenMidWalls(grid)| + 1
    ensures |OpenMidWalls(g)| + 1 == |members'|
  {
    JoinOpensCentre(grid, rows, cols, members, t, g1, members');
    JoinCentre(grid, rows, cols, members, s, d, t, g1);
    CarveMidWall(g1, rows, cols, members', members', s, d, g);
    AddFresh(members, t);
  }

  /** Opening the fresh cell's centre (`g1`) leaves the mid-wall towards it
      closed. */
  lemma JoinCentre(grid: Grid, rows: nat, cols: nat, members: set<Cell>, s: Cell, d: nat, t: Cell, g1: Grid)
    requires Carved(grid, rows, cols, members, members)
    requires s in members && d < |Directions| && t == Neighbour(s, d)
    requires InRange(rows, cols, t) && t !in members
    requires HasCentre(grid, t) && g1 == Put(grid, 2 * t.r + 1, 2 * t.c + 1, ' ')
    ensures 0 <= WallBetween(s, d).0 < |g1| && 0 <= WallBetween(s, d).1 < |g1[WallBetween(s, d).0]|
    ensures g1[WallBetween(s, d).0][WallBetween(s, d).1] == Wall
  {
    AllCellsInRange(rows, cols, s);
    FreshWallClosed(grid, rows, cols, members, members, s, d);
    WallBetweenIsMidWall(rows, cols, s, d);
    CentreIsCentre(t);
  }

  /** Opening the centre of a fresh in-range cell `t` (`g1`) joins it. */
  lemma JoinOpensCentre(grid: Grid, rows: nat, cols: nat, members: set<Cell>, t: Cell, g1: Grid, members': set<Cell>)
    requires Carved(grid, rows, cols, members, members) && InRange(rows, cols, t)
    requires members' == members + {t}
    requires HasCentre(grid, t) && g1 == Put(grid, 2 * t.r + 1, 2 * t.c + 1, ' ')
    ensures Carved(g1, rows, cols, members', members')
    ensures OpenMidWalls(g1) == OpenMidWalls(grid)
  {
    CarvedJoin(grid, rows, cols, members, members, t, members');
    CarveCentre(grid, rows, cols, members', members, t, g1, members');
  }

  /** Every step of one round of the loop, given its intermediate values:
      the wall `frontier[idx]` from `s` in direction `d` is taken off
      (`rest`), its target `t` is joined (`st1`, `g1`, then `grid'` with the
      mid-wall `w` open) and the walls of `t` are added (`status'`,
      `frontier'`). */
  lemma GrowKeeps(grid: Grid, rows: nat, cols: nat, status: StatusGrid, frontier: seq<WallEntry>, idx: nat,
                  e: WallEntry, s: Cell, t: Cell, w: (int, int), rest: seq<WallEntry>, st1: StatusGrid, g1: Grid,
                  grid': Grid, status': StatusGrid, frontier': seq<WallEntry>)
    requires Shaped(status, rows, cols) && idx < |frontier| && e == frontier[idx] && EntryOk(rows, cols, status, e)
    requires s == From(e) && t == To(e) && w == MidWall(e)
    requires rest == RemoveAt(frontier, idx) && st1 == SetAt(status, t, InMaze)
    requires HasCentre(grid, t) && g1 == Put(grid, 2 * t.r + 1, 2 * t.c + 1, ' ')
    requires 0 <= w.0 < |g1| && 0 <= w.1 < |g1[w.0]| && grid' == Put(g1, w.0, w.1, ' ')
    requires Shaped(st1, rows, cols) && AddedFrom(rows, cols, st1, rest, t, 0, status', frontier')
    requires PrimInv(grid, rows, cols, status, frontier)
    ensures Shaped(status', rows, cols) && PrimInv(grid', rows, cols, status', frontier')
    ensures InMazeCells(rows, cols, status') == InMazeCells(rows, cols, status) + {t}
    ensures forall x :: InRange(rows, cols, x) ==> Rank(At(status, x)) <= Rank(At(status', x))
    ensures |frontier'| >= |frontier| - 1 && frontier'[..|frontier| - 1] == RemoveAt(frontier, idx)
    ensures |OpenMidWalls(grid')| == |OpenMidWalls(grid)| + 1
    ensures (AllCells(rows, cols) - InMazeCells(rows, cols, status')) < (AllCells(rows, cols) - InMazeCells(rows, cols, status))
  {
    var d := DirectionOf(e);
    var members := InMazeCells(rows, cols, status);
    JoinCentre(grid, rows, cols, members, s, d, t, g1);
    AddJoins(rows, cols, status, t, st1, rest, status', frontier');
    var members' := InMazeCells(rows, cols, status');
    assert s in members;
    JoinCarves(grid, rows, cols, members, s, d, t, g1, grid', members');
    PopMatches(rows, cols, status, frontier, idx, st1);
    AddMatches(rows, cols, st1, rest, t, status', frontier');
    AddEncloses(rows, cols, status, t, st1, rest, status', frontier');
    JoinShrinks(rows, cols, InMazeCells(rows, cols, status), t, members');
    KeepsRest(frontier, idx, rest, frontier');
  }

  /** Joining a fresh in-range cell leaves fewer cells outside the maze. */
  lemma JoinShrinks(rows: nat, cols: nat, members: set<Cell>, t: Cell, members': set<Cell>)
    requires InRange(rows, cols, t) && t !in members && members' == members + {t}
    ensures (AllCells(rows, cols) - members') < (AllCells(rows, cols) - members)
  {
    assert t in AllCells(rows, cols);
  }

  /** The old walls, minus the popped one, stay in front. */
  lemma KeepsRest(frontier: seq<WallEntry>, idx: nat, rest: seq<WallEntry>, frontier': seq<WallEntry>)
    requires idx < |frontier| && rest == RemoveAt(frontier, idx)
    requires |frontier'| >= |rest| && frontier'[..|rest|] == rest
    ensures |frontier'| >= |frontier| - 1 && frontier'[..|frontier| - 1] == RemoveAt(frontier, idx)
  {
  }

  /** `status'` absorbs cell `t` into the maze: the in-maze cells gain exactly
      `t`, and no cell's status goes down. */
  ghost predicate Absorbed(rows: nat, cols: nat, status: StatusGrid, status': StatusGrid, t: Cell)
    requires Shaped(status, rows, cols) && Shaped(status', rows, cols)
  {
    && InMazeCells(rows, cols, status') == InMazeCells(rows, cols, status) + {t}
    && forall x :: InRange(rows, cols, x) ==> Rank(At(status, x)) <= Rank(At(status', x))
  }

  /** Joining the target `t` of the popped wall `e` (from `s` in direction
      `d`, leaving the walls `rest`): open its centre and the mid-wall, mark
      it in the maze and add its walls to unvisited cells. */
  lemma ReadyToJoin(grid: Grid, rows: nat, cols: nat, status: StatusGrid, e: WallEntry)
    requires Shaped(status, rows, cols) && EntryOk(rows, cols, status, e)
    requires |grid| == 2 * rows + 1 && (forall i :: 0 <= i < |grid| ==> |grid[i]| == 2 * cols + 1)
    ensures HasCentre(grid, To(e))
    ensures 0 <= MidWall(e).0 < |grid| && 0 <= MidWall(e).1 < |grid[MidWall(e).0]|
    ensures Shaped(SetAt(status, To(e), InMaze), rows, cols)
  {
    WallBetweenIsMidWall(rows, cols, From(e), DirectionOf(e));
  }

  method Join(rows: nat, cols: nat, grid: Grid, status: StatusGrid, rest: seq<WallEntry>, e: WallEntry,
              ghost frontier: seq<WallEntry>, ghost idx: nat,
              ghost root: Cell, ghost parent: map<Cell, Cell>, ghost rank: map<Cell, nat>)
    returns (grid': Grid, status': StatusGrid, frontier': seq<WallEntry>, ghost parent': map<Cell, Cell>, ghost rank': map<Cell, nat>)
    requires Shaped(status, rows, cols) && idx < |frontier| && e == frontier[idx] && rest == RemoveAt(frontier, idx)
    requires EntryOk(rows, cols, status, e)
    requires PrimInv(grid, rows, cols, status, frontier)
    requires Linked(grid, InMazeCells(rows, cols, status), root, parent, rank)
    ensures Shaped(status', rows, cols)
    ensures Absorbed(rows, cols, status, status', To(e))
    ensures |frontier'| >= |frontier| - 1 && frontier'[..|frontier| - 1] == rest
    ensures |OpenMidWalls(grid')| == |OpenMidWalls(grid)| + 1
    ensures (AllCells(rows, cols) - InMazeCells(rows, cols, status')) < (AllCells(rows, cols) - InMazeCells(rows, cols, status))
    ensures Linked(grid', InMazeCells(rows, cols, status'), root, parent', rank')
    ensures PrimInv(grid', rows, cols, status', frontier')
  {
    var s, t := From(e), To(e);
    ReadyToJoin(grid, rows, cols, status, e);
    var g1 := Put(grid, 2 * t.r + 1, 2 * t.c + 1, ' ');
    var w := MidWall(e);
    grid' := Put(g1, w.0, w.1, ' ');
    ghost var members := InMazeCells(rows, cols, status);
    parent', rank' := JoinLinks(grid, rows, cols, status, e, s, t, w, g1, grid', members, root, parent, rank);
    var st1 := SetAt(status, t, InMaze);
    var res := AddFrom(rows, cols, st1, rest, t, 0);
    status', frontier' := res.0, res.1;
    GrowKeeps(grid, rows, cols, status, frontier, idx, e, s, t, w, rest, st1, g1, grid', status', frontier');
  }

  /** Opening the centre of the target `t` of `e` (`g1`) and then the
      mid-wall of `e` (`g`) joins `t` to the tree, with parent `From(e)`. */
  lemma JoinLinks(grid: Grid, rows: nat, cols: nat, status: StatusGrid, e: WallEntry, s: Cell, t: Cell, w: (int, int),
                  g1: Grid, g: Grid, members: set<Cell>, root: Cell, parent: map<Cell, Cell>, rank: map<Cell, nat>)
    returns (parent': map<Cell, Cell>, rank': map<Cell, nat>)
    requires Shaped(status, rows, cols) && EntryOk(rows, cols, status, e)
    requires s == From(e) && t == To(e) && w == MidWall(e) && members == InMazeCells(rows, cols, status)
    requires HasCentre(grid, t) && g1 == Put(grid, 2 * t.r + 1, 2 * t.c + 1, ' ')
    requires 0 <= w.0 < |g1| && 0 <= w.1 < |g1[w.0]| && g == Put(g1, w.0, w.1, ' ')
    requires Linked(grid, members, root, parent, rank)
    ensures parent' == parent[t := s] && Linked(g, members + {t}, root, parent', rank')
  {
    PutWider(grid, 2 * t.r + 1, 2 * t.c + 1, ' ');
    PutWider(g1, w.0, w.1, ' ');
    WiderTrans(grid, g1, g);
    LinkedWider(grid, g, members, root, parent, rank);
    var d := DirectionOf(e);
    NeighbourAdjacent(s, d);
    assert s in members && t !in members;
    assert OpenBetween(g, t, s);
    LinkedGrow(g, members, root, parent, rank, t, s);
    parent', rank' := parent[t := s], rank[t := rank[s] + 1];
  }

  /** One round of the loop: pop the wall at `idx`; its target is always a
      frontier cell (so the status check always passes), and is joined. */
  method Grow(rows: nat, cols: nat, grid: Grid, status: StatusGrid, frontier: seq<WallEntry>, idx: nat,
              ghost root: Cell, ghost parent: map<Cell, Cell>, ghost rank: map<Cell, nat>)
    returns (grid': Grid, status': StatusGrid, frontier': seq<WallEntry>, ghost parent': map<Cell, Cell>, ghost rank': map<Cell, nat>)
    requires PrimInv(grid, rows, cols, status, frontier) && idx < |frontier|
    requires Linked(grid, InMazeCells(rows, cols, status), root, parent, rank)
    ensures Shaped(status', rows, cols)
    ensures InRange(rows, cols, To(frontier[idx])) && At(status, To(frontier[idx])) == Frontier
    ensures Absorbed(rows, cols, status, status', To(frontier[idx]))
    ensures |frontier'| >= |frontier| - 1 && frontier'[..|frontier| - 1] == RemoveAt(frontier, idx)
    ensures |OpenMidWalls(grid')| == |OpenMidWalls(grid)| + 1
    ensures (AllCells(rows, cols) - InMazeCells(rows, cols, status')) < (AllCells(rows, cols) - InMazeCells(rows, cols, status))
    ensures Linked(grid', InMazeCells(rows, cols, status'), root, parent', rank')
    ensures PrimInv(grid', rows, cols, status', frontier')
  {
    var e := frontier[idx];
    assert EntryOk(rows, cols, status, e);
    var rest := RemoveAt(frontier, idx);
    if At(status, To(e)) == Frontier {
      grid', status', frontier', parent', rank' := Join(rows, cols, grid, status, rest, e, frontier, idx, root, parent, rank);
    } else {
      assert false;
    }
  }

  /** `cell_status` as first built: every cell unvisited. */
  function AllUnvisited(rows: nat, cols: nat): (st: StatusGrid)
    ensures Shaped(st, rows, cols)
    ensures forall x :: InRange(rows, cols, x) ==> At(st, x) == Unvisited
  {
    seq(rows, _ => seq(cols, _ => Unvisited))
  }

  lemma NeighbourMoves(cell: Cell, d: nat)
    requires d < |Directions|
    ensures Neighbour(cell, d) != cell
  {
  }

  /** Seeding from the start cell (`st0` marks it in the maze) adds a wall
      to each in-range neighbour, and leaves a frontier that matches the
      statuses around a maze of just the start cell. */
  lemma SeedMatches(rows: nat, cols: nat, start: Cell, st0: StatusGrid, status: StatusGrid, frontier: seq<WallEntry>)
    requires InRange(rows, cols, start) && st0 == SetAt(AllUnvisited(rows, cols), start, InMaze)
    requires (status, frontier) == SeedFrom(rows, cols, st0, [], start, 0)
    ensures Shaped(status, rows, cols)
    ensures FrontierMatches(rows, cols, status, frontier) && Enclosed(rows, cols, status)
    ensures InMazeCells(rows, cols, status) == {start}
  {
    var u := AllUnvisited(rows, cols);
    forall d | 0 <= d < |Directions| && InRange(rows, cols, Neighbour(start, d))
      ensures At(st0, Neighbour(start, d)) == Unvisited
    {
      NeighbourMoves(start, d);
    }
    SeedMatchesAdd(rows, cols, st0, [], start, 0);
    var res := AddFrom(rows, cols, st0, [], start, 0);
    assert res == (status, frontier);
    forall x | InRange(rows, cols, x)
      ensures At(st0, x) != Frontier
    {
      if x != start {
        assert At(u, x) == Unvisited;
      }
    }
    AddMatches(rows, cols, st0, [], start, status, frontier);
    AddEncloses(rows, cols, u, start, st0, [], status, frontier);
    forall x | x in InMazeCells(rows, cols, status)
      ensures x == start
    {
      assert At(status, x) == InMaze && At(st0, x) == InMaze;
    }
    assert At(status, start) == InMaze;
  }

  /** The grid after opening the start cell's centre is carved over just the
      start cell. */
  lemma SeedCarves(rows: nat, cols: nat, start: Cell, grid: Grid, members: set<Cell>)
    requires InRange(rows, cols, start) && members == {start}
    requires grid == Put(AllWalls(rows, cols), 2 * start.r + 1, 2 * start.c + 1, ' ')
    ensures Carved(grid, rows, cols, members, members) && |OpenMidWalls(grid)| + 1 == |members|
  {
    assert start in AllCells(rows, cols);
    AllWallsCarved(rows, cols, members);
    CarveCentre(AllWalls(rows, cols), rows, cols, members, {}, start, grid, members);
  }

  /** Once the frontier is empty every cell is in the maze, and setting the
      markers gives a well-carved maze. */
  lemma AllInMaze(grid: Grid, rows: nat, cols: nat, status: StatusGrid)
    requires rows >= 1 && cols >= 1 && PrimInv(grid, rows, cols, status, [])
    ensures InMazeCells(rows, cols, status) == AllCells(rows, cols)
    ensures forall x :: InRange(rows, cols, x) ==> At(status, x) == InMaze
    ensures WellCarved(PlaceMarkers(grid, rows, cols), rows, cols)
  {
    var members := InMazeCells(rows, cols, status);
    var a :| a in members;
    forall x, d | x in members && 0 <= d < |Directions| && InRange(rows, cols, Neighbour(x, d))
      ensures Neighbour(x, d) in members
    {
      var n := Neighbour(x, d);
      assert At(status, x) == InMaze;
      assert At(status, n) != Unvisited;
      assert n !in Targets([]);
    }
    ClosedIsAll(rows, cols, members, a);
    forall x | InRange(rows, cols, x)
      ensures At(status, x) == InMaze
    {
      assert x in AllCells(rows, cols);
    }
    AllCellsSize(rows, cols);
    MarkersMakeWellCarved(grid, rows, cols, members);
  }

  /** The start of `generate`: all walls and all cells unvisited, then the
      start cell joined and its walls to every in-range neighbour added. */
  method Seed(rows: nat, cols: nat, start: Cell) returns (grid: Grid, status: StatusGrid, frontier: seq<WallEntry>)
    requires InRange(rows, cols, start)
    ensures PrimInv(grid, rows, cols, status, frontier)
    ensures InMazeCells(rows, cols, status) == {start}
  {
    grid := AllWalls(rows, cols);
    var st0 := SetAt(AllUnvisited(rows, cols), start, InMaze);
    grid := Put(grid, 2 * start.r + 1, 2 * start.c + 1, ' ');
    var seeded := SeedFrom(rows, cols, st0, [], start, 0);
    status, frontier := seeded.0, seeded.1;
    SeedMatches(rows, cols, start, st0, status, frontier);
    SeedCarves(rows, cols, start, grid, InMazeCells(rows, cols, status));
  }

  /** `generate(rows, cols)` with the start cell `(startR, startC)` and the
      indices popped from the frontier (`choices`, read modulo the frontier
      length) supplied by the caller. */
  method Generate(rows: nat, cols: nat, startR: int, startC: int, choices: seq<nat>) returns (maze: Grid)
    requires rows >= 1 && cols >= 1
    requires 0 <= startR < rows && 0 <= startC < cols
    ensures WellCarved(maze, rows, cols)
    ensures Connected(maze)
  {
    var start := Cell(startR, startC);
    var grid, status, frontier := Seed(rows, cols, start);
    var k := 0;
    ghost var parent: map<Cell, Cell>, rank: map<Cell, nat> := map[], map[start := 0];
    LinkedRoot(grid, start);
    while frontier != []
      invariant PrimInv(grid, rows, cols, status, frontier)
      invariant Linked(grid, InMazeCells(rows, cols, status), start, parent, rank)
      decreases AllCells(rows, cols) - InMazeCells(rows, cols, status)
    {
      var idx := Pick(choices, k, |frontier|);
      grid, status, frontier, parent, rank := Grow(rows, cols, grid, status, frontier, idx, start, parent, rank);
      k := k + 1;
    }
    AllInMaze(grid, rows, cols, status);
    maze := PlaceMarkers(grid, rows, cols);
    MarkersKeepLinks(grid, rows, cols, AllCells(rows, cols), start, parent, rank);
    TreeConnects(maze, rows, cols, start, parent, rank);
  }
}
