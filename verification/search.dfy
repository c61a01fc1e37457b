/** What the three solvers of algorithms.py share: walks and reachability on
    a maze, the parent table they fill in, the neighbour-discovery loop of
    breadth- and depth-first search, and path reconstruction. */
module Search {
  import opened Wrappers
  import opened Sequences
  import opened Grid

  /** Each position is one move from its predecessor. */
  predicate IsWalk(m: Maze, w: seq<Pos>)
    requires WellFormed(m)
  {
    forall i :: 0 <= i < |w| - 1 ==> Step(m, w[i], w[i + 1])
  }

  /** A walk from `s` to `t`; `|w| - 1` is its number of moves. */
  predicate WalkFromTo(m: Maze, w: seq<Pos>, s: Pos, t: Pos)
    requires WellFormed(m)
  {
    |w| > 0 && w[0] == s && w[|w| - 1] == t && IsWalk(m, w)
  }

  /** A path as a solver returns it: a walk from `s` to `t` visiting no cell twice. */
  predicate IsSolution(m: Maze, path: seq<Pos>, s: Pos, t: Pos)
    requires WellFormed(m)
  {
    WalkFromTo(m, path, s, t) && Distinct(path)
  }

  ghost predicate Reachable(m: Maze, s: Pos, t: Pos)
    requires WellFormed(m)
  {
    exists w :: WalkFromTo(m, w, s, t)
  }

  /** The cells reachable from `s`: its connected component when `s` is passable. */
  ghost function ReachableSet(m: Maze, s: Pos): set<Pos>
    requires WellFormed(m)
  {
    set p | p in Cells(m) && Reachable(m, s, p)
  }

  /** No move leads out of `S`. */
  ghost predicate Closed(m: Maze, S: set<Pos>)
    requires WellFormed(m)
  {
    forall p, q :: p in S && Step(m, p, q) ==> q in S
  }

  /** Every move out of `p` reaches a costed cell whose cost is at most one
      more than that of `p`. */
  ghost predicate Relaxed(m: Maze, cost: map<Pos, nat>, p: Pos)
    requires WellFormed(m) && p in cost
  {
    forall q :: Step(m, p, q) ==> q in cost && cost[q] <= cost[p] + 1
  }

  lemma ReachableFromItself(m: Maze, s: Pos)
    requires WellFormed(m)
    ensures Reachable(m, s, s)
  {
    assert WalkFromTo(m, [s], s, s);
  }

  lemma ExtendReachable(m: Maze, s: Pos, p: Pos, q: Pos)
    requires WellFormed(m) && Reachable(m, s, p) && Step(m, p, q)
    ensures Reachable(m, s, q)
  {
    var w :| WalkFromTo(m, w, s, p);
    assert WalkFromTo(m, w + [q], s, q);
  }

  /** Moves are reversible between passable cells, so reachability from a
      passable cell is symmetric. */
  lemma ReachableReverse(m: Maze, s: Pos, t: Pos)
    requires WellFormed(m) && Reachable(m, s, t) && IsValidMove(m, s.x, s.y)
    ensures Reachable(m, t, s)
  {
    var w :| WalkFromTo(m, w, s, t);
    var n := |w|;
    var v := seq(n, i requires 0 <= i < n => w[n - 1 - i]);
    forall i | 0 <= i < n - 1
      ensures Step(m, v[i], v[i + 1])
    {
      var k := n - 2 - i;
      assert v[i] == w[k + 1] && v[i + 1] == w[k];
      assert Step(m, w[k], w[k + 1]);
      if k > 0 {
        assert Step(m, w[k - 1], w[k]);
      }
    }
    assert WalkFromTo(m, v, t, s);
  }

  lemma ReachableTrans(m: Maze, a: Pos, b: Pos, c: Pos)
    requires WellFormed(m) && Reachable(m, a, b) && Reachable(m, b, c)
    ensures Reachable(m, a, c)
  {
    var w1 :| WalkFromTo(m, w1, a, b);
    var w2 :| WalkFromTo(m, w2, b, c);
    var w := w1 + w2[1..];
    forall i | 0 <= i < |w| - 1
      ensures Step(m, w[i], w[i + 1])
    {
      if i < |w1| - 1 {
        assert w[i] == w1[i] && w[i + 1] == w1[i + 1];
      } else {
        var k := i - (|w1| - 1);
        assert w[i] == w2[k] && w[i + 1] == w2[k + 1];
      }
    }
    assert WalkFromTo(m, w, a, c);
  }

  lemma {:induction false} ClosedWalk(m: Maze, S: set<Pos>, w: seq<Pos>, i: nat)
    requires WellFormed(m) && Closed(m, S) && IsWalk(m, w)
    requires |w| > 0 && w[0] in S && i < |w|
    ensures w[i] in S
  {
    if i > 0 {
      ClosedWalk(m, S, w, i - 1);
    }
  }

  /** A closed set holding `s` holds everything reachable from `s`. */
  lemma ClosedHoldsReachable(m: Maze, S: set<Pos>, s: Pos)
    requires WellFormed(m) && Closed(m, S) && s in S
    ensures ReachableSet(m, s) <= S
    ensures forall t :: Reachable(m, s, t) ==> t in S
  {
    forall t | Reachable(m, s, t)
      ensures t in S
    {
      var w :| WalkFromTo(m, w, s, t);
      ClosedWalk(m, S, w, |w| - 1);
    }
  }

  /** A set of reachable cells that is closed and holds `s` is exactly the
      component of `s`. */
  lemma ClosedIsComponent(m: Maze, S: set<Pos>, s: Pos)
    requires WellFormed(m) && Closed(m, S) && s in S && S <= Cells(m)
    requires forall p :: p in S ==> Reachable(m, s, p)
    ensures S == ReachableSet(m, s)
  {
    ClosedHoldsReachable(m, S, s);
  }

  /** The parent table of a search rooted at `start`: only the root has no
      parent, every link is a move from the parent, and `rank` strictly grows
      along links (the ghost depth of breadth/depth-first search, the g-score
      of A*). */
  ghost predicate ParentLinks(m: Maze, parents: map<Pos, Option<Pos>>, rank: map<Pos, nat>, start: Pos)
    requires WellFormed(m)
  {
    && start in parents && parents[start] == None
    && parents.Keys <= rank.Keys
    && (forall p :: p in parents && parents[p].None? ==> p == start)
    && (forall p :: p in parents && parents[p].Some? ==>
          parents[p].value in parents && Step(m, parents[p].value, p) && rank[parents[p].value] < rank[p])
  }

  /** Follows the parent links back from `goal` to the root and returns the
      cells in order from the root. */
  method ReconstructPath(m: Maze, parents: map<Pos, Option<Pos>>, goal: Pos, ghost rank: map<Pos, nat>, ghost start: Pos)
    returns (path: seq<Pos>)
    requires WellFormed(m) && ParentLinks(m, parents, rank, start)
    requires goal in parents
    ensures IsSolution(m, path, start, goal)
    ensures rank[start] + |path| - 1 <= rank[goal]
  {
    var current: Option<Pos> := Some(goal);
    path := [];
    while current.Some?
      invariant current.Some? ==> current.value in parents
      invariant forall i :: 0 <= i < |path| ==> path[i] in parents
      invariant path == [] ==> current == Some(goal)
      invariant path != [] ==> path[|path| - 1] == goal && current == parents[path[0]]
      invariant IsWalk(m, path) && Distinct(path)
      invariant forall i :: 0 <= i < |path| ==> rank[path[0]] + i <= rank[path[i]]
      decreases if current.Some? then rank[current.value] + 1 else 0
    {
      var p := current.value;
      assert path != [] ==> Step(m, p, path[0]) && rank[p] < rank[path[0]];
      PrependLink(m, parents, rank, path, p);
      path := [p] + path;
      current := parents[p];
    }
  }

  /** Putting the parent `p` of the first cell in front keeps the path a
      walk of distinct table cells whose ranks grow at least one per move. */
  lemma PrependLink(m: Maze, parents: map<Pos, Option<Pos>>, rank: map<Pos, nat>, path: seq<Pos>, p: Pos)
    requires WellFormed(m) && p in parents && parents.Keys <= rank.Keys
    requires forall i :: 0 <= i < |path| ==> path[i] in parents
    requires IsWalk(m, path) && Distinct(path)
    requires forall i :: 0 <= i < |path| ==> rank[path[0]] + i <= rank[path[i]]
    requires path != [] ==> Step(m, p, path[0]) && rank[p] < rank[path[0]]
    ensures forall i :: 0 <= i < |[p] + path| ==> ([p] + path)[i] in parents
    ensures IsWalk(m, [p] + path) && Distinct([p] + path)
    ensures forall i :: 0 <= i < |[p] + path| ==> rank[([p] + path)[0]] + i <= rank[([p] + path)[i]]
  {
    var path' := [p] + path;
    forall i | 0 < i < |path'|
      ensures path'[i] == path[i - 1] && rank[p] + i <= rank[path'[i]]
    {
    }
  }

  /** What one round of neighbour discovery does to the parent table, the
      frontier and the ghost depths: each neighbour not yet in the table gets
      `current` as its parent and depth one more than `current`, and is
      appended to the frontier in neighbour order; entries already present are
      never overwritten. */
  ghost predicate Discovered(parents: map<Pos, Option<Pos>>, frontier: seq<Pos>, rank: map<Pos, nat>,
                             current: Pos, nbrs: seq<Pos>,
                             parents': map<Pos, Option<Pos>>, frontier': seq<Pos>, rank': map<Pos, nat>)
    requires current in rank
  {
    && frontier' == frontier + Without(nbrs, parents.Keys)
    && (forall p :: p in parents' <==> p in parents || p in nbrs)
    && (forall p :: p in parents ==> parents'[p] == parents[p])
    && (forall p :: p in parents' && p !in parents ==> parents'[p] == Some(current))
    && |parents'| == |parents| + |frontier'| - |frontier|
    && rank'.Keys == parents'.Keys && rank.Keys <= rank'.Keys
    && (forall p :: p in rank ==> rank'[p] == rank[p])
    && (forall p :: p in rank' && p !in rank ==> rank'[p] == rank[current] + 1)
  }

  /** Discovery of the neighbours of `current` (algorithms.py 48-51 and
      82-85), with the depths as a ghost companion. */
  method Discover(parents: map<Pos, Option<Pos>>, frontier: seq<Pos>, ghost rank: map<Pos, nat>,
                  current: Pos, nbrs: seq<Pos>)
    returns (parents': map<Pos, Option<Pos>>, frontier': seq<Pos>, ghost rank': map<Pos, nat>)
    requires rank.Keys == parents.Keys && current in parents
    requires Distinct(nbrs)
    ensures frontier' == frontier + Without(nbrs, parents.Keys)
    ensures forall p :: p in parents' <==> p in parents || p in nbrs
    ensures forall p :: p in parents ==> parents'[p] == parents[p]
    ensures forall p :: p in parents' && p !in parents ==> parents'[p] == Some(current)
    ensures Discovered(parents, frontier, rank, current, nbrs, parents', frontier', rank')
  {
    parents', frontier' := parents, frontier;
    var i := 0;
    ghost var done: seq<Pos> := [];
    while i < |nbrs|
      invariant 0 <= i <= |nbrs| && done == nbrs[..i]
      invariant frontier' == frontier + Without(done, parents.Keys)
      invariant forall p :: p in parents' <==> p in parents || p in done
      invariant forall p :: p in parents ==> parents'[p] == parents[p]
      invariant forall p :: p in parents' && p !in parents ==> parents'[p] == Some(current)
      invariant |parents'| == |parents| + |frontier'| - |frontier|
    {
      var next := nbrs[i];
      assert nbrs[..i + 1] == done + [next];
      WithoutSnoc(done, next, parents.Keys);
      assert next !in done;
      assert next in parents' <==> next in parents;
      if next !in parents' {
        assert frontier + Without(done + [next], parents.Keys) == frontier' + [next];
        parents' := parents'[next := Some(current)];
        frontier' := frontier' + [next];
      }
      done := done + [next];
      i := i + 1;
    }
    assert done == nbrs;
    rank' := map p | p in parents' :: if p in rank then rank[p] else rank[current] + 1;
  }

  /** The part of the breadth- and depth-first loop invariant about the
      parent table: it is a tree of moves rooted at `start`, its cells lie in
      the grid and are reachable from `start`. */
  ghost predicate TreeInv(m: Maze, start: Pos, visited: map<Pos, Option<Pos>>, dist: map<Pos, nat>)
    requires WellFormed(m)
  {
    && dist.Keys == visited.Keys
    && ParentLinks(m, visited, dist, start) && dist[start] == 0
    && visited.Keys <= Cells(m)
    && (forall p :: p in visited ==> Reachable(m, start, p))
  }

  /** Each frontier entry is a discovered cell, entered once; every
      discovered cell has either been popped (and counted) or is waiting. */
  ghost predicate FrontierInv(frontier: seq<Pos>, visited: map<Pos, Option<Pos>>, nodesExplored: nat)
  {
    && (forall k :: 0 <= k < |frontier| ==> frontier[k] in visited)
    && Distinct(frontier)
    && nodesExplored + |frontier| == |visited|
  }

  /** The goal, once discovered, has not been popped yet; when it is the
      start the loop has not run. */
  ghost predicate GoalInv(start: Pos, goal: Pos, frontier: seq<Pos>, visited: map<Pos, Option<Pos>>, nodesExplored: nat)
  {
    && (goal in visited ==> goal in frontier)
    && (start == goal ==> nodesExplored == 0 && frontier == [start] && visited == map[start := None])
  }

  /** `rest` is `frontier` with its entry `current` taken out. */
  ghost predicate PoppedFrom(frontier: seq<Pos>, current: Pos, rest: seq<Pos>)
  {
    && current in frontier && current !in rest && Distinct(rest)
    && |rest| + 1 == |frontier|
    && (forall p :: p in rest ==> p in frontier)
    && (forall p :: p in frontier && p != current ==> p in rest)
  }

  lemma PopFront(frontier: seq<Pos>)
    requires frontier != [] && Distinct(frontier)
    ensures PoppedFrom(frontier, frontier[0], frontier[1..])
  {
    forall p | p in frontier && p != frontier[0]
      ensures p in frontier[1..]
    {
      var k :| 0 <= k < |frontier| && frontier[k] == p;
      assert frontier[1..][k - 1] == p;
    }
  }

  lemma PopBack(frontier: seq<Pos>)
    requires frontier != [] && Distinct(frontier)
    ensures PoppedFrom(frontier, frontier[|frontier| - 1], frontier[..|frontier| - 1])
  {
    var n := |frontier| - 1;
    forall p | p in frontier && p != frontier[n]
      ensures p in frontier[..n]
    {
      var k :| 0 <= k < |frontier| && frontier[k] == p;
      assert frontier[..n][k] == p;
    }
  }

  lemma ExpandTree(m: Maze, start: Pos, visited0: map<Pos, Option<Pos>>, dist0: map<Pos, nat>,
                   current: Pos, rest: seq<Pos>,
                   frontier: seq<Pos>, visited: map<Pos, Option<Pos>>, dist: map<Pos, nat>)
    requires WellFormed(m) && TreeInv(m, start, visited0, dist0) && current in visited0
    requires Discovered(visited0, rest, dist0, current, Neighbors(m, current.x, current.y), visited, frontier, dist)
    ensures TreeInv(m, start, visited, dist)
    ensures forall q :: Step(m, current, q) ==> q in visited
  {
    var nbrs := Neighbors(m, current.x, current.y);
    ExpandLinks(m, start, visited0, dist0, current, nbrs, rest, frontier, visited, dist);
    forall p | p in visited
      ensures p in Cells(m) && Reachable(m, start, p)
    {
      if p !in visited0 {
        assert Step(m, current, p);
        StepStaysInCells(m, current, p);
        ExtendReachable(m, start, current, p);
      }
    }
  }

  /** Discovery from `current` extends the parent links by one level. */
  lemma ExpandLinks(m: Maze, start: Pos, visited0: map<Pos, Option<Pos>>, dist0: map<Pos, nat>,
                    current: Pos, nbrs: seq<Pos>, rest: seq<Pos>,
                    frontier: seq<Pos>, visited: map<Pos, Option<Pos>>, dist: map<Pos, nat>)
    requires WellFormed(m) && current in visited0 && dist0.Keys == visited0.Keys
    requires forall i :: 0 <= i < |nbrs| ==> Step(m, current, nbrs[i])
    requires ParentLinks(m, visited0, dist0, start)
    requires Discovered(visited0, rest, dist0, current, nbrs, visited, frontier, dist)
    ensures ParentLinks(m, visited, dist, start)
  {
    forall p | p in visited && visited[p].Some?
      ensures visited[p].value in visited && Step(m, visited[p].value, p) && dist[visited[p].value] < dist[p]
    {
      if p !in visited0 {
        var i :| 0 <= i < |nbrs| && nbrs[i] == p;
      }
    }
  }

  lemma ExpandFrontier(m: Maze, visited0: map<Pos, Option<Pos>>, dist0: map<Pos, nat>, nodes0: nat,
                       frontier0: seq<Pos>, current: Pos, rest: seq<Pos>,
                       frontier: seq<Pos>, visited: map<Pos, Option<Pos>>, dist: map<Pos, nat>)
    requires WellFormed(m) && FrontierInv(frontier0, visited0, nodes0) && current in dist0
    requires PoppedFrom(frontier0, current, rest)
    requires Discovered(visited0, rest, dist0, current, Neighbors(m, current.x, current.y), visited, frontier, dist)
    ensures FrontierInv(frontier, visited, nodes0 + 1)
  {
    var nbrs := Neighbors(m, current.x, current.y);
    var added := Without(nbrs, visited0.Keys);
    WithoutMembers(nbrs, visited0.Keys);
    WithoutDistinct(nbrs, visited0.Keys);
    assert frontier == rest + added;
    forall i, j | 0 <= i < j < |frontier|
      ensures frontier[i] != frontier[j]
    {
      if j >= |rest| && i < |rest| {
        assert frontier[i] == rest[i] && frontier[j] == added[j - |rest|];
        assert rest[i] in rest;
        assert rest[i] in frontier0;
        assert rest[i] in visited0;
        assert added[j - |rest|] in added;
      } else if i >= |rest| {
        assert frontier[i] == added[i - |rest|] && frontier[j] == added[j - |rest|];
      }
    }
    forall k | 0 <= k < |frontier|
      ensures frontier[k] in visited
    {
      if k < |rest| {
        assert frontier[k] == rest[k] && rest[k] in rest && rest[k] in frontier0;
      } else {
        assert frontier[k] == added[k - |rest|] && added[k - |rest|] in added;
      }
    }
  }

  lemma ExpandGoal(m: Maze, start: Pos, goal: Pos, visited0: map<Pos, Option<Pos>>, dist0: map<Pos, nat>, nodes0: nat,
                   frontier0: seq<Pos>, current: Pos, rest: seq<Pos>,
                   frontier: seq<Pos>, visited: map<Pos, Option<Pos>>, dist: map<Pos, nat>)
    requires WellFormed(m) && GoalInv(start, goal, frontier0, visited0, nodes0) && current in dist0
    requires PoppedFrom(frontier0, current, rest) && current != goal
    requires Discovered(visited0, rest, dist0, current, Neighbors(m, current.x, current.y), visited, frontier, dist)
    ensures GoalInv(start, goal, frontier, visited, nodes0 + 1)
  {
    WithoutMembers(Neighbors(m, current.x, current.y), visited0.Keys);
  }

  /** An expansion either discovers a new cell of the grid or leaves the
      table alone and shrinks the frontier. */
  lemma ExpandShrinks(m: Maze, visited0: map<Pos, Option<Pos>>, dist0: map<Pos, nat>,
                      frontier0: seq<Pos>, current: Pos, rest: seq<Pos>,
                      frontier: seq<Pos>, visited: map<Pos, Option<Pos>>, dist: map<Pos, nat>)
    requires WellFormed(m) && current in dist0 && visited0.Keys <= Cells(m)
    requires PoppedFrom(frontier0, current, rest)
    requires Discovered(visited0, rest, dist0, current, Neighbors(m, current.x, current.y), visited, frontier, dist)
    ensures (Cells(m) - visited.Keys) < (Cells(m) - visited0.Keys)
         || (visited.Keys == visited0.Keys && |frontier| < |frontier0|)
  {
    var nbrs := Neighbors(m, current.x, current.y);
    var added := Without(nbrs, visited0.Keys);
    WithoutMembers(nbrs, visited0.Keys);
    if added != [] {
      assert added[0] in nbrs;
      assert added[0] in visited && added[0] !in visited0 && added[0] in Cells(m);
    } else {
      assert visited.Keys == visited0.Keys;
    }
  }

  /** Every move out of `p` leads to a discovered cell. */
  ghost predicate Expanded(m: Maze, visited: map<Pos, Option<Pos>>, p: Pos)
    requires WellFormed(m)
  {
    forall q :: Step(m, p, q) ==> q in visited
  }

  /** Expanding `current` keeps "every discovered cell is waiting or expanded". */
  lemma ExpandKeepsExpanded(m: Maze, visited0: map<Pos, Option<Pos>>, dist0: map<Pos, nat>,
                            frontier0: seq<Pos>, current: Pos, rest: seq<Pos>,
                            frontier: seq<Pos>, visited: map<Pos, Option<Pos>>, dist: map<Pos, nat>)
    requires WellFormed(m) && current in dist0
    requires forall p :: p in visited0 ==> p in frontier0 || Expanded(m, visited0, p)
    requires PoppedFrom(frontier0, current, rest)
    requires Discovered(visited0, rest, dist0, current, Neighbors(m, current.x, current.y), visited, frontier, dist)
    ensures forall p :: p in visited ==> p in frontier || Expanded(m, visited, p)
  {
    WithoutMembers(Neighbors(m, current.x, current.y), visited0.Keys);
    forall p | p in visited
      ensures p in frontier || Expanded(m, visited, p)
    {
      if p !in visited0 || (p in rest) {
      } else if p == current {
      } else {
        assert Expanded(m, visited0, p);
      }
    }
  }

  /** When the frontier runs dry and every discovered cell has been
      expanded, the discovered cells are exactly the component of the
      start; the goal, never discovered, is unreachable. */
  lemma Exhausted(m: Maze, start: Pos, goal: Pos, visited: map<Pos, Option<Pos>>, dist: map<Pos, nat>, nodesExplored: nat)
    requires WellFormed(m) && TreeInv(m, start, visited, dist)
    requires FrontierInv([], visited, nodesExplored) && GoalInv(start, goal, [], visited, nodesExplored)
    requires forall p :: p in visited ==> Expanded(m, visited, p)
    ensures !Reachable(m, start, goal)
    ensures nodesExplored == |ReachableSet(m, start)|
  {
    assert Closed(m, visited.Keys);
    ClosedIsComponent(m, visited.Keys, start);
    ClosedHoldsReachable(m, visited.Keys, start);
  }
}
