/** Breadth-first search (BFSSolver.solve in algorithms.py). */
module Bfs {
  import opened Wrappers
  import opened Sequences
  import opened Grid
  import opened Search

  /** Queue positions are in non-decreasing distance order. */
  ghost predicate SortedByDistance(queue: seq<Pos>, dist: map<Pos, nat>)
  {
    forall i, j :: 0 <= i < j < |queue| && queue[i] in dist && queue[j] in dist ==> dist[queue[i]] <= dist[queue[j]]
  }

  /** The heart of breadth-first optimality. Take the state at the moment
      `queue[0]` is about to be popped: every discovered cell is still queued
      or relaxed, and the queue is sorted by distance. Then along any walk `w`
      from the start, position `i` is discovered at distance at most `i`,
      unless the head of the queue is already within `|w| - 1` of the start. */
  lemma {:induction false} WalkPrefixBound(m: Maze, queue: seq<Pos>, dist: map<Pos, nat>, w: seq<Pos>, i: nat)
    requires WellFormed(m) && IsWalk(m, w) && |w| > 0 && i < |w|
    requires queue != [] && (forall k :: 0 <= k < |queue| ==> queue[k] in dist)
    requires SortedByDistance(queue, dist)
    requires w[0] in dist && dist[w[0]] == 0
    requires forall p :: p in dist ==> p in queue || Relaxed(m, dist, p)
    ensures (w[i] in dist && dist[w[i]] <= i) || dist[queue[0]] <= |w| - 1
  {
    if i > 0 {
      WalkPrefixBound(m, queue, dist, w, i - 1);
      if w[i - 1] in dist && dist[w[i - 1]] <= i - 1 {
        if w[i - 1] in queue {
          var k :| 0 <= k < |queue| && queue[k] == w[i - 1];
          assert k == 0 || dist[queue[0]] <= dist[queue[k]];
        } else {
          assert Step(m, w[i - 1], w[i]);
        }
      }
    }
  }

  /** When the goal heads the queue, its distance is at most the number of
      moves of any walk from the start to it. */
  lemma HeadIsNearest(m: Maze, queue: seq<Pos>, dist: map<Pos, nat>, start: Pos, w: seq<Pos>)
    requires WellFormed(m) && queue != [] && WalkFromTo(m, w, start, queue[0])
    requires forall k :: 0 <= k < |queue| ==> queue[k] in dist
    requires SortedByDistance(queue, dist)
    requires start in dist && dist[start] == 0
    requires forall p :: p in dist ==> p in queue || Relaxed(m, dist, p)
    ensures dist[queue[0]] <= |w| - 1
  {
    WalkPrefixBound(m, queue, dist, w, |w| - 1);
  }

  /** The breadth-first part of the loop invariant: a discovered cell is
      still queued or relaxed, the queue is sorted by distance, and no
      discovered cell is more than one step further than the head. */
  ghost predicate LayerInv(m: Maze, queue: seq<Pos>, dist: map<Pos, nat>)
    requires WellFormed(m)
  {
    && (forall p :: p in dist ==> p in queue || Relaxed(m, dist, p))
    && SortedByDistance(queue, dist)
    && (queue != [] ==> queue[0] in dist && forall p :: p in dist ==> dist[p] <= dist[queue[0]] + 1)
  }

  /** After expanding the head, every queued cell sits at the head's old
      distance or one more. */
  lemma ExpandedLayers(m: Maze, queue0: seq<Pos>, visited0: map<Pos, Option<Pos>>, dist0: map<Pos, nat>,
                       queue: seq<Pos>, visited: map<Pos, Option<Pos>>, dist: map<Pos, nat>)
    requires WellFormed(m) && queue0 != [] && LayerInv(m, queue0, dist0)
    requires dist0.Keys == visited0.Keys && forall k :: 0 <= k < |queue0| ==> queue0[k] in visited0
    requires Discovered(visited0, queue0[1..], dist0, queue0[0], Neighbors(m, queue0[0].x, queue0[0].y), visited, queue, dist)
    ensures forall i :: 0 <= i < |queue| ==> queue[i] in dist && dist0[queue0[0]] <= dist[queue[i]] <= dist0[queue0[0]] + 1
    ensures forall i :: |queue0| - 1 <= i < |queue| ==> dist[queue[i]] == dist0[queue0[0]] + 1
    ensures forall i :: 0 <= i < |queue0| - 1 ==> queue[i] == queue0[i + 1]
  {
    var current := queue0[0];
    var nbrs := Neighbors(m, current.x, current.y);
    var added := Without(nbrs, visited0.Keys);
    WithoutMembers(nbrs, visited0.Keys);
    var rest := queue0[1..];
    assert queue == rest + added;
    forall i | 0 <= i < |queue|
      ensures queue[i] in dist && dist0[current] <= dist[queue[i]] <= dist0[current] + 1
      ensures i >= |rest| ==> dist[queue[i]] == dist0[current] + 1
    {
      if i < |rest| {
        assert queue[i] == queue0[i + 1];
        assert queue0[i + 1] in dist0;
        assert dist0[queue0[0]] <= dist0[queue0[i + 1]];
      } else {
        assert queue[i] == added[i - |rest|] && added[i - |rest|] in added;
      }
    }
  }

  /** Expanding the head of the queue keeps the breadth-first invariant. */
  lemma ExpandKeepsLayers(m: Maze, queue0: seq<Pos>, visited0: map<Pos, Option<Pos>>, dist0: map<Pos, nat>,
                          queue: seq<Pos>, visited: map<Pos, Option<Pos>>, dist: map<Pos, nat>)
    requires WellFormed(m) && queue0 != [] && LayerInv(m, queue0, dist0)
    requires dist0.Keys == visited0.Keys && forall k :: 0 <= k < |queue0| ==> queue0[k] in visited0
    requires PoppedFrom(queue0, queue0[0], queue0[1..])
    requires Discovered(visited0, queue0[1..], dist0, queue0[0], Neighbors(m, queue0[0].x, queue0[0].y), visited, queue, dist)
    ensures LayerInv(m, queue, dist)
  {
    var current := queue0[0];
    ExpandedLayers(m, queue0, visited0, dist0, queue, visited, dist);
    WithoutMembers(Neighbors(m, current.x, current.y), visited0.Keys);
    assert Relaxed(m, dist, current);
    forall p | p in dist
      ensures p in queue || Relaxed(m, dist, p)
    {
      if p in dist0 && p != current && p in queue0 {
        assert p in queue0[1..];
        assert queue == queue0[1..] + Without(Neighbors(m, current.x, current.y), visited0.Keys);
      }
    }
    forall i, j | 0 <= i < j < |queue|
      ensures dist[queue[i]] <= dist[queue[j]]
    {
      if j < |queue0| - 1 {
        assert dist0[queue0[i + 1]] <= dist0[queue0[j + 1]];
      }
    }
  }

  /** The loop invariant of breadth-first search. */
  ghost predicate BfsInv(m: Maze, start: Pos, goal: Pos, queue: seq<Pos>, visited: map<Pos, Option<Pos>>,
                         dist: map<Pos, nat>, nodesExplored: nat)
    requires WellFormed(m)
  {
    && TreeInv(m, start, visited, dist)
    && FrontierInv(queue, visited, nodesExplored)
    && GoalInv(start, goal, queue, visited, nodesExplored)
    && LayerInv(m, queue, dist)
  }

  /** One round of the loop for a head that is not the goal: pop it, count
      it, and queue its undiscovered neighbours. */
  method ExpandHead(m: Maze, ghost start: Pos, ghost goal: Pos, queue: seq<Pos>, visited: map<Pos, Option<Pos>>,
                    ghost dist: map<Pos, nat>, nodesExplored: nat)
    returns (queue': seq<Pos>, visited': map<Pos, Option<Pos>>, ghost dist': map<Pos, nat>, nodesExplored': nat)
    requires WellFormed(m) && BfsInv(m, start, goal, queue, visited, dist, nodesExplored)
    requires queue != [] && queue[0] != goal
    ensures BfsInv(m, start, goal, queue', visited', dist', nodesExplored')
    ensures nodesExplored' == nodesExplored + 1
    ensures forall q :: Step(m, queue[0], q) ==> q in visited'
    ensures (Cells(m) - visited'.Keys) < (Cells(m) - visited.Keys)
         || (visited'.Keys == visited.Keys && |queue'| < |queue|)
  {
    var current := queue[0];
    nodesExplored' := nodesExplored + 1;
    var nbrs := Neighbors(m, current.x, current.y);
    visited', queue', dist' := Discover(visited, queue[1..], dist, current, nbrs);
    PopFront(queue);
    ExpandTree(m, start, visited, dist, current, queue[1..], queue', visited', dist');
    ExpandFrontier(m, visited, dist, nodesExplored, queue, current, queue[1..], queue', visited', dist');
    ExpandGoal(m, start, goal, visited, dist, nodesExplored, queue, current, queue[1..], queue', visited', dist');
    ExpandShrinks(m, visited, dist, queue, current, queue[1..], queue', visited', dist');
    ExpandKeepsLayers(m, queue, visited, dist, queue', visited', dist');
  }

  /** Breadth-first search from the maze's start to its end. Returns the path
      (when found) and the number of cells popped from the queue. */
  method Solve(m: Maze) returns (path: Option<seq<Pos>>, nodesExplored: nat)
    requires Valid(m) && m.start.Some? && m.end.Some?
    ensures path.Some? ==> IsSolution(m, path.value, m.start.value, m.end.value)
    ensures path.Some? ==> forall w :: WalkFromTo(m, w, m.start.value, m.end.value) ==> |path.value| <= |w|
    ensures path.None? <==> !Reachable(m, m.start.value, m.end.value)
    ensures path.None? ==> nodesExplored == |ReachableSet(m, m.start.value)|
    ensures m.start == m.end ==> path == Some([m.start.value]) && nodesExplored == 1
  {
    var start, goal := m.start.value, m.end.value;
    MarkersPassable(m);
    var queue := [start];
    var visited: map<Pos, Option<Pos>> := map[start := None];
    ghost var dist: map<Pos, nat> := map[start := 0];
    nodesExplored := 0;
    ReachableFromItself(m, start);
    while queue != []
      invariant BfsInv(m, start, goal, queue, visited, dist, nodesExplored)
      decreases Cells(m) - visited.Keys, |queue|
    {
      if queue[0] == goal {
        var p := ReconstructPath(m, visited, goal, dist, start);
        forall w | WalkFromTo(m, w, start, goal)
          ensures |p| <= |w|
        {
          HeadIsNearest(m, queue, dist, start, w);
        }
        return Some(p), nodesExplored + 1;
      }
      queue, visited, dist, nodesExplored := ExpandHead(m, start, goal, queue, visited, dist, nodesExplored);
    }
    forall p | p in visited
      ensures Expanded(m, visited, p)
    {
      assert Relaxed(m, dist, p);
    }
    Exhausted(m, start, goal, visited, dist, nodesExplored);
    path := None;
  }
}
