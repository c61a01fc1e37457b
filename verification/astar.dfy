/** A* search (AStarSolver in algorithms.py): a priority queue of
    `(f, position)` entries ordered as Python orders tuples, a g-score per
    discovered cell that only ever decreases, and the Manhattan distance as
    heuristic. */
module AStar {
  import opened Wrappers
  import opened Sequences
  import opened Grid
  import opened Search

  /** The Manhattan distance from `pos` to `goal`. */
  function Heuristic(pos: Pos, goal: Pos): (h: nat)
    ensures h == 0 <==> pos == goal
    ensures h >= Abs(pos.x - goal.x) && h >= Abs(pos.y - goal.y)
  {
    Abs(pos.x - goal.x) + Abs(pos.y - goal.y)
  }

  /** One move changes the heuristic by at most one (it is consistent). */
  lemma HeuristicConsistent(a: Pos, b: Pos, goal: Pos)
    requires Adjacent(a, b)
    ensures Heuristic(a, goal) <= Heuristic(b, goal) + 1
    ensures Heuristic(b, goal) <= Heuristic(a, goal) + 1
  {
  }

  /** The heuristic never overestimates: from position `i` of a walk that
      ends at the goal, at least `Heuristic(w[i], goal)` moves remain. */
  lemma {:induction false} HeuristicAdmissible(m: Maze, w: seq<Pos>, goal: Pos, i: nat)
    requires WellFormed(m) && IsWalk(m, w) && |w| > 0 && w[|w| - 1] == goal && i < |w|
    ensures Heuristic(w[i], goal) <= |w| - 1 - i
    decreases |w| - i
  {
    if i < |w| - 1 {
      HeuristicAdmissible(m, w, goal, i + 1);
      assert Step(m, w[i], w[i + 1]);
      HeuristicConsistent(w[i], w[i + 1], goal);
    }
  }

  /** A priority-queue entry `(f_score, position)`. */
  datatype Entry = Entry(f: int, pos: Pos)

  /** Python's tuple order on `(f, (x, y))`: lexicographic. */
  predicate NotAfter(a: Entry, b: Entry) {
    a.f < b.f || (a.f == b.f && (a.pos.x < b.pos.x || (a.pos.x == b.pos.x && a.pos.y <= b.pos.y)))
  }

  /** `heapq.heappop`: removes and returns the least entry. The priority
      queue is modelled by its contents; the least entry is unique, so which
      entry leaves does not depend on the heap's internal layout. */
  method PopMin(heap: seq<Entry>) returns (e: Entry, rest: seq<Entry>)
    requires heap != []
    ensures e in heap && forall x :: x in heap ==> NotAfter(e, x)
    ensures forall x :: x in heap && NotAfter(x, e) ==> x == e
    ensures multiset(heap) == multiset(rest) + multiset{e}
    ensures |rest| + 1 == |heap|
    ensures forall x :: x in rest ==> x in heap
    ensures forall x :: x in heap && x != e ==> x in rest
  {
    var best := 0;
    var i := 1;
    while i < |heap|
      invariant 0 <= best < |heap| && 1 <= i <= |heap|
      invariant forall k :: 0 <= k < i ==> NotAfter(heap[best], heap[k])
    {
      if !NotAfter(heap[best], heap[i]) {
        best := i;
      }
      i := i + 1;
    }
    e := heap[best];
    rest := heap[..best] + heap[best + 1..];
    assert heap == heap[..best] + [e] + heap[best + 1..];
    assert forall x :: x in heap ==> NotAfter(e, x) by {
      forall x | x in heap
        ensures NotAfter(e, x)
      {
        var k :| 0 <= k < |heap| && heap[k] == x;
      }
    }
    assert forall x :: x in rest ==> x in multiset(rest);
    assert forall x :: x in heap && x != e ==> x in multiset(heap);
  }

  /** The most a g-score can be: the current score for a discovered cell,
      one more than the number of cells otherwise. */
  function Cap(m: Maze, g: map<Pos, nat>, c: Pos): nat {
    if c in g then g[c] else |Cells(m)| + 1
  }

  /** The g-scores that are still possible for each cell. Every update of
      the table removes at least one of them, which bounds the search. */
  ghost function Possible(m: Maze, g: map<Pos, nat>): set<(Pos, nat)> {
    set c, k: nat | c in Cells(m) && k < Cap(m, g, c) :: (c, k)
  }

  lemma LowerCap(m: Maze, g: map<Pos, nat>, c: Pos, v: nat)
    requires c in Cells(m) && v < Cap(m, g, c)
    ensures Possible(m, g[c := v]) < Possible(m, g)
  {
    assert (c, v) in Possible(m, g);
    assert (c, v) !in Possible(m, g[c := v]);
    forall pk | pk in Possible(m, g[c := v])
      ensures pk in Possible(m, g)
    {
      assert pk.1 < Cap(m, g[c := v], pk.0);
    }
  }

  /** The scores and parents once the neighbours in `done` have been
      considered: only `done` is rescored, each to one more than `current`,
      and with `current` as parent. */
  ghost predicate ScoresUpTo(m: Maze, current: Pos, g: map<Pos, nat>, cameFrom: map<Pos, Option<Pos>>, done: seq<Pos>,
                             g': map<Pos, nat>, cameFrom': map<Pos, Option<Pos>>)
    requires current in g
  {
    && (forall p :: p in g' <==> p in g || p in done)
    && cameFrom'.Keys == g'.Keys
    && (forall p :: p in g ==> g'[p] <= g[p])
    && (forall p :: p in done ==> g'[p] <= g[current] + 1)
    && g'[current] == g[current]
    && (forall p :: p in g' && (p !in g || g'[p] < g[p]) ==>
          p in done && g'[p] == g[current] + 1 && cameFrom'[p] == Some(current))
    && (forall p :: p in g && p in cameFrom && g'[p] == g[p] ==> cameFrom'[p] == cameFrom[p])
  }

  /** The queue once the neighbours in `done` have been considered: the old
      entries are still there, each appended entry carries the final score
      of a cell in `done`, and every rescored cell has its entry. */
  ghost predicate QueueUpTo(goal: Pos, g: map<Pos, nat>, heap: seq<Entry>, done: seq<Pos>, g': map<Pos, nat>, heap': seq<Entry>)
  {
    && |heap| <= |heap'| && heap'[..|heap|] == heap
    && (forall k :: |heap| <= k < |heap'| ==>
          heap'[k].pos in done && heap'[k].pos in g' && heap'[k].f == g'[heap'[k].pos] + Heuristic(heap'[k].pos, goal))
    && (forall p :: p in g' && (p !in g || g'[p] < g[p]) ==> Entry(g'[p] + Heuristic(p, goal), p) in heap')
  }

  lemma ScoresKeep(m: Maze, current: Pos, g: map<Pos, nat>, cameFrom: map<Pos, Option<Pos>>, done: seq<Pos>,
                   g': map<Pos, nat>, cameFrom': map<Pos, Option<Pos>>, next: Pos, done': seq<Pos>)
    requires done' == done + [next]
    requires current in g && ScoresUpTo(m, current, g, cameFrom, done, g', cameFrom')
    requires next in g' && g'[next] <= g'[current] + 1
    ensures ScoresUpTo(m, current, g, cameFrom, done', g', cameFrom')
  {
  }

  lemma ScoresUpdate(m: Maze, current: Pos, g: map<Pos, nat>, cameFrom: map<Pos, Option<Pos>>, done: seq<Pos>,
                     g': map<Pos, nat>, cameFrom': map<Pos, Option<Pos>>, next: Pos,
                     g'': map<Pos, nat>, cameFrom'': map<Pos, Option<Pos>>, done': seq<Pos>)
    requires done' == done + [next]
    requires current in g && ScoresUpTo(m, current, g, cameFrom, done, g', cameFrom')
    requires next != current && (next !in g' || g'[current] + 1 < g'[next])
    requires g'' == g'[next := g'[current] + 1] && cameFrom'' == cameFrom'[next := Some(current)]
    ensures ScoresUpTo(m, current, g, cameFrom, done', g'', cameFrom'')
  {
  }

  lemma QueueNone(goal: Pos, g: map<Pos, nat>, heap: seq<Entry>)
    ensures QueueUpTo(goal, g, heap, [], g, heap)
  {
    assert heap[..|heap|] == heap;
  }

  lemma QueueKeep(goal: Pos, g: map<Pos, nat>, heap: seq<Entry>, done: seq<Pos>, g': map<Pos, nat>, heap': seq<Entry>, next: Pos, done': seq<Pos>)
    requires done' == done + [next]
    requires QueueUpTo(goal, g, heap, done, g', heap')
    ensures QueueUpTo(goal, g, heap, done', g', heap')
  {
  }

  lemma QueueUpdate(goal: Pos, g: map<Pos, nat>, heap: seq<Entry>, done: seq<Pos>, g': map<Pos, nat>, heap': seq<Entry>,
                    next: Pos, t: nat, g'': map<Pos, nat>, heap'': seq<Entry>, done': seq<Pos>)
    requires done' == done + [next]
    requires QueueUpTo(goal, g, heap, done, g', heap') && next !in done
    requires g'' == g'[next := t] && heap'' == heap' + [Entry(t + Heuristic(next, goal), next)]
    ensures QueueUpTo(goal, g, heap, done', g'', heap'')
  {
    assert heap''[..|heap|] == heap'[..|heap|];
    forall k | |heap| <= k < |heap''|
      ensures heap''[k].pos in done' && heap''[k].pos in g''
      ensures heap''[k].f == g''[heap''[k].pos] + Heuristic(heap''[k].pos, goal)
    {
      if k < |heap'| {
        assert heap''[k] == heap'[k];
      }
    }
    forall p | p in g'' && (p !in g || g''[p] < g[p])
      ensures Entry(g''[p] + Heuristic(p, goal), p) in heap''
    {
      if p != next {
        assert Entry(g'[p] + Heuristic(p, goal), p) in heap';
      }
    }
  }

  /** One round of the neighbour loop: `next` gets the score through
      `current` and a queue entry when that beats its recorded score. */
  method RelaxStep(m: Maze, goal: Pos, current: Pos, next: Pos, ghost done: seq<Pos>, ghost done': seq<Pos>,
                   ghost g: map<Pos, nat>, ghost cameFrom: map<Pos, Option<Pos>>, ghost heap: seq<Entry>,
                   g': map<Pos, nat>, cameFrom': map<Pos, Option<Pos>>, heap': seq<Entry>)
    returns (g'': map<Pos, nat>, cameFrom'': map<Pos, Option<Pos>>, heap'': seq<Entry>)
    requires WellFormed(m) && current in g && cameFrom.Keys == g.Keys
    requires g.Keys <= Cells(m) && g[current] < |g.Keys|
    requires done' == done + [next] && next !in done && Step(m, current, next)
    requires ScoresUpTo(m, current, g, cameFrom, done, g', cameFrom')
    requires QueueUpTo(goal, g, heap, done, g', heap')
    requires (g' == g && heap' == heap) || Possible(m, g') < Possible(m, g)
    ensures ScoresUpTo(m, current, g, cameFrom, done', g'', cameFrom'')
    ensures QueueUpTo(goal, g, heap, done', g'', heap'')
    ensures (g'' == g && heap'' == heap) || Possible(m, g'') < Possible(m, g)
  {
    SubsetCardinality(g.Keys, Cells(m));
    StepStaysInCells(m, current, next);
    var tentative := g'[current] + 1;
    if next !in g' || tentative < g'[next] {
      LowerCap(m, g', next, tentative);
      cameFrom'' := cameFrom'[next := Some(current)];
      g'' := g'[next := tentative];
      heap'' := heap' + [Entry(tentative + Heuristic(next, goal), next)];
      ScoresUpdate(m, current, g, cameFrom, done, g', cameFrom', next, g'', cameFrom'', done');
      QueueUpdate(goal, g, heap, done, g', heap', next, tentative, g'', heap'', done');
    } else {
      g'', cameFrom'', heap'' := g', cameFrom', heap';
      ScoresKeep(m, current, g, cameFrom, done, g', cameFrom', next, done');
      QueueKeep(goal, g, heap, done, g', heap', next, done');
    }
  }

  /** The neighbour loop of one A* expansion (algorithms.py 124-134), over
      the neighbours `nbrs` of `current` in the order the maze lists them. */
  method Relax(m: Maze, goal: Pos, current: Pos, nbrs: seq<Pos>,
               g: map<Pos, nat>, cameFrom: map<Pos, Option<Pos>>, heap: seq<Entry>)
    returns (g': map<Pos, nat>, cameFrom': map<Pos, Option<Pos>>, heap': seq<Entry>)
    requires WellFormed(m) && current in g && cameFrom.Keys == g.Keys
    requires g.Keys <= Cells(m) && g[current] < |g.Keys|
    requires Distinct(nbrs) && forall i :: 0 <= i < |nbrs| ==> Step(m, current, nbrs[i])
    ensures ScoresUpTo(m, current, g, cameFrom, nbrs, g', cameFrom')
    ensures QueueUpTo(goal, g, heap, nbrs, g', heap')
    ensures (g' == g && heap' == heap) || Possible(m, g') < Possible(m, g)
  {
    g', cameFrom', heap' := g, cameFrom, heap;
    QueueNone(goal, g, heap);
    var i := 0;
    ghost var done: seq<Pos> := [];
    while i < |nbrs|
      invariant 0 <= i <= |nbrs| && done == nbrs[..i]
      invariant ScoresUpTo(m, current, g, cameFrom, done, g', cameFrom')
      invariant QueueUpTo(goal, g, heap, done, g', heap')
      invariant (g' == g && heap' == heap) || Possible(m, g') < Possible(m, g)
    {
      assert nbrs[..i + 1] == done + [nbrs[i]];
      assert nbrs[i] !in done;
      g', cameFrom', heap' := RelaxStep(m, goal, current, nbrs[i], done, done + [nbrs[i]], g, cameFrom, heap, g', cameFrom', heap');
      done := done + [nbrs[i]];
      i := i + 1;
    }
    assert done == nbrs;
  }

  /** `p` has a queued entry whose priority does not exceed its score plus
      its heuristic. */
  ghost predicate Pending(heap: seq<Entry>, g: map<Pos, nat>, goal: Pos, p: Pos)
    requires p in g
  {
    exists e :: e in heap && e.pos == p && e.f <= g[p] + Heuristic(p, goal)
  }

  /** `p` has some queued entry. */
  ghost predicate Waiting(heap: seq<Entry>, p: Pos) {
    exists e :: e in heap && e.pos == p
  }

  /** A score never reaches the number of scored cells. */
  ghost predicate ScoresBounded(g: map<Pos, nat>) {
    forall p :: p in g ==> g[p] < |g.Keys|
  }

  /** Every queued entry is for a scored cell, with priority at least its score. */
  ghost predicate EntriesAbove(heap: seq<Entry>, g: map<Pos, nat>) {
    forall e :: e in heap ==> e.pos in g && g[e.pos] <= e.f
  }

  /** Every scored cell is relaxed or still pending. */
  ghost predicate FrontierCovers(m: Maze, heap: seq<Entry>, g: map<Pos, nat>, goal: Pos)
    requires WellFormed(m)
  {
    forall p :: p in g ==> Relaxed(m, g, p) || Pending(heap, g, goal, p)
  }

  /** `popped` is the ghost set of cells popped so far: all scored, not the
      goal, no more of them than pops, and every other scored cell waits. */
  ghost predicate CountInv(heap: seq<Entry>, g: map<Pos, nat>, goal: Pos, popped: set<Pos>, nodesExplored: nat) {
    && popped <= g.Keys && goal !in popped && |popped| <= nodesExplored
    && (forall p :: p in g ==> p in popped || Waiting(heap, p))
  }

  /** The loop invariant of A*. */
  ghost predicate AStarInv(m: Maze, start: Pos, goal: Pos, heap: seq<Entry>, cameFrom: map<Pos, Option<Pos>>,
                           g: map<Pos, nat>, popped: set<Pos>, nodesExplored: nat)
    requires WellFormed(m)
  {
    && TreeInv(m, start, cameFrom, g)
    && ScoresBounded(g)
    && EntriesAbove(heap, g)
    && FrontierCovers(m, heap, g, goal)
    && CountInv(heap, g, goal, popped, nodesExplored)
    && (start == goal ==> nodesExplored == 0 && heap == [Entry(0, start)])
  }

  /** `e` left `heap` and `rest` is what remains. */
  ghost predicate PoppedMin(heap: seq<Entry>, e: Entry, rest: seq<Entry>) {
    && e in heap && (forall x :: x in heap ==> NotAfter(e, x))
    && (forall x :: x in rest ==> x in heap)
    && (forall x :: x in heap && x != e ==> x in rest)
    && |rest| + 1 == |heap|
  }

  /** Rescoring keeps the score bound. */
  lemma ExpandBounded(g: map<Pos, nat>, current: Pos, m: Maze, cameFrom: map<Pos, Option<Pos>>, nbrs: seq<Pos>,
                      g': map<Pos, nat>, cameFrom': map<Pos, Option<Pos>>)
    requires ScoresBounded(g) && current in g
    requires ScoresUpTo(m, current, g, cameFrom, nbrs, g', cameFrom')
    ensures ScoresBounded(g')
  {
    assert g.Keys <= g'.Keys;
    SubsetCardinality(g.Keys, g'.Keys);
    forall p | p in g' && p !in g
      ensures g'[p] < |g'.Keys|
    {
      assert g.Keys + {p} <= g'.Keys;
      SubsetCardinality(g.Keys + {p}, g'.Keys);
    }
  }

  /** Rescoring keeps the parent table a tree of moves rooted at the start. */
  lemma ExpandTree(m: Maze, start: Pos, cameFrom: map<Pos, Option<Pos>>, g: map<Pos, nat>, current: Pos,
                   nbrs: seq<Pos>, cameFrom': map<Pos, Option<Pos>>, g': map<Pos, nat>)
    requires WellFormed(m) && TreeInv(m, start, cameFrom, g) && current in g
    requires forall q :: q in nbrs ==> Step(m, current, q)
    requires ScoresUpTo(m, current, g, cameFrom, nbrs, g', cameFrom')
    ensures TreeInv(m, start, cameFrom', g')
  {
    forall p | p in g' && (p !in g || g'[p] < g[p])
      ensures Step(m, current, p) && Reachable(m, start, p) && p in Cells(m)
    {
      StepStaysInCells(m, current, p);
      ExtendReachable(m, start, current, p);
    }
    assert g'[start] == 0;
    forall p | p in cameFrom' && cameFrom'[p].Some?
      ensures cameFrom'[p].value in cameFrom' && Step(m, cameFrom'[p].value, p) && g'[cameFrom'[p].value] < g'[p]
    {
      if p in g && g'[p] == g[p] {
        assert cameFrom'[p] == cameFrom[p];
      }
    }
  }

  lemma ExpandEntries(m: Maze, goal: Pos, heap: seq<Entry>, e: Entry, rest: seq<Entry>, g: map<Pos, nat>,
                      current: Pos, nbrs: seq<Pos>, cameFrom: map<Pos, Option<Pos>>,
                      g': map<Pos, nat>, cameFrom': map<Pos, Option<Pos>>, heap': seq<Entry>)
    requires EntriesAbove(heap, g) && PoppedMin(heap, e, rest) && current in g
    requires ScoresUpTo(m, current, g, cameFrom, nbrs, g', cameFrom')
    requires QueueUpTo(goal, g, rest, nbrs, g', heap')
    ensures EntriesAbove(heap', g')
  {
    forall x | x in heap'
      ensures x.pos in g' && g'[x.pos] <= x.f
    {
      var k :| 0 <= k < |heap'| && heap'[k] == x;
      if k < |rest| {
        assert heap'[..|rest|][k] == x;
        assert x in rest;
      }
    }
  }

  /** The entries of a prefix stay queued. */
  lemma PrefixKept(rest: seq<Entry>, heap': seq<Entry>)
    requires |rest| <= |heap'| && heap'[..|rest|] == rest
    ensures forall x :: x in rest ==> x in heap'
  {
    forall x | x in rest
      ensures x in heap'
    {
      var k :| 0 <= k < |rest| && rest[k] == x;
      assert heap'[..|rest|][k] == x;
    }
  }

  lemma ExpandCovers(m: Maze, goal: Pos, heap: seq<Entry>, e: Entry, rest: seq<Entry>, g: map<Pos, nat>,
                     nbrs: seq<Pos>, cameFrom: map<Pos, Option<Pos>>,
                     g': map<Pos, nat>, cameFrom': map<Pos, Option<Pos>>, heap': seq<Entry>)
    requires WellFormed(m) && FrontierCovers(m, heap, g, goal) && PoppedMin(heap, e, rest) && e.pos in g
    requires nbrs == Neighbors(m, e.pos.x, e.pos.y)
    requires ScoresUpTo(m, e.pos, g, cameFrom, nbrs, g', cameFrom')
    requires QueueUpTo(goal, g, rest, nbrs, g', heap')
    ensures FrontierCovers(m, heap', g', goal)
  {
    var current := e.pos;
    PrefixKept(rest, heap');
    forall p | p in g'
      ensures Relaxed(m, g', p) || Pending(heap', g', goal, p)
    {
      if p == current {
        assert forall q :: Step(m, p, q) ==> q in nbrs;
      } else if p !in g || g'[p] < g[p] {
        assert Entry(g'[p] + Heuristic(p, goal), p) in heap';
      } else if Relaxed(m, g, p) {
        assert forall q :: Step(m, p, q) ==> q in g && g'[q] <= g[q];
      } else {
        var x :| x in heap && x.pos == p && x.f <= g[p] + Heuristic(p, goal);
        assert x in rest;
      }
    }
  }

  lemma ExpandCount(goal: Pos, heap: seq<Entry>, e: Entry, rest: seq<Entry>, g: map<Pos, nat>,
                    popped: set<Pos>, nodesExplored: nat, m: Maze, nbrs: seq<Pos>, cameFrom: map<Pos, Option<Pos>>,
                    g': map<Pos, nat>, cameFrom': map<Pos, Option<Pos>>, heap': seq<Entry>)
    requires CountInv(heap, g, goal, popped, nodesExplored) && PoppedMin(heap, e, rest) && e.pos in g && e.pos != goal
    requires ScoresUpTo(m, e.pos, g, cameFrom, nbrs, g', cameFrom')
    requires QueueUpTo(goal, g, rest, nbrs, g', heap')
    ensures CountInv(heap', g', goal, popped + {e.pos}, nodesExplored + 1)
  {
    PrefixKept(rest, heap');
    forall p | p in g' && p !in popped + {e.pos}
      ensures Waiting(heap', p)
    {
      if p !in g || g'[p] < g[p] {
        assert Entry(g'[p] + Heuristic(p, goal), p) in heap';
      } else {
        var x :| x in heap && x.pos == p;
        assert x != e && x in rest && x in heap';
      }
    }
  }

  /** The heart of A* optimality with an admissible heuristic. Let `e` be
      the entry about to be popped. Along any walk `w` from the start to the
      goal, position `i` is scored at most `i`, unless `e`'s priority is
      already within the walk's number of moves. */
  lemma {:induction false} WalkPrefixBound(m: Maze, heap: seq<Entry>, g: map<Pos, nat>, goal: Pos, e: Entry,
                                           w: seq<Pos>, i: nat)
    requires WellFormed(m) && IsWalk(m, w) && |w| > 0 && w[|w| - 1] == goal && i < |w|
    requires w[0] in g && g[w[0]] == 0
    requires forall x :: x in heap ==> e.f <= x.f
    requires FrontierCovers(m, heap, g, goal)
    ensures (w[i] in g && g[w[i]] <= i) || e.f <= |w| - 1
  {
    if i > 0 {
      WalkPrefixBound(m, heap, g, goal, e, w, i - 1);
      if w[i - 1] in g && g[w[i - 1]] <= i - 1 {
        if Relaxed(m, g, w[i - 1]) {
          assert Step(m, w[i - 1], w[i]);
        } else {
          var x :| x in heap && x.pos == w[i - 1] && x.f <= g[w[i - 1]] + Heuristic(w[i - 1], goal);
          HeuristicAdmissible(m, w, goal, i - 1);
        }
      }
    }
  }

  /** When the goal's entry is the least one, the goal's score is at most
      the number of moves of any walk from the start to it. */
  lemma GoalIsNearest(m: Maze, start: Pos, goal: Pos, heap: seq<Entry>, cameFrom: map<Pos, Option<Pos>>,
                      g: map<Pos, nat>, popped: set<Pos>, nodesExplored: nat, e: Entry, w: seq<Pos>)
    requires WellFormed(m) && AStarInv(m, start, goal, heap, cameFrom, g, popped, nodesExplored)
    requires e in heap && e.pos == goal && forall x :: x in heap ==> NotAfter(e, x)
    requires WalkFromTo(m, w, start, goal)
    ensures goal in g && g[goal] <= |w| - 1
  {
    WalkPrefixBound(m, heap, g, goal, e, w, |w| - 1);
  }

  /** When the start is the goal, the only entry is the goal's, so
      popping a different cell means the two differ. */
  lemma PoppedNotGoal(start: Pos, goal: Pos, heap: seq<Entry>, e: Entry)
    requires (start == goal ==> heap == [Entry(0, start)]) && e in heap && e.pos != goal
    ensures start != goal
  {
  }

  /** One round of the loop after popping `e`, which is not the goal:
      count it and relax its neighbours. */
  method ExpandMin(m: Maze, ghost start: Pos, goal: Pos, ghost heap: seq<Entry>, e: Entry, rest: seq<Entry>,
                   cameFrom: map<Pos, Option<Pos>>, g: map<Pos, nat>, ghost popped: set<Pos>, nodesExplored: nat)
    returns (heap': seq<Entry>, cameFrom': map<Pos, Option<Pos>>, g': map<Pos, nat>, ghost popped': set<Pos>,
             nodesExplored': nat)
    requires WellFormed(m) && AStarInv(m, start, goal, heap, cameFrom, g, popped, nodesExplored)
    requires PoppedMin(heap, e, rest) && e.pos != goal
    ensures AStarInv(m, start, goal, heap', cameFrom', g', popped', nodesExplored')
    ensures nodesExplored' == nodesExplored + 1
    ensures Possible(m, g') < Possible(m, g) || (g' == g && |heap'| < |heap|)
  {
    var current := e.pos;
    PoppedNotGoal(start, goal, heap, e);
    nodesExplored' := nodesExplored + 1;
    popped' := popped + {current};
    var nbrs := Neighbors(m, current.x, current.y);
    g', cameFrom', heap' := Relax(m, goal, current, nbrs, g, cameFrom, rest);
    ExpandBounded(g, current, m, cameFrom, nbrs, g', cameFrom');
    ExpandTree(m, start, cameFrom, g, current, nbrs, cameFrom', g');
    ExpandEntries(m, goal, heap, e, rest, g, current, nbrs, cameFrom, g', cameFrom', heap');
    ExpandCovers(m, goal, heap, e, rest, g, nbrs, cameFrom, g', cameFrom', heap');
    ExpandCount(goal, heap, e, rest, g, popped, nodesExplored, m, nbrs, cameFrom, g', cameFrom', heap');
  }

  /** An empty queue leaves every scored cell relaxed: the scored cells are
      exactly the component of the start, all of them were popped, and the
      goal is not among them. */
  lemma Exhausted(m: Maze, start: Pos, goal: Pos, cameFrom: map<Pos, Option<Pos>>,
                  g: map<Pos, nat>, popped: set<Pos>, nodesExplored: nat)
    requires WellFormed(m) && AStarInv(m, start, goal, [], cameFrom, g, popped, nodesExplored)
    ensures !Reachable(m, start, goal)
    ensures nodesExplored >= |ReachableSet(m, start)|
  {
    assert forall p :: p in g ==> Relaxed(m, g, p);
    assert Closed(m, g.Keys);
    ClosedIsComponent(m, g.Keys, start);
    ClosedHoldsReachable(m, g.Keys, start);
    SubsetCardinality(g.Keys, popped);
  }

  /** A* from the maze's start to its end. Returns the path (when found)
      and the number of entries popped from the queue. */
  method Solve(m: Maze) returns (path: Option<seq<Pos>>, nodesExplored: nat)
    requires Valid(m) && m.start.Some? && m.end.Some?
    ensures path.Some? ==> IsSolution(m, path.value, m.start.value, m.end.value)
    ensures path.Some? ==> forall w :: WalkFromTo(m, w, m.start.value, m.end.value) ==> |path.value| <= |w|
    ensures path.None? <==> !Reachable(m, m.start.value, m.end.value)
    ensures path.None? ==> nodesExplored >= |ReachableSet(m, m.start.value)|
    ensures m.start == m.end ==> path == Some([m.start.value]) && nodesExplored == 1
  {
    var start, goal := m.start.value, m.end.value;
    MarkersPassable(m);
    var heap := [Entry(0, start)];
    var cameFrom: map<Pos, Option<Pos>> := map[start := None];
    var g: map<Pos, nat> := map[start := 0];
    ghost var popped: set<Pos> := {};
    nodesExplored := 0;
    ReachableFromItself(m, start);
    assert Relaxed(m, g, start) || Pending(heap, g, goal, start) by {
      assert Entry(0, start) in heap;
    }
    assert Waiting(heap, start) by {
      assert Entry(0, start) in heap;
    }
    while heap != []
      invariant AStarInv(m, start, goal, heap, cameFrom, g, popped, nodesExplored)
      decreases Possible(m, g), |heap|
    {
      var e, rest := PopMin(heap);
      if e.pos == goal {
        var p := ReconstructPath(m, cameFrom, goal, g, start);
        forall w | WalkFromTo(m, w, start, goal)
          ensures |p| <= |w|
        {
          GoalIsNearest(m, start, goal, heap, cameFrom, g, popped, nodesExplored, e, w);
        }
        return Some(p), nodesExplored + 1;
      }
      heap, cameFrom, g, popped, nodesExplored := ExpandMin(m, start, goal, heap, e, rest, cameFrom, g, popped, nodesExplored);
    }
    Exhausted(m, start, goal, cameFrom, g, popped, nodesExplored);
    path := None;
  }
}
