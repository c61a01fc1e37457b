/** Depth-first search (DFSSolver.solve in algorithms.py): the breadth-first
    loop with the queue replaced by a stack. */
module Dfs {
  import opened Wrappers
  import opened Sequences
  import opened Grid
  import opened Search

  /** The loop invariant of depth-first search: the shared tree, frontier
      and goal facts, and every discovered cell off the stack is expanded. */
  ghost predicate DfsInv(m: Maze, start: Pos, goal: Pos, stack: seq<Pos>, visited: map<Pos, Option<Pos>>,
                         depth: map<Pos, nat>, nodesExplored: nat)
    requires WellFormed(m)
  {
    && TreeInv(m, start, visited, depth)
    && FrontierInv(stack, visited, nodesExplored)
    && GoalInv(start, goal, stack, visited, nodesExplored)
    && (forall p :: p in visited ==> p in stack || Expanded(m, visited, p))
  }

  /** One round of the loop for a top of stack that is not the goal: pop
      it, count it, and push its undiscovered neighbours in neighbour order. */
  method ExpandTop(m: Maze, ghost start: Pos, ghost goal: Pos, stack: seq<Pos>, visited: map<Pos, Option<Pos>>,
                   ghost depth: map<Pos, nat>, nodesExplored: nat)
    returns (stack': seq<Pos>, visited': map<Pos, Option<Pos>>, ghost depth': map<Pos, nat>, nodesExplored': nat)
    requires WellFormed(m) && DfsInv(m, start, goal, stack, visited, depth, nodesExplored)
    requires stack != [] && stack[|stack| - 1] != goal
    ensures DfsInv(m, start, goal, stack', visited', depth', nodesExplored')
    ensures nodesExplored' == nodesExplored + 1
    ensures forall q :: Step(m, stack[|stack| - 1], q) ==> q in visited'
    ensures (Cells(m) - visited'.Keys) < (Cells(m) - visited.Keys)
         || (visited'.Keys == visited.Keys && |stack'| < |stack|)
  {
    var current := stack[|stack| - 1];
    var rest := stack[..|stack| - 1];
    nodesExplored' := nodesExplored + 1;
    var nbrs := Neighbors(m, current.x, current.y);
    visited', stack', depth' := Discover(visited, rest, depth, current, nbrs);
    PopBack(stack);
    ExpandTree(m, start, visited, depth, current, rest, stack', visited', depth');
    ExpandFrontier(m, visited, depth, nodesExplored, stack, current, rest, stack', visited', depth');
    ExpandGoal(m, start, goal, visited, depth, nodesExplored, stack, current, rest, stack', visited', depth');
    ExpandShrinks(m, visited, depth, stack, current, rest, stack', visited', depth');
    ExpandKeepsExpanded(m, visited, depth, stack, current, rest, stack', visited', depth');
  }

  /** Depth-first search from the maze's start to its end. Returns the path
      (when found) and the number of cells popped from the stack. */
  method Solve(m: Maze) returns (path: Option<seq<Pos>>, nodesExplored: nat)
    requires Valid(m) && m.start.Some? && m.end.Some?
    ensures path.Some? ==> IsSolution(m, path.value, m.start.value, m.end.value)
    ensures path.None? <==> !Reachable(m, m.start.value, m.end.value)
    ensures path.None? ==> nodesExplored == |ReachableSet(m, m.start.value)|
    ensures m.start == m.end ==> path == Some([m.start.value]) && nodesExplored == 1
  {
    var start, goal := m.start.value, m.end.value;
    MarkersPassable(m);
    var stack := [start];
    var visited: map<Pos, Option<Pos>> := map[start := None];
    ghost var depth: map<Pos, nat> := map[start := 0];
    nodesExplored := 0;
    ReachableFromItself(m, start);
    while stack != []
      invariant DfsInv(m, start, goal, stack, visited, depth, nodesExplored)
      decreases Cells(m) - visited.Keys, |stack|
    {
      if stack[|stack| - 1] == goal {
        var p := ReconstructPath(m, visited, goal, depth, start);
        return Some(p), nodesExplored + 1;
      }
      stack, visited, depth, nodesExplored := ExpandTop(m, start, goal, stack, visited, depth, nodesExplored);
    }
    Exhausted(m, start, goal, visited, depth, nodesExplored);
    path := None;
  }
}
