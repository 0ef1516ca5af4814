/**
 * The heuristic update of adaptive_a_star: once the goal has been popped,
 * every expanded cell n gets h(n) = g(goal) - g(n). Cells are keyed by their
 * coordinates; expanded maps each one to the g it was expanded with.
 */
module Adaptive {
  import opened Wrappers
  import opened Grid
  import opened SearchNode
  import opened AStar

  /** The updated heuristic for every expanded cell (AI.py:84-86). */
  function UpdatedHeuristic(expanded: map<Pos, nat>, goalG: nat): (h: map<Pos, int>)
    ensures h.Keys == expanded.Keys
    ensures forall p :: p in h ==> h[p] + expanded[p] == goalG
  {
    map p | p in expanded :: goalG - expanded[p]
  }

  /**
   * The updated heuristic never overestimates: when goalG is the length of a
   * shortest walk from start to goal and each expanded g is the length of a
   * walk from start to that cell, no walk from an expanded cell to the goal
   * is shorter than its new h.
   */
  lemma UpdatedHeuristicAdmissible(grid: Grid, start: Pos, goal: Pos, expanded: map<Pos, nat>, goalG: nat)
    requires NoShorterPath(grid, start, goal, goalG)
    requires forall p :: p in expanded ==> WalkOfLength(grid, start, p, expanded[p])
    ensures var h := UpdatedHeuristic(expanded, goalG);
            forall p :: p in h ==> NoShorterPath(grid, p, goal, h[p])
  {
    var h := UpdatedHeuristic(expanded, goalG);
    forall p, path | p in h && IsPath(grid, path, p, goal) ensures h[p] <= |path| - 1 {
      var w :| IsPath(grid, w, start, p) && |w| - 1 == expanded[p];
      PathJoin(grid, w, path, start, p, goal);
    }
  }

  /**
   * The updated heuristic is at least the Manhattan distance at every cell
   * whose g + Manhattan did not exceed the goal's g. AStarSearch ensures this
   * of every cell it closed before popping the goal.
   */
  lemma UpdatedHeuristicDominates(expanded: map<Pos, nat>, goalG: nat, goal: Pos)
    requires forall p :: p in expanded ==> expanded[p] + Manhattan(p, goal) <= goalG
    ensures var h := UpdatedHeuristic(expanded, goalG);
            forall p :: p in h ==> Manhattan(p, goal) <= h[p]
  {
  }

  /**
   * A successful search followed by the update (AI.py:80-87). The updated h
   * covers exactly the expanded cells and is g(goal) - g there; at every
   * expanded cell it lies between the Manhattan distance and the length of a
   * shortest walk to the goal, and along the returned path it is exactly the
   * number of steps left to the goal. Every cell that a walk from start
   * reaches with steps + Manhattan below g(goal) was expanded, so it is
   * updated too.
   */
  method SearchAndUpdate(start: Pos, goal: Pos, grid: Grid)
    returns (result: Option<seq<Pos>>, expanded: map<Pos, nat>, h: map<Pos, int>)
    requires Rectangular(grid) && InBounds(grid, start)
    ensures result.Some? ==> IsPath(grid, result.value, start, goal)
    ensures result.Some? ==> NoShorterPath(grid, start, goal, |result.value| - 1)
    ensures result.None? <==> !Reachable(grid, start, goal)
    ensures result.None? ==> h == map[] && forall q :: q in expanded <==> Reachable(grid, start, q)
    ensures result.Some? ==> h.Keys == expanded.Keys && forall p :: p in h ==> h[p] + expanded[p] == |result.value| - 1
    ensures result.Some? ==> forall c, w :: IsPath(grid, w, start, c) && |w| - 1 + Manhattan(c, goal) < |result.value| - 1 ==>
              c in h
    ensures result.Some? ==> forall p :: p in h ==> Manhattan(p, goal) <= h[p] && NoShorterPath(grid, p, goal, h[p])
    ensures result.Some? ==> forall i :: 0 <= i < |result.value| - 1 ==>
              result.value[i] in h && h[result.value[i]] == |result.value| - 1 - i
  {
    result, expanded := AStarSearch(start, goal, grid);
    h := map[];
    if result.Some? {
      var goalG := |result.value| - 1;
      h := UpdatedHeuristic(expanded, goalG);
      UpdatedHeuristicAdmissible(grid, start, goal, expanded, goalG);
      UpdatedHeuristicDominates(expanded, goalG, goal);
    }
  }
}
