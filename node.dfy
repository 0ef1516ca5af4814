/**
 * Search nodes (class Node in AI.py), their priority order and the
 * Manhattan heuristic.
 */
module SearchNode {
  import opened Wrappers
  import opened Grid

  /**
   * A node of one search. The parent reference of the Python object is the
   * index of the parent node in the search's node arena.
   */
  datatype Node = Node(pos: Pos, g: nat, h: nat, f: nat, parent: Option<nat>)

  /** Node.__init__: f is g + h and there is no parent yet. */
  function NewNode(pos: Pos, g: nat, h: nat): (n: Node)
    ensures n.pos == pos && n.g == g && n.h == h
    ensures n.f == n.g + n.h && n.parent == None
  {
    Node(pos, g, h, g + h, None)
  }

  /** Node.__lt__: smaller f first; on equal f, larger g first. */
  predicate Less(a: Node, b: Node)
    ensures Less(a, b) ==> a.f <= b.f
    ensures Less(a, b) && a.f == b.f ==> a.g > b.g
  {
    if a.f == b.f then a.g > b.g else a.f < b.f
  }

  lemma LessIsStrictOrder(a: Node, b: Node, c: Node)
    ensures !Less(a, a)
    ensures Less(a, b) ==> !Less(b, a)
    ensures Less(a, b) && Less(b, c) ==> Less(a, c)
  {
  }

  /** The order is lexicographic on (f ascending, g descending). */
  lemma LessIsLexicographic(a: Node, b: Node)
    ensures Less(a, b) <==> a.f < b.f || (a.f == b.f && a.g > b.g)
    ensures !Less(a, b) && !Less(b, a) <==> a.f == b.f && a.g == b.g
  {
  }

  /** A node nothing is Less than has f no larger than any other node's. */
  lemma NotLessBoundsF(m: Node, n: Node)
    requires !Less(m, n)
    ensures n.f <= m.f
  {
  }

  function Abs(v: int): nat {
    if v < 0 then -v else v
  }

  /** manhattan_heuristic: the L1 distance from p to goal. */
  function Manhattan(p: Pos, goal: Pos): (d: nat)
    ensures d == 0 <==> p == goal
    ensures d >= Abs(p.x - goal.x) && d >= Abs(p.y - goal.y)
  {
    Abs(p.x - goal.x) + Abs(p.y - goal.y)
  }

  /** One unit step changes the heuristic by exactly one. */
  lemma ManhattanStep(p: Pos, q: Pos, goal: Pos)
    requires Adjacent(p, q)
    ensures Manhattan(p, goal) == Manhattan(q, goal) + 1 || Manhattan(q, goal) == Manhattan(p, goal) + 1
  {
  }

  /**
   * Consistency along a walk: the heuristic at the start of a walk exceeds the
   * heuristic at its end by at most the number of steps.
   */
  lemma {:induction false} ManhattanAlongPath(grid: Grid, path: seq<Pos>, s: Pos, t: Pos, goal: Pos)
    requires IsPath(grid, path, s, t)
    ensures Manhattan(s, goal) <= |path| - 1 + Manhattan(t, goal)
    decreases |path|
  {
    if |path| > 1 {
      PathSuffix(grid, path, s, t, 1);
      ManhattanAlongPath(grid, path[1..], path[1], t, goal);
      ManhattanStep(s, path[1], goal);
    }
  }

  /** Admissibility: no walk reaches the goal in fewer steps than the heuristic. */
  lemma ManhattanAdmissible(grid: Grid, path: seq<Pos>, s: Pos, goal: Pos)
    requires IsPath(grid, path, s, goal)
    ensures Manhattan(s, goal) <= |path| - 1
  {
    ManhattanAlongPath(grid, path, s, goal, goal);
  }
}
