/**
 * a_star_search and reconstruct_path. The Python nodes, linked by parent
 * references, live here in an arena: a sequence of nodes in creation order in
 * which every parent is an earlier index. The heapq open list is a sequence of
 * arena indices from which a node minimal under Node.__lt__ is removed; the
 * closed list is a set of positions.
 */
module AStar {
  import opened Wrappers
  import opened Grid
  import opened SearchNode

  // ---------------------------------------------------------------------------
  // Parent chains and reconstruct_path
  // ---------------------------------------------------------------------------

  /** Every parent reference points to an earlier node of the arena. */
  predicate ParentsBefore(nodes: seq<Node>) {
    forall i :: 0 <= i < |nodes| && nodes[i].parent.Some? ==> nodes[i].parent.value < i
  }

  /** The positions on the parent chain ending at cur, root first. */
  function ChainFrom(nodes: seq<Node>, cur: Option<nat>): seq<Pos>
    requires ParentsBefore(nodes) && (cur.Some? ==> cur.value < |nodes|)
    decreases if cur.Some? then cur.value + 1 else 0
  {
    match cur
    case None => []
    case Some(i) => ChainFrom(nodes, nodes[i].parent) + [nodes[i].pos]
  }

  /** The node without a parent that the chain from node i ends in. */
  function Root(nodes: seq<Node>, i: nat): (r: nat)
    requires ParentsBefore(nodes) && i < |nodes|
    ensures r <= i && nodes[r].parent == None
    decreases i
  {
    match nodes[i].parent
    case None => i
    case Some(p) => Root(nodes, p)
  }

  /** The number of parent references followed from node i to its root. */
  function Depth(nodes: seq<Node>, i: nat): nat
    requires ParentsBefore(nodes) && i < |nodes|
    decreases i
  {
    match nodes[i].parent
    case None => 0
    case Some(p) => Depth(nodes, p) + 1
  }

  /** The chain of node i runs from its root to i itself, one entry per node on the way. */
  lemma {:induction false} ChainShape(nodes: seq<Node>, i: nat)
    requires ParentsBefore(nodes) && i < |nodes|
    ensures |ChainFrom(nodes, Some(i))| == Depth(nodes, i) + 1
    ensures ChainFrom(nodes, Some(i))[0] == nodes[Root(nodes, i)].pos
    ensures ChainFrom(nodes, Some(i))[Depth(nodes, i)] == nodes[i].pos
    decreases i
  {
    match nodes[i].parent
    case None =>
    case Some(p) =>
      ChainShape(nodes, p);
  }

  /** path[::-1] */
  function Reverse(s: seq<Pos>): (r: seq<Pos>)
    ensures |r| == |s|
    ensures forall i :: 0 <= i < |s| ==> r[i] == s[|s| - 1 - i]
  {
    if s == [] then [] else [s[|s| - 1]] + Reverse(s[..|s| - 1])
  }

  /**
   * reconstruct_path: collect the positions from node k up the parent chain,
   * then reverse them.
   */
  method ReconstructPath(nodes: seq<Node>, k: nat) returns (path: seq<Pos>)
    requires ParentsBefore(nodes) && k < |nodes|
    ensures path == ChainFrom(nodes, Some(k))
    ensures |path| == Depth(nodes, k) + 1
    ensures path[0] == nodes[Root(nodes, k)].pos && path[|path| - 1] == nodes[k].pos
  {
    var backwards: seq<Pos> := [];
    var cur: Option<nat> := Some(k);
    while cur.Some?
      invariant cur.Some? ==> cur.value < |nodes|
      invariant ChainFrom(nodes, cur) + Reverse(backwards) == ChainFrom(nodes, Some(k))
      decreases if cur.Some? then cur.value + 1 else 0
    {
      var i := cur.value;
      ReverseSnoc(backwards, nodes[i].pos);
      backwards := backwards + [nodes[i].pos];
      cur := nodes[i].parent;
    }
    path := Reverse(backwards);
    assert path == ChainFrom(nodes, cur) + Reverse(backwards);
    ChainShape(nodes, k);
  }

  lemma ReverseSnoc(s: seq<Pos>, x: Pos)
    ensures Reverse(s + [x]) == [x] + Reverse(s)
  {
    assert (s + [x])[..|s|] == s;
  }

  // ---------------------------------------------------------------------------
  // The arena of one search
  // ---------------------------------------------------------------------------

  /** The node pushed for neighbour q of node k (AI.py:50-52). */
  function Child(current: Node, k: nat, q: Pos, goal: Pos): (n: Node)
    ensures n.pos == q && n.g == current.g + 1 && n.h == Manhattan(q, goal)
    ensures n.f == n.g + n.h && n.parent == Some(k)
  {
    NewNode(q, current.g + 1, Manhattan(q, goal)).(parent := Some(k))
  }

  /** Node i > 0 was created one unit step away from its parent, one deeper. */
  ghost predicate ChildOf(grid: Grid, nodes: seq<Node>, i: nat)
    requires 0 < i < |nodes|
  {
    nodes[i].parent.Some? && nodes[i].parent.value < i &&
    CanMove(grid, nodes[nodes[i].parent.value].pos, nodes[i].pos) &&
    nodes[i].g == nodes[nodes[i].parent.value].g + 1
  }

  /**
   * The nodes created by a search from start towards goal: node 0 is the start
   * node, every other node is a child of an earlier one, and h is the Manhattan
   * distance to goal throughout.
   */
  ghost predicate Arena(grid: Grid, start: Pos, goal: Pos, nodes: seq<Node>) {
    && |nodes| > 0
    && nodes[0] == NewNode(start, 0, Manhattan(start, goal))
    && ParentsBefore(nodes)
    && (forall i :: 0 <= i < |nodes| ==>
          InBounds(grid, nodes[i].pos) && nodes[i].h == Manhattan(nodes[i].pos, goal) &&
          nodes[i].f == nodes[i].g + nodes[i].h)
    && (forall i :: 0 < i < |nodes| ==> ChildOf(grid, nodes, i))
  }

  /**
   * The chain of every node is a walk from start to the node's position with
   * exactly g steps.
   */
  lemma {:induction false} ArenaChain(grid: Grid, start: Pos, goal: Pos, nodes: seq<Node>, i: nat)
    requires Arena(grid, start, goal, nodes) && i < |nodes|
    ensures IsPath(grid, ChainFrom(nodes, Some(i)), start, nodes[i].pos)
    ensures |ChainFrom(nodes, Some(i))| == nodes[i].g + 1
    decreases i
  {
    if i > 0 {
      assert ChildOf(grid, nodes, i);
      var p := nodes[i].parent.value;
      ArenaChain(grid, start, goal, nodes, p);
      PathExtend(grid, ChainFrom(nodes, Some(p)), start, nodes[p].pos, nodes[i].pos);
    }
  }

  // ---------------------------------------------------------------------------
  // The open list and the expansion of a node
  // ---------------------------------------------------------------------------

  /**
   * heappop's choice: the index in the open list of a node that no other open
   * node is Less than (the first such one).
   */
  method MinIndex(nodes: seq<Node>, openList: seq<nat>) returns (b: nat)
    requires |openList| > 0
    requires forall j :: 0 <= j < |openList| ==> openList[j] < |nodes|
    ensures b < |openList|
    ensures forall j :: 0 <= j < |openList| ==> !Less(nodes[openList[j]], nodes[openList[b]])
  {
    b := 0;
    for i := 1 to |openList|
      invariant b < i
      invariant forall j :: 0 <= j < i ==> !Less(nodes[openList[j]], nodes[openList[b]])
    {
      if Less(nodes[openList[i]], nodes[openList[b]]) {
        b := i;
      }
    }
  }

  function Positions(ns: seq<Node>): seq<Pos> {
    seq(|ns|, i requires 0 <= i < |ns| => ns[i].pos)
  }

  /** The arena indices lo, lo + 1, ..., hi - 1. */
  function Indices(lo: nat, hi: nat): seq<nat>
    requires lo <= hi
  {
    seq(hi - lo, i requires 0 <= i < hi - lo => lo + i)
  }

  /** The cells of ps that are not in closed, in their order in ps. */
  function Unclosed(ps: seq<Pos>, closed: set<Pos>): (r: seq<Pos>)
    ensures forall q :: q in r <==> q in ps && q !in closed
  {
    if ps == [] then []
    else
      assert ps == ps[..|ps| - 1] + [ps[|ps| - 1]];
      Unclosed(ps[..|ps| - 1], closed) + (if ps[|ps| - 1] in closed then [] else [ps[|ps| - 1]])
  }

  lemma IndicesStep(lo: nat, hi: nat)
    requires lo <= hi
    ensures Indices(lo, hi + 1) == Indices(lo, hi) + [hi]
  {
  }

  lemma IndicesPointwise(s: seq<nat>, s': seq<nat>, lo: nat, hi: nat)
    requires lo <= hi && |s'| == |s| + (hi - lo) && s'[..|s|] == s
    requires forall j :: |s| <= j < |s'| ==> s'[j] == lo + (j - |s|)
    ensures s' == s + Indices(lo, hi)
  {
  }

  lemma PositionsAppend(ns: seq<Node>, n: Node)
    ensures Positions(ns + [n]) == Positions(ns) + [n.pos]
  {
  }

  lemma UnclosedStep(ps: seq<Pos>, i: nat, closed: set<Pos>)
    requires i < |ps|
    ensures Unclosed(ps[..i + 1], closed) == Unclosed(ps[..i], closed) + (if ps[i] in closed then [] else [ps[i]])
  {
    assert ps[..i + 1][..i] == ps[..i];
  }

  /**
   * The for loop of a_star_search (AI.py:46-53) over the neighbours of node k:
   * a child of node k for every neighbour that is not closed, in neighbour
   * order, each appended to the arena and pushed on the open list.
   */
  method ExpandNeighbors(goal: Pos, nodes: seq<Node>, openList: seq<nat>, closedList: set<Pos>, k: nat, neighbors: seq<Pos>)
    returns (nodes': seq<Node>, openList': seq<nat>)
    requires k < |nodes|
    ensures |nodes'| >= |nodes| && nodes'[..|nodes|] == nodes
    ensures openList' == openList + Indices(|nodes|, |nodes'|)
    ensures Positions(nodes'[|nodes|..]) == Unclosed(neighbors, closedList)
    ensures forall i :: |nodes| <= i < |nodes'| ==> nodes'[i] == Child(nodes[k], k, nodes'[i].pos, goal)
  {
    nodes', openList' := nodes, openList;
    for i := 0 to |neighbors|
      invariant |nodes'| >= |nodes| && nodes'[..|nodes|] == nodes
      invariant openList' == openList + Indices(|nodes|, |nodes'|)
      invariant Positions(nodes'[|nodes|..]) == Unclosed(neighbors[..i], closedList)
      invariant forall j :: |nodes| <= j < |nodes'| ==> nodes'[j] == Child(nodes[k], k, nodes'[j].pos, goal)
    {
      UnclosedStep(neighbors, i, closedList);
      var q := neighbors[i];
      if q !in closedList {
        var child := Child(nodes[k], k, q, goal);
        PushStep(nodes, nodes', openList, child);
        openList' := openList' + [|nodes'|];
        nodes' := nodes' + [child];
      }
    }
    assert neighbors[..|neighbors|] == neighbors;
  }

  /** Appending one child keeps the arena prefix, the pushed indices and the new positions in step. */
  lemma PushStep(nodes: seq<Node>, nodes': seq<Node>, openList: seq<nat>, child: Node)
    requires |nodes'| >= |nodes| && nodes'[..|nodes|] == nodes
    ensures (nodes' + [child])[..|nodes|] == nodes
    ensures openList + Indices(|nodes|, |nodes'|) + [|nodes'|] == openList + Indices(|nodes|, |nodes'| + 1)
    ensures Positions((nodes' + [child])[|nodes|..]) == Positions(nodes'[|nodes|..]) + [child.pos]
  {
    IndicesStep(|nodes|, |nodes'|);
    assert (nodes' + [child])[|nodes|..] == nodes'[|nodes|..] + [child];
    PositionsAppend(nodes'[|nodes|..], child);
  }

  // ---------------------------------------------------------------------------
  // The search loop
  // ---------------------------------------------------------------------------

  /** The open list after heappop took out its entry at index b. */
  function Removed(s: seq<nat>, b: nat): (r: seq<nat>)
    requires b < |s|
    ensures |r| == |s| - 1 && multiset(r) + multiset{s[b]} == multiset(s)
  {
    assert s == s[..b] + [s[b]] + s[b + 1..];
    s[..b] + s[b + 1..]
  }

  /** The cells of the grid; the closed set is one of its subsets. */
  ghost function Cells(grid: Grid): set<Pos> {
    set y, x | 0 <= y < |grid| && 0 <= x < |grid[y]| :: Pos(x, y)
  }

  /** Open-list entry i is a node whose position is already closed. */
  predicate Stale(nodes: seq<Node>, i: nat, closed: set<Pos>) {
    i < |nodes| && nodes[i].pos in closed
  }

  /** The number of stale entries of an open list. */
  function StaleCount(nodes: seq<Node>, openList: seq<nat>, closed: set<Pos>): nat {
    if openList == [] then 0
    else
      StaleCount(nodes, openList[..|openList| - 1], closed) +
      (if Stale(nodes, openList[|openList| - 1], closed) then 1 else 0)
  }

  /** Some open node for position q has g at most bound. */
  ghost predicate Waiting(nodes: seq<Node>, openList: seq<nat>, q: Pos, bound: int) {
    exists j :: 0 <= j < |openList| && openList[j] < |nodes| && nodes[openList[j]].pos == q && nodes[openList[j]].g <= bound
  }

  /**
   * The loop invariant of a_star_search. gClosed records, for each closed
   * position, the g of the node that closed it.
   *  - the arena is well formed and the open list indexes it;
   *  - the goal has not been closed, and closed cells lie in the grid;
   *  - while start is not closed, its node waits in the open list;
   *  - every open neighbour of a closed cell is closed or waits in the open list
   *    with g at most one more than that cell's;
   *  - the g that closed a cell is the length of a shortest walk to it.
   */
  ghost predicate SearchInv(grid: Grid, start: Pos, goal: Pos, nodes: seq<Node>, openList: seq<nat>,
                            closedList: set<Pos>, gClosed: map<Pos, nat>)
  {
    && InvShape(grid, start, goal, nodes, openList, closedList, gClosed)
    && InvFrontier(grid, start, nodes, openList, closedList, gClosed)
    && InvDistances(grid, start, gClosed)
  }

  ghost predicate InvShape(grid: Grid, start: Pos, goal: Pos, nodes: seq<Node>, openList: seq<nat>,
                           closedList: set<Pos>, gClosed: map<Pos, nat>)
  {
    && Rectangular(grid)
    && Arena(grid, start, goal, nodes)
    && (forall j :: 0 <= j < |openList| ==> openList[j] < |nodes|)
    && closedList == gClosed.Keys
    && goal !in closedList
    && (forall c :: c in closedList ==> InBounds(grid, c))
  }

  ghost predicate InvFrontier(grid: Grid, start: Pos, nodes: seq<Node>, openList: seq<nat>,
                              closedList: set<Pos>, gClosed: map<Pos, nat>)
  {
    && (start !in closedList ==> Waiting(nodes, openList, start, 0))
    && (forall c, q :: c in gClosed && CanMove(grid, c, q) ==>
          q in closedList || Waiting(nodes, openList, q, gClosed[c] + 1))
  }

  ghost predicate InvDistances(grid: Grid, start: Pos, gClosed: map<Pos, nat>) {
    forall c :: c in gClosed ==> NoShorterPath(grid, start, c, gClosed[c])
  }

  /**
   * The order in which the search closes cells, which the consistency of the
   * heuristic gives: lastF is the f of the node popped last, no open node has
   * a smaller f, and every cell was closed with g + Manhattan at most lastF.
   */
  ghost predicate InvOrder(goal: Pos, nodes: seq<Node>, openList: seq<nat>, gClosed: map<Pos, nat>, lastF: nat) {
    && (forall j :: 0 <= j < |openList| && openList[j] < |nodes| ==> lastF <= nodes[openList[j]].f)
    && (forall c :: c in gClosed ==> gClosed[c] + Manhattan(c, goal) <= lastF)
  }

  /** Every closed cell is reached from start by a walk of exactly the g it was closed with. */
  ghost predicate InvWalks(grid: Grid, start: Pos, gClosed: map<Pos, nat>) {
    forall c :: c in gClosed ==> WalkOfLength(grid, start, c, gClosed[c])
  }

  /**
   * A node is only created by expanding its parent (AI.py:43-52), so the
   * parent's position is closed.
   */
  ghost predicate InvAncestors(nodes: seq<Node>, gClosed: map<Pos, nat>) {
    forall i :: 0 <= i < |nodes| && nodes[i].parent.Some? && nodes[i].parent.value < |nodes| ==>
      nodes[nodes[i].parent.value].pos in gClosed
  }

  /** The first cell of a walk outside a set whose last cell is outside it. */
  lemma FirstOutside(path: seq<Pos>, inside: set<Pos>) returns (i: nat)
    requires |path| > 0 && path[|path| - 1] !in inside
    ensures i < |path| && path[i] !in inside && (i > 0 ==> path[i - 1] in inside)
  {
    i := 0;
    while path[i] in inside
      invariant i < |path|
      invariant i > 0 ==> path[i - 1] in inside
      decreases |path| - i
    {
      i := i + 1;
    }
  }

  /**
   * The heart of A* optimality with a consistent heuristic: a node popped as
   * minimal under Less for a position not yet closed carries the length of a
   * shortest walk to that position. Any walk there leaves the closed set at
   * some cell whose node waits in the open list with g no larger than the
   * steps taken, so its f is at most the walk's length plus the popped
   * position's h, and the popped node's f can be no larger.
   */
  lemma PoppedIsShortest(grid: Grid, start: Pos, goal: Pos, nodes: seq<Node>, openList: seq<nat>,
                         closedList: set<Pos>, gClosed: map<Pos, nat>, b: nat)
    requires SearchInv(grid, start, goal, nodes, openList, closedList, gClosed)
    requires b < |openList|
    requires forall j :: 0 <= j < |openList| ==> !Less(nodes[openList[j]], nodes[openList[b]])
    requires nodes[openList[b]].pos !in closedList
    ensures NoShorterPath(grid, start, nodes[openList[b]].pos, nodes[openList[b]].g)
  {
    var n := nodes[openList[b]];
    forall path | IsPath(grid, path, start, n.pos) ensures n.g <= |path| - 1 {
      var i := FirstOutside(path, closedList);
      if i > 0 {
        var c := path[i - 1];
        PathPrefix(grid, path, start, n.pos, i - 1);
        assert |path[..i]| - 1 == i - 1 && path[..i - 1 + 1] == path[..i];
        assert gClosed[c] <= i - 1;
        assert CanMove(grid, c, path[i]);
      }
      assert Waiting(nodes, openList, path[i], i);
      var j :| 0 <= j < |openList| && openList[j] < |nodes| && nodes[openList[j]].pos == path[i] && nodes[openList[j]].g <= i;
      var m := nodes[openList[j]];
      PathSuffix(grid, path, start, n.pos, i);
      ManhattanAlongPath(grid, path[i..], path[i], n.pos, goal);
      NotLessBoundsF(m, n);
    }
  }

  /**
   * The same argument against a minimal popped node: every cell that some walk
   * from start reaches with steps + Manhattan below the popped node's f is
   * already closed, since otherwise a node waiting on that walk would have a
   * smaller f.
   */
  lemma CheaperCellsClosed(grid: Grid, start: Pos, goal: Pos, nodes: seq<Node>, openList: seq<nat>,
                           closedList: set<Pos>, gClosed: map<Pos, nat>, b: nat, c: Pos, w: seq<Pos>)
    requires SearchInv(grid, start, goal, nodes, openList, closedList, gClosed)
    requires b < |openList|
    requires forall j :: 0 <= j < |openList| ==> !Less(nodes[openList[j]], nodes[openList[b]])
    requires IsPath(grid, w, start, c) && |w| - 1 + Manhattan(c, goal) < nodes[openList[b]].f
    ensures c in closedList
  {
    if c !in closedList {
      var i := FirstOutside(w, closedList);
      if i > 0 {
        PathPrefix(grid, w, start, c, i - 1);
        assert |w[..i]| - 1 == i - 1 && w[..i - 1 + 1] == w[..i];
        assert gClosed[w[i - 1]] <= i - 1;
        assert CanMove(grid, w[i - 1], w[i]);
      }
      assert Waiting(nodes, openList, w[i], i);
      var j :| 0 <= j < |openList| && openList[j] < |nodes| && nodes[openList[j]].pos == w[i] && nodes[openList[j]].g <= i;
      PathSuffix(grid, w, start, c, i);
      ManhattanAlongPath(grid, w[i..], w[i], c, goal);
      NotLessBoundsF(nodes[openList[j]], nodes[openList[b]]);
    }
  }

  /** CheaperCellsClosed for every such cell at once. */
  lemma AllCheaperClosed(grid: Grid, start: Pos, goal: Pos, nodes: seq<Node>, openList: seq<nat>,
                         closedList: set<Pos>, gClosed: map<Pos, nat>, b: nat)
    requires SearchInv(grid, start, goal, nodes, openList, closedList, gClosed)
    requires b < |openList|
    requires forall j :: 0 <= j < |openList| ==> !Less(nodes[openList[j]], nodes[openList[b]])
    ensures forall c, w :: IsPath(grid, w, start, c) && |w| - 1 + Manhattan(c, goal) < nodes[openList[b]].f ==>
              c in gClosed
  {
    forall c, w | IsPath(grid, w, start, c) && |w| - 1 + Manhattan(c, goal) < nodes[openList[b]].f
      ensures c in gClosed
    {
      CheaperCellsClosed(grid, start, goal, nodes, openList, closedList, gClosed, b, c, w);
    }
  }

  /**
   * When the open list runs empty, the closed cells are exactly the cells
   * reachable from start: every waiting neighbour has been closed.
   */
  lemma ClosedAreReachable(grid: Grid, start: Pos, goal: Pos, nodes: seq<Node>, closedList: set<Pos>, gClosed: map<Pos, nat>)
    requires SearchInv(grid, start, goal, nodes, [], closedList, gClosed) && InvWalks(grid, start, gClosed)
    ensures forall q :: q in gClosed <==> Reachable(grid, start, q)
  {
    forall q | Reachable(grid, start, q) ensures q in gClosed {
      var path :| IsPath(grid, path, start, q);
      PathStaysInside(grid, path, start, q, closedList);
    }
    forall q | q in gClosed ensures Reachable(grid, start, q) {
      assert WalkOfLength(grid, start, q, gClosed[q]);
    }
  }

  lemma WaitingAfterPop(nodes: seq<Node>, openList: seq<nat>, b: nat, q: Pos, bound: int)
    requires b < |openList| && openList[b] < |nodes| && nodes[openList[b]].pos != q
    requires Waiting(nodes, openList, q, bound)
    ensures Waiting(nodes, Removed(openList, b), q, bound)
  {
    var j :| 0 <= j < |openList| && openList[j] < |nodes| && nodes[openList[j]].pos == q && nodes[openList[j]].g <= bound;
    var rest := Removed(openList, b);
    if j < b {
      assert rest[j] == openList[j];
    } else {
      assert rest[j - 1] == openList[j];
    }
  }

  lemma WaitingAfterPush(nodes: seq<Node>, openList: seq<nat>, nodes': seq<Node>, extra: seq<nat>, q: Pos, bound: int)
    requires |nodes'| >= |nodes| && nodes'[..|nodes|] == nodes
    requires Waiting(nodes, openList, q, bound)
    ensures Waiting(nodes', openList + extra, q, bound)
  {
    var j :| 0 <= j < |openList| && openList[j] < |nodes| && nodes[openList[j]].pos == q && nodes[openList[j]].g <= bound;
    assert (openList + extra)[j] == openList[j] && nodes'[openList[j]] == nodes[openList[j]];
  }

  lemma PushedAreWaiting(nodes: seq<Node>, rest: seq<nat>, nodes': seq<Node>, q: Pos, g: nat)
    requires |nodes'| >= |nodes| && q in Positions(nodes'[|nodes|..])
    requires forall i :: |nodes| <= i < |nodes'| ==> nodes'[i].g == g
    ensures Waiting(nodes', rest + Indices(|nodes|, |nodes'|), q, g)
  {
    var added := nodes'[|nodes|..];
    var t :| 0 <= t < |added| && Positions(added)[t] == q;
    var openList' := rest + Indices(|nodes|, |nodes'|);
    assert openList'[|rest| + t] == |nodes| + t;
    assert nodes'[|nodes| + t] == added[t];
  }

  lemma {:induction false} StaleConcat(nodes: seq<Node>, a: seq<nat>, b: seq<nat>, closed: set<Pos>)
    ensures StaleCount(nodes, a + b, closed) == StaleCount(nodes, a, closed) + StaleCount(nodes, b, closed)
    decreases |b|
  {
    if b != [] {
      assert (a + b)[..|a + b| - 1] == a + b[..|b| - 1];
      StaleConcat(nodes, a, b[..|b| - 1], closed);
    } else {
      assert a + b == a;
    }
  }

  /** Appending to the arena does not change which entries of an open list are stale. */
  lemma {:induction false} StaleCountExtend(nodes: seq<Node>, nodes': seq<Node>, s: seq<nat>, closed: set<Pos>)
    requires |nodes'| >= |nodes| && nodes'[..|nodes|] == nodes
    requires forall j :: 0 <= j < |s| ==> s[j] < |nodes|
    ensures StaleCount(nodes', s, closed) == StaleCount(nodes, s, closed)
    decreases |s|
  {
    if s != [] {
      assert nodes'[s[|s| - 1]] == nodes[s[|s| - 1]];
      StaleCountExtend(nodes, nodes', s[..|s| - 1], closed);
    }
  }

  /** The freshly pushed entries are not stale: they were pushed for unclosed cells. */
  lemma {:induction false} FreshNotStale(nodes': seq<Node>, lo: nat, hi: nat, closed: set<Pos>)
    requires lo <= hi <= |nodes'|
    requires forall i :: lo <= i < hi ==> nodes'[i].pos !in closed
    ensures StaleCount(nodes', Indices(lo, hi), closed) == 0
    decreases hi - lo
  {
    if lo < hi {
      IndicesStep(lo, hi - 1);
      assert Indices(lo, hi)[..hi - lo - 1] == Indices(lo, hi - 1);
      FreshNotStale(nodes', lo, hi - 1, closed);
    }
  }

  /**
   * The nodes that expanding node k appended are its children for unclosed
   * neighbours of its position.
   */
  lemma NewNodesAreChildren(grid: Grid, goal: Pos, nodes: seq<Node>, k: nat, closed: set<Pos>, nodes': seq<Node>,
                            neighbors: seq<Pos>)
    requires k < |nodes| && |nodes'| >= |nodes|
    requires forall q :: q in neighbors ==> CanMove(grid, nodes[k].pos, q)
    requires Positions(nodes'[|nodes|..]) == Unclosed(neighbors, closed)
    requires forall i :: |nodes| <= i < |nodes'| ==> nodes'[i] == Child(nodes[k], k, nodes'[i].pos, goal)
    ensures forall i :: |nodes| <= i < |nodes'| ==>
              CanMove(grid, nodes[k].pos, nodes'[i].pos) && nodes'[i].pos !in closed &&
              nodes'[i].parent == Some(k) && nodes'[i].g == nodes[k].g + 1 &&
              nodes'[i].h == Manhattan(nodes'[i].pos, goal) && nodes'[i].f == nodes'[i].g + nodes'[i].h
  {
    var added := nodes'[|nodes|..];
    forall i | |nodes| <= i < |nodes'|
      ensures CanMove(grid, nodes[k].pos, nodes'[i].pos) && nodes'[i].pos !in closed
    {
      assert Positions(added)[i - |nodes|] == nodes'[i].pos;
      assert nodes'[i].pos in Unclosed(neighbors, closed);
    }
  }

  /** Every unclosed neighbour of the expanded position got a node. */
  lemma NeighboursPushed(grid: Grid, p: Pos, added: seq<Node>, closed: set<Pos>)
    requires Rectangular(grid) && InBounds(grid, p)
    requires Positions(added) == Unclosed(Neighbors(grid, p), closed)
    ensures forall q :: CanMove(grid, p, q) && q !in closed ==> q in Positions(added)
  {
    forall q | CanMove(grid, p, q) && q !in closed ensures q in Positions(added) {
      assert q in Neighbors(grid, p);
    }
  }

  /** Appending children of node k keeps the arena well formed. */
  lemma ArenaGrows(grid: Grid, start: Pos, goal: Pos, nodes: seq<Node>, k: nat, nodes': seq<Node>)
    requires Arena(grid, start, goal, nodes) && k < |nodes|
    requires |nodes'| >= |nodes| && nodes'[..|nodes|] == nodes
    requires forall i :: |nodes| <= i < |nodes'| ==>
               CanMove(grid, nodes[k].pos, nodes'[i].pos) &&
               nodes'[i].parent == Some(k) && nodes'[i].g == nodes[k].g + 1 &&
               nodes'[i].h == Manhattan(nodes'[i].pos, goal) && nodes'[i].f == nodes'[i].g + nodes'[i].h
    ensures Arena(grid, start, goal, nodes')
  {
    forall i | 0 <= i < |nodes'|
      ensures InBounds(grid, nodes'[i].pos) && nodes'[i].h == Manhattan(nodes'[i].pos, goal)
      ensures nodes'[i].f == nodes'[i].g + nodes'[i].h
    {
      if i < |nodes| { assert nodes'[i] == nodes[i]; }
    }
    forall i | 0 < i < |nodes'| ensures ChildOf(grid, nodes', i) {
      if i < |nodes| {
        assert nodes'[i] == nodes[i] && ChildOf(grid, nodes, i);
        assert nodes'[nodes[i].parent.value] == nodes[nodes[i].parent.value];
      } else {
        assert nodes'[k] == nodes[k];
      }
    }
    assert ParentsBefore(nodes') by {
      forall i | 0 <= i < |nodes'| && nodes'[i].parent.Some? ensures nodes'[i].parent.value < i {
        if i < |nodes| { assert nodes'[i] == nodes[i]; }
      }
    }
    assert nodes'[0] == nodes[0];
  }

  /** A pop followed by pushes keeps every other waiting position waiting. */
  lemma StillWaiting(nodes: seq<Node>, before: seq<nat>, b: nat, nodes': seq<Node>, q: Pos, bound: int)
    requires b < |before| && before[b] < |nodes| && nodes[before[b]].pos != q
    requires |nodes'| >= |nodes| && nodes'[..|nodes|] == nodes
    requires Waiting(nodes, before, q, bound)
    ensures Waiting(nodes', Removed(before, b) + Indices(|nodes|, |nodes'|), q, bound)
  {
    WaitingAfterPop(nodes, before, b, q, bound);
    WaitingAfterPush(nodes, Removed(before, b), nodes', Indices(|nodes|, |nodes'|), q, bound);
  }

  /** Popping entry b removes exactly its own contribution to the stale count. */
  lemma StaleRemoved(nodes: seq<Node>, s: seq<nat>, b: nat, closed: set<Pos>)
    requires b < |s|
    ensures StaleCount(nodes, s, closed) ==
            StaleCount(nodes, Removed(s, b), closed) + (if Stale(nodes, s[b], closed) then 1 else 0)
  {
    assert s == (s[..b] + [s[b]]) + s[b + 1..];
    StaleConcat(nodes, s[..b] + [s[b]], s[b + 1..], closed);
    StaleConcat(nodes, s[..b], [s[b]], closed);
    assert [s[b]][..0] == [];
    StaleConcat(nodes, s[..b], s[b + 1..], closed);
  }

  /** Re-popping a node for a closed position removes one stale entry and adds none. */
  lemma StaleDecreases(nodes: seq<Node>, before: seq<nat>, b: nat, nodes': seq<Node>, closed: set<Pos>)
    requires b < |before| && (forall j :: 0 <= j < |before| ==> before[j] < |nodes|)
    requires nodes[before[b]].pos in closed
    requires |nodes'| >= |nodes| && nodes'[..|nodes|] == nodes
    requires forall i :: |nodes| <= i < |nodes'| ==> nodes'[i].pos !in closed
    ensures StaleCount(nodes', Removed(before, b) + Indices(|nodes|, |nodes'|), closed) < StaleCount(nodes, before, closed)
  {
    var rest := Removed(before, b);
    var ind := Indices(|nodes|, |nodes'|);
    StaleRemoved(nodes, before, b, closed);
    RemovedBounded(before, b, |nodes|);
    StaleCountExtend(nodes, nodes', rest, closed);
    StaleConcat(nodes', rest, ind, closed);
    FreshNotStale(nodes', |nodes|, |nodes'|, closed);
  }

  /** The open list after the pushes still indexes the arena. */
  lemma OpenListBounded(rest: seq<nat>, lo: nat, hi: nat)
    requires lo <= hi && forall j :: 0 <= j < |rest| ==> rest[j] < lo
    ensures forall j :: 0 <= j < |rest + Indices(lo, hi)| ==> (rest + Indices(lo, hi))[j] < hi
  {
    var s := rest + Indices(lo, hi);
    forall j | 0 <= j < |s| ensures s[j] < hi {
      if j >= |rest| {
        assert s[j] == Indices(lo, hi)[j - |rest|];
      } else {
        assert s[j] == rest[j];
      }
    }
  }

  lemma RemovedBounded(s: seq<nat>, b: nat, n: nat)
    requires b < |s| && forall j :: 0 <= j < |s| ==> s[j] < n
    ensures forall j :: 0 <= j < |Removed(s, b)| ==> Removed(s, b)[j] < n
  {
    var rest := Removed(s, b);
    forall j | 0 <= j < |rest| ensures rest[j] < n {
      if j < b { assert rest[j] == s[j]; } else { assert rest[j] == s[j + 1]; }
    }
  }

  /** Closing a new cell of the grid leaves fewer cells to close. */
  lemma CellsDecrease(grid: Grid, closed: set<Pos>, p: Pos)
    requires InBounds(grid, p) && p !in closed
    ensures |Cells(grid) - (closed + {p})| < |Cells(grid) - closed|
  {
    assert p in Cells(grid);
    assert Cells(grid) - (closed + {p}) == (Cells(grid) - closed) - {p};
  }

  /**
   * After closing P and pushing its unclosed neighbours, every open neighbour
   * of a closed cell is closed or waits with g at most one more than that
   * cell's.
   */
  lemma FrontierKept(grid: Grid, nodes: seq<Node>, before: seq<nat>, b: nat, nodes': seq<Node>,
                     closedList: set<Pos>, gClosed: map<Pos, nat>)
    requires b < |before| && before[b] < |nodes|
    requires |nodes'| >= |nodes| && nodes'[..|nodes|] == nodes
    requires forall c, q :: c in gClosed && CanMove(grid, c, q) ==>
               q in closedList || Waiting(nodes, before, q, gClosed[c] + 1)
    requires closedList == gClosed.Keys
    requires var cur := nodes[before[b]];
             cur.pos in closedList ==> gClosed[cur.pos] <= cur.g
    requires forall i :: |nodes| <= i < |nodes'| ==> nodes'[i].g == nodes[before[b]].g + 1
    requires forall q :: CanMove(grid, nodes[before[b]].pos, q) && q !in closedList + {nodes[before[b]].pos} ==>
               q in Positions(nodes'[|nodes|..])
    ensures var cur := nodes[before[b]];
            var gClosed' := if cur.pos in gClosed then gClosed else gClosed[cur.pos := cur.g];
            forall c, q :: c in gClosed' && CanMove(grid, c, q) ==>
              q in closedList + {cur.pos} ||
              Waiting(nodes', Removed(before, b) + Indices(|nodes|, |nodes'|), q, gClosed'[c] + 1)
  {
    var cur := nodes[before[b]];
    var P := cur.pos;
    var closed' := closedList + {P};
    var gClosed' := if P in gClosed then gClosed else gClosed[P := cur.g];
    var openList' := Removed(before, b) + Indices(|nodes|, |nodes'|);
    forall c, q | c in gClosed' && CanMove(grid, c, q) && q !in closed'
      ensures Waiting(nodes', openList', q, gClosed'[c] + 1)
    {
      if c in gClosed {
        StillWaiting(nodes, before, b, nodes', q, gClosed[c] + 1);
      } else {
        assert c == P;
        PushedAreWaiting(nodes, Removed(before, b), nodes', q, cur.g + 1);
      }
    }
  }

  /** Every closed cell, the one just closed included, was closed with its shortest distance. */
  lemma DistancesKept(grid: Grid, start: Pos, goal: Pos, nodes: seq<Node>, before: seq<nat>, b: nat,
                      closedList: set<Pos>, gClosed: map<Pos, nat>)
    requires SearchInv(grid, start, goal, nodes, before, closedList, gClosed)
    requires b < |before|
    requires forall j :: 0 <= j < |before| ==> !Less(nodes[before[j]], nodes[before[b]])
    ensures var cur := nodes[before[b]];
            var gClosed' := if cur.pos in gClosed then gClosed else gClosed[cur.pos := cur.g];
            InvDistances(grid, start, gClosed')
  {
    var cur := nodes[before[b]];
    if cur.pos !in closedList {
      PoppedIsShortest(grid, start, goal, nodes, before, closedList, gClosed, b);
    }
  }

  /** The arena and the bookkeeping stay well formed across one expansion. */
  lemma ShapeKept(grid: Grid, start: Pos, goal: Pos, nodes: seq<Node>, before: seq<nat>, b: nat,
                  closedList: set<Pos>, gClosed: map<Pos, nat>, nodes': seq<Node>, openList': seq<nat>)
    requires InvShape(grid, start, goal, nodes, before, closedList, gClosed)
    requires b < |before| && nodes[before[b]].pos != goal
    requires |nodes'| >= |nodes| && nodes'[..|nodes|] == nodes
    requires openList' == Removed(before, b) + Indices(|nodes|, |nodes'|)
    requires forall i :: |nodes| <= i < |nodes'| ==>
               CanMove(grid, nodes[before[b]].pos, nodes'[i].pos) &&
               nodes'[i].parent == Some(before[b]) && nodes'[i].g == nodes[before[b]].g + 1 &&
               nodes'[i].h == Manhattan(nodes'[i].pos, goal) && nodes'[i].f == nodes'[i].g + nodes'[i].h
    ensures var cur := nodes[before[b]];
            var gClosed' := if cur.pos in gClosed then gClosed else gClosed[cur.pos := cur.g];
            InvShape(grid, start, goal, nodes', openList', closedList + {cur.pos}, gClosed')
  {
    ArenaGrows(grid, start, goal, nodes, before[b], nodes');
    RemovedBounded(before, b, |nodes|);
    OpenListBounded(Removed(before, b), |nodes|, |nodes'|);
  }

  /** Start and the open neighbours of closed cells stay waiting across one expansion. */
  lemma FrontierStep(grid: Grid, start: Pos, goal: Pos, nodes: seq<Node>, before: seq<nat>, b: nat,
                     closedList: set<Pos>, gClosed: map<Pos, nat>, nodes': seq<Node>, openList': seq<nat>)
    requires SearchInv(grid, start, goal, nodes, before, closedList, gClosed)
    requires b < |before|
    requires |nodes'| >= |nodes| && nodes'[..|nodes|] == nodes
    requires openList' == Removed(before, b) + Indices(|nodes|, |nodes'|)
    requires forall i :: |nodes| <= i < |nodes'| ==> nodes'[i].g == nodes[before[b]].g + 1
    requires forall q :: CanMove(grid, nodes[before[b]].pos, q) && q !in closedList + {nodes[before[b]].pos} ==>
               q in Positions(nodes'[|nodes|..])
    ensures var cur := nodes[before[b]];
            var gClosed' := if cur.pos in gClosed then gClosed else gClosed[cur.pos := cur.g];
            InvFrontier(grid, start, nodes', openList', closedList + {cur.pos}, gClosed')
  {
    var k := before[b];
    var cur := nodes[k];
    var P := cur.pos;
    if P in closedList {
      // A re-popped node cannot beat the distance its cell was closed with.
      assert NoShorterPath(grid, start, P, gClosed[P]);
      ArenaChain(grid, start, goal, nodes, k);
      assert gClosed[P] <= cur.g;
    }
    FrontierKept(grid, nodes, before, b, nodes', closedList, gClosed);
    if start !in closedList + {P} {
      StillWaiting(nodes, before, b, nodes', start, 0);
    }
  }

  /**
   * One pass of the loop body after the pop, for a position other than the
   * goal: the invariant holds again once the position is closed and its
   * unclosed neighbours are pushed.
   */
  lemma ExpansionKeepsInv(grid: Grid, start: Pos, goal: Pos, nodes: seq<Node>, before: seq<nat>, b: nat,
                          closedList: set<Pos>, gClosed: map<Pos, nat>, nodes': seq<Node>, openList': seq<nat>)
    requires SearchInv(grid, start, goal, nodes, before, closedList, gClosed)
    requires b < |before|
    requires forall j :: 0 <= j < |before| ==> !Less(nodes[before[j]], nodes[before[b]])
    requires nodes[before[b]].pos != goal
    requires |nodes'| >= |nodes| && nodes'[..|nodes|] == nodes
    requires openList' == Removed(before, b) + Indices(|nodes|, |nodes'|)
    requires forall i :: |nodes| <= i < |nodes'| ==>
               CanMove(grid, nodes[before[b]].pos, nodes'[i].pos) &&
               nodes'[i].parent == Some(before[b]) && nodes'[i].g == nodes[before[b]].g + 1 &&
               nodes'[i].h == Manhattan(nodes'[i].pos, goal) && nodes'[i].f == nodes'[i].g + nodes'[i].h
    requires forall q :: CanMove(grid, nodes[before[b]].pos, q) && q !in closedList + {nodes[before[b]].pos} ==>
               q in Positions(nodes'[|nodes|..])
    ensures var cur := nodes[before[b]];
            var gClosed' := if cur.pos in gClosed then gClosed else gClosed[cur.pos := cur.g];
            SearchInv(grid, start, goal, nodes', openList', closedList + {cur.pos}, gClosed')
  {
    var k := before[b];
    var cur := nodes[k];
    var P := cur.pos;
    var closed' := closedList + {P};
    var gClosed' := if P in gClosed then gClosed else gClosed[P := cur.g];

    ShapeKept(grid, start, goal, nodes, before, b, closedList, gClosed, nodes', openList');
    FrontierStep(grid, start, goal, nodes, before, b, closedList, gClosed, nodes', openList');
    DistancesKept(grid, start, goal, nodes, before, b, closedList, gClosed);
  }

  /**
   * Popping a minimal node and pushing its children keeps the order of the
   * search, now at the popped node's f: the popped node has the smallest f,
   * and a child's f is at least its parent's because Manhattan drops by at
   * most one per step.
   */
  lemma OrderKept(goal: Pos, nodes: seq<Node>, before: seq<nat>, b: nat, gClosed: map<Pos, nat>, lastF: nat,
                  nodes': seq<Node>, openList': seq<nat>)
    requires InvOrder(goal, nodes, before, gClosed, lastF)
    requires b < |before| && (forall j :: 0 <= j < |before| ==> before[j] < |nodes|)
    requires forall j :: 0 <= j < |before| ==> !Less(nodes[before[j]], nodes[before[b]])
    requires nodes[before[b]].f == nodes[before[b]].g + Manhattan(nodes[before[b]].pos, goal)
    requires |nodes'| >= |nodes| && nodes'[..|nodes|] == nodes
    requires openList' == Removed(before, b) + Indices(|nodes|, |nodes'|)
    requires forall i :: |nodes| <= i < |nodes'| ==>
               Adjacent(nodes[before[b]].pos, nodes'[i].pos) && nodes'[i].g == nodes[before[b]].g + 1 &&
               nodes'[i].f == nodes'[i].g + Manhattan(nodes'[i].pos, goal)
    ensures var cur := nodes[before[b]];
            var gClosed' := if cur.pos in gClosed then gClosed else gClosed[cur.pos := cur.g];
            lastF <= cur.f && InvOrder(goal, nodes', openList', gClosed', cur.f)
  {
    var cur := nodes[before[b]];
    var rest := Removed(before, b);
    forall j | 0 <= j < |openList'| && openList'[j] < |nodes'| ensures cur.f <= nodes'[openList'[j]].f {
      if j < |rest| {
        var j0 := if j < b then j else j + 1;
        assert openList'[j] == rest[j] == before[j0];
        assert nodes'[before[j0]] == nodes[before[j0]];
        NotLessBoundsF(nodes[before[j0]], cur);
      } else {
        var i := openList'[j];
        assert i == Indices(|nodes|, |nodes'|)[j - |rest|] == |nodes| + (j - |rest|);
        ManhattanStep(cur.pos, nodes'[i].pos, goal);
      }
    }
  }

  /** The g a popped node's position is closed with is the length of a walk to it. */
  lemma WalksKept(grid: Grid, start: Pos, goal: Pos, nodes: seq<Node>, k: nat, gClosed: map<Pos, nat>)
    requires Arena(grid, start, goal, nodes) && k < |nodes| && InvWalks(grid, start, gClosed)
    ensures var cur := nodes[k];
            var gClosed' := if cur.pos in gClosed then gClosed else gClosed[cur.pos := cur.g];
            InvWalks(grid, start, gClosed')
  {
    ArenaChain(grid, start, goal, nodes, k);
    assert WalkOfLength(grid, start, nodes[k].pos, nodes[k].g) by {
      assert IsPath(grid, ChainFrom(nodes, Some(k)), start, nodes[k].pos);
    }
  }

  /** Closing node k's position and appending children of k keeps every parent closed. */
  lemma AncestorsKept(nodes: seq<Node>, k: nat, gClosed: map<Pos, nat>, nodes': seq<Node>, gClosed': map<Pos, nat>)
    requires InvAncestors(nodes, gClosed) && k < |nodes|
    requires gClosed.Keys <= gClosed'.Keys && nodes[k].pos in gClosed'
    requires |nodes'| >= |nodes| && nodes'[..|nodes|] == nodes
    requires ParentsBefore(nodes)
    requires forall i :: |nodes| <= i < |nodes'| ==> nodes'[i].parent == Some(k)
    ensures InvAncestors(nodes', gClosed')
  {
    forall i | 0 <= i < |nodes'| && nodes'[i].parent.Some? && nodes'[i].parent.value < |nodes'|
      ensures nodes'[nodes'[i].parent.value].pos in gClosed'
    {
      if i < |nodes| {
        assert nodes'[i] == nodes[i];
        assert nodes'[nodes[i].parent.value] == nodes[nodes[i].parent.value];
      } else {
        assert nodes'[k] == nodes[k];
      }
    }
  }

  /** Every cell on a node's chain before the node itself is closed. */
  lemma {:induction false} ChainClosed(nodes: seq<Node>, i: nat, gClosed: map<Pos, nat>)
    requires ParentsBefore(nodes) && i < |nodes| && InvAncestors(nodes, gClosed)
    ensures var chain := ChainFrom(nodes, Some(i));
            forall j :: 0 <= j < |chain| - 1 ==> chain[j] in gClosed
    decreases i
  {
    match nodes[i].parent
    case None =>
    case Some(p) =>
      ChainClosed(nodes, p, gClosed);
      ChainShape(nodes, p);
      var prefix := ChainFrom(nodes, Some(p));
      assert ChainFrom(nodes, Some(i)) == prefix + [nodes[i].pos];
      assert prefix[|prefix| - 1] == nodes[p].pos;
  }

  /**
   * On a shortest walk from start to goal whose cells before the goal are all
   * closed, each such cell was closed with g equal to its index on the walk.
   */
  lemma ClosedAlongShortest(grid: Grid, start: Pos, goal: Pos, path: seq<Pos>, gClosed: map<Pos, nat>)
    requires IsPath(grid, path, start, goal) && NoShorterPath(grid, start, goal, |path| - 1)
    requires forall j :: 0 <= j < |path| - 1 ==> path[j] in gClosed
    requires InvDistances(grid, start, gClosed) && InvWalks(grid, start, gClosed)
    ensures forall j :: 0 <= j < |path| - 1 ==> gClosed[path[j]] == j
  {
    forall j | 0 <= j < |path| - 1 ensures gClosed[path[j]] == j {
      var c := path[j];
      PathPrefix(grid, path, start, goal, j);
      assert |path[..j + 1]| - 1 == j;
      var w :| IsPath(grid, w, start, c) && |w| - 1 == gClosed[c];
      PathSuffix(grid, path, start, goal, j);
      PathJoin(grid, w, path[j..], start, c, goal);
    }
  }

  /**
   * The termination measure of the loop decreases: closing a new cell leaves
   * fewer cells to close, and re-popping a node for a closed cell removes a
   * stale entry and pushes none.
   */
  lemma ExpansionShrinks(grid: Grid, nodes: seq<Node>, before: seq<nat>, b: nat,
                         closedList: set<Pos>, nodes': seq<Node>, openList': seq<nat>)
    requires b < |before| && (forall j :: 0 <= j < |before| ==> before[j] < |nodes|)
    requires InBounds(grid, nodes[before[b]].pos)
    requires |nodes'| >= |nodes| && nodes'[..|nodes|] == nodes
    requires openList' == Removed(before, b) + Indices(|nodes|, |nodes'|)
    requires forall i :: |nodes| <= i < |nodes'| ==> nodes'[i].pos !in closedList + {nodes[before[b]].pos}
    ensures var P := nodes[before[b]].pos;
            if P in closedList
            then StaleCount(nodes', openList', closedList) < StaleCount(nodes, before, closedList)
            else |Cells(grid) - (closedList + {P})| < |Cells(grid) - closedList|
  {
    var P := nodes[before[b]].pos;
    if P in closedList {
      StaleDecreases(nodes, before, b, nodes', closedList);
    } else {
      CellsDecrease(grid, closedList, P);
    }
  }

  /**
   * The loop body of a_star_search after a pop that is not the goal
   * (AI.py:43-53): close the popped position and push a child for each of its
   * unclosed neighbours. The loop invariants hold again, and the termination
   * measure decreases.
   */
  method CloseAndExpand(grid: Grid, start: Pos, goal: Pos, nodes: seq<Node>, ghost before: seq<nat>, b: nat, k: nat,
                        openList: seq<nat>, closedList: set<Pos>, gClosed: map<Pos, nat>, ghost lastF: nat)
    returns (nodes': seq<Node>, openList': seq<nat>, closedList': set<Pos>, gClosed': map<Pos, nat>, ghost lastF': nat)
    requires SearchInv(grid, start, goal, nodes, before, closedList, gClosed)
    requires InvOrder(goal, nodes, before, gClosed, lastF) && InvWalks(grid, start, gClosed)
    requires InvAncestors(nodes, gClosed)
    requires b < |before| && k == before[b] && openList == Removed(before, b)
    requires forall j :: 0 <= j < |before| ==> !Less(nodes[before[j]], nodes[before[b]])
    requires nodes[before[b]].pos != goal
    ensures closedList' == closedList + {nodes[before[b]].pos}
    ensures SearchInv(grid, start, goal, nodes', openList', closedList', gClosed')
    ensures InvOrder(goal, nodes', openList', gClosed', lastF') && InvWalks(grid, start, gClosed')
    ensures InvAncestors(nodes', gClosed')
    ensures || |Cells(grid) - closedList'| < |Cells(grid) - closedList|
            || (closedList' == closedList && StaleCount(nodes', openList', closedList') < StaleCount(nodes, before, closedList))
  {
    var current := nodes[k];
    gClosed' := gClosed;
    if current.pos !in closedList {
      gClosed' := gClosed[current.pos := current.g];
    }
    closedList' := closedList + {current.pos};
    nodes', openList' := ExpandNeighbors(goal, nodes, openList, closedList', k, Neighbors(grid, current.pos));
    NewNodesAreChildren(grid, goal, nodes, k, closedList', nodes', Neighbors(grid, current.pos));
    NeighboursPushed(grid, current.pos, nodes'[|nodes|..], closedList');
    ExpansionKeepsInv(grid, start, goal, nodes, before, b, closedList, gClosed, nodes', openList');
    ExpansionShrinks(grid, nodes, before, b, closedList, nodes', openList');
    if current.pos in closedList {
      assert closedList' == closedList;
    }
    OrderKept(goal, nodes, before, b, gClosed, lastF, nodes', openList');
    WalksKept(grid, start, goal, nodes, k, gClosed);
    AncestorsKept(nodes, k, gClosed, nodes', gClosed');
    lastF' := current.f;
  }

  /** When the goal is popped, every cell was closed with g + Manhattan at most the goal node's g. */
  lemma ClosedBelowGoal(goal: Pos, nodes: seq<Node>, before: seq<nat>, b: nat, gClosed: map<Pos, nat>, lastF: nat)
    requires InvOrder(goal, nodes, before, gClosed, lastF)
    requires b < |before| && before[b] < |nodes| && nodes[before[b]].pos == goal
    requires nodes[before[b]].f == nodes[before[b]].g + Manhattan(nodes[before[b]].pos, goal)
    ensures forall c :: c in gClosed ==> gClosed[c] + Manhattan(c, goal) <= nodes[before[b]].g
  {
    assert lastF <= nodes[before[b]].f;
  }

  /**
   * a_star_search. A returned path is a walk from start to goal through '0'
   * cells and no walk is shorter; None is returned only when no walk from start
   * reaches goal. The result expanded maps each closed position to the g it
   * was closed with: a shortest distance from start, whose g + Manhattan is at
   * most the length of the returned path. Every cell of the returned path but
   * the goal was closed, with g equal to its index on the path.
   */
  method AStarSearch(start: Pos, goal: Pos, grid: Grid) returns (result: Option<seq<Pos>>, expanded: map<Pos, nat>)
    requires Rectangular(grid) && InBounds(grid, start)
    ensures result.Some? ==> IsPath(grid, result.value, start, goal)
    ensures result.Some? ==> NoShorterPath(grid, start, goal, |result.value| - 1)
    ensures result.None? <==> !Reachable(grid, start, goal)
    ensures result.Some? ==> forall p :: p in expanded ==>
              && NoShorterPath(grid, start, p, expanded[p]) && WalkOfLength(grid, start, p, expanded[p])
              && expanded[p] + Manhattan(p, goal) <= |result.value| - 1
    ensures result.Some? ==> forall i :: 0 <= i < |result.value| - 1 ==>
              result.value[i] in expanded && expanded[result.value[i]] == i
    ensures result.Some? ==> forall c, w :: IsPath(grid, w, start, c) && |w| - 1 + Manhattan(c, goal) < |result.value| - 1 ==>
              c in expanded
    ensures result.None? ==> forall q :: q in expanded <==> Reachable(grid, start, q)
    ensures goal !in expanded
  {
    var nodes := [NewNode(start, 0, Manhattan(start, goal))];
    var openList: seq<nat> := [0];
    var closedList: set<Pos> := {};
    var gClosed: map<Pos, nat> := map[];
    ghost var lastF: nat := 0;
    assert Waiting(nodes, openList, start, 0) by {
      assert nodes[openList[0]].pos == start;
    }
    while openList != []
      invariant SearchInv(grid, start, goal, nodes, openList, closedList, gClosed)
      invariant InvOrder(goal, nodes, openList, gClosed, lastF)
      invariant InvWalks(grid, start, gClosed)
      invariant InvAncestors(nodes, gClosed)
      decreases |Cells(grid) - closedList|, StaleCount(nodes, openList, closedList)
    {
      var b := MinIndex(nodes, openList);
      var k := openList[b];
      var current := nodes[k];
      ghost var before := openList;
      openList := Removed(openList, b);

      if current.pos == goal {
        var path := ReconstructPath(nodes, k);
        ArenaChain(grid, start, goal, nodes, k);
        PoppedIsShortest(grid, start, goal, nodes, before, closedList, gClosed, b);
        ClosedBelowGoal(goal, nodes, before, b, gClosed, lastF);
        ChainClosed(nodes, k, gClosed);
        ClosedAlongShortest(grid, start, goal, path, gClosed);
        AllCheaperClosed(grid, start, goal, nodes, before, closedList, gClosed, b);
        return Some(path), gClosed;
      }

      nodes, openList, closedList, gClosed, lastF :=
        CloseAndExpand(grid, start, goal, nodes, before, b, k, openList, closedList, gClosed, lastF);
    }
    ClosedAreReachable(grid, start, goal, nodes, closedList, gClosed);
    return None, gClosed;
  }
}
