/**
 * The occupancy grid shared by the search and the maze generator: a list of
 * rows of characters, indexed grid[y][x], where '0' is an open cell, '1' a cell
 * the generator rejected and '#' a cell it never carved.
 */
module Grid {

  /** A cell coordinate: x is the column, y the row. */
  datatype Pos = Pos(x: int, y: int)

  type Grid = seq<seq<char>>

  /** A non-empty grid whose rows all have the width of the first one. */
  predicate Rectangular(grid: Grid) {
    |grid| > 0 && forall y :: 0 <= y < |grid| ==> |grid[y]| == |grid[0]|
  }

  predicate InBounds(grid: Grid, p: Pos) {
    0 <= p.y < |grid| && 0 <= p.x < |grid[p.y]|
  }

  /** q is one of the four orthogonal neighbours of p. */
  predicate Adjacent(p: Pos, q: Pos) {
    (p.y == q.y && (q.x == p.x - 1 || q.x == p.x + 1)) ||
    (p.x == q.x && (q.y == p.y - 1 || q.y == p.y + 1))
  }

  /** One unit step of the search: from p to a 4-neighbour q inside the grid holding '0'. */
  predicate CanMove(grid: Grid, p: Pos, q: Pos) {
    Adjacent(p, q) && InBounds(grid, q) && grid[q.y][q.x] == '0'
  }

  /** The rank of neighbour q of p in the order left, right, up, down. */
  function Direction(p: Pos, q: Pos): nat {
    if q.x < p.x then 0 else if q.x > p.x then 1 else if q.y < p.y then 2 else 3
  }

  /** The one-cell list [q] when the bound test passed and q holds c, else []. */
  function Probe(grid: Grid, q: Pos, inside: bool, c: char): (r: seq<Pos>)
    requires inside ==> InBounds(grid, q)
    ensures |r| <= 1 && forall q' :: q' in r <==> q' == q && inside && grid[q.y][q.x] == c
  {
    if inside && grid[q.y][q.x] == c then [q] else []
  }

  /**
   * The in-bounds 4-neighbours of p holding character c, listed left, right,
   * up, down. get_neighbors asks for '0' cells, the generator for '#' cells.
   */
  function CellsAround(grid: Grid, p: Pos, c: char): (r: seq<Pos>)
    requires Rectangular(grid) && InBounds(grid, p)
    ensures |r| <= 4
    ensures forall q :: q in r <==> Adjacent(p, q) && InBounds(grid, q) && grid[q.y][q.x] == c
  {
    Probe(grid, Pos(p.x - 1, p.y), p.x > 0, c) +
    Probe(grid, Pos(p.x + 1, p.y), p.x < |grid[0]| - 1, c) +
    Probe(grid, Pos(p.x, p.y - 1), p.y > 0, c) +
    Probe(grid, Pos(p.x, p.y + 1), p.y < |grid| - 1, c)
  }

  /**
   * get_neighbors: the cells one unit step away from p. Only '0' cells are
   * returned, so '#' and '1' cells never are.
   */
  function Neighbors(grid: Grid, p: Pos): (r: seq<Pos>)
    requires Rectangular(grid) && InBounds(grid, p)
    ensures |r| <= 4
    ensures forall q :: q in r <==> CanMove(grid, p, q)
  {
    CellsAround(grid, p, '0')
  }

  /**
   * The cells around p come in the order left, right, up, down, so none is
   * listed twice.
   */
  lemma CellsAroundOrdered(grid: Grid, p: Pos, c: char)
    requires Rectangular(grid) && InBounds(grid, p)
    ensures var r := CellsAround(grid, p, c);
            forall i, j :: 0 <= i < j < |r| ==> Direction(p, r[i]) < Direction(p, r[j])
  {
    FourSidesOrdered(p, Probe(grid, Pos(p.x - 1, p.y), p.x > 0, c),
                     Probe(grid, Pos(p.x + 1, p.y), p.x < |grid[0]| - 1, c),
                     Probe(grid, Pos(p.x, p.y - 1), p.y > 0, c),
                     Probe(grid, Pos(p.x, p.y + 1), p.y < |grid| - 1, c));
  }

  lemma FourSidesOrdered(p: Pos, left: seq<Pos>, right: seq<Pos>, up: seq<Pos>, down: seq<Pos>)
    requires |left| <= 1 && |right| <= 1 && |up| <= 1 && |down| <= 1
    requires forall q :: q in left ==> Direction(p, q) == 0
    requires forall q :: q in right ==> Direction(p, q) == 1
    requires forall q :: q in up ==> Direction(p, q) == 2
    requires forall q :: q in down ==> Direction(p, q) == 3
    ensures var r := left + right + up + down;
            forall i, j :: 0 <= i < j < |r| ==> Direction(p, r[i]) < Direction(p, r[j])
  {
  }

  lemma NeighborsDistinct(grid: Grid, p: Pos)
    requires Rectangular(grid) && InBounds(grid, p)
    ensures var r := Neighbors(grid, p);
            forall i, j :: 0 <= i < j < |r| ==> r[i] != r[j]
  {
    CellsAroundOrdered(grid, p, '0');
  }

  /** path walks from s to t by unit steps; the first cell itself is not checked. */
  predicate IsPath(grid: Grid, path: seq<Pos>, s: Pos, t: Pos) {
    |path| > 0 && path[0] == s && path[|path| - 1] == t &&
    forall i :: 0 <= i < |path| - 1 ==> CanMove(grid, path[i], path[i + 1])
  }

  ghost predicate Reachable(grid: Grid, s: Pos, t: Pos) {
    exists path :: IsPath(grid, path, s, t)
  }

  /** Some walk from s to t takes exactly n steps. */
  ghost predicate WalkOfLength(grid: Grid, s: Pos, t: Pos, n: int) {
    exists path :: IsPath(grid, path, s, t) && |path| - 1 == n
  }

  /** No walk from s to t has fewer than bound steps. */
  ghost predicate NoShorterPath(grid: Grid, s: Pos, t: Pos, bound: int) {
    forall path :: IsPath(grid, path, s, t) ==> bound <= |path| - 1
  }

  lemma PathExtend(grid: Grid, path: seq<Pos>, s: Pos, t: Pos, u: Pos)
    requires IsPath(grid, path, s, t) && CanMove(grid, t, u)
    ensures IsPath(grid, path + [u], s, u)
  {
    var ext := path + [u];
    forall i | 0 <= i < |ext| - 1 ensures CanMove(grid, ext[i], ext[i + 1]) {
      if i < |path| - 1 {
        assert ext[i] == path[i] && ext[i + 1] == path[i + 1];
      }
    }
  }

  /** Every cell of a walk is the end of the walk's prefix up to it. */
  lemma PathPrefix(grid: Grid, path: seq<Pos>, s: Pos, t: Pos, k: nat)
    requires IsPath(grid, path, s, t) && k < |path|
    ensures IsPath(grid, path[..k + 1], s, path[k])
  {
  }

  /** Every cell of a walk starts the walk's suffix from it. */
  lemma PathSuffix(grid: Grid, path: seq<Pos>, s: Pos, t: Pos, k: nat)
    requires IsPath(grid, path, s, t) && k < |path|
    ensures IsPath(grid, path[k..], path[k], t)
  {
    var suf := path[k..];
    forall i | 0 <= i < |suf| - 1 ensures CanMove(grid, suf[i], suf[i + 1]) {
      assert suf[i] == path[k + i] && suf[i + 1] == path[k + i + 1];
    }
  }

  /** Two walks meeting at m join into one walk whose length is the sum of theirs. */
  lemma PathJoin(grid: Grid, p1: seq<Pos>, p2: seq<Pos>, s: Pos, m: Pos, t: Pos)
    requires IsPath(grid, p1, s, m) && IsPath(grid, p2, m, t)
    ensures IsPath(grid, p1 + p2[1..], s, t) && |p1 + p2[1..]| - 1 == (|p1| - 1) + (|p2| - 1)
  {
    var joined := p1 + p2[1..];
    forall i | 0 <= i < |joined| - 1 ensures CanMove(grid, joined[i], joined[i + 1]) {
      if i < |p1| - 1 {
        assert joined[i] == p1[i] && joined[i + 1] == p1[i + 1];
      } else {
        var j := i - (|p1| - 1);
        assert joined[i] == p2[j] && joined[i + 1] == p2[j + 1];
      }
    }
  }

  /**
   * A walk stays inside any set that holds its first cell and is closed under
   * unit steps.
   */
  lemma {:induction false} PathStaysInside(grid: Grid, path: seq<Pos>, s: Pos, t: Pos, inside: set<Pos>)
    requires IsPath(grid, path, s, t) && s in inside
    requires forall c, q :: c in inside && CanMove(grid, c, q) ==> q in inside
    ensures t in inside
    decreases |path|
  {
    if |path| > 1 {
      var shorter := path[..|path| - 1];
      PathPrefix(grid, path, s, t, |path| - 2);
      assert shorter == path[..|path| - 2 + 1];
      PathStaysInside(grid, shorter, s, path[|path| - 2], inside);
    }
  }

  /** Walks survive a change of grid that keeps every '0' cell open. */
  lemma PathKeptWhenOpenKept(grid: Grid, grid': Grid, path: seq<Pos>, s: Pos, t: Pos)
    requires IsPath(grid, path, s, t)
    requires forall q :: InBounds(grid, q) && grid[q.y][q.x] == '0' ==> InBounds(grid', q) && grid'[q.y][q.x] == '0'
    ensures IsPath(grid', path, s, t)
  {
    forall i | 0 <= i < |path| - 1 ensures CanMove(grid', path[i], path[i + 1]) {
      assert CanMove(grid, path[i], path[i + 1]);
    }
  }
}
