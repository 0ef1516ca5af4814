/**
 * generate_grid_world: a randomized depth-first carve of a height x width
 * grid of '#' cells with an explicit stack. The random draws are parameters:
 * the origin cell is given, random.choice over the k '#' neighbours of the
 * current cell becomes index pick(t) % k, and the blocked-probability test
 * becomes carve(t), where t counts the draws made so far.
 */
module Maze {
  import opened Grid

  /** The grid before carving: height rows of width '#' cells (AI.py:101). */
  function Uncarved(width: nat, height: nat): (r: Grid)
    ensures |r| == height && forall y :: 0 <= y < height ==> |r[y]| == width
    ensures forall y, x :: 0 <= y < height && 0 <= x < width ==> r[y][x] == '#'
  {
    seq(height, _ => seq(width, _ => '#'))
  }

  /** grid[p.y][p.x] = c: the only cell the write touches is p. */
  function Resolve(grid: Grid, p: Pos, c: char): (r: Grid)
    requires InBounds(grid, p)
    ensures |r| == |grid| && forall y :: 0 <= y < |grid| ==> |r[y]| == |grid[y]|
    ensures r[p.y][p.x] == c
    ensures forall q :: InBounds(grid, q) && q != p ==> r[q.y][q.x] == grid[q.y][q.x]
  {
    grid[p.y := grid[p.y][p.x := c]]
  }

  /** The cells still holding '#'. */
  function Unresolved(grid: Grid): set<Pos> {
    set y, x | 0 <= y < |grid| && 0 <= x < |grid[y]| && grid[y][x] == '#' :: Pos(x, y)
  }

  /** Writing '0' or '1' over a '#' cell leaves one cell fewer to resolve. */
  lemma ResolveShrinks(grid: Grid, p: Pos, c: char)
    requires InBounds(grid, p) && grid[p.y][p.x] == '#' && c != '#'
    ensures |Unresolved(Resolve(grid, p, c))| == |Unresolved(grid)| - 1
  {
    var r := Resolve(grid, p, c);
    assert Unresolved(r) == Unresolved(grid) - {p};
  }

  /** Every cell is '#', '0' or '1'. */
  predicate CellsKnown(grid: Grid) {
    forall y, x :: 0 <= y < |grid| && 0 <= x < |grid[y]| ==> grid[y][x] in {'#', '0', '1'}
  }

  /** grid' has grid's shape and every cell of grid that was no longer '#' is unchanged in grid'. */
  ghost predicate KeepsResolved(grid: Grid, grid': Grid) {
    && |grid'| == |grid|
    && (forall y :: 0 <= y < |grid| ==> |grid'[y]| == |grid[y]|)
    && (forall q :: InBounds(grid, q) && grid[q.y][q.x] != '#' ==> grid'[q.y][q.x] == grid[q.y][q.x])
  }

  // ---------------------------------------------------------------------------
  // One pass of the while loop (AI.py:107-127)
  // ---------------------------------------------------------------------------

  /** The variables of the loop: grid, stack, (current_x, current_y) and the draws used. */
  datatype State = State(grid: Grid, stack: seq<Pos>, cur: Pos, draws: nat)

  /** The loop's own bounds: a rectangular grid, the current and stacked cells inside it. */
  predicate Wf(s: State) {
    Rectangular(s.grid) && InBounds(s.grid, s.cur) &&
    forall i :: 0 <= i < |s.stack| ==> InBounds(s.grid, s.stack[i])
  }

  /** The termination measure: twice the '#' cells plus the stack height. */
  function Measure(s: State): nat {
    2 * |Unresolved(s.grid)| + |s.stack|
  }

  /**
   * The branch taken while the current cell has '#' neighbours: one of them,
   * chosen by pick, becomes '0' and is pushed and made current when carve
   * says so, and becomes '1' otherwise (AI.py:118-125).
   */
  function Advance(s: State, pick: nat -> nat, carve: nat -> bool): (r: State)
    requires Wf(s) && CellsAround(s.grid, s.cur, '#') != []
    ensures Wf(r) && KeepsResolved(s.grid, r.grid) && Measure(r) < Measure(s)
    ensures var next := Chosen(s, pick);
            if carve(s.draws)
            then r == State(Resolve(s.grid, next, '0'), s.stack + [next], next, s.draws + 1)
            else r == State(Resolve(s.grid, next, '1'), s.stack, s.cur, s.draws + 1)
  {
    var next := Chosen(s, pick);
    ResolveShrinks(s.grid, next, if carve(s.draws) then '0' else '1');
    if carve(s.draws) then State(Resolve(s.grid, next, '0'), s.stack + [next], next, s.draws + 1)
    else State(Resolve(s.grid, next, '1'), s.stack, s.cur, s.draws + 1)
  }

  /** random.choice over the '#' neighbours of the current cell (AI.py:119): a '#' cell next to it. */
  function Chosen(s: State, pick: nat -> nat): (next: Pos)
    requires Wf(s) && CellsAround(s.grid, s.cur, '#') != []
    ensures Adjacent(s.cur, next) && InBounds(s.grid, next) && s.grid[next.y][next.x] == '#'
  {
    var nbrs := CellsAround(s.grid, s.cur, '#');
    assert nbrs[pick(s.draws) % |nbrs|] in nbrs;
    nbrs[pick(s.draws) % |nbrs|]
  }

  /**
   * One pass of the loop as written: with no '#' neighbour left, the top of
   * the stack is popped and becomes the current cell (AI.py:126-127).
   */
  function Step(s: State, pick: nat -> nat, carve: nat -> bool): (r: State)
    requires Wf(s) && s.stack != []
    ensures Wf(r) && KeepsResolved(s.grid, r.grid) && Measure(r) < Measure(s)
    ensures CellsAround(s.grid, s.cur, '#') == [] ==>
              r == State(s.grid, s.stack[..|s.stack| - 1], s.stack[|s.stack| - 1], s.draws)
  {
    if CellsAround(s.grid, s.cur, '#') != [] then Advance(s, pick, carve)
    else State(s.grid, s.stack[..|s.stack| - 1], s.stack[|s.stack| - 1], s.draws)
  }

  /** The grid the loop leaves when started in state s. */
  function Carve(s: State, pick: nat -> nat, carve: nat -> bool): (r: Grid)
    requires Wf(s)
    ensures KeepsResolved(s.grid, r)
    decreases Measure(s)
  {
    if s.stack == [] then s.grid else Carve(Step(s, pick, carve), pick, carve)
  }

  predicate ValidOrigin(width: nat, height: nat, origin: Pos) {
    width >= 1 && height >= 1 && 0 <= origin.x < width && 0 <= origin.y < height
  }

  /** The state before the loop: the origin carved, alone on the stack and current (AI.py:101-105). */
  function Start(width: nat, height: nat, origin: Pos): (s: State)
    requires ValidOrigin(width, height, origin)
    ensures Wf(s) && |s.grid| == height && |s.grid[0]| == width
  {
    State(Resolve(Uncarved(width, height), origin, '0'), [origin], origin, 0)
  }

  /** The grid generate_grid_world returns for these draws. */
  function Generated(width: nat, height: nat, origin: Pos, pick: nat -> nat, carve: nat -> bool): (r: Grid)
    requires ValidOrigin(width, height, origin)
    ensures |r| == height && forall y :: 0 <= y < height ==> |r[y]| == width
  {
    Carve(Start(width, height, origin), pick, carve)
  }

  // ---------------------------------------------------------------------------
  // What the carve keeps true
  // ---------------------------------------------------------------------------

  /** Every '0' cell is joined to the origin by a walk through '0' cells. */
  ghost predicate Connected(grid: Grid, origin: Pos) {
    forall q :: InBounds(grid, q) && grid[q.y][q.x] == '0' ==> Reachable(grid, origin, q)
  }

  /**
   * The invariant of the loop: cells are '#', '0' or '1'; the origin, the
   * current cell and every stacked cell are '0'; every '0' cell is connected
   * to the origin.
   */
  ghost predicate CarveInv(s: State, origin: Pos) {
    && Wf(s)
    && CellsKnown(s.grid)
    && InBounds(s.grid, origin) && s.grid[origin.y][origin.x] == '0'
    && s.grid[s.cur.y][s.cur.x] == '0'
    && (forall i :: 0 <= i < |s.stack| ==> s.grid[s.stack[i].y][s.stack[i].x] == '0')
    && Connected(s.grid, origin)
  }

  lemma StartInv(width: nat, height: nat, origin: Pos)
    requires ValidOrigin(width, height, origin)
    ensures CarveInv(Start(width, height, origin), origin)
  {
    var s := Start(width, height, origin);
    forall q | InBounds(s.grid, q) && s.grid[q.y][q.x] == '0' ensures Reachable(s.grid, origin, q) {
      assert q == origin;
      assert IsPath(s.grid, [origin], origin, origin);
    }
  }

  /** Opening a '#' cell next to a connected '0' cell keeps the grid connected. */
  lemma OpenKeepsConnected(grid: Grid, origin: Pos, cur: Pos, next: Pos)
    requires Connected(grid, origin) && InBounds(grid, cur) && grid[cur.y][cur.x] == '0'
    requires InBounds(grid, next) && Adjacent(cur, next) && grid[next.y][next.x] == '#'
    ensures Connected(Resolve(grid, next, '0'), origin)
  {
    var grid' := Resolve(grid, next, '0');
    forall q | InBounds(grid', q) && grid'[q.y][q.x] == '0' ensures Reachable(grid', origin, q) {
      var target := if q == next then cur else q;
      assert Reachable(grid, origin, target);
      var path :| IsPath(grid, path, origin, target);
      PathKeptWhenOpenKept(grid, grid', path, origin, target);
      if q == next {
        PathExtend(grid', path, origin, cur, next);
      }
    }
  }

  /** Blocking a '#' cell leaves every walk through '0' cells intact. */
  lemma BlockKeepsConnected(grid: Grid, origin: Pos, next: Pos)
    requires Connected(grid, origin) && InBounds(grid, next) && grid[next.y][next.x] == '#'
    ensures Connected(Resolve(grid, next, '1'), origin)
  {
    var grid' := Resolve(grid, next, '1');
    forall q | InBounds(grid', q) && grid'[q.y][q.x] == '0' ensures Reachable(grid', origin, q) {
      assert Reachable(grid, origin, q);
      var path :| IsPath(grid, path, origin, q);
      PathKeptWhenOpenKept(grid, grid', path, origin, q);
    }
  }

  /** Resolving a '#' cell to '0' or '1' keeps every cell known and every '0' cell open. */
  lemma ResolveKeepsCells(grid: Grid, p: Pos, c: char)
    requires CellsKnown(grid) && InBounds(grid, p) && grid[p.y][p.x] == '#' && c in {'0', '1'}
    ensures CellsKnown(Resolve(grid, p, c))
    ensures forall q :: InBounds(grid, q) && grid[q.y][q.x] == '0' ==> Resolve(grid, p, c)[q.y][q.x] == '0'
  {
    var r := Resolve(grid, p, c);
    forall y, x | 0 <= y < |r| && 0 <= x < |r[y]| ensures r[y][x] in {'#', '0', '1'} {
      assert InBounds(grid, Pos(x, y));
    }
  }

  /** Opening a '#' neighbour of the current cell, pushing it and moving onto it keeps the invariant. */
  lemma OpenKeepsInv(s: State, origin: Pos, next: Pos, draws: nat)
    requires CarveInv(s, origin)
    requires Adjacent(s.cur, next) && InBounds(s.grid, next) && s.grid[next.y][next.x] == '#'
    ensures CarveInv(State(Resolve(s.grid, next, '0'), s.stack + [next], next, draws), origin)
  {
    var grid' := Resolve(s.grid, next, '0');
    var stack' := s.stack + [next];
    ResolveKeepsCells(s.grid, next, '0');
    OpenKeepsConnected(s.grid, origin, s.cur, next);
    forall i | 0 <= i < |stack'| ensures InBounds(grid', stack'[i]) && grid'[stack'[i].y][stack'[i].x] == '0' {
      if i < |s.stack| { assert stack'[i] == s.stack[i]; }
    }
  }

  /** Blocking a '#' cell keeps the invariant. */
  lemma BlockKeepsInv(s: State, origin: Pos, next: Pos, draws: nat)
    requires CarveInv(s, origin)
    requires InBounds(s.grid, next) && s.grid[next.y][next.x] == '#'
    ensures CarveInv(State(Resolve(s.grid, next, '1'), s.stack, s.cur, draws), origin)
  {
    ResolveKeepsCells(s.grid, next, '1');
    BlockKeepsConnected(s.grid, origin, next);
  }

  lemma AdvanceKeepsInv(s: State, pick: nat -> nat, carve: nat -> bool, origin: Pos)
    requires CarveInv(s, origin) && CellsAround(s.grid, s.cur, '#') != []
    ensures CarveInv(Advance(s, pick, carve), origin)
  {
    var next := Chosen(s, pick);
    if carve(s.draws) {
      OpenKeepsInv(s, origin, next, s.draws + 1);
    } else {
      BlockKeepsInv(s, origin, next, s.draws + 1);
    }
  }

  lemma StepKeepsInv(s: State, pick: nat -> nat, carve: nat -> bool, origin: Pos)
    requires CarveInv(s, origin) && s.stack != []
    ensures CarveInv(Step(s, pick, carve), origin)
  {
    if CellsAround(s.grid, s.cur, '#') != [] {
      AdvanceKeepsInv(s, pick, carve, origin);
    }
  }

  lemma {:induction false} CarveKeepsInv(s: State, pick: nat -> nat, carve: nat -> bool, origin: Pos)
    requires CarveInv(s, origin)
    ensures var r := Carve(s, pick, carve);
            CellsKnown(r) && r[origin.y][origin.x] == '0' && Connected(r, origin)
    decreases Measure(s)
  {
    if s.stack != [] {
      StepKeepsInv(s, pick, carve, origin);
      CarveKeepsInv(Step(s, pick, carve), pick, carve, origin);
    }
  }

  /**
   * The returned grid has height rows of width cells, each '#', '0' or '1';
   * the origin is '0' and every '0' cell is connected to it.
   */
  lemma GeneratedShape(width: nat, height: nat, origin: Pos, pick: nat -> nat, carve: nat -> bool)
    requires ValidOrigin(width, height, origin)
    ensures var grid := Generated(width, height, origin, pick, carve);
            && |grid| == height && (forall y :: 0 <= y < height ==> |grid[y]| == width)
            && CellsKnown(grid) && grid[origin.y][origin.x] == '0' && Connected(grid, origin)
  {
    StartInv(width, height, origin);
    CarveKeepsInv(Start(width, height, origin), pick, carve, origin);
  }

  // ---------------------------------------------------------------------------
  // Backtracking to the new top of the stack
  // ---------------------------------------------------------------------------

  /**
   * One pass of the loop with the backtrack of a depth-first carve: the
   * exhausted current cell is popped and the carve resumes from the cell now
   * on top of the stack.
   */
  function StepDfs(s: State, pick: nat -> nat, carve: nat -> bool): (r: State)
    requires Wf(s) && s.stack != []
    ensures Wf(r) && KeepsResolved(s.grid, r.grid) && Measure(r) < Measure(s)
  {
    if CellsAround(s.grid, s.cur, '#') != [] then Advance(s, pick, carve) else Backtrack(s)
  }

  /** The exhausted current cell is popped and the cell below it, if any, becomes current. */
  function Backtrack(s: State): (r: State)
    requires Wf(s) && s.stack != []
    ensures Wf(r) && Measure(r) < Measure(s) && OnTop(r)
    ensures r.grid == s.grid && r.stack == s.stack[..|s.stack| - 1] && r.draws == s.draws
    ensures r.stack == [] ==> r.cur == s.cur
  {
    var rest := s.stack[..|s.stack| - 1];
    State(s.grid, rest, if rest != [] then rest[|rest| - 1] else s.cur, s.draws)
  }

  function CarveDfs(s: State, pick: nat -> nat, carve: nat -> bool): (r: Grid)
    requires Wf(s)
    ensures KeepsResolved(s.grid, r)
    decreases Measure(s)
  {
    if s.stack == [] then s.grid else CarveDfs(StepDfs(s, pick, carve), pick, carve)
  }

  function GeneratedDfs(width: nat, height: nat, origin: Pos, pick: nat -> nat, carve: nat -> bool): (r: Grid)
    requires ValidOrigin(width, height, origin)
    ensures |r| == height && forall y :: 0 <= y < height ==> |r[y]| == width
  {
    CarveDfs(Start(width, height, origin), pick, carve)
  }

  /** No cell next to q is still '#'. */
  ghost predicate Sealed(grid: Grid, q: Pos) {
    forall n :: Adjacent(q, n) && InBounds(grid, n) ==> grid[n.y][n.x] != '#'
  }

  /** Every '0' cell of the grid is sealed: the carve left nothing next to an open cell unexplored. */
  ghost predicate Exhausted(grid: Grid) {
    forall q :: InBounds(grid, q) && grid[q.y][q.x] == '0' ==> Sealed(grid, q)
  }

  /** The current cell is the top of the stack. */
  predicate OnTop(s: State) {
    s.stack != [] ==> s.cur == s.stack[|s.stack| - 1]
  }

  /** Every '0' cell that is not on the stack is sealed. */
  ghost predicate OffStackSealed(grid: Grid, stack: seq<Pos>) {
    forall q :: InBounds(grid, q) && grid[q.y][q.x] == '0' && q !in stack ==> Sealed(grid, q)
  }

  /**
   * The depth-first invariant on top of CarveInv: the current cell is the
   * top of the stack, and every '0' cell off the stack is sealed.
   */
  ghost predicate DfsInv(s: State, origin: Pos) {
    CarveInv(s, origin) && OnTop(s) && OffStackSealed(s.grid, s.stack)
  }

  /** Resolving a '#' cell keeps every sealed cell sealed. */
  lemma ResolveKeepsSealed(grid: Grid, p: Pos, c: char, q: Pos)
    requires InBounds(grid, p) && grid[p.y][p.x] == '#' && c != '#' && Sealed(grid, q)
    ensures Sealed(Resolve(grid, p, c), q)
  {
  }

  /**
   * Resolving '#' cell p keeps every '0' cell off the stack sealed, provided
   * the stack only grows and takes p in when p is opened.
   */
  lemma ResolveKeepsOffStackSealed(grid: Grid, stack: seq<Pos>, stack': seq<Pos>, p: Pos, c: char)
    requires InBounds(grid, p) && grid[p.y][p.x] == '#' && c in {'0', '1'}
    requires OffStackSealed(grid, stack)
    requires forall q :: q in stack ==> q in stack'
    requires c == '0' ==> p in stack'
    ensures OffStackSealed(Resolve(grid, p, c), stack')
  {
    var grid' := Resolve(grid, p, c);
    forall q | InBounds(grid', q) && grid'[q.y][q.x] == '0' && q !in stack' ensures Sealed(grid', q) {
      assert q != p;
      assert grid[q.y][q.x] == '0' && q !in stack;
      ResolveKeepsSealed(grid, p, c, q);
    }
  }

  /** Choosing a neighbour keeps the current cell on top and the cells off the stack sealed. */
  lemma AdvanceKeepsSealed(s: State, pick: nat -> nat, carve: nat -> bool)
    requires Wf(s) && CellsAround(s.grid, s.cur, '#') != []
    requires OnTop(s) && OffStackSealed(s.grid, s.stack)
    ensures var r := Advance(s, pick, carve);
            OnTop(r) && OffStackSealed(r.grid, r.stack)
  {
    var next := Chosen(s, pick);
    if carve(s.draws) {
      OpenKeepsSealed(s.grid, s.stack, next);
    } else {
      ResolveKeepsOffStackSealed(s.grid, s.stack, s.stack, next, '1');
    }
  }

  /** Opening '#' cell p and pushing it keeps every '0' cell off the stack sealed. */
  lemma OpenKeepsSealed(grid: Grid, stack: seq<Pos>, p: Pos)
    requires InBounds(grid, p) && grid[p.y][p.x] == '#' && OffStackSealed(grid, stack)
    ensures OffStackSealed(Resolve(grid, p, '0'), stack + [p])
  {
    assert forall q :: q in stack ==> q in stack + [p];
    ResolveKeepsOffStackSealed(grid, stack, stack + [p], p, '0');
  }

  /** A cell without '#' neighbours to choose from is sealed. */
  lemma NoneAroundSealed(grid: Grid, p: Pos)
    requires Rectangular(grid) && InBounds(grid, p) && CellsAround(grid, p, '#') == []
    ensures Sealed(grid, p)
  {
    forall n | Adjacent(p, n) && InBounds(grid, n) ensures grid[n.y][n.x] != '#' {
      assert n !in CellsAround(grid, p, '#');
    }
  }

  /** Popping an exhausted current cell keeps the cells off the stack sealed and the new top current. */
  lemma BacktrackKeepsSealed(s: State)
    requires Wf(s) && s.stack != [] && CellsAround(s.grid, s.cur, '#') == []
    requires OnTop(s) && OffStackSealed(s.grid, s.stack)
    ensures OffStackSealed(s.grid, Backtrack(s).stack)
  {
    var rest := s.stack[..|s.stack| - 1];
    NoneAroundSealed(s.grid, s.cur);
    assert s.stack == rest + [s.cur];
    assert forall q :: q in s.stack && q !in rest ==> q == s.cur;
  }

  /** Popping to the new top keeps the carve invariant: every stack cell is open. */
  lemma BacktrackKeepsInv(s: State, origin: Pos)
    requires CarveInv(s, origin) && s.stack != []
    ensures CarveInv(Backtrack(s), origin)
  {
    var rest := s.stack[..|s.stack| - 1];
    if rest != [] {
      assert rest[|rest| - 1] == s.stack[|rest| - 1];
    }
  }

  lemma StepDfsKeepsInv(s: State, pick: nat -> nat, carve: nat -> bool, origin: Pos)
    requires DfsInv(s, origin) && s.stack != []
    ensures DfsInv(StepDfs(s, pick, carve), origin)
  {
    if CellsAround(s.grid, s.cur, '#') != [] {
      AdvanceKeepsInv(s, pick, carve, origin);
      AdvanceKeepsSealed(s, pick, carve);
    } else {
      BacktrackKeepsInv(s, origin);
      BacktrackKeepsSealed(s);
    }
  }

  lemma {:induction false} CarveDfsKeepsInv(s: State, pick: nat -> nat, carve: nat -> bool, origin: Pos)
    requires DfsInv(s, origin)
    ensures var r := CarveDfs(s, pick, carve);
            CellsKnown(r) && r[origin.y][origin.x] == '0' && Connected(r, origin) && Exhausted(r)
    decreases Measure(s)
  {
    if s.stack != [] {
      StepDfsKeepsInv(s, pick, carve, origin);
      CarveDfsKeepsInv(StepDfs(s, pick, carve), pick, carve, origin);
    }
  }

  /**
   * With the depth-first backtrack the carve keeps every property of the
   * generator as written and also leaves no '#' cell next to a '0' cell.
   */
  lemma GeneratedDfsExhausted(width: nat, height: nat, origin: Pos, pick: nat -> nat, carve: nat -> bool)
    requires ValidOrigin(width, height, origin)
    ensures var grid := GeneratedDfs(width, height, origin, pick, carve);
            && |grid| == height && (forall y :: 0 <= y < height ==> |grid[y]| == width)
            && CellsKnown(grid) && grid[origin.y][origin.x] == '0' && Connected(grid, origin)
            && Exhausted(grid)
  {
    StartInv(width, height, origin);
    CarveDfsKeepsInv(Start(width, height, origin), pick, carve, origin);
  }

  /** The state before the loop on a 3 x 1 grid carved from the middle. */
  lemma ThreeByOneStart()
    ensures Start(3, 1, Pos(1, 0)) == State(["#0#"], [Pos(1, 0)], Pos(1, 0), 0)
  {
    var u := Uncarved(3, 1);
    assert u[0] == "###";
    assert u == ["###"];
    assert "###"[1 := '0'] == "#0#";
  }

  /** From the middle of "#0#", the first draw carves the left cell. */
  lemma CarveLeftFirst(pick: nat -> nat, carve: nat -> bool)
    requires pick(0) == 0 && carve(0)
    ensures var s := State(["#0#"], [Pos(1, 0)], Pos(1, 0), 0);
            CellsAround(s.grid, s.cur, '#') != [] &&
            Advance(s, pick, carve) == State(["00#"], [Pos(1, 0), Pos(0, 0)], Pos(0, 0), 1)
  {
    var s := State(["#0#"], [Pos(1, 0)], Pos(1, 0), 0);
    assert CellsAround(s.grid, s.cur, '#') == [Pos(0, 0), Pos(2, 0)];
    assert Resolve(s.grid, Pos(0, 0), '0') == ["00#"] by {
      assert "#0#"[0 := '0'] == "00#";
    }
  }

  /** From the middle of "00#", the next draw carves the right cell. */
  lemma CarveRightNext(pick: nat -> nat, carve: nat -> bool)
    requires pick(1) == 0 && carve(1)
    ensures var s := State(["00#"], [Pos(1, 0)], Pos(1, 0), 1);
            CellsAround(s.grid, s.cur, '#') != [] &&
            Advance(s, pick, carve) == State(["000"], [Pos(1, 0), Pos(2, 0)], Pos(2, 0), 2)
  {
    var s := State(["00#"], [Pos(1, 0)], Pos(1, 0), 1);
    assert CellsAround(s.grid, s.cur, '#') == [Pos(2, 0)];
    assert Resolve(s.grid, Pos(2, 0), '0') == ["000"] by {
      assert "00#"[2 := '0'] == "000";
    }
  }

  lemma LeftCellExhausted()
    ensures CellsAround(["00#"], Pos(0, 0), '#') == []
  {
  }

  lemma OpenRowExhausted()
    ensures CellsAround(["000"], Pos(1, 0), '#') == [] && CellsAround(["000"], Pos(2, 0), '#') == []
  {
  }

  /**
   * The backtrack as written abandons cells: on a 3 x 1 grid carved from the
   * middle, always choosing the first neighbour and always carving, the left
   * cell is opened and pushed; once it has no '#' neighbour the first pop
   * returns the left cell itself, and the second makes the middle cell
   * current but empties the stack, so the loop ends before the right cell,
   * next to the open middle cell, is ever examined.
   */
  lemma AsWrittenAbandonsCell()
    ensures Generated(3, 1, Pos(1, 0), _ => 0, _ => true) == ["00#"]
    ensures !Exhausted(Generated(3, 1, Pos(1, 0), _ => 0, _ => true))
  {
    var pick: nat -> nat := _ => 0;
    var carve: nat -> bool := _ => true;
    ThreeByOneStart();
    var s0 := State(["#0#"], [Pos(1, 0)], Pos(1, 0), 0);
    var s1 := State(["00#"], [Pos(1, 0), Pos(0, 0)], Pos(0, 0), 1);
    var s2 := State(["00#"], [Pos(1, 0)], Pos(0, 0), 1);
    var s3 := State(["00#"], [], Pos(1, 0), 1);
    CarveLeftFirst(pick, carve);
    assert Step(s0, pick, carve) == s1;
    LeftCellExhausted();
    assert Step(s1, pick, carve) == s2;
    assert Step(s2, pick, carve) == s3;
    assert Carve(s0, pick, carve) == Carve(s1, pick, carve) == Carve(s2, pick, carve) == Carve(s3, pick, carve);
    var g := ["00#"];
    assert Adjacent(Pos(1, 0), Pos(2, 0)) && InBounds(g, Pos(2, 0)) && g[0][2] == '#';
    assert !Sealed(g, Pos(1, 0));
  }

  /** On the same draws the depth-first backtrack opens all three cells. */
  lemma DfsCarvesAll()
    ensures GeneratedDfs(3, 1, Pos(1, 0), _ => 0, _ => true) == ["000"]
  {
    var pick: nat -> nat := _ => 0;
    var carve: nat -> bool := _ => true;
    ThreeByOneStart();
    var s0 := State(["#0#"], [Pos(1, 0)], Pos(1, 0), 0);
    var s1 := State(["00#"], [Pos(1, 0), Pos(0, 0)], Pos(0, 0), 1);
    var s2 := State(["00#"], [Pos(1, 0)], Pos(1, 0), 1);
    var s3 := State(["000"], [Pos(1, 0), Pos(2, 0)], Pos(2, 0), 2);
    var s4 := State(["000"], [Pos(1, 0)], Pos(1, 0), 2);
    var s5 := State(["000"], [], Pos(1, 0), 2);
    CarveLeftFirst(pick, carve);
    assert StepDfs(s0, pick, carve) == s1;
    LeftCellExhausted();
    assert StepDfs(s1, pick, carve) == s2;
    CarveRightNext(pick, carve);
    assert StepDfs(s2, pick, carve) == s3;
    OpenRowExhausted();
    assert StepDfs(s3, pick, carve) == s4;
    assert StepDfs(s4, pick, carve) == s5;
    assert CarveDfs(s0, pick, carve) == CarveDfs(s1, pick, carve) == CarveDfs(s2, pick, carve);
    assert CarveDfs(s2, pick, carve) == CarveDfs(s3, pick, carve) == CarveDfs(s4, pick, carve) == CarveDfs(s5, pick, carve);
  }

  // ---------------------------------------------------------------------------
  // The imperative generator
  // ---------------------------------------------------------------------------

  /**
   * The body of the while loop (AI.py:108-127): look for '#' neighbours of
   * the current cell, then carve or block one of them, or backtrack to the
   * new top of the stack.
   */
  method CarveOnce(grid: Grid, stack: seq<Pos>, cur: Pos, t: nat, pick: nat -> nat, carve: nat -> bool)
    returns (grid': Grid, stack': seq<Pos>, cur': Pos, t': nat)
    requires Wf(State(grid, stack, cur, t)) && stack != []
    ensures State(grid', stack', cur', t') == StepDfs(State(grid, stack, cur, t), pick, carve)
  {
    ghost var s := State(grid, stack, cur, t);
    grid', stack', cur', t' := grid, stack, cur, t;
    var nbrs := CellsAround(grid, cur, '#');
    if nbrs != [] {
      var next := nbrs[pick(t) % |nbrs|];
      if carve(t) {
        grid' := Resolve(grid, next, '0');
        stack' := stack + [next];
        cur' := next;
      } else {
        grid' := Resolve(grid, next, '1');
      }
      t' := t + 1;
      assert State(grid', stack', cur', t') == Advance(s, pick, carve);
    } else {
      stack' := stack[..|stack| - 1];
      if stack' != [] {
        cur' := stack'[|stack'| - 1];
      }
    }
  }

  /**
   * generate_grid_world with the depth-first backtrack: carve from the origin
   * until the stack is empty, updating the grid cell by cell.
   */
  method GenerateGridWorld(width: nat, height: nat, origin: Pos, pick: nat -> nat, carve: nat -> bool)
    returns (grid: Grid)
    requires ValidOrigin(width, height, origin)
    ensures grid == GeneratedDfs(width, height, origin, pick, carve)
    ensures |grid| == height && forall y :: 0 <= y < height ==> |grid[y]| == width
    ensures CellsKnown(grid) && grid[origin.y][origin.x] == '0'
    ensures forall q :: InBounds(grid, q) && grid[q.y][q.x] == '0' ==> Reachable(grid, origin, q)
    ensures forall q :: InBounds(grid, q) && grid[q.y][q.x] == '0' ==> Sealed(grid, q)
  {
    grid := Uncarved(width, height);
    grid := Resolve(grid, origin, '0');
    var stack := [origin];
    var cur := origin;
    var t := 0;
    while stack != []
      invariant Wf(State(grid, stack, cur, t))
      invariant CarveDfs(State(grid, stack, cur, t), pick, carve) == GeneratedDfs(width, height, origin, pick, carve)
      decreases Measure(State(grid, stack, cur, t))
    {
      grid, stack, cur, t := CarveOnce(grid, stack, cur, t, pick, carve);
    }
    GeneratedDfsExhausted(width, height, origin, pick, carve);
  }
}
