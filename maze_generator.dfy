/** `MazeGenerator.Generate`: a randomised depth-first carve of a perfect
    maze over a `width × height` array of wall masks, extra openings that add
    loops, and an optional pass that opens dead ends.  The array is indexed
    `grid[column, row]`; its contents are read as a `MazeWalls.Board`. */
module MazeGenerator {
  import opened Geometry
  import opened Random
  import opened MazeWalls

  predicate InGrid<T>(grid: array2<T>, p: Pos) {
    InBounds(grid.Length0, grid.Length1, p)
  }

  /** The masks of `grid`, as a board. */
  ghost function WallsOf(grid: array2<Mask>): (b: Board)
    reads grid
    ensures b.Keys == Cells(grid.Length0, grid.Length1)
    ensures forall p {:trigger b[p]} :: p in b ==> b[p] == grid[p.x, p.y]
  {
    map p | p in Cells(grid.Length0, grid.Length1) :: grid[p.x, p.y]
  }

  /** The cells `visited` marks. */
  ghost function Marked(visited: array2<bool>): (s: set<Pos>)
    reads visited
    ensures forall p {:trigger p in s} :: p in s <==> InGrid(visited, p) && visited[p.x, p.y]
  {
    set p | p in Cells(visited.Length0, visited.Length1) && visited[p.x, p.y]
  }

  /** `RemoveWallBetween`: clears the wall leaving `a` in direction `d`
      towards its neighbour `b`, on both sides.  The grid afterwards is
      `RemoveWall` of the grid before, so it is still sound when it was. */
  method RemoveWallBetween(grid: array2<Mask>, a: Pos, b: Pos, d: int)
    requires 0 <= d < 4 && InGrid(grid, a) && InGrid(grid, b) && b == Add(a, Dirs[d])
    modifies grid
    ensures WallsOf(grid) == RemoveWall(old(WallsOf(grid)), a, d)
    ensures Sound(grid.Length0, grid.Length1, old(WallsOf(grid))) ==> Sound(grid.Length0, grid.Length1, WallsOf(grid))
  {
    DirectionTables(a, b, d);
    ghost var before := WallsOf(grid);
    StoreMask(grid, a, Clear(grid[a.x, a.y], DirToWall[d]));
    StoreMask(grid, b, Clear(grid[b.x, b.y], OppositeWall[d]));
    if Sound(grid.Length0, grid.Length1, before) {
      RemoveWallSound(grid.Length0, grid.Length1, before, a, d);
    }
  }

  /** `grid[p] = m`, seen on boards. */
  method StoreMask(grid: array2<Mask>, p: Pos, m: Mask)
    requires InGrid(grid, p)
    modifies grid
    ensures WallsOf(grid) == old(WallsOf(grid))[p := m]
  {
    ghost var before := WallsOf(grid);
    grid[p.x, p.y] := m;
    ghost var after := WallsOf(grid);
    forall q | q in after ensures after[q] == before[p := m][q] {
      if q != p {
        assert (q.x, q.y) != (p.x, p.y);
      }
    }
    assert after == before[p := m];
  }

  /** Every entry of `grid` set to `Wall.All`. */
  method FillAllWalls(grid: array2<Mask>)
    modifies grid
    ensures WallsOf(grid) == AllWalls(grid.Length0, grid.Length1)
  {
    for c := 0 to grid.Length0
      invariant forall i, j :: 0 <= i < c && 0 <= j < grid.Length1 ==> grid[i, j] == All
    {
      for r := 0 to grid.Length1
        invariant forall i, j :: 0 <= i < c && 0 <= j < grid.Length1 ==> grid[i, j] == All
        invariant forall j :: 0 <= j < r ==> grid[c, j] == All
      {
        grid[c, r] := All;
      }
    }
  }

  // ---------------------------------------------------------------------
  // The depth-first carve.

  /** The directions, in increasing order, in which `current` has an
      in-bounds neighbour not yet visited. */
  method UnvisitedDirections(visited: array2<bool>, current: Pos) returns (dirs: seq<int>)
    ensures forall i :: 0 <= i < |dirs| ==>
      0 <= dirs[i] < 4 && InGrid(visited, Add(current, Dirs[dirs[i]])) &&
      Add(current, Dirs[dirs[i]]) !in Marked(visited)
    ensures forall i, j :: 0 <= i < j < |dirs| ==> dirs[i] < dirs[j]
    ensures forall d :: 0 <= d < 4 ==>
      (d in dirs <==> InGrid(visited, Add(current, Dirs[d])) && Add(current, Dirs[d]) !in Marked(visited))
  {
    dirs := [];
    for d := 0 to 4
      invariant forall i :: 0 <= i < |dirs| ==> 0 <= dirs[i] < d
      invariant forall i, j :: 0 <= i < j < |dirs| ==> dirs[i] < dirs[j]
      invariant forall e :: 0 <= e < d ==>
        (e in dirs <==> InGrid(visited, Add(current, Dirs[e])) && Add(current, Dirs[e]) !in Marked(visited))
    {
      var neighbor := Add(current, Dirs[d]);
      if 0 <= neighbor.x < visited.Length0 && 0 <= neighbor.y < visited.Length1 && !visited[neighbor.x, neighbor.y] {
        dirs := dirs + [d];
      }
    }
  }

  /** `visited[p] = true`. */
  method MarkVisited(visited: array2<bool>, p: Pos)
    requires InGrid(visited, p)
    modifies visited
    ensures Marked(visited) == old(Marked(visited)) + {p}
  {
    visited[p.x, p.y] := true;
  }

  /** Every in-bounds neighbour of `p` has been visited. */
  predicate Closed(w: int, h: int, seen: set<Pos>, p: Pos) {
    (InBounds(w, h, Pos(p.x + 1, p.y)) ==> Pos(p.x + 1, p.y) in seen) &&
    (InBounds(w, h, Pos(p.x, p.y + 1)) ==> Pos(p.x, p.y + 1) in seen) &&
    (InBounds(w, h, Pos(p.x - 1, p.y)) ==> Pos(p.x - 1, p.y) in seen) &&
    (InBounds(w, h, Pos(p.x, p.y - 1)) ==> Pos(p.x, p.y - 1) in seen)
  }

  /** The visited cells include the start and are cells; the stack holds
      visited cells; every visited cell off the stack has no unvisited
      in-bounds neighbour. */
  ghost predicate Frontier(w: int, h: int, seen: set<Pos>, stack: seq<Pos>, start: Pos) {
    start in seen && seen <= Cells(w, h) &&
    (forall i :: 0 <= i < |stack| ==> stack[i] in seen) &&
    (forall p {:trigger Closed(w, h, seen, p)} :: p in seen && p !in stack ==> Closed(w, h, seen, p))
  }

  /** Every unvisited cell still has all four walls. */
  ghost predicate Untouched(b: Board, seen: set<Pos>) {
    forall p :: p in b && p !in seen ==> b[p] == All
  }

  /** `routes` holds, for every visited cell, a walk to it from the start
      through carved walls. */
  ghost predicate Routed(b: Board, start: Pos, seen: set<Pos>, routes: map<Pos, seq<Pos>>) {
    routes.Keys == seen && forall p :: p in routes ==> Connects(b, routes[p], start, p)
  }

  /** The carve starts with the start cell visited and on the stack. */
  lemma CarveStart(w: int, h: int, start: Pos)
    requires InBounds(w, h, start)
    ensures Sound(w, h, AllWalls(w, h)) && Frontier(w, h, {start}, [start], start)
    ensures Untouched(AllWalls(w, h), {start}) && Routed(AllWalls(w, h), start, {start}, map[start := [start]])
  {
    AllWallsSound(w, h);
  }

  /** No unvisited direction from the top of the stack: it is closed, and
      popping it keeps the frontier. */
  lemma CarvePop(w: int, h: int, seen: set<Pos>, stack: seq<Pos>, start: Pos)
    requires Frontier(w, h, seen, stack, start) && stack != []
    requires forall d :: 0 <= d < 4 ==>
      !(InBounds(w, h, Add(stack[|stack| - 1], Dirs[d])) && Add(stack[|stack| - 1], Dirs[d]) !in seen)
    ensures Frontier(w, h, seen, stack[..|stack| - 1], start)
  {
    var top := stack[|stack| - 1];
    TopClosed(w, h, seen, top);
    forall p | p in seen && p !in stack[..|stack| - 1] ensures Closed(w, h, seen, p) {
      if p != top {
        assert p !in stack;
      }
    }
  }

  /** A cell with no unvisited in-bounds neighbour in any of the four
      directions is closed. */
  lemma TopClosed(w: int, h: int, seen: set<Pos>, top: Pos)
    requires forall d :: 0 <= d < 4 ==> !(InBounds(w, h, Add(top, Dirs[d])) && Add(top, Dirs[d]) !in seen)
    ensures Closed(w, h, seen, top)
  {
    assert Add(top, Dirs[0]) == Pos(top.x + 1, top.y) && Add(top, Dirs[1]) == Pos(top.x, top.y + 1);
    assert Add(top, Dirs[2]) == Pos(top.x - 1, top.y) && Add(top, Dirs[3]) == Pos(top.x, top.y - 1);
  }

  /** Visiting an unvisited neighbour `n` of the top of the stack and pushing
      it keeps the frontier, and leaves fewer cells unvisited. */
  lemma FrontierPush(w: int, h: int, seen: set<Pos>, stack: seq<Pos>, start: Pos, n: Pos)
    requires Frontier(w, h, seen, stack, start) && InBounds(w, h, n) && n !in seen
    ensures Frontier(w, h, seen + {n}, stack + [n], start)
    ensures |seen + {n}| == |seen| + 1 <= |Cells(w, h)|
  {
    forall p | p in seen + {n} && p !in stack + [n] ensures Closed(w, h, seen + {n}, p) {
      assert p in seen && p !in stack;
      assert Closed(w, h, seen, p);
    }
    SubsetCount(seen + {n}, Cells(w, h));
  }

  /** The wall about to be carved stands: the cell entered still has all
      four walls, and the two sides of a wall agree. */
  lemma CarvedWallStood(w: int, h: int, b: Board, a: Pos, d: int)
    requires Sound(w, h, b) && 0 <= d < 4 && InBounds(w, h, a) && InBounds(w, h, Add(a, Dirs[d]))
    requires b[Add(a, Dirs[d])] == All
    ensures HasWall(b, a, DirToWall[d]) && HasWall(b, Add(a, Dirs[d]), OppositeWall[d])
  {
    DirectionTables(a, Add(a, Dirs[d]), d);
    BothSides(w, h, b, a, d);
  }

  /** Carving from a visited cell `a` to an unvisited neighbour leaves every
      other unvisited cell untouched. */
  lemma UntouchedPush(b: Board, seen: set<Pos>, a: Pos, d: int)
    requires Untouched(b, seen) && 0 <= d < 4 && a in b && a in seen && Add(a, Dirs[d]) in b
    ensures Untouched(RemoveWall(b, a, d), seen + {Add(a, Dirs[d])})
  {
    var b' := RemoveWall(b, a, d);
    forall p | p in b' && p !in seen + {Add(a, Dirs[d])} ensures b'[p] == All {
      assert b'[p] == b[p];
    }
  }

  /** After carving from `a` to `n`, every route is still a walk, and the
      route to `a` extended by `n` is a walk to `n`. */
  lemma RoutedPush(b: Board, start: Pos, seen: set<Pos>, routes: map<Pos, seq<Pos>>, a: Pos, d: int)
    requires Routed(b, start, seen, routes) && 0 <= d < 4 && a in seen && a in b && Add(a, Dirs[d]) in b
    ensures var n := Add(a, Dirs[d]);
            Routed(RemoveWall(b, a, d), start, seen + {n}, routes[n := routes[a] + [n]])
  {
    var n := Add(a, Dirs[d]);
    var b' := RemoveWall(b, a, d);
    var routes' := routes[n := routes[a] + [n]];
    RemoveWallFewer(b, a, d);
    forall p | p in routes' ensures Connects(b', routes'[p], start, p) {
      if p == n {
        RemoveWallOpens(b, a, d);
        ConnectsKept(b', b, routes[a], start, a);
        assert Connects(b', [a, n], a, n);
        JoinWalks(b', routes[a], [a, n], start, a, n);
        assert routes[a] + [a, n][1..] == routes'[n];
      } else {
        ConnectsKept(b', b, routes[p], start, p);
      }
    }
  }

  /** A set of cells that holds `start` and every in-bounds neighbour of
      each of its cells holds every cell. */
  lemma {:induction false} ClosedReaches(w: int, h: int, seen: set<Pos>, start: Pos, p: Pos)
    requires start in seen && forall q {:trigger Closed(w, h, seen, q)} :: q in seen ==> Closed(w, h, seen, q)
    requires InBounds(w, h, start) && InBounds(w, h, p)
    ensures p in seen
    decreases Abs(p.x - start.x) + Abs(p.y - start.y)
  {
    if p.x < start.x {
      var q := Pos(p.x + 1, p.y);
      ClosedReaches(w, h, seen, start, q);
      assert Closed(w, h, seen, q) && p == Pos(q.x - 1, q.y);
    } else if p.x > start.x {
      var q := Pos(p.x - 1, p.y);
      ClosedReaches(w, h, seen, start, q);
      assert Closed(w, h, seen, q) && p == Pos(q.x + 1, q.y);
    } else if p.y < start.y {
      var q := Pos(p.x, p.y + 1);
      ClosedReaches(w, h, seen, start, q);
      assert Closed(w, h, seen, q) && p == Pos(q.x, q.y - 1);
    } else if p.y > start.y {
      var q := Pos(p.x, p.y - 1);
      ClosedReaches(w, h, seen, start, q);
      assert Closed(w, h, seen, q) && p == Pos(q.x, q.y + 1);
    } else {
      assert p == start;
    }
  }

  /** With the stack empty, every cell has been visited. */
  lemma FrontierDone(w: int, h: int, seen: set<Pos>, start: Pos)
    requires Frontier(w, h, seen, [], start)
    ensures seen == Cells(w, h)
  {
    forall p | p in Cells(w, h) ensures p in seen {
      ClosedReaches(w, h, seen, start, p);
    }
  }

  /** Routes from the start to every cell make a sound board connected. */
  lemma RoutedDone(w: int, h: int, b: Board, start: Pos, routes: map<Pos, seq<Pos>>)
    requires Sound(w, h, b) && Routed(b, start, Cells(w, h), routes)
    ensures Connected(b)
  {
    forall p | p in b ensures exists path :: Connects(b, path, start, p) {
      assert Connects(b, routes[p], start, p);
    }
    ConnectedFromOne(w, h, b, start);
  }

  /** One carve: the wall from a visited cell `current` towards its
      unvisited neighbour in direction `d` comes down; the board stays
      sound, the other unvisited cells stay untouched, the route to
      `current` extends to the neighbour, and exactly one more inner wall
      is open. */
  method CarveInto(grid: array2<Mask>, current: Pos, d: int,
                   ghost seen: set<Pos>, ghost start: Pos, ghost routes: map<Pos, seq<Pos>>)
    returns (ghost b': Board)
    requires 0 <= d < 4 && current in seen && InGrid(grid, Add(current, Dirs[d])) && Add(current, Dirs[d]) !in seen
    requires seen <= Cells(grid.Length0, grid.Length1)
    requires Sound(grid.Length0, grid.Length1, WallsOf(grid)) && Untouched(WallsOf(grid), seen)
    requires Routed(WallsOf(grid), start, seen, routes)
    modifies grid
    ensures b' == WallsOf(grid)
    ensures var next := Add(current, Dirs[d]);
            Sound(grid.Length0, grid.Length1, b') && Untouched(b', seen + {next}) &&
            Routed(b', start, seen + {next}, routes[next := routes[current] + [next]])
    ensures |OpenInner(b')| == |OpenInner(old(WallsOf(grid)))| + 1
  {
    var next := Add(current, Dirs[d]);
    ghost var b := WallsOf(grid);
    UntouchedPush(b, seen, current, d);
    RoutedPush(b, start, seen, routes, current, d);
    CarvedWallStood(grid.Length0, grid.Length1, b, current, d);
    OpenInnerRemove(b, current, d);
    RemoveWallBetween(grid, current, next, d);
    b' := WallsOf(grid);
  }

  /** The state the carve keeps between steps: `visited` marks `seen`, the
      board `b` is the grid, and the frontier, untouched and route facts
      hold, and one inner wall is open per cell visited after the start. */
  ghost predicate CarveState(grid: array2<Mask>, visited: array2<bool>, b: Board, seen: set<Pos>,
                             stack: seq<Pos>, start: Pos, routes: map<Pos, seq<Pos>>)
    reads grid, visited
  {
    visited as object != grid && visited.Length0 == grid.Length0 && visited.Length1 == grid.Length1 &&
    Marked(visited) == seen && WallsOf(grid) == b &&
    Frontier(grid.Length0, grid.Length1, seen, stack, start) &&
    Sound(grid.Length0, grid.Length1, b) && Untouched(b, seen) && Routed(b, start, seen, routes) &&
    |OpenInner(b)| == |seen| - 1
  }

  /** The carve begins at `start`: it is marked visited and is the only
      cell on the stack, with every wall still up. */
  method CarveBegin(grid: array2<Mask>, visited: array2<bool>, start: Pos)
    returns (stack: seq<Pos>, ghost b: Board, ghost routes: map<Pos, seq<Pos>>)
    requires visited as object != grid && visited.Length0 == grid.Length0 && visited.Length1 == grid.Length1
    requires InGrid(grid, start)
    requires WallsOf(grid) == AllWalls(grid.Length0, grid.Length1) && Marked(visited) == {}
    modifies visited
    ensures CarveState(grid, visited, b, {start}, stack, start, routes)
  {
    CarveStart(grid.Length0, grid.Length1, start);
    OpenInnerAllWalls(grid.Length0, grid.Length1);
    MarkVisited(visited, start);
    stack, b, routes := [start], WallsOf(grid), map[start := [start]];
  }

  /** When the stack is empty, every cell has been visited, the routes
      connect every cell to the start, and one inner wall fewer than there
      are cells is open. */
  lemma CarveEnd(grid: array2<Mask>, visited: array2<bool>, b: Board, seen: set<Pos>, start: Pos,
                 routes: map<Pos, seq<Pos>>)
    requires CarveState(grid, visited, b, seen, [], start, routes)
    ensures seen == Cells(grid.Length0, grid.Length1)
    ensures |OpenInner(WallsOf(grid))| == grid.Length0 * grid.Length1 - 1
    ensures Sound(grid.Length0, grid.Length1, WallsOf(grid)) && Connected(WallsOf(grid))
  {
    FrontierDone(grid.Length0, grid.Length1, seen, start);
    RoutedDone(grid.Length0, grid.Length1, b, start, routes);
    CellCount(grid.Length0, grid.Length1);
  }

  /** Carving from the top of the stack, `current`, to a random one of its
      unvisited neighbours `dirs`, and pushing that neighbour. */
  method CarveForward(grid: array2<Mask>, visited: array2<bool>, rng: Rng, stack: seq<Pos>, dirs: seq<int>,
                      ghost b: Board, ghost seen: set<Pos>, ghost start: Pos, ghost routes: map<Pos, seq<Pos>>)
    returns (stack': seq<Pos>, ghost b': Board, ghost seen': set<Pos>, ghost routes': map<Pos, seq<Pos>>)
    requires stack != [] && CarveState(grid, visited, b, seen, stack, start, routes) && dirs != []
    requires forall i :: 0 <= i < |dirs| ==>
      0 <= dirs[i] < 4 && InGrid(visited, Add(stack[|stack| - 1], Dirs[dirs[i]])) &&
      Add(stack[|stack| - 1], Dirs[dirs[i]]) !in Marked(visited)
    modifies grid, visited, rng
    ensures CarveState(grid, visited, b', seen', stack', start, routes')
    ensures |seen'| == |seen| + 1 <= |Cells(grid.Length0, grid.Length1)|
  {
    var w, h := grid.Length0, grid.Length1;
    var current := stack[|stack| - 1];
    var k := rng.Next(|dirs|);
    var d := dirs[k];
    var next := Add(current, Dirs[d]);
    FrontierPush(w, h, seen, stack, start, next);
    b' := CarveInto(grid, current, d, seen, start, routes);
    MarkVisited(visited, next);
    seen', routes' := seen + {next}, routes[next := routes[current] + [next]];
    stack' := stack + [next];
  }

  /** One step of the carve: when the top of the stack has unvisited
      neighbours, carve to a random one of them and push it; otherwise pop. */
  method CarveStep(grid: array2<Mask>, visited: array2<bool>, rng: Rng, stack: seq<Pos>,
                   ghost b: Board, ghost seen: set<Pos>, ghost start: Pos, ghost routes: map<Pos, seq<Pos>>)
    returns (stack': seq<Pos>, ghost b': Board, ghost seen': set<Pos>, ghost routes': map<Pos, seq<Pos>>)
    requires stack != [] && CarveState(grid, visited, b, seen, stack, start, routes)
    modifies grid, visited, rng
    ensures CarveState(grid, visited, b', seen', stack', start, routes')
    ensures (|seen'| == |seen| + 1 <= |Cells(grid.Length0, grid.Length1)|) || (seen' == seen && |stack'| < |stack|)
  {
    var current := stack[|stack| - 1];
    var dirs := UnvisitedDirections(visited, current);
    if |dirs| == 0 {
      CarvePop(grid.Length0, grid.Length1, seen, stack, start);
      stack', b', seen', routes' := stack[..|stack| - 1], b, seen, routes;
    } else {
      stack', b', seen', routes' := CarveForward(grid, visited, rng, stack, dirs, b, seen, start, routes);
    }
  }

  /** The depth-first "recursive back-tracker": from a random start, carve to
      a random unvisited neighbour of the top of the stack, or pop it when it
      has none.  Every cell ends up visited, the maze is connected, and
      exactly `w * h - 1` inner walls are open: one per cell reached after
      the start, so the passages form a spanning tree (a perfect maze). */
  method CarvePerfect(grid: array2<Mask>, rng: Rng) returns (ghost seen: set<Pos>)
    requires grid.Length0 > 0 && grid.Length1 > 0
    requires WallsOf(grid) == AllWalls(grid.Length0, grid.Length1)
    modifies grid, rng
    ensures Sound(grid.Length0, grid.Length1, WallsOf(grid)) && Connected(WallsOf(grid))
    ensures seen == Cells(grid.Length0, grid.Length1)
    ensures |OpenInner(WallsOf(grid))| == grid.Length0 * grid.Length1 - 1
  {
    var w, h := grid.Length0, grid.Length1;
    var visited := new bool[w, h]((c, r) => false);
    var sx := rng.Next(w);
    var sy := rng.Next(h);
    var start := Pos(sx, sy);
    assert Marked(visited) == {};
    var stack;
    ghost var b, routes;
    stack, b, routes := CarveBegin(grid, visited, start);
    seen := {start};
    SubsetCount(seen, Cells(w, h));
    while stack != []
      invariant CarveState(grid, visited, b, seen, stack, start, routes)
      invariant |seen| <= |Cells(w, h)|
      decreases |Cells(w, h)| - |seen|, |stack|
    {
      stack, b, seen, routes := CarveStep(grid, visited, rng, stack, b, seen, start, routes);
    }
    CarveEnd(grid, visited, b, seen, start, routes);
  }

  // ---------------------------------------------------------------------
  // Extra openings that add loops.

  /** A wall a loop round may take down: the East or North wall of a cell
      off the last column and row (or in the only column or row), leading
      to a cell inside the maze. */
  ghost predicate LoopWall(w: int, h: int, r: WallRef) {
    (r.dir == 0 || r.dir == 1) && InBounds(w, h, r.cell) && InBounds(w, h, Add(r.cell, Dirs[r.dir])) &&
    (w > 1 ==> r.cell.x < w - 1) && (h > 1 ==> r.cell.y < h - 1)
  }

  /** Appending a loop wall keeps every round a loop wall. */
  lemma LoopWallsSnoc(w: int, h: int, rounds: seq<WallRef>, r: WallRef)
    requires forall k :: 0 <= k < |rounds| ==> LoopWall(w, h, rounds[k])
    requires LoopWall(w, h, r)
    ensures forall k :: 0 <= k < |rounds + [r]| ==> LoopWall(w, h, (rounds + [r])[k])
  {
  }

  /** The state of `AddLoops` after some rounds: each round is a loop wall,
      and the board `b` is the old board `b0` with them opened in turn. */
  ghost predicate LoopState(w: int, h: int, b0: Board, rounds: seq<WallRef>, b: Board) {
    (forall k :: 0 <= k < |rounds| ==> LoopWall(w, h, rounds[k])) &&
    Directions(rounds) && b == OpenEach(b0, rounds) && Sound(w, h, b)
  }

  /** After the rounds: the board is sound, has only lost walls, stays
      connected, and has gained at most one open inner wall per round. */
  lemma LoopsDone(w: int, h: int, b0: Board, rounds: seq<WallRef>, b: Board)
    requires Sound(w, h, b0) && LoopState(w, h, b0, rounds, b)
    ensures Fewer(b, b0)
    ensures Connected(b0) ==> Connected(b)
    ensures |OpenInner(b)| <= |OpenInner(b0)| + |rounds|
  {
    assert InsideRounds(w, h, rounds);
    OpenEachFacts(w, h, b0, rounds);
    if Connected(b0) {
      ConnectedKept(b, b0);
    }
  }

  /** `extra` times: pick a random cell off the last column and row (or the
      only column or row), a random one of its East and North walls that
      lead inside the maze, and take that wall down if it stands; a `1 × 1`
      maze has no such wall and gets no round.  `rounds` lists the walls
      picked, and the board is the old one with them opened in turn, so it
      stays sound and connected and gains at most one open inner wall per
      round. */
  method AddLoops(grid: array2<Mask>, rng: Rng, extra: int) returns (ghost rounds: seq<WallRef>)
    requires grid.Length0 > 0 && grid.Length1 > 0
    requires Sound(grid.Length0, grid.Length1, WallsOf(grid))
    modifies grid, rng
    ensures |rounds| == if (grid.Length0 <= 1 && grid.Length1 <= 1) || extra <= 0 then 0 else extra
    ensures forall i :: 0 <= i < |rounds| ==> LoopWall(grid.Length0, grid.Length1, rounds[i])
    ensures Directions(rounds) && WallsOf(grid) == OpenEach(old(WallsOf(grid)), rounds)
    ensures Sound(grid.Length0, grid.Length1, WallsOf(grid))
    ensures Fewer(WallsOf(grid), old(WallsOf(grid)))
    ensures Connected(old(WallsOf(grid))) ==> Connected(WallsOf(grid))
    ensures |OpenInner(WallsOf(grid))| <= |OpenInner(old(WallsOf(grid)))| + |rounds|
  {
    var w, h := grid.Length0, grid.Length1;
    ghost var b0 := WallsOf(grid);
    rounds := [];
    var i := 0;
    while i < extra
      invariant 0 <= i && (i <= extra || i == 0) && |rounds| == i
      invariant w <= 1 && h <= 1 ==> i == 0
      invariant LoopState(w, h, b0, rounds, WallsOf(grid))
    {
      if w <= 1 && h <= 1 {
        break;
      }
      rounds := LoopRound(grid, rng, b0, rounds);
      i := i + 1;
    }
    LoopsDone(w, h, b0, rounds, WallsOf(grid));
  }

  /** One round of the `AddLoops` loop, with the rounds so far recorded. */
  method LoopRound(grid: array2<Mask>, rng: Rng, ghost b0: Board, ghost rounds: seq<WallRef>)
    returns (ghost rounds': seq<WallRef>)
    requires grid.Length0 > 0 && grid.Length1 > 0 && (grid.Length0 > 1 || grid.Length1 > 1)
    requires LoopState(grid.Length0, grid.Length1, b0, rounds, WallsOf(grid))
    modifies grid, rng
    ensures LoopState(grid.Length0, grid.Length1, b0, rounds', WallsOf(grid)) && |rounds'| == |rounds| + 1
  {
    ghost var round := AddLoop(grid, rng);
    OpenEachSnoc(b0, rounds, round);
    LoopWallsSnoc(grid.Length0, grid.Length1, rounds, round);
    rounds' := rounds + [round];
  }

  /** One round of `AddLoops`: `round` is the wall chosen at random, and it
      comes down when it stands.  A `1 × 1` maze offers no wall and stays
      as it is. */
  method AddLoop(grid: array2<Mask>, rng: Rng) returns (ghost round: WallRef)
    requires grid.Length0 > 0 && grid.Length1 > 0
    requires Sound(grid.Length0, grid.Length1, WallsOf(grid))
    modifies grid, rng
    ensures Sound(grid.Length0, grid.Length1, WallsOf(grid)) && Fewer(WallsOf(grid), old(WallsOf(grid)))
    ensures grid.Length0 > 1 || grid.Length1 > 1 ==>
      LoopWall(grid.Length0, grid.Length1, round) &&
      WallsOf(grid) == Opened(old(WallsOf(grid)), round.cell, round.dir)
    ensures grid.Length0 <= 1 && grid.Length1 <= 1 ==> WallsOf(grid) == old(WallsOf(grid))
  {
    ghost var b := WallsOf(grid);
    var cell, possible := PickLoopWall(rng, grid.Length0, grid.Length1);
    assert WallsOf(grid) == b;
    if |possible| > 0 {
      var k := rng.Next(|possible|);
      var d := possible[k];
      assert WallsOf(grid) == b;
      OpenIfStanding(grid, cell, d);
      round := WallRef(cell, d);
    } else {
      FewerRefl(WallsOf(grid));
      round := WallRef(cell, 0);
    }
  }

  /** A random cell off the last column and row (column `0` when there is
      one column, row `0` when there is one row), and the directions among
      East and North in which it has a neighbour. */
  method PickLoopWall(rng: Rng, w: int, h: int) returns (cell: Pos, possible: seq<int>)
    requires w > 0 && h > 0
    modifies rng
    ensures InBounds(w, h, cell) && (w > 1 ==> cell.x < w - 1) && (h > 1 ==> cell.y < h - 1)
    ensures forall i :: 0 <= i < |possible| ==> possible[i] in {0, 1} && InBounds(w, h, Add(cell, Dirs[possible[i]]))
    ensures 0 in possible <==> w > 1
    ensures 1 in possible <==> h > 1
  {
    var c := 0;
    if w > 1 {
      c := rng.Next(w - 1);
    }
    var r := 0;
    if h > 1 {
      r := rng.Next(h - 1);
    }
    cell := Pos(c, r);
    possible := [];
    if c < w - 1 {
      possible := possible + [0];
    }
    if r < h - 1 {
      possible := possible + [1];
    }
  }

  /** Takes down the wall leaving `cell` in direction `d` when it stands. */
  method OpenIfStanding(grid: array2<Mask>, cell: Pos, d: int)
    requires 0 <= d < 4 && InGrid(grid, cell) && InGrid(grid, Add(cell, Dirs[d]))
    requires Sound(grid.Length0, grid.Length1, WallsOf(grid))
    modifies grid
    ensures Sound(grid.Length0, grid.Length1, WallsOf(grid)) && Fewer(WallsOf(grid), old(WallsOf(grid)))
    ensures WallsOf(grid) == if HasWall(old(WallsOf(grid)), cell, DirToWall[d])
                             then RemoveWall(old(WallsOf(grid)), cell, d) else old(WallsOf(grid))
  {
    ghost var b := WallsOf(grid);
    if Has(grid[cell.x, cell.y], DirToWall[d]) {
      RemoveWallBetween(grid, cell, Add(cell, Dirs[d]), d);
      RemoveWallFewer(b, cell, d);
    }
  }

  // ---------------------------------------------------------------------
  // Opening dead ends.

  /** How many of the first `k` directions of `m` are open. */
  function OpenAmong(m: Mask, k: int): nat
    requires 0 <= k <= 4
  {
    if k == 0 then 0 else OpenAmong(m, k - 1) + (if Has(m, DirToWall[k - 1]) then 0 else 1)
  }

  /** How many of the four walls of a cell are down. */
  function Openings(m: Mask): nat {
    OpenAmong(m, 4)
  }

  /** A dead end: a cell with exactly one wall down. */
  ghost predicate DeadEnd(b: Board, p: Pos) {
    p in b && Openings(b[p]) == 1
  }

  /** Taking down a standing wall opens one more direction. */
  lemma OpeningsClear(m: Mask, d: int)
    requires 0 <= d < 4 && Has(m, DirToWall[d])
    ensures Openings(Clear(m, DirToWall[d])) == Openings(m) + 1
  {
    var r := Clear(m, DirToWall[d]);
    assert forall e :: 0 <= e < 4 ==> (Has(r, DirToWall[e]) <==> Has(m, DirToWall[e]) && e != d);
    assert OpenAmong(r, 1) == OpenAmong(m, 1) + (if d == 0 then 1 else 0);
    assert OpenAmong(r, 2) == OpenAmong(m, 2) + (if d <= 1 then 1 else 0);
    assert OpenAmong(r, 3) == OpenAmong(m, 3) + (if d <= 2 then 1 else 0);
  }

  /** The count of open directions of a cell (`openDirections`). */
  method CountOpenings(m: Mask) returns (n: nat)
    ensures n == Openings(m)
  {
    n := 0;
    for dir := 0 to 4
      invariant n == OpenAmong(m, dir)
    {
      if !Has(m, DirToWall[dir]) {
        n := n + 1;
      }
    }
  }

  /** Column-major order: the order in which the cells are scanned. */
  predicate ScannedBefore(p: Pos, q: Pos) {
    p.x < q.x || (p.x == q.x && p.y < q.y)
  }

  /** The dead ends of the grid, column by column and row by row. */
  method CollectDeadEnds(grid: array2<Mask>) returns (deadEnds: seq<Pos>)
    ensures forall p :: p in deadEnds <==> InGrid(grid, p) && Openings(grid[p.x, p.y]) == 1
    ensures forall i, j :: 0 <= i < j < |deadEnds| ==> ScannedBefore(deadEnds[i], deadEnds[j])
  {
    deadEnds := [];
    for c := 0 to grid.Length0
      invariant forall p :: p in deadEnds <==> InGrid(grid, p) && p.x < c && Openings(grid[p.x, p.y]) == 1
      invariant forall i, j :: 0 <= i < j < |deadEnds| ==> ScannedBefore(deadEnds[i], deadEnds[j])
      invariant forall i :: 0 <= i < |deadEnds| ==> deadEnds[i].x < c
    {
      for r := 0 to grid.Length1
        invariant forall p :: p in deadEnds <==>
          InGrid(grid, p) && (p.x < c || (p.x == c && p.y < r)) && Openings(grid[p.x, p.y]) == 1
        invariant forall i, j :: 0 <= i < j < |deadEnds| ==> ScannedBefore(deadEnds[i], deadEnds[j])
        invariant forall i :: 0 <= i < |deadEnds| ==> ScannedBefore(deadEnds[i], Pos(c, r))
      {
        var openDirections := CountOpenings(grid[c, r]);
        if openDirections == 1 {
          deadEnds := deadEnds + [Pos(c, r)];
        }
      }
    }
  }

  /** No cell is listed twice. */
  ghost predicate NoDuplicates(s: seq<Pos>) {
    forall i, j :: 0 <= i < j < |s| ==> s[i] != s[j]
  }

  /** Swapping two entries of a list without duplicates keeps it without
      duplicates. */
  lemma SwapNoDuplicates(t: seq<Pos>, i: int, j: int)
    requires 0 <= i < |t| && 0 <= j < |t| && NoDuplicates(t)
    ensures NoDuplicates(t[i := t[j]][j := t[i]])
  {
    var u := t[i := t[j]][j := t[i]];
    forall a, b | 0 <= a < b < |u| ensures u[a] != u[b] {
      var a' := if a == j then i else if a == i then j else a;
      var b' := if b == j then i else if b == i then j else b;
      assert u[a] == t[a'] && u[b] == t[b'] && a' != b';
    }
  }

  /** Fisher-Yates: position `i` swaps with a random position in `[i, n)`. */
  method Shuffle(s: seq<Pos>, rng: Rng) returns (t: seq<Pos>)
    modifies rng
    ensures |t| == |s| && multiset(t) == multiset(s)
    ensures forall i :: 0 <= i < |t| ==> t[i] in s
    ensures NoDuplicates(s) ==> NoDuplicates(t)
  {
    t := s;
    for i := 0 to |t|
      invariant |t| == |s| && multiset(t) == multiset(s)
      invariant NoDuplicates(s) ==> NoDuplicates(t)
    {
      var temp := t[i];
      var randomIndex := rng.NextInRange(i, |t|);
      if NoDuplicates(s) {
        SwapNoDuplicates(t, i, randomIndex);
      }
      t := t[i := t[randomIndex]][randomIndex := temp];
    }
    forall i | 0 <= i < |t| ensures t[i] in s {
      assert t[i] in multiset(t);
    }
  }

  /** The first open direction of `m`, or `-1` when every wall stands. */
  method FirstOpening(m: Mask) returns (k: int)
    ensures -1 <= k < 4
    ensures k == -1 ==> Openings(m) == 0
    ensures k >= 0 ==> !Has(m, DirToWall[k]) && forall j :: 0 <= j < k ==> Has(m, DirToWall[j])
  {
    k := -1;
    var dir := 0;
    while dir < 4
      invariant 0 <= dir <= 4 && k == -1 && OpenAmong(m, dir) == 0
      invariant forall j :: 0 <= j < dir ==> Has(m, DirToWall[j])
    {
      if !Has(m, DirToWall[dir]) {
        k := dir;
        break;
      }
      dir := dir + 1;
    }
  }

  /** The directions, other than `opening`, in which `cell` has a neighbour
      and its wall stands, in increasing order. */
  method WallsToOpen(grid: array2<Mask>, cell: Pos, opening: int) returns (dirs: seq<int>)
    requires InGrid(grid, cell)
    ensures forall i :: 0 <= i < |dirs| ==>
      0 <= dirs[i] < 4 && dirs[i] != opening && InGrid(grid, Add(cell, Dirs[dirs[i]])) &&
      Has(grid[cell.x, cell.y], DirToWall[dirs[i]])
    ensures forall d ::
      (0 <= d < 4 && d != opening && InGrid(grid, Add(cell, Dirs[d])) && Has(grid[cell.x, cell.y], DirToWall[d]))
      ==> d in dirs
    ensures forall i, j :: 0 <= i < j < |dirs| ==> dirs[i] < dirs[j]
  {
    dirs := [];
    for dir := 0 to 4
      invariant forall i :: 0 <= i < |dirs| ==> dirs[i] < dir
      invariant forall i, j :: 0 <= i < j < |dirs| ==> dirs[i] < dirs[j]
      invariant forall i :: 0 <= i < |dirs| ==>
        0 <= dirs[i] < 4 && dirs[i] != opening && InGrid(grid, Add(cell, Dirs[dirs[i]])) &&
        Has(grid[cell.x, cell.y], DirToWall[dirs[i]])
      invariant forall d ::
        (0 <= d < dir && d != opening && InGrid(grid, Add(cell, Dirs[d])) && Has(grid[cell.x, cell.y], DirToWall[d]))
        ==> d in dirs
    {
      if dir != opening {
        var neighbor := Add(cell, Dirs[dir]);
        if 0 <= neighbor.x < grid.Length0 && 0 <= neighbor.y < grid.Length1 {
          if Has(grid[cell.x, cell.y], DirToWall[dir]) {
            dirs := dirs + [dir];
          }
        }
      }
    }
  }

  /** With probability `probability`, a dead end gets one more of its
      standing inner walls taken down, chosen at random.  The result says
      whether a wall came down, and `d` which one. */
  method PruneCell(grid: array2<Mask>, rng: Rng, cell: Pos, probability: real) returns (changed: bool, d: int)
    requires InGrid(grid, cell) && Sound(grid.Length0, grid.Length1, WallsOf(grid))
    modifies grid, rng
    ensures Sound(grid.Length0, grid.Length1, WallsOf(grid)) && Fewer(WallsOf(grid), old(WallsOf(grid)))
    ensures !changed ==> WallsOf(grid) == old(WallsOf(grid))
    ensures changed ==>
      0 <= d < 4 && InGrid(grid, Add(cell, Dirs[d])) && HasWall(old(WallsOf(grid)), cell, DirToWall[d]) &&
      WallsOf(grid) == RemoveWall(old(WallsOf(grid)), cell, d)
    ensures changed ==> Openings(WallsOf(grid)[cell]) == Openings(old(WallsOf(grid))[cell]) + 1
  {
    var coin := rng.NextDouble();
    if coin < probability {
      changed, d := OpenDeadEnd(grid, rng, cell);
    } else {
      changed, d := false, -1;
      FewerRefl(WallsOf(grid));
    }
  }

  /** Finds the first opening of `cell` and takes down a random one of its
      other standing inner walls, when it has one. */
  method OpenDeadEnd(grid: array2<Mask>, rng: Rng, cell: Pos) returns (changed: bool, d: int)
    requires InGrid(grid, cell) && Sound(grid.Length0, grid.Length1, WallsOf(grid))
    modifies grid, rng
    ensures Sound(grid.Length0, grid.Length1, WallsOf(grid)) && Fewer(WallsOf(grid), old(WallsOf(grid)))
    ensures !changed ==> WallsOf(grid) == old(WallsOf(grid))
    ensures changed ==>
      0 <= d < 4 && InGrid(grid, Add(cell, Dirs[d])) && HasWall(old(WallsOf(grid)), cell, DirToWall[d]) &&
      WallsOf(grid) == RemoveWall(old(WallsOf(grid)), cell, d)
    ensures changed ==> Openings(WallsOf(grid)[cell]) == Openings(old(WallsOf(grid))[cell]) + 1
  {
    changed, d := false, -1;
    var openingDirIdx := FirstOpening(grid[cell.x, cell.y]);
    var possibleWallsToOpen: seq<int> := [];
    if openingDirIdx != -1 {
      possibleWallsToOpen := WallsToOpen(grid, cell, openingDirIdx);
    }
    if |possibleWallsToOpen| > 0 {
      var k := rng.Next(|possibleWallsToOpen|);
      d := possibleWallsToOpen[k];
      OpenWall(grid, cell, d);
      changed := true;
    } else {
      FewerRefl(WallsOf(grid));
    }
  }

  /** `RemoveWallBetween` from `cell` in direction `d`, where the wall
      stands. */
  method OpenWall(grid: array2<Mask>, cell: Pos, d: int)
    requires 0 <= d < 4 && InGrid(grid, cell) && InGrid(grid, Add(cell, Dirs[d]))
    requires Has(grid[cell.x, cell.y], DirToWall[d]) && Sound(grid.Length0, grid.Length1, WallsOf(grid))
    modifies grid
    ensures Sound(grid.Length0, grid.Length1, WallsOf(grid)) && Fewer(WallsOf(grid), old(WallsOf(grid)))
    ensures HasWall(old(WallsOf(grid)), cell, DirToWall[d]) && WallsOf(grid) == RemoveWall(old(WallsOf(grid)), cell, d)
    ensures Openings(WallsOf(grid)[cell]) == Openings(old(WallsOf(grid))[cell]) + 1
  {
    ghost var b := WallsOf(grid);
    DirectionTables(cell, Add(cell, Dirs[d]), d);
    RemoveWallBetween(grid, cell, Add(cell, Dirs[d]), d);
    RemoveWallFewer(b, cell, d);
    OpeningsClear(b[cell], d);
  }

  /** The walls one pass took down from board `b`: each leaves a distinct
      dead end of `b` towards an in-bounds neighbour, and each still stood
      when its turn came. */
  ghost predicate PruneRounds(w: int, h: int, b: Board, rounds: seq<WallRef>) {
    InsideRounds(w, h, rounds) && Directions(rounds) && EachStood(b, rounds) &&
    (forall k :: 0 <= k < |rounds| ==> DeadEnd(b, rounds[k].cell)) &&
    (forall k, l :: 0 <= k < l < |rounds| ==> rounds[k].cell != rounds[l].cell)
  }

  /** The passes of the dead-end phase, from board `b0` to board `b`:
      `boards[i]` is the board pass `i` starts from and `passes[i]` the walls
      it took down; with no pass the board is unchanged. */
  ghost predicate PrunePasses(w: int, h: int, b0: Board, boards: seq<Board>, passes: seq<seq<WallRef>>, b: Board) {
    |boards| == |passes| &&
    (forall i :: 0 <= i < |passes| ==> PruneRounds(w, h, boards[i], passes[i])) &&
    (boards == [] ==> b == b0) &&
    (boards != [] ==> boards[0] == b0 && b == OpenEach(boards[|boards| - 1], passes[|passes| - 1])) &&
    (forall i :: 0 <= i < |boards| - 1 ==> boards[i + 1] == OpenEach(boards[i], passes[i]))
  }

  /** Up to two passes: collect the dead ends, shuffle them, and give each a
      chance to lose one more wall; stop early when there are none or a pass
      changes nothing.  `boards` and `passes` record what each pass started
      from and took down: at most two passes, every pass but the last took a
      wall down, and each wall taken down stood and left a distinct dead end
      of its pass.  Only walls come down, so the board stays sound and
      connected. */
  method PruneDeadEnds(grid: array2<Mask>, rng: Rng, probability: real)
    returns (ghost boards: seq<Board>, ghost passes: seq<seq<WallRef>>)
    requires Sound(grid.Length0, grid.Length1, WallsOf(grid))
    modifies grid, rng
    ensures |passes| <= 2 && forall i :: 0 <= i < |passes| - 1 ==> passes[i] != []
    ensures PrunePasses(grid.Length0, grid.Length1, old(WallsOf(grid)), boards, passes, WallsOf(grid))
    ensures Sound(grid.Length0, grid.Length1, WallsOf(grid))
    ensures Fewer(WallsOf(grid), old(WallsOf(grid)))
    ensures Connected(old(WallsOf(grid))) ==> Connected(WallsOf(grid))
  {
    ghost var b0 := WallsOf(grid);
    FewerRefl(b0);
    boards, passes := [], [];
    var repeat := 0;
    while repeat < 2
      invariant 0 <= repeat <= 2 && |passes| == repeat
      invariant forall i :: 0 <= i < |passes| ==> passes[i] != []
      invariant PrunePasses(grid.Length0, grid.Length1, b0, boards, passes, WallsOf(grid))
      invariant Sound(grid.Length0, grid.Length1, WallsOf(grid)) && Fewer(WallsOf(grid), b0)
    {
      ghost var earlier := passes;
      var stop;
      stop, boards, passes := PruneOnce(grid, rng, probability, b0, boards, passes);
      ChangedBefore(earlier, passes);
      if stop {
        break;
      }
      repeat := repeat + 1;
    }
    if Connected(b0) {
      ConnectedKept(WallsOf(grid), b0);
    }
  }

  /** Passes that all took a wall down, followed by at most one more:
      every pass but the last took a wall down. */
  lemma ChangedBefore(earlier: seq<seq<WallRef>>, passes: seq<seq<WallRef>>)
    requires forall i :: 0 <= i < |earlier| ==> earlier[i] != []
    requires passes == earlier || (|passes| == |earlier| + 1 && passes[..|earlier|] == earlier)
    ensures forall i :: 0 <= i < |passes| - 1 ==> passes[i] != []
    ensures |passes| == |earlier| + 1 && passes[|earlier|] != [] ==> forall i :: 0 <= i < |passes| ==> passes[i] != []
  {
    if passes != earlier {
      assert forall i :: 0 <= i < |earlier| ==> passes[i] == earlier[i];
    }
  }

  /** One repetition of the dead-end phase: collect the dead ends (`stop`
      at once, recording no pass, when there are none), shuffle them, run
      a pass and record it; `stop` when the pass took no wall down. */
  method PruneOnce(grid: array2<Mask>, rng: Rng, probability: real,
                   ghost b0: Board, ghost boards: seq<Board>, ghost passes: seq<seq<WallRef>>)
    returns (stop: bool, ghost boards': seq<Board>, ghost passes': seq<seq<WallRef>>)
    requires PrunePasses(grid.Length0, grid.Length1, b0, boards, passes, WallsOf(grid))
    requires Sound(grid.Length0, grid.Length1, WallsOf(grid)) && Fewer(WallsOf(grid), b0)
    modifies grid, rng
    ensures PrunePasses(grid.Length0, grid.Length1, b0, boards', passes', WallsOf(grid))
    ensures Sound(grid.Length0, grid.Length1, WallsOf(grid)) && Fewer(WallsOf(grid), b0)
    ensures passes' == passes || (|passes'| == |passes| + 1 && passes'[..|passes|] == passes)
    ensures !stop ==> |passes'| == |passes| + 1 && passes'[|passes|] != []
  {
    var w, h := grid.Length0, grid.Length1;
    var deadEnds := CollectDeadEnds(grid);
    if |deadEnds| == 0 {
      return true, boards, passes;
    }
    ghost var start := WallsOf(grid);
    assert NoDuplicates(deadEnds);
    ghost var listed := deadEnds;
    deadEnds := Shuffle(deadEnds, rng);
    var changedInPass;
    ghost var picks, rounds;
    changedInPass, picks, rounds := PrunePass(grid, rng, deadEnds, probability);
    PassDeadEnds(w, h, start, listed, deadEnds, picks, rounds);
    PassRecorded(w, h, b0, boards, passes, start, rounds, WallsOf(grid));
    FewerTransitive(WallsOf(grid), start, b0);
    boards', passes' := boards + [start], passes + [rounds];
    assert passes'[..|passes|] == passes;
    stop := !changedInPass;
  }

  /** The walls a pass over a shuffled list of the dead ends of `b` took
      down are those of distinct dead ends of `b`. */
  lemma PassDeadEnds(w: int, h: int, b: Board, listed: seq<Pos>, deadEnds: seq<Pos>, picks: seq<int>, rounds: seq<WallRef>)
    requires b.Keys == Cells(w, h)
    requires forall p :: p in listed ==> InBounds(w, h, p) && Openings(b[p]) == 1
    requires forall i :: 0 <= i < |deadEnds| ==> deadEnds[i] in listed
    requires NoDuplicates(deadEnds) && Picked(deadEnds, |deadEnds|, picks, rounds)
    requires InsideRounds(w, h, rounds) && Directions(rounds) && EachStood(b, rounds)
    ensures PruneRounds(w, h, b, rounds)
  {
    forall k | 0 <= k < |rounds| ensures DeadEnd(b, rounds[k].cell) {
      assert deadEnds[picks[k]] in listed;
    }
    forall k, l | 0 <= k < l < |rounds| ensures rounds[k].cell != rounds[l].cell {
      assert picks[k] < picks[l];
    }
  }

  /** A pass from the board the earlier passes ended on extends the record. */
  lemma PassRecorded(w: int, h: int, b0: Board, boards: seq<Board>, passes: seq<seq<WallRef>>,
                     start: Board, rounds: seq<WallRef>, b: Board)
    requires PrunePasses(w, h, b0, boards, passes, start)
    requires PruneRounds(w, h, start, rounds) && b == OpenEach(start, rounds)
    ensures PrunePasses(w, h, b0, boards + [start], passes + [rounds], b)
  {
    EachPassRecorded(w, h, boards, passes, start, rounds);
    ChainRecorded(b0, boards, passes, start, rounds);
  }

  /** Appending a pass keeps every pass a record of dead ends losing
      walls. */
  lemma EachPassRecorded(w: int, h: int, boards: seq<Board>, passes: seq<seq<WallRef>>,
                         start: Board, rounds: seq<WallRef>)
    requires |boards| == |passes| && forall i :: 0 <= i < |passes| ==> PruneRounds(w, h, boards[i], passes[i])
    requires PruneRounds(w, h, start, rounds)
    ensures forall i :: 0 <= i < |passes| + 1 ==> PruneRounds(w, h, (boards + [start])[i], (passes + [rounds])[i])
  {
    forall i | 0 <= i < |passes| + 1 ensures PruneRounds(w, h, (boards + [start])[i], (passes + [rounds])[i]) {
      if i < |passes| {
        assert (boards + [start])[i] == boards[i] && (passes + [rounds])[i] == passes[i];
      } else {
        assert (boards + [start])[i] == start && (passes + [rounds])[i] == rounds;
      }
    }
  }

  /** Appending a pass from the board the earlier passes ended on keeps
      each board the one before it with its pass's walls opened. */
  lemma ChainRecorded(b0: Board, boards: seq<Board>, passes: seq<seq<WallRef>>, start: Board, rounds: seq<WallRef>)
    requires |boards| == |passes| && forall i :: 0 <= i < |passes| ==> Directions(passes[i])
    requires (boards == [] ==> start == b0)
    requires (boards != [] ==> boards[0] == b0 && start == OpenEach(boards[|boards| - 1], passes[|passes| - 1]))
    requires forall i :: 0 <= i < |boards| - 1 ==> boards[i + 1] == OpenEach(boards[i], passes[i])
    ensures (boards + [start])[0] == b0
    ensures forall i :: 0 <= i < |boards| ==>
      (boards + [start])[i + 1] == OpenEach((boards + [start])[i], (passes + [rounds])[i])
  {
    var boards', passes' := boards + [start], passes + [rounds];
    forall i | 0 <= i < |boards| ensures boards'[i + 1] == OpenEach(boards'[i], passes'[i]) {
      assert boards'[i] == boards[i] && passes'[i] == passes[i];
      if i + 1 < |boards| {
        assert boards'[i + 1] == boards[i + 1];
      }
    }
  }

  /** `picks` are positions among the first `n` entries of `deadEnds`, in
      increasing order, and `rounds[k]` leaves the entry at `picks[k]`. */
  ghost predicate Picked(deadEnds: seq<Pos>, n: int, picks: seq<int>, rounds: seq<WallRef>) {
    n <= |deadEnds| && |picks| == |rounds| &&
    (forall k :: 0 <= k < |picks| ==> 0 <= picks[k] < n && rounds[k].cell == deadEnds[picks[k]]) &&
    (forall k, l :: 0 <= k < l < |picks| ==> picks[k] < picks[l])
  }

  /** Entry `i` lost the wall of `r`. */
  lemma PickedSnoc(deadEnds: seq<Pos>, i: int, picks: seq<int>, rounds: seq<WallRef>, r: WallRef)
    requires Picked(deadEnds, i, picks, rounds) && 0 <= i < |deadEnds| && r.cell == deadEnds[i]
    ensures Picked(deadEnds, i + 1, picks + [i], rounds + [r])
  {
  }

  /** Entry `i` lost no wall. */
  lemma PickedSkip(deadEnds: seq<Pos>, i: int, picks: seq<int>, rounds: seq<WallRef>)
    requires Picked(deadEnds, i, picks, rounds) && 0 <= i < |deadEnds|
    ensures Picked(deadEnds, i + 1, picks, rounds)
  {
  }

  /** After the first `i` entries of a pass over `deadEnds` from board
      `b0`: the board `b` is `b0` with the walls of `rounds` opened in turn,
      each of which stood at its turn and left the entry at the matching
      position of `picks`; `changedInPass` says whether there is any. */
  ghost predicate PassState(w: int, h: int, b0: Board, deadEnds: seq<Pos>, i: int,
                            changedInPass: bool, picks: seq<int>, rounds: seq<WallRef>, b: Board) {
    Sound(w, h, b) && Fewer(b, b0) && PassRecord(w, h, b0, deadEnds, i, changedInPass, picks, rounds, b)
  }

  /** The part of `PassState` about the walls taken down so far. */
  ghost predicate PassRecord(w: int, h: int, b0: Board, deadEnds: seq<Pos>, i: int,
                             changedInPass: bool, picks: seq<int>, rounds: seq<WallRef>, b: Board) {
    (changedInPass <==> rounds != []) && Picked(deadEnds, i, picks, rounds) &&
    InsideRounds(w, h, rounds) && Directions(rounds) && EachStood(b0, rounds) && b == OpenEach(b0, rounds)
  }

  /** One pass over the shuffled dead ends.  `picks` are the positions in
      `deadEnds`, in increasing order, of the entries that lost a wall, and
      `rounds` the walls they lost: each stood when its turn came and leads
      to an in-bounds neighbour, and the board is the old one with them
      opened in turn.  The result says whether any wall came down. */
  method PrunePass(grid: array2<Mask>, rng: Rng, deadEnds: seq<Pos>, probability: real)
    returns (changedInPass: bool, ghost picks: seq<int>, ghost rounds: seq<WallRef>)
    requires forall i :: 0 <= i < |deadEnds| ==> InGrid(grid, deadEnds[i])
    requires Sound(grid.Length0, grid.Length1, WallsOf(grid))
    modifies grid, rng
    ensures Sound(grid.Length0, grid.Length1, WallsOf(grid)) && Fewer(WallsOf(grid), old(WallsOf(grid)))
    ensures !changedInPass ==> WallsOf(grid) == old(WallsOf(grid))
    ensures changedInPass <==> rounds != []
    ensures Picked(deadEnds, |deadEnds|, picks, rounds)
    ensures InsideRounds(grid.Length0, grid.Length1, rounds) && Directions(rounds)
    ensures EachStood(old(WallsOf(grid)), rounds) && WallsOf(grid) == OpenEach(old(WallsOf(grid)), rounds)
  {
    ghost var b0 := WallsOf(grid);
    FewerRefl(b0);
    changedInPass := false;
    picks, rounds := [], [];
    for i := 0 to |deadEnds|
      invariant PassState(grid.Length0, grid.Length1, b0, deadEnds, i, changedInPass, picks, rounds, WallsOf(grid))
    {
      changedInPass, picks, rounds := PruneEntry(grid, rng, deadEnds, i, probability, b0, changedInPass, picks, rounds);
    }
  }

  /** The turn of entry `i` of a pass: `PruneCell` on it, and the wall it
      lost, if any, recorded. */
  method PruneEntry(grid: array2<Mask>, rng: Rng, deadEnds: seq<Pos>, i: int, probability: real,
                    ghost b0: Board, changedInPass: bool, ghost picks: seq<int>, ghost rounds: seq<WallRef>)
    returns (changedInPass': bool, ghost picks': seq<int>, ghost rounds': seq<WallRef>)
    requires 0 <= i < |deadEnds| && InGrid(grid, deadEnds[i])
    requires PassState(grid.Length0, grid.Length1, b0, deadEnds, i, changedInPass, picks, rounds, WallsOf(grid))
    modifies grid, rng
    ensures PassState(grid.Length0, grid.Length1, b0, deadEnds, i + 1, changedInPass', picks', rounds', WallsOf(grid))
  {
    ghost var before := WallsOf(grid);
    var changed, d := PruneCell(grid, rng, deadEnds[i], probability);
    FewerTransitive(WallsOf(grid), before, b0);
    changedInPass' := changedInPass || changed;
    if changed {
      var r := WallRef(deadEnds[i], d);
      assert Add(r.cell, Dirs[d]) in before;
      EntryChanged(grid.Length0, grid.Length1, b0, deadEnds, i, changedInPass, picks, rounds, before, r);
      picks', rounds' := picks + [i], rounds + [r];
    } else {
      PickedSkip(deadEnds, i, picks, rounds);
      picks', rounds' := picks, rounds;
    }
  }

  /** Entry `i` lost the wall `r`, which stood: the record moves on to
      entry `i + 1` with `r` appended. */
  lemma EntryChanged(w: int, h: int, b0: Board, deadEnds: seq<Pos>, i: int, changedInPass: bool,
                     picks: seq<int>, rounds: seq<WallRef>, before: Board, r: WallRef)
    requires 0 <= i < |deadEnds| && r.cell == deadEnds[i]
    requires PassRecord(w, h, b0, deadEnds, i, changedInPass, picks, rounds, before)
    requires 0 <= r.dir < 4 && InBounds(w, h, r.cell) && InBounds(w, h, Add(r.cell, Dirs[r.dir]))
    requires HasWall(before, r.cell, DirToWall[r.dir]) && Add(r.cell, Dirs[r.dir]) in before
    ensures PassRecord(w, h, b0, deadEnds, i + 1, true, picks + [i], rounds + [r], RemoveWall(before, r.cell, r.dir))
  {
    OpenEachSnoc(b0, rounds, r);
    PickedSnoc(deadEnds, i, picks, rounds, r);
    assert (rounds + [r])[|rounds|] == r;
  }

  // ---------------------------------------------------------------------
  // From difficulty to loops and pruning.

  /** `Mathf.Clamp01`: the value pulled into `[0, 1]`, unchanged when it
      is already there. */
  function Clamp01(value: real): (r: real)
    ensures 0.0 <= r <= 1.0
    ensures 0.0 <= value <= 1.0 ==> r == value
  {
    if value < 0.0 then 0.0 else if value > 1.0 then 1.0 else value
  }

  /** `n` is a nearest whole number to `x`, and the even one when `x` lies
      halfway between two. */
  predicate NearestEven(x: real, n: int) {
    -0.5 <= x - n as real <= 0.5 &&
    ((x - n as real == 0.5 || x - n as real == -0.5) ==> n % 2 == 0)
  }

  /** `Mathf.RoundToInt`: rounds to the nearest whole number, halves going
      to the even neighbour. */
  function RoundToInt(x: real): (n: int)
    ensures NearestEven(x, n)
  {
    var f := x.Floor;
    var frac := x - f as real;
    if frac < 0.5 then f
    else if frac > 0.5 then f + 1
    else if f % 2 == 0 then f
    else f + 1
  }

  /** No other whole number is nearest-even to `x`. */
  lemma RoundToIntUnique(x: real, n: int)
    requires NearestEven(x, n)
    ensures n == RoundToInt(x)
  {
    var m := RoundToInt(x);
    assert -1 <= n - m <= 1;
  }

  /** Rounding never reverses order. */
  lemma RoundToIntMonotone(x: real, y: real)
    requires x <= y
    ensures RoundToInt(x) <= RoundToInt(y)
  {
    var a, b := RoundToInt(x), RoundToInt(y);
    assert a as real <= x + 0.5 && y - 0.5 <= b as real;
    if x == y {
    } else {
      assert (a - b) as real < 1.0;
    }
  }

  /** The number of inner walls of a `w × h` maze, counted from both
      sides: `(w - 1) h` East walls and `(h - 1) w` North walls. */
  function PotentialExtraLoops(w: int, h: int): int {
    (w - 1) * h + (h - 1) * w
  }

  /** A quarter of `walls`, scaled by `difficulty`: the loop openings
      asked for before rounding. */
  function LoopShare(difficulty: real, walls: int): real {
    difficulty * walls as real * 0.25
  }

  /** The share lies between none and a quarter of the walls, and grows
      with the difficulty. */
  lemma LoopShareBounds(d1: real, d2: real, walls: int)
    requires 0.0 <= d1 <= d2 <= 1.0 && walls >= 0
    ensures 0.0 <= LoopShare(d1, walls) <= LoopShare(d2, walls) <= walls as real * 0.25
  {
    var n := walls as real;
    assert (d2 - d1) * n >= 0.0;
    assert (1.0 - d2) * n >= 0.0;
    assert d1 * n >= 0.0;
  }

  /** How many loop openings a clamped `difficulty` asks for: a quarter of
      the inner walls at difficulty `1`, rounded.  None at difficulty `0`,
      and never more than there are inner walls. */
  function ExtraConnections(difficulty: real, w: int, h: int): (n: int)
    requires 0.0 <= difficulty <= 1.0 && w > 0 && h > 0
    ensures 0 <= n <= PotentialExtraLoops(w, h)
    ensures difficulty == 0.0 ==> n == 0
  {
    assert (w - 1) * h >= 0 && (h - 1) * w >= 0;
    LoopShareBounds(difficulty, difficulty, PotentialExtraLoops(w, h));
    RoundToInt(LoopShare(difficulty, PotentialExtraLoops(w, h)))
  }

  /** A harder maze never asks for fewer loop openings. */
  lemma ExtraConnectionsMonotone(d1: real, d2: real, w: int, h: int)
    requires 0.0 <= d1 <= d2 <= 1.0 && w > 0 && h > 0
    ensures ExtraConnections(d1, w, h) <= ExtraConnections(d2, w, h)
  {
    var walls := PotentialExtraLoops(w, h);
    assert (w - 1) * h >= 0 && (h - 1) * w >= 0;
    LoopShareBounds(d1, d2, walls);
    RoundToIntMonotone(LoopShare(d1, walls), LoopShare(d2, walls));
  }

  /** The dead-end pass runs below difficulty `0.3`, with a probability
      that falls from `0.6` at difficulty `0` towards `0` at `0.3`. */
  function PruneProbability(difficulty: real): (p: real)
    requires 0.0 <= difficulty < 0.3
    ensures 0.0 < p <= 0.6
  {
    (0.3 - difficulty) * 2.0
  }

  // ---------------------------------------------------------------------
  // The generator.

  /** `Generate`: an empty array for a non-positive size; otherwise every
      wall up, the depth-first carve from a random start, the loop
      openings the clamped difficulty asks for, and below difficulty `0.3`
      the dead-end pass.  The maze that comes out is sound (both sides of
      every wall agree and the boundary is closed) and connected. */
  method Generate(cellWidth: int, cellHeight: int, rng: Rng, difficulty: real)
    returns (grid: array2<Mask>)
    modifies rng
    ensures fresh(grid)
    ensures cellWidth <= 0 || cellHeight <= 0 ==> grid.Length0 == 0 && grid.Length1 == 0
    ensures cellWidth > 0 && cellHeight > 0 ==>
      grid.Length0 == cellWidth && grid.Length1 == cellHeight &&
      Sound(cellWidth, cellHeight, WallsOf(grid)) && Connected(WallsOf(grid))
    ensures cellWidth > 0 && cellHeight > 0 ==> cellWidth * cellHeight - 1 <= |OpenInner(WallsOf(grid))|
    ensures cellWidth > 0 && cellHeight > 0 && Clamp01(difficulty) >= 0.3 ==>
      |OpenInner(WallsOf(grid))| <= cellWidth * cellHeight - 1 + ExtraConnections(Clamp01(difficulty), cellWidth, cellHeight)
  {
    if cellWidth <= 0 || cellHeight <= 0 {
      grid := new Mask[0, 0];
    } else {
      var d := Clamp01(difficulty);
      grid := new Mask[cellWidth, cellHeight];
      FillAllWalls(grid);
      ghost var seen := CarvePerfect(grid, rng);
      ghost var carvedBoard := WallsOf(grid);
      ghost var rounds := AddLoops(grid, rng, ExtraConnections(d, cellWidth, cellHeight));
      ghost var loopedBoard := WallsOf(grid);
      OpenInnerGrows(loopedBoard, carvedBoard);
      if d < 0.3 {
        ghost var boards, passes := PruneDeadEnds(grid, rng, PruneProbability(d));
        OpenInnerGrows(WallsOf(grid), loopedBoard);
      }
    }
  }
}
