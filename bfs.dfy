/** Breadth-first search over the runtime grid (`PathFinding/BFS.cs`): a full
    distance field and parent table from one start cell, and the
    reconstruction of a path from the parent table. */
module Bfs {
  import opened Geometry
  import opened RuntimeGrid
  import opened Walks

  predicate InArray<T>(a: array2<T>, p: Pos) {
    0 <= p.x < a.Length0 && 0 <= p.y < a.Length1
  }

  /** The entry of a table at a cell inside it. */
  function At<T>(a: array2<T>, p: Pos): T
    requires InArray(a, p)
    reads a
  {
    a[p.x, p.y]
  }

  /** The result of one search: `Distance[r, c]` is the hop count from the
      start, `-1` when unreached; `Parent[r, c]` is the cell it was first
      reached from, `(-1, -1)` for the start and for unreached cells. */
  class BfsResult {
    const Distance: array2<int>
    const Parent: array2<Pos>

    constructor (distance: array2<int>, parent: array2<Pos>)
      ensures Distance == distance && Parent == parent
    {
      Distance := distance;
      Parent := parent;
    }

    /** The stored distance, or `-1` for a target outside the table (the same
        answer as for an unreached cell). */
    function GetDistanceTo(targetPos: Pos): (d: int)
      reads Distance
      ensures !InArray(Distance, targetPos) ==> d == -1
      ensures InArray(Distance, targetPos) ==> d == At(Distance, targetPos)
    {
      if 0 <= targetPos.x < Distance.Length0 && 0 <= targetPos.y < Distance.Length1 then
        Distance[targetPos.x, targetPos.y]
      else
        -1
    }
  }

  // ---------------------------------------------------------------------
  // The distance field as values: `dist` and `par` map every cell of the
  // grid to its table entry.

  /** Every reached cell other than the start is open and was reached from a
      4-adjacent reached cell one hop closer to the start; unreached cells
      keep `-1` and the sentinel parent. */
  ghost predicate Links(open: set<Pos>, start: Pos, dist: map<Pos, int>, par: map<Pos, Pos>) {
    start in dist && dist.Keys == par.Keys &&
    dist[start] == 0 && par[start] == NoParent &&
    (forall p :: p in dist ==> dist[p] >= -1) &&
    // triggered on `par[p]` only, so that the parent's own entry does not
    // start another round of instantiation
    (forall p {:trigger par[p]} :: p in dist ==>
      (dist[p] == -1 ==> par[p] == NoParent) &&
      (dist[p] != -1 && p != start ==>
        par[p] in dist && Adjacent(par[p], p) && p in open &&
        dist[par[p]] != -1 && dist[p] == dist[par[p]] + 1))
  }

  /** A cell has a distance exactly when it is reachable, and that distance is
      the least number of steps of any walk from the start. */
  ghost predicate Shortest(open: set<Pos>, start: Pos, dist: map<Pos, int>) {
    forall p :: p in dist ==>
      (dist[p] != -1 <==> Reachable(open, start, p)) &&
      (dist[p] != -1 ==> IsDistance(open, start, p, dist[p]))
  }

  /** The cells enqueued so far, in order: the start first, all open; exactly
      these cells have a distance, distances never decrease from one enqueued
      cell to the next, and the last one enqueued has the largest. */
  ghost predicate Queued(open: set<Pos>, start: Pos, dist: map<Pos, int>, order: seq<Pos>) {
    |order| > 0 && order[0] == start &&
    (forall i :: 0 <= i < |order| ==> order[i] in dist && order[i] in open) &&
    (forall p :: p in dist ==> (dist[p] != -1 <==> p in order)) &&
    (forall i {:trigger order[i - 1], order[i]} :: 0 < i < |order| ==> dist[order[i - 1]] <= dist[order[i]]) &&
    (forall i :: 0 <= i < |order| ==> dist[order[i]] <= dist[order[|order| - 1]])
  }

  /** The first `head` enqueued cells have been dequeued, and every open
      neighbour of each of them has a distance at most one more than its own. */
  ghost predicate Expanded(open: set<Pos>, dist: map<Pos, int>, order: seq<Pos>, head: int) {
    open <= dist.Keys && 0 <= head <= |order| &&
    (forall i :: 0 <= i < |order| ==> order[i] in dist) &&
    forall i, n {:trigger Adjacent(order[i], n)} :: 0 <= i < head && Adjacent(order[i], n) && n in open ==>
      dist[n] != -1 && dist[n] <= dist[order[i]] + 1
  }

  /** Every reached cell has a walk from the start as long as its distance. */
  lemma {:induction false} WalkFromParents(open: set<Pos>, start: Pos, dist: map<Pos, int>,
                                           par: map<Pos, Pos>, v: Pos) returns (w: seq<Pos>)
    requires Links(open, start, dist, par)
    requires v in dist && dist[v] != -1
    ensures IsWalkBetween(open, w, start, v) && |w| == dist[v] + 1
    decreases dist[v]
  {
    if v == start {
      w := [start];
    } else {
      var u := WalkFromParents(open, start, dist, par, par[v]);
      ExtendWalk(open, u, v);
      w := u + [v];
    }
  }

  /** Once every enqueued cell is expanded, every walk from the start stays on
      cells with a distance, and its k-th cell is at distance at most k. */
  lemma {:induction false} WalkBound(open: set<Pos>, start: Pos, dist: map<Pos, int>,
                                     order: seq<Pos>, w: seq<Pos>)
    requires Queued(open, start, dist, order)
    requires Expanded(open, dist, order, |order|)
    requires start in dist && dist[start] == 0
    requires IsWalk(open, w) && w[0] == start
    ensures w[|w| - 1] in dist && dist[w[|w| - 1]] != -1 && dist[w[|w| - 1]] <= |w| - 1
  {
    if |w| > 1 {
      PrefixIsWalk(open, w, |w| - 1);
      WalkBound(open, start, dist, order, w[..|w| - 1]);
      var a := w[|w| - 2];
      assert w[..|w| - 1][|w| - 2] == a;
      assert a in order;
      var i :| 0 <= i < |order| && order[i] == a;
      assert Adjacent(order[i], w[|w| - 1]) && w[|w| - 1] in open;
    }
  }

  /** When the queue is empty the field holds exact shortest distances. */
  lemma FinishedSearch(open: set<Pos>, start: Pos, dist: map<Pos, int>, par: map<Pos, Pos>, order: seq<Pos>)
    requires Queued(open, start, dist, order)
    requires Links(open, start, dist, par)
    requires Expanded(open, dist, order, |order|)
    ensures Shortest(open, start, dist)
  {
    forall p | p in dist
      ensures dist[p] != -1 <==> Reachable(open, start, p)
      ensures dist[p] != -1 ==> IsDistance(open, start, p, dist[p])
    {
      if dist[p] != -1 {
        var w := WalkFromParents(open, start, dist, par, p);
        forall u | IsWalkBetween(open, u, start, p) ensures dist[p] + 1 <= |u| {
          WalkBound(open, start, dist, order, u);
        }
      } else {
        forall u | IsWalkBetween(open, u, start, p) ensures false {
          WalkBound(open, start, dist, order, u);
        }
      }
    }
  }

  /** One newly reached neighbour `n` of the cell being expanded keeps the
      search's invariant: its parent links, its queue and its expanded prefix. */
  lemma VisitKeepsLinks(open: set<Pos>, start: Pos, dist: map<Pos, int>, par: map<Pos, Pos>,
                        current: Pos, n: Pos)
    requires Links(open, start, dist, par)
    requires current in dist && dist[current] != -1
    requires n in dist && n in open && Adjacent(current, n) && dist[n] == -1
    ensures Links(open, start, dist[n := dist[current] + 1], par[n := current])
  {
  }

  lemma VisitKeepsQueue(open: set<Pos>, start: Pos, dist: map<Pos, int>, order: seq<Pos>,
                        current: Pos, n: Pos)
    requires Queued(open, start, dist, order)
    requires current in dist && dist[current] >= 0
    requires dist[order[|order| - 1]] <= dist[current] + 1
    requires n in dist && n in open && dist[n] == -1
    ensures Queued(open, start, dist[n := dist[current] + 1], order + [n])
  {
    var dist', order' := dist[n := dist[current] + 1], order + [n];
    assert n !in order;
    assert forall i :: 0 <= i < |order| ==> order'[i] == order[i] && dist'[order[i]] == dist[order[i]];
    forall p | p in dist' ensures dist'[p] != -1 <==> p in order' {
      if p != n {
        assert p in order' <==> p in order;
      }
    }
    forall i | 0 < i < |order'| ensures dist'[order'[i - 1]] <= dist'[order'[i]] {
      if i < |order| {
        assert order'[i - 1] == order[i - 1] && order'[i] == order[i];
        QueueStep(open, start, dist, order, i);
      } else {
        assert order'[i - 1] == order[|order| - 1] && order[|order| - 1] in order;
      }
    }
  }

  lemma VisitKeepsExpanded(open: set<Pos>, start: Pos, dist: map<Pos, int>, order: seq<Pos>, head: int,
                           current: Pos, n: Pos)
    requires Queued(open, start, dist, order)
    requires Expanded(open, dist, order, head)
    requires n in dist && dist[n] == -1 && head <= |order|
    requires current in dist
    ensures Expanded(open, dist[n := dist[current] + 1], order + [n], head)
  {
    var dist', order' := dist[n := dist[current] + 1], order + [n];
    assert forall i :: 0 <= i < |order| ==> order'[i] == order[i];
    forall i, m | 0 <= i < head && Adjacent(order'[i], m) && m in open
      ensures dist'[m] != -1 && dist'[m] <= dist'[order'[i]] + 1
    {
      assert order'[i] == order[i] && order[i] != n;
      assert dist[m] != -1;
    }
  }

  /** The search's invariant while the queue holds `order[head..]`: parent
      links, queue order and the expanded prefix `order[..expanded]`. */
  ghost predicate Frontier(open: set<Pos>, start: Pos, dist: map<Pos, int>, par: map<Pos, Pos>,
                           order: seq<Pos>, expanded: int) {
    Links(open, start, dist, par) && Queued(open, start, dist, order) && Expanded(open, dist, order, expanded)
  }

  /** The open neighbour `n` of `p` has a distance at most one more than `p`'s. */
  ghost predicate Settled(open: set<Pos>, dist: map<Pos, int>, p: Pos, n: Pos) {
    n in open ==> p in dist && n in dist && dist[n] != -1 && dist[n] <= dist[p] + 1
  }

  /** The cells the search has not reached yet. */
  ghost function Unvisited(dist: map<Pos, int>): (cells: set<Pos>)
    ensures forall p :: p in cells <==> p in dist && dist[p] == -1
  {
    set p | p in dist && dist[p] == -1
  }

  /** The four neighbour steps in the order the search tries them. */
  const Directions: seq<Pos> := [Right, Left, Down, Up]

  /** The state right after the start cell is enqueued satisfies the
      invariant with nothing expanded. */
  lemma StartFrontier(open: set<Pos>, start: Pos, dist: map<Pos, int>, par: map<Pos, Pos>)
    requires start in open && open <= dist.Keys && dist.Keys == par.Keys
    requires forall p :: p in dist ==> dist[p] == if p == start then 0 else -1
    requires forall p :: p in par ==> par[p] == NoParent
    ensures Frontier(open, start, dist, par, [start], 0)
  {
  }

  /** Visiting the unreached open neighbour `n` of the cell being expanded
      keeps the invariant. */
  lemma VisitKeepsFrontier(open: set<Pos>, start: Pos, dist: map<Pos, int>, par: map<Pos, Pos>,
                           order: seq<Pos>, head: int, current: Pos, n: Pos,
                           dist': map<Pos, int>, par': map<Pos, Pos>, order': seq<Pos>)
    requires Frontier(open, start, dist, par, order, head - 1)
    requires 0 < head <= |order| && order[head - 1] == current
    requires dist[order[|order| - 1]] <= dist[current] + 1
    requires n in dist && n in open && Adjacent(current, n) && dist[n] == -1
    requires dist' == dist[n := dist[current] + 1] && par' == par[n := current] && order' == order + [n]
    ensures Frontier(open, start, dist', par', order', head - 1)
    ensures |Unvisited(dist')| < |Unvisited(dist)|
  {
    assert current in order;
    VisitKeepsLinks(open, start, dist, par, current, n);
    VisitKeepsQueue(open, start, dist, order, current, n);
    VisitKeepsExpanded(open, start, dist, order, head - 1, current, n);
    assert Unvisited(dist') == Unvisited(dist) - {n};
  }

  /** Settling the four cells one step away settles every 4-adjacent cell. */
  lemma AllSettled(open: set<Pos>, dist: map<Pos, int>, p: Pos)
    requires forall j :: 0 <= j < 4 ==> Settled(open, dist, p, Add(p, Directions[j]))
    ensures forall n :: Adjacent(p, n) ==> Settled(open, dist, p, n)
  {
    assert Settled(open, dist, p, Add(p, Directions[0]));
    assert Settled(open, dist, p, Add(p, Directions[1]));
    assert Settled(open, dist, p, Add(p, Directions[2]));
    assert Settled(open, dist, p, Add(p, Directions[3]));
  }

  /** Once every neighbour of `order[head - 1]` is settled, the expanded
      prefix grows by one. */
  lemma ExpandedNext(open: set<Pos>, dist: map<Pos, int>, order: seq<Pos>, head: int, current: Pos)
    requires Expanded(open, dist, order, head - 1) && 0 < head <= |order|
    requires order[head - 1] == current
    requires forall n :: Adjacent(current, n) ==> Settled(open, dist, current, n)
    ensures Expanded(open, dist, order, head)
  {
    forall i, n | 0 <= i < head && Adjacent(order[i], n) && n in open
      ensures dist[n] != -1 && dist[n] <= dist[order[i]] + 1
    {
      if i == head - 1 {
        assert Settled(open, dist, current, n);
      }
    }
  }

  /** The cell dequeued next is no closer than the one just expanded. */
  lemma QueueStep(open: set<Pos>, start: Pos, dist: map<Pos, int>, order: seq<Pos>, head: int)
    requires Queued(open, start, dist, order) && 0 < head < |order|
    ensures dist[order[head - 1]] <= dist[order[head]]
  {
    assert Queued(open, start, dist, order);
  }

  /** All cells of a table. */
  ghost function CellsOf<T>(a: array2<T>): (cells: set<Pos>)
    ensures forall p :: p in cells <==> InArray(a, p)
  {
    var cells := set r, c | 0 <= r < a.Length0 && 0 <= c < a.Length1 :: Pos(r, c);
    assert forall p: Pos :: InArray(a, p) ==> p in cells by {
      forall p: Pos | InArray(a, p) ensures p in cells {
        assert p == Pos(p.x, p.y);
      }
    }
    cells
  }

  /** A table (distances or parents) as a map from cells to entries. */
  ghost function TableMap<T>(table: array2<T>): (m: map<Pos, T>)
    reads table
    ensures forall p :: p in m <==> InArray(table, p)
    ensures forall p :: p in m ==> m[p] == At(table, p)
  {
    map p | p in CellsOf(table) :: At(table, p)
  }

  /** The three tables hold exactly the entries of the maps; a cell is marked
      visited exactly when it has a distance. */
  ghost predicate Mirrors(distance: array2<int>, parent: array2<Pos>, visited: array2<bool>,
                          dist: map<Pos, int>, par: map<Pos, Pos>)
    reads distance, parent, visited
  {
    parent.Length0 == visited.Length0 == distance.Length0 &&
    parent.Length1 == visited.Length1 == distance.Length1 &&
    (forall p :: InArray(distance, p) <==> p in dist) && dist.Keys == par.Keys &&
    // triggered on the map entries only: an array entry read during the
    // search does not produce new map terms
    (forall p {:trigger dist[p]} :: p in dist ==> At(distance, p) == dist[p] && At(visited, p) == (dist[p] != -1)) &&
    (forall p {:trigger par[p]} :: p in par ==> At(parent, p) == par[p])
  }


  // The search as values.  `SearchBFS` below is proved to compute exactly
  // `Run`, one loop iteration per `Step`; the invariant `Inv` is proved about
  // `Run` alone, away from the tables.

  /** The distance and parent fields, every cell enqueued so far in order,
      and how many of those were dequeued: the queue is `order[head..]`. */
  datatype Search<Cell> = Search(dist: map<Cell, int>, par: map<Cell, Cell>, order: seq<Cell>, head: nat)

  /** The state right after the start is enqueued: every cell of `cells`
      unreached with the sentinel parent, except the start at distance 0. */
  function Begin(cells: set<Pos>, start: Pos): (s: Search<Pos>)
    ensures s.dist.Keys == s.par.Keys == cells && s.order == [start] && s.head == 0
  {
    Search(map p | p in cells :: if p == start then 0 else -1, map p | p in cells :: NoParent, [start], 0)
  }

  /** One neighbour `n` of the cell being expanded: when it is open and not
      reached yet it gets a distance one more than the cell's, the cell as
      parent, and joins the back of the queue; otherwise nothing changes. */
  function Visit(open: set<Pos>, s: Search<Pos>, current: Pos, n: Pos): (r: Search<Pos>)
  {
    if n in open && n in s.dist && s.dist[n] == -1 && current in s.dist then
      Search(s.dist[n := s.dist[current] + 1], s.par[n := current], s.order + [n], s.head)
    else
      s
  }

  /** The first `i` of the four neighbours of `current`, visited in the
      order of `Directions`. */
  function ExpandFrom(open: set<Pos>, s: Search<Pos>, current: Pos, i: nat): (r: Search<Pos>)
    requires i <= 4
  {
    if i == 0 then s else Visit(open, ExpandFrom(open, s, current, i - 1), current, Add(current, Directions[i - 1]))
  }

  /** One iteration of the search loop: dequeue the front cell and visit its
      four neighbours. */
  function Step(open: set<Pos>, s: Search<Pos>): (r: Search<Pos>)
    requires s.head < |s.order|
  {
    ExpandFrom(open, s.(head := s.head + 1), s.order[s.head], 4)
  }

  /** `k` iterations of the search loop, or fewer if the queue empties. */
  function Run(open: set<Pos>, s: Search<Pos>, k: nat): (r: Search<Pos>)
  {
    if k == 0 then s
    else
      var t := Run(open, s, k - 1);
      if t.head < |t.order| then Step(open, t) else t
  }

  /** The loop invariant of the search: parent links, queue order, every
      dequeued cell expanded, and the queue spanning at most two distances. */
  ghost predicate Inv(open: set<Pos>, start: Pos, s: Search<Pos>) {
    Frontier(open, start, s.dist, s.par, s.order, s.head) &&
    (s.head < |s.order| ==> s.dist[s.order[|s.order| - 1]] <= s.dist[s.order[s.head]] + 1)
  }

  lemma BeginInv(open: set<Pos>, cells: set<Pos>, start: Pos)
    requires start in open && open <= cells
    ensures Inv(open, start, Begin(cells, start))
  {
    var s := Begin(cells, start);
    StartFrontier(open, start, s.dist, s.par);
  }

  /** Each of the four directions leads to a 4-adjacent cell. */
  lemma DirectionIsStep(p: Pos, i: int)
    requires 0 <= i < 4
    ensures Adjacent(p, Add(p, Directions[i]))
  {
    assert Directions[i] in {Right, Left, Down, Up};
  }

  /** The invariant part-way through expanding `current`, the cell just
      dequeued: it is not yet counted as expanded, and the back of the queue
      is at most one further than it. */
  ghost predicate Midway(open: set<Pos>, start: Pos, s: Search<Pos>, current: Pos) {
    0 < s.head <= |s.order| && s.order[s.head - 1] == current &&
    Frontier(open, start, s.dist, s.par, s.order, s.head - 1) &&
    s.dist[s.order[|s.order| - 1]] <= s.dist[current] + 1
  }

  // Invariants below are stated as `P(...) == true` where they are passed
  // whole from one lemma to the next: the verifier then keeps them as one
  // fact instead of re-proving each of their clauses at every call.

  /** Visiting one neighbour `n` of the cell being expanded keeps the
      invariant. */
  lemma VisitKeeps(open: set<Pos>, start: Pos, t: Search<Pos>, current: Pos, n: Pos)
    requires Midway(open, start, t, current) == true && Adjacent(current, n)
    requires n in open && n in t.dist && t.dist[n] == -1
    ensures Midway(open, start, Visit(open, t, current, n), current) == true
  {
    var r := Visit(open, t, current, n);
    VisitKeepsFrontier(open, start, t.dist, t.par, t.order, t.head, current, n, r.dist, r.par, r.order);
  }

  /** Every open cell has a field entry, and every reached cell is at most
      one further than `p`. */
  ghost predicate Bounded(open: set<Pos>, dist: map<Pos, int>, p: Pos) {
    open <= dist.Keys && p in dist && dist[p] >= 0 && forall m :: m in dist && dist[m] != -1 ==> dist[m] <= dist[p] + 1
  }

  /** Part-way through expanding `current`, no reached cell is more than
      one further than it, since the queue is ordered by distance. */
  lemma MidwayBounded(open: set<Pos>, start: Pos, s: Search<Pos>, current: Pos)
    requires Midway(open, start, s, current) == true
    ensures Bounded(open, s.dist, current)
  {
    assert current in s.order;
    assert Expanded(open, s.dist, s.order, s.head - 1);
    forall m | m in s.dist && s.dist[m] != -1 ensures s.dist[m] <= s.dist[current] + 1 {
      assert m in s.order;
    }
  }

  /** Visiting `n` settles it, and every neighbour settled before stays
      settled. */
  lemma VisitSettles(open: set<Pos>, t: Search<Pos>, current: Pos, n: Pos)
    requires Bounded(open, t.dist, current)
    ensures var r := Visit(open, t, current, n);
      Bounded(open, r.dist, current) && Settled(open, r.dist, current, n) &&
      forall m :: Settled(open, t.dist, current, m) ==> Settled(open, r.dist, current, m)
  {
  }

  /** Visiting the first `i` neighbours keeps the invariant. */
  lemma {:induction false} ExpandFromKeeps(open: set<Pos>, start: Pos, s: Search<Pos>, current: Pos, i: nat)
    requires Midway(open, start, s, current) == true && i <= 4
    ensures Midway(open, start, ExpandFrom(open, s, current, i), current) == true
  {
    if i > 0 {
      ExpandFromKeeps(open, start, s, current, i - 1);
      DirectionIsStep(current, i - 1);
      var t, n := ExpandFrom(open, s, current, i - 1), Add(current, Directions[i - 1]);
      if n in open && n in t.dist && t.dist[n] == -1 {
        VisitKeeps(open, start, t, current, n);
      }
    }
  }

  /** Visiting the first `i` neighbours settles each of them. */
  lemma {:induction false} ExpandFromSettles(open: set<Pos>, s: Search<Pos>, current: Pos, i: nat)
    requires Bounded(open, s.dist, current) && i <= 4
    ensures var r := ExpandFrom(open, s, current, i);
      Bounded(open, r.dist, current) &&
      forall j :: 0 <= j < i ==> Settled(open, r.dist, current, Add(current, Directions[j]))
  {
    if i > 0 {
      var t := ExpandFrom(open, s, current, i - 1);
      var r := ExpandFrom(open, s, current, i);
      ExpandFromSettles(open, s, current, i - 1);
      VisitSettles(open, t, current, Add(current, Directions[i - 1]));
      forall j | 0 <= j < i ensures Settled(open, r.dist, current, Add(current, Directions[j])) {
        if j < i - 1 {
          assert Settled(open, t.dist, current, Add(current, Directions[j]));
        }
      }
    }
  }

  /** Dequeuing the front cell starts its expansion. */
  lemma DequeueMidway(open: set<Pos>, start: Pos, s: Search<Pos>)
    requires Inv(open, start, s) && s.head < |s.order|
    ensures Midway(open, start, s.(head := s.head + 1), s.order[s.head]) == true
  {
  }

  /** Once every neighbour of the cell being expanded is settled, the
      invariant holds again with that cell expanded. */
  lemma MidwayDone(open: set<Pos>, start: Pos, r: Search<Pos>, current: Pos)
    requires Midway(open, start, r, current) == true
    requires forall n :: Adjacent(current, n) ==> Settled(open, r.dist, current, n)
    ensures Inv(open, start, r) == true
  {
    ExpandedNext(open, r.dist, r.order, r.head, current);
    if r.head < |r.order| {
      QueueStep(open, start, r.dist, r.order, r.head);
    }
  }

  /** Expanding `current` fully keeps the invariant and settles all its
      neighbours. */
  lemma ExpandAll(open: set<Pos>, start: Pos, s: Search<Pos>, current: Pos)
    requires Midway(open, start, s, current) == true
    ensures var r := ExpandFrom(open, s, current, 4);
      Midway(open, start, r, current) == true &&
      forall n :: Adjacent(current, n) ==> Settled(open, r.dist, current, n)
  {
    ExpandFromKeeps(open, start, s, current, 4);
    MidwayBounded(open, start, s, current);
    ExpandFromSettles(open, s, current, 4);
    AllSettled(open, ExpandFrom(open, s, current, 4).dist, current);
  }

  /** One loop iteration expands the dequeued cell fully. */
  lemma StepSettles(open: set<Pos>, start: Pos, s: Search<Pos>)
    requires Inv(open, start, s) == true && s.head < |s.order|
    ensures var r := Step(open, s);
      Midway(open, start, r, s.order[s.head]) == true &&
      forall n :: Adjacent(s.order[s.head], n) ==> Settled(open, r.dist, s.order[s.head], n)
  {
    DequeueMidway(open, start, s);
    ExpandAll(open, start, s.(head := s.head + 1), s.order[s.head]);
  }

  /** One loop iteration keeps the invariant. */
  lemma StepKeepsInv(open: set<Pos>, start: Pos, s: Search<Pos>)
    requires Inv(open, start, s) == true && s.head < |s.order|
    ensures Inv(open, start, Step(open, s)) == true
  {
    StepSettles(open, start, s);
    MidwayDone(open, start, Step(open, s), s.order[s.head]);
  }

  /** A property of search states that holds at the start and that one loop
      iteration keeps holds after any number of iterations. */
  lemma {:induction false} RunPreserves(open: set<Pos>, P: Search<Pos> -> bool, s: Search<Pos>, k: nat)
    requires P(s)
    requires forall t :: P(t) && t.head < |t.order| ==> P(Step(open, t))
    ensures P(Run(open, s, k))
  {
    if k > 0 {
      RunPreserves(open, P, s, k - 1);
    }
  }

  /** Every state the loop passes through satisfies the invariant. */
  lemma RunKeepsInv(open: set<Pos>, start: Pos, s: Search<Pos>, k: nat)
    requires Inv(open, start, s)
    ensures Inv(open, start, Run(open, s, k))
  {
    forall t | Inv(open, start, t) && t.head < |t.order| ensures Inv(open, start, Step(open, t)) {
      StepKeepsInv(open, start, t);
    }
    RunPreserves(open, t => Inv(open, start, t), s, k);
  }

  /** Visiting neighbours either changes nothing in the field and the order,
      or reaches at least one more cell. */
  lemma {:induction false} ExpandFromProgress(open: set<Pos>, s: Search<Pos>, current: Pos, i: nat)
    requires current in s.dist && s.dist[current] >= 0 && i <= 4
    ensures var r := ExpandFrom(open, s, current, i);
      r.dist.Keys == s.dist.Keys && r.dist[current] == s.dist[current] &&
      r.head == s.head && |s.order| <= |r.order| &&
      |Unvisited(r.dist)| <= |Unvisited(s.dist)| &&
      ((r.dist == s.dist && r.order == s.order) || |Unvisited(r.dist)| < |Unvisited(s.dist)|)
  {
    if i > 0 {
      ExpandFromProgress(open, s, current, i - 1);
      var t := ExpandFrom(open, s, current, i - 1);
      var n := Add(current, Directions[i - 1]);
      if n in open && n in t.dist && t.dist[n] == -1 {
        assert Unvisited(Visit(open, t, current, n).dist) == Unvisited(t.dist) - {n};
      }
    }
  }

  /** One loop iteration reaches at least one new cell, or else leaves the
      field alone and shortens the queue. */
  lemma StepProgress(open: set<Pos>, s: Search<Pos>)
    requires s.head < |s.order| && s.order[s.head] in s.dist && s.dist[s.order[s.head]] >= 0
    ensures var r := Step(open, s);
      r.head == s.head + 1 && r.head <= |r.order| &&
      (|Unvisited(r.dist)| < |Unvisited(s.dist)| ||
       (|Unvisited(r.dist)| == |Unvisited(s.dist)| && |r.order| - r.head < |s.order| - s.head))
  {
    ExpandFromProgress(open, s.(head := s.head + 1), s.order[s.head], 4);
  }

  /** In every state the loop reaches, the cell at the front of the queue
      has a distance. */
  lemma FrontReached(open: set<Pos>, cells: set<Pos>, start: Pos, k: nat)
    requires start in open && open <= cells
    ensures var s := Run(open, Begin(cells, start), k);
      s.head < |s.order| ==> s.order[s.head] in s.dist && s.dist[s.order[s.head]] >= 0
  {
    BeginInv(open, cells, start);
    RunKeepsInv(open, start, Begin(cells, start), k);
    var s := Run(open, Begin(cells, start), k);
    if s.head < |s.order| {
      assert s.order[s.head] in s.order;
    }
  }

  /** When the queue is empty, the field holds exact shortest distances,
      each reached cell's parent is one hop closer, and unreached cells keep
      `-1` and the sentinel. */
  lemma RunFinished(open: set<Pos>, cells: set<Pos>, start: Pos, k: nat)
    requires start in open && open <= cells
    requires Run(open, Begin(cells, start), k).head == |Run(open, Begin(cells, start), k).order|
    ensures var s := Run(open, Begin(cells, start), k);
      Links(open, start, s.dist, s.par) && Shortest(open, start, s.dist)
  {
    BeginInv(open, cells, start);
    RunKeepsInv(open, start, Begin(cells, start), k);
    var s := Run(open, Begin(cells, start), k);
    FinishedSearch(open, start, s.dist, s.par, s.order);
  }

  // ---------------------------------------------------------------------
  // The search on the tables.  Each method is proved to compute the
  // corresponding step of the search as values above.

  /** Fresh tables of the given size with every distance `-1`, every parent
      the sentinel and no cell visited. */
  method NewTables(rowCount: nat, colCount: nat) returns (distance: array2<int>, parent: array2<Pos>, visited: array2<bool>)
    ensures fresh(distance) && fresh(parent) && fresh(visited)
    ensures distance.Length0 == parent.Length0 == visited.Length0 == rowCount
    ensures distance.Length1 == parent.Length1 == visited.Length1 == colCount
    ensures forall p :: InArray(distance, p) ==>
      At(distance, p) == -1 && At(parent, p) == NoParent && !At(visited, p)
  {
    distance := new int[rowCount, colCount];
    parent := new Pos[rowCount, colCount];
    visited := new bool[rowCount, colCount];
    for r := 0 to rowCount
      invariant forall i, j :: 0 <= i < r && 0 <= j < colCount ==>
        distance[i, j] == -1 && !visited[i, j] && parent[i, j] == NoParent
    {
      for c := 0 to colCount
        invariant forall i, j :: 0 <= i < r && 0 <= j < colCount ==>
          distance[i, j] == -1 && !visited[i, j] && parent[i, j] == NoParent
        invariant forall j :: 0 <= j < c ==>
          distance[r, j] == -1 && !visited[r, j] && parent[r, j] == NoParent
      {
        distance[r, c] := -1;
        visited[r, c] := false;
        parent[r, c] := NoParent;
      }
    }
  }

  /** Marks the start cell visited at distance 0 in fresh tables (its parent
      keeps the sentinel): the tables then hold the search's first state. */
  method MarkStart(distance: array2<int>, parent: array2<Pos>, visited: array2<bool>, startPos: Pos)
    modifies distance, visited
    requires parent.Length0 == visited.Length0 == distance.Length0
    requires parent.Length1 == visited.Length1 == distance.Length1
    requires InArray(distance, startPos)
    requires forall p :: InArray(distance, p) ==>
      At(distance, p) == -1 && At(parent, p) == NoParent && !At(visited, p)
    ensures var s := Begin(CellsOf(distance), startPos); Mirrors(distance, parent, visited, s.dist, s.par)
  {
    ghost var s := Begin(CellsOf(distance), startPos);
    distance[startPos.x, startPos.y] := 0;
    visited[startPos.x, startPos.y] := true;
    forall p | p in s.dist && p != startPos
      ensures At(distance, p) == s.dist[p] && At(visited, p) == (s.dist[p] != -1)
    {
      assert At(distance, p) == old(At(distance, p));
      assert At(visited, p) == old(At(visited, p));
    }
  }

  /** The maps the tables mirror are the tables' own maps. */
  lemma MirroredMaps(distance: array2<int>, parent: array2<Pos>, visited: array2<bool>,
                     dist: map<Pos, int>, par: map<Pos, Pos>)
    requires Mirrors(distance, parent, visited, dist, par)
    ensures TableMap(distance) == dist && TableMap(parent) == par
  {
  }

  /** Marks `n` visited in the tables, with distance `d` and parent `from`. */
  method RecordVisit(distance: array2<int>, parent: array2<Pos>, visited: array2<bool>,
                     n: Pos, d: int, from: Pos, ghost dist: map<Pos, int>, ghost par: map<Pos, Pos>)
    modifies distance, parent, visited
    requires Mirrors(distance, parent, visited, dist, par)
    requires n in dist && d >= 0
    ensures Mirrors(distance, parent, visited, dist[n := d], par[n := from])
  {
    visited[n.x, n.y] := true;
    distance[n.x, n.y] := d;
    parent[n.x, n.y] := from;
    forall p | p in dist && p != n
      ensures At(distance, p) == dist[p] && At(visited, p) == (dist[p] != -1)
    {
      assert At(distance, p) == old(At(distance, p));
      assert At(visited, p) == old(At(visited, p));
    }
    forall p | p in par && p != n
      ensures At(parent, p) == par[p]
    {
      assert At(parent, p) == old(At(parent, p));
    }
  }

  /** The tables cover the grid, and the grid's flags are not the visited
      table. */
  ghost predicate OnGrid(grid: MazeRuntimeGrid, distance: array2<int>, visited: array2<bool>)
    reads grid
  {
    grid.maze != null && grid.maze != visited &&
    distance.Length0 == grid.maze.Length0 && distance.Length1 == grid.maze.Length1
  }

  /** Visits one neighbour of the cell being expanded: an open, unvisited
      neighbour is marked visited, gets a distance one more than the cell's
      and the cell as parent, and joins the back of the queue; any other
      neighbour changes nothing.  The ghost `s` is the search before the
      visit, `s'` after it. */
  method VisitNeighbour(grid: MazeRuntimeGrid, distance: array2<int>, parent: array2<Pos>, visited: array2<bool>,
                        currentPos: Pos, neighborPos: Pos, queue: seq<Pos>,
                        ghost open: set<Pos>, ghost s: Search<Pos>)
    returns (queue': seq<Pos>, ghost s': Search<Pos>)
    modifies distance, parent, visited
    requires OnGrid(grid, distance, visited) && open == grid.OpenCells()
    requires Mirrors(distance, parent, visited, s.dist, s.par)
    requires currentPos in s.dist && s.dist[currentPos] >= 0
    requires s.head <= |s.order| && queue == s.order[s.head..]
    ensures s' == Visit(open, s, currentPos, neighborPos)
    ensures Mirrors(distance, parent, visited, s'.dist, s'.par)
    ensures s'.head <= |s'.order| && queue' == s'.order[s'.head..]
    ensures currentPos in s'.dist && s'.dist[currentPos] == s.dist[currentPos]
    ensures open == grid.OpenCells()
  {
    queue', s' := queue, s;
    if !grid.HasWall(neighborPos) && !visited[neighborPos.x, neighborPos.y] {
      assert At(visited, neighborPos) == (s.dist[neighborPos] != -1);
      assert At(distance, currentPos) == s.dist[currentPos];
      RecordVisit(distance, parent, visited, neighborPos, distance[currentPos.x, currentPos.y] + 1, currentPos,
                  s.dist, s.par);
      queue' := queue + [neighborPos];
      s' := Search(s.dist[neighborPos := s.dist[currentPos] + 1], s.par[neighborPos := currentPos],
                   s.order + [neighborPos], s.head);
    } else if neighborPos in open {
      assert At(visited, neighborPos) == (s.dist[neighborPos] != -1);
    }
  }

  /** One iteration of the search loop: dequeues the front cell and visits
      its four neighbours in the order of `Directions`. */
  method ProcessNext(grid: MazeRuntimeGrid, distance: array2<int>, parent: array2<Pos>, visited: array2<bool>,
                     queue: seq<Pos>, ghost open: set<Pos>, ghost s: Search<Pos>)
    returns (queue': seq<Pos>, ghost s': Search<Pos>)
    modifies distance, parent, visited
    requires OnGrid(grid, distance, visited) && open == grid.OpenCells()
    requires Mirrors(distance, parent, visited, s.dist, s.par)
    requires s.head < |s.order| && queue == s.order[s.head..]
    requires s.order[s.head] in s.dist && s.dist[s.order[s.head]] >= 0
    ensures s' == Step(open, s)
    ensures Mirrors(distance, parent, visited, s'.dist, s'.par)
    ensures s'.head <= |s'.order| && queue' == s'.order[s'.head..]
    ensures open == grid.OpenCells()
  {
    var currentPos := queue[0];
    queue' := queue[1..];
    s' := s.(head := s.head + 1);
    ghost var s1 := s';
    for i := 0 to 4
      invariant open == grid.OpenCells()
      invariant s' == ExpandFrom(open, s1, currentPos, i)
      invariant Mirrors(distance, parent, visited, s'.dist, s'.par)
      invariant currentPos in s'.dist && s'.dist[currentPos] == s.dist[currentPos]
      invariant s'.head <= |s'.order| && queue' == s'.order[s'.head..]
    {
      queue', s' := VisitNeighbour(grid, distance, parent, visited, currentPos, Add(currentPos, Directions[i]),
                                   queue', open, s');
    }
  }

  /** The search proper, on tables just initialised: marks the start,
      then dequeues and expands cells until the queue is empty.  Afterwards
      the distance table holds, for every cell, the least number of steps of
      a walk from the start through open cells, or `-1` when there is none,
      and every reached cell other than the start has as parent a 4-adjacent
      cell one step closer. */
  method Flood(grid: MazeRuntimeGrid, distance: array2<int>, parent: array2<Pos>, visited: array2<bool>,
               startPos: Pos)
    modifies distance, visited, parent
    requires OnGrid(grid, distance, visited) && !grid.HasWall(startPos)
    requires parent.Length0 == visited.Length0 == distance.Length0
    requires parent.Length1 == visited.Length1 == distance.Length1
    requires forall p :: InArray(distance, p) ==>
      At(distance, p) == -1 && At(parent, p) == NoParent && !At(visited, p)
    ensures Links(grid.OpenCells(), startPos, TableMap(distance), TableMap(parent))
    ensures Shortest(grid.OpenCells(), startPos, TableMap(distance))
  {
    ghost var open := grid.OpenCells();
    ghost var cells := CellsOf(distance);
    forall p | p in open ensures p in cells {
      assert !grid.HasWall(p);
    }
    MarkStart(distance, parent, visited, startPos);
    var queue := [startPos];
    ghost var s0 := Begin(cells, startPos);
    ghost var s := s0;
    ghost var k := 0;

    while |queue| > 0
      invariant open == grid.OpenCells()
      invariant s == Run(open, s0, k)
      invariant Mirrors(distance, parent, visited, s.dist, s.par)
      invariant s.head <= |s.order| && queue == s.order[s.head..]
      decreases |Unvisited(s.dist)|, |queue|
    {
      FrontReached(open, cells, startPos, k);
      StepProgress(open, s);
      queue, s := ProcessNext(grid, distance, parent, visited, queue, open, s);
      k := k + 1;
    }

    RunFinished(open, cells, startPos, k);
    MirroredMaps(distance, parent, visited, s.dist, s.par);
  }

  /** Breadth-first search from `(startR, startC)`.  A missing or empty grid
      gives empty tables; a start on a wall gives tables with every cell
      unreached; otherwise the tables are those `Flood` fills in. */
  method SearchBFS(grid: MazeRuntimeGrid?, startR: int, startC: int) returns (result: BfsResult)
    ensures fresh(result) && fresh(result.Distance) && fresh(result.Parent)
    ensures grid == null || grid.RowCount() == 0 ==>
      result.Distance.Length0 == result.Distance.Length1 == 0 &&
      result.Parent.Length0 == result.Parent.Length1 == 0
    ensures grid != null && grid.RowCount() > 0 ==>
      result.Distance.Length0 == result.Parent.Length0 == grid.RowCount() &&
      result.Distance.Length1 == result.Parent.Length1 == grid.ColCount()
    ensures grid != null && grid.RowCount() > 0 && grid.HasWall(Pos(startR, startC)) ==>
      forall p :: InArray(result.Distance, p) ==>
        At(result.Distance, p) == -1 && At(result.Parent, p) == NoParent
    ensures grid != null && grid.RowCount() > 0 && !grid.HasWall(Pos(startR, startC)) ==>
      Links(grid.OpenCells(), Pos(startR, startC), TableMap(result.Distance), TableMap(result.Parent)) &&
      Shortest(grid.OpenCells(), Pos(startR, startC), TableMap(result.Distance))
  {
    var startPos := Pos(startR, startC);
    if grid == null || grid.RowCount() == 0 {
      var noDistance := new int[0, 0];
      var noParent := new Pos[0, 0];
      result := new BfsResult(noDistance, noParent);
    } else {
      var distance, parent, visited := NewTables(grid.RowCount(), grid.ColCount());
      result := new BfsResult(distance, parent);
      if !grid.HasWall(startPos) {
        Flood(grid, distance, parent, visited, startPos);
      }
    }
  }

  /** Every cell a walk from an open start reaches lies inside the grid. */
  lemma ReachableInGrid(grid: MazeRuntimeGrid, start: Pos, t: Pos)
    requires !grid.HasWall(start)
    ensures Reachable(grid.OpenCells(), start, t) ==> grid.IsWithinBounds(t)
  {
    if Reachable(grid.OpenCells(), start, t) {
      var w :| IsWalkBetween(grid.OpenCells(), w, start, t);
      if |w| > 1 {
        assert w[|w| - 1] in grid.OpenCells();
      }
    }
  }

  /** What `GetDistanceTo` answers on the tables `SearchBFS` fills from an
      open start: a non-negative answer is the shortest distance from the
      start, and the answer is `-1` exactly when the target cannot be
      reached, which covers every target outside the grid. */
  lemma DistanceAnswer(grid: MazeRuntimeGrid, start: Pos, result: BfsResult, t: Pos)
    requires grid.RowCount() > 0 && !grid.HasWall(start)
    requires result.Distance.Length0 == grid.RowCount() && result.Distance.Length1 == grid.ColCount()
    requires Shortest(grid.OpenCells(), start, TableMap(result.Distance))
    ensures result.GetDistanceTo(t) >= 0 ==> IsDistance(grid.OpenCells(), start, t, result.GetDistanceTo(t))
    ensures result.GetDistanceTo(t) == -1 <==> !Reachable(grid.OpenCells(), start, t)
    ensures !grid.IsWithinBounds(t) ==> result.GetDistanceTo(t) == -1
  {
    ReachableInGrid(grid, start, t);
    if InArray(result.Distance, t) {
      assert t in TableMap(result.Distance);
    }
  }
}
