/** Reading a path back out of a BFS parent table (`BFS.ReconstructPath`):
    follow the parents from the destination until the start is met, then
    reverse. */
module BfsPath {
  import opened Geometry
  import opened Walks
  import opened Bfs

  /** `w` leads from `start` to `end` along parent links: every cell of it is
      in the table, each cell after the first has the one before it as
      parent, and only the first cell is the start. */
  ghost predicate ParentPath(par: map<Pos, Pos>, w: seq<Pos>, start: Pos, end: Pos) {
    |w| > 0 && w[0] == start && w[|w| - 1] == end &&
    (forall i :: 0 <= i < |w| ==> w[i] in par) &&
    (forall i :: 0 < i < |w| ==> par[w[i]] == w[i - 1] && w[i] != start)
  }

  /** Parent links stay inside the table and strictly decrease `rank`, so
      following them from any cell reaches the sentinel after finitely many
      steps. */
  ghost predicate Ranked(par: map<Pos, Pos>, rank: map<Pos, nat>) {
    par.Keys <= rank.Keys &&
    forall p {:trigger par[p]} :: p in par && par[p] != NoParent ==> par[p] in par && rank[par[p]] < rank[p]
  }

  /** The sentinel is never a cell of a table. */
  lemma SentinelOffTable(parent: array2<Pos>)
    ensures NoParent !in TableMap(parent)
  {
  }

  /** A cell on a parent path that is not its start has its parent on the
      path too. */
  lemma StepBack(par: map<Pos, Pos>, w: seq<Pos>, start: Pos, end: Pos, current: Pos)
    requires ParentPath(par, w, start, end) && NoParent !in par
    requires current in w && current != start
    ensures current in par && par[current] in w && par[current] != NoParent
  {
    var j :| 0 <= j < |w| && w[j] == current;
    assert w[j - 1] in par;
  }

  /** The cells collected while walking back from `end`, followed by the
      start, read backwards form a parent path. */
  lemma CollectedPath(par: map<Pos, Pos>, built: seq<Pos>, start: Pos, end: Pos)
    requires |built| > 1 && built[0] == end && built[|built| - 1] == start
    requires forall i :: 0 <= i < |built| ==> built[i] in par
    requires forall i :: 0 < i < |built| ==> par[built[i - 1]] == built[i]
    requires forall i :: 0 <= i < |built| - 1 ==> built[i] != start
    ensures ParentPath(par, Reversed(built), start, end)
  {
    var w := Reversed(built);
    forall i | 0 < i < |w| ensures par[w[i]] == w[i - 1] && w[i] != start {
      assert w[i] == built[|built| - 1 - i] && w[i - 1] == built[|built| - 1 - (i - 1)];
    }
  }

  /** The state of the walk back: `built` holds the cells left behind,
      from `end` on, each the child of the next, none of them the start,
      and `current` is the parent of the last of them. */
  ghost predicate Collected(par: map<Pos, Pos>, built: seq<Pos>, start: Pos, end: Pos, current: Pos) {
    current in par &&
    (built == [] ==> current == end) &&
    (forall i :: 0 <= i < |built| ==> built[i] in par && built[i] != start) &&
    (built != [] ==> built[0] == end && par[built[|built| - 1]] == current) &&
    (forall i :: 0 < i < |built| ==> par[built[i - 1]] == built[i])
  }

  /** Every parent path from `start` to `end` passes through `current`. */
  ghost predicate OnEveryPath(par: map<Pos, Pos>, start: Pos, end: Pos, current: Pos) {
    forall w :: ParentPath(par, w, start, end) ==> current in w
  }

  /** One step of the walk back keeps `Collected`. */
  lemma CollectStep(par: map<Pos, Pos>, rank: map<Pos, nat>, built: seq<Pos>, start: Pos, end: Pos, current: Pos)
    requires Ranked(par, rank) && Collected(par, built, start, end, current)
    requires current != start && par[current] != NoParent
    ensures Collected(par, built + [current], start, end, par[current])
  {
    var b := built + [current];
    forall i | 0 < i < |b| ensures par[b[i - 1]] == b[i] {
      if i < |built| {
        assert b[i - 1] == built[i - 1] && b[i] == built[i];
      }
    }
  }

  /** Every parent path through a cell other than the start also passes
      through that cell's parent; when that parent is the sentinel, there is
      no parent path at all. */
  lemma PathsThroughParent(par: map<Pos, Pos>, start: Pos, end: Pos, current: Pos)
    requires NoParent !in par && current in par && current != start
    requires OnEveryPath(par, start, end, current)
    ensures OnEveryPath(par, start, end, par[current])
    ensures par[current] == NoParent ==> forall w :: !ParentPath(par, w, start, end)
  {
    forall w | ParentPath(par, w, start, end) ensures par[current] in w && par[current] != NoParent {
      StepBack(par, w, start, end, current);
    }
  }

  /** Walks the parent table back from `endPos`.  When the destination has
      the sentinel parent and is not the start, or the walk meets the
      sentinel before the start, the answer is the empty list; otherwise it
      is the path from the start to `endPos` along parent links.  The ghost
      `rank` only witnesses that the walk back terminates. */
  method ReconstructPath(parent: array2<Pos>, startPos: Pos, endPos: Pos, ghost rank: map<Pos, nat>)
    returns (path: seq<Pos>)
    requires InArray(parent, endPos)
    requires Ranked(TableMap(parent), rank)
    ensures path != [] ==> ParentPath(TableMap(parent), path, startPos, endPos)
    ensures path == [] ==> forall w :: !ParentPath(TableMap(parent), w, startPos, endPos)
    ensures endPos == startPos ==> path == [startPos]
  {
    ghost var par := TableMap(parent);
    SentinelOffTable(parent);
    assert OnEveryPath(par, startPos, endPos, endPos);
    if parent[endPos.x, endPos.y] == NoParent && endPos != startPos {
      PathsThroughParent(par, startPos, endPos, endPos);
      return [];
    }
    var built: seq<Pos> := [];
    var current := endPos;
    while current != startPos
      invariant Collected(par, built, startPos, endPos, current)
      invariant OnEveryPath(par, startPos, endPos, current)
      decreases rank[current]
    {
      PathsThroughParent(par, startPos, endPos, current);
      if parent[current.x, current.y] == NoParent {
        built := built + [current];
        return [];
      }
      CollectStep(par, rank, built, startPos, endPos, current);
      built := built + [current];
      current := parent[current.x, current.y];
    }
    built := built + [startPos];
    if |built| > 1 {
      CollectedPath(par, built, startPos, endPos);
    }
    path := Reversed(built);
  }

  // ---------------------------------------------------------------------
  // On the tables `SearchBFS` fills in.

  /** The distances of a BFS table, with `0` for unreached cells. */
  ghost function RankOf(dist: map<Pos, int>): (rank: map<Pos, nat>)
    ensures rank.Keys == dist.Keys
    ensures forall p :: p in dist && dist[p] >= 0 ==> rank[p] == dist[p]
  {
    map p | p in dist :: if dist[p] < 0 then 0 else dist[p]
  }

  /** A BFS parent table is ranked by its distances, so `ReconstructPath`
      may be called on it. */
  lemma BfsTableRanked(open: set<Pos>, start: Pos, dist: map<Pos, int>, par: map<Pos, Pos>)
    requires Links(open, start, dist, par)
    ensures Ranked(par, RankOf(dist))
  {
  }

  /** Every reached cell of a BFS table has a parent path from the start,
      so `ReconstructPath` does not answer the empty list for it. */
  lemma {:induction false} BfsPathExists(open: set<Pos>, start: Pos, dist: map<Pos, int>,
                                         par: map<Pos, Pos>, v: Pos) returns (w: seq<Pos>)
    requires Links(open, start, dist, par)
    requires v in dist && dist[v] != -1
    ensures ParentPath(par, w, start, v) && |w| == dist[v] + 1
    decreases dist[v]
  {
    if v == start {
      w := [start];
    } else {
      var u := BfsPathExists(open, start, dist, par, par[v]);
      w := u + [v];
      forall i | 0 < i < |w| ensures par[w[i]] == w[i - 1] && w[i] != start {
        if i < |u| {
          assert w[i] == u[i] && w[i - 1] == u[i - 1];
        }
      }
    }
  }

  /** On a BFS table every parent path, so every path `ReconstructPath`
      returns, is a walk through open cells whose length is the cell's
      distance plus one: a shortest walk from the start. */
  lemma {:induction false} BfsPathIsShortest(open: set<Pos>, start: Pos, dist: map<Pos, int>,
                                             par: map<Pos, Pos>, w: seq<Pos>, end: Pos)
    requires Links(open, start, dist, par) && NoParent !in par
    requires ParentPath(par, w, start, end)
    ensures IsWalkBetween(open, w, start, end)
    ensures dist[end] == |w| - 1
  {
    if |w| > 1 {
      var u := w[..|w| - 1];
      var prev := w[|w| - 2];
      assert ParentPath(par, u, start, prev);
      BfsPathIsShortest(open, start, dist, par, u, prev);
      assert par[end] == prev;
      assert dist[end] != -1;
      ExtendWalk(open, u, end);
      assert u + [end] == w;
    }
  }
}
