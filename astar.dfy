/** A* over the runtime grid with the Manhattan heuristic
    (`PathFinding/AStar.cs`): an open list scanned for the node of least
    `F = G + H` (ties to the least `H`), a closed set of positions, unit
    steps in the order up, down, left, right, and the path read back along
    parent links.

    Nodes are values.  The C# code updates an open node's fields in place;
    an open node is never the parent of another node (a node becomes a
    parent only once it has been taken off the open list), so replacing the
    list entry is the same update. */
module AStar {
  import opened Geometry
  import opened RuntimeGrid
  import opened Walks

  // ---------------------------------------------------------------------
  // The heuristic.

  /** `|a.x - b.x| + |a.y - b.y|`; zero exactly on the goal. */
  function GetManhattanDistance(a: Pos, b: Pos): (d: nat)
    ensures d == 0 <==> a == b
  {
    Abs(a.x - b.x) + Abs(a.y - b.y)
  }

  /** The heuristic is consistent: along a walk of k steps it drops by at
      most k, so it never overestimates the remaining walk. */
  lemma {:induction false} WalkLength(open: set<Pos>, w: seq<Pos>, goal: Pos)
    requires IsWalk(open, w)
    ensures GetManhattanDistance(w[0], goal) <= |w| - 1 + GetManhattanDistance(w[|w| - 1], goal)
  {
    if |w| > 1 {
      var v := w[..|w| - 1];
      PrefixIsWalk(open, w, |w| - 1);
      WalkLength(open, v, goal);
      assert Adjacent(v[|v| - 1], w[|w| - 1]);
      AdjacentAtUnitDistance(v[|v| - 1], w[|w| - 1]);
    }
  }

  // ---------------------------------------------------------------------
  // Nodes.

  /** `Parent` is the node this one was reached from, `None` for the start
      node. */
  datatype Node = Node(position: Pos, gCost: int, hCost: int, parent: Option<Node>)

  function FCost(n: Node): int {
    n.gCost + n.hCost
  }

  /** The start node as created: no costs set, no parent. */
  function StartNode(s: Pos): Node {
    Node(s, 0, 0, None)
  }

  /** Following parent links from `n` meets `root`. */
  predicate LeadsTo(n: Node, root: Node) {
    n == root || (n.parent.Some? && LeadsTo(n.parent.value, root))
  }

  /** The positions from `root` to `n` along parent links. */
  function ChainFrom(n: Node, root: Node): (c: seq<Pos>)
    requires LeadsTo(n, root)
    ensures |c| > 0 && c[0] == root.position && c[|c| - 1] == n.position
  {
    if n == root then [n.position] else ChainFrom(n.parent.value, root) + [n.position]
  }

  /** `n` hangs off the start node `s` through nodes each one step further
      onto an open cell, each costing one more than its parent. */
  ghost predicate Rooted(open: set<Pos>, s: Pos, n: Node) {
    match n.parent
    case None => n == StartNode(s)
    case Some(p) =>
      Rooted(open, s, p) && n.gCost == p.gCost + 1 && Adjacent(p.position, n.position) && n.position in open
  }

  /** The chain of a rooted node is a walk from the start whose length is the
      node's cost plus one. */
  lemma {:induction false} RootedChain(open: set<Pos>, s: Pos, n: Node)
    requires Rooted(open, s, n)
    ensures LeadsTo(n, StartNode(s))
    ensures IsWalkBetween(open, ChainFrom(n, StartNode(s)), s, n.position)
    ensures |ChainFrom(n, StartNode(s))| == n.gCost + 1
  {
    match n.parent
    case None =>
    case Some(p) =>
      RootedChain(open, s, p);
      assert n != StartNode(s);
      ExtendWalk(open, ChainFrom(p, StartNode(s)), n.position);
  }

  /** Walks back from `endNode` to `startNode` and reverses: the positions
      from the start node to `endNode`. */
  method RetracePath(startNode: Node, endNode: Node) returns (path: seq<Pos>)
    requires LeadsTo(endNode, startNode)
    ensures path == ChainFrom(endNode, startNode)
  {
    var built: seq<Pos> := [];
    var currentNode := endNode;
    while currentNode != startNode
      invariant LeadsTo(currentNode, startNode)
      invariant ChainFrom(currentNode, startNode) + Reversed(built) == ChainFrom(endNode, startNode)
      decreases currentNode
    {
      ReversedSnoc(built, currentNode.position);
      built := built + [currentNode.position];
      currentNode := currentNode.parent.value;
    }
    ReversedSnoc(built, startNode.position);
    built := built + [startNode.position];
    path := Reversed(built);
  }

  // ---------------------------------------------------------------------
  // Choosing the next node.

  /** `a` is chosen over `b`: smaller `F`, or equal `F` and smaller `H`. */
  predicate Precedes(a: Node, b: Node) {
    FCost(a) < FCost(b) || (FCost(a) == FCost(b) && a.hCost < b.hCost)
  }

  /** The first node of least `F`, ties going to the least `H`. */
  method SelectCurrent(openSet: seq<Node>) returns (i: nat)
    requires |openSet| > 0
    ensures i < |openSet|
    ensures forall j :: 0 <= j < |openSet| ==> !Precedes(openSet[j], openSet[i])
    ensures forall j :: 0 <= j < i ==> Precedes(openSet[i], openSet[j])
  {
    i := 0;
    for k := 1 to |openSet|
      invariant i < k
      invariant forall j :: 0 <= j < k ==> !Precedes(openSet[j], openSet[i])
      invariant forall j :: 0 <= j < i ==> Precedes(openSet[i], openSet[j])
    {
      if Precedes(openSet[k], openSet[i]) {
        i := k;
      }
    }
  }

  /** The index of the first open node at `p`, or `-1`. */
  method FindOpen(openSet: seq<Node>, p: Pos) returns (k: int)
    ensures -1 <= k < |openSet|
    ensures k == -1 <==> forall j :: 0 <= j < |openSet| ==> openSet[j].position != p
    ensures k >= 0 ==> openSet[k].position == p
  {
    k := 0;
    while k < |openSet|
      invariant 0 <= k <= |openSet|
      invariant forall j :: 0 <= j < k ==> openSet[j].position != p
    {
      if openSet[k].position == p {
        return;
      }
      k := k + 1;
    }
    k := -1;
  }

  // ---------------------------------------------------------------------
  // The search state.  `open` is the set of non-wall cells of the grid,
  // `s` and `t` the start and end positions, `gc` the cost of each closed
  // position when it was closed.

  /** Every open node hangs off the start, is not closed, and (unless it is
      the start node) carries the Manhattan distance to the end as `H`; no
      two open nodes share a position. */
  ghost predicate OpenNodes(open: set<Pos>, s: Pos, t: Pos, openSet: seq<Node>, closed: set<Pos>) {
    (forall k :: 0 <= k < |openSet| ==>
      Rooted(open, s, openSet[k]) && openSet[k].position !in closed &&
      (openSet[k].parent.Some? ==> openSet[k].hCost == GetManhattanDistance(openSet[k].position, t))) &&
    (forall k, l :: 0 <= k < l < |openSet| ==> openSet[k].position != openSet[l].position)
  }

  /** Before the first step the open list is the start node alone; after it
      the start is closed and every open node has a parent. */
  ghost predicate Begun(s: Pos, openSet: seq<Node>, closed: set<Pos>) {
    (closed == {} ==> openSet == [StartNode(s)]) &&
    (closed != {} ==> s in closed && forall k :: 0 <= k < |openSet| ==> openSet[k].parent.Some?)
  }

  /** The closed positions are the start and open cells, the end is not
      among them, and each was closed at its shortest distance. */
  ghost predicate ClosedShortest(open: set<Pos>, s: Pos, t: Pos, closed: set<Pos>, gc: map<Pos, int>) {
    gc.Keys == closed && closed <= open + {s} && t !in closed &&
    forall p, w {:trigger gc[p], IsWalkBetween(open, w, s, p)} ::
      p in closed && IsWalkBetween(open, w, s, p) ==> gc[p] + 1 <= |w|
  }

  /** Some open node at `n` costs at most `bound`. */
  ghost predicate InOpen(openSet: seq<Node>, n: Pos, bound: int) {
    exists k :: 0 <= k < |openSet| && openSet[k].position == n && openSet[k].gCost <= bound
  }

  /** Every open cell next to a closed position other than `c` is closed or
      waits on the open list at most one step dearer than that position. */
  ghost predicate FrontierExcept(open: set<Pos>, openSet: seq<Node>, closed: set<Pos>, gc: map<Pos, int>, c: Pos) {
    forall p, n {:trigger Adjacent(p, n)} :: p in closed && p in gc && p != c && Adjacent(p, n) && n in open ==>
      n in closed || InOpen(openSet, n, gc[p] + 1)
  }

  /** The same for every closed position. */
  ghost predicate Frontier(open: set<Pos>, openSet: seq<Node>, closed: set<Pos>, gc: map<Pos, int>) {
    forall p, n {:trigger Adjacent(p, n)} :: p in closed && p in gc && Adjacent(p, n) && n in open ==>
      n in closed || InOpen(openSet, n, gc[p] + 1)
  }

  ghost predicate Inv(open: set<Pos>, s: Pos, t: Pos, openSet: seq<Node>, closed: set<Pos>, gc: map<Pos, int>) {
    OpenNodes(open, s, t, openSet, closed) && Begun(s, openSet, closed) &&
    ClosedShortest(open, s, t, closed, gc) && Frontier(open, openSet, closed, gc)
  }

  // ---------------------------------------------------------------------
  // Why the chosen node is at its shortest distance.

  /** The node of least `F` is at its shortest distance: every walk from the
      start to its position is at least as long as its chain.  A shorter
      walk would leave the closed set onto an open cell whose node, by the
      frontier and the consistent heuristic, has a smaller `F`. */
  lemma SelectedShortest(open: set<Pos>, s: Pos, t: Pos, openSet: seq<Node>, closed: set<Pos>,
                         gc: map<Pos, int>, i: int, w: seq<Pos>)
    requires Inv(open, s, t, openSet, closed, gc)
    requires 0 <= i < |openSet| && forall j :: 0 <= j < |openSet| ==> FCost(openSet[i]) <= FCost(openSet[j])
    requires IsWalkBetween(open, w, s, openSet[i].position)
    ensures openSet[i].gCost + 1 <= |w|
  {
    var c := openSet[i];
    if closed != {} {
      assert c.position !in closed;
      var j := FirstOutside(w, closed);
      var p, n := w[j - 1], w[j];
      assert Adjacent(p, n) && n in open;
      var k :| 0 <= k < |openSet| && openSet[k].position == n && openSet[k].gCost <= gc[p] + 1;
      PrefixIsWalk(open, w, j);
      assert IsWalkBetween(open, w[..j], s, p);
      assert gc[p] + 1 <= j;
      SuffixIsWalk(open, w, j);
      WalkLength(open, w[j..], t);
      assert FCost(c) <= FCost(openSet[k]);
    }
  }

  /** The node `SelectCurrent` picks is at its shortest distance, and it
      hangs off the start. */
  lemma ChosenShortest(open: set<Pos>, s: Pos, t: Pos, openSet: seq<Node>, closed: set<Pos>,
                       gc: map<Pos, int>, i: int)
    requires Inv(open, s, t, openSet, closed, gc)
    requires 0 <= i < |openSet| && forall j :: 0 <= j < |openSet| ==> !Precedes(openSet[j], openSet[i])
    ensures forall w :: IsWalkBetween(open, w, s, openSet[i].position) ==> openSet[i].gCost + 1 <= |w|
    ensures Rooted(open, s, openSet[i]) && openSet[i].position !in closed
    ensures openSet[i].position in open + {s}
  {
    forall w | IsWalkBetween(open, w, s, openSet[i].position) ensures openSet[i].gCost + 1 <= |w| {
      SelectedShortest(open, s, t, openSet, closed, gc, i, w);
    }
  }

  /** Once nothing is left open, every walk from the start stays on closed
      positions. */
  lemma {:induction false} ClosedWalk(open: set<Pos>, s: Pos, closed: set<Pos>, gc: map<Pos, int>, w: seq<Pos>)
    requires Frontier(open, [], closed, gc) && gc.Keys == closed && s in closed
    requires IsWalk(open, w) && w[0] == s
    ensures w[|w| - 1] in closed
  {
    if |w| > 1 {
      PrefixIsWalk(open, w, |w| - 1);
      ClosedWalk(open, s, closed, gc, w[..|w| - 1]);
      assert Adjacent(w[|w| - 2], w[|w| - 1]);
    }
  }

  // ---------------------------------------------------------------------
  // One step of the search.

  /** Taking node `i` off the open list and closing its position keeps the
      open nodes well formed. */
  lemma CloseKeepsNodes(open: set<Pos>, s: Pos, t: Pos, openSet: seq<Node>, closed: set<Pos>, i: int)
    requires OpenNodes(open, s, t, openSet, closed) && Begun(s, openSet, closed)
    requires 0 <= i < |openSet|
    ensures OpenNodes(open, s, t, Without(openSet, i), closed + {openSet[i].position})
    ensures forall k :: 0 <= k < |openSet| - 1 ==> Without(openSet, i)[k].parent.Some?
  {
    if closed == {} {
      assert Without(openSet, i) == [];
    }
  }

  /** Closing the chosen node's position at its cost keeps every closed
      position at its shortest distance. */
  lemma CloseKeepsShortest(open: set<Pos>, s: Pos, t: Pos, closed: set<Pos>, gc: map<Pos, int>, c: Node)
    requires ClosedShortest(open, s, t, closed, gc)
    requires c.position != t && c.position in open + {s}
    requires forall w :: IsWalkBetween(open, w, s, c.position) ==> c.gCost + 1 <= |w|
    ensures ClosedShortest(open, s, t, closed + {c.position}, gc[c.position := c.gCost])
  {
  }

  /** Taking node `i` off the open list keeps the frontier of every other
      closed position: a neighbour waiting on that node is now closed. */
  lemma CloseKeepsFrontier(open: set<Pos>, openSet: seq<Node>, closed: set<Pos>, gc: map<Pos, int>, i: int)
    requires Frontier(open, openSet, closed, gc) && 0 <= i < |openSet|
    ensures var c := openSet[i];
      FrontierExcept(open, Without(openSet, i), closed + {c.position}, gc[c.position := c.gCost], c.position)
  {
    var c, rest := openSet[i], Without(openSet, i);
    var closed', gc' := closed + {c.position}, gc[c.position := c.gCost];
    forall p, n | p in closed' && p in gc' && p != c.position && Adjacent(p, n) && n in open
      ensures n in closed' || InOpen(rest, n, gc'[p] + 1)
    {
      if n !in closed' {
        assert p in closed;
        var k :| 0 <= k < |openSet| && openSet[k].position == n && openSet[k].gCost <= gc[p] + 1;
        var k' := if k < i then k else k - 1;
        assert rest[k'] == openSet[k];
      }
    }
  }

  /** Visits one neighbour of the node just closed (one not a wall and not
      closed): a new open node one step dearer, or a cheaper route to an
      open node already there.  No open position gets dearer and the
      neighbour ends up on the open list at most one step dearer than the
      node just closed. */
  method VisitNeighbor(openSet: seq<Node>, currentNode: Node, neighborPosition: Pos, endPos: Pos,
                       ghost open: set<Pos>, ghost s: Pos, ghost closed: set<Pos>)
    returns (openSet': seq<Node>)
    requires OpenNodes(open, s, endPos, openSet, closed)
    requires forall k :: 0 <= k < |openSet| ==> openSet[k].parent.Some?
    requires Rooted(open, s, currentNode)
    requires Adjacent(currentNode.position, neighborPosition) && neighborPosition in open
    requires neighborPosition !in closed
    ensures OpenNodes(open, s, endPos, openSet', closed)
    ensures forall k :: 0 <= k < |openSet'| ==> openSet'[k].parent.Some?
    ensures forall n, b :: InOpen(openSet, n, b) ==> InOpen(openSet', n, b)
    ensures InOpen(openSet', neighborPosition, currentNode.gCost + 1)
  {
    var newMovementCostToNeighbor := currentNode.gCost + 1;
    var neighborNode := Node(neighborPosition, newMovementCostToNeighbor,
                             GetManhattanDistance(neighborPosition, endPos), Some(currentNode));
    var k := FindOpen(openSet, neighborPosition);
    if k == -1 {
      openSet' := openSet + [neighborNode];
      assert openSet'[|openSet|] == neighborNode;
      forall n, b | InOpen(openSet, n, b) ensures InOpen(openSet', n, b) {
        var j :| 0 <= j < |openSet| && openSet[j].position == n && openSet[j].gCost <= b;
        assert openSet'[j] == openSet[j];
      }
    } else if newMovementCostToNeighbor < openSet[k].gCost {
      openSet' := openSet[k := neighborNode];
      forall n, b | InOpen(openSet, n, b) ensures InOpen(openSet', n, b) {
        var j :| 0 <= j < |openSet| && openSet[j].position == n && openSet[j].gCost <= b;
        assert openSet'[j].position == n && openSet'[j].gCost <= b;
      }
      assert openSet'[k] == neighborNode;
    } else {
      openSet' := openSet;
      assert openSet[k].position == neighborPosition && openSet[k].gCost <= newMovementCostToNeighbor;
    }
  }

  /** The four unit steps, in the order the search tries them. */
  const Directions: seq<Pos> := [Up, Down, Left, Right]

  /** Every open cell next to `c` is closed or waits on the open list. */
  ghost predicate NeighboursCovered(open: set<Pos>, openSet: seq<Node>, closed: set<Pos>, c: Pos, g: int, k: int) {
    forall j :: 0 <= j < k <= 4 && Add(c, Directions[j]) in open ==>
      Add(c, Directions[j]) in closed || InOpen(openSet, Add(c, Directions[j]), g + 1)
  }

  /** Visits the four neighbours of the node just closed, skipping walls and
      closed positions; afterwards the frontier holds again. */
  method Expand(grid: MazeRuntimeGrid, openSet: seq<Node>, closedSet: set<Pos>, currentNode: Node, endPos: Pos,
                ghost open: set<Pos>, ghost s: Pos, ghost gc: map<Pos, int>)
    returns (openSet': seq<Node>)
    requires open == grid.OpenCells()
    requires OpenNodes(open, s, endPos, openSet, closedSet)
    requires forall k :: 0 <= k < |openSet| ==> openSet[k].parent.Some?
    requires Rooted(open, s, currentNode)
    requires currentNode.position in closedSet && gc.Keys == closedSet && gc[currentNode.position] == currentNode.gCost
    requires FrontierExcept(open, openSet, closedSet, gc, currentNode.position)
    ensures OpenNodes(open, s, endPos, openSet', closedSet)
    ensures forall k :: 0 <= k < |openSet'| ==> openSet'[k].parent.Some?
    ensures Frontier(open, openSet', closedSet, gc)
  {
    var c := currentNode.position;
    openSet' := openSet;
    for k := 0 to 4
      invariant OpenNodes(open, s, endPos, openSet', closedSet)
      invariant forall j :: 0 <= j < |openSet'| ==> openSet'[j].parent.Some?
      invariant FrontierExcept(open, openSet', closedSet, gc, c)
      invariant NeighboursCovered(open, openSet', closedSet, c, currentNode.gCost, k)
    {
      var neighborPosition := Add(c, Directions[k]);
      if !(grid.HasWall(neighborPosition) || neighborPosition in closedSet) {
        ghost var before := openSet';
        openSet' := VisitNeighbor(openSet', currentNode, neighborPosition, endPos, open, s, closedSet);
        assert forall n, b :: InOpen(before, n, b) ==> InOpen(openSet', n, b);
      }
    }
    forall p, n | p in closedSet && p in gc && Adjacent(p, n) && n in open
      ensures n in closedSet || InOpen(openSet', n, gc[p] + 1)
    {
      if p == c {
        StepsAreAdjacent(c, n);
        assert n == Add(c, Directions[0]) || n == Add(c, Directions[1]) ||
               n == Add(c, Directions[2]) || n == Add(c, Directions[3]);
      }
    }
  }

  /** The invariant, put back together after a step. */
  lemma Reassembled(open: set<Pos>, s: Pos, t: Pos, openSet: seq<Node>, closed: set<Pos>, gc: map<Pos, int>)
    requires OpenNodes(open, s, t, openSet, closed) && s in closed
    requires forall k :: 0 <= k < |openSet| ==> openSet[k].parent.Some?
    requires ClosedShortest(open, s, t, closed, gc) && Frontier(open, openSet, closed, gc)
    ensures Inv(open, s, t, openSet, closed, gc)
  {
  }

  /** A node that hangs off the start and is at its shortest distance has a
      shortest walk as its chain. */
  lemma FoundShortest(open: set<Pos>, s: Pos, c: Node)
    requires Rooted(open, s, c)
    requires forall w :: IsWalkBetween(open, w, s, c.position) ==> c.gCost + 1 <= |w|
    ensures LeadsTo(c, StartNode(s))
    ensures IsWalkBetween(open, ChainFrom(c, StartNode(s)), s, c.position)
    ensures IsDistance(open, s, c.position, |ChainFrom(c, StartNode(s))| - 1)
  {
    RootedChain(open, s, c);
  }

  /** The search starts with the start node alone on the open list and
      nothing closed. */
  lemma Initial(open: set<Pos>, s: Pos, t: Pos)
    ensures Inv(open, s, t, [StartNode(s)], {}, map[])
  {
  }

  /** When the open list runs out no walk leads from the start to the end. */
  lemma Exhausted(open: set<Pos>, s: Pos, t: Pos, closed: set<Pos>, gc: map<Pos, int>)
    requires Inv(open, s, t, [], closed, gc)
    ensures !Reachable(open, s, t)
  {
    forall w | IsWalkBetween(open, w, s, t) ensures false {
      ClosedWalk(open, s, closed, gc, w);
    }
  }

  /** The chosen node is at the end: its chain is a shortest walk, and it is
      the start node when the start is the end. */
  lemma FoundStep(open: set<Pos>, s: Pos, t: Pos, openSet: seq<Node>, closed: set<Pos>, gc: map<Pos, int>, i: int)
    requires Inv(open, s, t, openSet, closed, gc)
    requires 0 <= i < |openSet| && forall j :: 0 <= j < |openSet| ==> !Precedes(openSet[j], openSet[i])
    requires openSet[i].position == t
    ensures LeadsTo(openSet[i], StartNode(s))
    ensures IsWalkBetween(open, ChainFrom(openSet[i], StartNode(s)), s, t)
    ensures IsDistance(open, s, t, |ChainFrom(openSet[i], StartNode(s))| - 1)
    ensures s == t ==> ChainFrom(openSet[i], StartNode(s)) == [s]
  {
    ChosenShortest(open, s, t, openSet, closed, gc, i);
    FoundShortest(open, s, openSet[i]);
    if s == t {
      assert closed == {};
      assert openSet[i] == StartNode(s);
    }
  }

  /** Taking the chosen node off the open list and closing its position
      leaves what `Expand` needs, and the closed set grows inside the
      finite set of cells the search can visit. */
  lemma CloseStep(open: set<Pos>, s: Pos, t: Pos, openSet: seq<Node>, closed: set<Pos>, gc: map<Pos, int>, i: int,
                  universe: set<Pos>)
    requires Inv(open, s, t, openSet, closed, gc) && universe == open + {s}
    requires 0 <= i < |openSet| && forall j :: 0 <= j < |openSet| ==> !Precedes(openSet[j], openSet[i])
    requires openSet[i].position != t
    ensures var c, rest, closed', gc' := openSet[i], Without(openSet, i), closed + {openSet[i].position},
                                         gc[openSet[i].position := openSet[i].gCost];
      OpenNodes(open, s, t, rest, closed') &&
      (forall k :: 0 <= k < |rest| ==> rest[k].parent.Some?) &&
      Rooted(open, s, c) && c.position in closed' && gc'.Keys == closed' && gc'[c.position] == c.gCost &&
      FrontierExcept(open, rest, closed', gc', c.position) &&
      ClosedShortest(open, s, t, closed', gc') && s in closed' &&
      closed < closed' <= universe && |closed| < |closed'| <= |universe|
  {
    var c := openSet[i];
    ChosenShortest(open, s, t, openSet, closed, gc, i);
    CloseKeepsNodes(open, s, t, openSet, closed, i);
    CloseKeepsShortest(open, s, t, closed, gc, c);
    CloseKeepsFrontier(open, openSet, closed, gc, i);
    SubsetCount(closed + {c.position}, universe);
    if closed == {} {
      assert c.position == s;
    }
  }

  // ---------------------------------------------------------------------
  // The search.

  /** One round of the search loop: the best open node is taken off the
      open list and closed; if it is the end its chain comes back,
      otherwise its neighbours are expanded, the invariant holds again and
      one more cell is closed. */
  method SearchStep(grid: MazeRuntimeGrid, startNode: Node, endPos: Pos, openSet: seq<Node>, closedSet: set<Pos>,
                    ghost open: set<Pos>, ghost universe: set<Pos>, ghost gc: map<Pos, int>)
    returns (openSet': seq<Node>, closedSet': set<Pos>, ghost gc': map<Pos, int>, found: Option<seq<Pos>>)
    requires open == grid.OpenCells() && startNode == StartNode(startNode.position)
    requires universe == open + {startNode.position} && closedSet <= universe
    requires Inv(open, startNode.position, endPos, openSet, closedSet, gc) && |openSet| > 0
    requires startNode.position == endPos ==> closedSet == {}
    ensures found.Some? ==>
      IsWalkBetween(open, found.value, startNode.position, endPos) &&
      IsDistance(open, startNode.position, endPos, |found.value| - 1) &&
      (startNode.position == endPos ==> found.value == [endPos])
    ensures found.None? ==>
      Inv(open, startNode.position, endPos, openSet', closedSet', gc') && startNode.position != endPos &&
      closedSet' <= universe && |closedSet| < |closedSet'| <= |universe|
  {
    ghost var s := startNode.position;
    var i := SelectCurrent(openSet);
    var currentNode := openSet[i];
    openSet' := Without(openSet, i);
    closedSet' := closedSet + {currentNode.position};
    if currentNode.position == endPos {
      FoundStep(open, s, endPos, openSet, closedSet, gc, i);
      var p := RetracePath(startNode, currentNode);
      return openSet', closedSet', gc, Some(p);
    }
    CloseStep(open, s, endPos, openSet, closedSet, gc, i, universe);
    gc' := gc[currentNode.position := currentNode.gCost];
    openSet' := Expand(grid, openSet', closedSet', currentNode, endPos, open, s, gc');
    Reassembled(open, s, endPos, openSet', closedSet', gc');
    found := None;
  }

  /** A* from `startPos` to `endPos`.  `None` (the C# `null`) when the open
      list runs out, which happens exactly when no walk leads from the start
      to the end; otherwise a walk from the start to the end that is as
      short as any, and `[startPos]` when the two coincide. */
  method Search(grid: MazeRuntimeGrid, startPos: Pos, endPos: Pos) returns (path: Option<seq<Pos>>)
    ensures path.None? ==> !Reachable(grid.OpenCells(), startPos, endPos)
    ensures path.Some? ==>
      IsWalkBetween(grid.OpenCells(), path.value, startPos, endPos) &&
      IsDistance(grid.OpenCells(), startPos, endPos, |path.value| - 1)
    ensures startPos == endPos ==> path == Some([startPos])
  {
    ghost var open := grid.OpenCells();
    ghost var universe := open + {startPos};
    var startNode := StartNode(startPos);
    var openSet := [startNode];
    var closedSet: set<Pos> := {};
    ghost var gc: map<Pos, int> := map[];
    Initial(open, startPos, endPos);
    while |openSet| > 0
      invariant Inv(open, startPos, endPos, openSet, closedSet, gc)
      invariant closedSet <= universe
      invariant startPos == endPos ==> closedSet == {}
      decreases |universe| - |closedSet|
    {
      var found;
      openSet, closedSet, gc, found := SearchStep(grid, startNode, endPos, openSet, closedSet, open, universe, gc);
      if found.Some? {
        return found;
      }
    }
    Exhausted(open, startPos, endPos, closedSet, gc);
    return None;
  }
}
