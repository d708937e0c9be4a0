/** The older A* variant (`PathFinder.cs`): a `toSearch` list that may hold
    several nodes for one position, a `processed` set of positions, unit
    steps in the order up, down, left, right, and the path read back along
    parent links until the parentless start node.

    Nodes are values: the C# code sets a node's fields once, when it is
    created, and never changes them afterwards.  `G` is a whole number of
    steps (the C# `float` holds it exactly); the Euclidean heuristic
    `Vector2Int.Distance` is a parameter `distance`, a real-valued function
    of two cells.  The search ends and answers a walk whatever `distance`
    is; when it is the Euclidean distance (`Euclidean`), the walk is a
    shortest one. */
module Pathfinder {
  import opened Geometry
  import opened RuntimeGrid
  import opened Walks

  // ---------------------------------------------------------------------
  // Nodes.

  /** `parent` is the node this one was reached from, `None` (the C# `null`)
      for the start node. */
  datatype Node = Node(position: Pos, gCost: int, hCost: real, parent: Option<Node>)

  function FCost(n: Node): real {
    n.gCost as real + n.hCost
  }

  /** The start node as created: both costs at their default `0`, no parent. */
  function Root(s: Pos): Node {
    Node(s, 0, 0.0, None)
  }

  /** The positions of `n` and of all its ancestors. */
  ghost function Lineage(n: Node): set<Pos> {
    {n.position} + match n.parent case None => {} case Some(p) => Lineage(p)
  }

  /** `n` hangs off the start node at `s` through nodes each one step
      further onto an open cell not used higher up the chain, each costing
      one more than its parent. */
  ghost predicate Hangs(open: set<Pos>, s: Pos, n: Node) {
    match n.parent
    case None => n == Root(s)
    case Some(p) =>
      Hangs(open, s, p) && n.gCost == p.gCost + 1 && Adjacent(p.position, n.position) &&
      n.position in open && n.position !in Lineage(p)
  }

  /** The positions from the start node down to `n`, following parent links
      until there is none. */
  function Chain(n: Node): (c: seq<Pos>)
    ensures |c| > 0 && c[|c| - 1] == n.position
  {
    match n.parent
    case None => [n.position]
    case Some(p) => Chain(p) + [n.position]
  }

  /** A node hanging off the start has a chain of distinct cells: there are
      `G + 1` of them and all are the start or open cells, so `G` is less
      than the number of such cells. */
  lemma {:induction false} LineageCount(open: set<Pos>, s: Pos, n: Node)
    requires Hangs(open, s, n)
    ensures |Lineage(n)| == n.gCost + 1 && Lineage(n) <= open + {s}
    ensures 0 <= n.gCost < |open + {s}|
  {
    match n.parent
    case None =>
    case Some(p) =>
      LineageCount(open, s, p);
      assert Lineage(n) == Lineage(p) + {n.position};
    SubsetCount(Lineage(n), open + {s});
  }

  /** The chain of a node hanging off the start is a walk from the start to
      the node, one cell longer than the node's `G`. */
  lemma {:induction false} ChainIsWalk(open: set<Pos>, s: Pos, n: Node)
    requires Hangs(open, s, n)
    ensures IsWalkBetween(open, Chain(n), s, n.position) && |Chain(n)| == n.gCost + 1
  {
    match n.parent
    case None =>
    case Some(p) =>
      ChainIsWalk(open, s, p);
      ExtendWalk(open, Chain(p), n.position);
  }

  /** The positions from the node held in `o`, if any, back up to the
      start node. */
  function ChainOf(o: Option<Node>): seq<Pos> {
    match o
    case None => []
    case Some(n) => Chain(n)
  }

  /** Follows parent links from `endNode` until there is none, collecting
      positions, then reverses: the chain from the start to `endNode`. */
  method ReconstructPath(endNode: Node) returns (path: seq<Pos>)
    ensures path == Chain(endNode)
  {
    var built: seq<Pos> := [];
    var current: Option<Node> := Some(endNode);
    while current.Some?
      invariant ChainOf(current) + Reversed(built) == Chain(endNode)
      decreases current
    {
      ReversedSnoc(built, current.value.position);
      built := built + [current.value.position];
      current := current.value.parent;
    }
    path := Reversed(built);
  }

  // ---------------------------------------------------------------------
  // Choosing the next node, and the list operations of the search.

  /** `a` is chosen over `b`: smaller `F`, or equal `F` and smaller `H`. */
  predicate Precedes(a: Node, b: Node) {
    FCost(a) < FCost(b) || (FCost(a) == FCost(b) && a.hCost < b.hCost)
  }

  /** The first node of least `F`, ties going to the least `H`.  No earlier
      entry equals it, so `toSearch.Remove(current)` removes this entry. */
  method SelectCurrent(toSearch: seq<Node>) returns (i: nat)
    requires |toSearch| > 0
    ensures i < |toSearch|
    ensures forall j :: 0 <= j < |toSearch| ==> !Precedes(toSearch[j], toSearch[i])
    ensures forall j :: 0 <= j < i ==> Precedes(toSearch[i], toSearch[j]) && toSearch[j] != toSearch[i]
  {
    i := 0;
    for k := 1 to |toSearch|
      invariant i < k
      invariant forall j :: 0 <= j < k ==> !Precedes(toSearch[j], toSearch[i])
      invariant forall j :: 0 <= j < i ==> Precedes(toSearch[i], toSearch[j])
    {
      if Precedes(toSearch[k], toSearch[i]) {
        i := k;
      }
    }
  }

  /** `toSearch.Exists` and `toSearch.Find` for position `q`: the index of
      the first node at `q`, or `|toSearch|` when there is none. */
  function FirstAt(toSearch: seq<Node>, q: Pos): (k: nat)
    ensures k <= |toSearch|
    ensures k < |toSearch| ==> toSearch[k].position == q
    ensures forall j :: 0 <= j < k ==> toSearch[j].position != q
  {
    if toSearch == [] then 0
    else if toSearch[0].position == q then 0
    else 1 + FirstAt(toSearch[1..], q)
  }

  // ---------------------------------------------------------------------
  // Termination: every node weighs `5^(N - 1 - G)`, where `N` bounds the
  // chain length.  Taking a node off the list and adding at most four
  // children one step dearer lowers the total weight.

  function Pow5(k: nat): (p: nat)
    ensures p >= 1
  {
    if k == 0 then 1 else 5 * Pow5(k - 1)
  }

  function Weight(n: Node, bound: int): nat {
    if 0 <= n.gCost < bound then Pow5(bound - 1 - n.gCost) else 0
  }

  function Potential(toSearch: seq<Node>, bound: int): nat {
    if toSearch == [] then 0
    else Potential(toSearch[..|toSearch| - 1], bound) + Weight(toSearch[|toSearch| - 1], bound)
  }

  /** The weight of a list is the sum of the weights of its two parts. */
  lemma {:induction false} PotentialAppend(a: seq<Node>, b: seq<Node>, bound: int)
    ensures Potential(a + b, bound) == Potential(a, bound) + Potential(b, bound)
    decreases |b|
  {
    if b != [] {
      var b' := b[..|b| - 1];
      assert (a + b)[..|a + b| - 1] == a + b';
      PotentialAppend(a, b', bound);
    } else {
      assert a + b == a;
    }
  }

  /** Removing entry `i` removes exactly its weight. */
  lemma PotentialWithout(toSearch: seq<Node>, i: int, bound: int)
    requires 0 <= i < |toSearch|
    ensures Potential(Without(toSearch, i), bound) + Weight(toSearch[i], bound) == Potential(toSearch, bound)
  {
    assert toSearch == toSearch[..i] + ([toSearch[i]] + toSearch[i + 1..]);
    PotentialAppend(toSearch[..i], [toSearch[i]] + toSearch[i + 1..], bound);
    PotentialAppend([toSearch[i]], toSearch[i + 1..], bound);
    PotentialAppend(toSearch[..i], toSearch[i + 1..], bound);
    assert Potential([toSearch[i]], bound) == Weight(toSearch[i], bound) by {
      assert [toSearch[i]][..0] == [];
    }
  }

  // ---------------------------------------------------------------------
  // The heuristic.

  /** `distance` is the Euclidean distance `Vector2Int.Distance`: never
      negative, and its square is the sum of the squared differences of the
      coordinates. */
  ghost predicate Euclidean(distance: (Pos, Pos) -> real) {
    forall a, b :: 0.0 <= distance(a, b) &&
      distance(a, b) * distance(a, b) == Square((a.x - b.x) as real) + Square((a.y - b.y) as real)
  }

  function Square(r: real): real {
    r * r
  }

  /** The heuristic towards `t` drops by at most one per step. */
  ghost predicate Consistent(distance: (Pos, Pos) -> real, t: Pos) {
    forall a, b {:trigger Adjacent(a, b)} :: Adjacent(a, b) ==> distance(a, t) <= distance(b, t) + 1.0
  }

  /** Of two values at least zero, the one with the smaller square is the
      smaller. */
  lemma RootMonotone(a: real, b: real)
    requires 0.0 <= a && 0.0 <= b && a * a <= b * b
    ensures a <= b
  {
    assert (b - a) * (b + a) == b * b - a * a;
    if a + b > 0.0 {
      assert (b - a) * (b + a) >= 0.0;
    }
  }

  /** A value at least zero whose square is at least `r * r` is at least
      `|r|`. */
  lemma RootBound(d: real, r: real)
    requires 0.0 <= d && r * r <= d * d
    ensures -d <= r <= d
  {
    var m := if r < 0.0 then -r else r;
    assert m * m == r * r;
    RootMonotone(m, d);
  }

  /** One unit step along a coordinate: a distance with square
      `g * g + f * f`, where `g` is `e` plus or minus one, is at most one
      more than the distance with square `e * e + f * f`. */
  lemma UnitStep(da: real, db: real, e: real, f: real, g: real)
    requires 0.0 <= da && 0.0 <= db && (g == e + 1.0 || g == e - 1.0)
    requires Square(da) == Square(g) + Square(f) && Square(db) == Square(e) + Square(f)
    ensures da <= db + 1.0
  {
    assert f * f >= 0.0;
    RootBound(db, e);
    assert g * g <= e * e + 2.0 * db + 1.0;
    RootMonotone(da, db + 1.0);
  }

  /** The Euclidean distance to `t` is consistent: one step changes it by
      at most one (the triangle inequality for a unit step). */
  lemma EuclideanConsistent(distance: (Pos, Pos) -> real, t: Pos)
    requires Euclidean(distance)
    ensures Consistent(distance, t)
  {
    forall a, b | Adjacent(a, b) ensures distance(a, t) <= distance(b, t) + 1.0 {
      EuclideanStep(distance, a, b, t);
    }
  }

  /** One step from `b` to `a` brings the Euclidean distance to `t` up by
      at most one. */
  lemma EuclideanStep(distance: (Pos, Pos) -> real, a: Pos, b: Pos, t: Pos)
    requires Euclidean(distance) && Adjacent(a, b)
    ensures distance(a, t) <= distance(b, t) + 1.0
  {
    EuclideanAt(distance, a, t);
    EuclideanAt(distance, b, t);
    var xa, ya, xb, yb := (a.x - t.x) as real, (a.y - t.y) as real, (b.x - t.x) as real, (b.y - t.y) as real;
    if a.y == b.y {
      UnitStep(distance(a, t), distance(b, t), xb, yb, xa);
    } else {
      UnitStep(distance(a, t), distance(b, t), yb, xb, ya);
    }
  }

  /** The Euclidean distance from `a` to `t`, squared. */
  lemma EuclideanAt(distance: (Pos, Pos) -> real, a: Pos, t: Pos)
    requires Euclidean(distance)
    ensures 0.0 <= distance(a, t)
    ensures Square(distance(a, t)) == Square((a.x - t.x) as real) + Square((a.y - t.y) as real)
  {
  }

  /** Along a walk of `k` steps a consistent heuristic drops by at most
      `k`. */
  lemma {:induction false} WalkHeuristic(open: set<Pos>, w: seq<Pos>, distance: (Pos, Pos) -> real, t: Pos)
    requires IsWalk(open, w) && Consistent(distance, t)
    ensures distance(w[0], t) <= distance(w[|w| - 1], t) + (|w| - 1) as real
  {
    if |w| > 1 {
      var v := w[..|w| - 1];
      PrefixIsWalk(open, w, |w| - 1);
      WalkHeuristic(open, v, distance, t);
      assert Adjacent(v[|v| - 1], w[|w| - 1]);
    }
  }

  // ---------------------------------------------------------------------
  // The search state.  `open` is the set of non-wall cells of the grid,
  // `s` and `t` the start and end positions, `gc` the `G` of the node that
  // processed each processed position first.

  /** Some listed node is at `q` and costs at most `bound`. */
  ghost predicate Waiting(toSearch: seq<Node>, q: Pos, bound: int) {
    exists k :: 0 <= k < |toSearch| && toSearch[k].position == q && toSearch[k].gCost <= bound
  }

  /** Appending nodes keeps every node waiting. */
  lemma WaitingAppend(toSearch: seq<Node>, extra: seq<Node>)
    ensures forall q, b :: Waiting(toSearch, q, b) ==> Waiting(toSearch + extra, q, b)
  {
    forall q, b | Waiting(toSearch, q, b) ensures Waiting(toSearch + extra, q, b) {
      var j :| 0 <= j < |toSearch| && toSearch[j].position == q && toSearch[j].gCost <= b;
      assert (toSearch + extra)[j] == toSearch[j];
    }
  }

  /** `n` hangs off the start and every ancestor of it has been processed. */
  ghost predicate Placed(open: set<Pos>, s: Pos, n: Node, processed: set<Pos>) {
    Hangs(open, s, n) && (n.parent.Some? ==> Lineage(n.parent.value) <= processed)
  }

  /** Every listed node is placed. */
  ghost predicate Listed(open: set<Pos>, s: Pos, toSearch: seq<Node>, processed: set<Pos>) {
    forall n :: n in toSearch ==> Placed(open, s, n, processed)
  }

  /** Every listed node other than the start node carries the heuristic of
      its position. */
  ghost predicate Estimated(toSearch: seq<Node>, distance: (Pos, Pos) -> real, t: Pos) {
    forall n :: n in toSearch && n.parent.Some? ==> n.hCost == distance(n.position, t)
  }

  /** Every open cell next to a processed position `p` other than `c` is
      processed or has a node on the list at most one step dearer than the
      first node that processed `p`. */
  ghost predicate FrontierExcept(open: set<Pos>, toSearch: seq<Node>, processed: set<Pos>, gc: map<Pos, int>, c: Pos) {
    forall p, q {:trigger Adjacent(p, q)} :: p in gc && p != c && Adjacent(p, q) && q in open ==>
      q in processed || Waiting(toSearch, q, gc[p] + 1)
  }

  /** The same for every processed position. */
  ghost predicate Frontier(open: set<Pos>, toSearch: seq<Node>, processed: set<Pos>, gc: map<Pos, int>) {
    forall p, q {:trigger Adjacent(p, q)} :: p in gc && Adjacent(p, q) && q in open ==>
      q in processed || Waiting(toSearch, q, gc[p] + 1)
  }

  /** Appending nodes keeps the frontier. */
  lemma FrontierAppend(open: set<Pos>, toSearch: seq<Node>, processed: set<Pos>, gc: map<Pos, int>, c: Pos,
                       extra: seq<Node>)
    ensures FrontierExcept(open, toSearch, processed, gc, c) ==> FrontierExcept(open, toSearch + extra, processed, gc, c)
    ensures Frontier(open, toSearch, processed, gc) ==> Frontier(open, toSearch + extra, processed, gc)
  {
    WaitingAppend(toSearch, extra);
  }

  /** Each processed position was first processed at its shortest
      distance from the start. */
  ghost predicate Shortest(open: set<Pos>, s: Pos, gc: map<Pos, int>) {
    forall p, w {:trigger gc[p], IsWalkBetween(open, w, s, p)} ::
      p in gc && IsWalkBetween(open, w, s, p) ==> gc[p] + 1 <= |w|
  }

  /** The loop invariant.  Before the first round the list is the start
      node alone; whatever `distance` is, listed nodes hang off the start
      and the frontier holds; with a consistent heuristic every position
      was processed first at its shortest distance. */
  ghost predicate Inv(open: set<Pos>, s: Pos, t: Pos, distance: (Pos, Pos) -> real, toSearch: seq<Node>,
                      processed: set<Pos>, gc: map<Pos, int>) {
    Listed(open, s, toSearch, processed) && Estimated(toSearch, distance, t) &&
    gc.Keys == processed && Frontier(open, toSearch, processed, gc) &&
    processed <= open + {s} && t !in processed &&
    (s in processed || toSearch == [Root(s)]) &&
    (Consistent(distance, t) ==> Shortest(open, s, gc))
  }

  /** Once the list is empty, every walk from the start stays on processed
      positions. */
  lemma {:induction false} ProcessedWalk(open: set<Pos>, s: Pos, processed: set<Pos>, gc: map<Pos, int>, w: seq<Pos>)
    requires Frontier(open, [], processed, gc) && gc.Keys == processed && s in processed
    requires IsWalk(open, w) && w[0] == s
    ensures w[|w| - 1] in processed
  {
    if |w| > 1 {
      PrefixIsWalk(open, w, |w| - 1);
      ProcessedWalk(open, s, processed, gc, w[..|w| - 1]);
      assert Adjacent(w[|w| - 2], w[|w| - 1]);
    }
  }

  /** Taking node `i` off the list keeps every listed node placed (its
      position now processed) and carrying its heuristic.  If its position
      was new, the frontier of every other processed position holds with
      the node's `G` recorded for it; if it was processed already, the
      whole frontier holds. */
  lemma TakeOff(open: set<Pos>, s: Pos, t: Pos, distance: (Pos, Pos) -> real, toSearch: seq<Node>,
                processed: set<Pos>, gc: map<Pos, int>, i: int)
    requires Listed(open, s, toSearch, processed) && Estimated(toSearch, distance, t)
    requires gc.Keys == processed && Frontier(open, toSearch, processed, gc)
    requires 0 <= i < |toSearch|
    ensures var c, rest := toSearch[i], Without(toSearch, i);
      Listed(open, s, rest, processed + {c.position}) && Estimated(rest, distance, t) &&
      (c.position !in processed ==>
        FrontierExcept(open, rest, processed + {c.position}, gc[c.position := c.gCost], c.position)) &&
      (c.position in processed ==> Frontier(open, rest, processed, gc))
  {
    var c, rest := toSearch[i], Without(toSearch, i);
    var processed' := processed + {c.position};
    forall n | n in rest ensures n in toSearch {
      var k :| 0 <= k < |rest| && rest[k] == n;
      var j := if k < i then k else k + 1;
      assert n == toSearch[j];
    }
    if c.position in processed {
      forall p, q | p in gc && Adjacent(p, q) && q in open
        ensures q in processed || Waiting(rest, q, gc[p] + 1)
      {
        if q !in processed {
          var k :| 0 <= k < |toSearch| && toSearch[k].position == q && toSearch[k].gCost <= gc[p] + 1;
          var k' := if k < i then k else k - 1;
          assert rest[k'] == toSearch[k];
        }
      }
    } else {
      var gc' := gc[c.position := c.gCost];
      forall p, q | p in gc' && p != c.position && Adjacent(p, q) && q in open
        ensures q in processed' || Waiting(rest, q, gc'[p] + 1)
      {
        if q !in processed' {
          var k :| 0 <= k < |toSearch| && toSearch[k].position == q && toSearch[k].gCost <= gc[p] + 1;
          var k' := if k < i then k else k - 1;
          assert rest[k'] == toSearch[k];
        }
      }
    }
  }

  /** The four unit steps, in the order the search tries them. */
  const Directions: seq<Pos> := [Up, Down, Left, Right]

  /** The cell one step from `c` in direction `k` is next to `c`. */
  lemma StepAdjacent(c: Pos, k: int)
    requires 0 <= k < 4
    ensures Adjacent(c, Add(c, Directions[k]))
  {
  }

  /** Every open cell next to `c` in the first `k` directions is processed
      or has a node on the list costing at most `g + 1`. */
  ghost predicate NeighboursCovered(open: set<Pos>, toSearch: seq<Node>, processed: set<Pos>, c: Pos, g: int, k: int) {
    forall j :: 0 <= j < k <= 4 && Add(c, Directions[j]) in open ==>
      Add(c, Directions[j]) in processed || Waiting(toSearch, Add(c, Directions[j]), g + 1)
  }

  /** Appending nodes keeps the covered directions covered. */
  lemma CoverAppend(open: set<Pos>, toSearch: seq<Node>, processed: set<Pos>, c: Pos, g: int, k: int,
                    extra: seq<Node>)
    requires NeighboursCovered(open, toSearch, processed, c, g, k)
    ensures NeighboursCovered(open, toSearch + extra, processed, c, g, k)
  {
    WaitingAppend(toSearch, extra);
  }

  /** Looks at the neighbour of the node just processed in direction `k`.
      It gets a new node, one step dearer, exactly when it is not a wall,
      not processed, and either has no listed node or its first listed node
      is dearer still.  Afterwards the neighbour is covered. */
  method VisitNeighbor(grid: MazeRuntimeGrid, toSearch: seq<Node>, processed: set<Pos>, current: Node, k: int,
                       endPos: Pos, distance: (Pos, Pos) -> real, ghost open: set<Pos>, ghost s: Pos)
    returns (toSearch': seq<Node>, ghost added: seq<Node>)
    requires open == grid.OpenCells() && 0 <= k < 4
    requires Listed(open, s, toSearch, processed) && Estimated(toSearch, distance, endPos)
    requires Hangs(open, s, current) && Lineage(current) <= processed
    requires NeighboursCovered(open, toSearch, processed, current.position, current.gCost, k)
    ensures Listed(open, s, toSearch', processed) && Estimated(toSearch', distance, endPos)
    ensures NeighboursCovered(open, toSearch', processed, current.position, current.gCost, k + 1)
    ensures toSearch' == toSearch + added && |added| <= 1
    ensures var nb := Add(current.position, Directions[k]);
      |added| == 1 <==>
        !grid.HasWall(nb) && nb !in processed &&
        (FirstAt(toSearch, nb) == |toSearch| || current.gCost + 1 < toSearch[FirstAt(toSearch, nb)].gCost)
    ensures forall n :: n in added ==>
      n == Node(Add(current.position, Directions[k]), current.gCost + 1,
                distance(Add(current.position, Directions[k]), endPos), Some(current))
    ensures forall n :: n in added ==> Hangs(open, s, n)
  {
    var c := current.position;
    toSearch', added := toSearch, [];
    var neighborPos := Add(c, Directions[k]);
    if !grid.HasWall(neighborPos) && neighborPos !in processed {
      var neighborNode := Node(neighborPos, current.gCost + 1, distance(neighborPos, endPos), Some(current));
      var first := FirstAt(toSearch, neighborPos);
      if first == |toSearch| || neighborNode.gCost < toSearch[first].gCost {
        toSearch', added := toSearch + [neighborNode], [neighborNode];
        StepAdjacent(c, k);
        AddChild(open, s, toSearch, processed, neighborNode);
        CoverAppend(open, toSearch, processed, c, current.gCost, k, [neighborNode]);
        assert toSearch'[|toSearch|] == neighborNode;
      } else {
        assert toSearch[first].position == neighborPos;
      }
    }
  }

  /** Looks at the four neighbours of the node just processed, in the order
      up, down, left, right, appending at most one child for each.
      Afterwards every open neighbour is processed or listed at most one
      step dearer than the node, and the list weighs less than it did with
      the processed node still on it. */
  method Expand(grid: MazeRuntimeGrid, toSearch: seq<Node>, processed: set<Pos>, current: Node, endPos: Pos,
                distance: (Pos, Pos) -> real, ghost open: set<Pos>, ghost s: Pos)
    returns (toSearch': seq<Node>, ghost children: seq<Node>)
    requires open == grid.OpenCells()
    requires Listed(open, s, toSearch, processed) && Estimated(toSearch, distance, endPos)
    requires Hangs(open, s, current) && Lineage(current) <= processed
    ensures Listed(open, s, toSearch', processed) && Estimated(toSearch', distance, endPos)
    ensures toSearch' == toSearch + children
    ensures NeighboursCovered(open, toSearch', processed, current.position, current.gCost, 4)
    ensures Potential(toSearch', |open + {s}|) < Potential(toSearch, |open + {s}|) + Weight(current, |open + {s}|)
  {
    toSearch', children := toSearch, [];
    for k := 0 to 4
      invariant Listed(open, s, toSearch', processed) && Estimated(toSearch', distance, endPos)
      invariant NeighboursCovered(open, toSearch', processed, current.position, current.gCost, k)
      invariant toSearch' == toSearch + children && |children| <= k
      invariant forall n :: n in children ==> Hangs(open, s, n) && n.parent == Some(current)
    {
      ghost var added;
      toSearch', added := VisitNeighbor(grid, toSearch', processed, current, k, endPos, distance, open, s);
      children := children + added;
    }
    ChildrenWeigh(open, s, current, toSearch, children);
  }

  /** Once all four directions from `c` are covered at its recorded cost,
      the frontier holds for `c` too. */
  lemma Covered(open: set<Pos>, toSearch: seq<Node>, processed: set<Pos>, gc: map<Pos, int>, c: Pos)
    requires c in gc
    requires FrontierExcept(open, toSearch, processed, gc, c)
    requires NeighboursCovered(open, toSearch, processed, c, gc[c], 4)
    ensures Frontier(open, toSearch, processed, gc)
  {
    forall p, q | p in gc && Adjacent(p, q) && q in open
      ensures q in processed || Waiting(toSearch, q, gc[p] + 1)
    {
      if p == c {
        StepsAreAdjacent(c, q);
        assert q == Add(c, Directions[0]) || q == Add(c, Directions[1]) ||
               q == Add(c, Directions[2]) || q == Add(c, Directions[3]);
      }
    }
  }

  /** A child of a node hanging off the start, one step onto an open cell
      outside the parent's lineage, hangs off the start too, and the list
      with it appended is well formed. */
  lemma AddChild(open: set<Pos>, s: Pos, toSearch: seq<Node>, processed: set<Pos>, child: Node)
    requires Listed(open, s, toSearch, processed)
    requires child.parent.Some? && Hangs(open, s, child.parent.value)
    requires Lineage(child.parent.value) <= processed
    requires Adjacent(child.parent.value.position, child.position)
    requires child.position in open && child.position !in processed
    requires child.gCost == child.parent.value.gCost + 1
    ensures Hangs(open, s, child)
    ensures Listed(open, s, toSearch + [child], processed)
  {
    assert Placed(open, s, child, processed);
  }

  /** A child hanging off the start weighs a fifth of its parent. */
  lemma ChildWeight(open: set<Pos>, s: Pos, child: Node)
    requires Hangs(open, s, child) && child.parent.Some?
    ensures Weight(child.parent.value, |open + {s}|) == 5 * Weight(child, |open + {s}|)
  {
    LineageCount(open, s, child);
  }

  /** At most four children of `current` appended to the list weigh less
      together than `current` does. */
  lemma ChildrenWeigh(open: set<Pos>, s: Pos, current: Node, toSearch: seq<Node>, children: seq<Node>)
    requires Hangs(open, s, current) && |children| <= 4
    requires forall n :: n in children ==> Hangs(open, s, n) && n.parent == Some(current)
    ensures Potential(toSearch + children, |open + {s}|) < Potential(toSearch, |open + {s}|) + Weight(current, |open + {s}|)
  {
    var bound := |open + {s}|;
    var w := Weight(current, bound);
    LineageCount(open, s, current);
    PotentialAppend(toSearch, children, bound);
    ChildrenPotential(open, s, current, children);
    TimesGrows(|children|, 4, w);
    assert Times(4, w) == 4 * w by {
      assert Times(1, w) == w;
      assert Times(2, w) == Times(1, w) + w;
      assert Times(3, w) == Times(2, w) + w;
    }
  }

  /** More copies add up to more. */
  lemma {:induction false} TimesGrows(n: nat, m: nat, w: nat)
    requires n <= m
    ensures Times(n, w) <= Times(m, w)
  {
    if n < m {
      TimesGrows(n, m - 1, w);
    }
  }

  /** `n` copies of `w`, added up. */
  function Times(n: nat, w: nat): nat {
    if n == 0 then 0 else Times(n - 1, w) + w
  }

  /** Each child of `current` weighs a fifth of it. */
  lemma {:induction false} ChildrenPotential(open: set<Pos>, s: Pos, current: Node, children: seq<Node>)
    requires forall n :: n in children ==> Hangs(open, s, n) && n.parent == Some(current)
    ensures 5 * Potential(children, |open + {s}|) == Times(|children|, Weight(current, |open + {s}|))
  {
    if children != [] {
      var last := children[|children| - 1];
      var front := children[..|children| - 1];
      assert last in children;
      assert forall n :: n in front ==> n in children;
      ChildrenPotential(open, s, current, front);
      ChildWeight(open, s, last);
    }
  }

  // ---------------------------------------------------------------------
  // Why the chosen node is at its shortest distance.

  /** With a consistent heuristic, a chosen node at a position not yet
      processed is at its shortest distance: a shorter walk would leave the
      processed positions onto a cell whose listed node, by the frontier
      and the heuristic, has a smaller `F`. */
  lemma SelectedShortest(open: set<Pos>, s: Pos, t: Pos, distance: (Pos, Pos) -> real, toSearch: seq<Node>,
                         processed: set<Pos>, gc: map<Pos, int>, i: int, w: seq<Pos>)
    requires Inv(open, s, t, distance, toSearch, processed, gc) && Consistent(distance, t)
    requires 0 <= i < |toSearch| && forall j :: 0 <= j < |toSearch| ==> !Precedes(toSearch[j], toSearch[i])
    requires toSearch[i].position !in processed
    requires IsWalkBetween(open, w, s, toSearch[i].position)
    ensures toSearch[i].gCost + 1 <= |w|
  {
    var c := toSearch[i];
    assert c in toSearch;
    if s in processed {
      var j := FirstOutside(w, processed);
      var p, q := w[j - 1], w[j];
      assert Adjacent(p, q) && q in open;
      var k :| 0 <= k < |toSearch| && toSearch[k].position == q && toSearch[k].gCost <= gc[p] + 1;
      assert toSearch[k] in toSearch;
      PrefixIsWalk(open, w, j);
      assert IsWalkBetween(open, w[..j], s, p);
      SuffixIsWalk(open, w, j);
      WalkHeuristic(open, w[j..], distance, t);
      assert FCost(c) <= FCost(toSearch[k]);
    }
  }

  /** With a consistent heuristic, taking a node at a new position keeps
      every processed position at its shortest distance. */
  lemma ProcessShortest(open: set<Pos>, s: Pos, t: Pos, distance: (Pos, Pos) -> real, toSearch: seq<Node>,
                        processed: set<Pos>, gc: map<Pos, int>, i: int)
    requires Inv(open, s, t, distance, toSearch, processed, gc) && Consistent(distance, t)
    requires 0 <= i < |toSearch| && forall j :: 0 <= j < |toSearch| ==> !Precedes(toSearch[j], toSearch[i])
    requires toSearch[i].position !in processed
    ensures forall w :: IsWalkBetween(open, w, s, toSearch[i].position) ==> toSearch[i].gCost + 1 <= |w|
    ensures Shortest(open, s, gc[toSearch[i].position := toSearch[i].gCost])
  {
    forall w | IsWalkBetween(open, w, s, toSearch[i].position) ensures toSearch[i].gCost + 1 <= |w| {
      SelectedShortest(open, s, t, distance, toSearch, processed, gc, i, w);
    }
  }

  // ---------------------------------------------------------------------
  // One round, in three steps.

  /** What is left after the chosen node `c` is taken off the list and
      its position processed: the rest of the list and `c` hang off the
      start, the frontier holds except around `c`, and around `c` too unless
      `c` is the first node at its position (then `gc` records its `G`). */
  ghost predicate Taken(open: set<Pos>, s: Pos, t: Pos, distance: (Pos, Pos) -> real, rest: seq<Node>,
                        processed: set<Pos>, gc: map<Pos, int>, c: Node) {
    Listed(open, s, rest, processed) && Estimated(rest, distance, t) &&
    Hangs(open, s, c) && Lineage(c) <= processed &&
    gc.Keys == processed && c.position in gc &&
    FrontierExcept(open, rest, processed, gc, c.position) &&
    (gc[c.position] == c.gCost || Frontier(open, rest, processed, gc)) &&
    processed <= open + {s} && t !in processed && s in processed &&
    (Consistent(distance, t) ==> Shortest(open, s, gc))
  }

  /** The chosen node is at the end: its chain is a walk to the end, a
      shortest one when the heuristic is consistent, and the start alone
      when the start is the end. */
  lemma FoundStep(open: set<Pos>, s: Pos, t: Pos, distance: (Pos, Pos) -> real, toSearch: seq<Node>,
                  processed: set<Pos>, gc: map<Pos, int>, i: int)
    requires Inv(open, s, t, distance, toSearch, processed, gc)
    requires 0 <= i < |toSearch| && forall j :: 0 <= j < |toSearch| ==> !Precedes(toSearch[j], toSearch[i])
    requires toSearch[i].position == t
    ensures IsWalkBetween(open, Chain(toSearch[i]), s, t)
    ensures Consistent(distance, t) ==> IsDistance(open, s, t, |Chain(toSearch[i])| - 1)
    ensures s == t ==> Chain(toSearch[i]) == [s]
  {
    var c := toSearch[i];
    assert c in toSearch;
    ChainIsWalk(open, s, c);
    if Consistent(distance, t) {
      ProcessShortest(open, s, t, distance, toSearch, processed, gc, i);
    }
    if s == t {
      assert toSearch == [Root(s)];
    }
  }

  /** The chosen node is not at the end: taking it off the list and
      processing its position leaves what `Expand` needs. */
  lemma CloseStep(open: set<Pos>, s: Pos, t: Pos, distance: (Pos, Pos) -> real, toSearch: seq<Node>,
                  processed: set<Pos>, gc: map<Pos, int>, i: int)
    requires Inv(open, s, t, distance, toSearch, processed, gc)
    requires 0 <= i < |toSearch| && forall j :: 0 <= j < |toSearch| ==> !Precedes(toSearch[j], toSearch[i])
    requires toSearch[i].position != t
    ensures var c := toSearch[i];
      Taken(open, s, t, distance, Without(toSearch, i), processed + {c.position},
            if c.position in processed then gc else gc[c.position := c.gCost], c)
  {
    var c := toSearch[i];
    assert c in toSearch;
    LineageCount(open, s, c);
    TakeOff(open, s, t, distance, toSearch, processed, gc, i);
    if Consistent(distance, t) && c.position !in processed {
      ProcessShortest(open, s, t, distance, toSearch, processed, gc, i);
    }
    if s !in processed {
      assert toSearch == [Root(s)];
    }
  }

  /** The invariant, put back together after the neighbours of the node
      taken off are expanded. */
  lemma Reassembled(open: set<Pos>, s: Pos, t: Pos, distance: (Pos, Pos) -> real, rest: seq<Node>,
                    children: seq<Node>, processed: set<Pos>, gc: map<Pos, int>, c: Node)
    requires Taken(open, s, t, distance, rest, processed, gc, c)
    requires Listed(open, s, rest + children, processed) && Estimated(rest + children, distance, t)
    requires NeighboursCovered(open, rest + children, processed, c.position, c.gCost, 4)
    ensures Inv(open, s, t, distance, rest + children, processed, gc)
  {
    FrontierAppend(open, rest, processed, gc, c.position, children);
    if gc[c.position] == c.gCost {
      Covered(open, rest + children, processed, gc, c.position);
    }
  }

  // ---------------------------------------------------------------------
  // The search.

  /** One round of the search loop: the best listed node is taken off the
      list and its position processed; if it is at the end its chain comes
      back, a shortest walk when the heuristic is consistent; otherwise its
      neighbours are expanded, the invariant holds again and the list
      weighs less. */
  method FindStep(grid: MazeRuntimeGrid, startPos: Pos, endPos: Pos, distance: (Pos, Pos) -> real,
                  toSearch: seq<Node>, processed: set<Pos>, ghost open: set<Pos>, ghost gc: map<Pos, int>)
    returns (toSearch': seq<Node>, processed': set<Pos>, ghost gc': map<Pos, int>, found: Option<seq<Pos>>)
    requires open == grid.OpenCells()
    requires Inv(open, startPos, endPos, distance, toSearch, processed, gc) && |toSearch| > 0
    ensures found.Some? ==>
      IsWalkBetween(open, found.value, startPos, endPos) &&
      (Consistent(distance, endPos) ==> IsDistance(open, startPos, endPos, |found.value| - 1)) &&
      (startPos == endPos ==> found.value == [endPos])
    ensures found.None? ==>
      Inv(open, startPos, endPos, distance, toSearch', processed', gc') &&
      Potential(toSearch', |open + {startPos}|) < Potential(toSearch, |open + {startPos}|)
  {
    var i := SelectCurrent(toSearch);
    var current := toSearch[i];
    processed' := processed + {current.position};
    gc' := if current.position in processed then gc else gc[current.position := current.gCost];
    toSearch' := Without(toSearch, i);
    if current.position == endPos {
      FoundStep(open, startPos, endPos, distance, toSearch, processed, gc, i);
      var path := ReconstructPath(current);
      return toSearch', processed', gc', Some(path);
    }
    CloseStep(open, startPos, endPos, distance, toSearch, processed, gc, i);
    PotentialWithout(toSearch, i, |open + {startPos}|);
    ghost var rest := toSearch';
    ghost var children;
    toSearch', children := Expand(grid, toSearch', processed', current, endPos, distance, open, startPos);
    Reassembled(open, startPos, endPos, distance, rest, children, processed', gc', current);
    found := None;
  }

  /** `Pathfinder.FindPath`: `None` (the C# `null`) when the list runs
      out, which happens exactly when no walk leads from the start to the
      end; otherwise a walk from the start to the end, a shortest one when
      `distance` is consistent (one step changes it by at most one), as the
      Euclidean distance is, and `[startPos]` when the two
      coincide.  The search always ends. */
  method FindPath(grid: MazeRuntimeGrid, startPos: Pos, endPos: Pos, distance: (Pos, Pos) -> real)
    returns (path: Option<seq<Pos>>)
    ensures path.None? ==> !Reachable(grid.OpenCells(), startPos, endPos)
    ensures path.Some? ==> IsWalkBetween(grid.OpenCells(), path.value, startPos, endPos)
    ensures path.Some? && Consistent(distance, endPos) ==>
      IsDistance(grid.OpenCells(), startPos, endPos, |path.value| - 1)
    ensures path.Some? && Euclidean(distance) ==>
      IsDistance(grid.OpenCells(), startPos, endPos, |path.value| - 1)
    ensures startPos == endPos ==> path == Some([startPos])
  {
    ghost var open := grid.OpenCells();
    if Euclidean(distance) {
      EuclideanConsistent(distance, endPos);
    }
    var toSearch := [Root(startPos)];
    var processed: set<Pos> := {};
    ghost var gc: map<Pos, int> := map[];
    while |toSearch| > 0
      invariant Inv(open, startPos, endPos, distance, toSearch, processed, gc)
      decreases Potential(toSearch, |open + {startPos}|)
    {
      var found;
      toSearch, processed, gc, found := FindStep(grid, startPos, endPos, distance, toSearch, processed, open, gc);
      if found.Some? {
        return found;
      }
    }
    forall w | IsWalkBetween(open, w, startPos, endPos) ensures false {
      ProcessedWalk(open, startPos, processed, gc, w);
    }
    return None;
  }
}
