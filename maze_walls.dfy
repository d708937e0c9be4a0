/** The wall masks of the procedural generator (`MazeGenerator.cs`), as
    values.  A cell's mask holds one bit per wall still standing: East 1,
    North 2, West 4, South 8.  The generator's `grid[column, row]` is read as
    a `Board`, a map from `Pos(column, row)` to the cell's mask, and every
    property of the generator is stated on boards. */
module MazeWalls {
  import opened Geometry

  /** A wall mask.  The C# grid is an `int[,]` whose entries never leave
      `0..15`; the four low bits are kept as a byte. */
  type Mask = bv8

  const East: Mask := 1
  const North: Mask := 2
  const West: Mask := 4
  const South: Mask := 8
  const All: Mask := 15

  /** `DIRS`: East (+x), North (+y), West (-x), South (-y). */
  const Dirs: seq<Pos> := [Pos(1, 0), Pos(0, 1), Pos(-1, 0), Pos(0, -1)]
  /** `DIR_TO_WALL`: the wall crossed when leaving a cell in each direction. */
  const DirToWall: seq<Mask> := [East, North, West, South]
  /** `OPPOSITE_WALL`: the same wall seen from the cell entered. */
  const OppositeWall: seq<Mask> := [West, South, East, North]

  predicate IsWallBit(y: Mask) {
    y == East || y == North || y == West || y == South
  }

  /** `(m & bit) != 0`. */
  predicate Has(m: Mask, bit: Mask) {
    m & bit != 0
  }

  /** `m & ~bit`: the wall `bit` comes down and every other wall stays. */
  function Clear(m: Mask, bit: Mask): (r: Mask)
    requires IsWallBit(bit)
    ensures forall y :: IsWallBit(y) ==> (Has(r, y) <==> Has(m, y) && y != bit)
    ensures m & !All == 0 ==> r & !All == 0
  {
    m & !bit
  }

  /** The three direction tables agree: leaving `a` in direction `d` crosses
      `DirToWall[d]`, which `b = a + Dirs[d]` sees as `OppositeWall[d]`. */
  lemma DirectionTables(a: Pos, b: Pos, d: int)
    requires 0 <= d < 4 && b == Add(a, Dirs[d])
    ensures a != b && IsWallBit(DirToWall[d]) && IsWallBit(OppositeWall[d])
    ensures d == 0 ==> b == Pos(a.x + 1, a.y) && DirToWall[d] == East && OppositeWall[d] == West
    ensures d == 1 ==> b == Pos(a.x, a.y + 1) && DirToWall[d] == North && OppositeWall[d] == South
    ensures d == 2 ==> b == Pos(a.x - 1, a.y) && DirToWall[d] == West && OppositeWall[d] == East
    ensures d == 3 ==> b == Pos(a.x, a.y - 1) && DirToWall[d] == South && OppositeWall[d] == North
  {
  }

  predicate InBounds(w: int, h: int, p: Pos) {
    0 <= p.x < w && 0 <= p.y < h
  }

  /** The cells of a `w × h` maze. */
  ghost function Cells(w: int, h: int): (cells: set<Pos>)
    ensures forall p :: p in cells <==> InBounds(w, h, p)
  {
    var cells := set c, r | 0 <= c < w && 0 <= r < h :: Pos(c, r);
    assert forall p :: InBounds(w, h, p) ==> p in cells by {
      forall p | InBounds(w, h, p) ensures p in cells {
        assert p == Pos(p.x, p.y);
      }
    }
    cells
  }

  /** The cells of column `c` of a maze `h` cells high. */
  ghost function Column(c: int, h: int): (cells: set<Pos>)
    ensures forall p: Pos :: p in cells <==> p.x == c && 0 <= p.y < h
  {
    var cells := set r | 0 <= r < h :: Pos(c, r);
    assert forall p: Pos :: p.x == c && 0 <= p.y < h ==> p in cells by {
      forall p: Pos | p.x == c && 0 <= p.y < h ensures p in cells {
        assert p == Pos(c, p.y);
      }
    }
    cells
  }

  /** A column `h` cells high has `h` cells. */
  lemma {:induction false} ColumnCount(c: int, h: nat)
    ensures |Column(c, h)| == h
  {
    if h > 0 {
      var below, top := Column(c, h - 1), Pos(c, h - 1);
      ColumnCount(c, h - 1);
      assert top !in below;
      assert Column(c, h) == below + {top};
      assert |below + {top}| == |below| + 1;
    } else {
      assert Column(c, h) == {};
    }
  }

  /** The cells of a `w × h` maze are those of the first `w - 1` columns
      and, apart from them, the last column. */
  lemma CellsSplit(w: int, h: int)
    requires w > 0
    ensures Cells(w, h) == Cells(w - 1, h) + Column(w - 1, h)
    ensures Cells(w - 1, h) !! Column(w - 1, h)
  {
  }

  /** A `w × h` maze has `w * h` cells. */
  lemma {:induction false} CellCount(w: nat, h: nat)
    ensures |Cells(w, h)| == w * h
  {
    if w > 0 {
      var front, last := Cells(w - 1, h), Column(w - 1, h);
      ColumnCount(w - 1, h);
      CellCount(w - 1, h);
      CellsSplit(w, h);
      assert |Cells(w, h)| == |front| + |last|;
      assert (w - 1) * h + h == w * h;
    } else {
      assert Cells(w, h) == {};
    }
  }

  /** The masks of a maze, cell by cell. */
  type Board = map<Pos, Mask>

  /** Cell `p` exists and still has the wall `bit`. */
  predicate HasWall(b: Board, p: Pos, bit: Mask) {
    p in b && Has(b[p], bit)
  }

  /** Every mask is a subset of `All`. */
  ghost predicate InRange(b: Board) {
    forall p :: p in b ==> b[p] & !All == 0
  }

  /** The East wall of `(c, r)` stands exactly when the West wall of
      `(c + 1, r)` does. */
  predicate EastAgrees(b: Board, c: int, r: int) {
    HasWall(b, Pos(c, r), East) <==> HasWall(b, Pos(c + 1, r), West)
  }

  /** The North wall of `(c, r)` stands exactly when the South wall of
      `(c, r + 1)` does. */
  predicate NorthAgrees(b: Board, c: int, r: int) {
    HasWall(b, Pos(c, r), North) <==> HasWall(b, Pos(c, r + 1), South)
  }

  /** The two sides of every inner wall agree. */
  ghost predicate Symmetric(w: int, h: int, b: Board) {
    (forall c, r :: 0 <= c < w - 1 && 0 <= r < h ==> EastAgrees(b, c, r)) &&
    (forall c, r :: 0 <= c < w && 0 <= r < h - 1 ==> NorthAgrees(b, c, r))
  }

  /** The outer boundary is closed. */
  ghost predicate Bordered(w: int, h: int, b: Board) {
    (forall r :: 0 <= r < h ==> HasWall(b, Pos(0, r), West) && HasWall(b, Pos(w - 1, r), East)) &&
    (forall c :: 0 <= c < w ==> HasWall(b, Pos(c, 0), South) && HasWall(b, Pos(c, h - 1), North))
  }

  /** A `w × h` board whose masks are in range, whose walls agree on both
      sides and whose boundary is closed: what every phase of the generator
      keeps. */
  ghost predicate Sound(w: int, h: int, b: Board) {
    b.Keys == Cells(w, h) && InRange(b) && Symmetric(w, h, b) && Bordered(w, h, b)
  }

  /** Every wall standing in `b1` also stands in `b0`: `b1` was obtained
      from `b0` by clearing bits only. */
  ghost predicate Fewer(b1: Board, b0: Board) {
    b1.Keys == b0.Keys &&
    forall p, y :: IsWallBit(y) && HasWall(b1, p, y) ==> HasWall(b0, p, y)
  }

  lemma FewerRefl(b: Board)
    ensures Fewer(b, b)
  {
  }

  lemma FewerTransitive(b2: Board, b1: Board, b0: Board)
    requires Fewer(b2, b1) && Fewer(b1, b0)
    ensures Fewer(b2, b0)
  {
  }

  /** The board with every wall up (`Wall.All` everywhere). */
  ghost function AllWalls(w: int, h: int): (b: Board)
    ensures b.Keys == Cells(w, h)
  {
    map p | p in Cells(w, h) :: All
  }

  /** A board with every wall up is sound. */
  lemma AllWallsSound(w: int, h: int)
    requires w > 0 && h > 0
    ensures Sound(w, h, AllWalls(w, h))
  {
  }

  /** `RemoveWallBetween` on boards: the wall leaving `a` in direction `d`
      comes down on both of its sides. */
  function RemoveWall(b: Board, a: Pos, d: int): (r: Board)
    requires 0 <= d < 4 && a in b && Add(a, Dirs[d]) in b
  {
    var n := Add(a, Dirs[d]);
    b[a := Clear(b[a], DirToWall[d])][n := Clear(b[n], OppositeWall[d])]
  }

  /** What `RemoveWall` does: it keeps the cells and every wall bit except
      the two sides of the removed wall. */
  lemma RemoveWallEffect(b: Board, a: Pos, d: int, p: Pos, y: Mask)
    requires 0 <= d < 4 && a in b && Add(a, Dirs[d]) in b && IsWallBit(y)
    ensures RemoveWall(b, a, d).Keys == b.Keys
    ensures HasWall(RemoveWall(b, a, d), p, y) <==>
      HasWall(b, p, y) && !(p == a && y == DirToWall[d]) && !(p == Add(a, Dirs[d]) && y == OppositeWall[d])
  {
    DirectionTables(a, Add(a, Dirs[d]), d);
  }

  /** Removing a wall only clears bits. */
  lemma RemoveWallFewer(b: Board, a: Pos, d: int)
    requires 0 <= d < 4 && a in b && Add(a, Dirs[d]) in b
    ensures Fewer(RemoveWall(b, a, d), b)
  {
    forall p, y | IsWallBit(y) && HasWall(RemoveWall(b, a, d), p, y) ensures HasWall(b, p, y) {
      RemoveWallEffect(b, a, d, p, y);
    }
    RemoveWallEffect(b, a, d, a, East);
  }

  /** Removing the wall between two cells of a sound board keeps it sound:
      the masks stay in range, both sides of the wall come down together and
      the boundary is never touched, because both cells are inside. */
  lemma RemoveWallSound(w: int, h: int, b: Board, a: Pos, d: int)
    requires Sound(w, h, b)
    requires 0 <= d < 4 && InBounds(w, h, a) && InBounds(w, h, Add(a, Dirs[d]))
    ensures Sound(w, h, RemoveWall(b, a, d))
  {
    var n := Add(a, Dirs[d]);
    var b' := RemoveWall(b, a, d);
    DirectionTables(a, n, d);
    RemoveWallEffect(b, a, d, a, East);
    forall c, r | 0 <= c < w - 1 && 0 <= r < h ensures EastAgrees(b', c, r) {
      assert EastAgrees(b, c, r);
      RemoveWallEffect(b, a, d, Pos(c, r), East);
      RemoveWallEffect(b, a, d, Pos(c + 1, r), West);
    }
    forall c, r | 0 <= c < w && 0 <= r < h - 1 ensures NorthAgrees(b', c, r) {
      assert NorthAgrees(b, c, r);
      RemoveWallEffect(b, a, d, Pos(c, r), North);
      RemoveWallEffect(b, a, d, Pos(c, r + 1), South);
    }
    forall r | 0 <= r < h ensures HasWall(b', Pos(0, r), West) && HasWall(b', Pos(w - 1, r), East) {
      RemoveWallEffect(b, a, d, Pos(0, r), West);
      RemoveWallEffect(b, a, d, Pos(w - 1, r), East);
    }
    forall c | 0 <= c < w ensures HasWall(b', Pos(c, 0), South) && HasWall(b', Pos(c, h - 1), North) {
      RemoveWallEffect(b, a, d, Pos(c, 0), South);
      RemoveWallEffect(b, a, d, Pos(c, h - 1), North);
    }
  }

  // ---------------------------------------------------------------------
  // Passages and connectivity.

  /** One step from `p` to its neighbour `q` through a wall that is down on
      `p`'s side. */
  predicate Passage(b: Board, p: Pos, q: Pos) {
    p in b && q in b &&
    ((q == Pos(p.x + 1, p.y) && !Has(b[p], East)) ||
     (q == Pos(p.x, p.y + 1) && !Has(b[p], North)) ||
     (q == Pos(p.x - 1, p.y) && !Has(b[p], West)) ||
     (q == Pos(p.x, p.y - 1) && !Has(b[p], South)))
  }

  /** `w` walks from `s` to `t` through open walls only. */
  ghost predicate Connects(b: Board, w: seq<Pos>, s: Pos, t: Pos) {
    |w| > 0 && w[0] == s && w[|w| - 1] == t && s in b &&
    forall i :: 0 < i < |w| ==> Passage(b, w[i - 1], w[i])
  }

  /** Every cell can be reached from every other one. */
  ghost predicate Connected(b: Board) {
    forall p, q :: p in b && q in b ==> exists w :: Connects(b, w, p, q)
  }

  /** The wall just removed is a passage. */
  lemma RemoveWallOpens(b: Board, a: Pos, d: int)
    requires 0 <= d < 4 && a in b && Add(a, Dirs[d]) in b
    ensures Passage(RemoveWall(b, a, d), a, Add(a, Dirs[d]))
  {
    RemoveWallEffect(b, a, d, a, DirToWall[d]);
  }

  /** Clearing walls keeps every walk a walk. */
  lemma ConnectsKept(b1: Board, b0: Board, w: seq<Pos>, s: Pos, t: Pos)
    requires Fewer(b1, b0) && Connects(b0, w, s, t)
    ensures Connects(b1, w, s, t)
  {
    forall i | 0 < i < |w| ensures Passage(b1, w[i - 1], w[i]) {
      var p := w[i - 1];
      assert Passage(b0, p, w[i]);
      assert !HasWall(b1, p, East) || HasWall(b0, p, East);
      assert !HasWall(b1, p, North) || HasWall(b0, p, North);
      assert !HasWall(b1, p, West) || HasWall(b0, p, West);
      assert !HasWall(b1, p, South) || HasWall(b0, p, South);
    }
  }

  /** Clearing walls keeps a connected board connected. */
  lemma ConnectedKept(b1: Board, b0: Board)
    requires Fewer(b1, b0) && Connected(b0)
    ensures Connected(b1)
  {
    forall p, q | p in b1 && q in b1 ensures exists w :: Connects(b1, w, p, q) {
      var w :| Connects(b0, w, p, q);
      ConnectsKept(b1, b0, w, p, q);
    }
  }

  /** On a board whose walls agree on both sides, passages go both ways. */
  lemma PassageBack(w: int, h: int, b: Board, p: Pos, q: Pos)
    requires Sound(w, h, b) && Passage(b, p, q)
    ensures Passage(b, q, p)
  {
    if q == Pos(p.x + 1, p.y) {
      assert EastAgrees(b, p.x, p.y);
    } else if q == Pos(p.x - 1, p.y) {
      assert EastAgrees(b, q.x, q.y);
    } else if q == Pos(p.x, p.y + 1) {
      assert NorthAgrees(b, p.x, p.y);
    } else {
      assert NorthAgrees(b, q.x, q.y);
    }
  }

  /** A walk read backwards, on such a board, is a walk. */
  lemma {:induction false} ConnectsBack(w: int, h: int, b: Board, path: seq<Pos>, s: Pos, t: Pos)
    returns (back: seq<Pos>)
    requires Sound(w, h, b) && Connects(b, path, s, t)
    ensures Connects(b, back, t, s)
  {
    if |path| == 1 {
      back := path;
    } else {
      var u := path[..|path| - 1];
      var prev := path[|path| - 2];
      assert Connects(b, u, s, prev);
      var ub := ConnectsBack(w, h, b, u, s, prev);
      PassageBack(w, h, b, prev, t);
      back := [t] + ub;
      forall i | 0 < i < |back| ensures Passage(b, back[i - 1], back[i]) {
        if i > 1 {
          assert back[i - 1] == ub[i - 2] && back[i] == ub[i - 1];
        }
      }
    }
  }

  /** Two walks that meet join into one. */
  lemma JoinWalks(b: Board, u: seq<Pos>, v: seq<Pos>, s: Pos, m: Pos, t: Pos)
    requires Connects(b, u, s, m) && Connects(b, v, m, t)
    ensures Connects(b, u + v[1..], s, t)
  {
    var w := u + v[1..];
    forall i | 0 < i < |w| ensures Passage(b, w[i - 1], w[i]) {
      if i >= |u| {
        assert w[i] == v[i - |u| + 1] && w[i - 1] == v[i - |u|];
      }
    }
  }

  /** A sound board on which every cell is reachable from one cell is
      connected. */
  lemma ConnectedFromOne(w: int, h: int, b: Board, s: Pos)
    requires Sound(w, h, b)
    requires forall p :: p in b ==> exists path :: Connects(b, path, s, p)
    ensures Connected(b)
  {
    forall p, q | p in b && q in b ensures exists path :: Connects(b, path, p, q) {
      var u :| Connects(b, u, s, p);
      var v :| Connects(b, v, s, q);
      var ub := ConnectsBack(w, h, b, u, s, p);
      JoinWalks(b, ub, v, p, s, q);
    }
  }

  // ---------------------------------------------------------------------
  // Open inner walls, and walls taken down one after another.

  /** The wall leaving `cell` in direction `dir` (an index into `Dirs`). */
  datatype WallRef = WallRef(cell: Pos, dir: int)

  /** The same wall named from its West or South side: the cell there and
      `0` (its East wall) or `1` (its North wall). */
  function Edge(a: Pos, d: int): (e: WallRef)
    requires 0 <= d < 4
    ensures 0 <= e.dir < 2
    ensures d < 2 ==> e == WallRef(a, d)
    ensures d >= 2 ==> e == WallRef(Add(a, Dirs[d]), d - 2) && Add(e.cell, Dirs[e.dir]) == a
  {
    if d < 2 then WallRef(a, d) else WallRef(Add(a, Dirs[d]), d - 2)
  }

  /** The inner walls that are down, each named once, from its West or
      South side. */
  ghost function OpenInner(b: Board): (s: set<WallRef>)
    ensures forall e :: e in s <==>
      e.cell in b && 0 <= e.dir < 2 && Add(e.cell, Dirs[e.dir]) in b && !Has(b[e.cell], DirToWall[e.dir])
  {
    set p, k | p in b && 0 <= k < 2 && Add(p, Dirs[k]) in b && !Has(b[p], DirToWall[k]) :: WallRef(p, k)
  }

  /** With every wall up, no inner wall is down. */
  lemma OpenInnerAllWalls(w: int, h: int)
    ensures OpenInner(AllWalls(w, h)) == {}
  {
  }

  /** Taking a wall down opens that inner wall and no other one; it was
      closed before exactly when its West or South side stood. */
  lemma OpenInnerRemove(b: Board, a: Pos, d: int)
    requires 0 <= d < 4 && a in b && Add(a, Dirs[d]) in b
    ensures OpenInner(RemoveWall(b, a, d)) == OpenInner(b) + {Edge(a, d)}
    ensures d < 2 ==> (Edge(a, d) !in OpenInner(b) <==> HasWall(b, a, DirToWall[d]))
    ensures d >= 2 ==> (Edge(a, d) !in OpenInner(b) <==> HasWall(b, Add(a, Dirs[d]), OppositeWall[d]))
  {
    var b' := RemoveWall(b, a, d);
    DirectionTables(a, Add(a, Dirs[d]), d);
    RemoveWallEffect(b, a, d, a, East);
    forall e | e in OpenInner(b') ensures e in OpenInner(b) + {Edge(a, d)} {
      DirectionTables(e.cell, Add(e.cell, Dirs[e.dir]), e.dir);
      RemoveWallEffect(b, a, d, e.cell, DirToWall[e.dir]);
    }
    forall e | e in OpenInner(b) + {Edge(a, d)} ensures e in OpenInner(b') {
      DirectionTables(e.cell, Add(e.cell, Dirs[e.dir]), e.dir);
      RemoveWallEffect(b, a, d, e.cell, DirToWall[e.dir]);
    }
  }

  /** Clearing walls never closes an inner wall. */
  lemma OpenInnerGrows(b1: Board, b0: Board)
    requires Fewer(b1, b0)
    ensures OpenInner(b0) <= OpenInner(b1)
    ensures |OpenInner(b0)| <= |OpenInner(b1)|
  {
    forall e | e in OpenInner(b0) ensures e in OpenInner(b1) {
      DirectionTables(e.cell, Add(e.cell, Dirs[e.dir]), e.dir);
      assert !HasWall(b0, e.cell, DirToWall[e.dir]);
    }
    SubsetCount(OpenInner(b0), OpenInner(b1));
  }

  /** On a sound board the two sides of an inner wall stand together. */
  lemma BothSides(w: int, h: int, b: Board, a: Pos, d: int)
    requires Sound(w, h, b) && 0 <= d < 4 && InBounds(w, h, a) && InBounds(w, h, Add(a, Dirs[d]))
    ensures HasWall(b, a, DirToWall[d]) <==> HasWall(b, Add(a, Dirs[d]), OppositeWall[d])
  {
    var n := Add(a, Dirs[d]);
    DirectionTables(a, n, d);
    if d == 0 { assert EastAgrees(b, a.x, a.y); }
    else if d == 1 { assert NorthAgrees(b, a.x, a.y); }
    else if d == 2 { assert EastAgrees(b, n.x, n.y); }
    else { assert NorthAgrees(b, n.x, n.y); }
  }

  /** The wall leaving `cell` in direction `dir` comes down when it stands
      and leads to another cell; otherwise nothing changes. */
  ghost function Opened(b: Board, cell: Pos, dir: int): Board
    requires 0 <= dir < 4
  {
    if HasWall(b, cell, DirToWall[dir]) && Add(cell, Dirs[dir]) in b then RemoveWall(b, cell, dir) else b
  }

  /** Every wall of `rounds` leaves an in-bounds cell towards an in-bounds
      neighbour. */
  ghost predicate InsideRounds(w: int, h: int, rounds: seq<WallRef>) {
    forall i :: 0 <= i < |rounds| ==>
      0 <= rounds[i].dir < 4 && InBounds(w, h, rounds[i].cell) && InBounds(w, h, Add(rounds[i].cell, Dirs[rounds[i].dir]))
  }

  ghost predicate Directions(rounds: seq<WallRef>) {
    forall i :: 0 <= i < |rounds| ==> 0 <= rounds[i].dir < 4
  }

  /** `b` with the walls of `rounds` opened one after another, in order. */
  ghost function OpenEach(b: Board, rounds: seq<WallRef>): Board
    requires Directions(rounds)
    decreases |rounds|
  {
    if rounds == [] then b
    else
      var last := rounds[|rounds| - 1];
      Opened(OpenEach(b, rounds[..|rounds| - 1]), last.cell, last.dir)
  }

  /** Each wall of `rounds` still stood when its turn came. */
  ghost predicate EachStood(b: Board, rounds: seq<WallRef>)
    requires Directions(rounds)
    decreases |rounds|
  {
    rounds != [] ==>
      var last := rounds[|rounds| - 1];
      EachStood(b, rounds[..|rounds| - 1]) && HasWall(OpenEach(b, rounds[..|rounds| - 1]), last.cell, DirToWall[last.dir])
  }

  /** One more round, seen on `OpenEach` and `EachStood`. */
  lemma OpenEachSnoc(b: Board, rounds: seq<WallRef>, r: WallRef)
    requires Directions(rounds) && 0 <= r.dir < 4
    ensures Directions(rounds + [r])
    ensures OpenEach(b, rounds + [r]) == Opened(OpenEach(b, rounds), r.cell, r.dir)
    ensures EachStood(b, rounds + [r]) <==> EachStood(b, rounds) && HasWall(OpenEach(b, rounds), r.cell, DirToWall[r.dir])
  {
    assert (rounds + [r])[..|rounds|] == rounds;
  }

  /** Opening the walls of `rounds` in turn keeps a board sound and only
      clears walls; it opens at most one inner wall per round, and exactly
      one per round when each wall still stood at its turn. */
  lemma {:induction false} OpenEachFacts(w: int, h: int, b: Board, rounds: seq<WallRef>)
    requires Sound(w, h, b) && InsideRounds(w, h, rounds)
    ensures Sound(w, h, OpenEach(b, rounds)) && Fewer(OpenEach(b, rounds), b)
    ensures |OpenInner(OpenEach(b, rounds))| <= |OpenInner(b)| + |rounds|
    ensures EachStood(b, rounds) ==> |OpenInner(OpenEach(b, rounds))| == |OpenInner(b)| + |rounds|
    decreases |rounds|
  {
    if rounds == [] {
      FewerRefl(b);
    } else {
      var prefix, last := rounds[..|rounds| - 1], rounds[|rounds| - 1];
      assert InsideRounds(w, h, prefix);
      OpenEachFacts(w, h, b, prefix);
      var b1 := OpenEach(b, prefix);
      if HasWall(b1, last.cell, DirToWall[last.dir]) {
        var b2 := RemoveWall(b1, last.cell, last.dir);
        RemoveWallSound(w, h, b1, last.cell, last.dir);
        RemoveWallFewer(b1, last.cell, last.dir);
        FewerTransitive(b2, b1, b);
        OpenInnerRemove(b1, last.cell, last.dir);
        BothSides(w, h, b1, last.cell, last.dir);
        assert Edge(last.cell, last.dir) !in OpenInner(b1);
        assert |OpenInner(b2)| == |OpenInner(b1)| + 1;
      }
    }
  }
}
