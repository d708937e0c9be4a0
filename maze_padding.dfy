/** `MazePadding.Pad`: a new runtime grid with a border of walls around an
    existing one, and the ball and exit positions moved into the new grid's
    coordinates. */
module MazePadding {
  import opened Geometry
  import opened RuntimeGrid
  import opened Walks

  /** `p` moved by `k` along both axes. */
  function Shift(p: Pos, k: int): Pos {
    Pos(p.x + k, p.y + k)
  }

  /** Block `(r, c)` of the padded grid lies in the border of width
      `padding` around a `rows × cols` grid. */
  predicate InBorder(rows: int, cols: int, padding: int, r: int, c: int) {
    r < padding || r >= rows + padding || c < padding || c >= cols + padding
  }

  /** What block `(r, c)` of the padded grid holds: a wall in the border,
      the original block `(r - padding, c - padding)` inside it. */
  predicate PaddedWall(original: array2<bool>, padding: int, r: int, c: int)
    reads original
  {
    InBorder(original.Length0, original.Length1, padding, r, c) ||
    (0 <= r - padding < original.Length0 && 0 <= c - padding < original.Length1 &&
     original[r - padding, c - padding])
  }

  /** Every block before `(r, c)` in row-major order is as `PaddedWall`
      says; every later block is still empty. */
  ghost predicate FilledUpTo(original: array2<bool>, padding: int, maze: array2<bool>, r: int, c: int)
    reads original, maze
  {
    forall i, j :: 0 <= i < maze.Length0 && 0 <= j < maze.Length1 ==>
      maze[i, j] == ((i < r || (i == r && j < c)) && PaddedWall(original, padding, i, j))
  }

  /** Fills block `(r, c)` of the padded grid. */
  method FillBlock(originalGrid: MazeRuntimeGrid, padding: int, paddedGrid: MazeRuntimeGrid, r: int, c: int)
    requires originalGrid.maze != null && paddedGrid.maze != null && originalGrid.maze != paddedGrid.maze
    requires padding > 0
    requires paddedGrid.maze.Length0 == originalGrid.maze.Length0 + 2 * padding
    requires paddedGrid.maze.Length1 == originalGrid.maze.Length1 + 2 * padding
    requires 0 <= r < paddedGrid.maze.Length0 && 0 <= c < paddedGrid.maze.Length1
    requires FilledUpTo(originalGrid.maze, padding, paddedGrid.maze, r, c)
    modifies paddedGrid.maze
    ensures FilledUpTo(originalGrid.maze, padding, paddedGrid.maze, r, c + 1)
  {
    var originalRows, originalCols := originalGrid.RowCount(), originalGrid.ColCount();
    if r < padding || r >= originalRows + padding || c < padding || c >= originalCols + padding {
      paddedGrid.AddWall(Pos(r, c));
    } else {
      var originalR, originalC := r - padding, c - padding;
      if originalGrid.maze[originalR, originalC] {
        paddedGrid.AddWall(Pos(r, c));
      }
    }
  }

  /** Finishing row `r` of the padded grid is starting row `r + 1`. */
  lemma NextRow(original: array2<bool>, padding: int, maze: array2<bool>, r: int)
    requires FilledUpTo(original, padding, maze, r, maze.Length1)
    ensures FilledUpTo(original, padding, maze, r + 1, 0)
  {
  }

  /** With `padding <= 0` the original grid and positions come back as they
      are.  Otherwise the result is a new `(rows + 2p) × (cols + 2p)` grid
      whose border of width `p` is walls and whose inside is a copy of the
      original, and both positions move by `p` along both axes.  `Pad`
      modifies no existing object, so the original grid is left as it was. */
  method Pad(originalGrid: MazeRuntimeGrid, padding: int, ballPos: Pos, exitPos: Pos)
    returns (paddedGrid: MazeRuntimeGrid, paddedBall: Pos, paddedExit: Pos)
    requires padding > 0 ==> originalGrid.maze != null && originalGrid.RowCount() > 0
    ensures padding <= 0 ==> paddedGrid == originalGrid && paddedBall == ballPos && paddedExit == exitPos
    ensures padding > 0 ==> fresh(paddedGrid) && fresh(paddedGrid.maze)
    ensures padding > 0 ==>
      paddedGrid.maze != null &&
      paddedGrid.RowCount() == originalGrid.RowCount() + 2 * padding &&
      paddedGrid.ColCount() == originalGrid.ColCount() + 2 * padding &&
      (forall r, c :: 0 <= r < paddedGrid.maze.Length0 && 0 <= c < paddedGrid.maze.Length1 ==>
        paddedGrid.maze[r, c] == PaddedWall(originalGrid.maze, padding, r, c))
    ensures padding > 0 ==> forall p :: paddedGrid.HasWall(Shift(p, padding)) == originalGrid.HasWall(p)
    ensures padding > 0 ==> paddedBall == Shift(ballPos, padding) && paddedExit == Shift(exitPos, padding)
  {
    if padding <= 0 {
      return originalGrid, ballPos, exitPos;
    }
    var originalRows := originalGrid.RowCount();
    var originalCols := originalGrid.ColCount();
    var newRows := originalRows + padding * 2;
    var newCols := originalCols + padding * 2;
    paddedGrid := new MazeRuntimeGrid();
    paddedGrid.Init(newRows, newCols);
    var r := 0;
    while r < newRows
      invariant 0 <= r <= newRows
      invariant paddedGrid.maze != null && fresh(paddedGrid.maze)
      invariant paddedGrid.maze.Length0 == newRows && paddedGrid.maze.Length1 == newCols
      invariant FilledUpTo(originalGrid.maze, padding, paddedGrid.maze, r, 0)
    {
      var c := 0;
      while c < newCols
        invariant 0 <= c <= newCols
        invariant paddedGrid.maze != null && fresh(paddedGrid.maze)
        invariant paddedGrid.maze.Length0 == newRows && paddedGrid.maze.Length1 == newCols
        invariant FilledUpTo(originalGrid.maze, padding, paddedGrid.maze, r, c)
      {
        FillBlock(originalGrid, padding, paddedGrid, r, c);
        c := c + 1;
      }
      NextRow(originalGrid.maze, padding, paddedGrid.maze, r);
      r := r + 1;
    }
    PaddedWalls(originalGrid, padding, paddedGrid);
    paddedBall := Shift(ballPos, padding);
    paddedExit := Shift(exitPos, padding);
  }

  /** On the padded grid, the block `p` moves to answers `HasWall` as `p`
      did on the original grid, wherever `p` is; so the padded grid's open
      blocks are the original's, shifted. */
  lemma PaddedWalls(originalGrid: MazeRuntimeGrid, padding: int, paddedGrid: MazeRuntimeGrid)
    requires originalGrid.maze != null && paddedGrid.maze != null && padding > 0
    requires paddedGrid.maze.Length0 == originalGrid.maze.Length0 + 2 * padding
    requires paddedGrid.maze.Length1 == originalGrid.maze.Length1 + 2 * padding
    requires forall r, c :: 0 <= r < paddedGrid.maze.Length0 && 0 <= c < paddedGrid.maze.Length1 ==>
      paddedGrid.maze[r, c] == PaddedWall(originalGrid.maze, padding, r, c)
    ensures forall p :: paddedGrid.HasWall(Shift(p, padding)) == originalGrid.HasWall(p)
    ensures forall q :: q in paddedGrid.OpenCells() <==> q in Shifted(originalGrid.OpenCells(), padding)
  {
    forall p ensures paddedGrid.HasWall(Shift(p, padding)) == originalGrid.HasWall(p) {
      var q := Shift(p, padding);
      if originalGrid.IsWithinBounds(p) {
        assert paddedGrid.IsWithinBounds(q);
        assert !InBorder(originalGrid.maze.Length0, originalGrid.maze.Length1, padding, q.x, q.y);
      } else if paddedGrid.IsWithinBounds(q) {
        assert InBorder(originalGrid.maze.Length0, originalGrid.maze.Length1, padding, q.x, q.y);
      }
    }
    forall q ensures q in paddedGrid.OpenCells() <==> q in Shifted(originalGrid.OpenCells(), padding) {
      var p := Shift(q, -padding);
      assert Shift(p, padding) == q;
    }
  }

  /** The cells of `s`, each moved by `k`. */
  ghost function Shifted(s: set<Pos>, k: int): (t: set<Pos>)
    ensures forall q :: q in t <==> Shift(q, -k) in s
  {
    var t := set p | p in s :: Shift(p, k);
    assert forall q :: Shift(q, -k) in s ==> q in t by {
      forall q | Shift(q, -k) in s ensures q in t {
        assert Shift(Shift(q, -k), k) == q;
      }
    }
    t
  }

  /** A walk moved by `k` is a walk of the moved open cells, and back. */
  lemma ShiftWalk(open: set<Pos>, w: seq<Pos>, k: int)
    ensures IsWalk(open, w) <==> IsWalk(Shifted(open, k), ShiftAll(w, k))
  {
    var v := ShiftAll(w, k);
    if IsWalk(open, w) {
      forall i | 0 < i < |v| ensures Adjacent(v[i - 1], v[i]) && v[i] in Shifted(open, k) {
        assert Shift(v[i], -k) == w[i];
      }
    }
    if IsWalk(Shifted(open, k), v) {
      forall i | 0 < i < |w| ensures Adjacent(w[i - 1], w[i]) && w[i] in open {
        assert Adjacent(v[i - 1], v[i]);
        assert Shift(v[i], -k) == w[i];
      }
    }
  }

  /** Every cell of `w`, moved by `k`. */
  function ShiftAll(w: seq<Pos>, k: int): (v: seq<Pos>)
    ensures |v| == |w| && forall i :: 0 <= i < |w| ==> v[i] == Shift(w[i], k)
  {
    seq(|w|, i requires 0 <= i < |w| => Shift(w[i], k))
  }

  /** Padding keeps every distance: the shortest walk between two cells of
      the original grid is exactly as long as the shortest walk between the
      cells they moved to, so the ball is as far from the exit as before. */
  lemma PaddingKeepsDistance(open: set<Pos>, k: int, s: Pos, t: Pos, d: int)
    ensures IsDistance(open, s, t, d) <==> IsDistance(Shifted(open, k), Shift(s, k), Shift(t, k), d)
  {
    var open' := Shifted(open, k);
    forall w ensures IsWalkBetween(open, w, s, t) <==> IsWalkBetween(open', ShiftAll(w, k), Shift(s, k), Shift(t, k)) {
      ShiftWalk(open, w, k);
    }
    forall v ensures IsWalkBetween(open', v, Shift(s, k), Shift(t, k)) <==> IsWalkBetween(open, ShiftAll(v, -k), s, t) {
      var w := ShiftAll(v, -k);
      assert ShiftAll(w, k) == v;
      ShiftWalk(open, w, k);
    }
  }
}
