/** The part of `MazeController` that turns the generator's wall masks into
    the boolean block grid the runtime uses (`true` is a wall): every maze
    cell becomes an odd-odd block, and every wall between two cells becomes
    the block between them. */
module MazeController {
  import opened Geometry
  import opened MazeWalls

  /** Block `(r, c)` of the block grid of `gen` (`gen[column, row]`, a
      `w × h` maze) is floor.  Floor blocks are the centre `(2gr+1, 2gc+1)`
      of every cell, the block east of a cell whose East wall is down unless
      the cell is in the last column, and the block north of a cell whose
      North wall is down unless the cell is in the last row; the outer border
      and every even-even block stay walls. */
  predicate BlockFloor(gen: array2<Mask>, r: int, c: int)
    reads gen
  {
    var w, h := gen.Length0, gen.Length1;
    0 < r < 2 * h && 0 < c < 2 * w &&
    (if r % 2 == 1 && c % 2 == 1 then true
     else if r % 2 == 1 then !Has(gen[c / 2 - 1, r / 2], East)
     else if c % 2 == 1 then !Has(gen[c / 2, r / 2 - 1], North)
     else false)
  }

  /** Maze cell `(row a, column b)` comes before `(gr, gc)` in the carving
      order (rows outside, columns inside). */
  predicate Before(a: int, b: int, gr: int, gc: int) {
    a < gr || (a == gr && b < gc)
  }

  /** Every block whose maze cell `((r - 1) / 2, (c - 1) / 2)` has been
      carved already is as `BlockFloor` says; every other block is a wall. */
  ghost predicate CarvedUpTo(gen: array2<Mask>, blockGrid: array2<bool>, gr: int, gc: int)
    reads gen, blockGrid
  {
    forall r, c :: 0 <= r < blockGrid.Length0 && 0 <= c < blockGrid.Length1 ==>
      blockGrid[r, c] == !(BlockFloor(gen, r, c) && Before((r - 1) / 2, (c - 1) / 2, gr, gc))
  }

  /** The block grid has the shape `(2h + 1) × (2w + 1)`. */
  ghost predicate Shaped(gen: array2<Mask>, blockGrid: array2<bool>) {
    blockGrid.Length0 == 2 * gen.Length1 + 1 && blockGrid.Length1 == 2 * gen.Length0 + 1
  }

  /** Carves the blocks of maze cell `(gr, gc)`: its centre, and the
      passages east and north of it when those walls are down and lead
      inside the maze. */
  method CarveCell(gen: array2<Mask>, blockGrid: array2<bool>, gr: int, gc: int)
    requires Shaped(gen, blockGrid)
    requires 0 <= gr < gen.Length1 && 0 <= gc < gen.Length0
    requires CarvedUpTo(gen, blockGrid, gr, gc)
    modifies blockGrid
    ensures CarvedUpTo(gen, blockGrid, gr, gc + 1)
  {
    var w, h := gen.Length0, gen.Length1;
    var br, bc := 2 * gr + 1, 2 * gc + 1;
    blockGrid[br, bc] := false;
    if gen[gc, gr] & East == 0 {
      if gc < w - 1 {
        blockGrid[br, bc + 1] := false;
      }
    }
    if gen[gc, gr] & North == 0 {
      if gr < h - 1 {
        blockGrid[br + 1, bc] := false;
      }
    }
    assert blockGrid[br, bc] == !BlockFloor(gen, br, bc);
    assert blockGrid[br, bc + 1] == !BlockFloor(gen, br, bc + 1);
    assert blockGrid[br + 1, bc] == !BlockFloor(gen, br + 1, bc);
    assert forall r, c ::
      (0 <= r < blockGrid.Length0 && 0 <= c < blockGrid.Length1 &&
       (r, c) != (br, bc) && (r, c) != (br, bc + 1) && (r, c) != (br + 1, bc)) ==>
        blockGrid[r, c] == old(blockGrid[r, c]);
    forall r, c | 0 <= r < blockGrid.Length0 && 0 <= c < blockGrid.Length1
      ensures blockGrid[r, c] == !(BlockFloor(gen, r, c) && Before((r - 1) / 2, (c - 1) / 2, gr, gc + 1))
    {
      if (r, c) == (br, bc) || (r, c) == (br, bc + 1) || (r, c) == (br + 1, bc) {
        assert (r - 1) / 2 == gr && (c - 1) / 2 == gc;
      } else if (r, c) == (br + 1, bc + 1) {
        assert !BlockFloor(gen, r, c);
      } else {
        assert Before((r - 1) / 2, (c - 1) / 2, gr, gc + 1) == Before((r - 1) / 2, (c - 1) / 2, gr, gc);
      }
    }
  }

  /** Finishing a row of maze cells is starting the next one. */
  lemma RowDone(gen: array2<Mask>, blockGrid: array2<bool>, gr: int)
    requires Shaped(gen, blockGrid)
    requires CarvedUpTo(gen, blockGrid, gr, gen.Length0)
    ensures CarvedUpTo(gen, blockGrid, gr + 1, 0)
  {
    forall r, c | 0 <= r < blockGrid.Length0 && 0 <= c < blockGrid.Length1
      ensures blockGrid[r, c] == !(BlockFloor(gen, r, c) && Before((r - 1) / 2, (c - 1) / 2, gr + 1, 0))
    {
      assert blockGrid[r, c] == !(BlockFloor(gen, r, c) && Before((r - 1) / 2, (c - 1) / 2, gr, gen.Length0));
      if BlockFloor(gen, r, c) {
        assert (c - 1) / 2 < gen.Length0;
      }
    }
  }

  /** The block grid of a generated maze.  The grid is
      `(2 · genHeight + 1) × (2 · genWidth + 1)`, every block is floor exactly
      when `BlockFloor` says so, and the ball spawns on `(1, 1)`, the centre
      of maze cell `(0, 0)`, which is always floor.  The source's fallback
      to `FindFirstEmptyCell` when `(1, 1)` is a wall cannot be reached for
      the non-empty mazes it accepts. */
  method ConvertGeneratedMazeToBlockGrid(generatedMaze: array2<Mask>)
    returns (blockGrid: array2<bool>, blockGridRows: int, blockGridCols: int, ballSpawnCell: Pos)
    requires generatedMaze.Length0 > 0 && generatedMaze.Length1 > 0
    ensures blockGridRows == blockGrid.Length0 == 2 * generatedMaze.Length1 + 1
    ensures blockGridCols == blockGrid.Length1 == 2 * generatedMaze.Length0 + 1
    ensures forall r, c :: 0 <= r < blockGridRows && 0 <= c < blockGridCols ==>
      (blockGrid[r, c] <==> !BlockFloor(generatedMaze, r, c))
    ensures ballSpawnCell == Pos(1, 1) && !blockGrid[1, 1]
  {
    var genHeight := generatedMaze.Length1;
    var genWidth := generatedMaze.Length0;
    blockGridRows := 2 * genHeight + 1;
    blockGridCols := 2 * genWidth + 1;
    blockGrid := new bool[blockGridRows, blockGridCols]((r, c) => true);
    var gr := 0;
    while gr < genHeight
      invariant 0 <= gr <= genHeight
      invariant CarvedUpTo(generatedMaze, blockGrid, gr, 0)
    {
      var gc := 0;
      while gc < genWidth
        invariant 0 <= gc <= genWidth
        invariant CarvedUpTo(generatedMaze, blockGrid, gr, gc)
      {
        CarveCell(generatedMaze, blockGrid, gr, gc);
        gc := gc + 1;
      }
      RowDone(generatedMaze, blockGrid, gr);
      gr := gr + 1;
    }
    assert BlockFloor(generatedMaze, 1, 1) && Before(0, 0, genHeight, 0);
    ballSpawnCell := Pos(1, 1);
    if blockGrid[1, 1] {
      ballSpawnCell := FindFirstEmptyCell(blockGrid, blockGridRows, blockGridCols);
    }
  }

  /** Block `(r, c)` lies inside the first `rows × cols` blocks. */
  predicate InScan(rows: int, cols: int, p: Pos) {
    0 <= p.x < rows && 0 <= p.y < cols
  }

  /** Every block inside the scanned area that comes before `p` in row-major
      order is a wall. */
  ghost predicate WallsBefore(blockGrid: array2<bool>, rows: int, cols: int, p: Pos)
    reads blockGrid
  {
    forall r, c ::
      (0 <= r < rows && 0 <= c < cols && r < blockGrid.Length0 && c < blockGrid.Length1 &&
       (r < p.x || (r == p.x && c < p.y))) ==> blockGrid[r, c]
  }

  /** The first floor block of the `rows × cols` area in row-major order,
      or `(0, 0)` when the area holds no floor block. */
  method FindFirstEmptyCell(blockGrid: array2<bool>, rows: int, cols: int) returns (cell: Pos)
    requires rows > 0 && cols > 0 ==> rows <= blockGrid.Length0 && cols <= blockGrid.Length1
    ensures (exists r, c :: InScan(rows, cols, Pos(r, c)) && !blockGrid[r, c]) ==>
      InScan(rows, cols, cell) && !blockGrid[cell.x, cell.y] && WallsBefore(blockGrid, rows, cols, cell)
    ensures (forall r, c :: InScan(rows, cols, Pos(r, c)) ==> blockGrid[r, c]) ==> cell == Pos(0, 0)
  {
    var r := 0;
    while r < rows
      invariant 0 <= r <= rows || rows <= 0
      invariant WallsBefore(blockGrid, rows, cols, Pos(r, 0))
    {
      var c := 0;
      while c < cols
        invariant 0 <= c <= cols || cols <= 0
        invariant WallsBefore(blockGrid, rows, cols, Pos(r, c))
      {
        if !blockGrid[r, c] {
          return Pos(r, c);
        }
        c := c + 1;
      }
      r := r + 1;
    }
    return Pos(0, 0);
  }
}
