/** The mutable runtime maze grid (`MazeRuntimeGrid`): one flag per cell,
    `true` for a wall, with bounds-checked edits and a conservative query that
    answers "wall" for every cell it does not hold. */
module RuntimeGrid {
  import opened Geometry

  class MazeRuntimeGrid {
    /** `maze[r, c]` is the cell in row `r`, column `c`; `null` until `Init`. */
    var maze: array2?<bool>

    /** A component that has not been initialised yet holds no rows. */
    constructor ()
      ensures maze == null
    {
      maze := null;
    }

    /** Number of rows; an uninitialised grid has none. */
    function RowCount(): (n: nat)
      reads this
      ensures maze == null ==> n == 0
      ensures maze != null ==> n == maze.Length0
    {
      if maze == null then 0 else maze.Length0
    }

    /** Number of columns of every row; an uninitialised grid has none. */
    function ColCount(): (n: nat)
      reads this
      ensures maze == null ==> n == 0
      ensures maze != null ==> n == maze.Length1
    {
      if maze == null then 0 else maze.Length1
    }

    /** A position is in bounds exactly when it lies in the grid's
        `RowCount() × ColCount()` rectangle; an uninitialised grid has no
        position in bounds. */
    predicate IsWithinBounds(p: Pos)
      reads this
      ensures IsWithinBounds(p) ==> maze != null
      ensures IsWithinBounds(p) <==> 0 <= p.x < RowCount() && 0 <= p.y < ColCount()
    {
      maze != null && 0 <= p.x < maze.Length0 && 0 <= p.y < maze.Length1
    }

    /** The stored flag for an in-bounds cell; `true` (a wall) for every other
        position, and for every position of an uninitialised grid. */
    predicate HasWall(p: Pos)
      reads this, maze
      ensures !IsWithinBounds(p) ==> HasWall(p)
      ensures maze == null ==> HasWall(p)
    {
      if IsWithinBounds(p) then maze[p.x, p.y] else true
    }

    /** The set of cells that are not walls; by `HasWall`'s convention every
        one of them lies inside the grid. */
    ghost function OpenCells(): (open: set<Pos>)
      reads this, maze
      // triggered on `HasWall` only: membership facts about other cells of
      // the set do not query the grid
      ensures forall p {:trigger HasWall(p)} :: p in open <==> !HasWall(p)
    {
      if maze == null then {}
      else
        var cells := set r, c | 0 <= r < maze.Length0 && 0 <= c < maze.Length1 && !maze[r, c] :: Pos(r, c);
        assert forall p :: p in cells <==> !HasWall(p) by {
          forall p | !HasWall(p) ensures p in cells {
            assert IsWithinBounds(p) && !maze[p.x, p.y];
          }
        }
        cells
    }

    /** `rowCount` rows of `colCount` cells, every one empty: exactly the
        positions of that rectangle are in bounds, and none is a wall. */
    method Init(rowCount: nat, colCount: nat)
      modifies this
      ensures maze != null && fresh(maze)
      ensures maze.Length0 == rowCount && maze.Length1 == colCount
      ensures RowCount() == rowCount && ColCount() == colCount
      ensures forall p :: IsWithinBounds(p) <==> 0 <= p.x < rowCount && 0 <= p.y < colCount
      ensures forall r, c :: 0 <= r < rowCount && 0 <= c < colCount ==> !maze[r, c]
      ensures forall p :: IsWithinBounds(p) ==> !HasWall(p)
    {
      maze := new bool[rowCount, colCount]((r, c) => false);
    }

    /** Sets an in-bounds cell to a wall; out of bounds it changes nothing. */
    method AddWall(p: Pos)
      modifies maze
      ensures IsWithinBounds(p) ==> HasWall(p)
      ensures IsWithinBounds(p) ==> maze[p.x, p.y]
      ensures maze != null ==> forall r, c :: 0 <= r < maze.Length0 && 0 <= c < maze.Length1 && Pos(r, c) != p ==>
        maze[r, c] == old(maze[r, c])
      ensures forall q :: q != p ==> HasWall(q) == old(HasWall(q))
    {
      if IsWithinBounds(p) {
        maze[p.x, p.y] := true;
      }
    }

    /** Sets an in-bounds cell to floor; out of bounds it changes nothing. */
    method RemoveWall(p: Pos)
      modifies maze
      ensures IsWithinBounds(p) ==> !HasWall(p)
      ensures maze != null ==> forall r, c :: 0 <= r < maze.Length0 && 0 <= c < maze.Length1 && Pos(r, c) != p ==>
        maze[r, c] == old(maze[r, c])
      ensures forall q :: q != p ==> HasWall(q) == old(HasWall(q))
    {
      if IsWithinBounds(p) {
        maze[p.x, p.y] := false;
      }
    }
  }
}
