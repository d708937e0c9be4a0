/** Grid coordinates shared by every part of the maze core.
    `Pos` mirrors Unity's `Vector2Int`: on the block grids `x` is the row and
    `y` the column; in the generator's wall-mask array `x` is the column and
    `y` the row, exactly as in the C# code. */
module Geometry {

  datatype Pos = Pos(x: int, y: int)

  /** A C# reference that may be `null`. */
  datatype Option<T> = None | Some(value: T)

  /** The parent sentinel `(-1, -1)` used by the BFS parent table. */
  const NoParent: Pos := Pos(-1, -1)

  /** `a + b`, component-wise. */
  function Add(a: Pos, b: Pos): Pos {
    Pos(a.x + b.x, a.y + b.y)
  }

  function Abs(n: int): (r: nat)
    ensures r == n || r == -n
  {
    if n < 0 then -n else n
  }

  /** Two cells are 4-adjacent when one is a single step up, down, left or
      right of the other. */
  predicate Adjacent(a: Pos, b: Pos) {
    b == Pos(a.x + 1, a.y) || b == Pos(a.x - 1, a.y) || b == Pos(a.x, a.y + 1) || b == Pos(a.x, a.y - 1)
  }

  /** The 4-adjacent cells are exactly those at Manhattan distance one. */
  lemma AdjacentAtUnitDistance(a: Pos, b: Pos)
    ensures Adjacent(a, b) <==> Abs(a.x - b.x) + Abs(a.y - b.y) == 1
  {
  }

  /** `Vector2Int.up`, `.down`, `.left` and `.right` (up = +y, right = +x). */
  const Up: Pos := Pos(0, 1)
  const Down: Pos := Pos(0, -1)
  const Left: Pos := Pos(-1, 0)
  const Right: Pos := Pos(1, 0)

  /** Each of the four unit steps leads to an adjacent cell, and every adjacent
      cell is reached by one of them. */
  lemma StepsAreAdjacent(p: Pos, q: Pos)
    ensures Adjacent(p, q) <==> q in {Add(p, Up), Add(p, Down), Add(p, Left), Add(p, Right)}
  {
  }

  /** A subset is no larger than its superset: the counting step behind the
      termination measures of the searches and of the maze carver. */
  lemma {:induction false} SubsetCount<T>(a: set<T>, b: set<T>)
    requires a <= b
    ensures |a| <= |b|
    decreases |b|
  {
    if a != {} {
      var x :| x in a;
      SubsetCount(a - {x}, b - {x});
    }
  }

  /** `s` back to front. */
  function Reversed<T>(s: seq<T>): (r: seq<T>)
    ensures |r| == |s| && forall i :: 0 <= i < |s| ==> r[i] == s[|s| - 1 - i]
  {
    if s == [] then [] else Reversed(s[1..]) + [s[0]]
  }

  /** Reversing a list with one more element at its end puts that element
      first. */
  lemma ReversedSnoc<T>(s: seq<T>, x: T)
    ensures Reversed(s + [x]) == [x] + Reversed(s)
  {
    var r, t := Reversed(s + [x]), [x] + Reversed(s);
    forall i | 0 <= i < |r| ensures r[i] == t[i] {
      if i > 0 {
        assert r[i] == (s + [x])[|s| - i];
      }
    }
  }

  /** `s` without its entry `i`: `List.Remove` on the entry at `i`. */
  function Without<T>(s: seq<T>, i: int): (rest: seq<T>)
    requires 0 <= i < |s|
    ensures |rest| == |s| - 1
    ensures forall k :: 0 <= k < |rest| ==> rest[k] == s[if k < i then k else k + 1]
  {
    s[..i] + s[i + 1..]
  }
}
