/** Walks over a set of open cells, the vocabulary in which the three searches
    are specified (the set is `MazeRuntimeGrid.OpenCells()` of the searched
    grid).  A walk may start anywhere (A* and the older path finder never test
    their start cell); every later cell is a 4-adjacent step onto an open cell. */
module Walks {
  import opened Geometry

  ghost predicate IsWalk(open: set<Pos>, w: seq<Pos>) {
    |w| > 0 &&
    forall i :: 0 < i < |w| ==> Adjacent(w[i - 1], w[i]) && w[i] in open
  }

  ghost predicate IsWalkBetween(open: set<Pos>, w: seq<Pos>, s: Pos, t: Pos) {
    IsWalk(open, w) && w[0] == s && w[|w| - 1] == t
  }

  ghost predicate Reachable(open: set<Pos>, s: Pos, t: Pos) {
    exists w :: IsWalkBetween(open, w, s, t)
  }

  /** `d` is the least number of steps of any walk from `s` to `t`. */
  ghost predicate IsDistance(open: set<Pos>, s: Pos, t: Pos, d: int) {
    d >= 0 &&
    (exists w :: IsWalkBetween(open, w, s, t) && |w| == d + 1) &&
    (forall w :: IsWalkBetween(open, w, s, t) ==> d + 1 <= |w|)
  }

  /** Every non-empty prefix of a walk is a walk. */
  lemma PrefixIsWalk(open: set<Pos>, w: seq<Pos>, k: int)
    requires IsWalk(open, w) && 0 < k <= |w|
    ensures IsWalk(open, w[..k])
  {
    forall i | 0 < i < k ensures Adjacent(w[..k][i - 1], w[..k][i]) && w[..k][i] in open {
      assert w[..k][i - 1] == w[i - 1] && w[..k][i] == w[i];
    }
  }

  /** A walk extended by one open adjacent cell is a walk. */
  lemma ExtendWalk(open: set<Pos>, w: seq<Pos>, p: Pos)
    requires IsWalk(open, w) && Adjacent(w[|w| - 1], p) && p in open
    ensures IsWalk(open, w + [p])
  {
    var v := w + [p];
    forall i | 0 < i < |v| ensures Adjacent(v[i - 1], v[i]) && v[i] in open {
      if i < |w| {
        assert v[i - 1] == w[i - 1] && v[i] == w[i];
      }
    }
  }

  /** Every non-empty suffix of a walk is a walk. */
  lemma SuffixIsWalk(open: set<Pos>, w: seq<Pos>, k: int)
    requires IsWalk(open, w) && 0 <= k < |w|
    ensures IsWalk(open, w[k..])
  {
    forall i | 0 < i < |w| - k ensures Adjacent(w[k..][i - 1], w[k..][i]) && w[k..][i] in open {
      assert w[k..][i - 1] == w[k + i - 1] && w[k..][i] == w[k + i];
    }
  }

  /** A shortest distance is unique. */
  lemma DistanceUnique(open: set<Pos>, s: Pos, t: Pos, d1: int, d2: int)
    requires IsDistance(open, s, t, d1) && IsDistance(open, s, t, d2)
    ensures d1 == d2
  {
    var w1 :| IsWalkBetween(open, w1, s, t) && |w1| == d1 + 1;
    var w2 :| IsWalkBetween(open, w2, s, t) && |w2| == d2 + 1;
  }

  /** A walk that starts inside a set and ends outside it leaves it at some
      step. */
  lemma {:induction false} FirstOutside(w: seq<Pos>, closed: set<Pos>) returns (j: int)
    requires |w| > 0 && w[0] in closed && w[|w| - 1] !in closed
    ensures 0 < j < |w| && w[j - 1] in closed && w[j] !in closed
  {
    if w[1] !in closed {
      j := 1;
    } else {
      var j' := FirstOutside(w[1..], closed);
      j := j' + 1;
    }
  }
}
