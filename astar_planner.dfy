/** `AStarPlanner`: a plan computed by A* and a cursor into it.  The plan is
    `None` (the C# `null`) when A* found no path. */
module Planner {
  import opened Geometry
  import opened RuntimeGrid
  import opened Walks
  import AStar

  function Min(a: int, b: int): int {
    if a <= b then a else b
  }

  /** One `GetNextWaypoint` call on a non-empty plan at cursor `i`: the
      waypoint it answers and the cursor it leaves. */
  function Step(plan: seq<Pos>, i: nat): (Pos, nat)
    requires |plan| > 0
  {
    if i >= |plan| then (plan[|plan| - 1], i) else (plan[i], i + 1)
  }

  /** The waypoints answered by `k` calls from cursor `i`, and the cursor
      after them. */
  function Run(plan: seq<Pos>, i: nat, k: nat): (seq<Pos>, nat)
    requires |plan| > 0
    decreases k
  {
    if k == 0 then ([], i)
    else
      var (w, i') := Step(plan, i);
      var (rest, j) := Run(plan, i', k - 1);
      ([w] + rest, j)
  }

  /** From a cursor inside the plan, `k` calls answer the waypoints in plan
      order, then the last waypoint again and again; the cursor stops at
      the plan's length. */
  lemma {:induction false} RunFollowsPlan(plan: seq<Pos>, i: nat, k: nat)
    requires |plan| > 0 && i <= |plan|
    ensures |Run(plan, i, k).0| == k
    ensures forall j :: 0 <= j < k ==> Run(plan, i, k).0[j] == plan[Min(i + j, |plan| - 1)]
    ensures Run(plan, i, k).1 == Min(i + k, |plan|)
    decreases k
  {
    if k > 0 {
      var (w, i') := Step(plan, i);
      RunFollowsPlan(plan, i', k - 1);
      var rest := Run(plan, i', k - 1).0;
      assert Run(plan, i, k).0 == [w] + rest;
      forall j | 0 < j < k ensures ([w] + rest)[j] == plan[Min(i + j, |plan| - 1)] {
        assert ([w] + rest)[j] == rest[j - 1];
      }
    }
  }

  class AStarPlanner {
    var plan: Option<seq<Pos>>
    var currentWaypointIndex: nat

    /** The cursor never passes the end of the plan. */
    ghost predicate Valid()
      reads this
    {
      plan.Some? ==> currentWaypointIndex <= |plan.value|
    }

    /** A planner as created: no plan, cursor at `0`. */
    constructor ()
      ensures Valid() && plan.None? && currentWaypointIndex == 0
    {
      plan := None;
      currentWaypointIndex := 0;
    }

    /** Runs A* from `start` to `goal` and rewinds the cursor.  The plan is
        `None` exactly when no walk leads from `start` to `goal`; otherwise
        it is a shortest walk between them, never empty. */
    method GeneratePlan(grid: MazeRuntimeGrid, start: Pos, goal: Pos)
      modifies this
      ensures Valid() && currentWaypointIndex == 0
      ensures GetPlan().None? <==> !Reachable(grid.OpenCells(), start, goal)
      ensures GetPlan().Some? ==>
        |GetPlan().value| > 0 &&
        IsWalkBetween(grid.OpenCells(), GetPlan().value, start, goal) &&
        IsDistance(grid.OpenCells(), start, goal, |GetPlan().value| - 1)
    {
      var found := AStar.Search(grid, start, goal);
      plan := found;
      currentWaypointIndex := 0;
    }

    /** The stored plan; a missing one counts as finished, and a plan that
        is not finished still has a waypoint under the cursor. */
    function GetPlan(): (p: Option<seq<Pos>>)
      reads this
      ensures p.None? ==> IsPlanFinished()
      ensures p.Some? && !IsPlanFinished() ==> currentWaypointIndex < |p.value|
    {
      plan
    }

    /** The plan is missing or every waypoint has been handed out. */
    predicate IsPlanFinished()
      reads this
      ensures !IsPlanFinished() ==> plan.Some? && currentWaypointIndex < |plan.value|
      ensures Valid() && plan.Some? ==> (IsPlanFinished() <==> currentWaypointIndex == |plan.value|)
    {
      plan.None? || currentWaypointIndex >= |plan.value|
    }

    /** The waypoint under the cursor, moving the cursor on; once the plan
        is finished, its last waypoint, leaving the cursor where it is. */
    method GetNextWaypoint() returns (waypoint: Pos)
      requires Valid() && plan.Some? && |plan.value| > 0
      modifies this
      ensures Valid() && plan == old(plan)
      ensures (waypoint, currentWaypointIndex) == Step(plan.value, old(currentWaypointIndex))
      ensures old(IsPlanFinished()) ==>
        waypoint == plan.value[|plan.value| - 1] && currentWaypointIndex == old(currentWaypointIndex)
      ensures !old(IsPlanFinished()) ==>
        waypoint == plan.value[old(currentWaypointIndex)] && currentWaypointIndex == old(currentWaypointIndex) + 1
    {
      if IsPlanFinished() {
        return plan.value[|plan.value| - 1];
      }
      waypoint := plan.value[currentWaypointIndex];
      currentWaypointIndex := currentWaypointIndex + 1;
    }
  }
}
