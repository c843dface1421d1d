/**
 * Routes returned by the search: sequences of points, their cost under the
 * search's step cost, and the reversal the retrace ends with.
 */
module Route {
  import opened Heuristic

  /** A point of a route (the original's three-component vector with z = 0). */
  datatype Point = Point(x: int, y: int)

  /**
   * The cost the search charges for walking a route cell by cell: each step
   * costs its octile distance times 10, the multiplier of a walkable cell.
   */
  function PathCost(path: seq<Point>): (c: int)
    ensures c >= 0
  {
    if |path| <= 1 then 0
    else 10 * Distance(path[0].x, path[0].y, path[1].x, path[1].y) + PathCost(path[1..])
  }

  /** The sequence in the opposite order. */
  function Reversed<T>(s: seq<T>): (r: seq<T>)
    ensures |r| == |s|
    ensures forall k :: 0 <= k < |s| ==> r[k] == s[|s| - 1 - k]
  {
    if s == [] then [] else Reversed(s[1..]) + [s[0]]
  }

  /** Extending a route by one point adds the cost of the final step. */
  lemma {:induction false} PathCostAppend(s: seq<Point>, q: Point)
    requires |s| >= 1
    ensures PathCost(s + [q])
         == PathCost(s) + 10 * Distance(s[|s| - 1].x, s[|s| - 1].y, q.x, q.y)
  {
    if |s| > 1 {
      assert (s + [q])[1..] == s[1..] + [q];
      PathCostAppend(s[1..], q);
    }
  }

  /** Walking a route backwards costs the same, since the distance is symmetric. */
  lemma {:induction false} PathCostReversed(s: seq<Point>)
    ensures PathCost(Reversed(s)) == PathCost(s)
  {
    if |s| >= 2 {
      var rest := Reversed(s[1..]);
      PathCostReversed(s[1..]);
      PathCostAppend(rest, s[0]);
      assert rest[|rest| - 1] == s[1];
      DistanceSymmetric(s[1].x, s[1].y, s[0].x, s[0].y);
    }
  }

  /** The cost of a route is the cost up to any of its points plus the cost from there on. */
  lemma {:induction false} PathCostSplit(s: seq<Point>, j: nat)
    requires j < |s|
    ensures PathCost(s) == PathCost(s[..j + 1]) + PathCost(s[j..])
  {
    if j > 0 {
      PathCostSplit(s[1..], j - 1);
      assert s[..j + 1][1..] == s[1..][..j];
      assert s[1..][j - 1..] == s[j..];
    } else {
      assert s[0..] == s;
    }
  }

  /**
   * A route costs at least the heuristic estimate between its ends: the
   * estimate never overstates the cost of reaching the goal.
   */
  lemma {:induction false} PathCostBoundsDistance(s: seq<Point>)
    requires |s| >= 1
    ensures Distance(s[0].x, s[0].y, s[|s| - 1].x, s[|s| - 1].y) <= PathCost(s)
  {
    if |s| >= 2 {
      PathCostBoundsDistance(s[1..]);
      Triangle(s[0].x, s[0].y, s[1].x, s[1].y, s[|s| - 1].x, s[|s| - 1].y);
    }
  }

  /**
   * Along a route, from its point j on, the estimate of the distance to the
   * goal falls by no more than the cost walked: the estimate is consistent
   * with the step cost.
   */
  lemma EstimateAlongRoute(ps: seq<Point>, j: nat, goal: Point)
    requires j < |ps|
    ensures Distance(ps[j].x, ps[j].y, goal.x, goal.y)
         <= PathCost(ps[j..]) + Distance(ps[|ps| - 1].x, ps[|ps| - 1].y, goal.x, goal.y)
  {
    var rest := ps[j..];
    assert rest[0] == ps[j] && rest[|rest| - 1] == ps[|ps| - 1];
    PathCostBoundsDistance(rest);
    Triangle(ps[j].x, ps[j].y, ps[|ps| - 1].x, ps[|ps| - 1].y, goal.x, goal.y);
  }

  /** The cost of a route is the cost up to point j - 1, the step to point j, and the cost from there on. */
  lemma PathCostAcross(ps: seq<Point>, j: nat)
    requires 1 <= j < |ps|
    ensures PathCost(ps) == PathCost(ps[..j]) + 10 * Distance(ps[j - 1].x, ps[j - 1].y, ps[j].x, ps[j].y) + PathCost(ps[j..])
  {
    var before := ps[..j];
    assert before[|before| - 1] == ps[j - 1];
    PathCostAppend(before, ps[j]);
    assert before + [ps[j]] == ps[..j + 1];
    PathCostSplit(ps, j);
  }

  /**
   * The chain of bounds behind A*'s optimality with a consistent estimate.
   * A route to the chosen cell leaves the evaluated region at some position:
   * the cell before it was reached for gp, no more than the route up to there
   * (before); the cell at the frontier was recorded at gq, at most one step
   * more; the chosen cell's estimated total gc + hc is no more than gq + hq;
   * and the rest of the route pays at least the drop hq - hc in the estimate.
   * Then gc is no more than the cost of the whole route.
   */
  lemma ChainBound(g0: int, gp: int, gq: int, gc: int, before: int, step: int, rest: int, hq: int, hc: int)
    requires gp <= g0 + before && gq <= gp + step
    requires gc + hc <= gq + hq && hq <= rest + hc
    ensures gc <= g0 + before + step + rest
  {
  }
}
