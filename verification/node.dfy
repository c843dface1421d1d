/**
 * One grid cell: its fixed coordinates, its terrain penalty (from which
 * walkability is derived) and the bookkeeping the A* search writes into it.
 */
module Nodes {

  /** Truncation toward zero, as a C# `(int)` cast of a floating-point value does. */
  function TruncateToInt(r: real): (n: int)
    ensures r >= 0.0 ==> n as real <= r < n as real + 1.0
    ensures r < 0.0 ==> n as real - 1.0 < r <= n as real
  {
    if r >= 0.0 then r.Floor else -((-r).Floor)
  }

  /**
   * The factor the search multiplies a step's distance by when it enters a
   * cell: `(int)(10 * penalty)`.  A walkable cell (penalty exactly 1) costs 10.
   */
  function StepMultiplier(penalty: real): (m: int)
    ensures penalty == 1.0 ==> m == 10
    ensures penalty >= 0.0 ==> 0 <= m && m as real <= 10.0 * penalty
  {
    TruncateToInt(10.0 * penalty)
  }

  class Node {
    const X: int
    const Y: int

    var Cost: int
    var Distance: int

    var Walkable: bool
    var penalty: real

    var gCost: int
    var hCost: int
    var parent: Node?

    /** The cell's invariant: it is walkable exactly when its penalty is 1. */
    ghost predicate Valid()
      reads this`Walkable, this`penalty
    {
      Walkable == (penalty == 1.0)
    }

    /** Sets the `Cost` property; the derived sum follows the write. */
    method SetCost(c: int)
      modifies this`Cost
      ensures Cost == c
      ensures CostDistance() == old(CostDistance()) - old(Cost) + c
    {
      Cost := c;
    }

    /** Sets the `Distance` property; the derived sum follows the write. */
    method SetDistance(d: int)
      modifies this`Distance
      ensures Distance == d
      ensures CostDistance() == old(CostDistance()) - old(Distance) + d
    {
      Distance := d;
    }

    /** Derived on every read, never stored. */
    function CostDistance(): (r: int)
      reads this
      ensures r == Cost + Distance
    {
      Cost + Distance
    }

    /** Estimated total cost through this cell; derived on every read, never stored. */
    function FCost(): (f: int)
      reads this
      ensures f == gCost + hCost
      ensures hCost >= 0 ==> gCost <= f
    {
      gCost + hCost
    }

    constructor (price: real, gridX: int, gridY: int)
      ensures X == gridX && Y == gridY
      ensures penalty == price && Walkable == (price == 1.0)
      ensures Valid()
      ensures gCost == 0 && hCost == 0 && parent == null
      ensures Cost == 0 && Distance == 0
    {
      penalty := price;
      X := gridX;
      Y := gridY;
      Walkable := price == 1.0;
      // The remaining fields keep the zero/null defaults of their C# declarations.
      Cost, Distance := 0, 0;
      gCost, hCost, parent := 0, 0, null;
    }

    method SetPenalty(price: real)
      modifies this`penalty, this`Walkable
      ensures penalty == price && Walkable == (price == 1.0)
      ensures Valid()
    {
      penalty := price;
      Walkable := penalty == 1.0;
    }
  }
}
