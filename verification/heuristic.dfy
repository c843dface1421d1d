/**
 * The octile distance the search uses both as its heuristic estimate and as
 * the distance factor of a step: a diagonal move costs 14, a straight one 10.
 */
module Heuristic {
  import opened Nodes

  function Abs(n: int): nat
  {
    if n < 0 then -n else n
  }

  function Min(a: int, b: int): int
  {
    if a < b then a else b
  }

  function Max(a: int, b: int): int
  {
    if a < b then b else a
  }

  /** The distance between the coordinate pairs (xa, ya) and (xb, yb). */
  function Distance(xa: int, ya: int, xb: int, yb: int): (d: int)
    ensures d == 14 * Min(Abs(xa - xb), Abs(ya - yb))
                 + 10 * (Max(Abs(xa - xb), Abs(ya - yb)) - Min(Abs(xa - xb), Abs(ya - yb)))
    ensures d >= 0
    ensures d == 0 <==> xa == xb && ya == yb
  {
    var dstX := Abs(xa - xb);
    var dstY := Abs(ya - yb);
    if dstX > dstY then 14 * dstY + 10 * (dstX - dstY)
    else 14 * dstX + 10 * (dstY - dstX)
  }

  /**
   * The distance between two cells, from their coordinates: never negative,
   * and zero exactly between cells at the same position.
   */
  function GetDistance(a: Node, b: Node): (d: int)
    ensures d >= 0
    ensures d == 0 <==> a.X == b.X && a.Y == b.Y
  {
    Distance(a.X, a.Y, b.X, b.Y)
  }

  lemma DistanceSymmetric(xa: int, ya: int, xb: int, yb: int)
    ensures Distance(xa, ya, xb, yb) == Distance(xb, yb, xa, ya)
  {
  }

  /** A single straight step costs 10 and a single diagonal step 14. */
  lemma UnitSteps(x: int, y: int)
    ensures Distance(x, y, x + 1, y) == 10 && Distance(x, y, x - 1, y) == 10
    ensures Distance(x, y, x, y + 1) == 10 && Distance(x, y, x, y - 1) == 10
    ensures Distance(x, y, x + 1, y + 1) == 14
  {
  }

  /**
   * The octile distance is 6 times the Chebyshev distance plus 4 times the
   * Manhattan distance, a sum of two metrics.
   */
  lemma DistanceDecomposed(xa: int, ya: int, xb: int, yb: int)
    ensures Distance(xa, ya, xb, yb)
         == 6 * Max(Abs(xa - xb), Abs(ya - yb)) + 4 * (Abs(xa - xb) + Abs(ya - yb))
  {
  }

  /** The octile distance obeys the triangle inequality. */
  lemma Triangle(xa: int, ya: int, xb: int, yb: int, xc: int, yc: int)
    ensures Distance(xa, ya, xc, yc) <= Distance(xa, ya, xb, yb) + Distance(xb, yb, xc, yc)
  {
    DistanceDecomposed(xa, ya, xc, yc);
    DistanceDecomposed(xa, ya, xb, yb);
    DistanceDecomposed(xb, yb, xc, yc);
    assert Abs(xa - xc) <= Abs(xa - xb) + Abs(xb - xc);
    assert Abs(ya - yc) <= Abs(ya - yb) + Abs(yb - yc);
  }

  /**
   * The heuristic is consistent for the search's step cost: the estimate at a
   * cell never exceeds the cost of a step to any other cell (distance times
   * the multiplier 10 of a walkable cell) plus the estimate there.
   */
  lemma Consistent(a: Node, b: Node, goal: Node)
    ensures GetDistance(a, goal) <= GetDistance(a, b) * 10 + GetDistance(b, goal)
  {
    Triangle(a.X, a.Y, b.X, b.Y, goal.X, goal.Y);
  }
}
