/**
 * The grid: a flat list of cells addressed by coordinates through the
 * absolute-value index formula `|originX - x| + |originY - y| * width`.
 * Inside the rectangle [originX, originX + width) x [originY, originY + height)
 * this is the row-major position of (x, y); outside it the absolute value
 * folds coordinates back onto cells of the grid.
 */
module Grid {
  import opened Nodes
  import opened Heuristic

  /** An integer 2-D vector (the origin and the size of the grid). */
  datatype Vec2 = Vec2(x: int, y: int)

  /**
   * The flat index the grid associates with coordinates (x, y).  It is never
   * negative for a non-negative width, and the origin has index 0.
   */
  function CellIndex(origin: Vec2, width: int, x: int, y: int): (i: int)
    ensures 0 <= width ==> 0 <= i
    ensures x == origin.x && y == origin.y ==> i == 0
  {
    Abs(origin.x - x) + Abs(origin.y - y) * width
  }

  lemma MulMonotone(a: int, b: int, w: int)
    requires a <= b && 0 <= w
    ensures a * w <= b * w
  {
  }

  lemma MulDistributes(a: int, b: int, w: int)
    ensures (a - b) * w == a * w - b * w
  {
  }

  /** Euclidean division undoes a row-major index. */
  lemma DivModUnique(a: int, b: int, w: int)
    requires 0 <= a < w
    ensures (a + b * w) / w == b && (a + b * w) % w == a
  {
    var n := a + b * w;
    var q, r := n / w, n % w;
    assert n == q * w + r && 0 <= r < w;
    MulDistributes(q, b, w);
    assert (q - b) * w == a - r;
    if q > b {
      MulMonotone(1, q - b, w);
    } else if q < b {
      MulMonotone(1, b - q, w);
      MulDistributes(b, q, w);
    }
  }

  /**
   * Inside the grid rectangle the index formula is the row-major position,
   * so it addresses a cell of a list of `width * height` cells.
   */
  lemma CellIndexRowMajor(origin: Vec2, width: int, height: int, x: int, y: int)
    requires origin.x <= x < origin.x + width && origin.y <= y < origin.y + height
    ensures CellIndex(origin, width, x, y) == (x - origin.x) + (y - origin.y) * width
    ensures 0 <= CellIndex(origin, width, x, y) < width * height
    ensures CellIndex(origin, width, x, y) % width == x - origin.x
    ensures CellIndex(origin, width, x, y) / width == y - origin.y
  {
    DivModUnique(x - origin.x, y - origin.y, width);
    MulMonotone(y - origin.y, height - 1, width);
  }

  /** The index formula is mirror-symmetric around the origin on both axes. */
  lemma CellIndexMirror(origin: Vec2, width: int, d: int, e: int)
    ensures CellIndex(origin, width, origin.x - d, origin.y - e)
         == CellIndex(origin, width, origin.x + d, origin.y + e)
  {
  }

  class AStarGrid {
    const originPosition: Vec2
    const size: Vec2
    const width: int
    const height: int
    const nodes: seq<Node>

    constructor (pos: Vec2, size: Vec2, nodes: seq<Node>)
      ensures originPosition == pos && this.size == size
      ensures width == size.x && height == size.y
      ensures this.nodes == nodes
    {
      this.originPosition := pos;
      this.size := size;
      this.width := size.x;
      this.height := size.y;
      this.nodes := nodes;
    }

    /** The set of cells in the grid. */
    ghost function Cells(): set<Node>
    {
      set n | n in nodes
    }

    /**
     * The grid's index for coordinates (x, y): never negative for a
     * non-negative width, and inside the grid rectangle the row-major
     * position of (x, y).
     */
    function IndexOf(x: int, y: int): (i: int)
      ensures 0 <= width ==> 0 <= i
      ensures InBounds(x, y) ==> i == (x - originPosition.x) + (y - originPosition.y) * width
    {
      CellIndex(originPosition, width, x, y)
    }

    /**
     * The cells hold the coordinates of their row-major position, the layout
     * in which a caller builds the list row by row from the origin.
     */
    predicate RowMajor()
    {
      0 < width && 0 <= height && |nodes| == width * height &&
      forall i :: 0 <= i < |nodes| ==>
        nodes[i].X == originPosition.x + i % width && nodes[i].Y == originPosition.y + i / width
    }

    predicate InBounds(x: int, y: int)
    {
      originPosition.x <= x < originPosition.x + width &&
      originPosition.y <= y < originPosition.y + height
    }

    /**
     * The cell at (x, y).  Indexing the list past its end throws in the
     * original, so callers must stay within the list.
     */
    function GetObject(x: int, y: int): (n: Node)
      requires 0 <= IndexOf(x, y) < |nodes|
      ensures n in nodes
      ensures RowMajor() && InBounds(x, y) ==> n.X == x && n.Y == y
    {
      // Both branches return the same cell; the test only decides whether the
      // row-major fact behind the second ensures applies and must be called in.
      if RowMajor() && InBounds(x, y) then
        CellIndexRowMajor(originPosition, width, height, x, y);
        nodes[IndexOf(x, y)]
      else
        nodes[IndexOf(x, y)]
    }

    /**
     * The four indices the neighbour expansion computes for a cell at (x, y),
     * in the order the original lists them: x - 1, x + 1, y - 1, y + 1.
     */
    function NeighbourIndexes(x: int, y: int): (idx: seq<int>)
      ensures |idx| == 4
      ensures idx[0] == IndexOf(x - 1, y) && idx[1] == IndexOf(x + 1, y)
      ensures idx[2] == IndexOf(x, y - 1) && idx[3] == IndexOf(x, y + 1)
    {
      [ Abs(originPosition.x - x + 1) + Abs(originPosition.y - y) * width,
        Abs(originPosition.x - x - 1) + Abs(originPosition.y - y) * width,
        Abs(originPosition.x - x) + Abs(originPosition.y - y + 1) * width,
        Abs(originPosition.x - x) + Abs(originPosition.y - y - 1) * width ]
    }

    /**
     * On the origin column the "x - 1" neighbour is the "x + 1" neighbour:
     * the cell one column to the right is found twice.
     */
    lemma LeftEdgeMirrors(y: int)
      ensures NeighbourIndexes(originPosition.x, y)[0] == NeighbourIndexes(originPosition.x, y)[1]
      ensures NeighbourIndexes(originPosition.x, y)[0] == IndexOf(originPosition.x + 1, y)
    {
      CellIndexMirror(originPosition, width, 1, originPosition.y - y);
    }

    /**
     * On the last column the "x + 1" neighbour wraps to the first cell of the
     * next row, which lies `width - 1` columns away: neighbours of the search
     * are not always geometrically adjacent.
     */
    lemma RightEdgeWraps(y: int)
      requires RowMajor() && originPosition.y <= y < originPosition.y + height - 1
      ensures NeighbourIndexes(originPosition.x + width - 1, y)[1] == IndexOf(originPosition.x, y + 1)
      ensures 0 <= NeighbourIndexes(originPosition.x + width - 1, y)[1] < |nodes|
      ensures nodes[NeighbourIndexes(originPosition.x + width - 1, y)[1]].X == originPosition.x
      ensures nodes[NeighbourIndexes(originPosition.x + width - 1, y)[1]].Y == y + 1
    {
      var x := originPosition.x + width - 1;
      var k := y - originPosition.y;
      MulDistributes(k + 1, 1, width);
      assert NeighbourIndexes(x, y)[1] == width + k * width;
      assert NeighbourIndexes(x, y)[1] == IndexOf(originPosition.x, y + 1);
      CellIndexRowMajor(originPosition, width, height, originPosition.x, y + 1);
    }
  }
}
