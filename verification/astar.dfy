/**
 * The A* search over an AStarGrid: open list scanned for the lowest estimated
 * total cost, closed set of evaluated cells, relaxation of the walkable
 * neighbours of each evaluated cell, and the retrace of parent links into a
 * route when a cell with the goal's coordinates is evaluated.
 */
module AStar {
  import opened Nodes
  import opened Heuristic
  import opened Grid
  import opened Route

  /** The result of a search: `None` stands for the original's null (no route). */
  datatype Option<T> = None | Some(value: T)

  /** The route point of a cell: its position with the constant z left out. */
  function PointOf(n: Node): Point
  {
    Point(n.X, n.Y)
  }

  /**
   * a and b sit at the same position, the goal test of the search: exactly
   * when they give the same route point.
   */
  predicate SameCoords(a: Node, b: Node): (p: bool)
    ensures p <==> PointOf(a) == PointOf(b)
  {
    a.X == b.X && a.Y == b.Y
  }

  predicate NoDup<T(==)>(s: seq<T>)
  {
    forall i, j :: 0 <= i < j < |s| ==> s[i] != s[j]
  }

  lemma NoDupCons<T>(x: T, s: seq<T>)
    requires NoDup(s) && x !in s
    ensures NoDup([x] + s)
  {
    var r := [x] + s;
    forall i, j | 0 <= i < j < |r| ensures r[i] != r[j] {
      assert r[j] == s[j - 1];
      if i > 0 { assert r[i] == s[i - 1]; }
    }
  }

  /** Taking one more element of s extends the prefix by that element. */
  lemma TakeOneMore<T>(s: seq<T>, i: nat)
    requires i < |s|
    ensures s[..i + 1] == s[..i] + [s[i]]
  {
  }

  /** The position of the first occurrence of x in s. */
  function FirstIndex<T(==)>(s: seq<T>, x: T): (i: nat)
    requires x in s
    ensures i < |s| && s[i] == x && x !in s[..i]
  {
    if s[0] == x then 0 else 1 + FirstIndex(s[1..], x)
  }

  /** The first occurrence of x comes no later than any occurrence. */
  lemma {:induction false} FirstIndexBefore<T>(s: seq<T>, x: T, k: nat)
    requires k < |s| && s[k] == x
    ensures FirstIndex(s, x) <= k
  {
    if s[0] != x {
      FirstIndexBefore(s[1..], x, k - 1);
    }
  }

  /** r is s with the element at index i taken out: the rest keep their order. */
  ghost predicate RemovedAt<T>(s: seq<T>, r: seq<T>, i: nat)
  {
    i < |s| && |r| == |s| - 1 &&
    (forall k :: 0 <= k < i ==> r[k] == s[k]) &&
    (forall k :: i <= k < |r| ==> r[k] == s[k + 1])
  }

  /**
   * List removal of the first occurrence of x, as the open list does it.
   */
  function RemoveFirst<T(==)>(s: seq<T>, x: T): (r: seq<T>)
    ensures x in s ==> |r| == |s| - 1
    ensures x !in s ==> r == s
    ensures forall y :: y in r ==> y in s
    ensures forall y :: y in s && y != x ==> y in r
    ensures NoDup(s) ==> NoDup(r) && x !in r
    ensures x in s ==> RemovedAt(s, r, FirstIndex(s, x))
  {
    if s == [] then []
    else if s[0] == x then
      RemovedHead(s, x);
      s[1..]
    else
      var rest := RemoveFirst(s[1..], x);
      RemovedLater(s, x, rest);
      [s[0]] + rest
  }

  /** Removal at the head: what is left is the list behind its first x. */
  lemma RemovedHead<T>(s: seq<T>, x: T)
    requires |s| > 0 && s[0] == x
    ensures RemovedAt(s, s[1..], FirstIndex(s, x))
    ensures NoDup(s) ==> NoDup(s[1..]) && x !in s[1..]
  {
    if NoDup(s) {
      NoDupTail(s);
    }
  }

  /** Removal behind the head, from the removal in the tail (rest). */
  lemma RemovedLater<T>(s: seq<T>, x: T, rest: seq<T>)
    requires |s| > 0 && s[0] != x
    requires x in s[1..] ==> RemovedAt(s[1..], rest, FirstIndex(s[1..], x))
    requires NoDup(s[1..]) ==> NoDup(rest) && x !in rest
    requires forall y :: y in rest ==> y in s[1..]
    ensures x in s ==> RemovedAt(s, [s[0]] + rest, FirstIndex(s, x))
    ensures NoDup(s) ==> NoDup([s[0]] + rest) && x !in [s[0]] + rest
  {
    if x in s {
      var i := FirstIndex(s[1..], x);
      assert FirstIndex(s, x) == i + 1;
      var r := [s[0]] + rest;
      forall k | 0 < k < |r| ensures r[k] == rest[k - 1] { }
    }
    if NoDup(s) {
      NoDupTail(s);
      NoDupCons(s[0], rest);
    }
  }

  /** A list without duplicates keeps none in its tail and has its head only once. */
  lemma NoDupTail<T>(s: seq<T>)
    requires |s| > 0 && NoDup(s)
    ensures NoDup(s[1..]) && s[0] !in s[1..]
  {
    forall i, j | 0 <= i < j < |s[1..]| ensures s[1..][i] != s[1..][j] {
      assert s[1..][i] == s[i + 1] && s[1..][j] == s[j + 1];
    }
  }

  /**
   * The index of the first cell with the same coordinates as nodes[k]: the
   * lookup by coordinates the search does for its start and goal cells.
   */
  function FirstWithCoordsOf(nodes: seq<Node>, k: nat): (i: nat)
    requires k < |nodes|
    ensures i <= k && SameCoords(nodes[i], nodes[k])
    ensures forall j :: 0 <= j < i ==> !SameCoords(nodes[j], nodes[k])
  {
    if SameCoords(nodes[0], nodes[k]) then 0
    else 1 + FirstWithCoordsOf(nodes[1..], k - 1)
  }

  /** Index i lies inside the grid's list and addresses cell b. */
  predicate CellIs(grid: AStarGrid, i: int, b: Node)
  {
    0 <= i < |grid.nodes| && grid.nodes[i] == b
  }

  /**
   * b is the cell at one of the four indices the expansion computes for a.
   * The indices come from the absolute-value formula, so b need not be
   * geometrically adjacent to a.
   */
  predicate NodeStep(grid: AStarGrid, a: Node, b: Node)
  {
    var idx := grid.NeighbourIndexes(a.X, a.Y);
    CellIs(grid, idx[0], b) || CellIs(grid, idx[1], b) || CellIs(grid, idx[2], b) || CellIs(grid, idx[3], b)
  }

  /** Index i lies inside the grid's list and addresses a walkable cell at point q. */
  ghost predicate WalkableCellAt(grid: AStarGrid, i: int, q: Point)
    reads grid.nodes`Walkable
  {
    0 <= i < |grid.nodes| && PointOf(grid.nodes[i]) == q && grid.nodes[i].Walkable
  }

  /** Point q is the position of a walkable cell the expansion finds from point p. */
  ghost predicate Step(grid: AStarGrid, p: Point, q: Point)
    reads grid.nodes`Walkable
  {
    var idx := grid.NeighbourIndexes(p.x, p.y);
    WalkableCellAt(grid, idx[0], q) || WalkableCellAt(grid, idx[1], q) ||
    WalkableCellAt(grid, idx[2], q) || WalkableCellAt(grid, idx[3], q)
  }

  /** The point after position k of the route is a step from the point at k. */
  ghost predicate StepFrom(grid: AStarGrid, path: seq<Point>, k: nat)
    requires k + 1 < |path|
    reads grid.nodes`Walkable
  {
    Step(grid, path[k], path[k + 1])
  }

  /** Every point of the route after the first is a step from the one before it. */
  ghost predicate IsRoute(grid: AStarGrid, path: seq<Point>)
    reads grid.nodes`Walkable
  {
    forall k: nat :: k + 1 < |path| ==> StepFrom(grid, path, k)
  }

  /** The point at position k of a goal-to-start list is a step from the point after it. */
  ghost predicate StepBack(grid: AStarGrid, back: seq<Point>, k: nat)
    requires k + 1 < |back|
    reads grid.nodes`Walkable
  {
    Step(grid, back[k + 1], back[k])
  }

  /** Read backwards, the list is a route. */
  ghost predicate IsBackRoute(grid: AStarGrid, back: seq<Point>)
    reads grid.nodes`Walkable
  {
    forall k: nat :: k + 1 < |back| ==> StepBack(grid, back, k)
  }

  lemma BackRouteExtend(grid: AStarGrid, back: seq<Point>, q: Point)
    requires |back| >= 1 && IsBackRoute(grid, back) && Step(grid, q, back[|back| - 1])
    ensures IsBackRoute(grid, back + [q])
  {
    var r := back + [q];
    forall k: nat | k + 1 < |r| ensures StepBack(grid, r, k) {
      if k + 1 < |back| {
        assert StepBack(grid, back, k);
      }
    }
  }

  /** Reversing a goal-to-start list read backwards as a route gives a route. */
  lemma ReversedBackRoute(grid: AStarGrid, back: seq<Point>)
    requires IsBackRoute(grid, back)
    ensures IsRoute(grid, Reversed(back))
  {
    var path := Reversed(back);
    forall k: nat | k + 1 < |path| ensures StepFrom(grid, path, k) {
      assert StepBack(grid, back, |back| - 2 - k);
    }
  }

  /**
   * A route step need not join adjacent cells: from the last column the
   * expansion reaches the first cell of the next row, a step whose distance
   * exceeds a straight unit step whenever the grid is at least three wide.
   */
  lemma WrapIsStep(grid: AStarGrid, y: int, c: Node)
    requires grid.RowMajor()
    requires grid.originPosition.y <= y < grid.originPosition.y + grid.height - 1
    requires CellIs(grid, grid.IndexOf(grid.originPosition.x, y + 1), c) && c.Walkable
    ensures Step(grid, Point(grid.originPosition.x + grid.width - 1, y), Point(grid.originPosition.x, y + 1))
    ensures grid.width >= 3 ==>
              Distance(grid.originPosition.x + grid.width - 1, y, grid.originPosition.x, y + 1) > 10
  {
    var x := grid.originPosition.x + grid.width - 1;
    grid.RightEdgeWraps(y);
    var i := grid.NeighbourIndexes(x, y)[1];
    assert WalkableCellAt(grid, i, Point(grid.originPosition.x, y + 1));
  }

  /** The cell after position k of w is a walkable expansion cell of the cell at k. */
  ghost predicate StepAt(grid: AStarGrid, w: seq<Node>, k: nat)
    requires k + 1 < |w|
    reads grid.nodes`Walkable
  {
    NodeStep(grid, w[k], w[k + 1]) && w[k + 1].Walkable
  }

  /** A sequence of cells from `from`, each a walkable expansion cell of the one before. */
  ghost predicate IsWalk(grid: AStarGrid, from: Node, w: seq<Node>)
    reads grid.nodes`Walkable
  {
    |w| >= 1 && w[0] == from &&
    forall k: nat :: k < |w| - 1 ==> StepAt(grid, w, k)
  }

  /** The walkable cells the expansion of `n` finds: the specification of GetNeighbours. */
  ghost function WalkableAt(nodes: seq<Node>, idxs: seq<int>): (r: seq<Node>)
    reads nodes`Walkable
    ensures |r| <= |idxs|
    ensures forall n :: n in r ==> n.Walkable && exists i :: i in idxs && 0 <= i < |nodes| && nodes[i] == n
    ensures forall i {:trigger i in idxs} :: i in idxs && 0 <= i < |nodes| && nodes[i].Walkable ==> nodes[i] in r
    decreases |idxs|
  {
    if idxs == [] then []
    else
      var init := WalkableAt(nodes, idxs[..|idxs| - 1]);
      var i := idxs[|idxs| - 1];
      assert idxs == idxs[..|idxs| - 1] + [i];
      if 0 <= i < |nodes| && nodes[i].Walkable then init + [nodes[i]] else init
  }

  /**
   * The walkable cells at the four neighbour indices of `node` that fall
   * inside the list, in the order x - 1, x + 1, y - 1, y + 1.
   */
  method GetNeighbours(allNodes: seq<Node>, node: Node, grid: AStarGrid) returns (neighbours: seq<Node>)
    ensures neighbours == WalkableAt(allNodes, grid.NeighbourIndexes(node.X, node.Y))
    ensures |neighbours| <= 4
  {
    neighbours := [];
    var indexes := grid.NeighbourIndexes(node.X, node.Y);
    var j := 0;
    while j < |indexes|
      invariant 0 <= j <= |indexes|
      invariant neighbours == WalkableAt(allNodes, indexes[..j])
    {
      var index := indexes[j];
      assert indexes[..j + 1][..j] == indexes[..j];
      if !(index < 0 || index >= |allNodes|) {
        var currentNode := allNodes[index];
        if currentNode.Walkable {
          neighbours := neighbours + [currentNode];
        }
      }
      j := j + 1;
    }
    assert indexes[..j] == indexes;
  }

  /**
   * a is preferred to b: lower estimated total cost, or equal and nearer to
   * the goal.  A cell with a lower estimated total always wins, one with a
   * higher never does, and a cell is never preferred to itself.
   */
  predicate Precedes(a: Node, b: Node): (p: bool)
    reads a, b
    ensures a.FCost() < b.FCost() ==> p
    ensures p ==> a.FCost() <= b.FCost()
    ensures a == b ==> !p
    ensures !p ==> b.FCost() < a.FCost() || (b.FCost() == a.FCost() && b.hCost <= a.hCost)
  {
    a.FCost() < b.FCost() || (a.FCost() == b.FCost() && a.hCost < b.hCost)
  }

  /**
   * c is the cell the scan of the open list settles on: no listed cell is
   * preferred to it, and every cell listed before its first occurrence is
   * worse, so on a full tie the earliest cell is taken.
   */
  predicate ScanChoice(openSet: seq<Node>, c: Node)
    reads openSet, c
  {
    c in openSet &&
    (forall j :: 0 <= j < |openSet| ==> !Precedes(openSet[j], c)) &&
    (forall j :: 0 <= j < FirstIndex(openSet, c) ==> Precedes(c, openSet[j]))
  }

  /** At most one cell of the open list is the scan's choice, even among full ties. */
  lemma ScanChoiceUnique(openSet: seq<Node>, a: Node, b: Node)
    requires ScanChoice(openSet, a) && ScanChoice(openSet, b)
    ensures a == b
  {
  }

  /**
   * The preference is a strict order: never both ways, and transitive, so the
   * scan of the open list settles on one best cell.
   */
  lemma PrecedesStrictOrder(a: Node, b: Node, c: Node)
    ensures Precedes(a, b) ==> !Precedes(b, a)
    ensures Precedes(a, b) && Precedes(b, c) ==> Precedes(a, c)
  {
  }

  /**
   * The estimated total cost never falls across a step of the search: a cell
   * reached from c by a step of cost 10 times the distance, both carrying the
   * octile estimate of the distance to the goal, has an estimated total at
   * least c's.  This is what lets the first evaluation of a cell be its
   * cheapest.
   */
  lemma FCostMonotone(c: Node, n: Node, endNode: Node)
    requires c.hCost == GetDistance(c, endNode) && n.hCost == GetDistance(n, endNode)
    requires n.gCost == c.gCost + 10 * GetDistance(c, n)
    ensures c.FCost() <= n.FCost()
  {
    Consistent(c, n, endNode);
  }

  /**
   * The scan of the open list for the cell to evaluate next: no member is
   * preferred to the one chosen, and every earlier member is worse than it,
   * so on a full tie the earliest wins.
   */
  method SelectCurrent(openSet: seq<Node>) returns (k: nat)
    requires |openSet| > 0
    ensures k < |openSet|
    ensures forall j :: 0 <= j < |openSet| ==> !Precedes(openSet[j], openSet[k])
    ensures forall j :: 0 <= j < k ==> Precedes(openSet[k], openSet[j])
  {
    k := 0;
    var i := 1;
    while i < |openSet|
      invariant 1 <= i <= |openSet| && k < i
      invariant forall j :: 0 <= j < i ==> !Precedes(openSet[j], openSet[k])
      invariant forall j :: 0 <= j < k ==> Precedes(openSet[k], openSet[j])
    {
      if Precedes(openSet[i], openSet[k]) {
        k := i;
      }
      i := i + 1;
    }
  }

  /**
   * The cost the search charges for the step from a into b: the distance
   * times b's multiplier `(int)(10 * penalty)`.  Entering a walkable cell
   * costs 10 per unit of distance.
   */
  function StepCost(a: Node, b: Node): (c: int)
    reads b`penalty
    ensures b.penalty == 1.0 ==> c == 10 * GetDistance(a, b)
    ensures b.penalty >= 0.0 ==> c >= 0
  {
    GetDistance(a, b) * StepMultiplier(b.penalty)
  }

  /**
   * The bookkeeping of a cell reached by the search: its parent is an
   * evaluated cell whose expansion finds it, its cost so far is the parent's
   * plus one walkable step, and its estimate is its distance to the goal.
   */
  ghost predicate Linked(grid: AStarGrid, n: Node, closedSet: set<Node>, endNode: Node)
    reads n, closedSet
  {
    n.parent != null && n.parent in closedSet &&
    NodeStep(grid, n.parent, n) && n.Walkable &&
    n.gCost == n.parent.gCost + StepCost(n.parent, n) &&
    n.hCost == GetDistance(n, endNode)
  }

  /** n is linked to a parent that was evaluated before it. */
  ghost predicate ParentEarlier(grid: AStarGrid, n: Node, closedSet: set<Node>, rank: map<Node, nat>, endNode: Node)
    reads n, closedSet
  {
    Linked(grid, n, closedSet, endNode) && n in rank && n.parent in rank && rank[n.parent] < rank[n]
  }

  /**
   * Every evaluated cell other than the start has a parent evaluated before
   * it, so following parents from any evaluated cell ends at the start.
   */
  ghost predicate Chained(grid: AStarGrid, closedSet: set<Node>, rank: map<Node, nat>,
                          startNode: Node, endNode: Node)
    reads closedSet
  {
    startNode in closedSet && rank.Keys == closedSet &&
    forall n {:trigger ParentEarlier(grid, n, closedSet, rank, endNode)} :: n in closedSet && n != startNode ==>
      ParentEarlier(grid, n, closedSet, rank, endNode)
  }

  /** The open list holds distinct cells of the grid, none of them evaluated. */
  ghost predicate OpenInv(grid: AStarGrid, openSet: seq<Node>, closedSet: set<Node>)
  {
    (forall i :: 0 <= i < |openSet| ==> openSet[i] in grid.nodes && openSet[i] !in closedSet) &&
    NoDup(openSet)
  }

  /** The evaluated cells are cells of the grid, numbered in the order they were evaluated. */
  ghost predicate RankInv(grid: AStarGrid, closedSet: set<Node>, rank: map<Node, nat>)
  {
    (forall n :: n in closedSet ==> n in grid.nodes) &&
    rank.Keys == closedSet &&
    (forall n :: n in closedSet ==> rank[n] < |closedSet|)
  }

  /** Every open cell other than the start is linked to an evaluated parent. */
  ghost predicate OpenLinked(grid: AStarGrid, openSet: seq<Node>, closedSet: set<Node>,
                             startNode: Node, endNode: Node)
    reads openSet, closedSet
  {
    forall n :: n in openSet && n != startNode ==> Linked(grid, n, closedSet, endNode)
  }

  /**
   * The state the search keeps between steps: the open list holds distinct
   * unevaluated cells of the grid; the evaluated cells are ranked in the
   * order they were evaluated; before the first evaluation only the start
   * is open, afterwards the start is evaluated and every evaluated cell is
   * chained back to it; and every open cell other than the start is linked
   * to its parent.
   */
  ghost predicate SearchInv(grid: AStarGrid, openSet: seq<Node>, closedSet: set<Node>,
                            rank: map<Node, nat>, startNode: Node, endNode: Node)
    reads grid.nodes
  {
    startNode in grid.nodes &&
    OpenInv(grid, openSet, closedSet) &&
    RankInv(grid, closedSet, rank) &&
    (if closedSet == {} then openSet == [startNode] else Chained(grid, closedSet, rank, startNode, endNode)) &&
    OpenLinked(grid, openSet, closedSet, startNode, endNode)
  }

  /** If index i addresses a walkable cell of the grid, that cell is open or evaluated. */
  ghost predicate Covered(grid: AStarGrid, i: int, openSet: seq<Node>, closedSet: set<Node>)
    reads grid.nodes`Walkable
  {
    0 <= i < |grid.nodes| && grid.nodes[i].Walkable ==> grid.nodes[i] in openSet || grid.nodes[i] in closedSet
  }

  /** Every walkable cell the expansion of n finds is open or evaluated. */
  ghost predicate Expanded(grid: AStarGrid, n: Node, openSet: seq<Node>, closedSet: set<Node>)
    reads grid.nodes`Walkable
  {
    var idx := grid.NeighbourIndexes(n.X, n.Y);
    Covered(grid, idx[0], openSet, closedSet) && Covered(grid, idx[1], openSet, closedSet) &&
    Covered(grid, idx[2], openSet, closedSet) && Covered(grid, idx[3], openSet, closedSet)
  }

  /** Removing an open cell and evaluating it keeps the open list well formed. */
  lemma CloseKeepsOpen(grid: AStarGrid, openSet: seq<Node>, closedSet: set<Node>, k: nat)
    requires OpenInv(grid, openSet, closedSet) && k < |openSet|
    ensures OpenInv(grid, RemoveFirst(openSet, openSet[k]), closedSet + {openSet[k]})
  {
    var c := openSet[k];
    var open' := RemoveFirst(openSet, c);
    forall i | 0 <= i < |open'| ensures open'[i] in grid.nodes && open'[i] !in closedSet + {c} {
      assert open'[i] in openSet && open'[i] != c;
    }
  }

  /** Evaluating a new cell of the grid gives it the next number. */
  lemma CloseKeepsRank(grid: AStarGrid, closedSet: set<Node>, rank: map<Node, nat>, c: Node)
    requires RankInv(grid, closedSet, rank) && c in grid.nodes && c !in closedSet
    ensures RankInv(grid, closedSet + {c}, rank[c := |closedSet|])
  {
    assert |closedSet + {c}| == |closedSet| + 1;
  }

  /**
   * Evaluating the start first, or later a cell linked to an evaluated
   * parent, keeps every evaluated cell chained back to the start.
   */
  lemma CloseKeepsChain(grid: AStarGrid, closedSet: set<Node>, rank: map<Node, nat>,
                        startNode: Node, endNode: Node, c: Node)
    requires RankInv(grid, closedSet, rank) && c !in closedSet
    requires closedSet == {} ==> c == startNode
    requires closedSet != {} ==> Chained(grid, closedSet, rank, startNode, endNode) && Linked(grid, c, closedSet, endNode)
    ensures Chained(grid, closedSet + {c}, rank[c := |closedSet|], startNode, endNode)
  {
    var closed', rank' := closedSet + {c}, rank[c := |closedSet|];
    forall n | n in closed' && n != startNode
      ensures ParentEarlier(grid, n, closed', rank', endNode)
    {
      if n != c {
        assert ParentEarlier(grid, n, closedSet, rank, endNode);
      }
    }
  }

  /** Open cells stay linked when the evaluated set grows and the open list shrinks. */
  lemma CloseKeepsLinks(grid: AStarGrid, openSet: seq<Node>, closedSet: set<Node>,
                        startNode: Node, endNode: Node, c: Node)
    requires OpenLinked(grid, openSet, closedSet, startNode, endNode)
    ensures OpenLinked(grid, RemoveFirst(openSet, c), closedSet + {c}, startNode, endNode)
  {
    forall n | n in RemoveFirst(openSet, c) && n != startNode
      ensures Linked(grid, n, closedSet + {c}, endNode)
    {
      assert Linked(grid, n, closedSet, endNode);
    }
  }

  /** Growing the open list keeps a cell's expansion covered. */
  lemma ExpandedGrows(grid: AStarGrid, n: Node, openSet: seq<Node>, openSet': seq<Node>, closedSet: set<Node>)
    requires Expanded(grid, n, openSet, closedSet)
    requires forall m :: m in openSet ==> m in openSet'
    ensures Expanded(grid, n, openSet', closedSet)
  {
  }

  /**
   * Moving the chosen open cell to the evaluated set keeps the search state,
   * ranking the cell after all evaluated before it, and keeps every
   * evaluated cell's expansion inside the open and evaluated cells.
   */
  lemma CloseCurrent(grid: AStarGrid, openSet: seq<Node>, closedSet: set<Node>, rank: map<Node, nat>,
                     startNode: Node, endNode: Node, k: nat)
    requires SearchInv(grid, openSet, closedSet, rank, startNode, endNode)
    requires k < |openSet|
    ensures openSet[k] !in closedSet && |closedSet + {openSet[k]}| == |closedSet| + 1
    ensures SearchInv(grid, RemoveFirst(openSet, openSet[k]), closedSet + {openSet[k]},
                      rank[openSet[k] := |closedSet|], startNode, endNode)
    ensures forall n {:trigger Expanded(grid, n, RemoveFirst(openSet, openSet[k]), closedSet + {openSet[k]})} ::
              n in closedSet && Expanded(grid, n, openSet, closedSet) ==>
              Expanded(grid, n, RemoveFirst(openSet, openSet[k]), closedSet + {openSet[k]})
  {
    var c := openSet[k];
    assert c in openSet;
    CloseKeepsOpen(grid, openSet, closedSet, k);
    CloseKeepsRank(grid, closedSet, rank, c);
    if closedSet != {} && c != startNode {
      assert Linked(grid, c, closedSet, endNode);
    }
    CloseKeepsChain(grid, closedSet, rank, startNode, endNode, c);
    CloseKeepsLinks(grid, openSet, closedSet, startNode, endNode, c);
    forall n | n in closedSet && Expanded(grid, n, openSet, closedSet)
      ensures Expanded(grid, n, RemoveFirst(openSet, c), closedSet + {c})
    {
    }
  }

  /**
   * The body of the loop over the neighbours of the evaluated cell: a cell
   * that is walkable and not evaluated gets cost, estimate and parent set
   * when the step through the evaluated cell is cheaper than its recorded
   * cost or it is not yet open, and is then added to the open list if absent.
   */
  method Relax(grid: AStarGrid, currentNode: Node, neighbour: Node, endNode: Node,
               openSet: seq<Node>, closedSet: set<Node>,
               ghost rank: map<Node, nat>, ghost startNode: Node)
    returns (openSet': seq<Node>)
    requires SearchInv(grid, openSet, closedSet, rank, startNode, endNode)
    requires currentNode in closedSet && rank[currentNode] == |closedSet| - 1
    requires NodeStep(grid, currentNode, neighbour)
    modifies neighbour`gCost, neighbour`hCost, neighbour`parent
    ensures SearchInv(grid, openSet', closedSet, rank, startNode, endNode)
    ensures neighbour.Walkable ==> neighbour in openSet' || neighbour in closedSet
    ensures forall n :: n in openSet ==> n in openSet'
    ensures
      var newCost := old(currentNode.gCost) + StepCost(currentNode, neighbour);
      if neighbour.Walkable && neighbour !in closedSet && (newCost < old(neighbour.gCost) || neighbour !in openSet) then
        neighbour.gCost == newCost && neighbour.hCost == GetDistance(neighbour, endNode) &&
        neighbour.parent == currentNode &&
        openSet' == (if neighbour in openSet then openSet else openSet + [neighbour])
      else
        unchanged(neighbour`gCost, neighbour`hCost, neighbour`parent) && openSet' == openSet
    ensures neighbour in closedSet ==> unchanged(neighbour`gCost, neighbour`hCost, neighbour`parent)
    ensures neighbour in openSet ==>
              unchanged(neighbour`gCost, neighbour`hCost, neighbour`parent) || neighbour.gCost < old(neighbour.gCost)
    ensures neighbour.Walkable && neighbour !in closedSet ==>
              neighbour.gCost <= old(currentNode.gCost) + StepCost(currentNode, neighbour)
  {
    openSet' := openSet;
    if !neighbour.Walkable || neighbour in closedSet {
      return;
    }
    var newMovementCostToNeighbour := currentNode.gCost + StepCost(currentNode, neighbour);
    if newMovementCostToNeighbour < neighbour.gCost || neighbour !in openSet {
      neighbour.gCost := newMovementCostToNeighbour;
      neighbour.hCost := GetDistance(neighbour, endNode);
      neighbour.parent := currentNode;
      if neighbour !in openSet {
        openSet' := openSet + [neighbour];
      }
    }
    assert neighbour in grid.nodes;
    assert Chained(grid, closedSet, rank, startNode, endNode) by {
      assert old(Chained(grid, closedSet, rank, startNode, endNode));
    }
    forall n | n in openSet' && n != startNode
      ensures Linked(grid, n, closedSet, endNode)
    {
      if n != neighbour {
        assert n in openSet;
        assert old(Linked(grid, n, closedSet, endNode));
      }
    }
  }

  /**
   * One step of the retrace: a closed cell other than the start has a closed
   * parent of lower rank, and the trail of positions extended by the
   * parent's stays a backward route whose cost is the goal's recorded cost
   * less the parent's.
   */
  lemma RetraceStep(grid: AStarGrid, closedSet: set<Node>, rank: map<Node, nat>,
                    startNode: Node, endNode: Node, c: Node, trail: seq<Point>)
    requires Chained(grid, closedSet, rank, startNode, endNode)
    requires forall n :: n in closedSet ==> n.Valid()
    requires c in closedSet && c != startNode
    requires |trail| >= 1 && trail[|trail| - 1] == PointOf(c)
    requires IsBackRoute(grid, trail)
    requires endNode.gCost == c.gCost + PathCost(trail)
    ensures c.parent != null && c.parent in closedSet && rank[c.parent] < rank[c]
    ensures IsBackRoute(grid, trail + [PointOf(c.parent)])
    ensures endNode.gCost == c.parent.gCost + PathCost(trail + [PointOf(c.parent)])
  {
    assert ParentEarlier(grid, c, closedSet, rank, endNode);
    assert c.Valid() && StepCost(c.parent, c) == 10 * GetDistance(c.parent, c);
    var parent := c.parent;
    PathCostAppend(trail, PointOf(parent));
    DistanceSymmetric(parent.X, parent.Y, c.X, c.Y);
    assert Step(grid, PointOf(parent), PointOf(c));
    BackRouteExtend(grid, trail, PointOf(parent));
  }

  /**
   * Follows parent links from the goal cell back to the start cell,
   * collecting positions, then reverses them into a start-to-goal route.
   * The ranking witnesses that the parent chain reaches the start.
   */
  method RetracePath(grid: AStarGrid, startNode: Node, endNode: Node,
                     ghost closedSet: set<Node>, ghost rank: map<Node, nat>)
    returns (path: seq<Point>)
    requires Chained(grid, closedSet, rank, startNode, endNode) && endNode in closedSet
    requires forall n :: n in closedSet ==> n.Valid()
    ensures |path| >= 1 && path[0] == PointOf(startNode) && path[|path| - 1] == PointOf(endNode)
    ensures IsRoute(grid, path)
    ensures endNode.gCost == startNode.gCost + PathCost(path)
    ensures startNode == endNode ==> path == [PointOf(startNode)]
  {
    var back: seq<Point> := [];
    var currentNode := endNode;
    while currentNode != startNode
      invariant currentNode in closedSet
      invariant back == [] ==> currentNode == endNode
      invariant back != [] ==> rank[currentNode] < rank[endNode]
      invariant back != [] ==> back[0] == PointOf(endNode)
      invariant IsBackRoute(grid, back + [PointOf(currentNode)])
      invariant endNode.gCost == currentNode.gCost + PathCost(back + [PointOf(currentNode)])
      decreases rank[currentNode]
    {
      RetraceStep(grid, closedSet, rank, startNode, endNode, currentNode, back + [PointOf(currentNode)]);
      back := back + [PointOf(currentNode)];
      currentNode := currentNode.parent;
    }
    back := back + [PointOf(startNode)];
    assert endNode.gCost == startNode.gCost + PathCost(back);
    PathCostReversed(back);
    ReversedBackRoute(grid, back);
    path := Reversed(back);
    assert PathCost(path) == PathCost(back);
    assert endNode.gCost == startNode.gCost + PathCost(path);
    if startNode == endNode {
      assert back == [PointOf(startNode)];
      assert path == [path[0]];
    }
  }

  /**
   * The lookup of the start and goal cells: the first cell carrying the
   * coordinates of the cell at the given index.
   */
  function StartOf(grid: AStarGrid, index: nat): (n: Node)
    requires index < |grid.nodes|
    ensures n in grid.nodes[..index + 1] && SameCoords(n, grid.nodes[index])
    ensures (forall i :: 0 <= i < |grid.nodes| && SameCoords(grid.nodes[i], grid.nodes[index]) ==>
               grid.nodes[i] == grid.nodes[index]) ==> n == grid.nodes[index]
  {
    grid.nodes[FirstWithCoordsOf(grid.nodes, index)]
  }

  /** A region that holds `from` and the walkable expansion cells of its members holds every walk from `from`. */
  lemma {:induction false} WalkStaysIn(grid: AStarGrid, region: set<Node>, from: Node, w: seq<Node>)
    requires from in region
    requires forall n {:trigger Expanded(grid, n, [], region)} :: n in region ==> Expanded(grid, n, [], region)
    requires IsWalk(grid, from, w)
    ensures forall k :: 0 <= k < |w| ==> w[k] in region
  {
    if |w| > 1 {
      var init := w[..|w| - 1];
      forall k: nat | k < |init| - 1 ensures StepAt(grid, init, k) {
        assert StepAt(grid, w, k);
      }
      WalkStaysIn(grid, region, from, init);
      assert w[|w| - 2] == init[|init| - 1];
      assert StepAt(grid, w, |w| - 2);
      assert Expanded(grid, w[|w| - 2], [], region);
    }
  }

  /** The cells GetNeighbours returns are valid walkable expansion cells of n. */
  lemma NeighboursAreSteps(grid: AStarGrid, n: Node, neighbours: seq<Node>)
    requires neighbours == WalkableAt(grid.nodes, grid.NeighbourIndexes(n.X, n.Y))
    ensures forall j :: 0 <= j < |neighbours| ==>
              NodeStep(grid, n, neighbours[j]) && neighbours[j].Walkable && neighbours[j] in grid.nodes
  {
    forall j | 0 <= j < |neighbours|
      ensures NodeStep(grid, n, neighbours[j]) && neighbours[j].Walkable
    {
      assert neighbours[j] in neighbours;
    }
  }

  /** Growing the open list keeps every evaluated cell other than c expanded, and c too once it is. */
  lemma AllExpandedGrow(grid: AStarGrid, c: Node, openSet: seq<Node>, openSet': seq<Node>, closedSet: set<Node>)
    requires forall n {:trigger Expanded(grid, n, openSet, closedSet)} :: n in closedSet && n != c ==> Expanded(grid, n, openSet, closedSet)
    requires Expanded(grid, c, openSet', closedSet)
    requires forall m :: m in openSet ==> m in openSet'
    ensures forall n {:trigger Expanded(grid, n, openSet', closedSet)} :: n in closedSet ==> Expanded(grid, n, openSet', closedSet)
  {
    forall n | n in closedSet && n != c
      ensures Expanded(grid, n, openSet', closedSet)
    {
      ExpandedGrows(grid, n, openSet, openSet', closedSet);
    }
  }

  /** Once every walkable cell the expansion of n finds is open or evaluated, n is expanded. */
  lemma NeighboursCovered(grid: AStarGrid, n: Node, neighbours: seq<Node>, openSet: seq<Node>, closedSet: set<Node>)
    requires neighbours == WalkableAt(grid.nodes, grid.NeighbourIndexes(n.X, n.Y))
    requires forall j :: 0 <= j < |neighbours| ==> neighbours[j] in openSet || neighbours[j] in closedSet
    ensures Expanded(grid, n, openSet, closedSet)
  {
    forall i | i in grid.NeighbourIndexes(n.X, n.Y) && 0 <= i < |grid.nodes| && grid.nodes[i].Walkable
      ensures grid.nodes[i] in openSet || grid.nodes[i] in closedSet
    {
      var j :| 0 <= j < |neighbours| && neighbours[j] == grid.nodes[i];
    }
  }

  /**
   * The open list after relaxing the walkable cells ns in order: a cell that
   * is neither evaluated nor listed yet is appended.
   */
  function Appended(openSet: seq<Node>, closedSet: set<Node>, ns: seq<Node>): (r: seq<Node>)
    ensures |openSet| <= |r| && r[..|openSet|] == openSet
    ensures forall n :: n in r ==> n in openSet || n in ns
    ensures forall n :: n in ns && n !in closedSet ==> n in r
    decreases |ns|
  {
    if ns == [] then openSet
    else
      var init := ns[..|ns| - 1];
      var prev := Appended(openSet, closedSet, init);
      var q := ns[|ns| - 1];
      assert ns == init + [q];
      assert prev[..|openSet|] == openSet;
      if q in closedSet || q in prev then prev
      else
        assert (prev + [q])[..|openSet|] == prev[..|openSet|];
        prev + [q]
  }

  /** A cell's search bookkeeping: cost so far, estimate to the goal, parent. */
  datatype Book = Book(g: int, h: int, p: Node?)

  /** The bookkeeping of each cell of ns, in order. */
  ghost function Books(ns: seq<Node>): (bs: seq<Book>)
    reads ns
    ensures |bs| == |ns|
    ensures forall j {:trigger bs[j]} :: 0 <= j < |ns| ==> bs[j] == Book(ns[j].gCost, ns[j].hCost, ns[j].parent)
  {
    if ns == [] then [] else [Book(ns[0].gCost, ns[0].hCost, ns[0].parent)] + Books(ns[1..])
  }

  /**
   * Cell n either still has the bookkeeping b, or it is not evaluated and
   * now has currentNode as parent, the cost of the step from currentNode and
   * its distance to the goal as estimate; in that case the cost fell if the
   * cell was open.
   */
  ghost predicate Reached(n: Node, b: Book, wasOpen: bool, currentNode: Node, endNode: Node, closedSet: set<Node>)
    reads n, currentNode
  {
    (n.gCost == b.g && n.hCost == b.h && n.parent == b.p) ||
    (n !in closedSet && n.parent == currentNode && n.hCost == GetDistance(n, endNode) &&
     n.gCost == currentNode.gCost + StepCost(currentNode, n) && (wasOpen ==> n.gCost < b.g))
  }

  /**
   * One turn of the loop over the neighbours: neighbours[i] is relaxed.
   * books holds the neighbours' bookkeeping from before the loop, and
   * openSet0 is the open list from before the loop.
   */
  method RelaxNext(grid: AStarGrid, currentNode: Node, neighbours: seq<Node>, i: nat, endNode: Node,
                   openSet0: seq<Node>, openSet: seq<Node>, closedSet: set<Node>,
                   ghost rank: map<Node, nat>, ghost startNode: Node, ghost books: seq<Book>)
    returns (openSet': seq<Node>)
    requires i < |neighbours| == |books|
    requires SearchInv(grid, openSet, closedSet, rank, startNode, endNode)
    requires currentNode in closedSet && rank[currentNode] == |closedSet| - 1
    requires NodeStep(grid, currentNode, neighbours[i]) && neighbours[i].Walkable
    requires openSet == Appended(openSet0, closedSet, neighbours[..i])
    requires forall j :: 0 <= j < |neighbours| ==>
               Reached(neighbours[j], books[j], neighbours[j] in openSet0, currentNode, endNode, closedSet)
    requires forall j :: 0 <= j < i && neighbours[j] !in closedSet ==>
               neighbours[j].gCost <= currentNode.gCost + StepCost(currentNode, neighbours[j])
    modifies neighbours`gCost, neighbours`hCost, neighbours`parent
    ensures currentNode.gCost == old(currentNode.gCost)
    ensures SearchInv(grid, openSet', closedSet, rank, startNode, endNode)
    ensures openSet' == Appended(openSet0, closedSet, neighbours[..i + 1])
    ensures forall j :: 0 <= j < |neighbours| ==>
              Reached(neighbours[j], books[j], neighbours[j] in openSet0, currentNode, endNode, closedSet)
    ensures forall j :: 0 <= j < i + 1 && neighbours[j] !in closedSet ==>
              neighbours[j].gCost <= currentNode.gCost + StepCost(currentNode, neighbours[j])
  {
    TakeOneMore(neighbours, i);
    var q := neighbours[i];
    openSet' := Relax(grid, currentNode, q, endNode, openSet, closedSet, rank, startNode);
    forall j | 0 <= j < i + 1 && neighbours[j] !in closedSet
      ensures neighbours[j].gCost <= currentNode.gCost + StepCost(currentNode, neighbours[j])
    {
      if neighbours[j] != q {
        assert neighbours[j].gCost == old(neighbours[j].gCost);
      }
    }
    forall j | 0 <= j < |neighbours|
      ensures Reached(neighbours[j], books[j], neighbours[j] in openSet0, currentNode, endNode, closedSet)
    {
      var n := neighbours[j];
      assert old(Reached(n, books[j], n in openSet0, currentNode, endNode, closedSet));
      if n != q {
        assert n.gCost == old(n.gCost) && n.hCost == old(n.hCost) && n.parent == old(n.parent);
        assert StepCost(currentNode, n) == old(StepCost(currentNode, n));
      }
    }
  }

  /**
   * The loop over the neighbours of the evaluated cell, relaxing each in
   * turn.  The open list gains the new cells in order; evaluated cells keep
   * their bookkeeping and open cells' costs never rise; every neighbour that
   * is not evaluated ends open at no more than one step beyond the evaluated
   * cell; and each neighbour either keeps its bookkeeping or now has the
   * evaluated cell as parent with the cost through it.
   */
  method RelaxNeighbours(grid: AStarGrid, currentNode: Node, neighbours: seq<Node>, endNode: Node,
                         openSet: seq<Node>, closedSet: set<Node>,
                         ghost rank: map<Node, nat>, ghost startNode: Node)
    returns (openSet': seq<Node>)
    requires SearchInv(grid, openSet, closedSet, rank, startNode, endNode)
    requires currentNode in closedSet && rank[currentNode] == |closedSet| - 1
    requires forall j :: 0 <= j < |neighbours| ==>
               NodeStep(grid, currentNode, neighbours[j]) && neighbours[j].Walkable
    modifies neighbours`gCost, neighbours`hCost, neighbours`parent
    ensures SearchInv(grid, openSet', closedSet, rank, startNode, endNode)
    ensures openSet' == Appended(openSet, closedSet, neighbours)
    ensures forall n :: n in closedSet ==> n.gCost == old(n.gCost) && n.hCost == old(n.hCost) && n.parent == old(n.parent)
    ensures forall n :: n in openSet ==> n.gCost <= old(n.gCost)
    ensures forall j :: 0 <= j < |neighbours| && neighbours[j] !in closedSet ==>
              neighbours[j].gCost <= currentNode.gCost + StepCost(currentNode, neighbours[j])
    ensures forall j :: 0 <= j < |neighbours| ==>
              Reached(neighbours[j], Book(old(neighbours[j].gCost), old(neighbours[j].hCost), old(neighbours[j].parent)),
                      neighbours[j] in openSet, currentNode, endNode, closedSet)
  {
    ghost var books := Books(neighbours);
    openSet' := openSet;
    var i := 0;
    while i < |neighbours|
      invariant 0 <= i <= |neighbours|
      invariant SearchInv(grid, openSet', closedSet, rank, startNode, endNode)
      invariant openSet' == Appended(openSet, closedSet, neighbours[..i])
      invariant currentNode.gCost == old(currentNode.gCost)
      invariant forall j :: 0 <= j < |neighbours| ==>
                  Reached(neighbours[j], books[j], neighbours[j] in openSet, currentNode, endNode, closedSet)
      invariant forall j :: 0 <= j < i && neighbours[j] !in closedSet ==>
                  neighbours[j].gCost <= currentNode.gCost + StepCost(currentNode, neighbours[j])
    {
      openSet' := RelaxNext(grid, currentNode, neighbours, i, endNode, openSet, openSet', closedSet,
                            rank, startNode, books);
      i := i + 1;
    }
    assert neighbours[..i] == neighbours;
  }

  /**
   * The evaluation of a cell that is not the goal: its walkable neighbours
   * are relaxed in order.  The open list gains the new ones at its end;
   * evaluated cells keep their bookkeeping; every other cell of the grid
   * either keeps its bookkeeping or is now reached through the evaluated
   * cell, and an open cell only when that is cheaper.  Afterwards every
   * evaluated cell's expansion is covered by the open and evaluated cells,
   * and every cell found by an evaluated cell's expansion costs at most one
   * step more than that cell.
   */
  method ExpandNeighbours(grid: AStarGrid, allNodes: seq<Node>, currentNode: Node, endNode: Node,
                          openSet: seq<Node>, closedSet: set<Node>,
                          ghost rank: map<Node, nat>, ghost startNode: Node)
    returns (openSet': seq<Node>, neighbours: seq<Node>)
    requires allNodes == grid.nodes
    requires SearchInv(grid, openSet, closedSet, rank, startNode, endNode)
    requires currentNode in closedSet && rank[currentNode] == |closedSet| - 1
    requires forall n {:trigger Expanded(grid, n, openSet, closedSet)} :: n in closedSet && n != currentNode ==> Expanded(grid, n, openSet, closedSet)
    requires forall n {:trigger Relaxed(grid, n, closedSet)} :: n in closedSet && n != currentNode ==> Relaxed(grid, n, closedSet)
    requires forall w: seq<Node> {:trigger IsWalk(grid, startNode, w)} :: IsWalk(grid, startNode, w) && w[|w| - 1] in closedSet ==>
               w[|w| - 1].gCost <= startNode.gCost + PathCost(Points(w))
    modifies grid.nodes`gCost, grid.nodes`hCost, grid.nodes`parent
    ensures SearchInv(grid, openSet', closedSet, rank, startNode, endNode)
    ensures neighbours == WalkableAt(grid.nodes, grid.NeighbourIndexes(currentNode.X, currentNode.Y))
    ensures openSet' == Appended(openSet, closedSet, neighbours)
    ensures forall n :: n in closedSet ==> n.gCost == old(n.gCost) && n.hCost == old(n.hCost) && n.parent == old(n.parent)
    ensures forall j :: 0 <= j < |neighbours| ==> neighbours[j] in grid.nodes && old(allocated(neighbours[j]))
    ensures forall j :: 0 <= j < |neighbours| ==>
              Reached(neighbours[j], Book(old(neighbours[j].gCost), old(neighbours[j].hCost), old(neighbours[j].parent)),
                      neighbours[j] in openSet, currentNode, endNode, closedSet)
    ensures forall n :: n in grid.nodes && n !in neighbours ==>
              n.gCost == old(n.gCost) && n.hCost == old(n.hCost) && n.parent == old(n.parent)
    ensures forall n {:trigger Expanded(grid, n, openSet', closedSet)} :: n in closedSet ==> Expanded(grid, n, openSet', closedSet)
    ensures forall n {:trigger Relaxed(grid, n, closedSet)} :: n in closedSet ==> Relaxed(grid, n, closedSet)
    ensures startNode.gCost == old(startNode.gCost)
    ensures forall w: seq<Node> {:trigger IsWalk(grid, startNode, w)} :: IsWalk(grid, startNode, w) && w[|w| - 1] in closedSet ==>
              w[|w| - 1].gCost <= startNode.gCost + PathCost(Points(w))
  {
    neighbours := GetNeighbours(allNodes, currentNode, grid);
    NeighboursAreSteps(grid, currentNode, neighbours);
    ghost var costs := Costs(grid.nodes);
    forall p | p in closedSet && p != currentNode
      ensures RelaxedIn(grid, costs, p.gCost, p, closedSet)
    {
      assert Relaxed(grid, p, closedSet);
    }
    label Relaxing:
    openSet' := RelaxNeighbours(grid, currentNode, neighbours, endNode, openSet, closedSet, rank, startNode);
    forall n | n in grid.nodes && n !in neighbours
      ensures n.gCost == old(n.gCost) && n.hCost == old(n.hCost) && n.parent == old(n.parent)
    {
      assert n.gCost == old@Relaxing(n.gCost) && n.hCost == old@Relaxing(n.hCost) && n.parent == old@Relaxing(n.parent);
    }
    forall n | n in closedSet && n != currentNode ensures Expanded(grid, n, openSet, closedSet) {
      assert old(Expanded(grid, n, openSet, closedSet));
    }
    ExpansionSettled(grid, currentNode, neighbours, openSet, openSet', closedSet, costs);
    forall w: seq<Node> | IsWalk(grid, startNode, w) && w[|w| - 1] in closedSet
      ensures w[|w| - 1].gCost <= startNode.gCost + PathCost(Points(w))
    {
      WalkInGrid(grid, startNode, w);
      assert old(IsWalk(grid, startNode, w));
    }
  }

  /**
   * Once the walkable neighbours of c are open or evaluated and no dearer
   * than one step from c, and no open cell got dearer, every evaluated cell
   * is expanded into the grown open list and relaxed.
   */
  lemma ExpansionSettled(grid: AStarGrid, c: Node, neighbours: seq<Node>, openSet: seq<Node>, openSet': seq<Node>,
                         closedSet: set<Node>, costs: seq<int>)
    requires neighbours == WalkableAt(grid.nodes, grid.NeighbourIndexes(c.X, c.Y))
    requires forall j :: 0 <= j < |neighbours| ==> neighbours[j] in openSet' || neighbours[j] in closedSet
    requires forall m :: m in openSet ==> m in openSet'
    requires forall p {:trigger Expanded(grid, p, openSet, closedSet)} :: p in closedSet && p != c ==>
               Expanded(grid, p, openSet, closedSet)
    requires |costs| == |grid.nodes|
    requires forall p :: p in closedSet && p != c ==> RelaxedIn(grid, costs, p.gCost, p, closedSet)
    requires forall i :: 0 <= i < |grid.nodes| && grid.nodes[i] in openSet ==> grid.nodes[i].gCost <= costs[i]
    requires forall j :: 0 <= j < |neighbours| && neighbours[j] !in closedSet ==>
               neighbours[j].gCost <= c.gCost + StepCost(c, neighbours[j])
    ensures forall n {:trigger Expanded(grid, n, openSet', closedSet)} :: n in closedSet ==> Expanded(grid, n, openSet', closedSet)
    ensures forall p {:trigger Relaxed(grid, p, closedSet)} :: p in closedSet ==> Relaxed(grid, p, closedSet)
  {
    NeighboursCovered(grid, c, neighbours, openSet', closedSet);
    AllExpandedGrow(grid, c, openSet, openSet', closedSet);
    AllRelaxed(grid, c, neighbours, openSet, closedSet, costs);
  }

  /** The positions of the cells of a walk, in order. */
  function Points(w: seq<Node>): (ps: seq<Point>)
    ensures |ps| == |w| && forall k {:trigger ps[k]} :: 0 <= k < |w| ==> ps[k] == PointOf(w[k])
  {
    if w == [] then [] else [PointOf(w[0])] + Points(w[1..])
  }

  /** Every cell of a walk from a grid cell is a cell of the grid. */
  lemma {:induction false} WalkInGrid(grid: AStarGrid, from: Node, w: seq<Node>)
    requires from in grid.nodes && IsWalk(grid, from, w)
    ensures forall k :: 0 <= k < |w| ==> w[k] in grid.nodes
  {
    forall k | 0 <= k < |w| ensures w[k] in grid.nodes {
      if k > 0 {
        assert StepAt(grid, w, k - 1);
        var idx := grid.NeighbourIndexes(w[k - 1].X, w[k - 1].Y);
        assert CellIs(grid, idx[0], w[k]) || CellIs(grid, idx[1], w[k]) ||
               CellIs(grid, idx[2], w[k]) || CellIs(grid, idx[3], w[k]);
      }
    }
  }

  /** Every non-empty prefix of a walk is a walk. */
  lemma WalkPrefix(grid: AStarGrid, from: Node, w: seq<Node>, j: nat)
    requires IsWalk(grid, from, w) && 1 <= j <= |w|
    ensures IsWalk(grid, from, w[..j])
  {
    forall k: nat | k < j - 1 ensures StepAt(grid, w[..j], k) {
      assert StepAt(grid, w, k);
    }
  }

  /** A walk that starts inside a region and ends outside it leaves the region at some step. */
  lemma {:induction false} ExitIndex(region: set<Node>, w: seq<Node>) returns (j: nat)
    requires |w| >= 1 && w[0] in region && w[|w| - 1] !in region
    ensures 1 <= j < |w| && w[j - 1] in region && w[j] !in region
  {
    if w[1] !in region {
      j := 1;
    } else {
      var j' := ExitIndex(region, w[1..]);
      j := j' + 1;
    }
  }

  /** The recorded cost of each cell of nodes, in order. */
  ghost function Costs(nodes: seq<Node>): (cs: seq<int>)
    reads nodes`gCost
    ensures |cs| == |nodes| && forall i {:trigger cs[i]} :: 0 <= i < |nodes| ==> cs[i] == nodes[i].gCost
  {
    if nodes == [] then [] else [nodes[0].gCost] + Costs(nodes[1..])
  }

  /**
   * If index i addresses a walkable cell that is not evaluated, its cost in
   * costs is at most pg plus the cost of the step from p to it.
   */
  ghost predicate RelaxedAt(grid: AStarGrid, costs: seq<int>, pg: int, p: Node, i: int, closedSet: set<Node>)
    reads grid.nodes`Walkable, grid.nodes`penalty
  {
    0 <= i < |grid.nodes| && i < |costs| && grid.nodes[i].Walkable && grid.nodes[i] !in closedSet ==>
      costs[i] <= pg + StepCost(p, grid.nodes[i])
  }

  /** RelaxedAt at each of the four indices the expansion of p looks at. */
  ghost predicate RelaxedIn(grid: AStarGrid, costs: seq<int>, pg: int, p: Node, closedSet: set<Node>)
    reads grid.nodes`Walkable, grid.nodes`penalty
  {
    var idx := grid.NeighbourIndexes(p.X, p.Y);
    RelaxedAt(grid, costs, pg, p, idx[0], closedSet) && RelaxedAt(grid, costs, pg, p, idx[1], closedSet) &&
    RelaxedAt(grid, costs, pg, p, idx[2], closedSet) && RelaxedAt(grid, costs, pg, p, idx[3], closedSet)
  }

  /** Every unevaluated walkable cell the expansion of p finds costs at most one step more than p. */
  ghost predicate Relaxed(grid: AStarGrid, p: Node, closedSet: set<Node>)
    reads p`gCost, grid.nodes`gCost, grid.nodes`Walkable, grid.nodes`penalty
  {
    RelaxedIn(grid, Costs(grid.nodes), p.gCost, p, closedSet)
  }

  /**
   * An expanded cell stays relaxed when the costs of open cells do not rise:
   * every unevaluated walkable cell its expansion finds is open.
   */
  lemma RelaxedKept(grid: AStarGrid, p: Node, pg: int, openSet: seq<Node>, closedSet: set<Node>,
                    costs: seq<int>, costs': seq<int>)
    requires RelaxedIn(grid, costs, pg, p, closedSet) && Expanded(grid, p, openSet, closedSet)
    requires |costs| == |costs'| == |grid.nodes|
    requires forall i :: 0 <= i < |grid.nodes| && grid.nodes[i] in openSet ==> costs'[i] <= costs[i]
    ensures RelaxedIn(grid, costs', pg, p, closedSet)
  {
    var idx := grid.NeighbourIndexes(p.X, p.Y);
    assert Covered(grid, idx[0], openSet, closedSet) && Covered(grid, idx[1], openSet, closedSet);
    assert Covered(grid, idx[2], openSet, closedSet) && Covered(grid, idx[3], openSet, closedSet);
  }

  /**
   * After the neighbours of c are relaxed, every evaluated cell is relaxed:
   * those evaluated before c were relaxed against the costs before, which
   * open cells' costs have not exceeded since, and c by RelaxedNow.
   */
  lemma AllRelaxed(grid: AStarGrid, c: Node, neighbours: seq<Node>, openSet: seq<Node>, closedSet: set<Node>,
                   costs: seq<int>)
    requires |costs| == |grid.nodes|
    requires forall p {:trigger Expanded(grid, p, openSet, closedSet)} :: p in closedSet && p != c ==>
               Expanded(grid, p, openSet, closedSet)
    requires forall p :: p in closedSet && p != c ==> RelaxedIn(grid, costs, p.gCost, p, closedSet)
    requires forall i :: 0 <= i < |grid.nodes| && grid.nodes[i] in openSet ==> grid.nodes[i].gCost <= costs[i]
    requires neighbours == WalkableAt(grid.nodes, grid.NeighbourIndexes(c.X, c.Y))
    requires forall j :: 0 <= j < |neighbours| && neighbours[j] !in closedSet ==>
               neighbours[j].gCost <= c.gCost + StepCost(c, neighbours[j])
    ensures forall p {:trigger Relaxed(grid, p, closedSet)} :: p in closedSet ==> Relaxed(grid, p, closedSet)
  {
    var costs' := Costs(grid.nodes);
    forall p | p in closedSet
      ensures Relaxed(grid, p, closedSet)
    {
      if p == c {
        RelaxedNow(grid, c, neighbours, closedSet);
      } else {
        RelaxedKept(grid, p, p.gCost, openSet, closedSet, costs, costs');
      }
    }
  }

  /**
   * The cell c whose walkable neighbours have each been brought to at most
   * one step beyond c, unless evaluated, is relaxed.
   */
  lemma RelaxedNow(grid: AStarGrid, c: Node, neighbours: seq<Node>, closedSet: set<Node>)
    requires neighbours == WalkableAt(grid.nodes, grid.NeighbourIndexes(c.X, c.Y))
    requires forall j :: 0 <= j < |neighbours| && neighbours[j] !in closedSet ==>
               neighbours[j].gCost <= c.gCost + StepCost(c, neighbours[j])
    ensures Relaxed(grid, c, closedSet)
  {
    var idx := grid.NeighbourIndexes(c.X, c.Y);
    var costs := Costs(grid.nodes);
    forall t | 0 <= t < 4
      ensures RelaxedAt(grid, costs, c.gCost, c, idx[t], closedSet)
    {
      if 0 <= idx[t] < |grid.nodes| && grid.nodes[idx[t]].Walkable && grid.nodes[idx[t]] !in closedSet {
        assert idx[t] in idx;
        var j :| 0 <= j < |neighbours| && neighbours[j] == grid.nodes[idx[t]];
      }
    }
  }

  /**
   * A walkable expansion cell of an expanded and relaxed cell p that is not
   * evaluated is open, and costs at most p's cost plus one walkable step.
   */
  lemma StepBound(grid: AStarGrid, p: Node, q: Node, openSet: seq<Node>, closedSet: set<Node>)
    requires NodeStep(grid, p, q) && q.Walkable && q.Valid() && q !in closedSet
    requires Expanded(grid, p, openSet, closedSet) && Relaxed(grid, p, closedSet)
    ensures q in openSet
    ensures q.gCost <= p.gCost + 10 * GetDistance(p, q)
  {
    var idx := grid.NeighbourIndexes(p.X, p.Y);
    if CellIs(grid, idx[0], q) {
      assert Covered(grid, idx[0], openSet, closedSet) && RelaxedAt(grid, Costs(grid.nodes), p.gCost, p, idx[0], closedSet);
    } else if CellIs(grid, idx[1], q) {
      assert Covered(grid, idx[1], openSet, closedSet) && RelaxedAt(grid, Costs(grid.nodes), p.gCost, p, idx[1], closedSet);
    } else if CellIs(grid, idx[2], q) {
      assert Covered(grid, idx[2], openSet, closedSet) && RelaxedAt(grid, Costs(grid.nodes), p.gCost, p, idx[2], closedSet);
    } else {
      assert Covered(grid, idx[3], openSet, closedSet) && RelaxedAt(grid, Costs(grid.nodes), p.gCost, p, idx[3], closedSet);
    }
  }

  /**
   * The heart of A*'s optimality: any walk from the start to an open cell c
   * leaves the evaluated cells at some open cell q, whose estimated total cost
   * is at most the walk's cost plus c's estimate, because the estimate is
   * consistent; so when c has the least estimated total cost, its cost is at
   * most the walk's.
   */
  lemma WalkThroughFrontier(grid: AStarGrid, openSet: seq<Node>, closedSet: set<Node>, rank: map<Node, nat>,
                            startNode: Node, endNode: Node, g0: int, c: Node, w: seq<Node>)
    requires SearchInv(grid, openSet, closedSet, rank, startNode, endNode) && closedSet != {}
    requires forall n :: n in grid.nodes ==> n.Valid()
    requires c in openSet && forall q :: q in openSet ==> c.FCost() <= q.FCost()
    requires forall n {:trigger Expanded(grid, n, openSet, closedSet)} :: n in closedSet ==> Expanded(grid, n, openSet, closedSet)
    requires forall n {:trigger Relaxed(grid, n, closedSet)} :: n in closedSet ==> Relaxed(grid, n, closedSet)
    requires forall w: seq<Node> {:trigger IsWalk(grid, startNode, w)} :: IsWalk(grid, startNode, w) && w[|w| - 1] in closedSet ==>
               w[|w| - 1].gCost <= g0 + PathCost(Points(w))
    requires IsWalk(grid, startNode, w) && w[|w| - 1] == c
    ensures c.gCost <= g0 + PathCost(Points(w))
  {
    assert startNode in closedSet && c !in closedSet;
    var j := ExitIndex(closedSet, w);
    var p, q := w[j - 1], w[j];
    assert StepAt(grid, w, j - 1);
    WalkInGrid(grid, startNode, w);
    StepBound(grid, p, q, openSet, closedSet);
    WalkPrefix(grid, startNode, w, j);
    assert w[..j][j - 1] == p;
    assert p.gCost <= g0 + PathCost(Points(w[..j]));
    assert q.gCost <= p.gCost + 10 * GetDistance(p, q);
    assert Linked(grid, q, closedSet, endNode);
    assert Linked(grid, c, closedSet, endNode);
    assert c.gCost + GetDistance(c, endNode) <= q.gCost + GetDistance(q, endNode);
    WalkCostBound(w, j, endNode, g0, p.gCost, q.gCost, c.gCost);
  }

  /**
   * The cost argument behind A*'s optimality, for a walk of cells that leaves
   * the evaluated cells at cell j: if the cell before j was reached no dearer
   * than the walk up to it, cell j costs at most one step more, and the
   * chosen cell's estimated total is no more than cell j's, then the chosen
   * cell costs no more than the whole walk.
   */
  lemma WalkCostBound(w: seq<Node>, j: nat, endNode: Node, g0: int, gp: int, gq: int, gc: int)
    requires 1 <= j < |w|
    requires gp <= g0 + PathCost(Points(w[..j]))
    requires gq <= gp + 10 * GetDistance(w[j - 1], w[j])
    requires gc + GetDistance(w[|w| - 1], endNode) <= gq + GetDistance(w[j], endNode)
    ensures gc <= g0 + PathCost(Points(w))
  {
    WalkCostAcross(w, j);
    WalkEstimate(w, j, endNode);
    ChainBound(g0, gp, gq, gc, PathCost(Points(w[..j])), 10 * GetDistance(w[j - 1], w[j]), PathCost(Points(w)[j..]),
               GetDistance(w[j], endNode), GetDistance(w[|w| - 1], endNode));
  }

  /** PathCostAcross for a walk of cells: the cost up to cell j - 1, the step to cell j, and the rest. */
  lemma WalkCostAcross(w: seq<Node>, j: nat)
    requires 1 <= j < |w|
    ensures PathCost(Points(w)) == PathCost(Points(w[..j])) + 10 * GetDistance(w[j - 1], w[j]) + PathCost(Points(w)[j..])
  {
    WalkPoints(w, j);
    PathCostAcross(Points(w), j);
  }

  /** EstimateAlongRoute for a walk of cells, from its cell j on. */
  lemma WalkEstimate(w: seq<Node>, j: nat, endNode: Node)
    requires j < |w|
    ensures GetDistance(w[j], endNode) <= PathCost(Points(w)[j..]) + GetDistance(w[|w| - 1], endNode)
  {
    var ps, last := Points(w), |w| - 1;
    assert last == |ps| - 1;
    assert ps[j] == PointOf(w[j]) && ps[last] == PointOf(w[last]);
    EstimateAlongRoute(ps, j, PointOf(endNode));
  }

  /** The points of a walk split at j: those of its first j cells, and the positions of the cells around j and at its end. */
  lemma WalkPoints(w: seq<Node>, j: nat)
    requires 1 <= j < |w|
    ensures Points(w[..j]) == Points(w)[..j]
    ensures Points(w)[j - 1] == PointOf(w[j - 1]) && Points(w)[j] == PointOf(w[j])
    ensures Points(w)[|Points(w)| - 1] == PointOf(w[|w| - 1])
  {
    var ps, last := Points(w), |w| - 1;
    assert last == |ps| - 1;
    assert ps[last] == PointOf(w[last]);
  }

  /** The cell chosen for evaluation is reached at least as cheaply as along any walk. */
  lemma CloseOptimal(grid: AStarGrid, openSet: seq<Node>, closedSet: set<Node>, rank: map<Node, nat>,
                     startNode: Node, endNode: Node, g0: int, c: Node)
    requires SearchInv(grid, openSet, closedSet, rank, startNode, endNode)
    requires forall n :: n in grid.nodes ==> n.Valid()
    requires startNode.gCost == g0
    requires c in openSet && forall q :: q in openSet ==> c.FCost() <= q.FCost()
    requires forall n {:trigger Expanded(grid, n, openSet, closedSet)} :: n in closedSet ==> Expanded(grid, n, openSet, closedSet)
    requires forall n {:trigger Relaxed(grid, n, closedSet)} :: n in closedSet ==> Relaxed(grid, n, closedSet)
    requires forall w: seq<Node> {:trigger IsWalk(grid, startNode, w)} :: IsWalk(grid, startNode, w) && w[|w| - 1] in closedSet ==>
               w[|w| - 1].gCost <= g0 + PathCost(Points(w))
    ensures forall w: seq<Node> {:trigger IsWalk(grid, startNode, w)} :: IsWalk(grid, startNode, w) && w[|w| - 1] == c ==>
              c.gCost <= g0 + PathCost(Points(w))
    ensures forall w: seq<Node> {:trigger IsWalk(grid, startNode, w)} :: IsWalk(grid, startNode, w) && w[|w| - 1] in closedSet + {c} ==>
              w[|w| - 1].gCost <= g0 + PathCost(Points(w))
  {
    forall w | IsWalk(grid, startNode, w) && w[|w| - 1] == c
      ensures c.gCost <= g0 + PathCost(Points(w))
    {
      if closedSet == {} {
        assert c == startNode;
      } else {
        WalkThroughFrontier(grid, openSet, closedSet, rank, startNode, endNode, g0, c, w);
      }
    }
  }

  /** Evaluating one more cell keeps every evaluated cell relaxed. */
  lemma RelaxedGrow(grid: AStarGrid, closedSet: set<Node>, c: Node)
    requires forall p {:trigger Relaxed(grid, p, closedSet)} :: p in closedSet ==> Relaxed(grid, p, closedSet)
    ensures forall p {:trigger Relaxed(grid, p, closedSet + {c})} :: p in closedSet ==> Relaxed(grid, p, closedSet + {c})
  {
    forall p | p in closedSet ensures Relaxed(grid, p, closedSet + {c}) {
      assert Relaxed(grid, p, closedSet);
    }
  }

  /**
   * A route to the goal whose cost is the goal's recorded cost, when that
   * cost is at most any walk's to the goal, is no dearer than any walk from
   * the start to a cell with the goal's coordinates.
   */
  lemma RouteOptimal(grid: AStarGrid, startNode: Node, endNode: Node, g0: int, route: seq<Point>)
    requires startNode in grid.nodes
    requires forall n :: n in grid.nodes && SameCoords(n, endNode) ==> n == endNode
    requires endNode.gCost == g0 + PathCost(route)
    requires forall w: seq<Node> {:trigger IsWalk(grid, startNode, w)} :: IsWalk(grid, startNode, w) && w[|w| - 1] == endNode ==>
               endNode.gCost <= g0 + PathCost(Points(w))
    ensures forall w: seq<Node> {:trigger IsWalk(grid, startNode, w)} :: IsWalk(grid, startNode, w) && SameCoords(w[|w| - 1], endNode) ==>
              PathCost(route) <= PathCost(Points(w))
  {
    forall w | IsWalk(grid, startNode, w) && SameCoords(w[|w| - 1], endNode)
      ensures PathCost(route) <= PathCost(Points(w))
    {
      WalkInGrid(grid, startNode, w);
      assert w[|w| - 1] in grid.nodes;
    }
  }

  lemma {:induction false} SubsetCard<T>(a: set<T>, b: set<T>)
    requires a <= b
    ensures |a| <= |b|
  {
    if a != {} {
      var x :| x in a;
      SubsetCard(a - {x}, b - {x});
    }
  }

  /** An evaluated set of grid cells that can still grow by c is smaller than the grid. */
  lemma Unvisited(grid: AStarGrid, closedSet: set<Node>, c: Node)
    requires forall n :: n in closedSet ==> n in grid.nodes
    requires c in grid.nodes && c !in closedSet
    ensures |closedSet + {c}| <= |grid.Cells()|
  {
    assert closedSet + {c} <= grid.Cells();
    SubsetCard(closedSet + {c}, grid.Cells());
  }

  /**
   * Evaluating an open cell no other open cell is preferred to keeps the
   * search invariant, the expansions and relaxations of the cells evaluated
   * before, and the cheapest-walk bound, now for the chosen cell too.
   */
  lemma CloseStep(grid: AStarGrid, openSet: seq<Node>, closedSet: set<Node>, rank: map<Node, nat>,
                  startNode: Node, endNode: Node, k: nat)
    requires forall n :: n in grid.nodes ==> n.Valid()
    requires SearchInv(grid, openSet, closedSet, rank, startNode, endNode)
    requires k < |openSet| && forall j :: 0 <= j < |openSet| ==> !Precedes(openSet[j], openSet[k])
    requires forall n {:trigger Expanded(grid, n, openSet, closedSet)} :: n in closedSet ==> Expanded(grid, n, openSet, closedSet)
    requires forall n {:trigger Relaxed(grid, n, closedSet)} :: n in closedSet ==> Relaxed(grid, n, closedSet)
    requires forall w: seq<Node> {:trigger IsWalk(grid, startNode, w)} :: IsWalk(grid, startNode, w) && w[|w| - 1] in closedSet ==>
               w[|w| - 1].gCost <= startNode.gCost + PathCost(Points(w))
    ensures openSet[k] !in closedSet && |closedSet| < |closedSet + {openSet[k]}| <= |grid.Cells()|
    ensures SearchInv(grid, RemoveFirst(openSet, openSet[k]), closedSet + {openSet[k]},
                      rank[openSet[k] := |closedSet|], startNode, endNode)
    ensures forall n {:trigger Expanded(grid, n, RemoveFirst(openSet, openSet[k]), closedSet + {openSet[k]})} ::
              n in closedSet ==> Expanded(grid, n, RemoveFirst(openSet, openSet[k]), closedSet + {openSet[k]})
    ensures forall n {:trigger Relaxed(grid, n, closedSet + {openSet[k]})} :: n in closedSet ==> Relaxed(grid, n, closedSet + {openSet[k]})
    ensures forall w: seq<Node> {:trigger IsWalk(grid, startNode, w)} :: IsWalk(grid, startNode, w) && w[|w| - 1] in closedSet + {openSet[k]} ==>
              w[|w| - 1].gCost <= startNode.gCost + PathCost(Points(w))
  {
    var c := openSet[k];
    forall q | q in openSet ensures c.FCost() <= q.FCost() {
      var j :| 0 <= j < |openSet| && openSet[j] == q;
      assert !Precedes(openSet[j], openSet[k]);
    }
    CloseOptimal(grid, openSet, closedSet, rank, startNode, endNode, startNode.gCost, c);
    CloseCurrent(grid, openSet, closedSet, rank, startNode, endNode, k);
    Unvisited(grid, closedSet, c);
    RelaxedGrow(grid, closedSet, c);
  }

  /**
   * The first half of a round: the open cell no other open cell is preferred
   * to is taken off the open list and evaluated.  It is reached at least as
   * cheaply as along any walk, so every evaluated cell still is; the
   * expansions and relaxations of the cells evaluated before stay valid.
   */
  method CloseBest(grid: AStarGrid, startNode: Node, endNode: Node,
                   openSet: seq<Node>, closedSet: set<Node>, ghost rank: map<Node, nat>)
    returns (currentNode: Node, openSet': seq<Node>, closedSet': set<Node>, ghost rank': map<Node, nat>)
    requires forall n :: n in grid.nodes ==> n.Valid()
    requires |openSet| > 0
    requires SearchInv(grid, openSet, closedSet, rank, startNode, endNode)
    requires forall n {:trigger Expanded(grid, n, openSet, closedSet)} :: n in closedSet ==> Expanded(grid, n, openSet, closedSet)
    requires forall n {:trigger Relaxed(grid, n, closedSet)} :: n in closedSet ==> Relaxed(grid, n, closedSet)
    requires forall w: seq<Node> {:trigger IsWalk(grid, startNode, w)} :: IsWalk(grid, startNode, w) && w[|w| - 1] in closedSet ==>
               w[|w| - 1].gCost <= startNode.gCost + PathCost(Points(w))
    ensures ScanChoice(openSet, currentNode) && currentNode !in closedSet
    ensures openSet' == RemoveFirst(openSet, currentNode) && closedSet' == closedSet + {currentNode}
    ensures rank' == rank[currentNode := |closedSet|]
    ensures |closedSet| < |closedSet'| <= |grid.Cells()|
    ensures SearchInv(grid, openSet', closedSet', rank', startNode, endNode)
    ensures forall n {:trigger Expanded(grid, n, openSet', closedSet')} :: n in closedSet ==> Expanded(grid, n, openSet', closedSet')
    ensures forall n {:trigger Relaxed(grid, n, closedSet')} :: n in closedSet ==> Relaxed(grid, n, closedSet')
    ensures forall w: seq<Node> {:trigger IsWalk(grid, startNode, w)} :: IsWalk(grid, startNode, w) && w[|w| - 1] in closedSet' ==>
              w[|w| - 1].gCost <= startNode.gCost + PathCost(Points(w))
  {
    var k := SelectCurrent(openSet);
    currentNode := openSet[k];
    FirstIndexBefore(openSet, currentNode, k);
    forall w: seq<Node> | IsWalk(grid, startNode, w) && w[|w| - 1] in closedSet
      ensures w[|w| - 1].gCost <= startNode.gCost + PathCost(Points(w))
    {
      WalkInGrid(grid, startNode, w);
      assert old(IsWalk(grid, startNode, w));
    }
    CloseStep(grid, openSet, closedSet, rank, startNode, endNode, k);
    openSet' := RemoveFirst(openSet, currentNode);
    rank' := rank[currentNode := |closedSet|];
    closedSet' := closedSet + {currentNode};
  }

  /** path is a route from a's position to b's. */
  ghost predicate RouteBetween(grid: AStarGrid, path: seq<Point>, a: Node, b: Node)
    reads grid.nodes`Walkable
  {
    |path| >= 1 && path[0] == PointOf(a) && path[|path| - 1] == PointOf(b) && IsRoute(grid, path)
  }

  /**
   * The end of a search that has just evaluated the goal cell: the route
   * retraced from it is no dearer than any walk from the start to the goal.
   */
  method ReportRoute(grid: AStarGrid, startNode: Node, endNode: Node,
                     ghost closedSet: set<Node>, ghost rank: map<Node, nat>)
    returns (route: seq<Point>)
    requires forall n :: n in grid.nodes ==> n.Valid()
    requires forall n :: n in grid.nodes && SameCoords(n, endNode) ==> n == endNode
    requires startNode in grid.nodes && endNode in closedSet && forall n :: n in closedSet ==> n in grid.nodes
    requires Chained(grid, closedSet, rank, startNode, endNode)
    requires forall w: seq<Node> {:trigger IsWalk(grid, startNode, w)} :: IsWalk(grid, startNode, w) && w[|w| - 1] in closedSet ==>
               w[|w| - 1].gCost <= startNode.gCost + PathCost(Points(w))
    ensures RouteBetween(grid, route, startNode, endNode)
    ensures endNode.gCost == startNode.gCost + PathCost(route)
    ensures startNode == endNode ==> route == [PointOf(startNode)]
    ensures forall w: seq<Node> {:trigger IsWalk(grid, startNode, w)} :: IsWalk(grid, startNode, w) && SameCoords(w[|w| - 1], endNode) ==>
              PathCost(route) <= PathCost(Points(w))
  {
    ghost var g0 := startNode.gCost;
    route := RetracePath(grid, startNode, endNode, closedSet, rank);
    forall w: seq<Node> | IsWalk(grid, startNode, w) && w[|w| - 1] == endNode
      ensures endNode.gCost <= g0 + PathCost(Points(w))
    {
      WalkInGrid(grid, startNode, w);
      assert old(IsWalk(grid, startNode, w));
    }
    RouteOptimal(grid, startNode, endNode, g0, route);
  }

  /**
   * One round of the search loop: the best open cell is evaluated; if it
   * holds the goal's coordinates the route to it is retraced, otherwise its
   * neighbours are relaxed.  The invariants of the search are kept: every
   * evaluated cell's expansion is covered and relaxed, and no walk from the
   * start reaches an evaluated cell more cheaply than the cost recorded on it.
   */
  method SearchRound(grid: AStarGrid, startNode: Node, endNode: Node,
                     openSet: seq<Node>, closedSet: set<Node>, ghost rank: map<Node, nat>)
    returns (openSet': seq<Node>, closedSet': set<Node>, ghost rank': map<Node, nat>, found: Option<seq<Point>>,
             currentNode: Node, ghost neighbours: seq<Node>)
    requires forall n :: n in grid.nodes ==> n.Valid()
    requires forall n :: n in grid.nodes && SameCoords(n, endNode) ==> n == endNode
    requires |openSet| > 0
    requires SearchInv(grid, openSet, closedSet, rank, startNode, endNode)
    requires forall n {:trigger Expanded(grid, n, openSet, closedSet)} :: n in closedSet ==> Expanded(grid, n, openSet, closedSet)
    requires forall n {:trigger Relaxed(grid, n, closedSet)} :: n in closedSet ==> Relaxed(grid, n, closedSet)
    requires forall w: seq<Node> {:trigger IsWalk(grid, startNode, w)} :: IsWalk(grid, startNode, w) && w[|w| - 1] in closedSet ==>
               w[|w| - 1].gCost <= startNode.gCost + PathCost(Points(w))
    requires forall n :: n in closedSet ==> !SameCoords(n, endNode)
    modifies grid.nodes`gCost, grid.nodes`hCost, grid.nodes`parent
    ensures currentNode in openSet && closedSet' == closedSet + {currentNode} && old(allocated(currentNode))
    ensures old(ScanChoice(openSet, currentNode))
    ensures found.Some? <==> SameCoords(currentNode, endNode)
    ensures startNode.gCost == old(startNode.gCost)
    ensures found.Some? ==> RouteBetween(grid, found.value, startNode, endNode)
    ensures found.Some? ==>
              endNode.gCost == startNode.gCost + PathCost(found.value)
    ensures found.Some? ==>
              forall w: seq<Node> {:trigger IsWalk(grid, startNode, w)} :: IsWalk(grid, startNode, w) && SameCoords(w[|w| - 1], endNode) ==>
                PathCost(found.value) <= PathCost(Points(w))
    ensures found.Some? ==>
              openSet' == RemoveFirst(openSet, currentNode) &&
              forall n :: n in grid.nodes ==> n.gCost == old(n.gCost) && n.hCost == old(n.hCost) && n.parent == old(n.parent)
    ensures SameCoords(startNode, endNode) ==> found == Some([PointOf(startNode)])
    ensures found.None? ==>
              neighbours == WalkableAt(grid.nodes, grid.NeighbourIndexes(currentNode.X, currentNode.Y)) &&
              openSet' == Appended(RemoveFirst(openSet, currentNode), closedSet', neighbours) &&
              (forall n :: n in closedSet' ==> n.gCost == old(n.gCost) && n.hCost == old(n.hCost) && n.parent == old(n.parent)) &&
              (forall n :: n in grid.nodes && n !in neighbours ==>
                 n.gCost == old(n.gCost) && n.hCost == old(n.hCost) && n.parent == old(n.parent))
    ensures found.None? ==>
              forall j :: 0 <= j < |neighbours| ==> neighbours[j] in grid.nodes && old(allocated(neighbours[j]))
    ensures found.None? ==>
              forall j :: 0 <= j < |neighbours| ==>
                Reached(neighbours[j], Book(old(neighbours[j].gCost), old(neighbours[j].hCost), old(neighbours[j].parent)),
                        neighbours[j] in openSet, currentNode, endNode, closedSet')
    ensures found.None? ==>
              SearchInv(grid, openSet', closedSet', rank', startNode, endNode) &&
              (forall n {:trigger Expanded(grid, n, openSet', closedSet')} :: n in closedSet' ==> Expanded(grid, n, openSet', closedSet')) &&
              (forall n {:trigger Relaxed(grid, n, closedSet')} :: n in closedSet' ==> Relaxed(grid, n, closedSet')) &&
              (forall w: seq<Node> {:trigger IsWalk(grid, startNode, w)} :: IsWalk(grid, startNode, w) && w[|w| - 1] in closedSet' ==>
                 w[|w| - 1].gCost <= startNode.gCost + PathCost(Points(w))) &&
              (forall n :: n in closedSet' ==> !SameCoords(n, endNode)) &&
              |closedSet| < |closedSet'| <= |grid.Cells()|
  {
    currentNode, openSet', closedSet', rank' := CloseBest(grid, startNode, endNode, openSet, closedSet, rank);
    neighbours := [];

    if currentNode.X == endNode.X && currentNode.Y == endNode.Y {
      assert currentNode == endNode;
      var route := ReportRoute(grid, startNode, endNode, closedSet', rank');
      return openSet', closedSet', rank', Some(route), currentNode, neighbours;
    }

    found := None;
    openSet', neighbours := ExpandNeighbours(grid, grid.nodes, currentNode, endNode, openSet', closedSet', rank', startNode);
  }

  /**
   * The search loop of Pathfind, from the start cell towards the goal cell.
   * On success the route runs from the start's position to the goal's, each
   * step to a walkable cell the expansion finds; its cost is what the search
   * recorded on the goal cell, and no walk from the start to the goal's
   * coordinates is cheaper.  With no route, no walk from the start reaches
   * the goal's coordinates.
   */
  method Search(grid: AStarGrid, startNode: Node, endNode: Node) returns (path: Option<seq<Point>>)
    requires startNode in grid.nodes
    requires forall n :: n in grid.nodes ==> n.Valid()
    requires forall n :: n in grid.nodes && SameCoords(n, endNode) ==> n == endNode
    modifies grid.nodes`gCost, grid.nodes`hCost, grid.nodes`parent
    ensures path.Some? ==>
              RouteBetween(grid, path.value, startNode, endNode) &&
              endNode.gCost == old(startNode.gCost) + PathCost(path.value)
    ensures path.Some? ==>
              forall w: seq<Node> {:trigger IsWalk(grid, startNode, w)} :: IsWalk(grid, startNode, w) && SameCoords(w[|w| - 1], endNode) ==>
                PathCost(path.value) <= PathCost(Points(w))
    ensures SameCoords(startNode, endNode) ==> path == Some([PointOf(startNode)])
    ensures path.None? ==> forall w :: IsWalk(grid, startNode, w) ==> !SameCoords(w[|w| - 1], endNode)
  {
    var openSet: seq<Node> := [startNode];
    var closedSet: set<Node> := {};
    ghost var rank: map<Node, nat> := map[];

    while |openSet| > 0
      invariant SearchInv(grid, openSet, closedSet, rank, startNode, endNode)
      invariant forall n {:trigger Expanded(grid, n, openSet, closedSet)} :: n in closedSet ==> Expanded(grid, n, openSet, closedSet)
      invariant forall n {:trigger Relaxed(grid, n, closedSet)} :: n in closedSet ==> Relaxed(grid, n, closedSet)
      invariant forall w: seq<Node> {:trigger IsWalk(grid, startNode, w)} :: IsWalk(grid, startNode, w) && w[|w| - 1] in closedSet ==>
                  w[|w| - 1].gCost <= startNode.gCost + PathCost(Points(w))
      invariant forall n :: n in closedSet ==> !SameCoords(n, endNode)
      invariant startNode.gCost == old(startNode.gCost)
      invariant |closedSet| <= |grid.Cells()|
      decreases |grid.Cells()| - |closedSet|
    {
      var found, currentNode;
      ghost var neighbours;
      openSet, closedSet, rank, found, currentNode, neighbours := SearchRound(grid, startNode, endNode, openSet, closedSet, rank);
      if found.Some? {
        return found;
      }
    }
    forall w | IsWalk(grid, startNode, w)
      ensures !SameCoords(w[|w| - 1], endNode)
    {
      WalkStaysIn(grid, closedSet, startNode, w);
    }
    return None;
  }

  /**
   * A* from the cell at startNodeIndex to the cell at endNodeIndex: the
   * start and goal cells are looked up by the coordinates of those cells and
   * the search runs between them; a route it returns is a cheapest one.
   * Only the search fields are written: every cell keeps its `CostDistance`
   * and its walkability.
   */
  method Pathfind(grid: AStarGrid, startNodeIndex: nat, endNodeIndex: nat) returns (path: Option<seq<Point>>)
    requires startNodeIndex < |grid.nodes| && endNodeIndex < |grid.nodes|
    requires forall n :: n in grid.nodes ==> n.Valid()
    requires forall i :: 0 <= i < |grid.nodes| && SameCoords(grid.nodes[i], grid.nodes[endNodeIndex]) ==>
               grid.nodes[i] == grid.nodes[endNodeIndex]
    modifies grid.nodes`gCost, grid.nodes`hCost, grid.nodes`parent
    ensures path.Some? ==>
              |path.value| >= 1 &&
              path.value[0] == PointOf(grid.nodes[startNodeIndex]) &&
              path.value[|path.value| - 1] == PointOf(grid.nodes[endNodeIndex]) &&
              IsRoute(grid, path.value) &&
              grid.nodes[endNodeIndex].gCost == old(StartOf(grid, startNodeIndex).gCost) + PathCost(path.value)
    ensures path.Some? ==>
              forall w: seq<Node> {:trigger IsWalk(grid, StartOf(grid, startNodeIndex), w)} ::
                IsWalk(grid, StartOf(grid, startNodeIndex), w) && SameCoords(w[|w| - 1], grid.nodes[endNodeIndex]) ==>
                  PathCost(path.value) <= PathCost(Points(w))
    ensures SameCoords(grid.nodes[startNodeIndex], grid.nodes[endNodeIndex]) ==>
              path == Some([PointOf(grid.nodes[startNodeIndex])])
    ensures path.None? ==>
              forall w :: IsWalk(grid, StartOf(grid, startNodeIndex), w) ==>
                !SameCoords(w[|w| - 1], grid.nodes[endNodeIndex])
    ensures forall n :: n in grid.nodes ==> n.CostDistance() == old(n.CostDistance()) && n.Valid()
  {
    var allNodes := grid.nodes;
    var startNode := allNodes[FirstWithCoordsOf(allNodes, startNodeIndex)];
    var endNode := allNodes[FirstWithCoordsOf(allNodes, endNodeIndex)];
    assert endNode == allNodes[endNodeIndex];
    path := Search(grid, startNode, endNode);
  }
}
