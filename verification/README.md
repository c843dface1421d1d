# A* grid pathfinding, modelled in Dafny

This project models the grid A* search of the GridPathfinding2D Unity scripts:

- the cell record `Node`;
- the grid container `AStarGrid` with its absolute-value index formula;
- the octile distance `GetDistance`;
- the neighbour expansion `GetNeighbours`;
- the search `Pathfind`: an open list scanned for the lowest f-cost, a closed set of evaluated cells, and relaxation of walkable neighbours;
- `RetracePath`, which follows parent links back and reverses them.

The modules follow the two source files:

- `node.dfy` (`Nodes`) holds the `Node` class and the float-to-int cast of the step multiplier.
- `heuristic.dfy` (`Heuristic`) holds the octile distance and its metric properties.
- `grid.dfy` (`Grid`) holds the `AStarGrid` class, the index formula, and its aliasing at the grid's edges.
- `route.dfy` (`Route`) holds points, the cost of a route, and reversal.
- `astar.dfy` (`AStar`) holds the search and the retrace.

`Node` is a class. The search writes `gCost`, `hCost` and `parent` in place, and each method names exactly those fields in its `modifies` clause. The open list is a `seq<Node>` and the closed set a `set<Node>`. A ghost map ranks the closed cells in the order they were evaluated. That ranking is what shows every parent chain of a closed cell ends at the start cell, so the retrace terminates.

What is proved about the search:

- The open list holds distinct cells of the grid, none of them closed.
- Every open cell except the start is linked to a closed parent. Its cost is the parent's cost plus one step, and its estimate is its distance to the goal.
- Each round evaluates the open cell no other open cell is preferred to, and on a full tie the earliest listed one. It takes the first occurrence of that cell off the open list, keeps the order of the rest, and adds the cell to the closed set. The closed set grows by one grid cell per round, so the main loop terminates.
- Relaxing the neighbours changes only the neighbours' bookkeeping. Each neighbour either keeps it or is now reached through the evaluated cell, and an open one only more cheaply. New cells are appended to the open list in neighbour order.
- Every closed cell was reached at least as cheaply as along any walk from the start. The octile distance obeys the triangle inequality, so along any route the estimate falls by no more than the cost walked (`EstimateAlongRoute`). The open cell with the least estimated total therefore cannot be reached more cheaply through another open cell (`WalkThroughFrontier`, `WalkCostBound`). The one-step form of the same fact, consistency (`Consistent`), and the estimated total never falling across a relaxed step (`FCostMonotone`) are proved alongside.
- On success, the result is a route from the start's position to the goal's. Each step goes to a walkable cell the expansion finds. The goal's recorded cost is the start's cost plus the route's cost, and no walk from the start to the goal's coordinates costs less.
- When the start and goal share coordinates, the result is the single start point.
- On failure, no walk of walkable expansion steps leads from the start to the goal's coordinates.

**Neighbours need not be adjacent.** The four neighbour indices come from `|originX - x| + |originY - y| * width`, so they alias at the edges:

- On the origin column, the "x - 1" neighbour is the "x + 1" neighbour (`LeftEdgeMirrors`).
- On the origin row, the "y - 1" neighbour is likewise the "y + 1" one.
- On the last column, the "x + 1" neighbour wraps to the first cell of the next row (`RightEdgeWraps`, `WrapIsStep`).

A returned route can therefore contain a step between cells that are not adjacent. Consecutive route points are not always axis-aligned neighbours at Manhattan distance 1, and the model does not claim they are. A route step is the relation `Step`: a walkable cell at one of the four computed indices.

**Step multiplier.** `10 * penalty` is not rounded to the nearest integer. The code casts it with `(int)`, which truncates toward zero, and the model does the same (`StepMultiplier`). For a walkable cell the penalty is exactly 1 and the multiplier is 10.

## Model

| member | source | states |
|---|---|---|
| Nodes.TruncateToInt | Scripts/AStarPathfinding.cs:64 | the C# `(int)` cast of a non-negative value is its floor and of a negative value its ceiling |
| Nodes.StepMultiplier | Scripts/AStarPathfinding.cs:64 | the step multiplier `(int)(10 * penalty)` is 10 for penalty 1, and lies between 0 and `10 * penalty` for a non-negative penalty |
| Nodes.Node.constructor | Scripts/Node.cs:22-29 | stores the coordinates and the penalty, sets `Walkable` exactly when the penalty is 1, and leaves the search fields at zero and null |
| Nodes.Node.SetPenalty | Scripts/Node.cs:31-36 | sets the penalty and re-derives `Walkable == (penalty == 1)`; only those two fields may change |
| Nodes.Node.SetCost | Scripts/Node.cs:11-13 | the `Cost` setter writes only `Cost`, and the derived `CostDistance` follows the write: it changes by exactly the change in `Cost` |
| Nodes.Node.SetDistance | Scripts/Node.cs:12-13 | the `Distance` setter writes only `Distance`, and `CostDistance` changes by exactly the change in `Distance` |
| Nodes.Node.FCost | Scripts/Node.cs:38-44 | the estimated total `gCost + hCost`, read from the fields at every call; never below `gCost` while the estimate is non-negative |
| Heuristic.Distance | Scripts/AStarPathfinding.cs:100-108 | the distance is `14 * min(dx, dy) + 10 * (max - min)`, non-negative, and zero exactly when the coordinates coincide |
| Heuristic.GetDistance | Scripts/AStarPathfinding.cs:100-108 | the distance between two cells is non-negative and zero exactly when they share coordinates |
| Heuristic.DistanceSymmetric | Scripts/AStarPathfinding.cs:100-108 | the distance does not depend on the order of its arguments |
| Heuristic.UnitSteps | Scripts/AStarPathfinding.cs:105-107 | a straight unit step measures 10 and a diagonal one 14 |
| Heuristic.DistanceDecomposed | Scripts/AStarPathfinding.cs:100-108 | the distance is 6 times the Chebyshev distance plus 4 times the Manhattan distance |
| Heuristic.Triangle | Scripts/AStarPathfinding.cs:100-108 | the distance obeys the triangle inequality |
| Heuristic.Consistent | Scripts/AStarPathfinding.cs:64-68 | the estimate `hCost` never exceeds the cost of one walkable step plus the estimate at the step's target |
| Grid.CellIndex | Scripts/AStarPathfinding.cs:157 | the absolute-value index formula is never negative for a non-negative width, and the origin has index 0 |
| Grid.CellIndexRowMajor | Scripts/AStarPathfinding.cs:155-158 | inside the grid rectangle, the index formula is the row-major position, in range for `width * height` cells, with column and row recovered by `%` and `/` |
| Grid.CellIndexMirror | Scripts/AStarPathfinding.cs:157 | the index formula is mirror-symmetric around the origin on both axes |
| Grid.AStarGrid.constructor | Scripts/AStarPathfinding.cs:144-153 | stores origin, size and cells, with width and height taken from the size |
| Grid.AStarGrid.IndexOf | Scripts/AStarPathfinding.cs:157 | the grid's index of (x, y) is never negative for a non-negative width, and inside the grid rectangle it is the row-major position `(x - originX) + (y - originY) * width` |
| Grid.AStarGrid.GetObject | Scripts/AStarPathfinding.cs:155-158 | returns a cell of the grid; on a row-major grid inside the rectangle, the cell carries the requested coordinates |
| Grid.AStarGrid.NeighbourIndexes | Scripts/AStarPathfinding.cs:113-119 | the four neighbour indices are the grid's own index formula at x - 1, x + 1, y - 1, y + 1 |
| Grid.AStarGrid.LeftEdgeMirrors | Scripts/AStarPathfinding.cs:115-116 | on the origin column, the x - 1 and x + 1 indices coincide and address column origin + 1 |
| Grid.AStarGrid.RightEdgeWraps | Scripts/AStarPathfinding.cs:116 | on the last column of a row-major grid, the x + 1 index addresses the cell at (originX, y + 1) |
| Route.PathCostAppend | Scripts/AStarPathfinding.cs:64 | extending a route by one point adds 10 times the distance of the new step |
| Route.PathCostReversed | Scripts/AStarPathfinding.cs:96 | a reversed route costs the same as the route |
| Route.PathCostSplit | Scripts/AStarPathfinding.cs:64 | a route's cost is the cost up to any of its points plus the cost from that point on |
| Route.PathCostAcross | Scripts/AStarPathfinding.cs:64 | a route's cost is the cost up to point j - 1, plus the step to point j, plus the cost from point j on |
| Route.PathCostBoundsDistance | Scripts/AStarPathfinding.cs:100-108 | no route costs less than the distance between its ends: the heuristic is admissible |
| Route.EstimateAlongRoute | Scripts/AStarPathfinding.cs:64-68 | along a route, the estimate of the distance to the goal falls by no more than the cost walked |
| Route.Reversed | Scripts/AStarPathfinding.cs:96 | the reversal keeps the length and puts element `k` at position `n - 1 - k` |
| AStar.RemoveFirst | Scripts/AStarPathfinding.cs:45 | removing a present cell drops exactly its first occurrence and keeps the order of the rest (`RemovedAt`); an absent cell leaves the list as it is; without duplicates, the result has none and lacks the cell |
| AStar.FirstWithCoordsOf | Scripts/AStarPathfinding.cs:25-26 | returns the first index whose cell has the coordinates of the cell at the given index |
| AStar.StartOf | Scripts/AStarPathfinding.cs:19-26 | the start or goal cell is a cell at or before the given index with its coordinates; when no other cell has those coordinates, it is the cell at the index itself |
| AStar.SameCoords | Scripts/AStarPathfinding.cs:49 | two cells pass the goal test exactly when they give the same route point |
| AStar.WalkableAt | Scripts/AStarPathfinding.cs:121-130 | the neighbour list has at most one entry per index; each entry is walkable and sits at an in-range index; every walkable cell at an in-range index is listed |
| AStar.GetNeighbours | Scripts/AStarPathfinding.cs:110-133 | the loop builds exactly the walkable cells at the in-range neighbour indices, at most four, and never reads out of range |
| AStar.NeighboursAreSteps | Scripts/AStarPathfinding.cs:121-130 | every returned neighbour is walkable and sits at one of the four computed indices |
| AStar.StepCost | Scripts/AStarPathfinding.cs:64 | the cost of entering a cell is 10 times the distance when its penalty is 1, and never negative for a non-negative penalty |
| AStar.Precedes | Scripts/AStarPathfinding.cs:39 | a cell with a lower f-cost is always preferred and one with a higher f-cost never is; on equal f-cost, the lower h-cost wins; no cell is preferred to itself |
| AStar.PrecedesStrictOrder | Scripts/AStarPathfinding.cs:39 | the preference is never mutual and is transitive, a strict order |
| AStar.FCostMonotone | Scripts/AStarPathfinding.cs:64-68 | a cell reached from c by a walkable step, both with the octile estimate to the goal, has an f-cost no lower than c's |
| AStar.SelectCurrent | Scripts/AStarPathfinding.cs:35-43 | the chosen open cell has minimal f-cost and, among those, minimal h-cost; every earlier cell is strictly worse, so on a full tie the earliest wins |
| AStar.ScanChoiceUnique | Scripts/AStarPathfinding.cs:35-43 | at most one open cell is the scan's choice (no cell preferred to it, every earlier cell worse), so even a full tie picks a single cell, the earliest |
| AStar.CloseKeepsOpen | Scripts/AStarPathfinding.cs:45-46 | after moving the chosen cell to closed, the open list still holds distinct grid cells that are not closed |
| AStar.CloseKeepsRank | Scripts/AStarPathfinding.cs:46 | the newly closed cell is ranked after every earlier closed cell |
| AStar.CloseKeepsChain | Scripts/AStarPathfinding.cs:45-46 | closing the start first, and later only cells linked to a closed parent, keeps every closed cell's parent closed earlier |
| AStar.CloseKeepsLinks | Scripts/AStarPathfinding.cs:45-46 | open cells stay linked to closed parents when the chosen cell is closed |
| AStar.CloseCurrent | Scripts/AStarPathfinding.cs:45-46 | the chosen cell is not yet closed, the closed set grows by exactly one, and the whole search state is kept |
| AStar.Relax | Scripts/AStarPathfinding.cs:59-75 | states the neighbour's new cost, estimate and parent, and its place in the open list, in every branch; a closed cell is untouched; an open cell only gets a strictly smaller cost; the search state is kept |
| AStar.Appended | Scripts/AStarPathfinding.cs:71-74 | the open list after relaxing a sequence of cells starts with the old open list, and gains exactly the cells that were neither listed nor closed |
| AStar.RelaxNext | Scripts/AStarPathfinding.cs:57-76 | one turn of the neighbour loop extends the open list as `Appended` does for one more neighbour, keeps every neighbour either as before the loop or reached through the evaluated cell, and keeps the search state |
| AStar.RelaxNeighbours | Scripts/AStarPathfinding.cs:57-76 | after the loop, the open list is the old one with the new neighbours appended in order; closed cells keep their bookkeeping; each neighbour keeps its bookkeeping or is reached through the evaluated cell, an open one only more cheaply; open cells never get dearer; every unclosed neighbour costs at most one step more than the evaluated cell |
| AStar.NeighboursCovered | Scripts/AStarPathfinding.cs:57-76 | once every returned neighbour is open or closed, so is every walkable cell the expansion finds |
| AStar.ExpansionSettled | Scripts/AStarPathfinding.cs:57-76 | once the neighbours are open or closed and no open cell got dearer, every closed cell is expanded into the grown open list and relaxed |
| AStar.ExpandNeighbours | Scripts/AStarPathfinding.cs:57-76 | the evaluation of a non-goal cell: the neighbours are exactly the walkable cells at its neighbour indices; the open list gains them in order; cells outside the neighbours and all closed cells keep their bookkeeping; each neighbour is as before or reached through the evaluated cell; every closed cell is expanded and relaxed, and still reached no dearer than along any walk |
| AStar.WalkStaysIn | Scripts/AStarPathfinding.cs:79-81 | a region holding the start and closed under walkable expansion holds every walk from the start |
| AStar.Points | Scripts/AStarPathfinding.cs:91 | the positions of a walk's cells, one per cell and in order |
| AStar.WalkInGrid | Scripts/AStarPathfinding.cs:110-133 | every cell of a walk from a grid cell is a grid cell |
| AStar.WalkPrefix | Scripts/AStarPathfinding.cs:110-133 | every non-empty prefix of a walk is a walk |
| AStar.ExitIndex | Scripts/AStarPathfinding.cs:45-46 | a walk that starts among the closed cells and ends outside them has a step from a closed cell to an unclosed one |
| AStar.RelaxedKept | Scripts/AStarPathfinding.cs:64-75 | a closed cell whose expansion is covered stays relaxed when open cells only get cheaper |
| AStar.RelaxedNow | Scripts/AStarPathfinding.cs:64-75 | once every unclosed neighbour costs at most one step more than the evaluated cell, that cell is relaxed |
| AStar.AllRelaxed | Scripts/AStarPathfinding.cs:57-76 | after relaxing the neighbours, every closed cell is relaxed |
| AStar.StepBound | Scripts/AStarPathfinding.cs:59-75 | a walkable unclosed cell one expansion step from a closed cell is open and costs at most that cell's cost plus 10 times their distance |
| AStar.WalkThroughFrontier | Scripts/AStarPathfinding.cs:35-68 | when the chosen open cell has the least f-cost, its cost is at most that of any walk from the start to it |
| AStar.WalkCostBound | Scripts/AStarPathfinding.cs:39-68 | the cost bound behind A*'s optimality: if a walk leaves the evaluated cells at cell j, the cell before it was reached no dearer than the walk up to it, cell j costs at most one step more, and the chosen cell's estimated total is no more than cell j's, then the chosen cell costs no more than the whole walk |
| AStar.CloseOptimal | Scripts/AStarPathfinding.cs:35-46 | the cell chosen for evaluation is reached at least as cheaply as along any walk, so every closed cell still is once it is closed |
| AStar.RelaxedGrow | Scripts/AStarPathfinding.cs:46 | closing one more cell keeps every earlier closed cell relaxed |
| AStar.CloseStep | Scripts/AStarPathfinding.cs:35-46 | closing an open cell no other open cell is preferred to keeps the search state, the expansions and relaxations of earlier closed cells, and the cheapest-walk bound for all closed cells including the new one |
| AStar.CloseBest | Scripts/AStarPathfinding.cs:35-46 | the chosen cell is the scan's choice (`ScanChoice`): an unclosed open cell no open cell is preferred to, with every cell listed before it worse, so a full tie goes to the earliest; the open list loses its first occurrence, the closed set gains it, and the search state and cheapest-walk bound are kept |
| AStar.RouteOptimal | Scripts/AStarPathfinding.cs:49-54 | a route whose cost is the goal's recorded cost, when no walk reaches the goal more cheaply, is no dearer than any walk from the start to the goal's coordinates |
| AStar.Unvisited | Scripts/AStarPathfinding.cs:33-46 | the closed set plus one unclosed grid cell is no larger than the grid, which bounds the loop |
| AStar.SubsetCard | Scripts/AStarPathfinding.cs:33-46 | a subset is no larger than its superset, which bounds the closed set by the grid |
| AStar.BackRouteExtend | Scripts/AStarPathfinding.cs:91-92 | appending a parent's position keeps the goal-to-start list a backward route |
| AStar.ReversedBackRoute | Scripts/AStarPathfinding.cs:96 | reversing a backward route gives a forward route |
| AStar.RetraceStep | Scripts/AStarPathfinding.cs:89-93 | a closed non-start cell has a closed parent ranked earlier; appending the parent keeps the trail a route whose cost is the goal's cost minus the parent's |
| AStar.RetracePath | Scripts/AStarPathfinding.cs:84-98 | the route runs from the start's position to the goal's, each step is a walkable expansion step, the goal's cost is the start's plus the route's cost, and start = goal gives the single start point |
| AStar.ReportRoute | Scripts/AStarPathfinding.cs:49-54 | the route retraced from the just-evaluated goal runs from the start to the goal, costs what the goal records, and is no dearer than any walk from the start to the goal's coordinates |
| AStar.WrapIsStep | Scripts/AStarPathfinding.cs:116 | from the last column, a step to the first cell of the next row is a route step, longer than a unit step when the grid is at least three wide |
| AStar.SearchRound | Scripts/AStarPathfinding.cs:33-76 | one round closes the old open list's scan choice: no open cell is preferred to it and every cell listed before it is worse; at the goal it returns a cheapest route and changes no cell; otherwise the open list is the old one minus that cell with the new neighbours appended, only the neighbours' bookkeeping may change, and the search state, expansions, relaxations and cheapest-walk bound hold for the grown closed set |
| AStar.Search | Scripts/AStarPathfinding.cs:28-81 | success gives a start-to-goal route whose cost the goal records and that no walk from the start to the goal's coordinates undercuts; start = goal gives the single point; failure means no walk from the start reaches the goal's coordinates |
| AStar.Pathfind | Scripts/AStarPathfinding.cs:13-82 | the same outcomes, cheapest route included, for the cells looked up by the coordinates of the given indices; the start's cost is its value on entry; every cell keeps its `CostDistance` and its walkability |

`FCost` enters the contracts through `Precedes` in `SelectCurrent` and through the f-cost bound of `CloseOptimal`.

## Left out

- Scripts/Example.cs (random terrain, gizmo drawing, the editor lifecycle) is not part of this model. It is demo glue.
- The `Stopwatch` timing and the `Debug.Log` calls are omitted. They do not affect results.
- Unity vectors become integer pairs. The `Vector3` route points drop their constant z = 0, and the `Vector2` origin and size hold only integers in the code. The index expressions subtract the float origin before `(int)Mathf.Abs`, so they equal the model's `CellIndex` and `NeighbourIndexes` only while coordinates stay below 2^24 in magnitude, where single-precision subtraction is exact.
- `float penalty` becomes a real number. Single-precision rounding of `10.0f * penalty` is not modelled, which matters only for penalties other than 1.
- Costs are unbounded integers. 32-bit overflow of `gCost` on very large grids is not modelled.
- Cell coordinates and the grid's fields are fixed after construction, since the core never reassigns them. The `X`/`Y` setters of `Node` are not modelled.
- `allNodes.ToList()` hands `GetNeighbours` a copy of the list holding the same cells. The model passes the list itself, which has the same contents.
- AStar.Pathfind: requires the indices to be in range, because the original throws on an index outside the list.
- AStar.Pathfind: requires every cell to satisfy `Walkable == (penalty == 1)`, the invariant `Node` keeps through its constructor and `SetPenalty`. Direct writes to the public `Walkable` field are not modelled.
- AStar.Pathfind: requires that no other cell carries the goal's coordinates. With such a duplicate, the original can stop on the duplicate and then retrace from the goal cell, whose parent may be stale or null.
- AStar.Pathfind: the route's cost is stated relative to the start's `gCost` on entry, because the original never resets the search fields between runs.
- AStar.RetracePath: requires the ghost ranking of closed cells that the search builds. The original relies on that without checking.
- Grid.AStarGrid.GetObject: requires the index to be in range, because the original throws otherwise.
- There is no concurrency; a search is single-threaded.
