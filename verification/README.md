# A* path finder on a grid, modelled in Dafny

This project models the A* path finder in `A_Star.cpp`.

A `Generator` holds its configuration:
- the world size;
- the number of active movement directions, 4 (orthogonal) or 8 (with diagonals);
- the heuristic;
- the fixed direction table;
- a list of wall cells.

`findPath(source, target)` runs A* over the grid:
- An orthogonal move costs 10 and a diagonal move costs 14.
- Each round selects an open node of least score `G + H`.
- The search stops when that node is the target.
- Otherwise it closes the node and expands its neighbours.
- An open neighbour is re-parented only when the new route is strictly cheaper.
- At the end it follows parent links back to the source and returns the cells, target first.

Modules:
- `Coordinates`: `Vec2i`, its equality and its `+`.
- `Heuristic`: `getDelta`, `manhattan`, `euclidean`, `octagonal`, and the choice between them.
- `WallList`: the wall vector's `std::find` and erase-first.
- `World`: the configuration snapshot a search reads, the direction table, `detectCollision`, and walks on the grid with their costs.
- `Search`: `findPath`. The nodes live in an arena, a sequence in which a parent is named by its position (-1 for none). The open and closed sets are sequences of positions. The main loop, the direction loop, the selection loop, `findNodeOnList` and the parent-following loop are `while`/`for` loops with invariants.
- `AStar`: `class Generator` with the source's fields. Its setters and wall operations update the fields in place, and `FindPath` runs the search on a snapshot of them.

The main result is `Search.FindPath`:
- The returned cells, read from the source end, form a walk. Each step follows an active direction onto a cell inside the world and off the walls.
- No cell repeats.
- The first cell is the target exactly when some such walk reaches the target.

`Search.Explore`, the main loop, also bounds its rounds: at least one, and at most `CellCount(worldSize) + 1`, where `CellCount` is `max(w, 0) * max(h, 0)` for a world of size (w, h).

The proof keeps an invariant over the arena:
- The source node has `G = H = 0` and no parent.
- Every other node stands on a free cell.
- Its parent is closed and one active move away.
- Its `G` is the parent's `G` plus that move's cost.
- Its `H` is the heuristic of its cell.
- Open and closed partition the nodes, and no cell carries two nodes.

When the open set runs dry, every cell reachable from the source has a closed node, so the target is unreachable.

## Model

| member | source | states |
|---|---|---|
| Coordinates.Equals | A_Star.cpp:11-14 | coordinate-wise comparison holds exactly when the two cells are equal |
| Coordinates.AddCancel | A_Star.cpp:16-19 | translating by an offset is injective in the cell, and distinct offsets from one cell reach distinct cells |
| Heuristic.Delta | A_Star.cpp:160-163 | both components are non-negative; they are the distances along each axis; both are zero exactly when the cells coincide |
| Heuristic.FloorSqrt | A_Star.cpp:171-175 | the result r is the integer square root: r*r <= n < (r+1)*(r+1) |
| Heuristic.SqrtBelow | A_Star.cpp:171-175 | the search downward from k finds the integer square root, given that (k+1)^2 exceeds n |
| Heuristic.EstimateZeroIffSame | A_Star.cpp:160-181 | each of manhattan, euclidean and octagonal is zero exactly when source equals target |
| Heuristic.EstimateSymmetric | A_Star.cpp:160-181 | each heuristic gives the same value with source and target swapped |
| Heuristic.OctagonalAtMostManhattan | A_Star.cpp:165-169 | octagonal never exceeds manhattan; it equals 10 per straight step plus 14 per diagonal step |
| Heuristic.EuclideanAtMostManhattan | A_Star.cpp:171-175 | the Euclidean estimate never exceeds the Manhattan one |
| Heuristic.FloorSqrtAtMost | A_Star.cpp:171-175 | a number at most m*m has integer square root at most m |
| WallList.Find | A_Star.cpp:63-69 | std::find: the first position holding c, or the end when c is absent; no earlier entry equals c |
| WallList.RemoveFirst | A_Star.cpp:63-69 | absent cell: the list is unchanged; present cell: exactly one copy of it is removed |
| WallList.RemoveFirstKeepsOrder | A_Star.cpp:63-69 | entries before the first match stay in place and entries after it shift down by one, in order |
| WallList.RemoveUndoesAdd | A_Star.cpp:58-69 | removing a cell just added, when it was not a wall before, restores the wall list |
| WallList.RemoveAfterAddSameMultiset | A_Star.cpp:58-69 | adding then removing a cell keeps the same walls, counted with multiplicity, duplicates included |
| World.DirectionTable | A_Star.cpp:37-40 | the table has 8 distinct entries: 0-3 are the unit orthogonal offsets and 4-7 the unit diagonal ones |
| World.DetectCollision | A_Star.cpp:150-158 | a cell collides exactly when it lies outside [0,worldSize.x) x [0,worldSize.y) or is in the wall list |
| World.MoveIndex | A_Star.cpp:97-98 | the first active direction leading from one cell to another, or -1 exactly when no active direction does |
| World.MoveIndexOf | A_Star.cpp:97-98 | a move along active direction i is recognised as direction i |
| World.GridSize | A_Star.cpp:82-118 | a world of size (w, h) has exactly max(w, 0) * max(h, 0) cells (CellCount), which bounds the number of rounds |
| World.WalkPrepend | A_Star.cpp:97-116 | one active move onto a free cell before a walk is a walk, whose cost grows by that move's cost |
| World.OctagonalExactOnStep | A_Star.cpp:177-181 | the octagonal estimate of one move equals its cost (10 orthogonal, 14 diagonal) |
| World.ManhattanOverestimatesDiagonal | A_Star.cpp:165-169 | the Manhattan estimate of a diagonal move is 20, more than its cost 14 |
| World.OctagonalConsistent | A_Star.cpp:177-181 | one move lowers the octagonal estimate by at most the move's cost |
| World.ManhattanConsistent | A_Star.cpp:165-169 | one orthogonal move lowers the Manhattan estimate by at most 10 |
| World.OctagonalAdmissible | A_Star.cpp:177-181 | the octagonal estimate never exceeds the cost of any walk between the two cells |
| World.ManhattanAdmissible | A_Star.cpp:165-169 | with orthogonal movement only, the Manhattan estimate never exceeds the cost of any walk |
| World.ManhattanWalkIsWalk | A_Star.cpp:165-169 | without walls, the L-shaped route between two cells of the world is a walk, and its cost equals the Manhattan estimate |
| World.OpenWorldReachable | A_Star.cpp:97-102 | without walls, every cell of the world is reachable from every other |
| Search.SelectMin | A_Star.cpp:82-88 | the selected open node's score G+H is at most that of every open node |
| Search.FindNodeOnList | A_Star.cpp:132-140 | -1 exactly when no listed node stands on the cell; otherwise a listed node that does |
| Search.InAllowed | A_Star.cpp:99-111 | the source and every cell of the world are cells a node may stand on |
| Search.AllowedSize | A_Star.cpp:82-118 | there are at most CellCount(worldSize) + 1 such cells |
| Search.InitialState | A_Star.cpp:78-80 | the single open source node with G = H = 0 and no parent satisfies the search invariant |
| Search.CloseSelected | A_Star.cpp:94-95 | moving the selected non-target node from open to closed keeps the invariant: open and closed still partition the nodes and parents stay closed |
| Search.MoveToClosed | A_Star.cpp:94-95 | erasing the selected entry from the open list and appending it to the closed list leaves the other open entries, each once, and keeps open and closed a partition of the nodes |
| Search.CloseRound | A_Star.cpp:90-95 | each round closes a node whose cell was not closed before and lies in the world or is the source |
| Search.FrontierStep | A_Star.cpp:97-117 | after direction i, every blocked or known neighbour of every closed node stays accounted for |
| Search.AppendNode | A_Star.cpp:106-111 | a new node for a free, unseen neighbour, with parent cur, G = cur.G + step cost and H = heuristic, keeps the invariant |
| Search.RelaxNode | A_Star.cpp:113-116 | re-parenting an open node through cur at a strictly lower G keeps the invariant |
| Search.Expand | A_Star.cpp:97-117 | one direction: a blocked or closed neighbour changes nothing; an unseen one gets a new open node; an open one is re-parented with its G lowered exactly when the route through cur is strictly cheaper; otherwise nothing changes; the invariant holds after each case, the step is an expansion of cur in the sense stated for ExpandAll, and afterwards the neighbour is blocked or has a node whose G, unless closed, is at most cur.G plus the move cost |
| Search.ExpansionTrans | A_Star.cpp:97-117 | two successive expansions of the same node amount to one expansion: the new nodes, their order in the open set and the lowered G values compose |
| Search.RelaxedStays | A_Star.cpp:97-117 | once a direction has been relaxed, later directions, which keep known cells on their nodes and never raise a G, leave it relaxed |
| Search.ExpandAll | A_Star.cpp:97-117 | after all active directions the invariant holds and every neighbour of every closed node is blocked or has a node; the new nodes are appended, reached from current by one active move at current.G plus its cost, carry the heuristic of their cell and are appended to the open set; an existing node keeps its cell and H, its G never rises, and if it changed it is open and now reached from current at a strictly lower G; current is unchanged; and every free neighbour of current that is not closed ends with G at most current.G plus the move cost, so every strictly cheaper route was taken |
| Search.FollowParent | A_Star.cpp:121-123 | a parent link is one active move, its G difference is that move's cost, and the parent's G is strictly smaller |
| Search.AppendDistinct | A_Star.cpp:121-123 | because G strictly decreases along parent links, following them never revisits a cell |
| Search.Reconstruct | A_Star.cpp:120-124 | the parent chain from the current node ends at the source; reversed, it is a walk of cost current.G with no repeated cell |
| Search.ExhaustedSearchCoversWalk | A_Star.cpp:82-118 | when the open set is empty, the last cell of every walk from the source has a closed node |
| Search.ExhaustedSearchMeansUnreachable | A_Star.cpp:82-118 | when the open set empties with no closed node on the target, no walk reaches the target |
| Search.Round | A_Star.cpp:82-117 | one round: the selected node is open and its score G+H is at most that of every open node; on the target it is reported and arena, open and closed sets are unchanged; otherwise it becomes the node closed last, the invariant holds, one more allowed cell is closed, the arena and open set change as an expansion of that node, and each of its free, non-closed neighbours has G at most its G plus the move cost |
| Search.CloseAndExpand | A_Star.cpp:94-117 | closing and expanding a non-target node appends it to the closed set, removes it from the open set, keeps the invariant, closes exactly one allowed cell that was not closed before, changes the arena and open set only as an expansion of that node, and leaves each of its free, non-closed neighbours with G at most its G plus the move cost |
| Search.Explore | A_Star.cpp:82-118 | the main loop stops on the target, or else the last selected node is the node closed last and no walk reaches the target; it runs at least 1 and at most CellCount(worldSize) + 1 rounds and leaves sound parent links |
| Search.ReversedWalkCellsFree | A_Star.cpp:99-102 | every cell of the returned path except the source is inside the world and off the walls |
| Search.FindPath | A_Star.cpp:76-130 | the path ends at the source; reversed, it is a walk; every cell but the source is free; no cell repeats; it starts at the target exactly when the target is reachable |
| AStar.Generator.constructor | A_Star.cpp:33-41 | defaults to 4 directions, the Manhattan heuristic, the direction table and no walls |
| AStar.Generator.SetWorldSize | A_Star.cpp:43-46 | sets the world size and nothing else; the class invariant (4 or 8 directions over the fixed table) is kept |
| AStar.Generator.SetDiagonalMovement | A_Star.cpp:48-51 | sets 8 directions when enabled and 4 otherwise, and nothing else; the class invariant (4 or 8 directions over the fixed table) is kept |
| AStar.Generator.SetHeuristic | A_Star.cpp:53-56 | sets the heuristic and nothing else; the class invariant (4 or 8 directions over the fixed table) is kept |
| AStar.Generator.AddCollision | A_Star.cpp:58-61 | appends the cell to the wall list, duplicates allowed, and changes nothing else; the class invariant (4 or 8 directions over the fixed table) is kept |
| AStar.Generator.RemoveCollision | A_Star.cpp:63-69 | the wall list loses its first copy of the cell, or is unchanged when there is none; nothing else changes; the class invariant (4 or 8 directions over the fixed table) is kept |
| AStar.Generator.ClearCollisions | A_Star.cpp:71-74 | empties the wall list and changes nothing else; the class invariant (4 or 8 directions over the fixed table) is kept |
| AStar.Generator.FindPath | A_Star.cpp:76-130 | for the current configuration: the path ends at the source; reversed, it is a walk; every other cell is in bounds and not a wall; no cell repeats; it starts at the target exactly when the target is reachable |
| AStar.Demo | main.cpp:9-15 | in a 25 x 25 world without walls, with diagonal moves and the Euclidean heuristic, the path runs from (20, 20) back to (0, 0) and stays inside the world |

Node's constructor and `getScore` (A_Star.cpp:21-31) are the `Search.Node` datatype and `Search.Score`. `Search.InitialState` and `Search.AppendNode` cover how they are used.

Several source functions are modelled by plain definitions, with no contract of their own:
- `Coordinates.Add` is `operator+` (A_Star.cpp:16-19). `Coordinates.AddCancel` states its properties.
- `Heuristic.Manhattan` is `manhattan` (A_Star.cpp:165-169).
- `Heuristic.Euclidean` is `euclidean` (A_Star.cpp:171-175).
- `Heuristic.Octagonal` is `octagonal` (A_Star.cpp:177-181).
- `Heuristic.Estimate` is the call through the bound heuristic (A_Star.cpp:110).
- `World.StepCost` is the move cost `(i < 4) ? 10 : 14` (A_Star.cpp:104).

The lemmas about the heuristics in `Heuristic` and `World` state their properties.

`World.StepTowards` and `World.ManhattanWalk` build the witness route used by `World.OpenWorldReachable`. `Search.Reverse` reads a returned path from the source end. These three have no counterpart in the source.

## Left out

- Printing in main.cpp: `AStar.Demo` returns the path instead of writing it to standard output.
- Heuristic.Euclidean: computed as floor(sqrt(100 * (dx^2 + dy^2))) with an exact integer square root. Over the reals this is the source's `10 * sqrt(dx^2 + dy^2)` truncated. The double-precision `pow`/`sqrt` rounding is not modelled, so a result could differ by one where the floating-point value falls just below an integer.
- Memory management: `new`, `delete` and `releaseNodes` (A_Star.cpp:126-127, 142-148) are not modelled. The node arena is a value that is discarded when `findPath` returns.
- `std::bind` in `setHeuristic`: the heuristic is an enumeration, `HeuristicFunction`, and `Estimate` dispatches on it.
- `NodeSet`: its container type and iteration order are declared in `A_Star.h`, which is not part of this model. The open and closed sets are sequences.
- Search.SelectMin: it scans in sequence order and keeps the last least-score node, as the source's `<=` does. Its contract promises only some least-score node, because the real order of `NodeSet` is unknown.
- Machine integers: `int` and `uint` overflow are not modelled; coordinates, costs and estimates are mathematical integers. `octagonal` never goes negative for non-negative deltas, so `nat` holds it exactly.
- AStar.Generator.constructor: the constructor (A_Star.cpp:33-41) does not set `worldSize`. The model starts it at (0, 0) and promises nothing about it until `setWorldSize`.
- Search.FindPath: optimality is not proved. The path is a walk reaching the target whenever one exists, but it is not shown to be cheapest. With diagonal moves the Manhattan heuristic overestimates (`World.ManhattanOverestimatesDiagonal`), so the source does not guarantee optimality in general.
- AStar.Demo: the step count of main.cpp's scenario (20 diagonal moves) rests on optimality and is not stated.
- Source and target are not validated, just as in the source. A source outside the world or on a wall still gets the first node. The model allows this and lets the source cell lie outside the grid.
- Search.FindPath: when the target is unreachable, the source returns the route to the last expanded node without an error signal. The model returns the same route, and `Search.Explore` proves it starts at the node closed last. `Search.FindPath` itself does not expose the arena, so its contract characterises that first cell only by `path[0] != target`.
- AStar.Generator.FindPath: the same gap as `Search.FindPath`. For an unreachable target the contract says only `path[0] != target`, not that the path starts at the last node expanded.
