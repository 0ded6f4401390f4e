# Grid A* pathfinder (astar-pkg) in Dafny

This project models the path-finding engine of the `JackSParrot.Navigation.AStar` package. It has three parts:

- `BoardPoint`: the linear-index and column/row coordinates of a cell.
- `BoardSpot`: a board cell with its fixed adjacency list.
- `Pathfinder`: the engine. It holds a flat array of cells indexed by `y * cols + x`, an open set and a closed set of cell indices, and a `Result` route. The engine offers:
  - a synchronous search, `FindPath`;
  - an incremental search, `Init` followed by repeated `Tick`;
  - route reconstruction through predecessor links;
  - the grid mutators.

The modules follow the source files:

| file | module | models |
|---|---|---|
| `coord.dfy` | `Coord` | `BoardPoint.Set` (both overloads), with C#'s truncating `/` and `%` written out |
| `spot.dfy` | `Spot` | the `BoardSpot` record (datatype `Cell`) and `InitNeighbours` |
| `pathfinder.dfy` | `Pathfinder` | the engine state, `XY2Idx`, `CalculateHeuristic`, the constructor, `Reset`, `SetObstacle`, `SetCost`, `ResetObstacles`, `ResetCosts`, `ResetHeight` |
| `search_state.dfy` | `SearchState` | walks, reachability, routes, the search-loop invariant and its preservation |
| `search.dfy` | `Search` | the open-set scan, the neighbour loop, `IndexesToPositions`, `FindPath`, `Init`, `Tick` |

The C# class mutates its arrays and hash sets in place. Here the state is an immutable `Engine` value, and every operation returns the next state.

`FindPath` and `Tick` run the same expansion step with two differences, captured by `Mode`:

- `FindPath` refuses a neighbour whose height differs from the current cell's by more than `heightStep`, and prices a step by the heuristic alone.
- `Tick` has no height test, and adds the current cell's `cost` to every step out of it.

The main results:

- **Index conversions.** Decoding and encoding an index are mutual inverses on the board (`Coord.XYRoundTrip`, `Coord.IndexRoundTrip`).
- **Adjacency lists.** Each cell's list is exactly its on-board grid adjacency, compared against an independent `Adjacent` definition in both directions. The list has no duplicates, it is symmetric, and its order is the source's.
- **FindPath.** When the start is walkable and differs from the goal, it returns a route exactly when the goal is reachable through admissible steps. It returns no route when the start is not walkable or is the goal. Such a route is a chain of linked, walkable cells within the height step, from the start to the goal. This is soundness (`SearchState.FoundRoute`) plus completeness (`SearchState.Exhausted`), both built on the invariant `SearchState.SearchInv`.
- **Tick.** It keeps the same invariant from one call to the next (`Search.TickInv`). Each call moves at most one open cell, one with minimal `f`, to the closed set.

## Model

| member | source | states |
|---|---|---|
| Coord.TruncDiv | Runtime/BoardPoint.cs:13 | C# `/` rounds toward zero: the remainder is smaller than the divisor in magnitude and has the dividend's sign; on a non-negative dividend over a positive divisor it agrees with Euclidean division |
| Coord.TruncRem | Runtime/BoardPoint.cs:12 | C# `%`: dividend = divisor * quotient + remainder, with the remainder smaller than the divisor in magnitude; agrees with Euclidean `%` on non-negative operands |
| Coord.FromIndex | Runtime/BoardPoint.cs:9-14 | decoding an index keeps it and satisfies index = y*cols + x with the column smaller than cols in magnitude; for a non-negative index and positive cols the column is in [0, cols), the row non-negative, and they are `idx % cols` and `idx / cols` |
| Coord.FromXY | Runtime/BoardPoint.cs:16-21 | encoding keeps column and row as given and yields the row-major index |
| Coord.IndexInjective | Runtime/BoardPoint.cs:16-21 | two in-board column/row pairs with the same row-major index are the same pair |
| Coord.XYRoundTrip | Runtime/BoardPoint.cs:9-21 | for 0 <= x < cols and y >= 0, encoding then decoding the index gives back the same point |
| Coord.IndexRoundTrip | Runtime/BoardPoint.cs:9-21 | for every index, negative ones included, decoding and re-encoding gives back the same index and point |
| Coord.IndexInRange | Runtime/BoardPoint.cs:16-21 | every in-board column and row encodes to an index in [0, cols*rows) |
| Coord.TruncDivNegative | Runtime/BoardPoint.cs:12-13 | C# and Euclidean division differ on negative dividends: -1 / 2 is 0 with remainder -1 in C#, -1 with remainder 1 in Euclid |
| Spot.Collect | Runtime/BoardSpot.cs:17-51 | the list built from a direction table has at most one entry per direction, and each entry is the target of a direction that passes the bound tests |
| Spot.InitNeighbours | Runtime/BoardSpot.cs:15-53 | at most 4 neighbours without diagonal links and at most 8 with them |
| Spot.LinkDirectionsAreAdjacency | Runtime/BoardSpot.cs:18-51 | the direction table holds exactly the unit steps allowed by grid adjacency, with diagonals only when diagonal links are on |
| Spot.FitsIsOnBoard | Runtime/BoardSpot.cs:18-50 | for an on-board cell, the source's one-sided bound tests pass exactly when the stepped cell is on the board |
| Spot.NeighbourIsAdjacent | Runtime/BoardSpot.cs:18-51 | every neighbour of an on-board cell is in [0, cols*rows) and decodes to a cell adjacent to it (at most one step per axis, never itself, diagonal only when enabled): no wrap-around across row edges |
| Spot.AdjacentIsNeighbour | Runtime/BoardSpot.cs:18-51 | conversely, every on-board cell adjacent to the cell is in its list |
| Spot.CollectContains | Runtime/BoardSpot.cs:18-51 | every direction of the table that passes the bound tests contributes its target to the list |
| Spot.CollectDistinct | Runtime/BoardSpot.cs:17-52 | pairwise different on-board steps give pairwise different indices |
| Spot.NeighboursDistinct | Runtime/BoardSpot.cs:17-52 | the adjacency list has no duplicates |
| Spot.CollectAll | Runtime/BoardSpot.cs:18-51 | when every direction passes its bound tests, the list has one entry per direction |
| Spot.InteriorNeighbourCount | Runtime/BoardSpot.cs:18-51 | an interior cell gets exactly 4 neighbours, or exactly 8 with diagonal links |
| Spot.NeighbourSymmetric | Runtime/BoardSpot.cs:18-51 | on the same board and diagonal setting, if b is in a's list then a is in b's list |
| Spot.OnBoardOfIndex | Runtime/BoardPoint.cs:9-14 | an index in [0, cols*rows) decodes to an on-board position |
| Spot.NeighbourOrderExample | Runtime/BoardSpot.cs:18-51 | the order is east, west, south, north, then north-west, south-east, north-east, south-west; a corner keeps only its on-board links |
| Pathfinder.XY2Idx | Runtime/Pathfinder.cs:18-21 | an in-board column and row give a cell index whose cell sits at exactly that column and row and knows that index |
| Pathfinder.Heuristic | Runtime/Pathfinder.cs:23-29 | the estimate is non-negative, zero exactly for the same position, and between 10 times the larger axis distance and 10 times the Manhattan distance |
| Pathfinder.HeuristicSymmetric | Runtime/Pathfinder.cs:23-29 | the estimate does not depend on the direction of travel |
| Pathfinder.HeuristicDiagonal | Runtime/Pathfinder.cs:28 | for equal axis distances the halving is exact: 15 per diagonal cell |
| Pathfinder.HeuristicStep | Runtime/Pathfinder.cs:23-29 | between adjacent cells the estimate is 10 for an orthogonal step and 15 for a diagonal one |
| Pathfinder.HeuristicNotConsistent | Runtime/Pathfinder.cs:23-29 | from (k+1, k) to (0, 0) the estimate exceeds the step cost to (k, k) plus the estimate from there, so the heuristic is not consistent |
| Pathfinder.HeuristicOverestimates | Runtime/Pathfinder.cs:23-29 | with diagonal links the estimate from (2, 1) to (0, 0) is 30 while a two-step walk costs 25 |
| Pathfinder.Create | Runtime/Pathfinder.cs:31-48 | the board has cols*rows cells; cell i knows index i, is walkable, has no predecessor, cost 0 and height 0; on a positive board each cell sits at its decoded position with its adjacency list |
| Pathfinder.Reset | Runtime/Pathfinder.cs:224-238 | g, h, f become 0 and the predecessor -1 in every cell; open, closed and the result are emptied; start and goal become -1; walkability, cost, height and links are untouched |
| Pathfinder.ResetIdempotent | Runtime/Pathfinder.cs:224-238 | resetting twice is resetting once, and a reset keeps a well-formed engine well formed |
| Pathfinder.SetObstacle | Runtime/Pathfinder.cs:124-128 | the cell at (x, y) becomes walkable exactly when not an obstacle; no other field of it and no other cell or engine field changes |
| Pathfinder.SetCost | Runtime/Pathfinder.cs:130-134 | only the cost of the cell at (x, y) changes, to the given value |
| Pathfinder.ResetObstacles | Runtime/Pathfinder.cs:240-246 | every cell becomes walkable and nothing else changes |
| Pathfinder.ResetCosts | Runtime/Pathfinder.cs:248-254 | every cost becomes 0 and nothing else changes |
| Pathfinder.ResetHeight | Runtime/Pathfinder.cs:256-262 | every height becomes 0 and nothing else changes |
| Pathfinder.SetObstacleUndo | Runtime/Pathfinder.cs:124-128 | placing an obstacle on a walkable cell and lifting it restores the engine; placing it twice is placing it once |
| Pathfinder.BulkResetOverrides | Runtime/Pathfinder.cs:240-254 | a bulk reset erases an earlier per-cell obstacle or cost change |
| Pathfinder.BulkResetsRestoreDefaults | Runtime/Pathfinder.cs:240-262 | on a freshly constructed engine the three bulk resets change nothing |
| Pathfinder.ResetCommutesWithMutators | Runtime/Pathfinder.cs:224-262 | the search-state reset commutes with every grid mutator |
| SearchState.WfGridOk | Runtime/Pathfinder.cs:31-48 | on a constructed board every link stays inside the cell array and every cell knows its own index |
| SearchState.RouteReachable | Runtime/Pathfinder.cs:136-146 | a route from start to goal is a walk, so the goal is reachable, walkable and not the start |
| SearchState.SeedInv | Runtime/Pathfinder.cs:59-64 | the state with only the start open and nothing closed satisfies the search-loop invariant |
| SearchState.InvChain | Runtime/Pathfinder.cs:140-144 | under the invariant, the closed cells' predecessor links lead to cells closed strictly earlier, so reconstruction ends |
| SearchState.PopInv | Runtime/Pathfinder.cs:81-82 | moving an open cell to the closed set keeps the invariant (open and closed disjoint, start first and without predecessor, predecessor links to earlier closed cells) |
| SearchState.PartlyRelaxedStart | Runtime/Pathfinder.cs:90-91 | before the neighbour loop no cell is relaxed |
| SearchState.PartlyRelaxedKeep | Runtime/Pathfinder.cs:94-106 | a skipped neighbour, or an open one not improved, leaves cells and open set unchanged |
| SearchState.UnrelaxedCur | Runtime/Pathfinder.cs:90-118 | the neighbour loop never changes the expanded (closed) cell nor any grid field |
| SearchState.PartlyRelaxedUpdate | Runtime/Pathfinder.cs:98-117 | an opened or improved neighbour gets g = current g + step cost, h = estimate to the goal, f = g + h and the current cell as predecessor, and joins the open set |
| SearchState.PartlyRelaxedDone | Runtime/Pathfinder.cs:90-119 | after the last neighbour, the loop has opened exactly the admissible unclosed undiscovered neighbours, changed only cells relaxed through the current cell, lowered only the g of already-open cells, and priced every admissible neighbour at most at the new g |
| SearchState.RelaxInv | Runtime/Pathfinder.cs:90-118 | processing the neighbours of the cell just closed restores the invariant, including that every admissible neighbour of a processed closed cell is open or closed |
| SearchState.WalkStaysClosed | Runtime/Pathfinder.cs:66-121 | a walk from a cell set closed under admissible steps never leaves it |
| SearchState.Exhausted | Runtime/Pathfinder.cs:66-121 | when the open set empties without the goal closed, no admissible walk leads from start to goal |
| SearchState.FoundRoute | Runtime/Pathfinder.cs:84-88 | reconstruction from the closed goal is empty exactly when the goal is the start, and otherwise is a route of walkable linked cells, within the height step for `FindPath`, from the start (excluded) to the goal |
| Search.SelectMin | Runtime/Pathfinder.cs:68-79 | the scan picks an open cell whose f is no larger than any other open cell's |
| Search.Relax | Runtime/Pathfinder.cs:90-119 | the neighbour loop does what `PartlyRelaxedDone` states |
| Search.RelaxNeighbour | Runtime/Pathfinder.cs:93-117 | one pass of the neighbour loop extends the processed prefix by one neighbour |
| Search.IndexesToPositions | Runtime/Pathfinder.cs:136-146 | the positions along the predecessor link chain, oldest first: empty exactly when the final cell has no predecessor, ending with the final cell, each linked to the one before, the first hanging off the chain's root |
| Search.Expand | Runtime/Pathfinder.cs:68-118 | one loop pass closes an f-minimal open cell; if it is the goal the cells are unchanged and the route is the predecessor chain from it, otherwise the neighbours are relaxed; the invariant holds again |
| Search.FindPath | Runtime/Pathfinder.cs:50-122 | empty result for an unwalkable start, an unwalkable goal or start = goal; otherwise a result exactly when the goal is reachable through walkable links within the height step, and then a route from the start to the goal; the grid is unchanged and start and goal are left at -1 |
| Search.RunSearch | Runtime/Pathfinder.cs:66-121 | the loop yields a route exactly when the goal (other than the start) is reachable, and every route it yields is valid |
| Search.Init | Runtime/Pathfinder.cs:148-159 | search fields reset, start and goal recorded, only the start open with g = 0; the Tick invariant holds |
| Search.Tick | Runtime/Pathfinder.cs:161-222 | no change when start or goal is unwalkable, the result is filled or open is empty; otherwise exactly one f-minimal open cell is closed, newly opened cells hang off it at g + estimate + its cost with no height test, its walkable neighbours are all discovered, a filled result is a valid route, and the Tick invariant is kept; the returned expanded cell pins the whole step: at the goal the cells are unchanged, only it leaves the open set and the result is the predecessor chain from it, oldest first; otherwise the result stays empty and every cell is unchanged or relaxed through it (g, h, f and predecessor as the source sets them), open cells only get a smaller g, and the open set grows by exactly its admissible unclosed undiscovered neighbours |
| Search.ClosesOne | Runtime/Pathfinder.cs:182-183 | the closed set grows by exactly the selected open cell |
| Search.ExpandCovers | Runtime/Pathfinder.cs:191-220 | after a `Tick` expansion every walkable neighbour of the expanded cell is open or closed |
| Search.ExpandOpens | Runtime/Pathfinder.cs:199-219 | a cell a `Tick` expansion newly opens has the expanded cell as predecessor and g = its g + estimate + its cost |
| Search.TickKeepsInv | Runtime/Pathfinder.cs:161-222 | one `Tick` expansion restores the Tick invariant |
| Search.TickOutcome | Runtime/Pathfinder.cs:161-222 | an exhausted incremental search without a route and with goal other than start proves the goal unreachable; a filled result proves it reachable |

## Left out

- Integer overflow: `g`, `f`, `cost`, the heuristic and `y * cols + x` are unbounded integers here. C# `int` wrap-around is not modelled.
- Out-of-range coordinates: `XY2Idx`, `SetObstacle`, `SetCost`, `FindPath` and `Init` require in-board coordinates. The source does not check them. A column outside `[0, cols)` often still yields an index inside the array that names a cell of a neighbouring row: `XY2Idx(cols, 0)` is `cols`, the cell (0, 1) on a board with two or more rows. Only an index outside `[0, cols*rows)` makes the source index outside the array. This silent wrap is not modelled.
- Search.Tick: requires the state an `Init` leaves behind (`TickInv`). Two other calls are left out. On a freshly constructed engine, start and goal are 0 and the open set is empty (Runtime/Pathfinder.cs:10-11, 31-48). On a non-empty board the source's `Tick` then reads cell 0 and does nothing; on an empty board it throws, since there is no cell 0. `Pathfinder.Create` records that state, but `TickInv` excludes it. After `FindPath` or any `Reset`, start and goal are -1, so the source's `Tick` indexes the array at -1. This happens because `Reset` sets them to -1 and `FindPath` never sets them; `FindPath` leaves them at -1 here too.
- Search.Tick: its contract assumes no grid mutator runs between `Init` and the `Tick` calls. The source allows that, but the invariant is about a fixed grid.
- Search.SelectMin: the enumeration order of `HashSet<int>` is not modelled. Among open cells of equal `f` any one may be chosen. Because of this the model states neither that two `FindPath` calls give the same route nor that `Tick` steps reproduce `FindPath`.
- Search.FindPath: no claim of a shortest route. The heuristic is not consistent (`HeuristicNotConsistent`), it can overestimate with diagonal links (`HeuristicOverestimates`), and closed cells are never reopened.
- Search.IndexesToPositions: the source appends positions and then calls `List.Reverse`. The model prepends, which yields the same list.
- Pathfinder.Create: an array allocation with a negative cell count throws in C#, so it is a precondition here.
- Heights: the source has no per-cell height setter. Heights only change through `ResetHeight`, so every constructed board has height 0 everywhere, and the height test of `FindPath` is modelled for arbitrary heights all the same.
- The `Result` list is shared and mutated by the source. Here it is a value returned in the engine state and by `FindPath`.
