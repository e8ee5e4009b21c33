# Relay towers on an obstructed city grid — a verified model

This project models, in Dafny, the core of `CityGrid` in `main.py`: a
rectangular grid of passable and obstructed cells, a registry of relay towers
`(x, y, range)`, the budgeted greedy optimizer that places towers on cells no
tower covers yet, and the reliable-path query that links towers within range
and asks for a minimum-weight route between two of them. Every quantity is an
integer; distances are compared squared, as in the source.

The model is organised by component:

- `common.dfy` — `Option` and `Result`.
- `city.dfy` (module `City`) — the grid, towers, `place_tower`, and the coverage
  count that the optimizer computes for each cell.
- `scan.dfy` (module `Scan`) — one scan of the grid by the optimizer: the first
  uncovered passable cell in row-major order. It has a functional definition
  and the literal nested loops, proved to agree.
- `optimizer.dfy` (module `Optimizer`) — `optimize_tower_placement`, as a
  functional definition (`FillType`, `OptimizeSpec`) and as the literal loops
  (`Optimize`) proved equal to it. It also holds the lemmas about what the
  optimizer places.
- `connectivity.dfy` (module `Connectivity`) — the graph construction loop of
  `find_reliable_path` and the edge relation it produces.
- `paths.dfy` (module `Paths`) — a simple exhaustive shortest-path search over
  that graph, proved to meet the contract of a weighted shortest-path routine.
- `reliable.dfy` (module `Reliable`) — `find_reliable_path` end to end, with its
  contract restated over towers.

The registry is a value (`seq<Tower>`) passed in and returned instead of a
mutable field. The obstruction matrix is a parameter.

Behaviour worth knowing, all taken from the code:

- **Placement is silent.** `place_tower` appends `(x, y, range)` when the cell
  is in bounds and passable. Otherwise it does nothing and reports nothing.
- **The optimizer picks the first cell, not the best one.** The comparison at
  `main.py:89` is strict against a score that starts at 0 and then holds the
  type's constant `coverage`. So the chosen cell is the first uncovered
  passable cell in row-major order. A type whose `coverage` is not positive
  selects nothing, and the loop for it stops.
- **The optimizer crashes on an empty registry.** Choosing a cell reads the
  local `distance` (`main.py:92`). That variable is assigned only inside the
  tower loop. With no tower placed, Python raises `UnboundLocalError`. The
  model returns `Failure(UnboundLocalDistance)`. It proves this happens exactly
  when the registry starts empty, some cell is passable, and some type has a
  positive score and a cost within the budget. `Optimize` keeps a flag for
  whether `distance` has been assigned, as Python does. Its proof shows that
  the flag agrees with "the registry is non-empty" wherever it is read.
- **The loop always terminates, whatever the cost.** Each placement covers its
  own cell (distance 0 ≤ range²). So the set of uncovered passable cells shrinks
  strictly with every placement. That set's size is the `decreases` measure.
  A cost of zero or below therefore cannot loop forever.
- **Edges are symmetric.** Each ordered pair is tested against the first
  tower's range only. But both orders are visited and the graph is undirected.
  So the graph joins `i` and `j` when either tower has the other in range. The
  weight is the squared distance either way, and there are no self-loops.
- **Isolated towers are not nodes.** Nodes enter the graph only through
  `add_edge`. The shortest-path routine of networkx checks both endpoints
  before searching and raises `NodeNotFound` for a missing one. The `except`
  clause catches only `NetworkXNoPath`, so `None` is returned only when both
  endpoints are nodes and no path joins them. A missing endpoint is its own
  outcome, `EndpointMissing`. Two towers out of each other's range, on their
  own, make the query raise `NodeNotFound` rather than return `None`: the
  towers `(3, 4, 2)` and `(7, 5, 3)` taken alone are an example
  (`DemoTowersAreNotNodes`).
- **A node is its own path.** When `start == end` and it is a node, the result
  is `[start]`.

## Model

| member | source | states |
|---|---|---|
| City.PlaceTower | main.py:21-33 | the registry only grows, by at most one tower; it grows exactly when `0 <= x < n`, `0 <= y < m` and the cell is passable; the appended tower is exactly `(x, y, range)`; otherwise the registry is unchanged |
| City.PlaceTowerKeepsCellsPassable | main.py:32-33 | placement preserves the registry invariant that every tower stands on an in-bounds passable cell |
| City.CoverageCount | main.py:82-87 | the number of towers within squared range of a cell is at most the number of towers, and it is zero exactly when no tower covers the cell |
| City.CountCoverage | main.py:82-87 | the literal tower loop computes that count, zero exactly when no tower covers the cell |
| City.CoversOwnCell | main.py:85-86 | a tower covers the cell it stands on, since distance 0 is at most `range²` for every range |
| Scan.FirstUncovered | main.py:79-93 | the selected cell is passable and covered by no tower, and no uncovered passable cell precedes it in row-major order; there is none exactly when every passable cell is covered |
| Scan.PlaceShrinksUncovered | main.py:94-97 | placing a tower on an uncovered cell removes that cell from the uncovered set and adds none, so the set's size strictly decreases |
| Scan.ScanGrid | main.py:75-93 | the literal scan finds a cell exactly when the score is positive, the registry is non-empty and an uncovered passable cell exists, and then it finds the row-major first one; it raises the unbound-`distance` error exactly when the score is positive, the registry is empty and such a cell exists |
| Optimizer.PlaceOnUncoveredAppends | main.py:94-96 | the optimizer's call to `place_tower` always appends, because the chosen cell is in bounds and passable |
| Optimizer.Optimize | main.py:62-99 | the literal optimizer (type loop, budget loop, scan, `distance` flag) returns exactly what the functional model does, including its failure |
| Optimizer.FillTypeAppendsGreedily | main.py:73-97 | one type's loop keeps the old towers as a prefix; each tower it adds has the type's range, stands on a passable cell that no earlier tower covers, is the row-major first such cell at that moment, and is added only for a positive score |
| Optimizer.FillTypeWithinBudget | main.py:72-97 | the `k` towers placed for one type satisfy `k * cost <= budget` whenever `k > 0`, whatever the sign of the cost |
| Optimizer.FillTypeStopsOnlyWhenDone | main.py:74-99 | a type's loop ends only when the budget left, `budget - k * cost`, is below the cost, or when no cell can be selected (a non-positive score or no uncovered passable cell) |
| Optimizer.FillTypeFailsIff | main.py:83-92 | one type's loop fails exactly when it selects a cell while the registry is empty; from an empty registry, a loop that does not fail places nothing |
| Optimizer.SelectOnEmptyRegistry | main.py:76-91 | with no tower placed, a type selects a cell exactly when its score is positive and some cell is passable |
| Optimizer.OptimizeAppendsGreedily | main.py:72-99 | the whole optimizer keeps the old towers as a prefix, and every tower it adds is a greedy placement for one of the given types with a positive score |
| Optimizer.OptimizeKeepsCellsPassable | main.py:94-96 | if every tower stood on a passable cell before optimizing, every tower does afterwards |
| Optimizer.OptimizeFailsIff | main.py:72-92 | the optimizer raises `UnboundLocalError` exactly when the registry starts empty, some cell is passable, and some type has a positive score and a cost within the budget |
| Connectivity.BuildGraph | main.py:112-121 | the graph has an edge `{i, j}` exactly when `i != j` and one tower has the other within squared range; it is stored both ways with the squared distance as its weight; it has no self-loops; the nodes are exactly the towers with some edge |
| Connectivity.RepresentsUndirected | main.py:112-121 | the stored edges are symmetric with one weight per pair and contain no loop |
| Paths.BestIsOptimal | main.py:124 | whenever a simple path joins two nodes outside the excluded set, the search finds one, and it is no heavier |
| Paths.ShortenToSimple | main.py:124 | every walk can be replaced by a simple walk between the same nodes that is no heavier, since weights are never negative |
| Paths.ShortestPathCorrect | main.py:123-127 | a missing endpoint is reported exactly when one endpoint is not a node; a node reaches itself by `[start]`; a returned path is a walk from `start` to `end` that repeats no node and is no heavier than any other walk between them; "no path" is returned exactly when both are nodes and no walk joins them |
| Reliable.WalksAreRoutes | main.py:113-121 | walks of the built graph are exactly the tower routes whose hops are in range, and their weights are the sums of squared hop distances |
| Reliable.FindReliablePath | main.py:101-127 | the query over the registry: a missing endpoint exactly when an endpoint has no in-range neighbour; `[start]` when both ends are the same node; otherwise a returned route joins `start` to `end` along in-range hops, visits no tower twice, and has minimal total squared distance; `None` exactly when both are nodes and no route joins them |

## Left out

- Random generation of the obstruction matrix (`np.random.rand`, `main.py:18`): the matrix is a parameter of the model.
- Negative grid dimensions: `n` and `m` are natural numbers, because numpy refuses negative ones when it builds the matrix.
- Drawing: `visualize_grid`, `visualize_coverage` and `visualize_path` only plot. The last two fail as soon as they draw a tower, because their local `range` shadows the builtin.
- The demonstration script (`main.py:155-179`): it is glue around the modelled operations and the plots.
- The internals of networkx's shortest-path routine. The model has its own exhaustive search over simple paths and proves the routine's contract of it. Which of several equally light paths networkx returns is not modelled. Neither are the exact exception classes: `EndpointMissing` stands for the uncaught `NodeNotFound`, and `UnboundLocalDistance` for `UnboundLocalError`.
- Floating-point budgets, costs and scores: tower types are records of integers.
- `best_distance` is assigned but never used, so the model does not keep it. Only whether `distance` has been assigned matters, and `Optimize` tracks that.
- Mutation of the object: the registry is a value passed in and returned. A failed optimization returns only the error. The registry at the point of failure is always the empty one it started with.
