# Pathfinder visualiser: Dijkstra search on a grid

This project models the computational core of the pathfinder visualiser, a
React app that animates Dijkstra's algorithm on a 20 × 40 grid of cells.
The user places a start cell and an end cell and toggles blocked cells. The
app then runs `dijkstra`, which returns two lists: the cells in the order the
search visited them, and the shortest path from the start to the end.

The model covers the parts of `src/App.js` that compute something:

- **Grid construction** (module `Grid`). `App` builds the grid on every
  render. Cell (r, c) is `{ row: r, col: c, isBlocked }`, and it is blocked
  exactly when its key is in the set of blockages.
- **Block toggle** (module `Blockages`). This is the updater passed to
  `setBlockages`. A click never changes the start or end cell. A click on
  any other cell flips that cell alone.
- **`getNeighbors`** (module `Neighbors`). It returns the open orthogonal
  neighbours of a cell, in the order up, down, left, right.
- **`dijkstra`** (modules `Unvisited`, `Distances`, `SearchState`,
  `ShortestPath`):
  - the `distances` and `prev` 2-D arrays, updated in place;
  - the `unvisited` list, collected in scan order, re-sorted by distance
    each round and then shifted;
  - the two `break`s;
  - the relaxation loop;
  - the rebuilding of the path from `prev`.

The search is proved against a reference notion of distance in module
`Routes`:

- A *route* is a non-empty sequence of open (in-grid, unblocked) cells in
  which each cell is an orthogonal neighbour of the one before it.
- `ShortestIs(grid, s, t, d)` says that some route from `s` to `t` has
  d + 1 cells and that none has fewer.

Module `ObstacleFree` shows that on a grid with no blocked cells the
shortest route has Manhattan(s, t) + 1 cells.

The proof of `Dijkstra` rests on the loop invariant `Searching`, defined in
module `SearchState`. It states that:

- the unvisited and visited lists split the open cells between them;
- every `prev` entry points to a visited neighbour one step closer to the
  start;
- every finite distance has a route of that length;
- every visited cell's distance is the length of a shortest route to it,
  and these distances are non-decreasing;
- no unvisited cell is closer than the last visited one;
- every visited cell has had its neighbours relaxed.

The lemmas in `SearchState` show that each step of the main loop keeps this
invariant, and what holds when the loop ends.

JavaScript's `Infinity` is the `Inf` constructor of `Distances.Dist`. JavaScript
`<` on distances is `Distances.Below`. The comparator `distances[a] - distances[b]`
is `Distances.Compare`, where `Infinity - Infinity` is NaN, which the sort
treats as 0. ECMA-262 requires `Array.prototype.sort` to be stable (section
23.1.3.30 of the 2023 edition). This comparator is consistent, so every stable
sort gives the same order, and the model uses an insertion sort that is proved
stable.

## Model

| member | source | states |
|---|---|---|
| Grid.BuildGrid | src/App.js:85-93 | the grid has `numRows` rows of `numCols` cells; cell (r, c) is `Cell(r, c, (r, c) in blockages)` |
| Grid.BuiltCellOpen | src/App.js:89-90 | in a built grid, cell (r, c) is open exactly when (r, c) is not in the blockage set |
| Blockages.Toggled | src/App.js:104-119 | clicking the start or end cell leaves the set unchanged; clicking any other cell flips its membership; every other key keeps its membership |
| Blockages.ToggleBlockage | src/App.js:104-119 | the updater (copy the set, then return early, delete or add) yields exactly `Toggled` |
| Blockages.ToggledTwice | src/App.js:104-119 | two clicks on the same cell restore the original set |
| Blockages.ToggledKeepsEndpointsOpen | src/App.js:107-112 | if the start and end cells are unblocked before a click, they are unblocked after it |
| Neighbors.Probe | src/App.js:8-11 | one guarded `push`: the cell at (r, c) if it is inside the grid and unblocked, otherwise nothing |
| Neighbors.GetNeighbors | src/App.js:5-13 | at most 4 cells; each is open and at Manhattan distance 1 from `node`; they are ordered up, down, left, right; every open orthogonal neighbour is included |
| Neighbors.Ranked | src/App.js:8-12 | the four one-cell-or-empty pushes concatenate in strictly increasing direction order |
| Unvisited.CollectUnblocked | src/App.js:26-33 | the list holds exactly the open cells, in strict row-major scan order |
| Unvisited.ScanOrderedOnce | src/App.js:26-33 | a list in strict scan order holds each cell once |
| Distances.Compare | src/App.js:38-39 | the comparator is negative, positive or zero exactly when the first distance is below, above or equal to the second (`Infinity - Infinity` reads as 0) |
| Distances.BelowTotal | src/App.js:38-39 | JavaScript `<` on distances is a strict total order |
| Distances.SortByDistance | src/App.js:37-40 | the sorted list is a permutation of the input, with distances non-decreasing; it is given with the index map and with ties kept in input order (stable) |
| Distances.InsertionPoint | src/App.js:37-40 | the insertion index puts the cell after every cell whose distance is not above its own and before every cell whose distance is |
| Distances.InsertKeepsOrder | src/App.js:37-40 | inserting at that index keeps the distances non-decreasing |
| Distances.TiesKeepOrder | src/App.js:37-40 | inserting the next input cell at that index keeps equal distances in input order |
| Distances.InsertedIndices | src/App.js:37-40 | inserting the next input cell extends the index map from the sorted list back to the input |
| Routes.RouteExtend | src/App.js:46-51 | a route extended by an open neighbour of its last cell is a route |
| Routes.RoutePrefix | src/App.js:46-51 | every non-empty prefix of a route is a route to its own last cell |
| Routes.RouteAtLeastManhattan | src/App.js:57-67 | every route from s to t, moving one orthogonal step at a time as `getNeighbors` allows, has at least Manhattan(s, t) + 1 cells: a lower bound on the length of any rebuilt path |
| SearchState.Updated | src/App.js:50-51 | an in-place write to a table changes that one entry and nothing else |
| SearchState.Blank | src/App.js:18-23 | `Array(numCols).fill(v)` for each of the `numRows` rows: every entry is `v` |
| SearchState.Lower | src/App.js:48-50 | one relaxation of neighbour `n`: its distance becomes `alt` when `alt` is below it, and otherwise the table is unchanged; no distance is raised and no other cell changes |
| SearchState.Point | src/App.js:49-51 | the same step on `prev`: `n` gets predecessor `u` exactly when its distance is lowered, and no other entry changes |
| SearchState.LowerAll | src/App.js:47-53 | relaxing the neighbours in order never raises a distance and leaves every cell outside the neighbour list unchanged |
| SearchState.PointAll | src/App.js:47-53 | relaxing the neighbours in order leaves the `prev` entry of every cell outside the neighbour list unchanged |
| SearchState.Initially | src/App.js:17-33 | the initial state (only the start at distance 0, no `prev` links, nothing visited, every open cell unvisited once) satisfies the loop invariant |
| SearchState.ReachesUnvisited | src/App.js:35-53 | a route from the start that leaves the visited cells enters an unvisited cell whose distance is at most the route's length |
| SearchState.PopIsShortest | src/App.js:37-43 | the cell shifted off the sorted list, if its distance d is finite, has a shortest route of exactly d steps |
| SearchState.PopLowerBound | src/App.js:37-43 | no route from the start to the shifted cell is shorter than its distance |
| SearchState.PopFrontier | src/App.js:37-41 | after the shift, no remaining cell is closer than the shifted one, and the shifted one is no closer than the previous pop |
| SearchState.Visit | src/App.js:41-43 | visiting the shifted cell when its distance is finite keeps every part of the invariant except relaxation of that cell |
| SearchState.VisitSettles | src/App.js:41-43 | the visited cell's distance is recorded, is a shortest-route distance, and is no smaller than earlier ones; it bounds every remaining cell |
| SearchState.PopKeepsPool | src/App.js:41-43 | after the shift and push, the open cells are still split between unvisited and visited, each held once |
| SearchState.LinksGrow | src/App.js:43 | pushing a cell onto the visited list keeps every `prev` link pointing at a visited cell |
| SearchState.GoalReached | src/App.js:44 | when the visited cell is the goal, the search has concluded with the goal visited last |
| SearchState.StopsAtInfinity | src/App.js:42 | when the shifted cell's distance is `Infinity`, the search has concluded |
| SearchState.Exhausts | src/App.js:35 | when `unvisited` runs empty, the search has concluded |
| SearchState.ExhaustsRoutes | src/App.js:35-42 | when no unvisited cell has a finite distance, every route from the start ends in a visited cell |
| SearchState.LowerStep | src/App.js:48-51 | lowering a neighbour's distance to `alt` and pointing its `prev` at `closest` keeps the invariant, with a route of the new length recorded |
| SearchState.LinksAfterLowering | src/App.js:50-51 | after that write, every `prev` link still points to a visited neighbour one step closer |
| SearchState.WitnessedAfterLowering | src/App.js:50 | after that write, every finite distance still has a route of that length |
| SearchState.BoundsAfterLowering | src/App.js:48-50 | after that write, visited distances, the frontier bound and the relaxation bounds all still hold |
| SearchState.RelaxPrefix | src/App.js:47-53 | relaxing any prefix of the neighbour list keeps the invariant |
| SearchState.LowerAllBound | src/App.js:47-53 | after the loop over the neighbours, each of them has a distance of at most `alt` |
| SearchState.Continue | src/App.js:44-53 | after relaxing a visited cell that is not the goal, the loop invariant holds again |
| ShortestPath.InitTables | src/App.js:18-24 | fresh `distances` and `prev` arrays: every distance is `Infinity` except the start's, which is 0; every `prev` entry is `null` |
| ShortestPath.SortedFirstIsLeast | src/App.js:37-41 | after the sort, no cell of the list is closer than its first |
| ShortestPath.RelaxEdge | src/App.js:48-52 | the arrays afterwards hold the tables with the neighbour lowered to `alt` and pointed at `closest`, exactly when `alt` is below its distance |
| ShortestPath.RelaxNeighbors | src/App.js:46-53 | the arrays afterwards hold the tables with every neighbour relaxed in `getNeighbors` order |
| ShortestPath.NeighborsRelaxed | src/App.js:46-53 | once every cell `getNeighbors` returns has distance at most `alt`, so has every open orthogonal neighbour |
| ShortestPath.RelaxedAll | src/App.js:46-53 | relaxing all neighbours of the visited cell keeps the invariant and marks that cell relaxed |
| ShortestPath.Expand | src/App.js:46-53 | relaxing the neighbours of a visited non-goal cell leaves the arrays holding the old tables with every neighbour relaxed in order (`LowerAll`, `PointAll`), and restores the loop invariant |
| ShortestPath.Search | src/App.js:17-54 | the main loop ends concluded: the goal, if visited, was visited last; otherwise every cell reachable from the start was visited |
| ShortestPath.PoolInArray | src/App.js:37-39 | every unvisited cell indexes the `distances` array |
| ShortestPath.BuildPath | src/App.js:56-68 | the rebuilt path is non-empty exactly when the goal's distance d is finite; it then has d + 1 cells, starts at the start and ends at the goal; a one-cell path means start == goal, and a longer path is a route |
| ShortestPath.TrailGrows | src/App.js:59-61 | following one `prev` link extends the partial path to a longer route to the goal |
| ShortestPath.NoPredecessor | src/App.js:59-63 | a cell with a finite distance and a `null` `prev` entry is the start, at distance 0 |
| ShortestPath.TrailHome | src/App.js:59-67 | the walk stops at a cell with no `prev`, and that cell is the start, with the path as long as the goal's distance |
| ShortestPath.VisitedReachable | src/App.js:35-44 | every visited cell is reachable; if the goal was not visited, the visited cells are exactly the reachable open cells |
| ShortestPath.StartVisited | src/App.js:26-43 | with an open start, the visited list is non-empty and begins with the start |
| ShortestPath.GoalSettled | src/App.js:44 | a visited goal has a finite distance, which is the length of a shortest route to it |
| ShortestPath.PathFound | src/App.js:56-68 | with an open start, the path is non-empty exactly when the goal is reachable, and it is then a shortest route from the start to the goal |
| ShortestPath.BlockedStart | src/App.js:42-67 | with a blocked start nothing is visited, and the path is `[start]` if the goal is the start and empty otherwise |
| ShortestPath.StartIsGoal | src/App.js:44-67 | with an open start equal to the goal, visited and path are both `[start]` |
| ShortestPath.Outcome | src/App.js:16-69 | everything `Dijkstra` promises follows from the concluded search and the rebuilt path |
| ShortestPath.Dijkstra | src/App.js:16-69 | visited cells are open and distinct, visited at non-decreasing shortest-route distances, all reachable, with the goal only last. An open start is visited first; a blocked start leaves nothing visited. An unreachable goal means the visited cells are exactly the reachable ones. With an open start, the path is non-empty exactly when the goal is reachable, and is then a shortest route. A blocked start gives `[start]` when start == goal and an empty path otherwise; an open start == goal gives `[start]` for both lists. On an obstacle-free grid the path has Manhattan + 1 cells |
| ObstacleFree.Toward | src/App.js:57-67 | one orthogonal step towards t lowers the Manhattan distance by exactly 1: the step an obstacle-free shortest path takes |
| ObstacleFree.Staircase | src/App.js:57-67 | on an unblocked grid there is a route from s to t with Manhattan(s, t) + 1 cells, so the rebuilt path can be that short |
| ObstacleFree.ShortestIsManhattan | src/App.js:48-51 | on an unblocked grid the shortest route from s to t has Manhattan(s, t) steps |
| ObstacleFree.ShortestUnique | src/App.js:48-51 | the shortest-route length between two cells is unique |

## Left out

- React state (`useState`), re-rendering, the `setTimeout` animation, JSX and
  CSS, the `alert` for unimplemented algorithms and the start/end selection
  handlers are not modelled. They are UI plumbing with nothing to compute.
- IEEE floating point is not modelled. Distances are step counts or `Inf`, and
  only `<` and the comparator's sign are modelled.
- Blockage keys are the strings `"r,c"` in the source. The model uses
  `Coord(r, c)`, which is equivalent because the string of two integers
  joined by a comma is injective.
- ShortestPath.Dijkstra: requires the start and end cells to be inside the
  grid. The source indexes `distances[startNode.row]` and `grid[endNode.row]`
  without checking. The UI only ever passes cells it drew.
- ShortestPath.BuildPath: the `curr &&` guards on lines 59 and 63 are not
  modelled. `curr` always starts at a grid cell and only follows `prev`
  entries, which hold grid cells.
- The `distances` and `prev` arrays are tracked by ghost tables of values,
  which the arrays mirror entry for entry. The search's lemmas reason about
  those tables.
- Distances.SortByDistance: it is an insertion sort, not the engine's sort.
  Under a consistent comparator every stable sort gives the same order, so
  the result is the same. The sort's own step count is not modelled.
