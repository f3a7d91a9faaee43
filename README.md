# Pyramid path solver, modelled in Dafny

This project models the solver inside the Angular `AppComponent` of a small web page. The user
gives a target number and a triangle of numbers. The component turns the triangle into a pyramid
graph, in which cell (i, j) has the children (i+1, j) and (i+1, j+1). It then searches depth
first, left child first, for a root-to-leaf path whose product of values is the target. The
first path found wins. While it searches, the component records three things:

- `allPaths`: a flat trace of node ids, with a `good`/`bad` marker before each leaf's id. The
  page replays this trace as an animation.
- `goodPath`: the winning nodes, leaf first.
- `outputText`: the winning path as a string of `L`/`R` turns.

The project is in four modules:

- `Pyramid` (`pyramid.dfy`): node ids, nodes, the shape of the input, the node each cell
  becomes, and the component's own string form of an id.
- `Paths` (`paths.dfy`): the reference semantics. `LeafPaths` enumerates every turn string in
  L-before-R order, and `FirstSolution` takes the first one whose running product is the target.
  `LeftFirst` is the same answer computed the way the depth-first search reaches it.
  `GoodNodes` lists the nodes along a turn string in the order the search pushes them onto
  `goodPath`.
- `Traces` (`traces.dfy`): `Trace`, the entries a search from a cell appends to `allPaths`,
  and what that trace looks like.
- `App` (`app_component.dfy`): the component as a class. It has the fields the solver updates,
  `BuildPyramid`, `FindPath`, `Solve` and `Reset` as methods with loops and in-place updates,
  and `Search`, a step-by-step functional account of `findPath`'s effect. `SearchMeaning` proves
  that `Search` agrees with the reference (`LeftFirst`, `Trace`, `GoodNodes`).

The search precondition is `WellShaped(rows)`: row i has at least i + 1 entries. The source's
non-null lookups of the two children (lines 233-234) depend on it. `IsPyramidOf(g, rows)`
says that the map holds exactly one node per cell, and that node is the cell's.

Three facts about the code shape the model:

- `goodPath` is leaf first. Each node is pushed after the child that succeeded below it has
  pushed its own nodes, so the root comes last (`Paths.GoodNodes`).
- A failed search's trace ends with the root's id, not with a `bad` marker, once the triangle
  has more than one row. Each non-leaf node pushes its id after every child it explores
  (`Traces.TraceNodeLeftFailed`).
- Digit concatenation first names two cells of a triangle alike at (10, 10) and (101, 0), both
  "1010", so the first collision needs 102 rows (see Findings). Below ten rows and columns the
  ids are distinct (`Pyramid.StringIdInjectiveBelowTen`).

## Model

| member | source | states |
|---|---|---|
| App.AppComponent.constructor | src/app/app.component.ts:25-42 | The fields start empty: target 0, empty texts, no input rows, no graph, empty trace and winning path, flag unset. |
| App.AppComponent.BuildPyramid | src/app/app.component.ts:171-182 | Afterwards the map holds the nodes it already had plus one node per cell of rows. Cell (i, j) gets id (i, j), value rows[i][j], and the children (i+1, j), (i+1, j+1) unless it is in the last row. Entries under other ids are kept. |
| Pyramid.PyramidNeighbors | src/app/app.component.ts:172-179 | In the pyramid of a triangular input every node carries its own id and its cell's value. A last-row node has no children; any other node has exactly [(i+1, j), (i+1, j+1)] in that order, and both are in the map. |
| Pyramid.Decimal | src/app/app.component.ts:174 | The numeral of n is all decimal digits, and it is a single digit exactly when n is below ten. |
| Pyramid.DecimalValue | src/app/app.component.ts:174 | The digits `Decimal` writes for n stand for n, read most significant digit first. |
| Pyramid.StringId | src/app/app.component.ts:174 | The id of (i, j) is row digits then column digits: at least two characters, and exactly two iff row and column are below ten. |
| Pyramid.CellNode | src/app/app.component.ts:174-179 | The node of cell (i, j): its id, its value rows[i][j], and its children. Its properties in the built map are stated by `Pyramid.PyramidNeighbors`. |
| Pyramid.Neighbors | src/app/app.component.ts:175-178 | The children of (i, j): none in the last row, otherwise (i+1, j) then (i+1, j+1). `Pyramid.PyramidNeighbors` states this for every node of the built map. |
| Pyramid.StringIdInjectiveBelowTen | src/app/app.component.ts:174 | While row and column are below ten, the concatenated string id names one cell only. |
| Pyramid.StringIdsCollide | src/app/app.component.ts:174-179 | In every triangular input of at least 102 rows, the distinct cells (10, 10) and (101, 0) both get the string id "1010". |
| App.StartNode | src/app/app.component.ts:219-234 | The node the search stands on is its cell's node. It has no children exactly in the last row; otherwise its children are (i+1, j) and (i+1, j+1), and both lookups succeed and give those cells' nodes. |
| App.AppComponent.FindPath | src/app/app.component.ts:217-252 | The search's answer and its new trace, winning path and output text are those of `Search` from the old ones. The effect on the fields is exactly Search's, and only those three fields change. |
| App.Search | src/app/app.component.ts:217-252 | The effect of `findPath` on the answer, the trace, the winning nodes and the output text, one branch per branch of the source: leaf hit or miss, left child found, right child found, both failed. `App.SearchMeaning` states what it amounts to. |
| App.SearchMeaning | src/app/app.component.ts:217-252 | What Search answers and leaves behind is the reference's. It finds a path iff LeftFirst does. The trace grows by Trace. On success the winning nodes grow by the nodes along the winner, leaf first, and the output text becomes path followed by the winner. On failure both are unchanged. |
| App.ExplainsLeaf | src/app/app.component.ts:219-227 | A leaf succeeds iff the product equals the target. It appends good/bad and its id; on success it alone is pushed and path is the answer. |
| App.ExplainsLeftFound | src/app/app.component.ts:230-242 | When the left child succeeds, the node succeeds. Its trace wraps the child's in two visits of the node, and it is pushed after the child's winning nodes. |
| App.ExplainsRightFound | src/app/app.component.ts:244-248 | When the left child fails and the right succeeds, the node succeeds with 'R' and the right child's answer, and its trace has three visits of the node. |
| App.ExplainsBothFailed | src/app/app.component.ts:244-251 | When both children fail, the node fails. Its winning path and answer are unchanged, and its trace is the two children's traces separated by visits of the node. |
| App.AppComponent.Solve | src/app/app.component.ts:128-143 | Solve stores the pyramid of the input as the graph. With no rows there is no root: it returns "No Solution" and changes nothing else. Otherwise it searches from (0, 0) with the root's value; the fields change as the reference says, and it returns the winning turns or "No Solution". For a single row [v] the trace gains [good/bad, (0,0)] and the answer is "" iff v is the target. |
| App.AppComponent.Reset | src/app/app.component.ts:271-282 | Clears the target, input text, output text, trace and winning path, and unsets the flag. |
| Paths.Accumulate | src/app/app.component.ts:236-244 | The product the search carries to the end of a turn string: each turn multiplies by the value of the child it enters. `Paths.AccumulateIsProduct` states it as a product over the path's nodes. |
| Paths.LeafPathsCount | src/app/app.component.ts:236-244 | There are 2^n turn strings from a node n rows above the leaves. |
| Paths.LeafPathsComplete | src/app/app.component.ts:236-244 | The enumeration holds every L/R string of the right length. |
| Paths.LeftFirst | src/app/app.component.ts:223-249 | A found answer has one turn per row below the start (|rows| - 1 from the root), and every turn is L or R. |
| Paths.LeftFirstIsFirstSolution | src/app/app.component.ts:217-252 | The depth-first answer is the brute-force one: the first turn string, in L-before-R order, whose running product is the target. |
| Paths.LeftFirstSound | src/app/app.component.ts:219-249 | A found answer leads to the last row and its running product is the target. |
| Paths.LeftFirstLeast | src/app/app.component.ts:236-249 | Whenever some path succeeds, the search finds one, and it comes no later in L-before-R order than that path. |
| Paths.FoundIffSolvable | src/app/app.component.ts:217-252 | The search finds a solution iff some path to the last row has product equal to the target. |
| Paths.GoodNodes | src/app/app.component.ts:221-247 | The nodes along a turn string in the order the search pushes them onto goodPath: one per turn plus the start, the start's node last (each node is pushed after the child that succeeded below it). `Paths.GoodNodesShape` states the rest of its shape. |
| Paths.GoodNodesShape | src/app/app.component.ts:232-247 | The nodes along a turn string, in goodPath order, are one per row from the row the string ends in up to the start. Each is its cell's node and a child of the one after it. |
| Paths.AccumulateIsProduct | src/app/app.component.ts:236-244 | The running product along a path, started at m times the start's value, is m times the product of the values of all the path's nodes. |
| Paths.WinningPathShape | src/app/app.component.ts:221-248 | The winning path as goodPath keeps it has one node per row, leaf first and root last. Each entry is a child of the next. |
| Paths.WinningPathProduct | src/app/app.component.ts:220-222 | The product of the values along the winning path is the target. |
| Traces.Trace | src/app/app.component.ts:219-251 | The entries a search from (i, j) appends to allPaths. A leaf gives its good/bad marker and its id. Above the last row: the node, the left child's trace, the node; then, only if the left child failed, the right child's trace and the node again. `Traces.TraceLeftFound` and `Traces.TraceLeftFailed` unfold it one level. |
| Traces.WinTraceIsGoodPath | src/app/app.component.ts:221-247 | The ids after the good marker are the ids of the winning nodes, in goodPath's leaf-first order. |
| Traces.TraceGoodSuffix | src/app/app.component.ts:219-249 | On success the trace has exactly one good marker, and after it come only the winning path's ids, leaf first; on failure it has no good marker. |
| Traces.TraceBadCount | src/app/app.component.ts:219-251 | A failed search from a cell with n rows below it holds exactly 2^n bad markers, one per leaf path. |
| Traces.TraceMarkersFollowedByLeaf | src/app/app.component.ts:221-226 | Every good/bad marker is immediately followed by the id of a last-row node. |
| Traces.TraceStaysBelow | src/app/app.component.ts:230-245 | A search from (i, j) visits only nodes of the sub-pyramid below (i, j). |
| Traces.TraceNodeLeftFound | src/app/app.component.ts:230-242 | When the left child succeeds, the node's id opens and closes its trace and occurs exactly twice, and the right child is never entered. |
| Traces.TraceNodeLeftFailed | src/app/app.component.ts:230-245 | When the left child fails, the node's id opens and closes its trace and occurs exactly three times. |

## Left out

- `parseInput` (src/app/app.component.ts:145-168) is not part of this model. It converts text with JavaScript `Number()` and `NaN` checks, which are floating-point string conversions. `inputNumbers` and `target` arrive here already parsed.
- `onSubmit` (src/app/app.component.ts:77-126) is not modelled. It resets, parses the input, stores `solve()`'s answer in `outputText` (line 88), replays the trace on a timer, and on completion sets `goodPathFound` (line 120) and `connections`. In this model `outputText` is only ever set by the search, "No Solution" is only `Solve`'s return value, and `goodPathFound` is never set to true.
- The DOM and geometry helpers `findNodePos`, `changeNodeColor`, `addConnection`, `addEdgesToPath`, `buildConnections` and `onResize` are not modelled. They use browser APIs and floating-point pixel coordinates.
- The Angular lifecycle hooks, the injected services, the form, and the fields `problemInput`, `isMobile`, `total`, `x`, `y`, `nodes`, `connections` and `unsub` are not modelled. They are framework plumbing, so `reset`'s clearing of `connections` and its unsubscription are left out too.
- Values are unbounded integers. JavaScript's floating-point products can round, overflow to Infinity or become NaN; here `target == mult` compares exact products.
- The target: the source keeps the target as text and `solve` reads it with `Number()`. Here it is the number itself, and `reset`'s empty text becomes 0, the value `Number('')` gives.
- Node ids are (row, column) pairs rather than the concatenated strings the source builds. The string form appears only in `Pyramid.StringId`, to show where it stops naming one cell (see Findings).
- App.AppComponent.BuildPyramid: the map is passed in and returned as a value. The source fills a `Map` the caller owns, in place, so aliasing of that map is not modelled.
- App.AppComponent.FindPath: the pyramid is a map value, and the input rows are a ghost parameter that describes it. Inputs whose row i has fewer than i + 1 entries are excluded by the precondition. On such input the source throws a TypeError when the search goes into a missing child: at line 236 for a missing left child, at line 244 for a missing right one. If an earlier branch succeeds first, it answers normally; rows [[1], [2]] with target 2 answer "L". Neither outcome is modelled.
- App.AppComponent.Solve: its precondition asks for well-shaped input rows, for the same reason as FindPath. An empty first row, on which the source answers "No Solution", is excluded too.

## Findings

| source | as written | input that shows it | evidently intended | confidence | as-written member | corrected member |
|---|---|---|---|---|---|---|
| src/app/app.component.ts:174 | Node ids are row and column digits concatenated, so two cells can share an id. The later `nodes.set` then replaces the earlier node. | Any triangle of at least 102 rows: cells (10, 10) and (101, 0) both get "1010". | One node per cell, with an id that names the cell alone. | not executed | Pyramid.StringIdsCollide | App.AppComponent.BuildPyramid |
