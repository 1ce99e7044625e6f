# Maze solver core, modelled in Dafny

This project models the maze-solving pipeline of the `Maze` class in
`main.cpp` (a bot for the Noops "mazebot" race). It leaves out the JSON
parsing, the HTTP transport and the console output. The pipeline has three
stages:

1. **Grid-to-graph compaction** (`makeNodes`, `addNode`). The square grid is
   scanned in row-major order. A `MazeNode` is created for the start cell,
   for the end cell, and for every open cell that has an open vertical
   neighbour and an open horizontal neighbour. Cells outside the grid count
   as walls. Each new node is linked backwards only:
   - to the nearest earlier node up its column, through the `left`/`right`
     pair;
   - to the nearest earlier node along its row, through the `up`/`down` pair.

   A wall between the two nodes breaks the link. The link names are swapped
   with respect to geometry, as in the program.
2. **Search** (`solveBreadth`, `scanNode`, `vectHolds`). The frontier is a
   last-in-first-out stack, so the traversal is depth-first despite its
   name. A popped node's links are scanned in the order left, right, up,
   down. A linked node that is not in the visited list is pushed, and its
   predecessor `distanceUsing` is set to the popped node. The popped node is
   then appended to the visited list. The end node is detected on top of
   the stack, before popping.
3. **Encoding** (`generateDistanceUsingResult`). The predecessor chain is
   walked from the end node back to the start node. Each step becomes a run
   of one letter, repeated as often as the coordinates differ:
   - `S` when the predecessor's row is smaller, `N` when it is larger;
   - otherwise `E` or `W`, by column.

   Each run is prepended, so the answer reads from start to end.

Modules:

- `Wrappers` (wrappers.dfy): `Option`, which stands for a null pointer, and
  `Result`, which carries the error strings.
- `MazeGrid` (grid.dfy): the input `Layout`, the node-creation predicate
  `HasNode`, and the backward scans `ColumnPartner`/`RowPartner` as
  specification functions.
- `MazeGraph` (graph.dfy): `MazeNode`, plus the invariants of the graph
  built so far (back links, symmetry, table/arena agreement) and the lemmas
  that one `addNode` preserves them.
- `PathEncoding` (encoding.dfy): the encoder as a function `EncodeChain`
  over a predecessor chain, replaying an answer on the grid, and the
  round-trip lemma.
- `MazeSearch` (search.dfy): the loop invariant of `solveBreadth`, how one
  expansion keeps it, why the loop terminates, and why an exhausted stack
  means the end node cannot be reached along links.
- `MazeRoute` (route.dfy): why the answer never leads through a wall.
- `MazeSolver` (maze.dfy): the `Maze` class with its methods, and
  `SolveMaze`, which chains the constructor, `MakeNodes` and
  `SolveBreadth`.

Representation choices:

- Nodes live in an arena `nodes: seq<MazeNode>` and refer to each other by
  index. `Option<nat>` stands for a pointer that may be null.
- `nodeGrid` is an `array2<int>` that holds a node's index, or -1 for
  `nullptr`.
- The grid is `seq<seq<char>>`, indexed `grid[row][col]`, with one
  character per cell. In `main.cpp` each cell is a JSON string, and only its
  first character is ever compared with `'X'` (main.cpp:176, 185, 255,
  258-263). So one character per cell is exactly what the program looks at.
  `'X'` is a wall. The start is `(col = fromX, row = fromY)`.
- The stacks are sequences whose last element is the top.

`addNode` runs its two backward scans before storing the new node. This
order does not matter, because the scans only read cells strictly before
the new one.

## Model

| member | source | states |
|---|---|---|
| `MazeSolver.Maze.constructor` | main.cpp:113-125 | The node table is `sideSize × sideSize`, every entry is null (-1), and there are no nodes yet. |
| `MazeSolver.Maze.AddNode` | main.cpp:170-193 | The new node gets the next arena index, which is stored in its cell of the table. No other table entry changes. The arena becomes `Linked(old nodes, …)` with the results of the upward scan and the leftward scan. |
| `MazeGraph.Linked` | main.cpp:172-191 | The node is appended with `left` := node found above and `up` := node found to the left. The node above gets `right` pointing back at it, and the node to the left gets `down`. All other fields of all other nodes are unchanged. |
| `MazeSolver.Maze.ColumnScanFindsPartner` | main.cpp:175-182 | Over the cells scanned so far, the upward scan of `addNode` finds exactly the node of `ColumnPartner`. It finds none when a wall or the top edge comes first. |
| `MazeSolver.Maze.RowScanFindsPartner` | main.cpp:184-191 | The same as `ColumnScanFindsPartner`, for the leftward scan along the row. |
| `MazeGrid.ColumnPartnerIff` | main.cpp:175-182 | The upward scan returns row `x` exactly when these hold: `x` is an open node cell at or above the start row, and every cell between is open and has no node. |
| `MazeGrid.RowPartnerIff` | main.cpp:184-191 | The same as `ColumnPartnerIff`, for the leftward scan along a row. |
| `MazeGraph.AddStep` | main.cpp:170-193 | Adding the node of a node cell, linked to what the two scans found, preserves these invariants: every node sits on a scanned node cell; each `left`/`up` link is the nearest partner; `left`/`right` and `up`/`down` are mutually inverse. |
| `MazeGraph.AddKeepsTable` | main.cpp:172 | Recording the new node keeps the table and the arena inverse to each other. The table marks exactly the node cells scanned so far. |
| `MazeSolver.Maze.ScanCell` | main.cpp:240-252 | The start cell and the end cell always get a node, even on a wall, before any wall test. The scan invariant then covers one more cell. |
| `MazeSolver.Maze.RecordEnd` | main.cpp:240-250 | The node just added on the start cell becomes `startNode`; otherwise, on the end cell, it becomes `endNode`. The other endpoint is unchanged, and the scan invariant covers one more cell. |
| `MazeSolver.Maze.ScanInnerCell` | main.cpp:254-268 | Any other cell gets a node exactly when `HasNode` holds: it is not `'X'`, one of its vertical neighbours is open, and one of its horizontal neighbours is open. Out-of-grid neighbours count as walls. |
| `MazeSolver.Maze.ScanRow` | main.cpp:238-270 | Scanning one row, cell by cell, extends the scan invariant from the start of the row to the start of the next. |
| `MazeSolver.Maze.BuiltNextRow` | main.cpp:237-238 | The state after the last cell of a row is the state before the first cell of the next row. |
| `MazeSolver.Maze.MakeNodes` | main.cpp:231-280 | Afterwards a cell has a node exactly when `HasNode` holds, and every such cell has one. `startNode` and `endNode` are the nodes on the start and end cells. The links are symmetric and well placed. No link crosses a wall, and every node other than the start and end nodes sits on an open cell. No two nodes share a cell. |
| `MazeGraph.TableOneNodePerCell` | main.cpp:172 | Because the table keeps one slot per cell and is inverse to the arena, no two nodes sit on the same cell. |
| `MazeGraph.GraphOpenLinks` | main.cpp:174-191 | In the built graph, every cell strictly between two linked nodes is open. |
| `MazeGraph.ColumnLinkSpan` | main.cpp:174-182 | If A.left == B, then B.right == A. B is above A in the same column, and every cell strictly between them is open and has no node. |
| `MazeGraph.RowLinkSpan` | main.cpp:183-191 | If A.up == B, then B.down == A. B is left of A on the same row, and every cell strictly between them is open and has no node. |
| `MazeGraph.GraphWellLinked` | main.cpp:170-193 | In the built graph, `left` is above and `right` is below in the same column. `up` is to the left and `down` to the right on the same row. |
| `MazeSolver.Maze.VectHolds` | main.cpp:283-286 | The result is true exactly when the pointer is not null and occurs in the vector (linear scan). |
| `MazeSolver.Maze.ScanNode` | main.cpp:289-310 | It pushes `toVisit` and sets its `distanceUsing` to `nodeFrom` exactly when `toVisit` is not null and not in `visitedStack`. Otherwise the stack and all predecessors are unchanged. |
| `MazeSolver.Maze.PopAndExpand` | main.cpp:384-392 | The top node is popped. Its links are scanned in the order left, right, up, down, pushing `Expansion(...)` with the popped node as their predecessor. The popped node is then appended to the visited list. |
| `MazeSearch.ExpandStep` | main.cpp:384-392 | One expansion keeps the search invariant. Visited nodes were reached from earlier visited nodes, and stacked nodes from visited nodes. A visited node on the stack has all its links visited or above it. |
| `MazeSearch.ExpansionKeepsVisited` | main.cpp:300-307 | An expansion never changes a visited node's predecessor. Every node it pushes gets the expanded node as predecessor. |
| `MazeSearch.RevisitPushesNothing` | main.cpp:300-303 | A node popped again after it was visited pushes nothing. |
| `MazeSearch.ExpandMeasure` | main.cpp:374-393 | Each iteration either visits a new node or shrinks the stack without visiting one, so the do-while loop terminates. |
| `MazeSearch.ChainFromVisited` | main.cpp:307 | From every visited node, the predecessor chain reaches `startNode` along links, through visited nodes only. |
| `MazeSearch.ExpandClosed` | main.cpp:384-392 | One expansion keeps the visited list closed: every link of a visited node is visited or still on the stack. |
| `MazeSearch.ClosedSameLinks` | main.cpp:307 | Setting predecessors does not change which visited lists are closed. |
| `MazeSearch.WalkStaysIn` | main.cpp:393-394 | A walk along links that starts in a closed visited list never leaves it. |
| `MazeSearch.ClosedBlocks` | main.cpp:393-394 | When the stack is empty and the visited list is closed, no node outside it is reachable from a visited node. |
| `MazeSearch.ReachableSameLinks` | main.cpp:307 | Reachability depends on the links only, not on the predecessors. |
| `MazeSearch.ChainFromTop` | main.cpp:378-381 | When the node on top of the stack is checked, its predecessor chain reaches `startNode` along links, through visited nodes only below the top. |
| `MazeSearch.LinkedChainAligned` | main.cpp:329-341 | Every step of a chain that follows links lies on one row or one column, between different cells. |
| `MazeSolver.Maze.SolveBreadth` | main.cpp:367-395 | The result is the failure `"ERR Didn't make it."` exactly when `endNode` cannot be reached from `startNode` along links. Otherwise it is the encoding of the predecessor chain from `endNode` to `startNode`, a walk along links that meets `endNode` only at its head. Replaying that encoding from the start node's cell lands on the end node's cell. Only predecessors change. |
| `PathEncoding.Repeat` | main.cpp:346-349 | The run has `n` letters, and all of them equal the given letter. |
| `PathEncoding.EncodeChain` | main.cpp:312-358 | A successful answer uses only the letters N, S, E and W. A failure is exactly `"ERR - nodes appear to be in same place?"`. |
| `MazeSolver.Maze.GenerateDistanceUsingResult` | main.cpp:312-358 | Walking `distanceUsing` from `endNode` to `startNode`, prepending each step's run, yields exactly `EncodeChain` of that chain. The answer is `""` when the end is the start. |
| `PathEncoding.StepRunReplays` | main.cpp:329-349 | An axis-aligned step emits exactly as many letters as the cells it covers. Replaying them from the predecessor's cell lands on the node's cell. |
| `PathEncoding.EncodeChainReplays` | main.cpp:317-355 | When every step is axis-aligned, the encoder succeeds. The answer's length is the sum of the steps' Manhattan lengths. Replaying it from the start cell lands on the end cell. |
| `PathEncoding.EncodeChainFails` | main.cpp:329-344 | The encoder fails exactly when some node of the chain shares its cell with its predecessor. |
| `PathEncoding.ReplayAppend` | main.cpp:352 | Because runs are prepended, replaying a concatenation is replaying its parts in turn. |
| `PathEncoding.TraceAppend` | main.cpp:352 | The cells met along a concatenation are those met along its first part, then those along its second part. |
| `PathEncoding.TraceRepeat` | main.cpp:346-349 | A run of `n` copies of one letter meets, at its `i`-th step, the cell `i` steps away in that letter's direction. |
| `MazeRoute.StepRunOpen` | main.cpp:329-349 | The run emitted for one aligned step over open cells meets only open cells before its last. |
| `MazeRoute.EncodeChainAvoidsWalls` | main.cpp:312-358 | The encoding of an aligned chain whose steps cross no wall and whose inner nodes are open meets no wall strictly between its first and last cell. |
| `MazeRoute.SameLinksGeometry` | main.cpp:307 | Setting predecessors keeps link geometry, open links, open nodes and every node's cell. |
| `MazeRoute.AnswerAvoidsWalls` | main.cpp:312-358 | The encoding of a predecessor chain along the links of the built graph succeeds and meets no wall strictly between the start and end cells. |
| `MazeSolver.SolveMaze` | main.cpp:487-494 | For a valid maze, constructing, making nodes and searching returns `"ERR Didn't make it."` exactly when the end node cannot be reached along the links of the built graph. Otherwise it returns a string that leads from `(fromY, fromX)` to `(toY, toX)` and meets no wall in between. The built graph is returned as ghost output: it satisfies the scan invariant over the whole grid, has a node on every node cell, and has no two nodes on one cell. |

## Left out

- Fetching and posting mazes with libcurl (`WriteCallback`, `curlGET`,
  `curlPOST`), the `Racer` job file `maze.csv`, `Timer` and `main`. These are
  network, file and clock I/O. `SolveMaze` keeps only the three solving calls
  of `raceThisURL`.
- The rapidjson parsing in the `Maze` constructor is a foreign library. The
  grid, side size and start/end coordinates are plain inputs (`Layout`).
  `Layout.Valid` requires a square grid with the start and end inside it.
- Start equal to end is excluded by `Layout.Valid`. In that case `makeNodes`
  never assigns `endNode`, because of its `else if`.
- `printGridSimple`, `printGrid`, and the `cout`/`cerr` lines are console
  output.
- The `"O"` marker that `addNode` writes into the grid is not modelled.
  It never changes wall status: it is written only on open cells, and only
  `'X'` is tested.
- `simplifyNodes` is never called, and `solveDikstra` is an empty stub.
- The unused `distance` field of `MazeNode` is not modelled.
- `scanNode`'s `nodeFrom == nullptr` branch is not modelled. `solveBreadth`
  never passes a null `nodeFrom`, so the model uses a node index there.
- `generateDistanceUsingResult`'s `curNode == nullptr` branch (`"ERR"`) is
  not modelled. The method requires a ghost predecessor chain from `endNode`
  to `startNode` instead. Without one, the program dereferences a null
  predecessor before its null test, or loops forever. `SolveBreadth` always
  supplies the chain.
- `SolveBreadth` requires the link geometry that `MakeNodes` establishes
  (`WellLinked`). The termination argument uses the fact that no node links
  to itself.
- The answer's first and last cells are not proved open. `makeNodes` gives
  the start and end cells nodes even when they hold `'X'`, so the program
  does not promise it.
