# pathfinder maze model

This project models the core of pathfinder, a small C++ program that carves
mazes and solves them by breadth-first search and by Dijkstra's algorithm.
Its demo `runDemo` builds and carves a 51×51 maze; the BFS and Dijkstra
demos that `main` calls are not among the source files. The model is
written in Dafny and verified.

- `grid.dfy` (module `Grid`): cells as `Pos(x, y)`, the wall and passage values (0 and 1), and the
  direction tables UP, RIGHT, DOWN, LEFT shared by the generator and both solvers.
- `maze.dfy` (module `MazeModel`): class `Maze` holds the `grid` and
  `visited` matrices as two-dimensional arrays. It has the constructor, `isValid`, `getStart`,
  `getEnd`, `resetVisited` and the randomized depth-first generator
  `generateMaze`. One step of the generator is `CarveFrom`; the carving itself is `OpenPassage`.
- `paths.dfy` (module `Paths`): walks through the passage cells, shortest
  walks and the parent matrix that both solvers fill. It also holds the path
  reconstruction the two solvers share: follow the parent links, then reverse.
  The search lemmas live here too; both optimality proofs rest on them.
- `bfs.dfy` (module `Bfs`): `solveBFS` with its FIFO queue. Each cell is marked visited when it is
  enqueued, and its parent is recorded at that point.
- `dijkstra.dfy` (module `Dijkstra`): `solveDijkstra` with its distance matrix and a
  min-heap of `(dist, (x, y))` entries. The heap uses lazy deletion: an entry whose cell is already
  visited is dropped when popped. Edges have unit weight.
- `compare.dfy` (module `Compare`): both solvers run on one maze, and what they agree on.

The solvers' state is ghost bookkeeping next to the real matrices:
- a map `rank` or `depth` from labelled cells to their number of steps;
- for Dijkstra, the set `fin` of finalised cells and the order in which they were popped.

The loop invariants say that:
- the matrices agree with this bookkeeping;
- the parent links form a tree of the labels;
- every cell that has left the frontier is *closed*: each passage neighbour is labelled at most one
  step further.

The induction lemma `WalkMeetsFrontier` turns these invariants into shortest-walk guarantees, and
`UnreachableWhenAllClosed` turns them into unreachability guarantees. Walks are stated over
`Passages(grid)`, the set of passage cells; neither solver changes it.

## Model

| member | source | states |
|---|---|---|
| Grid.Step | pathfinder/maze.h:12-14 | moving by one entry of the dx/dy tables reaches a cell one unit step away along one axis |
| Grid.Jump | pathfinder/mazeGenerator.cpp:45-46 | the generator's candidate room is two steps in one direction: the neighbour of the neighbour, at distance 2 |
| Grid.DirectionOf | pathfinder/bfs.cpp:52-54 | every neighbour of a cell is reached by one of the four directions, so the neighbour loop examines all of them |
| MazeModel.OrderCovers | pathfinder/mazeGenerator.cpp:40-44 | a shuffled direction list contains every direction, so the generator tries all four before popping |
| MazeModel.NormalizeStart | pathfinder/mazeGenerator.cpp:22-25 | the normalised start coordinate is odd and at least 1, and it is the largest such value not above max(1, c) |
| MazeModel.Maze.constructor | pathfinder/mazeGenerator.cpp:10-14 | a new maze has the given width and height, every grid cell a wall and no cell visited |
| MazeModel.Maze.IsValid | pathfinder/mazeGenerator.cpp:16-18 | holds exactly for the coordinates that index both matrices |
| MazeModel.Maze.Start | pathfinder/maze.h:27 | the entrance is (0, 1), on the left edge; it is inside the maze exactly when width >= 1 and height >= 2 |
| MazeModel.Maze.End | pathfinder/maze.h:28 | the exit is (width - 1, height - 2), on the right edge; it is inside the maze exactly when width >= 1 and height >= 2 |
| MazeModel.Maze.ResetVisited | pathfinder/mazeGenerator.cpp:83-87 | afterwards every visited mark is false whatever it was before, so a second call changes nothing; grid is outside its frame |
| MazeModel.Maze.GenerateMaze | pathfinder/mazeGenerator.cpp:20-67 | for every sequence of direction orders: terminates; cells only change from wall to passage; every changed cell has an odd coordinate or is the exit; the normalised start, the entrance and the exit are passages; visited is outside its frame |
| MazeModel.Maze.CarveFrom | pathfinder/mazeGenerator.cpp:36-61 | one step of the generator either carves at the first direction of the given order whose room two cells away is in bounds and still a wall (every earlier direction was blocked), after which that room is a passage at odd coordinates, the in-bounds wall cell between is a passage, fewer walls remain and only those two cells changed; or it changes nothing, and then every room two cells away is out of bounds or already a passage |
| MazeModel.Maze.OpenPassage | pathfinder/mazeGenerator.cpp:48-51 | opening a wall room two cells away also opens the in-bounds cell between; it only turns walls into passages, strictly shrinks the set of walls, and changes no cell other than those two |
| MazeModel.Maze.OpenCell | pathfinder/mazeGenerator.cpp:50-51 | setting one in-bounds cell to 1 makes it a passage, removes exactly that cell from the walls and changes no other cell |
| Paths.PassagesAround | pathfinder/bfs.cpp:56 | membership of a neighbour in the passage set is exactly the bounds test together with grid == 1 |
| Paths.ClosedByDirections | pathfinder/bfs.cpp:52-61 | a cell whose neighbour in each of the four directions is labelled at most one step further is closed |
| Paths.FollowParents | pathfinder/bfs.cpp:37-45 | following parent links from the end until (-1, -1) collects one cell per step of the end's label; it starts at the end, stops at the start, and each cell is a passage next to the one before |
| Paths.Reverse | pathfinder/bfs.cpp:47 | the result is the input in reverse order |
| Paths.ReconstructPath | pathfinder/dijkstra.cpp:47-61 | the rebuilt path is a walk from start to end with one cell per step of the end's label; it is [start] when end is the start |
| Paths.ClosedStaysClosed | pathfinder/dijkstra.cpp:72-75 | lowering recorded distances leaves a closed cell closed while its own distance is unchanged |
| Paths.WalkMeetsFrontier | pathfinder/bfs.cpp:28-61 | every walk from the start either ends at a cell labelled within its length, or passes a labelled cell that is not closed and is labelled within its length |
| Paths.UnreachableWhenAllClosed | pathfinder/bfs.cpp:64 | when every labelled cell is closed and the end has no label, no walk through passages leads from start to end |
| Paths.TreeWalk | pathfinder/dijkstra.cpp:72-75 | the parent links give every labelled cell a walk from the start with exactly one cell per step of its label |
| Paths.ShortestWalksAgree | pathfinder/main.cpp:6-11 | two shortest walks between the same cells have the same length |
| Bfs.SolveBFS | pathfinder/bfs.cpp:8-65 | a non-empty result is a shortest walk through passages from start to end; the result is empty exactly when the end is unreachable, an end outside the grid included; start == end gives [start] |
| Bfs.Initialise | pathfinder/bfs.cpp:11-26 | after the set-up, only the start is marked, queued and labelled 0, and every parent is (-1, -1) |
| Bfs.Dequeue | pathfinder/bfs.cpp:29-31 | popping the head keeps the invariant, now at the head's label |
| Bfs.LayeredAfterPop | pathfinder/bfs.cpp:29-31 | the queue's labels are non-decreasing and span at most two adjacent values, so the head has the least label |
| Bfs.NearestWhenDequeued | pathfinder/bfs.cpp:33-34 | when a cell is dequeued, no walk to it is shorter than its label |
| Bfs.ClosedAfterVisit | pathfinder/bfs.cpp:51-61 | after the neighbour loop every labelled cell out of the queue is closed |
| Bfs.Expand | pathfinder/bfs.cpp:51-61 | visiting the dequeued cell restores the invariant; the queue is the old queue followed by exactly the newly labelled cells, each a passage neighbour of the cell one step further with the cell as parent; every earlier label and every other parent is unchanged; either a cell is newly labelled or nothing changes and the queue is shorter |
| Bfs.StartVisiting | pathfinder/bfs.cpp:51-52 | before the neighbour loop nothing is queued or labelled yet and every parent equals its snapshot |
| Bfs.FinishVisit | pathfinder/bfs.cpp:51-61 | after all four directions the visited cell is closed and the search invariant holds again with the queue head removed; either a cell was newly labelled or the queue is shorter |
| Bfs.FewerUnlabelled | pathfinder/bfs.cpp:28-61 | when the queue grew, the set of unlabelled cells of the board shrank: the search terminates |
| Bfs.VisitNeighbours | pathfinder/bfs.cpp:52-61 | the neighbour loop takes the visit from no direction tried to all four: the queue is extended by exactly the new labels, each a passage neighbour one step further whose parent is the cell; the marks are exactly the labelled cells; every other parent keeps its value; all four neighbours end up labelled |
| Bfs.VisitNeighbour | pathfinder/bfs.cpp:53-60 | either nothing changes, or the neighbour in direction i had no label and is appended to the queue, labelled one step further, with the cell as parent; no other parent changes; afterwards that neighbour, if a passage, is labelled |
| Bfs.NotQueued | pathfinder/bfs.cpp:56 | a neighbour the test turns down (outside the grid, a wall, or marked) is, if a passage, already labelled at most one step further |
| Bfs.SkippedNext | pathfinder/bfs.cpp:56 | skipping a labelled neighbour keeps the queue layered and extended by exactly the new labels, for the next direction |
| Bfs.QueuedNext | pathfinder/bfs.cpp:57-59 | appending an unlabelled neighbour labelled one step further keeps the queue layered and extended by exactly the new labels, and labels that direction |
| Bfs.Enqueue | pathfinder/bfs.cpp:56-59 | the enqueued neighbour had no label yet; it is marked, gets the current cell as parent and is appended to the queue one step further; no other mark or parent changes |
| Bfs.Mark | pathfinder/bfs.cpp:57 | marking the neighbour adds exactly that cell to the marked cells; no other mark changes |
| Bfs.Adopt | pathfinder/bfs.cpp:58 | the neighbour gets the current cell as parent, the parent tree covers its new label, and no other parent changes |
| Dijkstra.ExtractMin | pathfinder/dijkstra.cpp:36-41 | returns an entry of the heap that is least in the lexicographic (dist, x, y) order; the rest is the heap minus exactly that one entry |
| Dijkstra.SolveDijkstra | pathfinder/dijkstra.cpp:10-82 | a non-empty result is a shortest walk from start to end and its length minus 1 is the end's distance; the result is empty exactly when the end is unreachable, an end outside the grid included; start == end gives [start]; cells are finalised at most once, in order of non-decreasing distance, each at its true passage distance; the visited marks are exactly the finalised cells |
| Dijkstra.Initialise | pathfinder/dijkstra.cpp:13-34 | every distance is INT_MAX except the start's 0, every parent is (-1, -1), nothing is marked, and the heap holds (0, start) only |
| Dijkstra.SkipStale | pathfinder/dijkstra.cpp:43 | dropping a popped entry whose cell is already visited keeps the invariant |
| Dijkstra.Finalise | pathfinder/dijkstra.cpp:43-44 | a popped unvisited cell is marked and joins the finalisation order at the popped distance; that distance equals its recorded distance, is no smaller than any earlier one, and no walk to the cell is shorter |
| Dijkstra.NearestWhenPopped | pathfinder/dijkstra.cpp:36-44 | the least heap entry for an unfinalised cell carries that cell's recorded distance, and no walk to the cell is shorter |
| Dijkstra.PopKeepsLive | pathfinder/dijkstra.cpp:41-44 | after the pop, every recorded but unfinalised distance still has its entry in the heap |
| Dijkstra.FoundShortest | pathfinder/dijkstra.cpp:47-61 | a walk of distance-plus-one cells that no walk beats is a shortest walk |
| Dijkstra.Exhausted | pathfinder/dijkstra.cpp:81 | when the heap runs empty before the end is finalised, the end is unreachable |
| Dijkstra.Outcome | pathfinder/dijkstra.cpp:43-61 | finalised cells are listed once each, in non-decreasing distance, each at its true passage distance; the visited marks are exactly those cells |
| Dijkstra.StillSettled | pathfinder/dijkstra.cpp:69-76 | relaxation leaves finalised distances and the order's monotonicity intact |
| Dijkstra.StillClosed | pathfinder/dijkstra.cpp:64-78 | after relaxing the neighbours of the finalised cell, it and every earlier finalised cell are closed |
| Dijkstra.Expand | pathfinder/dijkstra.cpp:64-78 | the relaxation step restores the loop invariant with the cell closed; only passage neighbours of the cell get a new distance, each currentDist + 1 and below the one it had, with the cell as parent; every other distance and parent is unchanged; the heap is the old heap followed by an entry (currentDist + 1, p) for exactly the changed cells |
| Dijkstra.StartRelaxing | pathfinder/dijkstra.cpp:64-65 | before the neighbour loop no distance, heap entry or parent has changed |
| Dijkstra.FinishRelaxing | pathfinder/dijkstra.cpp:64-78 | after all four directions finalised distances are unchanged, the cell is closed, and the search invariant holds again |
| Dijkstra.RelaxNeighbours | pathfinder/dijkstra.cpp:65-78 | the neighbour loop takes the relaxation from no direction tried to all four: distances only go down, and only for passage neighbours of the cell, each to currentDist + 1 with the cell as parent; the matrices follow the distances; the heap is extended by exactly the changed cells; every passage neighbour ends at most one step above the cell |
| Dijkstra.RelaxNeighbour | pathfinder/dijkstra.cpp:66-77 | either nothing changes (distances, heap and both matrices), or the neighbour in direction i is a passage whose distance becomes currentDist + 1, whose parent becomes the cell and whose entry (currentDist + 1, neighbour) is pushed; no other parent changes; if the distances are unchanged so is the heap |
| Dijkstra.Skipped | pathfinder/dijkstra.cpp:69-72 | a neighbour the tests turn down (not an in-bounds passage, or newDist not below its distance) is, if a passage, already at a distance of at most currentDist + 1 |
| Dijkstra.Lower | pathfinder/dijkstra.cpp:72-75 | the neighbour is not finalised; its distance strictly decreases to newDist, its parent becomes the current cell and (newDist, neighbour) is pushed; no other distance or parent changes |
| Dijkstra.LoweredNext | pathfinder/dijkstra.cpp:72-75 | lowering the neighbour and pushing its entry keeps the relaxation invariant for the next direction; the neighbour was not finalised and its distance changed |
| Dijkstra.LowerOne | pathfinder/dijkstra.cpp:73 | setting a passage neighbour to currentDist + 1, below its distance, keeps distances changed only next to the cell and only downwards |
| Dijkstra.PushedNext | pathfinder/dijkstra.cpp:75 | after the push every heap entry is no better than its cell's distance, every unfinalised distance has its entry, and the heap is extended by exactly the changed cells |
| Dijkstra.Record | pathfinder/dijkstra.cpp:73 | the distance matrix follows the distances with the neighbour's updated; no other entry changes |
| Dijkstra.Repoint | pathfinder/dijkstra.cpp:74 | the neighbour's parent becomes the finalised cell, the parent tree covers the new distance, and no other parent changes |
| Compare.SolveBoth | pathfinder/main.cpp:6 | main.cpp:6 announces running both algorithms and comparing their results; on one maze, both find a path in the same cases and their paths have the same length |

## Left out

- `Maze::display`, `displaySolution` and `analyzeSolution` of both solvers, and the Graphviz writers, are terminal output or file output and are not modelled. `mazeDisplay.cpp`, `bfsGraphDrawer.cpp`, `dijkstraGraphDrawer.cpp`, `dijkstraDraphDrawer.cpp` and `graphDrawer.cpp` are not part of this model.
- `demo::runDemo`, `runBFSDemo`, `runDijkstraDemo` and `main` are not modelled. `main` calls `runBFSDemo` and then `runDijkstraDemo`, prints a separator between them and maps exceptions to exit codes (pathfinder/main.cpp:7-21). `demo::runDemo` builds and carves a `Maze(51, 51)`, solves it by BFS only, writes the Graphviz file `graphDrawer.gv` through `graph::drawGraph` (pathfinder/mazeGenerator.cpp:89-104) and prints the result; it maps no exceptions. `runBFSDemo` and `runDijkstraDemo` are declared and defined in none of the source files, so what they do is not known here. `Compare.SolveBoth` models none of these functions: it states, on one maze, the agreement of the two solvers, which the program never checks.
- The random number generator (`std::random_device`, `std::mt19937`, `std::shuffle`) is not modelled. `GenerateMaze` instead takes `shuffle(k)`, the direction order of its k-th step, and holds for every such sequence.
- MazeModel.Maze.GenerateMaze: it does not prove that every odd room ends up a passage, nor that the maze is connected. Its contract covers termination, monotonicity, parity and the entrance and exit.
- MazeModel.Maze.GenerateMaze: it requires the normalised start to be inside the grid. The source writes `grid[startY][startX]` without a check, so a start outside the grid is undefined behaviour rather than an error path.
- Bfs.SolveBFS and Dijkstra.SolveDijkstra: both require the start inside the grid, because the source indexes the matrices with it unchecked (pathfinder/bfs.cpp:26, pathfinder/dijkstra.cpp:33) and has no error result. The end is only compared with popped cells, so an end outside the grid is allowed; it is unreachable, and both solvers return the empty sequence, as the source does.
- Dijkstra.SolveDijkstra: `currentDist + 1` never reaches `INT_MAX` here. Integers are unbounded and "no distance yet" is the constructor `Dist.Inf`, so a 32-bit overflow is not modelled.
- `std::queue` and `std::priority_queue` are sequences. `ExtractMin` scans for the lexicographically least entry. A binary heap's internal layout, and which of several equal entries it would return, are not modelled; entries equal in `(dist, x, y)` are indistinguishable.
- `std::reverse` works in place. `Reverse` builds the reversed sequence as a new value.
- The accessors `getWidth`, `getHeight`, `getGrid` and `getVisited` are direct reads of the fields. The model declares `width`, `height`, `grid` and `visited` as `const` fields because no source method reassigns them (pathfinder/maze.h:9-11 declares them non-const); only the elements of the two matrices change. The solvers write through `maze.visited` just as the source writes through the reference `getVisited` returns.
- The class's `dx`/`dy` members and the solvers' local copies are one pair of tables, `Grid.DX` and `Grid.DY`.
- Bfs.SolveBFS: "each cell enters the queue at most once" is stated by `Bfs.Enqueue` and not as a postcondition of the whole search.
- MazeModel.Maze.constructor: takes `nat` dimensions. `Maze(int, int)` with a negative dimension makes the `std::vector` resize throw (pathfinder/mazeGenerator.cpp:12-13); that error path is not modelled.
