/**
 * Both solvers on one maze. pathfinder/main.cpp announces running both
 * algorithms and comparing their results; the demos it calls are not among
 * the source files. This module states what the two solvers agree on when
 * given the same maze.
 */
module Compare {
  import opened Grid
  import opened MazeModel
  import opened Paths
  import Bfs
  import Dijkstra

  /** The two solvers find a path in the same cases, and paths of the same
      length: both are shortest walks through the same passages. */
  method SolveBoth(maze: Maze, startX: int, startY: int, endX: int, endY: int)
    returns (bfsPath: seq<Pos>, dijkstraPath: seq<Pos>)
    requires maze.Valid()
    requires maze.IsValid(startX, startY)
    modifies maze.visited
    ensures bfsPath == [] <==> dijkstraPath == []
    ensures |bfsPath| == |dijkstraPath|
  {
    bfsPath := Bfs.SolveBFS(maze, startX, startY, endX, endY);
    var path, order, dist := Dijkstra.SolveDijkstra(maze, startX, startY, endX, endY);
    dijkstraPath := path;
    if bfsPath != [] {
      ShortestWalksAgree(Passages(maze.grid), Pos(startX, startY), Pos(endX, endY), bfsPath, dijkstraPath);
    }
  }
}
