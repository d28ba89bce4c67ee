/**
 * Coordinates, cell values and the four unit moves shared by the maze
 * generator and both solvers (pathfinder/maze.h, and the local copies of
 * the direction tables in pathfinder/bfs.cpp and pathfinder/dijkstra.cpp).
 */
module Grid {

  /** A grid coordinate: column `x`, row `y` (the source's std::pair<int, int>). */
  datatype Pos = Pos(x: int, y: int)

  /** The value the solvers store as the parent of a cell that has none. */
  const NoParent: Pos := Pos(-1, -1)

  /** Cell values of the maze matrix. */
  const Wall: int := 0
  const Passage: int := 1

  /** Column and row offsets of the directions UP, RIGHT, DOWN, LEFT, in that order. */
  const DX: seq<int> := [0, 1, 0, -1]
  const DY: seq<int> := [-1, 0, 1, 0]

  /** The magnitude of an offset. */
  function Abs(n: int): (m: nat) {
    if n < 0 then -n else n
  }

  /** Two cells are neighbours when they differ by one unit step along one axis. */
  predicate Adjacent(p: Pos, q: Pos) {
    Abs(p.x - q.x) + Abs(p.y - q.y) == 1
  }

  /** The neighbour of `p` in direction `d`. */
  function Step(p: Pos, d: int): (q: Pos)
    requires 0 <= d < 4
    ensures Adjacent(p, q)
  {
    Pos(p.x + DX[d], p.y + DY[d])
  }

  /** The cell two steps away from `p` in direction `d`, as the generator moves from room to room. */
  function Jump(p: Pos, d: int): (q: Pos)
    requires 0 <= d < 4
    ensures q == Step(Step(p, d), d)
    ensures Abs(p.x - q.x) + Abs(p.y - q.y) == 2
  {
    Pos(p.x + DX[d] * 2, p.y + DY[d] * 2)
  }

  /** Every neighbour of `p` is reached by one of the four directions, so a
      loop over the direction tables visits all of them. */
  lemma DirectionOf(p: Pos, q: Pos) returns (d: int)
    requires Adjacent(p, q)
    ensures 0 <= d < 4 && q == Step(p, d)
  {
    if q.y < p.y {
      d := 0;
    } else if q.x > p.x {
      d := 1;
    } else if q.y > p.y {
      d := 2;
    } else {
      d := 3;
    }
  }

  /** The cells of a `width` by `height` grid. */
  ghost function Cells(width: int, height: int): (cells: set<Pos>) {
    set x, y | 0 <= x < width && 0 <= y < height :: Pos(x, y)
  }
}
