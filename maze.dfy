/**
 * The maze grid and its generator (class Maze of pathfinder/maze.h with the
 * methods of pathfinder/mazeGenerator.cpp).
 */
module MazeModel {
  import opened Grid

  /** A coordinate the generator uses for rooms. */
  predicate Odd(n: int) {
    n % 2 == 1
  }

  /** A visiting order of the four directions: a permutation of 0, 1, 2, 3.
      It stands for the result of std::shuffle in one step of the generator. */
  predicate IsOrder(s: seq<int>) {
    && |s| == 4
    && (forall i :: 0 <= i < 4 ==> 0 <= s[i] < 4)
    && (forall i, j :: 0 <= i < j < 4 ==> s[i] != s[j])
  }

  type Order = s: seq<int> | IsOrder(s) witness [0, 1, 2, 3]

  /** A visiting order tries every direction. */
  lemma OrderCovers(s: Order, d: int) returns (i: int)
    requires 0 <= d < 4
    ensures 0 <= i < 4 && s[i] == d
  {
    if s[0] == d {
      i := 0;
    } else if s[1] == d {
      i := 1;
    } else if s[2] == d {
      i := 2;
    } else {
      i := 3;
    }
  }

  /** The generator's normalisation of one start coordinate: std::max(1, c),
      then one less if that is even. The result is the largest odd number
      that is at least 1 and at most max(1, c). */
  function NormalizeStart(c: int): (r: int)
    ensures r >= 1 && Odd(r)
    ensures r <= (if c < 1 then 1 else c) < r + 2
  {
    var m := if 1 < c then c else 1;
    if m % 2 == 0 then m - 1 else m
  }

  class Maze {
    const width: int
    const height: int
    /** grid[y, x] is Wall (0) or Passage (1). */
    const grid: array2<int>
    /** Scratch marks of the solvers, same shape as grid. */
    const visited: array2<bool>

    /** Both matrices are height rows of width columns. */
    ghost predicate Shaped() {
      && grid.Length0 == height && grid.Length1 == width
      && visited.Length0 == height && visited.Length1 == width
    }

    ghost predicate Valid()
      reads grid
    {
      && Shaped()
      && forall y, x :: 0 <= y < height && 0 <= x < width ==> grid[y, x] == Wall || grid[y, x] == Passage
    }

    /** Maze(w, h): every cell a wall, nothing visited. */
    constructor (w: nat, h: nat)
      ensures width == w && height == h && Valid()
      ensures fresh(grid) && fresh(visited)
      ensures forall y, x :: 0 <= y < h && 0 <= x < w ==> grid[y, x] == Wall && !visited[y, x]
    {
      width, height := w, h;
      grid := new int[h, w]((y, x) => Wall);
      visited := new bool[h, w]((y, x) => false);
    }

    /** isValid: exactly the coordinates that index both matrices. */
    predicate IsValid(x: int, y: int)
      ensures Shaped() ==>
        (IsValid(x, y) <==> 0 <= y < grid.Length0 && 0 <= x < grid.Length1 && 0 <= y < visited.Length0 && 0 <= x < visited.Length1)
    {
      x >= 0 && x < width && y >= 0 && y < height
    }

    /** getStart: the entrance on the left edge. */
    function Start(): (p: Pos)
      ensures IsValid(p.x, p.y) <==> width >= 1 && height >= 2
      ensures p.x == 0
    {
      Pos(0, 1)
    }

    /** getEnd: the exit on the right edge. */
    function End(): (p: Pos)
      ensures IsValid(p.x, p.y) <==> width >= 1 && height >= 2
      ensures p.x == width - 1
    {
      Pos(width - 1, height - 2)
    }

    /** resetVisited: clears every mark; the new contents do not depend on
        the old ones, so a second call changes nothing. */
    method ResetVisited()
      modifies visited
      ensures forall y, x :: 0 <= y < visited.Length0 && 0 <= x < visited.Length1 ==> !visited[y, x]
    {
      var y := 0;
      while y < visited.Length0
        invariant 0 <= y <= visited.Length0
        invariant forall i, j :: 0 <= i < y && 0 <= j < visited.Length1 ==> !visited[i, j]
      {
        var x := 0;
        while x < visited.Length1
          invariant 0 <= x <= visited.Length1
          invariant forall i, j :: 0 <= i < y && 0 <= j < visited.Length1 ==> !visited[i, j]
          invariant forall j :: 0 <= j < x ==> !visited[y, j]
        {
          visited[y, x] := false;
          x := x + 1;
        }
        y := y + 1;
      }
    }

    /** The wall cells: the generator's termination measure. */
    ghost function Walls(): (walls: set<Pos>)
      reads grid
    {
      set x, y | 0 <= y < grid.Length0 && 0 <= x < grid.Length1 && grid[y, x] == Wall :: Pos(x, y)
    }

    /** A stack entry of the generator: an in-bounds passage at odd coordinates. */
    ghost predicate IsRoom(p: Pos)
      reads grid
    {
      IsValid(p.x, p.y) && Shaped() && Odd(p.x) && Odd(p.y) && grid[p.y, p.x] == Passage
    }

    /** A cell the generator may open: a room, or a wall between two rooms
        (never a cell with both coordinates even). */
    ghost predicate Carvable(x: int, y: int) {
      Odd(x) || Odd(y)
    }

    /** What a run of the generator may do to the grid: open walls (and
        nothing else), each at a cell with at least one odd coordinate. */
    twostate predicate OnlyOpened()
      reads grid
    {
      forall y, x :: 0 <= y < grid.Length0 && 0 <= x < grid.Length1 && old(grid[y, x]) != grid[y, x] ==>
        old(grid[y, x]) == Wall && grid[y, x] == Passage && Carvable(x, y)
    }

    /** generateMaze: randomized depth-first carving. shuffle(k) is the
        direction order std::shuffle produced in the k-th step. */
    method GenerateMaze(shuffle: nat -> Order, startX: int := 1, startY: int := 1)
      requires Valid()
      requires NormalizeStart(startX) < width && NormalizeStart(startY) < height
      modifies grid
      ensures Valid()
      ensures forall y, x :: 0 <= y < height && 0 <= x < width ==>
        grid[y, x] == old(grid[y, x]) || (old(grid[y, x]) == Wall && grid[y, x] == Passage)
      ensures forall y, x :: 0 <= y < height && 0 <= x < width && old(grid[y, x]) != grid[y, x] ==>
        Carvable(x, y) || Pos(x, y) == End()
      ensures grid[NormalizeStart(startY), NormalizeStart(startX)] == Passage
      ensures grid[Start().y, Start().x] == Passage && grid[End().y, End().x] == Passage
    {
      var sx := NormalizeStart(startX);
      var sy := NormalizeStart(startY);

      var stack: seq<Pos> := [];
      grid[sy, sx] := Passage;
      stack := stack + [Pos(sx, sy)];

      var step: nat := 0;
      while stack != []
        invariant Valid() && OnlyOpened()
        invariant forall i :: 0 <= i < |stack| ==> IsRoom(stack[i])
        invariant grid[sy, sx] == Passage
        decreases Walls(), |stack|
      {
        var top := stack[|stack| - 1];
        var directions := shuffle(step);
        step := step + 1;

        var found, next := CarveFrom(top, directions);
        if found {
          stack := stack + [next];
        } else {
          stack := stack[..|stack| - 1];
        }
      }

      // Open the two border cells
      grid[1, 0] := Passage;
      grid[height - 2, width - 1] := Passage;
    }

    /** The room two cells away from `top` in direction `d` cannot be
        opened: it is out of bounds or already a passage. */
    ghost predicate Blocked(top: Pos, d: int)
      reads grid
      requires 0 <= d < 4
    {
      var c := Jump(top, d);
      !IsValid(c.x, c.y) || !Shaped() || grid[c.y, c.x] != Wall
    }

    /** Every cell other than the wall between `top` and the room two cells
        away in direction `d`, and that room, is as it was. */
    twostate predicate OnlyCarved(top: Pos, d: int)
      reads grid
      requires 0 <= d < 4
    {
      forall y, x :: 0 <= y < grid.Length0 && 0 <= x < grid.Length1 && Pos(x, y) != Step(top, d) && Pos(x, y) != Jump(top, d) ==>
        grid[y, x] == old(grid[y, x])
    }

    /** One step of the generator: tries the four directions in the given
        order and, at the first room two cells away that is in bounds and
        still a wall, opens it and the wall cell between. */
    method CarveFrom(top: Pos, directions: Order) returns (found: bool, next: Pos)
      requires Valid() && IsRoom(top)
      modifies grid
      ensures Valid() && OnlyOpened()
      ensures found ==> IsRoom(next) && Walls() < old(Walls())
      ensures found ==> exists k ::
        && 0 <= k < 4 && next == Jump(top, directions[k]) && !old(Blocked(top, directions[k]))
        && (forall j :: 0 <= j < k ==> old(Blocked(top, directions[j])))
        && IsValid(Step(top, directions[k]).x, Step(top, directions[k]).y)
        && grid[Step(top, directions[k]).y, Step(top, directions[k]).x] == Passage
        && OnlyCarved(top, directions[k])
      ensures !found ==> unchanged(grid)
      ensures !found ==> forall d :: 0 <= d < 4 ==> Blocked(top, d)
    {
      found, next := false, top;
      var k := 0;
      while k < 4 && !found
        invariant 0 <= k <= 4
        invariant Valid() && OnlyOpened()
        invariant !found ==> unchanged(grid)
        invariant !found ==> forall i :: 0 <= i < k ==> Blocked(top, directions[i])
        invariant found ==> IsRoom(next) && Walls() < old(Walls())
        invariant found ==> exists k' ::
          && 0 <= k' < k && next == Jump(top, directions[k']) && !old(Blocked(top, directions[k']))
          && (forall j :: 0 <= j < k' ==> old(Blocked(top, directions[j])))
          && IsValid(Step(top, directions[k']).x, Step(top, directions[k']).y)
          && grid[Step(top, directions[k']).y, Step(top, directions[k']).x] == Passage
          && OnlyCarved(top, directions[k'])
      {
        var dir := directions[k];
        var candidate := Jump(top, dir);
        if IsValid(candidate.x, candidate.y) && grid[candidate.y, candidate.x] == Wall {
          assert !old(Blocked(top, dir));
          OpenPassage(top, dir);
          next, found := candidate, true;
        }
        k := k + 1;
      }
      if !found {
        forall d | 0 <= d < 4 ensures Blocked(top, d) {
          var i := OrderCovers(directions, d);
        }
      }
    }

    /** The carving itself: the wall between `top` and the room two cells
        away in direction `dir` and that room both become passages. */
    method OpenPassage(top: Pos, dir: int)
      requires Valid() && IsRoom(top) && 0 <= dir < 4
      requires IsValid(Jump(top, dir).x, Jump(top, dir).y) && grid[Jump(top, dir).y, Jump(top, dir).x] == Wall
      modifies grid
      ensures Valid() && OnlyOpened()
      ensures IsRoom(Jump(top, dir)) && Walls() < old(Walls())
      ensures IsValid(Step(top, dir).x, Step(top, dir).y) && grid[Step(top, dir).y, Step(top, dir).x] == Passage
      ensures OnlyCarved(top, dir)
    {
      var candidate := Jump(top, dir);
      var between := Step(top, dir);
      OpenCell(between);
      OpenCell(candidate);
    }

    /** grid[y][x] = 1 on one cell the generator may open: that cell is no
        longer a wall and no other cell changes. */
    method OpenCell(p: Pos)
      requires Valid() && IsValid(p.x, p.y) && Carvable(p.x, p.y)
      modifies grid
      ensures Valid() && grid[p.y, p.x] == Passage && Walls() == old(Walls()) - {p}
      ensures forall y, x :: 0 <= y < grid.Length0 && 0 <= x < grid.Length1 && Pos(x, y) != p ==> grid[y, x] == old(grid[y, x])
    {
      grid[p.y, p.x] := Passage;
    }
  }
}
