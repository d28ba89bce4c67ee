/**
 * Breadth-first search over the maze (BFSSolver::solveBFS of
 * pathfinder/bfs.cpp): FIFO frontier, cells marked visited when they are
 * enqueued, parent links, path rebuilt from the parent links.
 */
module Bfs {
  import opened Grid
  import opened MazeModel
  import opened Paths

  /** The frontier's labels: every queued cell is labelled `level` or
      `level + 1`, in non-decreasing order, and no labelled cell is further
      than `level + 1`. */
  ghost predicate Layered(q: seq<Pos>, depth: map<Pos, nat>, level: nat) {
    && (forall i :: 0 <= i < |q| ==> q[i] in depth && level <= depth[q[i]] <= level + 1)
    && (forall i, j :: 0 <= i <= j < |q| ==> depth[q[i]] <= depth[q[j]])
    && (forall p :: p in depth ==> depth[p] <= level + 1)
  }

  /** The loop invariant of solveBFS: the marked cells are the labelled
      ones, the parent links form a tree of the labels, the queue is
      layered, and every labelled cell that has left the queue is closed. */
  ghost predicate Exploring(visited: array2<bool>, parent: array2<Pos>, open: set<Pos>, start: Pos,
                            q: seq<Pos>, depth: map<Pos, nat>, level: nat)
    reads visited, parent
  {
    && Marks(visited, depth.Keys)
    && ParentTree(open, parent, start, depth)
    && Layered(q, depth, level)
    && forall u :: u in depth && u !in q ==> Closed(open, depth, u)
  }

  /** solveBFS: returns a shortest walk from start to end through passages,
      or the empty sequence exactly when there is none. */
  method SolveBFS(maze: Maze, startX: int, startY: int, endX: int, endY: int) returns (path: seq<Pos>)
    requires maze.Valid()
    requires maze.IsValid(startX, startY)
    modifies maze.visited
    ensures path != [] ==> IsShortestWalk(Passages(maze.grid), Pos(startX, startY), Pos(endX, endY), path)
    ensures path == [] <==> !Reachable(Passages(maze.grid), Pos(startX, startY), Pos(endX, endY))
    ensures startX == endX && startY == endY ==> path == [Pos(startX, startY)]
  {
    var start, end := Pos(startX, startY), Pos(endX, endY);
    ghost var open := Passages(maze.grid);
    var visited := maze.visited;
    var q, parent, depth := Initialise(maze, start);
    ghost var level: nat := 0;

    while q != []
      invariant parent.Length0 == maze.height && parent.Length1 == maze.width
      invariant Exploring(visited, parent, open, start, q, depth, level)
      invariant end in depth ==> end in q
      decreases Cells(maze.width, maze.height) - depth.Keys, |q|
    {
      var cur := q[0];
      ghost var frontier := q;
      Dequeue(visited, parent, open, start, q, depth, level);
      q := q[1..];
      level := depth[cur];

      // The end is dequeued: rebuild the walk to it
      if cur == end {
        NearestWhenDequeued(open, start, depth, frontier);
        path := ReconstructPath(parent, end, open, start, depth);
        return;
      }

      PassagesAround(maze.grid, cur);
      q, depth := Expand(maze, parent, cur, q, frontier, open, start, end, depth);
    }

    // The queue ran dry without reaching the end
    path := [];
    UnreachableWhenAllClosed(open, start, end, depth);
  }

  /** The set-up of solveBFS: only the start marked, queued and labelled 0,
      and no parents. */
  method Initialise(maze: Maze, start: Pos) returns (q: seq<Pos>, parent: array2<Pos>, ghost depth: map<Pos, nat>)
    requires maze.Valid() && maze.IsValid(start.x, start.y)
    modifies maze.visited
    ensures fresh(parent) && parent.Length0 == maze.height && parent.Length1 == maze.width
    ensures q == [start] && depth == map[start := 0]
    ensures forall y, x :: 0 <= y < maze.height && 0 <= x < maze.width ==> parent[y, x] == NoParent
    ensures Exploring(maze.visited, parent, Passages(maze.grid), start, q, depth, 0)
  {
    maze.ResetVisited();
    q := [];
    parent := new Pos[maze.height, maze.width]((_, _) => NoParent);

    q := q + [start];
    label Cleared:
    maze.visited[start.y, start.x] := true;
    depth := map[start := 0];
    forall y, x | 0 <= y < maze.height && 0 <= x < maze.width ensures maze.visited[y, x] <==> Pos(x, y) in depth.Keys {
      if Pos(x, y) != start {
        assert old@Cleared(maze.visited[y, x]) == maze.visited[y, x];
      }
    }
  }

  /** Taking the head off the queue: the invariant holds at the head's
      label, and the rest of the queue is layered at that label. */
  lemma Dequeue(visited: array2<bool>, parent: array2<Pos>, open: set<Pos>, start: Pos, q: seq<Pos>, depth: map<Pos, nat>, level: nat)
    requires q != [] && Exploring(visited, parent, open, start, q, depth, level)
    ensures q[0] in depth
    ensures Exploring(visited, parent, open, start, q, depth, depth[q[0]])
    ensures Layered(q[1..], depth, depth[q[0]])
  {
    LayeredAfterPop(q, depth, level);
  }

  /** Dequeuing the head of the queue moves the level to the head's label. */
  lemma LayeredAfterPop(q: seq<Pos>, depth: map<Pos, nat>, level: nat)
    requires q != [] && Layered(q, depth, level)
    ensures Layered(q, depth, depth[q[0]]) && Layered(q[1..], depth, depth[q[0]])
  {
  }

  /** When `end` is dequeued, its label is the length of a shortest walk. */
  lemma NearestWhenDequeued(open: set<Pos>, start: Pos, depth: map<Pos, nat>, frontier: seq<Pos>)
    requires frontier != [] && frontier[0] in depth && start in depth && depth[start] == 0
    requires Layered(frontier, depth, depth[frontier[0]])
    requires forall u :: u in depth && u !in frontier ==> Closed(open, depth, u)
    ensures forall w :: WalkBetween(open, start, frontier[0], w) ==> |w| >= depth[frontier[0]] + 1
  {
    var closed := set u | u in depth && u !in frontier;
    forall w | WalkBetween(open, start, frontier[0], w) ensures |w| >= depth[frontier[0]] + 1 {
      WalkMeetsFrontier(open, start, depth, closed, w);
    }
  }

  /** After the head of the frontier is visited, every labelled cell out
      of the queue is closed: the head by the visit, the others because
      their labels did not change. */
  lemma ClosedAfterVisit(open: set<Pos>, depth0: map<Pos, nat>, depth: map<Pos, nat>, frontier: seq<Pos>, q: seq<Pos>)
    requires frontier != [] && forall k :: 0 < k < |frontier| ==> frontier[k] in q
    requires forall u :: u in depth0 && u !in frontier ==> Closed(open, depth0, u)
    requires forall p :: p in depth0 ==> p in depth && depth[p] == depth0[p]
    requires forall p :: p in depth && p !in depth0 ==> p in q
    requires frontier[0] in depth && Closed(open, depth, frontier[0])
    ensures forall u :: u in depth && u !in q ==> Closed(open, depth, u)
  {
    forall u | u in depth && u !in q ensures Closed(open, depth, u) {
      if u != frontier[0] {
        assert u in depth0 && u !in frontier;
        ClosedStaysClosed(open, depth0, depth, u);
      }
    }
  }

  /** The visit of `cur`, just dequeued from `frontier`: afterwards the
      queue is the rest of the frontier followed by the newly labelled cells,
      and the invariant holds again with `cur` closed. */
  method Expand(maze: Maze, parent: array2<Pos>, cur: Pos, q: seq<Pos>, ghost frontier: seq<Pos>,
                ghost open: set<Pos>, ghost start: Pos, ghost end: Pos, ghost depth: map<Pos, nat>)
    returns (q': seq<Pos>, ghost depth': map<Pos, nat>)
    requires frontier != [] && cur == frontier[0] && q == frontier[1..]
    requires maze.Valid() && OpenAround(maze.grid, open, cur)
    requires parent.Length0 == maze.height && parent.Length1 == maze.width
    requires frontier[0] in depth && Exploring(maze.visited, parent, open, start, frontier, depth, depth[frontier[0]])
    requires end in depth ==> end in frontier[1..]
    modifies maze.visited, parent
    ensures Exploring(maze.visited, parent, open, start, q', depth', depth[frontier[0]])
    ensures QueueExtended(q, q', depth, depth')
    ensures forall p :: p in depth ==> p in depth' && depth'[p] == depth[p]
    ensures ChildLabels(cur, depth, depth') && Adopted(parent, old(Snapshot(parent)), cur, depth, depth')
    ensures end in depth' ==> end in q'
    ensures || Cells(maze.width, maze.height) - depth'.Keys < Cells(maze.width, maze.height) - depth.Keys
            || (depth' == depth && |q'| < |frontier|)
  {
    LayeredAfterPop(frontier, depth, depth[cur]);
    ghost var p0 := Snapshot(parent);
    StartVisiting(maze.visited, parent, open, start, cur, q, depth);
    q', depth' := VisitNeighbours(maze, parent, cur, q, open, start, depth, p0);
    FinishVisit(maze.visited, parent, open, start, end, cur, frontier, q, q', depth, depth', p0);
  }

  /** After the neighbour loop the invariant of solveBFS holds again with
      `cur` closed, and either a cell was labelled or the queue is shorter. */
  lemma FinishVisit(visited: array2<bool>, parent: array2<Pos>, open: set<Pos>, start: Pos, end: Pos, cur: Pos,
                    frontier: seq<Pos>, q: seq<Pos>, q': seq<Pos>, depth: map<Pos, nat>, depth': map<Pos, nat>, p0: map<Pos, Pos>)
    requires frontier != [] && cur == frontier[0] && q == frontier[1..]
    requires Visiting(visited, parent, open, start, cur, 4, q, q', depth, depth', p0)
    requires forall u :: u in depth && u !in frontier ==> Closed(open, depth, u)
    requires end in depth ==> end in frontier[1..]
    ensures Exploring(visited, parent, open, start, q', depth', depth[cur])
    ensures end in depth' ==> end in q'
    ensures || Cells(visited.Length1, visited.Length0) - depth'.Keys < Cells(visited.Length1, visited.Length0) - depth.Keys
            || (depth' == depth && |q'| < |frontier|)
  {
    ClosedByDirections(open, depth', cur);
    forall p | p in depth' ensures p in Cells(visited.Length1, visited.Length0) {
      assert p == Pos(p.x, p.y);
    }
    FewerUnlabelled(Cells(visited.Length1, visited.Length0), q, q', depth, depth');
    forall k | 0 < k < |frontier| ensures frontier[k] in q' {
      assert q'[k - 1] == frontier[k];
    }
    ClosedAfterVisit(open, depth, depth', frontier, q');
  }

  /** A visit that queues a cell labels a cell of the board that was not
      labelled before. */
  lemma FewerUnlabelled(board: set<Pos>, q: seq<Pos>, q': seq<Pos>, depth: map<Pos, nat>, depth': map<Pos, nat>)
    requires QueueExtended(q, q', depth, depth')
    requires forall p :: p in depth ==> p in depth'
    requires depth'.Keys <= board
    ensures |q'| > |q| ==> board - depth'.Keys < board - depth.Keys
  {
    if |q'| > |q| {
      assert q'[|q|] in board - depth.Keys && q'[|q|] !in board - depth'.Keys;
    }
  }

  /** The cells the visit of `cur` labels (in `depth'`, not in `depth`) are
      neighbours of `cur`, one step further. */
  ghost predicate ChildLabels(cur: Pos, depth: map<Pos, nat>, depth': map<Pos, nat>)
    requires cur in depth
  {
    forall p :: p in depth' && p !in depth ==> Adjacent(cur, p) && depth'[p] == depth[cur] + 1
  }

  /** The parent matrix after (part of) the visit of `cur`: the cells it
      labelled (in `depth'`, not in `depth`) have `cur` as parent, every other
      cell keeps its entry of `p0`. */
  ghost predicate Adopted(parent: array2<Pos>, p0: map<Pos, Pos>, cur: Pos, depth: map<Pos, nat>, depth': map<Pos, nat>)
    reads parent
  {
    forall y, x :: 0 <= y < parent.Length0 && 0 <= x < parent.Length1 ==>
      Pos(x, y) in p0 && parent[y, x] == if Pos(x, y) in depth' && Pos(x, y) !in depth then cur else p0[Pos(x, y)]
  }

  /** The queue after a visit: the queue before it, followed by exactly the
      newly labelled cells. */
  ghost predicate QueueExtended(q: seq<Pos>, q': seq<Pos>, depth: map<Pos, nat>, depth': map<Pos, nat>) {
    && |q'| >= |q| && q'[..|q|] == q
    && (forall k :: |q| <= k < |q'| ==> q'[k] in depth' && q'[k] !in depth)
    && (forall p :: p in depth' && p !in depth ==> p in q')
  }

  /** The queue and the labels in the neighbour loop of solveBFS after the
      first `i` directions: the queue is layered and extended by exactly the
      new labels, which are children of `cur`, the old labels stay, and the
      neighbours in the directions tried are labelled. */
  ghost predicate Queueing(open: set<Pos>, cur: Pos, i: int, q: seq<Pos>, q': seq<Pos>, depth: map<Pos, nat>, depth': map<Pos, nat>) {
    && 0 <= i <= 4 && cur in depth
    && Layered(q', depth', depth[cur])
    && QueueExtended(q, q', depth, depth')
    && (forall p :: p in depth ==> p in depth' && depth'[p] == depth[p])
    && ChildLabels(cur, depth, depth')
    && (|q'| == |q| ==> depth' == depth)
    && (forall j :: 0 <= j < i ==> NeighbourLabelled(open, depth', cur, j))
  }

  /** The invariant of the neighbour loop of solveBFS after the first `i`
      directions, for a visit that started from queue `q`, labels `depth`
      and parent matrix `p0`. */
  ghost predicate Visiting(visited: array2<bool>, parent: array2<Pos>, open: set<Pos>, start: Pos, cur: Pos, i: int,
                           q: seq<Pos>, q': seq<Pos>, depth: map<Pos, nat>, depth': map<Pos, nat>, p0: map<Pos, Pos>)
    reads visited, parent
  {
    && Queueing(open, cur, i, q, q', depth, depth')
    && Marks(visited, depth'.Keys)
    && ParentTree(open, parent, start, depth')
    && Adopted(parent, p0, cur, depth, depth')
  }

  /** The invariant of the neighbour loop holds before the first direction. */
  lemma StartVisiting(visited: array2<bool>, parent: array2<Pos>, open: set<Pos>, start: Pos, cur: Pos, q: seq<Pos>, depth: map<Pos, nat>)
    requires Marks(visited, depth.Keys) && ParentTree(open, parent, start, depth)
    requires cur in depth && Layered(q, depth, depth[cur])
    ensures Visiting(visited, parent, open, start, cur, 0, q, q, depth, depth, Snapshot(parent))
  {
    assert q[..|q|] == q;
  }

  /** The neighbour loop of solveBFS: every in-bounds, passage, unvisited
      neighbour of `cur` is marked, gets `cur` as parent and is queued, and
      nothing else changes (`p0` is the parent matrix before the loop). */
  method VisitNeighbours(maze: Maze, parent: array2<Pos>, cur: Pos, q: seq<Pos>, ghost open: set<Pos>, ghost start: Pos,
                         ghost depth: map<Pos, nat>, ghost p0: map<Pos, Pos>)
    returns (q': seq<Pos>, ghost depth': map<Pos, nat>)
    requires maze.Valid() && OpenAround(maze.grid, open, cur)
    requires parent.Length0 == maze.height && parent.Length1 == maze.width
    requires Visiting(maze.visited, parent, open, start, cur, 0, q, q, depth, depth, p0)
    modifies maze.visited, parent
    ensures Visiting(maze.visited, parent, open, start, cur, 4, q, q', depth, depth', p0)
  {
    q', depth' := q, depth;
    var i := 0;
    while i < 4
      invariant 0 <= i <= 4
      invariant Visiting(maze.visited, parent, open, start, cur, i, q, q', depth, depth', p0)
    {
      q', depth' := VisitNeighbour(maze, parent, cur, i, q', open, start, q, depth, depth', p0);
      i := i + 1;
    }
  }

  /** One iteration of the neighbour loop of solveBFS: direction `i` of
      `cur` is tried, and if that neighbour is an in-bounds, unvisited passage
      it is queued, labelled one step further than `cur` and given `cur` as
      parent; nothing else changes. */
  method VisitNeighbour(maze: Maze, parent: array2<Pos>, cur: Pos, i: int, q: seq<Pos>, ghost open: set<Pos>, ghost start: Pos,
                        ghost q0: seq<Pos>, ghost depth0: map<Pos, nat>, ghost depth: map<Pos, nat>, ghost p0: map<Pos, Pos>)
    returns (q': seq<Pos>, ghost depth': map<Pos, nat>)
    requires maze.Valid() && OpenAround(maze.grid, open, cur) && 0 <= i < 4
    requires parent.Length0 == maze.height && parent.Length1 == maze.width
    requires Visiting(maze.visited, parent, open, start, cur, i, q0, q, depth0, depth, p0)
    modifies maze.visited, parent
    ensures Visiting(maze.visited, parent, open, start, cur, i + 1, q0, q', depth0, depth', p0)
    ensures |q'| == |q| ==> depth' == depth
    ensures |q'| > |q| ==>
      && Step(cur, i) !in depth && q' == q + [Step(cur, i)] && depth' == depth[Step(cur, i) := depth0[cur] + 1]
      && parent[Step(cur, i).y, Step(cur, i).x] == cur
    ensures forall y, x :: 0 <= y < parent.Length0 && 0 <= x < parent.Length1 && (|q'| == |q| || Pos(x, y) != Step(cur, i)) ==>
      parent[y, x] == old(parent[y, x])
  {
    q', depth' := q, depth;
    var nx, ny := cur.x + DX[i], cur.y + DY[i];
    assert Pos(nx, ny) == Step(cur, i);
    if maze.IsValid(nx, ny) && maze.grid[ny, nx] == Passage && !maze.visited[ny, nx] {
      q', depth' := Enqueue(maze.visited, parent, cur, i, Pos(nx, ny), q, open, start, q0, depth0, depth, p0);
    } else {
      NotQueued(maze.visited, maze.grid, open, cur, i, depth);
      SkippedNext(open, cur, i, q0, q, depth0, depth);
    }
  }

  /** A neighbour the test of solveBFS turns down (outside the grid, a wall,
      or already marked) is already labelled, and labels go no further than
      one step past `cur`'s. */
  lemma NotQueued(visited: array2<bool>, grid: array2<int>, open: set<Pos>, cur: Pos, i: int, depth: map<Pos, nat>)
    requires 0 <= i < 4 && cur in depth && OpenAround(grid, open, cur)
    requires visited.Length0 == grid.Length0 && visited.Length1 == grid.Length1
    requires Marks(visited, depth.Keys) && forall p :: p in depth ==> depth[p] <= depth[cur] + 1
    requires !(InBounds(grid, Step(cur, i)) && grid[Step(cur, i).y, Step(cur, i).x] == Passage && !visited[Step(cur, i).y, Step(cur, i).x])
    ensures NeighbourLabelled(open, depth, cur, i)
  {
  }

  /** Skipping direction `i` once its neighbour is labelled keeps the queue
      and labels in order. */
  lemma SkippedNext(open: set<Pos>, cur: Pos, i: int, q0: seq<Pos>, q: seq<Pos>, depth0: map<Pos, nat>, depth: map<Pos, nat>)
    requires Queueing(open, cur, i, q0, q, depth0, depth) && i < 4
    requires NeighbourLabelled(open, depth, cur, i)
    ensures Queueing(open, cur, i + 1, q0, q, depth0, depth)
  {
    StillLabelled(open, cur, i, depth, depth);
  }

  /** Queuing the unlabelled neighbour in direction `i`, one step further
      than `cur`, keeps the queue and labels in order and labels direction `i`. */
  lemma QueuedNext(open: set<Pos>, cur: Pos, i: int, q0: seq<Pos>, q: seq<Pos>, depth0: map<Pos, nat>, depth: map<Pos, nat>, next: Pos)
    requires Queueing(open, cur, i, q0, q, depth0, depth) && i < 4
    requires next == Step(cur, i) && next !in depth
    ensures Queueing(open, cur, i + 1, q0, q + [next], depth0, depth[next := depth0[cur] + 1])
  {
    var q', depth' := q + [next], depth[next := depth0[cur] + 1];
    assert q'[..|q0|] == q[..|q0|];
    StillLabelled(open, cur, i, depth, depth');
  }

  /** Labels that stay put keep the earlier directions of the neighbour
      loop labelled, and direction i is labelled now. */
  lemma StillLabelled(open: set<Pos>, cur: Pos, i: int, d1: map<Pos, nat>, d2: map<Pos, nat>)
    requires 0 <= i < 4 && cur in d1
    requires forall p :: p in d1 ==> p in d2 && d2[p] == d1[p]
    requires forall j :: 0 <= j < i ==> NeighbourLabelled(open, d1, cur, j)
    requires NeighbourLabelled(open, d2, cur, i)
    ensures forall j :: 0 <= j < i + 1 ==> NeighbourLabelled(open, d2, cur, j)
  {
    forall j | 0 <= j < i ensures NeighbourLabelled(open, d2, cur, j) {
      assert NeighbourLabelled(open, d1, cur, j);
    }
  }

  /** The body of the neighbour test of solveBFS when it succeeds: mark
      `next`, record `cur` as its parent and queue it, one step further than
      `cur`. */
  method Enqueue(visited: array2<bool>, parent: array2<Pos>, cur: Pos, i: int, next: Pos, q: seq<Pos>,
                 ghost open: set<Pos>, ghost start: Pos, ghost q0: seq<Pos>, ghost depth0: map<Pos, nat>, ghost depth: map<Pos, nat>,
                 ghost p0: map<Pos, Pos>)
    returns (q': seq<Pos>, ghost depth': map<Pos, nat>)
    requires visited.Length0 == parent.Length0 && visited.Length1 == parent.Length1 && 0 <= i < 4
    requires Visiting(visited, parent, open, start, cur, i, q0, q, depth0, depth, p0)
    requires next == Step(cur, i) && next in open && 0 <= next.y < visited.Length0 && 0 <= next.x < visited.Length1
    requires !visited[next.y, next.x]
    modifies visited, parent
    ensures q' == q + [next] && depth' == depth[next := depth0[cur] + 1] && next !in depth
    ensures Visiting(visited, parent, open, start, cur, i + 1, q0, q', depth0, depth', p0)
    ensures parent[next.y, next.x] == cur
    ensures forall y, x :: 0 <= y < parent.Length0 && 0 <= x < parent.Length1 && Pos(x, y) != next ==> parent[y, x] == old(parent[y, x])
  {
    assert next !in depth;
    Mark(visited, next, depth.Keys);
    q' := q + [next];
    depth' := depth[next := depth0[cur] + 1];
    assert depth'.Keys == depth.Keys + {next};
    Adopt(parent, cur, next, open, start, depth0[cur], depth0, depth, depth', p0);
    QueuedNext(open, cur, i, q0, q, depth0, depth, next);
  }

  /** Marking `next` visited adds it to the marked cells. */
  method Mark(visited: array2<bool>, next: Pos, ghost marked: set<Pos>)
    requires Marks(visited, marked) && 0 <= next.y < visited.Length0 && 0 <= next.x < visited.Length1
    modifies visited
    ensures Marks(visited, marked + {next})
    ensures forall y, x :: 0 <= y < visited.Length0 && 0 <= x < visited.Length1 && Pos(x, y) != next ==> visited[y, x] == old(visited[y, x])
  {
    visited[next.y, next.x] := true;
    forall y, x | 0 <= y < visited.Length0 && 0 <= x < visited.Length1
      ensures visited[y, x] <==> Pos(x, y) in marked + {next}
    {
      if Pos(x, y) != next {
        assert old(visited[y, x]) == visited[y, x];
      }
    }
  }

  /** Recording `cur` as the parent of the newly labelled `next`: the parent
      links still form a tree of the labels, and no other entry changes. */
  method Adopt(parent: array2<Pos>, cur: Pos, next: Pos, ghost open: set<Pos>, ghost start: Pos, ghost level: nat,
               ghost depth0: map<Pos, nat>, ghost depth: map<Pos, nat>, ghost depth': map<Pos, nat>, ghost p0: map<Pos, Pos>)
    requires ParentTree(open, parent, start, depth)
    requires cur in depth && depth[cur] == level
    requires cur in depth0 && forall p :: p in depth0 ==> p in depth && depth[p] == depth0[p]
    requires Adopted(parent, p0, cur, depth0, depth)
    requires next in open && next !in depth && 0 <= next.y < parent.Length0 && 0 <= next.x < parent.Length1 && Adjacent(cur, next)
    requires depth' == depth[next := level + 1]
    modifies parent
    ensures parent[next.y, next.x] == cur
    ensures forall y, x :: 0 <= y < parent.Length0 && 0 <= x < parent.Length1 && Pos(x, y) != next ==> parent[y, x] == old(parent[y, x])
    ensures ParentTree(open, parent, start, depth')
    ensures Adopted(parent, p0, cur, depth0, depth')
  {
    parent[next.y, next.x] := cur;
    forall p | p in depth' && p != start ensures ParentLink(open, parent, depth', p) {
      if p != next {
        assert old(ParentLink(open, parent, depth, p));
      }
    }
    forall y, x | 0 <= y < parent.Length0 && 0 <= x < parent.Length1
      ensures Pos(x, y) in p0 && parent[y, x] == if Pos(x, y) in depth' && Pos(x, y) !in depth0 then cur else p0[Pos(x, y)]
    {
      if Pos(x, y) != next {
        assert old(parent[y, x]) == parent[y, x];
      }
    }
  }
}
