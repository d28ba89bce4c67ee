/**
 * Dijkstra's algorithm over the maze (DijkstraSolver::solveDijkstra of
 * pathfinder/dijkstra.cpp): a distance matrix, a min-heap of
 * (distance, cell) entries with lazy deletion, unit-weight relaxation, and
 * the path reconstruction shared with the BFS solver.
 */
module Dijkstra {
  import opened Grid
  import opened MazeModel
  import opened Paths

  /** An entry of the distance matrix; Inf stands for INT_MAX, "not reached yet". */
  datatype Dist = Fin(n: nat) | Inf

  /** newDist < distance[ny][nx], with INT_MAX above every distance. */
  predicate Below(n: nat, d: Dist) {
    d.Inf? || n < d.n
  }

  /** A heap node (dist, (x, y)). */
  datatype Entry = Entry(d: nat, cell: Pos)

  /** The order std::greater<Node> builds the min-heap on: std::pair's
      lexicographic order on (dist, x, y). */
  predicate EntryLeq(a: Entry, b: Entry) {
    || a.d < b.d
    || (a.d == b.d && (a.cell.x < b.cell.x || (a.cell.x == b.cell.x && a.cell.y <= b.cell.y)))
  }

  /** pq.top() followed by pq.pop(): takes the least entry out of a
      non-empty heap. */
  method ExtractMin(heap: seq<Entry>) returns (e: Entry, rest: seq<Entry>)
    requires heap != []
    ensures e in heap && forall f :: f in heap ==> EntryLeq(e, f)
    ensures multiset(rest) + multiset{e} == multiset(heap) && |rest| == |heap| - 1
    ensures forall f :: f in heap ==> f == e || f in rest
    ensures forall f :: f in rest ==> f in heap
  {
    var m := 0;
    var i := 1;
    while i < |heap|
      invariant 0 <= m < i <= |heap|
      invariant forall k :: 0 <= k < i ==> EntryLeq(heap[m], heap[k])
    {
      if !EntryLeq(heap[m], heap[i]) {
        m := i;
      }
      i := i + 1;
    }
    e := heap[m];
    rest := heap[..m] + heap[m + 1..];
    assert heap == heap[..m] + [e] + heap[m + 1..];
  }

  /** The distance matrix holds Fin(rank[p]) on the cells with a finite
      distance and INT_MAX everywhere else. */
  ghost predicate DistanceMatches(distance: array2<Dist>, rank: map<Pos, nat>)
    reads distance
  {
    && (forall y, x :: 0 <= y < distance.Length0 && 0 <= x < distance.Length1 ==>
          distance[y, x] == if Pos(x, y) in rank then Fin(rank[Pos(x, y)]) else Inf)
    && (forall p :: p in rank ==> 0 <= p.y < distance.Length0 && 0 <= p.x < distance.Length1)
  }

  /** Every heap entry is for a cell with a finite distance, is no better
      than that distance, and is no smaller than the last finalised distance. */
  ghost predicate HeapEntries(pq: seq<Entry>, rank: map<Pos, nat>, level: nat) {
    forall e :: e in pq ==> e.cell in rank && rank[e.cell] <= e.d && level <= e.d
  }

  /** Every cell with a finite distance that is not finalised has an entry
      carrying that distance in the heap. */
  ghost predicate LiveEntries(pq: seq<Entry>, rank: map<Pos, nat>, fin: set<Pos>) {
    forall p :: p in rank && p !in fin ==> Entry(rank[p], p) in pq
  }

  /** Parents are only ever finalised cells. */
  ghost predicate ParentsFinal(parent: array2<Pos>, start: Pos, rank: map<Pos, nat>, fin: set<Pos>)
    reads parent
  {
    forall p {:trigger parent[p.y, p.x]} :: p in rank && p != start && 0 <= p.y < parent.Length0 && 0 <= p.x < parent.Length1 ==>
      parent[p.y, p.x] in fin
  }

  /** The finalised cells: each has a distance no larger than the last
      finalised one, and no walk to it is shorter than its distance. */
  ghost predicate Settled(open: set<Pos>, start: Pos, rank: map<Pos, nat>, fin: set<Pos>, level: nat) {
    forall p :: p in fin ==> p in rank && rank[p] <= level && NoShorterWalk(open, start, p, rank[p])
  }

  /** All neighbours of the given cells have been relaxed. */
  ghost predicate AllClosed(open: set<Pos>, rank: map<Pos, nat>, cells: set<Pos>) {
    forall p :: p in cells ==> p in rank && Closed(open, rank, p)
  }

  /** The order in which cells were finalised: each once, with
      non-decreasing distances. */
  ghost predicate FinalisationOrder(order: seq<Pos>, fin: set<Pos>, rank: map<Pos, nat>) {
    && (forall p :: p in fin <==> p in order)
    && (forall i, j :: 0 <= i < j < |order| ==> order[i] != order[j])
    && (forall i, j :: 0 <= i <= j < |order| ==> order[i] in rank && order[j] in rank && rank[order[i]] <= rank[order[j]])
  }

  /** The loop invariant of solveDijkstra. `rank` holds the finite
      distances recorded so far, `fin` the finalised cells (those marked
      visited), `closed` the cells whose neighbours have been relaxed,
      `order` the finalisation order and `level` the last finalised
      distance. */
  ghost predicate Searching(visited: array2<bool>, distance: array2<Dist>, parent: array2<Pos>, open: set<Pos>, start: Pos,
                            pq: seq<Entry>, rank: map<Pos, nat>, fin: set<Pos>, closed: set<Pos>, order: seq<Pos>, level: nat)
    reads visited, distance, parent
  {
    && DistanceMatches(distance, rank)
    && Marks(visited, fin)
    && ParentTree(open, parent, start, rank)
    && ParentsFinal(parent, start, rank, fin)
    && HeapEntries(pq, rank, level)
    && LiveEntries(pq, rank, fin)
    && AllClosed(open, rank, closed)
    && Settled(open, start, rank, fin, level)
    && FinalisationOrder(order, fin, rank)
  }

  /** solveDijkstra: returns a shortest walk from start to end through
      passages, or the empty sequence exactly when there is none. `order`
      lists the finalised cells in the order they were popped and `dist`
      the distances recorded for them. */
  method SolveDijkstra(maze: Maze, startX: int, startY: int, endX: int, endY: int)
    returns (path: seq<Pos>, ghost order: seq<Pos>, ghost dist: map<Pos, nat>)
    requires maze.Valid()
    requires maze.IsValid(startX, startY)
    modifies maze.visited
    ensures path != [] ==> IsShortestWalk(Passages(maze.grid), Pos(startX, startY), Pos(endX, endY), path)
    ensures path == [] <==> !Reachable(Passages(maze.grid), Pos(startX, startY), Pos(endX, endY))
    ensures startX == endX && startY == endY ==> path == [Pos(startX, startY)]
    ensures path != [] ==> Pos(endX, endY) in dist && |path| == dist[Pos(endX, endY)] + 1
    ensures forall i, j :: 0 <= i < j < |order| ==> order[i] != order[j]
    ensures forall i, j :: 0 <= i <= j < |order| ==>
      order[i] in dist && order[j] in dist && dist[order[i]] <= dist[order[j]]
    ensures forall u :: u in order ==> u in dist && IsDistance(Passages(maze.grid), Pos(startX, startY), u, dist[u])
    ensures forall y, x :: 0 <= y < maze.visited.Length0 && 0 <= x < maze.visited.Length1 ==>
      (maze.visited[y, x] <==> Pos(x, y) in order)
  {
    var start, end := Pos(startX, startY), Pos(endX, endY);
    ghost var open := Passages(maze.grid);
    var visited := maze.visited;
    assert maze.grid as object != visited;
    var distance, parent, pq, rank := Initialise(maze, start);
    ghost var fin: set<Pos> := {};
    ghost var level: nat := 0;
    order := [];

    while pq != []
      invariant distance.Length0 == maze.height && distance.Length1 == maze.width
      invariant parent.Length0 == maze.height && parent.Length1 == maze.width
      invariant Searching(visited, distance, parent, open, start, pq, rank, fin, fin, order, level)
      invariant end !in fin
      decreases Cells(maze.width, maze.height) - fin, |pq|
    {
      var current, rest := ExtractMin(pq);
      var currentDist, x, y := current.d, current.cell.x, current.cell.y;
      ghost var pq0, fin0 := pq, fin;
      pq := rest;

      if visited[y, x] {
        SkipStale(visited, distance, parent, open, start, pq0, current, rest, rank, fin, order, level);
        continue;
      }
      fin, order, level := Finalise(visited, distance, parent, open, start, pq0, current, rest, rank, fin, order, level);

      // The end is popped: rebuild the walk to it
      if x == endX && y == endY {
        path := ReconstructPath(parent, end, open, start, rank);
        dist := rank;
        Outcome(open, visited, parent, start, rank, fin, order, level);
        FoundShortest(open, start, end, rank[end], path);
        return;
      }

      PassagesAround(maze.grid, current.cell);
      pq, rank := Expand(maze, distance, parent, current.cell, currentDist, pq, open, start, rank, fin, fin0, order);
    }

    // The heap ran dry without reaching the end
    path := [];
    dist := rank;
    Exhausted(open, start, end, rank, fin);
    Outcome(open, visited, parent, start, rank, fin, order, level);
  }

  /** The set-up of solveDijkstra: no cell marked visited, every distance
      INT_MAX except the start's 0, no parents, and (0, start) the only heap
      entry. */
  method Initialise(maze: Maze, start: Pos)
    returns (distance: array2<Dist>, parent: array2<Pos>, pq: seq<Entry>, ghost rank: map<Pos, nat>)
    requires maze.Valid() && maze.IsValid(start.x, start.y)
    modifies maze.visited
    ensures fresh(distance) && fresh(parent)
    ensures distance.Length0 == maze.height && distance.Length1 == maze.width
    ensures parent.Length0 == maze.height && parent.Length1 == maze.width
    ensures pq == [Entry(0, start)] && rank == map[start := 0]
    ensures forall y, x :: 0 <= y < maze.height && 0 <= x < maze.width ==> parent[y, x] == NoParent
    ensures Searching(maze.visited, distance, parent, Passages(maze.grid), start, pq, rank, {}, {}, [], 0)
  {
    maze.ResetVisited();
    distance := new Dist[maze.height, maze.width]((_, _) => Inf);
    parent := new Pos[maze.height, maze.width]((_, _) => NoParent);
    pq := [];

    distance[start.y, start.x] := Fin(0);
    pq := pq + [Entry(0, start)];
    rank := map[start := 0];
  }

  /** A popped entry whose cell is already finalised is stale: dropping it
      keeps the invariant. */
  lemma SkipStale(visited: array2<bool>, distance: array2<Dist>, parent: array2<Pos>, open: set<Pos>, start: Pos,
                  pq: seq<Entry>, e: Entry, rest: seq<Entry>, rank: map<Pos, nat>, fin: set<Pos>, order: seq<Pos>, level: nat)
    requires Searching(visited, distance, parent, open, start, pq, rank, fin, fin, order, level)
    requires forall f :: f in pq ==> f == e || f in rest
    requires forall f :: f in rest ==> f in pq
    requires 0 <= e.cell.y < visited.Length0 && 0 <= e.cell.x < visited.Length1 && visited[e.cell.y, e.cell.x]
    ensures Searching(visited, distance, parent, open, start, rest, rank, fin, fin, order, level)
  {
    PopKeepsLive(pq, rest, e, rank, fin, fin);
  }

  /** A search whose heap ran empty before the end was finalised has
      recorded a distance for every cell reachable from the start: so the end
      is unreachable. */
  lemma Exhausted(open: set<Pos>, start: Pos, end: Pos, rank: map<Pos, nat>, fin: set<Pos>)
    requires start in rank && rank[start] == 0
    requires LiveEntries([], rank, fin) && AllClosed(open, rank, fin)
    requires end !in fin
    ensures !Reachable(open, start, end)
  {
    assert forall u :: u in rank ==> u in fin;
    UnreachableWhenAllClosed(open, start, end, rank);
  }

  /** A walk with one cell per step of a distance that no walk beats is a
      shortest walk. */
  lemma FoundShortest(open: set<Pos>, start: Pos, end: Pos, n: nat, path: seq<Pos>)
    requires WalkBetween(open, start, end, path) && |path| == n + 1
    requires NoShorterWalk(open, start, end, n)
    ensures IsShortestWalk(open, start, end, path) && Reachable(open, start, end)
  {
  }

  /** visited[y][x] = true for the cell of the least heap entry `e` when it
      is not yet marked: the cell joins the finalised cells at the end of the
      finalisation order, at e's distance, which is its recorded distance,
      no smaller than any finalised before it, and no walk to it is
      shorter. */
  method Finalise(visited: array2<bool>, distance: array2<Dist>, parent: array2<Pos>, ghost open: set<Pos>, ghost start: Pos,
                  ghost pq: seq<Entry>, e: Entry, ghost rest: seq<Entry>, ghost rank: map<Pos, nat>,
                  ghost fin: set<Pos>, ghost order: seq<Pos>, ghost level: nat)
    returns (ghost fin': set<Pos>, ghost order': seq<Pos>, ghost level': nat)
    requires Searching(visited, distance, parent, open, start, pq, rank, fin, fin, order, level)
    requires e in pq && forall f :: f in pq ==> EntryLeq(e, f)
    requires forall f :: f in pq ==> f == e || f in rest
    requires forall f :: f in rest ==> f in pq
    requires 0 <= e.cell.y < visited.Length0 && 0 <= e.cell.x < visited.Length1 && !visited[e.cell.y, e.cell.x]
    modifies visited
    ensures e.cell !in fin && fin' == fin + {e.cell} && order' == order + [e.cell]
    ensures e.cell in rank && level' == e.d == rank[e.cell]
    ensures Cells(visited.Length1, visited.Length0) - fin' < Cells(visited.Length1, visited.Length0) - fin
    ensures Searching(visited, distance, parent, open, start, rest, rank, fin', fin, order', level')
  {
    var cur := e.cell;
    NearestWhenPopped(open, start, rank, fin, pq, e);
    visited[cur.y, cur.x] := true;
    fin', order', level' := fin + {cur}, order + [cur], e.d;
    forall y, x | 0 <= y < visited.Length0 && 0 <= x < visited.Length1
      ensures visited[y, x] <==> Pos(x, y) in fin'
    {
      if Pos(x, y) != cur {
        assert old(visited[y, x]) == visited[y, x];
      }
    }
    forall i, j | 0 <= i <= j < |order'|
      ensures order'[i] in rank && order'[j] in rank && rank[order'[i]] <= rank[order'[j]]
    {
      if j == |order| {
        assert order'[i] in fin';
      }
    }
    PopKeepsLive(pq, rest, e, rank, fin, fin');
    assert cur in Cells(visited.Length1, visited.Length0);
  }

  /** Relaxation leaves the distances of finalised cells alone, so they stay
      settled and in order. */
  lemma StillSettled(open: set<Pos>, start: Pos, rank: map<Pos, nat>, rank': map<Pos, nat>, fin: set<Pos>, order: seq<Pos>, level: nat)
    requires Settled(open, start, rank, fin, level) && FinalisationOrder(order, fin, rank)
    requires forall p :: p in fin ==> p in rank' && rank'[p] == rank[p]
    ensures Settled(open, start, rank', fin, level) && FinalisationOrder(order, fin, rank')
  {
    forall i, j | 0 <= i <= j < |order|
      ensures order[i] in rank' && order[j] in rank' && rank'[order[i]] <= rank'[order[j]]
    {
      assert order[i] in fin && order[j] in fin;
    }
  }

  /** Taking entry `e` out of the heap loses no live entry once e's cell
      is finalised. */
  lemma PopKeepsLive(pq: seq<Entry>, rest: seq<Entry>, e: Entry, rank: map<Pos, nat>, fin: set<Pos>, fin': set<Pos>)
    requires LiveEntries(pq, rank, fin)
    requires forall f :: f in pq ==> f == e || f in rest
    requires fin <= fin' && e.cell in fin'
    ensures LiveEntries(rest, rank, fin')
  {
    forall p | p in rank && p !in fin' ensures Entry(rank[p], p) in rest {
      assert Entry(rank[p], p) in pq;
    }
  }

  /** The cell of the least heap entry, when not yet finalised, has that
      entry's distance, and no walk to it is shorter: every other walk has to
      leave the finalised cells through a cell whose live entry is no
      smaller. */
  lemma NearestWhenPopped(open: set<Pos>, start: Pos, rank: map<Pos, nat>, fin: set<Pos>, pq: seq<Entry>, e: Entry)
    requires start in rank && rank[start] == 0
    requires AllClosed(open, rank, fin)
    requires LiveEntries(pq, rank, fin)
    requires e in pq && e.cell in rank && rank[e.cell] <= e.d && e.cell !in fin
    requires forall f :: f in pq ==> EntryLeq(e, f)
    ensures rank[e.cell] == e.d
    ensures NoShorterWalk(open, start, e.cell, e.d)
  {
    assert Entry(rank[e.cell], e.cell) in pq;
    forall w | WalkBetween(open, start, e.cell, w) ensures e.d + 1 <= |w| {
      WalkMeetsFrontier(open, start, rank, fin, w);
    }
  }

  /** Relaxing the neighbours of `cur` keeps the earlier finalised cells
      closed and closes `cur`. */
  lemma StillClosed(open: set<Pos>, rank: map<Pos, nat>, rank': map<Pos, nat>, fin: set<Pos>, cur: Pos)
    requires AllClosed(open, rank, fin)
    requires forall p :: p in rank ==> p in rank' && rank'[p] <= rank[p]
    requires forall p :: p in fin ==> rank'[p] == rank[p]
    requires cur in rank' && Closed(open, rank', cur)
    ensures AllClosed(open, rank', fin + {cur})
  {
    forall p | p in fin ensures Closed(open, rank', p) {
      ClosedStaysClosed(open, rank, rank', p);
    }
  }

  /** What a finished search reports: the finalised cells, each once, in
      order of non-decreasing distance, each at its passage distance (the
      parent links give a walk of that length, and none is shorter), and
      exactly these cells marked visited. */
  lemma Outcome(open: set<Pos>, visited: array2<bool>, parent: array2<Pos>, start: Pos, rank: map<Pos, nat>,
                fin: set<Pos>, order: seq<Pos>, level: nat)
    requires ParentTree(open, parent, start, rank)
    requires Settled(open, start, rank, fin, level) && FinalisationOrder(order, fin, rank)
    requires Marks(visited, fin)
    ensures forall i, j :: 0 <= i < j < |order| ==> order[i] != order[j]
    ensures forall i, j :: 0 <= i <= j < |order| ==>
      order[i] in rank && order[j] in rank && rank[order[i]] <= rank[order[j]]
    ensures forall u :: u in order ==> u in rank && IsDistance(open, start, u, rank[u])
    ensures forall y, x :: 0 <= y < visited.Length0 && 0 <= x < visited.Length1 ==>
      (visited[y, x] <==> Pos(x, y) in order)
  {
    forall u | u in order ensures u in rank && IsDistance(open, start, u, rank[u]) {
      var w := TreeWalk(open, parent, start, rank, u);
    }
  }

  /** A cell whose distance the relaxation set or lowered: it has one in
      `rank'` and none, or a different one, in `rank`. */
  ghost predicate Changed(rank: map<Pos, nat>, rank': map<Pos, nat>, p: Pos) {
    p in rank' && (p !in rank || rank'[p] != rank[p])
  }

  /** The distances after (part of) the relaxation of `cur`: none is lost,
      none goes up, and each one that changed belongs to a passage next to
      `cur` and is one step past `cur`'s. */
  ghost predicate Lowered(open: set<Pos>, cur: Pos, rank: map<Pos, nat>, rank': map<Pos, nat>)
    requires cur in rank
  {
    && (forall p :: p in rank ==> p in rank' && rank'[p] <= rank[p])
    && (forall p :: Changed(rank, rank', p) ==> p in open && Adjacent(cur, p) && rank'[p] == rank[cur] + 1)
  }

  /** The heap after (part of) the relaxation of `cur`: the heap before it,
      followed by entries (rank[cur] + 1, p) for exactly the cells p whose
      distance changed. */
  ghost predicate HeapExtended(pq: seq<Entry>, pq': seq<Entry>, cur: Pos, rank: map<Pos, nat>, rank': map<Pos, nat>)
    requires cur in rank
  {
    && |pq'| >= |pq| && pq'[..|pq|] == pq
    && (forall k :: |pq| <= k < |pq'| ==> pq'[k].d == rank[cur] + 1 && Changed(rank, rank', pq'[k].cell))
    && (forall p :: Changed(rank, rank', p) ==> Entry(rank[cur] + 1, p) in pq'[|pq|..])
    && (|pq'| == |pq| ==> rank' == rank)
  }

  /** The parent matrix after (part of) the relaxation of `cur`: the cells
      whose distance changed have `cur` as parent, every other cell keeps its
      entry of `p0`. */
  ghost predicate Repointed(parent: array2<Pos>, p0: map<Pos, Pos>, cur: Pos, rank: map<Pos, nat>, rank': map<Pos, nat>)
    reads parent
  {
    forall y, x :: 0 <= y < parent.Length0 && 0 <= x < parent.Length1 ==>
      Pos(x, y) in p0 && parent[y, x] == if Changed(rank, rank', Pos(x, y)) then cur else p0[Pos(x, y)]
  }

  /** The heap and distances in the neighbour loop of solveDijkstra after
      the first `i` directions, against the heap `pq` and distances `rank`
      before the loop: the heap invariants hold, distances were only lowered
      next to `cur`, the heap was extended by exactly those cells, and the
      neighbours in the directions tried are labelled. */
  ghost predicate Relaxation(open: set<Pos>, cur: Pos, i: int, pq: seq<Entry>, pq': seq<Entry>,
                             rank: map<Pos, nat>, rank': map<Pos, nat>, fin: set<Pos>) {
    && 0 <= i <= 4 && cur in fin && cur in rank
    && (forall p :: p in fin ==> p in rank && rank[p] <= rank[cur])
    && HeapEntries(pq', rank', rank[cur])
    && LiveEntries(pq', rank', fin)
    && Lowered(open, cur, rank, rank')
    && HeapExtended(pq, pq', cur, rank, rank')
    && cur in rank'
    && (forall j :: 0 <= j < i ==> NeighbourLabelled(open, rank', cur, j))
  }

  /** The loop invariant of the neighbour loop of solveDijkstra: Relaxation,
      the matrices follow the distances, and the parents changed exactly at
      the cells whose distance changed. */
  ghost predicate Relaxing(distance: array2<Dist>, parent: array2<Pos>, open: set<Pos>, start: Pos, cur: Pos, i: int,
                           pq: seq<Entry>, pq': seq<Entry>, rank: map<Pos, nat>, rank': map<Pos, nat>, fin: set<Pos>,
                           p0: map<Pos, Pos>)
    reads distance, parent
  {
    && Relaxation(open, cur, i, pq, pq', rank, rank', fin)
    && DistanceMatches(distance, rank')
    && ParentTree(open, parent, start, rank')
    && ParentsFinal(parent, start, rank', fin)
    && Repointed(parent, p0, cur, rank, rank')
  }

  /** The relaxation step of solveDijkstra for the just finalised cell
      `cur`: it keeps the invariant and closes `cur`; only passage neighbours
      of `cur` get a new distance, each rank[cur] + 1 with `cur` as parent and
      a heap entry, and every other cell keeps its distance and parent. */
  method Expand(maze: Maze, distance: array2<Dist>, parent: array2<Pos>, cur: Pos, currentDist: nat, pq: seq<Entry>,
                ghost open: set<Pos>, ghost start: Pos, ghost rank: map<Pos, nat>, ghost fin: set<Pos>,
                ghost closed: set<Pos>, ghost order: seq<Pos>)
    returns (pq': seq<Entry>, ghost rank': map<Pos, nat>)
    requires maze.Valid() && OpenAround(maze.grid, open, cur)
    requires distance.Length0 == maze.height && distance.Length1 == maze.width
    requires parent.Length0 == maze.height && parent.Length1 == maze.width
    requires Searching(maze.visited, distance, parent, open, start, pq, rank, fin, closed, order, currentDist)
    requires fin == closed + {cur} && cur in rank && rank[cur] == currentDist
    modifies distance, parent
    ensures Searching(maze.visited, distance, parent, open, start, pq', rank', fin, fin, order, currentDist)
    ensures Lowered(open, cur, rank, rank') && HeapExtended(pq, pq', cur, rank, rank')
    ensures Repointed(parent, old(Snapshot(parent)), cur, rank, rank')
  {
    ghost var p0 := Snapshot(parent);
    assert maze.visited as object != distance && maze.visited as object != parent;
    StartRelaxing(maze.visited, distance, parent, open, start, cur, pq, rank, fin, closed, order, currentDist);
    pq', rank' := RelaxNeighbours(maze, distance, parent, cur, currentDist, pq, open, start, rank, fin, p0);
    FinishRelaxing(maze.visited, distance, parent, open, start, cur, pq, pq', rank, rank', fin, closed, order, currentDist, p0);
  }

  /** Before the neighbour loop nothing is relaxed yet. */
  lemma StartRelaxing(visited: array2<bool>, distance: array2<Dist>, parent: array2<Pos>, open: set<Pos>, start: Pos, cur: Pos,
                      pq: seq<Entry>, rank: map<Pos, nat>, fin: set<Pos>, closed: set<Pos>, order: seq<Pos>, level: nat)
    requires Searching(visited, distance, parent, open, start, pq, rank, fin, closed, order, level)
    requires cur in fin && cur in rank && rank[cur] == level
    ensures Relaxing(distance, parent, open, start, cur, 0, pq, pq, rank, rank, fin, Snapshot(parent))
  {
    assert pq[..|pq|] == pq;
    NothingRepointed(parent, cur, rank);
  }

  /** Before any relaxation every parent is its own snapshot. */
  lemma NothingRepointed(parent: array2<Pos>, cur: Pos, rank: map<Pos, nat>)
    ensures Repointed(parent, Snapshot(parent), cur, rank, rank)
  {
  }

  /** After all four directions `cur` is closed, finalised distances are
      unchanged, and so the search invariant holds again with `cur` among
      the closed cells. */
  lemma FinishRelaxing(visited: array2<bool>, distance: array2<Dist>, parent: array2<Pos>, open: set<Pos>, start: Pos, cur: Pos,
                       pq: seq<Entry>, pq': seq<Entry>, rank: map<Pos, nat>, rank': map<Pos, nat>, fin: set<Pos>,
                       closed: set<Pos>, order: seq<Pos>, level: nat, p0: map<Pos, Pos>)
    requires Relaxing(distance, parent, open, start, cur, 4, pq, pq', rank, rank', fin, p0) && rank[cur] == level
    requires Marks(visited, fin) && AllClosed(open, rank, closed) && fin == closed + {cur}
    requires Settled(open, start, rank, fin, level) && FinalisationOrder(order, fin, rank)
    ensures Searching(visited, distance, parent, open, start, pq', rank', fin, fin, order, level)
  {
    forall p | p in fin ensures p in rank' && rank'[p] == rank[p] {
      assert !Changed(rank, rank', p);
    }
    ClosedByDirections(open, rank', cur);
    StillClosed(open, rank, rank', closed, cur);
    StillSettled(open, start, rank, rank', fin, order, level);
  }

  /** The neighbour loop of solveDijkstra: each in-bounds passage neighbour
      of the finalised cell `cur` whose recorded distance is above
      currentDist + 1 gets that distance, `cur` as parent, and a heap entry. */
  method RelaxNeighbours(maze: Maze, distance: array2<Dist>, parent: array2<Pos>, cur: Pos, currentDist: nat, pq: seq<Entry>,
                         ghost open: set<Pos>, ghost start: Pos, ghost rank: map<Pos, nat>, ghost fin: set<Pos>,
                         ghost p0: map<Pos, Pos>)
    returns (pq': seq<Entry>, ghost rank': map<Pos, nat>)
    requires maze.Valid() && OpenAround(maze.grid, open, cur)
    requires distance.Length0 == maze.height && distance.Length1 == maze.width
    requires parent.Length0 == maze.height && parent.Length1 == maze.width
    requires Relaxing(distance, parent, open, start, cur, 0, pq, pq, rank, rank, fin, p0) && rank[cur] == currentDist
    modifies distance, parent
    ensures Relaxing(distance, parent, open, start, cur, 4, pq, pq', rank, rank', fin, p0)
  {
    pq', rank' := pq, rank;
    var i := 0;
    while i < 4
      invariant Relaxing(distance, parent, open, start, cur, i, pq, pq', rank, rank', fin, p0)
    {
      pq', rank' := RelaxNeighbour(maze, distance, parent, cur, currentDist, i, pq', open, start, pq, rank, rank', fin, p0);
      i := i + 1;
    }
  }

  /** One iteration of the neighbour loop of solveDijkstra: either nothing
      changes, or the neighbour in direction `i` is a passage that gets
      distance currentDist + 1, parent `cur` and a heap entry, and no other
      parent changes. */
  method RelaxNeighbour(maze: Maze, distance: array2<Dist>, parent: array2<Pos>, cur: Pos, currentDist: nat, i: int,
                        pq: seq<Entry>, ghost open: set<Pos>, ghost start: Pos, ghost pq0: seq<Entry>,
                        ghost rank0: map<Pos, nat>, ghost rank: map<Pos, nat>, ghost fin: set<Pos>, ghost p0: map<Pos, Pos>)
    returns (pq': seq<Entry>, ghost rank': map<Pos, nat>)
    requires maze.Valid() && OpenAround(maze.grid, open, cur) && 0 <= i < 4
    requires distance.Length0 == maze.height && distance.Length1 == maze.width
    requires parent.Length0 == maze.height && parent.Length1 == maze.width
    requires Relaxing(distance, parent, open, start, cur, i, pq0, pq, rank0, rank, fin, p0) && rank0[cur] == currentDist
    modifies distance, parent
    ensures Relaxing(distance, parent, open, start, cur, i + 1, pq0, pq', rank0, rank', fin, p0)
    ensures rank' == rank ==> pq' == pq
    ensures || (rank' == rank && pq' == pq && unchanged(distance, parent))
            || (&& Step(cur, i) in open && Changed(rank, rank', Step(cur, i)) && rank' == rank[Step(cur, i) := currentDist + 1]
                && pq' == pq + [Entry(currentDist + 1, Step(cur, i))] && parent[Step(cur, i).y, Step(cur, i).x] == cur)
    ensures forall y, x :: 0 <= y < parent.Length0 && 0 <= x < parent.Length1 && Pos(x, y) != Step(cur, i) ==>
      parent[y, x] == old(parent[y, x])
  {
    pq', rank' := pq, rank;
    var nx, ny := cur.x + DX[i], cur.y + DY[i];
    assert Pos(nx, ny) == Step(cur, i);
    if maze.IsValid(nx, ny) && maze.grid[ny, nx] == Passage {
      var newDist := currentDist + 1; // unit cost per step
      if Below(newDist, distance[ny, nx]) {
        pq', rank' := Lower(distance, parent, cur, i, Pos(nx, ny), newDist, pq, open, start, pq0, rank0, rank, fin, p0);
        assert Changed(rank, rank', Pos(nx, ny));
        assert rank' == rank[Step(cur, i) := currentDist + 1] && pq' == pq + [Entry(currentDist + 1, Step(cur, i))];
        return;
      }
    }
    Skipped(distance, maze.grid, open, cur, i, pq0, pq, rank0, rank, fin);
  }

  /** A neighbour the test of solveDijkstra turns down (outside the grid, a
      wall, or already at distance currentDist + 1 or less) is labelled, so
      skipping it moves the loop on. */
  lemma Skipped(distance: array2<Dist>, grid: array2<int>, open: set<Pos>, cur: Pos, i: int, pq0: seq<Entry>, pq: seq<Entry>,
                rank0: map<Pos, nat>, rank: map<Pos, nat>, fin: set<Pos>)
    requires 0 <= i < 4 && Relaxation(open, cur, i, pq0, pq, rank0, rank, fin)
    requires DistanceMatches(distance, rank) && OpenAround(grid, open, cur)
    requires distance.Length0 == grid.Length0 && distance.Length1 == grid.Length1
    requires !(InBounds(grid, Step(cur, i)) && grid[Step(cur, i).y, Step(cur, i).x] == Passage
               && Below(rank0[cur] + 1, distance[Step(cur, i).y, Step(cur, i).x]))
    ensures Relaxation(open, cur, i + 1, pq0, pq, rank0, rank, fin)
  {
    assert !Changed(rank0, rank, cur);
    var next := Step(cur, i);
    if next in open {
      assert distance[next.y, next.x] == if next in rank then Fin(rank[next]) else Inf;
    }
  }

  /** The relaxation itself: `next`, the neighbour of `cur` in direction `i`,
      gets distance newDist, parent `cur` and a heap entry (newDist, next); no
      other cell's distance or parent changes. */
  method Lower(distance: array2<Dist>, parent: array2<Pos>, cur: Pos, i: int, next: Pos, newDist: nat,
               pq: seq<Entry>, ghost open: set<Pos>, ghost start: Pos, ghost pq0: seq<Entry>,
               ghost rank0: map<Pos, nat>, ghost rank: map<Pos, nat>, ghost fin: set<Pos>, ghost p0: map<Pos, Pos>)
    returns (pq': seq<Entry>, ghost rank': map<Pos, nat>)
    requires distance.Length0 == parent.Length0 && distance.Length1 == parent.Length1 && 0 <= i < 4
    requires Relaxing(distance, parent, open, start, cur, i, pq0, pq, rank0, rank, fin, p0)
    requires next == Step(cur, i) && next in open && 0 <= next.y < distance.Length0 && 0 <= next.x < distance.Length1
    requires newDist == rank0[cur] + 1 && Below(newDist, distance[next.y, next.x])
    modifies distance, parent
    ensures pq' == pq + [Entry(newDist, next)] && rank' == rank[next := newDist]
    ensures next !in fin && (next in rank ==> newDist < rank[next])
    ensures Relaxing(distance, parent, open, start, cur, i + 1, pq0, pq', rank0, rank', fin, p0)
    ensures distance[next.y, next.x] == Fin(newDist) && parent[next.y, next.x] == cur
    ensures forall y, x :: 0 <= y < distance.Length0 && 0 <= x < distance.Length1 && Pos(x, y) != next ==>
      distance[y, x] == old(distance[y, x])
    ensures forall y, x :: 0 <= y < parent.Length0 && 0 <= x < parent.Length1 && Pos(x, y) != Step(cur, i) ==>
      parent[y, x] == old(parent[y, x])
  {
    assert next in rank ==> distance[next.y, next.x] == Fin(rank[next]);
    assert distance as object != parent;
    pq' := pq + [Entry(newDist, next)];
    rank' := rank[next := newDist];
    LoweredNext(open, cur, i, pq0, pq, pq', rank0, rank, rank', fin, next);
    Record(distance, next, newDist, rank, rank');
    Repoint(parent, cur, next, newDist, open, start, rank0, rank, rank', fin, p0);
  }

  /** Lowering the distance of `next`, the passage neighbour of `cur` in
      direction `i`, to rank[cur] + 1 and pushing its entry moves the loop
      on. */
  lemma LoweredNext(open: set<Pos>, cur: Pos, i: int, pq0: seq<Entry>, pq: seq<Entry>, pq': seq<Entry>,
                    rank0: map<Pos, nat>, rank: map<Pos, nat>, rank': map<Pos, nat>, fin: set<Pos>, next: Pos)
    requires 0 <= i < 4 && Relaxation(open, cur, i, pq0, pq, rank0, rank, fin)
    requires next == Step(cur, i) && next in open && (next in rank ==> rank0[cur] + 1 < rank[next])
    requires pq' == pq + [Entry(rank0[cur] + 1, next)] && rank' == rank[next := rank0[cur] + 1]
    ensures next !in fin && rank[cur] == rank0[cur] && Changed(rank0, rank', next)
    ensures Relaxation(open, cur, i + 1, pq0, pq', rank0, rank', fin)
  {
    assert !Changed(rank0, rank, cur);
    LowerOne(open, cur, rank0, rank, rank', next);
    PushedNext(cur, pq0, pq, pq', rank0, rank, rank', fin, next);
    forall j | 0 <= j < i + 1 ensures NeighbourLabelled(open, rank', cur, j) {
      assert j < i ==> NeighbourLabelled(open, rank, cur, j);
    }
  }

  /** Setting the distance of a passage neighbour of `cur` to rank[cur] + 1,
      below the one it had, keeps the distances lowered only next to `cur`. */
  lemma LowerOne(open: set<Pos>, cur: Pos, rank0: map<Pos, nat>, rank: map<Pos, nat>, rank': map<Pos, nat>, next: Pos)
    requires cur in rank0 && Lowered(open, cur, rank0, rank)
    requires next in open && Adjacent(cur, next) && (next in rank ==> rank0[cur] + 1 < rank[next])
    requires rank' == rank[next := rank0[cur] + 1]
    ensures Lowered(open, cur, rank0, rank') && Changed(rank0, rank', next) && !Changed(rank0, rank, next)
  {
    forall p | Changed(rank0, rank', p) ensures p in open && Adjacent(cur, p) && rank'[p] == rank0[cur] + 1 {
      if p != next {
        assert Changed(rank0, rank, p);
      }
    }
  }

  /** Pushing (rank[cur] + 1, next) for the newly lowered `next` keeps the
      heap invariants and extends the heap by exactly that cell. */
  lemma PushedNext(cur: Pos, pq0: seq<Entry>, pq: seq<Entry>, pq': seq<Entry>, rank0: map<Pos, nat>, rank: map<Pos, nat>,
                   rank': map<Pos, nat>, fin: set<Pos>, next: Pos)
    requires cur in rank0 && HeapEntries(pq, rank, rank0[cur]) && LiveEntries(pq, rank, fin)
    requires HeapExtended(pq0, pq, cur, rank0, rank)
    requires !Changed(rank0, rank, next) && Changed(rank0, rank[next := rank0[cur] + 1], next)
    requires next in rank ==> rank0[cur] + 1 < rank[next]
    requires pq' == pq + [Entry(rank0[cur] + 1, next)] && rank' == rank[next := rank0[cur] + 1]
    ensures HeapEntries(pq', rank', rank0[cur]) && LiveEntries(pq', rank', fin)
    ensures HeapExtended(pq0, pq', cur, rank0, rank')
  {
    assert pq'[..|pq0|] == pq[..|pq0|];
    assert pq'[|pq0|..] == pq[|pq0|..] + [Entry(rank0[cur] + 1, next)];
    forall k | |pq0| <= k < |pq'| ensures pq'[k].d == rank0[cur] + 1 && Changed(rank0, rank', pq'[k].cell) {
      if k < |pq| {
        assert pq'[k] == pq[k] && Changed(rank0, rank, pq[k].cell);
      }
    }
    forall p | Changed(rank0, rank', p) ensures Entry(rank0[cur] + 1, p) in pq'[|pq0|..] {
      if p != next {
        assert Changed(rank0, rank, p);
      }
    }
    forall p | p in rank' && p !in fin ensures Entry(rank'[p], p) in pq' {
      if p != next {
        assert Entry(rank[p], p) in pq;
      }
    }
  }

  /** distance[ny][nx] = newDist: the matrix follows the distances with
      `next`'s updated and no other entry changes. */
  method Record(distance: array2<Dist>, next: Pos, newDist: nat, ghost rank: map<Pos, nat>, ghost rank': map<Pos, nat>)
    requires DistanceMatches(distance, rank) && 0 <= next.y < distance.Length0 && 0 <= next.x < distance.Length1
    requires rank' == rank[next := newDist]
    modifies distance
    ensures DistanceMatches(distance, rank')
    ensures forall y, x :: 0 <= y < distance.Length0 && 0 <= x < distance.Length1 && Pos(x, y) != next ==>
      distance[y, x] == old(distance[y, x])
  {
    distance[next.y, next.x] := Fin(newDist);
    forall y, x | 0 <= y < distance.Length0 && 0 <= x < distance.Length1
      ensures distance[y, x] == if Pos(x, y) in rank' then Fin(rank'[Pos(x, y)]) else Inf
    {
      if Pos(x, y) != next {
        assert old(distance[y, x]) == distance[y, x];
      }
    }
  }

  /** parent[ny][nx] = cur: `next` hangs off the finalised cell `cur` one
      step further on, and no other parent changes. */
  method Repoint(parent: array2<Pos>, cur: Pos, next: Pos, ghost newDist: nat, ghost open: set<Pos>, ghost start: Pos,
                 ghost rank0: map<Pos, nat>, ghost rank: map<Pos, nat>, ghost rank': map<Pos, nat>, ghost fin: set<Pos>,
                 ghost p0: map<Pos, Pos>)
    requires ParentTree(open, parent, start, rank) && ParentsFinal(parent, start, rank, fin)
    requires cur in rank0 && Repointed(parent, p0, cur, rank0, rank)
    requires cur in fin && next !in fin && cur in rank && next in open && Adjacent(cur, next)
    requires 0 <= next.y < parent.Length0 && 0 <= next.x < parent.Length1
    requires rank' == rank[next := newDist] && newDist == rank[cur] + 1 && (next in rank ==> newDist < rank[next])
    requires Changed(rank0, rank', next)
    modifies parent
    ensures parent[next.y, next.x] == cur
    ensures forall y, x :: 0 <= y < parent.Length0 && 0 <= x < parent.Length1 && Pos(x, y) != next ==> parent[y, x] == old(parent[y, x])
    ensures ParentTree(open, parent, start, rank') && ParentsFinal(parent, start, rank', fin)
    ensures Repointed(parent, p0, cur, rank0, rank')
  {
    parent[next.y, next.x] := cur;
    forall p | p in rank' && p != start ensures ParentLink(open, parent, rank', p) {
      if p != next {
        assert old(ParentLink(open, parent, rank, p));
        assert old(parent[p.y, p.x]) in fin;
      }
    }
    forall y, x | 0 <= y < parent.Length0 && 0 <= x < parent.Length1 && Pos(x, y) != next
      ensures Changed(rank0, rank', Pos(x, y)) == Changed(rank0, rank, Pos(x, y))
    {
    }
  }
}
