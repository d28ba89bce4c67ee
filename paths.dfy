/**
 * Walks through a maze, shortest walks, and the parent links both solvers
 * record (pathfinder/bfs.cpp and pathfinder/dijkstra.cpp share the path
 * reconstruction verbatim; it is defined once here). Walks are stated over
 * the set of passage cells of the grid, which neither solver changes.
 */
module Paths {
  import opened Grid

  ghost predicate InBounds(grid: array2<int>, p: Pos) {
    0 <= p.y < grid.Length0 && 0 <= p.x < grid.Length1
  }

  /** The passage cells of a grid: the in-bounds cells holding 1. */
  ghost function Passages(grid: array2<int>): (open: set<Pos>)
    reads grid
  {
    set y, x | 0 <= y < grid.Length0 && 0 <= x < grid.Length1 && grid[y, x] == Passage :: Pos(x, y)
  }

  /** The passage set `open` agrees with the grid on the four neighbours of `u`. */
  ghost predicate OpenAround(grid: array2<int>, open: set<Pos>, u: Pos)
    reads grid
  {
    forall d :: 0 <= d < 4 ==> (Step(u, d) in open <==> InBounds(grid, Step(u, d)) && grid[Step(u, d).y, Step(u, d).x] == Passage)
  }

  /** The passage set of a grid agrees with it around every cell. */
  lemma PassagesAround(grid: array2<int>, u: Pos)
    ensures OpenAround(grid, Passages(grid), u)
  {
    forall d | 0 <= d < 4
      ensures Step(u, d) in Passages(grid) <==> InBounds(grid, Step(u, d)) && grid[Step(u, d).y, Step(u, d).x] == Passage
    {
      var v := Step(u, d);
      if InBounds(grid, v) && grid[v.y, v.x] == Passage {
        assert v == Pos(v.x, v.y);
      }
    }
  }

  /** The visited marks of a search are set on exactly the cells of `marked`. */
  ghost predicate Marks(visited: array2<bool>, marked: set<Pos>)
    reads visited
  {
    && (forall y, x :: 0 <= y < visited.Length0 && 0 <= x < visited.Length1 ==> (visited[y, x] <==> Pos(x, y) in marked))
    && (forall p :: p in marked ==> 0 <= p.y < visited.Length0 && 0 <= p.x < visited.Length1)
  }

  /** The cell a walk ends at. */
  function Last(w: seq<Pos>): (p: Pos)
    requires w != []
  {
    w[|w| - 1]
  }

  /** A walk: consecutive cells are neighbours and every cell after the
      first is a passage. The first cell is where a search starts, which the
      solvers do not require to be a passage. */
  ghost predicate IsWalk(open: set<Pos>, w: seq<Pos>) {
    && w != []
    && forall i :: 0 < i < |w| ==> w[i] in open && Adjacent(w[i - 1], w[i])
  }

  ghost predicate WalkBetween(open: set<Pos>, start: Pos, end: Pos, w: seq<Pos>) {
    IsWalk(open, w) && w[0] == start && Last(w) == end
  }

  ghost predicate Reachable(open: set<Pos>, start: Pos, end: Pos) {
    exists w :: WalkBetween(open, start, end, w)
  }

  /** A walk from start to end with no fewer cells than any other such walk. */
  ghost predicate IsShortestWalk(open: set<Pos>, start: Pos, end: Pos, path: seq<Pos>) {
    && WalkBetween(open, start, end, path)
    && forall w :: WalkBetween(open, start, end, w) ==> |path| <= |w|
  }

  /** Two shortest walks between the same cells have the same number of
      cells, whichever solver found them. */
  lemma ShortestWalksAgree(open: set<Pos>, start: Pos, end: Pos, p1: seq<Pos>, p2: seq<Pos>)
    requires IsShortestWalk(open, start, end, p1) && IsShortestWalk(open, start, end, p2)
    ensures |p1| == |p2|
  {
    assert WalkBetween(open, start, end, p1) && WalkBetween(open, start, end, p2);
  }

  /** A cell labelled `n` all of whose walks from start have at least n steps. */
  ghost predicate NoShorterWalk(open: set<Pos>, start: Pos, u: Pos, n: nat) {
    forall w :: WalkBetween(open, start, u, w) ==> n + 1 <= |w|
  }

  /** `n` is the passage distance from start to u: the number of steps of a
      shortest walk. */
  ghost predicate IsDistance(open: set<Pos>, start: Pos, u: Pos, n: nat) {
    (exists w :: WalkBetween(open, start, u, w) && |w| == n + 1) && NoShorterWalk(open, start, u, n)
  }

  /** The parent matrix of a search, with the number of steps of each
      labelled cell: the start has no parent and 0 steps; every other
      labelled cell is a passage whose parent is a labelled neighbour one
      step closer. */
  ghost predicate ParentTree(open: set<Pos>, parent: array2<Pos>, start: Pos, rank: map<Pos, nat>)
    reads parent
  {
    && start in rank && rank[start] == 0
    && 0 <= start.y < parent.Length0 && 0 <= start.x < parent.Length1 && parent[start.y, start.x] == NoParent
    && (forall p :: p in rank ==> 0 <= p.y < parent.Length0 && 0 <= p.x < parent.Length1)
    && (forall p {:trigger ParentLink(open, parent, rank, p)} :: p in rank && p != start ==> ParentLink(open, parent, rank, p))
  }

  ghost predicate ParentLink(open: set<Pos>, parent: array2<Pos>, rank: map<Pos, nat>, p: Pos)
    reads parent
    requires p in rank && 0 <= p.y < parent.Length0 && 0 <= p.x < parent.Length1
  {
    var q := parent[p.y, p.x];
    q in rank && rank[p] == rank[q] + 1 && Adjacent(q, p) && p in open
  }

  /** The parent matrix as a map from cells to parents. */
  ghost function Snapshot(parent: array2<Pos>): (m: map<Pos, Pos>)
    reads parent
    ensures forall p :: p in m <==> 0 <= p.y < parent.Length0 && 0 <= p.x < parent.Length1
    ensures forall p :: p in m ==> m[p] == parent[p.y, p.x]
  {
    map y, x | 0 <= y < parent.Length0 && 0 <= x < parent.Length1 :: Pos(x, y) := parent[y, x]
  }

  /** A cell whose neighbours have all been labelled, none more than one step further. */
  ghost predicate Closed(open: set<Pos>, rank: map<Pos, nat>, u: Pos)
    requires u in rank
  {
    forall v :: v in open && Adjacent(u, v) ==> v in rank && rank[v] <= rank[u] + 1
  }

  /** The neighbour of `u` in direction `d`, if it is a passage, is labelled
      at most one step further than `u`: one direction's share of Closed. */
  ghost predicate NeighbourLabelled(open: set<Pos>, rank: map<Pos, nat>, u: Pos, d: int)
    requires 0 <= d < 4 && u in rank
  {
    Step(u, d) in open ==> Step(u, d) in rank && rank[Step(u, d)] <= rank[u] + 1
  }

  /** A cell is closed once each of its four directions is labelled. */
  lemma ClosedByDirections(open: set<Pos>, rank: map<Pos, nat>, u: Pos)
    requires u in rank && forall d :: 0 <= d < 4 ==> NeighbourLabelled(open, rank, u, d)
    ensures Closed(open, rank, u)
  {
    forall v | v in open && Adjacent(u, v) ensures v in rank && rank[v] <= rank[u] + 1 {
      var d := DirectionOf(u, v);
      assert NeighbourLabelled(open, rank, u, d);
    }
  }

  /** Cell j - 1 of a walk traced backwards is a passage next to cell j. */
  ghost predicate StepsBack(open: set<Pos>, trail: seq<Pos>, j: int)
    requires 0 < j < |trail|
  {
    trail[j - 1] in open && Adjacent(trail[j], trail[j - 1])
  }

  /** The first half of the path reconstruction of both solvers: follow the
      parent links from `end` until the (-1, -1) marker. The cells collected
      form a walk from end back to start, one cell per step of end's label. */
  method FollowParents(parent: array2<Pos>, end: Pos, ghost open: set<Pos>, ghost start: Pos, ghost rank: map<Pos, nat>)
    returns (trail: seq<Pos>)
    requires ParentTree(open, parent, start, rank)
    requires end in rank
    ensures |trail| == rank[end] + 1
    ensures trail[0] == end && Last(trail) == start
    ensures forall j :: 0 < j < |trail| ==> StepsBack(open, trail, j)
  {
    trail := [];
    var cur := end;
    while cur.x != -1 && cur.y != -1
      invariant cur == NoParent || cur in rank
      invariant forall j :: 0 <= j < |trail| ==> trail[j] in rank && rank[trail[j]] == rank[end] - j
      invariant forall j :: 0 < j < |trail| ==> StepsBack(open, trail, j)
      invariant trail == [] ==> cur == end
      invariant trail != [] ==> trail[0] == end && cur == parent[Last(trail).y, Last(trail).x]
      invariant cur in rank ==> rank[cur] == rank[end] - |trail|
      invariant cur == NoParent ==> trail != [] && Last(trail) == start
      decreases if cur in rank then rank[cur] + 1 else 0
    {
      if cur != start {
        assert ParentLink(open, parent, rank, cur);
      }
      ghost var before := trail;
      trail := trail + [cur];
      if before != [] {
        assert Last(before) != start && ParentLink(open, parent, rank, Last(before));
        assert StepsBack(open, trail, |before|);
      }
      forall j | 0 < j < |before| ensures StepsBack(open, trail, j) {
        assert StepsBack(open, before, j) && trail[j] == before[j] && trail[j - 1] == before[j - 1];
      }
      cur := parent[cur.y, cur.x];
    }
  }

  /** Labels that only shrink, or stay, on labelled cells keep a closed cell
      closed as long as its own label is unchanged. */
  lemma ClosedStaysClosed(open: set<Pos>, rank: map<Pos, nat>, rank': map<Pos, nat>, u: Pos)
    requires u in rank && Closed(open, rank, u)
    requires forall p :: p in rank ==> p in rank' && rank'[p] <= rank[p]
    requires rank'[u] == rank[u]
    ensures Closed(open, rank', u)
  {
    forall v | v in open && Adjacent(u, v) ensures v in rank' && rank'[v] <= rank'[u] + 1 {
      assert v in rank;
    }
  }

  /** The path reconstruction of both solvers: the parent links followed
      back from `end`, reversed. The result is a walk from start to end with
      one cell per step of end's label. */
  method ReconstructPath(parent: array2<Pos>, end: Pos, ghost open: set<Pos>, ghost start: Pos, ghost rank: map<Pos, nat>)
    returns (path: seq<Pos>)
    requires ParentTree(open, parent, start, rank)
    requires end in rank
    ensures WalkBetween(open, start, end, path)
    ensures |path| == rank[end] + 1
    ensures end == start ==> path == [start]
  {
    var trail := FollowParents(parent, end, open, start, rank);
    path := Reverse(trail);
    forall k | 0 < k < |path|
      ensures path[k] in open && Adjacent(path[k - 1], path[k])
    {
      var j := |trail| - 1 - k;
      assert path[k] == trail[j] && path[k - 1] == trail[j + 1];
      assert StepsBack(open, trail, j + 1);
    }
    if end == start {
      assert path == [start];
    }
  }

  /** std::reverse of the collected cells. */
  method Reverse(s: seq<Pos>) returns (r: seq<Pos>)
    ensures |r| == |s|
    ensures forall k :: 0 <= k < |s| ==> r[k] == s[|s| - 1 - k]
  {
    r := [];
    var i := |s|;
    while i > 0
      invariant 0 <= i <= |s|
      invariant |r| == |s| - i
      invariant forall k :: 0 <= k < |r| ==> r[k] == s[|s| - 1 - k]
    {
      i := i - 1;
      r := r + [s[i]];
    }
  }

  /** Induction over a walk from the start: given a set of closed labelled
      cells, the walk's last cell is labelled within the walk's number of
      steps, or some labelled cell that is not closed (the search's frontier)
      is labelled within that many steps. */
  lemma {:induction false} WalkMeetsFrontier(open: set<Pos>, start: Pos, rank: map<Pos, nat>, closed: set<Pos>, w: seq<Pos>)
    requires start in rank && rank[start] == 0
    requires forall u :: u in closed ==> u in rank && Closed(open, rank, u)
    requires IsWalk(open, w) && w[0] == start
    ensures || (Last(w) in rank && rank[Last(w)] <= |w| - 1)
            || (exists u :: u in rank && u !in closed && rank[u] <= |w| - 1)
  {
    if |w| > 1 {
      var prefix := w[..|w| - 1];
      assert IsWalk(open, prefix) by {
        forall i | 0 < i < |prefix| ensures prefix[i] in open && Adjacent(prefix[i - 1], prefix[i]) {
          assert prefix[i] == w[i] && prefix[i - 1] == w[i - 1];
        }
      }
      WalkMeetsFrontier(open, start, rank, closed, prefix);
      var u := Last(prefix);
      assert Adjacent(u, Last(w)) && Last(w) in open;
      if u in rank && rank[u] <= |prefix| - 1 && u in closed {
        assert Closed(open, rank, u);
      }
    }
  }

  /** A search that stops with every labelled cell closed has labelled every
      cell it can reach: a cell without a label is unreachable. */
  lemma UnreachableWhenAllClosed(open: set<Pos>, start: Pos, end: Pos, rank: map<Pos, nat>)
    requires start in rank && rank[start] == 0 && end !in rank
    requires forall u :: u in rank ==> Closed(open, rank, u)
    ensures !Reachable(open, start, end)
  {
    forall w | WalkBetween(open, start, end, w) ensures false {
      WalkMeetsFrontier(open, start, rank, rank.Keys, w);
    }
  }

  /** Following parent links from any labelled cell leads back to start in
      as many steps as the cell's label: the walk ReconstructPath returns
      exists for every labelled cell. */
  lemma {:induction false} TreeWalk(open: set<Pos>, parent: array2<Pos>, start: Pos, rank: map<Pos, nat>, p: Pos)
    returns (w: seq<Pos>)
    requires ParentTree(open, parent, start, rank) && p in rank
    ensures WalkBetween(open, start, p, w) && |w| == rank[p] + 1
    decreases rank[p]
  {
    if p == start {
      w := [start];
    } else {
      assert ParentLink(open, parent, rank, p);
      var q := parent[p.y, p.x];
      var w0 := TreeWalk(open, parent, start, rank, q);
      w := w0 + [p];
      forall i | 0 < i < |w| ensures w[i] in open && Adjacent(w[i - 1], w[i]) {
        if i < |w0| {
          assert w[i] == w0[i] && w[i - 1] == w0[i - 1];
        }
      }
    }
  }
}
