/** compute_distances of src/App.tsx: a breadth-first search from one cell over the
    passages that neighbors reports, writing hop counts into a record keyed by cell_id,
    and the largest of them (never below 1) under the reserved key "max". */
module Distances {
  import opened GridModel
  import opened MazeTypes

  /** The Record<string, number> the caller hands to compute_distances. */
  class DistanceRecord {
    var entries: map<string, int>

    constructor ()
      ensures entries == map[]
    {
      entries := map[];
    }
  }

  // ---------------------------------------------------------------------------
  // Reachability over the moves neighbors allows

  /** The moves the search may take: from an on-grid cell, the cells neighbors lists for it
      (next to it, with its own wall on that side open); from anywhere else, none. */
  function Moves(g: Grid): Pos -> seq<Pos>
  {
    p => if WellFormed(g) && InBounds(g, p) then OpenNeighborsOf(g, p) else []
  }

  /** u can be reached from s in at most k moves. */
  ghost predicate Within(next: Pos -> seq<Pos>, s: Pos, u: Pos, k: nat)
    decreases k
  {
    u == s || (k > 0 && exists p :: Within(next, s, p, k - 1) && u in next(p))
  }

  /** The fewest moves from s to u is k. */
  ghost predicate Shortest(next: Pos -> seq<Pos>, s: Pos, u: Pos, k: int)
  {
    k >= 0 && Within(next, s, u, k) && (k == 0 || !Within(next, s, u, k - 1))
  }

  ghost predicate Reachable(next: Pos -> seq<Pos>, s: Pos, u: Pos)
  {
    exists k: nat :: Within(next, s, u, k)
  }

  // ---------------------------------------------------------------------------
  // The search's invariants

  /** What holds of the search at every point: visited cells can be reached in the count
      D gives them, the start with 0; the queue holds visited cells whose counts are at
      least level, in non-decreasing order; no count exceeds level + 1; and every move
      from a cell done leads to a visited cell whose count is at most one more. */
  ghost predicate Searching(next: Pos -> seq<Pos>, s: Pos, visited: set<Pos>, queue: seq<Pos>, done: set<Pos>,
                            D: map<Pos, nat>, level: nat)
  {
    s in visited && D.Keys == visited && D[s] == 0 &&
    (forall v :: v in visited ==> Within(next, s, v, D[v]) && D[v] <= level + 1) &&
    (forall i :: 0 <= i < |queue| ==> queue[i] in visited && level <= D[queue[i]]) &&
    (forall i, j :: 0 <= i < j < |queue| ==> D[queue[i]] <= D[queue[j]]) &&
    done <= visited &&
    (forall p, u :: p in done && u in next(p) ==> u in visited && D[u] <= D[p] + 1)
  }

  /** The search at the head of its outer loop: every visited cell is done or queued. */
  ghost predicate Frontier(next: Pos -> seq<Pos>, s: Pos, visited: set<Pos>, queue: seq<Pos>, done: set<Pos>,
                           D: map<Pos, nat>, level: nat)
  {
    Searching(next, s, visited, queue, done, D, level) &&
    forall v :: v in visited ==> v in done || v in queue
  }

  /** The search while it looks at the i first moves from current, whose count is level. */
  ghost predicate Expanding(next: Pos -> seq<Pos>, s: Pos, visited: set<Pos>, queue: seq<Pos>, done: set<Pos>,
                            D: map<Pos, nat>, level: nat, current: Pos, i: int)
  {
    Searching(next, s, visited, queue, done, D, level) &&
    current in visited && D[current] == level && 0 <= i <= |next(current)| &&
    (forall j :: 0 <= j < i ==> next(current)[j] in visited) &&
    forall v :: v in visited ==> v in done || v in queue || v == current
  }

  lemma SearchStart(next: Pos -> seq<Pos>, s: Pos)
    ensures Frontier(next, s, {s}, [s], {}, map[s := 0], 0)
  {
    assert Within(next, s, s, 0);
  }

  /** Taking the front of the queue: its count, the smallest queued, becomes the level. */
  lemma Dequeue(next: Pos -> seq<Pos>, s: Pos, visited: set<Pos>, queue: seq<Pos>, done: set<Pos>,
                D: map<Pos, nat>, level: nat, rest: seq<Pos>)
    requires Frontier(next, s, visited, queue, done, D, level) && |queue| > 0 && rest == queue[1..]
    ensures Expanding(next, s, visited, rest, done, D, D[queue[0]], queue[0], 0)
  {
    QueueTail(visited, queue, D, rest);
  }

  /** The rest of a queue sorted by D holds what the queue held after its front, in order. */
  lemma QueueTail(visited: set<Pos>, queue: seq<Pos>, D: map<Pos, nat>, rest: seq<Pos>)
    requires visited <= D.Keys && |queue| > 0 && rest == queue[1..]
    requires forall i :: 0 <= i < |queue| ==> queue[i] in visited
    requires forall i, j :: 0 <= i < j < |queue| ==> D[queue[i]] <= D[queue[j]]
    ensures forall i :: 0 <= i < |rest| ==> rest[i] in visited && D[queue[0]] <= D[rest[i]]
    ensures forall i, j :: 0 <= i < j < |rest| ==> D[rest[i]] <= D[rest[j]]
    ensures forall v :: v in queue ==> v == queue[0] || v in rest
  {
    forall i | 0 <= i < |rest| ensures rest[i] == queue[i + 1] { }
    forall v | v in queue ensures v == queue[0] || v in rest {
      var i :| 0 <= i < |queue| && queue[i] == v;
      if i > 0 {
        assert rest[i - 1] == v;
      }
    }
  }

  /** Discovering the i-th move from current, to a cell not yet visited: that cell is one
      move further than current, and is visited and queued with count level + 1. */
  lemma Discover(next: Pos -> seq<Pos>, s: Pos, visited: set<Pos>, queue: seq<Pos>, done: set<Pos>,
                 D: map<Pos, nat>, level: nat, current: Pos, i: int, other: Pos, d: nat)
    requires Expanding(next, s, visited, queue, done, D, level, current, i)
    requires i < |next(current)| && other == next(current)[i] && other !in visited && d == level + 1
    ensures Expanding(next, s, visited + {other}, queue + [other], done, D[other := d], level, current, i + 1)
  {
    assert Within(next, s, other, level + 1);
  }

  /** Meeting a move from current to a cell already visited changes nothing. */
  lemma Revisit(next: Pos -> seq<Pos>, s: Pos, visited: set<Pos>, queue: seq<Pos>, done: set<Pos>,
                D: map<Pos, nat>, level: nat, current: Pos, i: int)
    requires Expanding(next, s, visited, queue, done, D, level, current, i)
    requires i < |next(current)| && next(current)[i] in visited
    ensures Expanding(next, s, visited, queue, done, D, level, current, i + 1)
  {
  }

  /** Once every move from current leads to a visited cell, current is done: no count
      exceeds level + 1, so each of those cells is at most one move further. */
  lemma ExpandDone(next: Pos -> seq<Pos>, s: Pos, visited: set<Pos>, queue: seq<Pos>, done: set<Pos>,
                   D: map<Pos, nat>, level: nat, current: Pos)
    requires Expanding(next, s, visited, queue, done, D, level, current, |next(current)|)
    ensures Frontier(next, s, visited, queue, done + {current}, D, level)
  {
    forall u | u in next(current) ensures u in visited && D[u] <= D[current] + 1 {
      var j :| 0 <= j < |next(current)| && next(current)[j] == u;
    }
  }

  /** When the queue is empty every visited cell is done, so the visited cells are closed
      under moves: they are exactly the cells reachable from s, and each count is the
      fewest moves. */
  lemma SearchDone(next: Pos -> seq<Pos>, s: Pos, visited: set<Pos>, done: set<Pos>, D: map<Pos, nat>, level: nat)
    requires Frontier(next, s, visited, [], done, D, level)
    ensures forall u :: u in visited <==> Reachable(next, s, u)
    ensures forall u :: u in visited ==> Shortest(next, s, u, D[u])
  {
    forall u ensures u in visited <==> Reachable(next, s, u) {
      if u in visited {
        assert Within(next, s, u, D[u]);
      } else if Reachable(next, s, u) {
        var k: nat :| Within(next, s, u, k);
        ClosedUnderMoves(next, s, visited, done, D, level, u, k);
      }
    }
    forall u | u in visited ensures Shortest(next, s, u, D[u]) {
      if D[u] > 0 && Within(next, s, u, D[u] - 1) {
        ClosedUnderMoves(next, s, visited, done, D, level, u, D[u] - 1);
      }
    }
  }

  /** Every cell within k moves is visited with a count of at most k. */
  lemma {:induction false} ClosedUnderMoves(next: Pos -> seq<Pos>, s: Pos, visited: set<Pos>, done: set<Pos>,
                                            D: map<Pos, nat>, level: nat, u: Pos, k: nat)
    requires Frontier(next, s, visited, [], done, D, level)
    requires Within(next, s, u, k)
    ensures u in visited && D[u] <= k
    decreases k
  {
    if u != s {
      var p :| Within(next, s, p, k - 1) && u in next(p);
      ClosedUnderMoves(next, s, visited, done, D, level, p, k - 1);
      assert p in done;
    }
  }

  /** A neighbor of an on-grid cell is on the grid. */
  lemma NeighborOnGrid(g: Grid, p: Pos, q: Pos)
    requires WellFormed(g) && InBounds(g, p) && q in OpenNeighborsOf(g, p)
    ensures InBounds(g, q)
  {
    OpenNeighborsOfMembers(g, p);
  }

  /** Visiting more on-grid cells leaves fewer cells of the grid unvisited. */
  lemma FewerUnvisited(g: Grid, a: set<Pos>, b: set<Pos>, v: Pos)
    requires a <= b && v in b && v !in a && forall u :: u in b ==> InBounds(g, u)
    ensures AllCells(g.rows, g.columns) - b < AllCells(g.rows, g.columns) - a
  {
    assert v == Pos(v.x, v.y);
    assert v in AllCells(g.rows, g.columns);
  }

  // ---------------------------------------------------------------------------
  // What the search writes into the record

  /** The keys compute_distances writes for the given cells. */
  ghost function Ids(cells: set<Pos>): set<string>
  {
    set p | p in cells :: CellId(p)
  }

  /** The record holds D under the cells' keys and, under every other key, what it held before. */
  ghost predicate Recorded(entries: map<string, int>, before: map<string, int>, D: map<Pos, nat>)
  {
    (forall v :: v in D ==> CellId(v) in entries && entries[CellId(v)] == D[v]) &&
    (forall k :: k !in Ids(D.Keys) ==> (k in entries <==> k in before) && (k in before ==> entries[k] == before[k]))
  }

  /** Writing the count of a new cell keeps the record in step with D. */
  lemma RecordWrite(entries: map<string, int>, before: map<string, int>, D: map<Pos, nat>, v: Pos, n: nat)
    requires Recorded(entries, before, D) && v !in D
    ensures Recorded(entries[CellId(v) := n], before, D[v := n])
  {
    forall w | w in D ensures CellId(w) != CellId(v) {
      CellIdInjective(w, v);
    }
    IdsInsert(D, v, n);
  }

  lemma IdsInsert(D: map<Pos, nat>, v: Pos, n: nat)
    ensures Ids(D[v := n].Keys) == Ids(D.Keys) + {CellId(v)}
  {
    assert D[v := n].Keys == D.Keys + {v};
  }

  /** No cell's key is the reserved "max". */
  lemma MaxKeyFree(cells: set<Pos>)
    ensures "max" !in Ids(cells)
  {
    forall p | p in cells ensures CellId(p) != "max" {
      CellIdInjective(p, p);
    }
  }

  /** Math.max. */
  function Max(a: int, b: int): (m: int)
    ensures m >= a && m >= b && (m == a || m == b)
  {
    if a >= b then a else b
  }

  /** The running maximum is at least 1, at least every count so far, and one of them or 1. */
  ghost predicate MaxCovers(m: int, D: map<Pos, nat>)
  {
    m >= 1 && (forall v :: v in D ==> D[v] <= m) && (m == 1 || exists v :: v in D && D[v] == m)
  }

  // ---------------------------------------------------------------------------
  // The search

  /** One step of the inner loop of compute_distances: the i-th neighbor of current is
      recorded and queued one further than current unless it was already visited. */
  method VisitNeighbor(ghost g: Grid, ghost next: Pos -> seq<Pos>, cell: Pos, distances: DistanceRecord,
                       ghost before: map<string, int>, visited: set<Pos>, queue: seq<Pos>, ghost done: set<Pos>,
                       ghost D: map<Pos, nat>, ghost level: nat, current: Pos, n: seq<Pos>, i: nat,
                       maxDistance: int)
    returns (visited': set<Pos>, queue': seq<Pos>, ghost D': map<Pos, nat>, maxDistance': int, ghost added: bool)
    requires WellFormed(g) && InBounds(g, current)
    requires n == next(current) && n == OpenNeighborsOf(g, current) && i < |n|
    requires Expanding(next, cell, visited, queue, done, D, level, current, i)
    requires forall v :: v in visited ==> InBounds(g, v)
    requires Recorded(distances.entries, before, D) && MaxCovers(maxDistance, D)
    modifies distances
    ensures Expanding(next, cell, visited', queue', done, D', level, current, i + 1)
    ensures forall v :: v in visited' ==> InBounds(g, v)
    ensures Recorded(distances.entries, before, D') && MaxCovers(maxDistance', D')
    ensures visited <= visited'
    ensures added ==> n[i] !in visited && n[i] in visited'
    ensures !added ==> visited' == visited && queue' == queue
  {
    var other := n[i];
    if other !in visited {
      NeighborOnGrid(g, current, other);
      var d := distances.entries[CellId(current)] + 1;
      Discover(next, cell, visited, queue, done, D, level, current, i, other, d);
      RecordWrite(distances.entries, before, D, other, d);
      distances.entries := distances.entries[CellId(other) := d];
      visited' := visited + {other};
      queue' := queue + [other];
      D' := D[other := d];
      maxDistance' := Max(maxDistance, d);
      added := true;
    } else {
      Revisit(next, cell, visited, queue, done, D, level, current, i);
      visited', queue', D', maxDistance', added := visited, queue, D, maxDistance, false;
    }
  }

  /** compute_distances: breadth-first from cell. Every cell reachable from it gets its
      fewest-moves count, "max" gets the largest count or 1, and every other key keeps
      what it held before the call. The ghost result reached is the set of cells written. */
  method ComputeDistances(cell: Pos, maze: Maze, distances: DistanceRecord) returns (ghost reached: set<Pos>)
    requires maze.Valid() && InBounds(maze.Snapshot(), cell)
    modifies distances
    ensures forall u :: u in reached <==> Reachable(Moves(maze.Snapshot()), cell, u)
    ensures forall u :: u in reached ==>
      CellId(u) in distances.entries && Shortest(Moves(maze.Snapshot()), cell, u, distances.entries[CellId(u)])
    ensures "max" in distances.entries && distances.entries["max"] >= 1
    ensures forall u :: u in reached ==> distances.entries[CellId(u)] <= distances.entries["max"]
    ensures distances.entries["max"] == 1 ||
      exists u :: u in reached && distances.entries[CellId(u)] == distances.entries["max"]
    ensures forall k :: k != "max" && k !in Ids(reached) ==>
      (k in distances.entries <==> k in old(distances.entries)) &&
      (k in old(distances.entries) ==> distances.entries[k] == old(distances.entries)[k])
  {
    ghost var g := maze.Snapshot();
    ghost var next := Moves(g);
    ghost var before := distances.entries;
    var queue: seq<Pos> := [cell];
    var visited: set<Pos> := {cell};
    distances.entries := distances.entries[CellId(cell) := 0];
    ghost var D: map<Pos, nat> := map[cell := 0];
    ghost var done: set<Pos> := {};
    ghost var level: nat := 0;
    SearchStart(next, cell);
    RecordWrite(before, before, map[], cell, 0);
    assert map[][cell := 0] == D;

    var current: Pos;
    var maxDistance := 1;
    while |queue| > 0
      invariant g == maze.Snapshot()
      invariant Frontier(next, cell, visited, queue, done, D, level)
      invariant forall v :: v in visited ==> InBounds(g, v)
      invariant Recorded(distances.entries, before, D)
      invariant MaxCovers(maxDistance, D)
      decreases AllCells(g.rows, g.columns) - visited, |queue|
    {
      ghost var visited0, queue0 := visited, queue;
      current := queue[0];
      Dequeue(next, cell, visited, queue, done, D, level, queue[1..]);
      queue := queue[1..];
      level := D[current];
      var n := Neighbors(current, maze);
      var i := 0;
      ghost var grown, w := false, current;
      while i < |n|
        invariant g == maze.Snapshot() && WellFormed(g) && InBounds(g, current)
        invariant n == next(current) && n == OpenNeighborsOf(g, current)
        invariant Expanding(next, cell, visited, queue, done, D, level, current, i)
        invariant forall v :: v in visited ==> InBounds(g, v)
        invariant Recorded(distances.entries, before, D)
        invariant MaxCovers(maxDistance, D)
        invariant visited0 <= visited
        invariant grown ==> w in visited && w !in visited0
        invariant !grown ==> visited == visited0 && |queue| == |queue0| - 1
      {
        ghost var added;
        visited, queue, D, maxDistance, added :=
          VisitNeighbor(g, next, cell, distances, before, visited, queue, done, D, level, current, n, i, maxDistance);
        if added {
          grown, w := true, n[i];
        }
        i := i + 1;
      }
      ExpandDone(next, cell, visited, queue, done, D, level, current);
      done := done + {current};
      if grown {
        FewerUnvisited(g, visited0, visited, w);
      }
    }
    SearchDone(next, cell, visited, done, D, level);
    MaxKeyFree(visited);
    distances.entries := distances.entries["max" := maxDistance];
    reached := visited;
  }
}
