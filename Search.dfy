/** The graph the wave explores and the facts about its visit table, stated
    on values: the visit table as a sequence, the hop depths as a map and the
    queue as a sequence. The class in module `Wave` keeps its state in this
    shape and proves its methods with the lemmas here. */
module Search {
  import opened Grid

  /** What the search reads: the grid's shape, channel values of the cleaned
      image, and the chosen start and finish. */
  datatype Maze = Maze(rows: nat, cols: nat, plane: seq<seq<Pixel>>, start: Point, finish: Point)

  /** The pixel of the cleaned image at `p`. */
  function Colour(m: Maze, p: Point): Pixel
  {
    if 0 <= p.x < |m.plane| && 0 <= p.y < |m.plane[p.x]| then m.plane[p.x][p.y] else Black
  }

  /** The wave may step from `u` onto `v`: both inside the grid, neighbours,
      and `v` is the finish or passes the walkability test coming from `u`. */
  ghost predicate Step(m: Maze, u: Point, v: Point)
  {
    InBounds(u, m.rows, m.cols) && InBounds(v, m.rows, m.cols) && Adjacent(u, v) &&
    (v == m.finish || Walkable(Colour(m, u), Colour(m, v)))
  }

  /** `r` is a walk written backwards, as the backtrace reads it: `r[0]` is
      where it ends and each cell is one step away from the cell after it. */
  ghost predicate IsRoute(m: Maze, r: seq<Point>)
  {
    |r| >= 1 && forall i :: 0 <= i < |r| - 1 ==> Step(m, r[i + 1], r[i])
  }

  ghost predicate RouteTo(m: Maze, r: seq<Point>, p: Point)
  {
    IsRoute(m, r) && r[0] == p && r[|r| - 1] == m.start
  }

  /** Every walk from the start to `p` takes at least `k` steps. */
  ghost predicate NoShorter(m: Maze, p: Point, k: int)
  {
    forall r {:trigger RouteTo(m, r, p)} :: RouteTo(m, r, p) ==> |r| - 1 >= k
  }

  /** No walk at all leads from the start to `p`. */
  ghost predicate Unreachable(m: Maze, p: Point)
  {
    forall r :: !RouteTo(m, r, p)
  }

  lemma {:induction false} RouteTail(m: Maze, r: seq<Point>)
    requires IsRoute(m, r) && |r| > 1
    ensures IsRoute(m, r[1..])
  {
    var t := r[1..];
    forall i | 0 <= i < |t| - 1 ensures Step(m, t[i + 1], t[i]) {
      assert Step(m, r[i + 2], r[i + 1]);
    }
  }

  /** How many entries of a visit table are still unvisited (`-1`). */
  function Unvisited(s: seq<int>): (n: nat)
    ensures n <= |s|
  {
    if s == [] then 0 else (if s[0] == -1 then 1 else 0) + Unvisited(s[1..])
  }

  /** Recording a cell removes exactly one unvisited entry. */
  lemma {:induction false} UnvisitedUpdate(s: seq<int>, k: int, v: int)
    requires 0 <= k < |s| && s[k] == -1 && v != -1
    ensures Unvisited(s[k := v]) == Unvisited(s) - 1
  {
    if k == 0 {
      assert s[k := v][1..] == s[1..];
    } else {
      assert s[k := v][1..] == s[1..][k - 1 := v];
      UnvisitedUpdate(s[1..], k - 1, v);
    }
  }

  /** Cell `p` has a record in the visit table `vis`. */
  ghost predicate Visited(m: Maze, vis: seq<int>, p: Point)
  {
    InBounds(p, m.rows, m.cols) && 0 <= Index(p, m.cols) < |vis| && vis[Index(p, m.cols)] != -1
  }

  ghost function Record(m: Maze, vis: seq<int>, p: Point): int
    requires Visited(m, vis, p)
  {
    vis[Index(p, m.cols)]
  }

  /** What a visited cell's record says: the start holds `0` at depth 0; any
      other cell holds the index of a visited cell one hop shallower from
      which the wave may step onto it. (The predecessor's record is read off
      the table directly, not through `Visited`, so that the quantifier in
      `Tree` does not feed itself.) */
  ghost predicate Parent(m: Maze, vis: seq<int>, dist: map<Point, nat>, p: Point)
    requires Visited(m, vis, p)
  {
    var r := Record(m, vis, p);
    p in dist && 0 <= r < |vis| &&
    if dist[p] == 0 then p == m.start && r == 0
    else
      var q := Decode(r, m.cols);
      vis[r] != -1 && q in dist && dist[q] + 1 == dist[p] && Step(m, q, p)
  }

  /** The visit records form a tree rooted at the start, deepening by one hop
      along every record. */
  ghost predicate Tree(m: Maze, vis: seq<int>, dist: map<Point, nat>)
  {
    |vis| == Times(m.rows, m.cols) &&
    forall p :: Visited(m, vis, p) ==> Parent(m, vis, dist, p)
  }

  /** The predecessor named by a record other than the start's is visited. */
  lemma ParentVisited(m: Maze, vis: seq<int>, dist: map<Point, nat>, p: Point)
    requires Tree(m, vis, dist) && Visited(m, vis, p) && dist[p] > 0
    ensures Visited(m, vis, Decode(Record(m, vis, p), m.cols))
    ensures Index(Decode(Record(m, vis, p), m.cols), m.cols) == Record(m, vis, p)
  {
    IndexDecode(Record(m, vis, p), m.rows, m.cols);
  }

  /** The cells `ExtractAndDrawWay` paints starting from `p`: follow the
      records until the index decodes to `Point(0, 0)`, which is not painted. */
  ghost function Chain(m: Maze, vis: seq<int>, dist: map<Point, nat>, p: Point): seq<Point>
    requires Tree(m, vis, dist) && (p == Point(0, 0) || Visited(m, vis, p))
    decreases if p == Point(0, 0) then 0 else dist[p] + 1
  {
    if p == Point(0, 0) then []
    else
      var q := Decode(Record(m, vis, p), m.cols);
      DecodeZero(m.cols);
      if dist[p] > 0 then ParentVisited(m, vis, dist, p); [p] + Chain(m, vis, dist, q)
      else [p] + Chain(m, vis, dist, q)
  }

  /** The whole recorded chain from `p` back to the start. */
  ghost function Back(m: Maze, vis: seq<int>, dist: map<Point, nat>, p: Point): seq<Point>
    requires Tree(m, vis, dist) && Visited(m, vis, p)
    decreases dist[p]
  {
    if dist[p] == 0 then [p]
    else ParentVisited(m, vis, dist, p); [p] + Back(m, vis, dist, Decode(Record(m, vis, p), m.cols))
  }

  /** The records along `b` point each cell to the next one, ending at the
      start's `0`. */
  ghost predicate Recorded(m: Maze, vis: seq<int>, b: seq<Point>)
  {
    |b| >= 1 &&
    (forall i :: 0 <= i < |b| ==> Visited(m, vis, b[i])) &&
    (forall i :: 0 <= i < |b| - 1 ==> Record(m, vis, b[i]) == Index(b[i + 1], m.cols)) &&
    Record(m, vis, b[|b| - 1]) == 0
  }

  /** Following the records back from a visited cell walks a route from the
      start whose number of steps is the cell's depth. */
  lemma {:induction false} BackIsRoute(m: Maze, vis: seq<int>, dist: map<Point, nat>, p: Point)
    requires Tree(m, vis, dist) && Visited(m, vis, p)
    ensures |Back(m, vis, dist, p)| == dist[p] + 1
    ensures RouteTo(m, Back(m, vis, dist, p), p) && Recorded(m, vis, Back(m, vis, dist, p))
    decreases dist[p]
  {
    if dist[p] > 0 {
      var q := Decode(Record(m, vis, p), m.cols);
      ParentVisited(m, vis, dist, p);
      BackIsRoute(m, vis, dist, q);
      var t := Back(m, vis, dist, q);
      assert Back(m, vis, dist, p) == [p] + t;
      RouteCons(m, p, t);
      RecordedCons(m, vis, p, t);
    }
  }

  /** A step onto `p` from the end of a walk extends the walk. */
  lemma RouteCons(m: Maze, p: Point, t: seq<Point>)
    requires IsRoute(m, t) && Step(m, t[0], p)
    ensures IsRoute(m, [p] + t)
  {
    var b := [p] + t;
    forall i | 0 <= i < |b| - 1 ensures Step(m, b[i + 1], b[i]) {
      if i > 0 {
        assert b[i] == t[i - 1] && b[i + 1] == t[i];
      }
    }
  }

  /** A visited cell whose record names the first cell of `t` extends the
      recorded chain `t`. */
  lemma RecordedCons(m: Maze, vis: seq<int>, p: Point, t: seq<Point>)
    requires Recorded(m, vis, t) && Visited(m, vis, p) && Record(m, vis, p) == Index(t[0], m.cols)
    ensures Recorded(m, vis, [p] + t)
  {
    var b := [p] + t;
    forall i | 0 <= i < |b| - 1 ensures Record(m, vis, b[i]) == Index(b[i + 1], m.cols) {
      if i > 0 {
        assert b[i] == t[i - 1] && b[i + 1] == t[i];
      }
    }
  }

  /** What is painted is the recorded chain back from `p` up to, and not
      including, its first cell that is `Point(0, 0)`. */
  lemma {:induction false} ChainIsPrefix(m: Maze, vis: seq<int>, dist: map<Point, nat>, p: Point)
    requires Tree(m, vis, dist) && Visited(m, vis, p)
    ensures |Chain(m, vis, dist, p)| <= |Back(m, vis, dist, p)|
    ensures Chain(m, vis, dist, p) == Back(m, vis, dist, p)[..|Chain(m, vis, dist, p)|]
    ensures Point(0, 0) !in Chain(m, vis, dist, p)
    ensures |Chain(m, vis, dist, p)| == |Back(m, vis, dist, p)| ||
            Back(m, vis, dist, p)[|Chain(m, vis, dist, p)|] == Point(0, 0)
    decreases dist[p]
  {
    if p != Point(0, 0) {
      var q := Decode(Record(m, vis, p), m.cols);
      DecodeZero(m.cols);
      if dist[p] > 0 && q != Point(0, 0) {
        ParentVisited(m, vis, dist, p);
        ChainIsPrefix(m, vis, dist, q);
      }
    }
  }

  /** The backtrace painted `route`: the prefix of the recorded walk `trail`
      from the finish back to the start that stops before `Point(0, 0)`;
      and no walk from the start to the finish is shorter than `trail`. */
  ghost predicate Backtraced(m: Maze, vis: seq<int>, route: seq<Point>, trail: seq<Point>)
  {
    RouteTo(m, trail, m.finish) && NoShorter(m, m.finish, |trail| - 1) && Recorded(m, vis, trail) &&
    |route| <= |trail| && route == trail[..|route|] && Point(0, 0) !in route &&
    (|route| == |trail| || trail[|route|] == Point(0, 0))
  }

  // ---------------------------------------------------------------------
  // The invariant of the search loop, piece by piece.

  /** The start is recorded at depth 0. */
  ghost predicate Seeded(m: Maze, vis: seq<int>, dist: map<Point, nat>)
  {
    Visited(m, vis, m.start) && m.start in dist && dist[m.start] == 0
  }

  /** The depth of a cell, `0` for one the search has not recorded. */
  ghost function Depth(dist: map<Point, nat>, p: Point): nat
  {
    if p in dist then dist[p] else 0
  }

  /** Every queued cell is recorded, at depth `level` or `level + 1`, and
      depths do not decrease from the front of the queue to its back. */
  ghost predicate Layered(m: Maze, vis: seq<int>, dist: map<Point, nat>, queue: seq<Point>, level: nat)
  {
    (forall i :: 0 <= i < |queue| ==>
       Visited(m, vis, queue[i]) && queue[i] in dist && level <= dist[queue[i]] <= level + 1) &&
    (forall i, j {:trigger Depth(dist, queue[i]), Depth(dist, queue[j])} :: 0 <= i < j < |queue| ==>
       Depth(dist, queue[i]) <= Depth(dist, queue[j]))
  }

  /** Every cell of `done` is recorded no deeper than `level`, and every cell
      the wave may step onto from it is recorded. */
  ghost predicate Closed(m: Maze, vis: seq<int>, dist: map<Point, nat>, level: nat, done: set<Point>)
  {
    forall u :: u in done ==>
      Visited(m, vis, u) && u in dist && dist[u] <= level &&
      forall v {:trigger Step(m, u, v)} :: Step(m, u, v) ==> Visited(m, vis, v)
  }

  /** Every recorded cell has a depth of at most `level + 1` and no walk
      from the start reaches it in fewer steps. */
  ghost predicate Shortest(m: Maze, vis: seq<int>, dist: map<Point, nat>, level: nat)
  {
    forall p :: Visited(m, vis, p) ==> p in dist && dist[p] <= level + 1 && NoShorter(m, p, dist[p])
  }

  /** A recorded cell not yet expanded is at depth `level` or deeper, and is
      queued, being expanded (`pending`), or is the finish. */
  ghost predicate Frontier(m: Maze, vis: seq<int>, dist: map<Point, nat>, queue: seq<Point>,
                           level: nat, done: set<Point>, pending: set<Point>)
  {
    forall p :: Visited(m, vis, p) && p !in done ==>
      p in dist && level <= dist[p] &&
      (p in queue || p in pending || (p == m.finish && p != m.start))
  }

  ghost predicate Searching(m: Maze, vis: seq<int>, dist: map<Point, nat>, queue: seq<Point>,
                            level: nat, done: set<Point>, pending: set<Point>)
  {
    Tree(m, vis, dist) && Seeded(m, vis, dist) && Layered(m, vis, dist, queue, level) &&
    Closed(m, vis, dist, level, done) && Shortest(m, vis, dist, level) &&
    Frontier(m, vis, dist, queue, level, done, pending)
  }

  /** Breadth-first order: a walk of at most `level` steps from the start
      only reaches recorded cells. */
  lemma {:induction false} ShortRoutesVisited(m: Maze, vis: seq<int>, dist: map<Point, nat>, queue: seq<Point>,
                                              level: nat, done: set<Point>, pending: set<Point>, r: seq<Point>)
    requires Searching(m, vis, dist, queue, level, done, pending)
    requires IsRoute(m, r) && r[|r| - 1] == m.start && |r| - 1 <= level
    ensures Visited(m, vis, r[0])
    decreases |r|
  {
    if |r| > 1 {
      RouteTail(m, r);
      ShortRoutesVisited(m, vis, dist, queue, level, done, pending, r[1..]);
      assert RouteTo(m, r[1..], r[1]);
      assert Step(m, r[1], r[0]);
    }
  }

  /** A cell the search has not recorded yet is more than `level` steps away. */
  lemma FreshIsFar(m: Maze, vis: seq<int>, dist: map<Point, nat>, queue: seq<Point>,
                   level: nat, done: set<Point>, pending: set<Point>, v: Point)
    requires Searching(m, vis, dist, queue, level, done, pending)
    requires !Visited(m, vis, v)
    ensures NoShorter(m, v, level + 1)
  {
    forall r | RouteTo(m, r, v) ensures |r| - 1 >= level + 1 {
      if |r| - 1 <= level {
        ShortRoutesVisited(m, vis, dist, queue, level, done, pending, r);
      }
    }
  }

  /** Once the queue is empty without the finish recorded, every walk from
      the start ends at a recorded cell. */
  lemma {:induction false} AllRoutesVisited(m: Maze, vis: seq<int>, dist: map<Point, nat>,
                                            level: nat, done: set<Point>, r: seq<Point>)
    requires Searching(m, vis, dist, [], level, done, {})
    requires Visited(m, vis, m.finish) ==> m.finish == m.start
    requires IsRoute(m, r) && r[|r| - 1] == m.start
    ensures Visited(m, vis, r[0])
    decreases |r|
  {
    if |r| > 1 {
      RouteTail(m, r);
      AllRoutesVisited(m, vis, dist, level, done, r[1..]);
      assert Step(m, r[1], r[0]);
    }
  }

  /** When the queue runs dry without the finish recorded, either the start
      is the finish or no walk leads to the finish. */
  lemma Exhausted(m: Maze, vis: seq<int>, dist: map<Point, nat>, level: nat, done: set<Point>)
    requires Searching(m, vis, dist, [], level, done, {})
    requires !(Visited(m, vis, m.finish) && m.finish != m.start)
    ensures m.finish == m.start || Unreachable(m, m.finish)
  {
    forall r | RouteTo(m, r, m.finish) ensures m.finish == m.start {
      AllRoutesVisited(m, vis, dist, level, done, r);
    }
  }

  // ---------------------------------------------------------------------
  // How each step of the search keeps the invariant.

  /** The wave may accept `v` as a new cell reached from `u`. */
  ghost predicate Accepts(m: Maze, vis: seq<int>, u: Point, v: Point)
  {
    InBounds(v, m.rows, m.cols) && 0 <= Index(v, m.cols) < |vis| && vis[Index(v, m.cols)] == -1 &&
    Step(m, u, v)
  }

  /** `b` keeps every record of `a` and only fills entries that were `-1`. */
  ghost predicate Extends(a: seq<int>, b: seq<int>)
  {
    |a| == |b| && forall k :: 0 <= k < |a| && a[k] != -1 ==> b[k] == a[k]
  }

  lemma ExtendsVisited(m: Maze, a: seq<int>, b: seq<int>, p: Point)
    requires Extends(a, b) && Visited(m, a, p)
    ensures Visited(m, b, p) && Record(m, b, p) == Record(m, a, p)
  {
  }

  /** Writing one unvisited entry adds exactly that cell to the recorded ones. */
  lemma WriteVisited(m: Maze, vis: seq<int>, np: Point, x: int)
    requires InBounds(np, m.rows, m.cols) && 0 <= Index(np, m.cols) < |vis|
    requires vis[Index(np, m.cols)] == -1 && x != -1
    ensures var vis' := vis[Index(np, m.cols) := x];
      Extends(vis, vis') &&
      (forall p :: Visited(m, vis', p) <==> p == np || Visited(m, vis, p)) &&
      Record(m, vis', np) == x
  {
    var k := Index(np, m.cols);
    var vis' := vis[k := x];
    forall p | Visited(m, vis', p) && p != np ensures Visited(m, vis, p) {
      if Index(p, m.cols) == k {
        IndexInjective(p, np, m.rows, m.cols);
      }
    }
  }

  /** Recording `np` from `cur` one hop deeper keeps the tree a tree. */
  lemma TreeAfterDiscover(m: Maze, vis: seq<int>, dist: map<Point, nat>, cur: Point, np: Point)
    requires Tree(m, vis, dist) && Visited(m, vis, cur) && cur in dist && Accepts(m, vis, cur, np)
    ensures 0 <= Index(np, m.cols) < |vis|
    ensures Tree(m, vis[Index(np, m.cols) := Index(cur, m.cols)], dist[np := dist[cur] + 1])
  {
    IndexInRange(cur, m.rows, m.cols);
    WriteVisited(m, vis, np, Index(cur, m.cols));
    var vis', dist' := vis[Index(np, m.cols) := Index(cur, m.cols)], dist[np := dist[cur] + 1];
    DecodeIndex(cur, m.rows, m.cols);
    assert Parent(m, vis', dist', np);
    forall p | Visited(m, vis', p) ensures Parent(m, vis', dist', p) {
      if p != np {
        assert Parent(m, vis, dist, p);
        if dist[p] > 0 {
          ParentVisited(m, vis, dist, p);
        }
      }
    }
  }

  /** The pieces of the invariant that a new record leaves alone, given
      that `vis'` only adds `np` to the recorded cells. */
  lemma ExtendsKeeps(m: Maze, vis: seq<int>, vis': seq<int>, dist: map<Point, nat>, queue: seq<Point>,
                     level: nat, done: set<Point>, np: Point, d: nat)
    requires Extends(vis, vis') && !Visited(m, vis, np)
    requires Seeded(m, vis, dist) && Layered(m, vis, dist, queue, level) && Closed(m, vis, dist, level, done)
    ensures Seeded(m, vis', dist[np := d])
    ensures Layered(m, vis', dist[np := d], queue, level)
    ensures Closed(m, vis', dist[np := d], level, done)
  {
    var dist' := dist[np := d];
    ExtendsVisited(m, vis, vis', m.start);
    forall i | 0 <= i < |queue|
      ensures queue[i] != np && Visited(m, vis', queue[i]) && dist'[queue[i]] == dist[queue[i]]
      ensures Depth(dist', queue[i]) == Depth(dist, queue[i])
    {
      ExtendsVisited(m, vis, vis', queue[i]);
    }
    forall u | u in done
      ensures Visited(m, vis', u) && u in dist' && dist'[u] <= level &&
              forall v :: Step(m, u, v) ==> Visited(m, vis', v)
    {
      ExtendsVisited(m, vis, vis', u);
      forall v | Step(m, u, v) ensures Visited(m, vis', v) {
        ExtendsVisited(m, vis, vis', v);
      }
    }
  }

  /** Depth bounds and the frontier survive the new record `np` at depth
      `level + 1`, which no walk reaches in fewer steps. */
  lemma GrowKeeps(m: Maze, vis: seq<int>, vis': seq<int>, dist: map<Point, nat>, queue: seq<Point>,
                  level: nat, done: set<Point>, cur: Point, np: Point)
    requires forall p :: Visited(m, vis', p) <==> p == np || Visited(m, vis, p)
    requires !Visited(m, vis, np) && NoShorter(m, np, level + 1)
    requires Shortest(m, vis, dist, level) && Frontier(m, vis, dist, queue, level, done, {cur})
    ensures Shortest(m, vis', dist[np := level + 1], level)
    ensures Frontier(m, vis', dist[np := level + 1], queue, level, done, {cur, np})
  {
  }

  /** `visits_[index_new] = index_from` keeps the search invariant, with the
      new cell counted as being expanded until it is queued. */
  lemma DiscoverKeeps(m: Maze, vis: seq<int>, dist: map<Point, nat>, queue: seq<Point>,
                      level: nat, done: set<Point>, cur: Point, np: Point)
    requires Searching(m, vis, dist, queue, level, done, {cur})
    requires Visited(m, vis, cur) && cur in dist && dist[cur] == level && Accepts(m, vis, cur, np)
    ensures 0 <= Index(np, m.cols) < |vis|
    ensures Searching(m, vis[Index(np, m.cols) := Index(cur, m.cols)], dist[np := level + 1],
                      queue, level, done, {cur, np})
  {
    FreshIsFar(m, vis, dist, queue, level, done, {cur}, np);
    IndexInRange(cur, m.rows, m.cols);
    WriteVisited(m, vis, np, Index(cur, m.cols));
    TreeAfterDiscover(m, vis, dist, cur, np);
    var vis' := vis[Index(np, m.cols) := Index(cur, m.cols)];
    ExtendsKeeps(m, vis, vis', dist, queue, level, done, np, level + 1);
    GrowKeeps(m, vis, vis', dist, queue, level, done, cur, np);
  }

  /** Queueing a cell recorded at depth `level + 1` keeps the invariant and
      ends its time as a pending cell. */
  lemma PushKeeps(m: Maze, vis: seq<int>, dist: map<Point, nat>, queue: seq<Point>,
                  level: nat, done: set<Point>, cur: Point, np: Point)
    requires Searching(m, vis, dist, queue, level, done, {cur, np})
    requires Visited(m, vis, np) && np in dist && dist[np] == level + 1
    ensures Searching(m, vis, dist, queue + [np], level, done, {cur})
  {
    var q' := queue + [np];
    assert forall i :: 0 <= i < |queue| ==> q'[i] == queue[i];
    forall i, j | 0 <= i < j < |q'| ensures Depth(dist, q'[i]) <= Depth(dist, q'[j]) {
      if j < |queue| {
        assert Depth(dist, queue[i]) <= Depth(dist, queue[j]);
      }
    }
    assert Layered(m, vis, dist, q', level);
    assert Frontier(m, vis, dist, q', level, done, {cur});
  }

  /** Recording the finish keeps the invariant; it is never queued. */
  lemma FinishKeeps(m: Maze, vis: seq<int>, dist: map<Point, nat>, queue: seq<Point>,
                    level: nat, done: set<Point>, cur: Point)
    requires Searching(m, vis, dist, queue, level, done, {cur, m.finish})
    requires m.finish != m.start
    ensures Searching(m, vis, dist, queue, level, done, {cur})
  {
  }

  /** Popping the front cell makes it the pending cell and its depth the
      new level. */
  lemma PopKeeps(m: Maze, vis: seq<int>, dist: map<Point, nat>, queue: seq<Point>,
                 level: nat, done: set<Point>, route: seq<Point>, trail: seq<Point>)
    requires Searching(m, vis, dist, queue, level, done, {}) && queue != []
    requires !(Visited(m, vis, m.finish) && m.finish != m.start)
    ensures Visited(m, vis, queue[0]) && queue[0] in dist && level <= dist[queue[0]]
    ensures Expanding(m, vis, dist, queue[1..], dist[queue[0]], done, queue[0], false, route, trail, 0)
  {
    var cur := queue[0];
    var rest := queue[1..];
    var level' := dist[cur];
    assert forall i :: 0 <= i < |rest| ==> rest[i] == queue[i + 1];
    forall i | 0 <= i < |rest| ensures level' <= dist[rest[i]] {
      assert Depth(dist, queue[0]) <= Depth(dist, queue[i + 1]);
    }
    forall i, j | 0 <= i < j < |rest| ensures Depth(dist, rest[i]) <= Depth(dist, rest[j]) {
      assert Depth(dist, queue[i + 1]) <= Depth(dist, queue[j + 1]);
    }
    assert Layered(m, vis, dist, rest, level');
    forall p | Visited(m, vis, p) && p !in done
      ensures p in dist && level' <= dist[p] && (p in rest || p in {cur})
    {
      assert p in queue;
      var i :| 0 <= i < |queue| && queue[i] == p;
      if i > 0 {
        assert rest[i - 1] == p;
      }
    }
  }

  /** When all eight neighbours of the pending cell have been tried, it joins
      `done`. */
  lemma CloseKeeps(m: Maze, vis: seq<int>, dist: map<Point, nat>, queue: seq<Point>,
                   level: nat, done: set<Point>, cur: Point)
    requires Searching(m, vis, dist, queue, level, done, {cur})
    requires Visited(m, vis, cur) && cur in dist && dist[cur] == level
    requires forall i :: 0 <= i < |Directions| && Step(m, cur, Add(cur, Directions[i])) ==>
               Visited(m, vis, Add(cur, Directions[i]))
    ensures Searching(m, vis, dist, queue, level, done + {cur}, {})
  {
    forall v | Step(m, cur, v) ensures Visited(m, vis, v) {
      var d := Point(v.x - cur.x, v.y - cur.y);
      DirectionsComplete(d);
      var i :| 0 <= i < |Directions| && Directions[i] == d;
      assert Add(cur, Directions[i]) == v;
    }
  }

  /** Seeding: the start recorded with `0` at depth 0 and alone in the queue. */
  lemma SeedKeeps(m: Maze, vis: seq<int>, vis': seq<int>, dist: map<Point, nat>)
    requires |vis| == Times(m.rows, m.cols) && InBounds(m.start, m.rows, m.cols)
    requires forall k :: 0 <= k < |vis| ==> vis[k] == -1
    requires 0 <= Index(m.start, m.cols) < |vis| && vis' == vis[Index(m.start, m.cols) := 0]
    requires m.start in dist && dist[m.start] == 0
    ensures Searching(m, vis', dist, [m.start], 0, {}, {})
    ensures Visited(m, vis', m.finish) ==> m.finish == m.start
  {
    WriteVisited(m, vis, m.start, 0);
    assert forall p :: Visited(m, vis', p) <==> p == m.start;
    assert Parent(m, vis', dist, m.start);
    assert Shortest(m, vis', dist, 0);
  }

  /** The state one call of `Wave` works on, as values. */
  datatype Visit = Visit(vis: seq<int>, dist: map<Point, nat>, queue: seq<Point>, found: bool)

  /** One call of `Wave` on values: a neighbour the wave accepts is recorded
      one hop deeper than `cur` and queued unless it is the finish; anything
      else leaves the state alone. `found` says the finish was just reached. */
  ghost function WaveStep(m: Maze, vis: seq<int>, dist: map<Point, nat>, queue: seq<Point>,
                          cur: Point, np: Point): Visit
    requires cur in dist
  {
    if Accepts(m, vis, cur, np) then
      Visit(vis[Index(np, m.cols) := Index(cur, m.cols)], dist[np := dist[cur] + 1],
            if np == m.finish then queue else queue + [np], np == m.finish)
    else Visit(vis, dist, queue, false)
  }

  /** Accepting `np` from `cur`: the invariant holds again once `np` is
      queued (or, being the finish, left out of the queue), and exactly one
      unvisited entry is filled. */
  lemma AcceptKeeps(m: Maze, vis: seq<int>, dist: map<Point, nat>, queue: seq<Point>,
                    level: nat, done: set<Point>, cur: Point, np: Point, w: Visit)
    requires Searching(m, vis, dist, queue, level, done, {cur})
    requires Visited(m, vis, cur) && cur in dist && dist[cur] == level && Accepts(m, vis, cur, np)
    requires 0 <= Index(np, m.cols) < |vis|
    requires w == Visit(vis[Index(np, m.cols) := Index(cur, m.cols)], dist[np := level + 1],
                        if np == m.finish then queue else queue + [np], np == m.finish)
    ensures np != m.start
    ensures Searching(m, w.vis, w.dist, w.queue, level, done, {cur})
    ensures Extends(vis, w.vis)
    ensures forall p :: Visited(m, w.vis, p) <==> p == np || Visited(m, vis, p)
    ensures Unvisited(w.vis) == Unvisited(vis) - 1
  {
    IndexInRange(cur, m.rows, m.cols);
    DiscoverKeeps(m, vis, dist, queue, level, done, cur, np);
    WriteVisited(m, vis, np, Index(cur, m.cols));
    UnvisitedUpdate(vis, Index(np, m.cols), Index(cur, m.cols));
    if np == m.finish {
      FinishKeeps(m, w.vis, w.dist, queue, level, done, cur);
    } else {
      PushKeeps(m, w.vis, w.dist, queue, level, done, cur, np);
    }
  }

  /** What one call of `Wave` keeps and achieves: the search invariant holds
      afterwards, no record is lost, the neighbour is recorded whenever the
      wave may step onto it, `found` is reported exactly when the finish
      becomes recorded, and the number of unvisited entries plus the queue
      length does not grow. */
  lemma WaveKeeps(m: Maze, vis: seq<int>, dist: map<Point, nat>, queue: seq<Point>,
                  level: nat, done: set<Point>, cur: Point, np: Point, w: Visit)
    requires Searching(m, vis, dist, queue, level, done, {cur})
    requires Visited(m, vis, cur) && cur in dist && dist[cur] == level
    requires w == WaveStep(m, vis, dist, queue, cur, np)
    ensures
      Searching(m, w.vis, w.dist, w.queue, level, done, {cur}) &&
      Extends(vis, w.vis) &&
      (Step(m, cur, np) ==> Visited(m, w.vis, np)) &&
      ((Visited(m, w.vis, m.finish) && m.finish != m.start) <==>
       (Visited(m, vis, m.finish) && m.finish != m.start) || w.found) &&
      (w.found ==> !Visited(m, vis, m.finish)) &&
      Unvisited(w.vis) + |w.queue| <= Unvisited(vis) + |queue|
  {
    if Accepts(m, vis, cur, np) {
      AcceptKeeps(m, vis, dist, queue, level, done, cur, np, w);
    } else {
      assert w == Visit(vis, dist, queue, false);
      if Step(m, cur, np) {
        IndexInRange(np, m.rows, m.cols);
      }
    }
  }

  /** A later write to an unvisited entry leaves a recorded backtrace intact. */
  lemma BacktracedKeeps(m: Maze, a: seq<int>, b: seq<int>, route: seq<Point>, trail: seq<Point>)
    requires Backtraced(m, a, route, trail) && Extends(a, b)
    ensures Backtraced(m, b, route, trail)
  {
    forall i | 0 <= i < |trail| ensures Visited(m, b, trail[i]) && Record(m, b, trail[i]) == Record(m, a, trail[i]) {
      ExtendsVisited(m, a, b, trail[i]);
    }
  }
  /** Once the finish is recorded, the chain painted back from it and the
      whole recorded walk form a backtrace: the walk is a shortest one. */
  lemma TracedFinish(m: Maze, vis: seq<int>, dist: map<Point, nat>, queue: seq<Point>,
                     level: nat, done: set<Point>, pending: set<Point>)
    requires Searching(m, vis, dist, queue, level, done, pending) && Visited(m, vis, m.finish)
    ensures Backtraced(m, vis, Chain(m, vis, dist, m.finish), Back(m, vis, dist, m.finish))
  {
    BackIsRoute(m, vis, dist, m.finish);
    ChainIsPrefix(m, vis, dist, m.finish);
  }

  /** The state while the neighbours of `cur` are tried in turn: the search
      invariant with `cur` pending, `found` telling whether the finish is
      recorded, the backtrace once it is, and every neighbour in the first
      `tried` directions of the expansion order that the wave may step onto
      recorded. */
  ghost predicate Expanding(m: Maze, vis: seq<int>, dist: map<Point, nat>, queue: seq<Point>,
                            level: nat, done: set<Point>, cur: Point, found: bool,
                            route: seq<Point>, trail: seq<Point>, tried: nat)
  {
    Searching(m, vis, dist, queue, level, done, {cur}) &&
    Visited(m, vis, cur) && cur in dist && dist[cur] == level &&
    (found <==> Visited(m, vis, m.finish) && m.finish != m.start) &&
    (found ==> Backtraced(m, vis, route, trail)) &&
    tried <= |Directions| &&
    forall i :: 0 <= i < tried && Step(m, cur, Add(cur, Directions[i])) ==> Visited(m, vis, Add(cur, Directions[i]))
  }

  /** The neighbours already tried stay recorded when records are added. */
  lemma TriedKeeps(m: Maze, vis: seq<int>, vis': seq<int>, cur: Point, tried: nat)
    requires Extends(vis, vis') && tried <= |Directions|
    requires forall i :: 0 <= i < tried && Step(m, cur, Add(cur, Directions[i])) ==> Visited(m, vis, Add(cur, Directions[i]))
    ensures forall i :: 0 <= i < tried && Step(m, cur, Add(cur, Directions[i])) ==> Visited(m, vis', Add(cur, Directions[i]))
  {
    forall i | 0 <= i < tried && Step(m, cur, Add(cur, Directions[i]))
      ensures Visited(m, vis', Add(cur, Directions[i]))
    {
      ExtendsVisited(m, vis, vis', Add(cur, Directions[i]));
    }
  }

  /** One call of `Wave` in the next direction `d` of the expansion order,
      followed by `found |= ...`, keeps `Expanding` with one more direction
      tried; the finish is reported at most once, and
      the unvisited entries plus the queue length do not grow. */
  lemma ExpandKeeps(m: Maze, vis: seq<int>, dist: map<Point, nat>, queue: seq<Point>,
                    level: nat, done: set<Point>, cur: Point, found: bool,
                    route: seq<Point>, trail: seq<Point>, tried: nat,
                    d: Point, w: Visit, route': seq<Point>, trail': seq<Point>)
    requires Expanding(m, vis, dist, queue, level, done, cur, found, route, trail, tried)
    requires tried < |Directions| && d == Directions[tried]
    requires w == WaveStep(m, vis, dist, queue, cur, Add(cur, d))
    requires w.found ==> Tree(m, w.vis, w.dist) && Visited(m, w.vis, Add(cur, d)) &&
                         route' == Chain(m, w.vis, w.dist, Add(cur, d)) &&
                         trail' == Back(m, w.vis, w.dist, Add(cur, d))
    ensures !(found && w.found)
    ensures Expanding(m, w.vis, w.dist, w.queue, level, done, cur, found || w.found,
                      if w.found then route' else route, if w.found then trail' else trail, tried + 1)
    ensures Unvisited(w.vis) + |w.queue| <= Unvisited(vis) + |queue|
  {
    WaveKeeps(m, vis, dist, queue, level, done, cur, Add(cur, d), w);
    ExtendsVisited(m, vis, w.vis, cur);
    TriedKeeps(m, vis, w.vis, cur, tried);
    if w.found {
      TracedFinish(m, w.vis, w.dist, w.queue, level, done, {cur});
    } else if found {
      BacktracedKeeps(m, vis, w.vis, route, trail);
    }
  }

  /** Once all eight directions are tried, the pending cell joins `done`. */
  lemma ExpandDone(m: Maze, vis: seq<int>, dist: map<Point, nat>, queue: seq<Point>,
                   level: nat, done: set<Point>, cur: Point, found: bool,
                   route: seq<Point>, trail: seq<Point>)
    requires Expanding(m, vis, dist, queue, level, done, cur, found, route, trail, |Directions|)
    ensures Searching(m, vis, dist, queue, level, done + {cur}, {})
    ensures found <==> Visited(m, vis, m.finish) && m.finish != m.start
    ensures found ==> Backtraced(m, vis, route, trail)
  {
    CloseKeeps(m, vis, dist, queue, level, done, cur);
  }
}
