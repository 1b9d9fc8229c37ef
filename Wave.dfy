/** The wave strategy (`LabyrinthWave`): a breadth-first flood fill over the
    8-neighbour grid that records, for every cell it reaches, the flattened
    index of the cell it came from, and paints the recorded chain back from
    the finish once the finish is reached. */
module Wave {
  import opened Grid
  import opened Search
  import Labyrinth

  class LabyrinthWave {
    /** The cleaned image the search reads; it does not change after `Start`. */
    const input: array2<Pixel>
    /** The displayed image the path is painted into. */
    const output: array2<Pixel>
    /** `input_.rows` and `input_.cols`. */
    const rows: nat
    const cols: nat
    /** The contents of `input`, as a value. */
    ghost const plane: seq<seq<Pixel>>
    var start: Point
    var finish: Point
    /** `visits_`: per flattened cell, `-1` when unvisited, else the index of
        the cell it was reached from (`0` for the start). */
    const visits: array<int>
    /** `queueOfVertex_`, front first. */
    var queue: seq<Point>
    /** For every visited cell, the number of hops by which the wave reached it. */
    ghost var dist: map<Point, nat>

    ghost predicate Valid()
      reads input
    {
      input != output &&
      input.Length0 == rows && input.Length1 == cols &&
      Labyrinth.SameShape(input, output) &&
      visits.Length == Times(rows, cols) &&
      |plane| == rows && (forall i :: 0 <= i < rows ==> |plane[i]| == cols) &&
      forall i, j :: 0 <= i < rows && 0 <= j < cols ==> plane[i][j] == input[i, j]
    }

    /** What the search sees of this object. */
    ghost function Graph(): Maze
      reads this`start, this`finish
    {
      Maze(rows, cols, plane, start, finish)
    }

    /** The state `Start` leaves: every visit record is `-1`, the queue empty. */
    ghost predicate Cleared()
      reads this`queue, visits
    {
      queue == [] && forall k :: 0 <= k < visits.Length ==> visits[k] == -1
    }

    /** What the mouse handler keeps: a set start lies in the grid, and no
        search has run while the finish is unset. */
    ghost predicate Ready()
      reads this`start, this`finish, this`queue, visits
    {
      (start.x < 0 || InBounds(start, rows, cols)) && (finish.x < 0 ==> Cleared())
    }

    /** `Labyrinth()` followed by `LabyrinthWave::Start`: start and finish
        unset, the images loaded and cleaned with the opened mask `mask`, and
        a visit table of `rows * cols` entries, all `-1`. */
    constructor (image: array2<Pixel>, mask: array2<Pixel>)
      requires Labyrinth.SameShape(mask, image)
      ensures Valid() && Cleared() && Ready()
      ensures start == Unset && finish == Unset
      ensures rows == image.Length0 && cols == image.Length1
      ensures fresh(input) && fresh(output) && fresh(visits)
      ensures forall i, j :: 0 <= i < rows && 0 <= j < cols ==>
                input[i, j] == Labyrinth.Cleaned(mask[i, j], image[i, j], LightGray) &&
                output[i, j] == Labyrinth.Cleaned(mask[i, j], image[i, j], Gray)
    {
      var inp, outp := Labyrinth.Init(image, mask);
      TimesIsMul(inp.Length0, inp.Length1);
      var v := new int[inp.Length0 * inp.Length1];
      for i := 0 to inp.Length0 * inp.Length1
        modifies v
        invariant forall k :: 0 <= k < i ==> v[k] == -1
      {
        v[i] := -1;
      }
      start := Unset;
      finish := Unset;
      input := inp;
      output := outp;
      rows := inp.Length0;
      cols := inp.Length1;
      plane := Labyrinth.Plane(inp);
      visits := v;
      queue := [];
      dist := map[];
    }

    /** `set_start`. */
    method SetStart(p: Point)
      modifies this`start
      ensures start == p
    {
      start := p;
    }

    /** `set_finish`. */
    method SetFinish(p: Point)
      modifies this`finish
      ensures finish == p
    {
      finish := p;
    }

    /** `ExtractAndDrawWay`: from `index`, paint the cell blue and move to the
        cell its record names, until the index is `Point(0, 0)`; exactly the
        cells of the recorded chain are painted. */
    method ExtractAndDrawWay(index: Point)
      requires Valid() && Tree(Graph(), visits[..], dist) && Visited(Graph(), visits[..], index)
      modifies output
      ensures forall i, j :: 0 <= i < rows && 0 <= j < cols ==>
                output[i, j] == if Point(i, j) in Chain(Graph(), visits[..], dist, index) then Blue else old(output[i, j])
    {
      ghost var m, vis := Graph(), visits[..];
      ghost var full := Chain(m, vis, dist, index);
      ghost var painted: seq<Point> := [];
      var p := index;
      while p != Point(0, 0)
        invariant p == Point(0, 0) || Visited(m, vis, p)
        invariant full == painted + Chain(m, vis, dist, p)
        invariant forall i, j :: 0 <= i < rows && 0 <= j < cols ==>
                    output[i, j] == if Point(i, j) in painted then Blue else old(output[i, j])
        decreases if p == Point(0, 0) then 0 else dist[p] + 1
      {
        output[p.x, p.y] := Blue;
        painted := painted + [p];
        var k := visits[Index(p, cols)];
        if dist[p] > 0 {
          ParentVisited(m, vis, dist, p);
        } else {
          DecodeZero(cols);
        }
        assert Chain(m, vis, dist, p) == [p] + Chain(m, vis, dist, Decode(k, cols));
        p := Point(k / cols, k % cols);
      }
    }

    /** The finish branch of `Wave`: record the finish as reached from
        `cur` and paint the recorded chain back from it. */
    method ReachFinish(cur: Point, np: Point) returns (ghost route: seq<Point>, ghost trail: seq<Point>)
      requires Valid() && Tree(Graph(), visits[..], dist) && Visited(Graph(), visits[..], cur) && cur in dist
      requires Accepts(Graph(), visits[..], cur, np)
      modifies this`dist, visits, output
      ensures visits[..] == old(visits[..])[Index(np, cols) := Index(cur, cols)]
      ensures dist == old(dist)[np := old(dist)[cur] + 1]
      ensures Tree(Graph(), visits[..], dist) && Visited(Graph(), visits[..], np)
      ensures route == Chain(Graph(), visits[..], dist, np) && trail == Back(Graph(), visits[..], dist, np)
      ensures forall i, j :: 0 <= i < rows && 0 <= j < cols ==>
                output[i, j] == if Point(i, j) in route then Blue else old(output[i, j])
    {
      ghost var m, vis := Graph(), visits[..];
      IndexInRange(cur, rows, cols);
      TreeAfterDiscover(m, vis, dist, cur, np);
      var indexNew := Index(np, cols);
      visits[indexNew] := Index(cur, cols);
      dist := dist[np := dist[cur] + 1];
      assert visits[..] == vis[indexNew := Index(cur, cols)];
      ExtractAndDrawWay(np);
      route, trail := Chain(m, visits[..], dist, np), Back(m, visits[..], dist, np);
    }

    /** The walkable branch of `Wave`: queue `np` and record it as reached
        from `cur`. */
    method Enqueue(cur: Point, np: Point)
      requires cur in dist && 0 <= Index(cur, cols) && 0 <= Index(np, cols) < visits.Length
      requires visits[Index(np, cols)] == -1
      modifies this`queue, this`dist, visits
      ensures queue == old(queue) + [np]
      ensures visits[..] == old(visits[..])[Index(np, cols) := Index(cur, cols)]
      ensures dist == old(dist)[np := old(dist)[cur] + 1]
    {
      queue := queue + [np];
      visits[Index(np, cols)] := Index(cur, cols);
      dist := dist[np := dist[cur] + 1];
    }

    /** `Wave`: look at the neighbour `Add(cur, dir)`. If it lies in the grid
        and is unvisited, then the finish is recorded and the way painted,
        and any other cell is queued and recorded when the walkability test
        passes. The new state is the reference step `WaveStep`, whose
        properties `WaveKeeps` states. */
    method Wave(cur: Point, dir: Point) returns (found: bool, ghost route: seq<Point>, ghost trail: seq<Point>)
      requires Valid() && IsDirection(dir)
      requires Tree(Graph(), visits[..], dist) && Visited(Graph(), visits[..], cur) && cur in dist
      modifies this`queue, this`dist, visits, output
      ensures Visit(visits[..], dist, queue, found) ==
              WaveStep(Graph(), old(visits[..]), old(dist), old(queue), cur, Add(cur, dir))
      ensures found ==> Tree(Graph(), visits[..], dist) && Visited(Graph(), visits[..], Add(cur, dir)) &&
                        route == Chain(Graph(), visits[..], dist, Add(cur, dir)) &&
                        trail == Back(Graph(), visits[..], dist, Add(cur, dir))
      ensures forall i, j :: 0 <= i < rows && 0 <= j < cols ==>
                output[i, j] == if found && Point(i, j) in route then Blue else old(output[i, j])
    {
      ghost var m, vis := Graph(), visits[..];
      found, route, trail := false, [], [];
      var np := Add(cur, dir);
      ghost var w := WaveStep(m, vis, dist, queue, cur, np);
      IndexInRange(cur, rows, cols);
      if 0 <= np.x < rows && 0 <= np.y < cols {
        var indexNew := Index(np, cols);
        var indexFrom := Index(cur, cols);
        IndexInRange(np, rows, cols);
        if visits[indexNew] == -1 {
          if np == finish {
            assert Accepts(m, vis, cur, np);
            assert w == Visit(vis[indexNew := indexFrom], dist[np := dist[cur] + 1], queue, true);
            route, trail := ReachFinish(cur, np);
            found := true;
          } else {
            var diff := Diff(input[np.x, np.y], input[cur.x, cur.y]);
            assert Colour(m, np) == input[np.x, np.y] && Colour(m, cur) == input[cur.x, cur.y];
            if diff.c0 < 2 {
              assert Accepts(m, vis, cur, np);
              assert w == Visit(vis[indexNew := indexFrom], dist[np := dist[cur] + 1], queue + [np], false);
              Enqueue(cur, np);
            } else {
              assert !Accepts(m, vis, cur, np) && w == Visit(vis, dist, queue, false);
            }
          }
        } else {
          assert !Accepts(m, vis, cur, np) && w == Visit(vis, dist, queue, false);
        }
      } else {
        assert !Accepts(m, vis, cur, np) && w == Visit(vis, dist, queue, false);
      }
      assert Visit(visits[..], dist, queue, found) == w;
    }

    /** The displayed image is `base` with the cells of `route` painted blue
        once `found` holds. */
    ghost predicate Shows(base: seq<seq<Pixel>>, found: bool, route: seq<Point>)
      reads output
    {
      |base| == rows && (forall i :: 0 <= i < rows ==> |base[i]| == cols) &&
      output.Length0 == rows && output.Length1 == cols &&
      forall i, j :: 0 <= i < rows && 0 <= j < cols ==>
        output[i, j] == if found && Point(i, j) in route then Blue else base[i][j]
    }

    /** `isFindFinish |= Wave (curr, direction)`: the wave is sent in
        direction `dir` whatever `found` already is, and the flag records
        whether the finish has been reached by now. */
    method TryDirection(cur: Point, dir: Point, found: bool, ghost level: nat, ghost done: set<Point>,
                        ghost route: seq<Point>, ghost trail: seq<Point>, ghost tried: nat,
                        ghost base: seq<seq<Pixel>>)
      returns (found': bool, ghost route': seq<Point>, ghost trail': seq<Point>)
      requires Valid() && tried < |Directions| && dir == Directions[tried]
      requires Expanding(Graph(), visits[..], dist, queue, level, done, cur, found, route, trail, tried)
      requires Shows(base, found, route)
      modifies this`queue, this`dist, visits, output
      ensures Expanding(Graph(), visits[..], dist, queue, level, done, cur, found', route', trail', tried + 1)
      ensures Shows(base, found', route')
      ensures Unvisited(visits[..]) + |queue| <= old(Unvisited(visits[..]) + |queue|)
    {
      ghost var m, v, d, q := Graph(), visits[..], dist, queue;
      DirectionsComplete(dir);
      var f;
      f, route', trail' := Wave(cur, dir);
      ExpandKeeps(m, v, d, q, level, done, cur, found, route, trail, tried, dir,
                  Visit(visits[..], dist, queue, f), route', trail');
      if !f {
        route', trail' := route, trail;
      }
      found' := found || f;
    }

    /** The first four waves from `cur`, up, right, down and left. Both
        predicates of the contract are only passed on here, so their
        definitions are kept out of the proof. */
    method WaveStraight(cur: Point, found: bool, ghost level: nat, ghost done: set<Point>,
                        ghost route: seq<Point>, ghost trail: seq<Point>, ghost base: seq<seq<Pixel>>)
      returns (found': bool, ghost route': seq<Point>, ghost trail': seq<Point>)
      requires Valid()
      requires Expanding(Graph(), visits[..], dist, queue, level, done, cur, found, route, trail, 0)
      requires Shows(base, found, route)
      modifies this`queue, this`dist, visits, output
      ensures Expanding(Graph(), visits[..], dist, queue, level, done, cur, found', route', trail', 4)
      ensures Shows(base, found', route')
      ensures Unvisited(visits[..]) + |queue| <= old(Unvisited(visits[..]) + |queue|)
    {
      hide Expanding, Shows;
      found', route', trail' := TryDirection(cur, Point(-1, 0), found, level, done, route, trail, 0, base);
      found', route', trail' := TryDirection(cur, Point(0, 1), found', level, done, route', trail', 1, base);
      found', route', trail' := TryDirection(cur, Point(1, 0), found', level, done, route', trail', 2, base);
      found', route', trail' := TryDirection(cur, Point(0, -1), found', level, done, route', trail', 3, base);
    }

    /** The last four waves from `cur`, along the diagonals. */
    method WaveDiagonal(cur: Point, found: bool, ghost level: nat, ghost done: set<Point>,
                        ghost route: seq<Point>, ghost trail: seq<Point>, ghost base: seq<seq<Pixel>>)
      returns (found': bool, ghost route': seq<Point>, ghost trail': seq<Point>)
      requires Valid()
      requires Expanding(Graph(), visits[..], dist, queue, level, done, cur, found, route, trail, 4)
      requires Shows(base, found, route)
      modifies this`queue, this`dist, visits, output
      ensures Expanding(Graph(), visits[..], dist, queue, level, done, cur, found', route', trail', 8)
      ensures Shows(base, found', route')
      ensures Unvisited(visits[..]) + |queue| <= old(Unvisited(visits[..]) + |queue|)
    {
      hide Expanding, Shows;
      found', route', trail' := TryDirection(cur, Point(-1, -1), found, level, done, route, trail, 4, base);
      found', route', trail' := TryDirection(cur, Point(-1, 1), found', level, done, route', trail', 5, base);
      found', route', trail' := TryDirection(cur, Point(1, -1), found', level, done, route', trail', 6, base);
      found', route', trail' := TryDirection(cur, Point(1, 1), found', level, done, route', trail', 7, base);
    }

    /** One round of the search loop: pop the front cell of the queue and
        send the wave from it in all eight directions. The loop invariant
        `Searching` holds again afterwards with the cell expanded, and the
        unvisited entries plus the queue length shrink. */
    method ExpandFront(ghost level: nat, ghost done: set<Point>, ghost route: seq<Point>, ghost trail: seq<Point>, ghost base: seq<seq<Pixel>>)
      returns (found: bool, ghost route': seq<Point>, ghost trail': seq<Point>, ghost level': nat, ghost done': set<Point>)
      requires Valid() && queue != []
      requires Searching(Graph(), visits[..], dist, queue, level, done, {})
      requires !(Visited(Graph(), visits[..], finish) && finish != start)
      requires Shows(base, false, route)
      modifies this`queue, this`dist, visits, output
      ensures Searching(Graph(), visits[..], dist, queue, level', done', {})
      ensures found <==> Visited(Graph(), visits[..], finish) && finish != start
      ensures found ==> Backtraced(Graph(), visits[..], route', trail')
      ensures Shows(base, found, route')
      ensures Unvisited(visits[..]) + |queue| < old(Unvisited(visits[..]) + |queue|)
    {
      ghost var m := Graph();
      var cur := queue[0];
      PopKeeps(m, visits[..], dist, queue, level, done, route, trail);
      level', queue := dist[cur], queue[1..];
      hide Expanding, Shows;
      found, route', trail' := WaveStraight(cur, false, level', done, route, trail, base);
      found, route', trail' := WaveDiagonal(cur, found, level', done, route', trail', base);
      ExpandDone(m, visits[..], dist, queue, level', done, cur, found, route', trail');
      done' := done + {cur};
    }

    /** `FindWay`: without a start, report failure and change nothing.
        Otherwise seed the queue with the start and expand queued cells in
        breadth-first order, trying all eight neighbours of each, until the
        queue runs dry or the finish has been reached. The result is `0`
        exactly when some walk leads from the start to a different finish;
        then the painted cells are the backtrace of a shortest such walk. */
    method FindWay() returns (res: int, ghost route: seq<Point>, ghost trail: seq<Point>)
      requires Valid() && Cleared() && (start.x < 0 || InBounds(start, rows, cols))
      modifies this`queue, this`dist, visits, output
      ensures res == 0 || res == -1
      ensures start.x < 0 ==> res == -1 && visits[..] == old(visits[..]) && queue == old(queue)
      ensures res == 0 <==> start.x >= 0 && finish != start && !Unreachable(Graph(), finish)
      ensures res == 0 ==> Backtraced(Graph(), visits[..], route, trail)
      ensures res == -1 && start.x >= 0 ==> queue == []
      ensures forall i, j :: 0 <= i < rows && 0 <= j < cols ==>
                output[i, j] == if res == 0 && Point(i, j) in route then Blue else old(output[i, j])
    {
      route, trail := [], [];
      if start.x < 0 {
        return -1, route, trail;
      }
      ghost var base := Labyrinth.Plane(output);
      ghost var vis := visits[..];
      IndexInRange(start, rows, cols);
      queue := queue + [start];
      visits[Index(start, cols)] := 0;
      dist := dist[start := 0];
      SeedKeeps(Graph(), vis, visits[..], dist);
      var found := false;
      ghost var level: nat, done: set<Point> := 0, {};
      while queue != [] && !found
        invariant Searching(Graph(), visits[..], dist, queue, level, done, {})
        invariant found <==> Visited(Graph(), visits[..], finish) && finish != start
        invariant found ==> Backtraced(Graph(), visits[..], route, trail)
        invariant Shows(base, found, route)
        decreases Unvisited(visits[..]) + |queue|
      {
        found, route, trail, level, done := ExpandFront(level, done, route, trail, base);
      }
      if !found {
        Exhausted(Graph(), visits[..], dist, level, done);
        return -1, route, trail;
      }
      return 0, route, trail;
    }

    /** `onMouse`: a left-button press at window position `(x, y)`, which
        is row `y` and column `x` of the displayed image. On a white pixel
        the first such press sets the start and the second sets the finish
        and runs `FindWay`, with the row as the point's `x`; any other event
        or press changes nothing. */
    method OnMouse(leftDown: bool, x: int, y: int) returns (ghost route: seq<Point>, ghost trail: seq<Point>)
      requires Valid() && Ready() && 0 <= y < rows && 0 <= x < cols
      modifies this`start, this`finish, this`queue, this`dist, visits, output
      ensures Valid() && Ready()
      ensures !leftDown || old(output[y, x]) != White || (old(start.x) >= 0 && old(finish.x) >= 0) ==>
                start == old(start) && finish == old(finish) && queue == old(queue) && unchanged(visits, output)
      ensures leftDown && old(output[y, x]) == White && old(start.x) < 0 ==>
                start == Point(y, x) && finish == old(finish) && queue == old(queue) && unchanged(visits, output)
      ensures leftDown && old(output[y, x]) == White && old(start.x) >= 0 && old(finish.x) < 0 ==>
                start == old(start) && finish == Point(y, x) &&
                var reached := start != finish && !Unreachable(Graph(), finish);
                (reached ==> Backtraced(Graph(), visits[..], route, trail)) &&
                (!reached ==> queue == []) &&
                forall i, j :: 0 <= i < rows && 0 <= j < cols ==>
                  output[i, j] == if reached && Point(i, j) in route then Blue else old(output[i, j])
    {
      route, trail := [], [];
      if !leftDown {
        return;
      }
      if output[y, x] == White {
        if start.x < 0 {
          SetStart(Point(y, x));
        } else if finish.x < 0 {
          SetFinish(Point(y, x));
          var res;
          res, route, trail := FindWay();
        }
      }
    }
  }
}
