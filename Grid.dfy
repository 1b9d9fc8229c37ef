/** Pixels, grid coordinates and the flattened cell index shared by both
    search strategies of the labyrinth solver. */
module Grid {

  /** One 8-bit channel value (OpenCV `uchar`). */
  newtype byte = x: int | 0 <= x < 256

  /** A `Vec3b` pixel; the channels are in OpenCV's blue, green, red order. */
  datatype Pixel = Pixel(c0: byte, c1: byte, c2: byte)

  const Black: Pixel := Pixel(0, 0, 0)
  const White: Pixel := Pixel(255, 255, 255)
  /** The path marker `Vec3b(255, 0, 0)`. */
  const Blue: Pixel := Pixel(255, 0, 0)
  /** What the border cleaning writes into the search image. */
  const LightGray: Pixel := Pixel(240, 240, 240)
  /** What the border cleaning writes into the displayed image. */
  const Gray: Pixel := Pixel(210, 210, 210)

  /** A `cv::Point`; as the solver uses it, `x` is the row and `y` the column. */
  datatype Point = Point(x: int, y: int)

  /** The "unset" start or finish. */
  const Unset: Point := Point(-1, -1)

  /** `a - b` on `uchar`, which OpenCV saturates at zero. */
  function SatSub(a: byte, b: byte): (r: byte)
    ensures a >= b ==> r as int == a as int - b as int
    ensures a <= b ==> r == 0
  {
    if a > b then a - b else 0
  }

  /** `Vec3b - Vec3b`, channel by channel with saturation. */
  function Diff(a: Pixel, b: Pixel): Pixel
  {
    Pixel(SatSub(a.c0, b.c0), SatSub(a.c1, b.c1), SatSub(a.c2, b.c2))
  }

  /** The wave's walkability test for a step from a cell coloured `cur` onto
      a cell coloured `next`: channel 0 of the saturated difference
      `next - cur`, which is never negative, must be below 2. */
  predicate Walkable(cur: Pixel, next: Pixel)
  {
    Diff(next, cur).c0 < 2
  }

  /** The test only bounds how much brighter the next cell may be. */
  lemma WalkableIff(cur: Pixel, next: Pixel)
    ensures Walkable(cur, next) <==> next.c0 as int <= cur.c0 as int + 1
  {
  }

  /** Stepping onto a cell that is no brighter in channel 0 is always allowed,
      whatever the other channels hold. */
  lemma DarkerIsWalkable(cur: Pixel, next: Pixel)
    requires next.c0 <= cur.c0
    ensures Walkable(cur, next)
  {
  }

  /** The relation is not symmetric: from a white cell the wave may enter a
      black one, but not the other way round. */
  lemma WalkableIsOneWay()
    ensures Walkable(White, Black) && !Walkable(Black, White)
  {
  }

  predicate InBounds(p: Point, rows: int, cols: int)
  {
    0 <= p.x < rows && 0 <= p.y < cols
  }

  /** `currentPoint + direction`. */
  function Add(p: Point, d: Point): Point
  {
    Point(p.x + d.x, p.y + d.y)
  }

  /** One of the eight unit steps. */
  predicate IsDirection(d: Point)
  {
    d != Point(0, 0) && -1 <= d.x <= 1 && -1 <= d.y <= 1
  }

  /** `v` is one of the eight cells around `u`. */
  predicate Adjacent(u: Point, v: Point)
  {
    IsDirection(Point(v.x - u.x, v.y - u.y))
  }

  /** The wave's expansion order: up, right, down, left, then the diagonals. */
  const Directions: seq<Point> :=
    [Point(-1, 0), Point(0, 1), Point(1, 0), Point(0, -1),
     Point(-1, -1), Point(-1, 1), Point(1, -1), Point(1, 1)]

  /** The expansion order lists every neighbour exactly once. */
  lemma DirectionsComplete(d: Point)
    ensures IsDirection(d) <==> d in Directions
    ensures forall i, j :: 0 <= i < j < |Directions| ==> Directions[i] != Directions[j]
  {
  }

  /** `a * b`, spelled out as repeated addition so that the verifier does not
      reason about products where indices appear under quantifiers;
      `TimesIsMul` connects it to `*`. */
  function Times(a: int, b: int): int
    decreases if a < 0 then -a else a
  {
    if a == 0 then 0 else if a > 0 then Times(a - 1, b) + b else Times(a + 1, b) - b
  }

  lemma {:induction false} TimesIsMul(a: int, b: int)
    ensures Times(a, b) == a * b
    decreases if a < 0 then -a else a
  {
    if a > 0 {
      TimesIsMul(a - 1, b);
      assert (a - 1) * b + b == a * b;
    } else if a < 0 {
      TimesIsMul(a + 1, b);
      assert (a + 1) * b - b == a * b;
    }
  }

  /** Row-major flattening `row * cols + col` of the visit table;
      `Times(p.x, cols)` is just `p.x * cols` (`TimesIsMul`). */
  function Index(p: Point, cols: int): int
  {
    Times(p.x, cols) + p.y
  }

  /** Unflattening `(k / cols, k % cols)`. The table only holds indices
      that are at least 0, where C++'s truncating division agrees with
      Dafny's. */
  function Decode(k: nat, cols: int): Point
    requires cols > 0
  {
    Point(k / cols, k % cols)
  }

  lemma MulLeq(a: int, b: int, c: int)
    requires a <= b && c >= 0
    ensures a * c <= b * c
  {
    assert b * c - a * c == (b - a) * c;
  }

  /** A cell inside the grid has an index inside the table. */
  lemma IndexInRange(p: Point, rows: int, cols: int)
    requires InBounds(p, rows, cols)
    ensures 0 <= Index(p, cols) < Times(rows, cols)
  {
    TimesIsMul(rows, cols);
    TimesIsMul(p.x, cols);
    MulLeq(0, p.x, cols);
    MulLeq(p.x, rows - 1, cols);
    assert (rows - 1) * cols == rows * cols - cols;
  }

  lemma MulUnique(q: int, c: int, d: int)
    requires c > 0 && q * c == d && -c < d < c
    ensures q == 0
  {
    if q >= 1 {
      MulLeq(1, q, c);
    } else if q <= -1 {
      MulLeq(q, -1, c);
    }
  }

  /** Division with remainder is unique. */
  lemma DivModUnique(k: int, cols: int, a: int, r: int)
    requires cols > 0 && 0 <= r < cols && k == a * cols + r
    ensures k / cols == a && k % cols == r
  {
    var q, s := k / cols, k % cols;
    assert (q - a) * cols == r - s;
    MulUnique(q - a, cols, r - s);
  }

  /** Flattening then unflattening gives the cell back. */
  lemma DecodeIndex(p: Point, rows: int, cols: int)
    requires InBounds(p, rows, cols)
    ensures Index(p, cols) >= 0 && Decode(Index(p, cols), cols) == p
  {
    TimesIsMul(p.x, cols);
    MulLeq(0, p.x, cols);
    DivModUnique(Index(p, cols), cols, p.x, p.y);
  }

  /** Unflattening a table index gives a cell of the grid whose index it is. */
  lemma IndexDecode(k: int, rows: int, cols: int)
    requires rows >= 0 && 0 <= k < Times(rows, cols)
    ensures cols > 0
    ensures InBounds(Decode(k, cols), rows, cols) && Index(Decode(k, cols), cols) == k
  {
    TimesIsMul(rows, cols);
    if cols <= 0 {
      MulLeq(0, rows, -cols);
      assert false;
    }
    var q := k / cols;
    assert q * cols + k % cols == k;
    if q < 0 {
      MulLeq(q, -1, cols);
      assert false;
    }
    if q >= rows {
      MulLeq(rows, q, cols);
      assert false;
    }
    TimesIsMul(q, cols);
  }

  /** Two cells of the grid with the same index are the same cell. */
  lemma IndexInjective(p: Point, q: Point, rows: int, cols: int)
    requires InBounds(p, rows, cols) && InBounds(q, rows, cols)
    requires Index(p, cols) == Index(q, cols)
    ensures p == q
  {
    DecodeIndex(p, rows, cols);
    DecodeIndex(q, rows, cols);
  }

  /** Index 0 decodes to `Point(0, 0)`, the cell the backtrace stops at. */
  lemma DecodeZero(cols: int)
    requires cols > 0
    ensures Decode(0, cols) == Point(0, 0)
  {
  }
}
