/** Grid geometry of the snake game: the configuration constants, cells and
    direction vectors, the torus wrap and the predicate that says a body is
    well formed. */
module Grid {

  /** Cells per side of the square board. */
  const GRID: int := 20
  /** Fastest tick interval, in milliseconds. */
  const MIN_TICK: int := 55
  /** Tick interval of a fresh game, in milliseconds. */
  const START_TICK: int := 160
  /** Milliseconds taken off the tick interval per apple eaten. */
  const SPEED_STEP: int := 5
  /** Random candidates tried when placing an apple. */
  const MAX_TRIES: nat := 2000

  /** An `{x, y}` record: a board cell or a direction vector. */
  datatype Point = Point(x: int, y: int)

  function Neg(p: Point): (r: Point)
    ensures r.x + p.x == 0 && r.y + p.y == 0
  {
    Point(-p.x, -p.y)
  }

  function Max(a: int, b: int): (r: int)
    ensures r >= a && r >= b && (r == a || r == b)
  {
    if a >= b then a else b
  }

  /** The four directions the controls ever pass to setDir. */
  predicate IsUnit(d: Point) {
    d == Point(1, 0) || d == Point(-1, 0) || d == Point(0, 1) || d == Point(0, -1)
  }

  predicate InGrid(p: Point) {
    0 <= p.x < GRID && 0 <= p.y < GRID
  }

  /** JavaScript's `%`: the remainder takes the sign of the dividend. */
  function JsRem(a: int, b: int): (r: int)
    requires b > 0
    ensures -b < r < b
    ensures a >= 0 ==> r == a % b
    ensures a < 0 ==> r <= 0
  {
    if a >= 0 then a % b else -((-a) % b)
  }

  /** The wrap of one coordinate, `(v + GRID) % GRID`. It lands on the board
      for every coordinate no more than one board width below it, and within
      one board width either side it moves the coordinate by exactly one
      board width, or not at all when it is already on the board. */
  function Wrap(v: int): (r: int)
    requires v >= -GRID
    ensures 0 <= r < GRID
    ensures v < 0 ==> r == v + GRID
    ensures 0 <= v < GRID ==> r == v
    ensures GRID <= v < 2 * GRID ==> r == v - GRID
  {
    JsRem(v + GRID, GRID)
  }

  function WrapPoint(p: Point): (r: Point)
    requires p.x >= -GRID && p.y >= -GRID
    ensures InGrid(r)
  {
    Point(Wrap(p.x), Wrap(p.y))
  }

  function Last(s: seq<Point>): Point
    requires s != []
  {
    s[|s| - 1]
  }

  /** The cell one step from the head of `body` along `d`, before any wrap. */
  function StepFrom(body: seq<Point>, d: Point): (r: Point)
    requires body != []
    ensures r.x - Last(body).x == d.x && r.y - Last(body).y == d.y
  {
    Point(Last(body).x + d.x, Last(body).y + d.y)
  }

  /** No cell occurs twice. */
  ghost predicate Distinct(s: seq<Point>)
    decreases |s|
  {
    s == [] || (s[0] !in s[1..] && Distinct(s[1..]))
  }

  /** A well-formed snake: at least two cells, all on the board, no cell twice. */
  ghost predicate BodyOK(s: seq<Point>) {
    |s| >= 2 && (forall i :: 0 <= i < |s| ==> InGrid(s[i])) && Distinct(s)
  }

  /** Pushing a cell that is not there yet keeps the cells distinct. */
  lemma {:induction false} DistinctPush(s: seq<Point>, p: Point)
    requires Distinct(s) && p !in s
    ensures Distinct(s + [p])
    decreases |s|
  {
    if s != [] {
      assert (s + [p])[1..] == s[1..] + [p];
      DistinctPush(s[1..], p);
    }
  }

  /** Shifting off the first cell keeps the cells distinct. */
  lemma DistinctShift(s: seq<Point>)
    requires Distinct(s) && s != []
    ensures Distinct(s[1..])
  {
  }

  /** One step on the torus: a step that stays on the board is kept, and a
      step off an edge re-enters at the opposite edge with the other
      coordinate unchanged. */
  lemma WrapStep(p: Point, d: Point)
    requires InGrid(p) && IsUnit(d)
    ensures var q := Point(p.x + d.x, p.y + d.y);
      && (InGrid(q) ==> WrapPoint(q) == q)
      && (p.x == GRID - 1 && d == Point(1, 0) ==> WrapPoint(q) == Point(0, p.y))
      && (p.x == 0 && d == Point(-1, 0) ==> WrapPoint(q) == Point(GRID - 1, p.y))
      && (p.y == GRID - 1 && d == Point(0, 1) ==> WrapPoint(q) == Point(p.x, 0))
      && (p.y == 0 && d == Point(0, -1) ==> WrapPoint(q) == Point(p.x, GRID - 1))
  {
  }
}
