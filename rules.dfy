/** The rules of the game as functions on a snapshot of its state. Every
    operation of the game object is specified by one of these functions,
    and the game's laws are stated about them. */
module Rules {
  import opened Grid

  /** A snapshot of every piece of game state: the body tail-first (the
      head is its last cell), the committed and the queued direction, the
      apple, the scores, the lifecycle flags, the tick interval and the
      wall mode. */
  datatype State = State(
    snake: seq<Point>,
    dir: Point,
    nextDir: Point,
    apple: Point,
    score: nat,
    best: int,
    running: bool,
    paused: bool,
    tickInterval: int,
    wallsMode: bool)

  /** The tick interval after `eaten` apples since the last reset. */
  function IntervalAfter(eaten: nat): (r: int)
    ensures MIN_TICK <= r <= START_TICK
    ensures r >= START_TICK - SPEED_STEP * eaten
    ensures r == MIN_TICK || r == START_TICK - SPEED_STEP * eaten
  {
    Max(MIN_TICK, START_TICK - SPEED_STEP * eaten)
  }

  /** What every reachable state satisfies. */
  ghost predicate Inv(s: State) {
    && BodyOK(s.snake)
    && IsUnit(s.dir) && IsUnit(s.nextDir)
    && s.nextDir != Neg(s.dir)
    && InGrid(s.apple)
    && (s.paused ==> s.running)
    && s.tickInterval == IntervalAfter(s.score)
    && (s.score > 0 ==> s.best >= s.score)
  }

  // ---------------------------------------------------------------------
  // Apple placement

  /** A random source: the integers drawn for the placement attempts, two
      per attempt (x, then y), each in [0, GRID). */
  predicate RandomStream(rng: seq<int>) {
    |rng| >= 2 * MAX_TRIES && forall i :: 0 <= i < |rng| ==> 0 <= rng[i] < GRID
  }

  /** The cell proposed by attempt `k`. */
  function Candidate(rng: seq<int>, k: nat): (c: Point)
    requires RandomStream(rng) && k < MAX_TRIES
    ensures InGrid(c)
  {
    Point(rng[2 * k], rng[2 * k + 1])
  }

  /** The cell chosen by the attempts from `k` on: the first candidate that
      is not in `body`, or the origin once the attempts run out. */
  function FirstFree(body: seq<Point>, rng: seq<int>, k: nat): (c: Point)
    requires RandomStream(rng) && k <= MAX_TRIES
    ensures InGrid(c)
    decreases MAX_TRIES - k
  {
    if k == MAX_TRIES then Point(0, 0)
    else if Candidate(rng, k) !in body then Candidate(rng, k)
    else FirstFree(body, rng, k + 1)
  }

  /** What the attempts from `k` on choose: the first free candidate when
      there is one, the origin otherwise. */
  lemma {:induction false} FirstFreeLaw(body: seq<Point>, rng: seq<int>, k: nat)
    requires RandomStream(rng) && k <= MAX_TRIES
    ensures var c := FirstFree(body, rng, k);
      && ((exists j :: k <= j < MAX_TRIES && Candidate(rng, j) !in body) ==>
            c !in body &&
            exists j :: k <= j < MAX_TRIES && c == Candidate(rng, j) &&
              forall i :: k <= i < j ==> Candidate(rng, i) in body)
      && ((forall j :: k <= j < MAX_TRIES ==> Candidate(rng, j) in body) ==> c == Point(0, 0))
    decreases MAX_TRIES - k
  {
    if k < MAX_TRIES && Candidate(rng, k) in body {
      FirstFreeLaw(body, rng, k + 1);
    }
  }

  /** `placeApple`: the choice made by all MAX_TRIES attempts. */
  function PlaceSpec(body: seq<Point>, rng: seq<int>): (c: Point)
    requires RandomStream(rng)
    ensures InGrid(c)
  {
    FirstFree(body, rng, 0)
  }

  /** The apple is off the snake whenever one of the attempts proposed a
      free cell, and is then the first such candidate; when none did, it is
      the origin, which may lie inside the snake. */
  lemma PlaceAppleLaw(body: seq<Point>, rng: seq<int>)
    requires RandomStream(rng)
    ensures var c := PlaceSpec(body, rng);
      && ((exists j :: 0 <= j < MAX_TRIES && Candidate(rng, j) !in body) ==>
            c !in body &&
            exists j :: 0 <= j < MAX_TRIES && c == Candidate(rng, j) &&
              forall i :: 0 <= i < j ==> Candidate(rng, i) in body)
      && ((forall j :: 0 <= j < MAX_TRIES ==> Candidate(rng, j) in body) ==> c == Point(0, 0))
  {
    FirstFreeLaw(body, rng, 0);
  }

  /** The fallback is not checked against the body: when every attempt
      hits the snake and the snake covers the origin, the apple lands on
      the snake. */
  lemma FallbackOnSnake(body: seq<Point>, rng: seq<int>)
    requires RandomStream(rng) && Point(0, 0) in body
    requires forall j :: 0 <= j < MAX_TRIES ==> Candidate(rng, j) in body
    ensures PlaceSpec(body, rng) == Point(0, 0)
    ensures PlaceSpec(body, rng) in body
  {
    PlaceAppleLaw(body, rng);
  }

  /** A witness that the premise of FallbackOnSnake can be met: the
      all-zero stream against the body (0,0),(1,0). */
  lemma FallbackInsideSnake()
    ensures var rng := seq(2 * MAX_TRIES, _ => 0);
      RandomStream(rng) && PlaceSpec([Point(0, 0), Point(1, 0)], rng) in [Point(0, 0), Point(1, 0)]
  {
    var rng := seq(2 * MAX_TRIES, _ => 0);
    forall j | 0 <= j < MAX_TRIES
      ensures Candidate(rng, j) in [Point(0, 0), Point(1, 0)]
    {
      assert rng[2 * j] == 0 && rng[2 * j + 1] == 0;
    }
    FallbackOnSnake([Point(0, 0), Point(1, 0)], rng);
  }

  // ---------------------------------------------------------------------
  // State transitions

  /** `best := max(best, score)`. */
  function SaveBestSpec(s: State): (r: State)
    ensures r.best >= s.best && r.best >= s.score
    ensures r.best == s.best || r.best == s.score
    ensures r == s.(best := r.best)
  {
    if s.score > s.best then s.(best := s.score) else s
  }

  /** The fixed start of a game: the two-cell snake heading right, no
      score, the slowest speed, running and not paused, `best` reloaded
      from storage and an apple placed over the new body. */
  ghost predicate FreshGame(r: State, loadedBest: int, rng: seq<int>)
    requires RandomStream(rng)
  {
    && r.snake == [Point(8, 10), Point(9, 10)]
    && r.dir == Point(1, 0) && r.nextDir == Point(1, 0)
    && r.score == 0 && r.tickInterval == START_TICK
    && r.running && !r.paused
    && r.best == loadedBest
    && r.apple == PlaceSpec(r.snake, rng)
  }

  /** `resetGame`; the wall mode is kept. */
  function ResetSpec(s: State, loadedBest: int, rng: seq<int>): (r: State)
    requires RandomStream(rng)
    ensures FreshGame(r, loadedBest, rng)
    ensures r.wallsMode == s.wallsMode
  {
    var body := [Point(8, 10), Point(9, 10)];
    s.(snake := body, dir := Point(1, 0), nextDir := Point(1, 0),
       tickInterval := START_TICK, score := 0, running := true, paused := false,
       best := loadedBest, apple := PlaceSpec(body, rng))
  }

  /** `gameOver`: nothing but the two flags changes. */
  function GameOverSpec(s: State): (r: State)
    ensures !r.running && !r.paused
    ensures r == s.(running := false, paused := false)
  {
    s.(running := false, paused := false)
  }

  datatype Option<T> = None | Some(value: T)

  /** Where the head goes under the committed direction `d`: `None` when it
      would leave the board with walls on, the wrapped cell otherwise. */
  function Target(body: seq<Point>, d: Point, wallsMode: bool): (r: Option<Point>)
    requires body != [] && InGrid(Last(body)) && IsUnit(d)
    ensures r.Some? ==> InGrid(r.value)
    ensures wallsMode ==> (r.None? <==> !InGrid(StepFrom(body, d)))
    ensures wallsMode && r.Some? ==> r.value == StepFrom(body, d)
    ensures !wallsMode ==> r.Some?
  {
    var raw := StepFrom(body, d);
    if wallsMode then
      if !InGrid(raw) then None else Some(raw)
    else
      Some(WrapPoint(raw))
  }

  /** The commit of a move onto `head` (the push, then either eating or the
      shift of the tail): the head becomes the last cell, the body grows by
      one cell exactly when it eats the apple, and only eating changes the
      score. */
  function AdvanceSpec(s: State, head: Point, rng: seq<int>): (r: State)
    requires s.snake != [] && RandomStream(rng)
    ensures |r.snake| == |s.snake| + (if head == s.apple then 1 else 0)
    ensures Last(r.snake) == head
    ensures r.score == s.score + (if head == s.apple then 1 else 0)
    ensures r.running == s.running && r.paused == s.paused
    ensures r.dir == s.dir && r.nextDir == s.nextDir && r.wallsMode == s.wallsMode
  {
    var pushed := s.snake + [head];
    if head == s.apple then
      var eaten := s.(snake := pushed, score := s.score + 1,
                      tickInterval := Max(MIN_TICK, s.tickInterval - SPEED_STEP));
      SaveBestSpec(eaten.(apple := PlaceSpec(pushed, rng)))
    else
      s.(snake := pushed[1..])
  }

  /** `tick`, one step of the game. A live tick commits the queued
      direction; a tick never lowers the score; a tick that ends the game
      leaves the body, the score and the apple as they were. */
  function TickSpec(s: State, rng: seq<int>): (r: State)
    requires Inv(s) && RandomStream(rng)
    ensures r.wallsMode == s.wallsMode
    ensures r.dir == if s.running && !s.paused then s.nextDir else s.dir
    ensures r.score >= s.score
    ensures !r.running ==> r.snake == s.snake && r.score == s.score && r.apple == s.apple
  {
    if !s.running || s.paused then s
    else
      var t := s.(dir := s.nextDir);
      match Target(s.snake, t.dir, s.wallsMode)
      case None => GameOverSpec(t)
      case Some(head) =>
        if head in s.snake then GameOverSpec(t)
        else AdvanceSpec(t, head, rng)
  }

  /** `setDir`: a request for the reverse of the committed direction is
      dropped and any other request is queued, so the queued direction never
      reverses the committed one. */
  function SetDirSpec(s: State, d: Point): (r: State)
    ensures r == s.(nextDir := r.nextDir)
    ensures r.nextDir == (if d == Neg(s.dir) then s.nextDir else d)
    ensures s.nextDir != Neg(s.dir) ==> r.nextDir != Neg(r.dir)
  {
    if d == Neg(s.dir) then s else s.(nextDir := d)
  }

  /** `togglePause`: ignored unless a game is running. */
  function TogglePauseSpec(s: State): (r: State)
    ensures r == s.(paused := r.paused)
    ensures r.paused != s.paused <==> s.running
  {
    if !s.running then s else s.(paused := !s.paused)
  }

  /** The mode button: flip the wall mode, then start a new game. */
  function ToggleModeSpec(s: State, loadedBest: int, rng: seq<int>): (r: State)
    requires RandomStream(rng)
    ensures FreshGame(r, loadedBest, rng)
    ensures r.wallsMode == !s.wallsMode
  {
    ResetSpec(s.(wallsMode := !s.wallsMode), loadedBest, rng)
  }

  // ---------------------------------------------------------------------
  // The invariant

  lemma UnitNotSelfReverse(d: Point)
    requires IsUnit(d)
    ensures d != Neg(d)
  {
  }

  /** A reset, and hence the mode switch, establishes the invariant whatever
      the state before. */
  lemma ResetEstablishesInv(s: State, loadedBest: int, rng: seq<int>)
    requires RandomStream(rng)
    ensures Inv(ResetSpec(s, loadedBest, rng))
    ensures Inv(ToggleModeSpec(s, loadedBest, rng))
  {
    var body := [Point(8, 10), Point(9, 10)];
    assert Distinct(body) by {
      assert body[1..] == [Point(9, 10)];
      assert Distinct(body[1..][1..]);
    }
    assert BodyOK(body);
    var r := ResetSpec(s, loadedBest, rng);
    assert r.snake == body;
    var m := ToggleModeSpec(s, loadedBest, rng);
    assert m.snake == body;
  }

  /** Committing a move onto a free cell of the board keeps the invariant. */
  lemma AdvanceKeepsInv(s: State, head: Point, rng: seq<int>)
    requires Inv(s) && RandomStream(rng)
    requires InGrid(head) && head !in s.snake
    ensures Inv(AdvanceSpec(s, head, rng))
  {
    var pushed := s.snake + [head];
    DistinctPush(s.snake, head);
    assert forall i :: 0 <= i < |pushed| ==> InGrid(pushed[i]) by {
      forall i | 0 <= i < |pushed| ensures InGrid(pushed[i]) {
        if i < |s.snake| { assert pushed[i] == s.snake[i]; }
      }
    }
    assert BodyOK(pushed);
    var r := AdvanceSpec(s, head, rng);
    if head == s.apple {
      SpeedStep(s.score);
      assert r.snake == pushed;
    } else {
      DistinctShift(pushed);
      assert r.snake == pushed[1..];
      assert forall i :: 0 <= i < |pushed[1..]| ==> InGrid(pushed[1..][i]) by {
        forall i | 0 <= i < |pushed[1..]| ensures InGrid(pushed[1..][i]) {
          assert pushed[1..][i] == pushed[i + 1];
        }
      }
      assert BodyOK(r.snake);
      assert r == s.(snake := pushed[1..]);
    }
  }

  /** The body invariant and the others survive every tick: a head that is
      already in the body, the tail included, ends the game before the body
      is touched. */
  lemma TickKeepsInv(s: State, rng: seq<int>)
    requires Inv(s) && RandomStream(rng)
    ensures Inv(TickSpec(s, rng))
  {
    if s.running && !s.paused {
      var t := s.(dir := s.nextDir);
      UnitNotSelfReverse(s.nextDir);
      assert Inv(t);
      match Target(s.snake, t.dir, s.wallsMode)
      case None =>
        assert Inv(GameOverSpec(t));
      case Some(head) =>
        if head in s.snake {
          assert Inv(GameOverSpec(t));
        } else {
          AdvanceKeepsInv(t, head, rng);
        }
    }
  }

  lemma SetDirKeepsInv(s: State, d: Point)
    requires Inv(s) && IsUnit(d)
    ensures Inv(SetDirSpec(s, d))
  {
    assert SetDirSpec(s, d).snake == s.snake;
  }

  lemma TogglePauseKeepsInv(s: State)
    requires Inv(s)
    ensures Inv(TogglePauseSpec(s))
  {
    assert TogglePauseSpec(s).snake == s.snake;
  }

  // ---------------------------------------------------------------------
  // Laws of one tick

  /** With the game over or paused, a tick changes nothing. */
  lemma TickInert(s: State, rng: seq<int>)
    requires Inv(s) && RandomStream(rng)
    requires !s.running || s.paused
    ensures TickSpec(s, rng) == s
  {
  }

  /** A live tick commits the queued direction, which is never the reverse
      of the direction committed before it. */
  lemma TickCommitsDirection(s: State, rng: seq<int>)
    requires Inv(s) && RandomStream(rng)
    requires s.running && !s.paused
    ensures TickSpec(s, rng).dir == s.nextDir
    ensures TickSpec(s, rng).dir != Neg(s.dir)
  {
  }

  /** With walls on, a head off the board ends the game; the body, the
      score, the apple and the speed are left as they were. */
  lemma WallDeath(s: State, rng: seq<int>)
    requires Inv(s) && RandomStream(rng)
    requires s.running && !s.paused && s.wallsMode
    requires !InGrid(StepFrom(s.snake, s.nextDir))
    ensures TickSpec(s, rng) == s.(dir := s.nextDir, running := false, paused := false)
  {
  }

  /** Without walls the new head is the step from the old head, wrapped onto
      the board. */
  lemma WrapMove(s: State)
    requires Inv(s) && !s.wallsMode
    ensures Target(s.snake, s.nextDir, false) == Some(WrapPoint(StepFrom(s.snake, s.nextDir)))
    ensures InGrid(StepFrom(s.snake, s.nextDir)) ==>
      Target(s.snake, s.nextDir, false) == Some(StepFrom(s.snake, s.nextDir))
  {
    WrapStep(Last(s.snake), s.nextDir);
  }

  /** A head landing on any body cell, the tail that the move would vacate
      included, ends the game and leaves the body as it was. */
  lemma SelfCollision(s: State, rng: seq<int>, head: Point)
    requires Inv(s) && RandomStream(rng)
    requires s.running && !s.paused
    requires Target(s.snake, s.nextDir, s.wallsMode) == Some(head)
    requires head in s.snake
    ensures TickSpec(s, rng) == s.(dir := s.nextDir, running := false, paused := false)
  {
  }

  /** A move onto a free cell other than the apple: the body keeps its
      length, gains the new head at its end and drops its old tail, and the
      score, apple, best score and speed are unchanged. */
  lemma PlainMove(s: State, rng: seq<int>, head: Point)
    requires Inv(s) && RandomStream(rng)
    requires s.running && !s.paused
    requires Target(s.snake, s.nextDir, s.wallsMode) == Some(head)
    requires head !in s.snake && head != s.apple
    ensures var r := TickSpec(s, rng);
      && |r.snake| == |s.snake|
      && Last(r.snake) == head
      && r.snake[..|r.snake| - 1] == s.snake[1..]
      && r == s.(snake := r.snake, dir := s.nextDir)
  {
    var r := TickSpec(s, rng);
    assert r.snake == (s.snake + [head])[1..];
    assert r.snake[..|r.snake| - 1] == s.snake[1..];
  }

  /** Eating: the score goes up by one, the body grows by the new head and
      keeps its tail, the speed steps up to its floor, the best score
      follows the score, and the new apple is placed over the grown body. */
  lemma Eat(s: State, rng: seq<int>, head: Point)
    requires Inv(s) && RandomStream(rng)
    requires s.running && !s.paused
    requires Target(s.snake, s.nextDir, s.wallsMode) == Some(head)
    requires head !in s.snake && head == s.apple
    ensures var r := TickSpec(s, rng);
      && r.score == s.score + 1
      && r.snake == s.snake + [head]
      && r.tickInterval == Max(MIN_TICK, s.tickInterval - SPEED_STEP)
      && r.tickInterval == IntervalAfter(r.score)
      && r.best == Max(s.best, r.score)
      && r.apple == PlaceSpec(r.snake, rng)
      && r == s.(snake := r.snake, dir := s.nextDir, score := r.score,
                 tickInterval := r.tickInterval, best := r.best, apple := r.apple)
  {
  }

  /** The speed law: each apple takes SPEED_STEP off the interval, down to
      MIN_TICK, so after `n` apples it is max(MIN_TICK, START_TICK - 5n). */
  lemma SpeedStep(n: nat)
    ensures Max(MIN_TICK, IntervalAfter(n) - SPEED_STEP) == IntervalAfter(n + 1)
    ensures IntervalAfter(n + 1) <= IntervalAfter(n)
  {
  }

  // ---------------------------------------------------------------------
  // Scenarios

  /** From a fresh game without walls, the first tick moves the snake one
      cell right when the apple is not in the way. */
  lemma FirstMoveScenario(s: State, loadedBest: int, rng0: seq<int>, rng: seq<int>)
    requires RandomStream(rng0) && RandomStream(rng)
    requires !s.wallsMode
    requires PlaceSpec([Point(8, 10), Point(9, 10)], rng0) != Point(10, 10)
    ensures var r := TickSpec(ResetSpec(s, loadedBest, rng0), rng);
      r.snake == [Point(9, 10), Point(10, 10)] && r.score == 0 && r.running
  {
    var s0 := ResetSpec(s, loadedBest, rng0);
    ResetEstablishesInv(s, loadedBest, rng0);
    assert Target(s0.snake, s0.nextDir, false) == Some(Point(10, 10));
  }

  /** Moving into the cell the tail is about to leave still ends the game:
      a four-cell snake curled in a square, heading up into its own tail. */
  lemma TailIsDeadlyScenario(rng: seq<int>)
    requires RandomStream(rng)
    ensures var s := State([Point(5, 5), Point(6, 5), Point(6, 6), Point(5, 6)],
                           Point(-1, 0), Point(0, -1), Point(0, 0), 0, 0, true, false, START_TICK, false);
      Inv(s) && !TickSpec(s, rng).running && TickSpec(s, rng).snake == s.snake
  {
    var s := State([Point(5, 5), Point(6, 5), Point(6, 6), Point(5, 6)],
                   Point(-1, 0), Point(0, -1), Point(0, 0), 0, 0, true, false, START_TICK, false);
    assert Target(s.snake, s.nextDir, false) == Some(Point(5, 5));
  }

  /** With walls on, a head at the right edge moving right ends the game
      with the body unchanged. */
  lemma WallScenario(rng: seq<int>)
    requires RandomStream(rng)
    ensures var s := State([Point(18, 10), Point(19, 10)],
                           Point(1, 0), Point(1, 0), Point(0, 0), 0, 0, true, false, START_TICK, true);
      Inv(s) && !TickSpec(s, rng).running && TickSpec(s, rng).snake == s.snake
  {
  }
}
