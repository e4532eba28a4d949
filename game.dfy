/** The game object: the mutable state of the game and the operations that
    update it in place. Each operation is proved against its specification
    function in module Rules and keeps the invariant Rules.Inv. */
module SnakeGame {
  import opened Grid
  import opened Rules

  class Game {
    var snake: seq<Point>
    var dir: Point
    var nextDir: Point
    var apple: Point
    var score: nat
    var best: int
    var running: bool
    var paused: bool
    var tickInterval: int
    var wallsMode: bool

    /** The whole state, as a value. */
    function Snapshot(): State
      reads this
    {
      State(snake, dir, nextDir, apple, score, best, running, paused, tickInterval, wallsMode)
    }

    ghost predicate Valid()
      reads this
    {
      Inv(Snapshot())
    }

    /** The initial values of the state, followed by the start-up sequence,
        which reads the stored best score and resets the game. */
    constructor (loadedBest: int, rng: seq<int>)
      requires RandomStream(rng)
      ensures Snapshot() == ResetSpec(
        State([], Point(1, 0), Point(1, 0), Point(0, 0), 0, 0, false, false, START_TICK, false),
        loadedBest, rng)
      ensures Valid()
    {
      snake := [];
      dir := Point(1, 0);
      nextDir := Point(1, 0);
      apple := Point(0, 0);
      score := 0;
      best := 0;
      running := false;
      paused := false;
      tickInterval := START_TICK;
      wallsMode := false;
      new;
      ResetGame(loadedBest, rng);
    }

    /** `resetGame`: restores the fixed start position and places an apple;
        `loadedBest` is what storage holds for the best score. */
    method ResetGame(loadedBest: int, rng: seq<int>)
      requires RandomStream(rng)
      modifies this
      ensures Snapshot() == ResetSpec(old(Snapshot()), loadedBest, rng)
      ensures Valid()
    {
      snake := [Point(8, 10), Point(9, 10)];
      dir := Point(1, 0);
      nextDir := Point(1, 0);
      tickInterval := START_TICK;
      score := 0;
      running := true;
      paused := false;
      best := loadedBest;
      PlaceApple(rng);
      assert Snapshot() == ResetSpec(old(Snapshot()), loadedBest, rng);
      ResetEstablishesInv(old(Snapshot()), loadedBest, rng);
    }

    /** `placeApple`: up to MAX_TRIES random cells, the first free one wins;
        the origin when none is free. */
    method PlaceApple(rng: seq<int>)
      requires RandomStream(rng)
      modifies this`apple
      ensures apple == PlaceSpec(snake, rng)
    {
      for i := 0 to MAX_TRIES
        invariant FirstFree(snake, rng, i) == PlaceSpec(snake, rng)
      {
        var x := rng[2 * i];
        var y := rng[2 * i + 1];
        if Point(x, y) !in snake {
          apple := Point(x, y);
          return;
        }
      }
      apple := Point(0, 0);
    }

    /** `tick`: one step of the game. `rng` feeds the apple placement that
        follows eating. */
    method Tick(rng: seq<int>)
      requires Valid() && RandomStream(rng)
      modifies this
      ensures Snapshot() == TickSpec(old(Snapshot()), rng)
      ensures Valid()
    {
      if !running || paused {
        return;
      }
      ghost var s0 := Snapshot();
      TickKeepsInv(s0, rng);
      dir := nextDir;
      var target := NextHead();
      if target.None? {
        GameOver();
        return;
      }
      var head := target.value;
      if head in snake {
        GameOver();
        return;
      }
      Advance(head, rng);
    }

    /** The head cell of a tick under the committed direction: `None` when
        the head would leave the board with walls on, otherwise the cell it
        moves to, wrapped onto the board without walls. */
    method NextHead() returns (target: Option<Point>)
      requires snake != [] && InGrid(Last(snake)) && IsUnit(dir)
      ensures target == Target(snake, dir, wallsMode)
    {
      var head := Point(Last(snake).x + dir.x, Last(snake).y + dir.y);
      if wallsMode {
        if head.x < 0 || head.x >= GRID || head.y < 0 || head.y >= GRID {
          return None;
        }
      } else {
        head := Point(Wrap(head.x), Wrap(head.y));
      }
      return Some(head);
    }

    /** The second half of `tick`: push the new head, then either eat (score,
        speed, a new apple, the best score) or drop the tail. */
    method Advance(head: Point, rng: seq<int>)
      requires snake != [] && RandomStream(rng)
      modifies this
      ensures Snapshot() == AdvanceSpec(old(Snapshot()), head, rng)
    {
      ghost var s0 := Snapshot();
      snake := snake + [head];
      if head == apple {
        score := score + 1;
        tickInterval := Max(MIN_TICK, tickInterval - SPEED_STEP);
        PlaceApple(rng);
        SaveBest();
      } else {
        snake := snake[1..];
      }
      assert Snapshot() == AdvanceSpec(s0, head, rng);
    }

    /** `gameOver`: stops the game and clears the pause. */
    method GameOver()
      modifies this`running, this`paused
      ensures Snapshot() == GameOverSpec(old(Snapshot()))
    {
      running := false;
      paused := false;
    }

    /** `setDir`: queues `d` unless it reverses the committed direction. */
    method SetDir(d: Point)
      requires Valid() && IsUnit(d)
      modifies this`nextDir
      ensures Snapshot() == SetDirSpec(old(Snapshot()), d)
      ensures Valid()
    {
      SetDirKeepsInv(Snapshot(), d);
      if d.x == -dir.x && d.y == -dir.y {
        return;
      }
      nextDir := d;
    }

    /** `togglePause`: flips the pause while a game is running. */
    method TogglePause()
      requires Valid()
      modifies this`paused
      ensures Snapshot() == TogglePauseSpec(old(Snapshot()))
      ensures Valid()
    {
      TogglePauseKeepsInv(Snapshot());
      if !running {
        return;
      }
      paused := !paused;
    }

    /** The mode button: flips the wall mode and starts a new game. */
    method ToggleMode(loadedBest: int, rng: seq<int>)
      requires RandomStream(rng)
      modifies this
      ensures Snapshot() == ToggleModeSpec(old(Snapshot()), loadedBest, rng)
      ensures Valid()
    {
      wallsMode := !wallsMode;
      ResetGame(loadedBest, rng);
    }

    /** The comparison in `saveBest`. */
    method SaveBest()
      modifies this`best
      ensures Snapshot() == SaveBestSpec(old(Snapshot()))
    {
      if score > best {
        best := score;
      }
    }
  }
}
