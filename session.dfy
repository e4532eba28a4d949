/** The page's event handlers as a sequence of events applied to the game
    state, and what holds over every run of them: the invariant on every
    reachable state, a score that only a new game resets, and a finished
    game that stays finished until one is started. */
module Session {
  import opened Grid
  import opened Rules

  /** What reaches the game between two frames. Arrow keys, WASD, the
      on-screen arrows and swipes all become `Turn`; the space bar and the
      pause button become `Pause`. `loadedBest` is what storage holds when a
      new game reads it, and `rng` is the random stream of a tick or of a
      new game's apple. */
  datatype Event =
    | Turn(d: Point)
    | Timer(rng: seq<int>)
    | Pause
    | EnterKey(loadedBest: int, rng: seq<int>)
    | RestartButton(loadedBest: int, rng: seq<int>)
    | ModeButton(loadedBest: int, rng: seq<int>)

  predicate WellFormed(e: Event) {
    match e
    case Turn(d) => IsUnit(d)
    case Timer(rng) => RandomStream(rng)
    case Pause => true
    case EnterKey(_, rng) => RandomStream(rng)
    case RestartButton(_, rng) => RandomStream(rng)
    case ModeButton(_, rng) => RandomStream(rng)
  }

  /** The events that start a new game (Enter only while no game runs). */
  predicate Starts(e: Event) {
    e.EnterKey? || e.RestartButton? || e.ModeButton?
  }

  /** One event. Enter starts a new game only while no game is running. */
  function Apply(s: State, e: Event): (r: State)
    requires Inv(s) && WellFormed(e)
    ensures !e.ModeButton? ==> r.wallsMode == s.wallsMode
    ensures e.ModeButton? ==> r.wallsMode == !s.wallsMode
    ensures e.EnterKey? && s.running ==> r == s
    ensures Starts(e) && !(e.EnterKey? && s.running) ==> FreshGame(r, e.loadedBest, e.rng)
  {
    match e
    case Turn(d) => SetDirSpec(s, d)
    case Timer(rng) => TickSpec(s, rng)
    case Pause => TogglePauseSpec(s)
    case EnterKey(loadedBest, rng) => if !s.running then ResetSpec(s, loadedBest, rng) else s
    case RestartButton(loadedBest, rng) => ResetSpec(s, loadedBest, rng)
    case ModeButton(loadedBest, rng) => ToggleModeSpec(s, loadedBest, rng)
  }

  lemma ApplyKeepsInv(s: State, e: Event)
    requires Inv(s) && WellFormed(e)
    ensures Inv(Apply(s, e))
  {
    match e
    case Turn(d) => SetDirKeepsInv(s, d);
    case Timer(rng) => TickKeepsInv(s, rng);
    case Pause => TogglePauseKeepsInv(s);
    case EnterKey(loadedBest, rng) => ResetEstablishesInv(s, loadedBest, rng);
    case RestartButton(loadedBest, rng) => ResetEstablishesInv(s, loadedBest, rng);
    case ModeButton(loadedBest, rng) => ResetEstablishesInv(s, loadedBest, rng);
  }

  /** The state after a run of events: every state reached along the way
      satisfies the invariant (distinct cells on the board, at least two of
      them, a queued direction that does not reverse the committed one, and
      the speed law), so each event's handler is always applicable. */
  function Run(s: State, es: seq<Event>): (r: State)
    requires Inv(s) && forall i :: 0 <= i < |es| ==> WellFormed(es[i])
    ensures Inv(r)
    decreases |es|
  {
    if es == [] then s
    else
      ApplyKeepsInv(s, es[0]);
      Run(Apply(s, es[0]), es[1..])
  }

  /** Without a new game the score never goes down. */
  lemma {:induction false} ScoreNeverDrops(s: State, es: seq<Event>)
    requires Inv(s) && forall i :: 0 <= i < |es| ==> WellFormed(es[i])
    requires forall i :: 0 <= i < |es| ==> !Starts(es[i])
    ensures Run(s, es).score >= s.score
    ensures Run(s, es).wallsMode == s.wallsMode
    decreases |es|
  {
    if es != [] {
      ApplyKeepsInv(s, es[0]);
      ScoreNeverDrops(Apply(s, es[0]), es[1..]);
    }
  }

  /** A finished game stays finished: once `running` is false and until a
      new game is started, nothing changes but the queued direction, so the
      body, the score, the best score and the apple are all frozen. */
  lemma {:induction false} GameOverIsFinal(s: State, es: seq<Event>)
    requires Inv(s) && !s.running && forall i :: 0 <= i < |es| ==> WellFormed(es[i])
    requires forall i :: 0 <= i < |es| ==> !Starts(es[i])
    ensures Run(s, es) == s.(nextDir := Run(s, es).nextDir)
    decreases |es|
  {
    if es != [] {
      var t := Apply(s, es[0]);
      assert t == s.(nextDir := t.nextDir);
      ApplyKeepsInv(s, es[0]);
      GameOverIsFinal(t, es[1..]);
    }
  }
}
