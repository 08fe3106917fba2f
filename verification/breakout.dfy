/** The game controller: the screen-level state machine that creates rounds,
    runs the serve countdown, plays frames and pauses between tries.  One call
    of `Update` is one animation frame. */
module Breakout {
  import opened Wrappers
  import opened Constants
  import opened Game2d
  import opened Models
  import opened Play

  datatype State = Inactive | NewGame | Countdown | Active | Paused | Complete

  /** Frames of the serve countdown (three seconds at sixty frames a second). */
  const COUNTDOWN_FRAMES: nat := 180

  /** The controller's state: the screen state, the round in play (absent
      before the first round is created), the frame counter of the countdown
      and the number of keys that were down at the last key check. */
  datatype Game = Game(state: State, round: Option<Round>, frames: nat, lastKeys: nat)

  /** The random draw of one serve: the horizontal speed and whether it points
      left.  The source draws both with a random number generator. */
  datatype Serve = Serve(speed: real, negate: bool)
  {
    predicate Valid() { 1.0 <= speed <= 5.0 }
  }

  /** What the controller is given in one frame. */
  datatype Tick = Tick(input: Input, serve: Serve)

  /** The invariants the controller keeps between frames. */
  predicate WellFormed(c: Config, g: Game) {
    && (g.round.None? <==> g.state == Inactive || g.state == NewGame)
    && (g.state != Countdown ==> g.frames % COUNTDOWN_FRAMES == 0)
    && (g.round.Some? ==>
          && 0 <= g.round.value.tries <= STARTING_TRIES
          && PaddleInBounds(c, g.round.value.paddle))
    && (g.state == Countdown || g.state == Active || g.state == Paused ==> g.round.value.tries >= 1)
    && (g.state == Active ==> g.round.value.ball.Some?)
  }

  /** The application at launch: waiting for a key, no round, counters at zero. */
  function Start(c: Config): (g: Game)
    ensures WellFormed(c, g)
    ensures g.state == Inactive
  {
    Game(Inactive, None, 0, 0)
  }

  /** The key check of the two waiting states: a key counts only in the frame
      in which it goes down, that is when some key is down now and none was at
      the previous check.  The count seen is remembered either way. */
  function DetermineState(g: Game, keyCount: nat): (g': Game)
    ensures g'.lastKeys == keyCount
    ensures g'.round == g.round && g'.frames == g.frames
    ensures g'.state != g.state <==>
              keyCount > 0 && g.lastKeys == 0 && (g.state == Inactive || g.state == Paused)
    ensures g'.state != g.state ==>
              (g.state == Inactive && g'.state == NewGame) || (g.state == Paused && g'.state == Countdown)
  {
    var change := keyCount > 0 && g.lastKeys == 0;
    var s1 := if change && g.state == Inactive then NewGame else g.state;
    var s2 := if change && s1 == Paused then Countdown else s1;
    g.(state := s2, lastKeys := keyCount)
  }

  /** One animation frame of the controller. */
  function Update(c: Config, g: Game, t: Tick): (g': Game)
    requires c.Valid() && WellFormed(c, g) && t.serve.Valid()
    ensures WellFormed(c, g')
    // the launch screen is never shown again once left
    ensures g.state != Inactive ==> g'.state != Inactive
    // the game-over screen is final
    ensures g.state == Complete ==> g' == g
    // the frame counter only moves during the countdown
    ensures g.state != Countdown ==> g'.frames == g.frames
    ensures g.state == Countdown ==> g'.frames == g.frames + 1
    // only the waiting states look at the key count
    ensures g.state != Inactive && g.state != Paused ==> g'.lastKeys == g.lastKeys
  {
    match g.state
    case Inactive => DetermineState(g, t.input.keyCount)
    case NewGame => g.(round := Some(NewRound(c)), state := Countdown)
    case Countdown =>
      var r := UpdatePaddle(c, g.round.value, t.input);
      var f := g.frames + 1;
      if f % COUNTDOWN_FRAMES == 0 then
        g.(state := Active, round := Some(ServeBall(c, r, t.serve.speed, t.serve.negate)), frames := f)
      else
        g.(round := Some(r), frames := f)
    case Active =>
      var r1 := UpdatePaddle(c, g.round.value, t.input);
      var r2 := UpdateBall(c, r1).0;
      var s := if |r2.bricks| == 0 then Complete
               else if r1.tries != r2.tries then (if r2.tries > 0 then Paused else Complete)
               else Active;
      g.(state := s, round := Some(r2))
    case Paused => DetermineState(g, t.input.keyCount)
    case Complete => g
  }

  /** The controller after a sequence of frames. */
  function Run(c: Config, g: Game, ticks: seq<Tick>): (g': Game)
    requires c.Valid() && WellFormed(c, g)
    requires forall i :: 0 <= i < |ticks| ==> ticks[i].serve.Valid()
    ensures WellFormed(c, g')
    decreases |ticks|
  {
    if |ticks| == 0 then g
    else Update(c, Run(c, g, ticks[..|ticks| - 1]), ticks[|ticks| - 1])
  }

  // ---------------------------------------------------------------------------
  // One-frame properties

  /** A new game lasts one frame: it becomes the countdown with a freshly
      built round. */
  lemma NewGameToCountdown(c: Config, g: Game, t: Tick)
    requires c.Valid() && WellFormed(c, g) && t.serve.Valid()
    requires g.state == NewGame
    ensures Update(c, g, t).state == Countdown
    ensures Update(c, g, t).round == Some(NewRound(c))
    ensures Update(c, g, t).frames % COUNTDOWN_FRAMES == 0
  {
  }

  /** The two waiting states advance exactly on a key going down: the launch
      screen to a new game, the pause to a countdown.  Nothing else changes, so
      the bricks, tries and paddle of a paused round carry over to the next
      countdown. */
  lemma WaitingAdvancesOnKeyEdge(c: Config, g: Game, t: Tick)
    requires c.Valid() && WellFormed(c, g) && t.serve.Valid()
    requires g.state == Inactive || g.state == Paused
    ensures var g' := Update(c, g, t);
            && (g'.state != g.state <==> t.input.keyCount > 0 && g.lastKeys == 0)
            && (g.state == Inactive ==> g'.state == Inactive || g'.state == NewGame)
            && (g.state == Paused ==> g'.state == Paused || g'.state == Countdown)
            && g'.lastKeys == t.input.keyCount
    // the frame is the key check alone: the round and the counter carry over
    ensures Update(c, g, t) == DetermineState(g, t.input.keyCount)
    ensures Update(c, g, t).round == g.round && Update(c, g, t).frames == g.frames
  {
  }

  /** The countdown counts frames and ends exactly when the counter reaches a
      multiple of COUNTDOWN_FRAMES, with a served ball. */
  lemma CountdownStep(c: Config, g: Game, t: Tick)
    requires c.Valid() && WellFormed(c, g) && t.serve.Valid()
    requires g.state == Countdown
    ensures var g' := Update(c, g, t);
            && g'.frames == g.frames + 1
            && (g'.state == Active <==> g'.frames % COUNTDOWN_FRAMES == 0)
            && (g'.state == Countdown <==> g'.frames % COUNTDOWN_FRAMES != 0)
            && g'.round.value.tries == g.round.value.tries
            && g'.round.value.bricks == g.round.value.bricks
            && (g'.state == Active ==>
                  g'.round.value.ball.value.x == c.gameWidth / 2.0 &&
                  g'.round.value.ball.value.vy == SERVE_VY)
    // the paddle moves as in a round; on the last frame the ball is served
    ensures var r := UpdatePaddle(c, g.round.value, t.input);
            Update(c, g, t).round ==
              Some(if (g.frames + 1) % COUNTDOWN_FRAMES == 0
                   then ServeBall(c, r, t.serve.speed, t.serve.negate) else r)
  {
  }

  /** How a frame of play ends, in terms of what happened to the ball: with no
      bricks left the game is won; otherwise a ball reaching the bottom edge
      costs a try and pauses the game, or ends it when that was the last try;
      otherwise play goes on. */
  lemma ActiveStep(c: Config, g: Game, t: Tick)
    requires c.Valid() && WellFormed(c, g) && t.serve.Valid()
    requires g.state == Active
    // the round takes a paddle step and then a ball step
    ensures Update(c, g, t).round == Some(UpdateBall(c, UpdatePaddle(c, g.round.value, t.input)).0)
    ensures var g' := Update(c, g, t);
            var r', b' := g'.round.value, g'.round.value.ball.value;
            var lost := b'.y <= c.ballDiameter / 2.0;
            var tries := g.round.value.tries;
            && (g'.state == Complete <==> |r'.bricks| == 0 || (lost && tries == 1))
            && (g'.state == Paused <==> |r'.bricks| > 0 && lost && tries > 1)
            && (g'.state == Active <==> |r'.bricks| > 0 && !lost)
            && r'.tries == (if lost then tries - 1 else tries)
  {
    var r1 := UpdatePaddle(c, g.round.value, t.input);
    var r2 := UpdateBall(c, r1).0;
    assert Update(c, g, t).round == Some(r2);
  }

  /** The corrected key check lets the very first key press start a game. */
  lemma FirstPressStartsGame(c: Config, t: Tick)
    requires c.Valid() && t.serve.Valid()
    requires t.input.keyCount > 0
    ensures Update(c, Start(c), t).state == NewGame
  {
  }

  // ---------------------------------------------------------------------------
  // Properties of runs

  /** Splitting a run: the last frame applied to the run of the others. */
  lemma RunSnoc(c: Config, g: Game, ticks: seq<Tick>, t: Tick)
    requires c.Valid() && WellFormed(c, g) && t.serve.Valid()
    requires forall i :: 0 <= i < |ticks| ==> ticks[i].serve.Valid()
    ensures forall i :: 0 <= i < |ticks + [t]| ==> (ticks + [t])[i].serve.Valid()
    ensures Run(c, g, ticks + [t]) == Update(c, Run(c, g, ticks), t)
  {
    assert (ticks + [t])[..|ticks|] == ticks;
  }

  /** Once the launch screen is left it never comes back. */
  lemma {:induction false} NeverInactiveAgain(c: Config, g: Game, ticks: seq<Tick>)
    requires c.Valid() && WellFormed(c, g)
    requires forall i :: 0 <= i < |ticks| ==> ticks[i].serve.Valid()
    requires g.state != Inactive
    ensures Run(c, g, ticks).state != Inactive
    decreases |ticks|
  {
    if |ticks| > 0 {
      NeverInactiveAgain(c, g, ticks[..|ticks| - 1]);
    }
  }

  /** The game-over screen absorbs every later frame. */
  lemma {:induction false} CompleteIsFinal(c: Config, g: Game, ticks: seq<Tick>)
    requires c.Valid() && WellFormed(c, g)
    requires forall i :: 0 <= i < |ticks| ==> ticks[i].serve.Valid()
    requires g.state == Complete
    ensures Run(c, g, ticks) == g
    decreases |ticks|
  {
    if |ticks| > 0 {
      CompleteIsFinal(c, g, ticks[..|ticks| - 1]);
    }
  }

  /** A key that stays down does not count again: a waiting state whose last
      key check saw a key down stays put for as long as some key is down. */
  lemma {:induction false} HeldKeyKeepsWaiting(c: Config, g: Game, ticks: seq<Tick>)
    requires c.Valid() && WellFormed(c, g)
    requires forall i :: 0 <= i < |ticks| ==> ticks[i].serve.Valid()
    requires g.state == Inactive || g.state == Paused
    requires g.lastKeys > 0
    requires forall i :: 0 <= i < |ticks| ==> ticks[i].input.keyCount > 0
    ensures Run(c, g, ticks).state == g.state
    ensures Run(c, g, ticks).lastKeys > 0
    decreases |ticks|
  {
    if |ticks| > 0 {
      HeldKeyKeepsWaiting(c, g, ticks[..|ticks| - 1]);
    }
  }

  /** Adding 1 to 180 to a multiple of 180 reaches a multiple exactly at 180. */
  lemma CountdownArithmetic(a: nat, j: nat)
    requires a % COUNTDOWN_FRAMES == 0
    requires 1 <= j <= COUNTDOWN_FRAMES
    ensures (a + j) % COUNTDOWN_FRAMES == 0 <==> j == COUNTDOWN_FRAMES
  {
    var q := a / COUNTDOWN_FRAMES;
    assert a == COUNTDOWN_FRAMES * q;
    assert a + j == COUNTDOWN_FRAMES * q + j;
    if j < COUNTDOWN_FRAMES {
      assert (a + j) / COUNTDOWN_FRAMES == q;
    } else {
      assert a + j == COUNTDOWN_FRAMES * (q + 1);
    }
  }

  /** A countdown entered with an aligned counter lasts exactly
      COUNTDOWN_FRAMES frames: the state is still the countdown after fewer
      frames, and play begins on the last one. */
  lemma {:induction false} CountdownLasts(c: Config, g: Game, ticks: seq<Tick>)
    requires c.Valid() && WellFormed(c, g)
    requires forall i :: 0 <= i < |ticks| ==> ticks[i].serve.Valid()
    requires g.state == Countdown && g.frames % COUNTDOWN_FRAMES == 0
    requires |ticks| <= COUNTDOWN_FRAMES
    ensures Run(c, g, ticks).frames == g.frames + |ticks|
    ensures Run(c, g, ticks).state == (if |ticks| < COUNTDOWN_FRAMES then Countdown else Active)
    decreases |ticks|
  {
    if |ticks| > 0 {
      var prefix := ticks[..|ticks| - 1];
      CountdownLasts(c, g, prefix);
      CountdownArithmetic(g.frames, |ticks|);
    }
  }

  /** Every countdown starts with an aligned counter: whichever state leads into
      it, the frame counter is a multiple of COUNTDOWN_FRAMES on entry. */
  lemma CountdownEntryAligned(c: Config, g: Game, t: Tick)
    requires c.Valid() && WellFormed(c, g) && t.serve.Valid()
    requires g.state != Countdown && Update(c, g, t).state == Countdown
    ensures Update(c, g, t).frames % COUNTDOWN_FRAMES == 0
    ensures g.state == NewGame || g.state == Paused
  {
  }

  // ---------------------------------------------------------------------------
  // The key check as written

  /** An attribute read of an object that does not have it. */
  datatype AttributeError = AttributeError(name: string)

  /** The key check as the source writes it: the launch code creates an
      attribute `last_key`, while the key check reads and writes `last_keys`.
      `lastKeys` is `None` while `last_keys` does not exist yet.  The read sits
      on the right of a short-circuit `and`, so it only happens (and only fails)
      when some key is down; the write at the end creates the attribute. */
  function DetermineStateAsWritten(state: State, lastKeys: Option<nat>, keyCount: nat)
    : (res: Result<(State, nat), AttributeError>)
    ensures res.Failure? <==> lastKeys.None? && keyCount > 0
    ensures res.Success? ==> res.value.1 == keyCount
    ensures res.Success? ==>
              var g' := DetermineState(Game(state, None, 0, if lastKeys.Some? then lastKeys.value else 0), keyCount);
              res.value.0 == g'.state
  {
    if keyCount > 0 then
      match lastKeys
      case None => Failure(AttributeError("last_keys"))
      case Some(lk) =>
        var change := lk == 0;
        var s1 := if change && state == Inactive then NewGame else state;
        var s2 := if change && s1 == Paused then Countdown else s1;
        Success((s2, keyCount))
    else
      Success((state, keyCount))
  }

  /** The launch screen as written: a key already down in the first frame makes
      the key check fail instead of starting a game. */
  lemma FirstPressFailsAsWritten()
    ensures DetermineStateAsWritten(Inactive, None, 1).Failure?
  {
  }
}
