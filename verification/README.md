# Breakout core in Dafny

A model of the per-frame simulation of a classic Breakout game and of the
screen-level state machine that drives it. Three source files make up the core:

- `models.py`: the ball with its velocity and its two direction flips, and the
  corner-based collision tests of the paddle and of a brick.
- `play.py`: one round. It lays out the brick wall, keeps three tries, moves the
  paddle within the screen, advances the ball by one frame and serves a new ball.
- `breakout.py`: the controller. It moves between the screens INACTIVE,
  NEWGAME, COUNTDOWN, ACTIVE, PAUSED and COMPLETE. It reacts to a key only in
  the frame in which the key goes down, and it counts a 180-frame countdown
  before each serve.

Every entity is an immutable datatype: `Ball`, `Brick`, `Rect`, `Round` and
`Game`. Every operation is a pure step from one value to the next. Coordinates
are `real` and y points up. The brick list is a `seq`.

Modules, one per file:

- `Wrappers` holds `Option` and `Result`.
- `Constants` holds the screen configuration as a record `Config`, with the
  sanity conditions the model assumes. These are positive sizes, a paddle no
  wider than the screen and a non-negative paddle speed.
- `Game2d` holds closed axis-aligned rectangle containment and the per-frame
  keyboard record.
- `Sequences` holds subsequences, filtering a sequence by a mask, and
  row-major grids.
- `Models`, `Play` and `Breakout` follow the three source files.

Three assumptions stand in for code that is not part of this model:

- Rectangle containment is `|px - x| <= w/2 && |py - y| <= h/2`.
- The constants module becomes the `Config` record.
- The random serve velocity becomes a parameter with `1.0 <= speed <= 5.0` and
  a sign.

Quirks of the source that the model keeps:

- **The brick loop skips bricks.** `updateBall` removes bricks from the list it
  is iterating over (play.py:114-118). The brick that slides into a removed
  slot is therefore not examined in that frame. `Play.RemovalMarks` states
  this rule functionally. `Play.SweepBricks` performs the source's index loop
  with in-place deletion, and is proved to compute the same result.
- **The frame counter is never reset.** The countdown ends when the counter
  reaches a multiple of 180. The model proves that the counter is a multiple of
  180 whenever the controller is outside the countdown. Every countdown
  therefore lasts exactly 180 frames, including one that follows a pause.
- **The serve position uses the width twice.** A ball is served at
  (GAME_WIDTH/2, GAME_WIDTH/2) (play.py:154).
- **The round is absent in NEWGAME as well as in INACTIVE.** The class comment
  (breakout.py:58) says the round is absent only in INACTIVE. The code creates
  the round on the frame that leaves NEWGAME (breakout.py:179-182), and the
  model follows the code: `Breakout.WellFormed` says the round is absent
  exactly in INACTIVE and NEWGAME.
- **A finished game does not return to INACTIVE.** The method comment
  (breakout.py:149-152) says the application goes back to INACTIVE when a game
  is over. The code instead moves to the added state COMPLETE
  (breakout.py:199-202), and no branch of `update` ever assigns INACTIVE again
  (breakout.py:175-215). The model follows the code: `Breakout.CompleteIsFinal`
  and `Breakout.NeverInactiveAgain`.

## Model

| member | source | states |
|---|---|---|
| `Models.NewBall` | models.py:176-179 | A fresh ball sits at the given centre with vertical velocity -5.0. Its horizontal speed is the drawn speed in [1.0, 5.0], and it points left exactly when the drawn sign is negative. |
| `Models.Ball.FlipX` | models.py:184-190 | Reversing the horizontal direction negates the horizontal velocity and keeps the position and the vertical velocity. |
| `Models.Ball.FlipY` | models.py:192-198 | Reversing the vertical direction negates the vertical velocity and keeps the position and the horizontal velocity. |
| `Models.FlipXInvolution` | models.py:184-190 | Reversing the horizontal direction twice restores the ball. |
| `Models.FlipYInvolution` | models.py:192-198 | Reversing the vertical direction twice restores the ball. |
| `Models.FlipYTimes` | models.py:192-198 | After k vertical flips, the position and horizontal velocity are unchanged. The vertical velocity is the original for even k and its negation for odd k. |
| `Models.PaddleCollides` | models.py:59-73 | A paddle hit implies some corner of the ball's box is inside the paddle. It also implies that a side edge is over the paddle and that the bottom edge is within the paddle's height. |
| `Models.PaddleCollidesIffUnderside` | models.py:65-73 | For a ball of positive size, the paddle is hit exactly when three things hold. A side edge is over the paddle. The bottom edge is between the paddle's bottom and top. The top edge is above the paddle's top. |
| `Models.BallAbovePaddleMisses` | models.py:65-73 | A ball whose bottom edge is above the paddle's top never hits the paddle. |
| `Models.BrickCollides` | models.py:110-122 | The brick test is the four-corner test, the same test as any corner of the ball's box being inside the rectangle. A hit implies that a corner x and a corner y of the ball's box are both within the brick's extent. |
| `Models.BrickCollidesIffReaches` | models.py:116-122 | The four-corner brick test holds exactly when a corner x and a corner y are both within the brick's extent. |
| `Models.BrickCollidesIgnoresVelocity` | models.py:110-122 | The brick test depends only on the ball's position. |
| `Models.PaddleCollidesIgnoresVelocity` | models.py:59-73 | The paddle test depends only on the ball's position. |
| `Models.BallOnBrickCornerHits` | models.py:116-122 | A ball centred on a brick's corner hits the brick, for a ball at most twice the brick's size. |
| `Models.BallBeyondBrickMisses` | models.py:116-122 | A ball whose box lies wholly beyond one edge of a brick misses it. |
| `Play.ColorIndex` | play.py:85 | The colour index of a row is below 10 and equals the row modulo 10. |
| `Play.BrickAt` | play.py:85-89 | The brick at (r, c) has colour index r mod 10 and the configured brick width and height. |
| `Play.NewRound` | play.py:83-93 | A new round has BRICK_ROWS * BRICKS_IN_ROW bricks, a paddle centred at (GAME_WIDTH/2, PADDLE_OFFSET), three tries and no ball. |
| `Play.NewRoundLayout` | play.py:84-90 | The brick at row r and column c of the wall is element r * BRICKS_IN_ROW + c of the new round's list. |
| `Play.BrickAtGeometry` | play.py:85-89 | Brick (r, c) has colour r mod 10 and the brick size. Its left edge is half a gap plus c brick-and-gap widths from the left wall. Its top edge is BRICK_Y_OFFSET plus r brick-and-gap heights below the top wall. |
| `Play.UpdatePaddle` | play.py:97-104 | Only the paddle's x changes, and a paddle within the screen stays within it. With no arrow key the round is unchanged. A single key moves the paddle by PADDLE_V, or stops it at the wall. With both keys the paddle never ends up further right, and it stays put when the right move is not clamped. |
| `Play.UpdatePaddleBothKeys` | play.py:101-104 | With both keys down, the frame is the right-only move followed by the left-only move applied to its result. The two moves do not cancel. |
| `Play.UpdatePaddleBothKeysAtWall` | play.py:101-104 | A paddle at the right wall with both keys down ends one PADDLE_V step left of the wall: the clamped right move does nothing and the left move still applies. |
| `Play.RemovalMarks` | play.py:114-118 | The sweep's removal decision gives one mark per brick. Its rule is stated by `Play.RemovalMarksRule`. |
| `Play.RemovalMarksRule` | play.py:114-118 | A brick is removed exactly when it collides with the ball and the brick before it was not removed in the same frame. |
| `Play.Sweep` | play.py:114-118 | The bricks that survive a sweep are never more than the bricks before it. `Play.SweepPartition` and `Play.SweepKeepsAllIffNoCollision` describe which ones survive. |
| `Play.SweepKeepsAllIffNoCollision` | play.py:114-118 | A sweep removes no brick exactly when no brick collides with the ball. |
| `Play.SweepUnfold` | play.py:114-118 | Brick by brick, a colliding brick is dropped and its successor survives unexamined. A non-colliding brick is kept. |
| `Play.SweepPartition` | play.py:114-118 | The surviving bricks keep their order. Survivors and removed bricks together are exactly the old bricks, and every removed brick collides with the ball. |
| `Play.SweptBricksCollide` | play.py:114-118 | The sweep never adds bricks and keeps the survivors' order. Every removed brick collides with the ball. |
| `Play.SweepExactWithoutNeighbours` | play.py:114-118 | When no two neighbouring bricks both collide, the sweep removes exactly the colliding bricks. |
| `Play.SweepSkipsNeighbour` | play.py:114-118 | Of two neighbouring colliding bricks, where the first was reached normally, the first is removed and the second survives the frame. |
| `Play.SweepNoAdjacentRemovals` | play.py:114-118 | No two neighbouring bricks are removed in the same sweep: the brick right after a removed one is never examined in that frame. |
| `Play.SweepBricks` | play.py:114-118 | The source's loop, which deletes from the list it indexes, leaves exactly the bricks of the functional sweep. The ball ends up flipped vertically once per removed brick. |
| `Play.UpdateBall` | play.py:106-128 | The ball moves by exactly its old velocity, and the horizontal velocity is reversed exactly at a side wall. A try is lost exactly when the moved ball reaches the bottom edge. The paddle is unchanged and no brick is added. The outcome is a paddle hit exactly when the paddle collides, and otherwise a brick hit exactly when some brick went. |
| `Play.UpdateBallVertical` | play.py:113-125 | The vertical velocity is reversed once per removed brick, once on a paddle hit and once at the top wall. Only the parity of that count matters. |
| `Play.UpdateBallBricks` | play.py:111-118 | The bricks after a frame are exactly the sweep's survivors at the ball's moved position, so the sweep lemmas describe the frame. They are a subsequence of the old ones, and every brick that went collides with the moved ball. |
| `Play.Rebound` | play.py:116-125 | Given the number of removed bricks and whether the paddle was hit, the bounce keeps the position. It reverses the horizontal velocity at a side wall. The vertical velocity ends up reversed by the parity of the removed bricks, the paddle hit and the top-wall contact together. |
| `Play.ServeBall` | play.py:149-155 | The served ball is at (GAME_WIDTH/2, GAME_WIDTH/2) with vertical velocity -5.0 and horizontal speed in [1.0, 5.0]. Bricks, paddle and tries are unchanged. |
| `Breakout.WellFormed` | breakout.py:57-74 | The controller invariants. The round is absent exactly in INACTIVE and NEWGAME. The frame counter is a multiple of 180 outside COUNTDOWN. A round has between 0 and 3 tries and its paddle within the screen. COUNTDOWN, ACTIVE and PAUSED have at least one try left. ACTIVE has a ball. |
| `Breakout.Start` | breakout.py:92-112 | The launch state is INACTIVE and satisfies every controller invariant. |
| `Breakout.DetermineState` | breakout.py:243-260 | The state changes exactly when a key is down now, none was at the last check, and the state is INACTIVE or PAUSED. INACTIVE then becomes NEWGAME and PAUSED becomes COUNTDOWN. The key count is always remembered, and nothing else changes. |
| `Breakout.Update` | breakout.py:114-215 | A frame keeps the controller invariants. INACTIVE is never re-entered and COMPLETE is final. The frame counter moves only in COUNTDOWN, by one. Only the waiting states update the remembered key count. |
| `Breakout.Run` | breakout.py:114-215 | Any sequence of frames from a well-formed state ends in a well-formed state. |
| `Breakout.NewGameToCountdown` | breakout.py:179-182 | NEWGAME lasts one frame. It becomes COUNTDOWN with a freshly built round and an aligned frame counter. |
| `Breakout.WaitingAdvancesOnKeyEdge` | breakout.py:175-205 | INACTIVE and PAUSED move on exactly when a key goes down: INACTIVE only to NEWGAME and PAUSED only to COUNTDOWN. Otherwise they stay. The frame is the key check alone, so the round and the frame counter carry over unchanged. The bricks, tries and paddle of a paused round are the ones the next countdown starts from. |
| `Breakout.CountdownStep` | breakout.py:183-189 | In COUNTDOWN the frame counter grows by one. The state becomes ACTIVE exactly when the counter reaches a multiple of 180, with a ball served at the centre column moving down. Otherwise it stays COUNTDOWN. Tries and bricks are unchanged. The new round is the paddle step of the round, followed by a serve on the last frame. |
| `Breakout.ActiveStep` | breakout.py:190-202 | A frame of play ends in COMPLETE exactly when no brick is left or the last try was lost. It ends in PAUSED exactly when bricks remain and a try is lost with more left. It stays ACTIVE exactly when bricks remain and the ball did not reach the bottom. A try is lost exactly when the ball reaches the bottom. The new round is the ball step applied after the paddle step, so the contracts of `Play.UpdatePaddle`, `Play.UpdateBall`, `Play.UpdateBallVertical` and `Play.UpdateBallBricks` describe the frame. |
| `Breakout.FirstPressStartsGame` | breakout.py:250-260 | With the remembered key count starting at 0, a key down in the very first frame starts a new game. |
| `Breakout.RunSnoc` | breakout.py:114-215 | A run of frames followed by one more frame is that frame applied to the run. |
| `Breakout.NeverInactiveAgain` | breakout.py:175-215 | Once INACTIVE is left, no sequence of frames returns to it. |
| `Breakout.CompleteIsFinal` | breakout.py:206-215 | From COMPLETE, every sequence of frames leaves the controller unchanged. |
| `Breakout.HeldKeyKeepsWaiting` | breakout.py:250-260 | A waiting state whose last check saw a key down stays put for as long as some key is down. A held key never causes a second transition. |
| `Breakout.CountdownArithmetic` | breakout.py:186-187 | Adding 1 to 180 to a multiple of 180 gives a multiple of 180 exactly when 180 was added. |
| `Breakout.CountdownLasts` | breakout.py:183-189 | A countdown entered with a counter at a multiple of 180 stays COUNTDOWN for fewer than 180 frames and becomes ACTIVE on frame 180, counting one per frame. |
| `Breakout.CountdownEntryAligned` | breakout.py:179-189 | COUNTDOWN is entered only from NEWGAME or PAUSED, and always with the counter at a multiple of 180. |
| `Breakout.DetermineStateAsWritten` | breakout.py:250-260 | The key check as written fails with an attribute error exactly when `last_keys` does not yet exist and a key is down. Otherwise it agrees with the corrected key check. |
| `Breakout.FirstPressFailsAsWritten` | breakout.py:108 | As written, a key already down in the first frame makes the key check fail. |

## Left out

- Drawing and sound are left out because they are calls into a framework this model does not contain. This covers `draw`, `drawBall`, `messagePlay`, every label text, the message attributes and their invariants, the `Sound` objects, and `getMusic`.
- The getters `getBricks`, `getBall`, `getTries`, `getVx` and `getVy` are field selectors of the datatypes.
- The `dt` argument of `update` is left out. The source only checks that it is a number and never uses it.
- The random draws of `Ball.__init__` are parameters (`Serve`, or `speed` and `negate`). They are constrained to the ranges the draws produce.
- The drawing framework's classes (`GameApp`, `GInput`, `GRectangle`, `GEllipse`) are reduced to rectangle containment and a keyboard record. The constants module is not part of this model and becomes `Config`.
- Floating-point rounding is left out. Arithmetic is exact `real` arithmetic.
- `sample/subcontroller.py` is a demonstration program. Its animation uses trigonometry, and its key debounce repeats the controller's key check.
- `Play.SweepBricks` identifies a brick by its list position. The source's `list.remove(b)` removes the first element equal to `b`. Bricks are distinct objects compared by identity, so that element is the one at the current index.

## Findings

| source | as written | input that shows it | evidently intended | confidence | as-written member | corrected member |
|---|---|---|---|---|---|---|
| breakout.py:108 | `start` initialises an attribute `last_key`, but `_determineState` reads and writes `last_keys` (breakout.py:252, 260). Before the first write, reading `last_keys` raises an attribute error. The read happens only when a key is down, because of the short-circuit `and`. | A key already down in the first frame on the launch screen: `_determineState` with `key_count = 1` and no `last_keys` attribute. | One previous-key-count attribute that starts at 0, so that the first key press starts a game. | not executed | `Breakout.FirstPressFailsAsWritten` | `Breakout.FirstPressStartsGame` |
