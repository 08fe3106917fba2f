/** The controller of one round: the paddle, the remaining bricks, the ball
    (absent until the first serve) and the number of tries left.  Every
    operation is a pure step from one round value to the next. */
module Play {
  import opened Wrappers
  import opened Constants
  import opened Game2d
  import opened Models
  import opened Sequences

  /** Tries a new round starts with. */
  const STARTING_TRIES: int := 3

  datatype Round = Round(paddle: Rect, bricks: seq<Brick>, ball: Option<Ball>, tries: int)

  /** What the ball hit during one frame; the game controller only uses it to pick a sound. */
  datatype Outcome = NoHit | BrickHit | PaddleHit

  // ---------------------------------------------------------------------------
  // Round construction

  /** Colour index of a row: rows cycle through a ten-colour palette. */
  function ColorIndex(row: nat): (k: nat)
    ensures k < 10
    ensures k == row % 10
  {
    if row < 10 then row else row % 10
  }

  /** The brick laid out at `row` (0 = top row) and `col` (0 = leftmost). */
  function BrickAt(c: Config, row: nat, col: nat): (b: Brick)
    ensures b.color == row % 10
    ensures b.rect.width == c.brickWidth && b.rect.height == c.brickHeight
  {
    Brick(Rect(c.brickSepH / 2.0 + col as real * (c.brickWidth + c.brickSepH) + c.brickWidth / 2.0,
               c.gameHeight - c.brickYOffset - c.brickHeight / 2.0
                 - row as real * c.brickHeight - row as real * c.brickSepV,
               c.brickWidth, c.brickHeight),
          ColorIndex(row))
  }

  /** The full wall: BRICK_ROWS rows of BRICKS_IN_ROW bricks, row after row. */
  function BrickGrid(c: Config): seq<Brick> {
    Grid(c.brickRows, c.bricksInRow, BrickCell(c))
  }

  function BrickCell(c: Config): (nat, nat) -> Brick {
    (row: nat, col: nat) => BrickAt(c, row, col)
  }

  /** A new round: the full wall of bricks, a centred paddle, three tries, no ball. */
  function NewRound(c: Config): (r: Round)
    ensures |r.bricks| == c.brickRows * c.bricksInRow
    ensures r.paddle == Rect(c.gameWidth / 2.0, c.paddleOffset, c.paddleWidth, c.paddleHeight)
    ensures r.tries == STARTING_TRIES
    ensures r.ball.None?
  {
    Round(Rect(c.gameWidth / 2.0, c.paddleOffset, c.paddleWidth, c.paddleHeight),
          BrickGrid(c), None, STARTING_TRIES)
  }

  /** Brick (row, col) of the wall is the `row * BRICKS_IN_ROW + col`-th brick
      of a new round. */
  lemma NewRoundLayout(c: Config, row: nat, col: nat)
    requires row < c.brickRows && col < c.bricksInRow
    ensures row * c.bricksInRow + col < |NewRound(c).bricks|
    ensures NewRound(c).bricks[row * c.bricksInRow + col] == BrickAt(c, row, col)
  {
    GridCell(c.brickRows, c.bricksInRow, BrickCell(c), row, col);
  }

  /** Brick (row, col) has the row's colour and the brick size; its left edge is
      half a gap plus `col` brick-plus-gap widths from the left wall, and its top
      edge is BRICK_Y_OFFSET plus `row` brick-plus-gap heights below the top wall. */
  lemma BrickAtGeometry(c: Config, row: nat, col: nat)
    ensures var b := BrickAt(c, row, col);
            && b.color == row % 10
            && b.rect.width == c.brickWidth && b.rect.height == c.brickHeight
            && b.rect.Left() - c.brickSepH / 2.0 == col as real * (c.brickWidth + c.brickSepH)
            && c.gameHeight - c.brickYOffset - b.rect.Top() == row as real * (c.brickHeight + c.brickSepV)
  {
  }

  // ---------------------------------------------------------------------------
  // Paddle

  /** The paddle lies within the screen's width. */
  predicate PaddleInBounds(c: Config, p: Rect) {
    c.paddleWidth / 2.0 <= p.x <= c.gameWidth - c.paddleWidth / 2.0
  }

  /** Move the paddle by PADDLE_V: first right if the right key is down, then
      left if the left key is down, each move clamped to the screen. */
  function UpdatePaddle(c: Config, r: Round, input: Input): (r': Round)
    requires c.Valid()
    ensures r' == r.(paddle := r'.paddle)
    ensures r'.paddle == r.paddle.(x := r'.paddle.x)
    ensures PaddleInBounds(c, r.paddle) ==> PaddleInBounds(c, r'.paddle)
    ensures !input.left && !input.right ==> r' == r
    ensures input.right && !input.left && PaddleInBounds(c, r.paddle) ==>
              && r.paddle.x <= r'.paddle.x <= r.paddle.x + c.paddleSpeed
              && (r'.paddle.x == r.paddle.x + c.paddleSpeed || r'.paddle.x == c.gameWidth - c.paddleWidth / 2.0)
    ensures input.left && !input.right && PaddleInBounds(c, r.paddle) ==>
              && r.paddle.x - c.paddleSpeed <= r'.paddle.x <= r.paddle.x
              && (r'.paddle.x == r.paddle.x - c.paddleSpeed || r'.paddle.x == c.paddleWidth / 2.0)
    ensures input.left && input.right && PaddleInBounds(c, r.paddle) ==>
              && r'.paddle.x <= r.paddle.x
              && (r.paddle.x + c.paddleSpeed <= c.gameWidth - c.paddleWidth / 2.0 ==> r'.paddle.x == r.paddle.x)
  {
    var x0 := r.paddle.x;
    var x1 := if input.right then Min(x0 + c.paddleSpeed, c.gameWidth - c.paddleWidth / 2.0) else x0;
    var x2 := if input.left then Max(x1 - c.paddleSpeed, c.paddleWidth / 2.0) else x1;
    r.(paddle := r.paddle.(x := x2))
  }

  function Min(a: real, b: real): real { if a <= b then a else b }
  function Max(a: real, b: real): real { if a >= b then a else b }

  /** With both arrow keys down the two moves are applied in turn, the right
      move first and the left move to its result; they do not cancel. */
  lemma UpdatePaddleBothKeys(c: Config, r: Round, input: Input)
    requires c.Valid()
    requires input.left && input.right
    ensures UpdatePaddle(c, r, input)
            == UpdatePaddle(c, UpdatePaddle(c, r, input.(left := false)), input.(right := false))
  {
  }

  /** The right-clamped paddle moving back: a paddle at the right wall with
      both keys down ends one step to the left of the wall. */
  lemma UpdatePaddleBothKeysAtWall(c: Config, r: Round, input: Input)
    requires c.Valid()
    requires input.left && input.right
    requires r.paddle.x == c.gameWidth - c.paddleWidth / 2.0
    requires c.paddleSpeed <= c.gameWidth - c.paddleWidth
    ensures UpdatePaddle(c, r, input).paddle.x == r.paddle.x - c.paddleSpeed
  {
  }

  // ---------------------------------------------------------------------------
  // Brick sweep

  /** Which bricks one sweep removes.  The source removes bricks from the list
      it is iterating over, so the brick that slides into a removed brick's slot
      is never examined in that frame: `skip` says the first brick is such a
      skipped one. */
  function RemovalMarks(bricks: seq<Brick>, b: Ball, d: real, skip: bool): (m: seq<bool>)
    ensures |m| == |bricks|
    decreases |bricks|
  {
    if bricks == [] then []
    else
      var hit := !skip && BrickCollides(bricks[0], b, d);
      [hit] + RemovalMarks(bricks[1..], b, d, hit)
  }

  /** A brick is removed exactly when it collides with the ball and its
      predecessor was not removed (the first brick's predecessor stands for
      `skip`). */
  lemma {:induction false} RemovalMarksRule(bricks: seq<Brick>, b: Ball, d: real, skip: bool)
    ensures forall i {:trigger RemovalMarks(bricks, b, d, skip)[i]} :: 0 <= i < |bricks| ==>
              (RemovalMarks(bricks, b, d, skip)[i] <==>
                 BrickCollides(bricks[i], b, d) && !(if i == 0 then skip else RemovalMarks(bricks, b, d, skip)[i - 1]))
    decreases |bricks|
  {
    if bricks != [] {
      var m := RemovalMarks(bricks, b, d, skip);
      var hit := m[0];
      var rest := RemovalMarks(bricks[1..], b, d, hit);
      assert m == [hit] + rest;
      RemovalMarksRule(bricks[1..], b, d, hit);
      forall i | 0 < i < |bricks|
        ensures m[i] <==> BrickCollides(bricks[i], b, d) && !m[i - 1]
      {
        var j := i - 1;
        assert rest[j] <==> BrickCollides(bricks[1..][j], b, d) && !(if j == 0 then hit else rest[j - 1]);
      }
    }
  }

  /** The bricks that survive one sweep. */
  function Sweep(bricks: seq<Brick>, b: Ball, d: real): (r: seq<Brick>)
    ensures |r| <= |bricks|
  {
    Select(bricks, RemovalMarks(bricks, b, d, false), false)
  }

  /** A sweep removes nothing exactly when no brick collides with the ball. */
  lemma SweepKeepsAllIffNoCollision(bricks: seq<Brick>, b: Ball, d: real)
    ensures |Sweep(bricks, b, d)| == |bricks| <==>
              forall i :: 0 <= i < |bricks| ==> !BrickCollides(bricks[i], b, d)
  {
    var m := RemovalMarks(bricks, b, d, false);
    RemovalMarksRule(bricks, b, d, false);
    assert |Select(bricks, m, false)| == |bricks| <==> forall i :: 0 <= i < |bricks| ==> m[i] == false;
    if forall i :: 0 <= i < |bricks| ==> !BrickCollides(bricks[i], b, d) {
      forall i | 0 <= i < |bricks|
        ensures m[i] == false
      {
      }
    } else {
      // a colliding brick is removed unless its predecessor was
      var k :| 0 <= k < |bricks| && BrickCollides(bricks[k], b, d);
      if !m[k] {
        assert k > 0 && m[k - 1];
      }
    }
  }

  /** The bricks one sweep removes. */
  function Swept(bricks: seq<Brick>, b: Ball, d: real): seq<Brick> {
    Select(bricks, RemovalMarks(bricks, b, d, false), true)
  }

  /** One sweep, brick by brick: a colliding brick is removed together with the
      examination of its successor. */
  lemma SweepUnfold(bricks: seq<Brick>, b: Ball, d: real)
    requires |bricks| > 0
    ensures Sweep(bricks, b, d) ==
              if BrickCollides(bricks[0], b, d) then
                (if |bricks| > 1 then [bricks[1]] + Sweep(bricks[2..], b, d) else [])
              else [bricks[0]] + Sweep(bricks[1..], b, d)
  {
    var m := RemovalMarks(bricks, b, d, false);
    var hit := BrickCollides(bricks[0], b, d);
    var t := bricks[1..];
    var mt := RemovalMarks(t, b, d, hit);
    assert m == [hit] + mt;
    assert m[1..] == mt;
    assert Sweep(bricks, b, d) == (if hit then [] else [bricks[0]]) + Select(t, mt, false);
    if hit && |bricks| > 1 {
      var mu := RemovalMarks(t[1..], b, d, false);
      assert mt == [false] + mu;
      assert mt[1..] == mu;
      assert t[1..] == bricks[2..];
      assert Select(t, mt, false) == [t[0]] + Select(t[1..], mu, false);
    }
  }

  /** The sweep as a partition: survivors keep their order, survivors and
      removed bricks together are exactly the old bricks, and every removed
      brick collides with the ball. */
  lemma SweepPartition(bricks: seq<Brick>, b: Ball, d: real)
    ensures IsSubsequence(Sweep(bricks, b, d), bricks)
    ensures multiset(bricks) == multiset(Sweep(bricks, b, d)) + multiset(Swept(bricks, b, d))
    ensures |Sweep(bricks, b, d)| + |Swept(bricks, b, d)| == |bricks|
    ensures forall x :: x in Swept(bricks, b, d) ==> BrickCollides(x, b, d)
  {
    var m := RemovalMarks(bricks, b, d, false);
    RemovalMarksRule(bricks, b, d, false);
    SelectIsSubsequence(bricks, m, false);
    SelectPartition(bricks, m);
    SelectedSatisfy(bricks, m, x => BrickCollides(x, b, d));
  }

  /** Every brick a sweep removes collides with any ball at the swept position. */
  lemma SweptBricksCollide(bricks: seq<Brick>, b: Ball, b': Ball, d: real)
    requires b.x == b'.x && b.y == b'.y
    ensures |Sweep(bricks, b, d)| <= |bricks|
    ensures IsSubsequence(Sweep(bricks, b, d), bricks)
    ensures forall x :: x in multiset(bricks) - multiset(Sweep(bricks, b, d)) ==> BrickCollides(x, b', d)
  {
    SweepPartition(bricks, b, d);
    assert multiset(bricks) - multiset(Sweep(bricks, b, d)) == multiset(Swept(bricks, b, d));
    forall x | x in Swept(bricks, b, d)
      ensures BrickCollides(x, b', d)
    {
      BrickCollidesIgnoresVelocity(x, b, b', d);
    }
  }

  /** When no two neighbouring bricks both collide, the skip never matters:
      the sweep removes exactly the colliding bricks. */
  lemma {:induction false} SweepExactWithoutNeighbours(bricks: seq<Brick>, b: Ball, d: real)
    requires forall i :: 0 <= i < |bricks| - 1 ==>
               !(BrickCollides(bricks[i], b, d) && BrickCollides(bricks[i + 1], b, d))
    ensures var m := RemovalMarks(bricks, b, d, false);
            forall i :: 0 <= i < |bricks| ==> (m[i] <==> BrickCollides(bricks[i], b, d))
  {
    var m := RemovalMarks(bricks, b, d, false);
    RemovalMarksRule(bricks, b, d, false);
    var i := 0;
    while i < |bricks|
      invariant 0 <= i <= |bricks|
      invariant forall k :: 0 <= k < i ==> (m[k] <==> BrickCollides(bricks[k], b, d))
    {
      if i > 0 && m[i - 1] {
        assert BrickCollides(bricks[i - 1], b, d);
      }
      i := i + 1;
    }
  }

  /** The skip quirk: of two neighbouring bricks that both collide with the
      ball, the first is removed and the second survives the frame. */
  lemma SweepSkipsNeighbour(bricks: seq<Brick>, b: Ball, d: real, i: nat)
    requires i + 1 < |bricks|
    requires BrickCollides(bricks[i], b, d) && BrickCollides(bricks[i + 1], b, d)
    requires i == 0 || !RemovalMarks(bricks, b, d, false)[i - 1]
    ensures RemovalMarks(bricks, b, d, false)[i]
    ensures !RemovalMarks(bricks, b, d, false)[i + 1]
  {
    RemovalMarksRule(bricks, b, d, false);
  }

  /** No two neighbouring bricks go in the same sweep: the brick right after a
      removed one is never examined in that frame. */
  lemma SweepNoAdjacentRemovals(bricks: seq<Brick>, b: Ball, d: real)
    ensures var m := RemovalMarks(bricks, b, d, false);
            forall i :: 0 <= i < |bricks| - 1 ==> !(m[i] && m[i + 1])
  {
    RemovalMarksRule(bricks, b, d, false);
  }

  /** One step of the sweep when brick `j` does not collide: it survives. */
  lemma SweepStepKeep(bricks: seq<Brick>, b: Ball, d: real, prefix: seq<Brick>, j: nat)
    requires j < |bricks| && !BrickCollides(bricks[j], b, d)
    requires Sweep(bricks, b, d) == prefix + Sweep(bricks[j..], b, d)
    ensures Sweep(bricks, b, d) == (prefix + [bricks[j]]) + Sweep(bricks[j + 1..], b, d)
  {
    SweepUnfold(bricks[j..], b, d);
    assert bricks[j..][1..] == bricks[j + 1..];
  }

  /** One step of the sweep when brick `j` collides: it goes, and its successor
      (if any) survives unexamined. */
  lemma SweepStepRemove(bricks: seq<Brick>, b: Ball, d: real, prefix: seq<Brick>, j: nat)
    requires j < |bricks| && BrickCollides(bricks[j], b, d)
    requires Sweep(bricks, b, d) == prefix + Sweep(bricks[j..], b, d)
    ensures j + 1 < |bricks| ==> Sweep(bricks, b, d) == (prefix + [bricks[j + 1]]) + Sweep(bricks[j + 2..], b, d)
    ensures j + 1 == |bricks| ==> Sweep(bricks, b, d) == prefix
  {
    SweepUnfold(bricks[j..], b, d);
    assert bricks[j..][1..] == bricks[j + 1..];
    if j + 1 < |bricks| {
      assert bricks[j..][2..] == bricks[j + 2..];
    }
  }

  /** The state of the source's sweep loop after examining list slot `i - 1`:
      `remaining` is the list being mutated, and while the loop runs, its slots
      from `i` on are the bricks from original index `j` on, still to be swept.
      Once the last brick is removed the index runs one past the end. */
  ghost predicate SweepLoopState(bricks: seq<Brick>, b: Ball, d: real, remaining: seq<Brick>, i: nat, j: nat) {
    && |remaining| <= |bricks|
    && i <= |remaining| + 1
    && (i <= |remaining| ==>
          && j <= |bricks|
          && remaining[i..] == bricks[j..]
          && Sweep(bricks, b, d) == remaining[..i] + Sweep(bricks[j..], b, d))
    && (i == |remaining| + 1 ==> remaining == Sweep(bricks, b, d))
  }

  lemma SweepLoopKeep(bricks: seq<Brick>, b: Ball, d: real, remaining: seq<Brick>, i: nat, j: nat)
    requires SweepLoopState(bricks, b, d, remaining, i, j)
    requires i < |remaining| && !BrickCollides(remaining[i], b, d)
    ensures SweepLoopState(bricks, b, d, remaining, i + 1, j + 1)
  {
    assert remaining[i] == bricks[j];
    SweepStepKeep(bricks, b, d, remaining[..i], j);
    assert remaining[..i + 1] == remaining[..i] + [bricks[j]];
  }

  lemma SweepLoopRemove(bricks: seq<Brick>, b: Ball, d: real, remaining: seq<Brick>, i: nat, j: nat)
    requires SweepLoopState(bricks, b, d, remaining, i, j)
    requires i < |remaining| && BrickCollides(remaining[i], b, d)
    ensures SweepLoopState(bricks, b, d, remaining[..i] + remaining[i + 1..], i + 1,
                           if j + 1 < |bricks| then j + 2 else j + 1)
  {
    assert remaining[i] == bricks[j];
    SweepStepRemove(bricks, b, d, remaining[..i], j);
    var after := remaining[..i] + remaining[i + 1..];
    if j + 1 < |bricks| {
      assert remaining[i + 1..] == bricks[j + 1..];
      assert after[..i + 1] == remaining[..i] + [bricks[j + 1]];
      assert after[i + 1..] == bricks[j + 2..];
    } else {
      assert after == remaining[..i];
    }
  }

  /** The sweep exactly as the source performs it: iterate with an index over
      the list while deleting from it, flipping the ball's vertical direction on
      each removal. */
  method SweepBricks(bricks: seq<Brick>, ball: Ball, d: real) returns (remaining: seq<Brick>, after: Ball)
    ensures remaining == Sweep(bricks, ball, d)
    ensures |remaining| <= |bricks|
    ensures after == FlipYTimes(ball, |bricks| - |remaining|)
  {
    remaining := bricks;
    after := ball;
    var i := 0;
    ghost var j := 0;
    while i < |remaining|
      invariant SweepLoopState(bricks, ball, d, remaining, i, j)
      invariant after == FlipYTimes(ball, |bricks| - |remaining|)
      decreases |remaining| + 1 - i
    {
      BrickCollidesIgnoresVelocity(remaining[i], after, ball, d);
      if BrickCollides(remaining[i], after, d) {
        SweepLoopRemove(bricks, ball, d, remaining, i, j);
        after := after.FlipY();
        remaining := remaining[..i] + remaining[i + 1..];
        j := if j + 1 < |bricks| then j + 2 else j + 1;
      } else {
        SweepLoopKeep(bricks, ball, d, remaining, i, j);
        j := j + 1;
      }
      i := i + 1;
    }
  }

  // ---------------------------------------------------------------------------
  // Ball step

  /** One frame of ball physics: move by the velocity; sweep the bricks; bounce
      off the paddle; reflect off the side walls and the top wall; lose a try at
      the bottom.  The vertical direction and the brick sweep are described by
      UpdateBallVertical and UpdateBallBricks. */
  function UpdateBall(c: Config, r: Round): (res: (Round, Outcome))
    requires r.ball.Some?
    ensures res.0.ball.Some?
    ensures |res.0.bricks| <= |r.bricks|
    // the ball moves by exactly its old velocity
    ensures var b, b' := r.ball.value, res.0.ball.value;
            b'.x == b.x + b.vx && b'.y == b.y + b.vy
    // horizontal reflection exactly at the side walls
    ensures var b, b', d := r.ball.value, res.0.ball.value, c.ballDiameter;
            b'.vx == (if b'.x >= c.gameWidth - d / 2.0 || b'.x <= d / 2.0 then -b.vx else b.vx)
    // a try is lost exactly when the ball reaches the bottom edge
    ensures res.0.tries == (if res.0.ball.value.y <= c.ballDiameter / 2.0 then r.tries - 1 else r.tries)
    ensures res.0.paddle == r.paddle
    // the reported outcome: the paddle wins over bricks
    ensures res.1 == PaddleHit <==> PaddleCollides(r.paddle, res.0.ball.value, c.ballDiameter)
    ensures res.1 == BrickHit <==>
              !PaddleCollides(r.paddle, res.0.ball.value, c.ballDiameter) && |res.0.bricks| < |r.bricks|
  {
    var d := c.ballDiameter;
    var b := r.ball.value;
    var moved := b.(x := b.x + b.vx, y := b.y + b.vy);
    var kept := Sweep(r.bricks, moved, d);
    var removed := |r.bricks| - |kept|;
    var paddleHit := PaddleCollides(r.paddle, moved, d);
    var b' := Rebound(c, moved, removed, paddleHit);
    var tries := if b'.y <= d / 2.0 then r.tries - 1 else r.tries;
    var outcome := if paddleHit then PaddleHit else if removed > 0 then BrickHit else NoHit;
    PaddleCollidesIgnoresVelocity(r.paddle, moved, b', d);
    (Round(r.paddle, kept, Some(b'), tries), outcome)
  }

  /** The vertical direction after one frame: one flip per removed brick, one
      on a paddle hit and one at the top wall, so only the parity of their
      number matters. */
  lemma UpdateBallVertical(c: Config, r: Round)
    requires r.ball.Some?
    ensures var (r', _) := UpdateBall(c, r);
            var b, b', d := r.ball.value, r'.ball.value, c.ballDiameter;
            var flips := (|r.bricks| - |r'.bricks|)
                         + (if PaddleCollides(r.paddle, b', d) then 1 else 0)
                         + (if b'.y >= c.gameHeight - d / 2.0 then 1 else 0);
            b'.vy == Flipped(b.vy, flips)
  {
    var d := c.ballDiameter;
    var b := r.ball.value;
    var moved := b.(x := b.x + b.vx, y := b.y + b.vy);
    var kept := Sweep(r.bricks, moved, d);
    var removed := |r.bricks| - |kept|;
    var paddleHit := PaddleCollides(r.paddle, moved, d);
    var b' := Rebound(c, moved, removed, paddleHit);
    PaddleCollidesIgnoresVelocity(r.paddle, moved, b', d);
    assert UpdateBall(c, r).0 == Round(r.paddle, kept, Some(b'), UpdateBall(c, r).0.tries);
  }

  /** The bricks after one frame are those the sweep leaves at the ball's new
      position (so RemovalMarksRule, SweepNoAdjacentRemovals and
      SweepExactWithoutNeighbours describe the frame); they keep their order,
      and every brick that disappeared was in contact with the moved ball. */
  lemma UpdateBallBricks(c: Config, r: Round)
    requires r.ball.Some?
    ensures var b := r.ball.value;
            UpdateBall(c, r).0.bricks == Sweep(r.bricks, b.(x := b.x + b.vx, y := b.y + b.vy), c.ballDiameter)
    ensures var r' := UpdateBall(c, r).0;
            IsSubsequence(r'.bricks, r.bricks) &&
            forall x :: x in multiset(r.bricks) - multiset(r'.bricks) ==>
              BrickCollides(x, r'.ball.value, c.ballDiameter)
  {
    var d := c.ballDiameter;
    var b := r.ball.value;
    var moved := b.(x := b.x + b.vx, y := b.y + b.vy);
    var r' := UpdateBall(c, r).0;
    SweptBricksCollide(r.bricks, moved, r'.ball.value, d);
  }

  /** The direction changes of one frame, applied to the already moved ball `m`
      after `removed` bricks were swept away: one vertical flip per removed
      brick, one more on a paddle hit, a horizontal flip at a side wall, and a
      vertical flip at the top wall.  The position does not change. */
  function Rebound(c: Config, m: Ball, removed: nat, paddleHit: bool): (b': Ball)
    ensures b'.x == m.x && b'.y == m.y
    ensures b'.vx == (if m.x >= c.gameWidth - c.ballDiameter / 2.0 || m.x <= c.ballDiameter / 2.0 then -m.vx else m.vx)
    ensures var flips := removed + (if paddleHit then 1 else 0)
                         + (if m.y >= c.gameHeight - c.ballDiameter / 2.0 then 1 else 0);
            b'.vy == Flipped(m.vy, flips)
  {
    var d := c.ballDiameter;
    var b1 := FlipYTimes(m, removed);
    var b2 := if paddleHit then b1.FlipY() else b1;
    var b3 := if b2.x >= c.gameWidth - d / 2.0 || b2.x <= d / 2.0 then b2.FlipX() else b2;
    if b3.y >= c.gameHeight - d / 2.0 then b3.FlipY() else b3
  }

  /** Serve: a fresh ball at (GAME_WIDTH / 2, GAME_WIDTH / 2), replacing any old
      one; nothing else changes.  The source uses the width for both
      coordinates. */
  function ServeBall(c: Config, r: Round, speed: real, negate: bool): (r': Round)
    requires 1.0 <= speed <= 5.0
    ensures r'.ball.Some?
    ensures r'.ball.value.x == c.gameWidth / 2.0 && r'.ball.value.y == c.gameWidth / 2.0
    ensures r'.ball.value.vy == SERVE_VY && 1.0 <= Abs(r'.ball.value.vx) <= 5.0
    ensures r'.paddle == r.paddle && r'.bricks == r.bricks && r'.tries == r.tries
  {
    r.(ball := Some(NewBall(0.5 * c.gameWidth, 0.5 * c.gameWidth, speed, negate)))
  }
}
