/** The entities of a Breakout round: the ball with its velocity, the bricks
    and the paddle, and the bounding-box collision tests between them. */
module Models {
  import opened Game2d

  /** A ball: centre and per-frame velocity (the diameter is a configuration constant). */
  datatype Ball = Ball(x: real, y: real, vx: real, vy: real)
  {
    /** Reverse the horizontal direction. */
    function FlipX(): (b: Ball)
      ensures b.vx == -vx
      ensures b.x == x && b.y == y && b.vy == vy
    {
      this.(vx := -1.0 * vx)
    }

    /** Reverse the vertical direction. */
    function FlipY(): (b: Ball)
      ensures b.vy == -vy
      ensures b.x == x && b.y == y && b.vx == vx
    {
      this.(vy := -1.0 * vy)
    }
  }

  /** The constant vertical speed of a freshly served ball (downwards). */
  const SERVE_VY: real := -5.0

  /** A fresh ball at (x, y).  The source draws the horizontal speed uniformly
      from [1.0, 5.0] and its sign uniformly from {-1, 1}; both draws are
      parameters here. */
  function NewBall(x: real, y: real, speed: real, negate: bool): (b: Ball)
    requires 1.0 <= speed <= 5.0
    ensures b.x == x && b.y == y
    ensures b.vy == SERVE_VY
    ensures 1.0 <= Abs(b.vx) <= 5.0
    ensures Abs(b.vx) == speed
    ensures b.vx < 0.0 <==> negate
  {
    Ball(x, y, speed * (if negate then -1.0 else 1.0), SERVE_VY)
  }

  lemma FlipXInvolution(b: Ball)
    ensures b.FlipX().FlipX() == b
  {
  }

  lemma FlipYInvolution(b: Ball)
    ensures b.FlipY().FlipY() == b
  {
  }

  /** `v` with its sign reversed `k` times. */
  function Flipped(v: real, k: nat): real {
    if k % 2 == 0 then v else -v
  }

  /** The ball after `k` successive vertical flips. */
  function FlipYTimes(b: Ball, k: nat): (r: Ball)
    ensures r.x == b.x && r.y == b.y && r.vx == b.vx
    ensures r.vy == Flipped(b.vy, k)
  {
    if k == 0 then b else FlipYTimes(b, k - 1).FlipY()
  }

  /** One of the ball's two vertical bounding-box edges (x ± d/2) lies within
      the horizontal extent of `r`. */
  predicate ReachesX(r: Rect, b: Ball, d: real) {
    Abs(b.x + d / 2.0 - r.x) <= r.width / 2.0 || Abs(b.x - d / 2.0 - r.x) <= r.width / 2.0
  }

  /** One of the ball's two horizontal bounding-box edges (y ± d/2) lies within
      the vertical extent of `r`. */
  predicate ReachesY(r: Rect, b: Ball, d: real) {
    Abs(b.y + d / 2.0 - r.y) <= r.height / 2.0 || Abs(b.y - d / 2.0 - r.y) <= r.height / 2.0
  }

  /** Some corner of the ball's d-by-d bounding box lies inside `r`. */
  predicate AnyCornerInside(r: Rect, b: Ball, d: real) {
    || r.Contains(b.x + d / 2.0, b.y + d / 2.0)
    || r.Contains(b.x + d / 2.0, b.y - d / 2.0)
    || r.Contains(b.x - d / 2.0, b.y + d / 2.0)
    || r.Contains(b.x - d / 2.0, b.y - d / 2.0)
  }

  /** A brick: its rectangle and its colour index (into a ten-entry palette). */
  datatype Brick = Brick(rect: Rect, color: nat)

  /** The ball hits a brick when any corner of its bounding box is inside the brick. */
  predicate BrickCollides(br: Brick, b: Ball, d: real)
    ensures BrickCollides(br, b, d) ==> ReachesX(br.rect, b, d) && ReachesY(br.rect, b, d)
  {
    AnyCornerInside(br.rect, b, d)
  }

  /** The ball hits the paddle when neither top corner of its bounding box is
      inside the paddle and at least one bottom corner is. */
  function PaddleCollides(p: Rect, b: Ball, d: real): (hit: bool)
    ensures hit ==> AnyCornerInside(p, b, d)
    ensures hit ==> ReachesX(p, b, d)
    ensures hit ==> p.Bottom() <= b.y - d / 2.0 <= p.Top()
  {
    if !p.Contains(b.x + 0.5 * d, b.y + 0.5 * d) && !p.Contains(b.x - 0.5 * d, b.y + 0.5 * d) then
      p.Contains(b.x + 0.5 * d, b.y - 0.5 * d) || p.Contains(b.x - 0.5 * d, b.y - 0.5 * d)
    else
      false
  }

  /** Geometric reading of the paddle test: for a ball of positive size it hits
      exactly when a side edge is over the paddle, the bottom edge is within the
      paddle's height, and the top edge is above the paddle's top. */
  lemma PaddleCollidesIffUnderside(p: Rect, b: Ball, d: real)
    requires d > 0.0
    ensures PaddleCollides(p, b, d) <==>
              ReachesX(p, b, d) && p.Bottom() <= b.y - d / 2.0 <= p.Top() < b.y + d / 2.0
  {
  }

  /** A ball whose bottom edge is above the paddle's top never hits it. */
  lemma BallAbovePaddleMisses(p: Rect, b: Ball, d: real)
    requires b.y - d / 2.0 > p.Top()
    ensures !PaddleCollides(p, b, d)
  {
  }

  /** The four-corner test splits by axis: a corner is inside the brick exactly
      when some corner x-coordinate and some corner y-coordinate are within the
      brick's extent. */
  lemma BrickCollidesIffReaches(br: Brick, b: Ball, d: real)
    ensures BrickCollides(br, b, d) <==> ReachesX(br.rect, b, d) && ReachesY(br.rect, b, d)
  {
  }

  /** The brick test looks only at the ball's position, never at its velocity. */
  lemma BrickCollidesIgnoresVelocity(br: Brick, b1: Ball, b2: Ball, d: real)
    requires b1.x == b2.x && b1.y == b2.y
    ensures BrickCollides(br, b1, d) == BrickCollides(br, b2, d)
  {
  }

  /** The paddle test looks only at the ball's position, never at its velocity. */
  lemma PaddleCollidesIgnoresVelocity(p: Rect, b1: Ball, b2: Ball, d: real)
    requires b1.x == b2.x && b1.y == b2.y
    ensures PaddleCollides(p, b1, d) == PaddleCollides(p, b2, d)
  {
  }

  /** A ball centred exactly on a corner of a brick hits it, provided the ball
      is no more than twice as large as the brick in each direction. */
  lemma BallOnBrickCornerHits(br: Brick, b: Ball, d: real)
    requires 0.0 <= d <= 2.0 * br.rect.width && d <= 2.0 * br.rect.height
    requires Abs(b.x - br.rect.x) == br.rect.width / 2.0
    requires Abs(b.y - br.rect.y) == br.rect.height / 2.0
    ensures BrickCollides(br, b, d)
  {
  }

  /** A ball whose bounding box lies wholly beyond one edge of a brick misses it. */
  lemma BallBeyondBrickMisses(br: Brick, b: Ball, d: real)
    requires d >= 0.0
    requires || b.x - d / 2.0 > br.rect.Right()
             || b.x + d / 2.0 < br.rect.Left()
             || b.y - d / 2.0 > br.rect.Top()
             || b.y + d / 2.0 < br.rect.Bottom()
    ensures !BrickCollides(br, b, d)
  {
  }
}
