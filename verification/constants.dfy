/** The numeric configuration of a Breakout screen.  The constants module of
    the game is not part of this model: its values become the fields of one
    immutable record, and the model only assumes the sanity conditions below. */
module Constants {

  datatype Config = Config(
    gameWidth: real,      // GAME_WIDTH
    gameHeight: real,     // GAME_HEIGHT
    ballDiameter: real,   // BALL_DIAMETER
    paddleWidth: real,    // PADDLE_WIDTH
    paddleHeight: real,   // PADDLE_HEIGHT
    paddleOffset: real,   // PADDLE_OFFSET: height of the paddle's centre
    paddleSpeed: real,    // PADDLE_V: distance moved per frame
    brickRows: nat,       // BRICK_ROWS
    bricksInRow: nat,     // BRICKS_IN_ROW
    brickWidth: real,     // BRICK_WIDTH
    brickHeight: real,    // BRICK_HEIGHT
    brickSepH: real,      // BRICK_SEP_H: horizontal gap between bricks
    brickSepV: real,      // BRICK_SEP_V: vertical gap between rows
    brickYOffset: real    // BRICK_Y_OFFSET: gap between the top wall and the first row
  )
  {
    /** Positive sizes, a paddle no wider than the screen, a non-negative paddle speed. */
    predicate Valid() {
      && gameWidth > 0.0
      && gameHeight > 0.0
      && ballDiameter > 0.0
      && paddleWidth > 0.0
      && paddleHeight > 0.0
      && brickWidth > 0.0
      && brickHeight > 0.0
      && paddleWidth <= gameWidth
      && paddleSpeed >= 0.0
    }
  }
}
