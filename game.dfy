/**
 * The `Game` object of main.py: the bat, the ball, its velocity, the brick
 * collection and the running flag, updated in place once per frame. Each
 * method is proved to leave the state that the matching function of module
 * Rules describes.
 */
module Breakout {
  import opened Rects
  import opened Rules

  /**
   * The start-up grid, built row by row as the two nested loops of the
   * constructor do: GRID_ROWS rows of GRID_COLS bricks, row-major.
   */
  method BuildBrickGrid(brickW: Size, brickH: Size) returns (bricks: seq<Rect>)
    ensures |bricks| == GRID_ROWS * GRID_COLS
    ensures forall row, col | 0 <= row < GRID_ROWS && 0 <= col < GRID_COLS ::
      bricks[GRID_COLS * row + col] == GridBrick(row, col, brickW, brickH)
  {
    bricks := [];
    var posHeight := GRID_TOP;
    for row := 0 to GRID_ROWS
      invariant posHeight == GRID_TOP + GRID_DY * row
      invariant |bricks| == GRID_COLS * row
      invariant forall i, j | 0 <= i < row && 0 <= j < GRID_COLS ::
        bricks[GRID_COLS * i + j] == GridBrick(i, j, brickW, brickH)
    {
      var posWidth := GRID_LEFT;
      for col := 0 to GRID_COLS
        invariant posWidth == GRID_LEFT + GRID_DX * col
        invariant |bricks| == GRID_COLS * row + col
        invariant forall i, j | 0 <= i < row && 0 <= j < GRID_COLS ::
          bricks[GRID_COLS * i + j] == GridBrick(i, j, brickW, brickH)
        invariant forall j | 0 <= j < col ::
          bricks[GRID_COLS * row + j] == GridBrick(row, j, brickW, brickH)
      {
        bricks := bricks + [Rect(posWidth, posHeight, brickW, brickH)];
        posWidth := posWidth + GRID_DX;
      }
      posHeight := posHeight + GRID_DY;
    }
  }

  class Game {
    var bat: Rect
    var ball: Rect
    var vel: Vel
    var bricks: seq<Rect>
    var gameOn: bool

    /**
     * What every frame keeps: the bat stays on its row, the ball keeps its
     * speed on both axes, and there are never more bricks than the grid has.
     */
    ghost predicate Valid()
      reads this
    {
      && bat.y == BAT_Y
      && Abs(vel.dx) == BALL_SPEED && Abs(vel.dy) == BALL_SPEED
      && |bricks| <= GRID_ROWS * GRID_COLS
    }

    /**
     * A fresh game; the sizes of the bat, ball and brick images are
     * parameters.
     */
    constructor (batW: Size, batH: Size, ballW: Size, ballH: Size, brickW: Size, brickH: Size)
      ensures Valid()
      ensures bat == Rect(BAT_START_X, BAT_Y, batW, batH)
      ensures ball == BallAbove(bat, ballW, ballH)
      ensures vel == Vel(BALL_SPEED, BALL_SPEED)
      ensures gameOn
      ensures |bricks| == GRID_ROWS * GRID_COLS
      ensures forall row, col | 0 <= row < GRID_ROWS && 0 <= col < GRID_COLS ::
        bricks[GRID_COLS * row + col] == GridBrick(row, col, brickW, brickH)
    {
      var grid := BuildBrickGrid(brickW, brickH);
      gameOn := true;
      bat := Rect(BAT_START_X, BAT_Y, batW, batH);
      vel := Vel(BALL_SPEED, BALL_SPEED);
      ball := BallAbove(Rect(BAT_START_X, BAT_Y, batW, batH), ballW, ballH);
      bricks := grid;
    }

    /**
     * `ball_collision_movements`: the four edge tests in the source's order,
     * each negating one velocity component. Nothing but the velocity changes.
     */
    method BallCollisionMovements(target: Rect)
      requires Valid()
      modifies this`vel
      ensures Valid()
      ensures vel == Bounce(ball, target, old(vel))
    {
      if Near(target.Top(), ball.Bottom()) && vel.dy > 0 {
        vel := vel.(dy := -vel.dy);
      }
      if Near(target.Bottom(), ball.Top()) && vel.dy < 0 {
        vel := vel.(dy := -vel.dy);
      }
      if Near(target.Right(), ball.Left()) && vel.dx < 0 {
        vel := vel.(dx := -vel.dx);
      }
      if Near(target.Left(), ball.Right()) && vel.dx > 0 {
        vel := vel.(dx := -vel.dx);
      }
    }

    /** `handle_bat_movement`: one guarded step per held arrow key. */
    method HandleBatMovement(leftHeld: bool, rightHeld: bool)
      requires Valid()
      modifies this`bat
      ensures Valid()
      ensures bat == BatStep(old(bat), leftHeld, rightHeld)
      ensures BatInBounds(old(bat)) ==> BatInBounds(bat)
    {
      if leftHeld && bat.x > LEFT_BORDER.w {
        bat := bat.Move(-BAT_VEL, 0);
      }
      if rightHeld && bat.x < SCREEN_WIDTH - bat.w - RIGHT_BORDER.w {
        bat := bat.Move(BAT_VEL, 0);
      }
      if BatInBounds(old(bat)) {
        BatStepStaysInBounds(old(bat), leftHeld, rightHeld);
      }
    }

    /**
     * The first part of `handle_ball_movement`: move the ball by its
     * velocity, turn the velocity at the top, left and right borders, and
     * put the ball back above the bat when it has fallen below the screen.
     */
    method MoveBall()
      requires Valid()
      modifies this`ball, this`vel
      ensures Valid()
      ensures var moved := old(ball).Move(old(vel).dx, old(vel).dy);
        && vel == BorderReflect(moved, old(vel))
        && ball == if moved.y > SCREEN_HEIGHT then BallAbove(bat, moved.w, moved.h) else moved
    {
      var moved := ball.Move(vel.dx, vel.dy);
      var v := vel;
      if moved.Overlaps(TOP_BORDER) {
        v := v.(dy := -v.dy);
      }
      if moved.Overlaps(LEFT_BORDER) || moved.Overlaps(RIGHT_BORDER) {
        v := v.(dx := -v.dx);
      }
      vel := v;
      ball := moved;
      if ball.y > SCREEN_HEIGHT {
        ball := ball.(x := bat.x + RESPAWN_DX, y := bat.y - RESPAWN_DY);
      }
    }

    /**
     * `handle_ball_movement`. The result `cleared` stands for posting the
     * BRICKS_EMPTY event.
     */
    method HandleBallMovement() returns (cleared: bool)
      requires Valid()
      modifies this`ball, this`vel, this`bricks
      ensures Valid()
      ensures TickResult(ball, vel, bricks, cleared) == BallTick(old(ball), old(vel), bat, old(bricks))
    {
      MoveBall();
      if ball.Overlaps(bat) {
        BallCollisionMovements(bat);
      }

      if bricks != [] {
        RemoveHitBricks();
        cleared := false;
      } else {
        cleared := true;
      }
    }

    /**
     * The brick loop of `handle_ball_movement`. It visits a snapshot of the
     * collection in order (iterating a pygame group iterates a copy of its
     * sprite list) and removes each hit brick from the live collection, where
     * it sits at position `kept`, the number of bricks visited and kept so far.
     */
    method RemoveHitBricks()
      requires Valid()
      modifies this`vel, this`bricks
      ensures Valid()
      ensures bricks == Surviving(old(bricks), ball)
      ensures vel == BounceAll(ball, old(vel), old(bricks))
    {
      var snapshot := bricks;
      var kept := 0;
      for i := 0 to |snapshot|
        invariant kept == |Surviving(snapshot[..i], ball)|
        invariant bricks == Surviving(snapshot[..i], ball) + snapshot[i..]
        invariant vel == BounceAll(ball, old(vel), snapshot[..i])
        invariant Valid()
      {
        var brick := snapshot[i];
        BrickLoopStep(snapshot, i, bricks, kept, ball, old(vel), vel);
        if ball.Overlaps(brick) {
          BallCollisionMovements(brick);
          bricks := bricks[..kept] + bricks[kept + 1..];
        } else {
          kept := kept + 1;
        }
      }
      assert snapshot[..|snapshot|] == snapshot;
    }

    /**
     * One pass of the `play_game` loop, entered while the game is on: a QUIT
     * event in this frame's queue switches the game off (the loop then ends
     * at its next test), and the bat and the ball are moved as usual.
     */
    method Frame(quit: bool, leftHeld: bool, rightHeld: bool) returns (cleared: bool)
      requires Valid() && gameOn
      modifies this
      ensures Valid()
      ensures gameOn == !quit
      ensures bat == BatStep(old(bat), leftHeld, rightHeld)
      ensures TickResult(ball, vel, bricks, cleared) == BallTick(old(ball), old(vel), bat, old(bricks))
    {
      if quit {
        gameOn := false;
      }
      HandleBatMovement(leftHeld, rightHeld);
      cleared := HandleBallMovement();
    }
  }
}
