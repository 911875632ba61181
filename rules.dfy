/**
 * The rules of one game tick as functions on values: the playfield
 * constants, the edge-proximity bounce, one step of the bat, the brick
 * filter and the whole ball step. The class in module Breakout updates its
 * fields in place and is proved to follow these functions.
 */
module Rules {
  import opened Rects

  // Playfield (main.py:8, main.py:41-43)
  const SCREEN_WIDTH := 1000
  const SCREEN_HEIGHT := 600
  const BORDER_THICKNESS := 10
  const TOP_BORDER := Rect(0, 0, SCREEN_WIDTH, BORDER_THICKNESS)
  const LEFT_BORDER := Rect(0, 0, BORDER_THICKNESS, SCREEN_HEIGHT)
  const RIGHT_BORDER := Rect(SCREEN_WIDTH - BORDER_THICKNESS, 0, BORDER_THICKNESS, SCREEN_HEIGHT)

  // Bat (main.py:48-50): SCREEN_WIDTH / 2 - 40 is exactly 460
  const BAT_VEL := 6
  const BAT_START_X := SCREEN_WIDTH / 2 - 40
  const BAT_Y := 500

  // Ball (main.py:53-55, main.py:119-120): the ball is placed at
  // bat.x + 40 - 17/2 = bat.x + 31.5, stored by the rectangle as bat.x + 31
  const BALL_SPEED := 3
  const RESPAWN_DX := 31
  const RESPAWN_DY := 37

  // Bounce heuristic (main.py:86)
  const COLLISION_TOLERANCE := 10

  // Brick grid (main.py:59-66)
  const GRID_ROWS := 5
  const GRID_COLS := 12
  const GRID_LEFT := 110
  const GRID_TOP := 100
  const GRID_DX := 67
  const GRID_DY := 36

  /** The ball velocity `ball_vel`, one integer per axis. */
  datatype Vel = Vel(dx: int, dy: int)

  function Abs(n: int): nat {
    if n < 0 then -n else n
  }

  /** Two edge coordinates are closer than the collision tolerance. */
  predicate Near(a: int, b: int) {
    Abs(a - b) < COLLISION_TOLERANCE
  }

  // ---------------------------------------------------------------------
  // ball_collision_movements

  /**
   * The vertical component after the two vertical tests, run in order: the
   * first flips a downward velocity when the ball's bottom is near the
   * target's top; the second then flips an upward velocity (possibly the
   * one just produced) when the ball's top is near the target's bottom.
   */
  function BounceY(ball: Rect, target: Rect, dy: int): (r: int)
    ensures r == dy || r == -dy
    ensures r != dy <==>
      (dy > 0 && Near(target.Top(), ball.Bottom()) && !Near(target.Bottom(), ball.Top())) ||
      (dy < 0 && Near(target.Bottom(), ball.Top()))
  {
    var afterTop := if Near(target.Top(), ball.Bottom()) && dy > 0 then -dy else dy;
    if Near(target.Bottom(), ball.Top()) && afterTop < 0 then -afterTop else afterTop
  }

  /** The horizontal component, by the same rule on the right and left edges. */
  function BounceX(ball: Rect, target: Rect, dx: int): (r: int)
    ensures r == dx || r == -dx
    ensures r != dx <==>
      (dx < 0 && Near(target.Right(), ball.Left()) && !Near(target.Left(), ball.Right())) ||
      (dx > 0 && Near(target.Left(), ball.Right()))
  {
    var afterRight := if Near(target.Right(), ball.Left()) && dx < 0 then -dx else dx;
    if Near(target.Left(), ball.Right()) && afterRight > 0 then -afterRight else afterRight
  }

  /** The velocity after `ball_collision_movements(target)`. */
  function Bounce(ball: Rect, target: Rect, v: Vel): (r: Vel)
    ensures Abs(r.dx) == Abs(v.dx) && Abs(r.dy) == Abs(v.dy)
    ensures v.dx == 0 ==> r.dx == 0
    ensures v.dy == 0 ==> r.dy == 0
  {
    Vel(BounceX(ball, target, v.dx), BounceY(ball, target, v.dy))
  }

  /**
   * The horizontal outcome of a bounce depends only on horizontal extents
   * and the horizontal velocity: vertical distances never change it.
   */
  lemma BounceXIgnoresVertical(ball1: Rect, ball2: Rect, target1: Rect, target2: Rect, v1: Vel, v2: Vel)
    requires ball1.x == ball2.x && ball1.w == ball2.w
    requires target1.x == target2.x && target1.w == target2.w
    requires v1.dx == v2.dx
    ensures Bounce(ball1, target1, v1).dx == Bounce(ball2, target2, v2).dx
  {
  }

  /**
   * A ball falling onto the top of a target is sent back up, unless the two
   * rectangles are so short that its top is also near the target's bottom.
   */
  lemma FallingBallBouncesUp(ball: Rect, target: Rect, v: Vel)
    requires v.dy > 0 && Near(target.Top(), ball.Bottom())
    requires ball.h + target.h >= 2 * COLLISION_TOLERANCE
    ensures Bounce(ball, target, v).dy == -v.dy
  {
  }

  // ---------------------------------------------------------------------
  // handle_bat_movement

  /**
   * The bat after one frame with the given keys held: a left step when the
   * bat is right of the left border's width, then a right step when it is
   * left of the last position that keeps it inside the right border.
   */
  function BatStep(bat: Rect, leftHeld: bool, rightHeld: bool): (r: Rect)
    ensures r.y == bat.y && r.w == bat.w && r.h == bat.h
    ensures r.x == bat.x - BAT_VEL || r.x == bat.x || r.x == bat.x + BAT_VEL
    ensures r.x < bat.x ==> leftHeld && bat.x > LEFT_BORDER.w
    ensures r.x > bat.x ==> rightHeld && bat.x < SCREEN_WIDTH - bat.w - RIGHT_BORDER.w
    ensures leftHeld && !rightHeld ==> (r.x < bat.x <==> bat.x > LEFT_BORDER.w)
    ensures rightHeld && !leftHeld ==> (r.x > bat.x <==> bat.x < SCREEN_WIDTH - bat.w - RIGHT_BORDER.w)
    ensures !leftHeld && !rightHeld ==> r == bat
  {
    var afterLeft := if leftHeld && bat.x > LEFT_BORDER.w then bat.Move(-BAT_VEL, 0) else bat;
    if rightHeld && afterLeft.x < SCREEN_WIDTH - afterLeft.w - RIGHT_BORDER.w
    then afterLeft.Move(BAT_VEL, 0)
    else afterLeft
  }

  /**
   * The band the guards keep the bat in. It is wider than the playfield by
   * up to BAT_VEL - 1 on each side, because a guard tests the position
   * before the step (a bat at x = 11 steps to x = 5, over the left border).
   */
  predicate BatInBounds(bat: Rect) {
    bat.Left() >= LEFT_BORDER.w - BAT_VEL + 1 &&
    bat.Right() <= SCREEN_WIDTH - RIGHT_BORDER.w + BAT_VEL - 1
  }

  /** A bat that starts inside the band never leaves it. */
  lemma BatStepStaysInBounds(bat: Rect, leftHeld: bool, rightHeld: bool)
    requires BatInBounds(bat)
    ensures BatInBounds(BatStep(bat, leftHeld, rightHeld))
  {
  }

  /** With both keys held and both guards open the two steps cancel out. */
  lemma BothKeysCancel(bat: Rect)
    requires bat.x > LEFT_BORDER.w
    requires bat.x - BAT_VEL < SCREEN_WIDTH - bat.w - RIGHT_BORDER.w
    ensures BatStep(bat, true, true) == bat
  {
  }

  /** The overshoot is real: the left guard lets the bat over the left border. */
  lemma BatCanOverlapLeftBorder(h: Size)
    ensures BatStep(Rect(LEFT_BORDER.w + 1, BAT_Y, 80, h), true, false).Overlaps(LEFT_BORDER)
  {
  }

  // ---------------------------------------------------------------------
  // The brick loop of handle_ball_movement

  /** The bricks that do not overlap the ball, in their original order. */
  function Surviving(bricks: seq<Rect>, ball: Rect): (r: seq<Rect>)
    ensures |r| <= |bricks|
  {
    if bricks == [] then []
    else if ball.Overlaps(bricks[0]) then Surviving(bricks[1..], ball)
    else [bricks[0]] + Surviving(bricks[1..], ball)
  }

  /** The bricks left are exactly the bricks the ball does not overlap. */
  lemma {:induction false} SurvivingMembers(bricks: seq<Rect>, ball: Rect)
    ensures forall b :: b in Surviving(bricks, ball) <==> b in bricks && !ball.Overlaps(b)
  {
    if bricks != [] {
      SurvivingMembers(bricks[1..], ball);
      assert bricks == [bricks[0]] + bricks[1..];
    }
  }

  /** The filter processes bricks one at a time, in collection order. */
  lemma {:induction false} SurvivingSnoc(bricks: seq<Rect>, b: Rect, ball: Rect)
    ensures Surviving(bricks + [b], ball) ==
            Surviving(bricks, ball) + (if ball.Overlaps(b) then [] else [b])
  {
    if bricks != [] {
      assert (bricks + [b])[1..] == bricks[1..] + [b];
      SurvivingSnoc(bricks[1..], b, ball);
    }
  }

  /** A brick the ball does not overlap keeps all its copies; a hit one loses all. */
  lemma {:induction false} SurvivingMultiplicity(bricks: seq<Rect>, ball: Rect, b: Rect)
    ensures multiset(Surviving(bricks, ball))[b] ==
            if ball.Overlaps(b) then 0 else multiset(bricks)[b]
  {
    if bricks != [] {
      SurvivingMultiplicity(bricks[1..], ball, b);
      assert bricks == [bricks[0]] + bricks[1..];
    }
  }

  /** Visiting the bricks in another order removes the same bricks. */
  lemma SurvivingIgnoresOrder(bricks1: seq<Rect>, bricks2: seq<Rect>, ball: Rect)
    requires multiset(bricks1) == multiset(bricks2)
    ensures multiset(Surviving(bricks1, ball)) == multiset(Surviving(bricks2, ball))
  {
    forall b: Rect
      ensures multiset(Surviving(bricks1, ball))[b] == multiset(Surviving(bricks2, ball))[b]
    {
      SurvivingMultiplicity(bricks1, ball, b);
      SurvivingMultiplicity(bricks2, ball, b);
    }
  }

  /** When the ball touches no brick the collection is left as it is. */
  lemma {:induction false} SurvivingNoHit(bricks: seq<Rect>, ball: Rect)
    requires forall k :: 0 <= k < |bricks| ==> !ball.Overlaps(bricks[k])
    ensures Surviving(bricks, ball) == bricks
  {
    if bricks != [] {
      SurvivingNoHit(bricks[1..], ball);
    }
  }

  /** When the ball touches exactly one brick, that one brick is removed. */
  lemma {:induction false} SurvivingOneHit(bricks: seq<Rect>, ball: Rect, k: nat)
    requires k < |bricks| && ball.Overlaps(bricks[k])
    requires forall j :: 0 <= j < |bricks| && j != k ==> !ball.Overlaps(bricks[j])
    ensures Surviving(bricks, ball) == bricks[..k] + bricks[k + 1..]
    ensures |Surviving(bricks, ball)| == |bricks| - 1
  {
    if k == 0 {
      SurvivingNoHit(bricks[1..], ball);
    } else {
      SurvivingOneHit(bricks[1..], ball, k - 1);
      assert bricks[..k] == [bricks[0]] + bricks[1..][..k - 1];
    }
  }

  /** The velocity after bouncing, in order, off every brick the ball overlaps. */
  function BounceAll(ball: Rect, v: Vel, bricks: seq<Rect>): (r: Vel)
    ensures Abs(r.dx) == Abs(v.dx) && Abs(r.dy) == Abs(v.dy)
    decreases bricks
  {
    if bricks == [] then v
    else
      var v' := if ball.Overlaps(bricks[0]) then Bounce(ball, bricks[0], v) else v;
      BounceAll(ball, v', bricks[1..])
  }

  /** Bricks the ball does not overlap do not affect the velocity. */
  lemma {:induction false} BounceAllNoHit(ball: Rect, v: Vel, bricks: seq<Rect>)
    requires forall k :: 0 <= k < |bricks| ==> !ball.Overlaps(bricks[k])
    ensures BounceAll(ball, v, bricks) == v
    decreases bricks
  {
    if bricks != [] {
      BounceAllNoHit(ball, v, bricks[1..]);
    }
  }

  /** Bouncing off one more brick after the others, as the brick loop does. */
  lemma {:induction false} BounceAllSnoc(ball: Rect, v: Vel, bricks: seq<Rect>, b: Rect)
    decreases bricks
    ensures BounceAll(ball, v, bricks + [b]) ==
            var before := BounceAll(ball, v, bricks);
            if ball.Overlaps(b) then Bounce(ball, b, before) else before
  {
    if bricks != [] {
      assert (bricks + [b])[1..] == bricks[1..] + [b];
      var v' := if ball.Overlaps(bricks[0]) then Bounce(ball, bricks[0], v) else v;
      BounceAllSnoc(ball, v', bricks[1..], b);
    }
  }

  /**
   * One pass of the brick loop keeps its invariant: the live collection is
   * the kept part of the bricks visited so far followed by the unvisited
   * ones, and the velocity is the fold of the bounces so far. A hit brick
   * sits at position `kept` of the live collection.
   */
  lemma BrickLoopStep(snapshot: seq<Rect>, i: nat, live: seq<Rect>, kept: nat,
                      ball: Rect, v0: Vel, v: Vel)
    requires i < |snapshot|
    requires kept == |Surviving(snapshot[..i], ball)|
    requires live == Surviving(snapshot[..i], ball) + snapshot[i..]
    requires v == BounceAll(ball, v0, snapshot[..i])
    ensures kept < |live| && live[kept] == snapshot[i]
    ensures var hit := ball.Overlaps(snapshot[i]);
      && (hit ==> live[..kept] + live[kept + 1..] == Surviving(snapshot[..i + 1], ball) + snapshot[i + 1..])
      && (hit ==> kept == |Surviving(snapshot[..i + 1], ball)|)
      && (!hit ==> live == Surviving(snapshot[..i + 1], ball) + snapshot[i + 1..])
      && (!hit ==> kept + 1 == |Surviving(snapshot[..i + 1], ball)|)
      && BounceAll(ball, v0, snapshot[..i + 1]) == (if hit then Bounce(ball, snapshot[i], v) else v)
  {
    var done := Surviving(snapshot[..i], ball);
    assert snapshot[..i + 1] == snapshot[..i] + [snapshot[i]];
    assert snapshot[i..] == [snapshot[i]] + snapshot[i + 1..];
    SurvivingSnoc(snapshot[..i], snapshot[i], ball);
    BounceAllSnoc(ball, v0, snapshot[..i], snapshot[i]);
    if ball.Overlaps(snapshot[i]) {
      assert live[..kept] == done;
      assert live[kept + 1..] == snapshot[i + 1..];
    } else {
      assert live == (done + [snapshot[i]]) + snapshot[i + 1..];
    }
  }

  // ---------------------------------------------------------------------
  // handle_ball_movement

  /** The ball placed above the bat, as at start-up and after a miss. */
  function BallAbove(bat: Rect, w: Size, h: Size): Rect {
    Rect(bat.x + RESPAWN_DX, bat.y - RESPAWN_DY, w, h)
  }

  /**
   * The velocity after the border tests on the moved ball: the vertical
   * component turns when the ball overlaps the top border, the horizontal
   * one when it overlaps the left or the right border.
   */
  function BorderReflect(moved: Rect, v: Vel): (r: Vel)
    ensures Abs(r.dx) == Abs(v.dx) && Abs(r.dy) == Abs(v.dy)
    ensures v.dy != 0 ==> (r.dy != v.dy <==> moved.Overlaps(TOP_BORDER))
    ensures v.dx != 0 ==> (r.dx != v.dx <==> moved.Overlaps(LEFT_BORDER) || moved.Overlaps(RIGHT_BORDER))
  {
    Vel(if moved.Overlaps(LEFT_BORDER) || moved.Overlaps(RIGHT_BORDER) then -v.dx else v.dx,
        if moved.Overlaps(TOP_BORDER) then -v.dy else v.dy)
  }

  /** What one ball step leaves behind; `cleared` stands for posting BRICKS_EMPTY. */
  datatype TickResult = TickResult(ball: Rect, vel: Vel, bricks: seq<Rect>, cleared: bool)

  /**
   * One ball step: move, reflect off the borders, respawn on a miss, bounce
   * off the bat, then either signal that no bricks are left or bounce off and
   * remove every brick the ball overlaps.
   */
  function BallTick(ball: Rect, vel: Vel, bat: Rect, bricks: seq<Rect>): (t: TickResult)
    ensures t.ball.w == ball.w && t.ball.h == ball.h
    ensures var moved := ball.Move(vel.dx, vel.dy);
      && (moved.y <= SCREEN_HEIGHT ==> t.ball == moved)
      && (moved.y > SCREEN_HEIGHT ==> t.ball.x == bat.x + RESPAWN_DX && t.ball.y == bat.y - RESPAWN_DY)
    ensures Abs(t.vel.dx) == Abs(vel.dx) && Abs(t.vel.dy) == Abs(vel.dy)
    ensures t.cleared <==> bricks == []
    ensures |t.bricks| <= |bricks|
  {
    var moved := ball.Move(vel.dx, vel.dy);
    var v1 := BorderReflect(moved, vel);
    var placed := if moved.y > SCREEN_HEIGHT then BallAbove(bat, moved.w, moved.h) else moved;
    var v2 := if placed.Overlaps(bat) then Bounce(placed, bat, v1) else v1;
    if bricks == [] then TickResult(placed, v2, bricks, true)
    else TickResult(placed, BounceAll(placed, v2, bricks), Surviving(bricks, placed), false)
  }

  /**
   * After a ball step the bricks left are exactly those that do not overlap
   * the ball where the step left it.
   */
  lemma BallTickRemovesHitBricks(ball: Rect, vel: Vel, bat: Rect, bricks: seq<Rect>)
    ensures var t := BallTick(ball, vel, bat, bricks);
      forall b :: b in t.bricks <==> b in bricks && !t.ball.Overlaps(b)
  {
    var t := BallTick(ball, vel, bat, bricks);
    SurvivingMembers(bricks, t.ball);
  }

  /**
   * A step in which the moved ball touches nothing and stays on screen only
   * translates the ball: velocity and bricks are unchanged.
   */
  lemma QuietTick(ball: Rect, vel: Vel, bat: Rect, bricks: seq<Rect>)
    requires var moved := ball.Move(vel.dx, vel.dy);
      && moved.y <= SCREEN_HEIGHT
      && !moved.Overlaps(TOP_BORDER) && !moved.Overlaps(LEFT_BORDER) && !moved.Overlaps(RIGHT_BORDER)
      && !moved.Overlaps(bat)
      && forall k :: 0 <= k < |bricks| ==> !moved.Overlaps(bricks[k])
    ensures BallTick(ball, vel, bat, bricks) ==
            TickResult(ball.Move(vel.dx, vel.dy), vel, bricks, bricks == [])
  {
    SurvivingNoHit(bricks, ball.Move(vel.dx, vel.dy));
    BounceAllNoHit(ball.Move(vel.dx, vel.dy), vel, bricks);
  }

  /**
   * After a miss the respawned ball sits clear of the bat when it is no
   * taller than the respawn height, so the bat bounce does not fire: the
   * velocity leaving the step is the one the border tests left, turned only
   * by the bricks the respawned ball overlaps.
   */
  lemma RespawnClearsBat(ball: Rect, vel: Vel, bat: Rect, bricks: seq<Rect>)
    requires ball.Move(vel.dx, vel.dy).y > SCREEN_HEIGHT
    requires ball.h <= RESPAWN_DY
    ensures !BallAbove(bat, ball.w, ball.h).Overlaps(bat)
    ensures var reflected := BorderReflect(ball.Move(vel.dx, vel.dy), vel);
      BallTick(ball, vel, bat, bricks).vel ==
        if bricks == [] then reflected
        else BounceAll(BallAbove(bat, ball.w, ball.h), reflected, bricks)
  {
  }

  /** Brick (row, col) of the start-up grid. */
  function GridBrick(row: int, col: int, w: Size, h: Size): Rect {
    Rect(GRID_LEFT + GRID_DX * col, GRID_TOP + GRID_DY * row, w, h)
  }
}
