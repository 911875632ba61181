# Breakout game update, modelled in Dafny

This project models the per-frame update of a small Breakout game, which lives in `main.py` in the `Game` class. A bat moves left and right along a fixed row. A ball moves at a constant speed and bounces off three borders (top, left, right), the bat and a 5 × 12 grid of bricks. A brick the ball touches is removed. When no bricks are left, the game signals "cleared".

The project has three modules:

- `Rects` (`rect.dfy`): integer rectangles. It provides the parts of pygame's `Rect` that the game uses: edges, `move`, and `colliderect`. `colliderect` is modelled as strict overlap of the open intervals on both axes.
- `Rules` (`rules.dfy`): the game constants, plus each rule as a function on values. These are the bounce heuristic (`BounceX`, `BounceY`, `Bounce`), the bat step (`BatStep`), the brick filter (`Surviving`), the ordered velocity fold over hit bricks (`BounceAll`), the border reflection and the whole ball step (`BallTick`). Lemmas about these functions state what the game promises.
- `Breakout` (`game.dfy`): the `Game` class. Its fields `bat`, `ball`, `vel`, `bricks` and `gameOn` are updated in place, as in the source. Each method is proved to leave exactly the state that the matching `Rules` function describes. `Valid()` is preserved by every method. It says three things:
  - the bat stays on its row;
  - both velocity components keep magnitude 3;
  - there are never more than 60 bricks.

The brick loop walks over a snapshot of the collection and removes each hit brick from the live collection. The snapshot matches pygame, because iterating a sprite group iterates a copy of its sprite list. As a result, every brick is visited exactly once per frame. Which bricks are removed does not depend on visiting order (`SurvivingIgnoresOrder`). Only the velocity depends on order, because bounces are applied one after another.

Three behaviours of the code worth knowing:

- **Bat bounds.** The bat is not kept inside `[left border width, width − bat width − right border width]`. Each guard tests the position before the step, so the bat can go up to 5 px past a border. For example, x = 11 steps to x = 5 (`BatCanOverlapLeftBorder`). What the code does keep is the wider band `BatInBounds` (`BatStepStaysInBounds`).
- **Bounce tests.** The two tests on an axis run one after the other, not independently. The second test can undo a flip made by the first. This needs the ball and target heights to sum to less than 20 (`FallingBallBouncesUp`).
- **"Cleared" signal.** It is raised only on a frame whose brick step starts with an empty collection. That is the frame after the last brick goes, not the frame that removes it. A single call raises it again on every such frame. In the program, though, the next frame handles the event by starting a nested game (main.py:159-162) that ends in `sys.exit()` (main.py:170-171), so the signal is raised once per game.

## Model

| member | source | states |
|---|---|---|
| `Rules.BounceY` | main.py:86-90 | The vertical component is kept or negated. It changes exactly when (a) it is downward, the ball's bottom is within 10 of the target's top, and the ball's top is not within 10 of the target's bottom, or (b) it is upward and the ball's top is within 10 of the target's bottom. |
| `Rules.BounceX` | main.py:91-94 | The horizontal component is kept or negated. It changes exactly when (a) it is leftward, the ball's left is within 10 of the target's right, and the ball's right is not within 10 of the target's left, or (b) it is rightward and the ball's right is within 10 of the target's left. |
| `Rules.Bounce` | main.py:80-94 | A bounce keeps the magnitude of both velocity components and never changes a zero component. |
| `Rules.BounceXIgnoresVertical` | main.py:91-94 | The horizontal result depends only on horizontal positions, widths and the horizontal velocity, never on vertical distances. |
| `Rules.FallingBallBouncesUp` | main.py:87-90 | A falling ball whose bottom is within 10 of a target's top is sent upward whenever ball and target heights sum to at least 20. |
| `Rules.BatStep` | main.py:96-106 | The bat moves by exactly -6, 0 or +6 and keeps its y and size. A left step happens only when x > left border width, and a right step only when x < 1000 − bat width − right border width. With one key held, the guard decides the step both ways. With no key held, nothing changes. |
| `Rules.BatStepStaysInBounds` | main.py:102-106 | A bat that starts with x ≥ 5 and right edge ≤ 995 stays in that band after any key combination. |
| `Rules.BothKeysCancel` | main.py:102-106 | With both keys held and both guards open, the bat's position is unchanged. |
| `Rules.BatCanOverlapLeftBorder` | main.py:102-103 | A bat at x = 11 with the left key held ends up overlapping the left border. |
| `Rules.Surviving` | main.py:125-129 | The brick filter never yields more bricks than it is given. |
| `Rules.SurvivingMembers` | main.py:126-129 | A brick remains after the brick loop exactly when it was present before and does not overlap the ball. |
| `Rules.SurvivingSnoc` | main.py:126-129 | The filter handles bricks one at a time in collection order: one more brick adds it to the result exactly when the ball misses it. |
| `Rules.SurvivingMultiplicity` | main.py:126-129 | Every copy of a brick the ball misses is kept. Every copy of a brick it overlaps is removed. |
| `Rules.SurvivingIgnoresOrder` | main.py:126-129 | Visiting the same bricks in any order removes the same bricks. |
| `Rules.SurvivingNoHit` | main.py:126-129 | When the ball overlaps no brick, the collection is unchanged. |
| `Rules.SurvivingOneHit` | main.py:126-129 | When the ball overlaps exactly one brick, only that brick is removed and the count drops by exactly one. |
| `Rules.BounceAll` | main.py:126-128 | Bouncing off the hit bricks in order keeps the magnitude of both velocity components. |
| `Rules.BounceAllSnoc` | main.py:126-128 | Visiting one more brick applies its bounce after all earlier bounces, and only if the ball overlaps it. |
| `Rules.BounceAllNoHit` | main.py:126-128 | Bricks the ball does not overlap leave the velocity unchanged. |
| `Rules.BrickLoopStep` | main.py:126-129 | One pass of the brick loop keeps its invariant. The live collection is the kept bricks seen so far followed by the unvisited ones. The brick being visited sits at position `kept`. Removing it, or keeping it, advances the invariant by one brick. |
| `Rules.BorderReflect` | main.py:114-117 | A non-zero vertical component turns exactly when the moved ball overlaps the top border. A non-zero horizontal component turns exactly when it overlaps the left or right border. Both magnitudes are kept. |
| `Rules.BallTick` | main.py:108-131 | The ball keeps its size. If it stays on screen, it is translated by exactly the velocity. After a miss (y > 600), it is placed at (bat.x + 31, bat.y − 37). Both speed components are kept. The brick count never grows. "Cleared" is raised exactly when the collection was already empty. |
| `Rules.BallTickRemovesHitBricks` | main.py:125-129 | After a ball step, the remaining bricks are exactly the previous bricks that do not overlap the ball where the step left it. |
| `Rules.QuietTick` | main.py:108-131 | If the moved ball stays on screen and touches no border, the bat or any brick, the step only translates it. Velocity and bricks are unchanged. |
| `Rules.RespawnClearsBat` | main.py:118-129 | After a miss, a ball no taller than 37 is placed clear of the bat, so the bat bounce does not fire. The velocity leaving the step is the one the border tests left when there are no bricks, and otherwise that velocity bounced, in order, off the bricks the respawned ball overlaps. |
| `Breakout.BuildBrickGrid` | main.py:58-66 | The nested loops build exactly 60 bricks. Brick (row i, column j) is at index 12·i + j, with x = 110 + 67·j and y = 100 + 36·i. |
| `Breakout.Game.constructor` | main.py:41-66 | A new game is on. The bat is at (460, 500), the ball is placed above it, the velocity is (3, 3), and the bricks are the 5 × 12 grid. |
| `Breakout.Game.BallCollisionMovements` | main.py:80-94 | Only the velocity changes, and it becomes `Bounce` of the ball, the target and the old velocity. |
| `Breakout.Game.HandleBatMovement` | main.py:96-106 | Only the bat changes, and it becomes `BatStep` of the old bat. A bat inside the band stays inside it. |
| `Breakout.Game.MoveBall` | main.py:113-120 | The velocity becomes `BorderReflect` of the translated ball. The ball is the translated ball, or, if that ball's y exceeds 600, the ball placed above the bat. |
| `Breakout.Game.HandleBallMovement` | main.py:108-131 | Ball, velocity, bricks and the "cleared" result are those of `BallTick` on the old state and the current bat. The invariant is kept. |
| `Breakout.Game.RemoveHitBricks` | main.py:125-129 | The live collection ends as `Surviving` of the old one. The velocity is `BounceAll` of the old velocity over the old bricks, in collection order. |
| `Breakout.Game.Frame` | main.py:152-166 | One loop pass. A QUIT event switches the game off. Then the bat moves by `BatStep` and the ball moves by `BallTick` with the moved bat. |

## Left out

- Rendering and display: window creation, caption, fonts, `draw_window`, the text and 2-second delay of `game_over`, and `pygame.display.update`. These are output only.
- Loading the bat, ball and brick images from `Assets/`. The image sizes are constructor parameters of type `Size` (positive integers).
- The frame clock, FPS cap and pygame event queue. A QUIT event in the frame's queue is a `quit` parameter of `Frame`. Posting the BRICKS_EMPTY event is the `cleared` result.
- The restart on BRICKS_EMPTY: `game_over()` followed by a new `Game().play_game()` nested inside the running loop. Also `pygame.quit()` and `sys.exit()` when the loop ends. These are process and loop plumbing.
- pygame's own `colliderect`, `move` and sprite-group code. These are modelled by `Rects.Rect.Overlaps` and `Rects.Rect.Move`, and by a sequence in insertion order that is iterated as a snapshot.
- Float coordinates. `SCREEN_WIDTH/2 - 40` is exactly 460. The offset `40 - 17/2` = 31.5 is taken as the integer 31. How pygame converts the fractional coordinate is not modelled.
- debug.py: its one function only draws text on the display.
- Termination: whether the ball eventually clears every brick is not modelled; it does not follow from the update rules.
