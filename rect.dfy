/**
 * Axis-aligned integer rectangles, standing in for the parts of pygame's
 * `Rect` that the game uses: the four edges, `move` and `colliderect`.
 */
module Rects {

  /** A width or height; every rectangle in the game has a positive size. */
  type Size = n: int | n > 0 witness 1

  datatype Rect = Rect(x: int, y: int, w: Size, h: Size) {

    function Left(): int { x }
    function Right(): int { x + w }
    function Top(): int { y }
    function Bottom(): int { y + h }

    /** `rect.move(dx, dy)`: the same rectangle translated by (dx, dy). */
    function Move(dx: int, dy: int): (r: Rect)
      ensures r.w == w && r.h == h
      ensures r.Left() - Left() == dx && r.Top() - Top() == dy
    {
      Rect(x + dx, y + dy, w, h)
    }

    /**
     * `colliderect`: the two rectangles share interior area, that is, their
     * open intervals overlap on both axes (touching edges do not collide).
     */
    predicate Overlaps(other: Rect) {
      Left() < other.Right() && other.Left() < Right() &&
      Top() < other.Bottom() && other.Top() < Bottom()
    }
  }
}
