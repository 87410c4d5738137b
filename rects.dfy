/** The part of pygame's `Rect` the game uses: an integer rectangle given by
    its top-left corner, width and height, with pygame's collision tests,
    translation, resizing and edge setters. */
module Rects {
  import opened PyLib

  datatype Colour = Colour(r: int, g: int, b: int)

  datatype Rect = Rect(x: int, y: int, w: int, h: int) {

    function Right(): int { x + w }

    function Bottom(): int { y + h }

    /** `colliderect`: the interiors overlap; rectangles that only share an
        edge do not collide. */
    predicate CollideRect(o: Rect)
    {
      x < o.Right() && o.x < Right() && y < o.Bottom() && o.y < Bottom()
    }

    /** `collidepoint`: half-open in both axes. */
    predicate CollidePoint(px: int, py: int)
    {
      x <= px < Right() && y <= py < Bottom()
    }

    /** `move` / `move_ip`. */
    function Move(dx: int, dy: int): Rect
    {
      Rect(x + dx, y + dy, w, h)
    }

    /** `inflate` / `inflate_ip`: pygame shifts the corner by half the change
        with C division, which truncates toward zero, so the centre stays
        put up to half a pixel. */
    function Inflate(dx: int, dy: int): (r: Rect)
      ensures r.w == w + dx && r.h == h + dy
      ensures -1 <= (2 * r.x + r.w) - (2 * x + w) <= 1
      ensures -1 <= (2 * r.y + r.h) - (2 * y + h) <= 1
    {
      Rect(x - TruncDiv(dx, 2), y - TruncDiv(dy, 2), w + dx, h + dy)
    }

    /** The setters `rect.right = v`, `rect.left = v`, `rect.bottom = v` and
        `rect.top = v`: they move the rectangle and keep its size. */
    function WithRight(v: int): (r: Rect)
      ensures r.Right() == v && r.y == y && r.w == w && r.h == h
    {
      Rect(v - w, y, w, h)
    }

    function WithLeft(v: int): Rect { Rect(v, y, w, h) }

    function WithBottom(v: int): (r: Rect)
      ensures r.Bottom() == v && r.x == x && r.w == w && r.h == h
    {
      Rect(x, v - h, w, h)
    }

    function WithTop(v: int): Rect { Rect(x, v, w, h) }
  }

  /** Rectangles that only share an edge, vertical or horizontal, do not
      collide. */
  lemma SharedEdgeDoesNotCollide(a: Rect, b: Rect)
    requires a.Right() == b.x || b.Right() == a.x || a.Bottom() == b.y || b.Bottom() == a.y
    ensures !a.CollideRect(b)
  {
  }
}
