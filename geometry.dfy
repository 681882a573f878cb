/** Hitboxes and their overlap test. */
module Geometry {

  datatype Option<+T> = None | Some(value: T)

  /** A hitbox: an offset from the entity's position and a size. */
  datatype Box = Box(dx: real, dy: real, w: real, h: real)

  /** An axis-aligned rectangle in playfield coordinates. */
  datatype Rect = Rect(left: real, top: real, width: real, height: real)

  /** `update_hitbox_rect`: the hitbox placed at an entity's position. */
  function Place(x: real, y: real, b: Box): (r: Rect)
    ensures r.width == b.w && r.height == b.h
    ensures r.left - x == b.dx && r.top - y == b.dy
  {
    Rect(x + b.dx, y + b.dy, b.w, b.h)
  }

  function Min(u: real, v: real): real { if u < v then u else v }

  function Max(u: real, v: real): real { if u < v then v else u }

  /** The length the intervals `[lo1, lo1 + len1)` and `[lo2, lo2 + len2)`
      share; zero or negative when they do not meet. */
  function Overlap(lo1: real, len1: real, lo2: real, len2: real): real {
    Min(lo1 + len1, lo2 + len2) - Max(lo1, lo2)
  }

  /** `Rect.colliderect`: the interiors overlap; an empty rectangle collides
      with nothing. Equivalently, the intersection of the two rectangles has
      positive width and positive height. */
  predicate Collide(a: Rect, b: Rect): (r: bool)
    ensures r <==> Overlap(a.left, a.width, b.left, b.width) > 0.0 &&
                   Overlap(a.top, a.height, b.top, b.height) > 0.0
  {
    a.width > 0.0 && a.height > 0.0 && b.width > 0.0 && b.height > 0.0 &&
    a.left < b.left + b.width && b.left < a.left + a.width &&
    a.top < b.top + b.height && b.top < a.top + a.height
  }
}
