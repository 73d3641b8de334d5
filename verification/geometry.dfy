/** Plane geometry and the play area shared by every entity of the simulation. */
module Geometry {

  /** A point or a velocity; the C++ `Vector2`, with exact reals in place of `float`. */
  datatype Vec2 = Vec2(x: real, y: real)

  /** Width and height of the play area in pixels (`C_WIDTH`, `C_HEIGHT`). */
  const Width: real := 1600.0
  const Height: real := 1600.0

  /** `p + v * dt`: one step of straight-line motion. */
  function Advance(p: Vec2, v: Vec2, dt: real): (q: Vec2)
    ensures q.x - p.x == v.x * dt && q.y - p.y == v.y * dt
  {
    Vec2(p.x + v.x * dt, p.y + v.y * dt)
  }

  /** Squared Euclidean distance. */
  function Dist2(a: Vec2, b: Vec2): (d: real)
    ensures d >= 0.0
    ensures a == b ==> d == 0.0
  {
    var dx, dy := a.x - b.x, a.y - b.y;
    dx * dx + dy * dy
  }

  /** Two discs of combined radius `reach` overlap: the source's
      `Vector2Distance(a, b) < r1 + r2`, compared squared so that no square root is needed. */
  predicate Overlap(a: Vec2, b: Vec2, reach: real)
  {
    0.0 <= reach && Dist2(a, b) < reach * reach
  }

  /** A projectile's centre is inside the closed play area [0,W]x[0,H]. */
  predicate InPlay(p: Vec2)
  {
    0.0 <= p.x <= Width && 0.0 <= p.y <= Height
  }

  /** An asteroid of radius r is kept while its centre lies in [-r,W+r]x[-r,H+r]. */
  predicate InKeep(p: Vec2, r: real)
  {
    -r <= p.x <= Width + r && -r <= p.y <= Height + r
  }
}
