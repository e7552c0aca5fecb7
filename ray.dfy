/** The ray type.  Its source file is not part of this model, so only what
    the core uses is defined: an origin, a direction that need not have unit
    length, and the point reached at parameter `t`. */
module Rays {
  import opened Vectors

  datatype Ray = Ray(origin: Vec3, direction: Vec3)

  /** `point_at_parameter(t)`: `origin + t * direction`, so the way from the
      origin to the point is `t` times the direction. */
  function PointAt(r: Ray, t: real): (p: Vec3)
    ensures Sub(p, r.origin) == ScalarMul(t, r.direction)
    ensures t == 0.0 ==> p == r.origin
  {
    Add(r.origin, ScalarMul(t, r.direction))
  }
}
