/** Ray: an origin and a direction. */
module Rays {
  import opened Numerics

  datatype Ray = Ray(origin: Vec3, direction: Vec3)
  {
    /** The point `origin + t * direction`: it lies `t` directions away
        from the origin. */
    function PointAtParameter(t: real): (p: Vec3)
      ensures p.Sub(origin) == direction.Scale(t)
      ensures t == 0.0 ==> p == origin
    {
      origin.Add(direction.Scale(t))
    }
  }

  /** Moving along the ray by `s` and then by `t` is moving by `s + t`. */
  lemma PointsAlongRayCompose(r: Ray, s: real, t: real)
    ensures r.PointAtParameter(s + t) == r.PointAtParameter(s).Add(r.direction.Scale(t))
  {
  }
}
