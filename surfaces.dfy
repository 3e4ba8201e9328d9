/** Anything that can be hit by a ray (`Hittable`): a tracing function and a
    containment test. */
module Surfaces {
  import opened Options
  import opened Vectors
  import opened Rays
  import opened Hits

  datatype Hittable = Hittable(trace: Ray -> Option<Hit>, inside: Vec3 -> bool)

  /** Every hit the shape reports on `ray` lies on `ray` itself. */
  ghost predicate KeepsRay(s: Hittable) {
    forall ray :: s.trace(ray).Some? ==> s.trace(ray).value.ray == ray
  }

  /** Every hit the shape reports on `ray` lies in the ray's span [0, 1). */
  ghost predicate WithinRay(s: Hittable) {
    forall ray :: s.trace(ray).Some? ==> 0.0 <= s.trace(ray).value.t < 1.0
  }
}
