/** Participating media (`Volume`): a shape filled with a fog of the given
    density, hit at a random depth.  The three random draws of one trace are
    parameters: `u` and `v` in [0, 1) and the scatter normal `rv`. */
module Volumes {
  import opened Options
  import opened Vectors
  import opened Rays
  import opened Hits
  import opened Surfaces

  datatype Volume = Volume(boundary: Hittable, density: real)

  /** The segment of the ray inside the boundary, as `(start_t, end_t)`, for a
      boundary hit `hit`: from the origin when the origin is inside, else from
      the entry hit to the exit hit found from just past it, mapped back onto
      the ray.  A missing exit gives None. */
  function Segment(vol: Volume, ray: Ray, hit: Hit): Option<(real, real)> {
    if vol.boundary.inside(ray.pos) then Some((0.0, hit.t))
    else
      match vol.boundary.trace(From(ray, hit.t + Nudge))
      case None => None
      case Some(exit) => Some((hit.t, MapOntoSuper(exit, ray).t))
  }

  /** `Volume::ray_trace`.  Where the source asserts that the segment is not
      empty, the model reports no hit; a ray of zero length, for which the
      source divides by zero, also reports none. */
  function VolumeTrace(vol: Volume, ray: Ray, sqrt: real -> real, u: real, v: real, rv: Vec3): (r: Option<Hit>)
    ensures vol.boundary.trace(ray).None? ==> r.None?
    ensures r.Some? ==> r.value.ray == ray && r.value.material == vol.boundary.trace(ray).value.material
    ensures r.Some? ==> Dot(r.value.normal, ray.dir) <= 0.0
    ensures r.Some? ==> r.value.normal == rv || r.value.normal == Neg(rv)
  {
    match vol.boundary.trace(ray)
    case None => None
    case Some(hit) =>
      match Segment(vol, ray, hit)
      case None => None
      case Some(seg) =>
        var (start, end) := seg;
        var len := Length(ray, sqrt);
        if end <= start || len == 0.0 then None
        else if Scatters(vol.density / len, end - start, u) then
          var normal := if Dot(rv, ray.dir) > 0.0 then Neg(rv) else rv;
          assert Dot(Neg(rv), ray.dir) == -Dot(rv, ray.dir);
          Some(Hit(ray, Depth(start, end - start, v), normal, hit.material))
        else None
  }

  /** The depth the draw `v` selects in the segment (`RngRangeWyrand::once`). */
  function Depth(start: real, len: real, v: real): real {
    v * len + start
  }

  /** The draw `u` falls below the segment's length measured in units of the
      mean free path `guaranteed`; a zero mean free path (zero density) makes
      the quotient infinite, so every draw scatters. */
  predicate Scatters(guaranteed: real, dist: real, u: real) {
    guaranteed == 0.0 || u < dist / guaranteed
  }

  /** The hit lies inside the segment, at the position the draw `v` selects. */
  lemma VolumeHitInSegment(vol: Volume, ray: Ray, sqrt: real -> real, u: real, v: real, rv: Vec3)
    requires 0.0 <= v < 1.0
    requires VolumeTrace(vol, ray, sqrt, u, v, rv).Some?
    ensures var hit := vol.boundary.trace(ray).value;
            var seg := Segment(vol, ray, hit);
            && seg.Some? && seg.value.0 < seg.value.1
            && seg.value.0 <= VolumeTrace(vol, ray, sqrt, u, v, rv).value.t < seg.value.1
  {
    var hit := vol.boundary.trace(ray).value;
    var seg := Segment(vol, ray, hit);
    assert seg.Some?;
    var (start, end) := seg.value;
    assert start < end;
    assert VolumeTrace(vol, ray, sqrt, u, v, rv).value.t == Depth(start, end - start, v);
    DepthInSegment(start, end - start, v);
  }

  lemma DepthInSegment(start: real, len: real, v: real)
    requires 0.0 <= v < 1.0 && 0.0 < len
    ensures start <= Depth(start, len, v) < start + len
  {
    assert 0.0 <= v * len < len;
  }

  /** With a non-zero density, a hit happens exactly when the draw `u` falls
      below the segment's length over the mean free path. */
  lemma VolumeHitIff(vol: Volume, ray: Ray, sqrt: real -> real, u: real, v: real, rv: Vec3)
    requires vol.boundary.trace(ray).Some?
    requires var seg := Segment(vol, ray, vol.boundary.trace(ray).value);
             seg.Some? && seg.value.0 < seg.value.1
    requires Length(ray, sqrt) != 0.0 && vol.density != 0.0
    ensures var seg := Segment(vol, ray, vol.boundary.trace(ray).value).value;
            var guaranteed := vol.density / Length(ray, sqrt);
            VolumeTrace(vol, ray, sqrt, u, v, rv).Some? <==> u < (seg.1 - seg.0) / guaranteed
  {
    NonZeroQuotient(vol.density, Length(ray, sqrt));
  }

  lemma NonZeroQuotient(a: real, b: real)
    requires a != 0.0 && b != 0.0
    ensures a / b != 0.0
  {
  }

  /** When the origin is inside the boundary, the segment runs from the origin
      to the boundary hit. */
  lemma SegmentFromInside(vol: Volume, ray: Ray, hit: Hit)
    requires vol.boundary.inside(ray.pos)
    ensures Segment(vol, ray, hit) == Some((0.0, hit.t))
  {
  }

  /** When the origin is outside, the exit is re-traced from just past the
      entry on the rest of the ray, and its parameter is the one along the
      whole ray of the point found. */
  lemma SegmentFromOutside(vol: Volume, ray: Ray, hit: Hit)
    requires !vol.boundary.inside(ray.pos) && KeepsRay(vol.boundary)
    requires LengthSquared(ray) != 0.0
    requires Segment(vol, ray, hit).Some?
    ensures var s := hit.t + Nudge;
            var exit := vol.boundary.trace(From(ray, s)).value;
            && Segment(vol, ray, hit).value == (hit.t, Compose(s, exit.t))
            && At(ray, Segment(vol, ray, hit).value.1) == Position(exit)
  {
    var s := hit.t + Nudge;
    var sub := From(ray, s);
    var exit := vol.boundary.trace(sub).value;
    assert exit.ray == sub;
    var m := MapOntoSuper(exit, ray);
    MapOntoSuperOfFrom(exit, ray, s);
    assert Segment(vol, ray, hit).value == (hit.t, m.t);
    assert Position(m) == At(ray, m.t);
  }

  /** `Volume::is_inside` delegates to the boundary. */
  function VolumeShape(vol: Volume, sqrt: real -> real, u: real, v: real, rv: Vec3): (h: Hittable)
    ensures KeepsRay(h)
    ensures forall p :: h.inside(p) == vol.boundary.inside(p)
    ensures forall ray :: h.trace(ray) == VolumeTrace(vol, ray, sqrt, u, v, rv)
  {
    Hittable(ray => VolumeTrace(vol, ray, sqrt, u, v, rv), p => vol.boundary.inside(p))
  }
}
