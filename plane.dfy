/** Infinite planes (half-spaces) and finite rectangular planes. */
module Planes {
  import opened Options
  import opened Vectors
  import opened Rays
  import opened Materials
  import opened Hits
  import opened Surfaces

  /** `Plane::intersect`: the distance to the plane along the normalised
      direction, accepted when it lies ahead of the origin and short of the
      ray's end, converted to a ray parameter.  A ray parallel to the plane
      (denominator zero, an IEEE infinity or NaN in floating point) misses,
      and so does a ray of zero length. */
  function Intersect(center: Vec3, normal: Vec3, ray: Ray, sqrt: real -> real): Option<real> {
    var denom := Dot(normal, Normalized(ray.dir, sqrt));
    var l := Length(ray, sqrt);
    if denom == 0.0 || l == 0.0 then None
    else
      var dist := Dot(Sub(center, ray.pos), normal) / denom;
      if dist < 0.0 || dist * dist >= LengthSquared(ray) then None
      else Some(dist / l)
  }

  /** The parameter at which the ray's line crosses the plane. */
  function Crossing(center: Vec3, normal: Vec3, ray: Ray): real
    requires Dot(normal, ray.dir) != 0.0
  {
    Dot(Sub(center, ray.pos), normal) / Dot(normal, ray.dir)
  }

  /** Under an exact square root, `intersect` finds the crossing parameter
      exactly when it lies in [0, 1). */
  lemma IntersectExact(center: Vec3, normal: Vec3, ray: Ray, sqrt: real -> real)
    requires ExactSqrt(sqrt)
    requires LengthSquared(ray) > 0.0 && Dot(normal, ray.dir) != 0.0
    ensures var w := Crossing(center, normal, ray);
            Intersect(center, normal, ray, sqrt) == if w < 0.0 || w >= 1.0 then None else Some(w)
  {
    var l := Length(ray, sqrt);
    SqrtPositive(sqrt, LengthSquared(ray));
    assert l * l == LengthSquared(ray);
    IntersectOfLength(center, normal, ray, sqrt);
  }

  lemma IntersectOfLength(center: Vec3, normal: Vec3, ray: Ray, sqrt: real -> real)
    requires Length(ray, sqrt) > 0.0 && Dot(normal, ray.dir) != 0.0 && LengthSquared(ray) > 0.0
    requires Length(ray, sqrt) * Length(ray, sqrt) == LengthSquared(ray)
    ensures var w := Crossing(center, normal, ray);
            Intersect(center, normal, ray, sqrt) == if w < 0.0 || w >= 1.0 then None else Some(w)
  {
    var l := Length(ray, sqrt);
    var w := Crossing(center, normal, ray);
    var unit := Normalized(ray.dir, sqrt);
    assert unit == Scale(ray.dir, 1.0 / l);
    DistanceIsScaledCrossing(center, normal, ray, l, unit);
    var dist := Dot(Sub(center, ray.pos), normal) / Dot(normal, unit);
    ScaledSquare(w, l, dist, LengthSquared(ray));
    IntersectBy(center, normal, ray, sqrt, dist, w);
  }

  /** `intersect` decided by the facts about its distance `dist` and the
      crossing parameter `w`. */
  lemma IntersectBy(center: Vec3, normal: Vec3, ray: Ray, sqrt: real -> real, dist: real, w: real)
    requires Dot(normal, Normalized(ray.dir, sqrt)) != 0.0 && Length(ray, sqrt) != 0.0
    requires dist == Dot(Sub(center, ray.pos), normal) / Dot(normal, Normalized(ray.dir, sqrt))
    requires dist < 0.0 <==> w < 0.0
    requires w >= 0.0 ==> (dist * dist >= LengthSquared(ray) <==> w >= 1.0)
    requires dist / Length(ray, sqrt) == w
    ensures Intersect(center, normal, ray, sqrt) == if w < 0.0 || w >= 1.0 then None else Some(w)
  {
  }

  /** Along the normalised direction the plane lies at distance `w * l`. */
  lemma DistanceIsScaledCrossing(center: Vec3, normal: Vec3, ray: Ray, l: real, unit: Vec3)
    requires l > 0.0 && Dot(normal, ray.dir) != 0.0
    requires unit == Scale(ray.dir, 1.0 / l)
    ensures Dot(normal, unit) != 0.0
    ensures Dot(Sub(center, ray.pos), normal) / Dot(normal, unit) == Crossing(center, normal, ray) * l
  {
    var k := Dot(normal, ray.dir);
    DotScaleRight(normal, ray.dir, 1.0 / l);
    assert Dot(normal, unit) == k / l;
    DistanceScaling(Dot(Sub(center, ray.pos), normal), k, l);
  }

  lemma DistanceScaling(n: real, k: real, l: real)
    requires k != 0.0 && l > 0.0
    ensures n / (k / l) == (n / k) * l
  {
  }

  /** For `dist == w l` with `l > 0`: `dist < 0` iff `w < 0`, `dist^2 >= l^2`
      iff `w >= 1` (for `w >= 0`), and `dist / l == w`. */
  lemma ScaledSquare(w: real, l: real, dist: real, q: real)
    requires l > 0.0 && dist == w * l && q == l * l && q > 0.0
    ensures dist < 0.0 <==> w < 0.0
    ensures w >= 0.0 ==> (dist * dist >= q <==> w >= 1.0)
    ensures dist / l == w
  {
    if w >= 0.0 {
      var ww := w * w;
      assert dist * dist == ww * q;
      if w >= 1.0 {
        assert ww >= 1.0;
        assert ww * q >= q;
      } else {
        assert ww <= w;
        assert ww * q < q;
      }
    }
  }

  /** A reported parameter lies in [0, 1). */
  lemma IntersectWithinRay(center: Vec3, normal: Vec3, ray: Ray, sqrt: real -> real)
    requires ExactSqrt(sqrt)
    requires Intersect(center, normal, ray, sqrt).Some?
    ensures 0.0 <= Intersect(center, normal, ray, sqrt).value < 1.0
  {
    var denom := Dot(normal, Normalized(ray.dir, sqrt));
    var dist := Dot(Sub(center, ray.pos), normal) / denom;
    var l := Length(ray, sqrt);
    assert l * l == LengthSquared(ray) && l >= 0.0;
    assert 0.0 <= dist && dist * dist < l * l;
    BelowLength(dist, l);
  }

  lemma BelowLength(dist: real, l: real)
    requires 0.0 <= dist && 0.0 <= l && dist * dist < l * l
    ensures 0.0 <= dist / l < 1.0
  {
    if l <= dist {
      SquareLe(l, dist);
    }
    assert 0.0 <= dist < l;
    DivBelowOne(dist, l);
  }

  lemma DivBelowOne(x: real, y: real)
    requires 0.0 <= x < y
    ensures 0.0 <= x / y < 1.0
  {
    assert x / y * y == x;
  }

  lemma SquareLe(a: real, b: real)
    requires 0.0 <= a <= b
    ensures a * a <= b * b
  {
    assert a * a <= a * b;
    assert a * b <= b * b;
  }

  /** The hit point lies on the plane. */
  lemma IntersectOnPlane(center: Vec3, normal: Vec3, ray: Ray, sqrt: real -> real)
    requires ExactSqrt(sqrt)
    requires LengthSquared(ray) > 0.0 && Dot(normal, ray.dir) != 0.0
    requires Intersect(center, normal, ray, sqrt).Some?
    ensures Dot(Sub(At(ray, Intersect(center, normal, ray, sqrt).value), center), normal) == 0.0
  {
    IntersectExact(center, normal, ray, sqrt);
    var w := Crossing(center, normal, ray);
    var k := Dot(normal, ray.dir);
    assert Sub(At(ray, w), center) == Sub(Scale(ray.dir, w), Sub(center, ray.pos));
    DotScaleLeft(ray.dir, normal, w);
    assert w * k == Dot(Sub(center, ray.pos), normal);
  }

  datatype Plane = Plane(center: Vec3, normal: Vec3, material: Material)

  /** `Plane::ray_trace`: the hit keeps the ray and carries the plane's own
      normal. */
  function PlaneTrace(p: Plane, ray: Ray, sqrt: real -> real): (r: Option<Hit>)
    ensures r.Some? <==> Intersect(p.center, p.normal, ray, sqrt).Some?
    ensures r.Some? ==> r.value == Hit(ray, Intersect(p.center, p.normal, ray, sqrt).value, p.normal, p.material)
  {
    match Intersect(p.center, p.normal, ray, sqrt)
    case None => None
    case Some(t) => Some(Hit(ray, t, p.normal, p.material))
  }

  /** `Plane::is_inside`: strictly on the side the normal points away from. */
  function PlaneInside(p: Plane, q: Vec3): bool {
    Dot(Sub(q, p.center), p.normal) < 0.0
  }

  function PlaneShape(p: Plane, sqrt: real -> real): (h: Hittable)
    ensures KeepsRay(h)
    ensures forall q :: h.inside(q) == PlaneInside(p, q)
  {
    Hittable(ray => PlaneTrace(p, ray, sqrt), q => PlaneInside(p, q))
  }

  lemma PlaneShapeWithinRay(p: Plane, sqrt: real -> real)
    requires ExactSqrt(sqrt)
    ensures WithinRay(PlaneShape(p, sqrt))
  {
    var h := PlaneShape(p, sqrt);
    forall ray | h.trace(ray).Some? ensures 0.0 <= h.trace(ray).value.t < 1.0 {
      IntersectWithinRay(p.center, p.normal, ray, sqrt);
    }
  }

  /** A rectangle of the given extents in the local x-z plane of `pos`, facing
      local +y. */
  datatype FinitePlane = FinitePlane(pos: Pos, sizeX: real, sizeZ: real, material: Material)

  function FiniteNormal(f: FinitePlane): Vec3 {
    f.pos.rotate(Vec3(0.0, 1.0, 0.0))
  }

  /** `FinitePlane::ray_trace`: the plane hit, kept when the local point lies
      within half the extents (the edge itself included). */
  function FinitePlaneTrace(f: FinitePlane, ray: Ray, sqrt: real -> real): (r: Option<Hit>)
    ensures r.Some? ==> Intersect(f.pos.translation, FiniteNormal(f), ray, sqrt) == Some(r.value.t)
    ensures r.Some? ==> r.value.ray == ray && r.value.normal == FiniteNormal(f) && r.value.material == f.material
    ensures r.Some? ==> var local := f.pos.inverse(At(ray, r.value.t));
            Abs(local.x) * 2.0 <= f.sizeX && Abs(local.z) * 2.0 <= f.sizeZ
    ensures r.None? && Intersect(f.pos.translation, FiniteNormal(f), ray, sqrt).Some? ==>
            var local := f.pos.inverse(At(ray, Intersect(f.pos.translation, FiniteNormal(f), ray, sqrt).value));
            Abs(local.x) * 2.0 > f.sizeX || Abs(local.z) * 2.0 > f.sizeZ
  {
    var normal := FiniteNormal(f);
    match Intersect(f.pos.translation, normal, ray, sqrt)
    case None => None
    case Some(t) =>
      var local := f.pos.inverse(At(ray, t));
      if Abs(local.x) * 2.0 > f.sizeX || Abs(local.z) * 2.0 > f.sizeZ then None
      else Some(Hit(ray, t, normal, f.material))
  }

  /** `FinitePlane::is_inside`: below the rectangle and strictly within its
      extents. */
  function FinitePlaneInside(f: FinitePlane, q: Vec3): bool {
    var rel := f.pos.inverse(q);
    rel.y < 0.0 && Abs(rel.x) * 2.0 < f.sizeX && Abs(rel.z) * 2.0 < f.sizeZ
  }

  function FinitePlaneShape(f: FinitePlane, sqrt: real -> real): (h: Hittable)
    ensures KeepsRay(h)
  {
    Hittable(ray => FinitePlaneTrace(f, ray, sqrt), q => FinitePlaneInside(f, q))
  }

  lemma FinitePlaneShapeWithinRay(f: FinitePlane, sqrt: real -> real)
    requires ExactSqrt(sqrt)
    ensures WithinRay(FinitePlaneShape(f, sqrt))
  {
    var h := FinitePlaneShape(f, sqrt);
    forall ray | h.trace(ray).Some? ensures 0.0 <= h.trace(ray).value.t < 1.0 {
      IntersectWithinRay(f.pos.translation, FiniteNormal(f), ray, sqrt);
    }
  }
}
