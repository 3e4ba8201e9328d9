/** Spheres: the ray-sphere intersection by the quadratic formula. */
module Spheres {
  import opened Options
  import opened Vectors
  import opened Rays
  import opened Materials
  import opened Hits
  import opened Surfaces

  datatype Sphere = Sphere(center: Vec3, radius: real, material: Material)

  /** From the centre to the ray's origin. */
  function Offset(s: Sphere, ray: Ray): Vec3 {
    Sub(ray.pos, s.center)
  }

  function HalfB(s: Sphere, ray: Ray): real {
    Dot(Offset(s, ray), ray.dir)
  }

  function C(s: Sphere, ray: Ray): real {
    MagSq(Offset(s, ray)) - s.radius * s.radius
  }

  /** The two roots of `a t^2 + 2 half_b t + c = 0` for the ray's line, or
      None when the ray is rejected early (the origin is outside and the ray
      points away), has a negative discriminant, or has zero length (where
      floating point would divide by zero). */
  function Roots(s: Sphere, ray: Ray, sqrt: real -> real): Option<(real, real)> {
    if MagSq(Offset(s, ray)) > s.radius * s.radius && Dot(ray.dir, Offset(s, ray)) >= 0.0 then None
    else
      var a := LengthSquared(ray);
      var discriminant := Discriminant(a, HalfB(s, ray), C(s, ray));
      if discriminant < 0.0 || a == 0.0 then None
      else
        var root := sqrt(discriminant);
        Some(((-HalfB(s, ray) - root) / a, (-HalfB(s, ray) + root) / a))
  }

  function Discriminant(a: real, halfB: real, c: real): real {
    halfB * halfB - a * c
  }

  /** The nearer root when it is not behind the origin, else the further. */
  function RootChoice(roots: (real, real)): real {
    if roots.0 >= 0.0 then roots.0 else roots.1
  }

  function SphereHit(s: Sphere, ray: Ray, t: real): Hit
    requires s.radius != 0.0
  {
    Hit(ray, t, Scale(Sub(At(ray, t), s.center), 1.0 / s.radius), s.material)
  }

  /** `Sphere::ray_trace` as written: the chosen root is accepted when
      `t * t <= |dir|^2`, which bounds t by the ray's length, not by 1. */
  function SphereTraceAsWritten(s: Sphere, ray: Ray, sqrt: real -> real): Option<Hit>
    requires s.radius != 0.0
  {
    match Roots(s, ray, sqrt)
    case None => None
    case Some(roots) =>
      var t := RootChoice(roots);
      if t < 0.0 || t * t > LengthSquared(ray) then None else Some(SphereHit(s, ray, t))
  }

  /** The intersection test with the end of the ray at t = 1, as every other
      shape and the scene's assertion expect. */
  function SphereTrace(s: Sphere, ray: Ray, sqrt: real -> real): (r: Option<Hit>)
    requires s.radius != 0.0
    ensures r.Some? ==> 0.0 <= r.value.t < 1.0 && r.value.ray == ray && r.value.material == s.material
  {
    match Roots(s, ray, sqrt)
    case None => None
    case Some(roots) =>
      var t := RootChoice(roots);
      if t < 0.0 || t >= 1.0 then None else Some(SphereHit(s, ray, t))
  }

  /** A hit is at the nearer root when that is not behind the origin, else at
      the farther one, and its normal is the offset of the hit point from the
      centre divided by the radius. */
  lemma SphereHitChoice(s: Sphere, ray: Ray, sqrt: real -> real)
    requires s.radius != 0.0
    requires SphereTrace(s, ray, sqrt).Some?
    ensures Roots(s, ray, sqrt).Some?
    ensures var roots := Roots(s, ray, sqrt).value;
            SphereTrace(s, ray, sqrt).value.t == (if roots.0 >= 0.0 then roots.0 else roots.1)
    ensures var h := SphereTrace(s, ray, sqrt).value;
            h.normal == Scale(Sub(Position(h), s.center), 1.0 / s.radius)
  {
  }

  /** `Sphere::is_inside`: strictly inside. */
  function SphereInside(s: Sphere, p: Vec3): bool {
    MagSq(Sub(p, s.center)) < s.radius * s.radius
  }

  function SphereShape(s: Sphere, sqrt: real -> real): (h: Hittable)
    requires s.radius != 0.0
    ensures KeepsRay(h) && WithinRay(h)
  {
    Hittable(ray => SphereTrace(s, ray, sqrt), p => SphereInside(s, p))
  }

  /** A ray starting outside the sphere and pointing away from it misses. */
  lemma EarlyReject(s: Sphere, ray: Ray, sqrt: real -> real)
    requires s.radius != 0.0
    requires MagSq(Sub(ray.pos, s.center)) > s.radius * s.radius
    requires Dot(ray.dir, Sub(ray.pos, s.center)) >= 0.0
    ensures SphereTrace(s, ray, sqrt).None? && SphereTraceAsWritten(s, ray, sqrt).None?
  {
  }

  /** The two tests agree except that the one as written also accepts
      parameters in [1, |dir|] when the ray is longer than 1. */
  lemma TraceAgreement(s: Sphere, ray: Ray, sqrt: real -> real)
    requires s.radius != 0.0
    ensures SphereTrace(s, ray, sqrt).Some? ==>
      LengthSquared(ray) < 1.0 || SphereTraceAsWritten(s, ray, sqrt) == SphereTrace(s, ray, sqrt)
    ensures SphereTraceAsWritten(s, ray, sqrt).Some? ==>
      var t := SphereTraceAsWritten(s, ray, sqrt).value.t;
      0.0 <= t && t * t <= LengthSquared(ray)
  {
    match Roots(s, ray, sqrt)
    case None =>
    case Some(roots) =>
      var t := RootChoice(roots);
      if 0.0 <= t < 1.0 && LengthSquared(ray) >= 1.0 {
        assert t * t <= t;
      }
  }

  /** The quadratic of the ray's line, zero exactly where the line meets the
      sphere (`SolutionOnSphere`). */
  function Quadratic(s: Sphere, ray: Ray, t: real): real {
    Poly(LengthSquared(ray), HalfB(s, ray), C(s, ray), t)
  }

  function Poly(a: real, hb: real, c: real, t: real): real {
    a * t * t + 2.0 * hb * t + c
  }

  /** When the ray is not rejected early, `Roots` finds roots exactly when the
      line has a non-zero direction and a non-negative discriminant; they are
      ordered, both solve the quadratic, and they are its only solutions.
      Without roots, a line of non-zero direction never meets the sphere. */
  lemma RootsOf(s: Sphere, ray: Ray, sqrt: real -> real)
    requires ExactSqrt(sqrt)
    requires !(MagSq(Offset(s, ray)) > s.radius * s.radius && Dot(ray.dir, Offset(s, ray)) >= 0.0)
    ensures Roots(s, ray, sqrt).Some? <==>
              LengthSquared(ray) != 0.0 && Discriminant(LengthSquared(ray), HalfB(s, ray), C(s, ray)) >= 0.0
    ensures Roots(s, ray, sqrt).Some? ==>
              var roots := Roots(s, ray, sqrt).value;
              roots.0 <= roots.1 && Quadratic(s, ray, roots.0) == 0.0 && Quadratic(s, ray, roots.1) == 0.0
              && forall t :: Quadratic(s, ray, t) == 0.0 ==> t == roots.0 || t == roots.1
    ensures Roots(s, ray, sqrt).None? && LengthSquared(ray) != 0.0 ==>
              forall t :: Quadratic(s, ray, t) != 0.0
  {
    var a, hb, c := LengthSquared(ray), HalfB(s, ray), C(s, ray);
    var d := Discriminant(a, hb, c);
    if a != 0.0 && d >= 0.0 {
      var root := sqrt(d);
      assert 0.0 <= root && root * root == d;
      assert Roots(s, ray, sqrt) == Some(((-hb - root) / a, (-hb + root) / a));
      PolyRoots(a, hb, c, root);
    } else if a != 0.0 {
      PolyNoRoot(a, hb, c);
    }
  }

  /** The two roots of the quadratic formula are ordered, solve the
      quadratic, and are its only solutions. */
  lemma PolyRoots(a: real, hb: real, c: real, root: real)
    requires 0.0 < a && 0.0 <= root && root * root == Discriminant(a, hb, c)
    ensures (-hb - root) / a <= (-hb + root) / a
    ensures Poly(a, hb, c, (-hb - root) / a) == 0.0 && Poly(a, hb, c, (-hb + root) / a) == 0.0
    ensures forall t :: Poly(a, hb, c, t) == 0.0 ==> t == (-hb - root) / a || t == (-hb + root) / a
  {
    RootsOrdered(a, hb, root);
    QuadraticRoot(a, hb, c, root, (-hb - root) / a);
    QuadraticRoot(a, hb, c, root, (-hb + root) / a);
    forall t | Poly(a, hb, c, t) == 0.0
      ensures t == (-hb - root) / a || t == (-hb + root) / a
    {
      OnlyRoots(a, hb, c, root, t);
    }
  }

  /** With a negative discriminant the quadratic has no solution. */
  lemma PolyNoRoot(a: real, hb: real, c: real)
    requires a != 0.0 && Discriminant(a, hb, c) < 0.0
    ensures forall t :: Poly(a, hb, c, t) != 0.0
  {
    forall t
      ensures Poly(a, hb, c, t) != 0.0
    {
      NoRoot(a, hb, c, t);
    }
  }

  lemma RootsOrdered(a: real, hb: real, root: real)
    requires 0.0 < a && 0.0 <= root
    ensures (-hb - root) / a <= (-hb + root) / a
  {
    assert (-hb - root) / a * a <= (-hb + root) / a * a;
  }

  /** Every solution of the quadratic is one of the two roots. */
  lemma OnlyRoots(a: real, hb: real, c: real, root: real, t: real)
    requires a != 0.0 && 0.0 <= root && root * root == Discriminant(a, hb, c)
    requires a * t * t + 2.0 * hb * t + c == 0.0
    ensures t == (-hb - root) / a || t == (-hb + root) / a
  {
    var u := a * t + hb;
    CompleteSquare(a, hb, c, t, u);
    assert (u - root) * (u + root) == 0.0;
    if u == root {
      assert a * t == -hb + root;
    } else {
      ProductZero(u - root, u + root);
      assert a * t == -hb - root;
    }
  }

  /** A negative discriminant leaves the quadratic without solutions. */
  lemma NoRoot(a: real, hb: real, c: real, t: real)
    requires a != 0.0 && Discriminant(a, hb, c) < 0.0
    ensures a * t * t + 2.0 * hb * t + c != 0.0
  {
    var u := a * t + hb;
    CompleteSquare(a, hb, c, t, u);
    Square(u);
  }

  /** `(a t + half_b)^2 == a (a t^2 + 2 half_b t + c) + discriminant`. */
  lemma CompleteSquare(a: real, hb: real, c: real, t: real, u: real)
    requires u == a * t + hb
    ensures u * u == a * (a * t * t + 2.0 * hb * t + c) + Discriminant(a, hb, c)
  {
  }

  /** `Roots` in terms of given coefficients and square root. */
  lemma RootsAre(s: Sphere, ray: Ray, sqrt: real -> real, a: real, hb: real, c: real, root: real, t0: real, t1: real)
    requires LengthSquared(ray) == a && HalfB(s, ray) == hb && C(s, ray) == c
    requires Dot(ray.dir, Offset(s, ray)) < 0.0
    requires a != 0.0 && Discriminant(a, hb, c) >= 0.0 && sqrt(Discriminant(a, hb, c)) == root
    requires (-hb - root) / a == t0 && (-hb + root) / a == t1
    ensures Roots(s, ray, sqrt) == Some((t0, t1))
  {
  }

  /** Under an exact square root, a hit lies on the sphere, and its normal is
      the unit vector from the centre to the hit point divided by the radius:
      outward for a positive radius, inward for a negative one. */
  lemma HitOnSurface(s: Sphere, ray: Ray, sqrt: real -> real)
    requires ExactSqrt(sqrt) && s.radius != 0.0
    requires SphereTrace(s, ray, sqrt).Some?
    ensures var h := SphereTrace(s, ray, sqrt).value;
            MagSq(Sub(Position(h), s.center)) == s.radius * s.radius
            && h.normal == Scale(Sub(Position(h), s.center), 1.0 / s.radius)
            && MagSq(h.normal) == 1.0
            && Dot(h.normal, Sub(Position(h), s.center)) == s.radius
  {
    var t := RootChoice(Roots(s, ray, sqrt).value);
    var p := Sub(At(ray, t), s.center);
    RootOnSphere(s, ray, sqrt);
    UnitNormal(p, s.radius);
    RadialNormal(p, s.radius);
  }

  /** The point divided by the radius, dotted with the point, is the radius. */
  lemma RadialNormal(p: Vec3, r: real)
    requires r != 0.0 && MagSq(p) == r * r
    ensures Dot(Scale(p, 1.0 / r), p) == r
  {
    DotScaleLeft(p, p, 1.0 / r);
    assert Dot(p, p) == MagSq(p);
    InverseTimesSquare(r);
  }

  lemma InverseTimesSquare(r: real)
    requires r != 0.0
    ensures (1.0 / r) * (r * r) == r
  {
  }

  /** The hit is the nearest point of the ray at or after its origin that lies
      on the sphere: no point of the ray with a parameter in [0, t) does. */
  lemma HitNearest(s: Sphere, ray: Ray, sqrt: real -> real)
    requires ExactSqrt(sqrt) && s.radius != 0.0
    requires SphereTrace(s, ray, sqrt).Some?
    ensures forall u :: 0.0 <= u < SphereTrace(s, ray, sqrt).value.t ==>
              MagSq(Sub(At(ray, u), s.center)) != s.radius * s.radius
  {
    var roots := Roots(s, ray, sqrt).value;
    var t := RootChoice(roots);
    RootsOf(s, ray, sqrt);
    forall u | 0.0 <= u < t
      ensures MagSq(Sub(At(ray, u), s.center)) != s.radius * s.radius
    {
      ChoiceNearest(roots.0, roots.1, u);
      assert Quadratic(s, ray, u) != 0.0;
      OffSphere(s, ray, u);
    }
  }

  /** A parameter that does not solve the quadratic is a point off the
      sphere. */
  lemma OffSphere(s: Sphere, ray: Ray, u: real)
    requires Quadratic(s, ray, u) != 0.0
    ensures MagSq(Sub(At(ray, u), s.center)) != s.radius * s.radius
  {
    ExpandRay(s, ray, u);
  }

  /** Below the chosen root and not behind the origin, neither root lies. */
  lemma ChoiceNearest(t0: real, t1: real, u: real)
    requires t0 <= t1 && 0.0 <= u < RootChoice((t0, t1))
    ensures u != t0 && u != t1
  {
  }

  /** The point at the chosen root lies on the sphere. */
  lemma RootOnSphere(s: Sphere, ray: Ray, sqrt: real -> real)
    requires ExactSqrt(sqrt)
    requires Roots(s, ray, sqrt).Some?
    ensures var t := RootChoice(Roots(s, ray, sqrt).value);
            MagSq(Sub(At(ray, t), s.center)) == s.radius * s.radius
  {
    var t := RootChoice(Roots(s, ray, sqrt).value);
    RootSolves(s, ray, sqrt, t);
    SolutionOnSphere(s, ray, t);
  }

  /** Any solution of the quadratic is a point of the sphere. */
  lemma SolutionOnSphere(s: Sphere, ray: Ray, t: real)
    requires Quadratic(s, ray, t) == 0.0
    ensures MagSq(Sub(At(ray, t), s.center)) == s.radius * s.radius
  {
    ExpandRay(s, ray, t);
  }

  /** The squared distance from the centre along the ray, as a polynomial in
      the ray parameter. */
  lemma ExpandRay(s: Sphere, ray: Ray, t: real)
    ensures MagSq(Sub(At(ray, t), s.center)) == Quadratic(s, ray, t) + s.radius * s.radius
  {
    var d := Offset(s, ray);
    OffsetAt(s, ray, t);
    ExpandAlong(d, ray.dir, t, LengthSquared(ray), HalfB(s, ray), MagSq(d));
  }

  /** The point at `t`, seen from the centre, is the origin's offset plus
      `t` times the direction. */
  lemma OffsetAt(s: Sphere, ray: Ray, t: real)
    ensures Sub(At(ray, t), s.center) == Add(Offset(s, ray), Scale(ray.dir, t))
  {
  }

  /** A point at distance `r` from the centre, scaled by `1 / r`, has unit
      length. */
  lemma UnitNormal(p: Vec3, r: real)
    requires r != 0.0 && MagSq(p) == r * r
    ensures MagSq(Scale(p, 1.0 / r)) == 1.0
  {
    MagSqScale(p, 1.0 / r);
    InverseSquare(r);
  }

  /** The chosen root solves the sphere's quadratic. */
  lemma RootSolves(s: Sphere, ray: Ray, sqrt: real -> real, t: real)
    requires ExactSqrt(sqrt)
    requires Roots(s, ray, sqrt).Some? && t == RootChoice(Roots(s, ray, sqrt).value)
    ensures Quadratic(s, ray, t) == 0.0
  {
    var a := LengthSquared(ray);
    var d := Discriminant(a, HalfB(s, ray), C(s, ray));
    assert d >= 0.0 && a != 0.0;
    var root := sqrt(d);
    assert Roots(s, ray, sqrt).value == ((-HalfB(s, ray) - root) / a, (-HalfB(s, ray) + root) / a);
    QuadraticRoot(a, HalfB(s, ray), C(s, ray), root, t);
  }

  /** A root of the quadratic formula solves the equation. */
  lemma QuadraticRoot(a: real, halfB: real, c: real, root: real, t: real)
    requires a != 0.0
    requires root * root == Discriminant(a, halfB, c)
    requires t == (-halfB - root) / a || t == (-halfB + root) / a
    ensures a * t * t + 2.0 * halfB * t + c == 0.0
  {
    var e := if t == (-halfB - root) / a then -root else root;
    assert t == (-halfB + e) / a;
    assert a * t == -halfB + e;
    assert e * e == halfB * halfB - a * c;
    calc {
      a * (a * t * t + 2.0 * halfB * t + c);
      (a * t) * (a * t) + 2.0 * halfB * (a * t) + a * c;
      (-halfB + e) * (-halfB + e) + 2.0 * halfB * (-halfB + e) + a * c;
      e * e - halfB * halfB + a * c;
      0.0;
    }
    ProductZero(a, a * t * t + 2.0 * halfB * t + c);
  }

  lemma ProductZero(a: real, b: real)
    requires a != 0.0 && a * b == 0.0
    ensures b == 0.0
  {
  }

  lemma ExpandAlong(d: Vec3, v: Vec3, t: real, a: real, hb: real, c: real)
    requires a == MagSq(v) && hb == Dot(d, v) && c == MagSq(d)
    ensures MagSq(Add(d, Scale(v, t))) == a * t * t + 2.0 * hb * t + c
  {
    Expand(d.x, d.y, d.z, v.x, v.y, v.z, t);
  }

  /** `ExpandAlong` over the components. */
  lemma Expand(dx: real, dy: real, dz: real, vx: real, vy: real, vz: real, t: real)
    ensures (dx + vx * t) * (dx + vx * t) + (dy + vy * t) * (dy + vy * t) + (dz + vz * t) * (dz + vz * t)
         == (vx * vx + vy * vy + vz * vz) * t * t + 2.0 * (dx * vx + dy * vy + dz * vz) * t
            + (dx * dx + dy * dy + dz * dz)
  {
  }

  lemma InverseSquare(r: real)
    requires r != 0.0
    ensures (1.0 / r) * (1.0 / r) * (r * r) == 1.0
  {
  }
}
