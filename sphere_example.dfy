/** A concrete sphere beyond the end of a short ray, on which the intersection
    test as written and the corrected one disagree. */
module SphereExample {
  import opened Options
  import opened Vectors
  import opened Rays
  import opened Materials
  import opened Spheres

  /** The sphere of radius 1 about (50, 0, 0), and the ray from the origin
      with direction (10, 0, 0), which ends at x = 10. */
  const FarSphere := Sphere(Vec3(50.0, 0.0, 0.0), 1.0, Mapper)
  const ShortRay := Ray(Zero, Vec3(10.0, 0.0, 0.0))

  /** The quadratic's coefficients for that sphere and ray. */
  lemma FarSphereCoefficients()
    ensures LengthSquared(ShortRay) == 100.0
    ensures HalfB(FarSphere, ShortRay) == -500.0
    ensures C(FarSphere, ShortRay) == 2499.0
    ensures MagSq(Offset(FarSphere, ShortRay)) > 1.0
    ensures Dot(ShortRay.dir, Offset(FarSphere, ShortRay)) < 0.0
  {
    assert Offset(FarSphere, ShortRay) == Vec3(-50.0, 0.0, 0.0);
  }

  /** The ray's line meets that sphere at t = 4.9 and t = 5.1. */
  lemma FarSphereRoots(sqrt: real -> real)
    requires sqrt(100.0) == 10.0
    ensures Roots(FarSphere, ShortRay, sqrt) == Some((4.9, 5.1))
    ensures LengthSquared(ShortRay) == 100.0
  {
    FarSphereCoefficients();
    FarRootsGen(FarSphere, ShortRay, sqrt);
  }

  /** The roots for any sphere and ray with the coefficients above. */
  lemma FarRootsGen(s: Sphere, ray: Ray, sqrt: real -> real)
    requires sqrt(100.0) == 10.0
    requires LengthSquared(ray) == 100.0 && HalfB(s, ray) == -500.0 && C(s, ray) == 2499.0
    requires Dot(ray.dir, Offset(s, ray)) < 0.0
    ensures Roots(s, ray, sqrt) == Some((4.9, 5.1))
  {
    assert Discriminant(100.0, -500.0, 2499.0) == 100.0;
    RootsAre(s, ray, sqrt, 100.0, -500.0, 2499.0, 10.0, 4.9, 5.1);
  }

  /** The sphere lies far beyond the end of the ray; the test as written
      still reports a hit, at t = 4.9, which the scene then rejects as lying
      after the end of the ray. */
  lemma AsWrittenHitsBeyondRay(sqrt: real -> real)
    requires ExactSqrt(sqrt)
    ensures SphereTraceAsWritten(FarSphere, ShortRay, sqrt).Some?
    ensures SphereTraceAsWritten(FarSphere, ShortRay, sqrt).value.t == 4.9
    ensures SphereTrace(FarSphere, ShortRay, sqrt).None?
  {
    SqrtUnique(sqrt, 100.0, 10.0);
    FarSphereBeyond(sqrt);
  }

  /** The same, for any square root that takes 100 to 10. */
  lemma FarSphereBeyond(sqrt: real -> real)
    requires sqrt(100.0) == 10.0
    ensures SphereTraceAsWritten(FarSphere, ShortRay, sqrt).Some?
    ensures SphereTraceAsWritten(FarSphere, ShortRay, sqrt).value.t == 4.9
    ensures SphereTrace(FarSphere, ShortRay, sqrt).None?
  {
    FarSphereCoefficients();
    FarBeyondGen(FarSphere, ShortRay, sqrt);
  }

  /** The same, for any sphere of radius 1 and ray with the coefficients
      above. */
  lemma FarBeyondGen(s: Sphere, ray: Ray, sqrt: real -> real)
    requires sqrt(100.0) == 10.0 && s.radius == 1.0
    requires LengthSquared(ray) == 100.0 && HalfB(s, ray) == -500.0 && C(s, ray) == 2499.0
    requires Dot(ray.dir, Offset(s, ray)) < 0.0
    ensures SphereTraceAsWritten(s, ray, sqrt).Some?
    ensures SphereTraceAsWritten(s, ray, sqrt).value.t == 4.9
    ensures SphereTrace(s, ray, sqrt).None?
  {
    FarRootsGen(s, ray, sqrt);
    AsWrittenAtRoot(s, ray, sqrt);
    CorrectedMisses(s, ray, sqrt);
  }

  /** Any sphere and ray of squared length 100 whose roots are 4.9 and 5.1
      are hit as written, at the nearer root. */
  lemma AsWrittenAtRoot(s: Sphere, ray: Ray, sqrt: real -> real)
    requires s.radius != 0.0
    requires Roots(s, ray, sqrt) == Some((4.9, 5.1)) && LengthSquared(ray) == 100.0
    ensures SphereTraceAsWritten(s, ray, sqrt).Some?
    ensures SphereTraceAsWritten(s, ray, sqrt).value.t == 4.9
  {
    assert RootChoice((4.9, 5.1)) == 4.9;
  }

  /** ... and missed by the corrected test. */
  lemma CorrectedMisses(s: Sphere, ray: Ray, sqrt: real -> real)
    requires s.radius != 0.0
    requires Roots(s, ray, sqrt) == Some((4.9, 5.1))
    ensures SphereTrace(s, ray, sqrt).None?
  {
    assert RootChoice((4.9, 5.1)) == 4.9;
  }
}
