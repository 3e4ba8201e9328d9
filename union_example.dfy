/** A concrete scene on which `Union::ray_trace` as written, whose hit stays
    on the sub-ray it was traced along, misorders a scene: two half-spaces
    `x < 1` and `x < 2` united, a third half-space `x < 1.5` beside them, and
    a ray from the origin along the x axis. */
module UnionExample {
  import opened Options
  import opened Vectors
  import opened Rays
  import opened Materials
  import opened Hits
  import opened Surfaces
  import opened Scene
  import opened Planes
  import opened Csg

  const AxisX := Vec3(1.0, 0.0, 0.0)

  function Wall(x: real): Plane {
    Plane(Vec3(x, 0.0, 0.0), AxisX, Mapper)
  }

  const Probe := Ray(Zero, Vec3(10.0, 0.0, 0.0))

  /** Tracing a ray along the x axis against a wall facing +x. */
  lemma IntersectAlongAxis(p: real, d: real, c: real, sqrt: real -> real)
    requires ExactSqrt(sqrt) && d > 0.0
    ensures var ray := Ray(Vec3(p, 0.0, 0.0), Vec3(d, 0.0, 0.0));
            Intersect(Vec3(c, 0.0, 0.0), AxisX, ray, sqrt)
              == if c - p < 0.0 || (c - p) * (c - p) >= d * d then None else Some((c - p) / d)
  {
    var ray := Ray(Vec3(p, 0.0, 0.0), Vec3(d, 0.0, 0.0));
    assert MagSq(ray.dir) == d * d;
    SqrtUnique(sqrt, d * d, d);
    assert Normalized(ray.dir, sqrt) == AxisX;
  }

  /** The first sub-ray the loop traces along: just past the wall at x = 1. */
  const Portion := Ray(Vec3(1.000000001, 0.0, 0.0), Vec3(8.999999999, 0.0, 0.0))

  /** The wall at `c` seen along a ray on the x axis, met ahead within the
      ray's span ... */
  lemma WallHit(p: real, d: real, c: real, t: real, sqrt: real -> real)
    requires ExactSqrt(sqrt) && d > 0.0
    requires 0.0 <= c - p && (c - p) * (c - p) < d * d && t == (c - p) / d
    ensures var ray := Ray(Vec3(p, 0.0, 0.0), Vec3(d, 0.0, 0.0));
            PlaneShape(Wall(c), sqrt).trace(ray) == Some(Hit(ray, t, AxisX, Mapper))
  {
    IntersectAlongAxis(p, d, c, sqrt);
  }

  /** ... or behind the ray's origin. */
  lemma WallBehind(p: real, d: real, c: real, sqrt: real -> real)
    requires ExactSqrt(sqrt) && d > 0.0 && c < p
    ensures PlaneShape(Wall(c), sqrt).trace(Ray(Vec3(p, 0.0, 0.0), Vec3(d, 0.0, 0.0))).None?
  {
    IntersectAlongAxis(p, d, c, sqrt);
  }

  lemma NearOnProbe(sqrt: real -> real)
    requires ExactSqrt(sqrt)
    ensures PlaneShape(Wall(1.0), sqrt).trace(Probe) == Some(Hit(Probe, 0.1, AxisX, Mapper))
  {
    WallHit(0.0, 10.0, 1.0, 0.1, sqrt);
  }

  lemma MiddleOnProbe(sqrt: real -> real)
    requires ExactSqrt(sqrt)
    ensures PlaneShape(Wall(1.5), sqrt).trace(Probe) == Some(Hit(Probe, 0.15, AxisX, Mapper))
  {
    WallHit(0.0, 10.0, 1.5, 0.15, sqrt);
  }

  lemma FarOnProbe(sqrt: real -> real)
    requires ExactSqrt(sqrt)
    ensures PlaneShape(Wall(2.0), sqrt).trace(Probe) == Some(Hit(Probe, 0.2, AxisX, Mapper))
  {
    WallHit(0.0, 10.0, 2.0, 0.2, sqrt);
  }

  lemma NearOnPortion(sqrt: real -> real)
    requires ExactSqrt(sqrt)
    ensures PlaneShape(Wall(1.0), sqrt).trace(Portion).None?
  {
    WallBehind(1.000000001, 8.999999999, 1.0, sqrt);
  }

  lemma FarOnPortion(sqrt: real -> real)
    requires ExactSqrt(sqrt)
    ensures PlaneShape(Wall(2.0), sqrt).trace(Portion) == Some(Hit(Portion, 0.999999999 / 8.999999999, AxisX, Mapper))
  {
    WallHit(1.000000001, 8.999999999, 2.0, 0.999999999 / 8.999999999, sqrt);
  }

  /** The first hit and the one the loop ends with. */
  const First := Hit(Probe, 0.1, AxisX, Mapper)
  const Found := Hit(Portion, 0.999999999 / 8.999999999, AxisX, Mapper)

  lemma CoupleOnProbe(sqrt: real -> real)
    requires ExactSqrt(sqrt)
    ensures CoupleTrace(PlaneShape(Wall(1.0), sqrt), PlaneShape(Wall(2.0), sqrt), Probe) == Some(First)
  {
    NearOnProbe(sqrt);
    FarOnProbe(sqrt);
  }

  lemma CoupleOnPortion(sqrt: real -> real)
    requires ExactSqrt(sqrt)
    ensures CoupleTrace(PlaneShape(Wall(1.0), sqrt), PlaneShape(Wall(2.0), sqrt), Portion) == Some(Found)
  {
    NearOnPortion(sqrt);
    FarOnPortion(sqrt);
  }

  /** Past the wall at x = 2 the loop stops. */
  lemma LoopStops(sqrt: real -> real)
    requires ExactSqrt(sqrt)
    ensures UnionLoop(PlaneShape(Wall(1.0), sqrt), PlaneShape(Wall(2.0), sqrt), Found, AfterT(Found), 0) == Some(Found)
  {
  }

  /** From just past the wall at x = 1 the origin is still inside `x < 2`. */
  lemma LoopOnPortion(sqrt: real -> real)
    requires ExactSqrt(sqrt)
    ensures UnionLoop(PlaneShape(Wall(1.0), sqrt), PlaneShape(Wall(2.0), sqrt), First, Portion, 1) == Some(Found)
  {
    CoupleOnPortion(sqrt);
    LoopStops(sqrt);
  }

  lemma ProbeStartsInside(sqrt: real -> real)
    ensures UnionInside(PlaneShape(Wall(1.0), sqrt), PlaneShape(Wall(2.0), sqrt), Probe.pos)
  {
  }

  lemma PortionAfterFirst()
    ensures AfterT(First) == Portion
  {
  }

  lemma LoopOnProbe(sqrt: real -> real)
    requires ExactSqrt(sqrt)
    ensures UnionLoop(PlaneShape(Wall(1.0), sqrt), PlaneShape(Wall(2.0), sqrt), First, Probe, 2) == Some(Found)
  {
    CoupleOnProbe(sqrt);
    ProbeStartsInside(sqrt);
    PortionAfterFirst();
    LoopOnPortion(sqrt);
  }

  lemma AsWrittenFinds(sqrt: real -> real)
    requires ExactSqrt(sqrt)
    ensures UnionTraceAsWritten(PlaneShape(Wall(1.0), sqrt), PlaneShape(Wall(2.0), sqrt), Probe, 2) == Some(Found)
  {
    CoupleOnProbe(sqrt);
    LoopOnProbe(sqrt);
  }

  /** `Found` lies on `Portion`, at the point x = 2, whose parameter along
      the probe is 0.2. */
  lemma FoundPoint()
    ensures Found.ray != Probe && Found.t < 0.15 && Position(Found) == Vec3(2.0, 0.0, 0.0)
    ensures MapOntoSuper(Found, Probe) == Hit(Probe, 0.2, AxisX, Mapper)
  {
  }

  lemma FoundEarly()
    ensures Found.t < 0.15
  {
  }

  lemma FoundMapped()
    ensures MapOntoSuper(Found, Probe) == Hit(Probe, 0.2, AxisX, Mapper)
  {
    FoundPoint();
  }

  /** In a scene of two shapes that are both hit, the strictly closer hit
      wins, and on a tie the first. */
  lemma PairScene(x: Hittable, y: Hittable, ray: Ray, hx: Hit, hy: Hit)
    requires x.trace(ray) == Some(hx) && y.trace(ray) == Some(hy)
    ensures ClosestHit([x, y], ray) == Some(if hy.t < hx.t then hy else hx)
  {
    assert CoupleTrace(x, y, ray) == ClosestHit([x, y], ray);
  }

  lemma AsWrittenShapeFinds(sqrt: real -> real)
    requires ExactSqrt(sqrt)
    ensures UnionShapeAsWritten(PlaneShape(Wall(1.0), sqrt), PlaneShape(Wall(2.0), sqrt), 2).trace(Probe) == Some(Found)
  {
    AsWrittenFinds(sqrt);
  }

  lemma CorrectedFinds(sqrt: real -> real)
    requires ExactSqrt(sqrt)
    ensures UnionTrace(PlaneShape(Wall(1.0), sqrt), PlaneShape(Wall(2.0), sqrt), Probe, 2)
            == Some(Hit(Probe, 0.2, AxisX, Mapper))
  {
    AsWrittenFinds(sqrt);
    FoundMapped();
  }

  lemma CorrectedShapeFinds(sqrt: real -> real)
    requires ExactSqrt(sqrt)
    ensures UnionShape(PlaneShape(Wall(1.0), sqrt), PlaneShape(Wall(2.0), sqrt), 2).trace(Probe)
            == Some(Hit(Probe, 0.2, AxisX, Mapper))
  {
    CorrectedFinds(sqrt);
  }

  /** As written, the union reports the wall at x = 2 with its parameter
      along `Portion` (about 0.111, see `FoundPoint`), although along the
      probe that point lies at 0.2; so a scene holding the union and the wall
      at x = 1.5 (hit at 0.15) reports the farther wall at x = 2 as the
      closest hit. */
  lemma UnionAsWrittenMisorders(sqrt: real -> real)
    requires ExactSqrt(sqrt)
    ensures UnionTraceAsWritten(PlaneShape(Wall(1.0), sqrt), PlaneShape(Wall(2.0), sqrt), Probe, 2) == Some(Found)
    ensures ClosestHit([UnionShapeAsWritten(PlaneShape(Wall(1.0), sqrt), PlaneShape(Wall(2.0), sqrt), 2),
                        PlaneShape(Wall(1.5), sqrt)], Probe) == Some(Found)
  {
    AsWrittenFinds(sqrt);
    AsWrittenShapeFinds(sqrt);
    FoundEarly();
    MiddleOnProbe(sqrt);
    PairScene(UnionShapeAsWritten(PlaneShape(Wall(1.0), sqrt), PlaneShape(Wall(2.0), sqrt), 2),
              PlaneShape(Wall(1.5), sqrt), Probe, Found, Hit(Probe, 0.15, AxisX, Mapper));
  }

  /** Mapped onto the probe, the union's hit lies at 0.2, and the scene
      reports the wall at x = 1.5 as the closest hit. */
  lemma UnionOrdersScene(sqrt: real -> real)
    requires ExactSqrt(sqrt)
    ensures UnionTrace(PlaneShape(Wall(1.0), sqrt), PlaneShape(Wall(2.0), sqrt), Probe, 2)
            == Some(Hit(Probe, 0.2, AxisX, Mapper))
    ensures ClosestHit([UnionShape(PlaneShape(Wall(1.0), sqrt), PlaneShape(Wall(2.0), sqrt), 2),
                        PlaneShape(Wall(1.5), sqrt)], Probe) == Some(Hit(Probe, 0.15, AxisX, Mapper))
  {
    CorrectedFinds(sqrt);
    CorrectedShapeFinds(sqrt);
    MiddleOnProbe(sqrt);
    PairScene(UnionShape(PlaneShape(Wall(1.0), sqrt), PlaneShape(Wall(2.0), sqrt), 2),
              PlaneShape(Wall(1.5), sqrt), Probe, Hit(Probe, 0.2, AxisX, Mapper), Hit(Probe, 0.15, AxisX, Mapper));
  }
}
