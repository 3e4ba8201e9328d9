/** Constructive solid geometry over two shapes: `Union` and `Subtract`
    (`CSG::union`, `CSG::subtract`).  Both loops run for as long as the
    geometry demands; here each is bounded by `fuel`, and running out of fuel
    reports no hit. */
module Csg {
  import opened Options
  import opened Vectors
  import opened Rays
  import opened Hits
  import opened Surfaces
  import opened Scene

  /** A shape whose hits always lie on the ray they were asked about keeps
      that property inside a couple. */
  lemma CoupleKeepsRay(a: Hittable, b: Hittable, ray: Ray)
    requires KeepsRay(a) && KeepsRay(b)
    ensures CoupleTrace(a, b, ray).Some? ==> CoupleTrace(a, b, ray).value.ray == ray
  {
  }

  // ---------------------------------------------------------------- Union

  /** `Union::is_inside`. */
  function UnionInside(a: Hittable, b: Hittable, p: Vec3): (r: bool)
    ensures r <==> a.inside(p) || b.inside(p)
  {
    CoupleInside(a, b, p)
  }

  /** Union's loop: while the origin of `portion` lies inside either shape,
      the couple is traced along `portion` and `portion` moves on to just past
      the hit.  A missed re-trace gives no hit. */
  function UnionLoop(a: Hittable, b: Hittable, hit: Hit, portion: Ray, fuel: nat): (r: Option<Hit>)
    ensures !UnionInside(a, b, portion.pos) ==> r == Some(hit)
    ensures r.Some? ==>
      (!UnionInside(a, b, portion.pos) && r == Some(hit)) || !UnionInside(a, b, AfterT(r.value).pos)
    decreases fuel
  {
    if !UnionInside(a, b, portion.pos) then Some(hit)
    else if fuel == 0 then None
    else
      match CoupleTrace(a, b, portion)
      case None => None
      case Some(h) => UnionLoop(a, b, h, AfterT(h), fuel - 1)
  }

  /** `Union::ray_trace` as written: the hit the loop ends with is returned
      as it was found, on the sub-ray `portion` it was traced along. */
  function UnionTraceAsWritten(a: Hittable, b: Hittable, ray: Ray, fuel: nat): (r: Option<Hit>)
    ensures a.trace(ray).None? && b.trace(ray).None? ==> r.None?
    ensures !UnionInside(a, b, ray.pos) ==> r == CoupleTrace(a, b, ray)
    ensures r.Some? ==>
      (!UnionInside(a, b, ray.pos) && r == CoupleTrace(a, b, ray)) || !UnionInside(a, b, AfterT(r.value).pos)
  {
    match CoupleTrace(a, b, ray)
    case None => None
    case Some(h) => UnionLoop(a, b, h, ray, fuel)
  }

  /** The loop of `Union::ray_trace`, reassigning `hit` and `portion`. */
  method UnionRayTrace(a: Hittable, b: Hittable, ray: Ray, fuel: nat) returns (r: Option<Hit>)
    ensures r == UnionTraceAsWritten(a, b, ray, fuel)
  {
    var first := CoupleTrace(a, b, ray);
    if first.None? {
      return None;
    }
    var hit := first.value;
    var portion := ray;
    var n := fuel;
    while UnionInside(a, b, portion.pos)
      invariant UnionLoop(a, b, hit, portion, n) == UnionTraceAsWritten(a, b, ray, fuel)
      decreases n
    {
      if n == 0 {
        return None;
      }
      var next := CoupleTrace(a, b, portion);
      if next.None? {
        return None;
      }
      hit := next.value;
      portion := AfterT(hit);
      n := n - 1;
    }
    return Some(hit);
  }

  /** Every hit the loop holds lies on a sub-ray of the caller's ray. */
  lemma {:induction false} UnionLoopSubRay(a: Hittable, b: Hittable, ray: Ray, hit: Hit, portion: Ray,
                                         sh: real, sp: real, fuel: nat) returns (s: real)
    requires KeepsRay(a) && KeepsRay(b)
    requires hit.ray == From(ray, sh) && portion == From(ray, sp)
    ensures UnionLoop(a, b, hit, portion, fuel).Some? ==> UnionLoop(a, b, hit, portion, fuel).value.ray == From(ray, s)
    decreases fuel
  {
    if !UnionInside(a, b, portion.pos) || fuel == 0 {
      s := sh;
    } else {
      match CoupleTrace(a, b, portion)
      case None =>
        s := sh;
      case Some(h) =>
        CoupleKeepsRay(a, b, portion);
        FromFrom(ray, sp, h.t + Nudge);
        s := UnionLoopSubRay(a, b, ray, h, AfterT(h), sp, Compose(sp, h.t + Nudge), fuel - 1);
    }
  }

  /** The hit `Union::ray_trace` returns lies on a sub-ray of the caller's
      ray. */
  lemma UnionAsWrittenSubRay(a: Hittable, b: Hittable, ray: Ray, fuel: nat) returns (s: real)
    requires KeepsRay(a) && KeepsRay(b)
    ensures UnionTraceAsWritten(a, b, ray, fuel).Some? ==>
      UnionTraceAsWritten(a, b, ray, fuel).value.ray == From(ray, s)
  {
    s := 0.0;
    match CoupleTrace(a, b, ray)
    case None =>
    case Some(h) =>
      CoupleKeepsRay(a, b, ray);
      FromZero(ray);
      s := UnionLoopSubRay(a, b, ray, h, ray, 0.0, 0.0, fuel);
  }

  /** `Union::ray_trace` with its result mapped onto the caller's ray, as
      `Subtract::ray_trace` and `Volume::ray_trace` do for theirs. */
  function UnionTrace(a: Hittable, b: Hittable, ray: Ray, fuel: nat): (r: Option<Hit>)
    ensures r.None? <==> UnionTraceAsWritten(a, b, ray, fuel).None?
    ensures r.Some? ==> r.value.ray == ray
  {
    match UnionTraceAsWritten(a, b, ray, fuel)
    case None => None
    case Some(h) => Some(MapOntoSuper(h, ray))
  }

  /** The mapped hit is the same surface point, normal and material as the
      one the loop found, and its parameter is that point's parameter along
      the caller's ray. */
  lemma UnionTraceSamePoint(a: Hittable, b: Hittable, ray: Ray, fuel: nat)
    requires KeepsRay(a) && KeepsRay(b) && LengthSquared(ray) != 0.0
    requires UnionTraceAsWritten(a, b, ray, fuel).Some?
    ensures var found := UnionTraceAsWritten(a, b, ray, fuel).value;
            var r := UnionTrace(a, b, ray, fuel).value;
            && Position(r) == Position(found)
            && r.normal == found.normal && r.material == found.material
            && At(ray, r.t) == Position(found)
  {
    var s := UnionAsWrittenSubRay(a, b, ray, fuel);
    var found := UnionTraceAsWritten(a, b, ray, fuel).value;
    MapOntoSuperOfFrom(found, ray, s);
  }

  /** When the origin lies outside both shapes, the union is the couple. */
  lemma UnionOutside(a: Hittable, b: Hittable, ray: Ray, fuel: nat)
    requires KeepsRay(a) && KeepsRay(b) && LengthSquared(ray) != 0.0
    requires !UnionInside(a, b, ray.pos)
    ensures UnionTrace(a, b, ray, fuel) == CoupleTrace(a, b, ray)
  {
    CoupleKeepsRay(a, b, ray);
    if CoupleTrace(a, b, ray).Some? {
      MapOntoSuperSelf(CoupleTrace(a, b, ray).value);
    }
  }

  /** `CSG::union`, with the loop's hit mapped onto the caller's ray. */
  function UnionShape(a: Hittable, b: Hittable, fuel: nat): (h: Hittable)
    ensures KeepsRay(h)
    ensures forall p :: h.inside(p) <==> a.inside(p) || b.inside(p)
    ensures forall ray :: h.trace(ray) == UnionTrace(a, b, ray, fuel)
  {
    Hittable(ray => UnionTrace(a, b, ray, fuel), p => UnionInside(a, b, p))
  }

  /** `CSG::union` as written. */
  function UnionShapeAsWritten(a: Hittable, b: Hittable, fuel: nat): (h: Hittable)
    ensures forall p :: h.inside(p) <==> a.inside(p) || b.inside(p)
    ensures forall ray :: h.trace(ray) == UnionTraceAsWritten(a, b, ray, fuel)
  {
    Hittable(ray => UnionTraceAsWritten(a, b, ray, fuel), p => UnionInside(a, b, p))
  }

  // ------------------------------------------------------------- Subtract

  /** `Subtract::is_inside`: in the shape and not in the cut. */
  function SubtractInside(a: Hittable, b: Hittable, p: Vec3): (r: bool)
    ensures r <==> a.inside(p) && !b.inside(p)
  {
    a.inside(p) && !b.inside(p)
  }

  /** Subtract's skip loop: while the shape's hit lies inside the cut, both
      are re-traced from just past that hit. */
  function SubtractSkip(a: Hittable, b: Hittable, o1: Option<Hit>, o2: Option<Hit>, fuel: nat)
    : (r: (Option<Hit>, Option<Hit>))
    ensures r.0.None? || !b.inside(Position(r.0.value))
    ensures o1.None? || !b.inside(Position(o1.value)) ==> r == (o1, o2)
    decreases fuel
  {
    match o1
    case None => (o1, o2)
    case Some(h1) =>
      if !b.inside(Position(h1)) then (o1, o2)
      else if fuel == 0 then (None, o2)
      else SubtractSkip(a, b, a.trace(AfterT(h1)), b.trace(AfterT(h1)), fuel - 1)
  }

  /** Both hits the skip loop ends with lie on one sub-ray of the caller's
      ray. */
  lemma {:induction false} SubtractSkipSubRay(a: Hittable, b: Hittable, ray: Ray, o1: Option<Hit>, o2: Option<Hit>,
                                            s0: real, fuel: nat) returns (s: real)
    requires KeepsRay(a) && KeepsRay(b)
    requires o1.Some? ==> o1.value.ray == From(ray, s0)
    requires o2.Some? ==> o2.value.ray == From(ray, s0)
    ensures var r := SubtractSkip(a, b, o1, o2, fuel);
            && (r.0.Some? ==> r.0.value.ray == From(ray, s))
            && (r.1.Some? ==> r.1.value.ray == From(ray, s))
    decreases fuel
  {
    s := s0;
    match o1
    case None =>
    case Some(h1) =>
      if b.inside(Position(h1)) && fuel > 0 {
        FromFrom(ray, s0, h1.t + Nudge);
        s := SubtractSkipSubRay(a, b, ray, a.trace(AfterT(h1)), b.trace(AfterT(h1)),
                                Compose(s0, h1.t + Nudge), fuel - 1);
      }
  }

  /** The decision table of `Subtract::ray_trace` over the surviving hits
      `h1` of the shape and `h2` of the cut, both on the caller's ray. */
  function SubtractDecide(a: Hittable, b: Hittable, ray: Ray, h1: Hit, h2: Hit): (r: Option<Hit>)
    // a back face of the cut inside the shape: the cut's surface, facing out
    ensures IsBack(h2) && a.inside(Position(h2)) ==> r == Some(Flip(h2))
    // the cut is met at or after the shape, on a front face: the shape's hit
    ensures h1.t <= h2.t && !IsBack(h2) ==> r == Some(h1)
    ensures h1.t <= h2.t && IsBack(h2) && !a.inside(Position(h2)) ==> r.None?
    ensures h2.t < h1.t && IsBack(h2) && !a.inside(Position(h2)) ==> r == Some(h1)
    ensures h2.t < h1.t && !IsBack(h2) && IsBack(h1) ==> r == Some(Flip(h2))
    ensures h2.t < h1.t && !IsBack(h2) && !IsBack(h1) && !b.inside(Position(h1)) ==> r == Some(h1)
    // the re-trace of the cut past the shape's hit, kept only inside the shape
    ensures h2.t < h1.t && !IsBack(h2) && !IsBack(h1) && b.inside(Position(h1)) ==>
      var again := b.trace(From(ray, h1.t + Nudge));
      && (r.Some? <==> again.Some? && a.inside(Position(Flip(MapOntoSuper(again.value, ray)))))
      && (r.Some? ==> r.value == Flip(MapOntoSuper(again.value, ray)))
  {
    var flipped := Flip(h2);
    if h2.t < h1.t then
      if IsBack(h2) then
        if a.inside(Position(h2)) then Some(flipped) else Some(h1)
      else if IsBack(h1) then Some(flipped)
      else if b.inside(Position(h1)) then
        match b.trace(From(ray, h1.t + Nudge))
        case None => None
        case Some(h) =>
          var cut := Flip(MapOntoSuper(h, ray));
          if a.inside(Position(cut)) then Some(cut) else None
      else Some(h1)
    else if IsBack(h2) then
      if a.inside(Position(h2)) then Some(flipped) else None
    else Some(h1)
  }

  /** `Subtract::ray_trace`: the skip loop, both survivors mapped onto the
      caller's ray, then the decision table. */
  function SubtractTrace(a: Hittable, b: Hittable, ray: Ray, fuel: nat): (r: Option<Hit>)
    ensures var (o1, o2) := SubtractSkip(a, b, a.trace(ray), b.trace(ray), fuel);
            && (o1.None? ==> r.None?)
            && (o1.Some? && o2.None? ==> r == Some(MapOntoSuper(o1.value, ray)))
            && (o1.Some? && o2.Some? ==>
                  r == SubtractDecide(a, b, ray, MapOntoSuper(o1.value, ray), MapOntoSuper(o2.value, ray)))
    ensures r.Some? ==> r.value.ray == ray
  {
    var (o1, o2) := SubtractSkip(a, b, a.trace(ray), b.trace(ray), fuel);
    match o1
    case None => None
    case Some(h1) =>
      match o2
      case None => Some(MapOntoSuper(h1, ray))
      case Some(h2) => SubtractDecide(a, b, ray, MapOntoSuper(h1, ray), MapOntoSuper(h2, ray))
  }

  /** `Subtract::ray_trace`, with the skip loop reassigning `o1` and `o2`. */
  method SubtractRayTrace(a: Hittable, b: Hittable, ray: Ray, fuel: nat) returns (r: Option<Hit>)
    ensures r == SubtractTrace(a, b, ray, fuel)
  {
    var o1 := a.trace(ray);
    var o2 := b.trace(ray);
    var n := fuel;
    while o1.Some? && b.inside(Position(o1.value))
      invariant SubtractSkip(a, b, o1, o2, n) == SubtractSkip(a, b, a.trace(ray), b.trace(ray), fuel)
      decreases n
    {
      if n == 0 {
        return None;
      }
      var h1 := o1.value;
      o2 := b.trace(AfterT(h1));
      o1 := a.trace(AfterT(h1));
      n := n - 1;
    }
    if o1.None? {
      return None;
    }
    var h1 := MapOntoSuper(o1.value, ray);
    if o2.None? {
      return Some(h1);
    }
    var h2 := MapOntoSuper(o2.value, ray);
    r := SubtractDecide(a, b, ray, h1, h2);
  }

  /** The re-trace branch of the decision table is never taken: the skip
      loop has already moved the shape's hit out of the cut, and mapping it
      onto the caller's ray does not move its point. */
  lemma SubtractRetraceUnreachable(a: Hittable, b: Hittable, ray: Ray, fuel: nat)
    requires KeepsRay(a) && KeepsRay(b) && LengthSquared(ray) != 0.0
    ensures var o1 := SubtractSkip(a, b, a.trace(ray), b.trace(ray), fuel).0;
            o1.Some? ==> !b.inside(Position(MapOntoSuper(o1.value, ray)))
  {
    FromZero(ray);
    var s := SubtractSkipSubRay(a, b, ray, a.trace(ray), b.trace(ray), 0.0, fuel);
    var o1 := SubtractSkip(a, b, a.trace(ray), b.trace(ray), fuel).0;
    if o1.Some? {
      MapOntoSuperOfFrom(o1.value, ray, s);
    }
  }

  /** `CSG::subtract`. */
  function SubtractShape(a: Hittable, b: Hittable, fuel: nat): (h: Hittable)
    ensures KeepsRay(h)
    ensures forall p :: h.inside(p) <==> a.inside(p) && !b.inside(p)
    ensures forall ray :: h.trace(ray) == SubtractTrace(a, b, ray, fuel)
  {
    Hittable(ray => SubtractTrace(a, b, ray, fuel), p => SubtractInside(a, b, p))
  }
}
