/** Hit records (`HitResult`): a ray, the parameter of the hit along it, the
    surface normal there and the surface's material. */
module Hits {
  import opened Vectors
  import opened Rays
  import opened Materials

  datatype Hit = Hit(ray: Ray, t: real, normal: Vec3, material: Material)

  /** The ray arrives from behind the surface. */
  predicate IsBack(h: Hit) {
    Dot(h.ray.dir, h.normal) > 0.0
  }

  /** The normal turned to face the incoming ray. */
  function NormalAbs(h: Hit): (n: Vec3)
    ensures Dot(h.ray.dir, n) <= 0.0
    ensures IsBack(h) ==> n == Neg(h.normal)
    ensures !IsBack(h) ==> n == h.normal
  {
    if IsBack(h) then
      DotScaleRight(h.ray.dir, h.normal, -1.0);
      Scale(h.normal, -1.0)
    else
      h.normal
  }

  function Reflected(h: Hit): Ray {
    Reflect(h.ray, h.t, NormalAbs(h))
  }

  /** The hit nearer along the ray; on a tie, `h` itself. */
  function Closer(h: Hit, other: Hit): (r: Hit)
    ensures r.t <= h.t && r.t <= other.t
    ensures r == h || r == other
    ensures other.t == h.t ==> r == h
  {
    if other.t < h.t then other else h
  }

  /** The hit further along the ray; on a tie, `h` itself. */
  function Farther(h: Hit, other: Hit): (r: Hit)
    ensures r.t >= h.t && r.t >= other.t
    ensures r == h || r == other
    ensures other.t == h.t ==> r == h
  {
    if other.t > h.t then other else h
  }

  function Position(h: Hit): Vec3 {
    At(h.ray, h.t)
  }

  /** The same hit seen along the parent ray `ray`. */
  function MapOntoSuper(h: Hit, ray: Ray): Hit {
    h.(ray := ray, t := TFor(ray, Position(h)))
  }

  /** The hit with its normal reversed. */
  function Flip(h: Hit): Hit {
    h.(normal := Neg(h.normal))
  }

  /** The rest of the ray, started just past the hit. */
  function AfterT(h: Hit): Ray {
    From(h.ray, h.t + Nudge)
  }

  /** Flipping twice is the identity, and it turns front faces into back faces
      except for grazing hits. */
  lemma FlipInvolution(h: Hit)
    ensures Flip(Flip(h)) == h
    ensures Flip(h).ray == h.ray && Flip(h).t == h.t && Position(Flip(h)) == Position(h)
    ensures IsBack(Flip(h)) <==> Dot(h.ray.dir, h.normal) < 0.0
  {
    assert Dot(h.ray.dir, Neg(h.normal)) == -Dot(h.ray.dir, h.normal);
  }

  /** A hit found on the sub-ray `From(ray, s)` maps onto `ray` at the same
      point, at parameter `s + t * (1 - s)`. */
  lemma MapOntoSuperOfFrom(h: Hit, ray: Ray, s: real)
    requires h.ray == From(ray, s)
    requires LengthSquared(ray) != 0.0
    ensures MapOntoSuper(h, ray).t == Compose(s, h.t)
    ensures Position(MapOntoSuper(h, ray)) == Position(h)
    ensures MapOntoSuper(h, ray).normal == h.normal
    ensures MapOntoSuper(h, ray).material == h.material
  {
    FromAt(ray, s, h.t);
    TForAt(ray, Compose(s, h.t));
  }

  /** Mapping a hit onto its own ray changes nothing. */
  lemma MapOntoSuperSelf(h: Hit)
    requires LengthSquared(h.ray) != 0.0
    ensures MapOntoSuper(h, h.ray) == h
  {
    TForAt(h.ray, h.t);
  }
}
