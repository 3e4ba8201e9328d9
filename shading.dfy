/** The path-tracing integrator: `HitResult::get_color` and the `color`
    rule of each material, which shade a hit by tracing one further ray
    through the scene and combining its colour with the material's albedo.

    The random unit vectors the materials draw (`Lambertian::random_vec`)
    come from a tape `random`, read at a cursor `k` that each draw advances.
    A back-face portal hands the ray on without spending a reflection, so
    termination cannot rest on the reflection budget alone: such pass-throughs
    spend a separate budget `passes`, restored to `maxPasses` whenever a
    reflection is spent, and a pass-through with none left is black. */
module Shading {
  import opened Options
  import opened Vectors
  import opened Rays
  import opened Colors
  import opened Materials
  import opened Hits
  import opened Surfaces

  /** The scene being rendered, the square root, the random tape, and the
      bound on consecutive back-face portal passes. */
  datatype Tracer = Tracer(scene: Hittable, sqrt: real -> real, random: nat -> Vec3, maxPasses: nat)

  /** `HitResult::get_color`: black once the reflections are spent or when
      nothing is hit, else the colour of the hit material. */
  function GetColor(tr: Tracer, result: Option<Hit>, reflections: nat, passes: nat, k: nat): (c: Color)
    ensures reflections == 0 || result.None? ==> c == Black
    decreases reflections, passes, 2
  {
    if reflections == 0 then Black
    else
      match result
      case None => Black
      case Some(h) => MaterialColor(tr, h, reflections, passes, k)
  }

  /** `Material::color` of the hit's material.  Only reached with a
      reflection left, so every `reflections - 1` below stays a natural. */
  function MaterialColor(tr: Tracer, h: Hit, reflections: nat, passes: nat, k: nat): Color
    requires reflections >= 1
    decreases reflections, passes, 1
  {
    match h.material
    case Lambertian(a) =>
      Mul(LambertianColor(tr, h, reflections, k), a.color)
    case Glossy(a) =>
      if tr.random(k).y > -0.5 then
        Mul(LambertianColor(tr, h, reflections, k + 1), a.color)
      else
        GetColor(tr, tr.scene.trace(Reflected(h)), reflections - 1, tr.maxPasses, k + 1)
    case Metal(a, roughness) =>
      var bent := h.(normal := MetalNormal(h.normal, tr.random(k), roughness, tr.sqrt));
      Mul(GetColor(tr, tr.scene.trace(Reflected(bent)), reflections - 1, tr.maxPasses, k + 1), a.color)
    case Emissive(a, intensity) =>
      Colors.Add(LambertianColor(tr, h, reflections, k), Colors.Scale(a.color, intensity))
    case Portal(target) =>
      if IsBack(h) then
        if passes == 0 then Black
        else GetColor(tr, tr.scene.trace(PortalCut(h)), reflections, passes - 1, k)
      else
        GetColor(tr, tr.scene.trace(PortalRay(h, target)), reflections - 1, tr.maxPasses, k)
    case Mapper =>
      GetColor(tr, tr.scene.trace(MapperRay(h, tr.sqrt)), reflections - 1, tr.maxPasses, k)
  }

  /** `Lambertian::color` (the static bounce): the colour seen along a
      diffuse bounce drawn at cursor `k`, with one reflection fewer. */
  function LambertianColor(tr: Tracer, h: Hit, reflections: nat, k: nat): Color
    requires reflections >= 1
    decreases reflections, 0, 0
  {
    GetColor(tr, tr.scene.trace(LambertianBounce(h, tr.random(k), tr.sqrt)), reflections - 1, tr.maxPasses, k + 1)
  }

  /** The diffuse bounce: from just off the surface on the incoming side,
      towards the facing normal plus the random vector `rv`, as long as the
      rest of the incoming ray. */
  function LambertianBounce(h: Hit, rv: Vec3, sqrt: real -> real): Ray {
    var normal := NormalAbs(h);
    Ray(Vectors.Add(Position(h), Vectors.Scale(normal, Nudge)),
        Toward(normal, rv, RemainingLength(h, sqrt), sqrt))
  }

  /** The length of the incoming ray still left after the hit. */
  function RemainingLength(h: Hit, sqrt: real -> real): real {
    Length(h.ray, sqrt) * (1.0 - h.t)
  }

  /** `(n + rv).normalized() * length` */
  function Toward(n: Vec3, rv: Vec3, length: real, sqrt: real -> real): Vec3 {
    Vectors.Scale(Normalized(Vectors.Add(n, rv), sqrt), length)
  }

  /** Metal's perturbed normal: the stored normal plus `rv` times the
      roughness, normalised. */
  function MetalNormal(normal: Vec3, rv: Vec3, roughness: real, sqrt: real -> real): Vec3 {
    Normalized(Vectors.Add(normal, Vectors.Scale(rv, roughness)), sqrt)
  }

  /** The rest of the hit ray, from just past the hit. */
  function PortalCut(h: Hit): Ray {
    From(h.ray, h.t + Nudge)
  }

  /** The rest of the hit ray carried through the portal: origin moved by
      the target transform, direction turned by its rotation. */
  function PortalRay(h: Hit, target: Pos): Ray {
    var cut := PortalCut(h);
    Ray(target.transform(cut.pos), target.rotate(cut.dir))
  }

  /** The mapper's ray: from just off the surface along the stored normal
      (not the facing one), as long as the reflected ray. */
  function MapperRay(h: Hit, sqrt: real -> real): Ray {
    Ray(Vectors.Add(Position(h), Vectors.Scale(h.normal, Nudge)),
        Vectors.Scale(h.normal, Length(Reflected(h), sqrt)))
  }

  // ---------------------------------------------------------------------
  // Geometry of the spawned rays

  /** The diffuse bounce starts on the side the ray came from. */
  lemma LambertianBounceSide(h: Hit, rv: Vec3, sqrt: real -> real)
    ensures Dot(Vectors.Sub(LambertianBounce(h, rv, sqrt).pos, Position(h)), h.ray.dir) <= 0.0
  {
    var n := NormalAbs(h);
    assert Vectors.Sub(LambertianBounce(h, rv, sqrt).pos, Position(h)) == Vectors.Scale(n, Nudge);
    DotScaleLeft(n, h.ray.dir, Nudge);
    assert Dot(n, h.ray.dir) == Dot(h.ray.dir, n);
  }

  /** When its direction is defined, the diffuse bounce is as long as the
      rest of the incoming ray. */
  lemma LambertianBounceLength(h: Hit, rv: Vec3, sqrt: real -> real)
    requires ExactSqrt(sqrt)
    requires h.t <= 1.0
    requires MagSq(Vectors.Add(NormalAbs(h), rv)) > 0.0
    ensures Length(LambertianBounce(h, rv, sqrt), sqrt) == Length(h.ray, sqrt) * (1.0 - h.t)
  {
    var len := RemainingLength(h, sqrt);
    RemainingNonNegative(h, sqrt);
    TowardLength(NormalAbs(h), rv, len, sqrt);
  }

  lemma RemainingNonNegative(h: Hit, sqrt: real -> real)
    requires ExactSqrt(sqrt)
    requires h.t <= 1.0
    ensures 0.0 <= RemainingLength(h, sqrt)
  {
    assert 0.0 <= MagSq(h.ray.dir);
    NonNegProduct(Length(h.ray, sqrt), 1.0 - h.t);
  }

  /** Towards a non-zero `n + rv`, a vector of non-negative length `len` has
      that magnitude. */
  lemma TowardLength(n: Vec3, rv: Vec3, len: real, sqrt: real -> real)
    requires ExactSqrt(sqrt)
    requires MagSq(Vectors.Add(n, rv)) > 0.0 && 0.0 <= len
    ensures Mag(Toward(n, rv, len, sqrt), sqrt) == len
  {
    NormalizedUnit(Vectors.Add(n, rv), sqrt);
    MagScale(Normalized(Vectors.Add(n, rv), sqrt), len, sqrt);
  }

  lemma NonNegProduct(a: real, b: real)
    requires 0.0 <= a && 0.0 <= b
    ensures 0.0 <= a * b
  {
  }

  /** With no roughness, a unit normal is kept as it is. */
  lemma MetalSmooth(normal: Vec3, rv: Vec3, sqrt: real -> real)
    requires ExactSqrt(sqrt) && MagSq(normal) == 1.0
    ensures MetalNormal(normal, rv, 0.0, sqrt) == normal
  {
    assert Vectors.Add(normal, Vectors.Scale(rv, 0.0)) == normal;
    NormalizedOfUnit(normal, sqrt);
  }

  /** The perturbed normal has unit length unless the perturbation cancels
      the normal exactly. */
  lemma MetalNormalUnit(normal: Vec3, rv: Vec3, roughness: real, sqrt: real -> real)
    requires ExactSqrt(sqrt)
    requires MagSq(Vectors.Add(normal, Vectors.Scale(rv, roughness))) > 0.0
    ensures MagSq(MetalNormal(normal, rv, roughness, sqrt)) == 1.0
  {
    NormalizedUnit(Vectors.Add(normal, Vectors.Scale(rv, roughness)), sqrt);
  }

  /** The portal's cut starts `Nudge` past the hit on the hit ray. */
  lemma PortalCutStart(h: Hit)
    ensures PortalCut(h).pos == At(h.ray, h.t + Nudge)
    ensures At(PortalCut(h), 1.0) == At(h.ray, 1.0)
  {
    FromAt(h.ray, h.t + Nudge, 1.0);
  }

  /** Off a unit normal, the mapper's ray is as long as the reflected ray. */
  lemma MapperRayLength(h: Hit, sqrt: real -> real)
    requires ExactSqrt(sqrt) && MagSq(h.normal) == 1.0
    ensures Length(MapperRay(h, sqrt), sqrt) == Length(Reflected(h), sqrt)
  {
    var l := Length(Reflected(h), sqrt);
    MagScale(h.normal, l, sqrt);
    SqrtUnique(sqrt, 1.0, 1.0);
    assert MagSq(Reflected(h).dir) >= 0.0;
  }

  // ---------------------------------------------------------------------
  // Light transport

  /** The scene never reports a hit on an emissive material. */
  ghost predicate NoLights(tr: Tracer) {
    forall ray :: tr.scene.trace(ray).Some? ==> !tr.scene.trace(ray).value.material.Emissive?
  }

  /** Without light sources every path is black. */
  lemma {:induction false} DarkScene(tr: Tracer, result: Option<Hit>, reflections: nat, passes: nat, k: nat)
    requires NoLights(tr)
    requires result.None? || !result.value.material.Emissive?
    ensures GetColor(tr, result, reflections, passes, k) == Black
    decreases reflections, passes, 1
  {
    if reflections > 0 && result.Some? {
      DarkMaterial(tr, result.value, reflections, passes, k);
    }
  }

  lemma {:induction false} DarkMaterial(tr: Tracer, h: Hit, reflections: nat, passes: nat, k: nat)
    requires NoLights(tr) && !h.material.Emissive? && reflections >= 1
    ensures MaterialColor(tr, h, reflections, passes, k) == Black
    decreases reflections, passes, 0
  {
    var r := reflections - 1;
    match h.material
    case Lambertian(a) =>
      DarkScene(tr, tr.scene.trace(LambertianBounce(h, tr.random(k), tr.sqrt)), r, tr.maxPasses, k + 1);
    case Glossy(a) =>
      DarkScene(tr, tr.scene.trace(LambertianBounce(h, tr.random(k + 1), tr.sqrt)), r, tr.maxPasses, k + 2);
      DarkScene(tr, tr.scene.trace(Reflected(h)), r, tr.maxPasses, k + 1);
    case Metal(a, roughness) =>
      var bent := h.(normal := MetalNormal(h.normal, tr.random(k), roughness, tr.sqrt));
      DarkScene(tr, tr.scene.trace(Reflected(bent)), r, tr.maxPasses, k + 1);
    case Portal(target) =>
      if IsBack(h) {
        if passes > 0 {
          DarkScene(tr, tr.scene.trace(PortalCut(h)), reflections, passes - 1, k);
        }
      } else {
        DarkScene(tr, tr.scene.trace(PortalRay(h, target)), r, tr.maxPasses, k);
      }
    case Mapper =>
      DarkScene(tr, tr.scene.trace(MapperRay(h, tr.sqrt)), r, tr.maxPasses, k);
  }

  /** A material within the bounds of a scene whose lights emit at most `l`:
      its albedo lies in [0, 1], and a light's intensity in [0, l]. */
  predicate Dim(m: Material, l: real) {
    InUnit(MaterialAlbedo(m)) && (m.Emissive? ==> 0.0 <= m.intensity <= l)
  }

  ghost predicate SceneDim(tr: Tracer, l: real) {
    forall ray :: tr.scene.trace(ray).Some? ==> Dim(tr.scene.trace(ray).value.material, l)
  }

  /** Every component of `c` lies in [0, bound]. */
  predicate Within(c: Color, bound: real) {
    0.0 <= c.r <= bound && 0.0 <= c.g <= bound && 0.0 <= c.b <= bound
  }

  /** With albedos in [0, 1] and lights no brighter than `l`, a path with `n`
      reflections gathers a colour in [0, n l]: each reflection adds at most
      one light's emission, and no material amplifies what it reflects. */
  lemma {:induction false} RadianceBounded(tr: Tracer, l: real, result: Option<Hit>, reflections: nat, passes: nat, k: nat, bound: real)
    requires 0.0 <= l && SceneDim(tr, l) && bound == reflections as real * l
    requires result.None? || Dim(result.value.material, l)
    ensures Within(GetColor(tr, result, reflections, passes, k), bound)
    decreases reflections, passes, 2
  {
    NonNegProduct(reflections as real, l);
    if reflections > 0 && result.Some? {
      MaterialRadiance(tr, l, result.value, reflections, passes, k, bound);
    }
  }

  lemma {:induction false} MaterialRadiance(tr: Tracer, l: real, h: Hit, reflections: nat, passes: nat, k: nat, bound: real)
    requires 0.0 <= l && SceneDim(tr, l) && Dim(h.material, l) && reflections >= 1
    requires bound == reflections as real * l
    ensures Within(MaterialColor(tr, h, reflections, passes, k), bound)
    decreases reflections, passes, 1
  {
    var r := reflections - 1;
    var below := r as real * l;
    BudgetStep(reflections, l, below, bound);
    match h.material
    case Lambertian(a) =>
      LambertianRadiance(tr, l, h, reflections, k, below);
      WithinMul(LambertianColor(tr, h, reflections, k), a.color, below, bound);
    case Glossy(a) =>
      if tr.random(k).y > -0.5 {
        LambertianRadiance(tr, l, h, reflections, k + 1, below);
        WithinMul(LambertianColor(tr, h, reflections, k + 1), a.color, below, bound);
      } else {
        RadianceBounded(tr, l, tr.scene.trace(Reflected(h)), r, tr.maxPasses, k + 1, below);
      }
    case Metal(a, roughness) =>
      var bent := h.(normal := MetalNormal(h.normal, tr.random(k), roughness, tr.sqrt));
      var next := tr.scene.trace(Reflected(bent));
      RadianceBounded(tr, l, next, r, tr.maxPasses, k + 1, below);
      WithinMul(GetColor(tr, next, r, tr.maxPasses, k + 1), a.color, below, bound);
    case Emissive(a, intensity) =>
      var bounce := LambertianColor(tr, h, reflections, k);
      var glow := Colors.Scale(a.color, intensity);
      LambertianRadiance(tr, l, h, reflections, k, below);
      WithinScale(a.color, intensity, l);
      WithinAdd(bounce, glow, below, l);
      assert MaterialColor(tr, h, reflections, passes, k) == Colors.Add(bounce, glow);
    case Portal(target) =>
      if IsBack(h) {
        if passes > 0 {
          RadianceBounded(tr, l, tr.scene.trace(PortalCut(h)), reflections, passes - 1, k, bound);
        }
      } else {
        RadianceBounded(tr, l, tr.scene.trace(PortalRay(h, target)), r, tr.maxPasses, k, below);
      }
    case Mapper =>
      RadianceBounded(tr, l, tr.scene.trace(MapperRay(h, tr.sqrt)), r, tr.maxPasses, k, below);
  }

  lemma {:induction false} LambertianRadiance(tr: Tracer, l: real, h: Hit, reflections: nat, k: nat, below: real)
    requires 0.0 <= l && SceneDim(tr, l) && reflections >= 1
    requires below == (reflections - 1) as real * l
    ensures Within(LambertianColor(tr, h, reflections, k), below)
    decreases reflections, 0, 0
  {
    var next := tr.scene.trace(LambertianBounce(h, tr.random(k), tr.sqrt));
    RadianceBounded(tr, l, next, reflections - 1, tr.maxPasses, k + 1, below);
    assert LambertianColor(tr, h, reflections, k) == GetColor(tr, next, reflections - 1, tr.maxPasses, k + 1);
  }

  /** One reflection more raises the bound by exactly one light. */
  lemma BudgetStep(n: nat, l: real, below: real, bound: real)
    requires n >= 1 && 0.0 <= l
    requires below == (n - 1) as real * l && bound == n as real * l
    ensures below + l == bound && 0.0 <= below <= bound
  {
    NonNegProduct((n - 1) as real, l);
  }

  /** Filtering by an albedo in [0, 1] keeps a colour within its bound. */
  lemma WithinMul(c: Color, albedo: Color, bound: real, wider: real)
    requires Within(c, bound) && InUnit(albedo) && bound <= wider
    ensures Within(Mul(c, albedo), wider)
  {
    Attenuate(c.r, albedo.r, bound);
    Attenuate(c.g, albedo.g, bound);
    Attenuate(c.b, albedo.b, bound);
  }

  lemma Attenuate(x: real, a: real, bound: real)
    requires 0.0 <= x <= bound && 0.0 <= a <= 1.0
    ensures 0.0 <= x * a <= bound
  {
    assert x * a <= x * 1.0;
  }

  /** A light's emission stays within its intensity. */
  lemma WithinScale(c: Color, intensity: real, l: real)
    requires InUnit(c) && 0.0 <= intensity <= l
    ensures Within(Colors.Scale(c, intensity), l)
  {
    Attenuate(intensity, c.r, l);
    Attenuate(intensity, c.g, l);
    Attenuate(intensity, c.b, l);
  }

  lemma WithinAdd(c: Color, d: Color, b1: real, b2: real)
    requires Within(c, b1) && Within(d, b2)
    ensures Within(Colors.Add(c, d), b1 + b2)
  {
  }

  /** With one reflection left, a light shows exactly its own emission: its
      diffuse bounce has no reflection left and returns black. */
  lemma EmissiveLastBounce(tr: Tracer, h: Hit, passes: nat, k: nat)
    requires h.material.Emissive?
    ensures GetColor(tr, Some(h), 1, passes, k)
         == Colors.Scale(MaterialAlbedo(h.material), h.material.intensity)
  {
    assert LambertianColor(tr, h, 1, k) == Black;
  }

  /** A back face of a portal costs no reflection: with one reflection left,
      a light seen through it still shows, while the same light seen through
      its front face is out of budget and black. */
  lemma PortalBudget(tr: Tracer, h: Hit, passes: nat, k: nat)
    requires h.material.Portal? && passes >= 1
    requires tr.scene.trace(PortalCut(h)).Some?
    requires tr.scene.trace(PortalCut(h)).value.material.Emissive?
    ensures var light := tr.scene.trace(PortalCut(h)).value.material;
            IsBack(h) ==> GetColor(tr, Some(h), 1, passes, k)
                          == Colors.Scale(MaterialAlbedo(light), light.intensity)
    ensures !IsBack(h) ==> GetColor(tr, Some(h), 1, passes, k) == Black
  {
    if IsBack(h) {
      EmissiveLastBounce(tr, tr.scene.trace(PortalCut(h)).value, passes - 1, k);
    }
  }
}
