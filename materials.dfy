/** The surface materials of the renderer and their albedos.  Each variant
    corresponds to one `Material` implementation; the shading rules that use
    them are in module Shading. */
module Materials {
  import opened Vectors
  import opened Colors

  /** A constant albedo (`Solid`). */
  datatype Albedo = Solid(color: Color)

  datatype Material =
    | Lambertian(albedo: Albedo)
    | Glossy(albedo: Albedo)
    | Metal(albedo: Albedo, roughness: real)
    | Emissive(albedo: Albedo, intensity: real)
    | Portal(target: Pos)
    | Mapper

  /** `Lambertian::solid` */
  function LambertianSolid(c: Color): (m: Material)
    ensures m.Lambertian? && MaterialAlbedo(m) == c
  {
    Lambertian(Solid(c))
  }

  /** `Metal::colored` */
  function MetalColored(c: Color, roughness: real): (m: Material)
    ensures m.Metal? && MaterialAlbedo(m) == c && m.roughness == roughness
  {
    Metal(Solid(c), roughness)
  }

  /** `Metal::new`: an untinted metal. */
  function MetalNew(roughness: real): (m: Material)
    ensures m.Metal? && MaterialAlbedo(m) == White && m.roughness == roughness
  {
    MetalColored(Color(1.0, 1.0, 1.0), roughness)
  }

  function Max(a: real, b: real): real {
    if a < b then b else a
  }

  /** The largest component of `c`, but at least 1. */
  function Brightness(c: Color): (m: real)
    ensures m >= 1.0 && m >= c.r && m >= c.g && m >= c.b
    ensures m == 1.0 || m == c.r || m == c.g || m == c.b
  {
    Max(Max(Max(c.r, c.g), c.b), 1.0)
  }

  /** `Emissive::solid`: the colour is split into an albedo no brighter than 1
      and an intensity. */
  function EmissiveSolid(c: Color): (m: Material)
    ensures m.Emissive? && m.intensity == Brightness(c)
    ensures MaterialAlbedo(m) == DivScalar(c, Brightness(c))
  {
    var k := Brightness(c);
    Emissive(Solid(DivScalar(c, k)), k)
  }

  /** Splitting a colour loses nothing: albedo times intensity is the colour. */
  lemma EmissiveSolidSplit(c: Color)
    ensures EmissiveSolid(c).intensity >= 1.0
    ensures Colors.Scale(MaterialAlbedo(EmissiveSolid(c)), EmissiveSolid(c).intensity) == c
  {
    var k := Brightness(c);
    DivMulCancel(c.r, k);
    DivMulCancel(c.g, k);
    DivMulCancel(c.b, k);
  }

  lemma DivMulCancel(x: real, k: real)
    requires k != 0.0
    ensures (x / k) * k == x
  {
  }

  /** A colour of non-negative components has an albedo in [0, 1]. */
  lemma EmissiveSolidAlbedoInUnit(c: Color)
    requires 0.0 <= c.r && 0.0 <= c.g && 0.0 <= c.b
    ensures InUnit(MaterialAlbedo(EmissiveSolid(c)))
  {
    var k := Brightness(c);
    DivAtMostOne(c.r, k);
    DivAtMostOne(c.g, k);
    DivAtMostOne(c.b, k);
  }

  lemma DivAtMostOne(x: real, k: real)
    requires 0.0 <= x <= k && 0.0 < k
    ensures 0.0 <= x / k <= 1.0
  {
    assert x / k * k == x;
  }

  /** A colour that is not over-bright is kept as the albedo, at intensity 1. */
  lemma EmissiveSolidDim(c: Color)
    requires c.r <= 1.0 && c.g <= 1.0 && c.b <= 1.0
    ensures EmissiveSolid(c).intensity == 1.0
    ensures MaterialAlbedo(EmissiveSolid(c)) == c
  {
  }

  /** The albedo of each material; portals and mappers are white. */
  function MaterialAlbedo(m: Material): (c: Color)
    ensures m.Portal? || m.Mapper? ==> c == White
    ensures !(m.Portal? || m.Mapper?) ==> c == m.albedo.color
  {
    match m
    case Lambertian(a) => a.color
    case Glossy(a) => a.color
    case Metal(a, _) => a.color
    case Emissive(a, _) => a.color
    case Portal(_) => Splat(1.0)
    case Mapper => Splat(1.0)
  }
}
