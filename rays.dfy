/** Rays `pos + dir * t`, where the parameter t runs over [0, 1]: the direction
    vector carries the ray's length. */
module Rays {
  import opened Vectors

  datatype Ray = Ray(pos: Vec3, dir: Vec3)

  /** The offset by which sub-rays start past a surface (`1e-10`). */
  const Nudge: real := 0.0000000001

  function LengthSquared(r: Ray): real {
    MagSq(r.dir)
  }

  function Length(r: Ray, sqrt: real -> real): real {
    Mag(r.dir, sqrt)
  }

  function At(r: Ray, t: real): Vec3 {
    Add(r.pos, Scale(r.dir, t))
  }

  /** The part of `r` from parameter `t` on, reparametrised over [0, 1]. */
  function From(r: Ray, t: real): Ray {
    Ray(At(r, t), Scale(r.dir, 1.0 - t))
  }

  /** The parameter of the projection of `p` onto the ray's line.  A ray of
      zero length, where floating point divides by zero, yields 0. */
  function TFor(r: Ray, p: Vec3): real {
    var l := LengthSquared(r);
    if l == 0.0 then 0.0 else Dot(Sub(p, r.pos), r.dir) / l
  }

  /** The direction after a mirror bounce off a surface with normal `n`: the
      normal component is negated only when `d` runs against `n`. */
  function MirrorDir(d: Vec3, n: Vec3): Vec3 {
    var k := 2.0 * Dot(d, n);
    Sub(d, Scale(n, if k < 0.0 then k else 0.0))
  }

  /** `reflect`: the rest of the ray after `t`, bounced off `n`, started
      `Nudge` further on. */
  function Reflect(r: Ray, t: real, n: Vec3): Ray {
    var rest := From(r, t);
    From(Ray(rest.pos, MirrorDir(rest.dir, n)), Nudge)
  }

  lemma AtZero(r: Ray)
    ensures At(r, 0.0) == r.pos
  {
  }

  lemma FromZero(r: Ray)
    ensures From(r, 0.0) == r
  {
  }

  /** The parameter on `r` of the parameter `s` on the sub-ray `From(r, t)`. */
  function Compose(t: real, s: real): real {
    t + s * (1.0 - t)
  }

  lemma FromAt(r: Ray, t: real, s: real)
    ensures At(From(r, t), s) == At(r, Compose(t, s))
  {
    var u := Compose(t, s);
    assert r.dir.x * t + r.dir.x * (1.0 - t) * s == r.dir.x * u;
    assert r.dir.y * t + r.dir.y * (1.0 - t) * s == r.dir.y * u;
    assert r.dir.z * t + r.dir.z * (1.0 - t) * s == r.dir.z * u;
  }

  /** Sub-rays compose. */
  lemma FromFrom(r: Ray, t: real, s: real)
    ensures From(From(r, t), s) == From(r, Compose(t, s))
  {
    FromAt(r, t, s);
    var u := Compose(t, s);
    assert (1.0 - t) * (1.0 - s) == 1.0 - u;
    assert r.dir.x * (1.0 - t) * (1.0 - s) == r.dir.x * (1.0 - u);
    assert r.dir.y * (1.0 - t) * (1.0 - s) == r.dir.y * (1.0 - u);
    assert r.dir.z * (1.0 - t) * (1.0 - s) == r.dir.z * (1.0 - u);
  }

  /** `t_for` inverts `at` on a ray of non-zero length. */
  lemma TForAt(r: Ray, t: real)
    requires LengthSquared(r) != 0.0
    ensures TFor(r, At(r, t)) == t
  {
    assert Sub(At(r, t), r.pos) == Scale(r.dir, t);
    DotScaleLeft(r.dir, r.dir, t);
    assert Dot(r.dir, r.dir) == LengthSquared(r);
  }

  /** Against a unit normal the mirrored direction never runs against it:
      its normal component is the magnitude of the incoming one. */
  lemma MirrorDirNormal(d: Vec3, n: Vec3)
    requires MagSq(n) == 1.0
    ensures Dot(MirrorDir(d, n), n) == Abs(Dot(d, n))
  {
    var k := 2.0 * Dot(d, n);
    var m := if k < 0.0 then k else 0.0;
    assert Dot(Sub(d, Scale(n, m)), n) == Dot(d, n) - m * Dot(n, n) by {
      DotScaleLeft(n, n, m);
    }
    assert Dot(n, n) == 1.0;
  }

  /** The mirror bounce keeps the tangential part and the length. */
  lemma MirrorDirLength(d: Vec3, n: Vec3)
    requires MagSq(n) == 1.0
    ensures MagSq(MirrorDir(d, n)) == MagSq(d)
  {
    var c := Dot(d, n);
    if 2.0 * c < 0.0 {
      var e := Sub(d, Scale(n, 2.0 * c));
      assert MagSq(e) == MagSq(d) - 4.0 * c * Dot(d, n) + 4.0 * c * c * MagSq(n) by {
        SubScaleSquare(d, n, 2.0 * c);
      }
    }
  }

  lemma SubScaleSquare(d: Vec3, n: Vec3, m: real)
    ensures MagSq(Sub(d, Scale(n, m))) == MagSq(d) - 2.0 * m * Dot(d, n) + m * m * MagSq(n)
  {
  }

  /** A direction already along the normal is not mirrored. */
  lemma MirrorDirAligned(d: Vec3, n: Vec3)
    requires Dot(d, n) >= 0.0
    ensures MirrorDir(d, n) == d
  {
  }

  /** With a unit normal, the reflected ray leaves along the normal's side. */
  lemma ReflectFacesNormal(r: Ray, t: real, n: Vec3)
    requires MagSq(n) == 1.0
    ensures Dot(Reflect(r, t, n).dir, n) >= 0.0
  {
    var rest := From(r, t);
    var m := MirrorDir(rest.dir, n);
    MirrorDirNormal(rest.dir, n);
    DotScaleLeft(m, n, 1.0 - Nudge);
    assert Dot(m, n) >= 0.0;
  }

  /** The reflected ray starts `Nudge` past the hit point, and, off a unit
      normal, keeps the length of the remaining ray scaled by `1 - Nudge`. */
  lemma ReflectStart(r: Ray, t: real, n: Vec3)
    requires MagSq(n) == 1.0
    ensures Reflect(r, t, n).pos == Add(At(r, t), Scale(MirrorDir(From(r, t).dir, n), Nudge))
    ensures LengthSquared(Reflect(r, t, n))
         == (1.0 - Nudge) * (1.0 - Nudge) * LengthSquared(From(r, t))
  {
    var rest := From(r, t);
    MirrorDirLength(rest.dir, n);
    MagSqScale(MirrorDir(rest.dir, n), 1.0 - Nudge);
  }
}
