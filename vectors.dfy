/** Three-dimensional vectors over exact reals (standing in for the f64 `Vec3`
    of the renderer's math library), the square root they need, and the
    opaque rigid transform `Pos`. */
module Vectors {

  datatype Vec3 = Vec3(x: real, y: real, z: real)

  const Zero := Vec3(0.0, 0.0, 0.0)

  function Add(a: Vec3, b: Vec3): Vec3 {
    Vec3(a.x + b.x, a.y + b.y, a.z + b.z)
  }

  function Sub(a: Vec3, b: Vec3): Vec3 {
    Vec3(a.x - b.x, a.y - b.y, a.z - b.z)
  }

  function Scale(a: Vec3, s: real): Vec3 {
    Vec3(a.x * s, a.y * s, a.z * s)
  }

  function Neg(a: Vec3): Vec3 {
    Vec3(-a.x, -a.y, -a.z)
  }

  function Dot(a: Vec3, b: Vec3): real {
    a.x * b.x + a.y * b.y + a.z * b.z
  }

  /** Squared magnitude (`mag_sq`). */
  function MagSq(a: Vec3): (r: real)
    ensures r >= 0.0
  {
    Square(a.x);
    Square(a.y);
    Square(a.z);
    a.x * a.x + a.y * a.y + a.z * a.z
  }

  lemma Square(x: real)
    ensures x * x >= 0.0
  {
    if x != 0.0 {
      SquarePositive(x);
    }
  }

  lemma SquarePositive(x: real)
    requires x != 0.0
    ensures x * x > 0.0
  {
  }

  lemma MulSquare(k: real, m: real)
    ensures (k * m) * (k * m) == (k * k) * (m * m)
  {
  }

  lemma AbsSquare(s: real)
    ensures Abs(s) * Abs(s) == s * s
    ensures 0.0 <= Abs(s)
  {
  }

  function Abs(x: real): real {
    if x < 0.0 then -x else x
  }

  /** `sqrt` is an exact square root on the non-negative reals.  The floating
      point square root is modelled by any function with this property. */
  ghost predicate ExactSqrt(sqrt: real -> real) {
    forall x :: 0.0 <= x ==> 0.0 <= sqrt(x) && sqrt(x) * sqrt(x) == x
  }

  /** Magnitude (`mag`). */
  function Mag(a: Vec3, sqrt: real -> real): real {
    sqrt(MagSq(a))
  }

  /** `normalized()`: the zero vector, which yields NaN components in floating
      point, is returned unchanged. */
  function Normalized(a: Vec3, sqrt: real -> real): Vec3 {
    var m := Mag(a, sqrt);
    if m == 0.0 then a else Scale(a, 1.0 / m)
  }

  /** Linear interpolation `a * (1 - t) + b * t`. */
  function Lerp(a: Vec3, b: Vec3, t: real): Vec3 {
    Add(Scale(a, 1.0 - t), Scale(b, t))
  }

  lemma ScaleScale(a: Vec3, k: real, l: real)
    ensures Scale(Scale(a, k), l) == Scale(a, k * l)
  {
  }

  lemma ScaleAdd(a: Vec3, b: Vec3, k: real)
    ensures Add(Scale(a, k), Scale(b, k)) == Scale(Add(a, b), k)
  {
  }

  /** `Lerp` with its complementary weight `u = 1 - t` named. */
  lemma LerpWith(a: Vec3, b: Vec3, t: real, u: real)
    requires u == 1.0 - t
    ensures Lerp(a, b, t) == Add(Scale(a, u), Scale(b, t))
  {
  }

  /** The interpolation starts at `a`, ends at `b`, and stays put between
      equal vectors. */
  lemma LerpEnds(a: Vec3, b: Vec3, t: real)
    ensures Lerp(a, b, 0.0) == a && Lerp(a, b, 1.0) == b
    ensures Lerp(a, a, t) == a
  {
  }

  /** A rigid transform (position and orientation).  Its implementation is not
      part of this model: it is observed only through these four maps. */
  datatype Pos = Pos(
    translation: Vec3,
    rotate: Vec3 -> Vec3,     // `v.rotated_by(pos.rotation)`, `pos.rotation * v`
    transform: Vec3 -> Vec3,  // `pos * p`
    inverse: Vec3 -> Vec3     // `pos.inversed() * p`
  )

  lemma DotScaleLeft(a: Vec3, b: Vec3, s: real)
    ensures Dot(Scale(a, s), b) == s * Dot(a, b)
  {
  }

  lemma DotScaleRight(a: Vec3, b: Vec3, s: real)
    ensures Dot(a, Scale(b, s)) == s * Dot(a, b)
  {
  }

  lemma MagSqAdd(a: Vec3, b: Vec3)
    ensures MagSq(Add(a, b)) == MagSq(a) + 2.0 * Dot(a, b) + MagSq(b)
  {
  }

  lemma MagSqScale(a: Vec3, s: real)
    ensures MagSq(Scale(a, s)) == s * s * MagSq(a)
  {
  }

  /** The square root of a perfect square is its non-negative root. */
  lemma SqrtUnique(sqrt: real -> real, x: real, r: real)
    requires ExactSqrt(sqrt)
    requires 0.0 <= r && r * r == x
    ensures sqrt(x) == r
  {
    var s := sqrt(x);
    assert 0.0 <= s && s * s == x;
    assert (s - r) * (s + r) == 0.0;
    if s + r == 0.0 {
      assert s == 0.0 && r == 0.0;
    } else {
      assert s - r == 0.0;
    }
  }

  lemma SqrtPositive(sqrt: real -> real, x: real)
    requires ExactSqrt(sqrt)
    requires 0.0 < x
    ensures 0.0 < sqrt(x)
  {
    assert sqrt(x) * sqrt(x) == x;
  }

  lemma ScaledRoot(q: real, m: real, s: real)
    requires 0.0 <= m && m * m == q
    ensures 0.0 <= Abs(s) * m
    ensures (Abs(s) * m) * (Abs(s) * m) == s * s * q
  {
    var k := Abs(s);
    AbsSquare(s);
    MulSquare(k, m);
    assert (k * m) * (k * m) == (s * s) * q;
  }

  /** `|s * a| == |s| * |a|`. */
  lemma MagScale(a: Vec3, s: real, sqrt: real -> real)
    requires ExactSqrt(sqrt)
    ensures Mag(Scale(a, s), sqrt) == Abs(s) * Mag(a, sqrt)
  {
    var m := Mag(a, sqrt);
    var k := Abs(s);
    assert 0.0 <= m && m * m == MagSq(a);
    MagSqScale(a, s);
    ScaledRoot(MagSq(a), m, s);
    SqrtUnique(sqrt, MagSq(Scale(a, s)), k * m);
  }

  /** A non-zero vector normalises to unit length. */
  lemma {:induction false} NormalizedUnit(a: Vec3, sqrt: real -> real)
    requires ExactSqrt(sqrt)
    requires MagSq(a) > 0.0
    ensures MagSq(Normalized(a, sqrt)) == 1.0
    ensures Mag(Normalized(a, sqrt), sqrt) == 1.0
  {
    var m := Mag(a, sqrt);
    SqrtPositive(sqrt, MagSq(a));
    assert m * m == MagSq(a);
    MagSqScale(a, 1.0 / m);
    assert (1.0 / m) * (1.0 / m) * (m * m) == 1.0;
    SqrtUnique(sqrt, 1.0, 1.0);
  }

  /** Normalising a unit vector leaves it unchanged. */
  lemma NormalizedOfUnit(a: Vec3, sqrt: real -> real)
    requires ExactSqrt(sqrt)
    requires MagSq(a) == 1.0
    ensures Normalized(a, sqrt) == a
  {
    SqrtUnique(sqrt, 1.0, 1.0);
  }
}
