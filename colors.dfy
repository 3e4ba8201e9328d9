/** Linear RGB colours (`Color(f64, f64, f64)` of the renderer), their
    componentwise arithmetic, interpolation and luminance. */
module Colors {

  datatype Color = Color(r: real, g: real, b: real)

  const Black := Color(0.0, 0.0, 0.0)
  const White := Color(1.0, 1.0, 1.0)

  function Add(a: Color, c: Color): Color {
    Color(a.r + c.r, a.g + c.g, a.b + c.b)
  }

  function Sub(a: Color, c: Color): Color {
    Color(a.r - c.r, a.g - c.g, a.b - c.b)
  }

  /** Componentwise product (`Color * Color`). */
  function Mul(a: Color, c: Color): Color {
    Color(a.r * c.r, a.g * c.g, a.b * c.b)
  }

  predicate NonZero(c: Color) {
    c.r != 0.0 && c.g != 0.0 && c.b != 0.0
  }

  /** Componentwise quotient (`Color / Color`); a zero component would give an
      IEEE infinity or NaN, which this model does not represent. */
  function Div(a: Color, c: Color): Color
    requires NonZero(c)
  {
    Color(a.r / c.r, a.g / c.g, a.b / c.b)
  }

  /** `Color * f64`. */
  function Scale(a: Color, s: real): Color {
    Color(a.r * s, a.g * s, a.b * s)
  }

  /** `Color / f64`. */
  function DivScalar(a: Color, s: real): Color
    requires s != 0.0
  {
    Color(a.r / s, a.g / s, a.b / s)
  }

  function Splat(n: real): Color {
    Color(n, n, n)
  }

  /** `a * (1 - t) + c * t`. */
  function Lerp(a: Color, c: Color, t: real): Color {
    Add(Scale(a, 1.0 - t), Scale(c, t))
  }

  lemma ScaleScale(a: Color, k: real, l: real)
    ensures Scale(Scale(a, k), l) == Scale(a, k * l)
  {
  }

  lemma ScaleAdd(a: Color, b: Color, k: real)
    ensures Add(Scale(a, k), Scale(b, k)) == Scale(Add(a, b), k)
  {
  }

  /** `Lerp` with its complementary weight `u = 1 - t` named. */
  lemma LerpWith(a: Color, c: Color, t: real, u: real)
    requires u == 1.0 - t
    ensures Lerp(a, c, t) == Add(Scale(a, u), Scale(c, t))
  {
  }

  /** The interpolation starts at `a`, ends at `c`, and stays put between
      equal colours. */
  lemma LerpEnds(a: Color, c: Color, t: real)
    ensures Lerp(a, c, 0.0) == a && Lerp(a, c, 1.0) == c
    ensures Lerp(a, a, t) == a
  {
  }

  /** Relative luminance with the ITU-R BT.709 weights. */
  function Luminance(c: Color): real {
    c.r * 0.2126 + c.g * 0.7152 + c.b * 0.0722
  }

  predicate InUnit(c: Color) {
    0.0 <= c.r <= 1.0 && 0.0 <= c.g <= 1.0 && 0.0 <= c.b <= 1.0
  }

  lemma AddSubInverse(a: Color, c: Color)
    ensures Sub(Add(a, c), c) == a
    ensures Add(Sub(a, c), c) == a
  {
  }

  lemma MulDivInverse(a: Color, c: Color)
    requires NonZero(c)
    ensures Div(Mul(a, c), c) == a
  {
    DivCancel(a.r, c.r);
    DivCancel(a.g, c.g);
    DivCancel(a.b, c.b);
  }

  lemma ScaleDivInverse(a: Color, s: real)
    requires s != 0.0
    ensures DivScalar(Scale(a, s), s) == a
  {
    DivCancel(a.r, s);
    DivCancel(a.g, s);
    DivCancel(a.b, s);
  }

  lemma DivCancel(x: real, s: real)
    requires s != 0.0
    ensures (x * s) / s == x
  {
  }

  /** The weights sum to one, so a grey has its own level as luminance. */
  lemma LuminanceOfSplat(n: real)
    ensures Luminance(Splat(n)) == n
  {
  }

  /** A colour with components in [0, 1] has luminance in [0, 1]. */
  lemma LuminanceInUnit(c: Color)
    requires InUnit(c)
    ensures 0.0 <= Luminance(c) <= 1.0
  {
  }

  /** A colour cell updated in place by the compound assignment operators. */
  class ColorCell {
    var r: real
    var g: real
    var b: real

    function Get(): Color
      reads this
    {
      Color(r, g, b)
    }

    constructor (c: Color)
      ensures Get() == c
    {
      r, g, b := c.r, c.g, c.b;
    }

    /** `+=` */
    method AddAssign(c: Color)
      modifies this
      ensures Get() == Add(old(Get()), c)
    {
      r := r + c.r;
      g := g + c.g;
      b := b + c.b;
    }

    /** `-=` */
    method SubAssign(c: Color)
      modifies this
      ensures Get() == Sub(old(Get()), c)
    {
      r := r - c.r;
      g := g - c.g;
      b := b - c.b;
    }

    /** `*=` with a colour */
    method MulAssign(c: Color)
      modifies this
      ensures Get() == Mul(old(Get()), c)
    {
      r := r * c.r;
      g := g * c.g;
      b := b * c.b;
    }

    /** `/=` with a colour */
    method DivAssign(c: Color)
      requires NonZero(c)
      modifies this
      ensures Get() == Div(old(Get()), c)
    {
      r := r / c.r;
      g := g / c.g;
      b := b / c.b;
    }

    /** `*=` with a scalar */
    method ScaleAssign(s: real)
      modifies this
      ensures Get() == Scale(old(Get()), s)
    {
      r := r * s;
      g := g * s;
      b := b * s;
    }

    /** `/=` with a scalar */
    method DivScalarAssign(s: real)
      requires s != 0.0
      modifies this
      ensures Get() == DivScalar(old(Get()), s)
    {
      r := r / s;
      g := g / s;
      b := b / s;
    }

    /** `lerp_mut`: one shared `1 - t`, each component updated in turn. */
    method LerpMut(c: Color, t: real)
      modifies this
      ensures Get() == Lerp(old(Get()), c, t)
    {
      var oneMinus := 1.0 - t;
      r := r * oneMinus + c.r * t;
      g := g * oneMinus + c.g * t;
      b := b * oneMinus + c.b * t;
    }
  }
}
