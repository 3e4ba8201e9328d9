/** The gradient test image: one colour per pixel, rows from the top
    (`y = height - 1`) down to the bottom, red growing left to right, green
    growing bottom to top, blue fixed at 0.25. */
module Pattern {
  import opened Colors

  /** The colour of pixel `(x, y)`. */
  function Pixel(width: nat, height: nat, x: nat, y: nat): Color
    requires width >= 2 && height >= 2
  {
    Color((x as real) / ((width - 1) as real), (y as real) / ((height - 1) as real), 0.25)
  }

  /** Where pixel `(x, y)` sits in the output: rows are emitted top row
      first, each from left to right. */
  function Index(width: nat, height: nat, x: nat, y: nat): int
    requires y < height
  {
    (height - 1 - y) * width + x
  }

  /** `test_pattern`.  A width or height of exactly 1 divides zero by zero
      in floating point (NaN), which this model does not represent. */
  method TestPattern(width: nat, height: nat) returns (arr: seq<Color>)
    requires width != 1 && height != 1
    ensures |arr| == width * height
    ensures forall y: nat, x: nat :: y < height && x < width ==>
              0 <= Index(width, height, x, y) < |arr| && arr[Index(width, height, x, y)] == Pixel(width, height, x, y)
    ensures forall k :: 0 <= k < |arr| ==> InUnit(arr[k])
    ensures width >= 2 && height >= 2 ==> arr[0] == Color(0.0, 1.0, 0.25) && arr[|arr| - 1] == Color(1.0, 0.0, 0.25)
  {
    arr := [];
    var y := height;
    while y > 0
      invariant 0 <= y <= height
      invariant |arr| == (height - y) * width
      invariant forall yy: nat, xx: nat :: y <= yy < height && xx < width ==>
                  0 <= Index(width, height, xx, yy) < |arr| && arr[Index(width, height, xx, yy)] == Pixel(width, height, xx, yy)
      invariant forall k :: 0 <= k < |arr| ==> InUnit(arr[k])
    {
      y := y - 1;
      ghost var done := arr;
      var x := 0;
      while x < width
        invariant 0 <= x <= width
        invariant |arr| == (height - 1 - y) * width + x
        invariant arr[..|done|] == done
        invariant forall xx: nat :: xx < x ==>
                    Index(width, height, xx, y) < |arr| && arr[Index(width, height, xx, y)] == Pixel(width, height, xx, y)
        invariant forall k :: 0 <= k < |arr| ==> InUnit(arr[k])
      {
        var r := (x as real) / ((width - 1) as real);
        var g := (y as real) / ((height - 1) as real);
        var b := 0.25;
        PixelInUnit(width, height, x, y);
        arr := arr + [Color(r, g, b)];
        x := x + 1;
      }
      RowsGrow(width, height, y);
      forall yy: nat, xx: nat | y < yy < height && xx < width
        ensures 0 <= Index(width, height, xx, yy) < |arr| && arr[Index(width, height, xx, yy)] == Pixel(width, height, xx, yy)
      {
        IndexBelow(width, height, xx, yy, y + 1);
        assert arr[Index(width, height, xx, yy)] == arr[..|done|][Index(width, height, xx, yy)];
      }
    }
    if width >= 2 && height >= 2 {
      CornerIndices(width, height);
      CornerColors(width, height);
      assert arr[Index(width, height, 0, height - 1)] == Pixel(width, height, 0, height - 1);
      assert arr[Index(width, height, width - 1, 0)] == Pixel(width, height, width - 1, 0);
    }
  }

  /** Every pixel's colour lies in [0, 1]. */
  lemma PixelInUnit(width: nat, height: nat, x: nat, y: nat)
    requires width >= 2 && height >= 2 && x < width && y < height
    ensures InUnit(Pixel(width, height, x, y))
  {
    FractionInUnit(x, width - 1);
    FractionInUnit(y, height - 1);
  }

  lemma FractionInUnit(n: nat, d: nat)
    requires 0 < d && n <= d
    ensures 0.0 <= (n as real) / (d as real) <= 1.0
  {
  }

  /** The top-left pixel comes first in the output and the bottom-right one
      last. */
  lemma CornerIndices(width: nat, height: nat)
    requires width >= 2 && height >= 2
    ensures Index(width, height, 0, height - 1) == 0
    ensures Index(width, height, width - 1, 0) == width * height - 1
  {
    RowsGrow(width, height, 0);
  }

  /** The top-left pixel is `(0, 1, 0.25)` and the bottom-right one is
      `(1, 0, 0.25)`. */
  lemma CornerColors(width: nat, height: nat)
    requires width >= 2 && height >= 2
    ensures Pixel(width, height, 0, height - 1) == Color(0.0, 1.0, 0.25)
    ensures Pixel(width, height, width - 1, 0) == Color(1.0, 0.0, 0.25)
  {
    SelfQuotient(width - 1);
    SelfQuotient(height - 1);
  }

  lemma SelfQuotient(d: nat)
    requires 0 < d
    ensures (d as real) / (d as real) == 1.0
  {
  }

  /** A pixel in a row emitted before row `y` lies before that row. */
  lemma IndexBelow(width: nat, height: nat, x: nat, yy: nat, y: nat)
    requires y <= yy < height && x < width
    ensures 0 <= Index(width, height, x, yy) < (height - y) * width
  {
    var before := height - 1 - yy;
    assert before + 1 <= height - y;
    assert before * width + width == (before + 1) * width;
    MulMono(before + 1, height - y, width);
  }

  lemma MulMono(a: nat, b: nat, w: nat)
    requires a <= b
    ensures a * w <= b * w
  {
  }

  lemma RowsGrow(width: nat, height: nat, y: nat)
    requires y < height
    ensures (height - 1 - y) * width + width == (height - y) * width
  {
  }
}
