/** The progressive accumulation buffer: one (colour, albedo, normal) sample
    per pixel, blended toward every new frame with weight `1 / spp` so that it
    holds the running mean of all frames merged so far. */
module Progressive {
  import opened Vectors
  import opened Colors

  /** One pixel's triple: colour, albedo and normal. */
  datatype Sample = Sample(color: Color, albedo: Color, normal: Vec3)

  /** `Default::default()` for the triple: all zero. */
  function Empty(): Sample {
    Sample(Black, Black, Zero)
  }

  function SampleAdd(a: Sample, b: Sample): Sample {
    Sample(Colors.Add(a.color, b.color), Colors.Add(a.albedo, b.albedo), Vectors.Add(a.normal, b.normal))
  }

  function SampleScale(a: Sample, k: real): Sample {
    Sample(Colors.Scale(a.color, k), Colors.Scale(a.albedo, k), Vectors.Scale(a.normal, k))
  }

  /** One entry's update: every component of `s` lerped toward `f` by `t`
      (`lerp_mut` on the two colours, `lerp` on the normal). */
  function Blend(s: Sample, f: Sample, t: real): Sample {
    Sample(Colors.Lerp(s.color, f.color, t), Colors.Lerp(s.albedo, f.albedo, t), Vectors.Lerp(s.normal, f.normal, t))
  }

  /** Every entry of `a` blended with the matching entry of `frame`. */
  function Merged(a: seq<Sample>, frame: seq<Sample>, t: real): (r: seq<Sample>)
    requires |a| == |frame|
    ensures |r| == |a|
    decreases |a|
  {
    var n := |a|;
    if n == 0 then []
    else Merged(a[..n - 1], frame[..n - 1], t) + [Blend(a[n - 1], frame[n - 1], t)]
  }

  lemma {:induction false} MergedAt(a: seq<Sample>, frame: seq<Sample>, t: real, i: nat)
    requires |a| == |frame| && i < |a|
    ensures Merged(a, frame, t)[i] == Blend(a[i], frame[i], t)
    decreases |a|
  {
    var n := |a|;
    if i < n - 1 {
      MergedAt(a[..n - 1], frame[..n - 1], t, i);
    }
  }

  /** Merging one more entry appends its blend. */
  lemma MergedSnoc(a: seq<Sample>, frame: seq<Sample>, t: real, i: nat)
    requires |a| == |frame| && i < |a|
    ensures Merged(a[..i + 1], frame[..i + 1], t) == Merged(a[..i], frame[..i], t) + [Blend(a[i], frame[i], t)]
  {
    assert a[..i + 1][..i] == a[..i];
    assert frame[..i + 1][..i] == frame[..i];
  }

  /** `len` copies of the empty sample. */
  function Fresh(len: nat): (r: seq<Sample>)
    ensures |r| == len
    ensures forall i :: 0 <= i < len ==> r[i] == Empty()
  {
    if len == 0 then [] else Fresh(len - 1) + [Empty()]
  }

  /** All frames have `len` entries. */
  predicate Sized(frames: seq<seq<Sample>>, len: nat) {
    forall j :: 0 <= j < |frames| ==> |frames[j]| == len
  }

  /** The buffer's contents after merging `frames` in order into a fresh
      buffer of `len` entries: the n-th merge uses the weight `1 / n`. */
  function Accumulated(frames: seq<seq<Sample>>, len: nat): (r: seq<Sample>)
    requires Sized(frames, len)
    ensures |r| == len
    decreases |frames|
  {
    if |frames| == 0 then Fresh(len)
    else
      var n := |frames|;
      Merged(Accumulated(frames[..n - 1], len), frames[n - 1], 1.0 / (n as real))
  }

  /** The samples the frames hold at pixel `i`, in merge order. */
  function Column(frames: seq<seq<Sample>>, i: nat): (c: seq<Sample>)
    requires forall j :: 0 <= j < |frames| ==> i < |frames[j]|
    ensures |c| == |frames|
  {
    seq(|frames|, j requires 0 <= j < |frames| => frames[j][i])
  }

  function Sum(xs: seq<Sample>): Sample
    decreases |xs|
  {
    if |xs| == 0 then Empty() else SampleAdd(Sum(xs[..|xs| - 1]), xs[|xs| - 1])
  }

  /** The arithmetic mean of a non-empty list of samples. */
  function Mean(xs: seq<Sample>): Sample
    requires |xs| > 0
  {
    SampleScale(Sum(xs), 1.0 / (|xs| as real))
  }

  // ---------------------------------------------------------------------
  // The running mean

  /** After at least one merge, every entry of the buffer is the arithmetic
      mean of the samples the merged frames hold at that pixel. */
  lemma {:induction false} AccumulatedIsMean(frames: seq<seq<Sample>>, len: nat, i: nat)
    requires Sized(frames, len) && |frames| > 0 && i < len
    ensures Accumulated(frames, len)[i] == Mean(Column(frames, i))
    decreases |frames|
  {
    var n := |frames|;
    var init := frames[..n - 1];
    var last := frames[n - 1];
    var col := Column(frames, i);
    assert Column(init, i) + [last[i]] == col;
    var t := 1.0 / (n as real);
    MergedAt(Accumulated(init, len), last, t, i);
    if n == 1 {
      assert t == 1.0;
      BlendOne(Empty(), last[i]);
      SingleMean(last[i]);
    } else {
      AccumulatedIsMean(init, len, i);
      MeanStep(Column(init, i), last[i]);
    }
  }

  lemma SingleMean(x: Sample)
    ensures Mean([x]) == x
  {
    assert [x][..0] == [];
    assert Sum([x]) == SampleAdd(Empty(), x);
  }

  /** Blending the mean of `xs` toward `y` with weight `1 / (|xs| + 1)` gives
      the mean of `xs + [y]`. */
  lemma MeanStep(xs: seq<Sample>, y: Sample)
    requires |xs| > 0
    ensures Blend(Mean(xs), y, 1.0 / ((|xs| + 1) as real)) == Mean(xs + [y])
  {
    var m := |xs| as real;
    var w := 1.0 / m;
    var t := 1.0 / (m + 1.0);
    var u := 1.0 - t;
    assert (xs + [y])[..|xs|] == xs;
    var s := Sum(xs);
    assert Sum(xs + [y]) == SampleAdd(s, y);
    WeightStep(m, w, t, u);
    ColorStep(s.color, y.color, w, t, u);
    ColorStep(s.albedo, y.albedo, w, t, u);
    VecStep(s.normal, y.normal, w, t, u);
  }

  /** `(1/m) (1 - 1/(m+1)) == 1/(m+1)`. */
  lemma WeightStep(m: real, w: real, t: real, u: real)
    requires m > 0.0 && w == 1.0 / m && t == 1.0 / (m + 1.0) && u == 1.0 - t
    ensures w * u == t
  {
    assert t * (m + 1.0) == 1.0;
    assert u == m * t;
    assert w * m == 1.0;
    assert w * (m * t) == (w * m) * t;
  }

  lemma ColorStep(s: Color, y: Color, w: real, t: real, u: real)
    requires w * u == t && u == 1.0 - t
    ensures Colors.Lerp(Colors.Scale(s, w), y, t) == Colors.Scale(Colors.Add(s, y), t)
  {
    Colors.LerpWith(Colors.Scale(s, w), y, t, u);
    Colors.ScaleScale(s, w, u);
    Colors.ScaleAdd(s, y, t);
  }

  lemma VecStep(s: Vec3, y: Vec3, w: real, t: real, u: real)
    requires w * u == t && u == 1.0 - t
    ensures Vectors.Lerp(Vectors.Scale(s, w), y, t) == Vectors.Scale(Vectors.Add(s, y), t)
  {
    Vectors.LerpWith(Vectors.Scale(s, w), y, t, u);
    Vectors.ScaleScale(s, w, u);
    Vectors.ScaleAdd(s, y, t);
  }

  /** The first merge into a fresh buffer copies the frame: its weight is 1. */
  lemma FirstMerge(frame: seq<Sample>)
    ensures Accumulated([frame], |frame|) == frame
  {
    var w := 1.0 / (1 as real);
    assert [frame][..0] == [] && w == 1.0;
    assert Accumulated([frame], |frame|) == Merged(Fresh(|frame|), frame, w);
    MergedWeightOne(Fresh(|frame|), frame);
  }

  /** With weight 1 the merge yields the frame itself. */
  lemma MergedWeightOne(a: seq<Sample>, frame: seq<Sample>)
    requires |a| == |frame|
    ensures Merged(a, frame, 1.0) == frame
  {
    var r := Merged(a, frame, 1.0);
    forall i | 0 <= i < |frame| ensures r[i] == frame[i] {
      MergedAt(a, frame, 1.0, i);
      BlendOne(a[i], frame[i]);
    }
  }

  function Repeat(frame: seq<Sample>, k: nat): (r: seq<seq<Sample>>)
    ensures |r| == k && Sized(r, |frame|)
    ensures forall j :: 0 <= j < k ==> r[j] == frame
  {
    seq(k, _ => frame)
  }

  /** Merging the same frame `k >= 1` times leaves exactly that frame. */
  lemma {:induction false} ConstantFrames(frame: seq<Sample>, k: nat)
    requires k >= 1
    ensures Accumulated(Repeat(frame, k), |frame|) == frame
  {
    if k == 1 {
      assert Repeat(frame, 1) == [frame];
      FirstMerge(frame);
    } else {
      ConstantFrames(frame, k - 1);
      assert Repeat(frame, k)[..k - 1] == Repeat(frame, k - 1);
      var r := Accumulated(Repeat(frame, k), |frame|);
      var t := 1.0 / (k as real);
      assert r == Merged(frame, frame, t);
      forall i | 0 <= i < |frame| ensures r[i] == frame[i] {
        MergedAt(frame, frame, t, i);
        SelfBlend(frame[i], t);
      }
    }
  }

  lemma SelfBlend(s: Sample, t: real)
    ensures Blend(s, s, t) == s
  {
    Colors.LerpEnds(s.color, s.color, t);
    Colors.LerpEnds(s.albedo, s.albedo, t);
    Vectors.LerpEnds(s.normal, s.normal, t);
  }

  lemma BlendOne(s: Sample, f: Sample)
    ensures Blend(s, f, 1.0) == f
  {
    Colors.LerpEnds(s.color, f.color, 1.0);
    Colors.LerpEnds(s.albedo, f.albedo, 1.0);
    Vectors.LerpEnds(s.normal, f.normal, 1.0);
  }

  /** The buffer after one more merge is the previous contents blended
      toward the new frame with weight one over the new count. */
  lemma AccumulatedNext(frames: seq<seq<Sample>>, frame: seq<Sample>, len: nat)
    requires Sized(frames, len) && |frame| == len
    ensures Sized(frames + [frame], len)
    ensures Accumulated(frames + [frame], len)
            == Merged(Accumulated(frames, len), frame, 1.0 / ((|frames| + 1) as real))
  {
    var next := frames + [frame];
    assert next[..|next| - 1] == frames;
  }

  /** The `for_each` of `update`: every entry of `a` blended in place toward
      the matching entry of `frame`. */
  method BlendAll(a: array<Sample>, frame: seq<Sample>, t: real)
    requires |frame| == a.Length
    modifies a
    ensures a[..] == Merged(old(a[..]), frame, t)
  {
    ghost var before := a[..];
    var i := 0;
    while i < a.Length
      invariant 0 <= i <= a.Length
      invariant a[..i] == Merged(before[..i], frame[..i], t)
      invariant forall j :: i <= j < a.Length ==> a[j] == before[j]
    {
      MergedSnoc(before, frame, t, i);
      a[i] := Blend(a[i], frame[i], t);
      assert a[..i + 1] == a[..i] + [a[i]];
      i := i + 1;
    }
    assert before[..i] == before && frame[..i] == frame && a[..i] == a[..];
  }

  // ---------------------------------------------------------------------
  // The buffer

  class ProgressiveBuffer {
    var combined: array<Sample>
    var spp: nat
    /** The frames merged so far, oldest first. */
    ghost var frames: seq<seq<Sample>>

    ghost predicate Valid()
      reads this, combined
    {
      && spp == |frames|
      && Sized(frames, combined.Length)
      && combined[..] == Accumulated(frames, combined.Length)
    }

    /** `new`: `width * height` zero entries and no samples. */
    constructor (width: nat, height: nat)
      ensures Valid() && fresh(combined)
      ensures combined.Length == width * height && spp == 0 && frames == []
      ensures forall i :: 0 <= i < combined.Length ==> combined[i] == Empty()
    {
      combined := new Sample[width * height](_ => Empty());
      spp := 0;
      frames := [];
    }

    /** `update`: the frame must have one entry per pixel (the source asserts
        it); the count goes up by one and every entry is blended toward the
        frame with weight `1 / spp`. */
    method Update(frame: seq<Sample>)
      requires Valid()
      requires |frame| == combined.Length
      modifies this, combined
      ensures Valid() && combined == old(combined)
      ensures spp == old(spp) + 1 && frames == old(frames) + [frame]
      ensures combined[..] == Merged(old(combined[..]), frame, 1.0 / (spp as real))
    {
      ghost var next := frames + [frame];
      AccumulatedNext(frames, frame, combined.Length);
      spp := spp + 1;
      var t := 1.0 / (spp as real);
      assert Accumulated(next, combined.Length) == Merged(combined[..], frame, t);
      BlendAll(combined, frame, t);
      frames := next;
    }

    /** `spp`: the number of frames merged. */
    function Spp(): (n: nat)
      reads this, combined
      requires Valid()
      ensures n == |frames|
    {
      spp
    }

    /** `as_ref`: the stored triples, which are the accumulated frames. */
    function AsRef(): (s: seq<Sample>)
      reads this, combined
      requires Valid()
      ensures s == Accumulated(frames, combined.Length)
      ensures spp > 0 ==> forall i :: 0 <= i < |s| ==> s[i] == Mean(Column(frames, i))
    {
      MeansAt(frames, combined.Length);
      combined[..]
    }
  }

  lemma MeansAt(frames: seq<seq<Sample>>, len: nat)
    requires Sized(frames, len)
    ensures |frames| > 0 ==> forall i :: 0 <= i < len ==> Accumulated(frames, len)[i] == Mean(Column(frames, i))
  {
    if |frames| > 0 {
      forall i | 0 <= i < len ensures Accumulated(frames, len)[i] == Mean(Column(frames, i)) {
        AccumulatedIsMean(frames, len, i);
      }
    }
  }
}
