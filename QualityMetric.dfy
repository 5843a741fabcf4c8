/**
  The integer core of `PSNR`: the sum of squared absolute differences between
  two grids (`absdiff`, then `mul`, then `sum`), and the branch that returns
  the sentinel 0 when that sum is zero. The decibel value itself,
  10 * log10(255 * 255 / mse), is floating point and is represented here only
  by the two integers it is computed from.
 */
module QualityMetric {
  import opened Wrappers
  import opened PixelGrid
  import NoiseInjector

  /** `absdiff` on one pair of samples. */
  function AbsDiff(x: Byte, y: Byte): (d: Byte)
    ensures d == x - y || d == y - x
  {
    if x >= y then x - y else y - x
  }

  /** The squared error of one pair of samples, at most 255 * 255. */
  function SquaredError(x: Byte, y: Byte): (e: nat)
    ensures e <= 255 * 255
    ensures e == 0 <==> x == y
  {
    var d := AbsDiff(x, y);
    SquareOfByte(d);
    d * d
  }

  /** The square of a sample difference fits in 255 * 255 and vanishes only at zero. */
  lemma SquareOfByte(d: Byte)
    ensures d * d <= 255 * 255
    ensures d * d == 0 <==> d == 0
  {
    assert d * d <= 255 * d;
    if d > 0 {
      assert d * d >= d;
    }
  }

  /** `sum(s1)` of the squared differences, accumulated in sample order. */
  function Sse(a: seq<Byte>, b: seq<Byte>): nat
    requires |a| == |b|
  {
    if a == [] then 0
    else Sse(a[..|a| - 1], b[..|b| - 1]) + SquaredError(a[|a| - 1], b[|b| - 1])
  }

  /** The error energy does not depend on which grid comes first. */
  lemma {:induction false} SseSymmetric(a: seq<Byte>, b: seq<Byte>)
    requires |a| == |b|
    ensures Sse(a, b) == Sse(b, a)
  {
    if a != [] {
      SseSymmetric(a[..|a| - 1], b[..|b| - 1]);
      assert AbsDiff(a[|a| - 1], b[|b| - 1]) == AbsDiff(b[|b| - 1], a[|a| - 1]);
    }
  }

  /** The error energy is zero exactly when every sample agrees. */
  lemma {:induction false} SseZeroIff(a: seq<Byte>, b: seq<Byte>)
    requires |a| == |b|
    ensures Sse(a, b) == 0 <==> a == b
  {
    if a != [] {
      var n := |a| - 1;
      SseZeroIff(a[..n], b[..n]);
      if a == b {
        assert a[..n] == b[..n];
      } else if a[..n] == b[..n] {
        assert a[n] != b[n] by {
          assert a == a[..n] + [a[n]] && b == b[..n] + [b[n]];
        }
      }
    }
  }

  /** Only differing samples contribute, each at most 255 * 255. */
  lemma {:induction false} SseChanged(a: seq<Byte>, b: seq<Byte>)
    requires |a| == |b|
    ensures Sse(a, b) <= 255 * 255 * |Changed(a, b)|
  {
    if a != [] {
      var n := |a| - 1;
      SseChanged(a[..n], b[..n]);
      var before := Changed(a[..n], b[..n]);
      assert n !in before;
      if a[n] == b[n] {
        assert Changed(a, b) == before;
      } else {
        assert Changed(a, b) == before + {n};
      }
    }
  }

  /** The error energy of `n` samples is at most `n` times 255 * 255. */
  lemma SseBound(a: seq<Byte>, b: seq<Byte>)
    requires |a| == |b|
    ensures Sse(a, b) <= 255 * 255 * |a|
  {
    SseChanged(a, b);
    SubsetOfRange(Changed(a, b), |a|);
  }

  /**
    Larger differences never lower the error energy: if, sample by sample,
    `a` is at least as close to the reference `r` as `b` is, then `a`'s sum is
    at most `b`'s. Since the decibel value falls as the sum grows, a worse copy
    never scores a higher ratio.
   */
  lemma {:induction false} SseMonotone(r: seq<Byte>, a: seq<Byte>, b: seq<Byte>)
    requires |r| == |a| == |b|
    requires forall i | 0 <= i < |r| :: AbsDiff(r[i], a[i]) <= AbsDiff(r[i], b[i])
    ensures Sse(r, a) <= Sse(r, b)
  {
    if r != [] {
      var n := |r| - 1;
      SseMonotone(r[..n], a[..n], b[..n]);
      SquareMonotone(AbsDiff(r[n], a[n]), AbsDiff(r[n], b[n]));
    }
  }

  /** Squaring keeps the order of non-negative numbers. */
  lemma SquareMonotone(x: nat, y: nat)
    requires x <= y
    ensures x * x <= y * y
  {
    MulMonotone(x, y, x);
    MulMonotone(x, y, y);
  }

  /** A set of offsets below `n` has at most `n` members. */
  lemma {:induction false} SubsetOfRange(s: set<nat>, n: nat)
    requires forall p | p in s :: p < n
    ensures |s| <= n
  {
    if n > 0 {
      SubsetOfRange(s - {n - 1}, n - 1);
    } else {
      assert s == {};
    }
  }

  /** What `PSNR` returns: the sentinel 0, or 10 * log10(255 * 255 * samples / sse). */
  datatype Score = Sentinel | Ratio(sse: nat, samples: nat)

  /** `absdiff` refuses grids of different sizes. */
  datatype MetricError = ShapeMismatch

  /** `PSNR(I1, I2)` on single-channel grids, up to the floating-point logarithm. */
  function Psnr(x: Grid, y: Grid): (r: Result<Score, MetricError>)
    requires x.Valid() && y.Valid()
    ensures r.Err? <==> x.rows != y.rows || x.cols != y.cols
    ensures r.Ok? ==> (r.value.Sentinel? <==> x.samples == y.samples)
    ensures r.Ok? && r.value.Ratio? ==>
      && r.value.sse == Sse(x.samples, y.samples)
      && 0 < r.value.sse <= 255 * 255 * r.value.samples && r.value.samples == x.rows * x.cols
  {
    if x.rows != y.rows || x.cols != y.cols then Err(ShapeMismatch)
    else
      var e := Sse(x.samples, y.samples);
      SseZeroIff(x.samples, y.samples);
      SseBound(x.samples, y.samples);
      if e == 0 then Ok(Sentinel) else Ok(Ratio(e, x.rows * x.cols))
  }

  /** Comparing `x` with `y` scores the same as comparing `y` with `x`. */
  lemma PsnrSymmetric(x: Grid, y: Grid)
    requires x.Valid() && y.Valid()
    ensures Psnr(x, y) == Psnr(y, x)
  {
    if x.rows == y.rows && x.cols == y.cols {
      SseSymmetric(x.samples, y.samples);
    }
  }

  /**
    A copy that is, sample by sample, no farther from the reference than another
    copy has no larger error energy; only the sentinel breaks the order of the
    returned values (see SseMonotone).
   */
  lemma PsnrMonotone(x: Grid, a: Grid, b: Grid)
    requires x.Valid() && a.Valid() && b.Valid()
    requires a.rows == b.rows == x.rows && a.cols == b.cols == x.cols
    requires forall i | 0 <= i < |x.samples| :: AbsDiff(x.samples[i], a.samples[i]) <= AbsDiff(x.samples[i], b.samples[i])
    ensures Psnr(x, b).Ok? && Psnr(x, b).value.Sentinel? ==> Psnr(x, a).Ok? && Psnr(x, a).value.Sentinel?
    ensures Psnr(x, a).Ok? && Psnr(x, a).value.Ratio? ==>
      Psnr(x, b).Ok? && Psnr(x, b).value.Ratio? && Psnr(x, a).value.sse <= Psnr(x, b).value.sse
  {
    SseMonotone(x.samples, a.samples, b.samples);
  }

  /**
    The `cmp` command after `addnoise`: the noisy grid has the original's shape,
    its error energy comes from at most twice `noise` samples, and at 0 percent
    the score is the sentinel.
   */
  lemma NoisyScore(g: Grid, percent: nat, draws: seq<NoiseInjector.Draw>)
    requires g.Valid() && NoiseInjector.EnoughDraws(g.rows, g.cols, percent, draws)
    ensures var noisy := Grid(g.rows, g.cols, NoiseInjector.Noisy(g.samples, g.rows, g.cols, percent, draws));
      var r := Psnr(g, noisy);
      && r.Ok?
      && (r.value.Ratio? ==> r.value.sse <= 255 * 255 * 2 * NoiseInjector.NoiseCount(g.rows * g.cols, percent))
      && (percent == 0 ==> r.value == Sentinel)
  {
    var t := NoiseInjector.Noisy(g.samples, g.rows, g.cols, percent, draws);
    NoiseInjector.NoisyChangesFew(g.samples, g.rows, g.cols, percent, draws);
    SseChanged(g.samples, t);
    if percent == 0 {
      NoiseInjector.ZeroPercentUnchanged(g.samples, g.rows, g.cols, draws);
    }
  }
}
