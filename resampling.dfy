/**
 * Resampling a contour to a fixed number of points by linear interpolation:
 * np.linspace(0, 1, n) gives the source and target time axes (both ends
 * included) and np.interp evaluates the piecewise-linear contour on the target
 * axis. Arithmetic is exact.
 */
module Resampling {
  import opened Results

  /** Target length used by the contour plotting helper (and run_match's default). */
  const PlotLength: int := 128

  /** Every element lies in [lo, hi]. */
  ghost predicate Within(s: seq<real>, lo: real, hi: real) {
    forall i :: 0 <= i < |s| ==> lo <= s[i] <= hi
  }

  /** Strictly increasing, as np.interp expects of its sample points. */
  ghost predicate Increasing(xs: seq<real>) {
    forall i, j :: 0 <= i < j < |xs| ==> xs[i] < xs[j]
  }

  /** np.linspace(0, 1, num=n): n evenly spaced points, the first 0 and the last 1. */
  function Linspace(n: nat): (xs: seq<real>)
    ensures |xs| == n
    ensures n >= 1 ==> xs[0] == 0.0
    ensures n >= 2 ==> xs[n - 1] == 1.0
    ensures Increasing(xs)
    ensures Within(xs, 0.0, 1.0)
  {
    if n <= 1 then seq(n, i => 0.0)
    else
      var xs := seq(n, i requires 0 <= i < n => i as real / (n - 1) as real);
      LinspaceShape(n, xs);
      xs
  }

  lemma LinspaceShape(n: nat, xs: seq<real>)
    requires n >= 2 && |xs| == n
    requires forall i :: 0 <= i < n ==> xs[i] == i as real / (n - 1) as real
    ensures xs[0] == 0.0 && xs[n - 1] == 1.0
    ensures Increasing(xs) && Within(xs, 0.0, 1.0)
  {
    var d := (n - 1) as real;
    assert xs[n - 1] == d / d;
    DivSelf(d);
    LinspaceIncreasing(xs, d);
    LinspaceWithin(xs, d);
  }

  lemma LinspaceIncreasing(xs: seq<real>, d: real)
    requires d > 0.0
    requires forall i :: 0 <= i < |xs| ==> xs[i] == i as real / d
    ensures Increasing(xs)
  {
    forall i, j | 0 <= i < j < |xs| ensures xs[i] < xs[j] {
      DivStrictlyMonotone(i as real, j as real, d);
    }
  }

  lemma LinspaceWithin(xs: seq<real>, d: real)
    requires d > 0.0 && |xs| as real == d + 1.0
    requires forall i :: 0 <= i < |xs| ==> xs[i] == i as real / d
    ensures Within(xs, 0.0, 1.0)
  {
    forall i | 0 <= i < |xs| ensures 0.0 <= xs[i] <= 1.0 {
      DivMonotone(0.0, i as real, d);
      DivMonotone(i as real, d, d);
    }
  }

  lemma DivSelf(d: real)
    requires d > 0.0
    ensures d / d == 1.0
  {
  }

  lemma DivStrictlyMonotone(a: real, b: real, d: real)
    requires a < b && d > 0.0
    ensures a / d < b / d
  {
    assert b / d - a / d == (b - a) / d;
  }

  lemma DivMonotone(a: real, b: real, d: real)
    requires a <= b && d > 0.0
    ensures a / d <= b / d
  {
    assert b / d - a / d == (b - a) / d;
  }

  /** The last sample point at or below `t`, scanning upward from `j`. */
  function Locate(t: real, xp: seq<real>, j: nat): (r: nat)
    requires j < |xp| && xp[j] <= t
    ensures j <= r < |xp| && xp[r] <= t
    ensures r + 1 == |xp| || t < xp[r + 1]
    decreases |xp| - j
  {
    if j + 1 < |xp| && xp[j + 1] <= t then Locate(t, xp, j + 1) else j
  }

  /** np.interp at one point: clamps outside [xp[0], xp[last]], otherwise the
      straight line through the two neighbouring samples. */
  function Interp(t: real, xp: seq<real>, fp: seq<real>): (v: real)
    requires |xp| == |fp| > 0
    ensures t < xp[0] ==> v == fp[0]
    ensures xp[0] <= t && t > xp[|xp| - 1] ==> v == fp[|fp| - 1]
  {
    var last := |xp| - 1;
    if t < xp[0] then fp[0]
    else if t > xp[last] then fp[last]
    else
      var j := Locate(t, xp, 0);
      if j == last then fp[last]
      else
        var slope := (fp[j + 1] - fp[j]) / (xp[j + 1] - xp[j]);
        slope * (t - xp[j]) + fp[j]
  }

  /** resample_len(x, length) and resample(x, L). An empty contour has no sample
      points (np.interp raises) and a negative length is refused by np.linspace. */
  function Resample(x: seq<real>, length: int): (r: Result<seq<real>>)
    ensures r.Ok? <==> length >= 0 && |x| > 0
    ensures length < 0 ==> r == Err(NegativeLength)
    ensures length >= 0 && |x| == 0 ==> r == Err(EmptySamplePoints)
    ensures r.Ok? ==> |r.value| == length
  {
    if length < 0 then Err(NegativeLength)
    else if |x| == 0 then Err(EmptySamplePoints)
    else
      var src, tgt := Linspace(|x|), Linspace(length);
      Ok(seq(length, i requires 0 <= i < length => Interp(tgt[i], src, x)))
  }

  /** resample(x) with its default L = 128. */
  function PlotResample(x: seq<real>): (r: Result<seq<real>>)
    ensures |x| > 0 ==> r.Ok? && |r.value| == 128
    ensures |x| == 0 ==> r == Err(EmptySamplePoints)
  {
    Resample(x, PlotLength)
  }

  lemma {:induction false} LocateAtSample(xp: seq<real>, i: nat, j: nat)
    requires Increasing(xp) && j <= i < |xp|
    ensures Locate(xp[i], xp, j) == i
    decreases i - j
  {
    if j < i {
      LocateAtSample(xp, i, j + 1);
    }
  }

  /** Interpolating exactly at a sample point returns that sample. */
  lemma InterpAtSample(xp: seq<real>, fp: seq<real>, i: nat)
    requires |xp| == |fp| && i < |xp| && Increasing(xp)
    ensures Interp(xp[i], xp, fp) == fp[i]
  {
    LocateAtSample(xp, i, 0);
  }

  /** A fraction f of d lies between 0 and d. */
  lemma ScaleBetween(f: real, d: real, p: real)
    requires 0.0 <= f <= 1.0 && p == f * d
    ensures d >= 0.0 ==> 0.0 <= p <= d
    ensures d < 0.0 ==> d <= p <= 0.0
  {
    var q := (1.0 - f) * d;
    assert p + q == d;
    if d >= 0.0 {
      assert p >= 0.0;
      assert q >= 0.0;
    } else {
      assert p <= 0.0;
      assert q <= 0.0;
    }
  }

  /** The straight line from (0, a) to (w, b), evaluated at dt in [0, w], stays
      between any bounds of a and b. */
  lemma SegmentWithin(a: real, b: real, w: real, dt: real, lo: real, hi: real)
    requires lo <= a <= hi && lo <= b <= hi && 0.0 <= dt <= w && w > 0.0
    ensures lo <= (b - a) / w * dt + a <= hi
  {
    var f := dt / w;
    DivMonotone(0.0, dt, w);
    DivMonotone(dt, w, w);
    var p := (b - a) / w * dt;
    assert p == f * (b - a);
    ScaleBetween(f, b - a, p);
  }

  lemma InterpWithin(t: real, xp: seq<real>, fp: seq<real>, lo: real, hi: real)
    requires |xp| == |fp| > 0 && Within(fp, lo, hi)
    ensures lo <= Interp(t, xp, fp) <= hi
  {
    var last := |xp| - 1;
    if xp[0] <= t <= xp[last] {
      var j := Locate(t, xp, 0);
      if j < last {
        SegmentWithin(fp[j], fp[j + 1], xp[j + 1] - xp[j], t - xp[j], lo, hi);
      }
    }
  }

  /** The target axis is exactly the source axis when the lengths agree, so
      resampling to the contour's own length is the identity. */
  lemma ResampleIdentity(x: seq<real>)
    requires |x| > 0
    ensures Resample(x, |x|) == Ok(x)
  {
    var r := Resample(x, |x|).value;
    forall i | 0 <= i < |x| ensures r[i] == x[i] {
      InterpAtSample(Linspace(|x|), x, i);
    }
    assert r == x;
  }

  lemma MulDivCancel(alpha: real, d: real)
    requires d != 0.0
    ensures (alpha * d) / d == alpha
  {
  }

  /** Every sample lies on the line alpha * t + beta. */
  ghost predicate OnLine(xp: seq<real>, fp: seq<real>, alpha: real, beta: real)
    requires |xp| == |fp|
  {
    forall k :: 0 <= k < |xp| ==> fp[k] == alpha * xp[k] + beta
  }

  /** Interpolation is linear: samples taken from a straight line are
      interpolated back onto that line everywhere in the sample range. */
  lemma InterpAffine(t: real, xp: seq<real>, fp: seq<real>, alpha: real, beta: real)
    requires |xp| == |fp| > 0 && Increasing(xp) && OnLine(xp, fp, alpha, beta)
    requires xp[0] <= t <= xp[|xp| - 1]
    ensures Interp(t, xp, fp) == alpha * t + beta
  {
    var j := Locate(t, xp, 0);
    if j < |xp| - 1 {
      assert xp[j] < xp[j + 1];
      assert fp[j] == alpha * xp[j] + beta && fp[j + 1] == alpha * xp[j + 1] + beta;
      ChordAffine(t, xp, fp, alpha, beta, j);
    } else {
      assert t == xp[j] && fp[j] == alpha * xp[j] + beta;
    }
  }

  /** Between two neighbouring samples on a line, np.interp follows the line. */
  lemma ChordAffine(t: real, xp: seq<real>, fp: seq<real>, alpha: real, beta: real, j: nat)
    requires |xp| == |fp| && j + 1 < |xp| && xp[0] <= t <= xp[|xp| - 1]
    requires j == Locate(t, xp, 0) && xp[j] < xp[j + 1]
    requires fp[j] == alpha * xp[j] + beta && fp[j + 1] == alpha * xp[j + 1] + beta
    ensures Interp(t, xp, fp) == alpha * t + beta
  {
    LineThrough(alpha, beta, xp[j], xp[j + 1], fp[j], fp[j + 1], t);
  }

  /** The chord of a straight line through two of its points is the line. */
  lemma LineThrough(alpha: real, beta: real, x0: real, x1: real, y0: real, y1: real, t: real)
    requires x0 < x1 && y0 == alpha * x0 + beta && y1 == alpha * x1 + beta
    ensures (y1 - y0) / (x1 - x0) * (t - x0) + y0 == alpha * t + beta
  {
    assert y1 - y0 == alpha * (x1 - x0);
    MulDivCancel(alpha, x1 - x0);
    assert alpha * (t - x0) == alpha * t - alpha * x0;
  }

  /** A contour sampled from a straight line resamples to the same line: with
      at least two samples, every output equals the line at its target time. */
  lemma ResampleAffine(x: seq<real>, length: int, alpha: real, beta: real)
    requires |x| >= 2 && length >= 0
    requires OnLine(Linspace(|x|), x, alpha, beta)
    ensures Resample(x, length).Ok?
    ensures OnLine(Linspace(length), Resample(x, length).value, alpha, beta)
  {
    ResampleInterps(x, length);
    AffineOnAxis(Linspace(|x|), Linspace(length), x, Resample(x, length).value, alpha, beta);
  }

  /** Interpolating samples of a line at target times inside the source range
      gives the line at every target time. */
  lemma AffineOnAxis(src: seq<real>, tgt: seq<real>, x: seq<real>, r: seq<real>, alpha: real, beta: real)
    requires |src| == |x| >= 2 && Increasing(src) && OnLine(src, x, alpha, beta)
    requires src[0] == 0.0 && src[|src| - 1] == 1.0 && Within(tgt, 0.0, 1.0)
    requires InterpolatesAt(r, tgt, src, x)
    ensures OnLine(tgt, r, alpha, beta)
  {
    forall i | 0 <= i < |tgt| ensures r[i] == alpha * tgt[i] + beta {
      assert r[i] == Interp(tgt[i], src, x) && 0.0 <= tgt[i] <= 1.0;
      InterpAffine(tgt[i], src, x, alpha, beta);
    }
  }

  /** r holds np.interp(tgt, src, x) pointwise. */
  ghost predicate InterpolatesAt(r: seq<real>, tgt: seq<real>, src: seq<real>, x: seq<real>)
    requires |src| == |x| > 0
  {
    |r| == |tgt| && forall i :: 0 <= i < |tgt| ==> r[i] == Interp(tgt[i], src, x)
  }

  /** Each output is np.interp at its target time. */
  lemma ResampleInterps(x: seq<real>, length: int)
    requires |x| > 0 && length >= 0
    ensures Resample(x, length).Ok?
    ensures InterpolatesAt(Resample(x, length).value, Linspace(length), Linspace(|x|), x)
  {
  }

  /** Both ends survive: the first output is the first sample and, for at least
      two outputs, the last output is the last sample. */
  lemma ResampleEndpoints(x: seq<real>, length: int)
    requires |x| > 0 && length >= 1
    ensures Resample(x, length).Ok?
    ensures Resample(x, length).value[0] == x[0]
    ensures length >= 2 ==> Resample(x, length).value[length - 1] == x[|x| - 1]
  {
    var src := Linspace(|x|);
    InterpAtSample(src, x, 0);
    if |x| >= 2 {
      InterpAtSample(src, x, |x| - 1);
    }
  }

  /** A single sample resamples to a constant sequence. */
  lemma ResampleSingleton(v: real, length: int)
    requires length >= 0
    ensures Resample([v], length).Ok?
    ensures forall i :: 0 <= i < length ==> Resample([v], length).value[i] == v
  {
  }

  /** Linear interpolation never leaves the range of the input: every output lies
      in any interval that holds all the samples (in particular [min x, max x]). */
  lemma ResampleWithin(x: seq<real>, length: int, lo: real, hi: real)
    requires Within(x, lo, hi)
    ensures Resample(x, length).Ok? ==> Within(Resample(x, length).value, lo, hi)
  {
    if Resample(x, length).Ok? {
      var r := Resample(x, length).value;
      forall i | 0 <= i < length ensures lo <= r[i] <= hi {
        InterpWithin(Linspace(length)[i], Linspace(|x|), x, lo, hi);
      }
    }
  }
}
