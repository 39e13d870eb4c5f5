/**
 * Z-score scaling: subtract the mean, divide by the standard deviation plus a
 * small epsilon. The standard deviation itself (a square root) is supplied by
 * the caller as a non-negative number.
 */
module Scaling {

  /** The 1e-8 added to the standard deviation. */
  const Epsilon: real := 0.00000001

  function Sum(s: seq<real>): real {
    if s == [] then 0.0 else s[0] + Sum(s[1..])
  }

  /** np.mean; an empty sequence has no mean (numpy gives NaN), and 0 stands in
      for it here because no element is ever divided by it. */
  function Mean(s: seq<real>): (m: real)
    ensures |s| as real * m == Sum(s)
    ensures |s| == 0 ==> m == 0.0
  {
    if |s| == 0 then 0.0 else Sum(s) / |s| as real
  }

  /** Each element minus `c`, divided by `d`; multiplying back by `d` and adding
      `c` recovers the input. */
  function Standardize(s: seq<real>, c: real, d: real): (r: seq<real>)
    requires d != 0.0
    ensures |r| == |s|
    ensures forall i :: 0 <= i < |s| ==> r[i] * d + c == s[i]
  {
    seq(|s|, i requires 0 <= i < |s| => (s[i] - c) / d)
  }

  /** zscore(x) with np.std(x) given as `sd`. Since sd >= 0, the divisor
      sd + 1e-8 is positive, which Standardize's precondition checks. */
  function ZScore(x: seq<real>, sd: real): (r: seq<real>)
    requires sd >= 0.0
    ensures |r| == |x|
    ensures Sum(r) == 0.0
    ensures sd + Epsilon > 0.0
    ensures forall i :: 0 <= i < |x| ==> r[i] * (sd + Epsilon) + Mean(x) == x[i]
  {
    var r := Standardize(x, Mean(x), sd + Epsilon);
    SumStandardize(x, Mean(x), sd + Epsilon);
    r
  }

  /** Summation is linear over an affine map of the elements. */
  lemma {:induction false} SumStandardize(s: seq<real>, c: real, d: real)
    requires d != 0.0
    ensures Sum(Standardize(s, c, d)) == (Sum(s) - |s| as real * c) / d
  {
    if s != [] {
      StandardizeTail(s, c, d);
      SumStandardize(s[1..], c, d);
      AddQuotients(s[0] - c, Sum(s[1..]) - (|s| - 1) as real * c, d);
    }
  }

  lemma StandardizeTail(s: seq<real>, c: real, d: real)
    requires d != 0.0 && s != []
    ensures Standardize(s, c, d)[0] == (s[0] - c) / d
    ensures Standardize(s, c, d)[1..] == Standardize(s[1..], c, d)
  {
  }

  lemma AddQuotients(x: real, y: real, d: real)
    requires d != 0.0
    ensures x / d + y / d == (x + y) / d
  {
  }

  /** Scaling keeps the order of the elements in both directions. */
  lemma ZScoreKeepsOrder(x: seq<real>, sd: real, i: nat, j: nat)
    requires sd >= 0.0 && i < |x| && j < |x|
    ensures x[i] <= x[j] <==> ZScore(x, sd)[i] <= ZScore(x, sd)[j]
  {
    var d, m := sd + Epsilon, Mean(x);
    var r := ZScore(x, sd);
    assert r[j] - r[i] == (x[j] - x[i]) / d;
    if x[i] <= x[j] {
      assert (x[j] - x[i]) / d >= 0.0;
    } else {
      assert (x[j] - x[i]) / d < 0.0;
    }
  }

  /** Adding a constant to every element changes neither the mean-removed values
      nor the standard deviation, so the scaled output is unchanged. */
  lemma ZScoreShiftInvariant(x: seq<real>, k: real, sd: real)
    requires sd >= 0.0
    ensures ZScore(seq(|x|, i requires 0 <= i < |x| => x[i] + k), sd) == ZScore(x, sd)
  {
    var y := seq(|x|, i requires 0 <= i < |x| => x[i] + k);
    if |x| > 0 {
      SumShift(x, k);
      assert Mean(y) == Mean(x) + k by {
        assert Sum(y) == Sum(x) + |x| as real * k;
        assert (Sum(x) + |x| as real * k) / |x| as real == Sum(x) / |x| as real + k;
      }
    }
    assert ZScore(y, sd) == ZScore(x, sd);
  }

  lemma {:induction false} SumShift(x: seq<real>, k: real)
    ensures Sum(seq(|x|, i requires 0 <= i < |x| => x[i] + k)) == Sum(x) + |x| as real * k
  {
    if x != [] {
      var y := seq(|x|, i requires 0 <= i < |x| => x[i] + k);
      assert y[1..] == seq(|x| - 1, i requires 0 <= i < |x| - 1 => x[1..][i] + k);
      SumShift(x[1..], k);
    }
  }
}
