/**
 * Trajectory Interpolator, numeric part: `np.interp(frame, frames, values)` for a frame inside
 * the sampled range, over real arithmetic. Between two neighbouring samples the value is the
 * straight line through them; at a sample frame it is that sample's value.
 */
module Interpolation {
  import opened Grouping

  /** The straight line through `(f0, v0)` and `(f1, v1)`, evaluated at `f`. */
  function Lerp(f0: int, v0: real, f1: int, v1: real, f: int): real
    requires f0 < f1
  {
    v0 + ((f - f0) as real / (f1 - f0) as real) * (v1 - v0)
  }

  /** Sample frames and values that `np.interp` accepts: as many of each, frames increasing. */
  predicate Samples(fs: seq<int>, vs: seq<real>) {
    |fs| == |vs| && |fs| > 0 && StrictlyIncreasing(fs)
  }

  /**
   * `np.interp(f, fs, vs)` for `fs[0] <= f <= fs[|fs| - 1]`: walks to the first pair of samples
   * whose right end lies beyond `f` and evaluates the line through them.
   */
  function Interp(fs: seq<int>, vs: seq<real>, f: int): real
    requires Samples(fs, vs) && fs[0] <= f <= fs[|fs| - 1]
    decreases |fs|
  {
    if |fs| == 1 then vs[0]
    else if f < fs[1] then Lerp(fs[0], vs[0], fs[1], vs[1], f)
    else Interp(fs[1..], vs[1..], f)
  }

  /** The line passes through both of its end points and stays between their values. */
  lemma LerpEnds(f0: int, v0: real, f1: int, v1: real, f: int)
    requires f0 < f1
    ensures Lerp(f0, v0, f1, v1, f0) == v0 && Lerp(f0, v0, f1, v1, f1) == v1
    ensures f0 <= f <= f1 ==>
              (v0 <= Lerp(f0, v0, f1, v1, f) <= v1) || (v1 <= Lerp(f0, v0, f1, v1, f) <= v0)
  {
    var d := (f1 - f0) as real;
    assert d / d == 1.0;
    if f0 <= f <= f1 {
      var w := (f - f0) as real / d;
      assert 0.0 <= w <= 1.0;
      var dv := v1 - v0;
      if v0 <= v1 {
        MulNonNegative(w, dv);
        MulNonNegative(1.0 - w, dv);
        assert v1 - Lerp(f0, v0, f1, v1, f) == (1.0 - w) * dv;
      } else {
        MulNonNegative(w, -dv);
        MulNonNegative(1.0 - w, -dv);
        assert Lerp(f0, v0, f1, v1, f) - v1 == (1.0 - w) * -dv;
      }
    }
  }

  lemma MulNonNegative(a: real, b: real)
    requires 0.0 <= a && 0.0 <= b
    ensures 0.0 <= a * b
  {
  }

  /** Interpolation reproduces every sample exactly at its own frame. */
  lemma {:induction false} InterpAtSample(fs: seq<int>, vs: seq<real>, k: nat)
    requires Samples(fs, vs) && k < |fs|
    ensures Interp(fs, vs, fs[k]) == vs[k]
    decreases k
  {
    if k == 0 {
      if |fs| > 1 {
        LerpEnds(fs[0], vs[0], fs[1], vs[1], fs[0]);
      }
    } else {
      assert fs[0] < fs[1] <= fs[k];
      InterpAtSample(fs[1..], vs[1..], k - 1);
    }
  }

  /**
   * Between any two neighbouring samples `k` and `k + 1`, interpolation is the line through
   * them, whichever neighbour pair brackets `f`: `f` on a shared sample gives the same value
   * from either side.
   */
  lemma {:induction false} InterpBracket(fs: seq<int>, vs: seq<real>, k: nat, f: int)
    requires Samples(fs, vs) && k + 1 < |fs| && fs[k] <= f <= fs[k + 1]
    ensures Interp(fs, vs, f) == Lerp(fs[k], vs[k], fs[k + 1], vs[k + 1], f)
    decreases k
  {
    if k == 0 {
      if f == fs[1] {
        InterpAtSample(fs, vs, 1);
        LerpEnds(fs[0], vs[0], fs[1], vs[1], f);
      }
    } else {
      assert fs[0] < fs[1] <= fs[k];
      InterpBracket(fs[1..], vs[1..], k - 1, f);
    }
  }

  /** Every frame of the sampled range has a bracketing pair of neighbouring samples. */
  lemma {:induction false} Bracketed(fs: seq<int>, f: int) returns (k: nat)
    requires |fs| > 1 && StrictlyIncreasing(fs) && fs[0] <= f <= fs[|fs| - 1]
    ensures k + 1 < |fs| && fs[k] <= f <= fs[k + 1]
    decreases |fs|
  {
    if f <= fs[1] {
      k := 0;
    } else {
      var j := Bracketed(fs[1..], f);
      k := j + 1;
    }
  }

  /** No overshoot: an interpolated value lies between the values of its bracketing samples. */
  lemma InterpBetween(fs: seq<int>, vs: seq<real>, f: int) returns (k: nat)
    requires Samples(fs, vs) && |fs| > 1 && fs[0] <= f <= fs[|fs| - 1]
    ensures k + 1 < |fs| && fs[k] <= f <= fs[k + 1]
    ensures (vs[k] <= Interp(fs, vs, f) <= vs[k + 1]) || (vs[k + 1] <= Interp(fs, vs, f) <= vs[k])
  {
    k := Bracketed(fs, f);
    InterpBracket(fs, vs, k, f);
    LerpEnds(fs[k], vs[k], fs[k + 1], vs[k + 1], f);
  }
}
