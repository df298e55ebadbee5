/**
 * Jump Clamp: the sequential pass that carries `prev_x, prev_y` from one point to the next.
 * The first point is always emitted as it is; each later point is emitted when neither axis
 * moved by more than the threshold from the previously EMITTED point, and otherwise that
 * previous point is emitted again (the track freezes). `active[i]` says whether clamping
 * applies at position `i`: always in the full run, only outside the grace window when a track
 * is reprocessed.
 */
module JumpClamp {
  import opened Common

  /** `abs(x - prev_x) > threshold or abs(y - prev_y) > threshold` */
  predicate Jumps(prev: Point, p: Point, threshold: real) {
    Abs(p.x - prev.x) > threshold || Abs(p.y - prev.y) > threshold
  }

  /** What one iteration emits, given the previously emitted point. */
  function Step(prev: Point, p: Point, active: bool, threshold: real): Point {
    if active && Jumps(prev, p, threshold) then prev else p
  }

  /** The points emitted for `ps`: the clamp loop after `|ps|` iterations. */
  function Freeze(ps: seq<Point>, active: seq<bool>, threshold: real): (out: seq<Point>)
    requires |active| == |ps|
    ensures |out| == |ps|
    ensures ps != [] ==> out[0] == ps[0]
    decreases |ps|
  {
    if |ps| <= 1 then ps
    else
      var n := |ps| - 1;
      var before := Freeze(ps[..n], active[..n], threshold);
      before + [Step(before[n - 1], ps[n], active[n], threshold)]
  }

  /** Clamping every position, as the full run does. */
  function Always(n: nat): (active: seq<bool>)
    ensures |active| == n && forall i :: 0 <= i < n ==> active[i]
  {
    seq(n, _ => true)
  }

  /** The emitted points for a prefix are the prefix of the emitted points. */
  lemma {:induction false} FreezePrefix(ps: seq<Point>, active: seq<bool>, threshold: real, m: nat)
    requires |active| == |ps| && m <= |ps|
    ensures Freeze(ps[..m], active[..m], threshold) == Freeze(ps, active, threshold)[..m]
    decreases |ps|
  {
    if m < |ps| && |ps| > 1 {
      var n := |ps| - 1;
      assert ps[..n][..m] == ps[..m] && active[..n][..m] == active[..m];
      FreezePrefix(ps[..n], active[..n], threshold, m);
    } else if m == |ps| {
      assert ps[..m] == ps && active[..m] == active;
    }
  }

  /** No consecutive pair of points jumps apart. */
  predicate NoJumps(ps: seq<Point>, threshold: real) {
    forall i :: 0 < i < |ps| ==> !Jumps(ps[i - 1], ps[i], threshold)
  }

  /**
   * The clamp, position by position: the first point is emitted unchanged; every later one is
   * the freshly interpolated point unless clamping is active there and it jumps away from the
   * previously emitted point, in which case that emitted point is held.
   */
  lemma FreezeAt(ps: seq<Point>, active: seq<bool>, threshold: real, i: nat)
    requires |active| == |ps| && 0 < i < |ps|
    ensures Freeze(ps, active, threshold)[i] ==
              Step(Freeze(ps, active, threshold)[i - 1], ps[i], active[i], threshold)
  {
    var out := Freeze(ps, active, threshold);
    FreezePrefix(ps, active, threshold, i + 1);
    var q, a := ps[..i + 1], active[..i + 1];
    assert q[..i] == ps[..i] && a[..i] == active[..i];
    FreezePrefix(ps, active, threshold, i);
  }

  /**
   * Nothing the clamp emits moves by more than the threshold while clamping is active: each
   * emitted point either repeats its predecessor or lies within the threshold of it on both axes.
   */
  lemma FreezeBoundedSteps(ps: seq<Point>, active: seq<bool>, threshold: real, i: nat)
    requires |active| == |ps| && 0 < i < |ps| && active[i]
    ensures var out := Freeze(ps, active, threshold);
            out[i] == out[i - 1] ||
            (Abs(out[i].x - out[i - 1].x) <= threshold && Abs(out[i].y - out[i - 1].y) <= threshold)
  {
    FreezeAt(ps, active, threshold, i);
  }

  /** Where clamping is off, the point is emitted as it is. */
  lemma FreezeInactive(ps: seq<Point>, active: seq<bool>, threshold: real, i: nat)
    requires |active| == |ps| && i < |ps| && !active[i]
    ensures Freeze(ps, active, threshold)[i] == ps[i]
  {
    if i > 0 {
      FreezeAt(ps, active, threshold, i);
    }
  }

  /** The clamp invents no positions: every emitted point is an input point at or before it. */
  lemma {:induction false} FreezeFromInput(ps: seq<Point>, active: seq<bool>, threshold: real, i: nat)
    returns (j: nat)
    requires |active| == |ps| && i < |ps|
    ensures j <= i && Freeze(ps, active, threshold)[i] == ps[j]
  {
    if i == 0 {
      j := 0;
    } else {
      FreezeAt(ps, active, threshold, i);
      var out := Freeze(ps, active, threshold);
      if out[i] == ps[i] {
        j := i;
      } else {
        j := FreezeFromInput(ps, active, threshold, i - 1);
      }
    }
  }

  /** When no consecutive input points jump apart where clamping is active, nothing is clamped. */
  lemma {:induction false} FreezeWithoutJumps(ps: seq<Point>, active: seq<bool>, threshold: real)
    requires |active| == |ps|
    requires forall i :: 0 < i < |ps| && active[i] ==> !Jumps(ps[i - 1], ps[i], threshold)
    ensures Freeze(ps, active, threshold) == ps
    decreases |ps|
  {
    if |ps| > 1 {
      var n := |ps| - 1;
      FreezeWithoutJumps(ps[..n], active[..n], threshold);
      assert ps[..n] + [ps[n]] == ps;
    }
  }

  /**
   * A worked example: samples 10, 15, 20 on x (y fixed at 10) pass a threshold
   * of 5 untouched, while a threshold of 3 freezes frame 1 and, measured against that frozen
   * value, frame 2 as well.
   */
  lemma FreezeExample()
    ensures var ps := [Point(10.0, 10.0), Point(15.0, 10.0), Point(20.0, 10.0)];
            Freeze(ps, Always(3), 5.0) == ps &&
            Freeze(ps, Always(3), 3.0) == [Point(10.0, 10.0), Point(10.0, 10.0), Point(10.0, 10.0)]
  {
    var ps := [Point(10.0, 10.0), Point(15.0, 10.0), Point(20.0, 10.0)];
    var a := Always(3);
    assert ps[..2] == [Point(10.0, 10.0), Point(15.0, 10.0)] && ps[..2][..1] == [Point(10.0, 10.0)];
    assert a[..2] == [true, true] && a[..2][..1] == [true];
  }
}
