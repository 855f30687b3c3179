// Per-axis piecewise-linear interpolation with flat extension outside the control
// range (the semantics of numpy's interp), and resampling of a positions array at
// arbitrary target times.
module Interpolation {
  import opened Geometry
  import opened DataModel
  import opened RealArith

  predicate NonDecreasing(xs: seq<real>) {
    forall i, j :: 0 <= i <= j < |xs| ==> xs[i] <= xs[j]
  }

  predicate StrictlyIncreasing(xs: seq<real>) {
    forall i, j :: 0 <= i < j < |xs| ==> xs[i] < xs[j]
  }

  /**
   * The largest index j <= k with xp[j] <= x, or -1 when there is none. For sorted
   * control times this is the interval [xp[j], xp[j + 1]) that holds x.
   */
  function Bracket(x: real, xp: seq<real>, k: int): (j: int)
    requires -1 <= k < |xp|
    ensures -1 <= j <= k
    ensures j >= 0 ==> xp[j] <= x
    ensures forall i :: j < i <= k ==> x < xp[i]
    decreases k + 1
  {
    if k < 0 then -1
    else if xp[k] <= x then k
    else Bracket(x, xp, k - 1)
  }

  /**
   * Interpolated value at x of the control points (xp[i], fp[i]): fp[0] left of the
   * range, fp at the last control point at or right of its end, and otherwise the
   * straight line through the two control points around x.
   */
  function Interp(x: real, xp: seq<real>, fp: seq<real>): (v: real)
    requires |xp| == |fp| > 0
    ensures (forall i :: 0 <= i < |fp| ==> fp[i] == fp[0]) ==> v == fp[0]
  {
    var j := Bracket(x, xp, |xp| - 1);
    if j < 0 then fp[0]
    else if j == |xp| - 1 then fp[j]
    else if xp[j] == x then fp[j]
    else
      var slope := (fp[j + 1] - fp[j]) / (xp[j + 1] - xp[j]);
      assert fp[j + 1] == fp[j] ==> slope == 0.0;
      slope * (x - xp[j]) + fp[j]
  }

  /** Left of the first control time the first value is returned. */
  lemma InterpBelow(x: real, xp: seq<real>, fp: seq<real>)
    requires |xp| == |fp| > 0 && NonDecreasing(xp)
    requires x < xp[0]
    ensures Interp(x, xp, fp) == fp[0]
  {
    assert Bracket(x, xp, |xp| - 1) == -1;
  }

  /** At or right of the last control time the last value is returned. */
  lemma InterpAbove(x: real, xp: seq<real>, fp: seq<real>)
    requires |xp| == |fp| > 0
    requires xp[|xp| - 1] <= x
    ensures Interp(x, xp, fp) == fp[|fp| - 1]
  {
  }

  /** At a control time the control value is reproduced exactly. */
  lemma InterpAtControl(xp: seq<real>, fp: seq<real>, k: nat)
    requires |xp| == |fp| && k < |xp| && StrictlyIncreasing(xp)
    ensures Interp(xp[k], xp, fp) == fp[k]
  {
    var j := Bracket(xp[k], xp, |xp| - 1);
    assert j == k;
  }

  /** Between two neighbouring control times the value lies between their control values. */
  lemma InterpBetween(x: real, xp: seq<real>, fp: seq<real>, k: nat)
    requires |xp| == |fp| && k + 1 < |xp| && StrictlyIncreasing(xp)
    requires xp[k] <= x <= xp[k + 1]
    ensures Min(fp[k], fp[k + 1]) <= Interp(x, xp, fp) <= Max(fp[k], fp[k + 1])
  {
    if x == xp[k + 1] {
      InterpAtControl(xp, fp, k + 1);
    } else {
      var j := Bracket(x, xp, |xp| - 1);
      assert j == k;
      if xp[k] != x {
        LerpBetween(fp[k], fp[k + 1], xp[k], xp[k + 1], x, Interp(x, xp, fp));
      }
    }
  }

  function Min(a: real, b: real): real {
    if a <= b then a else b
  }

  function Max(a: real, b: real): real {
    if a <= b then b else a
  }

  /** A point on the segment from (x0, f0) to (x1, f1) has its value between f0 and f1. */
  lemma LerpBetween(f0: real, f1: real, x0: real, x1: real, x: real, v: real)
    requires x0 < x1 && x0 <= x <= x1
    requires v == (f1 - f0) / (x1 - x0) * (x - x0) + f0
    ensures Min(f0, f1) <= v <= Max(f0, f1)
  {
    var w := x1 - x0;
    var lambda := (x - x0) / w;
    DivNonNeg(x - x0, w);
    DivLe(x - x0, w, w);
    DivSelf(w);
    assert 0.0 <= lambda <= 1.0;
    calc {
      (f1 - f0) / w * (x - x0);
    ==
      (f1 - f0) * ((x - x0) / w);
    ==
      (f1 - f0) * lambda;
    }
    if f0 <= f1 {
      MulLeft(0.0, lambda, f1 - f0);
      MulLeft(lambda, 1.0, f1 - f0);
    } else {
      MulLeft(0.0, lambda, f0 - f1);
      MulLeft(lambda, 1.0, f0 - f1);
    }
  }

  /** Column a of a positions array: the a-th coordinate of every row. */
  function Column(ps: seq<Point>, a: nat): (col: seq<real>)
    requires forall i :: 0 <= i < |ps| ==> a < |ps[i]|
    ensures |col| == |ps|
    ensures forall i :: 0 <= i < |ps| ==> col[i] == ps[i][a]
  {
    seq(|ps|, i requires 0 <= i < |ps| => ps[i][a])
  }

  /** The position at time t, each axis interpolated independently over the control points. */
  function ResampleAt(times: seq<real>, pos: seq<Point>, t: real): (p: Point)
    requires |times| == |pos| > 0 && Rectangular(pos)
    ensures |p| == |pos[0]|
  {
    seq(|pos[0]|, a requires 0 <= a < |pos[0]| => Interp(t, times, Column(pos, a)))
  }

  /** The positions at every target time, in target order. */
  function Resample(times: seq<real>, pos: seq<Point>, targets: seq<real>): (r: seq<Point>)
    requires |times| == |pos| > 0 && Rectangular(pos)
    ensures |r| == |targets|
    ensures forall i :: 0 <= i < |targets| ==> r[i] == ResampleAt(times, pos, targets[i])
  {
    seq(|targets|, i requires 0 <= i < |targets| => ResampleAt(times, pos, targets[i]))
  }

  /** Resampling at a control time reproduces that control point's position. */
  lemma ResampleAtControl(times: seq<real>, pos: seq<Point>, k: nat)
    requires |times| == |pos| > 0 && Rectangular(pos) && StrictlyIncreasing(times)
    requires k < |times|
    ensures ResampleAt(times, pos, times[k]) == pos[k]
  {
    var p := ResampleAt(times, pos, times[k]);
    forall a | 0 <= a < |p|
      ensures p[a] == pos[k][a]
    {
      InterpAtControl(times, Column(pos, a), k);
    }
  }

  /** Outside the control range the position is clamped to the nearest end position. */
  lemma ResampleClamped(times: seq<real>, pos: seq<Point>, t: real)
    requires |times| == |pos| > 0 && Rectangular(pos) && NonDecreasing(times)
    ensures t < times[0] ==> ResampleAt(times, pos, t) == pos[0]
    ensures times[|times| - 1] <= t ==> ResampleAt(times, pos, t) == pos[|pos| - 1]
  {
    var p := ResampleAt(times, pos, t);
    if t < times[0] {
      forall a | 0 <= a < |p|
        ensures p[a] == pos[0][a]
      {
        InterpBelow(t, times, Column(pos, a));
      }
    }
    if times[|times| - 1] <= t {
      forall a | 0 <= a < |p|
        ensures p[a] == pos[|pos| - 1][a]
      {
        InterpAbove(t, times, Column(pos, a));
      }
    }
  }

  /** Between two neighbouring control times every coordinate lies between theirs. */
  lemma ResampleBetween(times: seq<real>, pos: seq<Point>, t: real, k: nat)
    requires |times| == |pos| > 0 && Rectangular(pos) && StrictlyIncreasing(times)
    requires k + 1 < |times| && times[k] <= t <= times[k + 1]
    ensures forall a :: 0 <= a < |pos[0]| ==>
      Min(pos[k][a], pos[k + 1][a]) <= ResampleAt(times, pos, t)[a] <= Max(pos[k][a], pos[k + 1][a])
  {
    forall a | 0 <= a < |pos[0]|
      ensures Min(pos[k][a], pos[k + 1][a]) <= ResampleAt(times, pos, t)[a] <= Max(pos[k][a], pos[k + 1][a])
    {
      InterpBetween(t, times, Column(pos, a), k);
    }
  }
}
