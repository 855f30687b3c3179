// Mission timer: spatial waypoints plus a [t0, t1] window become timed waypoints,
// each time proportional to the path length travelled along the polyline.
module MissionTimer {
  import opened Results
  import opened Geometry
  import opened DataModel
  import opened TimeNormalizer
  import opened RealArith

  /** Length of segment k, from waypoint k - 1 to waypoint k. */
  function SegmentLength(wps: seq<Waypoint>, norm: Point -> real, k: nat): (len: real)
    requires 0 < k < |wps|
    ensures NonNegativeNorm(norm) ==> len >= 0.0
  {
    var threeD := HasZ(wps);
    norm(Sub(Position(wps[k], threeD), Position(wps[k - 1], threeD)))
  }

  /** Cumulative path length from the first waypoint to waypoint k (the cumulative-sum array). */
  function PathLength(wps: seq<Waypoint>, norm: Point -> real, k: nat): (len: real)
    requires k < |wps|
    ensures k == 0 ==> len == 0.0
    ensures NonNegativeNorm(norm) ==> len >= 0.0
  {
    if k == 0 then 0.0 else PathLength(wps, norm, k - 1) + SegmentLength(wps, norm, k)
  }

  /** Total length of the polyline through at least two waypoints. */
  function TotalLength(wps: seq<Waypoint>, norm: Point -> real): (total: real)
    requires |wps| >= 2
    ensures NonNegativeNorm(norm) ==> total >= 0.0
  {
    PathLength(wps, norm, |wps| - 1)
  }

  /** n evenly spaced values from a to b, both included, the last one set to b exactly. */
  function Linspace(a: real, b: real, n: nat): (r: seq<real>)
    requires n >= 2
    ensures |r| == n
    ensures r[0] == a && r[n - 1] == b
  {
    var step := (b - a) / (n - 1) as real;
    seq(n, i requires 0 <= i < n => if i == n - 1 then b else a + i as real * step)
  }

  /** Consecutive values of Linspace are (b - a) / (n - 1) apart, the last step included. */
  lemma LinspaceStep(a: real, b: real, n: nat, i: nat)
    requires n >= 2 && i < n - 1
    ensures Linspace(a, b, n)[i + 1] - Linspace(a, b, n)[i] == (b - a) / (n - 1) as real
  {
    var m := (n - 1) as real;
    var step := (b - a) / m;
    StepDiff(a, step, i as real);
    if i + 1 == n - 1 {
      MulDivCancel(b - a, m);
      assert (i + 1) as real == m;
    }
  }

  /** The cumulative-length array: entry k is the path length from waypoint 0 to waypoint k. */
  function Cumulative(wps: seq<Waypoint>, norm: Point -> real): (cum: seq<real>)
    ensures |cum| == |wps|
    ensures forall k :: 0 <= k < |wps| ==> cum[k] == PathLength(wps, norm, k)
  {
    seq(|wps|, k requires 0 <= k < |wps| => PathLength(wps, norm, k))
  }

  /** Each cumulative length as a fraction of the last one, mapped onto [t0, t1]. */
  function Scale(cum: seq<real>, t0: real, t1: real): (times: seq<real>)
    requires |cum| >= 1 && cum[|cum| - 1] > 0.0
    ensures |times| == |cum|
  {
    var total := cum[|cum| - 1];
    seq(|cum|, i requires 0 <= i < |cum| => t0 + cum[i] / total * (t1 - t0))
  }

  /** A cumulative array starting at 0 is mapped onto t0 at the start and t1 at the end. */
  lemma ScaleEnds(cum: seq<real>, t0: real, t1: real)
    requires |cum| >= 1 && cum[|cum| - 1] > 0.0 && cum[0] == 0.0
    ensures Scale(cum, t0, t1)[0] == t0
    ensures Scale(cum, t0, t1)[|cum| - 1] == t1
  {
    DivSelf(cum[|cum| - 1]);
  }

  /** Scaling keeps the order of cumulative lengths when t0 <= t1. */
  lemma ScaleMonotone(cum: seq<real>, t0: real, t1: real, i: nat, j: nat)
    requires |cum| >= 1 && cum[|cum| - 1] > 0.0
    requires t0 <= t1 && i <= j < |cum| && cum[i] <= cum[j]
    ensures Scale(cum, t0, t1)[i] <= Scale(cum, t0, t1)[j]
  {
    var times := Scale(cum, t0, t1);
    ProportionalMono(cum[i], cum[j], cum[|cum| - 1], t0, t1 - t0, times[i], times[j]);
  }

  /** The time assigned to every waypoint of the mission. */
  function AssignTimes(wps: seq<Waypoint>, t0: real, t1: real, norm: Point -> real): (times: seq<real>)
    ensures |times| == if |wps| < 2 then 1 else |wps|
  {
    if |wps| < 2 then [t0]
    else
      var total := TotalLength(wps, norm);
      if total <= 0.0 then Linspace(t0, t1, |wps|)
      else Scale(Cumulative(wps, norm), t0, t1)
  }

  /** Shifting both ends of an evenly spaced range by d shifts every value by d. */
  lemma LinspaceShift(a: real, b: real, n: nat, d: real, i: nat)
    requires n >= 2 && i < n
    ensures Linspace(a + d, b + d, n)[i] == Linspace(a, b, n)[i] + d
  {
    assert (b + d) - (a + d) == b - a;
  }

  /** Shifting the window of a proportional schedule by d shifts every time by d. */
  lemma ScaleShift(cum: seq<real>, t0: real, t1: real, d: real, i: nat)
    requires |cum| >= 1 && cum[|cum| - 1] > 0.0 && i < |cum|
    ensures Scale(cum, t0 + d, t1 + d)[i] == Scale(cum, t0, t1)[i] + d
  {
    assert (t1 + d) - (t0 + d) == t1 - t0;
  }

  /**
   * Delaying the mission window by d whole seconds delays every planned waypoint
   * time by d seconds and leaves the spacing of the schedule as it was.
   */
  lemma DelayedWindowShiftsTimes(wps: seq<Waypoint>, tStart: int, tEnd: int, d: int,
                                 norm: Point -> real, i: nat)
    requires i < |AssignTimes(wps, ToSeconds(tStart), ToSeconds(tEnd), norm)|
    ensures AssignTimes(wps, ToSeconds(tStart + d), ToSeconds(tEnd + d), norm)[i]
            == AssignTimes(wps, ToSeconds(tStart), ToSeconds(tEnd), norm)[i] + d as real
  {
    var t0, t1, dd := ToSeconds(tStart), ToSeconds(tEnd), d as real;
    assert ToSeconds(tStart + d) == t0 + dd && ToSeconds(tEnd + d) == t1 + dd;
    if |wps| >= 2 {
      if TotalLength(wps, norm) <= 0.0 {
        LinspaceShift(t0, t1, |wps|, dd, i);
      } else {
        ScaleShift(Cumulative(wps, norm), t0, t1, dd, i);
      }
    }
  }

  /** The timed copy of one waypoint: x and y kept, z present (0 when missing) in 3D only. */
  function TimedEntry(wp: Waypoint, threeD: bool, t: real): (e: Waypoint)
    ensures e.x == wp.x && e.y == wp.y && e.t == Some(t)
    ensures e.z == if threeD then Some(wp.z.GetOr(0.0)) else None
  {
    var p := Position(wp, threeD);
    Waypoint(p[0], p[1], if threeD then Some(p[2]) else None, Some(t))
  }

  /** Each waypoint paired with its time, as one timed entry, in input order. */
  function TimedAll(wps: seq<Waypoint>, threeD: bool, times: seq<real>): (out: seq<Waypoint>)
    requires |times| >= |wps|
    ensures |out| == |wps|
    ensures forall i :: 0 <= i < |wps| ==> out[i] == TimedEntry(wps[i], threeD, times[i])
  {
    seq(|wps|, i requires 0 <= i < |wps| => TimedEntry(wps[i], threeD, times[i]))
  }

  /** The timed waypoints: one per input waypoint, in input order. */
  function Planned(wps: seq<Waypoint>, t0: real, t1: real, norm: Point -> real): (out: seq<Waypoint>)
    ensures |out| == |wps|
    ensures forall i :: 0 <= i < |wps| ==> out[i].x == wps[i].x && out[i].y == wps[i].y
    ensures forall i :: 0 <= i < |wps| ==>
      out[i].z == if HasZ(wps) then Some(wps[i].z.GetOr(0.0)) else None
    ensures forall i :: 0 <= i < |wps| ==> out[i].t == Some(AssignTimes(wps, t0, t1, norm)[i])
    ensures AllTimed(out)
    ensures HasZ(out) <==> HasZ(wps)
  {
    var out := TimedAll(wps, HasZ(wps), AssignTimes(wps, t0, t1, norm));
    assert HasZ(wps) ==> out[0].z.Some?;
    out
  }

  /** Computes the times, then builds the timed waypoint list entry by entry. */
  method PlanPrimaryMission(wps: seq<Waypoint>, tStart: int, tEnd: int, norm: Point -> real)
    returns (out: seq<Waypoint>)
    ensures out == Planned(wps, ToSeconds(tStart), ToSeconds(tEnd), norm)
  {
    var threeD := HasZ(wps);
    var times := AssignTimes(wps, ToSeconds(tStart), ToSeconds(tEnd), norm);
    out := AppendTimed(wps, threeD, times);
  }

  /** The loop that appends one timed entry per waypoint. */
  method AppendTimed(wps: seq<Waypoint>, threeD: bool, times: seq<real>) returns (out: seq<Waypoint>)
    requires |times| >= |wps|
    ensures out == TimedAll(wps, threeD, times)
  {
    out := [];
    for i := 0 to |wps|
      invariant |out| == i
      invariant forall j :: 0 <= j < i ==> out[j] == TimedEntry(wps[j], threeD, times[j])
    {
      var p := Position(wps[i], threeD);
      var entry := Waypoint(p[0], p[1], None, Some(times[i]));
      if threeD {
        entry := entry.(z := Some(p[2]));
      }
      out := out + [entry];
    }
  }

  // ----- Properties of the assigned times -----

  /** A single waypoint is given the window's start time. */
  lemma SingleWaypointTime(wps: seq<Waypoint>, t0: real, t1: real, norm: Point -> real)
    requires |wps| == 1
    ensures Planned(wps, t0, t1, norm)[0].t == Some(t0)
  {
  }

  /** Cumulative length never decreases along the path. */
  lemma {:induction false} PathLengthMonotone(wps: seq<Waypoint>, norm: Point -> real, i: nat, j: nat)
    requires NonNegativeNorm(norm)
    requires i <= j < |wps|
    ensures 0.0 <= PathLength(wps, norm, i) <= PathLength(wps, norm, j)
  {
    if i < j {
      PathLengthMonotone(wps, norm, i, j - 1);
    } else if i > 0 {
      PathLengthMonotone(wps, norm, i - 1, i - 1);
    }
  }

  /** With at least two waypoints the first one gets t0 and the last one gets t1, in both branches. */
  lemma Endpoints(wps: seq<Waypoint>, t0: real, t1: real, norm: Point -> real)
    requires |wps| >= 2
    ensures AssignTimes(wps, t0, t1, norm)[0] == t0
    ensures AssignTimes(wps, t0, t1, norm)[|wps| - 1] == t1
  {
    if TotalLength(wps, norm) > 0.0 {
      ScaleEnds(Cumulative(wps, norm), t0, t1);
    }
  }

  /** A zero-length path (all waypoints coincide) gets evenly spaced times from t0 to t1. */
  lemma ZeroLengthEvenlySpaced(wps: seq<Waypoint>, t0: real, t1: real, norm: Point -> real)
    requires |wps| >= 2 && TotalLength(wps, norm) <= 0.0
    ensures AssignTimes(wps, t0, t1, norm)[0] == t0
    ensures AssignTimes(wps, t0, t1, norm)[|wps| - 1] == t1
    ensures forall i :: 0 <= i < |wps| - 1 ==>
      AssignTimes(wps, t0, t1, norm)[i + 1] - AssignTimes(wps, t0, t1, norm)[i]
        == (t1 - t0) / (|wps| - 1) as real
  {
    forall i | 0 <= i < |wps| - 1
      ensures Linspace(t0, t1, |wps|)[i + 1] - Linspace(t0, t1, |wps|)[i] == (t1 - t0) / (|wps| - 1) as real
    {
      LinspaceStep(t0, t1, |wps|, i);
    }
  }

  /** Waypoints that all sit at one position make a path of length 0. */
  lemma {:induction false} CoincidentWaypointsZeroLength(wps: seq<Waypoint>, norm: Point -> real, k: nat)
    requires IsEuclideanNorm(norm)
    requires k < |wps|
    requires forall i :: 0 <= i < |wps| ==> Position(wps[i], HasZ(wps)) == Position(wps[0], HasZ(wps))
    ensures PathLength(wps, norm, k) == 0.0
  {
    if k > 0 {
      CoincidentWaypointsZeroLength(wps, norm, k - 1);
      NormSubSelf(norm, Position(wps[0], HasZ(wps)));
    }
  }

  /** For t0 <= t1 the times never decrease along the waypoints, whichever branch assigned them. */
  lemma TimesMonotone(wps: seq<Waypoint>, t0: real, t1: real, norm: Point -> real, i: nat, j: nat)
    requires NonNegativeNorm(norm)
    requires t0 <= t1
    requires i <= j < |wps|
    ensures AssignTimes(wps, t0, t1, norm)[i] <= AssignTimes(wps, t0, t1, norm)[j]
  {
    if |wps| >= 2 {
      if TotalLength(wps, norm) <= 0.0 {
        LinspaceMonotone(t0, t1, |wps|, i, j);
      } else {
        PathLengthMonotone(wps, norm, i, j);
        ScaleMonotone(Cumulative(wps, norm), t0, t1, i, j);
      }
    }
  }

  /** Evenly spaced values from a up to b >= a never decrease. */
  lemma {:induction false} LinspaceMonotone(a: real, b: real, n: nat, i: nat, j: nat)
    requires n >= 2 && a <= b && i <= j < n
    ensures Linspace(a, b, n)[i] <= Linspace(a, b, n)[j]
  {
    if i < j {
      LinspaceMonotone(a, b, n, i, j - 1);
      LinspaceStep(a, b, n, j - 1);
      DivNonNeg(b - a, (n - 1) as real);
    }
  }

  /** For t0 <= t1 every assigned time lies in the window [t0, t1]. */
  lemma TimesWithinWindow(wps: seq<Waypoint>, t0: real, t1: real, norm: Point -> real, i: nat)
    requires NonNegativeNorm(norm)
    requires t0 <= t1
    requires i < |wps|
    ensures t0 <= AssignTimes(wps, t0, t1, norm)[i] <= t1
  {
    if |wps| >= 2 {
      Endpoints(wps, t0, t1, norm);
      TimesMonotone(wps, t0, t1, norm, 0, i);
      TimesMonotone(wps, t0, t1, norm, i, |wps| - 1);
    }
  }
}
