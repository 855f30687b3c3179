// Sampling a timed waypoint list onto a regular time grid: the waypoints are ordered
// by time, the grid runs from the earliest to the latest waypoint time in steps of
// dt, and every axis is interpolated at the grid times.
module Sampler {
  import opened Results
  import opened Geometry
  import opened DataModel
  import opened Interpolation
  import opened RealArith

  /** The waypoint's `t` (only read for waypoints that carry one). */
  function TimeOf(w: Waypoint): real {
    w.t.GetOr(0.0)
  }

  function Times(wps: seq<Waypoint>): (ts: seq<real>)
    ensures |ts| == |wps|
    ensures forall i :: 0 <= i < |wps| ==> ts[i] == TimeOf(wps[i])
  {
    seq(|wps|, i requires 0 <= i < |wps| => TimeOf(wps[i]))
  }

  /** The positions array of a waypoint list, one row per waypoint. */
  function Positions(wps: seq<Waypoint>, threeD: bool): (ps: seq<Point>)
    ensures |ps| == |wps| && Rectangular(ps)
    ensures forall i :: 0 <= i < |wps| ==> ps[i] == Position(wps[i], threeD)
  {
    seq(|wps|, i requires 0 <= i < |wps| => Position(wps[i], threeD))
  }

  predicate SortedByTime(wps: seq<Waypoint>) {
    forall i, j :: 0 <= i < j < |wps| ==> TimeOf(wps[i]) <= TimeOf(wps[j])
  }

  /** Inserts w before the first waypoint that is not earlier than it. */
  function Insert(w: Waypoint, s: seq<Waypoint>): (r: seq<Waypoint>)
    requires SortedByTime(s)
    ensures SortedByTime(r)
    ensures multiset(r) == multiset(s) + multiset{w}
    ensures |r| == |s| + 1
    ensures r[0] == w || (|s| > 0 && r[0] == s[0])
  {
    if |s| == 0 || TimeOf(w) <= TimeOf(s[0]) then
      [w] + s
    else
      var rest := Insert(w, s[1..]);
      assert s == [s[0]] + s[1..];
      [s[0]] + rest
  }

  /** The waypoints ordered by time, waypoints with equal times keeping their input order. */
  function SortByTime(s: seq<Waypoint>): (r: seq<Waypoint>)
    ensures SortedByTime(r)
    ensures multiset(r) == multiset(s)
    ensures |r| == |s|
  {
    if |s| == 0 then []
    else
      assert s == [s[0]] + s[1..];
      Insert(s[0], SortByTime(s[1..]))
  }

  /** Sorting waypoints that are already in time order leaves them as they are. */
  lemma {:induction false} SortSortedIdentity(s: seq<Waypoint>)
    requires SortedByTime(s)
    ensures SortByTime(s) == s
  {
    if |s| > 0 {
      SortSortedIdentity(s[1..]);
      assert s == [s[0]] + s[1..];
    }
  }

  /** Sorting is idempotent. */
  lemma SortIdempotent(s: seq<Waypoint>)
    ensures SortByTime(SortByTime(s)) == SortByTime(s)
  {
    SortSortedIdentity(SortByTime(s));
  }

  /** The i-th sample time of a grid starting at first with step dt. */
  function GridAt(first: real, dt: real, i: int): real {
    first + i as real * dt
  }

  /** The first n grid points from first in steps of dt. */
  function GridPoints(first: real, dt: real, n: nat): (g: seq<real>)
    ensures |g| == n
    ensures forall i :: 0 <= i < n ==> g[i] == GridAt(first, dt, i)
  {
    seq(n, i requires 0 <= i < n => GridAt(first, dt, i))
  }

  /** The number of grid points from first to last inclusive. */
  function GridCount(first: real, last: real, dt: real): (n: nat)
    requires dt > 0.0 && first <= last
    ensures n >= 1
  {
    DivNonNeg(last - first, dt);
    ((last - first) / dt).Floor + 1
  }

  /** Grid points strictly increase. */
  lemma GridPointsIncreasing(first: real, dt: real, n: nat)
    requires dt > 0.0
    ensures var g := GridPoints(first, dt, n);
      forall i, j :: 0 <= i < j < n ==> g[i] < g[j]
  {
    var g := GridPoints(first, dt, n);
    forall i, j | 0 <= i < j < n
      ensures g[i] < g[j]
    {
      GridAtOrder(first, dt, i, j);
    }
  }

  /** Grid points up to the count stay within [first, last], and the last is within dt of last. */
  lemma GridPointsBounds(first: real, last: real, dt: real)
    requires dt > 0.0 && first <= last
    ensures var n := GridCount(first, last, dt);
      var g := GridPoints(first, dt, n);
      (forall i :: 0 <= i < n ==> first <= g[i] <= last) &&
      last < g[n - 1] + dt
  {
    var n := GridCount(first, last, dt);
    var g := GridPoints(first, dt, n);
    forall i | 0 <= i < n
      ensures first <= g[i] <= last
    {
      GridAtWithin(first, last, dt, i);
    }
    GridPastLast(first, last, dt);
  }

  /**
   * The sample times from first up to last inclusive in steps of dt (the range numpy's
   * arange produces with its end nudged just past last).
   */
  function Grid(first: real, last: real, dt: real): (g: seq<real>)
    requires dt > 0.0 && first <= last
    ensures |g| > 0 && g[0] == first
    ensures forall i, j :: 0 <= i < j < |g| ==> g[i] < g[j]
    ensures forall i :: 0 <= i < |g| ==> first <= g[i] <= last
    ensures last < g[|g| - 1] + dt
  {
    var n := GridCount(first, last, dt);
    GridPointsIncreasing(first, dt, n);
    GridPointsBounds(first, last, dt);
    GridPoints(first, dt, n)
  }

  /** Consecutive samples of the grid are exactly dt apart. */
  lemma GridStep(first: real, last: real, dt: real, i: nat)
    requires dt > 0.0 && first <= last && i + 1 < |Grid(first, last, dt)|
    ensures Grid(first, last, dt)[i + 1] - Grid(first, last, dt)[i] == dt
  {
    GridAtStep(first, dt, i);
  }

  lemma GridAtWithin(first: real, last: real, dt: real, i: nat)
    requires dt > 0.0 && first <= last
    requires i <= ((last - first) / dt).Floor
    ensures first <= GridAt(first, dt, i) <= last
  {
    var q := (last - first) / dt;
    assert i as real <= q;
    MulRight(0.0, i as real, dt);
    MulRight(i as real, q, dt);
    MulDivCancel(last - first, dt);
  }

  lemma GridAtStep(first: real, dt: real, i: int)
    ensures GridAt(first, dt, i + 1) - GridAt(first, dt, i) == dt
  {
    assert (i + 1) as real == i as real + 1.0;
    StepDiff(first, dt, i as real);
  }

  lemma GridAtOrder(first: real, dt: real, i: int, j: int)
    requires dt > 0.0 && i < j
    ensures GridAt(first, dt, i) < GridAt(first, dt, j)
  {
    MulRightStrict(i as real, j as real, dt);
  }

  lemma GridPastLast(first: real, last: real, dt: real)
    requires dt > 0.0 && first <= last
    ensures last < GridAt(first, dt, ((last - first) / dt).Floor) + dt
  {
    var q := (last - first) / dt;
    var n := q.Floor;
    assert q < n as real + 1.0;
    MulRightStrict(q, n as real + 1.0, dt);
    MulDivCancel(last - first, dt);
  }

  /**
   * Samples a timed waypoint list: every waypoint must carry `t` and there must be at
   * least one; a single waypoint is returned as a one-sample trajectory, otherwise
   * the positions are interpolated at the grid from the earliest to the latest time.
   */
  function SampleTrajectory(wps: seq<Waypoint>, dt: real): (r: Result<Trajectory, Error>)
    requires dt > 0.0
    ensures r.Success? <==> AllTimed(wps) && |wps| > 0
    ensures !AllTimed(wps) ==> r == Failure(MissingWaypointTime)
    ensures AllTimed(wps) && |wps| == 0 ==> r == Failure(EmptyWaypoints)
    ensures r.Success? ==>
      r.value.Valid() && StrictlyIncreasing(r.value.times) && r.value.Dim() == Dims(HasZ(wps))
  {
    if !AllTimed(wps) then Failure(MissingWaypointTime)
    else
      var sorted := SortByTime(wps);
      var times := Times(sorted);
      var positions := Positions(sorted, HasZ(wps));
      if |sorted| == 0 then Failure(EmptyWaypoints)
      else if |sorted| == 1 then Success(Trajectory(times, positions))
      else
        var grid := Grid(times[0], times[|times| - 1], dt);
        Success(Trajectory(grid, Resample(times, positions, grid)))
  }

  /** A single timed waypoint samples to itself at its own time. */
  lemma SampleSingle(wps: seq<Waypoint>, dt: real)
    requires dt > 0.0 && |wps| == 1 && wps[0].t.Some?
    ensures SampleTrajectory(wps, dt) == Success(Trajectory([wps[0].t.value], [Position(wps[0], HasZ(wps))]))
  {
    assert SortByTime(wps) == wps by {
      SortSortedIdentity(wps);
    }
    assert Times(wps) == [wps[0].t.value];
    assert Positions(wps, HasZ(wps)) == [Position(wps[0], HasZ(wps))];
  }

  /** Sorting keeps exactly the same waypoints. */
  lemma SortSameElements(wps: seq<Waypoint>)
    ensures forall w :: w in SortByTime(wps) <==> w in wps
  {
    var r := SortByTime(wps);
    forall w
      ensures w in r <==> w in wps
    {
      assert w in r <==> w in multiset(r);
    }
  }

  /** In a time-sorted list holding the same waypoints as wps, the ends hold the extreme times. */
  lemma SortedBounds(r: seq<Waypoint>, wps: seq<Waypoint>)
    requires SortedByTime(r) && |r| > 0
    requires forall w :: w in r <==> w in wps
    ensures r[0] in wps && r[|r| - 1] in wps
    ensures forall i :: 0 <= i < |wps| ==> TimeOf(r[0]) <= TimeOf(wps[i]) <= TimeOf(r[|r| - 1])
  {
    assert r[0] in r && r[|r| - 1] in r;
    forall i | 0 <= i < |wps|
      ensures TimeOf(r[0]) <= TimeOf(wps[i]) <= TimeOf(r[|r| - 1])
    {
      assert wps[i] in r;
      var j :| 0 <= j < |r| && r[j] == wps[i];
      if 0 < j {
        assert TimeOf(r[0]) <= TimeOf(r[j]);
      }
      if j < |r| - 1 {
        assert TimeOf(r[j]) <= TimeOf(r[|r| - 1]);
      }
    }
  }

  /** The first sorted waypoint has the earliest time and the last one the latest, both taken from the input. */
  lemma SortedEnds(wps: seq<Waypoint>)
    requires |wps| > 0
    ensures var r := SortByTime(wps);
      r[0] in wps && r[|r| - 1] in wps &&
      forall i :: 0 <= i < |wps| ==> TimeOf(r[0]) <= TimeOf(wps[i]) <= TimeOf(r[|r| - 1])
  {
    SortSameElements(wps);
    SortedBounds(SortByTime(wps), wps);
  }

  /** With two or more waypoints the sample times are the grid from the first to the last sorted time. */
  lemma SampleTimesGrid(wps: seq<Waypoint>, dt: real)
    requires dt > 0.0 && AllTimed(wps) && |wps| >= 2
    ensures var r := SortByTime(wps);
      TimeOf(r[0]) <= TimeOf(r[|r| - 1]) &&
      SampleTrajectory(wps, dt).value.times == Grid(TimeOf(r[0]), TimeOf(r[|r| - 1]), dt)
  {
    var r := SortByTime(wps);
    assert Times(r)[0] == TimeOf(r[0]) && Times(r)[|r| - 1] == TimeOf(r[|r| - 1]);
  }

  /**
   * With two or more waypoints the samples start at the earliest waypoint time, the
   * time at the front of the time-sorted list (see SortedEnds).
   */
  lemma SampleStart(wps: seq<Waypoint>, dt: real)
    requires dt > 0.0 && AllTimed(wps) && |wps| >= 2
    ensures SampleTrajectory(wps, dt).value.times[0] == TimeOf(SortByTime(wps)[0])
  {
    SampleTimesGrid(wps, dt);
  }

  /** No two waypoints share a time (they may come in any order). */
  predicate DistinctTimes(wps: seq<Waypoint>) {
    forall i, j :: 0 <= i < j < |wps| ==> TimeOf(wps[i]) != TimeOf(wps[j])
  }

  /**
   * Waypoint times strictly increase along the list: `StrictlyIncreasing(Times(wps))`
   * stated on the waypoints themselves, so that the sorting proofs below never build
   * the `Times` sequence (SampleAtWaypoint converts between the two).
   */
  predicate StrictlyByTime(wps: seq<Waypoint>) {
    forall i, j :: 0 <= i < j < |wps| ==> TimeOf(wps[i]) < TimeOf(wps[j])
  }

  /** The element inserted into a non-empty list either is w or came from the list. */
  lemma InsertFrom(w: Waypoint, s: seq<Waypoint>, x: Waypoint)
    requires SortedByTime(s) && x in Insert(w, s)
    ensures x == w || x in s
  {
    assert x in multiset(Insert(w, s));
  }

  /** Inserting a waypoint whose time is new into a strictly time-ordered list keeps it strict. */
  lemma {:induction false} InsertStrict(w: Waypoint, s: seq<Waypoint>)
    requires StrictlyByTime(s)
    requires forall x :: x in s ==> TimeOf(x) != TimeOf(w)
    ensures SortedByTime(s) && StrictlyByTime(Insert(w, s))
  {
    var r := Insert(w, s);
    if |s| == 0 || TimeOf(w) <= TimeOf(s[0]) {
      assert r == [w] + s;
      if |s| > 0 {
        assert s[0] in s;
      }
    } else {
      var rest := Insert(w, s[1..]);
      assert s == [s[0]] + s[1..];
      assert r == [s[0]] + rest;
      InsertStrict(w, s[1..]);
      forall j | 0 <= j < |rest|
        ensures TimeOf(s[0]) < TimeOf(rest[j])
      {
        InsertFrom(w, s[1..], rest[j]);
      }
    }
  }

  /** Ordering waypoints with distinct times gives strictly increasing times. */
  lemma {:induction false} SortStrict(s: seq<Waypoint>)
    requires DistinctTimes(s)
    ensures StrictlyByTime(SortByTime(s))
  {
    if |s| > 0 {
      assert s == [s[0]] + s[1..];
      var t := SortByTime(s[1..]);
      SortStrict(s[1..]);
      forall x | x in t
        ensures TimeOf(x) != TimeOf(s[0])
      {
        assert x in multiset(t);
        assert x in multiset(s[1..]);
        var m :| 0 <= m < |s[1..]| && s[1..][m] == x;
        assert s[m+1] == x;
      }
      InsertStrict(s[0], t);
    }
  }

  /**
   * When no two waypoints share a time, whatever their input order, a sample that
   * falls on a waypoint's time is exactly that waypoint's position.
   */
  lemma SampleAtWaypoint(wps: seq<Waypoint>, dt: real, s: nat, k: nat)
    requires dt > 0.0 && AllTimed(wps) && |wps| >= 2
    requires DistinctTimes(wps)
    requires k < |wps| && s < |SampleTrajectory(wps, dt).value.times|
    requires SampleTrajectory(wps, dt).value.times[s] == TimeOf(wps[k])
    ensures SampleTrajectory(wps, dt).value.positions[s] == Position(wps[k], HasZ(wps))
  {
    var r := SortByTime(wps);
    SortStrict(wps);
    assert StrictlyIncreasing(Times(r)) by {
      forall i, j | 0 <= i < j < |r|
        ensures Times(r)[i] < Times(r)[j]
      {
      }
    }
    SortSameElements(wps);
    assert wps[k] in r;
    var m :| 0 <= m < |r| && r[m] == wps[k];
    ResampleAtControl(Times(r), Positions(r, HasZ(wps)), m);
  }
}
