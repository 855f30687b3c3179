// The records the deconfliction core passes around: waypoints, flights, sampled
// trajectories, conflicts, verdicts, and the errors it raises.
module DataModel {
  import opened Results
  import opened Geometry

  /** A waypoint dictionary: `x`, `y`, and the optional keys `z` and `t` (seconds). */
  datatype Waypoint = Waypoint(x: real, y: real, z: Option<real>, t: Option<real>)

  /**
   * An other-flight record: an optional `id`, its waypoints, and an optional
   * `T_start`/`T_end` window in whole seconds.
   */
  datatype Flight = Flight(id: Option<string>, waypoints: seq<Waypoint>, tStart: Option<int>, tEnd: Option<int>)

  /** What the core raises instead of returning a result. */
  datatype Error =
    | MissingTiming(flightId: string)  // an other flight with no `t` and no full window
    | MissingWaypointTime              // a waypoint without `t` handed to the sampler
    | EmptyWaypoints                   // the sampler's time grid of an empty waypoint list
    | ShapeMismatch                    // 2D positions compared against 3D positions

  /** A mission is 3D when any of its waypoints carries `z`. */
  predicate HasZ(wps: seq<Waypoint>) {
    exists i :: 0 <= i < |wps| && wps[i].z.Some?
  }

  /** Some waypoint carries `t`. */
  predicate HasTime(wps: seq<Waypoint>) {
    exists i :: 0 <= i < |wps| && wps[i].t.Some?
  }

  /** Every waypoint carries `t`. */
  predicate AllTimed(wps: seq<Waypoint>) {
    forall i :: 0 <= i < |wps| ==> wps[i].t.Some?
  }

  function Dims(threeD: bool): nat {
    if threeD then 3 else 2
  }

  /** The positions-array row of a waypoint: `[x, y]`, or `[x, y, z]` with a missing `z` read as 0. */
  function Position(wp: Waypoint, threeD: bool): (p: Point)
    ensures |p| == Dims(threeD)
    ensures p[0] == wp.x && p[1] == wp.y
    ensures threeD ==> p[2] == wp.z.GetOr(0.0)
  {
    if threeD then [wp.x, wp.y, wp.z.GetOr(0.0)] else [wp.x, wp.y]
  }

  /** All rows have the same number of coordinates, as in a 2-dimensional array. */
  predicate Rectangular(ps: seq<Point>) {
    forall i :: 0 <= i < |ps| ==> |ps[i]| == |ps[0]|
  }

  /** A sampled trajectory: sample times and the position at each of them. */
  datatype Trajectory = Trajectory(times: seq<real>, positions: seq<Point>) {
    predicate Valid() {
      |times| == |positions| > 0 && Rectangular(positions)
    }

    /** Number of spatial axes (the positions array's second dimension). */
    function Dim(): nat
      requires Valid()
    {
      |positions[0]|
    }
  }

  /** A conflict record; `otherId` is absent until the mission checker tags it. */
  datatype Conflict = Conflict(time: real, primaryPos: Point, otherPos: Point, distance: real, otherId: Option<string>)

  datatype Status = Clear | ConflictDetected

  /** A mission verdict: the status and every conflict found, in detection order. */
  datatype Verdict = Verdict(status: Status, conflicts: seq<Conflict>)
}
