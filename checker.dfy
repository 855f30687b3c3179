// Checking the primary mission against every other flight: the primary is timed over
// its window and sampled, each other flight is timed (its own `t` values, or planned
// over its window), sampled and compared, and the conflicts are tagged with the flight
// id and collected in flight order. The first error raised ends the check.
module Checker {
  import opened Results
  import opened Geometry
  import opened DataModel
  import opened TimeNormalizer
  import opened MissionTimer
  import opened Sampler
  import opened Detector

  /** The flight's `id`, or "other" when it has none. */
  function IdOf(f: Flight): (s: string)
    ensures f.id.Some? ==> s == f.id.value
    ensures f.id.None? ==> s == "other"
  {
    f.id.GetOr("other")
  }

  /**
   * The timed waypoints of an other flight: its own waypoints when any carries `t`,
   * else its waypoints planned over its window, else a missing-timing error.
   */
  function OtherTimed(f: Flight, norm: Point -> real): (r: Result<seq<Waypoint>, Error>)
    ensures r.Failure? <==> !HasTime(f.waypoints) && (f.tStart.None? || f.tEnd.None?)
    ensures r.Failure? ==> r.error == MissingTiming(IdOf(f))
    ensures r.Success? && !HasTime(f.waypoints) ==> AllTimed(r.value) && |r.value| == |f.waypoints|
    ensures r.Success? && HasTime(f.waypoints) ==> r.value == f.waypoints
  {
    if HasTime(f.waypoints) then Success(f.waypoints)
    else if f.tStart.Some? && f.tEnd.Some? then
      Success(Planned(f.waypoints, ToSeconds(f.tStart.value), ToSeconds(f.tEnd.value), norm))
    else Failure(MissingTiming(IdOf(f)))
  }

  /** The conflicts with their `other_id` set to oid, everything else kept. */
  function Tag(cs: seq<Conflict>, oid: string): (ts: seq<Conflict>)
    ensures |ts| == |cs|
    ensures forall i :: 0 <= i < |cs| ==> ts[i] == cs[i].(otherId := Some(oid))
  {
    seq(|cs|, i requires 0 <= i < |cs| => cs[i].(otherId := Some(oid)))
  }

  /** The tagged conflicts of the primary trajectory with one other flight. */
  function FlightConflicts(pt: Trajectory, f: Flight, r: real, dt: real, norm: Point -> real): (res: Result<seq<Conflict>, Error>)
    requires pt.Valid() && dt > 0.0
    ensures res.Success? ==> forall i :: 0 <= i < |res.value| ==> res.value[i].otherId == Some(IdOf(f))
  {
    var timed :- OtherTimed(f, norm);
    var ot :- SampleTrajectory(timed, dt);
    var cs :- Detect(pt, ot, r, norm);
    Success(Tag(cs, IdOf(f)))
  }

  /**
   * Folds per-flight results in flight order: the conflicts of the first k flights
   * concatenated, or the first error among them.
   */
  function Collect(rs: seq<Result<seq<Conflict>, Error>>, k: nat): (c: Result<seq<Conflict>, Error>)
    requires k <= |rs|
    ensures c.Success? ==> forall i :: 0 <= i < k ==> rs[i].Success?
  {
    if k == 0 then Success([])
    else
      var acc :- Collect(rs, k - 1);
      var cs :- rs[k - 1];
      Success(acc + cs)
  }

  /** The result of checking the primary trajectory against each other flight, in order. */
  function FlightResults(pt: Trajectory, others: seq<Flight>, r: real, dt: real, norm: Point -> real): (rs: seq<Result<seq<Conflict>, Error>>)
    requires pt.Valid() && dt > 0.0
    ensures |rs| == |others|
    ensures forall i :: 0 <= i < |others| ==> rs[i] == FlightConflicts(pt, others[i], r, dt, norm)
  {
    seq(|others|, i requires 0 <= i < |others| => FlightConflicts(pt, others[i], r, dt, norm))
  }

  /** The conflicts with all other flights in flight order, or the first error raised. */
  function AllConflicts(pt: Trajectory, others: seq<Flight>, r: real, dt: real, norm: Point -> real): (res: Result<seq<Conflict>, Error>)
    requires pt.Valid() && dt > 0.0
    ensures res.Success? ==> forall i :: 0 <= i < |others| ==> FlightConflicts(pt, others[i], r, dt, norm).Success?
  {
    Collect(FlightResults(pt, others, r, dt, norm), |others|)
  }

  /** Once a flight raises, later flights are never looked at: the error is the result. */
  lemma {:induction false} CollectFailurePersists(rs: seq<Result<seq<Conflict>, Error>>, k: nat, n: nat)
    requires k <= n <= |rs|
    requires Collect(rs, k).Failure?
    ensures Collect(rs, n) == Collect(rs, k)
    decreases n
  {
    if n > k {
      CollectFailurePersists(rs, k, n - 1);
    }
  }

  /** Every collected conflict comes from one of the flights folded so far. */
  lemma {:induction false} CollectMembers(rs: seq<Result<seq<Conflict>, Error>>, k: nat)
    requires k <= |rs| && Collect(rs, k).Success?
    ensures forall c :: c in Collect(rs, k).value ==>
      exists i :: 0 <= i < k && rs[i].Success? && c in rs[i].value
  {
    if k > 0 {
      CollectMembers(rs, k - 1);
    }
  }

  /**
   * When the fold succeeds every flight succeeded, and each flight's conflicts follow
   * those of all earlier flights in the result.
   */
  lemma {:induction false} CollectIncludes(rs: seq<Result<seq<Conflict>, Error>>, k: nat, i: nat)
    requires i < k <= |rs| && Collect(rs, k).Success?
    ensures Collect(rs, i).Success? && rs[i].Success?
    ensures Collect(rs, i).value + rs[i].value <= Collect(rs, k).value
    decreases k
  {
    if i < k - 1 {
      CollectIncludes(rs, k - 1, i);
    }
  }

  /** The fold is empty exactly when every flight folded found nothing. */
  lemma {:induction false} CollectEmptyIff(rs: seq<Result<seq<Conflict>, Error>>, k: nat)
    requires k <= |rs| && Collect(rs, k).Success?
    ensures Collect(rs, k).value == [] <==> forall i :: 0 <= i < k ==> rs[i] == Success([])
  {
    if k > 0 {
      CollectEmptyIff(rs, k - 1);
    }
  }

  /** The primary mission timed over its window and sampled. */
  function PrimaryTrajectory(primary: seq<Waypoint>, tStart: int, tEnd: int, dt: real, norm: Point -> real): (r: Result<Trajectory, Error>)
    requires dt > 0.0
    ensures r.Success? <==> |primary| > 0
    ensures r.Failure? ==> r.error == EmptyWaypoints
    ensures r.Success? ==> r.value.Valid() && r.value.Dim() == Dims(HasZ(primary))
  {
    SampleTrajectory(Planned(primary, ToSeconds(tStart), ToSeconds(tEnd), norm), dt)
  }

  /** The result of a mission check: the status is clear exactly when no conflict was found. */
  function CheckSpec(primary: seq<Waypoint>, tStart: int, tEnd: int, others: seq<Flight>, r: real, dt: real, norm: Point -> real): (res: Result<Verdict, Error>)
    requires dt > 0.0
    ensures res.Success? ==> (res.value.status == Clear <==> res.value.conflicts == [])
    ensures res.Success? ==> |primary| > 0
  {
    var pt :- PrimaryTrajectory(primary, tStart, tEnd, dt, norm);
    var all :- AllConflicts(pt, others, r, dt, norm);
    Success(Verdict(if |all| == 0 then Clear else ConflictDetected, all))
  }

  /** A reported conflict: at some primary sample, with its distance computed and below the radius. */
  predicate Reported(pt: Trajectory, r: real, norm: Point -> real, c: Conflict)
    requires pt.Valid()
  {
    (exists j :: 0 <= j < |pt.times| && c.time == pt.times[j] && c.primaryPos == pt.positions[j]) &&
    |c.primaryPos| == |c.otherPos| && c.distance == norm(Sub(c.primaryPos, c.otherPos)) && c.distance < r
  }

  /** The conflicts with one flight are reported ones, all tagged with that flight's id. */
  lemma FlightConflictsSound(pt: Trajectory, f: Flight, r: real, dt: real, norm: Point -> real)
    requires pt.Valid() && dt > 0.0
    requires FlightConflicts(pt, f, r, dt, norm).Success?
    ensures forall c :: c in FlightConflicts(pt, f, r, dt, norm).value ==>
      Reported(pt, r, norm, c) && c.otherId == Some(IdOf(f))
  {
    var ot := SampleTrajectory(OtherTimed(f, norm).value, dt).value;
    if Overlaps(pt, ot) {
      var cs := ConflictsUpTo(pt, ot, r, norm, |pt.times|);
      ConflictsSound(pt, ot, r, norm, |pt.times|);
      forall c | c in Tag(cs, IdOf(f))
        ensures Reported(pt, r, norm, c) && c.otherId == Some(IdOf(f))
      {
        var m :| 0 <= m < |cs| && Tag(cs, IdOf(f))[m] == c;
        assert cs[m] in cs;
        var j :| 0 <= j < |pt.times| && IsHit(pt, ot, r, norm, j) && cs[m] == Encounter(pt, ot, norm, j);
        assert |pt.positions[j]| == pt.Dim();
      }
    }
  }

  /**
   * Every primary sample that is a hit against a flight's sampled trajectory shows up,
   * tagged with the flight's id, among the conflicts with that flight.
   */
  lemma FlightConflictsComplete(pt: Trajectory, f: Flight, r: real, dt: real, norm: Point -> real)
    requires pt.Valid() && dt > 0.0
    requires FlightConflicts(pt, f, r, dt, norm).Success?
    ensures var ot := SampleTrajectory(OtherTimed(f, norm).value, dt).value;
      forall j :: 0 <= j < |pt.times| && pt.Dim() == ot.Dim() && IsHit(pt, ot, r, norm, j) ==>
        Encounter(pt, ot, norm, j).(otherId := Some(IdOf(f))) in FlightConflicts(pt, f, r, dt, norm).value
  {
    var ot := SampleTrajectory(OtherTimed(f, norm).value, dt).value;
    if pt.Dim() == ot.Dim() {
      ConflictsComplete(pt, ot, r, norm, |pt.times|);
      var cs := ConflictsUpTo(pt, ot, r, norm, |pt.times|);
      forall j | 0 <= j < |pt.times| && IsHit(pt, ot, r, norm, j)
        ensures Encounter(pt, ot, norm, j).(otherId := Some(IdOf(f))) in FlightConflicts(pt, f, r, dt, norm).value
      {
        assert Overlaps(pt, ot) by {
          assert InOverlap(pt.times[j], ot);
        }
        var e := Encounter(pt, ot, norm, j);
        var m :| 0 <= m < |cs| && cs[m] == e;
        assert Tag(cs, IdOf(f))[m] == e.(otherId := Some(IdOf(f)));
      }
    }
  }

  /** The collected conflicts are all reported ones, each tagged with the id of one of the flights. */
  lemma AllConflictsSound(pt: Trajectory, others: seq<Flight>, r: real, dt: real, norm: Point -> real)
    requires pt.Valid() && dt > 0.0
    requires AllConflicts(pt, others, r, dt, norm).Success?
    ensures forall c :: c in AllConflicts(pt, others, r, dt, norm).value ==>
      Reported(pt, r, norm, c) && exists i :: 0 <= i < |others| && c.otherId == Some(IdOf(others[i]))
  {
    var rs := FlightResults(pt, others, r, dt, norm);
    CollectMembers(rs, |others|);
    forall c | c in AllConflicts(pt, others, r, dt, norm).value
      ensures Reported(pt, r, norm, c) && exists i :: 0 <= i < |others| && c.otherId == Some(IdOf(others[i]))
    {
      var i :| 0 <= i < |others| && rs[i].Success? && c in rs[i].value;
      FlightConflictsSound(pt, others[i], r, dt, norm);
    }
  }

  /**
   * A successful check looked at every other flight, and each flight's tagged conflicts
   * appear in the verdict in flight order.
   */
  lemma VerdictCollectsEveryFlight(primary: seq<Waypoint>, tStart: int, tEnd: int, others: seq<Flight>, r: real, dt: real, norm: Point -> real, i: nat)
    requires dt > 0.0 && i < |others|
    requires CheckSpec(primary, tStart, tEnd, others, r, dt, norm).Success?
    ensures var pt := PrimaryTrajectory(primary, tStart, tEnd, dt, norm).value;
      var rs := FlightResults(pt, others, r, dt, norm);
      FlightConflicts(pt, others[i], r, dt, norm).Success? &&
      Collect(rs, i).Success? &&
      Collect(rs, i).value + FlightConflicts(pt, others[i], r, dt, norm).value
        <= CheckSpec(primary, tStart, tEnd, others, r, dt, norm).value.conflicts
  {
    var pt := PrimaryTrajectory(primary, tStart, tEnd, dt, norm).value;
    CollectIncludes(FlightResults(pt, others, r, dt, norm), |others|, i);
  }

  /** A successful check is clear exactly when no other flight has a conflict with the primary. */
  lemma ClearIffEveryFlightClear(primary: seq<Waypoint>, tStart: int, tEnd: int, others: seq<Flight>, r: real, dt: real, norm: Point -> real)
    requires dt > 0.0
    requires CheckSpec(primary, tStart, tEnd, others, r, dt, norm).Success?
    ensures var pt := PrimaryTrajectory(primary, tStart, tEnd, dt, norm).value;
      CheckSpec(primary, tStart, tEnd, others, r, dt, norm).value.status == Clear <==>
        forall i :: 0 <= i < |others| ==> FlightConflicts(pt, others[i], r, dt, norm) == Success([])
  {
    var pt := PrimaryTrajectory(primary, tStart, tEnd, dt, norm).value;
    CollectEmptyIff(FlightResults(pt, others, r, dt, norm), |others|);
  }

  /** A flight without `t` values and without a full window fails with its id. */
  lemma UntimedFlightFails(pt: Trajectory, f: Flight, r: real, dt: real, norm: Point -> real)
    requires pt.Valid() && dt > 0.0
    requires !HasTime(f.waypoints) && (f.tStart.None? || f.tEnd.None?)
    ensures FlightConflicts(pt, f, r, dt, norm) == Failure(MissingTiming(IdOf(f)))
  {
  }

  /** The first error in the fold is its result, whatever comes after it. */
  lemma CollectFirstError(rs: seq<Result<seq<Conflict>, Error>>, k: nat)
    requires k < |rs| && Collect(rs, k).Success? && rs[k].Failure?
    ensures Collect(rs, |rs|) == Failure(rs[k].error)
  {
    assert Collect(rs, k + 1) == Failure(rs[k].error);
    CollectFailurePersists(rs, k + 1, |rs|);
  }

  /**
   * The first flight to raise decides the outcome: when the flights before k all succeed
   * and flight k fails, the whole check fails with flight k's error.
   */
  lemma FirstErrorWins(pt: Trajectory, others: seq<Flight>, r: real, dt: real, norm: Point -> real, k: nat)
    requires pt.Valid() && dt > 0.0 && k < |others|
    requires Collect(FlightResults(pt, others, r, dt, norm), k).Success?
    requires FlightConflicts(pt, others[k], r, dt, norm).Failure?
    ensures AllConflicts(pt, others, r, dt, norm) == Failure(FlightConflicts(pt, others[k], r, dt, norm).error)
  {
    CollectFirstError(FlightResults(pt, others, r, dt, norm), k);
  }

  /** A flight without `t` values and without a full window ends the check with its id. */
  lemma MissingTimingReported(pt: Trajectory, others: seq<Flight>, r: real, dt: real, norm: Point -> real, k: nat)
    requires pt.Valid() && dt > 0.0 && k < |others|
    requires Collect(FlightResults(pt, others, r, dt, norm), k).Success?
    requires !HasTime(others[k].waypoints) && (others[k].tStart.None? || others[k].tEnd.None?)
    ensures AllConflicts(pt, others, r, dt, norm) == Failure(MissingTiming(IdOf(others[k])))
  {
    UntimedFlightFails(pt, others[k], r, dt, norm);
    FirstErrorWins(pt, others, r, dt, norm, k);
  }

  /** An empty primary mission cannot be sampled. */
  lemma EmptyPrimaryFails(tStart: int, tEnd: int, others: seq<Flight>, r: real, dt: real, norm: Point -> real)
    requires dt > 0.0
    ensures CheckSpec([], tStart, tEnd, others, r, dt, norm) == Failure(EmptyWaypoints)
  {
  }

  /** With no other flights a non-empty mission is clear. */
  lemma NoOthersClear(primary: seq<Waypoint>, tStart: int, tEnd: int, r: real, dt: real, norm: Point -> real)
    requires dt > 0.0 && |primary| > 0
    ensures CheckSpec(primary, tStart, tEnd, [], r, dt, norm) == Success(Verdict(Clear, []))
  {
  }

  /** Sets `other_id` on every conflict, one record at a time. */
  method TagConflicts(confs: seq<Conflict>, oid: string) returns (tagged: seq<Conflict>)
    ensures tagged == Tag(confs, oid)
  {
    tagged := confs;
    for j := 0 to |tagged|
      invariant |tagged| == |confs|
      invariant forall i :: 0 <= i < j ==> tagged[i] == confs[i].(otherId := Some(oid))
      invariant forall i :: j <= i < |tagged| ==> tagged[i] == confs[i]
    {
      tagged := tagged[j := tagged[j].(otherId := Some(oid))];
    }
  }

  /** One pass of the loop over the other flights: time, sample, detect and tag. */
  method CheckOther(pt: Trajectory, other: Flight, safetyRadius: real, dt: real, norm: Point -> real)
    returns (res: Result<seq<Conflict>, Error>)
    requires pt.Valid() && dt > 0.0
    ensures res == FlightConflicts(pt, other, safetyRadius, dt, norm)
  {
    var oid := IdOf(other);
    var otherTimed: seq<Waypoint>;
    if HasTime(other.waypoints) {
      otherTimed := other.waypoints;
    } else if other.tStart.Some? && other.tEnd.Some? {
      otherTimed := PlanPrimaryMission(other.waypoints, other.tStart.value, other.tEnd.value, norm);
    } else {
      return Failure(MissingTiming(oid));
    }
    var os := SampleTrajectory(otherTimed, dt);
    if os.Failure? {
      return Failure(os.error);
    }
    var confs := DetectConflicts(pt, os.value, safetyRadius, norm);
    if confs.Failure? {
      return Failure(confs.error);
    }
    var tagged := TagConflicts(confs.value, oid);
    return Success(tagged);
  }

  /** Checks the primary mission over [tStart, tEnd] against every other flight. */
  method CheckMission(primary: seq<Waypoint>, tStart: int, tEnd: int, others: seq<Flight>, safetyRadius: real, dt: real, norm: Point -> real)
    returns (res: Result<Verdict, Error>)
    requires dt > 0.0
    ensures res == CheckSpec(primary, tStart, tEnd, others, safetyRadius, dt, norm)
  {
    var primaryTimed := PlanPrimaryMission(primary, tStart, tEnd, norm);
    var sampled := SampleTrajectory(primaryTimed, dt);
    assert sampled == PrimaryTrajectory(primary, tStart, tEnd, dt, norm);
    if sampled.Failure? {
      return Failure(sampled.error);
    }
    var pt := sampled.value;
    ghost var rs := FlightResults(pt, others, safetyRadius, dt, norm);
    var all: seq<Conflict> := [];
    for k := 0 to |others|
      invariant Collect(rs, k) == Success(all)
    {
      var confs := CheckOther(pt, others[k], safetyRadius, dt, norm);
      if confs.Failure? {
        CollectFailurePersists(rs, k + 1, |others|);
        return Failure(confs.error);
      }
      all := all + confs.value;
    }
    var status := if |all| == 0 then Clear else ConflictDetected;
    return Success(Verdict(status, all));
  }
}
