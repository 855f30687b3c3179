# Strategic deconfliction core, modelled in Dafny

This project models the deconfliction engine of a drone mission planner. A primary
mission is a list of spatial waypoints flown over a time window `[T_start, T_end]`. The
engine:

1. times the mission, giving each waypoint a time proportional to the path length flown
   so far;
2. samples it at a fixed step `dt`, interpolating positions piecewise-linearly and
   clamping outside the control range;
3. compares every sample inside another flight's time span with that flight's
   interpolated position, and reports the samples closer than the safety radius;
4. does this for every other flight in input order, tagging each conflict with the
   flight's id, and calls the mission clear exactly when nothing was found;
5. when the mission is not clear, delays the whole window by a fixed step and checks
   again, up to a maximum number of attempts.

The modules follow these steps:
- `TimeNormalizer`: the numeric branch of `to_seconds`.
- `MissionTimer`: `plan_primary_mission`.
- `Interpolation`: `np.interp` and `resample_positions`.
- `Sampler`: `sample_trajectory`.
- `Detector`: `detect_conflicts`.
- `Checker`: `check_mission`.
- `Resolver`: `resolve_conflict`.
- Shared modules: `Results` (Option/Result), `Geometry` (points and the Euclidean length),
  `RealArith` (small ordered-field facts) and `DataModel` (waypoints, flights,
  trajectories, conflicts, verdicts and errors).

The loops of the source are methods. Most are proved equal to a specification function:
- `PlanPrimaryMission` and `AppendTimed` for the entry-building loop;
- `DetectConflicts` for the overlap mask and the hit loop;
- `TagConflicts`, `CheckOther` and `CheckMission` for the per-flight loop.

The delay loop (`ResolveLoop` and `ResolveConflict`) is proved to satisfy a relation
instead: its result either `Resolved` the window after some number k of delays or
`FailedAt` delay k. `ResolvedUnique`, `FailedUnique` and `ResolvedExcludesFailure`
show that this relation allows one outcome only.

The properties the source promises are proved as lemmas about those functions.

Exceptions the source raises are modelled as `Failure` values of one `Error` type:
- `MissingTiming(id)`: an other flight has no `t` and no full window.
- `MissingWaypointTime`: the sampler is given a waypoint without `t`.
- `EmptyWaypoints`: the sampler builds a time grid from an empty list.
- `ShapeMismatch`: 2D positions are compared with 3D ones.

Lengths are taken with a function parameter `norm`. Lemmas that depend on its values
require it to be non-negative (`NonNegativeNorm`) or to be the Euclidean length
(`IsEuclideanNorm`: non-negative, and its square is the sum of squares).

## Model

| member | source | states |
|---|---|---|
| TimeNormalizer.ToSeconds | core_deconflict.py:6-7 | a numeric time is returned as seconds with the same value |
| DataModel.HasZ | core_deconflict.py:17 | the mission is 3D exactly when some waypoint carries z (the same test is made on line 45) |
| DataModel.HasTime | core_deconflict.py:88 | some waypoint carries t |
| DataModel.Position | core_deconflict.py:17-18 | a waypoint's row has 2 coordinates, or 3 when the mission is 3D; x and y are kept and a missing z reads as 0 |
| MissionTimer.SegmentLength | core_deconflict.py:25 | the length of segment k, between waypoints k-1 and k, is never negative under a non-negative norm |
| MissionTimer.PathLength | core_deconflict.py:25-30 | the path length up to waypoint k: 0 at the first waypoint, and never negative under a non-negative norm |
| MissionTimer.TotalLength | core_deconflict.py:25-26 | the total length of the polyline is never negative under a non-negative norm |
| MissionTimer.Linspace | core_deconflict.py:28 | n values whose first is t0 and whose last is exactly t1 |
| MissionTimer.LinspaceStep | core_deconflict.py:28 | consecutive evenly spaced values differ by (b - a) / (n - 1), the last step included |
| MissionTimer.LinspaceMonotone | core_deconflict.py:28 | evenly spaced values from a up to b >= a never decrease |
| MissionTimer.Cumulative | core_deconflict.py:25-30 | entry k of the cumulative array is the path length from the first waypoint to waypoint k |
| MissionTimer.PathLengthMonotone | core_deconflict.py:25-30 | with a non-negative norm the cumulative length is non-negative and never decreases along the path |
| MissionTimer.CoincidentWaypointsZeroLength | core_deconflict.py:25-27 | waypoints all at one position make a path of length 0, so the evenly spaced branch is taken |
| MissionTimer.Scale | core_deconflict.py:31 | one proportional time per cumulative length (its ends and its order are the lemmas below) |
| MissionTimer.ScaleEnds | core_deconflict.py:30-31 | a cumulative array starting at 0 is mapped to t0 at the first waypoint and t1 at the last |
| MissionTimer.ScaleMonotone | core_deconflict.py:31 | for t0 <= t1, proportional times keep the order of the cumulative lengths |
| MissionTimer.AssignTimes | core_deconflict.py:22-31 | one time for fewer than two waypoints, else one time per waypoint |
| MissionTimer.SingleWaypointTime | core_deconflict.py:22-23 | a single waypoint is timed at t0 |
| MissionTimer.Endpoints | core_deconflict.py:22-31 | with two or more waypoints the first is timed t0 and the last t1, in both the proportional and the evenly spaced branch |
| MissionTimer.ZeroLengthEvenlySpaced | core_deconflict.py:27-28 | a zero-length path gets times from t0 to t1 inclusive with a constant step (t1 - t0) / (n - 1) |
| MissionTimer.TimesMonotone | core_deconflict.py:22-31 | for t0 <= t1 the assigned times never decrease along the waypoints, whichever branch assigned them |
| MissionTimer.TimesWithinWindow | core_deconflict.py:22-31 | for t0 <= t1 every assigned time lies in [t0, t1] |
| MissionTimer.DelayedWindowShiftsTimes | core_deconflict.py:6-31 | delaying a whole-second window by d delays every assigned waypoint time by exactly d seconds, in every branch |
| MissionTimer.TimedEntry | core_deconflict.py:35-37 | an output entry keeps x and y, has the given t, and has z (0 when missing) exactly when the mission is 3D |
| MissionTimer.Planned | core_deconflict.py:16-39 | one timed waypoint per input waypoint, in input order; x and y unchanged; z present iff some input has z, a missing z becoming 0; t is the assigned time; every output waypoint is timed |
| MissionTimer.TimedAll | core_deconflict.py:33-38 | one entry per waypoint, in order, entry i being the timed copy of waypoint i with time `times[i]` |
| MissionTimer.AppendTimed | core_deconflict.py:33-38 | the append loop yields, for every i, the timed copy of waypoint i with time `times[i]` |
| MissionTimer.PlanPrimaryMission | core_deconflict.py:16-39 | the returned list is the planned mission over the window converted to seconds |
| Geometry.NormBelowIff | core_deconflict.py:66-67 | a Euclidean length is below r exactly when r > 0 and the squared length is below r * r |
| Geometry.NormZeroIff | core_deconflict.py:66 | a Euclidean length is 0 exactly when every coordinate is 0 |
| Geometry.NormSubSelf | core_deconflict.py:66 | a point's distance to itself is 0 |
| Interpolation.Bracket | core_deconflict.py:52 | the index found is the last control time at or before x: every later control time is after x |
| Interpolation.Interp | core_deconflict.py:52 | the per-axis interpolation; when every control value is the same, that value is returned at every x |
| Interpolation.InterpBelow | core_deconflict.py:52 | left of the first control time the first value is returned |
| Interpolation.InterpAbove | core_deconflict.py:52 | at or right of the last control time the last value is returned |
| Interpolation.InterpAtControl | core_deconflict.py:52 | at a control time (strictly increasing control times) its own value is returned |
| Interpolation.InterpBetween | core_deconflict.py:52 | between two neighbouring control times the value lies between their two values |
| Interpolation.ResampleAt | core_deconflict.py:55-56 | a resampled position has as many axes as the control positions |
| Interpolation.Resample | core_deconflict.py:55-56 | one position per target time, in target order, each the per-axis interpolation at that time |
| Interpolation.ResampleAtControl | core_deconflict.py:55-56 | resampling at a control time reproduces that control position |
| Interpolation.ResampleClamped | core_deconflict.py:55-56 | before the first control time the first position is returned, at or after the last the last position |
| Interpolation.ResampleBetween | core_deconflict.py:55-56 | between two neighbouring control times every coordinate lies between theirs |
| Sampler.Times | core_deconflict.py:42 | one time per waypoint, in list order |
| Sampler.Positions | core_deconflict.py:45-46 | one row per waypoint, in list order, all rows of equal width |
| Sampler.Insert | core_deconflict.py:43-44 | inserting into a time-sorted list keeps it sorted and adds exactly that waypoint |
| Sampler.SortByTime | core_deconflict.py:43-44 | the result is sorted by time and is a permutation of the input |
| Sampler.SortSortedIdentity | core_deconflict.py:43-44 | a list already in time order is left as it is |
| Sampler.SortIdempotent | core_deconflict.py:43-44 | sorting twice is sorting once |
| Sampler.SortSameElements | core_deconflict.py:43-44 | sorting keeps exactly the same waypoints |
| Sampler.SortedEnds | core_deconflict.py:42-44 | the first and last sorted waypoints come from the input and hold the earliest and the latest time |
| Sampler.GridCount | core_deconflict.py:51 | the grid from first to last always has at least one point |
| Sampler.GridPoints | core_deconflict.py:51 | n points, point i being first + i * dt |
| Sampler.Grid | core_deconflict.py:51 | the grid starts at the first time, strictly increases, stays within [first, last], and its last sample is less than one step before last |
| Sampler.GridStep | core_deconflict.py:51 | consecutive grid samples are exactly dt apart |
| Sampler.SampleTrajectory | core_deconflict.py:41-53 | sampling succeeds exactly when every waypoint is timed and there is at least one; a missing t and an empty list give their errors; a success has strictly increasing times, one position per time, and 3 axes iff some waypoint has z |
| Sampler.SampleSingle | core_deconflict.py:48-49 | a single waypoint samples to its own time and position |
| Sampler.SampleTimesGrid | core_deconflict.py:42-51 | with two or more waypoints the sample times are the grid from the earliest to the latest sorted time |
| Sampler.SampleStart | core_deconflict.py:42-51 | with two or more waypoints the first sample is at the earliest waypoint time |
| Sampler.SampleAtWaypoint | core_deconflict.py:42-52 | when no two waypoints share a time, in whatever input order, a sample at a waypoint's time is that waypoint's position |
| Sampler.StrictlyByTime | core_deconflict.py:43-44 | waypoint times strictly increase along the list, the waypoint form of strictly increasing `Times` |
| Sampler.SortStrict | core_deconflict.py:42-44 | sorting waypoints with distinct times gives strictly increasing times |
| Sampler.InsertStrict | core_deconflict.py:43-44 | inserting a waypoint with a new time into a strictly time-ordered list keeps it strictly ordered |
| Detector.InOverlap | core_deconflict.py:60 | a primary time is in the overlap when it lies in the other flight's span, both ends included |
| Detector.Overlaps | core_deconflict.py:60-61 | some primary sample lies in the other flight's span (the mask has a true entry) |
| Detector.Encounter | core_deconflict.py:64-77 | the record of sample i holds its time and position, the other flight interpolated at that time, and their distance |
| Detector.IsHit | core_deconflict.py:64-67 | a sample is a hit when it is in the overlap and its distance to the other flight is strictly below the radius |
| Detector.ConflictsUpTo | core_deconflict.py:67-77 | at most one record per sample looked at |
| Detector.Detect | core_deconflict.py:58-78 | the only error is the shape error, raised only for 2D against 3D; a success has at most one conflict per primary sample |
| Detector.DetectConflicts | core_deconflict.py:58-78 | the method returns exactly the detection result: empty without overlap, a shape error for 2D against 3D, else the hits in sample order |
| Detector.ConflictsSound | core_deconflict.py:60-77 | every reported conflict is the record of a sample inside the overlap whose distance is strictly below the radius |
| Detector.ConflictsComplete | core_deconflict.py:60-77 | every sample inside the overlap whose distance is strictly below the radius is reported |
| Detector.ConflictsAscending | core_deconflict.py:69-77 | for strictly increasing sample times the conflicts come in strictly increasing time |
| Detector.NoOverlapNoConflict | core_deconflict.py:60-62 | when no primary time lies in the other flight's span nothing is reported, whatever the shapes |
| Detector.HitIffSquared | core_deconflict.py:66-67 | with the Euclidean norm a sample in the overlap is a hit exactly when r > 0 and the squared distance is below r * r |
| Detector.NonPositiveRadiusClear | core_deconflict.py:67 | under any non-negative norm, a radius of zero or less never reports a conflict |
| Detector.SelfConflict | core_deconflict.py:60-67 | with a positive radius, a trajectory checked against itself conflicts at every sample at distance 0 |
| Checker.IdOf | core_deconflict.py:86 | a flight's id, or "other" when it has none |
| Checker.OtherTimed | core_deconflict.py:86-94 | an other flight fails with its id exactly when no waypoint has t and the window is incomplete; otherwise its own waypoints are used when any has t, else its planned, fully timed waypoints |
| Checker.Tag | core_deconflict.py:97-98 | every conflict gets the flight's id and is otherwise unchanged |
| Checker.TagConflicts | core_deconflict.py:97-98 | the in-place tagging loop produces exactly the tagged conflicts |
| Checker.FlightConflicts | core_deconflict.py:86-98 | the conflicts with one flight (timing, sampling and detection, each of which can raise); every conflict returned carries that flight's id |
| Checker.CheckOther | core_deconflict.py:86-98 | one pass of the flight loop returns exactly that flight's tagged conflicts or its error |
| Checker.Collect | core_deconflict.py:85-99 | the fail-fast fold over the flights: a success means each of the first k flights succeeded |
| Checker.AllConflicts | core_deconflict.py:85-99 | a successful flight loop means the check of every other flight succeeded |
| Checker.CollectFailurePersists | core_deconflict.py:85-99 | once a flight raises, the result of the flight loop is that error |
| Checker.CollectFirstError | core_deconflict.py:85-99 | the first flight that raises decides the outcome |
| Checker.CollectMembers | core_deconflict.py:85-99 | every collected conflict comes from one of the flights |
| Checker.CollectIncludes | core_deconflict.py:85-99 | when the loop succeeds every flight succeeded, and each flight's conflicts follow those of the earlier flights |
| Checker.CollectEmptyIff | core_deconflict.py:85-101 | the collected list is empty exactly when every flight found nothing |
| Checker.PrimaryTrajectory | core_deconflict.py:81-82 | sampling the planned primary succeeds exactly when it has a waypoint; the result has 3 axes iff a waypoint has z |
| Checker.CheckSpec | core_deconflict.py:80-102 | the status is clear exactly when the conflict list is empty; success requires a non-empty primary |
| Checker.CheckMission | core_deconflict.py:80-102 | the method returns exactly the mission check result |
| Checker.FlightConflictsSound | core_deconflict.py:95-98 | each conflict with a flight is at a primary sample, with its distance below the radius, tagged with that flight's id |
| Checker.FlightConflictsComplete | core_deconflict.py:95-98 | every hit against a flight's sampled trajectory appears among that flight's conflicts, tagged with its id |
| Checker.AllConflictsSound | core_deconflict.py:85-99 | every collected conflict is a reported one tagged with the id of one of the flights |
| Checker.VerdictCollectsEveryFlight | core_deconflict.py:85-99 | a successful check covered every flight, and flight i's conflicts follow those of flights 0..i-1 in the verdict |
| Checker.ClearIffEveryFlightClear | core_deconflict.py:99-101 | a successful check is clear exactly when every flight found no conflict |
| Checker.UntimedFlightFails | core_deconflict.py:88-94 | a flight without t and without a full window raises the missing-timing error with its id |
| Checker.FirstErrorWins | core_deconflict.py:85-99 | when flights before k succeed and flight k raises, the check raises flight k's error |
| Checker.MissingTimingReported | core_deconflict.py:85-94 | when flights before k succeed and flight k has no timing, the check raises the missing-timing error with flight k's id |
| Checker.EmptyPrimaryFails | core_deconflict.py:81-82 | an empty primary mission cannot be sampled |
| Checker.NoOthersClear | core_deconflict.py:84-102 | a non-empty mission with no other flights is clear with no conflicts |
| Resolver.Delayed | core_deconflict.py:122-124 | a window end delayed j times by d: never earlier for d >= 0, never later for d <= 0 |
| Resolver.DelayedIsShift | core_deconflict.py:122-124 | j delays of d seconds move a time by exactly j * d |
| Resolver.Resolved | core_deconflict.py:114-127 | the outcome relation of a resolved run after k delays: within the attempt limit, every earlier window in conflict, the verdict and window of delay k returned, still in conflict only when attempts ran out |
| Resolver.FailedAt | core_deconflict.py:114-127 | the outcome relation of a run that raises: within the attempt limit, every earlier window in conflict, the check of window k raised the error |
| Resolver.ResolveLoop | core_deconflict.py:114-127 | the loop stops after k delays, with k = 0 or k <= max_attempts: either every earlier window had a conflict and the result is the verdict of the window delayed k times, together with that window, still in conflict only when attempts ran out; or the check of window k raised |
| Resolver.MissionCheck | core_deconflict.py:115-127 | the check used by the loop is the mission check of the window it is given |
| Resolver.ResolveConflict | core_deconflict.py:104-134 | the delay loop over the mission check, with the same outcome characterisation |
| Resolver.ResolvedUnique | core_deconflict.py:114-134 | the outcome is determined: the number of delays and the result are unique |
| Resolver.ResolvedExcludesFailure | core_deconflict.py:114-134 | a run that resolves cannot also be one that raises |
| Resolver.FailedUnique | core_deconflict.py:114-127 | a run that raises does so after one number of delays and with one error |
| Resolver.ClearFirstKeepsWindow | core_deconflict.py:115-117 | a clear first check returns the window unchanged with no delay |
| Resolver.NoAttemptsNoDelay | core_deconflict.py:117 | with max_attempts <= 0 the window is never delayed |
| Resolver.ResolvedShift | core_deconflict.py:117-124 | the returned window is the original shifted by k * delay_step, so its length is preserved |
| Resolver.GaveUpAfterAllAttempts | core_deconflict.py:117-132 | a result still in conflict comes after exactly max_attempts delays (none when that is negative) |

## Left out

- Printing: the progress and outcome messages of the resolver (core_deconflict.py:119, 129-132) produce no value.
- ToSeconds: only the numeric branch is modelled, over whole seconds. Parsing `datetime` values and ISO or `strptime` strings (lines 8-14) calls library code.
- ResolveConflict: windows and `delay_step` are whole seconds (int). The source's string round trip through `strptime`/`strftime` (lines 111-112, 122-124) drops fractional seconds, so a whole-second delay is exactly what it can represent. Two things this abstraction hides: `str_to_dt` (lines 111, 122) raises for a window not written as `%Y-%m-%d %H:%M:%S` (an ISO string with `T`, or a number, both of which `check_mission` accepts) but only at the first delay, so such a window returns normally when clear and raises when in conflict; and `.timestamp()` of a naive datetime is local time, so across a daylight-saving change a wall-clock delay of d seconds is not a shift of d epoch seconds, and `DelayedWindowShiftsTimes` and `ResolvedShift` hold when the whole-second window is read as epoch seconds with no daylight-saving change between delays.
- ResolveConflict: the loop is run over the mission check as a function of the window (`MissionCheck`, i.e. `CheckSpec`) rather than by calling the `CheckMission` method. `CheckMission` is proved to return exactly `CheckSpec`, so the outcomes are the same.
- SampleTrajectory: requires `dt > 0`, like every member above it, so every `dt <= 0` is left out, including inputs where the source returns normally. In the source, `dt == 0` raises only when `np.arange` is reached (two or more waypoints); a single waypoint returns first (lines 48-49). With `dt < 0`, a primary of two or more waypoints gets an empty grid (a single-waypoint primary returns at lines 48-49 with its one sample). `detect_conflicts` then returns `[]` only against flights whose own samples are non-empty, such as single-waypoint flights, so with only such flights (or none) the mission comes back clear (lines 60-62, 101). Against a flight of two or more waypoints, whose own grid is empty too, `other_times[0]` raises IndexError at line 60.
- Grid: real arithmetic is exact. The `+ 1e-9` nudge of the `arange` end (line 51) is replaced by an inclusive end, and IEEE rounding in `linspace`, `cumsum`, division and the `arange` step is not modelled.
- Geometry: `np.linalg.norm` is a parameter `norm` because there is no square root. Lemmas require it non-negative or Euclidean (its square is the sum of squares), which determines the square root exactly.
- SortByTime: `np.argsort` is modelled as a stable insertion sort. NumPy's default sort does not fix the order of waypoints with equal times. With equal times, interpolation itself depends on that order.
- DetectConflicts: comparing 2D positions with 3D ones makes NumPy raise a broadcast error. This is modelled as the `ShapeMismatch` error, and only when some primary time is in the overlap, as in the source.
- Checker.IdOf: a flight record's `id` is either absent (`None`, read as "other") or a string. A present key holding `None` is not modelled.
- CheckMission: each other flight's tagged conflicts are built as a new list. The source sets `other_id` in the dictionaries `detect_conflicts` returned, which no other code holds.
- Default arguments: `dt=1.0` (line 41), `safety_radius=5.0, dt=1.0` (line 80) and `delay_step=60, max_attempts=10` (line 104) are not modelled as defaults; every member takes these values as explicit parameters.
- Visualization, the demo driver and the static flight data are outside the core.

