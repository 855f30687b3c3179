// Conflict resolution by delay: while the mission is not clear and attempts remain,
// both ends of the window are pushed back by a fixed delay and the mission is checked
// again. The result is the last verdict with the window it was computed for.
module Resolver {
  import opened Results
  import opened Geometry
  import opened DataModel
  import opened Checker

  /** The last verdict and the (possibly delayed) window it belongs to. */
  datatype Resolution = Resolution(verdict: Verdict, tStart: int, tEnd: int)

  /** A mission check as a function of the window [tStart, tEnd]. */
  type WindowCheck = (int, int) -> Result<Verdict, Error>

  /** The time t delayed j times by d seconds. */
  function Delayed(t: int, d: int, j: nat): (u: int)
    ensures d >= 0 ==> t <= u
    ensures d <= 0 ==> u <= t
  {
    if j == 0 then t else Delayed(t, d, j - 1) + d
  }

  /** j delays of d seconds move a time by j * d seconds. */
  lemma {:induction false} DelayedIsShift(t: int, d: int, j: nat)
    ensures Delayed(t, d, j) == t + j * d
  {
    if j > 0 {
      DelayedIsShift(t, d, j - 1);
      assert j * d == (j - 1) * d + d;
    }
  }

  /** The check of the window [tStart, tEnd] delayed j times by delayStep. */
  function CheckDelayed(check: WindowCheck, tStart: int, tEnd: int, delayStep: int, j: nat): Result<Verdict, Error> {
    check(Delayed(tStart, delayStep, j), Delayed(tEnd, delayStep, j))
  }

  /** The windows delayed 0, 1, ..., k - 1 times were all checked without error and all had a conflict. */
  predicate ConflictedBefore(check: WindowCheck, tStart: int, tEnd: int, delayStep: int, k: nat) {
    forall j: nat :: j < k ==>
      CheckDelayed(check, tStart, tEnd, delayStep, j).Success? &&
      CheckDelayed(check, tStart, tEnd, delayStep, j).value.status == ConflictDetected
  }

  /**
   * The procedure ends with res after k delays: k is within the attempt limit, every
   * earlier window had a conflict, res holds the verdict of the window delayed k times
   * and that window, and a verdict still in conflict means the attempts ran out.
   */
  predicate Resolved(check: WindowCheck, tStart: int, tEnd: int, delayStep: int, maxAttempts: int, k: nat, res: Resolution) {
    (k == 0 || k <= maxAttempts) &&
    ConflictedBefore(check, tStart, tEnd, delayStep, k) &&
    CheckDelayed(check, tStart, tEnd, delayStep, k) == Success(res.verdict) &&
    res.tStart == Delayed(tStart, delayStep, k) && res.tEnd == Delayed(tEnd, delayStep, k) &&
    (res.verdict.status == ConflictDetected ==> k >= maxAttempts)
  }

  /** The procedure stops with err after k delays: the check of the window delayed k times raised it. */
  predicate FailedAt(check: WindowCheck, tStart: int, tEnd: int, delayStep: int, maxAttempts: int, k: nat, err: Error) {
    (k == 0 || k <= maxAttempts) &&
    ConflictedBefore(check, tStart, tEnd, delayStep, k) &&
    CheckDelayed(check, tStart, tEnd, delayStep, k) == Failure(err)
  }

  /**
   * The delay loop: check the window, then while the verdict is not clear and attempts
   * remain, delay both ends by delayStep and check again; an error ends the loop.
   */
  method ResolveLoop(check: WindowCheck, tStart: int, tEnd: int, delayStep: int, maxAttempts: int)
    returns (res: Result<Resolution, Error>)
    ensures res.Success? ==> exists k: nat :: Resolved(check, tStart, tEnd, delayStep, maxAttempts, k, res.value)
    ensures res.Failure? ==> exists k: nat :: FailedAt(check, tStart, tEnd, delayStep, maxAttempts, k, res.error)
  {
    var attempts: nat := 0;
    var start, end := tStart, tEnd;
    var result := check(start, end);
    if result.Failure? {
      assert FailedAt(check, tStart, tEnd, delayStep, maxAttempts, 0, result.error);
      return Failure(result.error);
    }
    while result.value.status != Clear && attempts < maxAttempts
      invariant attempts == 0 || attempts <= maxAttempts
      invariant start == Delayed(tStart, delayStep, attempts) && end == Delayed(tEnd, delayStep, attempts)
      invariant result.Success? && CheckDelayed(check, tStart, tEnd, delayStep, attempts) == result
      invariant ConflictedBefore(check, tStart, tEnd, delayStep, attempts)
      decreases maxAttempts - attempts
    {
      attempts := attempts + 1;
      start, end := start + delayStep, end + delayStep;
      result := check(start, end);
      if result.Failure? {
        assert FailedAt(check, tStart, tEnd, delayStep, maxAttempts, attempts, result.error);
        return Failure(result.error);
      }
    }
    res := Success(Resolution(result.value, start, end));
    assert Resolved(check, tStart, tEnd, delayStep, maxAttempts, attempts, res.value);
  }

  /** The mission check of the primary against the other flights, as a function of the window. */
  function MissionCheck(primary: seq<Waypoint>, others: seq<Flight>, r: real, dt: real, norm: Point -> real): (check: WindowCheck)
    requires dt > 0.0
    ensures forall s, e :: check(s, e) == CheckSpec(primary, s, e, others, r, dt, norm)
  {
    (s: int, e: int) => CheckSpec(primary, s, e, others, r, dt, norm)
  }

  /** Resolves the primary's conflicts by delaying its window [tStart, tEnd]. */
  method ResolveConflict(primary: seq<Waypoint>, tStart: int, tEnd: int, others: seq<Flight>, safetyRadius: real, dt: real, delayStep: int, maxAttempts: int, norm: Point -> real)
    returns (res: Result<Resolution, Error>)
    requires dt > 0.0
    ensures var check := MissionCheck(primary, others, safetyRadius, dt, norm);
      (res.Success? ==> exists k: nat :: Resolved(check, tStart, tEnd, delayStep, maxAttempts, k, res.value)) &&
      (res.Failure? ==> exists k: nat :: FailedAt(check, tStart, tEnd, delayStep, maxAttempts, k, res.error))
  {
    res := ResolveLoop(MissionCheck(primary, others, safetyRadius, dt, norm), tStart, tEnd, delayStep, maxAttempts);
  }

  /** The outcome is determined: two resolutions of the same problem are the same resolution. */
  lemma ResolvedUnique(check: WindowCheck, tStart: int, tEnd: int, delayStep: int, maxAttempts: int, k1: nat, res1: Resolution, k2: nat, res2: Resolution)
    requires Resolved(check, tStart, tEnd, delayStep, maxAttempts, k1, res1)
    requires Resolved(check, tStart, tEnd, delayStep, maxAttempts, k2, res2)
    ensures k1 == k2 && res1 == res2
  {
  }

  /** A resolution and an error cannot both describe the same problem. */
  lemma ResolvedExcludesFailure(check: WindowCheck, tStart: int, tEnd: int, delayStep: int, maxAttempts: int, k1: nat, res: Resolution, k2: nat, err: Error)
    requires Resolved(check, tStart, tEnd, delayStep, maxAttempts, k1, res)
    ensures !FailedAt(check, tStart, tEnd, delayStep, maxAttempts, k2, err)
  {
  }

  /** A run that raises does so at one delay count and with one error. */
  lemma FailedUnique(check: WindowCheck, tStart: int, tEnd: int, delayStep: int, maxAttempts: int, k1: nat, err1: Error, k2: nat, err2: Error)
    requires FailedAt(check, tStart, tEnd, delayStep, maxAttempts, k1, err1)
    requires FailedAt(check, tStart, tEnd, delayStep, maxAttempts, k2, err2)
    ensures k1 == k2 && err1 == err2
  {
  }

  /** A clear first check means no delay: the window is returned unchanged. */
  lemma ClearFirstKeepsWindow(check: WindowCheck, tStart: int, tEnd: int, delayStep: int, maxAttempts: int, k: nat, res: Resolution)
    requires check(tStart, tEnd).Success? && check(tStart, tEnd).value.status == Clear
    requires Resolved(check, tStart, tEnd, delayStep, maxAttempts, k, res)
    ensures k == 0 && res == Resolution(check(tStart, tEnd).value, tStart, tEnd)
  {
    assert CheckDelayed(check, tStart, tEnd, delayStep, 0) == check(tStart, tEnd);
  }

  /** Without a positive attempt limit the window is never delayed. */
  lemma NoAttemptsNoDelay(check: WindowCheck, tStart: int, tEnd: int, delayStep: int, maxAttempts: int, k: nat, res: Resolution)
    requires maxAttempts <= 0
    requires Resolved(check, tStart, tEnd, delayStep, maxAttempts, k, res)
    ensures k == 0 && res.tStart == tStart && res.tEnd == tEnd
  {
  }

  /** The returned window is the original shifted by k delays: its length is unchanged. */
  lemma ResolvedShift(check: WindowCheck, tStart: int, tEnd: int, delayStep: int, maxAttempts: int, k: nat, res: Resolution)
    requires Resolved(check, tStart, tEnd, delayStep, maxAttempts, k, res)
    ensures res.tStart == tStart + k * delayStep && res.tEnd == tEnd + k * delayStep
    ensures res.tEnd - res.tStart == tEnd - tStart
  {
    DelayedIsShift(tStart, delayStep, k);
    DelayedIsShift(tEnd, delayStep, k);
  }

  /** A verdict still in conflict comes after exactly max_attempts delays (none when that is negative). */
  lemma GaveUpAfterAllAttempts(check: WindowCheck, tStart: int, tEnd: int, delayStep: int, maxAttempts: int, k: nat, res: Resolution)
    requires Resolved(check, tStart, tEnd, delayStep, maxAttempts, k, res)
    requires res.verdict.status == ConflictDetected
    ensures k == if maxAttempts < 0 then 0 else maxAttempts
  {
  }
}
