// Conflict detection between the primary's sampled trajectory and one other flight's:
// every primary sample inside the other flight's time span is compared with the other
// flight's position interpolated at the same time.
module Detector {
  import opened Results
  import opened Geometry
  import opened DataModel
  import opened Interpolation

  /** The time t lies within the other trajectory's span, both ends included. */
  predicate InOverlap(t: real, o: Trajectory)
    requires o.Valid()
  {
    o.times[0] <= t <= o.times[|o.times| - 1]
  }

  /** Some primary sample lies within the other trajectory's span. */
  predicate Overlaps(p: Trajectory, o: Trajectory)
    requires p.Valid() && o.Valid()
  {
    exists i :: 0 <= i < |p.times| && InOverlap(p.times[i], o)
  }

  /** The comparison record for primary sample i, not yet tagged with a flight id. */
  function Encounter(p: Trajectory, o: Trajectory, norm: Point -> real, i: nat): (c: Conflict)
    requires p.Valid() && o.Valid() && p.Dim() == o.Dim() && i < |p.times|
    ensures c.time == p.times[i] && c.primaryPos == p.positions[i] && c.otherId.None?
    ensures c.otherPos == ResampleAt(o.times, o.positions, p.times[i])
    ensures c.distance == norm(Sub(c.primaryPos, c.otherPos))
  {
    var q := ResampleAt(o.times, o.positions, p.times[i]);
    Conflict(p.times[i], p.positions[i], q, norm(Sub(p.positions[i], q)), None)
  }

  /** Primary sample i is in the overlap and closer than the safety radius (strictly). */
  predicate IsHit(p: Trajectory, o: Trajectory, r: real, norm: Point -> real, i: nat)
    requires p.Valid() && o.Valid() && p.Dim() == o.Dim() && i < |p.times|
  {
    InOverlap(p.times[i], o) && Encounter(p, o, norm, i).distance < r
  }

  /** The conflicts among the first k primary samples, in sample order. */
  function ConflictsUpTo(p: Trajectory, o: Trajectory, r: real, norm: Point -> real, k: nat): (cs: seq<Conflict>)
    requires p.Valid() && o.Valid() && p.Dim() == o.Dim() && k <= |p.times|
    ensures |cs| <= k
  {
    if k == 0 then []
    else
      ConflictsUpTo(p, o, r, norm, k - 1) +
        (if IsHit(p, o, r, norm, k - 1) then [Encounter(p, o, norm, k - 1)] else [])
  }

  /**
   * The detection result: no conflicts when no primary sample is in the other span;
   * a shape error when 2D positions meet 3D ones; otherwise the hits in sample order.
   */
  function Detect(p: Trajectory, o: Trajectory, r: real, norm: Point -> real): (res: Result<seq<Conflict>, Error>)
    requires p.Valid() && o.Valid()
    ensures res.Failure? ==> res.error == ShapeMismatch && p.Dim() != o.Dim()
    ensures res.Success? ==> |res.value| <= |p.times|
  {
    if !Overlaps(p, o) then Success([])
    else if p.Dim() != o.Dim() then Failure(ShapeMismatch)
    else Success(ConflictsUpTo(p, o, r, norm, |p.times|))
  }

  /** Builds the overlap mask, then appends one record per hit in sample order. */
  method DetectConflicts(p: Trajectory, o: Trajectory, safetyRadius: real, norm: Point -> real)
    returns (res: Result<seq<Conflict>, Error>)
    requires p.Valid() && o.Valid()
    ensures res == Detect(p, o, safetyRadius, norm)
  {
    var anyOverlap := false;
    var i := 0;
    while i < |p.times|
      invariant 0 <= i <= |p.times|
      invariant anyOverlap <==> exists j :: 0 <= j < i && InOverlap(p.times[j], o)
    {
      if InOverlap(p.times[i], o) {
        anyOverlap := true;
      }
      i := i + 1;
    }
    if !anyOverlap {
      return Success([]);
    }
    if p.Dim() != o.Dim() {
      return Failure(ShapeMismatch);
    }
    var conflicts: seq<Conflict> := [];
    for k := 0 to |p.times|
      invariant conflicts == ConflictsUpTo(p, o, safetyRadius, norm, k)
    {
      if IsHit(p, o, safetyRadius, norm, k) {
        conflicts := conflicts + [Encounter(p, o, norm, k)];
      }
    }
    return Success(conflicts);
  }

  /** Every reported conflict is the record of a primary sample that is a hit. */
  lemma {:induction false} ConflictsSound(p: Trajectory, o: Trajectory, r: real, norm: Point -> real, k: nat)
    requires p.Valid() && o.Valid() && p.Dim() == o.Dim() && k <= |p.times|
    ensures forall c :: c in ConflictsUpTo(p, o, r, norm, k) ==>
      exists i :: 0 <= i < k && IsHit(p, o, r, norm, i) && c == Encounter(p, o, norm, i)
  {
    if k > 0 {
      ConflictsSound(p, o, r, norm, k - 1);
    }
  }

  /** Every primary sample that is a hit is reported. */
  lemma {:induction false} ConflictsComplete(p: Trajectory, o: Trajectory, r: real, norm: Point -> real, k: nat)
    requires p.Valid() && o.Valid() && p.Dim() == o.Dim() && k <= |p.times|
    ensures forall i :: 0 <= i < k && IsHit(p, o, r, norm, i) ==> Encounter(p, o, norm, i) in ConflictsUpTo(p, o, r, norm, k)
  {
    if k > 0 {
      ConflictsComplete(p, o, r, norm, k - 1);
    }
  }

  /** Conflict times strictly increase along the list. */
  predicate Ascending(cs: seq<Conflict>) {
    forall a, b :: 0 <= a < b < |cs| ==> cs[a].time < cs[b].time
  }

  /** With strictly increasing sample times the conflicts come out in strictly increasing time. */
  lemma {:induction false} ConflictsAscending(p: Trajectory, o: Trajectory, r: real, norm: Point -> real, k: nat)
    requires p.Valid() && o.Valid() && p.Dim() == o.Dim() && k <= |p.times|
    requires StrictlyIncreasing(p.times)
    ensures Ascending(ConflictsUpTo(p, o, r, norm, k))
    ensures forall c :: c in ConflictsUpTo(p, o, r, norm, k) ==> k > 0 && c.time <= p.times[k - 1]
  {
    if k > 0 {
      ConflictsAscending(p, o, r, norm, k - 1);
      var prev := ConflictsUpTo(p, o, r, norm, k - 1);
      forall c | c in prev
        ensures c.time < p.times[k - 1]
      {
        assert k - 1 > 0 && c.time <= p.times[k - 2];
      }
      var cs := ConflictsUpTo(p, o, r, norm, k);
      forall a, b | 0 <= a < b < |cs|
        ensures cs[a].time < cs[b].time
      {
        if b >= |prev| {
          assert cs[a] == prev[a] && prev[a] in prev;
          assert cs[b] == Encounter(p, o, norm, k - 1);
          assert prev[a].time < p.times[k - 1];
        } else {
          assert cs[a] == prev[a] && cs[b] == prev[b];
          assert prev[a].time < prev[b].time;
        }
      }
      forall c | c in cs
        ensures c.time <= p.times[k - 1]
      {
        if c !in prev {
          assert c == Encounter(p, o, norm, k - 1);
        }
      }
    }
  }

  /** Without overlap nothing is reported, whatever the shapes. */
  lemma NoOverlapNoConflict(p: Trajectory, o: Trajectory, r: real, norm: Point -> real)
    requires p.Valid() && o.Valid()
    requires forall i :: 0 <= i < |p.times| ==> p.times[i] < o.times[0] || o.times[|o.times| - 1] < p.times[i]
    ensures Detect(p, o, r, norm) == Success([])
  {
  }

  /**
   * With the Euclidean norm a sample in the overlap is a hit exactly when the squared
   * distance is below the squared radius; in particular a radius of zero or less is never met.
   */
  lemma HitIffSquared(p: Trajectory, o: Trajectory, r: real, norm: Point -> real, i: nat)
    requires p.Valid() && o.Valid() && p.Dim() == o.Dim() && i < |p.times|
    requires IsEuclideanNorm(norm)
    ensures var e := Encounter(p, o, norm, i);
      IsHit(p, o, r, norm, i) <==>
        InOverlap(p.times[i], o) && 0.0 < r && SumSq(Sub(e.primaryPos, e.otherPos)) < r * r
  {
    var e := Encounter(p, o, norm, i);
    NormBelowIff(norm, Sub(e.primaryPos, e.otherPos), r);
  }

  /** A non-positive safety radius never reports a conflict. */
  lemma {:induction false} NonPositiveRadiusClear(p: Trajectory, o: Trajectory, r: real, norm: Point -> real, k: nat)
    requires p.Valid() && o.Valid() && p.Dim() == o.Dim() && k <= |p.times|
    requires NonNegativeNorm(norm) && r <= 0.0
    ensures ConflictsUpTo(p, o, r, norm, k) == []
  {
    if k > 0 {
      NonPositiveRadiusClear(p, o, r, norm, k - 1);
      assert Encounter(p, o, norm, k - 1).distance >= 0.0;
    }
  }

  /**
   * A trajectory checked against itself with strictly increasing times and a positive
   * radius conflicts at every sample, at distance zero.
   */
  lemma SelfConflict(p: Trajectory, r: real, norm: Point -> real, i: nat)
    requires p.Valid() && StrictlyIncreasing(p.times) && i < |p.times|
    requires IsEuclideanNorm(norm) && r > 0.0
    ensures IsHit(p, p, r, norm, i) && Encounter(p, p, norm, i).distance == 0.0
  {
    ResampleAtControl(p.times, p.positions, i);
    NormSubSelf(norm, p.positions[i]);
    if i > 0 {
      assert p.times[0] < p.times[i];
    }
    if i < |p.times| - 1 {
      assert p.times[i] < p.times[|p.times| - 1];
    }
  }
}
