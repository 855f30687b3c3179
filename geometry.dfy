// Points as rows of a positions array, and the Euclidean length of a difference vector.
module Geometry {

  /** One row of a positions array: a coordinate per spatial axis (2 or 3 of them). */
  type Point = seq<real>

  /** Sum of the squared coordinates of a vector. */
  function SumSq(v: seq<real>): (s: real)
    ensures s >= 0.0
  {
    if v == [] then 0.0
    else
      assert v[0] * v[0] >= 0.0;
      v[0] * v[0] + SumSq(v[1..])
  }

  /** The sum of squares vanishes exactly on the zero vector. */
  lemma {:induction false} SumSqZeroIff(v: seq<real>)
    ensures SumSq(v) == 0.0 <==> forall i :: 0 <= i < |v| ==> v[i] == 0.0
  {
    if v != [] {
      SumSqZeroIff(v[1..]);
      assert forall i :: 1 <= i < |v| ==> v[i] == v[1..][i - 1];
      if v[0] != 0.0 {
        calc {
          SumSq(v);
        ==
          v[0] * v[0] + SumSq(v[1..]);
        >=
          v[0] * v[0];
        >
          0.0;
        }
      }
    }
  }

  /** Coordinate-wise difference `a - b` of two points of the same dimension. */
  function Sub(a: Point, b: Point): (d: Point)
    requires |a| == |b|
    ensures |d| == |a|
    ensures forall i :: 0 <= i < |a| ==> d[i] == a[i] - b[i]
  {
    seq(|a|, i requires 0 <= i < |a| => a[i] - b[i])
  }

  /**
   * `norm` is the Euclidean length (np.linalg.norm of one row): non-negative and
   * squaring to the sum of squares. This pins down the square root exactly.
   */
  ghost predicate IsEuclideanNorm(norm: Point -> real) {
    NonNegativeNorm(norm) && forall v :: norm(v) * norm(v) == SumSq(v)
  }

  /** `norm` never returns a negative length (all the mission timer needs of it). */
  ghost predicate NonNegativeNorm(norm: Point -> real) {
    forall v :: norm(v) >= 0.0
  }

  /** A length is below `r` exactly when `r` is positive and the squared length is below `r * r`. */
  lemma NormBelowIff(norm: Point -> real, v: Point, r: real)
    requires IsEuclideanNorm(norm)
    ensures norm(v) < r <==> 0.0 < r && SumSq(v) < r * r
  {
    var a := norm(v);
    assert a >= 0.0 && a * a == SumSq(v);
    if a < r {
      calc {
        SumSq(v);
      ==
        a * a;
      <=
        a * r;
      <
        r * r;
      }
    } else if 0.0 < r {
      calc {
        r * r;
      <=
        r * a;
      <=
        a * a;
      ==
        SumSq(v);
      }
    }
  }

  /** The zero vector has length 0, and only it does. */
  lemma NormZeroIff(norm: Point -> real, v: Point)
    requires IsEuclideanNorm(norm)
    ensures norm(v) == 0.0 <==> forall i :: 0 <= i < |v| ==> v[i] == 0.0
  {
    var a := norm(v);
    assert a >= 0.0 && a * a == SumSq(v);
    SumSqZeroIff(v);
    if a != 0.0 {
      calc {
        SumSq(v);
      ==
        a * a;
      >
        0.0;
      }
    }
  }

  /** The difference of a point with itself is the zero vector, so it has length 0. */
  lemma NormSubSelf(norm: Point -> real, p: Point)
    requires IsEuclideanNorm(norm)
    ensures norm(Sub(p, p)) == 0.0
  {
    NormZeroIff(norm, Sub(p, p));
  }
}
