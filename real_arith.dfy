// Small facts of ordered-field arithmetic on reals, stated over plain values so that
// the solver meets each product or quotient in isolation.
module RealArith {

  lemma MulLeft(a: real, b: real, c: real)
    requires a <= b && c >= 0.0
    ensures c * a <= c * b
  {
  }

  lemma MulRight(a: real, b: real, c: real)
    requires a <= b && c >= 0.0
    ensures a * c <= b * c
  {
  }

  lemma MulRightStrict(a: real, b: real, c: real)
    requires a < b && c > 0.0
    ensures a * c < b * c
  {
  }

  lemma DivLe(a: real, b: real, c: real)
    requires a <= b && c > 0.0
    ensures a / c <= b / c
  {
  }

  lemma DivNonNeg(a: real, c: real)
    requires a >= 0.0 && c > 0.0
    ensures a / c >= 0.0
  {
  }

  lemma DivSelf(c: real)
    requires c != 0.0
    ensures c / c == 1.0
  {
  }

  lemma MulDivCancel(x: real, m: real)
    requires m != 0.0
    ensures m * (x / m) == x
  {
  }

  /** Consecutive terms a + i*s and a + (i+1)*s differ by s. */
  lemma StepDiff(a: real, s: real, i: real)
    ensures (a + (i + 1.0) * s) - (a + i * s) == s
  {
    assert (i + 1.0) * s == i * s + s;
  }

  /** The proportional time assignment is monotone in the cumulative length. */
  lemma ProportionalMono(c0: real, c1: real, t: real, s: real, d: real, v0: real, v1: real)
    requires c0 <= c1 && t > 0.0 && d >= 0.0
    requires v0 == s + c0 / t * d && v1 == s + c1 / t * d
    ensures v0 <= v1
  {
    DivLe(c0, c1, t);
    MulRight(c0 / t, c1 / t, d);
  }
}
