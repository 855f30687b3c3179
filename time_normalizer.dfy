// The numeric branch of the time normalizer: a whole number of seconds becomes a real.
module TimeNormalizer {

  /** A numeric time passes through as seconds, unchanged in value. */
  function ToSeconds(t: int): (s: real)
    ensures s == t as real
  {
    t as real
  }
}
