/** The notebook's `clamp` cell: bound a pointer coordinate to a closed interval.
    Coordinates are exact reals here; the browser's floating point is not modelled. */
module Clamping {

  /** `clamp(x, lo, hi)`: `lo` when `x` lies below `lo`, otherwise `hi` when `x` lies
      above `hi`, otherwise `x` itself. The first test wins, so an empty interval
      (`hi < lo`) still yields one of its two ends. */
  function Clamp(x: real, lo: real, hi: real): (r: real)
    ensures lo <= hi ==> lo <= r <= hi
    ensures r == lo || r == hi || r == x
  {
    if x < lo then lo else if x > hi then hi else x
  }

  function Abs(a: real): real {
    if a < 0.0 then -a else a
  }

  /** The three cases of `clamp` over a non-empty interval. */
  lemma ClampCases(x: real, lo: real, hi: real)
    requires lo <= hi
    ensures x < lo ==> Clamp(x, lo, hi) == lo
    ensures hi < x ==> Clamp(x, lo, hi) == hi
    ensures lo <= x <= hi ==> Clamp(x, lo, hi) == x
    ensures Clamp(x, lo, hi) == x <==> lo <= x <= hi
  {
  }

  /** Clamping a clamped value changes nothing, as long as the interval is non-empty. */
  lemma ClampIdempotent(x: real, lo: real, hi: real)
    requires lo <= hi
    ensures Clamp(Clamp(x, lo, hi), lo, hi) == Clamp(x, lo, hi)
  {
  }

  /** Over an empty interval the idempotence above fails: a value below `lo` is sent to
      `lo`, which lies above `hi` and is then sent to `hi`. */
  lemma ClampNotIdempotentOnEmptyInterval()
    ensures Clamp(Clamp(0.0, 2.0, 1.0), 2.0, 1.0) != Clamp(0.0, 2.0, 1.0)
  {
  }

  /** Independent characterisation: over a non-empty interval the result is the point of
      the interval nearest to `x` (no point `z` of the interval is closer). */
  lemma ClampIsNearest(x: real, lo: real, hi: real, z: real)
    requires lo <= z <= hi
    ensures lo <= Clamp(x, lo, hi) <= hi
    ensures Abs(x - Clamp(x, lo, hi)) <= Abs(x - z)
  {
  }

  /** Clamping preserves order: a pointer further right is never pinned further left. */
  lemma ClampMonotone(x: real, y: real, lo: real, hi: real)
    requires lo <= hi && x <= y
    ensures Clamp(x, lo, hi) <= Clamp(y, lo, hi)
  {
  }
}
