/**
 * The part of Go's `time` package the conditional-GET rule uses. A
 * `time.Time` is modelled as its instant: a count of nanoseconds since Go's
 * zero time (January 1, year 1, 00:00:00 UTC), so that `IsZero` is a test
 * against 0 and `Truncate(time.Second)` rounds down to a whole second.
 */
module GoTime {
  import opened Wrappers

  type Time = int

  /** `time.Time{}`, the value a failed parse returns. */
  const Zero: Time := 0

  /** `time.Second` in nanoseconds. */
  const Second: int := 1_000_000_000

  /** `t.IsZero()`. */
  predicate IsZero(t: Time)
  {
    t == Zero
  }

  /** `t.After(u)`. */
  predicate After(t: Time, u: Time)
  {
    t > u
  }

  /** `t.Truncate(time.Second)`: the latest whole second since the zero time not after `t`. */
  function TruncateToSecond(t: Time): (r: Time)
    ensures r % Second == 0
    ensures r <= t < r + Second
  {
    t - t % Second
  }

  /**
   * `http.ParseTime(s)` seen through its result: `parse` is the date parser,
   * treated as an opaque partial function; where it fails, Go returns the
   * zero time alongside the error.
   */
  function ParseTimeOrZero(parse: string -> Option<Time>, s: string): Time
  {
    parse(s).GetOr(Zero)
  }
}
