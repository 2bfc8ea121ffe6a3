/** Time as nanoseconds since Go's zero time, which is itself the "not set" sentinel. */
module Clock {
  type Time = int
  type Duration = int

  const ZERO_TIME: Time := 0
  const NANOS_PER_MILLI := 1_000_000
  const MILLIS_BEFORE_UNIX_EPOCH := 62_135_596_800_000

  /** Milliseconds since the Unix epoch, rounded down. */
  function UnixMillis(t: Time): int {
    t / NANOS_PER_MILLI - MILLIS_BEFORE_UNIX_EPOCH
  }
}
