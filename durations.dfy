/** Durations as whole nanoseconds, as in Go's time.Duration. */
module Durations {
  const Millisecond := 1_000_000
  const Second := 1000 * Millisecond
  const Minute := 60 * Second
  const Hour := 60 * Minute
}
