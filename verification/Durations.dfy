/** Times and lengths of time, in nanoseconds. */
module Durations {

  const SECOND: int := 1_000_000_000
  const MINUTE: int := 60 * SECOND
}
