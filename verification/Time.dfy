// Units of the clock readings.

module Time {
  /** Readings are in nanoseconds. */
  const MS: int := 1_000_000

  const SECOND: int := 1000 * MS
}
