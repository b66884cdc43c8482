/** The units of a time, which is a number of nanoseconds since the Unix epoch. */
module Times {
  const MICROSECOND: int := 1000
  const SECOND: int := 1_000_000_000
}
