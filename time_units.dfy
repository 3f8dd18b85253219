/** Millisecond lengths of the time units the watchdog works in. */
module TimeUnits {
  const MillisPerMinute: int := 60 * 1000
  const MillisPerHour: int := 60 * MillisPerMinute
  const HalfHourMillis: int := 30 * MillisPerMinute
}
