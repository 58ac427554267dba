/**
 * Civil time in the reference zone America/Bogota (src/businessDate.ts:6),
 * which has been UTC-5 since 1993. An instant is a calendar day number and a
 * millisecond of that day. Adding a day keeps the wall-clock time because
 * luxon's `plus({ days })` is calendar-day arithmetic on local time.
 */
module Clock {

  const MsPerMinute: int := 60_000
  const MsPerHour: int := 3_600_000
  const MsPerDay: int := 86_400_000

  /** The work schedule, in hours of the day (src/businessDate.ts:7-10). */
  const MorningStartHour: int := 8
  const MorningEndHour: int := 12
  const AfternoonStartHour: int := 13
  const AfternoonEndHour: int := 17

  /** The same boundaries as milliseconds of the day, each at hh:00:00.000. */
  const MorningStart: int := MorningStartHour * MsPerHour
  const MorningEnd: int := MorningEndHour * MsPerHour
  const AfternoonStart: int := AfternoonStartHour * MsPerHour
  const AfternoonEnd: int := AfternoonEndHour * MsPerHour

  type MsOfDay = m: int | 0 <= m < MsPerDay

  /** A local instant: day 0 is 1970-01-01; `ms` counts milliseconds since midnight. */
  datatype Instant = Instant(day: int, ms: MsOfDay)

  /** The wall-clock hour (luxon's `hour`). */
  function Hour(t: Instant): (h: int)
    ensures 0 <= h < 24
    ensures h * MsPerHour <= t.ms < (h + 1) * MsPerHour
  {
    t.ms / MsPerHour
  }

  /** The wall-clock minute within the hour (luxon's `minute`). */
  function Minute(t: Instant): (m: int)
    ensures 0 <= m < 60
    ensures Hour(t) * MsPerHour + m * MsPerMinute <= t.ms < Hour(t) * MsPerHour + (m + 1) * MsPerMinute
  {
    (t.ms / MsPerMinute) % 60
  }

  /** Chronological order of instants (the source's `<=` on DateTime). */
  predicate AtOrBefore(a: Instant, b: Instant) {
    a.day < b.day || (a.day == b.day && a.ms <= b.ms)
  }

  /** An instant with zero seconds and milliseconds. */
  predicate OnWholeMinute(t: Instant) {
    t.ms % MsPerMinute == 0
  }
}
