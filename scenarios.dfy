/**
 * Worked examples: clients that call the engine and show that its contracts
 * pin the result down. Day 1 is Friday 1970-01-02, day 2 Saturday, day 4
 * Monday, day 5 Tuesday.
 */
module Scenarios {
  import opened Clock
  import opened Calendar
  import opened WorkTime
  import opened BusinessDate

  const Friday: int := 1
  const Saturday: int := 2
  const Monday: int := 4
  const Tuesday: int := 5

  function At(day: int, hour: int, minute: int): Instant
    requires 0 <= hour < 24 && 0 <= minute < 60
  {
    Instant(day, hour * MsPerHour + minute * MsPerMinute)
  }

  /** Saturday 10:00 normalizes back to Friday 17:00. */
  method SaturdayNormalizesToFriday() {
    var r := NormalizeBackward(At(Saturday, 10, 0), {});
    var expected := At(Friday, 17, 0);
    assert IsWorkInstant(expected, {});
    assert AtOrBefore(expected, r);
    assert r == expected;
  }

  /** Friday 16:30 plus two business hours: 30 minutes on Friday, 90 on Monday, so Monday 09:30. */
  method FridayAfternoonPlusTwoHours() {
    var start := At(Friday, 16, 30);
    var r := AddBusinessHours(start, 2.0, {});
    var expected := At(Monday, 9, 30);
    SpanOverWeekend(start, expected, {});
    assert WorkMs(start, expected, {}) == 120 * MsPerMinute;
    BusinessHoursResultUnique(start, r, expected, {});
    assert r == expected;
  }

  /** A Monday holiday pushes the same request to Tuesday 09:30. */
  method FridayAfternoonBeforeHolidayMonday() {
    var start := At(Friday, 16, 30);
    var r := AddBusinessHours(start, 2.0, {Monday});
    var expected := At(Tuesday, 9, 30);
    SpanOverWeekend(start, expected, {Monday});
    assert WorkMs(Instant(Monday, 0), expected, {Monday}) == WorkMs(Instant(Tuesday, 0), expected, {Monday}) by {
      WorkMsAdditive(Instant(Monday, 0), Instant(Tuesday, 0), expected, {Monday});
    }
    assert WorkMs(start, expected, {Monday}) == 120 * MsPerMinute;
    BusinessHoursResultUnique(start, r, expected, {Monday});
    assert r == expected;
  }

  /** Monday 11:45 plus half an hour: 15 minutes to noon, lunch skipped, 15 after 13:00. */
  method MorningAcrossLunch() {
    var start := At(Monday, 11, 45);
    var r := AddBusinessHours(start, 0.5, {});
    var expected := At(Monday, 13, 15);
    assert WorkMs(start, expected, {}) == 30 * MsPerMinute;
    BusinessHoursResultUnique(start, r, expected, {});
    assert r == expected;
  }

  /** Friday's business time after `start`, then the weekend, then from midnight of Monday on. */
  lemma SpanOverWeekend(start: Instant, end: Instant, holidays: set<int>)
    requires start.day == Friday && Monday <= end.day
    ensures WorkMs(start, end, holidays)
         == DayWork(Friday, start.ms, MsPerDay, holidays) + WorkMs(Instant(Monday, 0), end, holidays)
  {
    WorkMsAdditive(start, Instant(Saturday, 0), end, holidays);
    WorkMsAdditive(Instant(Saturday, 0), Instant(Monday, 0), end, holidays);
  }

  /** Zero days and zero hours leave the instant as it is. */
  method ZeroIsIdentity() {
    var start := At(Monday, 10, 0);
    var afterDays := AddBusinessDays(start, 0, {});
    var afterHours := AddBusinessHours(start, 0.0, {});
    assert afterDays == start && afterHours == start;
  }

  /** One business day from Friday 10:00 is Monday 10:00. */
  method FridayPlusOneDay() {
    var start := At(Friday, 10, 0);
    var r := AddBusinessDays(start, 1, {});
    assert CountWorking(Friday, Monday, {}) == 1;
    BusinessDaysResultUnique(Friday, r.day, Monday, {});
    assert r == At(Monday, 10, 0);
  }
}
