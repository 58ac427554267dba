/**
 * Business time elapsed between two instants: the milliseconds that fall
 * inside the morning block [08:00, 12:00) or the afternoon block
 * [13:00, 17:00) of a working day. This is the measure that the hour
 * advancer consumes.
 */
module WorkTime {
  import opened Clock
  import opened Calendar

  /** Length of the overlap of [lo, hi) with [start, end). */
  function Overlap(lo: int, hi: int, start: int, end: int): nat {
    var a := if lo < start then start else lo;
    var b := if hi < end then hi else end;
    if a < b then b - a else 0
  }

  /** Business milliseconds of day `day` between the times of day `lo` and `hi`. */
  function DayWork(day: int, lo: int, hi: int, holidays: set<int>): nat {
    if IsWorkingDay(day, holidays) then
      Overlap(lo, hi, MorningStart, MorningEnd) + Overlap(lo, hi, AfternoonStart, AfternoonEnd)
    else 0
  }

  /** Business milliseconds in [a, b). */
  function WorkMs(a: Instant, b: Instant, holidays: set<int>): nat
    requires AtOrBefore(a, b)
    decreases b.day - a.day
  {
    if a.day == b.day then DayWork(a.day, a.ms, b.ms, holidays)
    else DayWork(a.day, a.ms, MsPerDay, holidays) + WorkMs(Instant(a.day + 1, 0), b, holidays)
  }

  /** The business time of a day splits at any time of day. */
  lemma DayWorkSplit(day: int, lo: int, mid: int, hi: int, holidays: set<int>)
    requires lo <= mid <= hi
    ensures DayWork(day, lo, hi, holidays) == DayWork(day, lo, mid, holidays) + DayWork(day, mid, hi, holidays)
  {
  }

  /** Business time over adjacent spans adds up. */
  lemma {:induction false} WorkMsAdditive(a: Instant, b: Instant, c: Instant, holidays: set<int>)
    requires AtOrBefore(a, b) && AtOrBefore(b, c)
    ensures WorkMs(a, c, holidays) == WorkMs(a, b, holidays) + WorkMs(b, c, holidays)
    decreases b.day - a.day
  {
    if a.day == b.day {
      if b.day == c.day {
        DayWorkSplit(a.day, a.ms, b.ms, c.ms, holidays);
      } else {
        DayWorkSplit(a.day, a.ms, b.ms, MsPerDay, holidays);
      }
    } else {
      WorkMsAdditive(Instant(a.day + 1, 0), b, c, holidays);
    }
  }

  /** A later end never has less business time behind it. */
  lemma WorkMsMonotone(a: Instant, b: Instant, c: Instant, holidays: set<int>)
    requires AtOrBefore(a, b) && AtOrBefore(b, c)
    ensures WorkMs(a, b, holidays) <= WorkMs(a, c, holidays)
  {
    WorkMsAdditive(a, b, c, holidays);
  }

  /**
   * From the end of the business part of one day (a non-working day, or at or
   * after 17:00) to 08:00 of a later day, with only non-working days in
   * between, no business time passes.
   */
  lemma {:induction false} SkipIsFree(c: Instant, next: Instant, holidays: set<int>)
    requires !IsWorkingDay(c.day, holidays) || AfternoonEnd <= c.ms
    requires c.day < next.day && next.ms == MorningStart
    requires forall q :: c.day < q < next.day ==> !IsWorkingDay(q, holidays)
    ensures WorkMs(c, next, holidays) == 0
    decreases next.day - c.day
  {
    if c.day + 1 < next.day {
      SkipIsFree(Instant(c.day + 1, 0), next, holidays);
    }
  }

  /** Moving within a day across no part of a work block passes no business time. */
  lemma GapIsFree(c: Instant, ms: int, holidays: set<int>)
    requires c.ms <= ms < MsPerDay
    requires ms <= MorningStart || (MorningEnd <= c.ms && ms <= AfternoonStart) || AfternoonEnd <= c.ms
    ensures WorkMs(c, Instant(c.day, ms), holidays) == 0
  {
  }

  /** Moving within one work block of a working day passes exactly the time moved. */
  lemma WithinBlock(c: Instant, k: nat, holidays: set<int>)
    requires IsWorkingDay(c.day, holidays)
    requires (MorningStart <= c.ms && c.ms + k <= MorningEnd) || (AfternoonStart <= c.ms && c.ms + k <= AfternoonEnd)
    ensures WorkMs(c, Instant(c.day, c.ms + k), holidays) == k
  {
  }

  /** The end of a work block: (08:00, 12:00] or (13:00, 17:00]. */
  predicate EndsInBlock(ms: int) {
    (MorningStart < ms <= MorningEnd) || (AfternoonStart < ms <= AfternoonEnd)
  }

  /**
   * Business time passes just before any block-end instant of a working day,
   * so any earlier instant has strictly less business time behind it.
   */
  lemma WorkBeforeBlockEnd(a: Instant, b: Instant, holidays: set<int>)
    requires AtOrBefore(a, b) && a != b
    requires IsWorkingDay(b.day, holidays) && EndsInBlock(b.ms)
    ensures WorkMs(a, b, holidays) > 0
  {
    var start := if b.ms <= MorningEnd then MorningStart else AfternoonStart;
    var m := if a.day == b.day && start < a.ms then a else Instant(b.day, start);
    WorkMsAdditive(a, m, b, holidays);
    assert WorkMs(m, b, holidays) == b.ms - m.ms;
  }
}
