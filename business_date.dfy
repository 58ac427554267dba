/**
 * The business-time arithmetic engine of src/businessDate.ts. Each operation
 * walks a cursor through the calendar as the source does; holidays are a
 * finite set of day numbers (the injected holiday predicate, made pure).
 */
module BusinessDate {
  import opened Clock
  import opened Calendar
  import opened WorkTime

  // ---------------------------------------------------------------------
  // previousWorkingDay
  // ---------------------------------------------------------------------

  /**
   * src/businessDate.ts:23-33: the last working day strictly before the
   * input's day, at 17:00:00.000; every day skipped on the way is non-working.
   */
  method PreviousWorkingDay(t: Instant, holidays: set<int>) returns (r: Instant)
    ensures r.day < t.day && IsWorkingDay(r.day, holidays)
    ensures forall q :: r.day < q < t.day ==> !IsWorkingDay(q, holidays)
    ensures r.ms == AfternoonEnd
  {
    var cursor := Instant(t.day - 1, 0);
    while IsWeekend(cursor.day) || cursor.day in holidays
      invariant cursor.day < t.day && cursor.ms == 0
      invariant forall q :: cursor.day < q < t.day ==> !IsWorkingDay(q, holidays)
      decreases BackwardFuel(cursor.day, holidays)
    {
      BackwardFuelDecreases(cursor.day, holidays);
      cursor := Instant(cursor.day - 1, 0);
    }
    r := Instant(cursor.day, AfternoonEnd);
  }

  /**
   * The contract of PreviousWorkingDay determines the day: at most one working
   * day before `day` has only non-working days between it and `day`.
   */
  lemma PreviousWorkingDayUnique(day: int, p1: int, p2: int, holidays: set<int>)
    requires p1 < day && IsWorkingDay(p1, holidays) && (forall q :: p1 < q < day ==> !IsWorkingDay(q, holidays))
    requires p2 < day && IsWorkingDay(p2, holidays) && (forall q :: p2 < q < day ==> !IsWorkingDay(q, holidays))
    ensures p1 == p2
  {
  }

  // ---------------------------------------------------------------------
  // normalizeBackwardToNearestWorkTime
  // ---------------------------------------------------------------------

  /**
   * A legal starting point for the advancers: a working day, whole minute,
   * and a time in [08:00, 12:00] or [13:00, 17:00].
   */
  predicate IsWorkInstant(t: Instant, holidays: set<int>) {
    && IsWorkingDay(t.day, holidays)
    && OnWholeMinute(t)
    && ((MorningStart <= t.ms <= MorningEnd) || (AfternoonStart <= t.ms <= AfternoonEnd))
  }

  /** `r` is the latest work instant at or before `t`. */
  ghost predicate IsLatestWorkInstant(r: Instant, t: Instant, holidays: set<int>) {
    && IsWorkInstant(r, holidays)
    && AtOrBefore(r, t)
    && forall x :: IsWorkInstant(x, holidays) && AtOrBefore(x, t) ==> AtOrBefore(x, r)
  }

  /**
   * src/businessDate.ts:38-71: five ordered branches. A non-working day or
   * a time before 08:00 goes to the previous working day at 17:00; hour 12
   * gives 12:00; 17:01 or later gives 17:00; anything else drops seconds and
   * milliseconds. Together they pick the latest work instant at or before
   * the input.
   */
  method NormalizeBackward(t: Instant, holidays: set<int>) returns (r: Instant)
    ensures IsLatestWorkInstant(r, t, holidays)
  {
    if IsWeekend(t.day) || t.day in holidays {
      r := PreviousWorkingDay(t, holidays);
      return;
    }

    var hour := Hour(t);
    var minute := Minute(t);

    if hour < MorningStartHour {
      r := PreviousWorkingDay(t, holidays);
      return;
    }

    if hour == MorningEndHour {
      r := Instant(t.day, MorningEnd);
      return;
    }

    if hour > AfternoonEndHour || (hour == AfternoonEndHour && minute > 0) {
      r := Instant(t.day, AfternoonEnd);
      return;
    }

    r := Instant(t.day, t.ms - t.ms % MsPerMinute);
  }

  /**
   * Hours 8-11, 13-16, and 17 with minute 0, as milliseconds of the day: the
   * fall-through branch of src/businessDate.ts:68 keeps the time inside the
   * schedule. A fact about that branch on its own; NormalizeBackward's proof
   * does not need it.
   */
  lemma WithinWorkHours(t: Instant)
    requires MorningStartHour <= Hour(t) && Hour(t) != MorningEndHour
    requires Hour(t) < AfternoonEndHour || (Hour(t) == AfternoonEndHour && Minute(t) == 0)
    ensures var m := t.ms - t.ms % MsPerMinute;
      (MorningStart <= m < MorningEnd) || (AfternoonStart <= m <= AfternoonEnd)
  {
  }

  /**
   * A whole-minute time at or before `ms` is at or before `ms` rounded down to
   * the minute: the floor of src/businessDate.ts:68 skips no earlier work
   * instant. A fact on its own; NormalizeBackward's proof does not need it.
   */
  lemma FloorToMinute(x: int, ms: int)
    requires 0 <= x <= ms && x % MsPerMinute == 0
    ensures x <= ms - ms % MsPerMinute
  {
  }

  /** At most one instant is the latest work instant at or before `t`. */
  lemma LatestWorkInstantUnique(r1: Instant, r2: Instant, t: Instant, holidays: set<int>)
    requires IsLatestWorkInstant(r1, t, holidays) && IsLatestWorkInstant(r2, t, holidays)
    ensures r1 == r2
  {
  }

  /** Normalizing a normalized instant returns it unchanged. */
  lemma NormalizeIdempotent(t: Instant, r: Instant, r2: Instant, holidays: set<int>)
    requires IsLatestWorkInstant(r, t, holidays)
    requires IsLatestWorkInstant(r2, r, holidays)
    ensures r2 == r
  {
  }

  /** Normalization is monotone: a later input never normalizes to an earlier instant. */
  lemma NormalizeMonotone(t1: Instant, r1: Instant, t2: Instant, r2: Instant, holidays: set<int>)
    requires AtOrBefore(t1, t2)
    requires IsLatestWorkInstant(r1, t1, holidays) && IsLatestWorkInstant(r2, t2, holidays)
    ensures AtOrBefore(r1, r2)
  {
  }

  // ---------------------------------------------------------------------
  // addBusinessDays
  // ---------------------------------------------------------------------

  /**
   * `r` is `t` moved forward by `days` business days: the input itself when
   * `days` <= 0, otherwise the same time of day on the working day that ends
   * a range (t's day, r's day] holding exactly `days` working days.
   */
  predicate AddsBusinessDays(t: Instant, days: int, r: Instant, holidays: set<int>) {
    && (days <= 0 ==> r == t)
    && (days > 0 ==> && t.day < r.day && r.ms == t.ms
                     && IsWorkingDay(r.day, holidays)
                     && CountWorking(t.day, r.day, holidays) == days)
  }

  /**
   * src/businessDate.ts:76-89: with `days` <= 0 the input comes back
   * unchanged; otherwise the result keeps the time of day, lies on a working
   * day, and exactly `days` working days lie in (input day, result day].
   */
  method AddBusinessDays(t: Instant, days: int, holidays: set<int>) returns (r: Instant)
    ensures AddsBusinessDays(t, days, r, holidays)
  {
    var cursor := t;
    for i := 0 to if days < 0 then 0 else days
      invariant cursor.ms == t.ms && t.day <= cursor.day
      invariant CountWorking(t.day, cursor.day, holidays) == i
      invariant i == 0 ==> cursor == t
      invariant i > 0 ==> IsWorkingDay(cursor.day, holidays)
    {
      cursor := Instant(cursor.day + 1, cursor.ms);
      while IsWeekend(cursor.day) || cursor.day in holidays
        invariant cursor.ms == t.ms && t.day < cursor.day
        invariant CountWorking(t.day, cursor.day - 1, holidays) == i
        decreases ForwardFuel(cursor.day, holidays)
      {
        ForwardFuelDecreases(cursor.day, holidays);
        cursor := Instant(cursor.day + 1, cursor.ms);
      }
    }
    r := cursor;
  }

  /** The day reached by adding business days is determined by the count. */
  lemma BusinessDaysResultUnique(start: int, d1: int, d2: int, holidays: set<int>)
    requires start < d1 && start < d2
    requires IsWorkingDay(d1, holidays) && IsWorkingDay(d2, holidays)
    requires CountWorking(start, d1, holidays) == CountWorking(start, d2, holidays)
    ensures d1 == d2
  {
    if d1 < d2 {
      CountWorkingAdditive(start, d1, d2, holidays);
      CountWorkingEndsOnWorkingDay(d1, d2, holidays);
    } else if d2 < d1 {
      CountWorkingAdditive(start, d2, d1, holidays);
      CountWorkingEndsOnWorkingDay(d2, d1, holidays);
    }
  }

  /** Adding `a` then `b` business days reaches the same instant as adding `a + b`. */
  lemma BusinessDaysCompose(t: Instant, a: int, b: int, r1: Instant, r2: Instant, r3: Instant, holidays: set<int>)
    requires a >= 0 && b >= 0
    requires AddsBusinessDays(t, a, r1, holidays)
    requires AddsBusinessDays(r1, b, r2, holidays)
    requires AddsBusinessDays(t, a + b, r3, holidays)
    ensures r2 == r3
  {
    if a > 0 && b > 0 {
      CountWorkingAdditive(t.day, r1.day, r2.day, holidays);
    }
    if a + b > 0 {
      BusinessDaysResultUnique(t.day, r2.day, r3.day, holidays);
    }
  }

  // ---------------------------------------------------------------------
  // addBusinessHours
  // ---------------------------------------------------------------------

  /** `Math.round(hours * 60)`: the nearest whole minute, halves rounded up. */
  function RoundToMinutes(hours: real): (n: int)
    ensures hours * 60.0 - 0.5 < n as real <= hours * 60.0 + 0.5
  {
    (hours * 60.0 + 0.5).Floor
  }

  /**
   * src/businessDate.ts:101-105 and 132-134: the next working day after the
   * cursor's day, at 08:00:00.000.
   */
  method NextWorkingMorning(c: Instant, holidays: set<int>) returns (next: Instant)
    ensures c.day < next.day && IsWorkingDay(next.day, holidays) && next.ms == MorningStart
    ensures forall q :: c.day < q < next.day ==> !IsWorkingDay(q, holidays)
  {
    next := Instant(c.day + 1, MorningStart);
    while IsWeekend(next.day) || next.day in holidays
      invariant c.day < next.day && next.ms == MorningStart
      invariant forall q :: c.day < q < next.day ==> !IsWorkingDay(q, holidays)
      decreases ForwardFuel(next.day, holidays)
    {
      ForwardFuelDecreases(next.day, holidays);
      next := Instant(next.day + 1, MorningStart);
    }
  }

  /**
   * How far the cursor is from a step that consumes minutes: 0 when the next
   * iteration consumes, otherwise the number of non-consuming moves left.
   */
  function Phase(c: Instant, holidays: set<int>): nat {
    if !IsWorkingDay(c.day, holidays) || AfternoonEnd <= c.ms then 1
    else if AfternoonStart <= c.ms && AfternoonEnd - c.ms < MsPerMinute then 2
    else if MorningStart <= c.ms < MorningEnd && MorningEnd - c.ms < MsPerMinute then 1
    else 0
  }

  /**
   * src/businessDate.ts:94-157: consumes `round(hours * 60)` business minutes
   * block by block. A positive amount ends on a working day at a block end
   * or inside a block, after exactly that many business minutes from a
   * whole-minute start; from a start with seconds, the floor at line 140 can
   * skip less than one more minute before a block end.
   */
  method AddBusinessHours(t: Instant, hours: real, holidays: set<int>) returns (r: Instant)
    ensures RoundToMinutes(hours) <= 0 ==> r == t
    ensures RoundToMinutes(hours) > 0 ==>
      && AtOrBefore(t, r)
      && IsWorkingDay(r.day, holidays)
      && EndsInBlock(r.ms)
      && RoundToMinutes(hours) * MsPerMinute <= WorkMs(t, r, holidays) < (RoundToMinutes(hours) + 1) * MsPerMinute
    ensures RoundToMinutes(hours) > 0 && OnWholeMinute(t) ==>
      WorkMs(t, r, holidays) == RoundToMinutes(hours) * MsPerMinute
  {
    var cursor := t;
    var remainingMinutes := RoundToMinutes(hours);
    ghost var total := remainingMinutes;
    ghost var lost := 0;

    while remainingMinutes > 0
      invariant HoursInvariant(t, cursor, remainingMinutes, total, lost, holidays)
      decreases remainingMinutes, Phase(cursor, holidays)
    {
      if IsWeekend(cursor.day) || cursor.day in holidays {
        var next := NextWorkingMorning(cursor, holidays);
        SkipIsFree(cursor, next, holidays);
        FreeMove(t, cursor, next, remainingMinutes, total, lost, holidays);
        cursor := next;
        continue;
      }

      var end: int;
      if cursor.ms < MorningStart {
        var snapped := Instant(cursor.day, MorningStart);
        GapIsFree(cursor, MorningStart, holidays);
        FreeMove(t, cursor, snapped, remainingMinutes, total, lost, holidays);
        cursor := snapped;
        end := MorningEnd;
      } else if cursor.ms < MorningEnd {
        end := MorningEnd;
      } else if cursor.ms < AfternoonStart {
        var snapped := Instant(cursor.day, AfternoonStart);
        GapIsFree(cursor, AfternoonStart, holidays);
        FreeMove(t, cursor, snapped, remainingMinutes, total, lost, holidays);
        cursor := snapped;
        end := AfternoonEnd;
      } else if cursor.ms < AfternoonEnd {
        end := AfternoonEnd;
      } else {
        var next := NextWorkingMorning(cursor, holidays);
        SkipIsFree(cursor, next, holidays);
        FreeMove(t, cursor, next, remainingMinutes, total, lost, holidays);
        cursor := next;
        continue;
      }

      var diffMinutes := (end - cursor.ms) / MsPerMinute;
      if diffMinutes == 0 {
        SubMinuteToEnd(t, cursor, end, remainingMinutes, total, lost, holidays);
        lost := lost + (end - cursor.ms);
        cursor := Instant(cursor.day, end);
        continue;
      }
      var take := if diffMinutes < remainingMinutes then diffMinutes else remainingMinutes;
      Consume(t, cursor, end, take, remainingMinutes, total, lost, holidays);
      cursor := Instant(cursor.day, cursor.ms + take * MsPerMinute);
      remainingMinutes := remainingMinutes - take;
    }
    r := cursor;
  }

  /** What AddBusinessHours keeps true from one iteration to the next. */
  ghost predicate HoursInvariant(t: Instant, cursor: Instant, remaining: int, total: int, lost: int, holidays: set<int>) {
    && remaining <= total
    && (total <= 0 ==> cursor == t)
    && (total > 0 ==> 0 <= remaining)
    && AtOrBefore(t, cursor)
    && WorkMs(t, cursor, holidays) == (total - remaining) * MsPerMinute + lost
    && 0 <= lost < MsPerMinute
    && (lost > 0 ==> OnWholeMinute(cursor))
    && (OnWholeMinute(t) ==> lost == 0 && OnWholeMinute(cursor))
    && (total > 0 && remaining == 0 ==> IsWorkingDay(cursor.day, holidays) && EndsInBlock(cursor.ms))
  }

  /** A move that passes no business time and lands on a whole minute keeps the invariant. */
  lemma FreeMove(t: Instant, c: Instant, next: Instant, remaining: int, total: int, lost: int, holidays: set<int>)
    requires HoursInvariant(t, c, remaining, total, lost, holidays) && remaining > 0
    requires AtOrBefore(c, next) && WorkMs(c, next, holidays) == 0 && OnWholeMinute(next)
    ensures HoursInvariant(t, next, remaining, total, lost, holidays)
  {
    WorkMsAdditive(t, c, next, holidays);
  }

  /** Consuming `take` whole minutes inside the block that ends at `end` keeps the invariant. */
  lemma Consume(t: Instant, c: Instant, end: int, take: int, remaining: int, total: int, lost: int, holidays: set<int>)
    requires HoursInvariant(t, c, remaining, total, lost, holidays)
    requires IsWorkingDay(c.day, holidays)
    requires (MorningStart <= c.ms < MorningEnd && end == MorningEnd) || (AfternoonStart <= c.ms < AfternoonEnd && end == AfternoonEnd)
    requires 1 <= take <= remaining && take <= (end - c.ms) / MsPerMinute
    ensures c.ms + take * MsPerMinute <= end
    ensures HoursInvariant(t, Instant(c.day, c.ms + take * MsPerMinute), remaining - take, total, lost, holidays)
  {
    assert take * MsPerMinute <= end - c.ms;
    var moved := Instant(c.day, c.ms + take * MsPerMinute);
    WorkMsAdditive(t, c, moved, holidays);
    WithinBlock(c, take * MsPerMinute, holidays);
  }

  /**
   * Less than a minute before a block end, the cursor moves to the end; the
   * business time skipped there is lost, which can happen at most once.
   */
  lemma SubMinuteToEnd(t: Instant, c: Instant, end: int, remaining: int, total: int, lost: int, holidays: set<int>)
    requires HoursInvariant(t, c, remaining, total, lost, holidays) && remaining > 0
    requires IsWorkingDay(c.day, holidays)
    requires (MorningStart <= c.ms && end == MorningEnd) || (AfternoonStart <= c.ms && end == AfternoonEnd)
    requires c.ms < end && end - c.ms < MsPerMinute
    ensures HoursInvariant(t, Instant(c.day, end), remaining, total, lost + (end - c.ms), holidays)
  {
    assert !OnWholeMinute(c);
    var atEnd := Instant(c.day, end);
    WorkMsAdditive(t, c, atEnd, holidays);
    WithinBlock(c, end - c.ms, holidays);
  }

  /**
   * The contract of AddBusinessHours determines its result: two block-end
   * instants on working days with the same business time behind them are equal.
   */
  lemma BusinessHoursResultUnique(t: Instant, r1: Instant, r2: Instant, holidays: set<int>)
    requires AtOrBefore(t, r1) && AtOrBefore(t, r2)
    requires IsWorkingDay(r1.day, holidays) && EndsInBlock(r1.ms)
    requires IsWorkingDay(r2.day, holidays) && EndsInBlock(r2.ms)
    requires WorkMs(t, r1, holidays) == WorkMs(t, r2, holidays)
    ensures r1 == r2
  {
    if r1 != r2 {
      if AtOrBefore(r1, r2) {
        WorkMsAdditive(t, r1, r2, holidays);
        WorkBeforeBlockEnd(r1, r2, holidays);
      } else {
        WorkMsAdditive(t, r2, r1, holidays);
        WorkBeforeBlockEnd(r2, r1, holidays);
      }
    }
  }

  /** More business time from the same start ends strictly later. */
  lemma BusinessHoursMonotone(t: Instant, r1: Instant, r2: Instant, holidays: set<int>)
    requires AtOrBefore(t, r1) && AtOrBefore(t, r2)
    requires WorkMs(t, r1, holidays) < WorkMs(t, r2, holidays)
    ensures AtOrBefore(r1, r2) && r1 != r2
  {
    if AtOrBefore(r2, r1) {
      WorkMsAdditive(t, r2, r1, holidays);
    }
  }
}
