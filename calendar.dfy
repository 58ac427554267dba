/**
 * Which calendar days are working days: the ISO weekday rule of
 * src/businessDate.ts:12-14 combined with a holiday calendar. The holiday
 * calendar is the finite set of day numbers that the service looks up; its
 * finiteness is what bounds every day-by-day search of the engine.
 */
module Calendar {
  import opened Clock

  /** ISO 8601 weekday of a day number: Monday = 1 ... Sunday = 7; 1970-01-01 was a Thursday. */
  function Weekday(day: int): (w: int)
    ensures 1 <= w <= 7
  {
    (day + 3) % 7 + 1
  }

  /** Weekday numbering starts on the epoch's Thursday and advances cyclically one per day. */
  lemma WeekdayCycle(day: int)
    ensures Weekday(0) == 4
    ensures Weekday(day + 1) == if Weekday(day) == 7 then 1 else Weekday(day) + 1
    ensures Weekday(day + 7) == Weekday(day)
  {
  }

  /**
   * src/businessDate.ts:12-14: Saturday (6) or Sunday (7). Anchored to the
   * calendar: day 2 (1970-01-03) was a Saturday and day 3 a Sunday, and
   * weekends recur every seven days.
   */
  predicate IsWeekend(day: int)
    ensures IsWeekend(day) <==> (day - 2) % 7 == 0 || (day - 3) % 7 == 0
  {
    Weekday(day) == 6 || Weekday(day) == 7
  }

  /**
   * The negation of the test `isWeekend(cursor) || isHoliday(cursor)` that
   * every loop and branch of the engine applies: Monday to Friday and not a holiday.
   */
  predicate IsWorkingDay(day: int, holidays: set<int>)
    ensures IsWorkingDay(day, holidays) <==> 1 <= Weekday(day) <= 5 && day !in holidays
  {
    !IsWeekend(day) && day !in holidays
  }

  // ---------------------------------------------------------------------
  // Termination of the day-by-day searches. The source has no bound; with
  // a finite holiday set, each step over a non-working day either passes a
  // holiday (finitely many remain on that side) or moves through a weekend
  // (at most two days in a row).
  // ---------------------------------------------------------------------

  function HolidaysFrom(holidays: set<int>, day: int): set<int> {
    set h | h in holidays && h >= day
  }

  function HolidaysUpTo(holidays: set<int>, day: int): set<int> {
    set h | h in holidays && h <= day
  }

  /** Days to the next weekday when walking forward (Saturday 2, Sunday 1). */
  function DaysToWeekdayForward(day: int): nat {
    if Weekday(day) == 6 then 2 else if Weekday(day) == 7 then 1 else 0
  }

  /** Days to the previous weekday when walking backward (Sunday 2, Saturday 1). */
  function DaysToWeekdayBackward(day: int): nat {
    if Weekday(day) == 7 then 2 else if Weekday(day) == 6 then 1 else 0
  }

  function ForwardFuel(day: int, holidays: set<int>): nat {
    3 * |HolidaysFrom(holidays, day)| + DaysToWeekdayForward(day)
  }

  function BackwardFuel(day: int, holidays: set<int>): nat {
    3 * |HolidaysUpTo(holidays, day)| + DaysToWeekdayBackward(day)
  }

  /** Stepping forward off a non-working day uses up fuel. */
  lemma ForwardFuelDecreases(day: int, holidays: set<int>)
    requires !IsWorkingDay(day, holidays)
    ensures ForwardFuel(day + 1, holidays) < ForwardFuel(day, holidays)
  {
    WeekdayCycle(day);
    if day in holidays {
      assert HolidaysFrom(holidays, day + 1) == HolidaysFrom(holidays, day) - {day};
    } else {
      assert HolidaysFrom(holidays, day + 1) == HolidaysFrom(holidays, day);
    }
  }

  /** Stepping backward off a non-working day uses up fuel. */
  lemma BackwardFuelDecreases(day: int, holidays: set<int>)
    requires !IsWorkingDay(day, holidays)
    ensures BackwardFuel(day - 1, holidays) < BackwardFuel(day, holidays)
  {
    WeekdayCycle(day - 1);
    if day in holidays {
      assert HolidaysUpTo(holidays, day - 1) == HolidaysUpTo(holidays, day) - {day};
    } else {
      assert HolidaysUpTo(holidays, day - 1) == HolidaysUpTo(holidays, day);
    }
  }

  /**
   * The forward searches always stop: a working day lies within
   * 3 * |holidays| + 2 days of any day.
   */
  lemma {:induction false} WorkingDayWithin(day: int, holidays: set<int>)
    ensures exists w :: day <= w <= day + 3 * |holidays| + 2 && IsWorkingDay(w, holidays)
  {
    FuelBoundsSearch(day, holidays);
    SubsetCardinality(HolidaysFrom(holidays, day), holidays);
    var w :| day <= w <= day + ForwardFuel(day, holidays) && IsWorkingDay(w, holidays);
    assert w <= day + 3 * |holidays| + 2;
  }

  lemma SubsetCardinality(a: set<int>, b: set<int>)
    requires a <= b
    ensures |a| <= |b|
  {
    assert b == a + (b - a);
  }

  lemma {:induction false} FuelBoundsSearch(day: int, holidays: set<int>)
    ensures exists w :: day <= w <= day + ForwardFuel(day, holidays) && IsWorkingDay(w, holidays)
    decreases ForwardFuel(day, holidays)
  {
    if !IsWorkingDay(day, holidays) {
      ForwardFuelDecreases(day, holidays);
      FuelBoundsSearch(day + 1, holidays);
    } else {
      assert IsWorkingDay(day, holidays);
    }
  }

  // ---------------------------------------------------------------------
  // Counting working days.
  // ---------------------------------------------------------------------

  /** The number of working days in the half-open range (lo, hi]. */
  function CountWorking(lo: int, hi: int, holidays: set<int>): nat
    requires lo <= hi
    decreases hi - lo
  {
    if lo == hi then 0
    else CountWorking(lo, hi - 1, holidays) + (if IsWorkingDay(hi, holidays) then 1 else 0)
  }

  /** Counts over adjacent ranges add up. */
  lemma {:induction false} CountWorkingAdditive(a: int, b: int, c: int, holidays: set<int>)
    requires a <= b <= c
    ensures CountWorking(a, c, holidays) == CountWorking(a, b, holidays) + CountWorking(b, c, holidays)
    decreases c - b
  {
    if b < c {
      CountWorkingAdditive(a, b, c - 1, holidays);
    }
  }

  /** A range that ends on a working day contains at least that one. */
  lemma {:induction false} CountWorkingEndsOnWorkingDay(lo: int, hi: int, holidays: set<int>)
    requires lo < hi && IsWorkingDay(hi, holidays)
    ensures CountWorking(lo, hi, holidays) >= 1
  {
  }
}
