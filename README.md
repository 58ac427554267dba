# Business-time arithmetic in Bogotá civil time

This project models the engine that answers "what instant results from adding N business days
and/or M business hours to a starting instant". All work happens in Bogotá local time
(America/Bogota, UTC−5 since 1993). The schedule is a morning block 08:00–12:00 and an
afternoon block 13:00–17:00. Saturday and Sunday are not working days (ISO weekdays 6 and 7). A
holiday calendar is injected by the caller.

The engine has four operations. Each one walks a cursor through the calendar the same way the
source does:

- `PreviousWorkingDay` steps back one day at a time to the last working day before the input,
  then sets the time to 17:00.
- `NormalizeBackward` moves any instant back to a legal working instant, using five ordered
  branches.
- `AddBusinessDays` moves forward a whole number of working days and keeps the wall-clock time.
- `AddBusinessHours` consumes `round(hours·60)` business minutes one block at a time. It skips
  lunch, the time before opening, the time after closing, weekends and holidays.

How the model represents things:

- An instant is a day number plus a millisecond of that day. Day 0 is 1970-01-01, a Thursday.
  Milliseconds are kept, so inputs with seconds are modelled too.
- The holiday calendar is a finite `set<int>` of day numbers.
- Because the calendar is finite, every day-by-day search terminates. Walking forward, the
  decreasing measure is `3 × (holidays on or after the cursor) + (days to the next weekday)`.
  Walking backward, it is `3 × (holidays on or before the cursor) + (days back to the previous
  weekday)`.

Each operation has a specification that is independent of its own code:

- `PreviousWorkingDay`: the result is the last working day before the input's day, and every day
  skipped on the way is non-working.
- `NormalizeBackward`: the result is the **latest work instant at or before the input**. A work
  instant is on a working day, on a whole minute, and at a time in [08:00, 12:00] or
  [13:00, 17:00]. The five branches of the source together compute exactly this instant.
  Uniqueness, idempotence and monotonicity follow as lemmas.
- `AddBusinessDays`: exactly `days` working days lie in the range (input day, result day].
- `AddBusinessHours`: from a whole-minute start, the business time between the input and the
  result (`WorkTime.WorkMs`) equals the rounded number of minutes. From any start it is at least
  that and less than one minute more. The result lies on a working day, inside the block intervals
  (08:00, 12:00] or (13:00, 17:00]. A lemma shows that, from a whole-minute start, these facts
  pin down the result.

Friday 16:30 plus two business hours is Monday 09:30: 30 minutes on Friday and 90 on Monday
from 08:00 (`Scenarios.FridayAfternoonPlusTwoHours`).

Files:

- `clock.dfy`: instants and the schedule constants.
- `calendar.dfy`: weekdays, working days, the termination measure and the count of working days.
- `worktime.dfy`: the business-time measure.
- `business_date.dfy`: the engine.
- `scenarios.dfy`: worked examples that call the engine.

## Model

| member | source | states |
|---|---|---|
| Clock.Hour | src/businessDate.ts:47 | the wall-clock hour is in 0..23 and its hour brackets the millisecond of the day |
| Clock.Minute | src/businessDate.ts:48 | the minute within the hour is in 0..59 and, with the hour, brackets the millisecond of the day |
| Calendar.Weekday | src/businessDate.ts:13 | the ISO weekday of a day number is in 1..7 |
| Calendar.WeekdayCycle | src/businessDate.ts:12-14 | 1970-01-01 is Thursday (4); weekdays advance Monday=1 … Sunday=7 one per day and repeat every 7 days |
| Calendar.IsWeekend | src/businessDate.ts:12-14 | a day is a weekend day exactly when its day number is 2 or 3 modulo 7: a Saturday (day 2 = 1970-01-03) or a Sunday (day 3) |
| Calendar.IsWorkingDay | src/businessDate.ts:26 | a day is a working day exactly when it is Monday to Friday and not a holiday, the negation of the skip test `isWeekend(cursor) \|\| isHoliday(cursor)` used at lines 26, 41, 84, 101, 105 and 134 |
| Calendar.ForwardFuelDecreases | src/businessDate.ts:81-84 | stepping forward off a non-working day strictly decreases the search measure, so the forward skips terminate |
| Calendar.BackwardFuelDecreases | src/businessDate.ts:26-29 | stepping back off a non-working day strictly decreases the search measure, so the backward skip terminates |
| Calendar.WorkingDayWithin | src/businessDate.ts:102-105 | with a finite holiday set, some working day lies within 3·\|holidays\| + 2 days of any day |
| Calendar.CountWorkingAdditive | src/businessDate.ts:79-86 | the working-day counts over adjacent ranges add up |
| BusinessDate.PreviousWorkingDay | src/businessDate.ts:23-33 | the result's day is strictly before the input's day and is a working day; every day strictly between them is non-working; the time is 17:00:00.000 |
| BusinessDate.PreviousWorkingDayUnique | src/businessDate.ts:23-33 | at most one day meets PreviousWorkingDay's contract, so that contract determines the result |
| BusinessDate.NormalizeBackward | src/businessDate.ts:38-71 | the result is a work instant (working day, zero seconds and milliseconds, time in [08:00,12:00] or [13:00,17:00]), is at or before the input, and every work instant at or before the input is at or before it |
| BusinessDate.WithinWorkHours | src/businessDate.ts:62-68 | in the fall-through branch (hours 8–11, 13–16, or 17 with minute 0), dropping seconds leaves a time in [08:00,12:00) or [13:00,17:00] |
| BusinessDate.FloorToMinute | src/businessDate.ts:68 | rounding down to the minute keeps every whole-minute time that was at or before the input |
| BusinessDate.LatestWorkInstantUnique | src/businessDate.ts:38-71 | at most one instant is the latest work instant at or before a given instant |
| BusinessDate.NormalizeIdempotent | src/businessDate.ts:38-71 | normalizing a normalized instant returns it unchanged |
| BusinessDate.NormalizeMonotone | src/businessDate.ts:38-71 | a later input never normalizes to an earlier instant |
| BusinessDate.AddBusinessDays | src/businessDate.ts:76-89 | the result meets `AddsBusinessDays`: days ≤ 0 returns the input unchanged; otherwise the result keeps the time of day, lies on a working day after the input's day, and exactly `days` working days lie in (input day, result day] |
| BusinessDate.BusinessDaysResultUnique | src/businessDate.ts:76-89 | two working days after a start with the same working-day count are the same day, so AddBusinessDays' contract determines its result |
| BusinessDate.BusinessDaysCompose | src/businessDate.ts:76-89 | for a, b ≥ 0: an instant that meets AddBusinessDays' contract for b days from a result for a days equals any instant that meets it for a + b days from the start |
| BusinessDate.RoundToMinutes | src/businessDate.ts:96 | the minute count is the integer nearest to hours·60, with halves rounded up (Math.round) |
| BusinessDate.NextWorkingMorning | src/businessDate.ts:101-107 | the result is 08:00:00.000 on the first working day after the cursor's day; every day skipped on the way is non-working |
| BusinessDate.AddBusinessHours | src/businessDate.ts:94-157 | a rounded amount ≤ 0 returns the input; otherwise the result is at or after the input, on a working day, in (08:00,12:00] or (13:00,17:00]; the business time between input and result is the rounded amount of minutes (exactly, from a whole-minute start; within one more minute otherwise) |
| BusinessDate.FreeMove | src/businessDate.ts:117-126 | snapping to the opening, to the end of lunch, or to the next working morning passes no business time and keeps the loop invariant |
| BusinessDate.Consume | src/businessDate.ts:146-151 | taking min(available, remaining) minutes stays inside the current block and moves exactly that much business time from remaining to consumed; remaining never goes negative |
| BusinessDate.SubMinuteToEnd | src/businessDate.ts:140-145 | with less than a minute left in a block, the cursor moves to the block end without consuming, losing under one minute, at most once and never from a whole-minute start |
| BusinessDate.BusinessHoursResultUnique | src/businessDate.ts:94-157 | two block-end instants on working days with the same business time after a start are equal, so AddBusinessHours' contract determines its result from a whole-minute start |
| BusinessDate.BusinessHoursMonotone | src/businessDate.ts:94-157 | more business time from the same start ends strictly later |
| WorkTime.WorkMsAdditive | src/businessDate.ts:140-151 | business time over adjacent spans adds up, so the minutes consumed step by step add up to the business time from the input |
| WorkTime.WorkMsMonotone | src/businessDate.ts:140-151 | a later end never has less business time behind it |
| WorkTime.SkipIsFree | src/businessDate.ts:129-136 | from a non-working day or from 17:00 on, to 08:00 of a later working day with only non-working days between, no business time passes |
| WorkTime.GapIsFree | src/businessDate.ts:117-126 | moving within a day across no part of a block (before 08:00, in lunch, after 17:00) passes no business time |
| WorkTime.WithinBlock | src/businessDate.ts:146-149 | moving inside one block of a working day passes exactly the time moved |
| WorkTime.WorkBeforeBlockEnd | src/businessDate.ts:139-149 | business time passes just before any block-end instant of a working day |

## Left out

- src/index.ts (the HTTP handler) is not part of this model. That covers query parsing, ISO
  parsing, the order normalize → days → hours, the JSON responses and `app.listen`.
- The same handler passes a `Set` where the engine expects a holiday function, and it does not
  `await` the engine's promises. The model states the engine's own contract, not these call sites.
- src/holidays.ts is not part of this model. That covers the network fetch, the per-year cache and
  the heuristic date extraction. Its one-line set-membership `isHoliday` is the `holidays` set
  parameter itself.
- Asynchrony: the holiday predicate may suspend in the source. Here it is a pure set lookup by day
  number, asked one day at a time as in the source.
- Time zones: luxon's `setZone`, ISO formatting and the UTC conversion are not modelled. The model
  works on Bogotá civil days, where adding a day keeps the wall-clock time as luxon's
  `plus({ days })` does.
- America/Bogota's historical offsets (local mean time −4:56:16 until 1914-11-23, daylight saving
  at UTC−4 from 1992-05-03 to 1993-02-06) affect only the UTC conversion, which is not modelled.
  Their transitions fall at local midnight, outside every work block.
- Floating point: `hours` is a finite `real`, so `Math.round(hours * 60)` is exact here. Rounding
  errors of IEEE doubles in `hours * 60` are not modelled. Non-finite `hours` cannot be expressed:
  for NaN, `Math.round` gives NaN, the loop at src/businessDate.ts:99 never runs and the input is
  returned; for Infinity the loop never ends.
- BusinessDate.AddBusinessDays: takes an integer day count. For a fractional count the source's
  loop would run ⌈days⌉ times; that is not modelled, and the HTTP layer only passes integers.
- A holiday predicate that reports every day as non-working (the source then loops forever)
  cannot be expressed: the holiday calendar is a finite set.
- luxon's limits on the representable date range are not modelled; day numbers are unbounded.
- BusinessDate.AddBusinessHours: from a start with nonzero seconds or milliseconds, the contract
  bounds the business time only to within one minute. It does not name the exact instant, which
  depends on where the floor at src/businessDate.ts:140 discards the sub-minute remainder.
