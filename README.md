# Polar clock, modelled in Dafny

The polar clock draws six concentric rings. Each ring shows how much of the current minute, hour, day, week, month or year has elapsed. This project models the logic behind the drawing and proves what it computes:

- **The time-span calculator** (`TimeSpan`). It finds each period from a timestamp. It takes two private scratch `Date` objects through a fixed sequence of truncating and normalising setter calls:
  - `setSeconds(0)`, `setMinutes(getMinutes() + 1)`, …;
  - `setDate(getDate() - getDay())`, which steps back to the last Sunday.

  From the resulting bounds it computes `(d - from) / (to - from)` for each period.
- **The rings** (`Ring`). Each holds its last fraction and derives its start and end angles.
- **The clock** (`PolarClock`). Its constructor looks up each configured ring's getter in a table of callbacks. `tick` recomputes the span and updates every ring in order.

The model is organised in five modules:

- `Calendar`: proleptic Gregorian arithmetic on naive local time, where every day is 86 400 000 ms long.
  - ECMAScript's MakeDay/MakeTime, which accept out-of-range fields and roll them over.
  - Their inverse `FromTime`, with a round-trip proof.
  - Leap years, month lengths, the day of the week (Sunday = 0), and the overflow/underflow facts the setters rely on.
- `Dates`: the JavaScript `Date` as a class holding a time value.
  - Its local-time getters.
  - Its normalising setters, each of which replaces one civil field and recombines the fields.
- `TimeSpans`:
  - Reference definitions of the six periods, as functions of the time value.
  - The `TimeSpan` class, whose `date` setter (`SetDate`) is proved to leave each fraction equal to the reference fraction.
- `Periods`: what the periods are in civil terms.
  - The fixed lengths.
  - The month and year lengths and their end at the first instant of the next month or year.
  - The week starting at the most recent Sunday midnight.
  - Nesting, when each fraction is zero, and the worked examples.
- `Polar`: the callback table and its lookup, `Ring`, and `PolarClock` with its constructor and `tick`.

Fractions are exact `real`s. Angles are in units of π, so the end angle `2π·p − π/2` becomes `2p − 1/2`.

If no callback matched a ring's type, `callbacks.find(...)` would return `undefined` and `.func` would throw. Here `RingType` is a closed enumeration and `CallbacksComplete` proves that the table covers every type, so that cannot happen.

The calculator mutates two scratch dates, and the model does the same.

## Model

| member | source | states |
|---|---|---|
| Calendar.DaysInMonth | polar.ts:117-121 | a month has 28 to 31 days, and 29 exactly for February of a leap year |
| Calendar.YearLength | polar.ts:123-127 | a year has 366 days when it is a leap year and 365 otherwise, the sum of its months' lengths |
| Calendar.FromTime | polar.ts:96-138 | the fields the local getters report are in range and compose back to the same time value |
| Calendar.RoundTrip | polar.ts:96-138 | in-range fields survive composition and decomposition unchanged |
| Calendar.WeekDay | polar.ts:135 | `getDay` is a day of the week from 0 (Sunday) to 6 |
| Calendar.ComposeShift | polar.ts:100-115 | adding k to the day, hour, minute, second or millisecond field moves the time value by k of those units, whatever range the field falls in |
| Calendar.MonthOverflow | polar.ts:120 | month 12 of a year is January of the next year |
| Calendar.DayOverflow | polar.ts:114 | the day after the last of a month is the first of the next month, or January 1 after a December |
| Calendar.DayUnderflow | polar.ts:135 | day 0 of a month is the last day of the previous month, or December 31 of the previous year for January |
| Calendar.NextMonthStart | polar.ts:120 | advancing the month of a first-of-month midnight reaches the first instant of the next month, including December to January |
| Calendar.NextMonth | polar.ts:120 | the month after a valid month is a valid first-of-month midnight |
| Calendar.BackToSunday | polar.ts:135 | stepping back from a midnight by its day of the week lands on a Sunday midnight |
| Calendar.YearBounds | polar.ts:123-127 | a valid date lies between January 1 of its year and January 1 of the next year |
| Dates.Date.constructor | polar.ts:87-88 | a new date holds the given time value |
| Dates.Date.GetFullYear | polar.ts:126 | the year is the one whose January 1 bounds the time value from below, with the next year's January 1 above it |
| Dates.Date.GetMonth | polar.ts:120 | the month is 0 to 11 |
| Dates.Date.GetDate | polar.ts:114 | the date is 1 to the length of its month |
| Dates.Date.GetDay | polar.ts:135 | the day of the week is 0 to 6 |
| Dates.Date.GetHours | polar.ts:108 | the hour is 0 to 23 |
| Dates.Date.GetMinutes | polar.ts:102 | the minute is 0 to 59 |
| Dates.Date.GetSeconds | polar.ts:100 | the second is 0 to 59 |
| Dates.Date.GetMilliseconds | polar.ts:97 | the millisecond is 0 to 999 |
| Dates.Date.SetTime | polar.ts:96 | the time value becomes the argument |
| Dates.Date.SetMilliseconds | polar.ts:97 | the milliseconds field is replaced and the fields recombined, which shifts the time by the difference |
| Dates.Date.SetSeconds | polar.ts:100 | the seconds field is replaced and the fields recombined, which shifts the time by that many seconds |
| Dates.Date.SetMinutes | polar.ts:102 | the minutes field is replaced and the fields recombined, rolling over past 59, which shifts the time by that many minutes |
| Dates.Date.SetHours | polar.ts:108 | the hours field is replaced and the fields recombined, rolling over past 23, which shifts the time by that many hours |
| Dates.Date.SetDate | polar.ts:114 | the date field is replaced and the fields recombined, rolling over or under the month, which shifts the time by that many days |
| Dates.Date.SetMonth | polar.ts:120 | the month field is replaced and the fields recombined, with month 12 rolling into the next year |
| Dates.Date.SetFullYear | polar.ts:126 | the year field is replaced and the fields recombined |
| TimeSpans.Fraction | polar.ts:103 | the fraction lies in [0, 1) for an instant inside the period, and is 0 exactly at its start |
| TimeSpans.FractionMonotone | polar.ts:103 | within one period a later instant never has a smaller fraction |
| TimeSpans.MinuteStart | polar.ts:99-103 | the minute's start is at most t and less than a minute before it |
| TimeSpans.MinuteFraction | polar.ts:99-103 | the minute fraction lies in [0, 1) |
| TimeSpans.MinuteStartFields | polar.ts:97-100 | clearing seconds and milliseconds gives the start of the minute, as fields and as a time value |
| TimeSpans.HourStart | polar.ts:105-109 | the hour's start is at most t and less than an hour before it |
| TimeSpans.HourFraction | polar.ts:105-109 | the hour fraction lies in [0, 1) |
| TimeSpans.HourStartFields | polar.ts:106 | clearing minutes and below gives the start of the hour |
| TimeSpans.DayStart | polar.ts:111-115 | the day starts at a midnight at most t and less than a day before it |
| TimeSpans.DayFraction | polar.ts:111-115 | the day fraction lies in [0, 1) |
| TimeSpans.DayStartFields | polar.ts:112 | clearing hours and below gives midnight of the same date |
| TimeSpans.MonthStart | polar.ts:117-118 | the month starts no later than t |
| TimeSpans.MonthEnd | polar.ts:119-120 | the month ends after t |
| TimeSpans.MonthFraction | polar.ts:117-121 | the month fraction lies in [0, 1) |
| TimeSpans.MonthStartFields | polar.ts:118 | setting the date to 1 at midnight gives the first instant of the month |
| TimeSpans.MonthEndFields | polar.ts:119-120 | the month ends at the first instant of the next month, January 1 after a December |
| TimeSpans.YearStart | polar.ts:123-124 | the year starts no later than t |
| TimeSpans.YearEnd | polar.ts:125-126 | the year ends after t |
| TimeSpans.YearFraction | polar.ts:123-127 | the year fraction lies in [0, 1) |
| TimeSpans.YearStartFields | polar.ts:124 | moving the first of the month to January gives January 1, 00:00:00.000 |
| TimeSpans.YearEndFields | polar.ts:125-126 | the year ends at January 1, 00:00:00.000 of the next year |
| TimeSpans.WeekStart | polar.ts:129-135 | the week starts at a Sunday midnight at most t and less than seven days before it, as many days back as t's day of the week |
| TimeSpans.WeekFraction | polar.ts:129-138 | the week fraction lies in [0, 1) |
| TimeSpans.TimeSpan.constructor | polar.ts:86-90 | a new calculator has two distinct fresh scratch dates and holds the six fractions of the given date |
| TimeSpans.TimeSpan.SetDate | polar.ts:92-139 | after the truncation and normalisation sequence, all six fractions equal the reference fractions of the new date's time value |
| TimeSpans.TimeSpan.ClockSpans | polar.ts:96-115 | the minute, hour and day steps leave the exact minute, hour and day fractions, with `from` at midnight |
| TimeSpans.TimeSpan.CalendarSpans | polar.ts:117-138 | from midnight, the month, year and week steps leave the exact month, year and week fractions |
| TimeSpans.TimeSpan.MinuteSpan | polar.ts:96-103 | `from` and `to` become the start of the minute and of the next minute, and the minute fraction is stored |
| TimeSpans.TimeSpan.HourSpan | polar.ts:105-109 | `from` and `to` become the start of the hour and of the next hour, and the hour fraction is stored |
| TimeSpans.TimeSpan.DaySpan | polar.ts:111-115 | `from` and `to` become midnight of the day and of the next day, and the day fraction is stored |
| TimeSpans.TimeSpan.MonthSpan | polar.ts:117-121 | `from` and `to` become the first instant of the month and of the next month, and the month fraction is stored |
| TimeSpans.TimeSpan.MonthLater | polar.ts:119-120 | from the first of a month, `to` becomes the first of the next month |
| TimeSpans.TimeSpan.YearSpan | polar.ts:123-127 | `from` and `to` become January 1 of the year and of the next year, and the year fraction is stored |
| TimeSpans.TimeSpan.WeekSpan | polar.ts:129-138 | `from` and `to` become the last Sunday midnight and seven days later, and the week fraction is stored |
| TimeSpans.TimeSpan.Midnight | polar.ts:130-134 | resetting to the time and clearing each clock field gives midnight of the day |
| TimeSpans.TimeSpan.LastSunday | polar.ts:135 | stepping the date back by the day of the week lands on the week's start, even across a month or year |
| TimeSpans.TimeSpan.WeekLater | polar.ts:136-137 | `to` becomes seven days after the week's start |
| TimeSpans.TimeSpan.Reports | polar.ts:141-163 | each getter reports the fraction of its period at the last date set, a value in [0, 1) |
| Periods.FixedLengths | polar.ts:99-115 | minutes, hours and days last 60 000, 3 600 000 and 86 400 000 ms, and weeks seven days |
| Periods.MonthPeriod | polar.ts:117-121 | the month lasts as many days as the calendar gives it, from the first at midnight to the first instant of the next month |
| Periods.YearPeriod | polar.ts:123-127 | the year lasts 365 or 366 days by the leap-year rule, from January 1 to January 1 of the next year |
| Periods.MostRecentSunday | polar.ts:129-135 | no Sunday midnight on or before t is later than the week's start |
| Periods.WeekStartFields | polar.ts:130-135 | the week starts at midnight, and Sunday midnight has week fraction 0 |
| Periods.Nesting | polar.ts:96-138 | year start ≤ month start ≤ day start ≤ hour start ≤ minute start ≤ t < the ends in reverse order; the week contains the day |
| Periods.MinuteFractionZero | polar.ts:99-103 | the minute fraction is 0 exactly when seconds and milliseconds are 0 |
| Periods.HourFractionZero | polar.ts:105-109 | the hour fraction is 0 exactly on the hour |
| Periods.DayFractionZero | polar.ts:111-115 | the day fraction is 0 exactly at midnight |
| Periods.WeekFractionZero | polar.ts:129-138 | the week fraction is 0 exactly at Sunday midnight |
| Periods.MonthFractionZero | polar.ts:117-121 | the month fraction is 0 exactly at midnight on the first |
| Periods.YearFractionZero | polar.ts:123-127 | the year fraction is 0 exactly at midnight on January 1 |
| Periods.DayFractionMonotone | polar.ts:111-115 | within one day a later instant never has a smaller day fraction |
| Periods.HeaderExample | polar.ts:1-4 | Wednesday 13 July 2016 09:59:16 is day 3 of its week, with week fraction (3·86400 + 9·3600 + 59·60 + 16)/604800 |
| Periods.SampleTickWeek | polar.ts:201 | Sunday 25 December 2016 23:59:59.999 is one millisecond short of one day into its week |
| Periods.SampleTickMonth | polar.ts:201 | at that moment the month is 31 days long, and the month and the year both end at January 1, 2017 |
| Periods.LeapFebruary | polar.ts:117-121 | February 2016 lasts 29 days and ends at March 1 |
| Periods.WeekAcrossNewYear | polar.ts:135 | Friday 1 January 2016 belongs to the week that began on Sunday 27 December 2015 |
| Polar.SelectorReads | polar.ts:18-25 | each ring type's callback reads the fraction of that type's period from a consistent calculator |
| Polar.Find | polar.ts:28 | the lookup fails exactly when no entry has the type, and otherwise returns the first matching entry's getter |
| Polar.CallbacksComplete | polar.ts:18-28 | the table has an entry for every ring type, and it is the getter of that type's period |
| Polar.Ring.constructor | polar.ts:54-56 | a new ring has fraction 0 and the given updater |
| Polar.Ring.End | polar.ts:60-62 | the end angle lies twice the fraction beyond the start, so it stays within one turn of the start for a fraction in [0, 1) |
| Polar.Ring.Update | polar.ts:68-70 | the ring's fraction becomes what its updater reads from the calculator, and nothing else changes |
| Polar.NewCalculator | polar.ts:14 | a new calculator and both its scratch dates are fresh, and it holds the six fractions of the starting time |
| Polar.NewParts | polar.ts:14-29 | a new clock's calculator is fresh and consistent at the starting time, and its entries are one fresh ring per configured ring, in order, at fraction 0 |
| Polar.NewEntries | polar.ts:27-29 | one fresh ring per configured ring, in order, beside its options, at fraction 0, with the updater for its type, and no ring shared |
| Polar.RingsShow | polar.ts:47 | rings that have read a consistent calculator show their periods' fractions at its instant |
| Polar.PolarClock.constructor | polar.ts:13-30 | the clock keeps the theme, starts its calculator at the given time with fresh scratch dates, and has one well-formed entry per configured ring |
| Polar.PolarClock.Tick | polar.ts:45-48 | after a tick every ring shows its period's fraction at the new date; the entries, their order and options are unchanged |
| Polar.Startup | polar.ts:200-207 | a clock built from a theme and then ticked with a reused date set to another time shows, on every configured ring in order, that ring's period fraction at the new time |
| Polar.Frame | polar.ts:206-207 | setting the reused date to the current time and ticking a consistent clock leaves every ring showing its period's fraction at that time, with the entries unchanged |
| Polar.PolarClock.UpdateRings | polar.ts:47 | every ring, in order, holds what its updater reads from the calculator |

## Left out

- Drawing is not modelled: the canvas and its 2D context, `clearRect`, `fillRect`, `arc`, `stroke`, the `hsl(...)` colour and the page background (polar.ts:15-17, 32-43). These are host graphics calls.
- `Point` and the canvas centre (polar.ts:10, 17, 182-185) are left out. They are only drawing geometry.
- The unused `rings` field of the clock (polar.ts:8) is left out.
- The repetition of frames through `requestAnimationFrame`, and the clock input `Date.now()` (polar.ts:204-211), are not modelled; they are host scheduling and I/O. `Polar.Startup` and `Polar.Frame` model the start-up and one frame, with the times as parameters, and the clock's constructor takes its starting time as a parameter `now`.
- The static `theme` literal (polar.ts:188-198) is not modelled. `Polar.PolarClock.constructor` takes any theme instead.
- IEEE floating-point division and `Math.PI` are replaced by exact reals and angles in units of π.
- The host time zone and daylight saving are not modelled. Local time is naive, with 24-hour days.
- The valid range of JavaScript time values (±8.64e15 ms) is not modelled, so there is no invalid date (`NaN`). Years are unbounded integers.
- TimeSpans.TimeSpan.constructor: the optional argument defaulting to `new Date()` is not modelled, and the caller passes the date. The scratch dates start at the given date's time instead of the current time. `SetDate` overwrites them at once, so the difference is not observable.
- TimeSpans.TimeSpan.SetDate: the model stores the date after computing the fractions, and the source stores it before. The date is only read, so the order makes no difference. The setter also requires that the new date is not one of the calculator's private scratch dates, which callers cannot reach.
- TimeSpans.TimeSpan.M: the getters `M`, `H`, `D`, `W`, `Mo` and `Y` return the stored fields. What they report is stated once, by `TimeSpans.TimeSpan.Reports`.
- Polar.PolarClock.Tick: the clock's invariant `Valid` covers the scratch dates being distinct and the rings being well formed. The calculator's consistency is stated separately in the contracts, as `timespan.Valid()`.
- Polar.Ring.Percentage: it returns the stored fraction and states nothing on its own.
- Polar.Ring.Start: it returns the constant start angle −1/2, which is −π/2 (polar.ts:56-58). It has no contract of its own. `Polar.Ring.End` states the end angle relative to it.
- Dates.Date.GetTime: it returns the stored time value (used at polar.ts:96, 101, 103 and after). It has no contract of its own. The setters and the span methods state their results through it.
