/** What the six periods of `TimeSpans` are, in civil terms: their lengths,
    their bounds as calendar dates, how they nest, and when a fraction is zero. */
module Periods {
  import opened Calendar
  import opened TimeSpans

  /** Minutes, hours and days have fixed lengths in naive local time, and a
      week is seven days. */
  lemma FixedLengths(t: int)
    ensures MinuteEnd(t) - MinuteStart(t) == 60000
    ensures HourEnd(t) - HourStart(t) == 3600000
    ensures DayEnd(t) - DayStart(t) == 86400000
    ensures WeekEnd(t) - WeekStart(t) == 7 * 86400000
  {
  }

  /** The month of `t` runs from midnight on its first to midnight on the
      first of the next month (January 1 of the next year after a December),
      and is as many days long as the calendar gives it. */
  lemma MonthPeriod(t: int)
    ensures var c := FromTime(t);
      && MonthEnd(t) - MonthStart(t) == DaysInMonth(c.year, c.month) * MS_PER_DAY
      && FromTime(MonthStart(t)) == Civil(c.year, c.month, 1, 0, 0, 0, 0)
      && FromTime(MonthEnd(t)) == NextMonth(c.year, c.month)
  {
    MonthStartFields(t);
    MonthEndFields(t);
  }

  /** The year of `t` is 366 days long when it is a leap year and 365 days
      otherwise, and it ends at January 1, 00:00:00.000 of the next year. */
  lemma YearPeriod(t: int)
    ensures var c := FromTime(t);
      && YearEnd(t) - YearStart(t) == (if IsLeap(c.year) then 366 else 365) * MS_PER_DAY
      && FromTime(YearStart(t)) == Civil(c.year, 0, 1, 0, 0, 0, 0)
      && FromTime(YearEnd(t)) == Civil(c.year + 1, 0, 1, 0, 0, 0, 0)
  {
    var c := FromTime(t);
    YearLength(c.year);
    YearStartFields(t);
    YearEndFields(t);
  }

  /** The week of `t` starts at midnight of the most recent Sunday: no later
      Sunday midnight lies on or before `t`. */
  lemma MostRecentSunday(t: int, s: int)
    requires s % MS_PER_DAY == 0 && WeekDay(s) == 0 && s <= t
    ensures s <= WeekStart(t)
  {
    var w := WeekStart(t);
    var a, b := s / MS_PER_DAY, w / MS_PER_DAY;
    assert s == a * MS_PER_DAY && w == b * MS_PER_DAY;
    assert a + 4 == 7 * ((a + 4) / 7) && b + 4 == 7 * ((b + 4) / 7);
    var k := (a + 4) / 7 - (b + 4) / 7;
    assert a - b == 7 * k;
    assert (a - b - 7) * MS_PER_DAY < 0;
    assert k <= 0;
    assert s - w == (a - b) * MS_PER_DAY;
  }

  /** The week starts at midnight: the week fraction of a Sunday midnight is 0. */
  lemma WeekStartFields(t: int)
    ensures var w := FromTime(WeekStart(t));
      w.hour == 0 && w.minute == 0 && w.second == 0 && w.ms == 0
    ensures WeekDay(t) == 0 && t % MS_PER_DAY == 0 ==> WeekFraction(t) == 0.0
  {
    var s := WeekStart(t);
    DayStartFields(s);
    assert DayStart(s) == s;
    if WeekDay(t) == 0 && t % MS_PER_DAY == 0 {
      assert DayStart(t) == t;
    }
  }

  /** The progressive truncation nests the periods: each coarser period starts
      no later and ends no earlier than the finer ones inside it. */
  lemma Nesting(t: int)
    ensures YearStart(t) <= MonthStart(t) <= DayStart(t) <= HourStart(t) <= MinuteStart(t) <= t
    ensures t < MinuteEnd(t) <= HourEnd(t) <= DayEnd(t) <= MonthEnd(t) <= YearEnd(t)
    ensures WeekStart(t) <= DayStart(t) && DayEnd(t) <= WeekEnd(t)
  {
    var c := FromTime(t);
    MinuteStartFields(t);
    HourStartFields(t);
    DayStartFields(t);
    DayOfValid(c.(hour := 0, minute := 0, second := 0, ms := 0));
    ComposeShift(c.(minute := 0, second := 0, ms := 0).(hour := 0), c.hour);
    assert c.(minute := 0, second := 0, ms := 0).(hour := 0)
        == c.(hour := 0, minute := 0, second := 0, ms := 0);
    assert c.(minute := 0, second := 0, ms := 0).(hour := 0).(hour := 0 + c.hour)
        == c.(minute := 0, second := 0, ms := 0);
    ComposeShift(c.(second := 0, ms := 0).(minute := 0), c.minute);
    assert c.(second := 0, ms := 0).(minute := 0) == c.(minute := 0, second := 0, ms := 0);
    assert c.(second := 0, ms := 0).(minute := 0).(minute := 0 + c.minute)
        == c.(second := 0, ms := 0);
    assert HourStart(t) == DayStart(t) + c.hour * MS_PER_HOUR;
    assert MinuteStart(t) == HourStart(t) + c.minute * MS_PER_MINUTE;
    DaysBeforeMonthStep(c.year, c.month);
    DaysBeforeMonthMonotone(c.year, c.month + 1, 12);
    YearLength(c.year);
  }

  /** The minute fraction is zero exactly when the seconds and milliseconds are. */
  lemma MinuteFractionZero(t: int)
    ensures var c := FromTime(t);
      MinuteFraction(t) == 0.0 <==> c.second == 0 && c.ms == 0
  {
    var c := FromTime(t);
    MinuteStartFields(t);
    if c.second == 0 && c.ms == 0 {
      assert c == c.(second := 0, ms := 0);
    }
  }

  /** The hour fraction is zero exactly on the hour. */
  lemma HourFractionZero(t: int)
    ensures var c := FromTime(t);
      HourFraction(t) == 0.0 <==> c.minute == 0 && c.second == 0 && c.ms == 0
  {
    var c := FromTime(t);
    HourStartFields(t);
    if c.minute == 0 && c.second == 0 && c.ms == 0 {
      assert c == c.(minute := 0, second := 0, ms := 0);
    }
  }

  /** The day fraction is zero exactly at midnight. */
  lemma DayFractionZero(t: int)
    ensures var c := FromTime(t);
      DayFraction(t) == 0.0 <==> c.hour == 0 && c.minute == 0 && c.second == 0 && c.ms == 0
  {
    var c := FromTime(t);
    DayStartFields(t);
    if c.hour == 0 && c.minute == 0 && c.second == 0 && c.ms == 0 {
      assert c == c.(hour := 0, minute := 0, second := 0, ms := 0);
    }
  }

  /** The week fraction is zero exactly at midnight of a Sunday. */
  lemma WeekFractionZero(t: int)
    ensures var c := FromTime(t);
      WeekFraction(t) == 0.0
      <==> WeekDay(t) == 0 && c.hour == 0 && c.minute == 0 && c.second == 0 && c.ms == 0
  {
    DayFractionZero(t);
    WeekStartFields(t);
  }

  /** The month fraction is zero exactly at midnight on the first. */
  lemma MonthFractionZero(t: int)
    ensures var c := FromTime(t);
      MonthFraction(t) == 0.0
      <==> c.day == 1 && c.hour == 0 && c.minute == 0 && c.second == 0 && c.ms == 0
  {
    var c := FromTime(t);
    MonthStartFields(t);
    if c.day == 1 && c.hour == 0 && c.minute == 0 && c.second == 0 && c.ms == 0 {
      assert c == Civil(c.year, c.month, 1, 0, 0, 0, 0);
    }
  }

  /** The year fraction is zero exactly at midnight on January 1. */
  lemma YearFractionZero(t: int)
    ensures var c := FromTime(t);
      YearFraction(t) == 0.0
      <==> c.month == 0 && c.day == 1 && c.hour == 0 && c.minute == 0 && c.second == 0 && c.ms == 0
  {
    var c := FromTime(t);
    YearStartFields(t);
    if c.month == 0 && c.day == 1 && c.hour == 0 && c.minute == 0 && c.second == 0 && c.ms == 0 {
      assert c == Civil(c.year, 0, 1, 0, 0, 0, 0);
    }
  }

  /** Within one period a later instant has a larger fraction. */
  lemma DayFractionMonotone(t1: int, t2: int)
    requires DayStart(t1) == DayStart(t2) && t1 <= t2
    ensures DayFraction(t1) <= DayFraction(t2)
  {
    FractionMonotone(t1, t2, DayStart(t1), DayEnd(t1));
  }

  /** The week of the instant `w` milliseconds into day number `n`: its day
      of the week and the day its week started. */
  lemma WeekOfDay(n: int, w: int)
    requires 0 <= w < MS_PER_DAY
    ensures WeekDay(n * MS_PER_DAY + w) == (n + 4) % 7
    ensures WeekStart(n * MS_PER_DAY + w) == (n - (n + 4) % 7) * MS_PER_DAY
  {
    DivMod(n, w, MS_PER_DAY);
  }

  /** The day number of a date in 2016, a leap year starting on day 16801. */
  lemma DayNumberIn2016(m: int, d: int, n: int)
    requires 0 <= m < 12
    requires n == 16801 + DaysBeforeMonth(2016, m) + d - 1
    ensures MakeDay(2016, m, d) == n
  {
    assert DaysBeforeYear(2016) == 16801;
    MakeDayInRange(2016, m, d);
  }

  /** The day number of a date in 2015, a common year starting on day 16436. */
  lemma DayNumberIn2015(m: int, d: int, n: int)
    requires 0 <= m < 12
    requires n == 16436 + DaysBeforeMonth(2015, m) + d - 1
    ensures MakeDay(2015, m, d) == n
  {
    assert DaysBeforeYear(2015) == 16436;
    MakeDayInRange(2015, m, d);
  }

  /** The moment in the header comment, Wednesday 13 July 2016 09:59:16, is
      3 days, 9 hours, 59 minutes and 16 seconds into its week. */
  lemma HeaderExample()
    ensures var t := Compose(Civil(2016, 6, 13, 9, 59, 16, 0));
      && WeekDay(t) == 3
      && WeekFraction(t) == (3 * 86400 + 9 * 3600 + 59 * 60 + 16) as real / 604800.0
  {
    DayNumberIn2016(6, 13, 16995);
    WeekOfDay(16995, 35956000);
  }

  /** The sample moment Sunday 25 December 2016 23:59:59.999 is one
      millisecond short of a full day into its week. */
  lemma SampleTickWeek()
    ensures var t := Compose(Civil(2016, 11, 25, 23, 59, 59, 999));
      && WeekDay(t) == 0
      && WeekFraction(t) == (MS_PER_DAY - 1) as real / (7 * MS_PER_DAY) as real
  {
    DayNumberIn2016(11, 25, 17160);
    WeekOfDay(17160, MS_PER_DAY - 1);
  }

  /** At the same sample moment the month is 31 days long, and the month and
      the year both end at January 1, 2017. */
  lemma SampleTickMonth()
    ensures var t := Compose(Civil(2016, 11, 25, 23, 59, 59, 999));
      && FromTime(MonthEnd(t)) == Civil(2017, 0, 1, 0, 0, 0, 0)
      && MonthEnd(t) == YearEnd(t)
      && MonthEnd(t) - MonthStart(t) == 31 * MS_PER_DAY
  {
    var c := Civil(2016, 11, 25, 23, 59, 59, 999);
    var t := Compose(c);
    RoundTrip(c);
    MonthEndFields(t);
    YearEndFields(t);
  }

  /** In the leap year 2016 February has 29 days and ends at March 1. */
  lemma LeapFebruary()
    ensures var t := Compose(Civil(2016, 1, 10, 12, 0, 0, 0));
      && MonthEnd(t) - MonthStart(t) == 29 * MS_PER_DAY
      && FromTime(MonthEnd(t)) == Civil(2016, 2, 1, 0, 0, 0, 0)
  {
    var c := Civil(2016, 1, 10, 12, 0, 0, 0);
    RoundTrip(c);
    MonthEndFields(Compose(c));
  }

  /** A week may start in the previous month and year: Friday 1 January 2016
      belongs to the week that began on Sunday 27 December 2015. */
  lemma WeekAcrossNewYear()
    ensures var t := Compose(Civil(2016, 0, 1, 12, 0, 0, 0));
      && WeekDay(t) == 5
      && FromTime(WeekStart(t)) == Civil(2015, 11, 27, 0, 0, 0, 0)
  {
    var s := Civil(2015, 11, 27, 0, 0, 0, 0);
    DayNumberIn2016(0, 1, 16801);
    WeekOfDay(16801, 12 * MS_PER_HOUR);
    DayNumberIn2015(11, 27, 16796);
    RoundTrip(s);
  }
}
