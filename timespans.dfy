/** The clock's time-fraction calculator.  For a local time value it finds,
    for each of the minute, hour, day, week, month and year containing it, the
    first instant of that period and the first instant of the next one, and
    reports the elapsed fraction of the period.

    The functions below are the calendar's own definition of each period;
    `TimeSpan.SetDate` computes the same bounds the way the clock does, by
    truncating and re-normalising two scratch `Date` objects, and is proved
    to produce exactly these fractions. */
module TimeSpans {
  import opened Calendar
  import opened Dates

  /** The exact value of `(t - from) / (to - from)`. */
  function Fraction(t: int, from: int, to: int): (f: real)
    requires from < to
    ensures from <= t < to ==> 0.0 <= f < 1.0
    ensures f == 0.0 <==> t == from
  {
    (t - from) as real / (to - from) as real
  }

  /** The fraction scaled back by the period's length is the elapsed time. */
  lemma FractionScales(t: int, from: int, to: int)
    requires from < to
    ensures Fraction(t, from, to) * (to - from) as real == (t - from) as real
  {
  }

  /** A product with a positive factor has the sign of the other factor. */
  lemma SignOfProduct(x: real, y: real)
    requires y > 0.0 && x * y >= 0.0
    ensures x >= 0.0
  {
  }

  /** A later instant of the same period has made at least as much progress. */
  lemma FractionMonotone(t1: int, t2: int, from: int, to: int)
    requires from < to
    requires t1 <= t2
    ensures Fraction(t1, from, to) <= Fraction(t2, from, to)
  {
    var len := (to - from) as real;
    var f1, f2 := Fraction(t1, from, to), Fraction(t2, from, to);
    FractionScales(t1, from, to);
    FractionScales(t2, from, to);
    assert (f2 - f1) * len == (t2 - t1) as real;
    SignOfProduct(f2 - f1, len);
  }

  // ---- minute -------------------------------------------------------------
  // Local time has no offset changes, so minutes, hours and days start at
  // whole multiples of their length counted from the epoch.

  /** The first instant of the minute containing `t`. */
  function MinuteStart(t: int): (s: int)
    ensures s <= t < s + MS_PER_MINUTE
  {
    t - t % MS_PER_MINUTE
  }

  function MinuteEnd(t: int): int {
    MinuteStart(t) + MS_PER_MINUTE
  }

  function MinuteFraction(t: int): (f: real)
    ensures 0.0 <= f < 1.0
  {
    Fraction(t, MinuteStart(t), MinuteEnd(t))
  }

  /** Clearing the seconds and milliseconds of `t` lands on the start of its minute. */
  lemma MinuteStartFields(t: int)
    ensures MinuteStart(t) == Compose(FromTime(t).(second := 0, ms := 0))
    ensures FromTime(MinuteStart(t)) == FromTime(t).(second := 0, ms := 0)
  {
    var c := FromTime(t);
    DayOfValid(c);
    var n := MakeDay(c.year, c.month, c.day);
    var q := n * 1440 + c.hour * 60 + c.minute;
    var r := c.second * MS_PER_SECOND + c.ms;
    assert t == q * MS_PER_MINUTE + r;
    DivMod(q, r, MS_PER_MINUTE);
    assert Compose(c.(second := 0, ms := 0)) == t - r;
    RoundTrip(c.(second := 0, ms := 0));
  }

  // ---- hour ---------------------------------------------------------------

  /** The first instant of the hour containing `t`. */
  function HourStart(t: int): (s: int)
    ensures s <= t < s + MS_PER_HOUR
  {
    t - t % MS_PER_HOUR
  }

  function HourEnd(t: int): int {
    HourStart(t) + MS_PER_HOUR
  }

  function HourFraction(t: int): (f: real)
    ensures 0.0 <= f < 1.0
  {
    Fraction(t, HourStart(t), HourEnd(t))
  }

  /** Clearing the minutes and below of `t` lands on the start of its hour. */
  lemma HourStartFields(t: int)
    ensures HourStart(t) == Compose(FromTime(t).(minute := 0, second := 0, ms := 0))
    ensures FromTime(HourStart(t)) == FromTime(t).(minute := 0, second := 0, ms := 0)
  {
    var c := FromTime(t);
    DayOfValid(c);
    var n := MakeDay(c.year, c.month, c.day);
    var q := n * 24 + c.hour;
    var r := c.minute * MS_PER_MINUTE + c.second * MS_PER_SECOND + c.ms;
    assert t == q * MS_PER_HOUR + r;
    DivMod(q, r, MS_PER_HOUR);
    assert Compose(c.(minute := 0, second := 0, ms := 0)) == t - r;
    RoundTrip(c.(minute := 0, second := 0, ms := 0));
  }

  // ---- day ----------------------------------------------------------------

  /** Midnight at the start of the day of `t`. */
  function DayStart(t: int): (s: int)
    ensures s <= t < s + MS_PER_DAY
    ensures s % MS_PER_DAY == 0 && s / MS_PER_DAY == t / MS_PER_DAY
  {
    DivMod(t / MS_PER_DAY, 0, MS_PER_DAY);
    t - t % MS_PER_DAY
  }

  function DayEnd(t: int): int {
    DayStart(t) + MS_PER_DAY
  }

  function DayFraction(t: int): (f: real)
    ensures 0.0 <= f < 1.0
  {
    Fraction(t, DayStart(t), DayEnd(t))
  }

  /** Clearing the clock fields of `t` lands on the start of its day. */
  lemma DayStartFields(t: int)
    ensures DayStart(t) == Compose(FromTime(t).(hour := 0, minute := 0, second := 0, ms := 0))
    ensures FromTime(DayStart(t)) == FromTime(t).(hour := 0, minute := 0, second := 0, ms := 0)
  {
    var c := FromTime(t);
    DayOfValid(c);
    RoundTrip(c.(hour := 0, minute := 0, second := 0, ms := 0));
  }

  // ---- month --------------------------------------------------------------

  /** Midnight on the first of the month of `t`. */
  function MonthStart(t: int): (s: int)
    ensures s <= t
  {
    var c := FromTime(t);
    DayOfValid(c);
    (DaysBeforeYear(c.year) + DaysBeforeMonth(c.year, c.month)) * MS_PER_DAY
  }

  /** The month of `t` lasts as many days as the calendar gives it. */
  function MonthEnd(t: int): (e: int)
    ensures t < e
  {
    var c := FromTime(t);
    DayOfValid(c);
    MonthStart(t) + DaysInMonth(c.year, c.month) * MS_PER_DAY
  }

  function MonthFraction(t: int): (f: real)
    ensures 0.0 <= f < 1.0
  {
    Fraction(t, MonthStart(t), MonthEnd(t))
  }

  /** Moving `t` to midnight on the first lands on the start of its month. */
  lemma MonthStartFields(t: int)
    ensures var c := FromTime(t);
      && MonthStart(t) == Compose(Civil(c.year, c.month, 1, 0, 0, 0, 0))
      && FromTime(MonthStart(t)) == Civil(c.year, c.month, 1, 0, 0, 0, 0)
  {
    var c := FromTime(t);
    MakeDayInRange(c.year, c.month, 1);
    RoundTrip(Civil(c.year, c.month, 1, 0, 0, 0, 0));
  }

  /** The end of the month of `t` is the first instant of the next month:
      the first of the following month, or January 1 after a December. */
  lemma MonthEndFields(t: int)
    ensures var c := FromTime(t);
      && MonthEnd(t) == Compose(NextMonth(c.year, c.month))
      && FromTime(MonthEnd(t)) == NextMonth(c.year, c.month)
  {
    var c := FromTime(t);
    var y, m := c.year, c.month;
    var dim := DaysInMonth(y, m);
    var n := DaysBeforeYear(y) + DaysBeforeMonth(y, m) + dim;
    assert MonthEnd(t) == n * MS_PER_DAY;
    assert Compose(Civil(y, m, dim + 1, 0, 0, 0, 0)) == n * MS_PER_DAY by {
      MakeDayInRange(y, m, dim + 1);
    }
    DayOverflow(y, m);
    RoundTrip(NextMonth(y, m));
  }

  // ---- year ---------------------------------------------------------------

  /** Midnight on January 1 of the year of `t`. */
  function YearStart(t: int): (s: int)
    ensures s <= t
  {
    YearBounds(FromTime(t));
    DaysBeforeYear(FromTime(t).year) * MS_PER_DAY
  }

  /** Midnight on January 1 of the year after the year of `t`. */
  function YearEnd(t: int): (e: int)
    ensures t < e
  {
    YearBounds(FromTime(t));
    DaysBeforeYear(FromTime(t).year + 1) * MS_PER_DAY
  }

  function YearFraction(t: int): (f: real)
    ensures 0.0 <= f < 1.0
  {
    Fraction(t, YearStart(t), YearEnd(t))
  }

  /** Moving `t` to midnight on January 1 lands on the start of its year. */
  lemma YearStartFields(t: int)
    ensures var c := FromTime(t);
      && YearStart(t) == Compose(Civil(c.year, 0, 1, 0, 0, 0, 0))
      && FromTime(YearStart(t)) == Civil(c.year, 0, 1, 0, 0, 0, 0)
  {
    var c := FromTime(t);
    YearBounds(c);
    RoundTrip(Civil(c.year, 0, 1, 0, 0, 0, 0));
  }

  /** The end of the year of `t` is January 1 of the next year. */
  lemma YearEndFields(t: int)
    ensures var c := FromTime(t);
      && YearEnd(t) == Compose(Civil(c.year + 1, 0, 1, 0, 0, 0, 0))
      && FromTime(YearEnd(t)) == Civil(c.year + 1, 0, 1, 0, 0, 0, 0)
  {
    var c := FromTime(t);
    var e := Civil(c.year + 1, 0, 1, 0, 0, 0, 0);
    YearBounds(c);
    assert YearEnd(t) == Compose(e);
    RoundTrip(e);
  }

  // ---- week ---------------------------------------------------------------

  /** Midnight of the most recent Sunday on or before `t`. */
  function WeekStart(t: int): (s: int)
    ensures s <= t < s + 7 * MS_PER_DAY
    ensures s % MS_PER_DAY == 0 && WeekDay(s) == 0
    ensures WeekDay(t) * MS_PER_DAY <= t - s < (WeekDay(t) + 1) * MS_PER_DAY
  {
    var d := DayStart(t);
    var wd := WeekDay(t);
    assert WeekDay(d) == wd;
    BackToSunday(d);
    d - wd * MS_PER_DAY
  }

  function WeekEnd(t: int): int {
    WeekStart(t) + 7 * MS_PER_DAY
  }

  function WeekFraction(t: int): (f: real)
    ensures 0.0 <= f < 1.0
  {
    Fraction(t, WeekStart(t), WeekEnd(t))
  }

  // ---- the clock's calculator ---------------------------------------------

  /** Holds the six fractions of the last instant it was given, computed with
      two scratch dates that it truncates and re-normalises in place. */
  class TimeSpan {
    var date: Date
    /** The time value of `date` when the fractions were computed. */
    ghost var instant: int
    var minute: real
    var hour: real
    var day: real
    var week: real
    var month: real
    var year: real
    const from: Date
    const to: Date

    ghost predicate Valid()
      reads this
    {
      && from != to
      && minute == MinuteFraction(instant)
      && hour == HourFraction(instant)
      && day == DayFraction(instant)
      && week == WeekFraction(instant)
      && month == MonthFraction(instant)
      && year == YearFraction(instant)
    }

    /** The scratch dates start out at the time of `d`; every field is then
        overwritten by `SetDate`. */
    constructor (d: Date)
      ensures Valid()
      ensures date == d && instant == d.time
      ensures fresh(from) && fresh(to) && from != to
    {
      date := d;
      from := new Date(d.time);
      to := new Date(d.time);
      new;
      SetDate(d);
    }

    /** Recomputes every fraction for the time of `d`. */
    method SetDate(d: Date)
      requires from != to && d != from && d != to
      modifies this, from, to
      ensures Valid()
      ensures date == d && instant == d.time
    {
      var t := d.GetTime();
      ClockSpans(t);
      CalendarSpans(t);
      date := d;
      instant := t;
    }

    method ClockSpans(t: int)
      requires from != to
      modifies from, to, this`minute, this`hour, this`day
      ensures from.time == DayStart(t)
      ensures minute == MinuteFraction(t)
      ensures hour == HourFraction(t)
      ensures day == DayFraction(t)
    {
      MinuteSpan(t);
      HourSpan(t);
      DaySpan(t);
    }

    method CalendarSpans(t: int)
      requires from != to
      requires from.time == DayStart(t)
      modifies from, to, this`month, this`year, this`week
      ensures month == MonthFraction(t)
      ensures year == YearFraction(t)
      ensures week == WeekFraction(t)
    {
      MonthSpan(t);
      YearSpan(t);
      WeekSpan(t);
    }

    /** `from` is set to `t` and loses its milliseconds and seconds; `to` is
        one minute later. */
    method MinuteSpan(t: int)
      requires from != to
      modifies from, to, this`minute
      ensures from.time == MinuteStart(t) && to.time == MinuteEnd(t)
      ensures minute == MinuteFraction(t)
    {
      ghost var c := FromTime(t);
      from.SetTime(t);
      from.SetMilliseconds(0);
      RoundTrip(c.(ms := 0));
      from.SetSeconds(0);
      MinuteStartFields(t);
      assert c.(ms := 0).(second := 0) == c.(second := 0, ms := 0);
      to.SetTime(from.GetTime());
      to.SetMinutes(to.GetMinutes() + 1);
      minute := Fraction(t, from.GetTime(), to.GetTime());
    }

    /** `from` loses its minutes; `to` is one hour later. */
    method HourSpan(t: int)
      requires from != to
      requires from.time == MinuteStart(t)
      modifies from, to, this`hour
      ensures from.time == HourStart(t) && to.time == HourEnd(t)
      ensures hour == HourFraction(t)
    {
      ghost var c := FromTime(t);
      MinuteStartFields(t);
      from.SetMinutes(0);
      HourStartFields(t);
      assert c.(second := 0, ms := 0).(minute := 0) == c.(minute := 0, second := 0, ms := 0);
      to.SetTime(from.GetTime());
      to.SetHours(to.GetHours() + 1);
      hour := Fraction(t, from.GetTime(), to.GetTime());
    }

    /** `from` loses its hours; `to` is the same time of the next day. */
    method DaySpan(t: int)
      requires from != to
      requires from.time == HourStart(t)
      modifies from, to, this`day
      ensures from.time == DayStart(t) && to.time == DayEnd(t)
      ensures day == DayFraction(t)
    {
      ghost var c := FromTime(t);
      HourStartFields(t);
      from.SetHours(0);
      DayStartFields(t);
      assert c.(minute := 0, second := 0, ms := 0).(hour := 0)
          == c.(hour := 0, minute := 0, second := 0, ms := 0);
      to.SetTime(from.GetTime());
      to.SetDate(to.GetDate() + 1);
      day := Fraction(t, from.GetTime(), to.GetTime());
    }

    /** `from` moves to the first of its month; `to` is the same day of the next month. */
    method MonthSpan(t: int)
      requires from != to
      requires from.time == DayStart(t)
      modifies from, to, this`month
      ensures from.time == MonthStart(t) && to.time == MonthEnd(t)
      ensures month == MonthFraction(t)
    {
      ghost var c := FromTime(t);
      DayStartFields(t);
      from.SetDate(1);
      MonthStartFields(t);
      assert c.(hour := 0, minute := 0, second := 0, ms := 0).(day := 1)
          == Civil(c.year, c.month, 1, 0, 0, 0, 0);
      MonthLater(t);
      month := Fraction(t, from.GetTime(), to.GetTime());
    }

    /** `to` becomes the first instant of the month after `from`'s. */
    method MonthLater(t: int)
      requires from != to
      requires from.time == MonthStart(t)
      modifies to
      ensures to.time == MonthEnd(t)
    {
      ghost var c := FromTime(t);
      MonthStartFields(t);
      to.SetTime(from.GetTime());
      ghost var f := to.Fields();
      assert f == Civil(c.year, c.month, 1, 0, 0, 0, 0);
      var v := to.GetMonth() + 1;
      assert v == c.month + 1;
      to.SetMonth(v);
      assert to.time == Compose(f.(month := v));
      assert f.(month := v) == Civil(c.year, c.month + 1, 1, 0, 0, 0, 0);
      NextMonthStart(c.year, c.month);
      MonthEndFields(t);
    }

    /** `from` moves to January; `to` is the same day of the next year. */
    method YearSpan(t: int)
      requires from != to
      requires from.time == MonthStart(t)
      modifies from, to, this`year
      ensures from.time == YearStart(t) && to.time == YearEnd(t)
      ensures year == YearFraction(t)
    {
      ghost var c := FromTime(t);
      MonthStartFields(t);
      from.SetMonth(0);
      YearStartFields(t);
      YearEndFields(t);
      to.SetTime(from.GetTime());
      to.SetFullYear(to.GetFullYear() + 1);
      year := Fraction(t, from.GetTime(), to.GetTime());
    }

    /** `from` is truncated to midnight again and moved back to Sunday, which
        may lie in the previous month or year; `to` is seven days later. */
    method WeekSpan(t: int)
      requires from != to
      modifies from, to, this`week
      ensures from.time == WeekStart(t) && to.time == WeekEnd(t)
      ensures week == WeekFraction(t)
    {
      Midnight(t);
      LastSunday(t);
      WeekLater(t);
      week := Fraction(t, from.GetTime(), to.GetTime());
    }

    /** `from` becomes midnight of the day of `t`, one field at a time. */
    method Midnight(t: int)
      modifies from
      ensures from.time == DayStart(t)
    {
      ghost var c := FromTime(t);
      from.SetTime(t);
      from.SetMilliseconds(0);
      RoundTrip(c.(ms := 0));
      from.SetSeconds(0);
      MinuteStartFields(t);
      assert c.(ms := 0).(second := 0) == c.(second := 0, ms := 0);
      from.SetMinutes(0);
      HourStartFields(t);
      assert c.(second := 0, ms := 0).(minute := 0) == c.(minute := 0, second := 0, ms := 0);
      from.SetHours(0);
      DayStartFields(t);
      assert c.(minute := 0, second := 0, ms := 0).(hour := 0)
          == c.(hour := 0, minute := 0, second := 0, ms := 0);
    }

    /** `from` goes back from midnight by as many days as the day of the week. */
    method LastSunday(t: int)
      requires from.time == DayStart(t)
      modifies from
      ensures from.time == WeekStart(t)
    {
      ghost var d := from.time;
      assert WeekDay(d) == WeekDay(t);
      from.SetDate(from.GetDate() - from.GetDay());
      assert from.time == d - WeekDay(t) * MS_PER_DAY;
    }

    /** `to` becomes the same time of day seven days after `from`. */
    method WeekLater(t: int)
      requires from != to
      requires from.time == WeekStart(t)
      modifies to
      ensures to.time == WeekEnd(t)
    {
      to.SetTime(from.GetTime());
      to.SetDate(to.GetDate() + 7);
    }

    function M(): real
      reads this
    {
      minute
    }

    function H(): real
      reads this
    {
      hour
    }

    function D(): real
      reads this
    {
      day
    }

    function W(): real
      reads this
    {
      week
    }

    function Mo(): real
      reads this
    {
      month
    }

    function Y(): real
      reads this
    {
      year
    }

    /** While the fields are consistent, each getter reports the elapsed
        fraction of its period at the last instant, a value in [0, 1). */
    lemma Reports()
      requires Valid()
      ensures M() == MinuteFraction(instant) && 0.0 <= M() < 1.0
      ensures H() == HourFraction(instant) && 0.0 <= H() < 1.0
      ensures D() == DayFraction(instant) && 0.0 <= D() < 1.0
      ensures W() == WeekFraction(instant) && 0.0 <= W() < 1.0
      ensures Mo() == MonthFraction(instant) && 0.0 <= Mo() < 1.0
      ensures Y() == YearFraction(instant) && 0.0 <= Y() < 1.0
    {
    }
  }
}
