/** Proleptic Gregorian civil arithmetic on naive local time: no time zone, no
    daylight saving, every day exactly 86 400 000 ms long.  A time value is the
    signed number of milliseconds since 1970-01-01 00:00:00.000, as in a
    JavaScript `Date`; months are numbered 0 (January) to 11 (December) and
    days of the week 0 (Sunday) to 6 (Saturday), as `getMonth` and `getDay`
    number them. */
module Calendar {

  const MS_PER_SECOND: int := 1000
  const MS_PER_MINUTE: int := 60000
  const MS_PER_HOUR: int := 3600000
  const MS_PER_DAY: int := 86400000
  /** Days in 400 Gregorian years: 400 * 365 + 97 leap days. */
  const DAYS_PER_ERA: int := 146097

  /** Gregorian leap-year rule. */
  predicate IsLeap(y: int) {
    y % 4 == 0 && (y % 100 != 0 || y % 400 == 0)
  }

  function DaysInMonth(y: int, m: int): (n: int)
    requires 0 <= m < 12
    ensures 28 <= n <= 31
    ensures n == 29 <==> m == 1 && IsLeap(y)
  {
    if m == 1 then (if IsLeap(y) then 29 else 28)
    else if m == 3 || m == 5 || m == 8 || m == 10 then 30
    else 31
  }

  /** Days of year `y` that come before the first of month `m`
      (`m == 12` gives the length of the year).  January has 31 days and
      February 28 or 29; from March on the months repeat the five-month
      pattern 31, 30, 31, 30, 31, which is 153 days, so month `m` starts
      `(153 * (m - 2) + 2) / 5` days after March 1. */
  function DaysBeforeMonth(y: int, m: int): int
    requires 0 <= m <= 12
  {
    if m < 2 then 31 * m
    else (153 * (m - 2) + 2) / 5 + 59 + (if IsLeap(y) then 1 else 0)
  }

  /** The cumulative table agrees with the month lengths. */
  lemma DaysBeforeMonthStep(y: int, m: int)
    requires 0 <= m < 12
    ensures DaysBeforeMonth(y, m + 1) == DaysBeforeMonth(y, m) + DaysInMonth(y, m)
  {
    if m == 0 {
    } else if m == 1 {
    } else if m == 2 {
    } else if m == 3 {
    } else if m == 4 {
    } else if m == 5 {
    } else if m == 6 {
    } else if m == 7 {
    } else if m == 8 {
    } else if m == 9 {
    } else if m == 10 {
    } else {
      assert m == 11;
    }
  }

  /** A month that starts later in the year starts on a later day. */
  lemma DaysBeforeMonthMonotone(y: int, a: int, b: int)
    requires 0 <= a <= b <= 12
    ensures DaysBeforeMonth(y, a) + 28 * (b - a) <= DaysBeforeMonth(y, b)
  {
  }

  function LeapYearsBefore(y: int): int {
    (y - 1) / 4 - (y - 1) / 100 + (y - 1) / 400
  }

  /** Number of days from 1970-01-01 to January 1 of year `y` (negative before 1970). */
  function DaysBeforeYear(y: int): int {
    365 * (y - 1970) + LeapYearsBefore(y) - LeapYearsBefore(1970)
  }

  /** Floor division steps up by one exactly at multiples of the divisor. */
  lemma FloorStep(a: int)
    ensures a / 4 - (a - 1) / 4 == if a % 4 == 0 then 1 else 0
    ensures a / 100 - (a - 1) / 100 == if a % 100 == 0 then 1 else 0
    ensures a / 400 - (a - 1) / 400 == if a % 400 == 0 then 1 else 0
  {
  }

  /** Year `y` is 366 days long when it is a leap year and 365 days otherwise. */
  lemma {:induction false} YearLength(y: int)
    ensures DaysBeforeYear(y + 1) - DaysBeforeYear(y) == if IsLeap(y) then 366 else 365
    ensures DaysBeforeYear(y + 1) - DaysBeforeYear(y) == DaysBeforeMonth(y, 12)
  {
    FloorStep(y);
    MultipleChain(y);
    assert LeapYearsBefore(y + 1) - LeapYearsBefore(y) == if IsLeap(y) then 1 else 0;
    assert DaysBeforeMonth(y, 12) == 365 + (if IsLeap(y) then 1 else 0);
  }

  /** A multiple of 400 is a multiple of 100, and a multiple of 100 is a
      multiple of 4. */
  lemma MultipleChain(y: int)
    ensures y % 400 == 0 ==> y % 100 == 0
    ensures y % 100 == 0 ==> y % 4 == 0
  {
    if y % 400 == 0 {
      assert y == 4 * (y / 400) * 100;
      DivMod(4 * (y / 400), 0, 100);
    }
    if y % 100 == 0 {
      assert y == 25 * (y / 100) * 4;
      DivMod(25 * (y / 100), 0, 4);
    }
  }

  /** Years that start later start on later days, at least 365 per year apart. */
  lemma {:induction false} DaysBeforeYearMonotone(a: int, b: int)
    requires a <= b
    ensures DaysBeforeYear(a) + 365 * (b - a) <= DaysBeforeYear(b)
    decreases b - a
  {
    if a < b {
      DaysBeforeYearMonotone(a, b - 1);
      YearLength(b - 1);
    }
  }

  /** Only one year contains a given day. */
  lemma YearUnique(n: int, y1: int, y2: int)
    requires DaysBeforeYear(y1) <= n < DaysBeforeYear(y1 + 1)
    requires DaysBeforeYear(y2) <= n < DaysBeforeYear(y2 + 1)
    ensures y1 == y2
  {
    if y1 < y2 {
      DaysBeforeYearMonotone(y1 + 1, y2);
    } else if y2 < y1 {
      DaysBeforeYearMonotone(y2 + 1, y1);
    }
  }

  /** The Gregorian calendar repeats every 400 years, which are 146 097 days. */
  lemma EraStart(e: int)
    ensures DaysBeforeYear(1970 + 400 * e) == DAYS_PER_ERA * e
  {
    assert (1969 + 400 * e) / 4 == 492 + 100 * e;
    assert (1969 + 400 * e) / 100 == 19 + 4 * e;
    assert (1969 + 400 * e) / 400 == 4 + e;
  }

  /** Linear search for the year holding day `n`, between years `y` and `hi`. */
  function FindYear(n: int, y: int, hi: int): (r: int)
    requires DaysBeforeYear(y) <= n < DaysBeforeYear(hi)
    ensures y <= r < hi
    ensures DaysBeforeYear(r) <= n < DaysBeforeYear(r + 1)
    decreases hi - y
  {
    if hi <= y then
      DaysBeforeYearMonotone(hi, y);
      assert false;
      y
    else if n < DaysBeforeYear(y + 1) then y
    else FindYear(n, y + 1, hi)
  }

  /** The year that holds day number `n` (days since 1970-01-01). */
  function YearOfDay(n: int): (y: int)
    ensures DaysBeforeYear(y) <= n < DaysBeforeYear(y + 1)
  {
    var era := n / DAYS_PER_ERA;
    EraStart(era);
    EraStart(era + 1);
    FindYear(n, 1970 + 400 * era, 1970 + 400 * (era + 1))
  }

  /** The month holding day `x` counted from March 1 is `(5 * x + 2) / 153`
      months after March: the inverse of the March-based month starts. */
  lemma MarchMonth(y: int, x: int)
    requires 0 <= x < 306
    ensures var mp := (5 * x + 2) / 153;
      && 0 <= mp < 10
      && DaysBeforeMonth(y, mp + 2) <= x + DaysBeforeMonth(y, 2) < DaysBeforeMonth(y, mp + 3)
  {
    var mp := (5 * x + 2) / 153;
    assert 153 * mp <= 5 * x + 2 < 153 * mp + 153;
    assert (153 * mp + 2) / 5 <= x;
    assert x < (153 * mp + 155) / 5;
  }

  /** The month of year `y` holding day `k` of the year (0 is January 1). */
  function MonthOfYearDay(y: int, k: int): (m: int)
    requires 0 <= k < DaysBeforeMonth(y, 12)
    ensures 0 <= m < 12
    ensures DaysBeforeMonth(y, m) <= k < DaysBeforeMonth(y, m + 1)
  {
    var march := DaysBeforeMonth(y, 2);
    if k < 31 then 0
    else if k < march then 1
    else
      MarchMonth(y, k - march);
      (5 * (k - march) + 2) / 153 + 2
  }

  /** Only one month of a year contains a given day of that year. */
  lemma MonthUnique(y: int, k: int, m1: int, m2: int)
    requires 0 <= m1 < 12 && 0 <= m2 < 12
    requires DaysBeforeMonth(y, m1) <= k < DaysBeforeMonth(y, m1 + 1)
    requires DaysBeforeMonth(y, m2) <= k < DaysBeforeMonth(y, m2 + 1)
    ensures m1 == m2
  {
    if m1 < m2 {
      DaysBeforeMonthMonotone(y, m1 + 1, m2);
    } else if m2 < m1 {
      DaysBeforeMonthMonotone(y, m2 + 1, m1);
    }
  }

  /** The fields of a local date-time.  Fields built by a setter may be out of
      range; `Valid` says they are all in range. */
  datatype Civil = Civil(year: int, month: int, day: int,
                         hour: int, minute: int, second: int, ms: int)

  predicate Valid(c: Civil) {
    && 0 <= c.month < 12
    && 1 <= c.day <= DaysInMonth(c.year, c.month)
    && 0 <= c.hour < 24
    && 0 <= c.minute < 60
    && 0 <= c.second < 60
    && 0 <= c.ms < 1000
  }

  /** ECMAScript MakeDay: the day number of the `date`-th day of month `month`
      of year `year`.  The month rolls over into the year by floor division and
      the date is added to the first of the month, so any integer fields are
      accepted and out-of-range ones carry into the neighbouring months and years. */
  function MakeDay(year: int, month: int, date: int): int {
    var y := year + month / 12;
    var m := month % 12;
    DaysBeforeYear(y) + DaysBeforeMonth(y, m) + date - 1
  }

  /** ECMAScript MakeTime: milliseconds from the start of a day. */
  function MakeTime(hour: int, minute: int, second: int, ms: int): int {
    hour * MS_PER_HOUR + minute * MS_PER_MINUTE + second * MS_PER_SECOND + ms
  }

  /** The time value of some (possibly out-of-range) civil fields. */
  function Compose(c: Civil): int {
    MakeDay(c.year, c.month, c.day) * MS_PER_DAY + MakeTime(c.hour, c.minute, c.second, c.ms)
  }

  /** The civil fields of a time value: what `getFullYear`, `getMonth`,
      `getDate`, `getHours`, `getMinutes`, `getSeconds` and `getMilliseconds`
      report.  They are in range and compose back to the same time value. */
  function FromTime(t: int): (c: Civil)
    ensures Valid(c)
    ensures Compose(c) == t
  {
    var n := t / MS_PER_DAY;
    var w := t % MS_PER_DAY;
    var y := YearOfDay(n);
    var k := n - DaysBeforeYear(y);
    YearLength(y);
    var m := MonthOfYearDay(y, k);
    DaysBeforeMonthStep(y, m);
    MakeDayInRange(y, m, k - DaysBeforeMonth(y, m) + 1);
    SplitDay(t);
    Civil(y, m, k - DaysBeforeMonth(y, m) + 1,
          w / MS_PER_HOUR, w % MS_PER_HOUR / MS_PER_MINUTE,
          w % MS_PER_MINUTE / MS_PER_SECOND, w % MS_PER_SECOND)
  }

  /** For an in-range month, MakeDay needs no roll-over. */
  lemma MakeDayInRange(y: int, m: int, d: int)
    requires 0 <= m < 12
    ensures MakeDay(y, m, d) == DaysBeforeYear(y) + DaysBeforeMonth(y, m) + d - 1
  {
    assert m / 12 == 0 && m % 12 == m;
  }

  /** Euclidean division by a positive divisor is determined by quotient and remainder. */
  lemma DivMod(q: int, r: int, m: int)
    requires 0 < m && 0 <= r < m
    ensures (q * m + r) / m == q && (q * m + r) % m == r
  {
    var x := q * m + r;
    var p := x / m;
    assert x == p * m + x % m;
    assert (q - p) * m == x % m - r;
    if q > p {
      assert (q - p) * m >= m by { MulAtLeast(q - p, m); }
    } else if q < p {
      assert (p - q) * m >= m by { MulAtLeast(p - q, m); }
    }
  }

  lemma MulAtLeast(a: int, m: int)
    requires a >= 1 && m > 0
    ensures a * m >= m
  {
    assert a * m == m + (a - 1) * m;
  }

  /** A time value is its day number plus the clock fields of its day. */
  lemma SplitDay(t: int)
    ensures var w := t % MS_PER_DAY;
      t == (t / MS_PER_DAY) * MS_PER_DAY
           + MakeTime(w / MS_PER_HOUR, w % MS_PER_HOUR / MS_PER_MINUTE,
                      w % MS_PER_MINUTE / MS_PER_SECOND, w % MS_PER_SECOND)
  {
    var w := t % MS_PER_DAY;
    var r := w % MS_PER_HOUR;
    assert w == (w / MS_PER_HOUR) * MS_PER_HOUR + r;
    assert w % MS_PER_MINUTE == r % MS_PER_MINUTE;
    assert r == (r / MS_PER_MINUTE) * MS_PER_MINUTE + r % MS_PER_MINUTE;
  }

  /** Day of the week of a time value, Sunday = 0 (1970-01-01 was a Thursday). */
  function WeekDay(t: int): (wd: int)
    ensures 0 <= wd < 7
  {
    (t / MS_PER_DAY + 4) % 7
  }

  /** Day number of in-range fields, and the milliseconds into that day. */
  lemma DayOfValid(c: Civil)
    requires Valid(c)
    ensures Compose(c) / MS_PER_DAY == MakeDay(c.year, c.month, c.day)
    ensures Compose(c) % MS_PER_DAY == MakeTime(c.hour, c.minute, c.second, c.ms)
    ensures MakeDay(c.year, c.month, c.day)
            == DaysBeforeYear(c.year) + DaysBeforeMonth(c.year, c.month) + c.day - 1
  {
    var tod := MakeTime(c.hour, c.minute, c.second, c.ms);
    assert 0 <= tod < MS_PER_DAY;
  }

  /** The year and month searches find the year and month of in-range fields. */
  lemma DateOfValid(c: Civil)
    requires Valid(c)
    ensures YearOfDay(MakeDay(c.year, c.month, c.day)) == c.year
    ensures var k := MakeDay(c.year, c.month, c.day) - DaysBeforeYear(c.year);
      0 <= k < DaysBeforeMonth(c.year, 12) && MonthOfYearDay(c.year, k) == c.month
  {
    var y, m := c.year, c.month;
    var n := MakeDay(y, m, c.day);
    MakeDayInRange(y, m, c.day);
    var k := n - DaysBeforeYear(y);
    assert k == DaysBeforeMonth(y, m) + c.day - 1;
    DaysBeforeMonthStep(y, m);
    assert DaysBeforeMonth(y, m) <= k < DaysBeforeMonth(y, m + 1);
    DaysBeforeMonthMonotone(y, m + 1, 12);
    YearLength(y);
    assert DaysBeforeYear(y) <= n < DaysBeforeYear(y + 1);
    YearUnique(n, YearOfDay(n), y);
    var r := MonthOfYearDay(y, k);
    assert 0 <= r < 12 && DaysBeforeMonth(y, r) <= k < DaysBeforeMonth(y, r + 1);
    MonthUnique(y, k, r, m);
    assert r == m;
  }

  /** In-range civil fields are exactly what `FromTime` reads back. */
  lemma RoundTrip(c: Civil)
    requires Valid(c)
    ensures FromTime(Compose(c)) == c
  {
    DayOfValid(c);
    DateOfValid(c);
    MakeDayInRange(c.year, c.month, c.day);
    TimeOfDayFields(c.hour, c.minute, c.second, c.ms);
  }

  /** The clock fields of a day are read back from the milliseconds into it. */
  lemma TimeOfDayFields(h: int, mi: int, s: int, ms: int)
    requires 0 <= h < 24 && 0 <= mi < 60 && 0 <= s < 60 && 0 <= ms < 1000
    ensures MakeTime(h, mi, s, ms) / MS_PER_HOUR == h
    ensures MakeTime(h, mi, s, ms) % MS_PER_HOUR / MS_PER_MINUTE == mi
    ensures MakeTime(h, mi, s, ms) % MS_PER_MINUTE / MS_PER_SECOND == s
    ensures MakeTime(h, mi, s, ms) % MS_PER_SECOND == ms
  {
    var w := MakeTime(h, mi, s, ms);
    assert w % MS_PER_HOUR == mi * MS_PER_MINUTE + s * MS_PER_SECOND + ms;
    assert w % MS_PER_MINUTE == s * MS_PER_SECOND + ms;
  }

  /** Adding `k` to any one field moves the time value by `k` of that field's
      unit; day, hour, minute, second and millisecond fields carry freely. */
  lemma ComposeShift(c: Civil, k: int)
    ensures Compose(c.(day := c.day + k)) == Compose(c) + k * MS_PER_DAY
    ensures Compose(c.(hour := c.hour + k)) == Compose(c) + k * MS_PER_HOUR
    ensures Compose(c.(minute := c.minute + k)) == Compose(c) + k * MS_PER_MINUTE
    ensures Compose(c.(second := c.second + k)) == Compose(c) + k * MS_PER_SECOND
    ensures Compose(c.(ms := c.ms + k)) == Compose(c) + k
  {
  }

  /** Month 12 of a year is month 0 of the next one (setMonth overflow). */
  lemma MonthOverflow(c: Civil)
    ensures Compose(c.(month := c.month + 12)) == Compose(c.(year := c.year + 1))
  {
    assert (c.month + 12) / 12 == c.month / 12 + 1;
    assert (c.month + 12) % 12 == c.month % 12;
  }

  /** The day after the last day of a month is the first of the next month,
      December rolling over into January of the next year. */
  lemma DayOverflow(y: int, m: int)
    requires 0 <= m < 12
    ensures Compose(Civil(y, m, DaysInMonth(y, m) + 1, 0, 0, 0, 0)) == Compose(NextMonth(y, m))
  {
    var n := NextMonth(y, m);
    var a := MakeDay(y, m, DaysInMonth(y, m) + 1);
    assert a == DaysBeforeYear(y) + DaysBeforeMonth(y, m + 1) by {
      MakeDayInRange(y, m, DaysInMonth(y, m) + 1);
      DaysBeforeMonthStep(y, m);
    }
    assert MakeDay(n.year, n.month, n.day) == a by {
      if m == 11 {
        YearLength(y);
        MakeDayInRange(y + 1, 0, 1);
      } else {
        MakeDayInRange(y, m + 1, 1);
      }
    }
  }

  /** Day 0 of a month is the last day of the previous month, January
      rolling back into December of the previous year (setDate underflow). */
  lemma DayUnderflow(y: int, m: int)
    requires 0 <= m < 12
    ensures var last := if m == 0 then Civil(y - 1, 11, 31, 0, 0, 0, 0)
                        else Civil(y, m - 1, DaysInMonth(y, m - 1), 0, 0, 0, 0);
      Compose(Civil(y, m, 0, 0, 0, 0, 0)) == Compose(last)
  {
    if m == 0 {
      JanuaryZero(y);
    } else {
      MonthZero(y, m);
    }
  }

  /** Day 0 of January is December 31 of the previous year. */
  lemma JanuaryZero(y: int)
    ensures MakeDay(y, 0, 0) == MakeDay(y - 1, 11, 31)
  {
    YearLength(y - 1);
    MakeDayInRange(y - 1, 11, 31);
    assert DaysBeforeMonth(y - 1, 11) + 31 == DaysBeforeMonth(y - 1, 12);
  }

  /** Day 0 of a later month is the last day of the month before it. */
  lemma MonthZero(y: int, m: int)
    requires 0 < m < 12
    ensures MakeDay(y, m, 0) == MakeDay(y, m - 1, DaysInMonth(y, m - 1))
  {
    MakeDayInRange(y, m, 0);
    MakeDayInRange(y, m - 1, DaysInMonth(y, m - 1));
    DaysBeforeMonthStep(y, m - 1);
  }

  /** Month `m + 1` of year `y` is the month after `m`: December is followed by
      January of the next year (setMonth(getMonth() + 1) on the first of a month). */
  lemma NextMonthStart(y: int, m: int)
    requires 0 <= m < 12
    ensures Compose(Civil(y, m + 1, 1, 0, 0, 0, 0)) == Compose(NextMonth(y, m))
  {
    if m == 11 {
      MonthOverflow(Civil(y, 0, 1, 0, 0, 0, 0));
    } else {
      assert (m + 1) / 12 == 0 && (m + 1) % 12 == m + 1;
    }
  }

  /** The first instant of the month after month `m` of year `y`, as fields. */
  function NextMonth(y: int, m: int): (c: Civil)
    requires 0 <= m < 12
    ensures Valid(c)
  {
    if m == 11 then Civil(y + 1, 0, 1, 0, 0, 0, 0) else Civil(y, m + 1, 1, 0, 0, 0, 0)
  }

  /** Going back from midnight by as many days as the day of the week lands
      on midnight of a Sunday. */
  lemma BackToSunday(t: int)
    requires t % MS_PER_DAY == 0
    ensures var s := t - WeekDay(t) * MS_PER_DAY;
      s % MS_PER_DAY == 0 && WeekDay(s) == 0
  {
    var n := t / MS_PER_DAY;
    var x := n + 4;
    var wd := x % 7;
    assert t == n * MS_PER_DAY;
    var s := (n - wd) * MS_PER_DAY;
    assert s / MS_PER_DAY == n - wd;
    assert x - wd == 7 * (x / 7);
  }

  /** In-range fields lie between January 1 of their year and January 1 of the next. */
  lemma YearBounds(c: Civil)
    requires Valid(c)
    ensures Compose(Civil(c.year, 0, 1, 0, 0, 0, 0)) == DaysBeforeYear(c.year) * MS_PER_DAY
    ensures Compose(Civil(c.year + 1, 0, 1, 0, 0, 0, 0)) == DaysBeforeYear(c.year + 1) * MS_PER_DAY
    ensures DaysBeforeYear(c.year) * MS_PER_DAY <= Compose(c) < DaysBeforeYear(c.year + 1) * MS_PER_DAY
  {
    JanuaryFirst(c.year);
    JanuaryFirst(c.year + 1);
    var n := MakeDay(c.year, c.month, c.day);
    assert DaysBeforeYear(c.year) <= n < DaysBeforeYear(c.year + 1) by {
      MakeDayInRange(c.year, c.month, c.day);
      DaysBeforeMonthStep(c.year, c.month);
      DaysBeforeMonthMonotone(c.year, c.month + 1, 12);
      YearLength(c.year);
    }
    DayOfValid(c);
    assert Compose(c) == n * MS_PER_DAY + Compose(c) % MS_PER_DAY;
  }

  /** January 1 of year `y` starts at its day number times the day length. */
  lemma JanuaryFirst(y: int)
    ensures Compose(Civil(y, 0, 1, 0, 0, 0, 0)) == DaysBeforeYear(y) * MS_PER_DAY
  {
    MakeDayInRange(y, 0, 1);
  }
}
