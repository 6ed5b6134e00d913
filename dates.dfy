/** The part of the JavaScript `Date` object that the clock uses: a mutable
    time value read through local-time getters and changed through
    normalising local-time setters.  Local time is naive (see `Calendar`).
    Each setter replaces one civil field of the current time value and
    recombines all fields with MakeDay and MakeTime, so an out-of-range value
    rolls over into the neighbouring unit instead of being rejected. */
module Dates {
  import opened Calendar

  class Date {
    /** Milliseconds since 1970-01-01 00:00:00.000 local time. */
    var time: int

    constructor (t: int)
      ensures time == t
    {
      time := t;
    }

    /** The civil fields of the current time value. */
    function Fields(): Civil
      reads this
    {
      FromTime(time)
    }

    function GetTime(): int
      reads this
    {
      time
    }

    function GetFullYear(): (y: int)
      reads this
      ensures DaysBeforeYear(y) * MS_PER_DAY <= time < DaysBeforeYear(y + 1) * MS_PER_DAY
    {
      YearBounds(Fields());
      Fields().year
    }

    function GetMonth(): (m: int)
      reads this
      ensures 0 <= m < 12
    {
      Fields().month
    }

    function GetDate(): (d: int)
      reads this
      ensures 1 <= d <= DaysInMonth(Fields().year, Fields().month)
    {
      Fields().day
    }

    /** Day of the week, Sunday = 0. */
    function GetDay(): (wd: int)
      reads this
      ensures 0 <= wd < 7
    {
      WeekDay(time)
    }

    function GetHours(): (h: int)
      reads this
      ensures 0 <= h < 24
    {
      Fields().hour
    }

    function GetMinutes(): (mi: int)
      reads this
      ensures 0 <= mi < 60
    {
      Fields().minute
    }

    function GetSeconds(): (s: int)
      reads this
      ensures 0 <= s < 60
    {
      Fields().second
    }

    function GetMilliseconds(): (ms: int)
      reads this
      ensures 0 <= ms < 1000
    {
      Fields().ms
    }

    method SetTime(t: int)
      modifies this
      ensures time == t
    {
      time := t;
    }

    method SetMilliseconds(v: int)
      modifies this
      ensures time == Compose(old(Fields()).(ms := v))
      ensures time == old(time) + (v - old(GetMilliseconds()))
    {
      var c := Fields();
      ComposeShift(c, v - c.ms);
      time := Compose(c.(ms := v));
    }

    method SetSeconds(v: int)
      modifies this
      ensures time == Compose(old(Fields()).(second := v))
      ensures time == old(time) + (v - old(GetSeconds())) * MS_PER_SECOND
    {
      var c := Fields();
      ComposeShift(c, v - c.second);
      time := Compose(c.(second := v));
    }

    method SetMinutes(v: int)
      modifies this
      ensures time == Compose(old(Fields()).(minute := v))
      ensures time == old(time) + (v - old(GetMinutes())) * MS_PER_MINUTE
    {
      var c := Fields();
      ComposeShift(c, v - c.minute);
      time := Compose(c.(minute := v));
    }

    method SetHours(v: int)
      modifies this
      ensures time == Compose(old(Fields()).(hour := v))
      ensures time == old(time) + (v - old(GetHours())) * MS_PER_HOUR
    {
      var c := Fields();
      ComposeShift(c, v - c.hour);
      time := Compose(c.(hour := v));
    }

    method SetDate(v: int)
      modifies this
      ensures time == Compose(old(Fields()).(day := v))
      ensures time == old(time) + (v - old(GetDate())) * MS_PER_DAY
    {
      var c := Fields();
      ComposeShift(c, v - c.day);
      time := Compose(c.(day := v));
    }

    method SetMonth(v: int)
      modifies this
      ensures time == Compose(old(Fields()).(month := v))
    {
      time := Compose(Fields().(month := v));
    }

    method SetFullYear(v: int)
      modifies this
      ensures time == Compose(old(Fields()).(year := v))
    {
      time := Compose(Fields().(year := v));
    }
  }
}
