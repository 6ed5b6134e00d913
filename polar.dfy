/** The clock face without its drawing: one ring per configured period, each
    holding the fraction of its period that has elapsed, refreshed on every
    tick.  Angles are in units of π radians, measured the way the canvas
    `arc` call measures them, so a ring starts at the top of the face (−1/2)
    and sweeps clockwise through twice its fraction. */
module Polar {
  import opened Dates
  import opened TimeSpans

  datatype Option<T> = None | Some(value: T)

  /** The period a ring shows. */
  datatype RingType = Minute | Hour | Day | Week | Month | Year

  /** One of the calculator's six fraction getters, as a ring's updater. */
  datatype Getter = MinuteGetter | HourGetter | DayGetter | WeekGetter | MonthGetter | YearGetter

  /** The fraction a getter reads from the calculator. */
  function Apply(g: Getter, ts: TimeSpan): real
    reads ts
  {
    match g
    case MinuteGetter => ts.M()
    case HourGetter => ts.H()
    case DayGetter => ts.D()
    case WeekGetter => ts.W()
    case MonthGetter => ts.Mo()
    case YearGetter => ts.Y()
  }

  /** The elapsed fraction at time `t` of the period a ring type names. */
  function FractionOf(rt: RingType, t: int): real {
    match rt
    case Minute => MinuteFraction(t)
    case Hour => HourFraction(t)
    case Day => DayFraction(t)
    case Week => WeekFraction(t)
    case Month => MonthFraction(t)
    case Year => YearFraction(t)
  }

  /** The getter that reads the period a ring type names. */
  function Selector(rt: RingType): Getter {
    match rt
    case Minute => MinuteGetter
    case Hour => HourGetter
    case Day => DayGetter
    case Week => WeekGetter
    case Month => MonthGetter
    case Year => YearGetter
  }

  /** A consistent calculator's getter for a ring type reports the fraction
      of that ring's period at the calculator's instant. */
  lemma SelectorReads(rt: RingType, ts: TimeSpan)
    requires ts.Valid()
    ensures Apply(Selector(rt), ts) == FractionOf(rt, ts.instant)
  {
    ts.Reports();
  }

  datatype Callback = Callback(rt: RingType, func: Getter)

  /** The clock's table from ring type to getter. */
  const CALLBACKS: seq<Callback> := [
    Callback(Minute, MinuteGetter),
    Callback(Hour, HourGetter),
    Callback(Day, DayGetter),
    Callback(Week, WeekGetter),
    Callback(Month, MonthGetter),
    Callback(Year, YearGetter)
  ]

  /** The getter of the first entry of `table` whose type is `rt`, if any. */
  function Find(table: seq<Callback>, rt: RingType): (r: Option<Getter>)
    ensures r.None? <==> forall i :: 0 <= i < |table| ==> table[i].rt != rt
    ensures r.Some? ==> exists i :: 0 <= i < |table| && table[i].rt == rt && table[i].func == r.value
                          && forall j :: 0 <= j < i ==> table[j].rt != rt
  {
    if |table| == 0 then None
    else if table[0].rt == rt then Some(table[0].func)
    else
      var r := Find(table[1..], rt);
      assert forall i :: 1 <= i < |table| ==> table[i] == table[1..][i - 1];
      r
  }

  /** Every ring type has an entry in the table, and it is the getter of that
      ring type's period. */
  lemma CallbacksComplete(rt: RingType)
    ensures Find(CALLBACKS, rt) == Some(Selector(rt))
  {
    var r := Find(CALLBACKS, rt);
    assert CALLBACKS[0].rt == Minute;
    assert CALLBACKS[1].rt == Hour;
    assert CALLBACKS[2].rt == Day;
    assert CALLBACKS[3].rt == Week;
    assert CALLBACKS[4].rt == Month;
    assert CALLBACKS[5].rt == Year;
  }

  /** How a ring is drawn; the colours are not used by the model. */
  datatype RingOptions = RingOptions(rt: RingType, fg: string, bg: string, radius: int, width: int)

  datatype Theme = Theme(bg: string, rings: seq<RingOptions>)

  /** A ring holds the last fraction its updater produced. */
  class Ring {
    var percentage: real
    const updater: Getter

    constructor (u: Getter)
      ensures percentage == 0.0 && updater == u
    {
      percentage := 0.0;
      updater := u;
    }

    /** The start angle: the top of the face. */
    function Start(): real {
      -0.5
    }

    /** The end angle sweeps through twice the fraction, a full turn for a
        whole period. */
    function End(): (e: real)
      reads this
      ensures e - Start() == 2.0 * percentage
      ensures 0.0 <= percentage < 1.0 ==> Start() <= e < Start() + 2.0
    {
      2.0 * percentage - 0.5
    }

    function Percentage(): real
      reads this
    {
      percentage
    }

    /** Reads the updater's fraction from the calculator. */
    method Update(ts: TimeSpan)
      modifies this
      ensures percentage == Apply(updater, ts)
    {
      percentage := Apply(updater, ts);
    }
  }

  datatype Entry = Entry(opts: RingOptions, ring: Ring)

  /** Each ring's updater reads the period its options name, and no ring is
      shared between entries. */
  predicate WellFormed(entries: seq<Entry>) {
    && (forall i :: 0 <= i < |entries| ==> entries[i].ring.updater == Selector(entries[i].opts.rt))
    && (forall i, j :: 0 <= i < j < |entries| ==> entries[i].ring != entries[j].ring)
  }

  /** One entry per configured ring, in the configured order. */
  predicate Configured(entries: seq<Entry>, rings: seq<RingOptions>) {
    |entries| == |rings| && forall i :: 0 <= i < |entries| ==> entries[i].opts == rings[i]
  }

  /** One fresh ring per configured ring, in the configured order, each with
      the getter the callback table gives its type. */
  method NewEntries(rings: seq<RingOptions>) returns (entries: seq<Entry>)
    ensures Configured(entries, rings) && WellFormed(entries)
    ensures forall i :: 0 <= i < |entries| ==>
      entries[i].ring.percentage == 0.0 && fresh(entries[i].ring)
  {
    entries := [];
    var i := 0;
    while i < |rings|
      invariant 0 <= i <= |rings| && |entries| == i
      invariant forall j :: 0 <= j < i ==>
        && entries[j].opts == rings[j]
        && entries[j].ring.updater == Selector(rings[j].rt)
        && entries[j].ring.percentage == 0.0
        && fresh(entries[j].ring)
      invariant forall j, k :: 0 <= j < k < i ==> entries[j].ring != entries[k].ring
    {
      var ro := rings[i];
      CallbacksComplete(ro.rt);
      var ring := new Ring(Find(CALLBACKS, ro.rt).value);
      entries := entries + [Entry(ro, ring)];
      i := i + 1;
    }
  }

  /** The calculator and the ring entries a new clock starts with. */
  method NewParts(rings: seq<RingOptions>, now: int) returns (ts: TimeSpan, entries: seq<Entry>)
    ensures fresh(ts) && fresh(ts.from) && fresh(ts.to)
    ensures ts.Valid() && ts.instant == now
    ensures Configured(entries, rings) && WellFormed(entries)
    ensures forall i :: 0 <= i < |entries| ==>
      entries[i].ring.percentage == 0.0 && fresh(entries[i].ring)
  {
    entries := NewEntries(rings);
    ts := NewCalculator(now);
  }

  /** A fresh calculator, with fresh scratch dates, holding the fractions of
      the time `now`. */
  method NewCalculator(now: int) returns (ts: TimeSpan)
    ensures fresh(ts) && fresh(ts.from) && fresh(ts.to)
    ensures ts.Valid() && ts.instant == now
  {
    var d := new Date(now);
    ts := new TimeSpan(d);
  }

  /** Rings that have read their getters from a consistent calculator show
      the fractions of their periods at the calculator's instant. */
  lemma RingsShow(entries: seq<Entry>, ts: TimeSpan)
    requires ts.Valid() && WellFormed(entries)
    requires forall i :: 0 <= i < |entries| ==>
      entries[i].ring.percentage == Apply(entries[i].ring.updater, ts)
    ensures forall i :: 0 <= i < |entries| ==>
      entries[i].ring.percentage == FractionOf(entries[i].opts.rt, ts.instant)
  {
    forall i | 0 <= i < |entries|
      ensures entries[i].ring.percentage == FractionOf(entries[i].opts.rt, ts.instant)
    {
      SelectorReads(entries[i].opts.rt, ts);
    }
  }

  class PolarClock {
    const theme: Theme
    const timespan: TimeSpan
    var data: seq<Entry>

    /** The calculator's two scratch dates are distinct and the rings are
        well formed. */
    ghost predicate Valid()
      reads this, timespan
    {
      timespan.from != timespan.to && WellFormed(data)
    }

    /** One ring per configured ring, in the configured order, each looked up
        in the callback table by its type.  `now` is the time the calculator
        starts from. */
    constructor (theme: Theme, now: int)
      ensures Valid()
      ensures this.theme == theme && fresh(timespan) && fresh(timespan.from) && fresh(timespan.to)
      ensures timespan.Valid() && timespan.instant == now
      ensures Configured(data, theme.rings)
      ensures forall i :: 0 <= i < |data| ==>
        data[i].ring.percentage == 0.0 && fresh(data[i].ring)
    {
      var ts, entries := NewParts(theme.rings, now);
      this.theme := theme;
      timespan := ts;
      data := entries;
    }

    /** The rings whose fractions a tick rewrites. */
    ghost function Rings(): set<Ring>
      reads this
    {
      set i | 0 <= i < |data| :: data[i].ring
    }

    /** Recomputes the fractions for the time of `d`, then updates every ring
        in order.  The calculator's scratch dates are private, so `d` is never
        one of them. */
    method Tick(d: Date)
      requires Valid()
      requires d != timespan.from && d != timespan.to
      modifies timespan, timespan.from, timespan.to, Rings()
      ensures Valid()
      ensures data == old(data)
      ensures timespan.Valid() && timespan.instant == d.time
      ensures forall i :: 0 <= i < |data| ==>
        data[i].ring.percentage == FractionOf(data[i].opts.rt, d.time)
    {
      timespan.SetDate(d);
      UpdateRings();
      RingsShow(data, timespan);
    }

    /** Each ring, in order, reads its getter from the calculator. */
    method UpdateRings()
      requires forall i, j :: 0 <= i < j < |data| ==> data[i].ring != data[j].ring
      modifies Rings()
      ensures forall i :: 0 <= i < |data| ==>
        data[i].ring.percentage == Apply(data[i].ring.updater, timespan)
    {
      var i := 0;
      while i < |data|
        invariant 0 <= i <= |data|
        invariant forall j :: 0 <= j < i ==>
          data[j].ring.percentage == Apply(data[j].ring.updater, timespan)
      {
        data[i].ring.Update(timespan);
        i := i + 1;
      }
    }
  }

  /** The program's start-up: a clock is built from the theme, a date object
      is created once, and each frame sets it to the current time and ticks
      the clock with it.  One frame is modelled, with the times as parameters. */
  method Startup(theme: Theme, start: int, now: int) returns (pc: PolarClock)
    ensures pc.Valid() && pc.theme == theme && Configured(pc.data, theme.rings)
    ensures pc.timespan.Valid() && pc.timespan.instant == now
    ensures forall i :: 0 <= i < |pc.data| ==>
      pc.data[i].ring.percentage == FractionOf(pc.data[i].opts.rt, now)
  {
    pc := new PolarClock(theme, start);
    var d := new Date(start);
    Frame(pc, d, now);
  }

  /** One animation frame: the reused date is set to the current time and
      the clock is ticked with it. */
  method Frame(pc: PolarClock, d: Date, now: int)
    requires pc.Valid()
    requires d != pc.timespan.from && d != pc.timespan.to
    modifies d, pc.timespan, pc.timespan.from, pc.timespan.to, pc.Rings()
    ensures pc.Valid() && pc.data == old(pc.data)
    ensures pc.timespan.Valid() && pc.timespan.instant == now
    ensures forall i :: 0 <= i < |pc.data| ==>
      pc.data[i].ring.percentage == FractionOf(pc.data[i].opts.rt, now)
  {
    d.SetTime(now);
    pc.Tick(d);
  }
}
