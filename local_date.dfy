/** A JavaScript `Date` read and written through its local-time accessors, for a host time
    zone with a fixed offset and no daylight-saving changes. The field `time` is the local
    wall-clock time value (milliseconds since local 1970-01-01 00:00); with a fixed offset
    it differs from `getTime()` by a constant, which cancels in every comparison and
    difference the library makes. */
module LocalDates {
  import opened Calendar

  /** The time value `setHours(h, m, s, ms)` gives a date whose time value is `t`. */
  function WithHours(t: int, h: int, m: int, s: int, ms: int): int
  {
    MakeDate(Day(t), MakeTime(h, m, s, ms))
  }

  /** The time value `setDate(d)` gives. */
  function WithDate(t: int, d: int): int
  {
    MakeDate(MakeDay(YearFromTime(t), MonthFromTime(t), d), TimeWithinDay(t))
  }

  /** The time value `setMonth(m, d)` gives. */
  function WithMonth(t: int, m: int, d: int): int
  {
    MakeDate(MakeDay(YearFromTime(t), m, d), TimeWithinDay(t))
  }

  class Date {
    var time: int

    /** `new Date(ms)`, and `new Date(date)` copying another date's time value. */
    constructor FromTime(t: int)
      ensures time == t
    {
      time := t;
    }

    /** `new Date(year, monthIndex, day)`: local midnight, with two-digit years mapped to
        1900..1999 and an out-of-range month or day carried into the neighbours. */
    constructor FromFields(year: int, monthIndex: int, day: int)
      ensures time == MakeDate(MakeDay(MakeFullYear(year), monthIndex, day), 0)
    {
      time := MakeDate(MakeDay(MakeFullYear(year), monthIndex, day), 0);
    }

    function GetFullYear(): int
      reads this
    {
      YearFromTime(time)
    }

    function GetMonth(): (m: int)
      reads this
      ensures 0 <= m <= 11
    {
      MonthFromTime(time)
    }

    function GetDate(): (d: int)
      reads this
      ensures 1 <= d <= 31
    {
      DateFromTime(time)
    }

    /** 0 = Sunday .. 6 = Saturday. */
    function GetDay(): (w: int)
      reads this
      ensures 0 <= w <= 6
    {
      WeekDay(time)
    }

    /** `setHours(h, m, s, ms)`: same day, new time of day (which may carry over). */
    method SetHours(h: int, m: int, s: int, ms: int)
      modifies this
      ensures time == WithHours(old(time), h, m, s, ms)
    {
      time := WithHours(time, h, m, s, ms);
    }

    /** `setDate(d)`: day `d` of the current month, keeping the time of day. */
    method SetDate(d: int)
      modifies this
      ensures time == WithDate(old(time), d)
    {
      time := WithDate(time, d);
    }

    /** `setMonth(m, d)`: day `d` of the 0-based month `m` of the current year, keeping the
        time of day. Setters do not map two-digit years. */
    method SetMonth(m: int, d: int)
      modifies this
      ensures time == WithMonth(old(time), m, d)
    {
      time := WithMonth(time, m, d);
    }
  }
}
