/** The local-calendar helpers of the date library: start and end of a day, week, month,
    quarter and year (each copies the `Date` and moves the copy with setters), same-week
    test, days in month, last day of month, leap year, weekend, ISO week number and day of
    the year. A function taking `t: int` stands for the helper applied to the `Date` whose
    local time value is `t`. */
module DatetimeUtils {
  import opened Text
  import opened Calendar
  import opened LocalDates

  // ---------------------------------------------------------------- day

  /** Local midnight of the day of `t`. */
  function StartOfDayTime(t: int): (r: int)
    ensures Day(r) == Day(t) && TimeWithinDay(r) == 0
    ensures r <= t < r + MsPerDay
  {
    MakeDate(Day(t), 0)
  }

  /** 23:59:59.999 of the day of `t`. */
  function EndOfDayTime(t: int): (r: int)
    ensures Day(r) == Day(t) && TimeWithinDay(r) == MsPerDay - 1
    ensures HourFromTime(r) == 23 && MinFromTime(r) == 59 && SecFromTime(r) == 59 && MsFromTime(r) == 999
    ensures t <= r < t + MsPerDay
  {
    MakeTimeFields(Day(t), 23, 59, 59, 999);
    MakeDate(Day(t), MakeTime(23, 59, 59, 999))
  }

  method StartOfDay(date: Date) returns (result: Date)
    ensures fresh(result) && result.time == StartOfDayTime(date.time)
  {
    result := new Date.FromTime(date.time);
    result.SetHours(0, 0, 0, 0);
  }

  method EndOfDay(date: Date) returns (result: Date)
    ensures fresh(result) && result.time == EndOfDayTime(date.time)
  {
    result := new Date.FromTime(date.time);
    result.SetHours(23, 59, 59, 999);
  }

  // ---------------------------------------------------------------- week

  /** Days back from weekday `day` to the latest weekday `startOfWeekDay`. */
  function WeekOffset(day: int, startOfWeekDay: int): (r: int)
    ensures 0 <= day <= 6 && 0 <= startOfWeekDay <= 6 ==> 0 <= r <= 6 && (day - r - startOfWeekDay) % 7 == 0
  {
    (if day < startOfWeekDay then 7 else 0) + day - startOfWeekDay
  }

  /** Midnight of the latest day on or before `t` whose weekday is `startOfWeekDay`. */
  function StartOfWeekTime(t: int, startOfWeekDay: int): (r: int)
    ensures 0 <= startOfWeekDay <= 6 ==>
      WeekDay(r) == startOfWeekDay && TimeWithinDay(r) == 0 && r <= t < r + 7 * MsPerDay
  {
    var r := MakeDate(Day(t) - WeekOffset(WeekDay(t), startOfWeekDay), 0);
    MakeDateParts(Day(t) - WeekOffset(WeekDay(t), startOfWeekDay), 0);
    r
  }

  /** The setter chain of `startOfWeek` computes `StartOfWeekTime`. */
  lemma StartOfWeekSteps(t: int, startOfWeekDay: int)
    ensures StartOfWeekTime(t, startOfWeekDay)
      == StartOfDayTime(WithDate(t, DateFromTime(t) - WeekOffset(WeekDay(t), startOfWeekDay)))
  {
    var back := WeekOffset(WeekDay(t), startOfWeekDay);
    var day := Day(t) - back;
    MakeDayRelative(t, DateFromTime(t) - back);
    assert MakeDay(YearFromTime(t), MonthFromTime(t), DateFromTime(t) - back) == day;
    var w := WithDate(t, DateFromTime(t) - back);
    assert w == MakeDate(day, TimeWithinDay(t));
    MakeDateParts(day, TimeWithinDay(t));
    assert StartOfDayTime(w) == MakeDate(day, 0);
  }

  method StartOfWeek(date: Date, startOfWeekDay: int) returns (result: Date)
    ensures fresh(result) && result.time == StartOfWeekTime(date.time, startOfWeekDay)
  {
    var t := date.time;
    StartOfWeekSteps(t, startOfWeekDay);
    var copy := new Date.FromTime(t);
    var day := copy.GetDay();
    var diff := (if day < startOfWeekDay then 7 else 0) + day - startOfWeekDay;
    assert diff == WeekOffset(WeekDay(t), startOfWeekDay);
    copy.SetDate(copy.GetDate() - diff);
    assert copy.time == WithDate(t, DateFromTime(t) - WeekOffset(WeekDay(t), startOfWeekDay));
    result := StartOfDay(copy);
  }

  /** 23:59:59.999 of the sixth day after the start of the week of `t`. */
  function EndOfWeekTime(t: int, startOfWeekDay: int): (r: int)
    ensures 0 <= startOfWeekDay <= 6 ==>
      WeekDay(r) == (startOfWeekDay + 6) % 7 && r == StartOfWeekTime(t, startOfWeekDay) + 7 * MsPerDay - 1
      && t <= r
  {
    var day := Day(StartOfWeekTime(t, startOfWeekDay)) + 6;
    MakeTimeFields(day, 23, 59, 59, 999);
    MakeDate(day, MakeTime(23, 59, 59, 999))
  }

  /** The setter chain of `endOfWeek` computes `EndOfWeekTime`. */
  lemma EndOfWeekSteps(t: int, startOfWeekDay: int)
    ensures var start := StartOfWeekTime(t, startOfWeekDay);
      EndOfWeekTime(t, startOfWeekDay) == EndOfDayTime(WithDate(start, DateFromTime(start) + 6))
  {
    var start := StartOfWeekTime(t, startOfWeekDay);
    var day := Day(start) + 6;
    MakeDayRelative(start, DateFromTime(start) + 6);
    assert MakeDay(YearFromTime(start), MonthFromTime(start), DateFromTime(start) + 6) == day;
    var w := WithDate(start, DateFromTime(start) + 6);
    assert w == MakeDate(day, TimeWithinDay(start));
    MakeDateParts(day, TimeWithinDay(start));
    assert EndOfDayTime(w) == MakeDate(day, MakeTime(23, 59, 59, 999));
  }

  method EndOfWeek(date: Date, startOfWeekDay: int) returns (result: Date)
    ensures fresh(result) && result.time == EndOfWeekTime(date.time, startOfWeekDay)
  {
    var t := date.time;
    EndOfWeekSteps(t, startOfWeekDay);
    var start := StartOfWeek(date, startOfWeekDay);
    var s := start.time;
    assert s == StartOfWeekTime(t, startOfWeekDay);
    start.SetDate(start.GetDate() + 6);
    assert start.time == WithDate(s, DateFromTime(s) + 6);
    result := EndOfDay(start);
  }

  /** `isSameWeek`: equal Monday-based starts of week. */
  predicate SameWeek(t1: int, t2: int)
  {
    StartOfWeekTime(t1, 1) == StartOfWeekTime(t2, 1)
  }

  method IsSameWeek(date1: Date, date2: Date) returns (same: bool)
    ensures same <==> SameWeek(date1.time, date2.time)
  {
    var start1 := StartOfWeek(date1, 1);
    var start2 := StartOfWeek(date2, 1);
    same := start1.time == start2.time;
  }

  /** The Monday-based start of week is day `7k - 3` (a Monday) for week index `k`. */
  lemma MondayStart(t: int)
    ensures Day(StartOfWeekTime(t, 1)) == 7 * ((Day(t) + 3) / 7) - 3
  {
    MakeDateParts(Day(t) - WeekOffset(WeekDay(t), 1), 0);
  }

  /** Two dates are in the same week exactly when their Monday-based week indices agree. */
  lemma SameWeekIndex(t1: int, t2: int)
    ensures SameWeek(t1, t2) <==> (Day(t1) + 3) / 7 == (Day(t2) + 3) / 7
  {
    MondayStart(t1);
    MondayStart(t2);
  }

  /** A Sunday shares its week with the Monday six days before, not with the next day. */
  lemma SundayEndsTheWeek(t: int)
    requires WeekDay(t) == 0
    ensures WeekDay(t - 6 * MsPerDay) == 1 && SameWeek(t, t - 6 * MsPerDay)
    ensures !SameWeek(t, t + MsPerDay)
  {
    assert Day(t - 6 * MsPerDay) == Day(t) - 6;
    assert Day(t + MsPerDay) == Day(t) + 1;
    SameWeekIndex(t, t - 6 * MsPerDay);
    SameWeekIndex(t, t + MsPerDay);
  }

  // ---------------------------------------------------------------- month

  /** Midnight of the first of the month of `t`. */
  function StartOfMonthTime(t: int): (r: int)
    ensures CivilOf(r) == Civil(CivilOf(t).year, CivilOf(t).month, 1)
    ensures TimeWithinDay(r) == 0 && r <= t
  {
    var c := CivilOf(t);
    var first := DaysFromCivil(c.year, c.month, 1);
    CivilOfDay(Civil(c.year, c.month, 1), 0);
    DayOrder(first, t);
    MakeDate(first, 0)
  }

  /** The setter chain of `startOfMonth` computes `StartOfMonthTime`. */
  lemma StartOfMonthSteps(t: int)
    ensures StartOfMonthTime(t) == StartOfDayTime(WithDate(t, 1))
  {
    MakeDayInRange(YearFromTime(t), MonthFromTime(t), 1);
    MakeDateParts(DaysFromCivil(YearFromTime(t), MonthFromTime(t) + 1, 1), TimeWithinDay(t));
  }

  method StartOfMonth(date: Date) returns (result: Date)
    ensures fresh(result) && result.time == StartOfMonthTime(date.time)
  {
    var t := date.time;
    StartOfMonthSteps(t);
    var copy := new Date.FromTime(t);
    copy.SetDate(1);
    assert copy.time == WithDate(t, 1);
    result := StartOfDay(copy);
  }

  /** 23:59:59.999 of the last day of the month of `t`. */
  function EndOfMonthTime(t: int): (r: int)
    ensures CivilOf(r) == Civil(CivilOf(t).year, CivilOf(t).month, DaysInMonth(CivilOf(t).year, CivilOf(t).month))
    ensures TimeWithinDay(r) == MsPerDay - 1 && t <= r
  {
    var c := CivilOf(t);
    var last := DaysFromCivil(c.year, c.month, DaysInMonth(c.year, c.month));
    CivilOfDay(Civil(c.year, c.month, DaysInMonth(c.year, c.month)), MsPerDay - 1);
    LastOfLaterMonth(c, c.month);
    DayOrder(last, t);
    MakeDate(last, MsPerDay - 1)
  }

  /** The setter chain of `endOfMonth` computes `EndOfMonthTime`. */
  lemma EndOfMonthSteps(t: int)
    ensures EndOfMonthTime(t) == EndOfDayTime(WithMonth(t, MonthFromTime(t) + 1, 0))
  {
    var y := YearFromTime(t);
    var m := MonthFromTime(t) + 1;
    MakeDayZero(y, m);
    MakeDateParts(DaysFromCivil(y, m, DaysInMonth(y, m)), TimeWithinDay(t));
  }

  method EndOfMonth(date: Date) returns (result: Date)
    ensures fresh(result) && result.time == EndOfMonthTime(date.time)
  {
    var t := date.time;
    EndOfMonthSteps(t);
    var copy := new Date.FromTime(t);
    copy.SetMonth(copy.GetMonth() + 1, 0);
    assert copy.time == WithMonth(t, MonthFromTime(t) + 1, 0);
    result := EndOfDay(copy);
  }

  // ---------------------------------------------------------------- quarter

  /** `getQuarter`: 1 for January..March up to 4 for October..December. */
  function GetQuarter(t: int): (q: int)
    ensures 1 <= q <= 4
    ensures 3 * (q - 1) <= MonthFromTime(t) < 3 * q
  {
    MonthFromTime(t) / 3 + 1
  }

  /** First day of the days-from-civil month `m` lies on or before any later day of the year. */
  lemma FirstOfEarlierMonth(c: Civil, m: int)
    requires ValidCivil(c) && 1 <= m <= c.month
    ensures DaysFromCivil(c.year, m, 1) <= DaysFromCivil(c.year, c.month, c.day)
  {
    DaysBeforeMonthMonotone(c.year, m, c.month);
  }

  lemma LastOfLaterMonth(c: Civil, m: int)
    requires ValidCivil(c) && c.month <= m <= 12
    ensures DaysFromCivil(c.year, c.month, c.day) <= DaysFromCivil(c.year, m, DaysInMonth(c.year, m))
  {
    DaysBeforeMonthMonotone(c.year, c.month, m);
  }

  /** Midnight of the first day of the quarter of `t`. */
  function StartOfQuarterTime(t: int): (r: int)
    ensures CivilOf(r) == Civil(CivilOf(t).year, 3 * GetQuarter(t) - 2, 1)
    ensures TimeWithinDay(r) == 0 && r <= t
  {
    var c := CivilOf(t);
    var m := 3 * GetQuarter(t) - 2;
    var first := DaysFromCivil(c.year, m, 1);
    CivilOfDay(Civil(c.year, m, 1), 0);
    FirstOfEarlierMonth(c, m);
    DayOrder(first, t);
    MakeDate(first, 0)
  }

  /** The setter chain of `startOfQuarter` computes `StartOfQuarterTime`. */
  lemma StartOfQuarterSteps(t: int)
    ensures StartOfQuarterTime(t) == StartOfDayTime(WithMonth(t, (GetQuarter(t) - 1) * 3, 1))
  {
    var y := YearFromTime(t);
    var m0 := (GetQuarter(t) - 1) * 3;
    MakeDayInRange(y, m0, 1);
    MakeDateParts(DaysFromCivil(y, m0 + 1, 1), TimeWithinDay(t));
  }

  method StartOfQuarter(date: Date) returns (result: Date)
    ensures fresh(result) && result.time == StartOfQuarterTime(date.time)
  {
    var t := date.time;
    StartOfQuarterSteps(t);
    var quarter := GetQuarter(t);
    var month := (quarter - 1) * 3;
    var copy := new Date.FromTime(t);
    copy.SetMonth(month, 1);
    assert copy.time == WithMonth(t, (GetQuarter(t) - 1) * 3, 1);
    result := StartOfDay(copy);
  }

  /** 23:59:59.999 of the last day of the quarter of `t`. */
  function EndOfQuarterTime(t: int): (r: int)
    ensures CivilOf(r) == Civil(CivilOf(t).year, 3 * GetQuarter(t), DaysInMonth(CivilOf(t).year, 3 * GetQuarter(t)))
    ensures TimeWithinDay(r) == MsPerDay - 1 && t <= r
  {
    var c := CivilOf(t);
    var m := 3 * GetQuarter(t);
    var last := DaysFromCivil(c.year, m, DaysInMonth(c.year, m));
    CivilOfDay(Civil(c.year, m, DaysInMonth(c.year, m)), MsPerDay - 1);
    LastOfLaterMonth(c, m);
    DayOrder(last, t);
    MakeDate(last, MsPerDay - 1)
  }

  /** The setter chain of `endOfQuarter` computes `EndOfQuarterTime`. */
  lemma EndOfQuarterSteps(t: int)
    ensures EndOfQuarterTime(t) == EndOfDayTime(WithMonth(t, GetQuarter(t) * 3 - 1 + 1, 0))
  {
    var y := YearFromTime(t);
    var m := GetQuarter(t) * 3;
    MakeDayZero(y, m);
    MakeDateParts(DaysFromCivil(y, m, DaysInMonth(y, m)), TimeWithinDay(t));
  }

  method EndOfQuarter(date: Date) returns (result: Date)
    ensures fresh(result) && result.time == EndOfQuarterTime(date.time)
  {
    var t := date.time;
    EndOfQuarterSteps(t);
    var quarter := GetQuarter(t);
    var month := quarter * 3 - 1;
    var copy := new Date.FromTime(t);
    copy.SetMonth(month + 1, 0);
    assert copy.time == WithMonth(t, GetQuarter(t) * 3 - 1 + 1, 0);
    result := EndOfDay(copy);
  }

  // ---------------------------------------------------------------- year

  /** Midnight of 1 January of the year of `t`. */
  function StartOfYearTime(t: int): (r: int)
    ensures CivilOf(r) == Civil(CivilOf(t).year, 1, 1)
    ensures TimeWithinDay(r) == 0 && r <= t
  {
    var c := CivilOf(t);
    var first := DaysFromCivil(c.year, 1, 1);
    CivilOfDay(Civil(c.year, 1, 1), 0);
    FirstOfEarlierMonth(c, 1);
    DayOrder(first, t);
    MakeDate(first, 0)
  }

  /** The setter chain of `startOfYear` computes `StartOfYearTime`. */
  lemma StartOfYearSteps(t: int)
    ensures StartOfYearTime(t) == StartOfDayTime(WithMonth(t, 0, 1))
  {
    MakeDayInRange(YearFromTime(t), 0, 1);
    MakeDateParts(DaysFromCivil(YearFromTime(t), 1, 1), TimeWithinDay(t));
  }

  method StartOfYear(date: Date) returns (result: Date)
    ensures fresh(result) && result.time == StartOfYearTime(date.time)
  {
    var t := date.time;
    StartOfYearSteps(t);
    var copy := new Date.FromTime(t);
    copy.SetMonth(0, 1);
    assert copy.time == WithMonth(t, 0, 1);
    result := StartOfDay(copy);
  }

  /** 23:59:59.999 of 31 December of the year of `t`. */
  function EndOfYearTime(t: int): (r: int)
    ensures CivilOf(r) == Civil(CivilOf(t).year, 12, 31)
    ensures TimeWithinDay(r) == MsPerDay - 1 && t <= r
  {
    var c := CivilOf(t);
    var last := DaysFromCivil(c.year, 12, 31);
    CivilOfDay(Civil(c.year, 12, 31), MsPerDay - 1);
    LastOfLaterMonth(c, 12);
    DayOrder(last, t);
    MakeDate(last, MsPerDay - 1)
  }

  /** The setter chain of `endOfYear` computes `EndOfYearTime`. */
  lemma EndOfYearSteps(t: int)
    ensures EndOfYearTime(t) == EndOfDayTime(WithMonth(t, 11, 31))
  {
    MakeDayInRange(YearFromTime(t), 11, 31);
    MakeDateParts(DaysFromCivil(YearFromTime(t), 12, 31), TimeWithinDay(t));
  }

  method EndOfYear(date: Date) returns (result: Date)
    ensures fresh(result) && result.time == EndOfYearTime(date.time)
  {
    var t := date.time;
    EndOfYearSteps(t);
    var copy := new Date.FromTime(t);
    copy.SetMonth(11, 31);
    assert copy.time == WithMonth(t, 11, 31);
    result := EndOfDay(copy);
  }

  // ---------------------------------------------------------------- days in month

  /** Two-digit years map to 1900..1999, which have the same month lengths except year 0
      (a leap year) against 1900 (a common year). */
  lemma TwoDigitYearMonths(y: int, m: int)
    requires 1 <= m <= 12
    ensures 1 <= y <= 99 ==> DaysInMonth(1900 + y, m) == DaysInMonth(y, m)
  {
  }

  /** `getDaysInMonth(date)`: the date of day 0 of the next month, built with
      `new Date(y, m + 1, 0)`, which maps a two-digit year `y` to `1900 + y`. */
  function GetDaysInMonth(t: int): (n: int)
    ensures n == DaysInMonth(MakeFullYear(YearFromTime(t)), MonthFromTime(t) + 1)
    ensures YearFromTime(t) != 0 ==> n == DaysInMonth(YearFromTime(t), MonthFromTime(t) + 1)
  {
    var y := MakeFullYear(YearFromTime(t));
    var m := MonthFromTime(t) + 1;
    MakeDayZero(y, m);
    FieldsOfMakeDate(Civil(y, m, DaysInMonth(y, m)), 0);
    TwoDigitYearMonths(YearFromTime(t), m);
    DateFromTime(MakeDate(MakeDay(y, m, 0), 0))
  }

  function IsLastDayOfMonth(t: int): (r: bool)
    ensures YearFromTime(t) != 0 ==> (r <==> DateFromTime(t) == DaysInMonth(YearFromTime(t), MonthFromTime(t) + 1))
  {
    DateFromTime(t) == GetDaysInMonth(t)
  }

  /** Outside year 0, the last day of a month is the day whose next day is a first. */
  lemma LastDayIffNextIsFirst(t: int)
    requires YearFromTime(t) != 0
    ensures IsLastDayOfMonth(t) <==> DateFromTime(t + MsPerDay) == 1
  {
    var c := CivilOf(t);
    var next := CivilOf(t + MsPerDay);
    assert Day(t + MsPerDay) == Day(t) + 1;
    assert DaysFromCivil(next.year, next.month, next.day) == DaysFromCivil(c.year, c.month, c.day) + 1;
    assert IsLastDayOfMonth(t) <==> c.day == DaysInMonth(c.year, c.month);
    assert DateFromTime(t + MsPerDay) == next.day;
    if c.day == DaysInMonth(c.year, c.month) {
      if c.month == 12 {
        DaysBeforeYearStep(c.year);
        assert DaysFromCivil(c.year + 1, 1, 1) == DaysFromCivil(c.year, 12, c.day) + 1;
        DaysFromCivilInjective(next, Civil(c.year + 1, 1, 1));
      } else {
        DaysBeforeMonthStep(c.year, c.month);
        assert DaysFromCivil(c.year, c.month + 1, 1) == DaysFromCivil(c.year, c.month, c.day) + 1;
        DaysFromCivilInjective(next, Civil(c.year, c.month + 1, 1));
      }
    } else {
      DaysFromCivilInjective(next, Civil(c.year, c.month, c.day + 1));
    }
  }

  // ---------------------------------------------------------------- predicates

  /** `isLeapYear` with JavaScript's truncating `%`. */
  function IsLeapYear(year: int): (r: bool)
    ensures r <==> LeapYear(year)
  {
    JsRemZero(year, 4);
    JsRemZero(year, 100);
    JsRemZero(year, 400);
    JsRem(year, 4) == 0 && (JsRem(year, 100) != 0 || JsRem(year, 400) == 0)
  }

  /** `isWeekend`: Sunday or Saturday, the last two days of a Monday-based week. */
  function IsWeekend(t: int): (r: bool)
    ensures r <==> Day(t) - Day(StartOfWeekTime(t, 1)) >= 5
  {
    MondayStart(t);
    var day := WeekDay(t);
    day == 0 || day == 6
  }

  function IsWeekday(t: int): (r: bool)
    ensures r <==> 1 <= WeekDay(t) <= 5
    ensures r <==> Day(t) - Day(StartOfWeekTime(t, 1)) < 5
  {
    !IsWeekend(t)
  }

  // ---------------------------------------------------------------- ISO week

  /** Day number of the Thursday of the Monday-based week of `t`. */
  function WeekThursday(t: int): (th: int)
    ensures (th + 4) % 7 == 4
    ensures Day(t) - 3 <= th <= Day(t) + 3
  {
    Day(t) - (WeekDay(t) + 6) % 7 + 3
  }

  /** Day number of the first Thursday of year `y`. */
  function FirstThursday(y: int): (ft: int)
    ensures (ft + 4) % 7 == 4
    ensures DaysBeforeYear(y) <= ft < DaysBeforeYear(y) + 7
  {
    var jan1 := DaysFromCivil(y, 1, 1);
    var w := (jan1 + 4) % 7;
    var k := (4 - w + 7) % 7;
    assert jan1 + 4 == 7 * ((jan1 + 4) / 7) + w;
    if w <= 4 then
      DivUnique(4 - w + 7, 7, 1, 4 - w);
      DivUnique(jan1 + k + 4, 7, (jan1 + 4) / 7, 4);
      jan1 + k
    else
      DivUnique(4 - w + 7, 7, 0, 11 - w);
      DivUnique(jan1 + k + 4, 7, (jan1 + 4) / 7 + 1, 4);
      jan1 + k
  }

  /** Two Thursdays of the same year are a whole number of weeks apart, at most 52. */
  lemma ThursdayGap(th: int, ft: int, lo: int)
    requires (th + 4) % 7 == 4 && (ft + 4) % 7 == 4
    requires lo <= th < lo + 366 && lo <= ft < lo + 7
    ensures ft <= th && (th - ft) % 7 == 0 && (th - ft) / 7 <= 52
  {
    var k := (th + 4) / 7 - (ft + 4) / 7;
    assert th - ft == 7 * k;
    DivUnique(th - ft, 7, k, 0);
  }

  /** The ISO 8601 week number: the week holding the first Thursday of a year is its week 1,
      and a week belongs to the year of its Thursday. */
  function IsoWeekNumber(t: int): (w: int)
    ensures 1 <= w <= 53
    ensures WeekThursday(t) == FirstThursday(CivilFromDays(WeekThursday(t)).year) + 7 * (w - 1)
  {
    var th := WeekThursday(t);
    var year := CivilFromDays(th).year;
    var ft := FirstThursday(year);
    assert ft <= th && (th - ft) % 7 == 0 && (th - ft) / 7 <= 52 by {
      DaysFromCivilBounds(CivilFromDays(th));
      DaysBeforeYearStep(year);
      ThursdayGap(th, ft, DaysBeforeYear(year));
    }
    1 + (th - ft) / 7
  }

  /** Moving a time value to the Thursday of its Monday-based week with `setDate`. */
  lemma ThursdayTime(t: int)
    ensures var x := WithDate(t, DateFromTime(t) - (WeekDay(t) + 6) % 7 + 3);
      Day(x) == WeekThursday(t) && TimeWithinDay(x) == TimeWithinDay(t)
  {
    MakeDayRelative(t, DateFromTime(t) - (WeekDay(t) + 6) % 7 + 3);
    MakeDateParts(WeekThursday(t), TimeWithinDay(t));
  }

  /** The time value the setter chain `setMonth(0, 1)`, then `setMonth(0, 1 + (4 - day + 7) % 7)`
      unless 1 January is already a Thursday, gives. */
  function ToFirstThursday(x: int): int
  {
    ThursdayFrom(WithMonth(x, 0, 1))
  }

  /** From 1 January, `setMonth(0, 1 + (4 - day + 7) % 7)` unless it is already a Thursday. */
  function ThursdayFrom(jan: int): int
  {
    if WeekDay(jan) != 4 then WithMonth(jan, 0, ThursdayDate(WeekDay(jan))) else jan
  }

  /** `1 + ((4 - janDay + 7) % 7)`: the date in January of the first Thursday when 1 January
      falls on week day `janDay`. */
  function ThursdayDate(janDay: int): int
  {
    1 + (4 - janDay + 7) % 7
  }

  /** That chain lands on the first Thursday of the year of `x`, at `x`'s time of day. */
  lemma FirstThursdayTime(x: int)
    ensures ToFirstThursday(x) == MakeDate(FirstThursday(YearFromTime(x)), TimeWithinDay(x))
  {
    var year := YearFromTime(x);
    var tw := TimeWithinDay(x);
    var jan1 := DaysFromCivil(year, 1, 1);
    assert MakeDay(year, 0, 1) == jan1;
    CivilOfDay(Civil(year, 1, 1), tw);
    var wd := (jan1 + 4) % 7;
    assert WeekDay(MakeDate(jan1, tw)) == wd;
    assert FirstThursday(year) == jan1 + (4 - wd + 7) % 7;
  }

  /** The time value `setDate(getDate() - dayNr + 3)` gives, with `dayNr` the days since Monday. */
  function ToWeekThursday(t: int): int
  {
    WithDate(t, DateFromTime(t) - (WeekDay(t) + 6) % 7 + 3)
  }

  /** What `getWeekNumberOfYear` returns for the date whose local time value is `t`. */
  function WeekNumberBySetters(t: int): int
  {
    var firstThursday := ToWeekThursday(t);
    1 + CeilDiv(firstThursday - ToFirstThursday(firstThursday), 604800000)
  }

  /** The setter chain of `getWeekNumberOfYear` computes the ISO 8601 week number. */
  lemma WeekNumberSteps(t: int)
    ensures WeekNumberBySetters(t) == IsoWeekNumber(t)
  {
    var firstThursday := ToWeekThursday(t);
    ThursdayTime(t);
    FirstThursdayTime(firstThursday);
    var th := WeekThursday(t);
    TimeDecomposition(firstThursday);
    assert firstThursday == MakeDate(th, TimeWithinDay(t));
    assert YearFromTime(firstThursday) == CivilFromDays(th).year;
  }

  /** The second half of the setter chain, moving `target` to the first Thursday of its year. */
  method MoveToFirstThursday(target: Date)
    modifies target
    ensures target.time == ToFirstThursday(old(target.time))
  {
    target.SetMonth(0, 1);
    var janDay := target.GetDay();
    if janDay != 4 {
      var thursdayDate := ThursdayDate(janDay);
      target.SetMonth(0, thursdayDate);
    }
  }

  /** The first half of the setter chain, moving `target` to the Thursday of its
      Monday-based week. */
  method MoveToWeekThursday(target: Date)
    modifies target
    ensures target.time == ToWeekThursday(old(target.time))
  {
    var dayNr := (target.GetDay() + 6) % 7;
    target.SetDate(target.GetDate() - dayNr + 3);
  }

  method GetWeekNumberOfYear(date: Date) returns (week: int)
    ensures week == IsoWeekNumber(date.time)
  {
    var target := new Date.FromTime(date.time);
    MoveToWeekThursday(target);
    var firstThursday := target.time;
    MoveToFirstThursday(target);
    week := 1 + CeilDiv(firstThursday - target.time, 604800000);
    WeekNumberSteps(date.time);
  }

  // ---------------------------------------------------------------- day of year

  /** `getDayNumberOfYear`: whole days since day 0 of January (31 December of the year
      before), built with `new Date(y, 0, 0)`, which maps a two-digit year to 1900..1999. */
  function GetDayNumberOfYear(t: int): (n: int)
    ensures !(0 <= YearFromTime(t) <= 99) ==>
      n == DaysBeforeMonth(YearFromTime(t), MonthFromTime(t) + 1) + DateFromTime(t)
      && 1 <= n <= DaysInYear(YearFromTime(t))
  {
    var start := MakeDate(MakeDay(MakeFullYear(YearFromTime(t)), 0, 0), 0);
    DaysFromCivilBounds(CivilOf(t));
    DaysBeforeYearStep(YearFromTime(t));
    (t - start) / MsPerDay
  }

  /** Sunday 9 July 2023 is day 190 of its year. */
  lemma DayNumberOfNinthJuly2023()
    ensures GetDayNumberOfYear(MakeDate(DaysFromCivil(2023, 7, 9), 0)) == 190
  {
    FieldsOfMakeDate(Civil(2023, 7, 9), 0);
  }
}
