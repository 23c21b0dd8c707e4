/** Proleptic Gregorian calendar arithmetic and the ECMAScript time-value functions
    (Day, TimeWithinDay, WeekDay, YearFromTime, MonthFromTime, DateFromTime, MakeDay,
    MakeDate, MakeTime) that `Date`, `Date.UTC` and the `Date` setters are defined by.
    Day numbers count days from 1970-01-01, negative before it. */
module Calendar {
  import opened Text

  const MsPerSecond: int := 1000
  const MsPerMinute: int := 60000
  const MsPerHour: int := 3600000
  const MsPerDay: int := 86400000

  /** The Gregorian leap-year rule: divisible by 4, and not by 100 unless by 400. */
  predicate LeapYear(y: int)
  {
    y % 4 == 0 && (y % 100 != 0 || y % 400 == 0)
  }

  function DaysInYear(y: int): (n: int)
    ensures n == 365 || n == 366
  {
    if LeapYear(y) then 366 else 365
  }

  /** Length of month `m` (1 = January) of year `y`. */
  function DaysInMonth(y: int, m: int): (n: int)
    requires 1 <= m <= 12
    ensures 28 <= n <= 31
    ensures n == 29 <==> m == 2 && LeapYear(y)
  {
    if m == 2 then (if LeapYear(y) then 29 else 28)
    else if m == 4 || m == 6 || m == 9 || m == 11 then 30
    else 31
  }

  /** Days of year `y` before the first of month `m`; month 13 stands for the next year. */
  function DaysBeforeMonth(y: int, m: int): int
    requires 1 <= m <= 13
  {
    var common :=
      if m == 1 then 0 else if m == 2 then 31 else if m == 3 then 59
      else if m == 4 then 90 else if m == 5 then 120 else if m == 6 then 151
      else if m == 7 then 181 else if m == 8 then 212 else if m == 9 then 243
      else if m == 10 then 273 else if m == 11 then 304 else if m == 12 then 334
      else 365;
    common + (if m > 2 && LeapYear(y) then 1 else 0)
  }

  lemma DaysBeforeMonthStep(y: int, m: int)
    requires 1 <= m <= 12
    ensures DaysBeforeMonth(y, m + 1) == DaysBeforeMonth(y, m) + DaysInMonth(y, m)
    ensures DaysBeforeMonth(y, 13) == DaysInYear(y)
  {
  }

  lemma DaysBeforeMonthMonotone(y: int, a: int, b: int)
    requires 1 <= a <= b <= 13
    ensures DaysBeforeMonth(y, a) <= DaysBeforeMonth(y, b)
    ensures a < b ==> DaysBeforeMonth(y, a) + (if a <= 12 then DaysInMonth(y, a) else 0) <= DaysBeforeMonth(y, b)
  {
  }

  /** Leap years among 1..x (extended to all integers by the same formula). */
  function LeapsThrough(x: int): int
  {
    x / 4 - x / 100 + x / 400
  }

  /** Day number of 1 January of year `y`. */
  function DaysBeforeYear(y: int): int
  {
    365 * (y - 1970) + LeapsThrough(y - 1) - 477
  }

  lemma DivStep(x: int, d: int)
    requires d > 0
    ensures x / d - (x - 1) / d == if x % d == 0 then 1 else 0
  {
    var q := (x - 1) / d;
    var r := (x - 1) % d;
    if r == d - 1 {
      assert x == d * (q + 1) + 0;
      DivUnique(x, d, q + 1, 0);
    } else {
      DivUnique(x, d, q, r + 1);
    }
  }

  lemma DaysBeforeYearStep(y: int)
    ensures DaysBeforeYear(y + 1) == DaysBeforeYear(y) + DaysInYear(y)
  {
    DivStep(y, 4);
    DivStep(y, 100);
    DivStep(y, 400);
  }

  /** The calendar repeats every 400 years, which hold 146097 days. */
  lemma DaysBeforeEra(e: int)
    ensures DaysBeforeYear(1970 + 400 * e) == 146097 * e
  {
    DivUnique(1969 + 400 * e, 4, 492 + 100 * e, 1);
    DivUnique(1969 + 400 * e, 100, 19 + 4 * e, 69);
    DivUnique(1969 + 400 * e, 400, 4 + e, 369);
  }

  lemma {:induction false} DaysBeforeYearMonotone(a: int, b: int)
    requires a <= b
    ensures DaysBeforeYear(a) + 365 * (b - a) <= DaysBeforeYear(b)
    decreases b - a
  {
    if a < b {
      DaysBeforeYearMonotone(a, b - 1);
      DaysBeforeYearStep(b - 1);
    }
  }

  datatype Civil = Civil(year: int, month: int, day: int)

  /** A real calendar date: a month 1..12 and a day within that month. */
  predicate ValidCivil(c: Civil)
  {
    1 <= c.month <= 12 && 1 <= c.day <= DaysInMonth(c.year, c.month)
  }

  /** The day number of a calendar date (days-from-civil). */
  function DaysFromCivil(y: int, m: int, d: int): int
    requires 1 <= m <= 12
  {
    DaysBeforeYear(y) + DaysBeforeMonth(y, m) + d - 1
  }

  /** Walks forward whole years from 1 January of `y` until `r` days fall inside one. */
  function YearWalk(y: int, r: nat): (p: (int, int))
    ensures y <= p.0 && 0 <= p.1 < DaysInYear(p.0)
    ensures DaysBeforeYear(p.0) + p.1 == DaysBeforeYear(y) + r
    decreases r
  {
    if r < DaysInYear(y) then (y, r)
    else
      DaysBeforeYearStep(y);
      YearWalk(y + 1, r - DaysInYear(y))
  }

  /** Walks forward whole months from the first of month `m` of year `y`. */
  function MonthWalk(y: int, m: int, r: nat): (p: (int, int))
    requires 1 <= m <= 12 && DaysBeforeMonth(y, m) + r < DaysInYear(y)
    ensures 1 <= p.0 <= 12 && 1 <= p.1 <= DaysInMonth(y, p.0)
    ensures DaysBeforeMonth(y, p.0) + p.1 - 1 == DaysBeforeMonth(y, m) + r
    decreases 12 - m
  {
    DaysBeforeMonthStep(y, m);
    if r < DaysInMonth(y, m) then (m, r + 1)
    else MonthWalk(y, m + 1, r - DaysInMonth(y, m))
  }

  /** Civil-from-days as an algorithm: whole 400-year eras counted from 1970, then the
      years and months inside the era. */
  function CivilWalk(n: int): (c: Civil)
    ensures ValidCivil(c)
    ensures DaysFromCivil(c.year, c.month, c.day) == n
  {
    var era := n / 146097;
    DaysBeforeEra(era);
    var yp := YearWalk(1970 + 400 * era, n % 146097);
    DaysBeforeMonthStep(yp.0, 12);
    var mp := MonthWalk(yp.0, 1, yp.1);
    Civil(yp.0, mp.0, mp.1)
  }

  /** The calendar date of a day number: the one valid date whose days-from-civil it is
      (as ECMA-262 defines YearFromTime, MonthFromTime and DateFromTime). */
  function CivilFromDays(n: int): (c: Civil)
    ensures ValidCivil(c)
    ensures DaysFromCivil(c.year, c.month, c.day) == n
  {
    var w := CivilWalk(n);
    assert ValidCivil(w) && DaysFromCivil(w.year, w.month, w.day) == n;
    OnlyOneCivil(n);
    var c :| ValidCivil(c) && DaysFromCivil(c.year, c.month, c.day) == n;
    c
  }

  lemma OnlyOneCivil(n: int)
    ensures forall c1: Civil, c2: Civil ::
      (ValidCivil(c1) && ValidCivil(c2) && DaysFromCivil(c1.year, c1.month, c1.day) == n
       && DaysFromCivil(c2.year, c2.month, c2.day) == n) ==> c1 == c2
  {
    forall c1: Civil, c2: Civil |
      ValidCivil(c1) && ValidCivil(c2) && DaysFromCivil(c1.year, c1.month, c1.day) == n
      && DaysFromCivil(c2.year, c2.month, c2.day) == n
      ensures c1 == c2
    {
      DaysFromCivilInjective(c1, c2);
    }
  }

  /** A valid date lies inside its own year and month. */
  lemma DaysFromCivilBounds(c: Civil)
    requires ValidCivil(c)
    ensures DaysBeforeYear(c.year) <= DaysFromCivil(c.year, c.month, c.day) < DaysBeforeYear(c.year + 1)
  {
    DaysBeforeMonthMonotone(c.year, c.month, 13);
    DaysBeforeMonthStep(c.year, 12);
    DaysBeforeYearStep(c.year);
  }

  /** Distinct valid dates have distinct day numbers. */
  lemma DaysFromCivilInjective(c1: Civil, c2: Civil)
    requires ValidCivil(c1) && ValidCivil(c2)
    requires DaysFromCivil(c1.year, c1.month, c1.day) == DaysFromCivil(c2.year, c2.month, c2.day)
    ensures c1 == c2
  {
    DaysFromCivilBounds(c1);
    DaysFromCivilBounds(c2);
    if c1.year < c2.year {
      DaysBeforeYearMonotone(c1.year + 1, c2.year);
    } else if c2.year < c1.year {
      DaysBeforeYearMonotone(c2.year + 1, c1.year);
    }
    assert c1.year == c2.year;
    if c1.month < c2.month {
      DaysBeforeMonthMonotone(c1.year, c1.month, c2.month);
    } else if c2.month < c1.month {
      DaysBeforeMonthMonotone(c1.year, c2.month, c1.month);
    }
  }

  /** civil-from-days inverts days-from-civil on every valid date. */
  lemma CivilRoundTrip(c: Civil)
    requires ValidCivil(c)
    ensures CivilFromDays(DaysFromCivil(c.year, c.month, c.day)) == c
  {
    var c2 := CivilFromDays(DaysFromCivil(c.year, c.month, c.day));
    DaysFromCivilInjective(c, c2);
  }

  // ECMAScript time values: milliseconds since 1970-01-01T00:00:00 (section 21.4.1 of ECMA-262).

  function Day(t: int): int { t / MsPerDay }

  function TimeWithinDay(t: int): (r: int)
    ensures 0 <= r < MsPerDay
  {
    t % MsPerDay
  }

  /** 0 = Sunday; 1970-01-01 was a Thursday. */
  function WeekDay(t: int): (w: int)
    ensures 0 <= w <= 6
  {
    (Day(t) + 4) % 7
  }

  function YearFromTime(t: int): int { CivilOf(t).year }

  /** 0 = January. */
  function MonthFromTime(t: int): (m: int)
    ensures 0 <= m <= 11
  {
    CivilOf(t).month - 1
  }

  function DateFromTime(t: int): (d: int)
    ensures 1 <= d <= 31
  {
    CivilOf(t).day
  }

  function HourFromTime(t: int): (h: int)
    ensures 0 <= h <= 23
  {
    TimeWithinDay(t) / MsPerHour
  }

  function MinFromTime(t: int): (m: int)
    ensures 0 <= m <= 59
  {
    (t / MsPerMinute) % 60
  }

  function SecFromTime(t: int): (s: int)
    ensures 0 <= s <= 59
  {
    (t / MsPerSecond) % 60
  }

  function MsFromTime(t: int): (ms: int)
    ensures 0 <= ms <= 999
  {
    t % MsPerSecond
  }

  function MakeTime(h: int, m: int, s: int, ms: int): int
  {
    h * MsPerHour + m * MsPerMinute + s * MsPerSecond + ms
  }

  /** Day number of day `d` of the 0-based month `m0` of year `y`; months and days out
      of range carry into the neighbouring months and years. */
  function MakeDay(y: int, m0: int, d: int): int
  {
    DaysFromCivil(y + m0 / 12, m0 % 12 + 1, 1) + d - 1
  }

  function MakeDate(day: int, time: int): int
  {
    day * MsPerDay + time
  }

  /** Two-digit years 0..99 given to `Date.UTC` or to the `Date` constructor mean 1900..1999. */
  function MakeFullYear(y: int): (r: int)
    ensures 0 <= y <= 99 ==> r == 1900 + y
    ensures !(0 <= y <= 99) ==> r == y
  {
    if 0 <= y <= 99 then 1900 + y else y
  }

  /** `Date.UTC(y, m0, d)`. */
  function DateUtc(y: int, m0: int, d: int): int
  {
    MakeDate(MakeDay(MakeFullYear(y), m0, d), 0)
  }

  lemma MakeDateParts(day: int, time: int)
    requires 0 <= time < MsPerDay
    ensures Day(MakeDate(day, time)) == day
    ensures TimeWithinDay(MakeDate(day, time)) == time
  {
    DivUnique(MakeDate(day, time), MsPerDay, day, time);
  }

  /** A time value built from a valid date and a time of day yields them back. */
  lemma FieldsOfMakeDate(c: Civil, time: int)
    requires ValidCivil(c) && 0 <= time < MsPerDay
    ensures YearFromTime(MakeDate(DaysFromCivil(c.year, c.month, c.day), time)) == c.year
    ensures MonthFromTime(MakeDate(DaysFromCivil(c.year, c.month, c.day), time)) == c.month - 1
    ensures DateFromTime(MakeDate(DaysFromCivil(c.year, c.month, c.day), time)) == c.day
  {
    MakeDateParts(DaysFromCivil(c.year, c.month, c.day), time);
    CivilRoundTrip(c);
  }

  /** In-range month and day: `MakeDay` is days-from-civil. */
  lemma MakeDayInRange(y: int, m0: int, d: int)
    requires 0 <= m0 <= 11
    ensures MakeDay(y, m0, d) == DaysFromCivil(y, m0 + 1, d)
  {
  }

  /** A time value is its day, times the day length, plus its time within the day. */
  lemma TimeDecomposition(t: int)
    ensures t == MakeDate(Day(t), TimeWithinDay(t))
    ensures TimeWithinDay(t) == MakeTime(HourFromTime(t), MinFromTime(t), SecFromTime(t), MsFromTime(t))
  {
    var d := Day(t);
    var w := TimeWithinDay(t);
    var h := w / MsPerHour;
    var inHour := w % MsPerHour;
    var m := inHour / MsPerMinute;
    var inMinute := inHour % MsPerMinute;
    var s := inMinute / MsPerSecond;
    var ms := inMinute % MsPerSecond;
    DivUnique(t, MsPerDay, d, w);
    DivUnique(w, MsPerHour, h, inHour);
    DivUnique(inHour, MsPerMinute, m, inMinute);
    DivUnique(inMinute, MsPerSecond, s, ms);
    DivUnique(t, MsPerMinute, 1440 * d + 60 * h + m, inMinute);
    DivUnique(1440 * d + 60 * h + m, 60, 24 * d + h, m);
    DivUnique(t, MsPerSecond, 86400 * d + 3600 * h + 60 * m + s, ms);
    DivUnique(86400 * d + 3600 * h + 60 * m + s, 60, 1440 * d + 60 * h + m, s);
  }


  /** The calendar date of the time value `t`. */
  function CivilOf(t: int): (c: Civil)
    ensures ValidCivil(c)
    ensures DaysFromCivil(c.year, c.month, c.day) == Day(t)
  {
    CivilFromDays(Day(t))
  }

  /** A day `d` of the same month as `t`, counted from `t`'s own day (what `setDate` uses). */
  lemma MakeDayRelative(t: int, d: int)
    ensures MakeDay(YearFromTime(t), MonthFromTime(t), d) == Day(t) - DateFromTime(t) + d
  {
    MakeDayInRange(YearFromTime(t), MonthFromTime(t), d);
  }

  /** Day 0 of the month after the 1-based month `m` is the last day of `m`; the month
      index `m` may be 12, which carries into January of the next year. */
  lemma MakeDayZero(y: int, m: int)
    requires 1 <= m <= 12
    ensures MakeDay(y, m, 0) == DaysFromCivil(y, m, DaysInMonth(y, m))
  {
    DaysBeforeMonthStep(y, m);
    if m == 12 {
      DaysBeforeYearStep(y);
    }
  }

  /** Day 0 of the 0-based month `m0 + 1` is the last day of month `m0`, for any `m0`: the
      last day of 1-based month `nm` of year `ny` once whole years are carried out. */
  lemma MakeDayZeroNormalized(y: int, m0: int, ny: int, nm: int)
    requires ny == y + m0 / 12 && nm == m0 % 12 + 1
    ensures MakeDay(y, m0 + 1, 0) == DaysFromCivil(ny, nm, DaysInMonth(ny, nm))
  {
    MakeDayCarry(y, m0 + 1, ny, nm, 0);
    MakeDayZero(ny, nm);
  }

  /** `MakeDay` depends on the year and the month only through the months they count. */
  lemma MakeDayCarry(y0: int, m0: int, y1: int, m1: int, d: int)
    requires 12 * y0 + m0 == 12 * y1 + m1
    ensures MakeDay(y0, m0, d) == MakeDay(y1, m1, d)
  {
    var months := 12 * y0 + m0;
    DivUnique(months, 12, y0 + m0 / 12, m0 % 12);
    DivUnique(months, 12, y1 + m1 / 12, m1 % 12);
    assert y0 + m0 / 12 == y1 + m1 / 12 && m0 % 12 == m1 % 12;
  }

  /** The date of day 0 of the 0-based month `m0 + 1` is the length of month `m0` after
      carrying whole years, two-digit years read as 1900..1999. */
  lemma DateOfDayZero(y0: int, m0: int)
    ensures DateFromTime(DateUtc(y0, m0 + 1, 0))
      == DaysInMonth(MakeFullYear(y0) + m0 / 12, m0 % 12 + 1)
  {
    var y := MakeFullYear(y0);
    var c := Civil(y + m0 / 12, m0 % 12 + 1, DaysInMonth(y + m0 / 12, m0 % 12 + 1));
    MakeDayZeroNormalized(y, m0, c.year, c.month);
    assert DateUtc(y0, m0 + 1, 0) == MakeDate(DaysFromCivil(c.year, c.month, c.day), 0);
    FieldsOfMakeDate(c, 0);
  }

  /** For a year outside 0..99 and a month in range, day 0 of the next month is the last
      day of the month. */
  lemma LastDayOfMonthDate(y: int, m0: int)
    requires !(0 <= y <= 99) && 0 <= m0 <= 11
    ensures DateFromTime(DateUtc(y, m0 + 1, 0)) == DaysInMonth(y, m0 + 1)
  {
    DateOfDayZero(y, m0);
    DivUnique(m0, 12, 0, m0);
  }

  /** The calendar date of a day number that is a valid date's days-from-civil. */
  lemma CivilOfDay(c: Civil, time: int)
    requires ValidCivil(c) && 0 <= time < MsPerDay
    ensures CivilOf(MakeDate(DaysFromCivil(c.year, c.month, c.day), time)) == c
    ensures Day(MakeDate(DaysFromCivil(c.year, c.month, c.day), time)) == DaysFromCivil(c.year, c.month, c.day)
    ensures TimeWithinDay(MakeDate(DaysFromCivil(c.year, c.month, c.day), time)) == time
  {
    MakeDateParts(DaysFromCivil(c.year, c.month, c.day), time);
    CivilRoundTrip(c);
  }

  /** The fields of a time value built from in-range hours, minutes, seconds and milliseconds. */
  lemma MakeTimeFields(day: int, h: int, m: int, s: int, ms: int)
    requires 0 <= h < 24 && 0 <= m < 60 && 0 <= s < 60 && 0 <= ms < 1000
    ensures Day(MakeDate(day, MakeTime(h, m, s, ms))) == day
    ensures TimeWithinDay(MakeDate(day, MakeTime(h, m, s, ms))) == MakeTime(h, m, s, ms)
    ensures HourFromTime(MakeDate(day, MakeTime(h, m, s, ms))) == h
    ensures MinFromTime(MakeDate(day, MakeTime(h, m, s, ms))) == m
    ensures SecFromTime(MakeDate(day, MakeTime(h, m, s, ms))) == s
    ensures MsFromTime(MakeDate(day, MakeTime(h, m, s, ms))) == ms
  {
    var t := MakeDate(day, MakeTime(h, m, s, ms));
    DivUnique(t, MsPerDay, day, MakeTime(h, m, s, ms));
    DivUnique(MakeTime(h, m, s, ms), MsPerHour, h, MakeTime(0, m, s, ms));
    DivUnique(t, MsPerMinute, 1440 * day + 60 * h + m, 1000 * s + ms);
    DivUnique(1440 * day + 60 * h + m, 60, 24 * day + h, m);
    DivUnique(t, MsPerSecond, 86400 * day + 3600 * h + 60 * m + s, ms);
    DivUnique(86400 * day + 3600 * h + 60 * m + s, 60, 1440 * day + 60 * h + m, s);
  }

  /** Time values order like their day numbers. */
  lemma DayOrder(d: int, t: int)
    ensures d <= Day(t) ==> MakeDate(d, 0) <= t
    ensures Day(t) <= d ==> t <= MakeDate(d, MsPerDay - 1)
  {
    DivUnique(t, MsPerDay, Day(t), TimeWithinDay(t));
  }

  /** `setMonth(m0, d)` on `t` with an in-range month lands on day `d` of that month. */
  lemma SetMonthInRange(t: int, m0: int, d: int)
    requires 0 <= m0 <= 11
    ensures var x := MakeDate(MakeDay(YearFromTime(t), m0, d), TimeWithinDay(t));
      Day(x) == DaysFromCivil(YearFromTime(t), m0 + 1, d) && TimeWithinDay(x) == TimeWithinDay(t)
  {
    MakeDayInRange(YearFromTime(t), m0, d);
    MakeDateParts(DaysFromCivil(YearFromTime(t), m0 + 1, d), TimeWithinDay(t));
  }

  /** `setMonth(m, 0)` on `t` lands on the last day of the 1-based month `m`. */
  lemma SetMonthDayZero(t: int, m: int)
    requires 1 <= m <= 12
    ensures var x := MakeDate(MakeDay(YearFromTime(t), m, 0), TimeWithinDay(t));
      Day(x) == DaysFromCivil(YearFromTime(t), m, DaysInMonth(YearFromTime(t), m))
      && TimeWithinDay(x) == TimeWithinDay(t)
  {
    MakeDayZero(YearFromTime(t), m);
    MakeDateParts(DaysFromCivil(YearFromTime(t), m, DaysInMonth(YearFromTime(t), m)), TimeWithinDay(t));
  }
}
