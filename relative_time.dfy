/** `age` and `timeAgo` of src/features/datetime/relativeTime/relativeTime.ts (repeated in
    src/features/Datetime/Datetime.ts). Dates are local time values, as in `LocalDates`: the
    local year, month and day are the calendar fields of the value. The clock that `timeAgo`
    and the default of `age` read is a parameter. */
module RelativeTime {
  import opened Text
  import opened Calendar

  // ----------------------------------------------------------------------- age

  /** Calendar fields in order: `(y1, m1, d1)` comes strictly before `(y2, m2, d2)`. */
  predicate Before(y1: int, m1: int, d1: int, y2: int, m2: int, d2: int)
  {
    y1 < y2 || (y1 == y2 && (m1 < m2 || (m1 == m2 && d1 < d2)))
  }

  /** `age(birthDate, referenceDate)`: the difference of the years, one less when the
      reference month and day come before the birth month and day. */
  function Age(birth: int, reference: int): int
  {
    var age := YearFromTime(reference) - YearFromTime(birth);
    var monthDiff := MonthFromTime(reference) - MonthFromTime(birth);
    if monthDiff < 0 || (monthDiff == 0 && DateFromTime(reference) < DateFromTime(birth)) then
      age - 1
    else
      age
  }

  /** `n` whole birthdays have passed on the reference date: the month and day of birth in
      the year `n` after the birth year is not after the reference date, and the one a
      year later is. */
  predicate CompletedYears(birth: int, reference: int, n: int)
  {
    var year := YearFromTime(birth);
    var month := MonthFromTime(birth);
    var day := DateFromTime(birth);
    var refYear := YearFromTime(reference);
    var refMonth := MonthFromTime(reference);
    var refDay := DateFromTime(reference);
    !Before(refYear, refMonth, refDay, year + n, month, day)
    && Before(refYear, refMonth, refDay, year + n + 1, month, day)
  }

  /** `age` counts the birthdays that have passed, and no other count does. */
  lemma AgeCountsBirthdays(birth: int, reference: int, n: int)
    ensures CompletedYears(birth, reference, Age(birth, reference))
    ensures CompletedYears(birth, reference, n) ==> n == Age(birth, reference)
  {
  }

  /** On the birthday itself (same month and day) the age is the difference of the years. */
  lemma AgeOnBirthday(birth: int, reference: int)
    requires MonthFromTime(reference) == MonthFromTime(birth)
    requires DateFromTime(reference) == DateFromTime(birth)
    ensures Age(birth, reference) == YearFromTime(reference) - YearFromTime(birth)
  {
  }

  /** The calendar fields of real dates are ordered like their day numbers. */
  lemma {:induction false} CivilOrder(c1: Civil, c2: Civil)
    requires ValidCivil(c1) && ValidCivil(c2)
    requires Before(c1.year, c1.month, c1.day, c2.year, c2.month, c2.day)
    ensures DaysFromCivil(c1.year, c1.month, c1.day) < DaysFromCivil(c2.year, c2.month, c2.day)
  {
    if c1.year < c2.year {
      DaysFromCivilBounds(c1);
      DaysFromCivilBounds(c2);
      DaysBeforeYearMonotone(c1.year + 1, c2.year);
    } else if c1.month < c2.month {
      DaysBeforeMonthMonotone(c1.year, c1.month, c2.month);
    }
  }

  /** A later time value never has earlier calendar fields. */
  lemma FieldsMonotone(t1: int, t2: int)
    requires t1 <= t2
    ensures !Before(YearFromTime(t2), MonthFromTime(t2), DateFromTime(t2),
                    YearFromTime(t1), MonthFromTime(t1), DateFromTime(t1))
  {
    var c1, c2 := CivilOf(t1), CivilOf(t2);
    if Before(c2.year, c2.month, c2.day, c1.year, c1.month, c1.day) {
      CivilOrder(c2, c1);
      DivUnique(t1, MsPerDay, Day(t1), TimeWithinDay(t1));
      DivUnique(t2, MsPerDay, Day(t2), TimeWithinDay(t2));
      assert false;
    }
  }

  /** The age never goes down as the reference date moves forward. */
  lemma AgeMonotone(birth: int, r1: int, r2: int)
    requires r1 <= r2
    ensures Age(birth, r1) <= Age(birth, r2)
  {
    FieldsMonotone(r1, r2);
  }

  // ------------------------------------------------------------------- timeAgo

  /** The units `Intl.RelativeTimeFormat` is asked for. */
  datatype Unit = Year | Month | Week | DayUnit | Hour | Minute | Second

  /** `rtf.format(value, unit)`: the arguments `timeAgo` passes on; the localized phrase is
      the host's. */
  datatype Phrase = Phrase(value: int, unit: Unit)

  /** `timeAgo(date)` with the clock reading `now`. Time values are whole milliseconds, and
      `Math.floor` of a quotient by a positive divisor is Dafny's `/`. */
  function TimeAgo(date: int, now: int): Phrase
  {
    var diffMs := now - date;
    var diffSecs := diffMs / 1000;
    var diffMins := diffSecs / 60;
    var diffHours := diffMins / 60;
    var diffDays := diffHours / 24;
    var diffWeeks := diffDays / 7;
    var diffMonths := diffDays / 30;
    var diffYears := diffDays / 365;
    if diffYears > 0 then Phrase(-diffYears, Year)
    else if diffMonths > 0 then Phrase(-diffMonths, Month)
    else if diffWeeks > 0 then Phrase(-diffWeeks, Week)
    else if diffDays > 0 then Phrase(-diffDays, DayUnit)
    else if diffHours > 0 then Phrase(-diffHours, Hour)
    else if diffMins > 0 then Phrase(-diffMins, Minute)
    else Phrase(-diffSecs, Second)
  }

  /** The length of each unit in milliseconds: a month is 30 days and a year 365. */
  function UnitMs(u: Unit): int
  {
    match u
    case Year => 365 * MsPerDay
    case Month => 30 * MsPerDay
    case Week => 7 * MsPerDay
    case DayUnit => MsPerDay
    case Hour => MsPerHour
    case Minute => MsPerMinute
    case Second => MsPerSecond
  }

  /** The chained floors are the floors of the difference by each unit length. */
  lemma ChainedFloors(diffMs: int)
    ensures diffMs / 1000 / 60 == diffMs / MsPerMinute
    ensures diffMs / 1000 / 60 / 60 == diffMs / MsPerHour
    ensures diffMs / 1000 / 60 / 60 / 24 == diffMs / MsPerDay
    ensures diffMs / MsPerDay / 7 == diffMs / UnitMs(Week)
    ensures diffMs / MsPerDay / 30 == diffMs / UnitMs(Month)
    ensures diffMs / MsPerDay / 365 == diffMs / UnitMs(Year)
  {
    var q := diffMs / MsPerDay;
    DivUnique(diffMs, UnitMs(Week), q / 7, diffMs % MsPerDay + MsPerDay * (q % 7));
    DivUnique(diffMs, UnitMs(Month), q / 30, diffMs % MsPerDay + MsPerDay * (q % 30));
    DivUnique(diffMs, UnitMs(Year), q / 365, diffMs % MsPerDay + MsPerDay * (q % 365));
  }

  /** The unit is the largest one the difference reaches (a whole year, 30 days, 7 days, a
      day, an hour, a minute), otherwise seconds; the value is the difference in whole
      units, negated. */
  lemma TimeAgoUnit(date: int, now: int)
    ensures var r := TimeAgo(date, now);
      var d := now - date;
      r.value == -(d / UnitMs(r.unit))
      && (r.unit == Year <==> d >= UnitMs(Year))
      && (r.unit == Month <==> UnitMs(Month) <= d < UnitMs(Year))
      && (r.unit == Week <==> UnitMs(Week) <= d < UnitMs(Month))
      && (r.unit == DayUnit <==> MsPerDay <= d < UnitMs(Week))
      && (r.unit == Hour <==> MsPerHour <= d < MsPerDay)
      && (r.unit == Minute <==> MsPerMinute <= d < MsPerHour)
      && (r.unit == Second <==> d < MsPerMinute)
  {
    ChainedFloors(now - date);
  }

  /** A date that is not in the past is described in seconds, with a value of zero or
      more. */
  lemma FutureInSeconds(date: int, now: int)
    requires now <= date
    ensures TimeAgo(date, now).unit == Second && TimeAgo(date, now).value >= 0
  {
    ChainedFloors(now - date);
  }
}
