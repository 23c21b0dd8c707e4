/** The UTC calendar helpers of src/features/Datetime/calendarRanges/calendarRanges.ts: a
    `YYYY-MM-DD` validator, a shift by days, months or years through `Date.UTC`, and the
    lists of years, months, the days of a week and the days of a month. */
module CalendarRanges {
  import opened Wrappers
  import opened Text
  import opened Calendar

  /** `DateUTCParts`: the year, the 0-based month (0 = January) and the day of the month. */
  datatype DateUtcParts = DateUtcParts(year: int, month: int, day: int)

  /** The parts name a day that exists in the proleptic Gregorian calendar. */
  predicate Real(p: DateUtcParts)
  {
    ValidCivil(Civil(p.year, p.month + 1, p.day))
  }

  /** The day number of the parts, months and days out of range carrying over. */
  function DayNumber(p: DateUtcParts): int
  {
    MakeDay(p.year, p.month, p.day)
  }

  // ----------------------------------------------------------------- printing

  /** `pad2`: a leading zero below ten. */
  function Pad2(n: int): string
  {
    if n < 10 then "0" + IntToString(n) else IntToString(n)
  }

  /** A number below a hundred prints as two digits that read back as the number. */
  lemma Pad2Digits(n: int)
    requires 0 <= n < 100
    ensures |Pad2(n)| == 2 && AllDigits(Pad2(n)) && DecimalValue(Pad2(n)) == n
  {
    PaddedDecimal(n, 2);
    PaddedWidth(n, 2);
    if n < 10 {
      NatToStringWidth(n, 1);
      assert Repeat('0', 1) == "0";
    } else {
      NatToStringWidth(n, 2);
    }
  }

  /** `toDateUTC`: the year as printed (not padded), then the 1-based month and the day,
      each on two digits, joined by hyphens. */
  function ToDateUtc(p: DateUtcParts): string
  {
    IntToString(p.year) + "-" + Pad2(p.month + 1) + "-" + Pad2(p.day)
  }

  // --------------------------------------------------------------- validation

  /** The text `/^\d{4}-\d{2}-\d{2}$/` accepts. */
  predicate DateShape(s: string)
  {
    |s| == 10 && s[4] == '-' && s[7] == '-'
    && AllDigits(s[..4]) && AllDigits(s[5..7]) && AllDigits(s[8..])
  }

  /** The three digit groups of a well-shaped text, as numbers. */
  function ShapeYear(s: string): nat requires DateShape(s) { DecimalValue(s[..4]) }
  function ShapeMonth(s: string): nat requires DateShape(s) { DecimalValue(s[5..7]) }
  function ShapeDay(s: string): nat requires DateShape(s) { DecimalValue(s[8..]) }

  lemma NoHyphenInDigits(s: string)
    requires AllDigits(s)
    ensures '-' !in s
  {
  }

  /** `split('-')` cuts a well-shaped text into its three digit groups. */
  lemma SplitShape(s: string)
    requires DateShape(s)
    ensures Split(s, '-') == [s[..4], s[5..7], s[8..]]
  {
    NoHyphenInDigits(s[..4]);
    NoHyphenInDigits(s[5..7]);
    NoHyphenInDigits(s[8..]);
    assert s == s[..4] + ['-'] + (s[5..7] + ['-'] + s[8..]);
    SplitAround(s[..4], '-', s[5..7] + ['-'] + s[8..]);
    SplitAround(s[5..7], '-', s[8..]);
    SplitNone(s[8..], '-');
  }

  /** `dateUTC.split('-').map(Number)` on a well-shaped text: the values of its three digit
      groups. */
  function ShapeNumbers(s: string): (f: (int, int, int))
    requires DateShape(s)
    ensures f == (ShapeYear(s) as int, ShapeMonth(s) as int, ShapeDay(s) as int)
  {
    SplitShape(s);
    var parts := Split(s, '-');
    NumberOfDigits(parts[0]);
    NumberOfDigits(parts[1]);
    NumberOfDigits(parts[2]);
    (JsNumber(parts[0]).value, JsNumber(parts[1]).value, JsNumber(parts[2]).value)
  }

  function InvalidMessage(s: string): string
  {
    "Invalid date string: \"" + s + "\". Expected format YYYY-MM-DD"
  }

  function NonexistentMessage(s: string): string
  {
    "Nonexistent calendar date: " + s
  }

  /** `assertValidDateUTC`: the shape check, then the round trip of the three numbers through
      `Date.UTC`, which fails exactly when the date does not exist. */
  function AssertValidDateUtc(s: string): (r: Result<DateUtcParts, string>)
    ensures !DateShape(s) ==> r == Err(InvalidMessage(s))
    ensures DateShape(s) && r.Err? ==> r == Err(NonexistentMessage(s))
    ensures r.Ok? ==> (DateShape(s) && Real(r.value)
      && r.value == DateUtcParts(ShapeYear(s), ShapeMonth(s) - 1, ShapeDay(s)))
  {
    if !DateShape(s) then Err(InvalidMessage(s))
    else
      var (year, month, day) := ShapeNumbers(s);
      var test := DateUtc(year, month - 1, day);
      if YearFromTime(test) != year || MonthFromTime(test) != month - 1 || DateFromTime(test) != day then
        Err(NonexistentMessage(s))
      else
        assert CivilOf(test) == Civil(year, month, day);
        Ok(DateUtcParts(year, month - 1, day))
  }

  /** From the year 100 on, a well-shaped text is accepted exactly when it names a day that
      exists: a 1-based month 1..12 and a day within that month. */
  lemma AcceptsRealDates(s: string)
    requires DateShape(s) && ShapeYear(s) >= 100
    ensures AssertValidDateUtc(s).Ok?
      <==> (1 <= ShapeMonth(s) <= 12 && 1 <= ShapeDay(s) <= DaysInMonth(ShapeYear(s), ShapeMonth(s)))
  {
    var c := Civil(ShapeYear(s), ShapeMonth(s), ShapeDay(s));
    if ValidCivil(c) {
      MakeDayInRange(c.year, c.month - 1, c.day);
      FieldsOfMakeDate(c, 0);
    }
  }

  lemma DaysBeforeMonthNonNegative(y: int, m: int)
    requires 1 <= m <= 13
    ensures DaysBeforeMonth(y, m) >= 0
  {
    DaysBeforeMonthMonotone(y, 1, m);
  }

  /** Years 0000..0099 are never accepted: `Date.UTC` reads them as 1900..1999, so the year
      read back never matches. */
  lemma RejectsCenturyZero(s: string)
    requires DateShape(s) && ShapeYear(s) <= 99
    ensures AssertValidDateUtc(s) == Err(NonexistentMessage(s))
  {
    var y, mo, d := ShapeYear(s) as int, ShapeMonth(s) as int, ShapeDay(s) as int;
    var m0 := mo - 1;
    var full := 1900 + y + m0 / 12;
    var day := MakeDay(1900 + y, m0, d);
    assert day == DaysBeforeYear(full) + DaysBeforeMonth(full, m0 % 12 + 1) + d - 1;
    DaysBeforeMonthNonNegative(full, m0 % 12 + 1);
    MakeDateParts(day, 0);
    var c := CivilOf(DateUtc(y, m0, d));
    DaysFromCivilBounds(c);
    if c.year == y {
      DaysBeforeYearMonotone(y + 1, full);
      assert false;
    }
  }

  /** Every accepted text names a four-digit year from 0100 on. */
  lemma AcceptedYears(s: string)
    requires AssertValidDateUtc(s).Ok?
    ensures 100 <= AssertValidDateUtc(s).value.year <= 9999
  {
    DecimalValueBound(s[..4]);
    if ShapeYear(s) <= 99 {
      RejectsCenturyZero(s);
    }
  }

  /** `toDateUTC` output is read back by `assertValidDateUTC` for a real date with a
      four-digit year. */
  lemma ToDateUtcRoundTrip(p: DateUtcParts)
    requires Real(p) && 1000 <= p.year <= 9999
    ensures AssertValidDateUtc(ToDateUtc(p)) == Ok(p)
  {
    var y := IntToString(p.year);
    NatToStringWidth(p.year, 4);
    DecimalOfNatToString(p.year);
    Pad2Digits(p.month + 1);
    Pad2Digits(p.day);
    var s := ToDateUtc(p);
    assert s[..4] == y && s[5..7] == Pad2(p.month + 1) && s[8..] == Pad2(p.day);
    AcceptsRealDates(s);
  }

  // ------------------------------------------------------------------ shifting

  /** `deltaPart`: which field the delta moves. */
  datatype DeltaPart = YearPart | MonthPart | DayPart

  type Positive = n: int | n >= 1 witness 1

  /** The JavaScript number passed as `deltaValue`: a finite value `num / den`, or NaN or an
      infinity. */
  datatype Delta = Finite(num: int, den: Positive) | NonFinite

  /** `Number.isFinite(deltaValue) ? Math.trunc(deltaValue) : 0`: rounds toward zero. */
  function TruncDelta(x: Delta): int
  {
    match x
    case NonFinite => 0
    case Finite(num, den) => if num >= 0 then num / den else -((-num) / den)
  }

  /** The truncation is the whole number nearest zero: a non-negative value rounds down and
      a negative one rounds up, and a non-finite delta counts as 0. */
  lemma TruncTowardZero(x: Delta)
    ensures x.NonFinite? ==> TruncDelta(x) == 0
    ensures x.Finite? && x.num >= 0 ==>
      0 <= TruncDelta(x) && TruncDelta(x) * x.den <= x.num < (TruncDelta(x) + 1) * x.den
    ensures x.Finite? && x.num < 0 ==>
      TruncDelta(x) <= 0 && (TruncDelta(x) - 1) * x.den < x.num <= TruncDelta(x) * x.den
  {
    if x.Finite? {
      var n, den := TruncDelta(x), x.den as int;
      var a := if x.num >= 0 then x.num else -x.num;
      var q, r := a / den, a % den;
      assert a == den * q + r && 0 <= r < den;
      MulAtLeast(den, q);
      assert 0 <= q;
      assert q * den == den * q && (q + 1) * den == den * q + den;
      if x.num >= 0 {
        assert n == q;
      } else {
        assert n == -q;
        assert (n - 1) * den == -(den * q + den) && n * den == -(den * q);
      }
    }
  }

  /** `Date.UTC(YYYY + dy * delta, MM + dm * delta, DD + dd * delta)` with `[dy, dm, dd]`
      the row `vec[deltaPart]`: the delta lands on the one field the part names. */
  function ShiftTarget(p: DateUtcParts, delta: int, part: DeltaPart): int
  {
    match part
    case YearPart => DateUtc(p.year + delta, p.month, p.day)
    case MonthPart => DateUtc(p.year, p.month + delta, p.day)
    case DayPart => DateUtc(p.year, p.month, p.day + delta)
  }

  /** `getUTCFullYear()`, `getUTCMonth()` and `getUTCDate()` of a time value: a real date
      whose day number is the day of the time value. */
  function UtcParts(t: int): (r: DateUtcParts)
    ensures Real(r) && DayNumber(r) == Day(t)
  {
    MakeDayInRange(YearFromTime(t), MonthFromTime(t), DateFromTime(t));
    DateUtcParts(YearFromTime(t), MonthFromTime(t), DateFromTime(t))
  }

  /** The day number of the shifted fields, the year read as `Date.UTC` reads it. */
  function ShiftedDay(p: DateUtcParts, delta: int, part: DeltaPart): int
  {
    match part
    case YearPart => MakeDay(MakeFullYear(p.year + delta), p.month, p.day)
    case MonthPart => MakeDay(MakeFullYear(p.year), p.month + delta, p.day)
    case DayPart => MakeDay(MakeFullYear(p.year), p.month, p.day + delta)
  }

  /** The day of a `Date.UTC` time value, two-digit years read as 1900..1999. */
  lemma DayOfDateUtc(y: int, m: int, d: int)
    ensures Day(DateUtc(y, m, d)) == MakeDay(MakeFullYear(y), m, d)
  {
    MakeDateParts(MakeDay(MakeFullYear(y), m, d), 0);
  }

  lemma DayOfShiftTarget(p: DateUtcParts, delta: int, part: DeltaPart)
    ensures Day(ShiftTarget(p, delta, part)) == ShiftedDay(p, delta, part)
  {
    match part
    case YearPart => DayOfDateUtc(p.year + delta, p.month, p.day);
    case MonthPart => DayOfDateUtc(p.year, p.month + delta, p.day);
    case DayPart => DayOfDateUtc(p.year, p.month, p.day + delta);
  }

  /** `shiftDateUTC`: the UTC calendar date of `Date.UTC` applied to the shifted fields, which
      carries months and days that fall outside their ranges into the next field. */
  function ShiftDateUtc(p: DateUtcParts, deltaValue: Delta, part: DeltaPart): (r: DateUtcParts)
    ensures Real(r) && DayNumber(r) == ShiftedDay(p, TruncDelta(deltaValue), part)
  {
    DayOfShiftTarget(p, TruncDelta(deltaValue), part);
    UtcParts(ShiftTarget(p, TruncDelta(deltaValue), part))
  }

  /** A whole number truncates to itself. */
  lemma TruncWhole(n: int)
    ensures TruncDelta(Finite(n, 1)) == n
  {
  }

  /** A real date's day number is its days-from-civil. */
  lemma DayNumberOfReal(p: DateUtcParts)
    requires Real(p)
    ensures DayNumber(p) == DaysFromCivil(p.year, p.month + 1, p.day)
  {
    MakeDayInRange(p.year, p.month, p.day);
  }

  /** Two real dates with the same day number are the same date. */
  lemma SameDayNumber(p: DateUtcParts, q: DateUtcParts)
    requires Real(p) && Real(q) && DayNumber(p) == DayNumber(q)
    ensures p == q
  {
    DayNumberOfReal(p);
    DayNumberOfReal(q);
    DaysFromCivilInjective(Civil(p.year, p.month + 1, p.day), Civil(q.year, q.month + 1, q.day));
  }

  /** Shifting a real date outside the years 0..99 by `n` days moves its day number by
      exactly `n`. */
  lemma ShiftByDays(p: DateUtcParts, n: int)
    requires Real(p) && !(0 <= p.year <= 99)
    ensures DayNumber(ShiftDateUtc(p, Finite(n, 1), DayPart)) == DayNumber(p) + n
  {
    ShiftedDayNumber(p, n, DayPart);
    DayShiftDay(p, n);
  }

  /** Outside the years 0..99, shifting the day field by `n` moves the day number by `n`. */
  lemma DayShiftDay(p: DateUtcParts, n: int)
    requires !(0 <= p.year <= 99)
    ensures ShiftedDay(p, n, DayPart) == DayNumber(p) + n
  {
    assert MakeFullYear(p.year) == p.year;
  }

  /** Shifted by years, the fields name day `p.day` of month `p.month` of the shifted year. */
  lemma YearShiftDay(p: DateUtcParts, n: int)
    ensures ShiftedDay(p, n, YearPart) == MakeDay(MakeFullYear(p.year + n), p.month, p.day)
  {
  }

  /** A shift by a whole number `n` lands on the day number of the shifted fields. */
  lemma ShiftedDayNumber(p: DateUtcParts, n: int, part: DeltaPart)
    ensures DayNumber(ShiftDateUtc(p, Finite(n, 1), part)) == ShiftedDay(p, n, part)
  {
    TruncWhole(n);
  }

  /** A delta that truncates to zero (including NaN and the infinities) leaves a real date
      outside the years 0..99 unchanged. */
  lemma ShiftByZero(p: DateUtcParts, deltaValue: Delta, part: DeltaPart)
    requires Real(p) && !(0 <= p.year <= 99) && TruncDelta(deltaValue) == 0
    ensures ShiftDateUtc(p, deltaValue, part) == p
  {
    SameDayNumber(ShiftDateUtc(p, deltaValue, part), p);
  }

  /** The date `k` days into the month after month `m` (0-based) of year `y`. */
  function FollowingMonthDay(y: int, m: int, k: int): DateUtcParts
  {
    if m == 11 then DateUtcParts(y + 1, 0, k) else DateUtcParts(y, m + 1, k)
  }

  /** Day `d` of month `m`: that day itself when the month has it, otherwise the surplus
      days counted into the next month. */
  function Overflowed(y: int, m: int, d: int): DateUtcParts
    requires 0 <= m <= 11
  {
    var len := DaysInMonth(y, m + 1);
    if d <= len then DateUtcParts(y, m, d) else FollowingMonthDay(y, m, d - len)
  }

  /** The date `Date.UTC` lands on for day 1..31 of an in-range month. */
  lemma OverflowedIsReal(y: int, m: int, d: int)
    requires 0 <= m <= 11 && 1 <= d <= 31
    ensures Real(Overflowed(y, m, d)) && DayNumber(Overflowed(y, m, d)) == MakeDay(y, m, d)
  {
    var len := DaysInMonth(y, m + 1);
    var o := Overflowed(y, m, d);
    MakeDayInRange(y, m, d);
    if d <= len {
      assert o == DateUtcParts(y, m, d);
      DayNumberOfReal(o);
    } else {
      // December has 31 days, so only an earlier month overflows.
      var k := d - len;
      assert m < 11 && 1 <= k <= 3;
      DaysBeforeMonthStep(y, m + 1);
      assert o == DateUtcParts(y, m + 1, k);
      assert DaysFromCivil(y, m + 2, k) == DaysFromCivil(y, m + 1, d);
      DayNumberOfReal(o);
    }
  }

  /** A real date on the day `MakeDay` computes for day 1..31 of an in-range month is that
      day, overflowed into the next month when needed. */
  lemma OverflowLanding(r: DateUtcParts, y: int, m: int, d: int)
    requires 0 <= m <= 11 && 1 <= d <= 31 && Real(r) && DayNumber(r) == MakeDay(y, m, d)
    ensures r == Overflowed(y, m, d)
  {
    OverflowedIsReal(y, m, d);
    SameDayNumber(r, Overflowed(y, m, d));
  }

  /** The day number a shift by `n` months lands on: day `p.day` of month `m` of year `y`,
      where `12 * y + m` counts months from the start date's month. */
  lemma ShiftedMonthDay(p: DateUtcParts, n: int, y: int, m: int)
    requires 0 <= m <= 11 && 12 * y + m == 12 * MakeFullYear(p.year) + p.month + n
    ensures DayNumber(ShiftDateUtc(p, Finite(n, 1), MonthPart)) == MakeDay(y, m, p.day)
  {
    TruncWhole(n);
    MakeDayCarry(MakeFullYear(p.year), p.month + n, y, m, p.day);
  }

  /** Shifting a real date by `n` months to month `m` of year `y` (so `12 * y + m` is `n`
      months after the start, the start year read as `Date.UTC` reads it) keeps its day when
      that month has it, and otherwise runs the surplus days into the following month: 31
      January plus one month is 2 or 3 March. */
  lemma ShiftByMonths(p: DateUtcParts, n: int, y: int, m: int)
    requires Real(p) && 0 <= m <= 11 && 12 * y + m == 12 * MakeFullYear(p.year) + p.month + n
    ensures ShiftDateUtc(p, Finite(n, 1), MonthPart) == Overflowed(y, m, p.day)
  {
    ShiftedMonthDay(p, n, y, m);
    OverflowLanding(ShiftDateUtc(p, Finite(n, 1), MonthPart), y, m, p.day);
  }

  /** Shifting a real date by `n` years keeps month and day when they exist in the target
      year (29 February otherwise becomes 1 March); target years 0..99 are read as
      1900..1999. */
  lemma ShiftByYears(p: DateUtcParts, n: int)
    requires Real(p)
    ensures ShiftDateUtc(p, Finite(n, 1), YearPart) == Overflowed(MakeFullYear(p.year + n), p.month, p.day)
  {
    var y := MakeFullYear(p.year + n);
    var r := ShiftDateUtc(p, Finite(n, 1), YearPart);
    ShiftedDayNumber(p, n, YearPart);
    YearShiftDay(p, n);
    OverflowLanding(r, y, p.month, p.day);
  }

  // -------------------------------------------------------------------- ranges

  /** The end date `getYearsArray` reads: the given one, or `${year}-01-01` for the current
      UTC year when none is given, which is `toDateUTC` of 1 January of that year. */
  function YearsEnd(end: Option<string>, currentYear: int): string
  {
    if end.Some? then end.value else ToDateUtc(DateUtcParts(currentYear, 0, 1))
  }

  /** `Array.from({ length: n }, ...)` takes a negative length as zero. */
  function Length(n: int): nat
  {
    if n < 0 then 0 else n
  }

  /** `getYearsArray` as written: one entry per year from the start year to the end year,
      each entry the start text followed by the entry's index. */
  function GetYearsArray(start: string, end: Option<string>, currentYear: int): Result<seq<string>, string>
  {
    match AssertValidDateUtc(start)
    case Err(e) => Err(e)
    case Ok(first) =>
      match AssertValidDateUtc(YearsEnd(end, currentYear))
      case Err(e) => Err(e)
      case Ok(last) => Ok(seq(Length(last.year - first.year + 1), i => start + IntToString(i)))
  }

  /** The entries of `getYearsArray` are not dates: each is the ten-character start text
      with an index appended, so the validator rejects every one of them (the second entry
      for `2020-01-01` is `2020-01-011`). */
  lemma YearsArrayEntriesAreNotDates(start: string, end: Option<string>, currentYear: int)
    requires GetYearsArray(start, end, currentYear).Ok?
    ensures var years := GetYearsArray(start, end, currentYear).value;
      forall i :: 0 <= i < |years| ==> (years[i] == start + IntToString(i)
        && AssertValidDateUtc(years[i]) == Err(InvalidMessage(years[i])))
  {
    var years := GetYearsArray(start, end, currentYear).value;
    forall i | 0 <= i < |years|
      ensures years[i] == start + IntToString(i) && AssertValidDateUtc(years[i]) == Err(InvalidMessage(years[i]))
    {
      assert |IntToString(i)| >= 1;
    }
  }

  /** 1 January of `n` consecutive years from `year`. */
  function NewYears(year: int, n: nat): (r: seq<string>)
    ensures |r| == n
  {
    seq(n, i => ToDateUtc(DateUtcParts(year + i, 0, 1)))
  }

  /** Within four-digit years, every entry reads back as 1 January of its year. */
  lemma NewYearsReadBack(year: int, n: nat)
    requires 1000 <= year && year + n <= 10000
    ensures forall i :: 0 <= i < n ==> AssertValidDateUtc(NewYears(year, n)[i]) == Ok(DateUtcParts(year + i, 0, 1))
  {
    forall i | 0 <= i < n
      ensures AssertValidDateUtc(NewYears(year, n)[i]) == Ok(DateUtcParts(year + i, 0, 1))
    {
      assert NewYears(year, n)[i] == ToDateUtc(DateUtcParts(year + i, 0, 1));
      ToDateUtcRoundTrip(DateUtcParts(year + i, 0, 1));
    }
  }

  /** The evidently intended `getYearsArray`: 1 January of every year from the start year to
      the end year. */
  function YearsArray(start: string, end: Option<string>, currentYear: int): Result<seq<string>, string>
  {
    match AssertValidDateUtc(start)
    case Err(e) => Err(e)
    case Ok(first) =>
      match AssertValidDateUtc(YearsEnd(end, currentYear))
      case Err(e) => Err(e)
      case Ok(last) => Ok(NewYears(first.year, Length(last.year - first.year + 1)))
  }

  /** The corrected list holds 1 January of each year of the range, in order; the range
      stays within four-digit years, where `NewYearsReadBack` applies. */
  lemma YearsArrayListsNewYears(start: string, end: Option<string>, currentYear: int)
    requires YearsArray(start, end, currentYear).Ok?
    ensures var first := AssertValidDateUtc(start).value;
      var last := AssertValidDateUtc(YearsEnd(end, currentYear)).value;
      var n := Length(last.year - first.year + 1);
      YearsArray(start, end, currentYear) == Ok(NewYears(first.year, n))
      && 100 <= first.year && first.year + n <= 10000
  {
    AcceptedYears(start);
    AcceptedYears(YearsEnd(end, currentYear));
  }

  /** The first day of each month of `year`. */
  function FirstDays(year: int): (r: seq<string>)
    ensures |r| == 12
  {
    seq(12, m => ToDateUtc(DateUtcParts(year, m, 1)))
  }

  /** `getMonthsArray`: the first day of each month of the year of the given date. */
  function GetMonthsArray(s: string): Result<seq<string>, string>
  {
    match AssertValidDateUtc(s)
    case Err(e) => Err(e)
    case Ok(p) => Ok(FirstDays(p.year))
  }

  /** For a four-digit year, the twelve entries read back as 1 January to 1 December. */
  lemma FirstDaysReadBack(year: int)
    requires 1000 <= year <= 9999
    ensures forall m :: 0 <= m < 12 ==> AssertValidDateUtc(FirstDays(year)[m]) == Ok(DateUtcParts(year, m, 1))
  {
    forall m | 0 <= m < 12
      ensures AssertValidDateUtc(FirstDays(year)[m]) == Ok(DateUtcParts(year, m, 1))
    {
      ToDateUtcRoundTrip(DateUtcParts(year, m, 1));
    }
  }

  /** An accepted date from the year 1000 on yields the first days of its year's months. */
  lemma MonthsArrayListsFirstDays(s: string)
    requires AssertValidDateUtc(s).Ok? && AssertValidDateUtc(s).value.year >= 1000
    ensures var p := AssertValidDateUtc(s).value;
      var months := GetMonthsArray(s);
      months.Ok? && |months.value| == 12
      && forall m :: 0 <= m < 12 ==> AssertValidDateUtc(months.value[m]) == Ok(DateUtcParts(p.year, m, 1))
  {
    AcceptedYears(s);
    FirstDaysReadBack(AssertValidDateUtc(s).value.year);
  }

  /** The Monday of the week of `p`: `diffToMonday` days back from it. */
  function Monday(p: DateUtcParts): DateUtcParts
  {
    ShiftDateUtc(p, Finite(-DiffToMonday(p), 1), DayPart)
  }

  /** `(jsDay + 6) % 7` for the UTC week day `jsDay` of `p` (0 = Sunday). */
  function DiffToMonday(p: DateUtcParts): int
  {
    var jsDay := WeekDay(DateUtc(p.year, p.month, p.day));
    (jsDay + 6) % 7
  }

  /** The Monday of the week of `p` and the six days after it, as parts. */
  function WeekParts(p: DateUtcParts): (w: seq<DateUtcParts>)
    ensures |w| == 7
  {
    var monday := Monday(p);
    seq(7, i => ShiftDateUtc(monday, Finite(i, 1), DayPart))
  }

  /** `toDateUTC` of each of the parts. */
  function DateTexts(w: seq<DateUtcParts>): (r: seq<string>)
    ensures |r| == |w|
  {
    seq(|w|, i requires 0 <= i < |w| => ToDateUtc(w[i]))
  }

  /** `getWeekdaysArray`: the Monday-to-Sunday week holding the given date. */
  function GetWeekdaysArray(s: string): Result<seq<string>, string>
  {
    match AssertValidDateUtc(s)
    case Err(e) => Err(e)
    case Ok(p) => Ok(DateTexts(WeekParts(p)))
  }

  /** Day number `d` (days since 1970-01-01, a Thursday) falls on a Monday, week day 1. */
  predicate OnMonday(d: int)
  {
    (d + 4) % 7 == 1
  }

  /** `(jsDay + 6) % 7` days back from a day lands on a Monday (week day 1), at most six
      days back. */
  lemma MondayOffset(d: int)
    ensures var diff := ((d + 4) % 7 + 6) % 7;
      0 <= diff <= 6 && OnMonday(d - diff)
  {
  }

  /** A real date at most six days before a real date from the year 101 on is in the year
      100 or later. */
  lemma NearbyYear(p: DateUtcParts, q: DateUtcParts)
    requires Real(p) && Real(q) && p.year >= 101 && DayNumber(p) - 6 <= DayNumber(q)
    ensures q.year >= 100
  {
    DayNumberOfReal(p);
    DayNumberOfReal(q);
    DaysFromCivilBounds(Civil(p.year, p.month + 1, p.day));
    DaysFromCivilBounds(Civil(q.year, q.month + 1, q.day));
    DaysBeforeYearMonotone(101, p.year);
    if q.year < 100 {
      DaysBeforeYearMonotone(q.year + 1, 100);
      DaysBeforeYearMonotone(100, 101);
    }
  }

  /** Outside the years 0..99, `diffToMonday` days back from `p` is a Monday (week day 1),
      at most six days back. */
  lemma DiffToMondayLandsOnMonday(p: DateUtcParts)
    requires !(0 <= p.year <= 99)
    ensures 0 <= DiffToMonday(p) <= 6 && OnMonday(DayNumber(p) - DiffToMonday(p))
  {
    DayOfDateUtc(p.year, p.month, p.day);
    MondayOffset(DayNumber(p));
  }

  /** The Monday of the week of a real date from the year 101 on is a real date in the year
      100 or later, no more than six days earlier. */
  lemma MondayOf(p: DateUtcParts)
    requires Real(p) && p.year >= 101
    ensures DayNumber(p) - 6 <= DayNumber(Monday(p)) <= DayNumber(p) && OnMonday(DayNumber(Monday(p)))
    ensures Monday(p).year >= 100
  {
    DiffToMondayLandsOnMonday(p);
    ShiftByDays(p, -DiffToMonday(p));
    NearbyYear(p, Monday(p));
  }

  /** From the year 101 on, the week holds seven consecutive real days, starts on a Monday
      and contains the given date. */
  lemma WeekPartsSpanWeek(p: DateUtcParts)
    requires Real(p) && p.year >= 101
    ensures var w := WeekParts(p);
      OnMonday(DayNumber(w[0]))
      && DayNumber(w[0]) <= DayNumber(p) <= DayNumber(w[0]) + 6
      && forall i :: 0 <= i < 7 ==> Real(w[i]) && DayNumber(w[i]) == DayNumber(w[0]) + i
  {
    MondayOf(p);
    WeekPartsDays(p);
    WeekPartsDay(p, 0);
  }

  /** Every entry of the week is the real date that many days after its Monday. */
  lemma WeekPartsDays(p: DateUtcParts)
    requires Real(p) && p.year >= 101
    ensures forall i :: 0 <= i < 7 ==>
      Real(WeekParts(p)[i]) && DayNumber(WeekParts(p)[i]) == DayNumber(Monday(p)) + i
  {
    forall i | 0 <= i < 7
      ensures Real(WeekParts(p)[i]) && DayNumber(WeekParts(p)[i]) == DayNumber(Monday(p)) + i
    {
      WeekPartsDay(p, i);
    }
  }

  /** Entry `i` of the week is the real date `i` days after its Monday. */
  lemma WeekPartsDay(p: DateUtcParts, i: int)
    requires Real(p) && p.year >= 101 && 0 <= i < 7
    ensures Real(WeekParts(p)[i]) && DayNumber(WeekParts(p)[i]) == DayNumber(Monday(p)) + i
  {
    var monday := Monday(p);
    MondayOf(p);
    assert WeekParts(p)[i] == ShiftDateUtc(monday, Finite(i, 1), DayPart);
    ShiftByDays(monday, i);
  }

  /** Real dates at most six days apart are in the same year or in neighbouring years. */
  lemma NeighbouringYears(p: DateUtcParts, q: DateUtcParts)
    requires Real(p) && Real(q) && DayNumber(p) - 6 <= DayNumber(q) <= DayNumber(p) + 6
    ensures p.year - 1 <= q.year <= p.year + 1
  {
    DayNumberOfReal(p);
    DayNumberOfReal(q);
    DaysFromCivilBounds(Civil(p.year, p.month + 1, p.day));
    DaysFromCivilBounds(Civil(q.year, q.month + 1, q.day));
    if q.year < p.year - 1 {
      DaysBeforeYearMonotone(q.year + 1, p.year);
    } else if q.year > p.year + 1 {
      DaysBeforeYearMonotone(p.year + 1, q.year);
    }
  }

  /** `getWeekdaysArray` prints the week of `WeekParts`; within four-digit years every
      entry reads back as its day of that week. */
  lemma WeekdaysArrayListsWeek(s: string)
    requires AssertValidDateUtc(s).Ok?
    requires 1001 <= AssertValidDateUtc(s).value.year <= 9998
    ensures var w := WeekParts(AssertValidDateUtc(s).value);
      var days := GetWeekdaysArray(s);
      days == Ok(DateTexts(w)) && |days.value| == 7
      && forall i :: 0 <= i < 7 ==> AssertValidDateUtc(days.value[i]) == Ok(w[i])
  {
    var p := AssertValidDateUtc(s).value;
    var w := WeekParts(p);
    WeekPartsSpanWeek(p);
    forall i | 0 <= i < 7
      ensures AssertValidDateUtc(DateTexts(w)[i]) == Ok(w[i])
    {
      NeighbouringYears(p, w[i]);
      ToDateUtcRoundTrip(w[i]);
    }
  }

  /** `getDaysInMonth`: the day of the month of day 0 of the next month. */
  function GetDaysInMonth(s: string): (r: Result<int, string>)
    ensures r.Ok? ==> 1 <= r.value <= 31
  {
    match AssertValidDateUtc(s)
    case Err(e) => Err(e)
    case Ok(p) => Ok(DateFromTime(DateUtc(p.year, p.month + 1, 0)))
  }

  /** Day 0 of the next month is the last day of the month of a real date from the year
      100 on. */
  lemma LastDayOfMonth(p: DateUtcParts)
    requires Real(p) && p.year >= 100
    ensures DateFromTime(DateUtc(p.year, p.month + 1, 0)) == DaysInMonth(p.year, p.month + 1)
  {
    LastDayOfMonthDate(p.year, p.month);
  }

  /** The count is the length of the month of the given date. */
  lemma DaysInMonthOfDate(s: string)
    requires AssertValidDateUtc(s).Ok?
    ensures var p := AssertValidDateUtc(s).value;
      GetDaysInMonth(s) == Ok(DaysInMonth(p.year, p.month + 1))
  {
    AcceptedYears(s);
    LastDayOfMonth(AssertValidDateUtc(s).value);
  }

  /** The days 1..n of the month of `p`. */
  function MonthDays(p: DateUtcParts, n: nat): (r: seq<string>)
    ensures |r| == n
  {
    seq(n, i => ToDateUtc(DateUtcParts(p.year, p.month, i + 1)))
  }

  /** `getDaysArray`: every day of the month of the given date. */
  function GetDaysArray(s: string): Result<seq<string>, string>
  {
    match AssertValidDateUtc(s)
    case Err(e) => Err(e)
    case Ok(p) =>
      match GetDaysInMonth(s)
      case Err(e) => Err(e)
      case Ok(daysInMonth) => Ok(MonthDays(p, daysInMonth))
  }

  /** For a real date with a four-digit year, every day of its month reads back. */
  lemma MonthDaysReadBack(p: DateUtcParts)
    requires Real(p) && 1000 <= p.year <= 9999
    ensures var days := MonthDays(p, DaysInMonth(p.year, p.month + 1));
      forall i :: 0 <= i < |days| ==> AssertValidDateUtc(days[i]) == Ok(DateUtcParts(p.year, p.month, i + 1))
  {
    var days := MonthDays(p, DaysInMonth(p.year, p.month + 1));
    forall i | 0 <= i < |days|
      ensures AssertValidDateUtc(days[i]) == Ok(DateUtcParts(p.year, p.month, i + 1))
    {
      MonthDayReadBack(p, i);
    }
  }

  /** Entry `i` of the month reads back as day `i + 1`. */
  lemma MonthDayReadBack(p: DateUtcParts, i: int)
    requires Real(p) && 1000 <= p.year <= 9999 && 0 <= i < DaysInMonth(p.year, p.month + 1)
    ensures AssertValidDateUtc(MonthDays(p, DaysInMonth(p.year, p.month + 1))[i])
      == Ok(DateUtcParts(p.year, p.month, i + 1))
  {
    var q := DateUtcParts(p.year, p.month, i + 1);
    assert MonthDays(p, DaysInMonth(p.year, p.month + 1))[i] == ToDateUtc(q);
    assert Real(q);
    ToDateUtcRoundTrip(q);
  }

  /** One entry per day of the month, in order; from the year 1000 on each reads back as its
      day. */
  lemma DaysArrayListsMonth(s: string)
    requires AssertValidDateUtc(s).Ok?
    ensures var p := AssertValidDateUtc(s).value;
      GetDaysArray(s) == Ok(MonthDays(p, DaysInMonth(p.year, p.month + 1)))
      && (p.year >= 1000 ==> forall i :: 0 <= i < DaysInMonth(p.year, p.month + 1) ==>
        AssertValidDateUtc(GetDaysArray(s).value[i]) == Ok(DateUtcParts(p.year, p.month, i + 1)))
  {
    var p := AssertValidDateUtc(s).value;
    DaysInMonthOfDate(s);
    AcceptedYears(s);
    if p.year >= 1000 {
      MonthDaysReadBack(p);
    }
  }
}
