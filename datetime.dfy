/** src/features/Datetime/Datetime.ts: the formatter built by `createDateFormatter`, the
    time differences, the month length by year and month, and the day and year lists. The
    period helpers and predicates that file repeats from DatetimeUtils.ts are modelled once,
    in `DatetimeUtils`, and `age`/`timeAgo` in `RelativeTime`. */
module Datetime {
  import opened Wrappers
  import opened Text
  import opened Calendar
  import opened LocalDates
  import opened Tokens
  import opened Host
  import DatetimeUtils

  // ---------------------------------------------------------------- formatter

  /** The keys of this file's `formatsMap`, in declaration order. */
  const Keys: seq<string> :=
    ["YYYY", "YY", "DD", "dddd", "ddd", "MMMM", "MMM", "MM", "HH", "hh", "mm", "sss", "ss",
     "A", "a", "X", "x", "ISO_8601"]

  lemma KeysNonEmpty()
    ensures NonEmptyKeys(Keys)
  {
  }

  /** No key is preceded by a proper prefix of itself: the first match is the longest. */
  lemma KeysWellOrdered()
    ensures NonEmptyKeys(Keys) && LongerKeysFirst(Keys)
  {
    KeysNonEmpty();
    forall i, j | 0 <= i < j < |Keys| && |Keys[i]| < |Keys[j]|
      ensures Keys[j][..|Keys[i]|] != Keys[i]
    {
      assert Keys[j][0] != Keys[i][0];
    }
  }

  /** The letters a key can start with. */
  const KeyInitials: string := "YDdMHhmsAaXxI"

  lemma KeyInitialsCover()
    ensures forall k :: 0 <= k < |Keys| ==> Keys[k] != [] && Keys[k][0] in KeyInitials
  {
  }

  /** `getHour24TwoDigits`: the `hour` part of `formatToParts` with `hourCycle: 'h23'`,
      read with `parseInt`, reduced with JavaScript's `% 24` and padded to two characters;
      without a part or without a number, the 24-hour rendering with `"24"` turned into
      `"00"`. */
  function Hour24TwoDigits(host: Rendering): string
  {
    var parsed := if host.hourPart.Some? then ParseInt(host.hourPart.value) else None;
    match parsed
    case Some(num) => HourOfDay(num)
    case None => Hour24Text(host)
  }

  /** With a numeric `hour` part, `HH` is two digits whose value is that hour modulo 24;
      without a part or without a number, it is the fallback rendering. */
  lemma Hour24TwoDigitsText(host: Rendering)
    ensures var r := Hour24TwoDigits(host);
      host.hourPart.Some? && host.hourPart.value != [] && AllDigits(host.hourPart.value) ==>
      |r| == 2 && AllDigits(r) && DecimalValue(r) == DecimalValue(host.hourPart.value) % 24
    ensures (host.hourPart.None? || ParseInt(host.hourPart.value).None?) ==> Hour24TwoDigits(host) == Hour24Text(host)
  {
    DigitsParse(host.hourPart);
  }

  /** `String(num % 24).padStart(2, '0')`. */
  function HourOfDay(num: int): (r: string)
    ensures num >= 0 ==> |r| == 2 && AllDigits(r) && DecimalValue(r) == num % 24
  {
    var h := JsRem(num, 24);
    if h >= 0 then
      PaddedDecimal(h, 2);
      PaddedWidth(h, 2);
      PadStart(IntToString(h), 2, '0')
    else PadStart(IntToString(h), 2, '0')
  }

  /** `parseInt` reads a non-empty digit string as its decimal value. */
  lemma DigitsParse(part: Option<string>)
    ensures part.Some? && part.value != [] && AllDigits(part.value) ==>
      ParseInt(part.value) == Some(DecimalValue(part.value))
  {
    if part.Some? && part.value != [] && AllDigits(part.value) {
      ParseIntOfDigits(part.value);
    }
  }

  /** `formatsMap[key]()` for the instant `t` rendered as `host`; the lookup is written as a
      dispatch on the key's first letter, which selects the same entry. */
  function TokenValue(host: Rendering, t: int, key: string): string
  {
    if key == [] then []
    else match key[0]
    case 'Y' =>
      if key == "YYYY" then host.format(YearNumeric)
      else if key == "YY" then host.format(Year2Digit)
      else []
    case 'D' => if key == "DD" then host.format(Day2Digit) else []
    case 'd' =>
      if key == "dddd" then host.format(WeekdayLong)
      else if key == "ddd" then host.format(WeekdayShort)
      else []
    case 'M' =>
      if key == "MMMM" then host.format(MonthLong)
      else if key == "MMM" then host.format(MonthShort)
      else if key == "MM" then host.format(Month2Digit)
      else []
    case 'H' => if key == "HH" then Hour24TwoDigits(host) else []
    case 'h' => if key == "hh" then Hour12Text(host) else []
    case 'm' => if key == "mm" then host.format(Minute2Digit) else []
    case 's' =>
      if key == "sss" then Milliseconds(t)
      else if key == "ss" then host.format(Second2Digit)
      else []
    case 'A' => if key == "A" then Meridiem(host) else []
    case 'a' => if key == "a" then MeridiemLower(host) else []
    case 'X' => if key == "X" then Timestamp(t) else []
    case 'x' => if key == "x" then TimestampMs(t) else []
    case 'I' => if key == "ISO_8601" then host.isoString else []
    case _ => []
  }

  /** The lookup `(match) => formatsMap[match]()` the replacement calls. */
  function Rule(host: Rendering, t: int): string -> string
  {
    (key: string) => TokenValue(host, t, key)
  }

  /** The formatter returned by `createDateFormatter`, applied to `date` and `format`. */
  function Format(host: Rendering, t: int, pattern: string): string
  {
    KeysNonEmpty();
    FormatPattern(pattern, Keys, Rule(host, t))
  }

  /** A bracketed literal is copied without its brackets, whatever letters it holds, and the
      text on each side is formatted on its own. */
  lemma FormatBracketed(host: Rendering, t: int, text: string, lit: string, rest: string)
    requires '[' !in text && ']' !in lit
    ensures Format(host, t, text + "[" + lit + "]" + rest)
      == Format(host, t, text) + lit + Format(host, t, rest)
  {
    KeysNonEmpty();
    FormatLiteral(text, lit, rest, Keys, Rule(host, t));
    NoOpenNoSpan(text);
    FormatWithoutBrackets(text, Keys, Rule(host, t));
  }

  /** Characters that start no key and open no bracket are copied unchanged and in order. */
  lemma SeparatorsPassThrough(host: Rendering, t: int, s: string)
    requires forall i :: 0 <= i < |s| ==> s[i] !in KeyInitials && s[i] != '['
    ensures Format(host, t, s) == s
  {
    KeysNonEmpty();
    KeyInitialsCover();
    forall i | 0 <= i < |s| ensures MatchAt(s[i..], Keys).None? {
      forall k | 0 <= k < |Keys| ensures !StartsWith(s[i..], Keys[k]) {
        assert Keys[k][0] != s[i..][0];
      }
    }
    ReplaceKeyless(s, Keys, Rule(host, t));
    NoOpenNoSpan(s);
    FormatWithoutBrackets(s, Keys, Rule(host, t));
  }

  /** No key before index `k` starts with the first letter of `s`, so none matches there. */
  lemma EarlierKeysMiss(s: string, k: nat)
    requires s != [] && k <= |Keys|
    requires forall j :: 0 <= j < k ==> Keys[j][0] != s[0]
    ensures forall j :: 0 <= j < k ==> !StartsWith(s, Keys[j])
  {
    KeyInitialsCover();
  }

  /** `YYYY` is consumed whole as the numeric year, never as two `YY`. */
  lemma FullYearToken(host: Rendering, t: int, rest: string)
    requires '[' !in rest
    ensures Format(host, t, "YYYY" + rest)
      == (if host.format(YearNumeric) == [] then "YYYY" else host.format(YearNumeric)) + Format(host, t, rest)
  {
    KeysNonEmpty();
    FormatKeyFirst("YYYY", rest, Keys, Rule(host, t), 0);
  }

  /** `MMMM` is consumed whole as the long month name. */
  lemma LongMonthToken(host: Rendering, t: int, rest: string)
    requires '[' !in rest
    ensures Format(host, t, "MMMM" + rest)
      == (if host.format(MonthLong) == [] then "MMMM" else host.format(MonthLong)) + Format(host, t, rest)
  {
    EarlierKeysMiss("MMMM" + rest, 5);
    KeysNonEmpty();
    FormatKeyFirst("MMMM", rest, Keys, Rule(host, t), 5);
  }

  lemma HourValue(host: Rendering, t: int)
    ensures Rule(host, t)("HH") == Hour24TwoDigits(host)
  {
  }

  /** `HH` prints the normalised 24-hour value; with a numeric `hour` part it is two digits
      whose value is that hour modulo 24. */
  lemma HourToken(host: Rendering, t: int, rest: string)
    requires '[' !in rest
    requires host.hourPart.Some? && host.hourPart.value != [] && AllDigits(host.hourPart.value)
    ensures Format(host, t, "HH" + rest) == Hour24TwoDigits(host) + Format(host, t, rest)
    ensures |Hour24TwoDigits(host)| == 2 && AllDigits(Hour24TwoDigits(host)) && DecimalValue(Hour24TwoDigits(host)) < 24
  {
    KeysNonEmpty();
    EarlierKeysMiss("HH" + rest, 8);
    FormatKeyFirst("HH", rest, Keys, Rule(host, t), 8);
    HourValue(host, t);
    Hour24TwoDigitsText(host);
    assert Substitute("HH", Rule(host, t)) == Hour24TwoDigits(host);
  }

  lemma MillisecondValue(host: Rendering, t: int)
    ensures Rule(host, t)("sss") == Milliseconds(t)
  {
  }

  /** `sss` is consumed whole as the three-digit millisecond, not as `ss` plus `s`. */
  lemma MillisecondToken(host: Rendering, t: int, rest: string)
    requires '[' !in rest
    ensures Format(host, t, "sss" + rest) == Milliseconds(t) + Format(host, t, rest)
    ensures DecimalValue(Milliseconds(t)) == t % 1000
  {
    MillisecondsText(t);
    EarlierKeysMiss("sss" + rest, 11);
    KeysNonEmpty();
    MillisecondValue(host, t);
    FormatKeyFirst("sss", rest, Keys, Rule(host, t), 11);
  }

  lemma SecondsValue(host: Rendering, t: int)
    ensures Rule(host, t)("X") == Timestamp(t)
  {
  }

  /** `X` prints `Math.floor(ms / 1000)`, the same in every time zone. */
  lemma SecondsToken(host: Rendering, t: int, rest: string)
    requires '[' !in rest
    ensures Format(host, t, "X" + rest) == Timestamp(t) + Format(host, t, rest)
    ensures JsNumber(Timestamp(t)) == Some(t / 1000)
  {
    EarlierKeysMiss("X" + rest, 15);
    KeysNonEmpty();
    SecondsValue(host, t);
    FormatKeyFirst("X", rest, Keys, Rule(host, t), 15);
    TimestampsReadBack(t);
  }

  lemma MillisecondsSinceEpochValue(host: Rendering, t: int)
    ensures Rule(host, t)("x") == TimestampMs(t)
  {
  }

  /** `x` prints the epoch milliseconds, the same in every time zone. */
  lemma MillisecondsSinceEpochToken(host: Rendering, t: int, rest: string)
    requires '[' !in rest
    ensures Format(host, t, "x" + rest) == TimestampMs(t) + Format(host, t, rest)
    ensures JsNumber(TimestampMs(t)) == Some(t)
  {
    EarlierKeysMiss("x" + rest, 16);
    KeysNonEmpty();
    MillisecondsSinceEpochValue(host, t);
    FormatKeyFirst("x", rest, Keys, Rule(host, t), 16);
    TimestampsReadBack(t);
  }

  // ---------------------------------------------------------------- differences

  function Abs(x: int): (r: int)
    ensures r >= 0 && (r == x || r == -x)
  {
    if x < 0 then -x else x
  }

  /** `Math.ceil(Math.abs(t2 - t1) / unit)`: the number of started units between two
      instants. */
  function Difference(t1: int, t2: int, unit: int): (r: int)
    requires unit > 0
    ensures r >= 0
    ensures (r - 1) * unit < Abs(t2 - t1) <= r * unit
  {
    CeilDiv(Abs(t2 - t1), unit)
  }

  /** `differenceInDays`, `differenceInHours`, `differenceInMinutes`, `differenceInSeconds`. */
  function DifferenceInDays(t1: int, t2: int): int { Difference(t1, t2, MsPerDay) }

  function DifferenceInHours(t1: int, t2: int): int { Difference(t1, t2, MsPerHour) }

  function DifferenceInMinutes(t1: int, t2: int): int { Difference(t1, t2, MsPerMinute) }

  function DifferenceInSeconds(t1: int, t2: int): int { Difference(t1, t2, MsPerSecond) }

  /** The differences do not depend on the order of the arguments, are zero only for equal
      instants, and a whole number of units apart gives exactly that number. */
  lemma DifferenceLaws(t1: int, t2: int, unit: int, n: nat)
    requires unit > 0
    ensures Difference(t1, t2, unit) == Difference(t2, t1, unit)
    ensures Difference(t1, t2, unit) == 0 <==> t1 == t2
    ensures Difference(t1, t1 + n * unit, unit) == n
  {
    assert Abs(t1 + n * unit - t1) == n * unit;
    DivUnique(-(n * unit), unit, -(n as int), 0);
  }

  /** Midnight of the first day of the month `n` months after `t`'s month, carried into
      range as `new Date(year, month + n, 1)` does. */
  function MonthsOn(t: int, n: int): int
  {
    MakeDate(MakeDay(YearFromTime(t), MonthFromTime(t) + n, 1), 0)
  }

  /** Midnight of the first of January of `year`. */
  function NewYear(year: int): int
  {
    MakeDate(MakeDay(year, 0, 1), 0)
  }

  /** `differenceInMonths`: whole calendar months from `date1`'s month to `date2`'s month,
      ignoring the days: stepping that many months on from `date1`'s month lands in
      `date2`'s month. */
  function DifferenceInMonths(t1: int, t2: int): (r: int)
    ensures YearFromTime(MonthsOn(t1, r)) == YearFromTime(t2)
    ensures MonthFromTime(MonthsOn(t1, r)) == MonthFromTime(t2)
  {
    var y2, m2 := YearFromTime(t2), MonthFromTime(t2);
    var n := (y2 - YearFromTime(t1)) * 12 + m2 - MonthFromTime(t1);
    LandsInMonth(t1, n, y2, m2);
    n
  }

  /** Stepping `n` months on from `t`'s month lands in the year and the 0-based month that
      `12 * year + month0` counts from year 0. */
  lemma LandsInMonth(t: int, n: int, year: int, month0: int)
    requires 0 <= month0 <= 11
    requires 12 * YearFromTime(t) + MonthFromTime(t) + n == 12 * year + month0
    ensures YearFromTime(MonthsOn(t, n)) == year
    ensures MonthFromTime(MonthsOn(t, n)) == month0
  {
    var y, m := YearFromTime(t), MonthFromTime(t);
    MakeDayCarry(y, m + n, year, month0, 1);
    MakeDayInRange(year, month0, 1);
    MidnightFields(MonthsOn(t, n), Civil(year, month0 + 1, 1));
  }

  /** An instant at midnight of a valid date reads back that date. */
  lemma MidnightFields(x: int, c: Civil)
    requires ValidCivil(c)
    requires x == MakeDate(DaysFromCivil(c.year, c.month, c.day), 0)
    ensures YearFromTime(x) == c.year && MonthFromTime(x) == c.month - 1 && DateFromTime(x) == c.day
  {
    FieldsOfMakeDate(c, 0);
  }

  /** The month difference is the only step count that lands in `date2`'s month. */
  lemma DifferenceInMonthsUnique(t1: int, t2: int, n: int)
    ensures YearFromTime(MonthsOn(t1, n)) == YearFromTime(t2) && MonthFromTime(MonthsOn(t1, n)) == MonthFromTime(t2)
            <==> n == DifferenceInMonths(t1, t2)
  {
    var k := MonthFromTime(t1) + n;
    LandsInMonth(t1, n, YearFromTime(t1) + k / 12, k % 12);
  }

  /** `differenceInYears`: the difference of the calendar years; the first of January that
      many years after `date1`'s year falls in `date2`'s year. */
  function DifferenceInYears(t1: int, t2: int): (r: int)
    ensures YearFromTime(NewYear(YearFromTime(t1) + r)) == YearFromTime(t2)
  {
    NewYearReadsBack(YearFromTime(t2));
    assert YearFromTime(t1) + (YearFromTime(t2) - YearFromTime(t1)) == YearFromTime(t2);
    YearFromTime(t2) - YearFromTime(t1)
  }

  /** The first of January of a year lies in that year. */
  lemma NewYearReadsBack(year: int)
    ensures YearFromTime(NewYear(year)) == year
  {
    MakeDayInRange(year, 0, 1);
    FieldsOfMakeDate(Civil(year, 1, 1), 0);
  }

  /** The year difference is the only year count whose first of January falls in `date2`'s
      year. */
  lemma DifferenceInYearsUnique(t1: int, t2: int, n: int)
    requires YearFromTime(NewYear(YearFromTime(t1) + n)) == YearFromTime(t2)
    ensures n == DifferenceInYears(t1, t2)
  {
    NewYearReadsBack(YearFromTime(t1) + n);
  }

  // ---------------------------------------------------------------- months and lists

  /** `getDaysInMonth(year, month)`: the date of `new Date(year, month + 1, 0)`, the last day
      of the 0-based month `month` after carrying it into range, with two-digit years read
      as 1900..1999. */
  function DaysInMonthOf(year: int, month: int): int
  {
    DateFromTime(MakeDate(MakeDay(MakeFullYear(year), month + 1, 0), 0))
  }

  /** Day 0 of the next month is the length of the month after carrying; for a month in
      range of a year from 1 on, it is that month's length. */
  lemma DaysInMonthOfLength(year: int, month: int)
    ensures DaysInMonthOf(year, month) == DaysInMonth(MakeFullYear(year) + month / 12, month % 12 + 1)
    ensures 1 <= year && 0 <= month <= 11 ==> DaysInMonthOf(year, month) == DaysInMonth(year, month + 1)
  {
    DateOfDayZero(year, month);
    assert DaysInMonthOf(year, month) == DateFromTime(DateUtc(year, month + 1, 0));
    if 1 <= year && 0 <= month <= 11 {
      DivUnique(month, 12, 0, month);
      DatetimeUtils.TwoDigitYearMonths(year, month + 1);
    }
  }

  /** The time value of `new Date(year, month, day)`: local midnight of that day. */
  function LocalMidnight(year: int, month: int, day: int): int
  {
    MakeDate(MakeDay(MakeFullYear(year), month, day), 0)
  }

  /** `getDaysArray(year, month)`: one new date per day of the month, at local midnight,
      one day apart. */
  method GetDaysArray(year: int, month: int) returns (days: seq<Date>)
    ensures |days| == DaysInMonthOf(year, month)
    ensures forall i :: 0 <= i < |days| ==> fresh(days[i]) && days[i].time == LocalMidnight(year, month, i + 1)
    ensures forall i :: 0 <= i && i + 1 < |days| ==> days[i + 1].time == days[i].time + MsPerDay
  {
    var daysInMonth := DaysInMonthOf(year, month);
    days := [];
    var i := 1;
    while i <= daysInMonth
      invariant 1 <= i && |days| == i - 1
      invariant daysInMonth >= 0 ==> i <= daysInMonth + 1
      invariant forall j :: 0 <= j < |days| ==> fresh(days[j]) && days[j].time == LocalMidnight(year, month, j + 1)
    {
      var day := new Date.FromFields(year, month, i);
      days := days + [day];
      i := i + 1;
    }
  }

  /** Day `d` of a month, for `d` up to the month's length, reads back as that day. */
  lemma DayOfMonth(year: int, month: int, d: int)
    requires 1 <= d <= DaysInMonthOf(year, month)
    ensures DateFromTime(LocalMidnight(year, month, d)) == d
    ensures MonthFromTime(LocalMidnight(year, month, d)) == month % 12
  {
    DaysInMonthOfLength(year, month);
    CarriedMidnight(year, month, d, MakeFullYear(year) + month / 12, month % 12);
  }

  /** Midnight of day `d` of the 0-based `month` of `year` is midnight of that day in the
      carried year `y` and month `m0`. */
  lemma CarriedMidnight(year: int, month: int, d: int, y: int, m0: int)
    requires y == MakeFullYear(year) + month / 12 && m0 == month % 12
    requires 1 <= d <= DaysInMonth(y, m0 + 1)
    ensures DateFromTime(LocalMidnight(year, month, d)) == d
    ensures MonthFromTime(LocalMidnight(year, month, d)) == m0
  {
    MakeDayCarry(MakeFullYear(year), month, y, m0, d);
    MakeDayInRange(y, m0, d);
    MidnightFields(LocalMidnight(year, month, d), Civil(y, m0 + 1, d));
  }

  /** `getYearsArray(start, end)`: the years from `start` to `end`, in order; empty when
      `end < start`. */
  function GetYearsArray(start: int, end: int): (years: seq<int>)
    ensures |years| == if end < start then 0 else end - start + 1
    ensures forall i :: 0 <= i < |years| ==> years[i] == start + i
    ensures forall y :: y in years <==> start <= y <= end
  {
    var n := if end < start then 0 else end - start + 1;
    var years := seq(n, i => start + i);
    forall y | start <= y <= end ensures y in years {
      assert years[y - start] == y;
    }
    years
  }
}
