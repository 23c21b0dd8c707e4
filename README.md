# A verified model of the date library's core

This project models the core of a TypeScript date library in Dafny and proves properties of
that model. Each module follows one part of the library:

- **`Tokens`**: the token engine that both pattern formatters share. A pattern is split on
  `[...]` spans. Bracketed pieces lose their brackets. Every other piece is scanned left to
  right by the alternation of the token table, in the table's key order, and each token is
  replaced by its rule's output, or by itself when that output is empty.
- **`Formatter`** and **`Datetime`**: the two token tables.
  - `createDatetimeFormatter` in `formatter.ts` and `createDateFormatter` in `Datetime.ts`.
  - `Datetime` also holds the time differences, `getDaysInMonth(year, month)`, `getDaysArray`
    and `getYearsArray` of `Datetime.ts`.
  - Whatever `Intl.DateTimeFormat` renders is an abstract `Host.Rendering`.
  - The tokens that read only the epoch milliseconds (`X`, `x`, `sss`) are modelled exactly.
- **`Parser`**: `createDatetimeParser`.
  - `buildRegex` compiles a format into fixed-width digit captures and literal characters, plus
    the order in which the groups were recorded.
  - The anchored match, the `forEach` that fills the parts, the zero defaults and the
    mandatory-field check follow the code.
  - Temporal's validation is modelled as its default `constrain` overflow.
  - The time zone is a parameter, and the UTC zone is given concretely.
- **`CalendarRanges`**: the UTC helpers of `calendarRanges.ts`. These are the `YYYY-MM-DD`
  validator, the `pad2`/`toDateUTC` printer, `shiftDateUTC`, and the year, month, week and
  day lists.
- **`DatetimeUtils`**: the local-calendar helpers of `DatetimeUtils.ts`.
  - Each start/end helper is a method that copies a `LocalDates.Date` and moves the copy with
    the same setters. It is proved equal to a function with its own calendar contract.
  - The same-week test, days in month, leap year, weekend, the ISO week number and the day of
    the year are included.
  - `Datetime.ts` repeats several of these with the same code and they are modelled once here:
    - `isLeapYear` at lines 138-140;
    - `getQuarter` at 334-336;
    - `startOfDay`…`endOfQuarter` at 284-352;
    - `getWeekNumber` at 439-449;
    - `isSameWeek` at 465-469;
    - `isWeekend` at 133-136.
- **`RelativeTime`**: `age` and the unit choice of `timeAgo`. They are also repeated in
  `Datetime.ts` at lines 379-394 and 396-416.
- **`Calendar`**: proleptic Gregorian arithmetic and the ECMAScript time-value functions
  (`MakeDay`, `MakeDate`, `Date.UTC`, the `get*` field readers). It has a days-from-civil /
  civil-from-days pair with round-trip proofs in both directions.
- **`LocalDates`**: a `Date` object whose local-time setters update its time value in place.
- **`Text`**: decimal printing and reading (`toString`, `padStart`, `parseInt`, `Number`),
  JavaScript's truncating `%`, and `split`.

## Model

| member | source | states |
|---|---|---|
| Tokens.FirstSpan | src/features/Datetime/formatter/formatter.ts:129 | finds a `[`…`]` span exactly when the text has one; the span found is the leftmost, with no `]` inside it |
| Tokens.SplitBracketsShape | src/features/Datetime/formatter/formatter.ts:129 | the pieces of the bracket split join back to the pattern, odd pieces are bracketed spans, even pieces hold no span |
| Tokens.SplitBrackets | src/features/Datetime/Datetime.ts:88 | the split of `/(\[[^\]]*\])/` always has an odd number of pieces (text, span, text, …) |
| Tokens.StripBrackets | src/features/Datetime/formatter/formatter.ts:144 | a bracketed piece loses exactly its first `[` and last `]`, and nothing else |
| Tokens.MatchAt | src/features/Datetime/formatter/formatter.ts:136 | the alternative chosen at a position is a key that matches there |
| Tokens.MatchAtFirst | src/features/Datetime/formatter/formatter.ts:136 | no key earlier in table order than the chosen one matches there, and no alternative is chosen only when no key matches |
| Tokens.MatchFrom | src/features/Datetime/formatter/formatter.ts:136 | the key chosen when searching from a given index on matches there |
| Tokens.MatchFromFirst | src/features/Datetime/formatter/formatter.ts:136 | the same first-match choice, searched from a given key index on: no key between the index and the chosen one matches |
| Tokens.MatchAtIs | src/features/Datetime/formatter/formatter.ts:136 | the first matching key in table order is the one chosen |
| Tokens.ScanSpells | src/features/Datetime/formatter/formatter.ts:138-141 | the global scan covers the text exactly: spelling its pieces gives the text back |
| Tokens.Scan | src/features/Datetime/formatter/formatter.ts:136-141 | the global regular-expression scan; stated by `Tokens.ScanSpells`, `Tokens.ScanPiece` and `Tokens.LongestMatch` |
| Tokens.ScanPiece | src/features/Datetime/formatter/formatter.ts:138-141 | each piece of the scan starts where the earlier pieces end, and is the first key matching there or a character no key starts |
| Tokens.LongestMatch | src/features/Datetime/formatter/formatter.ts:102-126 | when no key is preceded by a proper prefix of itself, the key chosen is the longest key matching at that position |
| Tokens.Substitute | src/features/Datetime/formatter/formatter.ts:140 | `formatsMap[match]() \|\| match`: the rule's output when it is non-empty, else the key itself |
| Tokens.Replace | src/features/Datetime/formatter/formatter.ts:138-141 | `String.prototype.replace` with a global pattern; stated by `Tokens.ReplaceKeyless`, `Tokens.ReplaceKeyFirst` and `Tokens.ReplaceCharFirst` |
| Tokens.ReplaceKeyless | src/features/Datetime/formatter/formatter.ts:138-141 | text where no key matches at any position is its own replacement |
| Tokens.ReplaceKeyFirst | src/features/Datetime/formatter/formatter.ts:138-141 | a key matched at the front is substituted, then the rest is replaced |
| Tokens.ReplaceCharFirst | src/features/Datetime/formatter/formatter.ts:138-141 | a character that starts no key is copied, then the rest is replaced |
| Tokens.ProcessPieces | src/features/Datetime/formatter/formatter.ts:132-146 | the `map` over segments yields one output per segment |
| Tokens.FormatPattern | src/features/Datetime/formatter/formatter.ts:129-148 | split on bracket spans, process, join; stated by `Tokens.FormatWithoutBrackets`, `Tokens.FormatTwoThen`, `Tokens.FormatLiteral` and `Tokens.FormatKeyFirst` |
| Tokens.ProcessShift | src/features/Datetime/formatter/formatter.ts:133 | the processing of a segment depends only on the parity of its index |
| Tokens.FormatWithoutBrackets | src/features/Datetime/formatter/formatter.ts:129-148 | a pattern without a bracket span formats to the replacement of the whole pattern |
| Tokens.FormatTwoThen | src/features/Datetime/formatter/formatter.ts:132-148 | the joined output is the replaced text piece, the stripped bracket piece, then the rest, in order |
| Tokens.FormatLiteral | src/features/Datetime/formatter/formatter.ts:129-148 | text inside a bracket span is emitted verbatim without its brackets, whatever keys it holds |
| Tokens.FormatKeyFirst | src/features/Datetime/formatter/formatter.ts:136-141 | a pattern starting with a key that no earlier key matches outputs that key's substitution, then the formatted rest |
| Tokens.SplitAtLiteral | src/features/Datetime/formatter/formatter.ts:129 | text without `[`, a bracketed literal and a rest split into the text, the span, and the split of the rest |
| Host.MillisecondsText | src/features/Datetime/formatter/formatter.ts:69-71 | `sss` is three digits whose value is the epoch milliseconds modulo 1000 |
| Host.Milliseconds | src/features/Datetime/formatter/formatter.ts:69-71 | the `sss` text; stated by `Host.MillisecondsText` |
| Host.Timestamp | src/features/Datetime/formatter/formatter.ts:89-91 | the `X` text; `Host.TimestampsReadBack` reads it back as the whole seconds |
| Host.TimestampMs | src/features/Datetime/formatter/formatter.ts:93-95 | the `x` text; `Host.TimestampsReadBack` reads it back as the instant |
| Host.ToTimestamp | src/features/Datetime/formatter/formatter.ts:156-158 | `toTimestamp` is the whole seconds rounded down: `r*1000 <= t < r*1000 + 1000` |
| Host.TimestampsReadBack | src/features/Datetime/formatter/formatter.ts:89-95 | `Number` reads the `X` text back as `floor(t/1000)` and the `x` text back as `t` |
| Host.Hour12Text | src/features/Datetime/formatter/formatter.ts:59-63 | `hh` is the 12-hour rendering up to its first space: no space inside it, and a prefix of the rendering |
| Host.Hour24Text | src/features/Datetime/formatter/formatter.ts:51-57 | `getHour24` rewrites exactly `"24"` to `"00"` and returns every other rendering unchanged |
| Host.Meridiem | src/features/Datetime/formatter/formatter.ts:77-83 | `A` is `"AM"` if and only if the 12-hour rendering contains `AM`, otherwise `"PM"` |
| Host.MeridiemLower | src/features/Datetime/formatter/formatter.ts:85-87 | `a` is `"am"` if and only if the 12-hour rendering contains `AM`, otherwise `"pm"` |
| Host.LowerAscii | src/features/Datetime/formatter/formatter.ts:86 | `toLowerCase` on ASCII: same length, upper-case letters lowered, every other character kept |
| Formatter.KeysWellOrdered | src/features/Datetime/formatter/formatter.ts:102-126 | the table's keys are non-empty and none is preceded by a proper prefix of itself, so the first match is the longest |
| Formatter.TokenValue | src/features/Datetime/formatter/formatter.ts:102-126 | the `formatsMap` entry of a key; each entry's text is stated by the `Formatter.*Token` lemmas |
| Formatter.Rule | src/features/Datetime/formatter/formatter.ts:140 | the lookup `formatsMap[match]()` handed to the replacement; `Tokens.Substitute` states the fallback to the match when it is empty |
| Formatter.Format | src/features/Datetime/formatter/formatter.ts:101-151 | the formatter's pattern walk; its behaviour is stated by `Formatter.FormatEmpty`, `Formatter.FormatBracketed`, `Formatter.SeparatorsPassThrough` and the token lemmas |
| Formatter.FormatEmpty | src/features/Datetime/formatter/formatter.ts:129-150 | the empty pattern formats to the empty string |
| Formatter.FormatBracketed | src/features/Datetime/formatter/formatter.ts:129-148 | a bracketed literal is copied without brackets, whatever token letters it holds, and each side is formatted on its own |
| Formatter.SeparatorsPassThrough | src/features/Datetime/formatter/formatter.ts:136-141 | characters that start no key and open no bracket are copied unchanged and in order |
| Formatter.FullYearToken | src/features/Datetime/formatter/formatter.ts:105 | `YYYY` is consumed whole as the numeric year, falling back to the key itself when the rendering is empty |
| Formatter.LongMonthToken | src/features/Datetime/formatter/formatter.ts:107-109 | `MMMM` is consumed whole as the long month name, not as `MMM` or `MM` followed by letters |
| Formatter.MillisecondToken | src/features/Datetime/formatter/formatter.ts:117-118 | `sss` is consumed whole as the padded millisecond (value `t % 1000`), not as `ss` then `s` |
| Formatter.SecondsToken | src/features/Datetime/formatter/formatter.ts:122 | `X` prints text that `Number` reads as `floor(t/1000)`; it reads no host rendering, so it is the same in every zone |
| Formatter.MillisecondsSinceEpochToken | src/features/Datetime/formatter/formatter.ts:123 | `x` prints text that `Number` reads as `t`, the same in every zone |
| Formatter.SecondsValue | src/features/Datetime/formatter/formatter.ts:122 | the table entry of `X` is the seconds timestamp |
| Formatter.MillisecondsSinceEpochValue | src/features/Datetime/formatter/formatter.ts:123 | the table entry of `x` is the millisecond timestamp |
| Formatter.MillisecondValue | src/features/Datetime/formatter/formatter.ts:117 | the table entry of `sss` is the padded millisecond |
| Datetime.KeysWellOrdered | src/features/Datetime/Datetime.ts:52-85 | this table's keys are non-empty and none is preceded by a proper prefix of itself |
| Datetime.TokenValue | src/features/Datetime/Datetime.ts:52-85 | the `formatsMap` entry of a key; each entry's text is stated by the `Datetime.*Token` lemmas |
| Datetime.Rule | src/features/Datetime/Datetime.ts:99 | the lookup `formatsMap[match]()` handed to the replacement; `Tokens.Substitute` states the fallback to the match when it is empty |
| Datetime.Format | src/features/Datetime/Datetime.ts:86-110 | the pattern walk over `formatsMap`; bracket, separator and token behaviour are stated by `Datetime.FormatBracketed`, `Datetime.SeparatorsPassThrough` and the token lemmas |
| Datetime.Hour24TwoDigitsText | src/features/Datetime/Datetime.ts:25-50 | with a numeric `hour` part, `HH` is two digits whose value is that hour mod 24; without one, it is the fallback rendering |
| Datetime.Hour24TwoDigits | src/features/Datetime/Datetime.ts:25-50 | the `HH` text from the host's parts; its two-digit shape and value are stated by `Datetime.Hour24TwoDigitsText` |
| Datetime.HourOfDay | src/features/Datetime/Datetime.ts:38 | `String(num % 24).padStart(2, '0')` of a non-negative hour is two digits with value `num % 24` |
| Datetime.DigitsParse | src/features/Datetime/Datetime.ts:35 | `parseInt` reads a non-empty digit string as its decimal value |
| Datetime.FormatBracketed | src/features/Datetime/Datetime.ts:88-107 | a bracketed literal is copied without brackets, whatever token letters it holds |
| Datetime.SeparatorsPassThrough | src/features/Datetime/Datetime.ts:95-100 | characters that start no key and open no bracket are copied unchanged and in order |
| Datetime.FullYearToken | src/features/Datetime/Datetime.ts:55 | `YYYY` is consumed whole (not as two `YY`) as the numeric year, falling back to the key itself when the rendering is empty |
| Datetime.LongMonthToken | src/features/Datetime/Datetime.ts:60-62 | `MMMM` is consumed whole as the long month name |
| Datetime.HourToken | src/features/Datetime/Datetime.ts:64 | when the host's `hour` part is numeric, `HH` is consumed whole and replaced by two digits with a value below 24 |
| Datetime.MillisecondToken | src/features/Datetime/Datetime.ts:68-71 | `sss` is the padded millisecond `t % 1000`, not `ss` then `s` |
| Datetime.SecondsToken | src/features/Datetime/Datetime.ts:81 | `X` prints text that `Number` reads as `floor(t/1000)` |
| Datetime.MillisecondsSinceEpochToken | src/features/Datetime/Datetime.ts:82 | `x` prints text that `Number` reads as `t` |
| Datetime.HourValue | src/features/Datetime/Datetime.ts:64 | the table entry of `HH` is `getHour24TwoDigits` |
| Datetime.MillisecondValue | src/features/Datetime/Datetime.ts:68-70 | the table entry of `sss` is the padded millisecond |
| Datetime.SecondsValue | src/features/Datetime/Datetime.ts:81 | the table entry of `X` is the seconds timestamp |
| Datetime.MillisecondsSinceEpochValue | src/features/Datetime/Datetime.ts:82 | the table entry of `x` is the millisecond timestamp |
| Datetime.Difference | src/features/Datetime/Datetime.ts:128-131 | `Math.ceil(Math.abs(t2 - t1) / unit)`: the least `r` with `\|t2 - t1\| <= r*unit`, never negative |
| Datetime.DifferenceInDays | src/features/Datetime/Datetime.ts:128-131 | `Difference` with the day length; its bounds and laws are `Datetime.Difference` and `Datetime.DifferenceLaws` |
| Datetime.DifferenceInHours | src/features/Datetime/Datetime.ts:354-357 | `Difference` with the hour length |
| Datetime.DifferenceInMinutes | src/features/Datetime/Datetime.ts:359-362 | `Difference` with the minute length |
| Datetime.DifferenceInSeconds | src/features/Datetime/Datetime.ts:364-367 | `Difference` with the second length |
| Datetime.DifferenceLaws | src/features/Datetime/Datetime.ts:354-367 | the differences are symmetric, zero exactly for equal instants, and exact on whole multiples of the unit |
| Datetime.DifferenceInMonths | src/features/Datetime/Datetime.ts:369-373 | stepping the result number of months on from `date1`'s month (carried as `new Date(y, m + n, 1)` carries) lands in `date2`'s year and month |
| Datetime.LandsInMonth | src/features/Datetime/Datetime.ts:369-373 | `n` months on from a date's month is the year and month that `12 * year + month` counts from year 0, whatever the carry |
| Datetime.DifferenceInMonthsUnique | src/features/Datetime/Datetime.ts:369-373 | a month count lands in `date2`'s month if and only if it equals the month difference |
| Datetime.DifferenceInYears | src/features/Datetime/Datetime.ts:375-377 | the first of January the result number of years after `date1`'s year falls in `date2`'s year |
| Datetime.DifferenceInYearsUnique | src/features/Datetime/Datetime.ts:375-377 | no other year count lands in `date2`'s year; with the function's own ensures, the count lands there if and only if it is the year difference |
| Datetime.Abs | src/features/Datetime/Datetime.ts:129 | `Math.abs`: non-negative, and `x` or `-x` |
| Datetime.DaysInMonthOfLength | src/features/Datetime/Datetime.ts:146-148 | day 0 of the next month is the length of the month after carrying; for an in-range month of a year ≥ 1 it is that month's length |
| Datetime.DaysInMonthOf | src/features/Datetime/Datetime.ts:146-148 | `new Date(year, month + 1, 0).getDate()`; its value is stated by `Datetime.DaysInMonthOfLength` |
| Datetime.GetDaysArray | src/features/Datetime/Datetime.ts:209-216 | one fresh date per day of the month, entry `i` at local midnight of day `i+1`, consecutive entries one day apart |
| Datetime.DayOfMonth | src/features/Datetime/Datetime.ts:213 | entry `d` of the month reads back as day `d` of that month |
| Datetime.GetYearsArray | src/features/Datetime/Datetime.ts:250-252 | the years `start..end` in order: length `end-start+1` (empty if `end < start`), and `y` is listed iff `start <= y <= end` |
| LocalDates.Date.GetMonth | src/features/Datetime/DatetimeUtils.ts:67 | `getMonth` is in 0..11 |
| LocalDates.Date.GetDate | src/features/Datetime/DatetimeUtils.ts:113 | `getDate` is in 1..31 |
| LocalDates.Date.GetDay | src/features/Datetime/DatetimeUtils.ts:39 | `getDay` is in 0..6 |
| LocalDates.Date.SetHours | src/features/Datetime/DatetimeUtils.ts:25 | `setHours` keeps the day and sets the time of day (with carry) |
| LocalDates.Date.SetDate | src/features/Datetime/DatetimeUtils.ts:41 | `setDate(d)` moves to day `d` of the current month, keeping the time of day |
| LocalDates.Date.SetMonth | src/features/Datetime/DatetimeUtils.ts:67 | `setMonth(m, d)` moves to day `d` of month `m` of the current year, keeping the time of day |
| LocalDates.Date.FromFields | src/features/Datetime/DatetimeUtils.ts:109 | `new Date(y, m, d)` is local midnight of `MakeDay`, with two-digit years read as 1900..1999 |
| DatetimeUtils.StartOfDayTime | src/features/Datetime/DatetimeUtils.ts:23-27 | same day, at 00:00:00.000, not after the input and less than a day before it |
| DatetimeUtils.EndOfDayTime | src/features/Datetime/DatetimeUtils.ts:29-33 | same day at 23:59:59.999, not before the input |
| DatetimeUtils.StartOfDay | src/features/Datetime/DatetimeUtils.ts:23-27 | the setter chain returns a fresh date at `StartOfDayTime` |
| DatetimeUtils.EndOfDay | src/features/Datetime/DatetimeUtils.ts:29-33 | the setter chain returns a fresh date at `EndOfDayTime` |
| DatetimeUtils.WeekOffset | src/features/Datetime/DatetimeUtils.ts:40 | `(day < s ? 7 : 0) + day - s` is in 0..6 and steps back to weekday `s` |
| DatetimeUtils.StartOfWeekTime | src/features/Datetime/DatetimeUtils.ts:37-43 | weekday `s`, at midnight, not after the input and less than 7 days before it |
| DatetimeUtils.StartOfWeekSteps | src/features/Datetime/DatetimeUtils.ts:38-42 | `setDate(getDate() - diff)` then `startOfDay` computes `StartOfWeekTime` |
| DatetimeUtils.StartOfWeek | src/features/Datetime/DatetimeUtils.ts:37-43 | the method returns a fresh date at `StartOfWeekTime` |
| DatetimeUtils.EndOfWeekTime | src/features/Datetime/DatetimeUtils.ts:45-49 | the start of week plus 7 days minus 1 ms (23:59:59.999 of the sixth day after), weekday `s+6`, not before the input |
| DatetimeUtils.EndOfWeekSteps | src/features/Datetime/DatetimeUtils.ts:46-48 | `startOfWeek`, `setDate(+6)`, `endOfDay` computes `EndOfWeekTime` |
| DatetimeUtils.EndOfWeek | src/features/Datetime/DatetimeUtils.ts:45-49 | the method returns a fresh date at `EndOfWeekTime` |
| DatetimeUtils.IsSameWeek | src/features/Datetime/DatetimeUtils.ts:51-55 | true iff the Monday-based starts of week are equal |
| DatetimeUtils.SameWeek | src/features/Datetime/DatetimeUtils.ts:51-55 | equal Monday-based week starts; `DatetimeUtils.SameWeekIndex` states it as equal week indices |
| DatetimeUtils.MondayStart | src/features/Datetime/DatetimeUtils.ts:37-43 | the Monday-based start of week is day `7*((day+3)/7) - 3` |
| DatetimeUtils.SameWeekIndex | src/features/Datetime/DatetimeUtils.ts:51-55 | two dates share a week iff their Monday-based week indices agree |
| DatetimeUtils.SundayEndsTheWeek | src/features/Datetime/DatetimeUtils.ts:51-55 | a Sunday is in the week of the Monday six days before, and not in the week of the next day |
| DatetimeUtils.StartOfMonthTime | src/features/Datetime/DatetimeUtils.ts:59-63 | the 1st of the same month at midnight, not after the input |
| DatetimeUtils.StartOfMonthSteps | src/features/Datetime/DatetimeUtils.ts:60-62 | `setDate(1)` then `startOfDay` computes `StartOfMonthTime` |
| DatetimeUtils.StartOfMonth | src/features/Datetime/DatetimeUtils.ts:59-63 | the method returns a fresh date at `StartOfMonthTime` |
| DatetimeUtils.EndOfMonthTime | src/features/Datetime/DatetimeUtils.ts:65-69 | the last day of the same month at 23:59:59.999, not before the input |
| DatetimeUtils.EndOfMonthSteps | src/features/Datetime/DatetimeUtils.ts:66-68 | `setMonth(m + 1, 0)` then `endOfDay` computes `EndOfMonthTime` |
| DatetimeUtils.EndOfMonth | src/features/Datetime/DatetimeUtils.ts:65-69 | the method returns a fresh date at `EndOfMonthTime` |
| DatetimeUtils.GetQuarter | src/features/Datetime/DatetimeUtils.ts:78-80 | the quarter is in 1..4 and the month lies in `3(q-1) .. 3q-1` |
| DatetimeUtils.StartOfQuarterTime | src/features/Datetime/DatetimeUtils.ts:82-88 | the 1st of month `3(q-1)` of the same year at midnight, not after the input |
| DatetimeUtils.StartOfQuarterSteps | src/features/Datetime/DatetimeUtils.ts:83-87 | `setMonth((q-1)*3, 1)` then `startOfDay` computes `StartOfQuarterTime` |
| DatetimeUtils.StartOfQuarter | src/features/Datetime/DatetimeUtils.ts:82-88 | the method returns a fresh date at `StartOfQuarterTime` |
| DatetimeUtils.EndOfQuarterTime | src/features/Datetime/DatetimeUtils.ts:90-96 | the last day of month `3q-1` of the same year at 23:59:59.999, not before the input |
| DatetimeUtils.EndOfQuarterSteps | src/features/Datetime/DatetimeUtils.ts:91-95 | `setMonth(q*3 - 1 + 1, 0)` then `endOfDay` computes `EndOfQuarterTime` |
| DatetimeUtils.EndOfQuarter | src/features/Datetime/DatetimeUtils.ts:90-96 | the method returns a fresh date at `EndOfQuarterTime` |
| DatetimeUtils.FirstOfEarlierMonth | src/features/Datetime/DatetimeUtils.ts:86 | the first of an earlier or equal month of the year is not after the date |
| DatetimeUtils.LastOfLaterMonth | src/features/Datetime/DatetimeUtils.ts:94 | the last day of a later or equal month of the year is not before the date |
| DatetimeUtils.StartOfYearTime | src/features/Datetime/DatetimeUtils.ts:130-134 | 1 January of the same year at midnight, not after the input |
| DatetimeUtils.StartOfYearSteps | src/features/Datetime/DatetimeUtils.ts:131-133 | `setMonth(0, 1)` then `startOfDay` computes `StartOfYearTime` |
| DatetimeUtils.StartOfYear | src/features/Datetime/DatetimeUtils.ts:130-134 | the method returns a fresh date at `StartOfYearTime` |
| DatetimeUtils.EndOfYearTime | src/features/Datetime/DatetimeUtils.ts:136-140 | 31 December of the same year at 23:59:59.999, not before the input |
| DatetimeUtils.EndOfYearSteps | src/features/Datetime/DatetimeUtils.ts:137-139 | `setMonth(11, 31)` then `endOfDay` computes `EndOfYearTime` |
| DatetimeUtils.EndOfYear | src/features/Datetime/DatetimeUtils.ts:136-140 | the method returns a fresh date at `EndOfYearTime` |
| DatetimeUtils.TwoDigitYearMonths | src/features/Datetime/DatetimeUtils.ts:109 | reading years 1..99 as 1900..1999 does not change any month's length |
| DatetimeUtils.GetDaysInMonth | src/features/Datetime/DatetimeUtils.ts:106-110 | day 0 of the next month is the month's length (after the two-digit-year mapping; the plain length outside year 0) |
| DatetimeUtils.IsLastDayOfMonth | src/features/Datetime/DatetimeUtils.ts:112-114 | outside year 0, true iff the date equals the month's length |
| DatetimeUtils.LastDayIffNextIsFirst | src/features/Datetime/DatetimeUtils.ts:112-114 | outside year 0, the last day of a month is exactly the day whose next day is a 1st |
| DatetimeUtils.IsLeapYear | src/features/Datetime/DatetimeUtils.ts:146-148 | with JavaScript's truncating `%`, true iff 4 divides the year and (100 does not or 400 does), for negative years too |
| DatetimeUtils.IsWeekend | src/features/Datetime/DatetimeUtils.ts:229-232 | Saturday or Sunday: the last two days of the Monday-based week |
| DatetimeUtils.IsWeekday | src/features/Datetime/DatetimeUtils.ts:234-236 | the negation of `isWeekend`: weekday 1..5, the first five days of the week |
| DatetimeUtils.WeekThursday | src/features/Datetime/DatetimeUtils.ts:242-243 | the Thursday of the Monday-based week, within 3 days of the date |
| DatetimeUtils.FirstThursday | src/features/Datetime/DatetimeUtils.ts:245-248 | a Thursday within the first 7 days of the year |
| DatetimeUtils.ThursdayGap | src/features/Datetime/DatetimeUtils.ts:249 | two Thursdays of one year are a whole number of weeks apart, at most 52 |
| DatetimeUtils.IsoWeekNumber | src/features/Datetime/DatetimeUtils.ts:240-250 | the ISO 8601 week number: in 1..53, and the week's Thursday is `w-1` weeks after the first Thursday of its own year |
| DatetimeUtils.ThursdayTime | src/features/Datetime/DatetimeUtils.ts:243 | `setDate(getDate() - dayNr + 3)` lands on the week's Thursday, keeping the time of day |
| DatetimeUtils.FirstThursdayTime | src/features/Datetime/DatetimeUtils.ts:245-248 | the `setMonth` chain lands on the first Thursday of the year, keeping the time of day |
| DatetimeUtils.WeekNumberSteps | src/features/Datetime/DatetimeUtils.ts:240-250 | `1 + ceil((firstThursday - target) / 604800000)` is the ISO week number |
| DatetimeUtils.MoveToWeekThursday | src/features/Datetime/DatetimeUtils.ts:241-243 | the date is moved in place to the Thursday of its week |
| DatetimeUtils.MoveToFirstThursday | src/features/Datetime/DatetimeUtils.ts:245-248 | the date is moved in place to the first Thursday of its year |
| DatetimeUtils.GetWeekNumberOfYear | src/features/Datetime/DatetimeUtils.ts:240-250 | the method returns the ISO 8601 week number |
| DatetimeUtils.GetDayNumberOfYear | src/features/Datetime/DatetimeUtils.ts:260-264 | outside years 0..99, the day's ordinal in its year, in `1..DaysInYear` |
| DatetimeUtils.DayNumberOfNinthJuly2023 | src/features/Datetime/DatetimeUtils.ts:260-264 | 9 July 2023 is day 190 of its year |
| Parser.EntryOf | src/features/Datetime/parser/parser.ts:48-56 | `formatsMap[match]` is defined exactly for the seven keys |
| Parser.BuildRegex | src/features/Datetime/parser/parser.ts:44-69 | the loop over the scan builds exactly the compiled pattern and the `groupOrder` |
| Parser.Compile | src/features/Datetime/parser/parser.ts:57-68 | the atoms of the pattern `buildRegex` builds; stated by `Parser.BuildRegex` and `Parser.DateFormatCompiles` |
| Parser.Groups | src/features/Datetime/parser/parser.ts:59-66 | the `groupOrder` `buildRegex` builds; stated by `Parser.CompiledGroups` and `Parser.GroupsMatchWidths` |
| Parser.CompiledGroups | src/features/Datetime/parser/parser.ts:59-66 | capture `k` of the pattern has the width of the field recorded `k`-th in `groupOrder`, and they are equally many |
| Parser.GroupsMatchWidths | src/features/Datetime/parser/parser.ts:59-66 | the same pairing, for any sequence of scanned pieces |
| Parser.LiteralsOfText | src/features/Datetime/parser/parser.ts:63 | a non-key match is copied into the pattern one literal per character |
| Parser.NoMillisecondToken | src/features/Datetime/parser/parser.ts:48-57 | the scan never yields the key `sss` |
| Parser.NoMillisecondGroup | src/features/Datetime/parser/parser.ts:48-57 | no format ever records a millisecond group |
| Parser.SecondsFirst | src/features/Datetime/parser/parser.ts:54-57 | where `sss` starts, the alternation picks `ss` |
| Parser.ScanSss | src/features/Datetime/parser/parser.ts:57-61 | `sss` is scanned as the key `ss` then the character `s` |
| Parser.SssIsSecondsThenS | src/features/Datetime/parser/parser.ts:54-66 | `sss` in a format compiles to a 2-digit seconds capture followed by a literal `s` |
| Parser.Match | src/features/Datetime/parser/parser.ts:68-77 | a match of `^pattern$` yields captures that fit the pattern and render back to the whole input |
| Parser.MatchComplete | src/features/Datetime/parser/parser.ts:68-77 | every text the pattern renders to is matched with exactly those captures |
| Parser.FilledFields | src/features/Datetime/parser/parser.ts:84-87 | the filled parts have a value exactly for the recorded fields |
| Parser.Filled | src/features/Datetime/parser/parser.ts:84-87 | `parts` after the `forEach`; stated by `Parser.FilledFields` and `Parser.LastCaptureWins` |
| Parser.LastCaptureWins | src/features/Datetime/parser/parser.ts:84-87 | a field recorded several times takes `parseInt` of its last capture |
| Parser.FillParts | src/features/Datetime/parser/parser.ts:84-87 | the `forEach` loop computes `Filled` |
| Parser.OrZero | src/features/Datetime/parser/parser.ts:93-96 | an absent time field defaults to 0 |
| Parser.ApplyDefaults | src/features/Datetime/parser/parser.ts:89-101 | throws the mandatory-fields message iff year, month or day is absent or zero; otherwise carries them and defaults the time fields to 0 |
| Parser.Clamp | src/features/Datetime/parser/parser.ts:37-38 | Temporal's clamping: the result is in range, and an in-range value is kept |
| Parser.Constrain | src/features/Datetime/parser/parser.ts:37-38 | constrained parts are a real date and time, and already-valid parts are unchanged |
| Parser.AssertValidDatetime | src/features/Datetime/parser/parser.ts:34-42 | throws the nonexistent-date message iff month or day is below 1 or the constrained date is outside Temporal's range |
| Parser.FourDigitYearsInRange | src/features/Datetime/parser/parser.ts:34-42 | parts with a year 1..9999 and a positive month and day pass the check |
| Parser.NewDate | src/features/Datetime/parser/parser.ts:120-137 | `new Date(v)` is a time value iff `v` is within ±8.64e15, and then equals it |
| Parser.UtcInstant | src/features/Datetime/parser/parser.ts:115-120 | in UTC a valid wall-clock time resolves to its days-from-civil day at its time of day |
| Parser.UtcDate | src/features/Datetime/parser/parser.ts:115-120 | in UTC the instant has exactly the parsed year, month and day |
| Parser.UtcTime | src/features/Datetime/parser/parser.ts:115-120 | in UTC the instant has exactly the parsed hour, minute, second and millisecond |
| Parser.MismatchMessage | src/features/Datetime/parser/parser.ts:79-81 | the mismatch message contains both the input and the format |
| Parser.CapturesFitGroups | src/features/Datetime/parser/parser.ts:84-87 | a match has one non-empty digit capture per recorded group |
| Parser.ParseWithFormat | src/features/Datetime/parser/parser.ts:71-121 | the method returns what `parseWithFormat` returns or throws |
| Parser.ParsedWithFormat | src/features/Datetime/parser/parser.ts:71-121 | what `parseWithFormat` returns or throws; the method `Parser.ParseWithFormat` is proved equal to it, and `Parser.DateTextParsed` states its result on a date text |
| Parser.Parse | src/features/Datetime/parser/parser.ts:123-141 | the method returns what the parser returns or throws, `X` and `x` included |
| Parser.Parsed | src/features/Datetime/parser/parser.ts:123-141 | the parser's three paths; the method `Parser.Parse` is proved equal to it, and `Parser.SecondsRoundTrip` and `Parser.MillisecondsRoundTrip` state the timestamp paths |
| Parser.MismatchNamesBoth | src/features/Datetime/parser/parser.ts:76-82 | a format other than `X`/`x` that does not match throws an error naming the input and the format |
| Parser.MandatoryFields | src/features/Datetime/parser/parser.ts:99-101 | a match without a non-zero year, month and day throws `Year, Month and Day mandatory`, before any calendar check |
| Parser.SecondsRoundTrip | src/features/Datetime/parser/parser.ts:128-132 | parsing the formatter's `X` output with `X` gives `floor(t/1000)*1000` |
| Parser.MillisecondsRoundTrip | src/features/Datetime/parser/parser.ts:134-138 | parsing the formatter's `x` output with `x` gives `t` |
| Parser.CompileKey | src/features/Datetime/parser/parser.ts:61-66 | a key matched first contributes its capture and group, then the rest is compiled |
| Parser.CompileChar | src/features/Datetime/parser/parser.ts:61-63 | a character that starts no key contributes a literal and no group |
| Parser.CompileDateKey | src/features/Datetime/parser/parser.ts:49-51 | `YYYY` compiles to a 4-digit year capture, `MM` and `DD` to 2-digit month and day captures |
| Parser.CompileSeparator | src/features/Datetime/parser/parser.ts:61-63 | a separator character is copied as a literal |
| Parser.DateFormatCompiles | src/features/Datetime/parser/parser.ts:44-69 | `YYYY-MM-DD` (any separator) compiles to year, sep, month, sep, day, with groups `[year, month, day]` |
| Parser.PaddedDigits | src/features/Datetime/parser/parser.test.ts:7 | a zero-padded number has its width, only digits, and its value |
| Parser.DateTextMatches | src/features/Datetime/parser/parser.ts:68-77 | a written date matches its date format, capturing year, month and day digits |
| Parser.FilledDate | src/features/Datetime/parser/parser.ts:84-87 | the three captures fill year, month and day |
| Parser.DefaultsOfDate | src/features/Datetime/parser/parser.ts:84-101 | non-zero year, month and day captures fill those fields, pass the mandatory check and leave the time fields at 0 |
| Parser.ParsedDate | src/features/Datetime/parser/parser.ts:75-120 | a text matching a year-month-day format with a valid four-digit date resolves those fields at midnight through the zone |
| Parser.DateTextParsed | src/features/Datetime/parser/parser.ts:75-120 | a date written with its date format parses to that date at midnight in the zone |
| Parser.FourDigitYearsAreTimeValues | src/features/Datetime/parser/parser.ts:120 | every date of years 1..9999 at midnight is a valid time value |
| Parser.ParsedFields | src/features/Datetime/parser/parser.ts:113-120 | a matched input whose fields pass the checks returns the zone's instant for the constrained fields |
| Parser.ParseDateUtc | src/features/Datetime/parser/parser.test.ts:6-13 | parsing a written date with its date format in UTC gives midnight of that date, whose year, month and day read back |
| CalendarRanges.Pad2Digits | src/features/Datetime/calendarRanges/calendarRanges.ts:7 | `pad2` of 0..99 is two digits with value `n` |
| CalendarRanges.Pad2 | src/features/Datetime/calendarRanges/calendarRanges.ts:7 | `pad2`; stated by `CalendarRanges.Pad2Digits` |
| CalendarRanges.ToDateUtc | src/features/Datetime/calendarRanges/calendarRanges.ts:8-9 | `toDateUTC`; `CalendarRanges.ToDateUtcRoundTrip` reads its text back as the same parts |
| CalendarRanges.SplitShape | src/features/Datetime/calendarRanges/calendarRanges.ts:18 | `split('-')` of a `dddd-dd-dd` string gives its three digit fields |
| CalendarRanges.ShapeNumbers | src/features/Datetime/calendarRanges/calendarRanges.ts:18 | `map(Number)` reads the three fields as their decimal values |
| CalendarRanges.AssertValidDateUtc | src/features/Datetime/calendarRanges/calendarRanges.ts:12-34 | not `dddd-dd-dd`: the invalid-format error; a shaped string is either rejected as nonexistent or returns a real date with the written year, month − 1 and day |
| CalendarRanges.AcceptsRealDates | src/features/Datetime/calendarRanges/calendarRanges.ts:18-31 | for years ≥ 100, accepted iff 1 ≤ month ≤ 12 and 1 ≤ day ≤ the month's length |
| CalendarRanges.RejectsCenturyZero | src/features/Datetime/calendarRanges/calendarRanges.ts:24-31 | years 0000..0099 are always rejected as nonexistent, because `Date.UTC` reads them as 1900..1999 |
| CalendarRanges.AcceptedYears | src/features/Datetime/calendarRanges/calendarRanges.ts:24-31 | an accepted date has a year in 100..9999 |
| CalendarRanges.ToDateUtcRoundTrip | src/features/Datetime/calendarRanges/calendarRanges.ts:8-34 | `assertValidDateUTC(toDateUTC(p)) == p` for every real date of years 1000..9999 |
| CalendarRanges.TruncTowardZero | src/features/Datetime/calendarRanges/calendarRanges.ts:45 | `Math.trunc` rounds toward zero; a non-finite delta is 0 |
| CalendarRanges.TruncWhole | src/features/Datetime/calendarRanges/calendarRanges.ts:45 | a whole delta is kept |
| CalendarRanges.UtcParts | src/features/Datetime/calendarRanges/calendarRanges.ts:61-65 | the `getUTC*` fields of a time value name a real date with that day number |
| CalendarRanges.DayOfDateUtc | src/features/Datetime/calendarRanges/calendarRanges.ts:57-59 | `Date.UTC(y, m, d)` falls on day `MakeDay(MakeFullYear(y), m, d)` |
| CalendarRanges.DayOfShiftTarget | src/features/Datetime/calendarRanges/calendarRanges.ts:47-59 | the shifted `Date.UTC` call falls on the shifted day |
| CalendarRanges.ShiftTarget | src/features/Datetime/calendarRanges/calendarRanges.ts:47-59 | the `Date.UTC` time value of the shifted fields; stated by `CalendarRanges.DayOfShiftTarget` |
| CalendarRanges.ShiftedDay | src/features/Datetime/calendarRanges/calendarRanges.ts:57-59 | the day number of the shifted fields; stated by `CalendarRanges.ShiftByDays`, `CalendarRanges.ShiftByMonths` and `CalendarRanges.ShiftByYears` |
| CalendarRanges.ShiftDateUtc | src/features/Datetime/calendarRanges/calendarRanges.ts:37-66 | the result is always a real date, on the day `Date.UTC` normalises the shifted fields to |
| CalendarRanges.DayNumberOfReal | src/features/Datetime/calendarRanges/calendarRanges.ts:24 | a real date's day number is its days-from-civil |
| CalendarRanges.SameDayNumber | src/features/Datetime/calendarRanges/calendarRanges.ts:61-65 | two real dates with the same day number are equal |
| CalendarRanges.ShiftByDays | src/features/Datetime/calendarRanges/calendarRanges.ts:50-59 | a `DD` shift by `n` moves exactly `n` days |
| CalendarRanges.ShiftByZero | src/features/Datetime/calendarRanges/calendarRanges.ts:45-65 | a delta truncating to 0 leaves a real date unchanged |
| CalendarRanges.OverflowedIsReal | src/features/Datetime/calendarRanges/calendarRanges.ts:57-59 | an overflowing day rolls into the next month as a real date with `MakeDay`'s day number |
| Calendar.MakeDayCarry | src/features/Datetime/calendarRanges/calendarRanges.ts:58 | `MakeDay` carries whole years out of the month argument |
| CalendarRanges.OverflowLanding | src/features/Datetime/calendarRanges/calendarRanges.ts:61-65 | the real date on `MakeDay(y, m, d)` is the overflowed date |
| CalendarRanges.ShiftedMonthDay | src/features/Datetime/calendarRanges/calendarRanges.ts:49-59 | an `MM` shift lands on day `p.day` of the shifted month, after carrying |
| CalendarRanges.ShiftByMonths | src/features/Datetime/calendarRanges/calendarRanges.ts:49-65 | an `MM` shift keeps the day when it fits and rolls an overflowing day into the next month |
| CalendarRanges.ShiftByYears | src/features/Datetime/calendarRanges/calendarRanges.ts:48-65 | a `YYYY` shift lands on the same month and day of year `MakeFullYear(YYYY + n)`, an overflowing 29 February rolling into 1 March |
| CalendarRanges.YearsArrayEntriesAreNotDates | src/features/Datetime/calendarRanges/calendarRanges.ts:79-82 | every entry is `start + i`, and `assertValidDateUTC` rejects each of them |
| CalendarRanges.GetYearsArray | src/features/Datetime/calendarRanges/calendarRanges.ts:70-83 | `getYearsArray` as written; `CalendarRanges.YearsArrayEntriesAreNotDates` exhibits its entries |
| CalendarRanges.YearsArray | src/features/Datetime/calendarRanges/calendarRanges.ts:70-83 | the corrected `getYearsArray`; stated by `CalendarRanges.YearsArrayListsNewYears` |
| CalendarRanges.NewYearsReadBack | src/features/Datetime/calendarRanges/calendarRanges.ts:79-82 | entry `i` reads back as 1 January of year `year + i` |
| CalendarRanges.YearsArrayListsNewYears | src/features/Datetime/calendarRanges/calendarRanges.ts:70-83 | corrected: the list of 1 January of each year from the start year to the end year |
| CalendarRanges.FirstDaysReadBack | src/features/Datetime/calendarRanges/calendarRanges.ts:88 | entry `m` reads back as the 1st of month `m` |
| CalendarRanges.MonthsArrayListsFirstDays | src/features/Datetime/calendarRanges/calendarRanges.ts:85-89 | the 12 strings `YYYY-01-01` … `YYYY-12-01`, each reading back as the 1st of its month |
| CalendarRanges.GetMonthsArray | src/features/Datetime/calendarRanges/calendarRanges.ts:85-89 | `getMonthsArray`; stated by `CalendarRanges.MonthsArrayListsFirstDays` |
| CalendarRanges.MondayOffset | src/features/Datetime/calendarRanges/calendarRanges.ts:95-96 | `(jsDay + 6) % 7` is in 0..6 and steps back to a Monday |
| CalendarRanges.NearbyYear | src/features/Datetime/calendarRanges/calendarRanges.ts:98-104 | a date up to 6 days before one of a year ≥ 101 is in a year ≥ 100 |
| CalendarRanges.DiffToMondayLandsOnMonday | src/features/Datetime/calendarRanges/calendarRanges.ts:95-96 | stepping back `diffToMonday` days reaches a Monday |
| CalendarRanges.MondayOf | src/features/Datetime/calendarRanges/calendarRanges.ts:98-104 | the Monday is at most 6 days before the date, and not after it |
| CalendarRanges.WeekPartsSpanWeek | src/features/Datetime/calendarRanges/calendarRanges.ts:91-116 | seven consecutive real dates, the first a Monday, the span containing the input date |
| CalendarRanges.WeekParts | src/features/Datetime/calendarRanges/calendarRanges.ts:98-115 | seven entries, the Monday of the week and the six days after it; the days are stated by `CalendarRanges.WeekPartsSpanWeek` |
| CalendarRanges.NeighbouringYears | src/features/Datetime/calendarRanges/calendarRanges.ts:106-115 | real dates at most six days apart are at most one year apart |
| CalendarRanges.WeekdaysArrayListsWeek | src/features/Datetime/calendarRanges/calendarRanges.ts:91-116 | `getWeekdaysArray` lists the seven days of that week as `YYYY-MM-DD`, each reading back as its day |
| CalendarRanges.GetWeekdaysArray | src/features/Datetime/calendarRanges/calendarRanges.ts:91-116 | `getWeekdaysArray`; stated by `CalendarRanges.WeekdaysArrayListsWeek` |
| CalendarRanges.GetDaysInMonth | src/features/Datetime/calendarRanges/calendarRanges.ts:118-121 | a result is in 1..31 |
| CalendarRanges.LastDayOfMonth | src/features/Datetime/calendarRanges/calendarRanges.ts:120 | day 0 of the next month is the month's length |
| CalendarRanges.DaysInMonthOfDate | src/features/Datetime/calendarRanges/calendarRanges.ts:118-121 | the number of days of the month of an accepted date |
| CalendarRanges.MonthDaysReadBack | src/features/Datetime/calendarRanges/calendarRanges.ts:128 | entry `i` reads back as day `i+1` of the month |
| CalendarRanges.DaysArrayListsMonth | src/features/Datetime/calendarRanges/calendarRanges.ts:123-130 | `daysInMonth` entries, entry `i` being day `i+1` of that month as `YYYY-MM-DD` |
| CalendarRanges.GetDaysArray | src/features/Datetime/calendarRanges/calendarRanges.ts:123-130 | `getDaysArray`; stated by `CalendarRanges.DaysArrayListsMonth` |
| RelativeTime.AgeCountsBirthdays | src/features/datetime/relativeTime/relativeTime.ts:5-15 | `age` is the one count `n` such that the birthday in year `birth+n` is not after the reference date and the one in year `birth+n+1` is |
| RelativeTime.Age | src/features/datetime/relativeTime/relativeTime.ts:5-15 | `age`; stated by `RelativeTime.AgeCountsBirthdays`, `RelativeTime.AgeOnBirthday` and `RelativeTime.AgeMonotone` |
| RelativeTime.AgeOnBirthday | src/features/datetime/relativeTime/relativeTime.ts:8-11 | on the birthday itself there is no decrement |
| RelativeTime.AgeMonotone | src/features/datetime/relativeTime/relativeTime.ts:5-15 | the age never decreases as the reference date moves forward |
| RelativeTime.FieldsMonotone | src/features/datetime/relativeTime/relativeTime.ts:5-10 | a later time value never has earlier (year, month, day) fields |
| RelativeTime.CivilOrder | src/features/datetime/relativeTime/relativeTime.ts:5-10 | real calendar dates are ordered like their day numbers |
| RelativeTime.ChainedFloors | src/features/datetime/relativeTime/relativeTime.ts:20-27 | the chained floor divisions equal the floors of the difference by each unit length |
| RelativeTime.TimeAgoUnit | src/features/datetime/relativeTime/relativeTime.ts:18-38 | the unit is the largest one the difference reaches (else seconds), and the value is the negated whole number of those units |
| RelativeTime.TimeAgo | src/features/datetime/relativeTime/relativeTime.ts:18-38 | `timeAgo` with the clock as a parameter; stated by `RelativeTime.TimeAgoUnit` and `RelativeTime.FutureInSeconds` |
| RelativeTime.FutureInSeconds | src/features/datetime/relativeTime/relativeTime.ts:31-37 | a date not in the past is reported in seconds, with a value ≥ 0 |
| Calendar.DaysInMonth | src/features/Datetime/DatetimeUtils.ts:106-110 | month lengths 28..31, with 29 exactly for February of a leap year |
| Calendar.LeapYear | src/features/Datetime/DatetimeUtils.ts:146-148 | the Gregorian leap-year rule; `DatetimeUtils.IsLeapYear` states it as the length of February |
| Calendar.CivilFromDays | src/features/Datetime/calendarRanges/calendarRanges.ts:61-65 | the `getUTC*` date of a day number is a real date with that day number |
| Calendar.DaysFromCivil | src/features/Datetime/calendarRanges/calendarRanges.ts:24 | the day number of a calendar date; `Calendar.CivilRoundTrip` and `Calendar.DaysFromCivilInjective` make it a bijection with `Calendar.CivilFromDays` |
| Calendar.YearWalk | src/features/Datetime/calendarRanges/calendarRanges.ts:26 | a year and a day offset inside it that together count the same days as the start year plus the offset given |
| Calendar.MonthWalk | src/features/Datetime/calendarRanges/calendarRanges.ts:27-28 | a month and a valid day of it that together count the same days into the year as the start month plus the offset given |
| Calendar.MakeDay | src/features/Datetime/calendarRanges/calendarRanges.ts:57-59 | day of month `d` of the carried month; its carrying is stated by `Calendar.MakeDayCarry` and `Calendar.MakeDayZeroNormalized` |
| Calendar.MakeDate | src/features/Datetime/calendarRanges/calendarRanges.ts:24 | a day number and a time of day as a time value; `Calendar.FieldsOfMakeDate` reads the date back |
| Calendar.DateUtc | src/features/Datetime/calendarRanges/calendarRanges.ts:24 | `Date.UTC(y, m0, d)` |
| Calendar.CivilRoundTrip | src/features/Datetime/calendarRanges/calendarRanges.ts:24-31 | civil-from-days inverts days-from-civil on every real date |
| Calendar.DaysFromCivilInjective | src/features/Datetime/calendarRanges/calendarRanges.ts:24-31 | distinct real dates have distinct day numbers |
| Calendar.MakeFullYear | src/features/Datetime/calendarRanges/calendarRanges.ts:24 | `Date.UTC` and `new Date(y, m, d)` read years 0..99 as 1900..1999 and keep every other year |
| Calendar.MakeDayZeroNormalized | src/features/Datetime/Datetime.ts:147 | day 0 of month `m+1` is the last day of month `m`, after carrying whole years |
| Calendar.WeekDay | src/features/Datetime/DatetimeUtils.ts:39 | `getDay` is in 0..6 |
| Text.PaddedDecimal | src/features/Datetime/formatter/formatter.ts:70 | `toString().padStart(w, '0')` of `n` is digits with value `n` |
| Text.NumberOfIntToString | src/features/Datetime/formatter/formatter.ts:90 | `Number` reads `toString` of any integer back as that integer |
| Text.JsNumber | src/features/Datetime/parser/parser.ts:128-137 | `Number(s)` on integer text: white space trimmed, empty text 0, a signed digit run its value, anything else `NaN`; `Text.NumberOfIntToString` reads `String(n)` back as `n` |
| Text.IntToString | src/features/Datetime/formatter/formatter.ts:90 | `String(n)`; `Text.NumberOfIntToString` reads it back as `n` |
| Text.PadStart | src/features/Datetime/formatter/formatter.ts:70 | `padStart`: the input right-aligned in the wider of its length and the width, filled on the left with the fill character |
| Text.ParseIntOfDigits | src/features/Datetime/parser/parser.ts:86 | `parseInt(s, 10)` of a non-empty digit string is its decimal value |
| Text.ParseInt | src/features/Datetime/parser/parser.ts:86 | `parseInt(s, 10)`; stated by `Text.ParseIntOfDigits` |
| Text.CeilDiv | src/features/Datetime/Datetime.ts:130 | `Math.ceil(a / b)` for `b > 0`: the least `q` with `a <= q*b` |
| Text.JsRem | src/features/Datetime/DatetimeUtils.ts:147 | JavaScript's `%` truncates: the Euclidean remainder for `a >= 0`, non-positive for `a < 0` |
| Text.FirstField | src/features/Datetime/formatter/formatter.ts:55 | `split(' ')[0]`: the prefix up to the first space |
| Text.SplitAround | src/features/Datetime/calendarRanges/calendarRanges.ts:18 | `split` cuts at the first separator and splits the rest |
| Text.Split | src/features/Datetime/calendarRanges/calendarRanges.ts:18 | `split` on one character, at least one part; the parts are stated by `Text.SplitAround` |

## Left out

- The text `Intl.DateTimeFormat` renders (names, locale digits, the formatter's time-zone conversion) is the abstract `Host.Rendering`; nothing is proved about its content.
- The `ISO_8601` token (`toISOString`) and the phrase `Intl.RelativeTimeFormat` builds are host output: the model keeps the ISO string as part of the rendering and returns the `(value, unit)` pair `timeAgo` passes to `rtf.format`.
- Temporal's wall-clock-to-instant resolution in time zones other than UTC, with daylight-saving disambiguation, is a parameter (`Zone`); only the UTC zone is given concretely.
- Parser formats are restricted to characters that are not regular-expression metacharacters (`PlainFormat`); with `.`, `[` or `(` the real pattern is a different regular expression.
- Local time is a fixed-offset calendar without daylight-saving changes; the host's offset and its transitions are not modelled.
- The clock (`new Date()`, `Date.now()`) is a parameter: the `now` of `timeAgo`, the `referenceDate` default of `age`, and the current year that ends the calendar-range `getYearsArray` by default.
- Text.JsNumber: reads only optionally signed decimal integers, so a timestamp parsed with the format `X` or `x` and written as "1.5", "1e3" or "0x10", which JavaScript's `Number` accepts, gives `Invalid Date` in the model where the library builds a date.
- JavaScript numbers are integers here: `Number`/`parseInt` on arbitrary strings, `NaN` and Invalid Date beyond the `new Date(v)` range check, and fractional epoch values are not modelled; a fractional or non-finite `shiftDateUTC` delta is a ratio of integers or `NonFinite`.
- `Datetime.ts`'s `Intl`-only name helpers (`getMonthName` … `getShortWeekdaysArray`) and the clock-reading predicates (`isToday`, `isFuture`, …) are not part of this model.
- The `if (!v) throw` branch of `shiftDateUTC` cannot be taken for the three-valued `deltaPart` and is not modelled.
- `shiftDateUTC` results beyond the ±8.64e15 ms time-value range (where `getUTCFullYear` would read `NaN`) are not modelled; the result is always read as a real date.
- The millisecond field of `Parts` is modelled but never filled, because `sss` is unreachable in the parser's alternation (proved).
- `Formatter.TokenValue` and `Datetime.TokenValue` dispatch on the key's first letter instead of indexing a record; they select the same entry for every key.
- CalendarRanges.ToDateUtcRoundTrip: stated for years 1000..9999, because `toDateUTC` prints the year without padding, so a shorter year does not have the `dddd-dd-dd` shape.
- CalendarRanges.WeekPartsSpanWeek: requires a year ≥ 101, because the Monday of a week early in year 100 can fall in year 99, which `Date.UTC` reads as 1999.
- CalendarRanges.ShiftByDays: excludes years 0..99, which `Date.UTC` reads as 1900..1999.
- CalendarRanges.ShiftByZero: excludes years 0..99, for the same reason.
- CalendarRanges.WeekdaysArrayListsWeek: the read-back is stated for years 1001..9998, so that the whole week has four-digit years.
- CalendarRanges.NewYearsReadBack: stated for years 1000..9999, because the printed year is not padded.
- CalendarRanges.MonthsArrayListsFirstDays: the read-back is stated for years ≥ 1000, because the printed year is not padded.
- CalendarRanges.DaysArrayListsMonth: the read-back is stated for years ≥ 1000, because the printed year is not padded.
- DatetimeUtils.GetDayNumberOfYear: stated outside years 0..99, where `new Date(y, 0, 0)` reads the year as 1900..1999 and the count is off by whole years.
- DatetimeUtils.IsLastDayOfMonth: stated outside year 0, whose February differs from 1900's.
- Parser.ParseDateUtc: stated for the UTC zone only.

## Findings

| source | as written | input that shows it | evidently intended | confidence | as-written member | corrected member |
|---|---|---|---|---|---|---|
| src/features/Datetime/calendarRanges/calendarRanges.ts:79-82 | `dateUTCStart + i` concatenates the start string and the index | `getYearsArray('2020-01-01', '2025-01-01')` gives `'2020-01-010'`, `'2020-01-011'`, … `'2020-01-015'`, none a valid `YYYY-MM-DD` | 1 January of each year from the start year to the end year (`'2020-01-01'` … `'2025-01-01'`) | not executed | CalendarRanges.YearsArrayEntriesAreNotDates | CalendarRanges.YearsArrayListsNewYears |
