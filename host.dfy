/** What the formatters take from the host: the text `Intl.DateTimeFormat` renders for one
    instant in the configured locale and time zone, and the per-token getters both formatters
    share that depend on the epoch milliseconds alone. */
module Host {
  import opened Wrappers
  import opened Text

  /** The `Intl.DateTimeFormat` option sets the formatters ask for, one per token family. */
  datatype PartStyle =
    | YearNumeric     // { year: 'numeric' }
    | Year2Digit      // { year: '2-digit' }
    | MonthLong       // { month: 'long' }
    | MonthShort      // { month: 'short' }
    | Month2Digit     // { month: '2-digit' }
    | Day2Digit       // { day: '2-digit' }
    | WeekdayLong     // { weekday: 'long' }
    | WeekdayShort    // { weekday: 'short' }
    | Hour24          // { hour: '2-digit', hour12: false }
    | Hour12          // { hour: '2-digit', hour12: true }
    | Minute2Digit    // { minute: '2-digit' }
    | Second2Digit    // { second: '2-digit' }

  /** The host's output for one instant: `format` is `new Intl.DateTimeFormat(locale,
      { timeZone, ...style }).format(date)`, `hourPart` is the `hour` part of
      `formatToParts` with `hourCycle: 'h23'` (`None` when there is none or the call throws),
      and `isoString` is `date.toISOString()`. */
  datatype Rendering = Rendering(format: PartStyle -> string, hourPart: Option<string>, isoString: string)

  /** `date.getMilliseconds().toString().padStart(3, '0')`. Local time differs from UTC by
      whole seconds, so the local millisecond is the epoch millisecond modulo 1000. */
  function Milliseconds(t: int): string
  {
    PadStart(NatToString(t % 1000), 3, '0')
  }

  /** The `sss` text is three digits whose value is the epoch millisecond modulo 1000. */
  lemma MillisecondsText(t: int)
    ensures |Milliseconds(t)| == 3 && AllDigits(Milliseconds(t)) && DecimalValue(Milliseconds(t)) == t % 1000
  {
    PaddedDecimal(t % 1000, 3);
    PaddedWidth(t % 1000, 3);
  }

  /** `Math.floor(date.getTime() / 1000)`: whole seconds since the epoch, rounded down. */
  function ToTimestamp(t: int): (r: int)
    ensures r * 1000 <= t < r * 1000 + 1000
  {
    t / 1000
  }

  /** `Math.floor(date.getTime() / 1000).toString()`: the `X` token. */
  function Timestamp(t: int): string
  {
    IntToString(ToTimestamp(t))
  }

  /** `date.getTime().toString()`: the `x` token. */
  function TimestampMs(t: int): string
  {
    IntToString(t)
  }

  /** `Number` reads both timestamps back: the whole seconds and the milliseconds. */
  lemma TimestampsReadBack(t: int)
    ensures JsNumber(Timestamp(t)) == Some(t / 1000)
    ensures JsNumber(TimestampMs(t)) == Some(t)
  {
    NumberOfIntToString(ToTimestamp(t));
    NumberOfIntToString(t);
  }

  /** `format(..., { hour: '2-digit', hour12: true }).split(' ')[0]`: the `hh` token, the
      12-hour rendering up to its first space (the day period follows it). */
  function Hour12Text(host: Rendering): (r: string)
    ensures ' ' !in r && StartsWith(host.format(Hour12), r)
  {
    FirstField(host.format(Hour12))
  }

  /** `getHour24` and the fallback of `getHour24TwoDigits`: the 24-hour rendering up to its
      first space, with exactly `"24"` rewritten to `"00"` and every other rendering kept. */
  function Hour24Text(host: Rendering): (r: string)
    ensures FirstField(host.format(Hour24)) == "24" ==> r == "00"
    ensures FirstField(host.format(Hour24)) != "24" ==> r == FirstField(host.format(Hour24))
  {
    var raw := FirstField(host.format(Hour24));
    if raw == "24" then "00" else raw
  }

  /** The `A` token: `"AM"` when the 12-hour rendering contains `AM` anywhere, else `"PM"`. */
  function Meridiem(host: Rendering): (r: string)
    ensures r == "AM" <==> Contains(host.format(Hour12), "AM")
    ensures r == "PM" <==> !Contains(host.format(Hour12), "AM")
  {
    if Contains(host.format(Hour12), "AM") then "AM" else "PM"
  }

  /** `toLowerCase()` on the ASCII letters it is applied to here. */
  function LowerAscii(s: string): (r: string)
    ensures |r| == |s|
    ensures forall i :: 0 <= i < |s| ==> r[i] == if 'A' <= s[i] <= 'Z' then (s[i] as int + 32) as char else s[i]
  {
    if s == [] then []
    else
      var c := if 'A' <= s[0] <= 'Z' then (s[0] as int + 32) as char else s[0];
      [c] + LowerAscii(s[1..])
  }

  /** The `a` token: the lower-case day period. */
  function MeridiemLower(host: Rendering): (r: string)
    ensures r == "am" <==> Contains(host.format(Hour12), "AM")
    ensures r == "pm" <==> !Contains(host.format(Hour12), "AM")
  {
    var m := Meridiem(host);
    assert LowerAscii("AM") == "am";
    assert LowerAscii("PM") == "pm";
    LowerAscii(m)
  }
}
