/** `createDatetimeFormatter` of src/features/Datetime/formatter/formatter.ts: a token table
    whose entries read the host rendering or the epoch milliseconds, applied to a pattern by
    the token engine. */
module Formatter {
  import opened Wrappers
  import opened Text
  import opened Tokens
  import opened Host

  /** The keys of `formatsMap`, in declaration order: the order of the alternation. */
  const Keys: seq<string> :=
    ["YYYY", "YY", "MMMM", "MMM", "MM", "DD", "dddd", "ddd", "HH", "hh", "mm", "sss", "ss",
     "A", "a", "X", "x", "ISO_8601"]

  /** Every key is non-empty and no key is preceded by a proper prefix of itself, so the
      first key that matches at a position is the longest one. */
  lemma KeysWellOrdered()
    ensures NonEmptyKeys(Keys) && LongerKeysFirst(Keys)
  {
    KeysNonEmpty();
    forall i, j | 0 <= i < j < |Keys| && |Keys[i]| < |Keys[j]|
      ensures Keys[j][..|Keys[i]|] != Keys[i]
    {
      assert Keys[j][0] != Keys[i][0];
    }
  }

  /** Every key is a non-empty literal. */
  lemma KeysNonEmpty()
    ensures NonEmptyKeys(Keys)
  {
  }

  /** The letters a key can start with. */
  const KeyInitials: string := "YMDdHhmsAaXxI"

  lemma KeyInitialsCover()
    ensures forall k :: 0 <= k < |Keys| ==> Keys[k] != [] && Keys[k][0] in KeyInitials
  {
  }

  /** `formatsMap[key]()` for the instant `t` rendered as `host`; the lookup is written as a
      dispatch on the key's first letter, which selects the same entry. */
  function TokenValue(host: Rendering, t: int, key: string): string
  {
    if key == [] then []
    else match key[0]
    case 'Y' =>
      if key == "YYYY" then host.format(YearNumeric)
      else if key == "YY" then host.format(Year2Digit)
      else []
    case 'M' =>
      if key == "MMMM" then host.format(MonthLong)
      else if key == "MMM" then host.format(MonthShort)
      else if key == "MM" then host.format(Month2Digit)
      else []
    case 'D' => if key == "DD" then host.format(Day2Digit) else []
    case 'd' =>
      if key == "dddd" then host.format(WeekdayLong)
      else if key == "ddd" then host.format(WeekdayShort)
      else []
    case 'H' => if key == "HH" then Hour24Text(host) else []
    case 'h' => if key == "hh" then Hour12Text(host) else []
    case 'm' => if key == "mm" then host.format(Minute2Digit) else []
    case 's' =>
      if key == "sss" then Milliseconds(t)
      else if key == "ss" then host.format(Second2Digit)
      else []
    case 'A' => if key == "A" then Meridiem(host) else []
    case 'a' => if key == "a" then MeridiemLower(host) else []
    case 'X' => if key == "X" then Timestamp(t) else []
    case 'x' => if key == "x" then TimestampMs(t) else []
    case 'I' => if key == "ISO_8601" then host.isoString else []
    case _ => []
  }

  /** The lookup `(match) => formatsMap[match]()` the replacement calls. */
  function Rule(host: Rendering, t: int): string -> string
  {
    (key: string) => TokenValue(host, t, key)
  }

  /** The formatter returned by `createDatetimeFormatter`, applied to `date` and `format`. */
  function Format(host: Rendering, t: int, pattern: string): string
  {
    KeysNonEmpty();
    FormatPattern(pattern, Keys, Rule(host, t))
  }

  /** The empty pattern formats to the empty string. */
  lemma FormatEmpty(host: Rendering, t: int)
    ensures Format(host, t, "") == ""
  {
    KeysNonEmpty();
    FormatWithoutBrackets("", Keys, Rule(host, t));
  }

  /** A bracketed literal is copied without its brackets, whatever letters it holds, and the
      text on each side is formatted on its own. */
  lemma FormatBracketed(host: Rendering, t: int, text: string, lit: string, rest: string)
    requires '[' !in text && ']' !in lit
    ensures Format(host, t, text + "[" + lit + "]" + rest)
      == Format(host, t, text) + lit + Format(host, t, rest)
  {
    KeysNonEmpty();
    FormatLiteral(text, lit, rest, Keys, Rule(host, t));
    NoOpenNoSpan(text);
    FormatWithoutBrackets(text, Keys, Rule(host, t));
  }

  /** Text made of characters that start no key and open no bracket (separators such as
      `-`, `/`, `.`, `:` and spaces) is copied unchanged and in order. */
  lemma SeparatorsPassThrough(host: Rendering, t: int, s: string)
    requires forall i :: 0 <= i < |s| ==> s[i] !in KeyInitials && s[i] != '['
    ensures Format(host, t, s) == s
  {
    KeysNonEmpty();
    KeyInitialsCover();
    forall i | 0 <= i < |s| ensures MatchAt(s[i..], Keys).None? {
      forall k | 0 <= k < |Keys| ensures !StartsWith(s[i..], Keys[k]) {
        assert Keys[k][0] != s[i..][0];
      }
    }
    ReplaceKeyless(s, Keys, Rule(host, t));
    NoOpenNoSpan(s);
    FormatWithoutBrackets(s, Keys, Rule(host, t));
  }

  /** No key before index `k` starts with the first letter of `s`, so none matches there. */
  lemma EarlierKeysMiss(s: string, k: nat)
    requires s != [] && k <= |Keys|
    requires forall j :: 0 <= j < k ==> Keys[j][0] != s[0]
    ensures forall j :: 0 <= j < k ==> !StartsWith(s, Keys[j])
  {
    KeyInitialsCover();
  }

  /** `YYYY` is consumed whole as the numeric year (never as two `YY`), falling back to the
      key itself when the host renders nothing. */
  lemma FullYearToken(host: Rendering, t: int, rest: string)
    requires '[' !in rest
    ensures Format(host, t, "YYYY" + rest)
      == (if host.format(YearNumeric) == [] then "YYYY" else host.format(YearNumeric)) + Format(host, t, rest)
  {
    KeysNonEmpty();
    FormatKeyFirst("YYYY", rest, Keys, Rule(host, t), 0);
  }

  /** `MMMM` is consumed whole as the long month name, not as `MMM` or `MM` plus letters. */
  lemma LongMonthToken(host: Rendering, t: int, rest: string)
    requires '[' !in rest
    ensures Format(host, t, "MMMM" + rest)
      == (if host.format(MonthLong) == [] then "MMMM" else host.format(MonthLong)) + Format(host, t, rest)
  {
    KeysNonEmpty();
    EarlierKeysMiss("MMMM" + rest, 2);
    FormatKeyFirst("MMMM", rest, Keys, Rule(host, t), 2);
  }

  /** `sss` is consumed whole as the zero-padded millisecond, not as `ss` plus `s`. */
  lemma MillisecondToken(host: Rendering, t: int, rest: string)
    requires '[' !in rest
    ensures Format(host, t, "sss" + rest) == Milliseconds(t) + Format(host, t, rest)
    ensures DecimalValue(Milliseconds(t)) == t % 1000
  {
    MillisecondsText(t);
    KeysNonEmpty();
    MillisecondValue(host, t);
    EarlierKeysMiss("sss" + rest, 11);
    FormatKeyFirst("sss", rest, Keys, Rule(host, t), 11);
  }

  /** The table entry of `X`. */
  lemma SecondsValue(host: Rendering, t: int)
    ensures Rule(host, t)("X") == Timestamp(t)
  {
  }

  /** The table entry of `x`. */
  lemma MillisecondsSinceEpochValue(host: Rendering, t: int)
    ensures Rule(host, t)("x") == TimestampMs(t)
  {
  }

  /** The table entry of `sss`. */
  lemma MillisecondValue(host: Rendering, t: int)
    ensures Rule(host, t)("sss") == Milliseconds(t)
  {
  }

  /** `X` prints `Math.floor(ms / 1000)`. It reads no host rendering, so it prints the same
      in every time zone. */
  lemma SecondsToken(host: Rendering, t: int, rest: string)
    requires '[' !in rest
    ensures Format(host, t, "X" + rest) == Timestamp(t) + Format(host, t, rest)
    ensures JsNumber(Timestamp(t)) == Some(t / 1000)
  {
    EarlierKeysMiss("X" + rest, 15);
    KeysNonEmpty();
    SecondsValue(host, t);
    FormatKeyFirst("X", rest, Keys, Rule(host, t), 15);
    TimestampsReadBack(t);
  }

  /** `x` prints the epoch milliseconds, in every time zone. */
  lemma MillisecondsSinceEpochToken(host: Rendering, t: int, rest: string)
    requires '[' !in rest
    ensures Format(host, t, "x" + rest) == TimestampMs(t) + Format(host, t, rest)
    ensures JsNumber(TimestampMs(t)) == Some(t)
  {
    EarlierKeysMiss("x" + rest, 16);
    KeysNonEmpty();
    MillisecondsSinceEpochValue(host, t);
    FormatKeyFirst("x", rest, Keys, Rule(host, t), 16);
    TimestampsReadBack(t);
  }
}
