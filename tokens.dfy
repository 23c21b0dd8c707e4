/** The token engine shared by the formatters and the parser: the bracket split
    `pattern.split(/(\[[^\]]*\])/)`, the stripping of a bracketed piece with
    `replace(/^\[|\]$/g, '')`, and the left-to-right scan that a global regular expression
    built as `keys.join('|')` performs inside `String.prototype.replace`. The key table is a
    parameter: each caller passes its own keys in their declaration order. */
module Tokens {
  import opened Wrappers
  import opened Text

  // ---------------------------------------------------------------- bracket split

  /** The first position of `c` in `s`. */
  function IndexOf(s: string, c: char): (r: Option<nat>)
    ensures r.None? ==> c !in s
    ensures r.Some? ==> r.value < |s| && s[r.value] == c && c !in s[..r.value]
  {
    if s == [] then None
    else if s[0] == c then Some(0)
    else
      match IndexOf(s[1..], c)
      case None => None
      case Some(k) =>
        assert s[..k + 1] == [s[0]] + s[1..][..k];
        Some(k + 1)
  }

  /** `s[p..q+1]` is a match of `\[[^\]]*\]`: an opening bracket, no closing bracket, and a
      closing bracket. */
  predicate SpanAt(s: string, p: int, q: int)
  {
    0 <= p < q < |s| && s[p] == '[' && s[q] == ']' && ']' !in s[p + 1..q]
  }

  /** No opening bracket of `s` is followed, anywhere later, by a closing bracket, so
      `\[[^\]]*\]` matches nowhere in `s`. */
  predicate NoSpan(s: string)
  {
    forall i, j :: 0 <= i < j < |s| && s[i] == '[' ==> s[j] != ']'
  }

  /** The leftmost match of `\[[^\]]*\]` in `s`, as the positions of its two brackets. */
  function FirstSpan(s: string): (r: Option<(nat, nat)>)
    ensures r.None? <==> NoSpan(s)
    ensures r.Some? ==> SpanAt(s, r.value.0, r.value.1) && '[' !in s[..r.value.0]
  {
    match IndexOf(s, '[')
    case None => None
    case Some(p) =>
      match IndexOf(s[p + 1..], ']')
      case None =>
        assert NoSpan(s) by {
          assert forall i :: 0 <= i < p ==> s[..p][i] == s[i];
          assert forall j :: p < j < |s| ==> s[p + 1..][j - p - 1] == s[j];
        }
        None
      case Some(k) =>
        assert s[p + 1..p + 1 + k] == s[p + 1..][..k];
        Some((p, p + 1 + k))
  }

  /** A bracketed piece: `[`, text without `]`, `]`. */
  predicate IsBracketed(x: string)
  {
    2 <= |x| && x[0] == '[' && x[|x| - 1] == ']' && ']' !in x[1..|x| - 1]
  }

  /** `pattern.split(/(\[[^\]]*\])/)`: the text between matches at even indices and, because
      the group captures, each match itself at the odd index after it. */
  function SplitBrackets(s: string): (pieces: seq<string>)
    ensures |pieces| % 2 == 1
    decreases |s|
  {
    match FirstSpan(s)
    case None => [s]
    case Some((p, q)) => [s[..p], s[p..q + 1]] + SplitBrackets(s[q + 1..])
  }

  /** Joining two strings and a list of strings. */
  lemma ConcatTwoThen(a: string, b: string, rest: seq<string>)
    ensures Concat([a, b] + rest) == a + b + Concat(rest)
  {
    assert ([a, b] + rest)[1..] == [b] + rest;
    assert ([b] + rest)[1..] == rest;
  }

  /** A text with no `[` at all has no bracket span. */
  lemma NoOpenNoSpan(s: string)
    requires '[' !in s
    ensures NoSpan(s)
  {
  }

  /** What the split promises: joining the pieces gives the text back (`join('')`), odd
      pieces are bracket spans, and even pieces hold no bracket span. */
  predicate SplitShape(s: string, pieces: seq<string>)
  {
    Concat(pieces) == s
    && (forall i :: 0 <= i < |pieces| && i % 2 == 1 ==> IsBracketed(pieces[i]))
    && (forall i :: 0 <= i < |pieces| && i % 2 == 0 ==> NoSpan(pieces[i]))
  }

  /** One step of the split: the text before the first span, the span, and the split of the
      rest. */
  lemma ShapeCons(s: string, p: nat, q: nat, rest: seq<string>)
    requires SpanAt(s, p, q) && '[' !in s[..p] && SplitShape(s[q + 1..], rest)
    ensures SplitShape(s, [s[..p], s[p..q + 1]] + rest)
  {
    var pieces := [s[..p], s[p..q + 1]] + rest;
    ConcatTwoThen(s[..p], s[p..q + 1], rest);
    assert s == s[..p] + s[p..q + 1] + s[q + 1..];
    assert s[p..q + 1][1..q - p] == s[p + 1..q];
    NoOpenNoSpan(s[..p]);
    forall i | 0 <= i < |pieces| && i % 2 == 1 ensures IsBracketed(pieces[i]) {
      if i > 1 {
        assert pieces[i] == rest[i - 2] && (i - 2) % 2 == 1;
      }
    }
    forall i | 0 <= i < |pieces| && i % 2 == 0 ensures NoSpan(pieces[i]) {
      if i > 0 {
        assert pieces[i] == rest[i - 2] && (i - 2) % 2 == 0;
      }
    }
  }

  /** A text without a bracket span, alone, is split as itself. */
  lemma ShapeSingle(s: string)
    requires NoSpan(s)
    ensures SplitShape(s, [s])
  {
    assert Concat([s]) == s + Concat([]);
  }

  /** The split satisfies its promise on every text. */
  lemma {:induction false} SplitBracketsShape(s: string)
    ensures SplitShape(s, SplitBrackets(s))
    decreases |s|
  {
    match FirstSpan(s)
    case None =>
      assert SplitBrackets(s) == [s];
      ShapeSingle(s);
    case Some((p, q)) =>
      var rest := SplitBrackets(s[q + 1..]);
      assert SplitBrackets(s) == [s[..p], s[p..q + 1]] + rest;
      SplitBracketsShape(s[q + 1..]);
      ShapeCons(s, p, q, rest);
  }

  /** `piece.replace(/^\[|\]$/g, '')`: drops a leading `[` and a trailing `]`. */
  function StripBrackets(x: string): (r: string)
    ensures IsBracketed(x) ==> r == x[1..|x| - 1]
    ensures IsBracketed(x) ==> x == "[" + r + "]"
  {
    var a := if x != [] && x[0] == '[' then x[1..] else x;
    if a != [] && a[|a| - 1] == ']' then a[..|a| - 1] else a
  }

  // ---------------------------------------------------------------- token scan

  /** What the scan produces at one position: a key of the table, or one character that
      starts no key. */
  datatype Piece = Token(key: string) | Char(c: char)

  /** The text a piece covers. */
  function Spelling(p: Piece): string
  {
    match p
    case Token(k) => k
    case Char(c) => [c]
  }

  function Spell(pieces: seq<Piece>): (s: string)
    ensures pieces == [] ==> s == []
  {
    if pieces == [] then [] else Spelling(pieces[0]) + Spell(pieces[1..])
  }

  /** Every key of a regular-expression alternation here is a non-empty literal. */
  predicate NonEmptyKeys(keys: seq<string>)
  {
    forall k :: 0 <= k < |keys| ==> keys[k] != []
  }

  /** The first key, from index `from` on, that starts `s`: the alternative the regular
      expression engine tries first and succeeds with. */
  function MatchFrom(s: string, keys: seq<string>, from: nat): (r: Option<nat>)
    requires from <= |keys|
    ensures r.Some? ==> from <= r.value < |keys| && StartsWith(s, keys[r.value])
    decreases |keys| - from
  {
    if from == |keys| then None
    else if StartsWith(s, keys[from]) then Some(from)
    else MatchFrom(s, keys, from + 1)
  }

  /** No key between `from` and the one chosen starts `s`, and when none is chosen no key
      from `from` on starts `s`. */
  lemma {:induction false} MatchFromFirst(s: string, keys: seq<string>, from: nat)
    requires from <= |keys|
    ensures MatchFrom(s, keys, from).Some? ==> forall j :: from <= j < MatchFrom(s, keys, from).value ==> !StartsWith(s, keys[j])
    ensures MatchFrom(s, keys, from).None? ==> forall j :: from <= j < |keys| ==> !StartsWith(s, keys[j])
    decreases |keys| - from
  {
    if from < |keys| && !StartsWith(s, keys[from]) {
      MatchFromFirst(s, keys, from + 1);
    }
  }

  /** The alternative that matches at the start of `s`, if any. */
  function MatchAt(s: string, keys: seq<string>): (r: Option<nat>)
    ensures r.Some? ==> r.value < |keys| && StartsWith(s, keys[r.value])
  {
    MatchFrom(s, keys, 0)
  }

  /** The alternative chosen is the first key in table order that starts `s`, and there is
      none only when no key starts `s`. */
  lemma MatchAtFirst(s: string, keys: seq<string>)
    ensures MatchAt(s, keys).Some? ==> forall j :: 0 <= j < MatchAt(s, keys).value ==> !StartsWith(s, keys[j])
    ensures MatchAt(s, keys).None? ==> forall j :: 0 <= j < |keys| ==> !StartsWith(s, keys[j])
  {
    MatchFromFirst(s, keys, 0);
  }

  /** The first matching key in table order is the one chosen. */
  lemma MatchAtIs(s: string, keys: seq<string>, k: nat)
    requires k < |keys| && StartsWith(s, keys[k])
    requires forall j :: 0 <= j < k ==> !StartsWith(s, keys[j])
    ensures MatchAt(s, keys) == Some(k)
  {
    MatchAtFirst(s, keys);
  }

  /** The global scan: at each position the first matching key is consumed whole, and a
      position where no key matches yields its character and moves on by one. */
  function Scan(s: string, keys: seq<string>): seq<Piece>
    requires NonEmptyKeys(keys)
    decreases |s|
  {
    if s == [] then []
    else
      match MatchAt(s, keys)
      case Some(k) => [Token(keys[k])] + Scan(s[|keys[k]|..], keys)
      case None => [Char(s[0])] + Scan(s[1..], keys)
  }

  /** The pieces of the scan, spelled out one after another, give the text back: every
      character is either inside a matched key or passed on by itself. */
  lemma {:induction false} ScanSpells(s: string, keys: seq<string>)
    requires NonEmptyKeys(keys)
    ensures Spell(Scan(s, keys)) == s
    decreases |s|
  {
    if s != [] {
      var pieces := Scan(s, keys);
      assert pieces[1..] == Scan(s[|Spelling(pieces[0])|..], keys);
      ScanSpells(s[|Spelling(pieces[0])|..], keys);
      assert s == Spelling(pieces[0]) + s[|Spelling(pieces[0])|..];
    }
  }

  /** A piece found at position `pos` of `s`: a token there is the first key in table order
      that matches at that position, and a character there starts no key. */
  predicate PieceFits(s: string, keys: seq<string>, piece: Piece, pos: nat)
  {
    pos < |s|
    && (piece.Token? ==> MatchAt(s[pos..], keys).Some? && keys[MatchAt(s[pos..], keys).value] == piece.key)
    && (piece.Char? ==> MatchAt(s[pos..], keys).None? && s[pos] == piece.c)
  }

  /** A piece that fits a suffix of `s` fits `s` at the shifted position. */
  lemma FitsShift(s: string, keys: seq<string>, head: nat, piece: Piece, pos: nat, at: nat)
    requires head <= |s| && PieceFits(s[head..], keys, piece, pos) && at == head + pos
    ensures PieceFits(s, keys, piece, at)
  {
    assert s[head..][pos..] == s[head + pos..];
  }

  /** Where a key is chosen, the scan yields it whole and continues after it. */
  lemma ScanKey(s: string, keys: seq<string>, k: nat)
    requires NonEmptyKeys(keys) && MatchAt(s, keys) == Some(k)
    ensures Scan(s, keys) == [Token(keys[k])] + Scan(s[|keys[k]|..], keys)
  {
  }

  /** Where no key is chosen, the scan yields the character and continues after it. */
  lemma ScanChar(s: string, keys: seq<string>)
    requires NonEmptyKeys(keys) && s != [] && MatchAt(s, keys).None?
    ensures Scan(s, keys) == [Char(s[0])] + Scan(s[1..], keys)
  {
  }

  /** The scan of a non-empty text: its first piece, then the scan of what follows it. */
  lemma ScanFirst(s: string, keys: seq<string>)
    requires NonEmptyKeys(keys) && s != []
    ensures PieceFits(s, keys, Scan(s, keys)[0], 0)
    ensures |Spelling(Scan(s, keys)[0])| <= |s|
    ensures Scan(s, keys)[1..] == Scan(s[|Spelling(Scan(s, keys)[0])|..], keys)
  {
    assert s[0..] == s;
  }

  /** Piece `i > 0` of the scan of `s` is piece `i - 1` of the scan of what follows the
      first piece, and the text before it is the first piece's text and then the text
      before that one. */
  lemma ScanStep(s: string, keys: seq<string>, i: nat)
    requires NonEmptyKeys(keys) && 0 < i < |Scan(s, keys)|
    ensures var pieces := Scan(s, keys);
      var head := |Spelling(pieces[0])|;
      head <= |s| && i - 1 < |Scan(s[head..], keys)|
      && pieces[i] == Scan(s[head..], keys)[i - 1]
      && |Spell(pieces[..i])| == head + |Spell(Scan(s[head..], keys)[..i - 1])|
  {
    var pieces := Scan(s, keys);
    ScanFirst(s, keys);
    var tail := pieces[1..];
    assert pieces[..i] == [pieces[0]] + tail[..i - 1];
    assert Spell(pieces[..i]) == Spelling(pieces[0]) + Spell(tail[..i - 1]);
  }

  /** Piece `i` of the scan of `s` starts at the end of the text of the pieces before it,
      and it is what the regular expression engine finds at that position. */
  lemma {:induction false} ScanPiece(s: string, keys: seq<string>, i: nat)
    requires NonEmptyKeys(keys) && i < |Scan(s, keys)|
    ensures PieceFits(s, keys, Scan(s, keys)[i], |Spell(Scan(s, keys)[..i])|)
    decreases |s|
  {
    if i > 0 {
      ScanStep(s, keys, i);
      var head := |Spelling(Scan(s, keys)[0])|;
      var tail := Scan(s[head..], keys);
      ScanPiece(s[head..], keys, i - 1);
      assert Scan(s, keys)[i] == tail[i - 1];
      FitsShift(s, keys, head, Scan(s, keys)[i], |Spell(tail[..i - 1])|, |Spell(Scan(s, keys)[..i])|);
    } else {
      ScanFirst(s, keys);
      assert Scan(s, keys)[..0] == [];
    }
  }

  /** No key is shadowed by an earlier key that is a proper prefix of it, so the first
      match in table order is also the longest. */
  predicate LongerKeysFirst(keys: seq<string>)
  {
    forall i, j :: 0 <= i < j < |keys| && |keys[i]| < |keys[j]| ==> keys[j][..|keys[i]|] != keys[i]
  }

  /** Under that ordering the key chosen at a position is the longest key matching there. */
  lemma LongestMatch(s: string, keys: seq<string>, j: nat)
    requires LongerKeysFirst(keys) && j < |keys| && StartsWith(s, keys[j])
    ensures MatchAt(s, keys).Some? && |keys[j]| <= |keys[MatchAt(s, keys).value]|
  {
    MatchAtFirst(s, keys);
    var k := MatchAt(s, keys).value;
    CommonPrefix(s, keys[k], keys[j]);
  }

  /** Two prefixes of one text: the shorter is a prefix of the longer. */
  lemma CommonPrefix(s: string, a: string, b: string)
    requires StartsWith(s, a) && StartsWith(s, b)
    ensures |a| <= |b| ==> b[..|a|] == a
  {
    if |a| <= |b| {
      assert b[..|a|] == s[..|b|][..|a|] == s[..|a|];
    }
  }

  // ---------------------------------------------------------------- replacement

  /** A key's replacement text, `rule(key) || key`: an empty rule result leaves the key
      itself in the output. */
  function Substitute(key: string, rule: string -> string): (r: string)
    ensures rule(key) != [] ==> r == rule(key)
    ensures rule(key) == [] ==> r == key
  {
    var v := rule(key);
    if v == [] then key else v
  }

  function Render(p: Piece, rule: string -> string): string
  {
    match p
    case Token(k) => Substitute(k, rule)
    case Char(c) => [c]
  }

  function RenderAll(pieces: seq<Piece>, rule: string -> string): string
  {
    if pieces == [] then [] else Render(pieces[0], rule) + RenderAll(pieces[1..], rule)
  }

  /** `s.replace(new RegExp(keys.join('|'), 'g'), (m) => rule(m) || m)`. */
  function Replace(s: string, keys: seq<string>, rule: string -> string): string
    requires NonEmptyKeys(keys)
  {
    RenderAll(Scan(s, keys), rule)
  }

  /** Characters that start no key pass through: a text none of whose suffixes starts with a
      key is its own replacement. */
  lemma {:induction false} ReplaceKeyless(s: string, keys: seq<string>, rule: string -> string)
    requires NonEmptyKeys(keys)
    requires forall i :: 0 <= i < |s| ==> MatchAt(s[i..], keys).None?
    ensures Replace(s, keys, rule) == s
    decreases |s|
  {
    if s != [] {
      assert s[0..] == s;
      forall i | 0 <= i < |s[1..]| ensures MatchAt(s[1..][i..], keys).None? {
        assert s[1..][i..] == s[i + 1..];
      }
      ReplaceKeyless(s[1..], keys, rule);
      assert s == [s[0]] + s[1..];
    }
  }

  /** Replacement works piece by piece: a key at the front is replaced, then the rest. */
  lemma ReplaceKeyFirst(s: string, keys: seq<string>, rule: string -> string, k: nat)
    requires NonEmptyKeys(keys) && MatchAt(s, keys) == Some(k)
    ensures Replace(s, keys, rule) == Substitute(keys[k], rule) + Replace(s[|keys[k]|..], keys, rule)
  {
  }

  /** A character that starts no key is copied, then the rest is replaced. */
  lemma ReplaceCharFirst(s: string, keys: seq<string>, rule: string -> string)
    requires NonEmptyKeys(keys) && s != [] && MatchAt(s, keys).None?
    ensures Replace(s, keys, rule) == [s[0]] + Replace(s[1..], keys, rule)
  {
  }

  // ---------------------------------------------------------------- whole pattern

  /** `segments.map((segment, index) => ...)` from position `index` on: text at even
      positions is replaced, bracketed text at odd positions is stripped. */
  function ProcessPieces(pieces: seq<string>, index: nat, keys: seq<string>, rule: string -> string): (out: seq<string>)
    requires NonEmptyKeys(keys)
    ensures |out| == |pieces|
  {
    if pieces == [] then []
    else
      var head := if index % 2 == 0 then Replace(pieces[0], keys, rule) else StripBrackets(pieces[0]);
      [head] + ProcessPieces(pieces[1..], index + 1, keys, rule)
  }

  /** The formatter's pattern walk: split on bracket spans, process each piece, join. */
  function FormatPattern(pattern: string, keys: seq<string>, rule: string -> string): string
    requires NonEmptyKeys(keys)
  {
    Concat(ProcessPieces(SplitBrackets(pattern), 0, keys, rule))
  }

  /** Text without a bracket span is split into itself alone. */
  lemma SplitWithoutSpan(s: string)
    requires NoSpan(s)
    ensures SplitBrackets(s) == [s]
  {
  }

  /** A pattern with no bracket span is the replacement of the whole pattern. */
  lemma FormatWithoutBrackets(pattern: string, keys: seq<string>, rule: string -> string)
    requires NonEmptyKeys(keys) && NoSpan(pattern)
    ensures FormatPattern(pattern, keys, rule) == Replace(pattern, keys, rule)
  {
    SplitWithoutSpan(pattern);
    var out := ProcessPieces([pattern], 0, keys, rule);
    assert out == [Replace(pattern, keys, rule)];
    assert Concat(out) == out[0] + Concat(out[1..]);
  }

  /** Text before the first `[`, then a bracketed literal, then the rest. */
  lemma SplitAtLiteral(text: string, lit: string, rest: string)
    requires '[' !in text && ']' !in lit
    ensures SplitBrackets(text + "[" + lit + "]" + rest) == [text, "[" + lit + "]"] + SplitBrackets(rest)
  {
    var s := text + "[" + lit + "]" + rest;
    var p := |text|;
    var q := |text| + 1 + |lit|;
    assert s[..p] == text;
    assert s[p + 1..q] == lit;
    assert s[p..q + 1] == "[" + lit + "]";
    assert s[q + 1..] == rest;
    IndexOfFirst(s, '[', p);
    assert s[p + 1..][..|lit|] == lit;
    IndexOfFirst(s[p + 1..], ']', |lit|);
  }

  /** `IndexOf` finds the first occurrence. */
  lemma IndexOfFirst(s: string, c: char, p: nat)
    requires p < |s| && s[p] == c && c !in s[..p]
    ensures IndexOf(s, c) == Some(p)
  {
    var r := IndexOf(s, c);
    assert c in s by { assert s[p] == c; }
    assert forall i :: 0 <= i < p ==> s[..p][i] == s[i];
    assert forall i :: 0 <= i < r.value ==> s[..r.value][i] == s[i];
  }

  /** The first two pieces are a text piece and a bracketed piece. */
  lemma ProcessTwoThen(a: string, b: string, tail: seq<string>, keys: seq<string>, rule: string -> string)
    requires NonEmptyKeys(keys)
    ensures ProcessPieces([a, b] + tail, 0, keys, rule)
      == [Replace(a, keys, rule), StripBrackets(b)] + ProcessPieces(tail, 2, keys, rule)
  {
    assert ([a, b] + tail)[1..] == [b] + tail;
    assert ([b] + tail)[1..] == tail;
  }

  /** The walk over a text piece, a bracketed piece and further pieces. */
  lemma FormatTwoThen(a: string, b: string, tail: seq<string>, keys: seq<string>, rule: string -> string)
    requires NonEmptyKeys(keys)
    ensures Concat(ProcessPieces([a, b] + tail, 0, keys, rule))
      == Replace(a, keys, rule) + StripBrackets(b) + Concat(ProcessPieces(tail, 0, keys, rule))
  {
    ProcessTwoThen(a, b, tail, keys, rule);
    ProcessShift(tail, 0, keys, rule);
    ConcatTwoThen(Replace(a, keys, rule), StripBrackets(b), ProcessPieces(tail, 0, keys, rule));
  }

  /** The literal-passthrough law: text inside a bracket span is emitted verbatim, brackets
      removed, whatever keys it contains, and the text before it is replaced as usual. */
  lemma FormatLiteral(text: string, lit: string, rest: string, keys: seq<string>, rule: string -> string)
    requires NonEmptyKeys(keys) && '[' !in text && ']' !in lit
    ensures FormatPattern(text + "[" + lit + "]" + rest, keys, rule)
      == Replace(text, keys, rule) + lit + FormatPattern(rest, keys, rule)
  {
    var bracketed := "[" + lit + "]";
    SplitAtLiteral(text, lit, rest);
    FormatTwoThen(text, bracketed, SplitBrackets(rest), keys, rule);
    assert bracketed[1..|bracketed| - 1] == lit;
  }

  /** A pattern without brackets that starts with a key no earlier key matches: the key's
      replacement, then the rest of the pattern. */
  lemma FormatKeyFirst(key: string, rest: string, keys: seq<string>, rule: string -> string, k: nat)
    requires NonEmptyKeys(keys) && k < |keys| && keys[k] == key
    requires '[' !in key && '[' !in rest
    requires forall j :: 0 <= j < k ==> !StartsWith(key + rest, keys[j])
    ensures FormatPattern(key + rest, keys, rule) == Substitute(key, rule) + FormatPattern(rest, keys, rule)
  {
    var s := key + rest;
    assert s[..|key|] == key;
    MatchAtIs(s, keys, k);
    ReplaceKeyFirst(s, keys, rule, k);
    assert s[|key|..] == rest;
    NoOpenNoSpan(rest);
    FormatWithoutBrackets(rest, keys, rule);
    NoOpenNoSpan(s);
    FormatWithoutBrackets(s, keys, rule);
  }

  /** Only the parity of the starting index matters. */
  lemma {:induction false} ProcessShift(pieces: seq<string>, index: nat, keys: seq<string>, rule: string -> string)
    requires NonEmptyKeys(keys)
    ensures ProcessPieces(pieces, index + 2, keys, rule) == ProcessPieces(pieces, index, keys, rule)
    decreases |pieces|
  {
    if pieces != [] {
      ProcessShift(pieces[1..], index + 1, keys, rule);
      assert (index + 2) % 2 == index % 2;
      var head := if index % 2 == 0 then Replace(pieces[0], keys, rule) else StripBrackets(pieces[0]);
      assert ProcessPieces(pieces, index + 2, keys, rule) == [head] + ProcessPieces(pieces[1..], index + 3, keys, rule);
      assert ProcessPieces(pieces, index, keys, rule) == [head] + ProcessPieces(pieces[1..], index + 1, keys, rule);
    }
  }
}
