/** `createDatetimeParser` of src/features/Datetime/parser/parser.ts: a format is compiled
    into an anchored matcher of fixed-width digit captures and literal characters, the
    captures fill the date-time fields in the order their tokens appear, and the fields are
    resolved to an instant in the configured time zone. The whole formats `X` and `x` read
    epoch seconds and epoch milliseconds instead. */
module Parser {
  import opened Wrappers
  import opened Text
  import opened Calendar
  import opened Tokens
  import opened Host

  /** The fields of the `Parts` record. */
  datatype Field = Year | Month | Day | Hour | Minute | Second | Millisecond

  /** A `formatsMap` entry: the field a token fills and the digit count of its capture. */
  datatype Entry = Entry(field: Field, width: nat)

  /** The keys of `formatsMap`, in declaration order: the order of the alternation. */
  const Keys: seq<string> := ["YYYY", "MM", "DD", "HH", "mm", "ss", "sss"]

  lemma KeysNonEmpty()
    ensures NonEmptyKeys(Keys)
  {
  }

  /** `formatsMap[match]`, `None` when the matched text is not a key. */
  function EntryOf(key: string): (r: Option<Entry>)
    ensures r.Some? ==> key in Keys
    ensures key in Keys ==> r.Some?
  {
    if key == "YYYY" then Some(Entry(Year, 4))
    else if key == "MM" then Some(Entry(Month, 2))
    else if key == "DD" then Some(Entry(Day, 2))
    else if key == "HH" then Some(Entry(Hour, 2))
    else if key == "mm" then Some(Entry(Minute, 2))
    else if key == "ss" then Some(Entry(Second, 2))
    else if key == "sss" then Some(Entry(Millisecond, 3))
    else None
  }

  /** The digit count each field is captured with. */
  function FieldWidth(f: Field): nat
  {
    match f
    case Year => 4
    case Millisecond => 3
    case _ => 2
  }

  // The matcher

  /** One element of the regular expression `buildRegex` builds: a capture of exactly
      `width` decimal digits (`(\d{width})`), or one literal character. */
  datatype Atom = Digits(width: nat) | Literal(c: char)

  /** The regular-expression metacharacters; a format character among them would not stand
      for itself in the pattern. */
  const MetaCharacters: string := "^$\\.*+?()[]{}|"

  /** A format whose every character outside the tokens stands for itself. */
  predicate PlainFormat(format: string)
  {
    forall i :: 0 <= i < |format| ==> format[i] !in MetaCharacters
  }

  /** The matched text copied back into the pattern, one literal per character. */
  function LiteralsOf(s: string): seq<Atom>
  {
    if s == [] then [] else [Literal(s[0])] + LiteralsOf(s[1..])
  }

  /** Each character of the copied text becomes one literal, in order. */
  lemma {:induction false} LiteralsOfText(s: string)
    ensures |LiteralsOf(s)| == |s| && forall i :: 0 <= i < |s| ==> LiteralsOf(s)[i] == Literal(s[i])
    decreases |s|
  {
    if s != [] {
      var r := LiteralsOf(s[1..]);
      LiteralsOfText(s[1..]);
      assert LiteralsOf(s) == [Literal(s[0])] + r;
      forall i | 1 <= i < |s| ensures LiteralsOf(s)[i] == Literal(s[i]) {
        assert LiteralsOf(s)[i] == r[i - 1] && s[1..][i - 1] == s[i];
      }
    }
  }

  /** What the `replace` callback puts in the pattern for one piece of the scan. */
  function AtomsOfPiece(p: Piece): seq<Atom>
  {
    match p
    case Char(c) => [Literal(c)]
    case Token(k) =>
      match EntryOf(k)
      case None => LiteralsOf(k)
      case Some(e) => [Digits(e.width)]
  }

  /** What the `replace` callback pushes on `groupOrder` for one piece of the scan. */
  function GroupsOfPiece(p: Piece): seq<Field>
  {
    match p
    case Char(_) => []
    case Token(k) =>
      match EntryOf(k)
      case None => []
      case Some(e) => [e.field]
  }

  function AtomsOf(pieces: seq<Piece>): seq<Atom>
  {
    if pieces == [] then [] else AtomsOf(pieces[..|pieces| - 1]) + AtomsOfPiece(pieces[|pieces| - 1])
  }

  function GroupsOf(pieces: seq<Piece>): seq<Field>
  {
    if pieces == [] then [] else GroupsOf(pieces[..|pieces| - 1]) + GroupsOfPiece(pieces[|pieces| - 1])
  }

  /** The pattern `buildRegex` builds for `format`, as a sequence of atoms. */
  function Compile(format: string): seq<Atom>
  {
    KeysNonEmpty();
    AtomsOf(Scan(format, Keys))
  }

  /** The `groupOrder` `buildRegex` builds for `format`. */
  function Groups(format: string): seq<Field>
  {
    KeysNonEmpty();
    GroupsOf(Scan(format, Keys))
  }

  /** `buildRegex`: one pass of the global scan over `format`; each key found becomes a
      digit capture and pushes its field on `groupOrder`, every other character is copied. */
  method BuildRegex(format: string) returns (atoms: seq<Atom>, groupOrder: seq<Field>)
    ensures atoms == Compile(format) && groupOrder == Groups(format)
  {
    KeysNonEmpty();
    var pieces := Scan(format, Keys);
    atoms := [];
    groupOrder := [];
    var i := 0;
    while i < |pieces|
      invariant 0 <= i <= |pieces|
      invariant atoms == AtomsOf(pieces[..i]) && groupOrder == GroupsOf(pieces[..i])
    {
      ghost var before, groupsBefore := atoms, groupOrder;
      var piece := pieces[i];
      match piece {
        case Char(c) =>
          atoms := atoms + [Literal(c)];
        case Token(k) =>
          var entry := EntryOf(k);
          if entry.None? {
            atoms := atoms + LiteralsOf(k);
          } else {
            groupOrder := groupOrder + [entry.value.field];
            atoms := atoms + [Digits(entry.value.width)];
          }
      }
      assert atoms == before + AtomsOfPiece(piece) && groupOrder == groupsBefore + GroupsOfPiece(piece);
      assert pieces[..i + 1][..i] == pieces[..i] && pieces[..i + 1][i] == piece;
      i := i + 1;
    }
    assert pieces[..|pieces|] == pieces;
  }

  /** The widths of the digit captures of a pattern, in order. */
  function Widths(atoms: seq<Atom>): seq<nat>
  {
    if atoms == [] then []
    else
      match atoms[0]
      case Digits(w) => [w] + Widths(atoms[1..])
      case Literal(_) => Widths(atoms[1..])
  }

  lemma {:induction false} WidthsAppend(a: seq<Atom>, b: seq<Atom>)
    ensures Widths(a + b) == Widths(a) + Widths(b)
    decreases |a|
  {
    if a == [] {
      assert a + b == b;
    } else {
      assert (a + b)[0] == a[0];
      assert (a + b)[1..] == a[1..] + b;
      WidthsAppend(a[1..], b);
    }
  }

  lemma {:induction false} LiteralsHaveNoWidths(s: string)
    ensures Widths(LiteralsOf(s)) == []
    decreases |s|
  {
    if s != [] {
      LiteralsHaveNoWidths(s[1..]);
    }
  }

  /** The captures of the pattern and the recorded groups agree one to one: capture `k`
      has the width of the field recorded `k`-th. */
  lemma {:induction false} GroupsMatchWidths(pieces: seq<Piece>)
    ensures |Widths(AtomsOf(pieces))| == |GroupsOf(pieces)|
    ensures forall k :: 0 <= k < |GroupsOf(pieces)| ==> Widths(AtomsOf(pieces))[k] == FieldWidth(GroupsOf(pieces)[k])
    decreases |pieces|
  {
    if pieces != [] {
      var init := pieces[..|pieces| - 1];
      var last := pieces[|pieces| - 1];
      GroupsMatchWidths(init);
      WidthsAppend(AtomsOf(init), AtomsOfPiece(last));
      PieceWidths(last);
      var ws, gs := Widths(AtomsOf(init)), GroupsOf(init);
      var pw, pg := Widths(AtomsOfPiece(last)), GroupsOfPiece(last);
      assert Widths(AtomsOf(pieces)) == ws + pw;
      assert GroupsOf(pieces) == gs + pg;
      forall k | 0 <= k < |gs + pg| ensures (ws + pw)[k] == FieldWidth((gs + pg)[k]) {
        if k < |gs| {
          assert (ws + pw)[k] == ws[k] && (gs + pg)[k] == gs[k];
        } else {
          assert (ws + pw)[k] == pw[k - |ws|] && (gs + pg)[k] == pg[k - |gs|];
        }
      }
    }
  }

  /** The captures of one piece are paired with the fields it records. */
  lemma PieceWidths(p: Piece)
    ensures |Widths(AtomsOfPiece(p))| == |GroupsOfPiece(p)|
    ensures forall k :: 0 <= k < |GroupsOfPiece(p)| ==> Widths(AtomsOfPiece(p))[k] == FieldWidth(GroupsOfPiece(p)[k])
  {
    match p
    case Char(c) =>
      assert Widths([Literal(c)]) == [];
    case Token(k) =>
      match EntryOf(k)
      case None =>
        LiteralsHaveNoWidths(k);
      case Some(e) =>
        assert Widths([Digits(e.width)]) == [e.width];
  }

  /** Every capture of a compiled format is paired with the field recorded at its position,
      and has that field's width: 4 digits for the year, 2 for the others. */
  lemma CompiledGroups(format: string)
    ensures |Widths(Compile(format))| == |Groups(format)|
    ensures forall k :: 0 <= k < |Groups(format)| ==> Widths(Compile(format))[k] == FieldWidth(Groups(format)[k])
  {
    KeysNonEmpty();
    GroupsMatchWidths(Scan(format, Keys));
  }

  /** Where `sss` starts, `ss` starts too, and it comes first in the alternation: the
      alternation never picks `sss`. */
  lemma MillisecondKeyNeverChosen(s: string)
    ensures MatchAt(s, Keys).Some? ==> Keys[MatchAt(s, Keys).value] != "sss"
  {
    MatchAtFirst(s, Keys);
    forall j | 0 <= j < 6 ensures |Keys[j]| != 3 {
    }
    assert StartsWith(s, Keys[6]) ==> StartsWith(s, Keys[5]);
  }

  /** Where `sss` starts, `ss` starts too, and it comes first in the alternation: the scan
      never yields the key `sss`. */
  lemma {:induction false} NoMillisecondToken(s: string)
    ensures NonEmptyKeys(Keys) && Token("sss") !in Scan(s, Keys)
    decreases |s|
  {
    KeysNonEmpty();
    if s != [] {
      var pieces := Scan(s, Keys);
      ScanFirst(s, Keys);
      MillisecondKeyNeverChosen(s);
      assert s[0..] == s;
      assert pieces[0] != Token("sss");
      NoMillisecondToken(s[|Spelling(pieces[0])|..]);
      assert pieces == [pieces[0]] + pieces[1..];
    }
  }

  lemma {:induction false} NoMillisecondGroupOf(pieces: seq<Piece>)
    requires Token("sss") !in pieces
    ensures Millisecond !in GroupsOf(pieces)
    decreases |pieces|
  {
    if pieces != [] {
      var init := pieces[..|pieces| - 1];
      assert forall p :: p in init ==> p in pieces;
      NoMillisecondGroupOf(init);
    }
  }

  /** No format ever records a millisecond group: the `sss` entry is unreachable. */
  lemma NoMillisecondGroup(format: string)
    ensures Millisecond !in Groups(format)
  {
    KeysNonEmpty();
    NoMillisecondToken(format);
    NoMillisecondGroupOf(Scan(format, Keys));
  }

  lemma ConcatAssoc<T>(x: seq<T>, y: seq<T>, z: seq<T>)
    ensures x + y + z == x + (y + z)
  {
  }

  lemma {:induction false} AtomsOfAppend(a: seq<Piece>, b: seq<Piece>)
    ensures AtomsOf(a + b) == AtomsOf(a) + AtomsOf(b)
    decreases |b|
  {
    if b == [] {
      assert a + b == a;
    } else {
      var m := |b| - 1;
      var ab := a + b;
      var init := ab[..|ab| - 1];
      assert init == a + b[..m];
      assert ab[|ab| - 1] == b[m];
      AtomsOfAppend(a, b[..m]);
      var x, y, z := AtomsOf(a), AtomsOf(b[..m]), AtomsOfPiece(b[m]);
      assert AtomsOf(ab) == AtomsOf(init) + z;
      assert AtomsOf(init) == x + y;
      assert AtomsOf(b) == y + z;
      ConcatAssoc(x, y, z);
    }
  }

  lemma {:induction false} GroupsOfAppend(a: seq<Piece>, b: seq<Piece>)
    ensures GroupsOf(a + b) == GroupsOf(a) + GroupsOf(b)
    decreases |b|
  {
    if b == [] {
      assert a + b == a;
    } else {
      var m := |b| - 1;
      var ab := a + b;
      var init := ab[..|ab| - 1];
      assert init == a + b[..m];
      assert ab[|ab| - 1] == b[m];
      GroupsOfAppend(a, b[..m]);
      var x, y, z := GroupsOf(a), GroupsOf(b[..m]), GroupsOfPiece(b[m]);
      assert GroupsOf(ab) == GroupsOf(init) + z;
      assert GroupsOf(init) == x + y;
      assert GroupsOf(b) == y + z;
      ConcatAssoc(x, y, z);
    }
  }

  /** At a position holding `sss`, the alternation picks `ss`. */
  lemma SecondsFirst(s: string)
    requires StartsWith(s, "sss")
    ensures MatchAt(s, Keys) == Some(5)
  {
    assert s[0] == 's';
    forall j | 0 <= j < 5 ensures !StartsWith(s, Keys[j]) {
      assert Keys[j][0] != 's';
    }
    assert StartsWith(s, Keys[5]);
    MatchAtIs(s, Keys, 5);
  }

  /** A lone `s` starts no key. */
  lemma LoneS(s: string)
    requires s != [] && s[0] == 's' && (|s| == 1 || s[1] != 's')
    ensures MatchAt(s, Keys).None?
  {
    forall j | 0 <= j < |Keys| ensures !StartsWith(s, Keys[j]) {
      assert |Keys[j]| >= 2 && (Keys[j][0] != 's' || Keys[j][1] == 's');
    }
  }

  /** At a position holding `sss` the scan takes the key `ss`. */
  lemma ScanAtSss(s: string)
    requires StartsWith(s, "sss")
    ensures NonEmptyKeys(Keys) && Scan(s, Keys) == [Token("ss")] + Scan(s[2..], Keys)
  {
    KeysNonEmpty();
    SecondsFirst(s);
    ScanKey(s, Keys, 5);
    assert Keys[5] == "ss";
  }

  /** At a lone `s` the scan takes the character. */
  lemma ScanAtLoneS(t: string)
    requires t != [] && t[0] == 's' && (|t| == 1 || t[1] != 's')
    ensures NonEmptyKeys(Keys) && Scan(t, Keys) == [Char('s')] + Scan(t[1..], Keys)
  {
    KeysNonEmpty();
    LoneS(t);
    ScanChar(t, Keys);
  }

  /** The scan of `sss` followed by text not starting with `s`: the key `ss`, the character
      `s`, then the scan of the text. */
  lemma ScanSss(rest: string)
    requires rest == [] || rest[0] != 's'
    ensures NonEmptyKeys(Keys) && Scan("sss" + rest, Keys) == [Token("ss"), Char('s')] + Scan(rest, Keys)
  {
    var s := "sss" + rest;
    var t := "s" + rest;
    assert s[..3] == "sss" && s[2..] == t && t[1..] == rest;
    ScanAtSss(s);
    ScanAtLoneS(t);
    var r := Scan(rest, Keys);
    assert Scan(s, Keys) == [Token("ss")] + ([Char('s')] + r);
    ConcatAssoc([Token("ss")], [Char('s')], r);
    assert [Token("ss")] + [Char('s')] == [Token("ss"), Char('s')];
  }

  /** `sss` in a format is read as the seconds token `ss` followed by a literal `s`. */
  lemma SssIsSecondsThenS(rest: string)
    requires rest == [] || rest[0] != 's'
    ensures Compile("sss" + rest) == [Digits(2), Literal('s')] + Compile(rest)
    ensures Groups("sss" + rest) == [Second] + Groups(rest)
  {
    ScanSss(rest);
    var head := [Token("ss"), Char('s')];
    SssHead();
    AtomsOfAppend(head, Scan(rest, Keys));
    GroupsOfAppend(head, Scan(rest, Keys));
  }

  /** The key `ss` and the character `s` compile to a two-digit capture and a literal `s`,
      and record the seconds. */
  lemma SssHead()
    ensures AtomsOf([Token("ss"), Char('s')]) == [Digits(2), Literal('s')]
    ensures GroupsOf([Token("ss"), Char('s')]) == [Second]
  {
    var head := [Token("ss"), Char('s')];
    assert head[..1] == [Token("ss")];
  }

  /** The anchored match `^pattern$` against `s`: the captured digit strings, in order. The
      pattern has no alternation and no quantifier other than fixed counts, so the match is
      unique when it exists. */
  function Match(atoms: seq<Atom>, s: string): (r: Option<seq<string>>)
    ensures r.Some? ==> CapturesFit(atoms, r.value) && Render(atoms, r.value) == s
    decreases |atoms|
  {
    if atoms == [] then
      if s == [] then Some([]) else None
    else
      match atoms[0]
      case Literal(c) =>
        if s != [] && s[0] == c then Match(atoms[1..], s[1..]) else None
      case Digits(w) =>
        if w <= |s| && AllDigits(s[..w]) then
          match Match(atoms[1..], s[w..])
          case None => None
          case Some(caps) =>
            assert s == s[..w] + s[w..];
            Some([s[..w]] + caps)
        else None
  }

  /** Captures that fit a pattern: one per digit capture, each of exactly its width and
      made of decimal digits. */
  predicate CapturesFit(atoms: seq<Atom>, caps: seq<string>)
  {
    |caps| == |Widths(atoms)|
    && forall k :: 0 <= k < |caps| ==> |caps[k]| == Widths(atoms)[k] && AllDigits(caps[k])
  }

  /** The text a pattern matches with the given captures: its literals, with each capture in
      place of its digit group. */
  function Render(atoms: seq<Atom>, caps: seq<string>): string
    requires |caps| == |Widths(atoms)|
    decreases |atoms|
  {
    if atoms == [] then []
    else
      match atoms[0]
      case Literal(c) => [c] + Render(atoms[1..], caps)
      case Digits(_) => caps[0] + Render(atoms[1..], caps[1..])
  }

  /** Conversely, every text a pattern renders to is matched, with those captures: together
      with `Match`'s contract, `s` matches exactly when it is the whole of such a text. */
  lemma {:induction false} MatchComplete(atoms: seq<Atom>, caps: seq<string>)
    requires CapturesFit(atoms, caps)
    ensures Match(atoms, Render(atoms, caps)) == Some(caps)
    decreases |atoms|
  {
    if atoms != [] {
      var s := Render(atoms, caps);
      match atoms[0]
      case Literal(c) =>
        MatchComplete(atoms[1..], caps);
        assert s[1..] == Render(atoms[1..], caps);
      case Digits(w) =>
        assert Widths(atoms)[0] == w;
        assert CapturesFit(atoms[1..], caps[1..]) by {
          forall k | 0 <= k < |caps[1..]| ensures |caps[1..][k]| == Widths(atoms[1..])[k] {
            assert caps[1..][k] == caps[k + 1];
          }
        }
        MatchComplete(atoms[1..], caps[1..]);
        var rest := Render(atoms[1..], caps[1..]);
        assert s == caps[0] + rest;
        assert s[..w] == caps[0] && s[w..] == rest;
        assert caps == [caps[0]] + caps[1..];
    }
  }

  // Filling the fields

  /** `parts` after the `forEach` over `groupOrder`: each capture, read by `parseInt`, is
      stored under its field, a later capture replacing an earlier one. */
  function Filled(groups: seq<Field>, caps: seq<string>): (parts: map<Field, int>)
    requires |caps| == |groups| && forall i :: 0 <= i < |caps| ==> AllDigits(caps[i])
    decreases |groups|
  {
    if groups == [] then map[]
    else
      var n := |groups| - 1;
      Filled(groups[..n], caps[..n])[groups[n] := DecimalValue(caps[n])]
  }

  /** The filled parts have a value exactly for the fields recorded. */
  lemma {:induction false} FilledFields(groups: seq<Field>, caps: seq<string>)
    requires |caps| == |groups| && forall i :: 0 <= i < |caps| ==> AllDigits(caps[i])
    ensures forall f :: f in Filled(groups, caps) <==> f in groups
    decreases |groups|
  {
    if groups != [] {
      var n := |groups| - 1;
      FilledFields(groups[..n], caps[..n]);
      assert groups == groups[..n] + [groups[n]];
    }
  }

  /** A field recorded several times takes the value of its last capture. */
  lemma {:induction false} LastCaptureWins(groups: seq<Field>, caps: seq<string>, i: nat)
    requires |caps| == |groups| && forall j :: 0 <= j < |caps| ==> AllDigits(caps[j])
    requires i < |groups| && forall j :: i < j < |groups| ==> groups[j] != groups[i]
    ensures groups[i] in Filled(groups, caps) && Filled(groups, caps)[groups[i]] == DecimalValue(caps[i])
    decreases |groups|
  {
    var n := |groups| - 1;
    if i < n {
      LastCaptureWins(groups[..n], caps[..n], i);
    }
  }

  /** One more step of the `forEach` stores capture `i` under field `i`. */
  lemma FilledStep(groups: seq<Field>, caps: seq<string>, i: nat)
    requires |caps| == |groups| && forall j :: 0 <= j < |caps| ==> AllDigits(caps[j])
    requires i < |groups|
    ensures Filled(groups[..i + 1], caps[..i + 1])
      == Filled(groups[..i], caps[..i])[groups[i] := DecimalValue(caps[i])]
  {
    var gs, cs := groups[..i + 1], caps[..i + 1];
    assert gs[..i] == groups[..i] && gs[i] == groups[i];
    assert cs[..i] == caps[..i] && cs[i] == caps[i];
  }

  /** `groupOrder.forEach((key, i) => { parts[key] = parseInt(m[i + 1], 10); })`. */
  method FillParts(groupOrder: seq<Field>, captures: seq<string>) returns (parts: map<Field, int>)
    requires |captures| == |groupOrder|
    requires forall i :: 0 <= i < |captures| ==> captures[i] != [] && AllDigits(captures[i])
    ensures parts == Filled(groupOrder, captures)
  {
    parts := map[];
    var i := 0;
    while i < |groupOrder|
      invariant 0 <= i <= |groupOrder|
      invariant parts == Filled(groupOrder[..i], captures[..i])
    {
      var value := ParseInt(captures[i]);
      ParseIntOfDigits(captures[i]);
      parts := parts[groupOrder[i] := value.value];
      FilledStep(groupOrder, captures, i);
      i := i + 1;
    }
    assert groupOrder[..|groupOrder|] == groupOrder;
    assert captures[..|captures|] == captures;
  }

  // Defaults, checks and resolution

  /** The `datetimeParts` record. */
  datatype DateTimeParts = DateTimeParts(year: int, month: int, day: int, hour: int, minute: int, second: int, millisecond: int)

  const MandatoryMessage: string := "Year, Month and Day mandatory"

  /** A field that is absent or zero: what `!value` tests for an integer. */
  predicate Falsy(parts: map<Field, int>, f: Field)
  {
    f !in parts || parts[f] == 0
  }

  /** A time field with its default of 0. */
  function OrZero(parts: map<Field, int>, f: Field): (v: int)
    ensures f in parts ==> v == parts[f]
    ensures f !in parts ==> v == 0
  {
    if f in parts then parts[f] else 0
  }

  /** The destructuring with zero defaults and the mandatory-fields check. */
  function ApplyDefaults(parts: map<Field, int>): (r: Result<DateTimeParts, string>)
    ensures r.Err? <==> Falsy(parts, Year) || Falsy(parts, Month) || Falsy(parts, Day)
    ensures r.Err? ==> r.error == MandatoryMessage
    ensures r.Ok? ==> r.value.year == parts[Year] && r.value.month == parts[Month] && r.value.day == parts[Day]
    ensures r.Ok? ==> (r.value.hour == OrZero(parts, Hour) && r.value.minute == OrZero(parts, Minute)
      && r.value.second == OrZero(parts, Second) && r.value.millisecond == OrZero(parts, Millisecond))
  {
    if Falsy(parts, Year) || Falsy(parts, Month) || Falsy(parts, Day) then Err(MandatoryMessage)
    else
      Ok(DateTimeParts(parts[Year], parts[Month], parts[Day],
        OrZero(parts, Hour), OrZero(parts, Minute), OrZero(parts, Second), OrZero(parts, Millisecond)))
  }

  function Clamp(x: int, lo: int, hi: int): (r: int)
    requires lo <= hi
    ensures lo <= r <= hi
    ensures lo <= x <= hi ==> r == x
  {
    if x < lo then lo else if x > hi then hi else x
  }

  /** Temporal's `overflow: 'constrain'`: each field is clamped into its range, the day into
      the days of the clamped month. */
  function Constrain(p: DateTimeParts): (r: DateTimeParts)
    ensures ValidCivil(Civil(r.year, r.month, r.day))
    ensures 0 <= r.hour < 24 && 0 <= r.minute < 60 && 0 <= r.second < 60 && 0 <= r.millisecond < 1000
    ensures ValidParts(p) ==> r == p
  {
    var month := Clamp(p.month, 1, 12);
    DateTimeParts(p.year, month, Clamp(p.day, 1, DaysInMonth(p.year, month)),
      Clamp(p.hour, 0, 23), Clamp(p.minute, 0, 59), Clamp(p.second, 0, 59), Clamp(p.millisecond, 0, 999))
  }

  /** Fields that already name a real wall-clock time. */
  predicate ValidParts(p: DateTimeParts)
  {
    ValidCivil(Civil(p.year, p.month, p.day))
    && 0 <= p.hour < 24 && 0 <= p.minute < 60 && 0 <= p.second < 60 && 0 <= p.millisecond < 1000
  }

  /** The first and last days Temporal represents: -271821-04-19 and +275760-09-13. */
  function EarliestDay(): int { DaysFromCivil(-271821, 4, 19) }
  function LatestDay(): int { DaysFromCivil(275760, 9, 13) }

  const NonexistentMessage: string := "Nonexistent calendar date: [object Object]"

  /** `assertValidDatetime`: `PlainDate.from` and `PlainTime.from` with their default
      `constrain` overflow reject a month or day below 1 and a date outside Temporal's range,
      and clamp everything else. `None` when nothing is thrown. */
  function AssertValidDatetime(p: DateTimeParts): (r: Option<string>)
    ensures r.Some? ==> r.value == NonexistentMessage
    ensures r.None? <==> (1 <= p.month && 1 <= p.day
      && EarliestDay() <= DaysFromCivil(Constrain(p).year, Constrain(p).month, Constrain(p).day) <= LatestDay())
  {
    if p.month < 1 || p.day < 1 then Some(NonexistentMessage)
    else
      var c := Constrain(p);
      var n := DaysFromCivil(c.year, c.month, c.day);
      if n < EarliestDay() || n > LatestDay() then Some(NonexistentMessage) else None
  }

  /** Every year a four-digit capture can hold lies inside Temporal's range. */
  lemma FourDigitYearsInRange(p: DateTimeParts)
    requires 1 <= p.year <= 9999 && 1 <= p.month && 1 <= p.day
    ensures AssertValidDatetime(p).None?
  {
    var c := Constrain(p);
    DaysFromCivilBounds(Civil(c.year, c.month, c.day));
    DaysFromCivilBounds(Civil(-271821, 4, 19));
    DaysFromCivilBounds(Civil(275760, 9, 13));
    DaysBeforeYearMonotone(-271820, c.year);
    DaysBeforeYearMonotone(c.year + 1, 275760);
  }

  /** The result of `new Date(v)`: a time value, or Invalid Date for `NaN` and for values
      beyond 8.64e15 milliseconds either side of the epoch (TimeClip). */
  datatype JsDate = Time(ms: int) | InvalidDate

  const MaxTime: int := 8_640_000_000_000_000

  function NewDate(v: Option<int>): (d: JsDate)
    ensures d.Time? <==> v.Some? && -MaxTime <= v.value <= MaxTime
    ensures d.Time? ==> d.ms == v.value
  {
    match v
    case None => InvalidDate
    case Some(x) => if -MaxTime <= x <= MaxTime then Time(x) else InvalidDate
  }

  /** The configured time zone: the instant, in epoch milliseconds, of a constrained
      wall-clock date and time (`Temporal.ZonedDateTime.from(...).toInstant()`). */
  type Zone = DateTimeParts -> int

  /** The `UTC` zone: the wall clock is the instant. */
  function Utc(p: DateTimeParts): int
  {
    MakeDate(MakeDay(p.year, p.month - 1, p.day), MakeTime(p.hour, p.minute, p.second, p.millisecond))
  }

  /** In `UTC` a valid wall-clock time resolves to the instant of its day and time of day. */
  lemma UtcInstant(p: DateTimeParts)
    requires ValidParts(p)
    ensures Utc(p) == MakeDate(DaysFromCivil(p.year, p.month, p.day), MakeTime(p.hour, p.minute, p.second, p.millisecond))
  {
    MakeDayInRange(p.year, p.month - 1, p.day);
  }

  /** In `UTC` a valid wall-clock time resolves to an instant with exactly its date. */
  lemma UtcDate(p: DateTimeParts)
    requires ValidParts(p)
    ensures YearFromTime(Utc(p)) == p.year && MonthFromTime(Utc(p)) == p.month - 1 && DateFromTime(Utc(p)) == p.day
  {
    UtcInstant(p);
    var time := MakeTime(p.hour, p.minute, p.second, p.millisecond);
    assert 0 <= time < MsPerDay;
    FieldsOfMakeDate(Civil(p.year, p.month, p.day), time);
  }

  /** In `UTC` a valid wall-clock time resolves to an instant with exactly its time of day. */
  lemma UtcTime(p: DateTimeParts)
    requires ValidParts(p)
    ensures HourFromTime(Utc(p)) == p.hour && MinFromTime(Utc(p)) == p.minute
    ensures SecFromTime(Utc(p)) == p.second && MsFromTime(Utc(p)) == p.millisecond
  {
    UtcInstant(p);
    MakeTimeFields(DaysFromCivil(p.year, p.month, p.day), p.hour, p.minute, p.second, p.millisecond);
  }

  /** The message of the error thrown when the input does not match the format. */
  function MismatchMessage(s: string, format: string): (msg: string)
    ensures Contains(msg, s) && Contains(msg, format)
  {
    var open := "La fecha \"";
    var middle := "\" no coincide con el formato \"";
    ContainsInfix(open, s, middle + format + "\".");
    ContainsInfix(open + s + middle, format, "\".");
    assert open + s + middle + format + "\"." == open + s + (middle + format + "\".");
    open + s + middle + format + "\"."
  }

  /** What `parseWithFormat` returns or throws (as `Err` with the error's message). */
  function ParsedWithFormat(s: string, format: string, zone: Zone): Result<JsDate, string>
  {
    match Match(Compile(format), s)
    case None => Err(MismatchMessage(s, format))
    case Some(caps) =>
      CapturesFitGroups(format, caps);
      match ApplyDefaults(Filled(Groups(format), caps))
      case Err(e) => Err(e)
      case Ok(p) =>
        match AssertValidDatetime(p)
        case Some(e) => Err(e)
        case None => Ok(NewDate(Some(zone(Constrain(p)))))
  }

  /** The captures of a match are as many as the recorded groups, and are digit strings. */
  lemma CapturesFitGroups(format: string, caps: seq<string>)
    requires CapturesFit(Compile(format), caps)
    ensures |caps| == |Groups(format)|
    ensures forall i :: 0 <= i < |caps| ==> caps[i] != [] && AllDigits(caps[i])
  {
    CompiledGroups(format);
    forall i | 0 <= i < |caps| ensures caps[i] != [] {
      assert |caps[i]| == FieldWidth(Groups(format)[i]);
    }
  }

  /** `parseWithFormat(dateString, format, timeZone)`. */
  method ParseWithFormat(s: string, format: string, zone: Zone) returns (r: Result<JsDate, string>)
    requires PlainFormat(format)
    ensures r == ParsedWithFormat(s, format, zone)
  {
    var atoms, groupOrder := BuildRegex(format);
    var m := Match(atoms, s);
    if m.None? {
      return Err(MismatchMessage(s, format));
    }
    CapturesFitGroups(format, m.value);
    var parts := FillParts(groupOrder, m.value);
    var fields := ApplyDefaults(parts);
    if fields.Err? {
      return Err(fields.error);
    }
    var invalid := AssertValidDatetime(fields.value);
    if invalid.Some? {
      return Err(invalid.value);
    }
    var instant := zone(Constrain(fields.value));
    r := Ok(NewDate(Some(instant)));
  }

  /** The parser `createDatetimeParser` returns, applied to `dateString` and `format`. */
  function Parsed(s: string, format: string, zone: Zone): Result<JsDate, string>
  {
    if format == "X" then
      Ok(NewDate(match JsNumber(s) case None => None case Some(secs) => Some(secs * 1000)))
    else if format == "x" then
      Ok(NewDate(JsNumber(s)))
    else
      ParsedWithFormat(s, format, zone)
  }

  /** `createDatetimeParser(options)(dateString, format)`. */
  method Parse(s: string, format: string, zone: Zone) returns (r: Result<JsDate, string>)
    requires PlainFormat(format)
    ensures r == Parsed(s, format, zone)
  {
    if format == "X" {
      var secs := JsNumber(s);
      r := Ok(NewDate(match secs case None => None case Some(v) => Some(v * 1000)));
    } else if format == "x" {
      r := Ok(NewDate(JsNumber(s)));
    } else {
      r := ParseWithFormat(s, format, zone);
    }
  }

  // Properties

  /** Every format other than `X` and `x` that the input does not match throws an error
      naming both the input and the format. */
  lemma MismatchNamesBoth(s: string, format: string, zone: Zone)
    requires format != "X" && format != "x" && Match(Compile(format), s).None?
    ensures Parsed(s, format, zone).Err?
    ensures Contains(Parsed(s, format, zone).error, s) && Contains(Parsed(s, format, zone).error, format)
  {
  }

  /** A matched input without a non-zero year, month and day throws the mandatory-fields
      error, before any calendar check. */
  lemma MandatoryFields(s: string, format: string, zone: Zone)
    requires format != "X" && format != "x" && Match(Compile(format), s).Some?
    requires CapturesFit(Compile(format), Match(Compile(format), s).value)
    requires var caps := Match(Compile(format), s).value;
      |caps| == |Groups(format)| && (forall i :: 0 <= i < |caps| ==> AllDigits(caps[i]))
      && (Falsy(Filled(Groups(format), caps), Year) || Falsy(Filled(Groups(format), caps), Month)
        || Falsy(Filled(Groups(format), caps), Day))
    ensures Parsed(s, format, zone) == Err(MandatoryMessage)
  {
  }

  /** Reading back the formatter's `X` output with `X` gives the instant rounded down to
      the whole second. */
  lemma SecondsRoundTrip(t: int, zone: Zone)
    requires -MaxTime <= t / 1000 * 1000 <= MaxTime
    ensures Parsed(Timestamp(t), "X", zone) == Ok(Time(t / 1000 * 1000))
  {
    TimestampsReadBack(t);
  }

  /** Reading back the formatter's `x` output with `x` gives the instant itself. */
  lemma MillisecondsRoundTrip(t: int, zone: Zone)
    requires -MaxTime <= t <= MaxTime
    ensures Parsed(TimestampMs(t), "x", zone) == Ok(Time(t))
  {
    TimestampsReadBack(t);
    ParsedEpochMs(TimestampMs(t), zone, t);
  }

  /** The whole format `x` reads a text whose `Number` is a time value as that instant. */
  lemma ParsedEpochMs(s: string, zone: Zone, t: int)
    requires JsNumber(s) == Some(t) && -MaxTime <= t <= MaxTime
    ensures Parsed(s, "x", zone) == Ok(Time(t))
  {
    assert "x" != "X";
  }
  /** The contribution of a first piece and the rest of the scan. */
  lemma CompileFirst(s: string, head: Piece, tail: seq<Piece>)
    requires NonEmptyKeys(Keys) && Scan(s, Keys) == [head] + tail
    ensures Compile(s) == AtomsOfPiece(head) + AtomsOf(tail)
    ensures Groups(s) == GroupsOfPiece(head) + GroupsOf(tail)
  {
    AtomsOfAppend([head], tail);
    GroupsOfAppend([head], tail);
    assert [head][..0] == [];
    assert AtomsOf([head]) == AtomsOfPiece(head);
    assert GroupsOf([head]) == GroupsOfPiece(head);
  }

  /** Where a key matches first, the pattern starts with that key's contribution. */
  lemma CompileKey(s: string, k: nat)
    requires k < |Keys| && MatchAt(s, Keys) == Some(k)
    ensures Compile(s) == AtomsOfPiece(Token(Keys[k])) + Compile(s[|Keys[k]|..])
    ensures Groups(s) == GroupsOfPiece(Token(Keys[k])) + Groups(s[|Keys[k]|..])
  {
    KeysNonEmpty();
    var rest := s[|Keys[k]|..];
    var tail := Scan(rest, Keys);
    assert Scan(s, Keys) == [Token(Keys[k])] + tail;
    CompileFirst(s, Token(Keys[k]), tail);
  }

  /** Where no key matches, the pattern starts with the character as a literal. */
  lemma CompileChar(s: string)
    requires s != [] && MatchAt(s, Keys).None?
    ensures Compile(s) == [Literal(s[0])] + Compile(s[1..])
    ensures Groups(s) == Groups(s[1..])
  {
    KeysNonEmpty();
    var tail := Scan(s[1..], Keys);
    assert Scan(s, Keys) == [Char(s[0])] + tail;
    CompileFirst(s, Char(s[0]), tail);
  }

  /** The date keys `YYYY`, `MM` and `DD` start with letters no earlier key starts with, so
      each is read whole wherever it appears. */
  lemma CompileDateKey(k: nat, rest: string)
    requires k <= 2
    ensures Compile(Keys[k] + rest) == [Digits(if k == 0 then 4 else 2)] + Compile(rest)
    ensures Groups(Keys[k] + rest) == [if k == 0 then Year else if k == 1 then Month else Day] + Groups(rest)
  {
    var s := Keys[k] + rest;
    assert StartsWith(s, Keys[k]);
    forall j | 0 <= j < k ensures !StartsWith(s, Keys[j]) {
      assert Keys[j][0] != Keys[k][0] == s[0];
    }
    MatchAtIs(s, Keys, k);
    CompileKey(s, k);
    assert s[|Keys[k]|..] == rest;
  }

  /** A character that starts no key is copied into the pattern as a literal. */
  lemma CompileSeparator(sep: char, rest: string)
    requires sep !in "YMDHms"
    ensures Compile([sep] + rest) == [Literal(sep)] + Compile(rest)
    ensures Groups([sep] + rest) == Groups(rest)
  {
    var s := [sep] + rest;
    forall j | 0 <= j < |Keys| ensures !StartsWith(s, Keys[j]) {
      assert Keys[j][0] != sep;
    }
    CompileChar(s);
    assert s[1..] == rest;
  }

  /** The date format `YYYY`, separator, `MM`, separator, `DD` (`YYYY-MM-DD` for `-`). */
  function DateFormat(sep: char): string
  {
    Keys[0] + ([sep] + (Keys[1] + ([sep] + Keys[2])))
  }

  /** The separator and `DD` that end a date format. */
  lemma DateFormatEnd(sep: char)
    requires sep !in "YMDHms"
    ensures Compile([sep] + Keys[2]) == [Literal(sep), Digits(2)]
    ensures Groups([sep] + Keys[2]) == [Day]
  {
    var empty: string := [];
    KeysNonEmpty();
    assert Compile(empty) == [] && Groups(empty) == [];
    CompileDateKey(2, empty);
    assert Keys[2] + empty == Keys[2];
    CompileSeparator(sep, Keys[2]);
  }

  /** `MM`, separator and `DD`. */
  lemma DateFormatMonthDay(sep: char)
    requires sep !in "YMDHms"
    ensures Compile(Keys[1] + ([sep] + Keys[2])) == [Digits(2), Literal(sep), Digits(2)]
    ensures Groups(Keys[1] + ([sep] + Keys[2])) == [Month, Day]
  {
    DateFormatEnd(sep);
    CompileDateKey(1, [sep] + Keys[2]);
  }

  /** The separator, `MM`, separator and `DD` that follow the year in a date format. */
  lemma DateFormatAfterYear(sep: char)
    requires sep !in "YMDHms"
    ensures Compile([sep] + (Keys[1] + ([sep] + Keys[2]))) == [Literal(sep), Digits(2), Literal(sep), Digits(2)]
    ensures Groups([sep] + (Keys[1] + ([sep] + Keys[2]))) == [Month, Day]
  {
    DateFormatMonthDay(sep);
    CompileSeparator(sep, Keys[1] + ([sep] + Keys[2]));
  }

  /** A date format compiles to a 4-digit capture of the year, then 2-digit captures of the
      month and the day, with the separator as a literal between them. */
  lemma DateFormatCompiles(sep: char)
    requires sep !in "YMDHms"
    ensures Compile(DateFormat(sep)) == [Digits(4), Literal(sep), Digits(2), Literal(sep), Digits(2)]
    ensures Groups(DateFormat(sep)) == [Year, Month, Day]
  {
    var tail := [sep] + (Keys[1] + ([sep] + Keys[2]));
    DateFormatAfterYear(sep);
    CompileDateKey(0, tail);
  }
  /** `n` in decimal, zero-padded on the left to `width` digits. */
  function Padded(n: nat, width: nat): string
  {
    PadStart(NatToString(n), width, '0')
  }

  /** A date written in a date format: four-digit year, two-digit month and day. */
  function DateText(sep: char, y: nat, m: nat, d: nat): string
  {
    Padded(y, 4) + ([sep] + (Padded(m, 2) + ([sep] + Padded(d, 2))))
  }

  lemma PaddedDigits(n: nat, width: nat)
    requires 1 <= width && n < Pow10(width)
    ensures |Padded(n, width)| == width && AllDigits(Padded(n, width)) && DecimalValue(Padded(n, width)) == n
  {
    PaddedWidth(n, width);
    PaddedDecimal(n, width);
  }

  /** The pattern of a date format. */
  function DateAtoms(sep: char): seq<Atom>
  {
    [Digits(4), Literal(sep), Digits(2), Literal(sep), Digits(2)]
  }

  /** A date pattern's captures are a 4-digit year, then 2-digit month and day. */
  lemma DateWidths(sep: char)
    ensures Widths(DateAtoms(sep)) == [4, 2, 2]
  {
    var atoms := DateAtoms(sep);
    var a4, a3, a2, a1 := atoms[4..], atoms[3..], atoms[2..], atoms[1..];
    assert a4[1..] == [] && a3[1..] == a4 && a2[1..] == a3 && a1[1..] == a2;
    assert Widths(a4) == [2];
    assert Widths(a3) == [2];
    assert Widths(a2) == [2, 2];
    assert Widths(a1) == [2, 2];
  }

  /** A literal in front of a pattern puts its character in front of the rendering. */
  lemma RenderLiteral(c: char, atoms: seq<Atom>, caps: seq<string>)
    requires |caps| == |Widths(atoms)|
    ensures |caps| == |Widths([Literal(c)] + atoms)|
    ensures Render([Literal(c)] + atoms, caps) == [c] + Render(atoms, caps)
  {
    assert ([Literal(c)] + atoms)[1..] == atoms;
  }

  /** A digit group in front of a pattern puts its capture in front of the rendering. */
  lemma RenderDigits(w: nat, atoms: seq<Atom>, cap: string, caps: seq<string>)
    requires |caps| == |Widths(atoms)|
    ensures |[cap] + caps| == |Widths([Digits(w)] + atoms)|
    ensures Render([Digits(w)] + atoms, [cap] + caps) == cap + Render(atoms, caps)
  {
    assert ([Digits(w)] + atoms)[1..] == atoms;
    assert ([cap] + caps)[1..] == caps;
  }

  /** The separator, month, separator and day that follow the year in a date pattern. */
  lemma DateRenderAfterYear(sep: char, m: string, d: string)
    ensures |[m, d]| == |Widths([Literal(sep), Digits(2), Literal(sep), Digits(2)])|
    ensures Render([Literal(sep), Digits(2), Literal(sep), Digits(2)], [m, d]) == [sep] + (m + ([sep] + d))
  {
    var empty: seq<Atom> := [];
    var none: seq<string> := [];
    var a1 := [Digits(2)];
    var a2 := [Literal(sep)] + a1;
    var a3 := [Digits(2)] + a2;
    assert a1 == [Digits(2)] + empty;
    assert [d] == [d] + none;
    assert Render(empty, none) == [];
    RenderDigits(2, empty, d, none);
    RenderLiteral(sep, a1, [d]);
    RenderDigits(2, a2, m, [d]);
    assert [m] + [d] == [m, d];
    RenderLiteral(sep, a3, [m, d]);
    assert [Literal(sep)] + a3 == [Literal(sep), Digits(2), Literal(sep), Digits(2)];
    assert d + [] == d;
  }

  /** A date pattern renders its captures with the separator between them. */
  lemma DateRender(sep: char, caps: seq<string>)
    requires |caps| == 3
    ensures |caps| == |Widths(DateAtoms(sep))| && Render(DateAtoms(sep), caps) == caps[0] + ([sep] + (caps[1] + ([sep] + caps[2])))
  {
    var y, m, d := caps[0], caps[1], caps[2];
    var tail := [Literal(sep), Digits(2), Literal(sep), Digits(2)];
    DateRenderAfterYear(sep, m, d);
    RenderDigits(4, tail, y, [m, d]);
    assert [y] + [m, d] == caps;
    assert [Digits(4)] + tail == DateAtoms(sep);
  }

  /** A 4-digit year, and 2-digit month and day, joined by the separator, match the date
      pattern with those three captures. */
  lemma DatePatternMatches(sep: char, caps: seq<string>)
    requires |caps| == 3 && |caps[0]| == 4 && |caps[1]| == 2 && |caps[2]| == 2
    requires AllDigits(caps[0]) && AllDigits(caps[1]) && AllDigits(caps[2])
    ensures Match(DateAtoms(sep), caps[0] + ([sep] + (caps[1] + ([sep] + caps[2])))) == Some(caps)
  {
    DateWidths(sep);
    assert CapturesFit(DateAtoms(sep), caps);
    DateRender(sep, caps);
    MatchComplete(DateAtoms(sep), caps);
  }

  /** A written date matches its date format, capturing the year, month and day digits. */
  lemma DateTextMatches(sep: char, y: nat, m: nat, d: nat)
    requires sep !in "YMDHms" && y < 10000 && m < 100 && d < 100
    ensures Match(Compile(DateFormat(sep)), DateText(sep, y, m, d)) == Some([Padded(y, 4), Padded(m, 2), Padded(d, 2)])
  {
    var caps := [Padded(y, 4), Padded(m, 2), Padded(d, 2)];
    DateCaptures(y, m, d);
    DatePatternMatches(sep, caps);
    DateFormatCompiles(sep);
  }

  /** The padded year, month and day are digit strings of widths 4, 2 and 2 that read back
      as the numbers. */
  lemma DateCaptures(y: nat, m: nat, d: nat)
    requires y < 10000 && m < 100 && d < 100
    ensures var caps := [Padded(y, 4), Padded(m, 2), Padded(d, 2)];
      |caps[0]| == 4 && |caps[1]| == 2 && |caps[2]| == 2
      && AllDigits(caps[0]) && AllDigits(caps[1]) && AllDigits(caps[2])
      && DecimalValue(caps[0]) == y && DecimalValue(caps[1]) == m && DecimalValue(caps[2]) == d
  {
    PaddedYear(y);
    PaddedTwoDigits(m);
    PaddedTwoDigits(d);
  }

  lemma PaddedYear(n: nat)
    requires n < 10000
    ensures |Padded(n, 4)| == 4 && AllDigits(Padded(n, 4)) && DecimalValue(Padded(n, 4)) == n
  {
    assert Pow10(4) == 10000;
    PaddedDigits(n, 4);
  }

  lemma PaddedTwoDigits(n: nat)
    requires n < 100
    ensures |Padded(n, 2)| == 2 && AllDigits(Padded(n, 2)) && DecimalValue(Padded(n, 2)) == n
  {
    assert Pow10(2) == 100;
    PaddedDigits(n, 2);
  }

  /** The year, month and day captures fill those three fields. */
  lemma FilledDate(caps: seq<string>)
    requires |caps| == 3 && AllDigits(caps[0]) && AllDigits(caps[1]) && AllDigits(caps[2])
    ensures Filled([Year, Month, Day], caps)
      == map[Year := DecimalValue(caps[0]), Month := DecimalValue(caps[1]), Day := DecimalValue(caps[2])]
  {
    var groups := [Year, Month, Day];
    var g2, g1, g0 := groups[..2], groups[..1], groups[..0];
    var c2, c1, c0 := caps[..2], caps[..1], caps[..0];
    assert g2[..1] == g1 && g1[..0] == g0 && g0 == [] && c2[..1] == c1 && c1[..0] == c0;
    assert Filled(g1, c1) == map[Year := DecimalValue(caps[0])];
    assert Filled(g2, c2) == map[Year := DecimalValue(caps[0]), Month := DecimalValue(caps[1])];
  }

  /** Year, month and day captures with non-zero values give those fields, and zero for
      the time fields. */
  lemma DefaultsOfDate(caps: seq<string>, y: nat, m: nat, d: nat)
    requires |caps| == 3 && AllDigits(caps[0]) && AllDigits(caps[1]) && AllDigits(caps[2])
    requires DecimalValue(caps[0]) == y != 0 && DecimalValue(caps[1]) == m != 0 && DecimalValue(caps[2]) == d != 0
    ensures ApplyDefaults(Filled([Year, Month, Day], caps)) == Ok(DateTimeParts(y, m, d, 0, 0, 0, 0))
  {
    FilledDate(caps);
    var parts := map[Year := y, Month := m, Day := d];
    assert Hour !in parts && Minute !in parts && Second !in parts && Millisecond !in parts;
  }

  /** Every date of years 1 to 9999 is a valid time value. */
  lemma FourDigitYearsAreTimeValues(y: int, m: int, d: int)
    requires 1 <= y <= 9999 && ValidCivil(Civil(y, m, d))
    ensures -MaxTime <= MakeDate(DaysFromCivil(y, m, d), 0) <= MaxTime
  {
    DaysFromCivilBounds(Civil(y, m, d));
    DaysBeforeYearMonotone(1, y);
    DaysBeforeYearMonotone(y + 1, 10000);
    assert DaysBeforeYear(1) == -719162;
    assert DaysBeforeYear(10000) == 2932897;
  }

  /** A matched input whose fields pass the checks resolves through the zone. */
  lemma ParsedFields(s: string, format: string, zone: Zone, caps: seq<string>, p: DateTimeParts)
    requires format != "X" && format != "x" && Match(Compile(format), s) == Some(caps)
    requires |caps| == |Groups(format)| && forall i :: 0 <= i < |caps| ==> AllDigits(caps[i])
    requires ApplyDefaults(Filled(Groups(format), caps)) == Ok(p) && AssertValidDatetime(p).None?
    ensures Parsed(s, format, zone) == Ok(NewDate(Some(zone(Constrain(p)))))
  {
  }

  /** An input that a year-month-day format matches, with the captures of a real date of
      years 1 to 9999, resolves that date at midnight through the zone. */
  lemma ParsedDate(s: string, format: string, zone: Zone, caps: seq<string>, y: nat, m: nat, d: nat)
    requires format != "X" && format != "x" && Match(Compile(format), s) == Some(caps)
    requires Groups(format) == [Year, Month, Day]
    requires |caps| == 3 && AllDigits(caps[0]) && AllDigits(caps[1]) && AllDigits(caps[2])
    requires DecimalValue(caps[0]) == y && DecimalValue(caps[1]) == m && DecimalValue(caps[2]) == d
    requires 1 <= y <= 9999 && ValidCivil(Civil(y, m, d))
    ensures Parsed(s, format, zone) == Ok(NewDate(Some(zone(DateTimeParts(y, m, d, 0, 0, 0, 0)))))
  {
    var p := DateTimeParts(y, m, d, 0, 0, 0, 0);
    DefaultsOfDate(caps, y, m, d);
    FourDigitYearsInRange(p);
    assert ValidParts(p);
    ParsedFields(s, format, zone, caps, p);
  }

  /** A written date read with its date format resolves its fields, with the time at
      midnight, through the zone. */
  lemma DateTextParsed(sep: char, y: nat, m: nat, d: nat, zone: Zone)
    requires sep !in "YMDHms" && 1 <= y <= 9999 && ValidCivil(Civil(y, m, d))
    ensures Parsed(DateText(sep, y, m, d), DateFormat(sep), zone) == Ok(NewDate(Some(zone(DateTimeParts(y, m, d, 0, 0, 0, 0)))))
  {
    var format := DateFormat(sep);
    var caps := [Padded(y, 4), Padded(m, 2), Padded(d, 2)];
    assert |format| == 10;
    DateCaptures(y, m, d);
    DateTextMatches(sep, y, m, d);
    DateFormatCompiles(sep);
    ParsedDate(DateText(sep, y, m, d), format, zone, caps, y, m, d);
  }

  /** Parsing a written date with its date format in `UTC` gives midnight of that date:
      `'2023-07-09'` read with `'YYYY-MM-DD'` is an instant in the year 2023. */
  lemma ParseDateUtc(sep: char, y: nat, m: nat, d: nat)
    requires sep !in "YMDHms" && 1 <= y <= 9999 && ValidCivil(Civil(y, m, d))
    ensures Parsed(DateText(sep, y, m, d), DateFormat(sep), Utc) == Ok(Time(MakeDate(DaysFromCivil(y, m, d), 0)))
    ensures YearFromTime(MakeDate(DaysFromCivil(y, m, d), 0)) == y
    ensures MonthFromTime(MakeDate(DaysFromCivil(y, m, d), 0)) == m - 1
    ensures DateFromTime(MakeDate(DaysFromCivil(y, m, d), 0)) == d
  {
    var p := DateTimeParts(y, m, d, 0, 0, 0, 0);
    DateTextParsed(sep, y, m, d, Utc);
    UtcInstant(p);
    assert MakeTime(0, 0, 0, 0) == 0;
    FourDigitYearsAreTimeValues(y, m, d);
    FieldsOfMakeDate(Civil(y, m, d), 0);
  }
}
