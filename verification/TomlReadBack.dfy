/**
  From printed bytes back to the value: the block reader, the ring, the cursor and the parsers put
  together, anywhere in a file.
 */
module TomlReadBack {

  import opened Options
  import opened Utf8
  import opened Utf8Reader
  import opened HistoryRing
  import opened TomlCursor
  import opened TomlNumerals
  import opened TomlInteger
  import opened TomlLookback
  import opened TomlDateTime
  import opened TomlValue
  import opened TomlKinds
  import opened TomlSpellings
  import opened TomlLiterals
  import opened TomlStrings
  import opened TomlStringWriter
  import opened TomlStringRoundTrip
  import opened TomlMalformed

  /** The reader drops a byte order mark; a file that starts with one is the file behind it. */
  predicate StartsPlain(text: string) {
    text == "" || text[0] != '\U{FEFF}'
  }

  lemma NoMark(text: string)
    requires StartsPlain(text)
    ensures Stripped(Utf8Of(text)) == Utf8Of(text)
  {
    if text != "" {
      Utf8First(text);
      FirstIsNoMark(text[0] as int, Utf8Of(text[1..]));
    } else {
      NoBytes();
    }
  }

  lemma FirstIsNoMark(v: int, tail: seq<Byte>)
    requires Scalar(v) && v != 0xFEFF
    ensures |Encode(v) + tail| >= 3 ==> (Encode(v) + tail)[..3] != BOM
  {
    var s := Encode(v) + tail;
    if |Encode(v)| == 3 {
      assert s[..3] == Encode(v);
    } else if |s| >= 3 {
      assert s[..3][0] == Encode(v)[0];
    }
  }

  /** What a text's bytes decode to is the text. */
  lemma TextOfBytes(text: string)
    requires StartsPlain(text)
    ensures WellFormed(Stripped(Utf8Of(text))) && Text(Utf8Of(text)) == text
  {
    hide Scan, EncodeAll, Encode;
    var vs, s := CodesOf(text), Utf8Of(text);
    NoMark(text);
    DecoderIsExact(s);
    CodesAt(vs);
    assert EncodeAll(vs) == Stripped(s);
    assert Decoded(s) == Codes(vs);
  }

  lemma {:induction false} CodesAt(vs: seq<int>)
    requires Scalars(vs)
    ensures |Codes(vs)| == |vs| && forall i :: 0 <= i < |vs| ==> Codes(vs)[i].value == vs[i]
    decreases |vs|
  {
    if vs != [] { CodesAt(vs[1..]); }
  }

  lemma NotBroken(c: TextCursor)
    requires c.Valid() && WellFormed(Stripped(c.reader.reader.source))
    ensures !c.Broken()
  {
    hide WellFormed;
  }

  /** A cursor in a file, moved up to where `after` begins. */
  method OpenAt(source: seq<Byte>, n: nat, ghost before: string, ghost after: string) returns (c: TextCursor)
    requires source == Utf8Of(before + after) && n == |before| && StartsPlain(before + after)
    ensures fresh(c.Repr()) && c.reader.reader.source == source && WellFormed(Stripped(source))
    ensures c.Valid() && !c.Broken() && c.Rest() == after && (c.IsEof() <==> after == "")
    ensures Text(source) == before + after && c.Pos() == n && (after != "" ==> c.Top() == n)
  {
    hide TextCursor.Valid, TextCursor.Rest, Utf8Of, WellFormed, Seen, Stripped, Text;
    ghost var file := before + after;
    TextOfBytes(file);
    c := new TextCursor(source);
    NotBroken(c);
    var i := 0;
    while i < n
      invariant i <= n && fresh(c.Repr()) && c.reader.reader.source == source
      invariant c.Valid() && !c.Broken() && c.Pos() == i && c.Rest() == file[i..]
      invariant c.Top() <= i
    {
      c.EndIsReached();
      c.Advance();
      NotBroken(c);
      i := i + 1;
    }
    assert file[n..] == after;
    c.EndIsReached();
    c.PosInText();
  }

  lemma FileIs(before: string, printed: string, rest: string)
    requires StartsPlain(before) && printed != "" && StartsPlain(printed)
    ensures StartsPlain(before + (printed + rest)) && printed + rest != ""
    ensures Utf8Of(before) + Utf8Of(printed) + Utf8Of(rest) == Utf8Of(before + (printed + rest))
  {
    hide Utf8Of;
    Utf8Concat(printed, rest);
    Utf8Concat(before, printed + rest);
    assert before != "" ==> (before + (printed + rest))[0] == before[0];
    assert before == "" ==> (before + (printed + rest))[0] == printed[0];
  }

  lemma PrintedIsThere(text: string, style: Style, use: Use)
    ensures PrintText(text, style, use) != ""
  {
    if text != "" && !FormOf(text, style, use).BareForm? {
      QuotesStand(FormOf(text, style, use));
    }
  }

  lemma DelimiterIsPlain(s: string, rest: string)
    requires s != "" && (IsStringDelimiter((s + rest)[0]) || IsBareKeyCharacter((s + rest)[0]))
    ensures StartsPlain(s)
  {
    assert (s + rest)[0] == s[0];
  }

  /** A printed value or quoted key, anywhere in a file, comes back exactly when printing loses nothing. */
  method StringComesBack(before: string, text: string, style: Style, use: Use, rest: string)
    returns (ok: bool, parser: Parser)
    requires StartsPlain(before) && !use.bare && (rest == "" || !IsStringDelimiter(rest[0]))
    ensures parser.Valid() && !parser.input.Broken()
    ensures ok && parser.str == Utf8Of(text) && parser.rest == rest <==> !Lost(text, style, use)
  {
    hide TextCursor.Valid, TextCursor.Rest, Utf8Of, ReadString, PrintText, Lost, Text, StartsPlain;
    hide WellFormed, Stripped;
    ghost var printed := PrintText(text, style, use);
    StringRoundTripExactly(text, style, use, rest);
    PrintedIsThere(text, style, use);
    DelimiterIsPlain(printed, rest);
    FileIs(before, printed, rest);
    var stream := PrintString(Utf8Of(text), style, use);
    var c := OpenAt(Utf8Of(before) + stream + Utf8Of(rest), |before|, before, printed + rest);
    parser := new Parser(c);
    var wasMultiLine;
    ok, wasMultiLine := parser.ParseString();
    NotBroken(c);
  }

  /** Malformed bytes, as a value or a key, are read without an error but never come back. */
  method MalformedComesBack(before: string, str: seq<Byte>, style: Style, use: Use, rest: string)
    returns (ok: bool, parser: Parser)
    requires StartsPlain(before) && !WellFormed(str) && (rest == "" || !IsStringDelimiter(rest[0]))
    ensures parser.Valid() && !parser.input.Broken()
    ensures ok && parser.str == Utf8Of(Salvage(str)) != str && parser.rest == rest
  {
    hide TextCursor.Valid, TextCursor.Rest, Utf8Of, ReadString, Salvage, Text, StartsPlain, WellFormed, Stripped;
    hide PiecesText, SalvageAll;
    ghost var printed := MalformedText(str, style, use);
    MalformedComesBackAs(str, style, use, rest);
    DelimiterIsPlain(printed, rest);
    FileIs(before, printed, rest);
    var stream := PrintString(str, style, use);
    var c := OpenAt(Utf8Of(before) + stream + Utf8Of(rest), |before|, before, printed + rest);
    parser := new Parser(c);
    var wasMultiLine;
    ok, wasMultiLine := parser.ParseString();
    NotBroken(c);
  }

  /** Every printed key does. */
  method KeyComesBack(before: string, text: string, style: Style, rest: string) returns (ok: bool, parser: Parser)
    requires StartsPlain(before) && (rest == "" || !(IsStringDelimiter(rest[0]) || IsBareKeyCharacter(rest[0])))
    ensures parser.Valid() && !parser.input.Broken()
    ensures ok && parser.str == Utf8Of(text) && parser.rest == rest
  {
    hide TextCursor.Valid, TextCursor.Rest, Utf8Of, ReadString, PrintText, Text, StartsPlain, WellFormed, Stripped;
    ghost var printed := PrintText(text, style, KEY);
    KeyRoundTrip(text, style, rest);
    PrintedIsThere(text, style, KEY);
    DelimiterIsPlain(printed, rest);
    FileIs(before, printed, rest);
    var stream := PrintString(Utf8Of(text), style, KEY);
    var c := OpenAt(Utf8Of(before) + stream + Utf8Of(rest), |before|, before, printed + rest);
    parser := new Parser(c);
    ok := parser.ParseKeySegment();
    NotBroken(c);
  }

  /** A value somewhere in a file, taken as `parse_value` takes it. */
  method ValueInFile(source: seq<Byte>, n: nat, ghost before: string, ghost after: string)
    returns (r: Outcome, c: TextCursor, ghost view: string)
    requires source == Utf8Of(before + after) && n == |before| && StartsPlain(before + after) && after != ""
    ensures c.Valid() && !c.Broken() && |view| == |after| && r == ValueAs(after, view).0
    ensures r.Read? ==> var length := ValueAs(after, view).1; length <= |after| && c.Rest() == after[length..]
    ensures Text(source) == before + after
    ensures Begins(after[0]).Some? ==> view == Seen(source, n, Max(n, n + Reach(after)))
  {
    hide TextCursor.Valid, TextCursor.Rest, Utf8Of, Text, StartsPlain, WellFormed, Stripped, Seen, Begins, Reach;
    hide ValueAs;
    c := OpenAt(source, n, before, after);
    view := ViewOf(c, after, n, n);
    r := ParseValue(c);
    NotBroken(c);
  }

  /** And every 64-bit integer, wherever the blocks of the file end. */
  method IntegerComesBack(before: string, val: int, format: Format, allowed: Allowed, rest: string)
    returns (r: Outcome, c: TextCursor)
    requires StartsPlain(before) && I64_MIN <= val <= I64_MAX && EndsValue(rest)
    ensures c.Valid() && !c.Broken() && r == Read(OfInteger(val)) && c.Rest() == rest
  {
    hide TextCursor.Valid, TextCursor.Rest, Utf8Of, Text, StartsPlain, Written, Seen, Begins, Reach, ValueAs;
    hide ValueLength, IsValueTerminator;
    var stream := WriteInteger(val, format, allowed);
    WrittenStarts(val, format, allowed, rest);
    FileIs(before, stream, rest);
    var source := Utf8Of(before) + Utf8Of(stream) + Utf8Of(rest);
    ghost var view;
    assert (before + (stream + rest))[|before|..] == stream + rest;
    r, c, view := ValueInFile(source, |before|, before, stream + rest);
    WrittenIsTaken(val, format, allowed, rest, source, |before|, |before|);
    assert (stream + rest)[|stream|..] == rest;
  }

  lemma WrittenStarts(val: int, format: Format, allowed: Allowed, rest: string)
    requires I64_MIN <= val <= I64_MAX && EndsValue(rest)
    ensures var s := Written(val, format, allowed); s != "" && StartsPlain(s)
  {
    hide ReadAs, ValueLength, IsValueTerminator, Written;
    WrittenIsShort(val, format, allowed, rest);
  }

  /** And any other spelling of an integer that the scan can keep whole. */
  method SpellingIsRead(before: string, base: nat, literal: string, ghost ds: seq<nat>, ghost v: int, rest: string)
    returns (r: Outcome, c: TextCursor)
    requires IsBase(base) && StartsPlain(before) && SpellsInteger(base, literal, ds, v) && EndsValue(rest)
    requires |literal| <= if base == 10 && rest != "" then 126 else 127
    ensures c.Valid() && !c.Broken() && r == Read(OfInteger(v)) && c.Rest() == rest
  {
    hide TextCursor.Valid, TextCursor.Rest, Utf8Of, Text, StartsPlain, SpellsInteger, Seen, Begins, Reach, ValueAs;
    hide ReadInteger, NumberAs, IsValueTerminator;
    SpellingIsGrammatical(base, literal, ds, v, rest);
    FileIs(before, literal, rest);
    var source := Utf8Of(before) + Utf8Of(literal) + Utf8Of(rest);
    ghost var view;
    assert (before + (literal + rest))[|before|..] == literal + rest;
    r, c, view := ValueInFile(source, |before|, before, literal + rest);
    SpellingIsTaken(base, literal + rest, source, |before|);
    assert (literal + rest)[|literal|..] == rest;
  }

  lemma SpellingIsGrammatical(base: nat, literal: string, ds: seq<nat>, v: int, rest: string)
    requires IsBase(base) && SpellsInteger(base, literal, ds, v) && EndsValue(rest)
    ensures literal != "" && StartsPlain(literal) && ValueLength(literal + rest) == |literal|
    ensures ReadInteger(base, literal + rest) == Some((v, |literal|))
  {
    hide ReadInteger, ValueLength, IsValueTerminator, Spells;
    LiteralHasNoEnd(base, literal, ds, v);
    ValueLengthIs(literal, rest);
    assert (literal + rest)[..|literal|] == literal;
    ReadsExactlySpellings(base, literal + rest, v);
  }

  lemma SpellingIsTaken(base: nat, text: string, source: seq<Byte>, from: nat)
    requires IsBase(base) && from <= |Text(source)| && Text(source)[from..] == text && ReadInteger(base, text).Some?
    requires ValueLength(text) <= if base == 10 && ValueLength(text) < |text| then 126 else 127
    ensures text != "" && Begins(text[0]).Some?
    ensures var v := ReadInteger(base, text).value;
            ValueAs(text, Seen(source, from, Max(from, from + Reach(text)))) == (Read(OfInteger(v.0)), v.1)
  {
    hide *;
    LiteralReach(base, text);
    var view := Seen(source, from, ScanTop(text, from, from));
    SpellingIsExact(base, text, source, from);
    LiteralIsTaken(base, text, view);
    TopIs(text, from);
  }

  lemma LiteralReach(base: nat, text: string)
    requires IsBase(base) && ReadInteger(base, text).Some?
    ensures text != "" && Begins(text[0]).Some? && Reach(text) == ScanLength(text)
  {
    LiteralIsSeen(base, text);
  }

  lemma TopIs(text: string, from: nat)
    requires text != "" && Begins(text[0]).Some? && Reach(text) == ScanLength(text)
    ensures Max(from, from + Reach(text)) == ScanTop(text, from, from)
  {
    hide Begins, Reach, ScanLength;
  }

  lemma SpellingIsExact(base: nat, text: string, source: seq<Byte>, from: nat)
    requires IsBase(base) && from <= |Text(source)| && Text(source)[from..] == text
    requires ValueLength(text) <= if base == 10 && ValueLength(text) < |text| then 126 else 127
    ensures |Seen(source, from, ScanTop(text, from, from))| == |text|
    ensures NumberAs(base, text, Seen(source, from, ScanTop(text, from, from))) == ReadInteger(base, text)
  {
    hide ReadInteger, NumberAs, Text, Seen, ValueLength;
    NumbersAreExact(base, source, from, from);
  }

  /** And every valid date-time, with or without an offset. */
  method DateTimeComesBack(before: string, v: DateTime, rest: string) returns (r: Outcome, c: TextCursor)
    requires StartsPlain(before) && TomlDateTime.Valid(v) && EndsValue(rest)
    ensures c.Valid() && !c.Broken() && r == Read(OfDateTime(v)) && c.Rest() == rest
  {
    hide TextCursor.Valid, TextCursor.Rest, Utf8Of, Text, StartsPlain, PrintDateTime, Seen, Begins, Reach, ValueAs;
    hide IsValueTerminator, TomlDateTime.Valid;
    var stream := PrintDateTimeTo(v);
    DateTimeStarts(v);
    FileIs(before, stream, rest);
    ghost var view;
    r, c, view := ValueInFile(Utf8Of(before) + Utf8Of(stream) + Utf8Of(rest), |before|, before, stream + rest);
    DateTimeIsTaken(v, rest, view);
    assert (stream + rest)[|stream|..] == rest;
  }

  lemma DateTimeStarts(v: DateTime)
    requires TomlDateTime.Valid(v)
    ensures var s := PrintDateTime(v); s != "" && StartsPlain(s)
  {
    hide PrintDate, PrintTime, PrintOffset, StartsPlain, ValidTime;
    DateStarts(v.date);
    assert PrintDateTime(v)[0] == PrintDate(v.date)[0];
    StartsAlike(PrintDateTime(v), PrintDate(v.date));
  }

  lemma StartsAlike(a: string, b: string)
    requires a != "" && b != "" && a[0] == b[0]
    ensures StartsPlain(a) == StartsPlain(b)
  {
  }

  lemma DateStarts(d: Date)
    requires ValidDate(d)
    ensures var s := PrintDate(d); s != "" && StartsPlain(s)
  {
    hide Padded, Power;
    Powers();
    NumberStarts(d.year, 4);
    assert PrintDate(d)[0] == Padded(10, d.year, 4)[0];
  }

  lemma TimeStarts(t: Time)
    requires ValidTime(t)
    ensures var s := PrintTime(t); s != "" && StartsPlain(s)
  {
    hide Padded, Power, PrintFraction;
    Powers();
    NumberStarts(t.hour, 2);
    assert PrintTime(t)[0] == Padded(10, t.hour, 2)[0];
  }

  lemma NumberStarts(n: nat, width: nat)
    requires width > 0 && n < Power(10, width)
    ensures var s := Padded(10, n, width); s != "" && s[0] as int < 128
  {
    hide Padded, Power, IsValueTerminator;
    PaddedIs(10, n, width);
    DigitDoesNotEnd(10, Padded(10, n, width)[0]);
  }

  /** A date by itself comes back exactly when what stands behind it does not seem to be its time. */
  method DateComesBack(before: string, d: Date, rest: string) returns (r: Outcome, c: TextCursor)
    requires StartsPlain(before) && ValidDate(d) && EndsValue(rest)
    ensures c.Valid() && !c.Broken()
    ensures r == Read(OfDate(d)) && c.Rest() == rest <==> !SeemsTimed(rest)
  {
    hide TextCursor.Valid, TextCursor.Rest, Utf8Of, Text, StartsPlain, PrintDate, Seen, Begins, Reach, ValueAs;
    hide IsValueTerminator, ValidDate, SeemsTimed;
    var stream := PrintDateTo(d);
    DateStarts(d);
    FileIs(before, stream, rest);
    ghost var view;
    r, c, view := ValueInFile(Utf8Of(before) + Utf8Of(stream) + Utf8Of(rest), |before|, before, stream + rest);
    DateIsTakenExactly(d, rest, view);
    DateLength(stream + rest, view);
    assert (stream + rest)[|stream|..] == rest;
  }

  lemma DateLength(text: string, view: string)
    requires text != "" && |text| == |view|
    ensures ValueAs(text, view).0.Read? && ValueAs(text, view).0.value.OfDate? ==> ValueAs(text, view).1 == 10
  {
    hide Begins, Foreseen, OutlookOf, KindOf, ReadDate, ReadTime, ReadDateTime, NumberAs;
  }

  /** A time by itself. */
  method TimeComesBack(before: string, t: Time, rest: string) returns (r: Outcome, c: TextCursor)
    requires StartsPlain(before) && ValidTime(t) && EndsValue(rest)
    ensures c.Valid() && !c.Broken() && r == Read(OfTime(t)) && c.Rest() == rest
  {
    hide TextCursor.Valid, TextCursor.Rest, Utf8Of, Text, StartsPlain, PrintTime, Seen, Begins, Reach, ValueAs;
    hide IsValueTerminator, ValidTime;
    TimeStarts(t);
    var stream := PrintTimeTo(t);
    FileIs(before, stream, rest);
    ghost var view;
    r, c, view := ValueInFile(Utf8Of(before) + Utf8Of(stream) + Utf8Of(rest), |before|, before, stream + rest);
    TimeIsTaken(t, rest, view);
    assert (stream + rest)[|stream|..] == rest;
  }
}
