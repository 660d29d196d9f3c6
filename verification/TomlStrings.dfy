/**
  Strings and key segments as the parser reads them: basic, literal and bare, single-line and
  multi-line. The text is the decoded code points; what is collected is UTF-8 bytes.
 */
module TomlStrings {

  import opened Options
  import opened TomlNumerals
  import opened Utf8
  import opened HistoryRing
  import opened TomlCursor

  // ----- text and bytes -----

  function CodesOf(text: string): (vs: seq<int>)
    ensures |vs| == |text| && Scalars(vs) && forall i :: 0 <= i < |vs| ==> vs[i] == text[i] as int
  {
    seq(|text|, i requires 0 <= i < |text| => text[i] as int)
  }

  function Utf8Of(text: string): seq<Byte> {
    EncodeAll(CodesOf(text))
  }

  lemma Utf8Concat(a: string, b: string)
    ensures Utf8Of(a + b) == Utf8Of(a) + Utf8Of(b)
  {
    assert CodesOf(a + b) == CodesOf(a) + CodesOf(b);
    EncodeAllConcat(CodesOf(a), CodesOf(b));
  }

  lemma Utf8One(c: char)
    ensures Utf8Of([c]) == Encode(c as int)
  {
    var vs := CodesOf([c]);
    assert vs == [c as int] && vs[1..] == [];
    assert EncodeAll(vs) == Encode(vs[0]) + EncodeAll(vs[1..]);
    assert Encode(c as int) + [] == Encode(c as int);
  }

  lemma Utf8First(text: string)
    requires text != ""
    ensures Utf8Of(text) == Encode(text[0] as int) + Utf8Of(text[1..])
  {
    Utf8One(text[0]);
    Utf8Concat([text[0]], text[1..]);
    assert [text[0]] + text[1..] == text;
  }

  // ----- characters -----

  predicate IsStringDelimiter(c: char) { c == '"' || c == '\'' }

  predicate IsBareKeyCharacter(c: char) {
    '0' <= c <= '9' || 'A' <= c <= 'Z' || 'a' <= c <= 'z' || c == '_' || c == '-'
  }

  predicate IsNonTabControl(c: char) {
    c <= '\U{8}' || '\U{A}' <= c <= '\U{1F}' || c == '\U{7F}'
  }

  predicate IsAsciiBlank(c: char) { c == '\t' || c == ' ' }
  predicate IsAsciiVertical(c: char) { '\n' <= c <= '\r' }
  predicate IsWhitespace(c: char) { IsHorizontalWhitespace(c) || IsVerticalWhitespace(c) }

  // ----- what the parser does on the rest of the text -----

  datatype Parsed = Failed | Parsed(bytes: seq<Byte>, rest: string)

  function Repeat(c: char, n: nat): string { seq(n, _ => c) }

  function QuoteBytes(quote: char, n: nat): seq<Byte>
    requires IsStringDelimiter(quote)
  {
    seq(n, _ => quote as int)
  }

  /** Consecutive delimiters, as far as the parser looks ahead: five at most. */
  function QuoteRun(s: string, quote: char, limit: nat): (n: nat)
    ensures n <= limit && n <= |s| && s[..n] == Repeat(quote, n)
    ensures n < limit && n < |s| ==> s[n] != quote
    decreases limit
  {
    if limit == 0 || s == "" || s[0] != quote then 0
    else
      var n := QuoteRun(s[1..], quote, limit - 1);
      assert s[..n + 1] == [quote] + s[1..][..n];
      n + 1
  }

  /** `consume_line_break`: an error, or whether there was one and what follows. */
  function LineBreak(s: string): (r: Option<(bool, string)>)
    ensures r.Some? ==> |r.value.1| <= |s| && (r.value.0 ==> |r.value.1| < |s|)
    ensures s != "" && IsAsciiVertical(s[0]) && r.Some? ==> r.value.0
  {
    if s == "" then Some((false, s))
    else if s[0] == '\U{B}' || s[0] == '\U{C}' then None
    else if s[0] == '\r' then if |s| > 1 && s[1] == '\n' then Some((true, s[2..])) else None
    else if s[0] == '\n' then Some((true, s[1..]))
    else Some((false, s))
  }

  /** `consume_leading_whitespace`: only spaces and tabs may stand there. */
  function SkipBlanks(s: string): (r: Option<string>)
    ensures r.Some? ==> |r.value| <= |s|
    decreases |s|
  {
    if s == "" || !IsHorizontalWhitespace(s[0]) then Some(s)
    else if IsAsciiBlank(s[0]) then SkipBlanks(s[1..])
    else None
  }

  /** A backslash at the end of a line swallows the line break and the whitespace behind it. */
  function LineEnding(s: string): (r: Option<string>)
    ensures r.Some? ==> |r.value| < |s|
  {
    var t := SkipBlanks(s);
    if t.None? then None
    else
      var u := LineBreak(t.value);
      if u.Some? && u.value.0 then Some(u.value.1) else None
  }

  predicate HexDigits(s: string, n: nat) {
    n <= |s| && AllDigits(16, s[..n])
  }

  function SimpleEscape(c: char): Option<Byte> {
    match c
    case 'b' => Some(8)
    case 'f' => Some(12)
    case 'n' => Some(10)
    case 'r' => Some(13)
    case 't' => Some(9)
    case '"' => Some(34)
    case '\\' => Some(92)
    case _ => None
  }

  /** What an escape stands for and what follows it; `s` starts behind the backslash. */
  function Escape(s: string): (r: Option<(seq<Byte>, string)>)
    requires s != ""
    ensures r.Some? ==> |r.value.1| < |s|
  {
    if SimpleEscape(s[0]).Some? then
      if |s| == 1 then None else Some(([SimpleEscape(s[0]).value], s[1..]))
    else if s[0] == 'u' || s[0] == 'U' then
      var n := if s[0] == 'U' then 8 else 4;
      if !HexDigits(s[1..], n) then None
      else
        var v := ValueOf(16, s[1..][..n]);
        if Scalar(v) then Some((Encode(v), s[1 + n..])) else None
    else None
  }

  /** `parse_basic_string` from inside the quotes. */
  function Basic(s: string, str: seq<Byte>, multi: bool, skipping: bool): Parsed
    decreases |s|
  {
    if s == "" then Failed
    else if s[0] == '"' then
      if !multi then Parsed(str, s[1..])
      else
        var k := QuoteRun(s, '"', 5);
        if k < 3 then Basic(s[k..], str + QuoteBytes('"', k), multi, false)
        else Parsed(str + QuoteBytes('"', k - 3), s[k..])
    else if s[0] == '\\' then
      if |s| == 1 then Failed else BasicEscape(s[1..], str, multi)
    else if multi && IsAsciiVertical(s[0]) then
      var b := LineBreak(s);
      if b.None? then Failed else Basic(b.value.1, if skipping then str else str + [10], multi, skipping)
    else if IsNonTabControl(s[0]) then Failed
    else
      var skip := multi && skipping && IsHorizontalWhitespace(s[0]);
      Basic(s[1..], if skip then str else str + Encode(s[0] as int), multi, skip)
  }

  /** The same from behind a backslash. */
  function BasicEscape(s: string, str: seq<Byte>, multi: bool): Parsed
    requires s != ""
    decreases |s|
  {
    if multi && IsWhitespace(s[0]) then
      var t := LineEnding(s);
      if t.None? then Failed else Basic(t.value, str, multi, true)
    else
      var e := Escape(s);
      if e.None? then Failed else Basic(e.value.1, str + e.value.0, multi, false)
  }

  /** `parse_literal_string` from inside the quotes. */
  function Literal(s: string, str: seq<Byte>, multi: bool): Parsed
    decreases |s|
  {
    if s == "" then Failed
    else if s[0] == '\'' then
      if !multi then Parsed(str, s[1..])
      else
        var k := QuoteRun(s, '\'', 5);
        if k < 3 then Literal(s[k..], str + QuoteBytes('\'', k), multi)
        else Parsed(str + QuoteBytes('\'', k - 3), s[k..])
    else if multi && IsAsciiVertical(s[0]) then
      var b := LineBreak(s);
      if b.None? then Failed else Literal(b.value.1, str + [10], multi)
    else if IsNonTabControl(s[0]) then Failed
    else Literal(s[1..], str + Encode(s[0] as int), multi)
  }

  /** What follows the opening delimiter, and the line break behind that in the multi-line form. */
  function Opened(s: string, multi: bool): Option<string>
    requires s != ""
  {
    var start := if multi then LineBreak(s[1..]) else Some((false, s[1..]));
    if start.None? || start.value.1 == "" then None else Some(start.value.1)
  }

  /** From the (last) opening delimiter on. */
  function Body(s: string, multi: bool): Parsed
    requires s != "" && IsStringDelimiter(s[0])
  {
    var start := Opened(s, multi);
    if start.None? then Failed
    else if s[0] == '"' then Basic(start.value, [], multi, false)
    else Literal(start.value, [], multi)
  }

  predicate TripleStart(s: string) {
    |s| >= 3 && s[0] == s[1] == s[2]
  }

  /** `parse_string`. */
  function ReadString(s: string): Parsed
    requires s != "" && IsStringDelimiter(s[0])
  {
    if |s| == 1 then Failed
    else if |s| == 2 then if s[1] == s[0] then Parsed([], "") else Failed
    else if TripleStart(s) then Body(s[2..], true)
    else Body(s, false)
  }

  function BareLength(s: string): (n: nat)
    ensures n <= |s| && (n < |s| ==> !IsBareKeyCharacter(s[n]))
    ensures forall i :: 0 <= i < n ==> IsBareKeyCharacter(s[i])
  {
    if s == "" || !IsBareKeyCharacter(s[0]) then 0 else 1 + BareLength(s[1..])
  }

  /** One segment of a key: bare, or a string that is not multi-line. */
  function ReadKeySegment(s: string): Parsed {
    if s == "" then Failed
    else if IsBareKeyCharacter(s[0]) then Parsed(Utf8Of(s[..BareLength(s)]), s[BareLength(s)..])
    else if IsStringDelimiter(s[0]) && !TripleStart(s) then ReadString(s)
    else Failed
  }

  // ----- facts about the loops -----

  lemma {:induction false} RunIs(s: string, quote: char, n: nat, limit: nat)
    requires n <= |s| && n <= limit && s[..n] == Repeat(quote, n)
    requires n == limit || n == |s| || s[n] != quote
    ensures QuoteRun(s, quote, limit) == n
  {
    if n > 0 {
      assert s[0] == s[..n][0] == quote;
      assert s[1..][..n - 1] == s[..n][1..] == Repeat(quote, n - 1);
      RunIs(s[1..], quote, n - 1, limit - 1);
    }
  }

  lemma PowersOf16()
    ensures Power(16, 0) == 1 && Power(16, 3) == 0x1000 && Power(16, 4) == 0x1_0000
    ensures Power(16, 7) == 0x1000_0000 && Power(16, 8) == 0x1_0000_0000
  {
    assert Power(16, 2) == 0x100;
    assert Power(16, 4) == 0x1_0000;
    assert Power(16, 6) == 0x100_0000;
  }

  lemma NotHex(text: string, i: nat, n: nat)
    requires i < n && i <= |text| && (i < |text| ==> !IsHexDigit(text[i]))
    ensures !HexDigits(text, n)
  {
    if n <= |text| { assert text[..n][i] == text[i]; }
  }

  /** One more hexadecimal digit at its place. */
  lemma NextPlace(text: string, i: nat, n: nat)
    requires i < n <= 8 && i < |text| && AllDigits(16, text[..i]) && IsHexDigit(text[i])
    ensures AllDigits(16, text[..i + 1])
    ensures var place := Power(16, n - i - 1);
            && ValueOf(16, text[..i + 1]) * place
               == (ValueOf(16, text[..i]) * Power(16, n - i) + place * HexToDec(text[i])) % 0x1_0000_0000
            && place / 16 == (if i + 1 == n then 0 else Power(16, n - i - 2))
            && (i + 1 < n ==> Power(16, n - i - 2) > 0)
  {
    hide ValueOf, Power, HexToDec, AllDigits;
    var v, d, place := ValueOf(16, text[..i]), HexToDec(text[i]), Power(16, n - i - 1);
    assert IsDigit(16, text[i]);
    ValueOfLast(16, text[..i], text[i]);
    assert text[..i] + [text[i]] == text[..i + 1];
    PlaceAbove(n - i - 1);
    PowersOf16();
    if i + 1 < n { PlaceAbove(n - i - 2); }
    ValueOfBounds(16, text[..i + 1]);
    PowerSum(16, i + 1, n - i - 1);
    PowerGrows(16, n, 8);
    ShiftIn(v, d, place, Power(16, i + 1));
  }

  lemma ShiftIn(v: nat, d: nat, place: nat, bound: nat)
    requires v * 16 + d < bound && bound * place <= 0x1_0000_0000
    requires place > 0
    ensures (v * 16 + d) * place == (v * (16 * place) + place * d) % 0x1_0000_0000
  {
    var w := v * 16 + d;
    assert w * place == v * (16 * place) + place * d;
    MulOrdered(w, bound - 1, place);
    assert (bound - 1) * place == bound * place - place;
    assert 0 <= w * place < 0x1_0000_0000;
  }

  /** `i` bare characters of the text have been taken. */
  ghost predicate BareSoFar(text: string, i: nat, rest: string, str: seq<Byte>) {
    i <= |text| && rest == text[i..] && str == Utf8Of(text[..i]) && BareLength(text) == i + BareLength(rest)
  }

  lemma BareStarts(text: string)
    ensures BareSoFar(text, 0, text, [])
  {
    NoBytes();
  }

  /** One more bare character: its bytes, and what is left of the run. */
  lemma BareStep(text: string, i: nat, rest: string, str: seq<Byte>)
    requires BareSoFar(text, i, rest, str) && rest != "" && IsBareKeyCharacter(rest[0])
    ensures BareSoFar(text, i + 1, rest[1..], str + Encode(rest[0] as int))
  {
    hide Utf8Of, Encode, IsBareKeyCharacter;
    Utf8Concat(text[..i], [text[i]]);
    Utf8One(text[i]);
    assert text[..i] + [text[i]] == text[..i + 1];
  }

  lemma BareStops(text: string, i: nat, rest: string, str: seq<Byte>)
    requires BareSoFar(text, i, rest, str) && (rest == "" || !IsBareKeyCharacter(rest[0]))
    ensures i == BareLength(text) && str == Utf8Of(text[..i]) && rest == text[i..]
  {
    hide Utf8Of, IsBareKeyCharacter;
  }

  lemma NoBytes()
    ensures Utf8Of("") == []
  {
  }

  lemma NothingRead(text: string)
    ensures AllDigits(16, text[..0]) && ValueOf(16, text[..0]) == 0
  {
  }

  lemma PlaceAbove(k: nat)
    ensures Power(16, k + 1) == 16 * Power(16, k) && Power(16, k) > 0
    ensures Power(16, k) / 16 == if k == 0 then 0 else Power(16, k - 1)
  {
    PowerGrows(16, 0, k);
  }

  // ----- the parser -----

  /** The cursor and the string buffer; `rest` is the text the cursor still has to read. */
  class Parser {
    const input: TextCursor
    var str: seq<Byte>
    ghost var rest: string

    constructor (input: TextCursor)
      requires input.Valid() && !input.Broken()
      ensures Valid() && this.input == input && rest == input.Rest() && str == []
    {
      this.input := input;
      str := [];
      rest := input.Rest();
      new;
      RestIs(input);
    }

    ghost predicate Valid()
      reads this`rest, input.Repr()
    {
      && input.Valid() && !input.Broken()
      && rest == input.Rest() && (input.IsEof() <==> rest == "")
    }

    /** After a call: the cursor is where `rest` says, or the input was ill-formed and the call failed. */
    ghost predicate After(ok: bool)
      reads this`rest, input.Repr()
    {
      input.Valid() && if input.Broken() then !ok else Valid()
    }

    predicate Eof()
      reads this`rest, input.Repr()
      requires Valid()
      ensures Eof() <==> rest == ""
    {
      input.IsEof()
    }

    function Cur(): (c: char)
      reads this`rest, input.Repr()
      requires Valid() && rest != ""
      ensures c == rest[0]
    {
      input.Peek()
    }

    method Advance() returns (ok: bool)
      requires Valid() && rest != ""
      modifies this`rest, input.Repr()
      ensures After(ok)
      ensures !input.Broken() ==> ok && rest == old(rest)[1..]
    {
      hide TextCursor.Valid, TextCursor.Rest, Seen;
      input.Advance();
      ok := !input.Broken();
      if ok {
        rest := rest[1..];
        input.EndIsReached();
      }
    }

    method ConsumeLineBreak() returns (ok: bool, consumed: bool)
      requires Valid()
      modifies this`rest, input.Repr()
      ensures After(ok)
      ensures !input.Broken() ==>
                match LineBreak(old(rest))
                case None => !ok
                case Some(b) => ok && consumed == b.0 && rest == b.1
    {
      hide TextCursor.Valid, TextCursor.Rest;
      ok, consumed := true, false;
      if Eof() { return; }
      if Cur() == '\U{B}' || Cur() == '\U{C}' { return false, false; }
      if Cur() == '\r' {
        ok := Advance();
        if !ok || Eof() || Cur() != '\n' { return false, false; }
      } else if Cur() != '\n' {
        return;
      }
      ok := Advance();
      consumed := true;
    }

    method ConsumeLeadingWhitespace() returns (ok: bool)
      requires Valid()
      modifies this`rest, input.Repr()
      ensures After(ok)
      ensures !input.Broken() ==> SkipBlanks(old(rest)) == if ok then Some(rest) else None
    {
      hide TextCursor.Valid, TextCursor.Rest;
      while !Eof() && IsHorizontalWhitespace(Cur())
        invariant Valid() && !input.Broken()
        invariant SkipBlanks(rest) == SkipBlanks(old(rest))
        decreases |rest|
      {
        if !IsAsciiBlank(Cur()) { return false; }
        ok := Advance();
        if !ok { return; }
      }
      return true;
    }

    /** `n` hexadecimal digits, most significant first, in 32 bits. */
    method ReadScalar(n: nat) returns (ok: bool, value: nat)
      requires Valid() && (n == 4 || n == 8)
      modifies this`rest, input.Repr()
      ensures After(ok)
      ensures !input.Broken() ==> (ok <==> HexDigits(old(rest), n))
      ensures ok ==> HexDigits(old(rest), n) && value == ValueOf(16, old(rest)[..n]) && rest == old(rest)[n..]
    {
      hide TextCursor.Valid, TextCursor.Rest, IsDigit, HexToDec, ValueOf, Power;
      ghost var text := rest;
      var placeValue := if n == 8 then 0x1000_0000 else 0x1000;
      ok, value := false, 0;
      PowersOf16();
      NothingRead(text);
      ghost var i := 0;
      while placeValue != 0
        invariant Valid() && !input.Broken() && !ok
        invariant i <= n && i <= |text| && rest == text[i..]
        invariant AllDigits(16, text[..i])
        invariant value == ValueOf(16, text[..i]) * Power(16, n - i)
        invariant placeValue == if i == n then 0 else Power(16, n - i - 1)
        invariant placeValue == 0 ==> i == n
        decreases n - i
      {
        if Eof() { return; }
        if !IsHexDigit(Cur()) {
          NotHex(text, i, n);
          return;
        }
        NextPlace(text, i, n);
        value := (value + placeValue * HexToDec(Cur())) % 0x1_0000_0000;
        placeValue := placeValue / 16;
        var more := Advance();
        if !more { return; }
        i := i + 1;
      }
      assert ValueOf(16, text[..n]) * 1 == ValueOf(16, text[..n]);
      ok := true;
    }

    /** What stands behind a backslash, other than the end of a line. */
    method ReadEscape() returns (ok: bool)
      requires Valid() && rest != ""
      modifies this, input.Repr()
      ensures After(ok)
      ensures !input.Broken() ==>
                match Escape(old(rest))
                case None => !ok
                case Some(e) => ok && str == old(str) + e.0 && rest == e.1
    {
      hide TextCursor.Valid, TextCursor.Rest, Encode, ValueOf, AllDigits, EncodeAll;
      ok := false;
      var c := Cur();
      match c {
        case 'b' => str := str + [8];
        case 'f' => str := str + [12];
        case 'n' => str := str + [10];
        case 'r' => str := str + [13];
        case 't' => str := str + [9];
        case '"' => str := str + [34];
        case '\\' => str := str + [92];
        case _ =>
          if c != 'u' && c != 'U' { return; }
          ok := Advance();
          if !ok || Eof() { return false; }
          var value;
          ok, value := ReadScalar(if c == 'U' then 8 else 4);
          if ok {
            ok := !(0xD800 <= value <= 0xDFFF) && value <= 0x10_FFFF;
            if ok { str := str + Encode(value); }
          }
          return;
      }
      ok := Advance();
      ok := ok && !Eof();
    }

    /** The delimiters from here on: up to five are passed, and in the middle of a string one or two
        are kept, at its end those beyond three. */
    method CloseMultiLine(quote: char) returns (ok: bool, closed: bool)
      requires Valid() && rest != "" && rest[0] == quote && IsStringDelimiter(quote)
      modifies this, input.Repr()
      ensures After(ok)
      ensures !input.Broken() ==>
                var k := QuoteRun(old(rest), quote, 5);
                && ok && rest == old(rest)[k..] && |rest| < |old(rest)|
                && closed == (k >= 3)
                && str == old(str) + QuoteBytes(quote, if k < 3 then k else k - 3)
    {
      hide TextCursor.Valid, TextCursor.Rest, QuoteRun;
      ghost var text := rest;
      var lookaheads, consecutiveDelimiters := 0, 1;
      assert text[..1] == Repeat(quote, 1);
      while lookaheads < 4
        invariant Valid() && str == old(str)
        invariant lookaheads <= 4 && consecutiveDelimiters == lookaheads + 1 <= |text|
        invariant rest == text[lookaheads..] && text[..consecutiveDelimiters] == Repeat(quote, consecutiveDelimiters)
      {
        ok := Advance();
        if !ok { return false, false; }
        lookaheads := lookaheads + 1;
        if !Eof() && Cur() == quote {
          assert text[..lookaheads + 1] == text[..lookaheads] + [quote];
          consecutiveDelimiters := consecutiveDelimiters + 1;
        } else {
          break;
        }
      }
      ghost var k := consecutiveDelimiters;
      assert k < 5 ==> k == lookaheads && (k == |text| || text[k] != quote);
      RunIs(text, quote, k, 5);
      if consecutiveDelimiters < 3 {
        str := str + QuoteBytes(quote, consecutiveDelimiters);
        return true, false;
      }
      str := str + QuoteBytes(quote, consecutiveDelimiters - 3);
      ok := true;
      if consecutiveDelimiters == 5 { ok := Advance(); }
      assert ok ==> rest == text[k..];
      return ok, true;
    }

    /** Past the opening delimiter, and past a line break behind it. */
    method OpenString(multiLine: bool) returns (ok: bool)
      requires Valid() && rest != "" && IsStringDelimiter(rest[0])
      modifies this, input.Repr()
      ensures After(ok)
      ensures !input.Broken() ==>
                && (ok <==> Opened(old(rest), multiLine).Some?)
                && (ok ==> str == [] && rest == Opened(old(rest), multiLine).value)
    {
      hide TextCursor.Valid, TextCursor.Rest, LineBreak;
      ok := Advance();
      if !ok || Eof() { return false; }
      if multiLine {
        var consumed;
        ok, consumed := ConsumeLineBreak();
        if !ok || Eof() { return false; }
      }
      str := [];
    }

    method ParseBasicString(multiLine: bool) returns (ok: bool)
      requires Valid() && rest != "" && rest[0] == '"'
      modifies this, input.Repr()
      ensures After(ok)
      ensures !input.Broken() ==> Body(old(rest), multiLine) == if ok then Parsed(str, rest) else Failed
    {
      hide TextCursor.Valid, TextCursor.Rest, Encode, EncodeAll, Escape, LineEnding, QuoteRun, LineBreak;
      hide IsHorizontalWhitespace;
      ok := OpenString(multiLine);
      if !ok { return; }
      var escaped, skippingWhitespace := false, false;
      ghost var result := Basic(rest, [], multiLine, false);
      while !Eof()
        invariant Valid()
        invariant escaped ==> rest != ""
        invariant result == if escaped then BasicEscape(rest, str, multiLine)
                            else Basic(rest, str, multiLine, skippingWhitespace)
        decreases |rest|
      {
        if escaped {
          escaped := false;
          if multiLine && IsWhitespace(Cur()) {
            ok := ReadLineEnding();
            if !ok { return; }
            skippingWhitespace := true;
          } else {
            ok := ReadEscape();
            if !ok { return; }
            skippingWhitespace := false;
          }
        } else if Cur() == '"' {
          if multiLine {
            var closed;
            ok, closed := CloseMultiLine('"');
            if !ok || closed { return; }
            skippingWhitespace := false;
          } else {
            ok := Advance();
            return;
          }
        } else if Cur() == '\\' {
          ok := Advance();
          if !ok || Eof() { return false; }
          skippingWhitespace := false;
          escaped := true;
        } else if multiLine && IsAsciiVertical(Cur()) {
          var consumed;
          ok, consumed := ConsumeLineBreak();
          if !ok { return; }
          if !skippingWhitespace { str := str + [10]; }
        } else if IsNonTabControl(Cur()) {
          return false;
        } else {
          if multiLine {
            if !skippingWhitespace || !IsHorizontalWhitespace(Cur()) {
              skippingWhitespace := false;
              str := str + Encode(Cur() as int);
            }
          } else {
            str := str + Encode(Cur() as int);
          }
          ok := Advance();
          if !ok { return; }
        }
      }
      return false;
    }

    /** A backslash at the end of a line. */
    method ReadLineEnding() returns (ok: bool)
      requires Valid() && rest != "" && IsWhitespace(rest[0])
      modifies this`rest, input.Repr()
      ensures After(ok)
      ensures !input.Broken() ==> LineEnding(old(rest)) == if ok then Some(rest) else None
    {
      hide TextCursor.Valid, TextCursor.Rest, SkipBlanks, LineBreak;
      var consumed;
      ok := ConsumeLeadingWhitespace();
      if ok {
        ok, consumed := ConsumeLineBreak();
        ok := ok && consumed;
      }
    }

    method ParseLiteralString(multiLine: bool) returns (ok: bool)
      requires Valid() && rest != "" && rest[0] == '\''
      modifies this, input.Repr()
      ensures After(ok)
      ensures !input.Broken() ==> Body(old(rest), multiLine) == if ok then Parsed(str, rest) else Failed
    {
      hide TextCursor.Valid, TextCursor.Rest, Encode, EncodeAll, QuoteRun, LineBreak, Basic;
      ok := OpenString(multiLine);
      if !ok { return; }
      ghost var result := Literal(rest, [], multiLine);
      while !Eof()
        invariant Valid()
        invariant result == Literal(rest, str, multiLine)
        decreases |rest|
      {
        if Cur() == '\'' {
          if multiLine {
            var closed;
            ok, closed := CloseMultiLine('\'');
            if !ok || closed { return; }
          } else {
            ok := Advance();
            return;
          }
        } else if multiLine && IsAsciiVertical(Cur()) {
          var consumed;
          ok, consumed := ConsumeLineBreak();
          if !ok { return; }
          str := str + [10];
        } else if IsNonTabControl(Cur()) {
          return false;
        } else {
          str := str + Encode(Cur() as int);
          ok := Advance();
          if !ok { return; }
        }
      }
      return false;
    }

    /** `Advance`, remembering where the value began. */
    method Pass(ghost text: string, ghost start: nat, ghost top: int, ghost k: nat) returns (ok: bool)
      requires Valid() && Moved(input, text, start, top, k) && k < |text|
      modifies this`rest, input.Repr()
      ensures After(ok)
      ensures !input.Broken() ==> ok && rest == text[k + 1..] && Moved(input, text, start, top, k + 1)
    {
      hide TextCursor.Valid, TextCursor.Rest;
      Move(input, text, start, top, k);
      ok := !input.Broken();
      if ok { rest := text[k + 1..]; }
    }

    method GoBackTo(ghost text: string, ghost start: nat, ghost top: int, n: nat)
      requires Valid() && 0 < n <= HISTORY_SIZE && Moved(input, text, start, top, n)
      requires top - start <= Recorded(Cursor(0, top))
      requires start <= |Text(input.reader.reader.source)| && text == Text(input.reader.reader.source)[start..]
      modifies this`rest, input.Repr()
      ensures Valid() && rest == text
    {
      hide TextCursor.Valid, TextCursor.Rest, Text;
      CanGoBack(input, text, start, top, n);
      input.GoBack(n);
      RestIs(input);
      rest := text;
    }

    /** `parse_string`: three code points decide which kind it is, then two are stepped back over. */
    method ParseString() returns (ok: bool, wasMultiLine: bool)
      requires Valid() && rest != "" && IsStringDelimiter(rest[0])
      modifies this, input.Repr()
      ensures After(ok)
      ensures !input.Broken() ==> ReadString(old(rest)) == if ok then Parsed(str, rest) else Failed
      ensures ok ==> wasMultiLine == TripleStart(old(rest))
    {
      hide TextCursor.Valid, TextCursor.Rest, Body, Moved, Text;
      var first := Cur();
      wasMultiLine := false;
      ghost var text, start, top := rest, input.Pos(), input.Top();
      NotMoved(input);
      StartsRecorded(input);
      RestIs(input);
      ok := Pass(text, start, top, 0);
      if !ok || Eof() { return false, false; }
      var second := Cur();
      ok := Pass(text, start, top, 1);
      if !ok { return false, false; }
      if Eof() {
        str := [];
        return second == first, false;
      }
      var third := Cur();
      if first == second && first == third {
        wasMultiLine := true;
      } else {
        GoBackTo(text, start, top, 2);
      }
      if first == '\'' {
        ok := ParseLiteralString(wasMultiLine);
      } else {
        ok := ParseBasicString(wasMultiLine);
      }
    }

    method ParseBareKeySegment() returns (ok: bool)
      requires Valid() && rest != "" && IsBareKeyCharacter(rest[0])
      modifies this, input.Repr()
      ensures After(ok)
      ensures !input.Broken() ==>
                var n := BareLength(old(rest)); ok && str == Utf8Of(old(rest)[..n]) && rest == old(rest)[n..]
    {
      hide TextCursor.Valid, TextCursor.Rest, Encode, Utf8Of, IsBareKeyCharacter, BareLength, BareSoFar;
      ghost var text, i := rest, 0;
      str := [];
      BareStarts(text);
      while !Eof() && IsBareKeyCharacter(Cur())
        invariant Valid() && BareSoFar(text, i, rest, str)
        decreases |rest|
      {
        BareStep(text, i, rest, str);
        str := str + Encode(Cur() as int);
        ok := Advance();
        if !ok { return; }
        i := i + 1;
      }
      BareStops(text, i, rest, str);
      ok := true;
    }

    /** One round of `parse_key`: a segment, up to the whitespace behind it. */
    method ParseKeySegment() returns (ok: bool)
      requires Valid()
      modifies this, input.Repr()
      ensures After(ok)
      ensures !input.Broken() ==> ReadKeySegment(old(rest)) == if ok then Parsed(str, rest) else Failed
    {
      hide TextCursor.Valid, TextCursor.Rest, ReadString, Utf8Of;
      if Eof() { return false; }
      if IsBareKeyCharacter(Cur()) {
        ok := ParseBareKeySegment();
        return;
      }
      if !IsStringDelimiter(Cur()) { return false; }
      var wasMultiLine;
      ok, wasMultiLine := ParseString();
      ok := ok && !wasMultiLine;
    }
  }
}
