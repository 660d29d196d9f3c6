/** What the formatter prints for a string or a key, the parser reads back. */
module TomlStringRoundTrip {

  import opened Options
  import opened TomlNumerals
  import opened TomlStrings
  import opened TomlStringWriter
  import opened Utf8

  // ----- the printed text -----

  predicate AsciiText(text: string) {
    forall i :: 0 <= i < |text| ==> text[i] < '\U{80}'
  }

  function TraitsOf(text: string, use: Use): Traits {
    AddTraits(NoTraits(use, !AsciiText(text)), CodesOf(text))
  }

  function FormOf(text: string, style: Style, use: Use): Form {
    Choose(TraitsOf(text, use), style, use, true)
  }

  function EmitChar(c: char, form: Form): string
    requires form.BasicForm?
  {
    match EscapeOf(c as int, form) case None => [c] case Some(e) => e
  }

  function EmitText(text: string, form: Form): string
    requires form.BasicForm?
  {
    if text == "" then "" else EmitChar(text[0], form) + EmitText(text[1..], form)
  }

  function BodyText(text: string, form: Form): string
    requires !form.BareForm?
  {
    if form.LiteralForm? then text else EmitText(text, form)
  }

  /** The string as text: the code points the formatter prints. */
  function PrintText(text: string, style: Style, use: Use): string {
    if text == "" then if style.literals then "''" else "\"\""
    else
      var form := FormOf(text, style, use);
      if form.BareForm? then text
      else Quotes(form) + BodyText(text, form) + Quotes(form)
  }

  // ----- printing bytes is printing text -----

  lemma {:induction false} AsciiBytes(text: string)
    ensures IsAscii(Utf8Of(text)) <==> AsciiText(text)
    ensures AsciiText(text) ==> Utf8Of(text) == CodesOf(text)
    ensures text != "" ==> Utf8Of(text) != []
    decreases |text|
  {
    hide EncodeAll, Encode, Utf8Of, IsAscii, AsciiText;
    NoBytes();
    NothingIsAscii();
    if text != "" {
      var e, t := Encode(text[0] as int), Utf8Of(text[1..]);
      Utf8First(text);
      AsciiBytes(text[1..]);
      AsciiSplits(e, t);
      OneIsAscii(text[0]);
      AsciiTextSplits(text);
      assert CodesOf(text) == [text[0] as int] + CodesOf(text[1..]);
    }
  }

  lemma NothingIsAscii()
    ensures IsAscii([]) && AsciiText("")
  {
  }

  lemma AsciiSplits(a: seq<Byte>, b: seq<Byte>)
    ensures IsAscii(a + b) <==> IsAscii(a) && IsAscii(b)
  {
    var s := a + b;
    assert forall i :: 0 <= i < |a| ==> a[i] == s[i];
    assert forall i :: 0 <= i < |b| ==> b[i] == s[|a| + i];
  }

  lemma OneIsAscii(c: char)
    ensures IsAscii(Encode(c as int)) <==> c < '\U{80}'
    ensures c < '\U{80}' ==> Encode(c as int) == [c as int]
  {
    assert Encode(c as int)[0] < 0x80 <==> |Encode(c as int)| == 1;
  }

  lemma AsciiTextSplits(text: string)
    requires text != ""
    ensures AsciiText(text) <==> text[0] < '\U{80}' && AsciiText(text[1..])
  {
    assert forall i :: 0 < i < |text| ==> text[i] == text[1..][i - 1];
    assert forall i :: 0 <= i < |text| - 1 ==> text[1..][i] == text[i + 1];
  }

  lemma {:induction false} ValuesOfCodes(vs: seq<int>)
    requires Scalars(vs)
    ensures Values(Codes(vs)) == vs
  {
    if vs != [] {
      ValuesOfCodes(vs[1..]);
      var cs := Codes(vs);
      assert cs[1..] == Codes(vs[1..]);
    }
  }

  lemma PrescanText(text: string, use: Use)
    ensures Prescan(Utf8Of(text), use) == (TraitsOf(text, use), true)
  {
    hide Scan, AddTraits, EncodeAll, Values, Codes;
    AsciiBytes(text);
    if !AsciiText(text) {
      DecoderIsExact(Utf8Of(text));
      ValuesOfCodes(CodesOf(text));
    }
  }

  lemma {:induction false} EmitUnfinished(e: Emission, p: seq<Byte>, form: Form)
    requires Unfinished(p) && e.pending == [] && form.BasicForm?
    ensures EmitAll(e, p, form) == e.(pending := p)
    decreases |p|
  {
    hide Feed;
    if p != [] {
      var q, b := p[..|p| - 1], p[|p| - 1];
      EmitUnfinished(e, q, form);
      assert q + [b] == p;
      EmitConcat(e, q, [b], form);
      assert FeedAll(p) == Feed(FeedAll(q), b);
      EmitOne(e.(pending := q), b, form);
    }
  }

  lemma {:induction false} EmitConcat(e: Emission, a: seq<Byte>, b: seq<Byte>, form: Form)
    requires form.BasicForm?
    ensures EmitAll(e, a + b, form) == EmitAll(EmitAll(e, a, form), b, form)
    decreases |a|
  {
    hide EmitByte;
    if a == [] {
      assert a + b == b;
    } else {
      assert (a + b)[1..] == a[1..] + b;
      EmitConcat(EmitByte(e, a[0], form), a[1..], b, form);
    }
  }

  lemma EmitOne(e: Emission, b: Byte, form: Form)
    requires form.BasicForm?
    ensures EmitAll(e, [b], form) == EmitByte(e, b, form)
  {
    hide EmitByte;
    assert [b][1..] == [];
    assert EmitAll(EmitByte(e, b, form), [], form) == EmitByte(e, b, form);
  }

  lemma EmitEncoding(e: Emission, c: char, form: Form)
    requires e.pending == [] && form.BasicForm?
    ensures EmitAll(e, Encode(c as int), form) == Emission(e.out + Utf8Of(EmitChar(c, form)), [])
  {
    hide Feed, FeedAll, Encode, EmitAll, EncodeAll, EscapeOf;
    var r := Encode(c as int);
    var p := r[..|r| - 1];
    EncodingFinishes(c as int);
    EmitUnfinished(e, p, form);
    assert p + [r[|r| - 1]] == r;
    EmitConcat(e, p, [r[|r| - 1]], form);
    EmitOne(e.(pending := p), r[|r| - 1], form);
    Utf8One(c);
  }

  lemma {:induction false} EmitAllText(e: Emission, text: string, form: Form)
    requires e.pending == [] && form.BasicForm?
    ensures EmitAll(e, Utf8Of(text), form) == Emission(e.out + Utf8Of(EmitText(text, form)), [])
    decreases |text|
  {
    hide EmitChar, EncodeAll, EmitByte, Encode;
    if text == "" {
      NoBytes();
      assert e.out + [] == e.out;
      assert EmitText(text, form) == "";
    } else {
      hide Utf8Of;
      Utf8First(text);
      EmitConcat(e, Encode(text[0] as int), Utf8Of(text[1..]), form);
      EmitEncoding(e, text[0], form);
      EmitAllText(EmitAll(e, Encode(text[0] as int), form), text[1..], form);
      Utf8Concat(EmitChar(text[0], form), EmitText(text[1..], form));
      var a, b := Utf8Of(EmitChar(text[0], form)), Utf8Of(EmitText(text[1..], form));
      assert e.out + a + b == e.out + (a + b);
    }
  }

  lemma {:induction false} EmitTextLast(text: string, c: char, form: Form)
    requires form.BasicForm?
    ensures EmitText(text + [c], form) == EmitText(text, form) + EmitChar(c, form)
    decreases |text|
  {
    hide EmitChar;
    if text == "" {
      assert text + [c] == [c] && [c][1..] == "";
      assert EmitText([c], form) == EmitChar(c, form) + EmitText("", form);
      assert EmitChar(c, form) + "" == EmitChar(c, form) == "" + EmitChar(c, form);
    } else {
      assert (text + [c])[1..] == text[1..] + [c];
      EmitTextLast(text[1..], c, form);
    }
  }

  lemma {:induction false} EmitAsciiText(text: string, form: Form)
    requires AsciiText(text) && form.BasicForm?
    ensures EmitAscii(CodesOf(text), form) == Utf8Of(EmitText(text, form))
    decreases |text|
  {
    hide EncodeAll, EscapeOf;
    if text == "" {
      NoBytes();
    } else {
      var front, c := text[..|text| - 1], text[|text| - 1];
      EmitAsciiText(front, form);
      assert front + [c] == text;
      EmitTextLast(front, c, form);
      Utf8Concat(EmitText(front, form), EmitChar(c, form));
      var codes := CodesOf(text);
      assert codes[..|codes| - 1] == CodesOf(front);
      AsciiBytes([c]);
      assert CodesOf([c]) == [c as int];
    }
  }

  /** Printing the encoded text prints the encoding of the printed text. */
  lemma PrintedIsText(text: string, style: Style, use: Use)
    ensures PrintBytes(Utf8Of(text), style, use) == Utf8Of(PrintText(text, style, use))
  {
    hide Prescan, EmitAll, EmitAscii, EmitText, EncodeAll, CodesOf, TraitsOf, Choose;
    AsciiBytes(text);
    PrescanText(text, use);
    NoBytes();
    if text != "" {
      var form := FormOf(text, style, use);
      NonAsciiTrait(text, use);
      if !form.BareForm? {
        var q := Quotes(form);
        if form.LiteralForm? {
          Utf8Concat(q + text, q);
          Utf8Concat(q, text);
        } else {
          var body := EmitText(text, form);
          Utf8Concat(q + body, q);
          Utf8Concat(q, body);
          if AsciiText(text) {
            EmitAsciiText(text, form);
          } else {
            EmitAllText(Emission([], []), text, form);
            assert [] + Utf8Of(body) == Utf8Of(body);
          }
        }
      }
    }
  }

  // ----- what the traits mean -----

  predicate IsPlain(c: char) { c != '\n' && c != '\t' && c != '\'' }

  lemma {:induction false} TraitsMean(text: string, t: Traits, c: char)
    requires c in text
    ensures var r := AddTraits(t, CodesOf(text));
            && (c == '\n' ==> r.lineBreaks) && (c == '\t' ==> r.tabs) && (c == '\'' ==> r.singleQuotes)
            && (IsPlain(c) && (IsControl(c as int) || IsNonAsciiVertical(c as int)) ==> r.controlChars)
            && (IsPlain(c) && !IsBare(c as int) ==> r.nonBare)
    decreases |text|
  {
    hide IsControl, IsNonAsciiVertical, IsBare;
    var front, last := text[..|text| - 1], text[|text| - 1];
    var codes := CodesOf(text);
    assert codes[..|codes| - 1] == CodesOf(front);
    assert codes[|codes| - 1] == last as int;
    if c in front {
      TraitsMean(front, t, c);
    } else {
      assert text == front + [last];
    }
  }

  lemma {:induction false} TraitsFrom(text: string, t: Traits)
    ensures var r := AddTraits(t, CodesOf(text));
            && r.nonAscii == t.nonAscii && (t.nonBare ==> r.nonBare)
            && (r.lineBreaks <==> t.lineBreaks || '\n' in text)
    decreases |text|
  {
    hide IsControl, IsNonAsciiVertical, IsBare;
    if text != "" {
      var front, last := text[..|text| - 1], text[|text| - 1];
      var codes := CodesOf(text);
      assert codes[..|codes| - 1] == CodesOf(front);
      assert codes[|codes| - 1] == last as int;
      assert text == front + [last];
      TraitsFrom(front, t);
    }
  }

  lemma NonAsciiTrait(text: string, use: Use)
    ensures TraitsOf(text, use).nonAscii == !AsciiText(text)
  {
    hide AddTraits, CodesOf;
    TraitsFrom(text, NoTraits(use, !AsciiText(text)));
  }

  /** What each trait means, both ways. */
  lemma {:induction false} TraitsExactly(text: string, t: Traits)
    ensures var r := AddTraits(t, CodesOf(text));
            && (r.lineBreaks <==> t.lineBreaks || '\n' in text) && (r.tabs <==> t.tabs || '\t' in text)
            && (r.singleQuotes <==> t.singleQuotes || '\'' in text)
            && (r.controlChars <==> t.controlChars || exists c :: c in text && Controls(c))
            && (r.nonBare <==> t.nonBare || exists c :: c in text && IsPlain(c) && !IsBareKeyCharacter(c))
    decreases |text|
  {
    hide IsBareKeyCharacter, Controls, AddTrait;
    if text != "" {
      var front, last := text[..|text| - 1], text[|text| - 1];
      var codes := CodesOf(text);
      assert codes[..|codes| - 1] == CodesOf(front);
      assert codes[|codes| - 1] == last as int;
      TraitsExactly(front, t);
      OneTrait(AddTraits(t, CodesOf(front)), last);
      assert text == front + [last];
      assert forall c :: c in text <==> c in front || c == last;
    }
  }

  /** A character that only an escape may stand for, a tab and a line feed aside. */
  predicate Controls(c: char) {
    || (c <= '\U{1F}' && c != '\t' && c != '\n') || c == '\U{7F}'
    || c == '\U{85}' || c == '\U{2028}' || c == '\U{2029}'
  }

  lemma OneTrait(t: Traits, c: char)
    ensures var r := AddTrait(t, c as int);
            && (r.lineBreaks <==> t.lineBreaks || c == '\n') && (r.tabs <==> t.tabs || c == '\t')
            && (r.singleQuotes <==> t.singleQuotes || c == '\'')
            && (r.controlChars <==> t.controlChars || Controls(c))
            && (r.nonBare <==> t.nonBare || (IsPlain(c) && !IsBareKeyCharacter(c)))
  {
  }

  /** A literal string holds no character that needs an escape: no control character, quotes only over several
      lines, tabs and characters outside ASCII only where they may stand for themselves. */
  predicate MayBeLiteral(text: string, style: Style, use: Use) {
    && style.literals && (forall c :: c in text ==> !Controls(c))
    && ('\'' in text ==> SpansLines(text, style, use))
    && ('\t' in text ==> use.literalWhitespace && style.realTabs)
    && ('\n' in text ==> SpansLines(text, style, use))
    && (style.unicode || AsciiText(text))
  }

  /** Which form is chosen: bare where every character may stand bare and the caller allows it, else literal
      where that is possible, else basic. */
  lemma FormExactly(text: string, style: Style, use: Use)
    requires text != ""
    ensures FormOf(text, style, use)
            == if use.bare && forall c :: c in text ==> StandsBare(c) then BareForm
               else if MayBeLiteral(text, style, use) then LiteralForm(SpansLines(text, style, use))
               else BasicForm(SpansLines(text, style, use), use.literalWhitespace && style.realTabs, style.unicode)
  {
    hide AddTraits, IsBareKeyCharacter, Controls, StandsBare;
    TraitsExactly(text, NoTraits(use, !AsciiText(text)));
    NonAsciiTrait(text, use);
    BareIsPlain();
    forall c ensures StandsBare(c) <==> IsBareKeyCharacter(c) { BareIs(c); }
    assert forall i :: 0 <= i < |text| ==> text[i] in text;
    assert AsciiText(text) <==> forall c :: c in text ==> c < '\U{80}';
  }

  /** Letters and digits of ASCII, the hyphen and the underscore. */
  predicate StandsBare(c: char) {
    'a' <= c <= 'z' || 'A' <= c <= 'Z' || '0' <= c <= '9' || c == '-' || c == '_'
  }

  lemma BareIs(c: char)
    ensures StandsBare(c) <==> IsBareKeyCharacter(c)
  {
  }

  lemma BareIsPlain()
    ensures forall c :: IsBareKeyCharacter(c) ==> IsPlain(c) && c < '\U{80}'
  {
  }

  /** The string is printed over several lines. */
  predicate SpansLines(text: string, style: Style, use: Use) {
    use.literalWhitespace && use.multiLine && style.multiLines && '\n' in text
  }

  /** What may stand in a literal string. */
  predicate LiteralChar(c: char, multi: bool) {
    (IsNonTabControl(c) ==> multi && c == '\n') && (c == '\'' ==> multi)
  }

  lemma FormMeans(text: string, style: Style, use: Use)
    ensures var form := FormOf(text, style, use);
            && (form.BareForm? ==> use.bare && forall i :: 0 <= i < |text| ==> IsBareKeyCharacter(text[i]))
            && (!form.BareForm? ==> (form.multi <==> SpansLines(text, style, use)))
            && (form.LiteralForm? ==> forall i :: 0 <= i < |text| ==> LiteralChar(text[i], form.multi))
  {
    hide AddTraits, CodesOf;
    var form := FormOf(text, style, use);
    var t0 := NoTraits(use, !AsciiText(text));
    TraitsFrom(text, t0);
    forall i | 0 <= i < |text|
      ensures form.BareForm? ==> IsBareKeyCharacter(text[i])
      ensures form.LiteralForm? ==> LiteralChar(text[i], form.multi)
    {
      TraitsMean(text, t0, text[i]);
    }
  }

  // ----- reading basic strings -----

  /** A code point of up to four or eight hexadecimal digits comes back from its escape. */
  lemma HexEscape(code: nat, wide: bool, tail: string)
    requires Scalar(code) && (code > 0xFFFF ==> wide)
    ensures Escape((if wide then "U" + Padded(16, code, 8) else "u" + Padded(16, code, 4)) + tail)
            == Some((Encode(code), tail))
  {
    hide Padded, ValueOf, Power, Encode, IsDigit;
    PowersOf16();
    var n := if wide then 8 else 4;
    PaddedIs(16, code, n);
    var h := Padded(16, code, n);
    var s := (if wide then "U" + h else "u" + h) + tail;
    assert s[1..] == h + tail;
    assert s[1..][..n] == h;
    assert s[1 + n..] == tail;
  }

  lemma SimpleEscapes(c: char, b: Byte, tail: string)
    requires SimpleEscape(c) == Some(b) && b < 0x80 && tail != ""
    ensures Escape([c] + tail) == Some((Encode(b), tail))
  {
    assert ([c] + tail)[1..] == tail;
  }

  /** What stands behind the backslash of an escape is read back as the character it was made from. */
  lemma EscapeIsRead(c: char, form: Form, tail: string)
    requires form.BasicForm? && EscapeOf(c as int, form).Some? && tail != ""
    ensures var e := EscapeOf(c as int, form).value;
            && |e| >= 2 && e[0] == '\\' && !IsWhitespace(e[1])
            && Escape(e[1..] + tail) == Some((Encode(c as int), tail))
  {
    hide Padded, Encode, Escape;
    var code := c as int;
    var e := EscapeOf(code, form).value;
    if code == 34 {
      SimpleEscapes('"', 34, tail);
      assert e[1..] == "\"";
    } else if code == 92 {
      SimpleEscapes('\\', 92, tail);
      assert e[1..] == "\\";
    } else if code == 0x7F {
      Delete();
      HexEscape(code, false, tail);
      assert e[1..] == "u" + Padded(16, 0x7F, 4);
    } else if code <= 0x1F {
      ControlIsRead(code, tail);
      assert e == ControlEscape(code);
    } else {
      HexEscape(code, code > 0xFFFF, tail);
      assert e[1..] == if code > 0xFFFF then "U" + Padded(16, code, 8) else "u" + Padded(16, code, 4);
    }
  }

  lemma Delete()
    ensures Padded(16, 0x7F, 4) == "007F"
  {
    assert Numeral(16, 7) == "7";
    assert Numeral(16, 0x7F) == "7F";
    assert Zeros(2) == "00";
  }

  lemma ControlIsRead(code: nat, tail: string)
    requires code <= 0x1F && tail != ""
    ensures var e := ControlEscape(code);
            && |e| >= 2 && e[0] == '\\' && !IsWhitespace(e[1])
            && Escape(e[1..] + tail) == Some((Encode(code), tail))
  {
    hide Padded, Encode, Escape;
    var e := ControlEscape(code);
    match code
    case 8 => SimpleEscapes('b', 8, tail); assert e[1..] == "b";
    case 9 => SimpleEscapes('t', 9, tail); assert e[1..] == "t";
    case 10 => SimpleEscapes('n', 10, tail); assert e[1..] == "n";
    case 12 => SimpleEscapes('f', 12, tail); assert e[1..] == "f";
    case 13 => SimpleEscapes('r', 13, tail); assert e[1..] == "r";
    case _ => HexEscape(code, false, tail); assert e[1..] == "u" + Padded(16, code, 4);
  }

  /** One emitted character is read back. */
  lemma CharIsRead(c: char, form: Form, tail: string, str: seq<Byte>)
    requires form.BasicForm? && tail != ""
    ensures Basic(EmitChar(c, form) + tail, str, form.multi, false)
            == Basic(tail, str + Encode(c as int), form.multi, false)
  {
    hide Encode, Escape, LineEnding;
    var s := EmitChar(c, form) + tail;
    if EscapeOf(c as int, form).Some? {
      var e := EscapeOf(c as int, form).value;
      EscapeIsRead(c, form, tail);
      assert s[1..] == e[1..] + tail;
      assert s[1..][0] == e[1];
      BackslashIs(s, str, form.multi);
    } else if c == '\n' {
      assert s[1..] == tail;
      NewlineBytes();
      assert LineBreak(s) == Some((true, tail));
    } else {
      assert s[1..] == tail;
    }
  }

  lemma BackslashIs(s: string, str: seq<Byte>, multi: bool)
    requires |s| > 1 && s[0] == '\\'
    ensures Basic(s, str, multi, false) == BasicEscape(s[1..], str, multi)
  {
    hide BasicEscape;
  }

  lemma NewlineBytes()
    ensures Encode('\n' as int) == [10]
  {
  }

  /** The closing delimiter. */
  lemma BasicCloses(form: Form, rest: string, str: seq<Byte>)
    requires form.BasicForm? && (rest == "" || !IsStringDelimiter(rest[0]))
    ensures Basic(Quotes(form) + rest, str, form.multi, false) == Parsed(str, rest)
  {
    var s := Quotes(form) + rest;
    if form.multi {
      assert s[..3] == Repeat('"', 3);
      RunIs(s, '"', 3, 5);
      assert QuoteBytes('"', 0) == [] && str + [] == str;
      assert s[3..] == rest;
    } else {
      assert s[1..] == rest;
    }
  }

  lemma {:induction false} BasicIsRead(text: string, form: Form, rest: string, str: seq<Byte>)
    requires form.BasicForm? && (rest == "" || !IsStringDelimiter(rest[0]))
    ensures Basic(EmitText(text, form) + Quotes(form) + rest, str, form.multi, false)
            == Parsed(str + Utf8Of(text), rest)
    decreases |text|
  {
    hide Basic, EmitChar, EncodeAll, Encode;
    var close := Quotes(form) + rest;
    assert EmitText(text, form) + Quotes(form) + rest == EmitText(text, form) + close;
    if text == "" {
      assert EmitText(text, form) + close == close;
      BasicCloses(form, rest, str);
      NoBytes();
      assert str + [] == str;
    } else {
      hide Utf8Of;
      var tail := EmitText(text[1..], form) + close;
      assert EmitText(text, form) + close == EmitChar(text[0], form) + tail;
      CharIsRead(text[0], form, tail, str);
      var e := Encode(text[0] as int);
      BasicIsRead(text[1..], form, rest, str + e);
      assert EmitText(text[1..], form) + Quotes(form) + rest == tail;
      Utf8First(text);
      assert str + e + Utf8Of(text[1..]) == str + (e + Utf8Of(text[1..]));
    }
  }

  // ----- reading literal strings -----

  /** Three single quotes in a row. */
  predicate HasTriple(text: string) {
    |text| >= 3 && ((TripleStart(text) && text[0] == '\'') || HasTriple(text[1..]))
  }

  lemma LiteralCharIsRead(c: char, tail: string, str: seq<Byte>, multi: bool)
    requires LiteralChar(c, multi) && c != '\''
    ensures Literal([c] + tail, str, multi) == Literal(tail, str + Encode(c as int), multi)
  {
    var s := [c] + tail;
    assert s[1..] == tail;
    if c == '\n' {
      NewlineBytes();
      assert LineBreak(s) == Some((true, tail));
    }
  }

  lemma {:induction false} LiteralIsRead(text: string, rest: string, str: seq<Byte>)
    requires forall i :: 0 <= i < |text| ==> LiteralChar(text[i], false)
    ensures Literal(text + "'" + rest, str, false) == Parsed(str + Utf8Of(text), rest)
    decreases |text|
  {
    hide Encode, EncodeAll;
    if text == "" {
      NoBytes();
      assert str + [] == str;
      assert text + "'" + rest == "'" + rest;
      assert ("'" + rest)[1..] == rest;
    } else {
      hide Literal, Utf8Of;
      assert text + "'" + rest == [text[0]] + (text[1..] + "'" + rest);
      LiteralCharIsRead(text[0], text[1..] + "'" + rest, str, false);
      var e := Encode(text[0] as int);
      LiteralIsRead(text[1..], rest, str + e);
      Utf8First(text);
      assert str + e + Utf8Of(text[1..]) == str + (e + Utf8Of(text[1..]));
    }
  }

  lemma {:induction false} QuotesAre(n: nat)
    ensures Utf8Of(Repeat('\'', n)) == QuoteBytes('\'', n)
  {
    hide EncodeAll;
    var text := Repeat('\'', n);
    AsciiBytes(text);
    assert CodesOf(text) == QuoteBytes('\'', n);
  }

  lemma MultiQuotes(s: string, k: nat, str: seq<Byte>)
    requires s != "" && s[0] == '\'' && k == QuoteRun(s, '\'', 5)
    ensures Literal(s, str, true)
            == if k < 3 then Literal(s[k..], str + QuoteBytes('\'', k), true)
               else Parsed(str + QuoteBytes('\'', k - 3), s[k..])
    ensures k > 0
  {
  }

  /** Quotes followed by something else. */
  lemma {:induction false} RunInside(text: string, k: nat)
    requires k < 3 && k < |text| && text[..k] == Repeat('\'', k) && text[k] != '\''
    ensures HasTriple(text) <==> HasTriple(text[k..])
  {
    if k > 0 {
      assert text[0] == text[..k][0] && text[1..][..k - 1] == Repeat('\'', k - 1) by {
        assert text[1..][..k - 1] == text[..k][1..];
      }
      assert text[1..][k - 1..] == text[k..];
      RunInside(text[1..], k - 1);
    } else {
      assert text[0..] == text;
    }
  }

  lemma QuotesSplit(text: string, k: nat)
    requires k <= |text| && text[..k] == Repeat('\'', k)
    ensures Utf8Of(text) == QuoteBytes('\'', k) + Utf8Of(text[k..])
  {
    hide Utf8Of;
    QuotesAre(k);
    assert text == text[..k] + text[k..];
    Utf8Concat(text[..k], text[k..]);
  }

  ghost predicate ReadsBack(r: Parsed, text: string, str: seq<Byte>, rest: string) {
    if HasTriple(text) then r.Parsed? ==> |r.bytes| < |str + Utf8Of(text)|
    else r == Parsed(str + Utf8Of(text), rest)
  }

  lemma QuotesBehind(text: string, rest: string)
    ensures var s, n := text + "'''" + rest, |text|;
            && (forall i :: n <= i < n + 3 ==> s[i] == '\'')
            && (forall i :: 0 <= i < n ==> s[i] == text[i])
            && (rest != "" ==> s[n + 3] == rest[0])
  {
  }

  lemma LongRun(text: string, rest: string, str: seq<Byte>, k: nat)
    requires text != "" && text[0] == '\'' && (rest == "" || !IsStringDelimiter(rest[0]))
    requires var s := text + "'''" + rest; k == QuoteRun(s, '\'', 5) && k >= 3
    ensures ReadsBack(Literal(text + "'''" + rest, str, true), text, str, rest)
  {
    hide Encode, EncodeAll, Utf8Of, Literal;
    var s := text + "'''" + rest;
    MultiQuotes(s, k, str);
    if k <= |text| {
      QuotesInside(s, text, k);
      QuotesSplit(text, k);
    } else {
      hide QuoteRun;
      var n := |text|;
      QuotesInside(s, text, n);
      QuotesSplit(text, n);
      NoBytes();
      assert text[n..] == "";
      assert QuoteBytes('\'', n) + [] == QuoteBytes('\'', n);
      QuotesBehind(text, rest);
      if n <= 2 {
        assert k == n + 3;
        assert s[k..] == rest;
        assert !HasTriple(text);
      }
    }
  }

  /** As far as the run reaches into the text, the text is quotes. */
  lemma QuotesInside(s: string, text: string, n: nat)
    requires n <= |text| && text <= s && n <= QuoteRun(s, '\'', 5)
    ensures text[..n] == Repeat('\'', n) && (n >= 3 ==> TripleStart(text) && HasTriple(text))
  {
    var k := QuoteRun(s, '\'', 5);
    assert forall i :: 0 <= i < k ==> s[..k][i] == '\'';
    assert forall i :: 0 <= i < n ==> text[i] == s[..k][i];
  }

  lemma {:induction false} MultiIsRead(text: string, rest: string, str: seq<Byte>)
    requires forall i :: 0 <= i < |text| ==> LiteralChar(text[i], true)
    requires rest == "" || !IsStringDelimiter(rest[0])
    ensures ReadsBack(Literal(text + "'''" + rest, str, true), text, str, rest)
    decreases |text|
  {
    hide Encode, EncodeAll, Utf8Of, Literal;
    var s := text + "'''" + rest;
    if text == "" {
      NoBytes();
      assert str + [] == str;
      assert s == "'''" + rest;
      assert s[..3] == Repeat('\'', 3);
      RunIs(s, '\'', 3, 5);
      MultiQuotes(s, 3, str);
      assert QuoteBytes('\'', 0) == [];
      assert s[3..] == rest;
    } else if text[0] != '\'' {
      assert s == [text[0]] + (text[1..] + "'''" + rest);
      LiteralCharIsRead(text[0], text[1..] + "'''" + rest, str, true);
      var e := Encode(text[0] as int);
      MultiIsRead(text[1..], rest, str + e);
      Utf8First(text);
      assert str + e + Utf8Of(text[1..]) == str + (e + Utf8Of(text[1..]));
    } else {
      var k := QuoteRun(s, '\'', 5);
      MultiQuotes(s, k, str);
      if k >= 3 {
        LongRun(text, rest, str, k);
      } else {
        ShortRun(text, rest, k);
        MultiIsRead(text[k..], rest, str + QuoteBytes('\'', k));
        QuotesSplit(text, k);
        var q := QuoteBytes('\'', k);
        assert str + q + Utf8Of(text[k..]) == str + (q + Utf8Of(text[k..]));
      }
    }
  }

  lemma ShortRun(text: string, rest: string, k: nat)
    requires text != "" && text[0] == '\''
    requires var s := text + "'''" + rest; k == QuoteRun(s, '\'', 5) && 0 < k < 3
    ensures k < |text| && text[..k] == Repeat('\'', k)
    ensures HasTriple(text) <==> HasTriple(text[k..])
    ensures (text + "'''" + rest)[k..] == text[k..] + "'''" + rest
  {
    hide QuoteRun, HasTriple, Repeat;
    QuotesBehind(text, rest);
    var s := text + "'''" + rest;
    StopsInside(s, text, k);
    RunInside(text, k);
    SplitAt(text, "'''", rest, k);
  }

  lemma StopsInside(s: string, text: string, k: nat)
    requires text <= s && |s| >= |text| + 3 && k < 3
    requires s[..k] == Repeat('\'', k) && s[k] != '\''
    requires forall i :: |text| <= i < |text| + 3 ==> s[i] == '\''
    ensures k < |text| && text[..k] == Repeat('\'', k) && text[k] != '\''
  {
    hide Repeat;
    assert k < |text|;
    assert text[..k] == s[..k];
  }

  lemma SplitAt(text: string, close: string, rest: string, k: nat)
    requires k <= |text|
    ensures (text + close + rest)[k..] == text[k..] + close + rest
  {
  }

  // ----- the round trips -----

  /** The texts the printed form does not keep: over several lines, a leading line break is dropped, and
      three quotes end a literal string early. */
  predicate Lost(text: string, style: Style, use: Use) {
    && SpansLines(text, style, use)
    && (text[0] == '\n' || (FormOf(text, style, use).LiteralForm? && HasTriple(text)))
  }

  lemma EmptyIsRead(q: char, rest: string)
    requires IsStringDelimiter(q) && (rest == "" || !IsStringDelimiter(rest[0]))
    ensures ReadString([q, q] + rest) == Parsed([], rest) && !TripleStart([q, q] + rest)
  {
    var s := [q, q] + rest;
    if rest == "" {
      assert s == [q, q];
    } else {
      assert s[2] == rest[0];
      assert s[1..][1..] == rest;
    }
  }

  /** A string on one line. */
  lemma OneLineIsRead(text: string, form: Form, rest: string)
    requires text != "" && Readable(text, form) && !form.multi
    requires rest == "" || !IsStringDelimiter(rest[0])
    ensures var s := Quotes(form) + BodyText(text, form) + Quotes(form) + rest;
            IsStringDelimiter(s[0]) && !TripleStart(s) && ReadString(s) == Parsed(Utf8Of(text), rest)
  {
    hide Basic, Literal, EncodeAll, Utf8Of, ReadString, EmitText, TripleStart;
    if form.LiteralForm? {
      LiteralIsRead(text, rest, []);
      OneLineStarts('\'', text, rest);
    } else {
      BasicIsRead(text, form, rest, []);
      EmitStarts(text, form);
      OneLineStarts('"', EmitText(text, form), rest);
    }
    assert [] + Utf8Of(text) == Utf8Of(text);
  }

  /** A quoted text that does not begin with another quote is read in the one-line form. */
  lemma OneLineStarts(q: char, body: string, rest: string)
    requires IsStringDelimiter(q) && body != "" && body[0] != q
    ensures var s, inside := [q] + body + [q] + rest, body + [q] + rest;
            && IsStringDelimiter(s[0]) && !TripleStart(s)
            && ReadString(s) == if q == '"' then Basic(inside, [], false, false) else Literal(inside, [], false)
  {
    hide Basic, Literal;
    var s := [q] + body + [q] + rest;
    assert s[1..] == body + [q] + rest;
    assert s[1] == body[0];
  }

  lemma EmitStarts(text: string, form: Form)
    requires text != "" && form.BasicForm?
    ensures var body := EmitText(text, form);
            && body != "" && body[0] != '"'
            && (form.multi ==> (IsAsciiVertical(body[0]) <==> text[0] == '\n'))
  {
    hide Padded;
    assert EmitText(text, form)[0] == EmitChar(text[0], form)[0];
  }

  ghost predicate Readable(text: string, form: Form) {
    !form.BareForm? && (form.LiteralForm? ==> forall i :: 0 <= i < |text| ==> LiteralChar(text[i], form.multi))
  }

  /** Behind the opening delimiters of a string over several lines. */
  function AfterOpening(s: string, form: Form): Parsed
    requires !form.BareForm?
  {
    if form.LiteralForm? then Literal(s, [], true) else Basic(s, [], true, false)
  }

  lemma TripleIsRead(form: Form, s: string)
    requires !form.BareForm? && form.multi && s != ""
    ensures var t := Quotes(form) + s;
            && IsStringDelimiter(t[0])
            && ReadString(t) == match LineBreak(s)
                                case None => Failed
                                case Some(b) => if b.1 == "" then Failed else AfterOpening(b.1, form)
  {
    hide Basic, Literal, LineBreak;
    var t := Quotes(form) + s;
    assert t[2..][1..] == s;
    assert TripleStart(t);
  }

  lemma LinesFrom(text: string, form: Form, rest: string)
    requires Readable(text, form) && form.multi && (rest == "" || !IsStringDelimiter(rest[0]))
    ensures var r := AfterOpening(BodyText(text, form) + Quotes(form) + rest, form);
            if form.LiteralForm? then ReadsBack(r, text, [], rest) else r == Parsed(Utf8Of(text), rest)
  {
    hide Basic, Literal, Utf8Of, HasTriple;
    if form.LiteralForm? {
      MultiIsRead(text, rest, []);
    } else {
      BasicIsRead(text, form, rest, []);
      assert [] + Utf8Of(text) == Utf8Of(text);
    }
  }

  /** A string over several lines. */
  lemma LinesAreRead(text: string, form: Form, rest: string)
    requires text != "" && Readable(text, form) && form.multi
    requires rest == "" || !IsStringDelimiter(rest[0])
    ensures var s := Quotes(form) + BodyText(text, form) + Quotes(form) + rest;
            && IsStringDelimiter(s[0])
            && (ReadString(s) == Parsed(Utf8Of(text), rest)
                <==> !(text[0] == '\n' || (form.LiteralForm? && HasTriple(text))))
  {
    hide AfterOpening, BodyText, Utf8Of, LineBreak, HasTriple, ReadString, Quotes;
    QuotesStand(form);
    var q := Quotes(form);
    var s := BodyText(text, form) + q + rest;
    assert q + BodyText(text, form) + q + rest == q + s;
    TripleIsRead(form, s);
    if text[0] == '\n' {
      LeadingLineBreak(text, form);
      NewlineDropped(BodyText(text[1..], form) + q + rest);
      assert s == "\n" + (BodyText(text[1..], form) + q + rest);
      LinesFrom(text[1..], form, rest);
      Utf8First(text);
    } else {
      StaysWhole(text, form, q + rest);
      assert s == BodyText(text, form) + (q + rest);
      LinesFrom(text, form, rest);
    }
    assert [] + Utf8Of(text) == Utf8Of(text) && [] + Utf8Of(text[1..]) == Utf8Of(text[1..]);
  }

  lemma QuotesStand(form: Form)
    requires !form.BareForm?
    ensures Quotes(form) != ""
  {
  }

  lemma LeadingLineBreak(text: string, form: Form)
    requires text != "" && Readable(text, form) && form.multi && text[0] == '\n'
    ensures Readable(text[1..], form) && BodyText(text, form) == "\n" + BodyText(text[1..], form)
  {
    if form.BasicForm? { NewlineFirst(text, form); }
  }

  lemma StaysWhole(text: string, form: Form, after: string)
    requires text != "" && Readable(text, form) && form.multi && text[0] != '\n'
    ensures var s := BodyText(text, form) + after; s != "" && LineBreak(s) == Some((false, s))
  {
    hide EmitText;
    if form.BasicForm? { EmitStarts(text, form); }
    NoLineBreak(BodyText(text, form) + after, form, text);
  }

  lemma NewlineFirst(text: string, form: Form)
    requires text != "" && text[0] == '\n' && form.BasicForm? && form.multi
    ensures EmitText(text, form) == "\n" + EmitText(text[1..], form)
  {
    assert EmitChar('\n', form) == "\n";
  }

  lemma NewlineDropped(s: string)
    ensures LineBreak("\n" + s) == Some((true, s))
  {
    assert ("\n" + s)[1..] == s;
  }

  lemma NoLineBreak(s: string, form: Form, text: string)
    requires s != "" && text != "" && text[0] != '\n'
    requires if form.LiteralForm? then s[0] == text[0] && LiteralChar(text[0], true) else !IsAsciiVertical(s[0])
    ensures LineBreak(s) == Some((false, s))
  {
  }

  /** Exactly which strings come back, and that the bytes printed are this text. */
  lemma StringRoundTripExactly(text: string, style: Style, use: Use, rest: string)
    requires !use.bare && (rest == "" || !IsStringDelimiter(rest[0]))
    ensures PrintBytes(Utf8Of(text), style, use) == Utf8Of(PrintText(text, style, use))
    ensures var s := PrintText(text, style, use) + rest;
            && IsStringDelimiter(s[0])
            && (ReadString(s) == Parsed(Utf8Of(text), rest) <==> !Lost(text, style, use))
  {
    hide ReadString, EmitText, EncodeAll, Choose, TraitsOf, HasTriple, Utf8Of;
    PrintedIsText(text, style, use);
    if text == "" {
      NoBytes();
      EmptyIsRead(if style.literals then '\'' else '"', rest);
    } else {
      FormMeans(text, style, use);
      var form := FormOf(text, style, use);
      if form.multi {
        LinesAreRead(text, form, rest);
      } else {
        OneLineIsRead(text, form, rest);
      }
    }
  }

  /** A value without line breaks always comes back. */
  lemma ValueRoundTrip(text: string, style: Style, rest: string)
    requires '\n' !in text && (rest == "" || !IsStringDelimiter(rest[0]))
    ensures var s := PrintText(text, style, VALUE) + rest;
            IsStringDelimiter(s[0]) && ReadString(s) == Parsed(Utf8Of(text), rest)
  {
    hide ReadString, PrintText, FormOf;
    StringRoundTripExactly(text, style, VALUE, rest);
  }

  lemma BareIsRead(text: string, rest: string)
    requires text != "" && forall i :: 0 <= i < |text| ==> IsBareKeyCharacter(text[i])
    requires rest == "" || !IsBareKeyCharacter(rest[0])
    ensures ReadKeySegment(text + rest) == Parsed(Utf8Of(text), rest)
  {
    BareLengthIs(text, rest);
    assert (text + rest)[..|text|] == text && (text + rest)[|text|..] == rest;
  }

  lemma {:induction false} BareLengthIs(text: string, rest: string)
    requires forall i :: 0 <= i < |text| ==> IsBareKeyCharacter(text[i])
    requires rest == "" || !IsBareKeyCharacter(rest[0])
    ensures BareLength(text + rest) == |text|
    decreases |text|
  {
    if text == "" {
      assert text + rest == rest;
    } else {
      assert (text + rest)[1..] == text[1..] + rest;
      BareLengthIs(text[1..], rest);
    }
  }

  /** Every key comes back, line breaks and all. */
  lemma KeyRoundTrip(text: string, style: Style, rest: string)
    requires rest == "" || !(IsStringDelimiter(rest[0]) || IsBareKeyCharacter(rest[0]))
    ensures PrintBytes(Utf8Of(text), style, KEY) == Utf8Of(PrintText(text, style, KEY))
    ensures ReadKeySegment(PrintText(text, style, KEY) + rest) == Parsed(Utf8Of(text), rest)
  {
    hide ReadString, EmitText, EncodeAll, Choose, TraitsOf, Utf8Of, BareLength;
    PrintedIsText(text, style, KEY);
    if text == "" {
      NoBytes();
      var q := if style.literals then '\'' else '"';
      EmptyIsRead(q, rest);
      assert PrintText(text, style, KEY) == [q, q];
    } else {
      FormMeans(text, style, KEY);
      var form := FormOf(text, style, KEY);
      if form.BareForm? {
        BareIsRead(text, rest);
      } else {
        OneLineIsRead(text, form, rest);
      }
    }
  }

  /** The texts are all there is: well-formed bytes are the encoding of one. */
  lemma WellFormedIsText(str: seq<Byte>)
    ensures WellFormed(str) <==> exists text: string :: Utf8Of(text) == str
  {
    hide EncodeAll;
    if WellFormed(str) {
      var vs: seq<int> :| Scalars(vs) && EncodeAll(vs) == str;
      var text: string := seq(|vs|, i requires 0 <= i < |vs| => vs[i] as char);
      assert CodesOf(text) == vs;
      assert Utf8Of(text) == str;
    }
  }
}
