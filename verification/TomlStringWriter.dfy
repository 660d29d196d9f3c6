/** Strings and keys as the formatter prints them: bare, literal or escaped, from UTF-8 bytes. */
module TomlStringWriter {

  import opened Options
  import opened TomlNumerals
  import opened TomlStrings
  import opened Utf8

  /** The format flags that matter for strings. */
  datatype Style = Style(literals: bool, multiLines: bool, realTabs: bool, unicode: bool)

  /** What the caller allows: values may span lines and hold real tabs, keys may be bare. */
  datatype Use = Use(multiLine: bool, bare: bool, literalWhitespace: bool)

  const VALUE := Use(true, false, true)
  const KEY := Use(false, true, false)

  datatype Traits = Traits(lineBreaks: bool, tabs: bool, controlChars: bool, singleQuotes: bool,
                           nonBare: bool, nonAscii: bool)

  predicate IsControl(code: int) { code <= 0x1F || code == 0x7F }
  predicate IsNonAsciiVertical(code: int) { code == 0x85 || code == 0x2028 || code == 0x2029 }
  predicate IsBare(code: int) { 0 <= code < 0x80 && IsBareKeyCharacter(code as char) }

  function AddTrait(t: Traits, code: int): Traits {
    if code == 10 then t.(lineBreaks := true)
    else if code == 9 then t.(tabs := true)
    else if code == 39 then t.(singleQuotes := true)
    else t.(controlChars := t.controlChars || IsControl(code) || IsNonAsciiVertical(code),
            nonBare := t.nonBare || !IsBare(code))
  }

  function AddTraits(t: Traits, codes: seq<int>): Traits {
    if codes == [] then t else AddTrait(AddTraits(t, codes[..|codes| - 1]), codes[|codes| - 1])
  }

  function NoTraits(use: Use, nonAscii: bool): Traits {
    Traits(false, false, false, false, !use.bare, nonAscii)
  }

  /** Malformed text is printed on one line with everything outside ASCII escaped. */
  function BadUnicode(t: Traits): Traits {
    t.(lineBreaks := false, controlChars := true, nonBare := true)
  }

  /** The scan before printing: the traits, and whether the text decoded. */
  function Prescan(str: seq<Byte>, use: Use): (Traits, bool) {
    if IsAscii(str) then (AddTraits(NoTraits(use, false), str), true)
    else
      var sc := Scan(FRESH, str);
      var t := AddTraits(NoTraits(use, true), Values(sc.codes));
      if sc.bad || sc.partial != [] then (BadUnicode(t), false) else (t, true)
  }

  datatype Form = BareForm | LiteralForm(multi: bool) | BasicForm(multi: bool, realTabs: bool, unicode: bool)

  function Choose(t: Traits, style: Style, use: Use, decoded: bool): Form {
    var unicode := style.unicode && decoded;
    if !(t.nonBare || t.lineBreaks || t.tabs || t.singleQuotes) && (!t.nonAscii || unicode) then BareForm
    else
      var realTabs := use.literalWhitespace && style.realTabs;
      var multi := use.literalWhitespace && use.multiLine && style.multiLines && t.lineBreaks;
      var literal :=
        && style.literals && !t.controlChars
        && (!t.singleQuotes || multi) && (!t.tabs || realTabs) && (!t.lineBreaks || multi)
        && (!t.nonAscii || unicode);
      if literal then LiteralForm(multi) else BasicForm(multi, realTabs, unicode)
  }

  /** The escapes of the control characters below space. */
  function ControlEscape(code: nat): string
    requires code <= 0x1F
  {
    match code
    case 8 => "\\b"
    case 9 => "\\t"
    case 10 => "\\n"
    case 12 => "\\f"
    case 13 => "\\r"
    case _ => "\\u" + Padded(16, code, 4)
  }

  /** How one code point of a basic string is escaped, if it is. */
  function EscapeOf(code: nat, form: Form): Option<string>
    requires form.BasicForm?
  {
    if code == 34 then Some("\\\"")
    else if code == 92 then Some("\\\\")
    else if code == 0x7F then Some("\\u007F")
    else if code == 9 then if form.realTabs then None else Some("\\t")
    else if code == 10 then if form.multi then None else Some("\\n")
    else if code <= 0x1F then Some(ControlEscape(code))
    else if code > 0x7F && (!form.unicode || IsNonAsciiVertical(code)) then
      Some(if code > 0xFFFF then "\\U" + Padded(16, code, 8) else "\\u" + Padded(16, code, 4))
    else None
  }

  function EmitCode(code: int, raw: seq<Byte>, form: Form): seq<Byte>
    requires form.BasicForm?
  {
    if code < 0 then raw
    else match EscapeOf(code, form) case None => raw case Some(e) => Utf8Of(e)
  }

  /** Bytes that do not decode are printed as if each were a code point. */
  function EmitJunk(raw: seq<Byte>): seq<Byte> {
    if raw == [] then []
    else EmitJunk(raw[..|raw| - 1]) + Utf8Of("\\u00" + Padded(16, raw[|raw| - 1], 2))
  }

  datatype Emission = Emission(out: seq<Byte>, pending: seq<Byte>)

  function EmitByte(e: Emission, b: Byte, form: Form): Emission
    requires form.BasicForm?
  {
    var d := Feed(FeedAll(e.pending), b);
    if d.state == REJECT then Emission(e.out + EmitJunk(e.pending + [b]), [])
    else if d.state == ACCEPT then Emission(e.out + EmitCode(d.codepoint, e.pending + [b], form), [])
    else Emission(e.out, e.pending + [b])
  }

  function EmitAll(e: Emission, s: seq<Byte>, form: Form): Emission
    requires form.BasicForm?
    decreases |s|
  {
    if s == [] then e else EmitAll(EmitByte(e, s[0], form), s[1..], form)
  }

  function EmitAscii(s: seq<Byte>, form: Form): seq<Byte>
    requires form.BasicForm?
  {
    if s == [] then []
    else EmitAscii(s[..|s| - 1], form) + EmitCode(s[|s| - 1], [s[|s| - 1]], form)
  }

  function Quotes(form: Form): string
    requires !form.BareForm?
  {
    if form.LiteralForm? then if form.multi then "'''" else "'"
    else if form.multi then "\"\"\"" else "\""
  }

  /** The bytes `print_string` leaves in the stream. */
  function PrintBytes(str: seq<Byte>, style: Style, use: Use): seq<Byte> {
    if str == [] then Utf8Of(if style.literals then "''" else "\"\"")
    else
      var (t, decoded) := Prescan(str, use);
      var form := Choose(t, style, use, decoded);
      if form.BareForm? then str
      else if form.LiteralForm? then Utf8Of(Quotes(form)) + str + Utf8Of(Quotes(form))
      else Utf8Of(Quotes(form))
           + (if t.nonAscii then EmitAll(Emission([], []), str, form).out else EmitAscii(str, form))
           + Utf8Of(Quotes(form))
  }

  // ----- the loops of the source -----

  /** The decoder has been fed what is pending; a code point just finished leaves it ready for the next. */
  predicate Tracks(d: Decoder, pending: seq<Byte>) {
    if pending == [] then d.state == ACCEPT else Live(d) && d == FeedAll(pending)
  }

  lemma TrackedFeed(d: Decoder, pending: seq<Byte>, b: Byte)
    requires Tracks(d, pending)
    ensures Feed(d, b) == Feed(FeedAll(pending), b)
    ensures Live(Feed(d, b)) ==> Tracks(Feed(d, b), pending + [b])
  {
    if pending == [] {
      assert FeedAll([]) == START;
    }
    assert (pending + [b])[..|pending|] == pending;
  }

  lemma {:induction false} AllTraitsStay(t: Traits, codes: seq<int>)
    requires t.lineBreaks && t.tabs && t.controlChars && t.singleQuotes && t.nonBare
    ensures AddTraits(t, codes) == t
  {
    if codes != [] {
      AllTraitsStay(t, codes[..|codes| - 1]);
    }
  }

  lemma {:induction false} AddTraitsConcat(t: Traits, a: seq<int>, b: seq<int>)
    ensures AddTraits(t, a + b) == AddTraits(AddTraits(t, a), b)
  {
    if b == [] {
      assert a + b == a;
    } else {
      assert (a + b)[..|a + b| - 1] == a + b[..|b| - 1];
      AddTraitsConcat(t, a, b[..|b| - 1]);
    }
  }

  method PrescanAscii(str: seq<Byte>, use: Use) returns (traits: Traits)
    ensures traits == AddTraits(NoTraits(use, false), str)
  {
    hide AddTrait;
    traits := NoTraits(use, false);
    for i := 0 to |str|
      invariant traits == AddTraits(NoTraits(use, false), str[..i])
    {
      assert str[..i + 1][..i] == str[..i];
      traits := AddTrait(traits, str[i]);
      if traits == Traits(true, true, true, true, true, false) {
        AddTraitsConcat(NoTraits(use, false), str[..i + 1], str[i + 1..]);
        assert str[..i + 1] + str[i + 1..] == str;
        AllTraitsStay(traits, str[i + 1..]);
        return;
      }
    }
    assert str[..|str|] == str;
  }

  method PrescanUnicode(str: seq<Byte>, use: Use) returns (traits: Traits, decoded: bool)
    requires !IsAscii(str)
    ensures (traits, decoded) == Prescan(str, use)
  {
    hide AddTrait, Feed, FeedAll, Tracks;
    traits, decoded := NoTraits(use, true), true;
    var decoder := START;
    ghost var sc := FRESH;
    StartTracks();
    for i := 0 to |str|
      invariant sc == Scan(FRESH, str[..i]) && !sc.bad
      invariant traits == AddTraits(NoTraits(use, true), Values(sc.codes))
      invariant Tracks(decoder, sc.partial)
    {
      TrackedFeed(decoder, sc.partial, str[i]);
      ScanNext(str, i);
      decoder := Feed(decoder, str[i]);
      if decoder.state == REJECT {
        BadStays(str, i + 1);
        return BadUnicode(traits), false;
      }
      ghost var before := sc;
      sc := ScanByte(sc, str[i]);
      if decoder.state == ACCEPT {
        NothingTracks(decoder);
        ValuesLast(before.codes, Cp(decoder.codepoint, before.partial + [str[i]]));
        traits := AddTrait(traits, decoder.codepoint);
      }
    }
    assert str[..|str|] == str;
    NeedsMore(decoder, sc.partial);
    if decoder.state != ACCEPT && decoder.state != REJECT {
      return BadUnicode(traits), false;
    }
  }

  lemma StartTracks()
    ensures Tracks(START, []) && Scan(FRESH, []) == FRESH && FRESH.partial == [] && Values([]) == []
  {
  }

  lemma NothingTracks(d: Decoder)
    requires d.state == ACCEPT
    ensures Tracks(d, [])
  {
  }

  lemma NeedsMore(d: Decoder, pending: seq<Byte>)
    requires Tracks(d, pending)
    ensures Live(d) <==> pending != []
  {
  }

  lemma ScanNext(str: seq<Byte>, i: nat)
    requires i < |str|
    ensures Scan(FRESH, str[..i + 1]) == ScanByte(Scan(FRESH, str[..i]), str[i])
  {
    hide ScanByte;
    assert str[..i + 1] == str[..i] + [str[i]];
    ScanConcat(FRESH, str[..i], [str[i]]);
    ScanOne(Scan(FRESH, str[..i]), str[i]);
  }

  lemma BadStays(str: seq<Byte>, i: nat)
    requires i <= |str| && Scan(FRESH, str[..i]).bad
    ensures Scan(FRESH, str).bad && Scan(FRESH, str).codes == Scan(FRESH, str[..i]).codes
  {
    assert str[..i] + str[i..] == str;
    ScanConcat(FRESH, str[..i], str[i..]);
    BadIsFinal(Scan(FRESH, str[..i]), str[i..]);
  }

  lemma {:induction false} BadIsFinal(sc: Scanned, s: seq<Byte>)
    requires sc.bad
    ensures Scan(sc, s) == sc
    decreases |s|
  {
    if s != [] { BadIsFinal(ScanByte(sc, s[0]), s[1..]); }
  }

  lemma ValuesLast(codes: seq<Cp>, c: Cp)
    ensures Values(codes + [c]) == Values(codes) + [c.value]
    ensures forall t :: AddTraits(t, Values(codes + [c])) == AddTrait(AddTraits(t, Values(codes)), c.value)
  {
    hide AddTrait;
    var vs := Values(codes) + [c.value];
    assert Values(codes + [c]) == vs;
    assert vs[..|vs| - 1] == Values(codes);
  }

  method EmitAsciiBody(str: seq<Byte>, form: Form) returns (stream: seq<Byte>)
    requires form.BasicForm?
    ensures stream == EmitAscii(str, form)
  {
    hide EmitCode;
    stream := [];
    for i := 0 to |str|
      invariant stream == EmitAscii(str[..i], form)
    {
      assert str[..i + 1][..i] == str[..i];
      stream := stream + EmitCode(str[i], [str[i]], form);
    }
    assert str[..|str|] == str;
  }

  method EmitUnicodeBody(str: seq<Byte>, form: Form) returns (stream: seq<Byte>)
    requires form.BasicForm?
    ensures stream == EmitAll(Emission([], []), str, form).out
  {
    hide EmitCode, EmitJunk, Feed, FeedAll, Tracks;
    stream := [];
    var decoder := START;
    var cpStart, cpEnd := 0, 0;
    StartTracks();
    assert str[0..] == str;
    while cpEnd < |str|
      invariant 0 <= cpStart <= cpEnd <= |str|
      invariant Tracks(decoder, str[cpStart..cpEnd])
      invariant EmitAll(Emission(stream, str[cpStart..cpEnd]), str[cpEnd..], form)
             == EmitAll(Emission([], []), str, form)
    {
      var c := str[cpEnd];
      TrackedFeed(decoder, str[cpStart..cpEnd], c);
      assert str[cpEnd..][1..] == str[cpEnd + 1..];
      assert str[cpStart..cpEnd] + [c] == str[cpStart..cpEnd + 1];
      decoder := Feed(decoder, c);
      cpEnd := cpEnd + 1;
      if decoder.state == REJECT {
        stream := stream + EmitJunk(str[cpStart..cpEnd]);
        cpStart := cpEnd;
        assert str[cpStart..cpEnd] == [];
        decoder := decoder.(state := ACCEPT);
        NothingTracks(decoder);
      } else if decoder.state == ACCEPT {
        stream := stream + EmitCode(decoder.codepoint, str[cpStart..cpEnd], form);
        cpStart := cpEnd;
        assert str[cpStart..cpEnd] == [];
        NothingTracks(decoder);
      }
    }
  }

  /** `print_string`. */
  method PrintString(str: seq<Byte>, style: Style, use: Use) returns (stream: seq<Byte>)
    ensures stream == PrintBytes(str, style, use)
  {
    hide Scan, Values, AddTraits, EmitAscii, EmitAll;
    if str == [] {
      return Utf8Of(if style.literals then "''" else "\"\"");
    }
    var traits, decoded;
    if IsAscii(str) {
      traits := PrescanAscii(str, use);
      decoded := true;
    } else {
      traits, decoded := PrescanUnicode(str, use);
    }
    var form := Choose(traits, style, use, decoded);
    if form.BareForm? {
      return str;
    }
    if form.LiteralForm? {
      return Utf8Of(Quotes(form)) + str + Utf8Of(Quotes(form));
    }
    var body;
    if traits.nonAscii {
      body := EmitUnicodeBody(str, form);
    } else {
      body := EmitAsciiBody(str, form);
    }
    stream := Utf8Of(Quotes(form)) + body + Utf8Of(Quotes(form));
  }
}
