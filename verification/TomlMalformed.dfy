/** What the formatter makes of bytes that are no UTF-8: the value read back is never the value printed. */
module TomlMalformed {

  import opened Options
  import opened TomlNumerals
  import opened TomlStrings
  import opened TomlStringWriter
  import opened TomlStringRoundTrip
  import opened Utf8

  /** A code point, or a byte that belongs to none and is printed as if it were one. */
  datatype Piece = Code(c: char) | Junk(b: Byte)

  function CharOf(p: Piece): char {
    match p
    case Code(c) => c
    case Junk(b) => b as char
  }

  function Chars(ps: seq<Piece>): string {
    seq(|ps|, i requires 0 <= i < |ps| => CharOf(ps[i]))
  }

  function JunkPieces(raw: seq<Byte>): seq<Piece> {
    seq(|raw|, i requires 0 <= i < |raw| => Junk(raw[i]))
  }

  /** Bytes taken apart: the pieces found, and the bytes of a code point still unfinished. */
  datatype Salvaged = Salvaged(pieces: seq<Piece>, pending: seq<Byte>)

  function SalvageByte(s: Salvaged, b: Byte): (r: Salvaged)
    requires Unfinished(s.pending)
    ensures Unfinished(r.pending)
  {
    var d := Feed(FeedAll(s.pending), b);
    if d.state == REJECT then Salvaged(s.pieces + JunkPieces(s.pending + [b]), [])
    else if d.state == ACCEPT then
      FinishedIsEncoding(s.pending, b);
      Salvaged(s.pieces + [Code(d.codepoint as char)], [])
    else
      assert (s.pending + [b])[..|s.pending|] == s.pending;
      s.(pending := s.pending + [b])
  }

  function SalvageAll(s: Salvaged, str: seq<Byte>): (r: Salvaged)
    requires Unfinished(s.pending)
    ensures Unfinished(r.pending)
    decreases |str|
  {
    if str == [] then s else SalvageAll(SalvageByte(s, str[0]), str[1..])
  }

  /** What comes back: what decodes, every other byte as the code point of the same number, and nothing for
      bytes at the end that a code point lacks. */
  function Salvage(str: seq<Byte>): string {
    Chars(SalvageAll(Salvaged([], []), str).pieces)
  }

  // ----- printing -----

  function PieceText(p: Piece, form: Form): string
    requires form.BasicForm?
  {
    match p
    case Code(c) => EmitChar(c, form)
    case Junk(b) => "\\u00" + Padded(16, b, 2)
  }

  function PiecesText(ps: seq<Piece>, form: Form): string
    requires form.BasicForm?
  {
    if ps == [] then "" else PieceText(ps[0], form) + PiecesText(ps[1..], form)
  }

  lemma {:induction false} PiecesConcat(a: seq<Piece>, b: seq<Piece>, form: Form)
    requires form.BasicForm?
    ensures PiecesText(a + b, form) == PiecesText(a, form) + PiecesText(b, form)
    decreases |a|
  {
    hide PieceText;
    if a == [] {
      assert a + b == b;
    } else {
      assert (a + b)[1..] == a[1..] + b;
      PiecesConcat(a[1..], b, form);
    }
  }

  lemma OnePiece(p: Piece, form: Form)
    requires form.BasicForm?
    ensures PiecesText([p], form) == PieceText(p, form)
  {
    hide PieceText;
    assert [p][1..] == [] && PieceText(p, form) + "" == PieceText(p, form);
  }

  lemma {:induction false} JunkIsEmitted(raw: seq<Byte>, form: Form)
    requires form.BasicForm?
    ensures EmitJunk(raw) == Utf8Of(PiecesText(JunkPieces(raw), form))
  {
    hide Padded, Utf8Of;
    if raw == [] {
      NoBytes();
    } else {
      var init, last := raw[..|raw| - 1], raw[|raw| - 1];
      JunkIsEmitted(init, form);
      assert JunkPieces(raw) == JunkPieces(init) + [Junk(last)];
      PiecesConcat(JunkPieces(init), [Junk(last)], form);
      OnePiece(Junk(last), form);
      Utf8Concat(PiecesText(JunkPieces(init), form), PieceText(Junk(last), form));
    }
  }

  /** The printer and the salvage see the same pieces. */
  lemma ByteIsEmitted(s: Salvaged, b: Byte, form: Form)
    requires Unfinished(s.pending) && form.BasicForm?
    ensures var t := SalvageByte(s, b);
            EmitByte(Emission(Utf8Of(PiecesText(s.pieces, form)), s.pending), b, form)
            == Emission(Utf8Of(PiecesText(t.pieces, form)), t.pending)
  {
    hide Feed, FeedAll, Utf8Of, PieceText, EmitJunk, EscapeOf, Encode, Unfinished, PiecesText;
    var d := Feed(FeedAll(s.pending), b);
    if d.state == REJECT {
      Added(s.pieces, JunkPieces(s.pending + [b]), form);
      JunkIsEmitted(s.pending + [b], form);
    } else if d.state == ACCEPT {
      FinishedIsEncoding(s.pending, b);
      var c := d.codepoint as char;
      Added(s.pieces, [Code(c)], form);
      OnePiece(Code(c), form);
      CodeIsEmitted(c, form);
    }
  }

  lemma Added(a: seq<Piece>, b: seq<Piece>, form: Form)
    requires form.BasicForm?
    ensures Utf8Of(PiecesText(a + b, form)) == Utf8Of(PiecesText(a, form)) + Utf8Of(PiecesText(b, form))
  {
    hide Utf8Of, PiecesText;
    PiecesConcat(a, b, form);
    Utf8Concat(PiecesText(a, form), PiecesText(b, form));
  }

  lemma CodeIsEmitted(c: char, form: Form)
    requires form.BasicForm?
    ensures EmitCode(c as int, Encode(c as int), form) == Utf8Of(PieceText(Code(c), form))
  {
    hide EscapeOf, Encode, Utf8Of;
    Utf8One(c);
  }

  lemma {:induction false} AllIsEmitted(s: Salvaged, str: seq<Byte>, form: Form)
    requires Unfinished(s.pending) && form.BasicForm?
    ensures EmitAll(Emission(Utf8Of(PiecesText(s.pieces, form)), s.pending), str, form).out
            == Utf8Of(PiecesText(SalvageAll(s, str).pieces, form))
    decreases |str|
  {
    hide EmitByte, SalvageByte, Utf8Of, PiecesText, Unfinished;
    if str != [] {
      ByteIsEmitted(s, str[0], form);
      AllIsEmitted(SalvageByte(s, str[0]), str[1..], form);
    }
  }

  /** Malformed text is quoted on one line, and outside ASCII everything in it is escaped. */
  function MalformedForm(style: Style, use: Use): Form {
    BasicForm(false, use.literalWhitespace && style.realTabs, false)
  }

  function MalformedText(str: seq<Byte>, style: Style, use: Use): string {
    "\"" + PiecesText(SalvageAll(Salvaged([], []), str).pieces, MalformedForm(style, use)) + "\""
  }

  lemma MalformedIsPrinted(str: seq<Byte>, style: Style, use: Use)
    requires !WellFormed(str)
    ensures PrintBytes(str, style, use) == Utf8Of(MalformedText(str, style, use))
  {
    hide EmitAll, EmitAscii, AddTraits, Scan, WellFormed, PiecesText, SalvageAll, Utf8Of, Values;
    var form := MalformedForm(style, use);
    if IsAscii(str) { AsciiIsWellFormed(str); }
    DecoderIsExact(str);
    NonAsciiStays(NoTraits(use, true), Values(Scan(FRESH, str).codes));
    AllIsEmitted(Salvaged([], []), str, form);
    NoPieces(form);
    var body := PiecesText(SalvageAll(Salvaged([], []), str).pieces, form);
    Utf8Concat("\"" + body, "\"");
    Utf8Concat("\"", body);
  }

  lemma NoPieces(form: Form)
    requires form.BasicForm?
    ensures Utf8Of(PiecesText([], form)) == []
  {
  }

  lemma AsciiIsWellFormed(str: seq<Byte>)
    requires IsAscii(str)
    ensures WellFormed(str)
  {
    hide EncodeAll;
    var text: string := seq(|str|, i requires 0 <= i < |str| => str[i] as char);
    AsciiBytes(text);
    assert CodesOf(text) == str;
  }

  lemma {:induction false} NonAsciiStays(t: Traits, codes: seq<int>)
    ensures AddTraits(t, codes).nonAscii == t.nonAscii
  {
    if codes != [] { NonAsciiStays(t, codes[..|codes| - 1]); }
  }

  // ----- reading -----

  /** The escape of one byte. */
  lemma JunkIsRead(b: Byte, tail: string)
    ensures Escape("u00" + Padded(16, b, 2) + tail) == Some((Encode(b), tail))
  {
    hide Padded, Encode, Escape;
    JunkDigits(b);
    HexEscape(b, false, tail);
    assert "u" + Padded(16, b, 4) == "u00" + Padded(16, b, 2);
  }

  lemma JunkDigits(b: Byte)
    ensures Padded(16, b, 4) == "00" + Padded(16, b, 2)
  {
    assert Zeros(2) == "00" && Zeros(3) == "00" + Zeros(1);
    if b >= 16 {
      assert Numeral(16, b) == Numeral(16, b / 16) + [DigitChar(b % 16)];
    }
  }

  lemma PieceIsRead(p: Piece, form: Form, tail: string, str: seq<Byte>)
    requires form.BasicForm? && tail != ""
    ensures Basic(PieceText(p, form) + tail, str, form.multi, false)
            == Basic(tail, str + Encode(CharOf(p) as int), form.multi, false)
  {
    hide Basic, EmitChar, Encode, Escape, Padded;
    match p
    case Code(c) => CharIsRead(c, form, tail, str);
    case Junk(b) =>
      var s := PieceText(p, form) + tail;
      JunkIsRead(b, tail);
      assert s[1..] == "u00" + Padded(16, b, 2) + tail;
      BackslashIs(s, str, form.multi);
  }

  lemma {:induction false} PiecesAreRead(ps: seq<Piece>, form: Form, rest: string, str: seq<Byte>)
    requires form.BasicForm? && (rest == "" || !IsStringDelimiter(rest[0]))
    ensures Basic(PiecesText(ps, form) + Quotes(form) + rest, str, form.multi, false)
            == Parsed(str + Utf8Of(Chars(ps)), rest)
    decreases |ps|
  {
    hide Basic, PieceText, Encode, CharOf, Utf8Of;
    var close := Quotes(form) + rest;
    assert PiecesText(ps, form) + Quotes(form) + rest == PiecesText(ps, form) + close;
    if ps == [] {
      assert PiecesText(ps, form) + close == close;
      BasicCloses(form, rest, str);
      NoBytes();
      assert str + [] == str;
    } else {
      var tail := PiecesText(ps[1..], form) + close;
      assert PiecesText(ps, form) + close == PieceText(ps[0], form) + tail;
      PieceIsRead(ps[0], form, tail, str);
      var e := Encode(CharOf(ps[0]) as int);
      PiecesAreRead(ps[1..], form, rest, str + e);
      assert PiecesText(ps[1..], form) + Quotes(form) + rest == tail;
      assert Chars(ps)[1..] == Chars(ps[1..]);
      Utf8First(Chars(ps));
      assert str + e + Utf8Of(Chars(ps[1..])) == str + (e + Utf8Of(Chars(ps[1..])));
    }
  }

  lemma PiecesStart(ps: seq<Piece>, form: Form)
    requires ps != [] && form.BasicForm?
    ensures PiecesText(ps, form) != "" && PiecesText(ps, form)[0] != '"'
  {
    hide Padded;
    assert PiecesText(ps, form)[0] == PieceText(ps[0], form)[0];
  }

  /** What malformed bytes are printed as is a string, and it is read as what was salvaged of them, which is
      something else. */
  lemma MalformedComesBackAs(str: seq<Byte>, style: Style, use: Use, rest: string)
    requires !WellFormed(str) && (rest == "" || !IsStringDelimiter(rest[0]))
    ensures PrintBytes(str, style, use) == Utf8Of(MalformedText(str, style, use))
    ensures var s := MalformedText(str, style, use) + rest;
            && IsStringDelimiter(s[0]) && !TripleStart(s)
            && ReadString(s) == Parsed(Utf8Of(Salvage(str)), rest)
    ensures Utf8Of(Salvage(str)) != str
  {
    hide Basic, PiecesText, SalvageAll, Utf8Of, Chars, ReadString, TripleStart, WellFormed;
    MalformedIsPrinted(str, style, use);
    var ps, form := SalvageAll(Salvaged([], []), str).pieces, MalformedForm(style, use);
    WellFormedIsText(Utf8Of(Salvage(str)));
    var body := PiecesText(ps, form);
    if ps == [] {
      NothingSalvaged(form);
      EmptyIsRead('"', rest);
      assert MalformedText(str, style, use) == ['"', '"'];
    } else {
      PiecesStart(ps, form);
      OneLineStarts('"', body, rest);
      PiecesAreRead(ps, form, rest, []);
      assert MalformedText(str, style, use) + rest == ['"'] + body + ['"'] + rest;
      assert [] + Utf8Of(Chars(ps)) == Utf8Of(Chars(ps));
    }
  }

  lemma NothingSalvaged(form: Form)
    requires form.BasicForm?
    ensures PiecesText([], form) == "" && Utf8Of(Chars([])) == []
  {
    NoBytes();
  }

  // ----- what is salvaged -----

  lemma {:induction false} SalvageUnfinished(s: Salvaged, p: seq<Byte>)
    requires s.pending == [] && Unfinished(p)
    ensures SalvageAll(s, p) == s.(pending := p)
    decreases |p|
  {
    hide Feed;
    if p != [] {
      var q, b := p[..|p| - 1], p[|p| - 1];
      SalvageUnfinished(s, q);
      SalvageConcat(s, q, [b]);
      SalvageOne(s.(pending := q), b);
      assert q + [b] == p;
    }
  }

  lemma {:induction false} SalvageConcat(s: Salvaged, a: seq<Byte>, b: seq<Byte>)
    requires Unfinished(s.pending)
    ensures SalvageAll(s, a + b) == SalvageAll(SalvageAll(s, a), b)
    decreases |a|
  {
    hide SalvageByte, Unfinished;
    if a == [] {
      assert a + b == b;
    } else {
      assert (a + b)[1..] == a[1..] + b;
      SalvageConcat(SalvageByte(s, a[0]), a[1..], b);
    }
  }

  lemma SalvageOne(s: Salvaged, b: Byte)
    requires Unfinished(s.pending)
    ensures SalvageAll(s, [b]) == SalvageByte(s, b)
  {
    hide SalvageByte, Unfinished;
    assert [b][1..] == [];
    assert SalvageAll(SalvageByte(s, b), []) == SalvageByte(s, b);
  }

  /** Of text nothing is lost. */
  lemma {:induction false} TextIsSalvaged(s: Salvaged, text: string)
    requires s.pending == []
    ensures SalvageAll(s, Utf8Of(text)).pending == []
    ensures Chars(SalvageAll(s, Utf8Of(text)).pieces) == Chars(s.pieces) + text
    decreases |text|
  {
    hide Utf8Of, Encode, SalvageByte, Unfinished, SalvageAll;
    if text == "" {
      NoBytes();
      NoneLeft(s);
    } else {
      var r := Encode(text[0] as int);
      Utf8First(text);
      NothingUnfinished();
      SalvageConcat(s, r, Utf8Of(text[1..]));
      EncodingIsSalvaged(s, text[0]);
      var t := s.(pieces := s.pieces + [Code(text[0])]);
      TextIsSalvaged(t, text[1..]);
      assert Chars(t.pieces) == Chars(s.pieces) + [text[0]];
    }
  }

  lemma NothingUnfinished()
    ensures Unfinished([])
  {
  }

  lemma NoneLeft(s: Salvaged)
    requires s.pending == []
    ensures SalvageAll(s, []) == s
  {
  }

  lemma EncodingIsSalvaged(s: Salvaged, c: char)
    requires s.pending == []
    ensures SalvageAll(s, Encode(c as int)) == s.(pieces := s.pieces + [Code(c)])
  {
    var r := Encode(c as int);
    var p, b := r[..|r| - 1], r[|r| - 1];
    EncodingFinishes(c as int);
    hide Encode, Feed, FeedAll, Unfinished;
    SalvageUnfinished(s, p);
    SalvageConcat(s, p, [b]);
    SalvageOne(s.(pending := p), b);
    assert p + [b] == r;
  }

  /** Bytes behind text that decode to nothing: if the code point is never finished, they are gone, and the
      byte that spoils it and all before it in it come back as code points of their own. */
  lemma TailIsSalvaged(text: string, p: seq<Byte>)
    requires Unfinished(p)
    ensures Salvage(Utf8Of(text) + p) == text
    ensures forall b: Byte :: Feed(FeedAll(p), b).state == REJECT ==>
              Salvage(Utf8Of(text) + p + [b]) == text + Chars(JunkPieces(p + [b]))
  {
    hide Utf8Of, Unfinished, SalvageAll, Feed, FeedAll;
    var s := Salvaged([], []);
    NothingUnfinished();
    TextIsSalvaged(s, text);
    SalvageConcat(s, Utf8Of(text), p);
    var t := SalvageAll(s, Utf8Of(text));
    SalvageUnfinished(t, p);
    assert Chars(s.pieces) + text == text;
    forall b: Byte | Feed(FeedAll(p), b).state == REJECT
      ensures Salvage(Utf8Of(text) + p + [b]) == text + Chars(JunkPieces(p + [b]))
    {
      SalvageConcat(s, Utf8Of(text) + p, [b]);
      SalvageOne(t.(pending := p), b);
      assert Chars(t.pieces + JunkPieces(p + [b])) == Chars(t.pieces) + Chars(JunkPieces(p + [b]));
    }
  }

  /** What is salvaged is all there was exactly of well-formed bytes. */
  lemma SalvageExactly(str: seq<Byte>)
    ensures Utf8Of(Salvage(str)) == str <==> WellFormed(str)
  {
    hide WellFormed, Utf8Of, SalvageAll;
    WellFormedIsText(str);
    if WellFormed(str) {
      var text: string :| Utf8Of(text) == str;
      TextIsSalvaged(Salvaged([], []), text);
      assert Chars([]) + text == text;
    }
  }

  /** A byte FF comes back as the two bytes of U+00FF. */
  lemma LoneByteComesBack()
    ensures !WellFormed([0xFF]) && Utf8Of(Salvage([0xFF])) == [0xC3, 0xBF]
  {
    hide Salvage, WellFormed, Utf8Of;
    TailIsSalvaged("", []);
    NoBytes();
    NothingUnfinished();
    assert Feed(FeedAll([]), 0xFF).state == REJECT;
    assert [] + [0xFF] == [0xFF] && "" + Chars(JunkPieces([0xFF])) == ['\U{FF}'];
    assert Utf8Of("") + [] + [0xFF] == [0xFF];
    Utf8One('\U{FF}');
    SalvageExactly([0xFF]);
  }

  /** And a C3 behind an `a` does not come back at all. */
  lemma TruncatedTailIsGone()
    ensures !WellFormed([0x61, 0xC3]) && Utf8Of(Salvage([0x61, 0xC3])) == [0x61]
  {
    hide Salvage, WellFormed, Utf8Of;
    LeadByte();
    TailIsSalvaged("a", [0xC3]);
    Utf8One('a');
    assert Utf8Of("a") + [0xC3] == [0x61, 0xC3];
    SalvageExactly([0x61, 0xC3]);
  }

  lemma LeadByte()
    ensures Unfinished([0xC3])
  {
    assert FeedAll([]) == START && [0xC3][..0] == [];
    assert FeedAll([0xC3]) == Feed(START, 0xC3);
    assert Unfinished([]);
  }
}
