/**
  All the ways a string may be spelled: escapes short and long in either case, line breaks of both kinds,
  lines continued by a backslash, quotes inside a string over several lines.
 */
module TomlStringSpellings {

  import opened Options
  import opened TomlNumerals
  import opened TomlSpellings
  import opened TomlStrings
  import TomlInteger
  import opened Utf8

  /** A stretch of the text between the quotes. */
  datatype Piece =
    | Plain(c: char)                                      // the character itself
    | Short(letter: char)                                 // a backslash and a letter or sign
    | Hex(c: char, digits: string)                        // \u and four digits, or \U and eight
    | Break(crlf: bool)                                   // a line break that is kept
    | Continued(blanks: string, crlf: bool, more: string) // a backslash at the end of a line
    | Quotes(n: nat)                                      // delimiters that close nothing

  function NewLine(crlf: bool): string { if crlf then "\r\n" else "\n" }

  function Spelling(p: Piece, quote: char): string {
    match p
    case Plain(c) => [c]
    case Short(letter) => "\\" + [letter]
    case Hex(_, digits) => (if |digits| == 4 then "\\u" else "\\U") + digits
    case Break(crlf) => NewLine(crlf)
    case Continued(blanks, crlf, more) => "\\" + blanks + NewLine(crlf) + more
    case Quotes(n) => Repeat(quote, n)
  }

  /** What the letters of the short escapes stand for. */
  const SHORT: map<char, char> := map[
    'b' := '\U{8}', 't' := '\U{9}', 'n' := '\U{A}', 'f' := '\U{C}', 'r' := '\U{D}', '"' := '"', '\\' := '\\']

  function Meaning(p: Piece, quote: char): string {
    match p
    case Plain(c) => [c]
    case Short(letter) => if letter in SHORT then [SHORT[letter]] else ""
    case Hex(c, _) => [c]
    case Break(_) => "\n"
    case Continued(_, _, _) => ""
    case Quotes(n) => Repeat(quote, n)
  }

  /** Blanks and line breaks in any mix. */
  ghost predicate White(s: string)
    decreases |s|
  {
    || s == ""
    || (IsHorizontalWhitespace(s[0]) && White(s[1..]))
    || (s[0] == '\n' && White(s[1..]))
    || (|s| >= 2 && s[0] == '\r' && s[1] == '\n' && White(s[2..]))
  }

  /** A string of that kind may hold the piece. Control characters other than tabs are never plain, and
      lines are broken and continued only over several of them. */
  ghost predicate Allowed(p: Piece, quote: char, multi: bool) {
    match p
    case Plain(c) =>
      && c != quote && (quote == '"' ==> c != '\\')
      && c > '\U{8}' && c != '\U{7F}' && (c <= '\U{1F}' ==> c == '\t')
    case Short(letter) => quote == '"' && letter in SHORT
    case Hex(c, digits) =>
      && quote == '"' && (|digits| == 4 || |digits| == 8)
      && exists ds: seq<nat> :: |ds| == |digits| && Spells(16, digits, ds) && Total(16, ds) == c as int
    case Break(_) => multi
    case Continued(blanks, _, more) =>
      && quote == '"' && multi && White(more)
      && forall i :: 0 <= i < |blanks| ==> blanks[i] == ' ' || blanks[i] == '\t'
    case Quotes(n) => multi && 1 <= n <= 2
  }

  predicate StartsWhite(p: Piece) {
    p.Break? || (p.Plain? && IsHorizontalWhitespace(p.c))
  }

  /** White space behind a continued line belongs to it, and quotes stand in a row once. */
  ghost predicate Allows(ps: seq<Piece>, quote: char, multi: bool, skipping: bool, quoted: bool)
    decreases |ps|
  {
    ps == [] ||
    (&& Allowed(ps[0], quote, multi)
     && (skipping ==> !StartsWhite(ps[0])) && (quoted ==> !ps[0].Quotes?)
     && Allows(ps[1..], quote, multi, ps[0].Continued?, ps[0].Quotes?))
  }

  function SpellingOf(ps: seq<Piece>, quote: char): string {
    if ps == [] then "" else Spelling(ps[0], quote) + SpellingOf(ps[1..], quote)
  }

  function MeaningOf(ps: seq<Piece>, quote: char): string {
    if ps == [] then "" else Meaning(ps[0], quote) + MeaningOf(ps[1..], quote)
  }

  function Closing(quote: char, multi: bool): string {
    if multi then [quote, quote, quote] else [quote]
  }

  // ----- one piece of a basic string -----

  lemma PlainIsRead(c: char, tail: string, str: seq<Byte>, multi: bool, skipping: bool)
    requires Allowed(Plain(c), '"', multi) && (skipping ==> !IsHorizontalWhitespace(c))
    ensures Basic([c] + tail, str, multi, skipping) == Basic(tail, str + Encode(c as int), multi, false)
  {
    hide Encode, IsHorizontalWhitespace;
    assert ([c] + tail)[1..] == tail;
  }

  lemma BreakIsRead(crlf: bool, tail: string, str: seq<Byte>, skipping: bool)
    ensures Basic(NewLine(crlf) + tail, str, true, skipping)
            == Basic(tail, if skipping then str else str + [10], true, skipping)
  {
    var s := NewLine(crlf) + tail;
    assert if crlf then s[2..] == tail else s[1..] == tail;
    assert LineBreak(s) == Some((true, tail));
  }

  lemma ShortIsRead(letter: char, tail: string, str: seq<Byte>, multi: bool, skipping: bool)
    requires letter in SHORT && tail != ""
    ensures Basic("\\" + [letter] + tail, str, multi, skipping)
            == Basic(tail, str + Encode(SHORT[letter] as int), multi, false)
  {
    var s := "\\" + [letter] + tail;
    assert s[1..] == [letter] + tail && s[1..][1..] == tail;
    assert Escape(s[1..]) == Some((Encode(SHORT[letter] as int), tail));
  }

  /** Digits in either case, one for each place. */
  lemma {:induction false} DigitsSpelled(s: string, ds: seq<nat>)
    requires Spells(16, s, ds) && |ds| == |s|
    ensures AllDigits(16, s) && ValueOf(16, s) == Total(16, ds)
  {
    hide IsDigit, EitherCase, DigitsIn;
    SpelledIsCollected(16, s, ds);
    SpelledFully(16, s, ds);
  }

  /** With as many digits as characters there is no room for underscores. */
  lemma {:induction false} SpelledFully(base: nat, s: string, ds: seq<nat>)
    requires TomlInteger.IsBase(base) && Spells(base, s, ds)
    ensures |ds| <= |s| && (|ds| == |s| ==> TomlInteger.Strip(s) == s)
    decreases |s|
  {
    hide IsDigit, EitherCase, DigitsIn;
    var front, c, init := s[..|s| - 1], s[|s| - 1], ds[..|ds| - 1];
    DigitsAre(base, c);
    NotUnderscore(base);
    assert front + [c] == s;
    if |ds| == 1 {
      assert TomlInteger.Strip("") == "" && "" + [c] == s;
    } else if Spells(base, front, init) {
      SpelledFully(base, front, init);
    } else {
      SpelledFully(base, front[..|front| - 1], init);
    }
  }

  lemma HexIsRead(c: char, digits: string, tail: string, str: seq<Byte>, multi: bool, skipping: bool)
    requires Allowed(Hex(c, digits), '"', multi)
    ensures Basic(Spelling(Hex(c, digits), '"') + tail, str, multi, skipping)
            == Basic(tail, str + Encode(c as int), multi, false)
  {
    hide Encode, Spells, Total, ValueOf, AllDigits;
    var n := |digits|;
    var s := Spelling(Hex(c, digits), '"') + tail;
    var ds: seq<nat> :| |ds| == n && Spells(16, digits, ds) && Total(16, ds) == c as int;
    DigitsSpelled(digits, ds);
    var e := s[1..];
    assert e[1..] == digits + tail && e[1..][..n] == digits && e[1 + n..] == tail;
    assert Escape(e) == Some((Encode(c as int), tail));
  }

  // ----- white space behind a backslash -----

  lemma {:induction false} BlanksAreSkipped(blanks: string, tail: string)
    requires forall i :: 0 <= i < |blanks| ==> blanks[i] == ' ' || blanks[i] == '\t'
    requires tail == "" || !IsHorizontalWhitespace(tail[0])
    ensures SkipBlanks(blanks + tail) == Some(tail)
  {
    if blanks == "" {
      assert blanks + tail == tail;
    } else {
      assert (blanks + tail)[1..] == blanks[1..] + tail;
      BlanksAreSkipped(blanks[1..], tail);
    }
  }

  lemma {:induction false} WhiteIsSkipped(white: string, tail: string, str: seq<Byte>)
    requires White(white)
    ensures Basic(white + tail, str, true, true) == Basic(tail, str, true, true)
    decreases |white|
  {
    hide Basic, IsHorizontalWhitespace;
    if white == "" {
      assert white + tail == tail;
    } else if IsHorizontalWhitespace(white[0]) && White(white[1..]) {
      assert white + tail == [white[0]] + (white[1..] + tail);
      OneBlankSkipped(white[0], white[1..] + tail, str);
      WhiteIsSkipped(white[1..], tail, str);
    } else {
      var crlf := white[0] == '\r';
      var more := white[if crlf then 2 else 1..];
      assert white + tail == NewLine(crlf) + (more + tail);
      BreakIsRead(crlf, more + tail, str, true);
      WhiteIsSkipped(more, tail, str);
    }
  }

  lemma OneBlankSkipped(c: char, tail: string, str: seq<Byte>)
    requires IsHorizontalWhitespace(c)
    ensures Basic([c] + tail, str, true, true) == Basic(tail, str, true, true)
  {
    assert ([c] + tail)[1..] == tail;
  }

  lemma ContinuedIsRead(blanks: string, crlf: bool, more: string, tail: string, str: seq<Byte>, skipping: bool)
    requires Allowed(Continued(blanks, crlf, more), '"', true)
    ensures Basic(Spelling(Continued(blanks, crlf, more), '"') + tail, str, true, skipping)
            == Basic(tail, str, true, true)
  {
    hide Basic, SkipBlanks, LineBreak, IsHorizontalWhitespace;
    var p := Continued(blanks, crlf, more);
    var s, rest := Spelling(p, '"') + tail, NewLine(crlf) + (more + tail);
    assert s == "\\" + (blanks + rest);
    NewLineIsNoBlank(crlf, rest);
    BlanksAreSkipped(blanks, rest);
    BreakIs(crlf, more + tail);
    BlankIsWhite(blanks + rest);
    BackslashIs(s, str, skipping);
    WhiteIsSkipped(more, tail, str);
  }

  lemma NewLineIsNoBlank(crlf: bool, rest: string)
    requires NewLine(crlf) <= rest
    ensures rest != "" && !IsHorizontalWhitespace(rest[0]) && IsWhitespace(rest[0])
  {
    assert rest[0] == NewLine(crlf)[0];
  }

  lemma BlankIsWhite(s: string)
    requires s != "" && (s[0] == ' ' || s[0] == '\t' || s[0] == '\r' || s[0] == '\n')
    ensures IsWhitespace(s[0])
  {
  }

  lemma BreakIs(crlf: bool, tail: string)
    ensures LineBreak(NewLine(crlf) + tail) == Some((true, tail))
  {
    var s := NewLine(crlf) + tail;
    assert if crlf then s[2..] == tail else s[1..] == tail;
  }

  lemma BackslashIs(s: string, str: seq<Byte>, skipping: bool)
    requires |s| > 1 && s[0] == '\\' && IsWhitespace(s[1])
    ensures Basic(s, str, true, skipping)
            == match LineEnding(s[1..]) case None => Failed case Some(t) => Basic(t, str, true, true)
  {
    hide LineEnding, Escape, IsWhitespace;
  }

  // ----- quotes -----

  lemma QuotesAreRead(n: nat, tail: string, str: seq<Byte>, skipping: bool)
    requires 1 <= n <= 2 && (tail == "" || tail[0] != '"')
    ensures Basic(Repeat('"', n) + tail, str, true, skipping) == Basic(tail, str + QuoteBytes('"', n), true, false)
  {
    var s := Repeat('"', n) + tail;
    assert s[..n] == Repeat('"', n) && s[n..] == tail;
    RunIs(s, '"', n, 5);
  }

  /** The closing delimiter, and up to two quotes in front of it. */
  lemma CloseIsRead(n: nat, rest: string, str: seq<Byte>, multi: bool, skipping: bool)
    requires n <= (if multi then 2 else 0) && (multi && n < 2 ==> rest == "" || rest[0] != '"')
    ensures Basic(Repeat('"', n) + Closing('"', multi) + rest, str, multi, skipping)
            == Parsed(str + QuoteBytes('"', n), rest)
  {
    var s := Repeat('"', n) + Closing('"', multi) + rest;
    if multi {
      assert s[..n + 3] == Repeat('"', n + 3) && s[n + 3..] == rest;
      RunIs(s, '"', n + 3, 5);
    } else {
      assert s[1..] == rest && str + QuoteBytes('"', 0) == str;
    }
  }

  // ----- whole strings -----

  /** What may follow the string: over several lines no further quote, unless two stand in front of the
      delimiter already. */
  predicate Follows(ps: seq<Piece>, quote: char, multi: bool, rest: string) {
    multi ==> rest == "" || rest[0] != quote || (ps != [] && ps[|ps| - 1] == Quotes(2))
  }

  lemma QuoteBytesAre(quote: char, n: nat)
    requires n <= 2 && IsStringDelimiter(quote)
    ensures QuoteBytes(quote, n) == Utf8Of(Repeat(quote, n))
  {
    NoBytes();
    Utf8One(quote);
    Utf8Concat([quote], [quote]);
    assert [quote] + [quote] == Repeat(quote, 2) && Repeat(quote, 1) == [quote] && Repeat(quote, 0) == "";
    assert Encode(quote as int) == [quote as int];
  }

  lemma OneMeaning(c: char)
    ensures Utf8Of([c]) == Encode(c as int)
    ensures c == '\n' ==> Utf8Of([c]) == [10]
  {
    Utf8One(c);
  }

  /** A piece that is no quotes is read, whatever follows in the string. */
  lemma PieceIsRead(p: Piece, tail: string, str: seq<Byte>, multi: bool, skipping: bool)
    requires Allowed(p, '"', multi) && !p.Quotes? && (skipping ==> !StartsWhite(p)) && tail != ""
    ensures Basic(Spelling(p, '"') + tail, str, multi, skipping)
            == Basic(tail, str + Utf8Of(Meaning(p, '"')), multi, p.Continued?)
  {
    hide Basic, Encode, Utf8Of, Allowed, Spelling;
    NoBytes();
    assert str + [] == str;
    match p
    case Plain(c) =>
      OneMeaning(c);
      PlainIsRead(c, tail, str, multi, skipping);
      assert Spelling(p, '"') == [c] by { SpellingIs(p); }
    case Short(letter) =>
      ShortIs(letter, multi);
      OneMeaning(SHORT[letter]);
      ShortIsRead(letter, tail, str, multi, skipping);
      assert Spelling(p, '"') == "\\" + [letter] by { SpellingIs(p); }
    case Hex(c, digits) =>
      OneMeaning(c);
      HexIsRead(c, digits, tail, str, multi, skipping);
    case Break(crlf) =>
      OneMeaning('\n');
      BreakIsKept(crlf, tail, str, multi, skipping);
    case Continued(blanks, crlf, more) =>
      assert multi by { ContinuedSpans(p, multi); }
      ContinuedIsRead(blanks, crlf, more, tail, str, skipping);
  }

  lemma SpellingIs(p: Piece)
    ensures p.Plain? ==> Spelling(p, '"') == [p.c]
    ensures p.Short? ==> Spelling(p, '"') == "\\" + [p.letter]
  {
  }

  lemma ShortIs(letter: char, multi: bool)
    requires Allowed(Short(letter), '"', multi)
    ensures letter in SHORT
  {
  }

  lemma ContinuedSpans(p: Piece, multi: bool)
    requires Allowed(p, '"', multi) && p.Continued?
    ensures multi
  {
  }

  lemma BreakIsKept(crlf: bool, tail: string, str: seq<Byte>, multi: bool, skipping: bool)
    requires Allowed(Break(crlf), '"', multi) && !skipping
    ensures Basic(Spelling(Break(crlf), '"') + tail, str, multi, skipping) == Basic(tail, str + [10], multi, false)
  {
    BreakIsRead(crlf, tail, str, skipping);
  }

  lemma PieceStarts(p: Piece, quote: char, multi: bool)
    requires Allowed(p, quote, multi) && IsStringDelimiter(quote)
    ensures Spelling(p, quote) != "" && (Spelling(p, quote)[0] == quote <==> p.Quotes?)
  {
    hide White, Spells;
  }

  /** Any spelling of a basic string is read as what it means. */
  lemma {:induction false} BasicSpelled(ps: seq<Piece>, rest: string, str: seq<Byte>, multi: bool, skipping: bool,
                                        quoted: bool)
    requires Allows(ps, '"', multi, skipping, quoted) && Follows(ps, '"', multi, rest)
    ensures Basic(SpellingOf(ps, '"') + Closing('"', multi) + rest, str, multi, skipping)
            == Parsed(str + Utf8Of(MeaningOf(ps, '"')), rest)
    decreases |ps|
  {
    hide Basic, Allowed, Spelling, Meaning, Utf8Of, Follows, StartsWhite, Closing;
    var close := Closing('"', multi) + rest;
    if ps == [] {
      NoBytes();
      ClosesAlone(rest, str, multi, skipping);
      assert SpellingOf(ps, '"') + Closing('"', multi) + rest == close && str + [] == str;
    } else {
      var p, tail := ps[0], SpellingOf(ps[1..], '"') + close;
      assert SpellingOf(ps, '"') + Closing('"', multi) + rest == Spelling(p, '"') + tail;
      Utf8Concat(Meaning(p, '"'), MeaningOf(ps[1..], '"'));
      var b := Utf8Of(Meaning(p, '"'));
      assert str + (b + Utf8Of(MeaningOf(ps[1..], '"'))) == str + b + Utf8Of(MeaningOf(ps[1..], '"'));
      if p.Quotes? && ps[1..] == [] {
        NoBytes();
        assert b + [] == b && tail == close;
        ClosesBehind(ps, rest, str, multi, skipping);
      } else {
        TailStarts(ps, '"', multi, skipping, quoted, rest);
        if p.Quotes? {
          QuotesInside(p, tail, str, multi, skipping);
        } else {
          PieceIsRead(p, tail, str, multi, skipping);
        }
        FollowsOn(ps, '"', multi, rest);
        BasicSpelled(ps[1..], rest, str + b, multi, p.Continued?, p.Quotes?);
        assert SpellingOf(ps[1..], '"') + Closing('"', multi) + rest == tail;
      }
    }
  }

  lemma FollowsOn(ps: seq<Piece>, quote: char, multi: bool, rest: string)
    requires Follows(ps, quote, multi, rest) && ps != [] && (ps[1..] == [] ==> !ps[0].Quotes?)
    ensures Follows(ps[1..], quote, multi, rest)
  {
  }

  lemma ClosesAlone(rest: string, str: seq<Byte>, multi: bool, skipping: bool)
    requires Follows([], '"', multi, rest)
    ensures Basic(Closing('"', multi) + rest, str, multi, skipping) == Parsed(str, rest)
  {
    hide Basic;
    CloseIsRead(0, rest, str, multi, skipping);
    assert Repeat('"', 0) + Closing('"', multi) + rest == Closing('"', multi) + rest;
    assert str + QuoteBytes('"', 0) == str;
  }

  lemma ClosesBehind(ps: seq<Piece>, rest: string, str: seq<Byte>, multi: bool, skipping: bool)
    requires ps != [] && ps[1..] == [] && ps[0].Quotes? && Allowed(ps[0], '"', multi) && Follows(ps, '"', multi, rest)
    ensures Basic(Spelling(ps[0], '"') + (Closing('"', multi) + rest), str, multi, skipping)
            == Parsed(str + Utf8Of(Meaning(ps[0], '"')), rest)
  {
    hide Basic, Utf8Of, Closing;
    var n := ps[0].n;
    QuoteBytesAre('"', n);
    CloseIsRead(n, rest, str, multi, skipping);
    assert Repeat('"', n) + Closing('"', multi) + rest == Repeat('"', n) + (Closing('"', multi) + rest);
  }

  lemma QuotesInside(p: Piece, tail: string, str: seq<Byte>, multi: bool, skipping: bool)
    requires Allowed(p, '"', multi) && p.Quotes? && tail != "" && tail[0] != '"'
    ensures Basic(Spelling(p, '"') + tail, str, multi, skipping)
            == Basic(tail, str + Utf8Of(Meaning(p, '"')), multi, false)
  {
    hide Basic, Utf8Of;
    QuoteBytesAre('"', p.n);
    QuotesAreRead(p.n, tail, str, skipping);
  }

  /** What stands behind the first piece: something, and no quote if the piece was quotes. */
  lemma TailStarts(ps: seq<Piece>, quote: char, multi: bool, skipping: bool, quoted: bool, rest: string)
    requires Allows(ps, quote, multi, skipping, quoted) && ps != [] && IsStringDelimiter(quote)
    ensures Allowed(ps[0], quote, multi) && (skipping ==> !StartsWhite(ps[0]))
    ensures var tail := SpellingOf(ps[1..], quote) + (Closing(quote, multi) + rest);
            tail != "" && (ps[0].Quotes? && ps[1..] != [] ==> tail[0] != quote)
  {
    hide Allowed, Spelling, StartsWhite;
    if ps[1..] != [] { PieceStarts(ps[1], quote, multi); }
  }

  // ----- and every string that is read is such a spelling -----

  /** `s` spells a string up to its closing delimiter, behind white space that is still skipped. */
  ghost predicate Spelled(s: string, white: string, ps: seq<Piece>, quote: char, multi: bool, skipping: bool,
                          rest: string)
  {
    && White(white) && (!skipping ==> white == "")
    && Allows(ps, quote, multi, skipping, false) && Follows(ps, quote, multi, rest)
    && s == white + (SpellingOf(ps, quote) + Closing(quote, multi) + rest)
  }

  lemma NotQuoted(ps: seq<Piece>, quote: char, multi: bool, skipping: bool)
    requires Allows(ps, quote, multi, skipping, false) && (ps != [] ==> !ps[0].Quotes?)
    ensures Allows(ps, quote, multi, skipping, true)
  {
  }

  /** One more piece in front, with nothing skipped before it. */
  lemma Prepended(p: Piece, s: string, ps: seq<Piece>, quote: char, multi: bool, skipping: bool, rest: string)
    requires Spelled(s, "", ps, quote, multi, p.Continued?, rest) && Allowed(p, quote, multi)
    requires IsStringDelimiter(quote) && (skipping ==> !StartsWhite(p))
    requires p.Quotes? ==> s == "" || s[0] != quote
    ensures Spelled(Spelling(p, quote) + s, "", [p] + ps, quote, multi, skipping, rest)
    ensures Utf8Of(MeaningOf([p] + ps, quote)) == Utf8Of(Meaning(p, quote)) + Utf8Of(MeaningOf(ps, quote))
  {
    hide Allowed, Spelling, Meaning, Utf8Of, StartsWhite, White;
    var all := [p] + ps;
    assert all[1..] == ps && all[0] == p;
    Utf8Concat(Meaning(p, quote), MeaningOf(ps, quote));
    var tail := SpellingOf(ps, quote) + Closing(quote, multi) + rest;
    assert "" + tail == tail == s;
    if p.Quotes? && ps != [] {
      PieceStarts(ps[0], quote, multi);
      assert s[0] == Spelling(ps[0], quote)[0];
      NotQuoted(ps, quote, multi, false);
    }
    var body := SpellingOf(all, quote) + Closing(quote, multi) + rest;
    assert Spelling(p, quote) + s == body && "" + body == body;
    NothingIsWhite();
    assert Follows(all, quote, multi, rest) by { FollowsFrom(p, ps, quote, multi, rest); }
  }

  lemma FollowsFrom(p: Piece, ps: seq<Piece>, quote: char, multi: bool, rest: string)
    requires Follows(ps, quote, multi, rest)
    ensures Follows([p] + ps, quote, multi, rest)
  {
  }

  lemma NothingIsWhite()
    ensures White("")
  {
  }

  /** A continued line takes the white space behind it along. */
  lemma Continues(blanks: string, crlf: bool, s: string, white: string, ps: seq<Piece>, skipping: bool, rest: string)
    requires Spelled(s, white, ps, '"', true, true, rest)
    requires forall i :: 0 <= i < |blanks| ==> blanks[i] == ' ' || blanks[i] == '\t'
    ensures var p := Continued(blanks, crlf, white);
            && Spelled("\\" + blanks + NewLine(crlf) + s, "", [p] + ps, '"', true, skipping, rest)
            && Utf8Of(MeaningOf([p] + ps, '"')) == Utf8Of(MeaningOf(ps, '"'))
  {
    hide Utf8Of, White, NewLine, Spelled, MeaningOf, SpellingOf;
    var p := Continued(blanks, crlf, white);
    var tail := SpellingOf(ps, '"') + Closing('"', true) + rest;
    SkippedIs(s, white, ps, rest);
    Prepended(p, tail, ps, '"', true, skipping, rest);
    var lead := "\\" + blanks + NewLine(crlf);
    assert Spelling(p, '"') == lead + white;
    assert lead + white + tail == lead + (white + tail);
    NoBytes();
    assert [] + Utf8Of(MeaningOf(ps, '"')) == Utf8Of(MeaningOf(ps, '"'));
  }

  lemma SkippedIs(s: string, white: string, ps: seq<Piece>, rest: string)
    requires Spelled(s, white, ps, '"', true, true, rest)
    ensures var tail := SpellingOf(ps, '"') + Closing('"', true) + rest;
            White(white) && s == white + tail && Spelled(tail, "", ps, '"', true, true, rest)
  {
    NothingIsWhite();
    var tail := SpellingOf(ps, '"') + Closing('"', true) + rest;
    assert "" + tail == tail;
  }

  lemma {:induction false} DigitsAreSpelled(d: string)
    requires AllDigits(16, d) && d != ""
    ensures exists ds: seq<nat> :: |ds| == |d| && Spells(16, d, ds) && Total(16, ds) == ValueOf(16, d)
  {
    hide IsDigit, EitherCase, HexToDec;
    var front, c := d[..|d| - 1], d[|d| - 1];
    DigitsAre(16, c);
    HexIsDigit(c);
    var k := HexToDec(c);
    assert EitherCase(c, DigitsIn(16)[k]);
    if front == "" {
      OneTotal(16, k);
      assert [k][..0] == [];
      OneDigitValue(16, d);
      assert Spells(16, d, [k]);
    } else {
      DigitsAreSpelled(front);
      var init: seq<nat> :| |init| == |front| && Spells(16, front, init) && Total(16, init) == ValueOf(16, front);
      var ds := init + [k];
      assert ds[..|ds| - 1] == init;
      LastTotal(16, init, k);
      assert Spells(16, d, ds);
    }
  }

  lemma HexIsDigit(c: char)
    requires IsDigit(16, c)
    ensures IsHexDigit(c) && EitherCase(c, DigitsIn(16)[HexToDec(c)])
  {
  }

  // ----- reading backwards: a spelling for every text that is read -----

  lemma {:induction false} BlanksOf(s: string) returns (blanks: string)
    requires SkipBlanks(s).Some?
    ensures s == blanks + SkipBlanks(s).value
    ensures forall i :: 0 <= i < |blanks| ==> blanks[i] == ' ' || blanks[i] == '\t'
    decreases |s|
  {
    hide IsHorizontalWhitespace;
    if s == "" || !IsHorizontalWhitespace(s[0]) {
      blanks := "";
      assert "" + s == s;
    } else {
      var more := BlanksOf(s[1..]);
      blanks := [s[0]] + more;
    }
  }

  lemma BreakOf(s: string)
    requires LineBreak(s).Some? && LineBreak(s).value.0
    ensures s == NewLine(s[0] == '\r') + LineBreak(s).value.1
  {
  }

  /** An escape that is read is one of the pieces. */
  lemma SpellEscape(s: string) returns (p: Piece)
    requires s != "" && Escape(s).Some? && Escape(s).value.1 != ""
    ensures Allowed(p, '"', false) && Allowed(p, '"', true) && !p.Continued? && !p.Quotes? && !StartsWhite(p)
    ensures "\\" + s == Spelling(p, '"') + Escape(s).value.1
    ensures Escape(s).value.0 == Utf8Of(Meaning(p, '"'))
  {
    if s[0] in SHORT {
      p := Short(s[0]);
      OneMeaning(SHORT[s[0]]);
    } else {
      var n := if s[0] == 'U' then 8 else 4;
      p := HexOf(s, n);
    }
  }

  lemma HexOf(s: string, n: nat) returns (p: Piece)
    requires s != "" && (s[0] == 'u' || s[0] == 'U') && n == (if s[0] == 'U' then 8 else 4) && Escape(s).Some?
    ensures p.Hex? && Allowed(p, '"', false) && Allowed(p, '"', true)
    ensures "\\" + s == Spelling(p, '"') + Escape(s).value.1
    ensures Escape(s).value.0 == Utf8Of(Meaning(p, '"'))
  {
    hide Utf8Of, Encode, Spells, ValueOf, AllDigits, Total;
    var d := s[1..][..n];
    DigitsAreSpelled(d);
    p := Hex(ValueOf(16, d) as char, d);
    OneMeaning(p.c);
    assert s == [s[0]] + d + s[1 + n..];
  }

  lemma PlainAllowed(c: char, quote: char, multi: bool)
    requires c != quote && (quote == '"' ==> c != '\\') && !IsNonTabControl(c)
    ensures Allowed(Plain(c), quote, multi)
  {
  }

  /** Whatever is read from inside the quotes has a spelling and its meaning. */
  lemma {:induction false} BasicUnspelled(s: string, str: seq<Byte>, multi: bool, skipping: bool)
    returns (white: string, ps: seq<Piece>)
    requires Basic(s, str, multi, skipping).Parsed? && (skipping ==> multi)
    ensures var r := Basic(s, str, multi, skipping);
            Spelled(s, white, ps, '"', multi, skipping, r.rest) && r.bytes == str + Utf8Of(MeaningOf(ps, '"'))
    decreases |s|
  {
    hide *;
    SomethingLeft(s, str, multi, skipping);
    if s[0] == '"' {
      ps := UnspellQuotes(s, str, multi, skipping);
      white := "";
    } else if s[0] == '\\' {
      ps := UnspellBackslash(s, str, multi, skipping);
      white := "";
    } else if multi && IsAsciiVertical(s[0]) {
      white, ps := UnspellBreak(s, str, skipping);
    } else {
      white, ps := UnspellPlain(s, str, multi, skipping);
    }
  }

  lemma SomethingLeft(s: string, str: seq<Byte>, multi: bool, skipping: bool)
    requires Basic(s, str, multi, skipping).Parsed?
    ensures s != ""
  {
  }

  lemma {:induction false} UnspellQuotes(s: string, str: seq<Byte>, multi: bool, skipping: bool)
    returns (ps: seq<Piece>)
    requires Basic(s, str, multi, skipping).Parsed? && (skipping ==> multi) && s != "" && s[0] == '"'
    ensures var r := Basic(s, str, multi, skipping);
            Spelled(s, "", ps, '"', multi, skipping, r.rest) && r.bytes == str + Utf8Of(MeaningOf(ps, '"'))
    decreases |s|, 0
  {
    hide Encode, EncodeAll, Utf8Of, Spelled, MeaningOf, QuoteBytes;
    if !multi {
      ps := [];
      ClosedAlone(s, str, '"');
      return;
    }
    var k := QuoteRun(s, '"', 5);
    var tail := s[k..];
    assert s == Repeat('"', k) + tail;
    if k < 3 {
      var white, more := BasicUnspelled(tail, str + QuoteBytes('"', k), true, false);
      NothingWhite(tail, white, more, true, Basic(s, str, true, skipping).rest);
      QuotesInFront(k, tail, more, '"', skipping, Basic(s, str, true, skipping).rest);
      ps := [Quotes(k)] + more;
      assert str + QuoteBytes('"', k) + Utf8Of(MeaningOf(more, '"'))
             == str + (QuoteBytes('"', k) + Utf8Of(MeaningOf(more, '"')));
    } else {
      ps := ClosedBehind(k, tail, '"', skipping);
      assert str + QuoteBytes('"', k - 3) == Basic(s, str, true, skipping).bytes;
    }
  }

  lemma ClosedAlone(s: string, str: seq<Byte>, quote: char)
    requires s != "" && s[0] == quote && IsStringDelimiter(quote)
    ensures Spelled(s, "", [], quote, false, false, s[1..]) && str == str + Utf8Of(MeaningOf([], quote))
  {
    NothingIsWhite();
    NoBytes();
    assert s == "" + (SpellingOf([], quote) + Closing(quote, false) + s[1..]);
  }

  lemma QuotesInFront(k: nat, tail: string, ps: seq<Piece>, quote: char, skipping: bool, rest: string)
    requires 1 <= k <= 2 && Spelled(tail, "", ps, quote, true, false, rest) && (tail == "" || tail[0] != quote)
    requires IsStringDelimiter(quote)
    ensures Spelled(Repeat(quote, k) + tail, "", [Quotes(k)] + ps, quote, true, skipping, rest)
    ensures Utf8Of(MeaningOf([Quotes(k)] + ps, quote)) == QuoteBytes(quote, k) + Utf8Of(MeaningOf(ps, quote))
  {
    hide Spelled, Utf8Of, MeaningOf;
    Prepended(Quotes(k), tail, ps, quote, true, skipping, rest);
    QuoteBytesAre(quote, k);
  }

  lemma ClosedBehind(k: nat, tail: string, quote: char, skipping: bool) returns (ps: seq<Piece>)
    requires 3 <= k <= 5 && (k < 5 ==> tail == "" || tail[0] != quote) && IsStringDelimiter(quote)
    ensures Spelled(Repeat(quote, k) + tail, "", ps, quote, true, skipping, tail)
    ensures Utf8Of(MeaningOf(ps, quote)) == QuoteBytes(quote, k - 3)
  {
    hide Utf8Of;
    NothingIsWhite();
    QuoteBytesAre(quote, k - 3);
    ps := if k == 3 then [] else [Quotes(k - 3)];
    assert k > 3 ==> ps[1..] == [] && Spelling(ps[0], quote) == Repeat(quote, k - 3);
    assert k > 3 ==> Allowed(ps[0], quote, true) && Allows(ps[1..], quote, true, false, true);
    assert Allows(ps, quote, true, skipping, false);
    var body := SpellingOf(ps, quote) + Closing(quote, true) + tail;
    assert SpellingOf(ps, quote) == Repeat(quote, k - 3);
    assert MeaningOf(ps, quote) == Repeat(quote, k - 3);
    assert Repeat(quote, k) + tail == body == "" + body;
  }

  lemma {:induction false} UnspellBackslash(s: string, str: seq<Byte>, multi: bool, skipping: bool)
    returns (ps: seq<Piece>)
    requires Basic(s, str, multi, skipping).Parsed? && (skipping ==> multi) && s != "" && s[0] == '\\'
    ensures var r := Basic(s, str, multi, skipping);
            Spelled(s, "", ps, '"', multi, skipping, r.rest) && r.bytes == str + Utf8Of(MeaningOf(ps, '"'))
    decreases |s|, 0
  {
    hide Encode, EncodeAll, Utf8Of, Spelled, MeaningOf, Allowed, Escape, LineEnding, IsWhitespace, StartsWhite;
    var e := s[1..];
    assert s == "\\" + e;
    if multi && IsWhitespace(e[0]) {
      var t := LineEnding(e).value;
      var white, more := BasicUnspelled(t, str, true, true);
      ps := UnspellContinued(e, white, more, skipping, Basic(s, str, multi, skipping).rest);
    } else {
      var x := Escape(e).value;
      var white, more := BasicUnspelled(x.1, str + x.0, multi, false);
      NothingWhite(x.1, white, more, multi, Basic(s, str, multi, skipping).rest);
      var p := SpellEscape(e);
      Prepended(p, x.1, more, '"', multi, skipping, Basic(s, str, multi, skipping).rest);
      ps := [p] + more;
      assert str + x.0 + Utf8Of(MeaningOf(more, '"')) == str + (x.0 + Utf8Of(MeaningOf(more, '"')));
    }
  }

  /** Where nothing is skipped there is no white space to skip, and something is left to read. */
  lemma NothingWhite(s: string, white: string, ps: seq<Piece>, multi: bool, rest: string)
    requires Spelled(s, white, ps, '"', multi, false, rest)
    ensures white == "" && s != ""
  {
    hide SpellingOf, Allows;
  }

  lemma UnspellContinued(e: string, white: string, more: seq<Piece>, skipping: bool, rest: string)
    returns (ps: seq<Piece>)
    requires LineEnding(e).Some? && Spelled(LineEnding(e).value, white, more, '"', true, true, rest)
    ensures Spelled("\\" + e, "", ps, '"', true, skipping, rest)
    ensures Utf8Of(MeaningOf(ps, '"')) == Utf8Of(MeaningOf(more, '"'))
  {
    hide Utf8Of, Spelled, MeaningOf, SkipBlanks, LineBreak;
    var blanks := BlanksOf(e);
    var t := SkipBlanks(e).value;
    NotEmptyBreak(t);
    BreakOf(t);
    var crlf, u := t[0] == '\r', LineEnding(e).value;
    Continues(blanks, crlf, u, white, more, skipping, rest);
    ps := [Continued(blanks, crlf, white)] + more;
    assert "\\" + e == "\\" + blanks + NewLine(crlf) + u;
  }

  lemma NotEmptyBreak(t: string)
    requires LineBreak(t).Some? && LineBreak(t).value.0
    ensures t != ""
  {
  }

  lemma {:induction false} UnspellBreak(s: string, str: seq<Byte>, skipping: bool)
    returns (white: string, ps: seq<Piece>)
    requires Basic(s, str, true, skipping).Parsed? && s != "" && s[0] != '"' && s[0] != '\\' && IsAsciiVertical(s[0])
    ensures var r := Basic(s, str, true, skipping);
            Spelled(s, white, ps, '"', true, skipping, r.rest) && r.bytes == str + Utf8Of(MeaningOf(ps, '"'))
    decreases |s|, 0
  {
    hide Encode, EncodeAll, Utf8Of, Spelled, MeaningOf, LineBreak;
    var b := LineBreak(s).value;
    BreakOf(s);
    var crlf, rest := s[0] == '\r', Basic(s, str, true, skipping).rest;
    var more;
    white, more := BasicUnspelled(b.1, if skipping then str else str + [10], true, skipping);
    if skipping {
      BreakSkipped(crlf, b.1, white, more, rest);
      white, ps := NewLine(crlf) + white, more;
    } else {
      NothingWhite(b.1, white, more, true, rest);
      Prepended(Break(crlf), b.1, more, '"', true, false, rest);
      ps := [Break(crlf)] + more;
      OneMeaning('\n');
      assert str + [10] + Utf8Of(MeaningOf(more, '"')) == str + ([10] + Utf8Of(MeaningOf(more, '"')));
    }
  }

  lemma BreakSkipped(crlf: bool, s: string, white: string, ps: seq<Piece>, rest: string)
    requires Spelled(s, white, ps, '"', true, true, rest)
    ensures Spelled(NewLine(crlf) + s, NewLine(crlf) + white, ps, '"', true, true, rest)
  {
    hide Allows, Follows, SpellingOf;
    var w := NewLine(crlf) + white;
    assert if crlf then w[2..] == white else w[1..] == white;
    var tail := SpellingOf(ps, '"') + Closing('"', true) + rest;
    assert NewLine(crlf) + (white + tail) == w + tail;
  }

  lemma BlankSkipped(c: char, s: string, white: string, ps: seq<Piece>, rest: string)
    requires Spelled(s, white, ps, '"', true, true, rest) && IsHorizontalWhitespace(c)
    ensures Spelled([c] + s, [c] + white, ps, '"', true, true, rest)
  {
    hide Allows, Follows, SpellingOf;
    var w := [c] + white;
    assert w[1..] == white;
    var tail := SpellingOf(ps, '"') + Closing('"', true) + rest;
    assert [c] + (white + tail) == w + tail;
  }

  lemma {:induction false} UnspellPlain(s: string, str: seq<Byte>, multi: bool, skipping: bool)
    returns (white: string, ps: seq<Piece>)
    requires Basic(s, str, multi, skipping).Parsed? && (skipping ==> multi) && s != ""
    requires s[0] != '"' && s[0] != '\\' && !(multi && IsAsciiVertical(s[0]))
    ensures var r := Basic(s, str, multi, skipping);
            Spelled(s, white, ps, '"', multi, skipping, r.rest) && r.bytes == str + Utf8Of(MeaningOf(ps, '"'))
    decreases |s|, 0
  {
    hide Encode, EncodeAll, Utf8Of, Spelled, MeaningOf, IsHorizontalWhitespace, IsAsciiVertical;
    var c, rest := s[0], Basic(s, str, multi, skipping).rest;
    assert s == [c] + s[1..];
    var more;
    if skipping && IsHorizontalWhitespace(c) {
      white, more := BasicUnspelled(s[1..], str, true, true);
      BlankSkipped(c, s[1..], white, more, rest);
      white, ps := [c] + white, more;
    } else {
      white, more := BasicUnspelled(s[1..], str + Encode(c as int), multi, false);
      NothingWhite(s[1..], white, more, multi, rest);
      PlainAllowed(c, '"', multi);
      Prepended(Plain(c), s[1..], more, '"', multi, skipping, rest);
      ps := [Plain(c)] + more;
      OneMeaning(c);
      var m := Utf8Of(MeaningOf(more, '"'));
      assert str + Encode(c as int) + m == str + (Encode(c as int) + m);
    }
  }

  // ----- literal strings -----

  lemma LiteralPieceIsRead(p: Piece, tail: string, str: seq<Byte>, multi: bool)
    requires Allowed(p, '\'', multi) && !p.Quotes? && tail != ""
    ensures !p.Continued?
    ensures Literal(Spelling(p, '\'') + tail, str, multi) == Literal(tail, str + Utf8Of(Meaning(p, '\'')), multi)
  {
    hide Encode, Utf8Of;
    var s := Spelling(p, '\'') + tail;
    if p.Plain? {
      OneMeaning(p.c);
      assert s[1..] == tail;
    } else {
      OneMeaning('\n');
      BreakIs(p.crlf, tail);
    }
  }

  lemma LiteralQuotesInside(p: Piece, tail: string, str: seq<Byte>, multi: bool)
    requires Allowed(p, '\'', multi) && p.Quotes? && tail != "" && tail[0] != '\''
    ensures Literal(Spelling(p, '\'') + tail, str, multi) == Literal(tail, str + Utf8Of(Meaning(p, '\'')), multi)
  {
    hide Utf8Of;
    QuoteBytesAre('\'', p.n);
    var s := Spelling(p, '\'') + tail;
    assert s[..p.n] == Repeat('\'', p.n) && s[p.n..] == tail;
    RunIs(s, '\'', p.n, 5);
  }

  lemma LiteralCloses(n: nat, rest: string, str: seq<Byte>, multi: bool)
    requires n <= (if multi then 2 else 0) && (multi && n < 2 ==> rest == "" || rest[0] != '\'')
    ensures Literal(Repeat('\'', n) + Closing('\'', multi) + rest, str, multi)
            == Parsed(str + QuoteBytes('\'', n), rest)
  {
    var s := Repeat('\'', n) + Closing('\'', multi) + rest;
    if multi {
      assert s[..n + 3] == Repeat('\'', n + 3) && s[n + 3..] == rest;
      RunIs(s, '\'', n + 3, 5);
    } else {
      assert s[1..] == rest && str + QuoteBytes('\'', 0) == str;
    }
  }

  /** Any spelling of a literal string is read as what it means. */
  lemma {:induction false} LiteralSpelled(ps: seq<Piece>, rest: string, str: seq<Byte>, multi: bool, quoted: bool)
    requires Allows(ps, '\'', multi, false, quoted) && Follows(ps, '\'', multi, rest)
    ensures Literal(SpellingOf(ps, '\'') + Closing('\'', multi) + rest, str, multi)
            == Parsed(str + Utf8Of(MeaningOf(ps, '\'')), rest)
    decreases |ps|
  {
    hide Literal, Allowed, Spelling, Meaning, Utf8Of, Follows, StartsWhite, Closing;
    var close := Closing('\'', multi) + rest;
    if ps == [] {
      ClosesLiteral(ps, rest, str, multi);
      assert SpellingOf(ps, '\'') + Closing('\'', multi) + rest == close;
    } else {
      var p, tail := ps[0], SpellingOf(ps[1..], '\'') + close;
      assert SpellingOf(ps, '\'') + Closing('\'', multi) + rest == Spelling(p, '\'') + tail;
      Utf8Concat(Meaning(p, '\''), MeaningOf(ps[1..], '\''));
      var b := Utf8Of(Meaning(p, '\''));
      assert str + (b + Utf8Of(MeaningOf(ps[1..], '\''))) == str + b + Utf8Of(MeaningOf(ps[1..], '\''));
      if p.Quotes? && ps[1..] == [] {
        NoBytes();
        assert b + [] == b && tail == close;
        ClosesLiteral(ps, rest, str, multi);
      } else {
        TailStarts(ps, '\'', multi, false, quoted, rest);
        if p.Quotes? { LiteralQuotesInside(p, tail, str, multi); } else { LiteralPieceIsRead(p, tail, str, multi); }
        FollowsOn(ps, '\'', multi, rest);
        LiteralSpelled(ps[1..], rest, str + b, multi, p.Quotes?);
        assert SpellingOf(ps[1..], '\'') + Closing('\'', multi) + rest == tail;
      }
    }
  }

  lemma ClosesLiteral(ps: seq<Piece>, rest: string, str: seq<Byte>, multi: bool)
    requires Follows(ps, '\'', multi, rest)
    requires ps != [] ==> ps[1..] == [] && ps[0].Quotes? && Allowed(ps[0], '\'', multi)
    ensures var p := if ps == [] then "" else Spelling(ps[0], '\'');
            Literal(p + (Closing('\'', multi) + rest), str, multi)
            == Parsed(str + Utf8Of(if ps == [] then "" else Meaning(ps[0], '\'')), rest)
    ensures ps == [] ==>
              Literal(Closing('\'', multi) + rest, str, multi) == Parsed(str + Utf8Of(MeaningOf(ps, '\'')), rest)
  {
    hide Literal, Utf8Of, Closing;
    var n := if ps == [] then 0 else ps[0].n;
    LiteralCloses(n, rest, str, multi);
    QuoteBytesAre('\'', n);
    assert Repeat('\'', n) + Closing('\'', multi) + rest == Repeat('\'', n) + (Closing('\'', multi) + rest);
    assert Repeat('\'', 0) == "" && "" + (Closing('\'', multi) + rest) == Closing('\'', multi) + rest;
  }

  lemma {:induction false} LiteralUnspelled(s: string, str: seq<Byte>, multi: bool) returns (ps: seq<Piece>)
    requires Literal(s, str, multi).Parsed?
    ensures var r := Literal(s, str, multi);
            Spelled(s, "", ps, '\'', multi, false, r.rest) && r.bytes == str + Utf8Of(MeaningOf(ps, '\''))
    decreases |s|, 1
  {
    hide Encode, EncodeAll, Utf8Of, Spelled, MeaningOf, LineBreak, IsAsciiVertical, IsNonTabControl;
    var rest := Literal(s, str, multi).rest;
    var more;
    if s[0] == '\'' {
      ps := UnspellLiteralQuotes(s, str, multi);
    } else if multi && IsAsciiVertical(s[0]) {
      var b := LineBreak(s).value;
      assert b.0;
      BreakOf(s);
      more := LiteralUnspelled(b.1, str + [10], multi);
      Prepended(Break(s[0] == '\r'), b.1, more, '\'', multi, false, rest);
      ps := [Break(s[0] == '\r')] + more;
      OneMeaning('\n');
      assert str + [10] + Utf8Of(MeaningOf(more, '\'')) == str + ([10] + Utf8Of(MeaningOf(more, '\'')));
    } else {
      var c := s[0];
      assert s == [c] + s[1..];
      more := LiteralUnspelled(s[1..], str + Encode(c as int), multi);
      PlainAllowed(c, '\'', multi);
      Prepended(Plain(c), s[1..], more, '\'', multi, false, rest);
      ps := [Plain(c)] + more;
      OneMeaning(c);
      var m := Utf8Of(MeaningOf(more, '\''));
      assert str + Encode(c as int) + m == str + (Encode(c as int) + m);
    }
  }

  lemma {:induction false} UnspellLiteralQuotes(s: string, str: seq<Byte>, multi: bool) returns (ps: seq<Piece>)
    requires Literal(s, str, multi).Parsed? && s != "" && s[0] == '\''
    ensures var r := Literal(s, str, multi);
            Spelled(s, "", ps, '\'', multi, false, r.rest) && r.bytes == str + Utf8Of(MeaningOf(ps, '\''))
    decreases |s|, 0
  {
    hide Encode, EncodeAll, Utf8Of, Spelled, MeaningOf, QuoteBytes;
    if !multi {
      ps := [];
      ClosedAlone(s, str, '\'');
      return;
    }
    var k := QuoteRun(s, '\'', 5);
    var tail := s[k..];
    assert s == Repeat('\'', k) + tail;
    if k < 3 {
      var more := LiteralUnspelled(tail, str + QuoteBytes('\'', k), true);
      QuotesInFront(k, tail, more, '\'', false, Literal(s, str, true).rest);
      ps := [Quotes(k)] + more;
      var m := Utf8Of(MeaningOf(more, '\''));
      assert str + QuoteBytes('\'', k) + m == str + (QuoteBytes('\'', k) + m);
    } else {
      ps := ClosedBehind(k, tail, '\'', false);
      assert str + QuoteBytes('\'', k - 3) == Literal(s, str, true).bytes;
    }
  }

  // ----- from delimiter to delimiter -----

  /** The spelling of a string: delimiters, over several lines with a line break behind the opening ones or
      not, and pieces between them. A line break that comes first belongs to the delimiters. */
  ghost predicate SpellsString(s: string, quote: char, multi: bool, lead: string, ps: seq<Piece>, rest: string) {
    && IsStringDelimiter(quote)
    && Allows(ps, quote, multi, false, false) && Follows(ps, quote, multi, rest)
    && s == Closing(quote, multi) + (lead + (SpellingOf(ps, quote) + Closing(quote, multi) + rest))
    && if multi then (lead == "" && (ps == [] || !ps[0].Break?)) || lead == "\n" || lead == "\r\n"
       else lead == "" && (ps == [] ==> rest == "" || rest[0] != quote)
  }

  /** What is read from inside the quotes, in either kind of string. */
  function Inside(s: string, quote: char, multi: bool): Parsed {
    if quote == '"' then Basic(s, [], multi, false) else Literal(s, [], multi)
  }

  lemma InsideSpelled(ps: seq<Piece>, quote: char, multi: bool, rest: string)
    requires IsStringDelimiter(quote) && Allows(ps, quote, multi, false, false) && Follows(ps, quote, multi, rest)
    ensures Inside(SpellingOf(ps, quote) + Closing(quote, multi) + rest, quote, multi)
            == Parsed(Utf8Of(MeaningOf(ps, quote)), rest)
  {
    hide *;
    InsideIs(SpellingOf(ps, quote) + Closing(quote, multi) + rest, quote, multi);
    if quote == '"' {
      BasicSpelled(ps, rest, [], multi, false, false);
    } else {
      LiteralSpelled(ps, rest, [], multi, false);
    }
    assert [] + Utf8Of(MeaningOf(ps, quote)) == Utf8Of(MeaningOf(ps, quote));
  }

  lemma InsideIs(s: string, quote: char, multi: bool)
    ensures quote == '"' ==> Inside(s, quote, multi) == Basic(s, [], multi, false)
    ensures quote != '"' ==> Inside(s, quote, multi) == Literal(s, [], multi)
    ensures IsStringDelimiter(quote) <==> quote == '"' || quote == '\''
  {
    hide Basic, Literal;
  }

  lemma InsideUnspelled(s: string, quote: char, multi: bool) returns (ps: seq<Piece>)
    requires IsStringDelimiter(quote) && Inside(s, quote, multi).Parsed?
    ensures var r := Inside(s, quote, multi);
            Spelled(s, "", ps, quote, multi, false, r.rest) && r.bytes == Utf8Of(MeaningOf(ps, quote))
  {
    hide *;
    InsideIs(s, quote, multi);
    if quote == '"' {
      var white;
      white, ps := BasicUnspelled(s, [], multi, false);
      NothingWhite(s, white, ps, multi, Basic(s, [], multi, false).rest);
    } else {
      ps := LiteralUnspelled(s, [], multi);
    }
    assert [] + Utf8Of(MeaningOf(ps, quote)) == Utf8Of(MeaningOf(ps, quote));
  }

  /** From the opening delimiter on. */
  lemma ReadFrom(s: string, quote: char, multi: bool, lead: string, after: string)
    requires IsStringDelimiter(quote) && s == Closing(quote, multi) + (lead + after) && after != ""
    requires if multi then lead == "\n" || lead == "\r\n" || (lead == "" && !IsAsciiVertical(after[0]))
             else lead == "" && (after[0] == quote ==> |after| == 1 || after[1] != quote)
    ensures s != "" && s[0] == quote && ReadString(s) == Inside(after, quote, multi)
  {
    hide Basic, Literal;
    if multi {
      assert s[2..][1..] == lead + after && s[2] == quote;
      if lead == "" {
        assert lead + after == after;
      } else {
        BreakIs(lead == "\r\n", after);
      }
    } else {
      assert s[1..] == after == lead + after;
      if |after| == 1 && after[0] == quote { NothingInside(after, quote); }
      if |s| == 2 && after[0] != quote { OneInside(after, quote); }
    }
  }

  lemma NothingInside(after: string, quote: char)
    requires after == [quote] && IsStringDelimiter(quote)
    ensures Inside(after, quote, false) == Parsed([], "")
  {
  }

  lemma OneInside(after: string, quote: char)
    requires |after| == 1 && after[0] != quote && IsStringDelimiter(quote)
    ensures Inside(after, quote, false) == Failed
  {
    hide Encode;
    var str := [] + Encode(after[0] as int);
    assert after[1..] == "" && Basic("", str, false, false) == Failed && Literal("", str, false) == Failed;
  }

  lemma SpelledInside(ps: seq<Piece>, quote: char, multi: bool, rest: string)
    requires IsStringDelimiter(quote) && Allows(ps, quote, multi, false, false)
    ensures var after := SpellingOf(ps, quote) + Closing(quote, multi) + rest;
            && after != ""
            && (ps == [] || !ps[0].Break? ==> !IsAsciiVertical(after[0]))
            && (!multi && ps != [] ==> after[0] != quote)
            && (!multi && ps == [] ==> after == [quote] + rest)
  {
    hide White, Spells;
    if ps != [] { PieceStarts(ps[0], quote, multi); }
  }

  /** Every spelling of a string is read as what it means. */
  lemma StringSpelled(s: string, quote: char, multi: bool, lead: string, ps: seq<Piece>, rest: string)
    requires SpellsString(s, quote, multi, lead, ps, rest)
    ensures s != "" && IsStringDelimiter(s[0]) && ReadString(s) == Parsed(Utf8Of(MeaningOf(ps, quote)), rest)
  {
    hide ReadString, Utf8Of, Allows, Follows, Inside, SpellingOf, MeaningOf, IsAsciiVertical;
    SpelledInside(ps, quote, multi, rest);
    InsideSpelled(ps, quote, multi, rest);
    ReadFrom(s, quote, multi, lead, SpellingOf(ps, quote) + Closing(quote, multi) + rest);
  }

  /** And every string that is read is one of them. */
  lemma StringUnspelled(s: string) returns (multi: bool, lead: string, ps: seq<Piece>)
    requires s != "" && IsStringDelimiter(s[0]) && ReadString(s).Parsed?
    ensures SpellsString(s, s[0], multi, lead, ps, ReadString(s).rest)
    ensures ReadString(s).bytes == Utf8Of(MeaningOf(ps, s[0]))
  {
    hide Basic, Literal, Utf8Of, Spelled, Allows, Follows, SpellingOf, MeaningOf, LineBreak, IsAsciiVertical;
    var quote := s[0];
    multi := TripleStart(s);
    var after;
    lead, after := OpenedBy(s, multi);
    ps := InsideUnspelled(after, quote, multi);
    var rest := ReadString(s).rest;
    SpelledParts(after, ps, quote, multi, rest);
    SpelledInside(ps, quote, multi, rest);
    if multi && lead == "" && ps != [] && ps[0].Break? { BreakStarts(ps, quote, rest); }
  }

  lemma BreakStarts(ps: seq<Piece>, quote: char, rest: string)
    requires ps != [] && ps[0].Break?
    ensures IsAsciiVertical((SpellingOf(ps, quote) + Closing(quote, true) + rest)[0])
  {
  }

  lemma SpelledParts(s: string, ps: seq<Piece>, quote: char, multi: bool, rest: string)
    requires Spelled(s, "", ps, quote, multi, false, rest)
    ensures Allows(ps, quote, multi, false, false) && Follows(ps, quote, multi, rest)
    ensures s == SpellingOf(ps, quote) + Closing(quote, multi) + rest
  {
    hide Allows, Follows, SpellingOf;
  }

  lemma OpenedBy(s: string, multi: bool) returns (lead: string, after: string)
    requires s != "" && IsStringDelimiter(s[0]) && ReadString(s).Parsed? && multi == TripleStart(s)
    ensures s == Closing(s[0], multi) + (lead + after) && after != ""
    ensures ReadString(s) == Inside(after, s[0], multi)
    ensures if multi then lead == "\n" || lead == "\r\n" || (lead == "" && !IsAsciiVertical(after[0]))
            else lead == "" && (after[0] == s[0] ==> |after| == 1 || after[1] != s[0])
  {
    hide Basic, Literal, LineBreak;
    if multi {
      lead, after := LinesOpened(s);
    } else {
      lead, after := "", s[1..];
      assert s == [s[0]] + after && "" + after == after;
      if |s| == 2 { NothingInside(after, s[0]); }
    }
  }

  lemma LinesOpened(s: string) returns (lead: string, after: string)
    requires TripleStart(s) && IsStringDelimiter(s[0]) && ReadString(s).Parsed?
    ensures s == Closing(s[0], true) + (lead + after) && after != ""
    ensures ReadString(s) == Inside(after, s[0], true)
    ensures lead == "\n" || lead == "\r\n" || (lead == "" && !IsAsciiVertical(after[0]))
  {
    hide Basic, Literal, LineBreak, IsAsciiVertical;
    var t := s[3..];
    assert s[2..][1..] == t && s == Closing(s[0], true) + t;
    var b := LineBreak(t).value;
    if b.0 {
      BreakOf(t);
      lead, after := NewLine(t[0] == '\r'), b.1;
    } else {
      NoBreakStays(t);
      lead, after := "", t;
      assert "" + t == t;
    }
  }

  lemma NoBreakStays(s: string)
    requires LineBreak(s).Some? && !LineBreak(s).value.0
    ensures LineBreak(s).value.1 == s && (s != "" ==> !IsAsciiVertical(s[0]))
  {
  }

  /**
    The parser's strings are exactly the spellings: a text is read as a string of those bytes, with that text
    behind it, if and only if it spells one that means them.
   */
  lemma ReadsExactlySpellings(s: string, b: seq<Byte>, rest: string)
    requires s != "" && IsStringDelimiter(s[0])
    ensures ReadString(s) == Parsed(b, rest) <==>
            exists multi: bool, lead: string, ps: seq<Piece> ::
              SpellsString(s, s[0], multi, lead, ps, rest) && b == Utf8Of(MeaningOf(ps, s[0]))
  {
    hide ReadString, SpellsString, Utf8Of, MeaningOf;
    if ReadString(s) == Parsed(b, rest) {
      var multi, lead, ps := StringUnspelled(s);
      assert SpellsString(s, s[0], multi, lead, ps, rest) && b == Utf8Of(MeaningOf(ps, s[0]));
    }
    if multi: bool, lead: string, ps: seq<Piece> :|
       SpellsString(s, s[0], multi, lead, ps, rest) && b == Utf8Of(MeaningOf(ps, s[0])) {
      StringSpelled(s, s[0], multi, lead, ps, rest);
    }
  }
}
