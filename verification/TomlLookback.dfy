/**
  How far the integer parser can trust what it looks back at. It scans ahead first, and what that has
  put into the ring stays; the characters behind it are looked at in the reader's block, and a new
  block overwrites the one before. Here is exactly when that changes what is read.
 */
module TomlLookback {

  import opened Options
  import opened Utf8
  import opened Utf8Reader
  import opened HistoryRing
  import opened TomlCursor
  import opened TomlNumerals
  import opened TomlInteger

  // ----- what scanning ahead means for an integer -----

  /** Numeric values of unknown type are refused beyond this length, if more follows. */
  const MAX_NUMERIC_LENGTH := 126

  function ScanLength(text: string): int {
    Min(HISTORY_SIZE, ValueLength(text))
  }

  /** How far the reader has been when the value at `from` is parsed, given how far it was before. */
  function ScanTop(text: string, from: nat, top: int): int {
    Max(top, from + ScanLength(text))
  }

  predicate TooLong(base: nat, text: string) {
    base == 10 && ScanLength(text) > MAX_NUMERIC_LENGTH && ScanLength(text) != |text|
  }

  /** What a value of that base is read as, when looking back yields `view`. */
  function NumberAs(base: nat, text: string, view: string): Option<(int, nat)>
    requires IsBase(base) && |text| == |view|
  {
    if TooLong(base, text) then None else ReadAs(base, text, view)
  }

  // ----- what depends on looking back, and what does not -----

  /** The digits and underscores of the value at the start of `text`. */
  function BodyOf(base: nat, text: string): string
    requires IsBase(base) && StartsLiteral(base, text)
  {
    LeadInside(base, text);
    text[LeadLength(base, text)..ValueLength(text)]
  }

  /** Everything a literal must be apart from where its underscores stand. */
  predicate Shaped(base: nat, text: string)
    requires IsBase(base)
  {
    && StartsLiteral(base, text)
    && var body := BodyOf(base, text);
    && (forall i :: 0 <= i < |body| ==> body[i] == '_' || IsDigit(base, body[i]))
    && AllDigits(base, Strip(body)) && Strip(body) != [] && |Strip(body)| <= MAX_LITERAL_DIGITS
    && Converted(base, Strip(body), IsNegative(base, text)).Some?
  }

  /** What is decided by looking back at character `i`: whether an underscore may follow, or the end. */
  predicate Decided(base: nat, body: string, view: string, i: nat)
    requires i < |body| <= |view|
  {
    if i + 1 < |body| then body[i + 1] == '_' ==> IsDigit(base, view[i]) else view[i] != '_'
  }

  lemma {:induction false} SpacedIs(base: nat, s: string, view: string)
    requires |s| <= |view|
    ensures Spaced(base, s, view) <==>
              && (forall i :: 0 <= i < |s| ==> s[i] == '_' || IsDigit(base, s[i]))
              && (s != "" ==> s[0] != '_')
              && (forall i :: 0 <= i < |s| - 1 ==> Decided(base, s, view, i))
    decreases |s|
  {
    hide IsDigit;
    if s != "" {
      var last := |s| - 1;
      var init := s[..last];
      SpacedIs(base, init, view);
      UnderscoreIsNoDigit(base);
      assert forall i :: 0 <= i < last - 1 ==> (Decided(base, init, view, i) <==> Decided(base, s, view, i));
      assert forall i :: 0 <= i < last ==> s[i] == init[i];
      if last > 0 {
        assert Decided(base, s, view, last - 1) <==> (s[last] == '_' ==> IsDigit(base, view[last - 1]));
        assert init[0] == s[0];
      }
      if Spaced(base, s, view) {
        forall i | 0 <= i < last ensures Decided(base, s, view, i) {
          assert i < last - 1 ==> Decided(base, init, view, i);
        }
      } else if Spaced(base, init, view) {
      } else if init[0] != '_' && (forall i :: 0 <= i < last ==> init[i] == '_' || IsDigit(base, init[i])) {
        var i :| 0 <= i < last - 1 && !Decided(base, init, view, i);
        assert !Decided(base, s, view, i);
      }
    }
  }

  /** What the literal stands for depends on looking back only in whether it is accepted. */
  lemma ReadAsIs(base: nat, text: string, view: string)
    requires IsBase(base) && |text| == |view|
    ensures ReadAs(base, text, view)
            == if Shaped(base, text) && AllDecided(base, text, view)
               then Some((Converted(base, Strip(BodyOf(base, text)), IsNegative(base, text)).value, ValueLength(text)))
               else None
  {
    hide Strip, Spaced, IsDigit, ReadAs, ValueLength, Converted, StartsLiteral, LeadLength, Decided;
    if StartsLiteral(base, text) {
      LiteralRead(base, text, view);
      var body, back := BodyOf(base, text), view[LeadLength(base, text)..];
      SpacedIs(base, body, back);
      FirstIsDigit(base, text);
      LastDecided(base, body, back);
    } else {
      NoLiteral(base, text, view);
    }
  }

  ghost predicate AllDecided(base: nat, text: string, view: string)
    requires IsBase(base) && StartsLiteral(base, text) && |text| == |view|
  {
    var body := BodyOf(base, text);
    forall i :: 0 <= i < |body| ==> Decided(base, body, view[LeadLength(base, text)..], i)
  }

  lemma FirstIsDigit(base: nat, text: string)
    requires IsBase(base) && StartsLiteral(base, text)
    ensures BodyOf(base, text) != "" && BodyOf(base, text)[0] != '_'
    ensures |BodyOf(base, text)| == ValueLength(text) - LeadLength(base, text)
  {
    LeadInside(base, text);
  }

  lemma LastDecided(base: nat, body: string, view: string)
    requires 0 < |body| <= |view|
    ensures Decided(base, body, view, |body| - 1) <==> view[|body| - 1] != '_'
  {
  }

  // ----- exactly when the blocks make a difference -----

  /** The last character of a block that the scan did not keep, with another block behind it. */
  predicate Crossing(source: seq<Byte>, top: int, i: nat)
    requires i < |Decoded(source)|
  {
    top <= i && i + 1 == Passed(source, BlockFrom(source, i, 0) + 1) < |Decoded(source)|
  }

  lemma OnlyCrossingsDiffer(source: seq<Byte>, from: nat, top: int, i: nat)
    requires from + i < |Text(source)|
    ensures !Crossing(source, top, from + i) ==> Seen(source, from, top)[i] == Text(source)[from + i]
  {
    hide Decoded, Passed, BlockFrom;
    assert Seen(source, from, top)[i] as int == Behind(source, Cursor(from + i, Max(top, from + i)));
    assert Text(source)[from + i] as int == Decoded(source)[from + i].value;
  }

  /** Which characters of the body are crossings. */
  function Crossings(base: nat, source: seq<Byte>, from: nat, top: int): (marks: seq<bool>)
    requires IsBase(base) && from <= |Text(source)| && StartsLiteral(base, Text(source)[from..])
    ensures var text := Text(source)[from..];
            && LeadLength(base, text) <= |text|
            && |marks| == |BodyOf(base, text)| <= |text| - LeadLength(base, text)
  {
    var text := Text(source)[from..];
    FirstIsDigit(base, text);
    var at := from + LeadLength(base, text);
    seq(|BodyOf(base, text)|, i requires 0 <= i < |BodyOf(base, text)| => Crossing(source, top, at + i))
  }

  /** The decisions at the marked characters, or at the others. */
  predicate DecidedOn(base: nat, body: string, view: string, marks: seq<bool>, mark: bool)
    requires |marks| == |body| <= |view|
  {
    forall i :: 0 <= i < |body| && marks[i] == mark ==> Decided(base, body, view, i)
  }

  lemma DecidedBoth(base: nat, body: string, view: string, marks: seq<bool>)
    requires |marks| == |body| <= |view|
    ensures (forall i :: 0 <= i < |body| ==> Decided(base, body, view, i))
            <==> DecidedOn(base, body, view, marks, false) && DecidedOn(base, body, view, marks, true)
  {
    hide Decided;
    if DecidedOn(base, body, view, marks, false) && DecidedOn(base, body, view, marks, true) {
      forall i | 0 <= i < |body| ensures Decided(base, body, view, i) {
        assert marks[i] == false || marks[i] == true;
      }
    }
  }

  lemma DecidedAlike(base: nat, body: string, a: string, b: string, marks: seq<bool>)
    requires |marks| == |body| <= |a| == |b|
    requires forall i :: 0 <= i < |body| && !marks[i] ==> a[i] == b[i]
    ensures DecidedOn(base, body, a, marks, false) ==> DecidedOn(base, body, b, marks, false)
  {
    forall i | 0 <= i < |body| && marks[i] == false && Decided(base, body, a, i)
      ensures Decided(base, body, b, i)
    {
    }
  }

  lemma UnmarkedAlike(base: nat, source: seq<Byte>, from: nat, top: int)
    requires IsBase(base) && from <= |Text(source)| && StartsLiteral(base, Text(source)[from..])
    ensures var text := Text(source)[from..];
            var lead, marks := LeadLength(base, text), Crossings(base, source, from, top);
            forall i :: 0 <= i < |marks| && !marks[i] ==> Seen(source, from, top)[lead..][i] == text[lead..][i]
  {
    hide Crossing, StartsLiteral, LeadLength, Decoded, Behind, Text, Seen, BodyOf;
    var text := Text(source)[from..];
    var lead, marks := LeadLength(base, text), Crossings(base, source, from, top);
    forall i | 0 <= i < |marks| && !marks[i] ensures Seen(source, from, top)[lead..][i] == text[lead..][i] {
      OnlyCrossingsDiffer(source, from, top, lead + i);
    }
  }

  /**
    The exact condition. A literal whose other decisions hold is read as its grammar says if and only
    if the decisions on crossings come out, taken together, as the characters themselves would have
    them; every other text is read as the grammar says anyway.
   */
  lemma LookbackExactly(base: nat, source: seq<Byte>, from: nat, top: int)
    requires IsBase(base) && from <= |Text(source)|
    ensures var text, view := Text(source)[from..], Seen(source, from, top);
            ReadAs(base, text, view) == ReadInteger(base, text) <==>
            (Shaped(base, text) ==>
              var lead, body, marks := LeadLength(base, text), BodyOf(base, text), Crossings(base, source, from, top);
              DecidedOn(base, body, text[lead..], marks, false) ==>
              (DecidedOn(base, body, text[lead..], marks, true) <==> DecidedOn(base, body, view[lead..], marks, true)))
  {
    hide ReadAs, DecidedOn, Converted, Seen, Text, Decoded, LeadLength, BodyOf, Crossings, Shaped;
    var text, view := Text(source)[from..], Seen(source, from, top);
    ReadAsIs(base, text, view);
    ReadAsIs(base, text, text);
    if Shaped(base, text) {
      MisreadExactly(base, source, from, top);
    }
  }

  /** The two ways to go wrong, and exactly when: a literal refused, and something else accepted. */
  lemma MisreadExactly(base: nat, source: seq<Byte>, from: nat, top: int)
    requires IsBase(base) && from <= |Text(source)|
    requires Shaped(base, Text(source)[from..])
    ensures var text, view := Text(source)[from..], Seen(source, from, top);
            var lead, body, marks := LeadLength(base, text), BodyOf(base, text), Crossings(base, source, from, top);
            var elsewhere := DecidedOn(base, body, text[lead..], marks, false);
            var written := DecidedOn(base, body, text[lead..], marks, true);
            var seen := DecidedOn(base, body, view[lead..], marks, true);
            && (ReadInteger(base, text).Some? && ReadAs(base, text, view).None? <==> elsewhere && written && !seen)
            && (ReadInteger(base, text).None? && ReadAs(base, text, view).Some? <==> elsewhere && !written && seen)
  {
    hide ReadAs, DecidedOn, Decided, Converted, Strip, ValueLength, Seen, Text, Decoded, LeadLength, StartsLiteral,
         BodyOf, Crossings;
    var text, view := Text(source)[from..], Seen(source, from, top);
    ReadAsIs(base, text, text);
    ReadAsIs(base, text, view);
    var lead, body, marks := LeadLength(base, text), BodyOf(base, text), Crossings(base, source, from, top);
    DecidedBoth(base, body, text[lead..], marks);
    DecidedBoth(base, body, view[lead..], marks);
    UnmarkedAlike(base, source, from, top);
    DecidedAlike(base, body, text[lead..], view[lead..], marks);
    DecidedAlike(base, body, view[lead..], text[lead..], marks);
  }

  /** A value the scan has kept whole is read as the grammar says. */
  lemma ScannedIsExact(base: nat, source: seq<Byte>, from: nat, top: int)
    requires IsBase(base) && from <= |Text(source)|
    requires from + ValueLength(Text(source)[from..]) <= top
    ensures ReadAs(base, Text(source)[from..], Seen(source, from, top)) == ReadInteger(base, Text(source)[from..])
  {
    hide ReadAs, ReadInteger, Converted, Strip, ValueLength, Seen, Decoded, LeadLength, IsDigit, Decided;
    var text := Text(source)[from..];
    LookbackExactly(base, source, from, top);
    if StartsLiteral(base, text) {
      NothingMarked(base, source, from, top);
    }
  }

  lemma NothingMarked(base: nat, source: seq<Byte>, from: nat, top: int)
    requires IsBase(base) && from <= |Text(source)| && StartsLiteral(base, Text(source)[from..])
    requires from + ValueLength(Text(source)[from..]) <= top
    ensures var text := Text(source)[from..];
            var lead, body, marks := LeadLength(base, text), BodyOf(base, text), Crossings(base, source, from, top);
            && DecidedOn(base, body, text[lead..], marks, true)
            && DecidedOn(base, body, Seen(source, from, top)[lead..], marks, true)
  {
    hide ValueLength, Seen, Decoded, LeadLength, IsDigit, Decided, StartsLiteral, BodyOf;
    var text := Text(source)[from..];
    var lead, marks := LeadLength(base, text), Crossings(base, source, from, top);
    FirstIsDigit(base, text);
    forall i | 0 <= i < |marks| ensures marks[i] == false {
      assert !Crossing(source, top, from + lead + i);
    }
  }

  /**
    So every decimal the parser admits is read exactly as the grammar says, and every value of up to
    127 characters in the other bases.
   */
  lemma NumbersAreExact(base: nat, source: seq<Byte>, from: nat, top: int)
    requires IsBase(base) && from <= |Text(source)|
    requires base == 10 || ValueLength(Text(source)[from..]) <= HISTORY_SIZE
    ensures var text := Text(source)[from..];
            NumberAs(base, text, Seen(source, from, ScanTop(text, from, top)))
            == if TooLong(base, text) then None else ReadInteger(base, text)
  {
    hide ReadAs, ReadInteger, ValueLength, Seen, Decoded;
    var text := Text(source)[from..];
    if !TooLong(base, text) {
      ScannedIsExact(base, source, from, ScanTop(text, from, top));
    }
  }

  /** What the formatter writes is read back, wherever in a file it stands and the blocks end. */
  lemma WrittenIsRead(val: int, format: Format, allowed: Allowed, rest: string,
                      source: seq<Byte>, from: nat, top: int)
    requires I64_MIN <= val <= I64_MAX && EndsValue(rest) && from <= |Text(source)|
    requires Text(source)[from..] == Written(val, format, allowed) + rest
    ensures var base, s := BaseOf(FormatFor(val, format, allowed)), Written(val, format, allowed);
            NumberAs(base, s + rest, Seen(source, from, ScanTop(s + rest, from, top))) == Some((val, |s|))
  {
    hide ReadAs, ReadInteger, ValueLength, Seen, Decoded, Text, Written;
    IntegerRoundTrip(val, format, allowed, rest);
    WrittenIsShort(val, format, allowed, rest);
    NumbersAreExact(BaseOf(FormatFor(val, format, allowed)), source, from, top);
  }

  lemma WrittenIsShort(val: int, format: Format, allowed: Allowed, rest: string)
    requires I64_MIN <= val <= I64_MAX && EndsValue(rest)
    ensures var base, s := BaseOf(FormatFor(val, format, allowed)), Written(val, format, allowed);
            && 0 < |s| == ValueLength(s + rest) <= 65
            && s[0] as int < 128 && !IsValueTerminator(s[0])
  {
    hide Numeral, ValueOf, IsDigit, ValueLength, IsValueTerminator, ReadAs;
    var magnitude: nat := if val < 0 then -val else val;
    var base, s := BaseOf(FormatFor(val, format, allowed)), Written(val, format, allowed);
    IntegerRoundTrip(val, format, allowed, rest);
    LengthRead(base, s + rest);
    NumeralFits(base, magnitude);
    assert (s + rest)[0] == s[0];
  }

  lemma LengthRead(base: nat, text: string)
    requires IsBase(base) && ReadInteger(base, text).Some?
    ensures ReadInteger(base, text).value.1 == ValueLength(text) > 0 && text[0] as int < 128
  {
    hide Strip, Spaced, ValueOf, ValueLength, Converted;
    if StartsLiteral(base, text) {
      LiteralRead(base, text, text);
      LeadInside(base, text);
    } else {
      NoLiteral(base, text, text);
    }
  }

  /** No underscore behind a crossing, and no end: looking back there decides nothing. */
  lemma UncrossedIsExact(base: nat, source: seq<Byte>, from: nat, top: int)
    requires IsBase(base) && from <= |Text(source)|
    requires StartsLiteral(base, Text(source)[from..]) ==>
               var body, marks := BodyOf(base, Text(source)[from..]), Crossings(base, source, from, top);
               forall i :: 0 <= i < |body| && marks[i] ==> i + 1 < |body| && body[i + 1] != '_'
    ensures ReadAs(base, Text(source)[from..], Seen(source, from, top)) == ReadInteger(base, Text(source)[from..])
  {
    hide ReadAs, ReadInteger, ValueLength, Seen, Text, Decoded, LeadLength, IsDigit, StartsLiteral, BodyOf, Crossings;
    LookbackExactly(base, source, from, top);
  }

  /** In ASCII input: before a multiple of 32 bytes, beyond the scan. */
  lemma AsciiCrossing(source: seq<Byte>, top: int, i: nat)
    requires IsAscii(Stripped(source)) && i < |Stripped(source)|
    ensures |Decoded(source)| == |Stripped(source)|
    ensures Crossing(source, top, i) <==>
              top <= i && (i + 1) % BLOCK_CAPACITY == 0 && i + 1 < |Stripped(source)|
  {
    hide Decoded, Reread, Passed, BlockFrom;
    var b := i / BLOCK_CAPACITY;
    AsciiReread(source, i);
    AsciiPassed(source, b);
    AsciiPassed(source, b + 1);
    hide Stripped, IsAscii;
    BlockIs(source, i, b, 0);
  }
}
