/**
  Files that the integer parser reads otherwise than the grammar does, in both directions.
 */
module TomlLookbackLimits {

  import opened Options
  import opened Utf8
  import opened Utf8Reader
  import opened HistoryRing
  import opened TomlCursor
  import opened TomlNumerals
  import opened TomlInteger
  import opened TomlLookback
  import opened TomlStrings
  import opened TomlStringRoundTrip
  import opened TomlValue
  import opened TomlKinds
  import opened TomlReadBack

  lemma FileIsRead(text: string)
    requires AsciiText(text)
    ensures Text(Utf8Of(text)) == text && Stripped(Utf8Of(text)) == Utf8Of(text) == CodesOf(text)
    ensures IsAscii(Utf8Of(text))
  {
    hide Utf8Of, Text;
    AsciiBytes(text);
    TextOfBytes(text);
    NoMark(text);
  }

  /** What is seen behind a character of an ASCII input that the scan did not reach. */
  lemma AsciiSeen(text: string, from: nat, top: int, i: nat)
    requires AsciiText(text)
    requires from + i < |text| && top <= from + i
    ensures Text(Utf8Of(text)) == text
    ensures var at := from + i;
            Seen(Utf8Of(text), from, top)[i]
            == if (at + 1) % BLOCK_CAPACITY != 0 || at + 1 == |text| then text[at]
               else if at + BLOCK_CAPACITY < |text| then text[at + BLOCK_CAPACITY]
               else '\0'
  {
    hide Decoded, Reread, Seen, Text, Stripped, Utf8Of;
    FileIsRead(text);
    AsciiReread(Utf8Of(text), from + i);
    assert Seen(Utf8Of(text), from, top)[i] as int == Behind(Utf8Of(text), Cursor(from + i, Max(top, from + i)));
  }

  /** "0_0_0_…" */
  function Alternating(n: nat): (s: string)
    ensures |s| == n
  {
    seq(n, i => if i % 2 == 0 then '0' else '_')
  }

  lemma {:induction false} AlternatingIsZero(n: nat)
    ensures var s := Alternating(n);
            && |Strip(s)| == (n + 1) / 2 && AllDigits(2, Strip(s)) && ValueOf(2, Strip(s)) == 0
  {
    if n > 0 {
      AlternatingIsZero(n - 1);
      hide ValueOf, Alternating, AllDigits, Strip;
      AlternatingGrows(n);
      ZeroBehind(Strip(Alternating(n - 1)));
    }
  }

  lemma AlternatingGrows(n: nat)
    requires n > 0
    ensures Strip(Alternating(n)) == if n % 2 == 0 then Strip(Alternating(n - 1)) else Strip(Alternating(n - 1)) + ['0']
  {
    var s := Alternating(n);
    assert s[..n - 1] == Alternating(n - 1);
    assert n % 2 == 0 ==> Strip(s[..n - 1]) + [] == Strip(s[..n - 1]);
  }

  lemma ZeroBehind(s: string)
    requires AllDigits(2, s) && ValueOf(2, s) == 0
    ensures AllDigits(2, s + ['0']) && ValueOf(2, s + ['0']) == 0
  {
    hide ValueOf;
    ValueOfLast(2, s, '0');
  }

  function Binary(n: nat): (s: string)
    ensures |s| == n + 3
  {
    "0b" + Alternating(n) + "\n"
  }

  lemma BinaryLength(n: nat)
    ensures ValueLength(Binary(n)) == n + 2
  {
    hide ValueLength;
    ValueLengthIs("0b" + Alternating(n), "\n");
  }

  /** `0b0_0_0_…` and a line feed: a literal but for what its look-backs decide. */
  lemma BinaryShape(n: nat)
    requires 1 <= n <= 2 * MAX_LITERAL_DIGITS
    ensures ValueLength(Binary(n)) == n + 2 && Shaped(2, Binary(n)) && BodyOf(2, Binary(n)) == Alternating(n)
    ensures Converted(2, Strip(BodyOf(2, Binary(n))), IsNegative(2, Binary(n))) == Some(0)
  {
    hide ValueOf, Strip, AllDigits;
    BinaryLength(n);
    AlternatingIsZero(n);
    assert Binary(n)[2..n + 2] == Alternating(n);
  }

  function Line(key: string, n: nat): string {
    key + Binary(n)
  }

  /** The line's value, and how far the scan has taken the reader. */
  lemma LineIs(key: string, n: nat)
    requires AsciiText(key) && HISTORY_SIZE < n + 2
    ensures AsciiText(Line(key, n)) && Line(key, n)[|key|..] == Binary(n)
    ensures |Line(key, n)| == |key| + n + 3
    ensures Text(Utf8Of(Line(key, n))) == Line(key, n)
    ensures ScanTop(Binary(n), |key|, |key|) == |key| + HISTORY_SIZE
    ensures !TooLong(2, Binary(n))
  {
    hide *;
    LineIsText(key, n);
    LineIsScanned(key, n);
    FileIsRead(Line(key, n));
  }

  lemma LineIsText(key: string, n: nat)
    requires AsciiText(key)
    ensures AsciiText(Line(key, n)) && Line(key, n)[|key|..] == Binary(n) && |Line(key, n)| == |key| + n + 3
  {
    hide AsciiText, Binary;
    BinaryIsAscii(n);
    Joined(key, Binary(n));
  }

  lemma LineIsScanned(key: string, n: nat)
    requires HISTORY_SIZE < n + 2
    ensures ScanTop(Binary(n), |key|, |key|) == |key| + HISTORY_SIZE && !TooLong(2, Binary(n))
  {
    hide ValueLength, Binary;
    BinaryLength(n);
  }

  lemma BinaryIsAscii(n: nat)
    ensures AsciiText(Binary(n))
  {
    hide Alternating;
    AlternatingIsAscii(n);
  }

  lemma AlternatingIsAscii(n: nat)
    ensures AsciiText(Alternating(n))
  {
  }

  lemma Joined(a: string, b: string)
    requires AsciiText(a) && AsciiText(b)
    ensures AsciiText(a + b) && (a + b)[|a|..] == b
  {
    forall i | 0 <= i < |a + b| ensures (a + b)[i] < '\U{80}' {
      assert (a + b)[i] == if i < |a| then a[i] else b[i - |a|];
    }
  }

  /** What character `i` of the value is seen as, when the scan did not reach it. */
  lemma LineSeen(key: string, n: nat, i: nat)
    requires AsciiText(key) && HISTORY_SIZE <= i <= n + 1
    ensures AsciiText(Line(key, n)) && |Line(key, n)| == |key| + n + 3
    ensures |Text(Utf8Of(Line(key, n)))| == |Line(key, n)|
    ensures var file, at := Line(key, n), |key| + i;
            Seen(Utf8Of(file), |key|, |key| + HISTORY_SIZE)[i]
            == if (at + 1) % BLOCK_CAPACITY != 0 then Binary(n)[i]
               else if at + BLOCK_CAPACITY < |file| then file[at + BLOCK_CAPACITY]
               else '\0'
  {
    hide Text, Seen, ScanTop, Binary, Utf8Of;
    LineIs(key, n);
    hide Line;
    assert Line(key, n)[|key| + i] == Line(key, n)[|key|..][i];
    AsciiSeen(Line(key, n), |key|, |key| + HISTORY_SIZE, i);
  }

  lemma ScannedSeen(key: string, n: nat, i: nat)
    requires AsciiText(key) && i < HISTORY_SIZE < n + 2
    ensures AsciiText(Line(key, n)) && |Line(key, n)| == |key| + n + 3
    ensures |Text(Utf8Of(Line(key, n)))| == |Line(key, n)|
    ensures Seen(Utf8Of(Line(key, n)), |key|, |key| + HISTORY_SIZE)[i] == Binary(n)[i]
  {
    hide Text, Seen, ScanTop, Binary, Utf8Of;
    LineIs(key, n);
    hide Line;
    assert Line(key, n)[|key| + i] == Line(key, n)[|key|..][i];
    OnlyCrossingsDiffer(Utf8Of(Line(key, n)), |key|, |key| + HISTORY_SIZE, i);
  }

  lemma BinaryRead(n: nat, view: string)
    requires 0 < n <= 2 * MAX_LITERAL_DIGITS && |view| == n + 3
    ensures ReadAs(2, Binary(n), view)
            == if forall i :: 0 <= i < n ==> Decided(2, Alternating(n), view[2..], i) then Some((0, n + 2)) else None
    ensures ReadInteger(2, Binary(n)) == if n % 2 == 1 then Some((0, n + 2)) else None
  {
    hide ReadAs, Shaped, Converted, Strip, AllDigits, StartsLiteral, ValueLength;
    var text := Binary(n);
    BinaryShape(n);
    ReadAsIs(2, text, view);
    ReadAsIs(2, text, text);
    BinaryDecided(n);
  }

  lemma BinaryDecided(n: nat)
    requires 0 < n
    ensures (forall i :: 0 <= i < n ==> Decided(2, Alternating(n), Binary(n)[2..], i)) <==> n % 2 == 1
  {
    var body, back := Alternating(n), Binary(n)[2..];
    assert forall i :: 0 <= i < n ==> back[i] == body[i];
    assert Decided(2, body, back, n - 1) <==> n % 2 == 1;
  }

  /**
    Literals that are refused: the underscore behind digit `i` is the first character of a block, and
    where the digit was nothing of the value stands by then. A key of five characters, 155 digits and
    underscores and `i` of 152 are an example.
   */
  lemma LiteralRefused(key: string, n: nat, i: nat)
    requires AsciiText(key) && n <= 2 * MAX_LITERAL_DIGITS && n % 2 == 1 && i % 2 == 0
    requires HISTORY_SIZE <= i + 2 && i + 1 < n <= i + BLOCK_CAPACITY && (|key| + i + 3) % BLOCK_CAPACITY == 0
    ensures var file, text := Line(key, n), Binary(n);
            && AsciiText(file) && Text(Utf8Of(file)) == file && file[|key|..] == text
            && ReadInteger(2, text) == Some((0, n + 2))
            && NumberAs(2, text, Seen(Utf8Of(file), |key|, ScanTop(text, |key|, |key|))) == None
  {
    hide ReadAs, ReadInteger, Seen, Text, Line, Binary, TooLong, ScanTop, Alternating, Decided, Utf8Of;
    LineIs(key, n);
    BinaryRead(n, Seen(Utf8Of(Line(key, n)), |key|, |key| + HISTORY_SIZE));
    UnderscoreRefused(key, n, i);
  }

  lemma UnderscoreRefused(key: string, n: nat, i: nat)
    requires AsciiText(key) && i % 2 == 0
    requires HISTORY_SIZE <= i + 2 && i + 1 < n <= i + BLOCK_CAPACITY && (|key| + i + 3) % BLOCK_CAPACITY == 0
    requires |Text(Utf8Of(Line(key, n)))| == |key| + n + 3
    ensures !Decided(2, Alternating(n), Seen(Utf8Of(Line(key, n)), |key|, |key| + HISTORY_SIZE)[2..], i)
  {
    hide Seen, Text, Line, Binary, Utf8Of;
    LineEnds(key, n);
    AlternatingAt(n, i);
    hide Alternating;
    LineSeen(key, n, i + 2);
  }

  lemma LineEnds(key: string, n: nat)
    ensures Line(key, n)[|key| + n + 2..] == "\n"
  {
  }

  lemma AlternatingAt(n: nat, i: nat)
    requires i < n
    ensures Alternating(n)[i] == if i % 2 == 0 then '0' else '_'
    ensures i + 1 < n ==> Alternating(n)[i + 1] == if i % 2 == 0 then '_' else '0'
    ensures Binary(n)[i + 2] == Alternating(n)[i]
  {
  }

  /**
    And what is no literal is accepted: an underscore at the end that is the last character of a block.
    A key of four characters and 154 digits and underscores are an example, and one of 32 and 126 shows
    that 127 characters is the limit.
   */
  lemma TrailingUnderscoreAccepted(key: string, n: nat)
    requires AsciiText(key) && HISTORY_SIZE < n + 2 && n <= 2 * MAX_LITERAL_DIGITS && n % 2 == 0
    requires (|key| + n + 2) % BLOCK_CAPACITY == 0
    ensures var file, text := Line(key, n), Binary(n);
            && AsciiText(file) && Text(Utf8Of(file)) == file && file[|key|..] == text
            && ReadInteger(2, text) == None
            && NumberAs(2, text, Seen(Utf8Of(file), |key|, ScanTop(text, |key|, |key|))) == Some((0, n + 2))
  {
    hide ReadAs, ReadInteger, Seen, Text, Line, TooLong, ScanTop, Alternating, Binary, Utf8Of;
    LineIs(key, n);
    var body, view := Alternating(n), Seen(Utf8Of(Line(key, n)), |key|, |key| + HISTORY_SIZE);
    BinaryRead(n, view);
    forall i | 0 <= i < n ensures Decided(2, body, view[2..], i) {
      TrailingDecided(key, n, i);
    }
  }

  lemma TrailingDecided(key: string, n: nat, i: nat)
    requires AsciiText(key) && HISTORY_SIZE < n + 2 && n % 2 == 0 && i < n
    requires (|key| + n + 2) % BLOCK_CAPACITY == 0
    requires |Text(Utf8Of(Line(key, n)))| == |key| + n + 3
    ensures Decided(2, Alternating(n), Seen(Utf8Of(Line(key, n)), |key|, |key| + HISTORY_SIZE)[2..], i)
  {
    hide Seen, Text, Line, Binary, Utf8Of;
    AlternatingAt(n, i);
    hide Alternating;
    if i + 1 == n {
      LineSeen(key, n, n + 1);
    } else if i % 2 == 0 {
      DigitSeen(key, n, i);
    }
  }

  /** The digits of such a line are never at the end of a block. */
  lemma DigitSeen(key: string, n: nat, i: nat)
    requires AsciiText(key) && HISTORY_SIZE < n + 2 && n % 2 == 0 && i < n && i % 2 == 0
    requires (|key| + n + 2) % BLOCK_CAPACITY == 0
    requires |Text(Utf8Of(Line(key, n)))| == |key| + n + 3
    ensures Seen(Utf8Of(Line(key, n)), |key|, |key| + HISTORY_SIZE)[i + 2] == Binary(n)[i + 2]
  {
    hide Seen, Text, Line, Binary, Utf8Of;
    if i + 2 < HISTORY_SIZE {
      ScannedSeen(key, n, i + 2);
    } else {
      OddIsNoEnd(|key| + n + 2, |key| + i + 3);
      LineSeen(key, n, i + 2);
    }
  }

  lemma OddIsNoEnd(a: nat, b: nat)
    requires a % BLOCK_CAPACITY == 0 && (a - b) % 2 == 1
    ensures b % BLOCK_CAPACITY != 0
  {
  }

  /** The refusal as it happens: the file is opened, read up to the value, and the value parsed. */
  method RefusedInFile(key: string, n: nat, i: nat) returns (r: Outcome)
    requires AsciiText(key) && n <= 2 * MAX_LITERAL_DIGITS && n % 2 == 1 && i % 2 == 0
    requires HISTORY_SIZE <= i + 2 && i + 1 < n <= i + BLOCK_CAPACITY && (|key| + i + 3) % BLOCK_CAPACITY == 0
    ensures ReadInteger(2, Binary(n)).Some? && r == Refused
  {
    LiteralRefused(key, n, i);
    r := ParseBinaryLine(key, n);
  }

  /** The acceptance as it happens. */
  method AcceptedInFile(key: string, n: nat) returns (r: Outcome)
    requires AsciiText(key) && HISTORY_SIZE < n + 2 && n <= 2 * MAX_LITERAL_DIGITS && n % 2 == 0
    requires (|key| + n + 2) % BLOCK_CAPACITY == 0
    ensures ReadInteger(2, Binary(n)) == None && r == Read(OfInteger(0))
  {
    TrailingUnderscoreAccepted(key, n);
    r := ParseBinaryLine(key, n);
  }

  /** Opens a file of one such line and takes its value. */
  method ParseBinaryLine(key: string, n: nat) returns (r: Outcome)
    requires AsciiText(key) && HISTORY_SIZE < n + 2
    ensures |Text(Utf8Of(Line(key, n)))| == |key| + n + 3
    ensures var view := Seen(Utf8Of(Line(key, n)), |key|, ScanTop(Binary(n), |key|, |key|));
            match NumberAs(2, Binary(n), view)
            case None => r == Refused
            case Some(read) => r == Read(OfInteger(read.0))
  {
    hide TextCursor.Valid, TextCursor.Rest, Utf8Of, Text, ValueLength, Seen, NumberAs, Begins, Reach, ValueAs;
    hide IsValueTerminator, Binary, ScanTop;
    LineIs(key, n);
    LineIsPlain(key, n);
    var c;
    ghost var view;
    r, c, view := ValueInFile(Utf8Of(Line(key, n)), |key|, key, Binary(n));
    BinaryIsTaken(n, |key|, view);
  }

  lemma LineIsPlain(key: string, n: nat)
    requires AsciiText(key)
    ensures Line(key, n) == key + Binary(n) && StartsPlain(key + Binary(n))
  {
    LineIsText(key, n);
  }

  /** Such a value is taken for a binary integer. */
  lemma BinaryIsTaken(n: nat, from: nat, view: string)
    requires HISTORY_SIZE < n + 2 && |view| == |Binary(n)|
    ensures var text := Binary(n);
            && Begins(text[0]).Some? && Max(from, from + Reach(text)) == ScanTop(text, from, from)
            && ValueAs(text, view).0
               == match NumberAs(2, text, view) case None => Refused case Some(r) => Read(OfInteger(r.0))
  {
    hide Look, OutlookOf, Reach, Foreseen, ScanEnd, NumberAs, ValueLength, KindOf, Begins, First;
    var text := Binary(n);
    BinaryLooks(n);
    BlankIs(text);
    IntegersAreScannedOnce(text);
  }

  lemma BinaryLooks(n: nat)
    requires HISTORY_SIZE < n + 2
    ensures var text := Binary(n);
            && Begins(text[0]).Some? && !DateLike(First(text))
            && First(text).chars != "" && KindOf(First(text)) == IntegerIn(2)
  {
    hide Look, ScanEnd, ValueLength;
    var text, l := Binary(n), Looked("", {BeginsDigit, BeginsZero});
    BinaryLength(n);
    ScanLengthIs(text);
    var a := ScanEnd(text, 0);
    assert text[..a] == "0b" + Alternating(a - 2);
    PrefixTraits(2);
    LookConcat(l, "0b", Alternating(a - 2));
    ZerosPass(Looks("0b"), Alternating(a - 2));
    assert B in First(text).traits && First(text).traits == {BeginsDigit, BeginsZero, Digits, B};
    assert B in First(text).traits + {BeginsZero};
  }

  lemma {:induction false} ZerosPass(l: Looked, s: string)
    requires Digits in l.traits && forall i :: 0 <= i < |s| ==> s[i] == '0' || s[i] == '_'
    ensures Look(l, s).traits == l.traits && |Look(l, s).chars| >= |l.chars|
    ensures s != "" && s[0] == '0' ==> |Look(l, s).chars| > |l.chars|
  {
    if s != "" {
      var init, last := s[..|s| - 1], s[|s| - 1];
      ZerosPass(l, init);
      DigitTraits(Look(l, init), '0');
      assert l.traits + {Digits} == l.traits;
    }
  }
}
