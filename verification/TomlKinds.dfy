/** Printed numbers, dates and times are told apart as what they are. */
module TomlKinds {

  import opened Options
  import opened Utf8
  import opened HistoryRing
  import opened TomlCursor
  import opened TomlNumerals
  import opened TomlInteger
  import opened TomlLookback
  import opened TomlDateTime
  import opened TomlValue

  // ----- traits of texts -----

  lemma LookSingle(l: Looked, c: char)
    ensures Look(l, [c]) == LookOne(l, c)
  {
    assert [c][..0] == "";
    assert Look(l, "") == l;
  }

  lemma {:induction false} LookDigits(l: Looked, s: string)
    requires AllDigits(10, s) && s != ""
    ensures Look(l, s) == Looked(l.chars + s, l.traits + {Digits})
  {
    var init, last := s[..|s| - 1], s[|s| - 1];
    if init != "" {
      LookDigits(l, init);
      assert l.traits + {Digits} + {Digits} == l.traits + {Digits};
    }
    DigitTraits(Look(l, init), last);
    assert l.chars + init + [last] == l.chars + s;
  }

  lemma DigitTraits(l: Looked, c: char)
    requires IsDigit(10, c)
    ensures LookOne(l, c) == Looked(l.chars + [c], l.traits + {Digits})
  {
  }

  lemma {:induction false} LookHex(l: Looked, s: string)
    requires AllDigits(16, s) && |l.chars| >= 2 && X in l.traits && Digits in l.traits
    ensures Look(l, s) == Looked(l.chars + s, l.traits)
  {
    if s != "" {
      var init, last := s[..|s| - 1], s[|s| - 1];
      LookHex(l, init);
      HexTraits(Look(l, init), last);
      assert l.chars + init + [last] == l.chars + s;
    } else {
      assert l.chars + s == l.chars;
    }
  }

  lemma HexTraits(l: Looked, c: char)
    requires IsDigit(16, c) && |l.chars| >= 2 && X in l.traits && Digits in l.traits
    ensures LookOne(l, c) == Looked(l.chars + [c], l.traits)
  {
    assert TraitOf(l.traits, l.chars, c) == None || TraitOf(l.traits, l.chars, c) == Some(Digits);
    assert l.traits + {Digits} == l.traits;
  }

  /** What stands between digits, and brings one trait of its own. */
  predicate IsMark(c: char) {
    c == '-' || c == '+' || c == ':' || c == '.' || c == 'T' || c == 'Z'
  }

  function MarkOf(c: char): Trait
    requires IsMark(c)
  {
    match c case '-' => Minus case '+' => Plus case ':' => Colon case '.' => Dot case 'T' => T case _ => Z
  }

  lemma MarkTraits(l: Looked, c: char)
    requires IsMark(c)
    ensures LookOne(l, c) == Looked(l.chars + [c], l.traits + {MarkOf(c)})
  {
  }

  // ----- a printed value in front of the end of one -----

  predicate Whole(s: string) {
    0 < |s| <= HISTORY_SIZE && Begins(s[0]).Some? && forall i :: 0 <= i < |s| ==> !IsValueTerminator(s[i])
  }

  function Looks(s: string): Looked
    requires s != "" && Begins(s[0]).Some?
  {
    Look(Looked("", Begins(s[0]).value), s)
  }

  /** The first scan passes exactly the value. */
  lemma WholeIsScanned(s: string, rest: string)
    requires Whole(s) && EndsValue(rest)
    ensures (s + rest)[0] == s[0] && ScanEnd(s + rest, 0) == |s| == ScanLength(s + rest) == ValueLength(s + rest)
    ensures First(s + rest) == Looks(s)
  {
    hide IsValueTerminator, Look, Begins;
    assert (s + rest)[0] == s[0];
    ValueLengthIs(s, rest);
    ScanLengthIs(s + rest);
    assert (s + rest)[..|s|] == s;
  }

  /** Unless it is like a date, that is all there is to the scan. */
  lemma WholeIsKnown(s: string, rest: string)
    requires Whole(s) && EndsValue(rest) && !DateLike(Looks(s))
    ensures var text := s + rest;
            && s != "" && Begins(s[0]).Some? && text[0] == s[0] && Foreseen(text) && Reach(text) == |s|
            && OutlookOf(text) == Outlook(Looks(s), |s|, |s| == |text|)
  {
    hide Look, Begins, ScanEnd, IsValueTerminator;
    WholeIsScanned(s, rest);
    BlankIs(s + rest);
  }

  predicate PrintedChar(c: char) { IsHexDigit(c) || IsMark(c) || c == 'o' || c == 'x' }

  predicate AllPrinted(s: string) {
    forall i :: 0 <= i < |s| ==> PrintedChar(s[i])
  }

  lemma PrintedIsWhole(s: string)
    requires 0 < |s| <= HISTORY_SIZE && (IsDigit(10, s[0]) || IsSign(s[0])) && AllPrinted(s)
    ensures Whole(s)
  {
    forall i | 0 <= i < |s| ensures !IsValueTerminator(s[i]) {
      PrintedDoesNotEnd(s[i]);
    }
  }

  lemma PrintedDoesNotEnd(c: char)
    requires PrintedChar(c)
    ensures !IsValueTerminator(c)
  {
  }

  // ----- integers -----

  lemma DecimalKind(s: string)
    requires s != "" && AllDigits(10, s)
    ensures Looks(s).chars == s && !DateLike(Looks(s))
    ensures KindOf(Looks(s)) == if |s| == 1 then Digit else IntegerIn(10)
  {
    hide Look;
    LookDigits(Looked("", Begins(s[0]).value), s);
    assert |s| > 1 ==> IsDigit(10, s[1]);
    assert Looks(s).traits + {BeginsZero} == {BeginsDigit, BeginsZero, Digits};
    assert Minus !in Looks(s).traits + {BeginsZero};
  }

  lemma NegativeKind(s: string)
    requires s != "" && AllDigits(10, s)
    ensures var t := "-" + s;
            && Looks(t).chars == t && !DateLike(Looks(t))
            && KindOf(Looks(t)) == if |s| == 1 then SignedDigit else IntegerIn(10)
  {
    hide Look;
    var t, l := "-" + s, Looked("", {BeginsSign});
    LookConcat(l, "-", s);
    LookSingle(l, '-');
    MarkTraits(l, '-');
    LookDigits(LookOne(l, '-'), s);
    assert [] + ['-'] + s == t && "-" == ['-'];
    assert IsDigit(10, s[0]) && t[1] == s[0];
    assert |s| > 1 ==> IsDigit(10, s[1]) && t[2] == s[1];
    assert Looks(t).traits == {BeginsSign, Digits, Minus};
  }

  function PrefixTrait(base: nat): Trait {
    if base == 16 then X else if base == 8 then O else B
  }

  /** The base prefixes. */
  lemma PrefixTraits(base: nat)
    requires IsBase(base) && base != 10
    ensures PrefixOf(base)[0] == '0' && |PrefixOf(base)| == 2
    ensures Looks(PrefixOf(base)) == Looked(PrefixOf(base), {BeginsDigit, BeginsZero, Digits, PrefixTrait(base)})
  {
    hide Look, LookOne;
    var l, p := Looked("", {BeginsDigit, BeginsZero}), PrefixOf(base);
    var zero := Looked(['0'], {BeginsDigit, BeginsZero, Digits});
    assert p == ['0'] + [p[1]];
    LookConcat(l, ['0'], [p[1]]);
    LookSingle(l, '0');
    DigitTraits(l, '0');
    assert l.chars + ['0'] == zero.chars && l.traits + {Digits} == zero.traits;
    LookSingle(zero, p[1]);
    PrefixMark(zero, base, p[1]);
  }

  lemma PrefixMark(l: Looked, base: nat, c: char)
    requires |l.chars| == 1 && BeginsZero in l.traits && IsBase(base) && base != 10 && c == PrefixOf(base)[1]
    ensures LookOne(l, c) == Looked(l.chars + [c], l.traits + {PrefixTrait(base)})
  {
  }

  lemma PrefixedKind(base: nat, s: string)
    requires IsBase(base) && base != 10 && s != "" && AllDigits(base, s)
    ensures var t := PrefixOf(base) + s;
            Looks(t).chars == t && !DateLike(Looks(t)) && KindOf(Looks(t)) == IntegerIn(base)
  {
    hide Look;
    var p := PrefixOf(base);
    var l := Looked("", {BeginsDigit, BeginsZero});
    PrefixTraits(base);
    assert (p + s)[0] == '0';
    LookConcat(l, p, s);
    if base == 16 {
      LookHex(Looks(p), s);
    } else {
      FewerDigits(base, s);
      LookDigits(Looks(p), s);
    }
    assert Looks(p + s).traits == {BeginsDigit, BeginsZero, Digits, PrefixTrait(base)};
    assert PrefixTrait(base) in Looks(p + s).traits + {BeginsZero};
  }

  lemma FewerDigits(base: nat, s: string)
    requires base <= 10 && AllDigits(base, s)
    ensures AllDigits(10, s)
  {
  }

  /** How a written integer is told apart. */
  function WrittenKind(base: nat, s: string): Kind {
    if base != 10 then IntegerIn(base)
    else if |s| == 1 then Digit
    else if |s| == 2 && IsSign(s[0]) then SignedDigit
    else IntegerIn(10)
  }

  lemma WrittenLooks(val: int, format: Format, allowed: Allowed)
    requires I64_MIN <= val <= I64_MAX
    ensures var base, s := BaseOf(FormatFor(val, format, allowed)), Written(val, format, allowed);
            && Whole(s) && Looks(s).chars == s && !DateLike(Looks(s))
            && KindOf(Looks(s)) == WrittenKind(base, s)
            && (WrittenKind(base, s) == Digit ==> val == DigitOf(s[0]))
            && (WrittenKind(base, s) == SignedDigit ==> s[0] == '-' && val == -DigitOf(s[1]))
  {
    hide Looks, Numeral, ValueOf, KindOf, DateLike, Whole, IsDigit, PrintedChar;
    var f := FormatFor(val, format, allowed);
    var base, s := BaseOf(f), Written(val, format, allowed);
    var magnitude: nat := if val < 0 then -val else val;
    var d := Numeral(base, magnitude);
    NumeralRoundTrip(base, magnitude);
    NumeralFits(base, magnitude);
    if val < 0 {
      assert s == "-" + d;
      NegativeKind(d);
    } else if base == 10 {
      assert s == d;
      DecimalKind(d);
    } else {
      PrefixedKind(base, d);
    }
    WrittenIsWhole(base, val < 0, d, s);
    if |d| == 1 { SingleDigit(base, d); }
  }

  lemma WrittenIsWhole(base: nat, negative: bool, d: string, s: string)
    requires IsBase(base) && 0 < |d| <= MaxDigits(base) && AllDigits(base, d) && (negative ==> base == 10)
    requires s == (if negative then "-" else PrefixOf(base)) + d
    ensures Whole(s) && (base == 10 && !negative ==> s[0] == d[0] && !IsSign(s[0]))
  {
    hide Whole;
    var lead := if negative then "-" else PrefixOf(base);
    forall i | 0 <= i < |s| ensures PrintedChar(s[i]) {
      assert s[i] == if i < |lead| then lead[i] else d[i - |lead|];
    }
    PrintedIsWhole(s);
  }

  lemma SingleDigit(base: nat, d: string)
    requires |d| == 1 && AllDigits(base, d) && base <= 16
    ensures base == 10 ==> ValueOf(base, d) == DigitOf(d[0])
  {
    OneDigitValue(base, d);
  }

  /** A written integer is read as one, anywhere in a file. */
  lemma WrittenIsTaken(val: int, format: Format, allowed: Allowed, rest: string,
                       source: seq<Byte>, from: nat, top: int)
    requires I64_MIN <= val <= I64_MAX && EndsValue(rest) && from <= |Text(source)|
    requires Text(source)[from..] == Written(val, format, allowed) + rest
    ensures var s := Written(val, format, allowed);
            && s != "" && Begins(s[0]).Some? && (s + rest)[0] == s[0]
            && ValueAs(s + rest, Seen(source, from, Max(top, from + Reach(s + rest)))) == (Read(OfInteger(val)), |s|)
  {
    hide Looks, KindOf, DateLike, IsDigit, OutlookOf, Reach, Foreseen, NumberAs, Written, Seen, Text, Begins, ScanEnd,
         ValueAs, ReadByKind, WrittenKind, TooLong, ScanLength, Whole, DigitOf;
    WrittenLooks(val, format, allowed);
    var base, s := BaseOf(FormatFor(val, format, allowed)), Written(val, format, allowed);
    WholeIsScanned(s, rest);
    WholeIsKnown(s, rest);
    var view := Seen(source, from, Max(top, from + Reach(s + rest)));
    ValueSeen(s + rest, view);
    WrittenIsRead(val, format, allowed, rest, source, from, top);
    WrittenKindReads(base, s, val, s + rest, view);
  }

  lemma WrittenKindReads(base: nat, s: string, val: int, text: string, view: string)
    requires s != "" && |text| == |view| && IsBase(base) && NumberAs(base, text, view) == Some((val, |s|))
    requires WrittenKind(base, s) == Digit ==> val == DigitOf(s[0])
    requires WrittenKind(base, s) == SignedDigit ==> s[0] == '-' && val == -DigitOf(s[1])
    ensures ReadByKind(WrittenKind(base, s), s, text, view) == (Read(OfInteger(val)), |s|)
  {
    hide NumberAs, DigitOf;
  }

  // ----- dates and times -----

  /** The text is taken as it is, and leaves these traits. */
  predicate Takes(l: Looked, s: string, tr: Traits) {
    Look(l, s) == Looked(l.chars + s, tr) && AllPrinted(s)
  }

  lemma TakesBoth(l: Looked, a: string, tr: Traits, b: string, tr': Traits)
    requires Takes(l, a, tr) && Takes(Looked(l.chars + a, tr), b, tr')
    ensures Takes(l, a + b, tr')
  {
    hide Look;
    LookConcat(l, a, b);
    assert l.chars + a + b == l.chars + (a + b);
  }

  lemma TakesNothing(l: Looked)
    ensures Takes(l, "", l.traits)
  {
    assert l.chars + "" == l.chars;
  }

  /** A number of fixed width, with a mark in front of it or without. */
  lemma TakesField(l: Looked, n: nat, width: nat)
    requires width > 0 && n < Power(10, width)
    ensures var f := Padded(10, n, width);
            |f| == width && AllDigits(10, f) && Takes(l, f, l.traits + {Digits})
  {
    hide Padded, Power, Look;
    PaddedIs(10, n, width);
    LookDigits(l, Padded(10, n, width));
    DigitsArePrinted(Padded(10, n, width));
  }

  lemma TakesMark(l: Looked, c: char)
    requires IsMark(c)
    ensures Takes(l, [c], l.traits + {MarkOf(c)})
  {
    hide MarkOf;
    LookSingle(l, c);
    MarkTraits(l, c);
  }

  lemma TakesMarked(l: Looked, c: char, n: nat, width: nat)
    requires width > 0 && n < Power(10, width) && Digits in l.traits && IsMark(c)
    ensures var f := [c] + Padded(10, n, width);
            |f| == width + 1 && Takes(l, f, l.traits + {MarkOf(c)})
  {
    hide Padded, Power, Takes, IsMark, MarkOf;
    var tr := l.traits + {MarkOf(c)};
    TakesMark(l, c);
    TakesField(Looked(l.chars + [c], tr), n, width);
    assert tr + {Digits} == tr;
    TakesBoth(l, [c], tr, Padded(10, n, width), tr);
  }

  lemma DigitsArePrinted(s: string)
    requires AllDigits(10, s)
    ensures AllPrinted(s)
  {
    forall i | 0 <= i < |s| ensures PrintedChar(s[i]) {
      assert IsDigit(10, s[i]);
    }
  }

  lemma TakesDate(l: Looked, d: Date)
    requires ValidDate(d)
    ensures var s := PrintDate(d);
            && |s| == 10 && IsDigit(10, s[0]) && IsDigit(10, s[1]) && s[4] == '-' && s[7] == '-'
            && Takes(l, s, l.traits + {Digits, Minus})
  {
    hide Padded, Power, Takes;
    Powers();
    var y, m, day := Padded(10, d.year, 4), ['-'] + Padded(10, d.month, 2), ['-'] + Padded(10, d.day, 2);
    var one, two := l.traits + {Digits}, l.traits + {Digits, Minus};
    assert one + {Minus} == two && two + {Minus} == two;
    TakesField(l, d.year, 4);
    TakesMarked(Looked(l.chars + y, one), '-', d.month, 2);
    TakesBoth(l, y, one, m, two);
    TakesMarked(Looked(l.chars + (y + m), two), '-', d.day, 2);
    TakesBoth(l, y + m, two, day, two);
    assert PrintDate(d) == y + m + day;
    assert IsDigit(10, y[0]) && IsDigit(10, y[1]);
  }

  function FractionTraits(ns: nat): Traits {
    if PrintFraction(ns) != "" then {Dot} else {}
  }

  lemma TakesFraction(l: Looked, ns: nat)
    requires ns < NANOS && Digits in l.traits
    ensures |PrintFraction(ns)| <= 10 && Takes(l, PrintFraction(ns), l.traits + FractionTraits(ns))
  {
    hide Padded, Power, Trim, Takes;
    Powers();
    if ns > 0 {
      TrimIs(ns, 9);
      TakesMarked(l, '.', Trim(ns, 9).0, Trim(ns, 9).1);
      assert "." == ['.'];
    } else {
      TakesNothing(l);
      assert l.traits + {} == l.traits;
    }
  }

  lemma TakesTime(l: Looked, t: Time)
    requires ValidTime(t)
    ensures var s := PrintTime(t);
            && 8 <= |s| <= 18 && IsDigit(10, s[0]) && IsDigit(10, s[1])
            && Takes(l, s, l.traits + {Digits, Colon} + FractionTraits(t.nanosecond))
  {
    hide Padded, Power, PrintFraction, Takes, FractionTraits;
    Powers();
    var h, m, sec := Padded(10, t.hour, 2), [':'] + Padded(10, t.minute, 2), [':'] + Padded(10, t.second, 2);
    var f := PrintFraction(t.nanosecond);
    var one, two := l.traits + {Digits}, l.traits + {Digits, Colon};
    assert one + {Colon} == two && two + {Colon} == two;
    TakesField(l, t.hour, 2);
    TakesMarked(Looked(l.chars + h, one), ':', t.minute, 2);
    TakesBoth(l, h, one, m, two);
    TakesMarked(Looked(l.chars + (h + m), two), ':', t.second, 2);
    TakesBoth(l, h + m, two, sec, two);
    TakesFraction(Looked(l.chars + (h + m + sec), two), t.nanosecond);
    TakesBoth(l, h + m + sec, two, f, two + FractionTraits(t.nanosecond));
    assert PrintTime(t) == h + m + sec + f;
    assert IsDigit(10, h[0]) && IsDigit(10, h[1]);
  }

  function OffsetTraits(offset: Option<int>): Traits {
    match offset
    case None => {}
    case Some(minutes) => if minutes == 0 then {Z} else if minutes > 0 then {Plus} else {Minus}
  }

  function OffsetText(offset: Option<int>): string {
    match offset case None => "" case Some(minutes) => PrintOffset(minutes)
  }

  lemma TakesOffset(l: Looked, offset: Option<int>)
    requires offset.Some? ==> ValidOffset(offset.value)
    requires Digits in l.traits && Colon in l.traits
    ensures |OffsetText(offset)| <= 6 && Takes(l, OffsetText(offset), l.traits + OffsetTraits(offset))
  {
    hide Takes, PrintOffset;
    match offset
    case None =>
      TakesNothing(l);
      assert l.traits + {} == l.traits;
    case Some(minutes) =>
      if minutes == 0 {
        TakesMark(l, 'Z');
        ZeroOffset();
      } else {
        TakesSigned(l, minutes);
      }
  }

  lemma ZeroOffset()
    ensures PrintOffset(0) == ['Z']
  {
  }

  lemma TakesSigned(l: Looked, minutes: int)
    requires ValidOffset(minutes) && minutes != 0 && Digits in l.traits && Colon in l.traits
    ensures var s := PrintOffset(minutes);
            |s| == 6 && Takes(l, s, l.traits + {if minutes > 0 then Plus else Minus})
  {
    hide Padded, Power, Takes, PrintOffset;
    Powers();
    var a: nat := if minutes < 0 then -minutes else minutes;
    var sign := if minutes < 0 then '-' else '+';
    var tr := l.traits + {MarkOf(sign)};
    PrintOffsetIs(minutes, a);
    var h, m := [sign] + Padded(10, a / 60, 2), [':'] + Padded(10, a % 60, 2);
    TakesMarked(l, sign, a / 60, 2);
    TakesMarked(Looked(l.chars + h, tr), ':', a % 60, 2);
    assert tr + {Colon} == tr;
    TakesBoth(l, h, tr, m, tr);
    assert HoursAndMinutes(minutes < 0, a / 60, a % 60) == h + m;
  }

  lemma DateKindIs(d: Date)
    requires ValidDate(d)
    ensures var s := PrintDate(d);
            && Whole(s) && Looks(s).chars == s && DateLike(Looks(s)) && KindOf(Looks(s)) == DateKind
  {
    hide Look, PrintDate, AllPrinted, ValidDate, Whole, KindOf;
    var s := PrintDate(d);
    TakesDate(Looked("", {}), d);
    var tr := Begins(s[0]).value;
    TakesDate(Looked("", tr), d);
    assert tr + {Digits, Minus} + {BeginsZero} == {BeginsDigit, BeginsZero, Digits, Minus};
    PrintedIsWhole(s);
    DigitIsNoPoint(s[1]);
    DateIsNoInteger(Looks(s));
  }

  lemma DigitIsNoPoint(c: char)
    requires IsDigit(10, c)
    ensures c != '.'
  {
  }

  lemma TimeKindIs(t: Time)
    requires ValidTime(t)
    ensures var s := PrintTime(t);
            && Whole(s) && !DateLike(Looks(s)) && Looks(s).chars == s && KindOf(Looks(s)) == TimeKind
  {
    hide Look, PrintTime, AllPrinted, ValidTime, Whole, PrintFraction, KindOf;
    var s := PrintTime(t);
    TakesTime(Looked("", {}), t);
    var tr := Begins(s[0]).value;
    TakesTime(Looked("", tr), t);
    PrintedIsWhole(s);
    DigitIsNoPoint(s[1]);
    TimeIsTime(tr, FractionTraits(t.nanosecond), Looks(s));
  }

  lemma TimeIsTime(tr: Traits, fraction: Traits, l: Looked)
    requires tr == {BeginsDigit} || tr == {BeginsDigit, BeginsZero}
    requires fraction <= {Dot} && l.traits == tr + {Digits, Colon} + fraction
    requires |l.chars| > 1 && l.chars[1] != '.'
    ensures KindOf(l) == TimeKind && !DateLike(l)
  {
    assert l.traits + {BeginsZero} - {Dot} == {BeginsDigit, BeginsZero, Digits, Colon};
    assert Colon in l.traits && Colon in l.traits + {BeginsZero};
    assert l.traits !! {P, X, O, B, E, BeginsSign};
  }

  lemma TakesDateTime(l: Looked, v: DateTime)
    requires Valid(v)
    ensures var s := PrintDateTime(v);
            && 19 <= |s| <= 35 && IsDigit(10, s[0]) && IsDigit(10, s[1])
            && Takes(l, s, l.traits + {Digits, Minus, T, Colon} + FractionTraits(v.time.nanosecond)
                           + OffsetTraits(v.offset))
  {
    hide Takes, PrintDate, PrintTime, PrintOffset, PrintFraction, ValidDate, ValidTime, ValidOffset, FractionTraits,
         OffsetTraits;
    var d, t, o := PrintDate(v.date), PrintTime(v.time), OffsetText(v.offset);
    var one, two := l.traits + {Digits, Minus}, l.traits + {Digits, Minus, T};
    var three := l.traits + {Digits, Minus, T, Colon} + FractionTraits(v.time.nanosecond);
    assert one + {T} == two && two + {Digits, Colon} + FractionTraits(v.time.nanosecond) == three;
    TakesDate(l, v.date);
    TakesMark(Looked(l.chars + d, one), 'T');
    TakesBoth(l, d, one, ['T'], two);
    TakesTime(Looked(l.chars + (d + ['T']), two), v.time);
    TakesBoth(l, d + ['T'], two, t, three);
    TakesOffset(Looked(l.chars + (d + ['T'] + t), three), v.offset);
    TakesBoth(l, d + ['T'] + t, three, o, three + OffsetTraits(v.offset));
    assert PrintDateTime(v) == d + ['T'] + t + o;
  }

  lemma DateTimeKindIs(v: DateTime)
    requires Valid(v)
    ensures var s := PrintDateTime(v);
            && Whole(s) && !DateLike(Looks(s)) && Looks(s).chars == s && KindOf(Looks(s)) == DateTimeKind
  {
    hide Look, PrintDateTime, AllPrinted, Valid, Whole, PrintFraction, KindOf;
    var s := PrintDateTime(v);
    TakesDateTime(Looked("", {}), v);
    var tr := Begins(s[0]).value;
    TakesDateTime(Looked("", tr), v);
    PrintedIsWhole(s);
    DigitIsNoPoint(s[1]);
    DateTimeIsDateTime(tr, FractionTraits(v.time.nanosecond), OffsetTraits(v.offset), Looks(s));
  }

  lemma DateTimeIsDateTime(tr: Traits, fraction: Traits, offset: Traits, l: Looked)
    requires tr == {BeginsDigit} || tr == {BeginsDigit, BeginsZero}
    requires fraction <= {Dot} && (offset == {} || offset == {Z} || offset == {Plus} || offset == {Minus})
    requires l.traits == tr + {Digits, Minus, T, Colon} + fraction + offset
    requires |l.chars| > 1 && l.chars[1] != '.'
    ensures KindOf(l) == DateTimeKind && !DateLike(l)
  {
    var rest := l.traits + {BeginsZero};
    assert Colon in rest && T in rest && T in rest - {Dot};
    assert l.traits !! {P, X, O, B, E, BeginsSign};
    if offset == {Z} {
      assert rest - {Dot} == {BeginsDigit, BeginsZero, Digits, Minus, Colon, Z, T};
      assert Z in rest - {Dot, Plus};
    } else {
      assert rest - {Dot, Plus} == {BeginsDigit, BeginsZero, Digits, Minus, Colon, T};
    }
  }

  // ----- printed dates and times are read as such -----

  lemma TimeIsTaken(t: Time, rest: string, view: string)
    requires ValidTime(t) && EndsValue(rest) && |view| == |PrintTime(t) + rest|
    ensures var s := PrintTime(t);
            && s != "" && Begins(s[0]).Some? && (s + rest)[0] == s[0]
            && ValueAs(s + rest, view) == (Read(OfTime(t)), |s|)
  {
    hide Looks, KindOf, DateLike, OutlookOf, Reach, Foreseen, Begins, ScanEnd, PrintTime, ReadTime, ValidTime;
    TimeKindIs(t);
    WholeIsKnown(PrintTime(t), rest);
    TimeRoundTrip(t, rest, false);
  }

  lemma DateTimeIsTaken(v: DateTime, rest: string, view: string)
    requires Valid(v) && EndsValue(rest) && |view| == |PrintDateTime(v) + rest|
    ensures var s := PrintDateTime(v);
            && s != "" && Begins(s[0]).Some? && (s + rest)[0] == s[0]
            && ValueAs(s + rest, view) == (Read(OfDateTime(v)), |s|)
  {
    hide Looks, KindOf, DateLike, OutlookOf, Reach, Foreseen, Begins, ScanEnd, PrintDateTime, ReadDateTime, Valid;
    DateTimeKindIs(v);
    WholeIsKnown(PrintDateTime(v), rest);
    DateTimeRoundTrip(v, rest);
  }

  /** How many characters behind a date the further scan passes. */
  function FurtherLength(rest: string): (n: nat)
    requires |rest| > 2
    ensures 3 <= n <= |rest|
  {
    3 + Min(ValueLength(rest[3..]), 114)
  }

  /** Behind the date stand a blank, a digit and something more than underscores: a time, so it seems. */
  predicate SeemsTimed(rest: string) {
    && |rest| > 2 && rest[0] == ' ' && IsDigit(10, rest[1])
    && exists i :: 2 <= i < FurtherLength(rest) && rest[i] != '_'
  }

  lemma {:induction false} OnlyUnderscores(l: Looked, s: string)
    ensures |Look(l, s).chars| == |l.chars| <==> forall i :: 0 <= i < |s| ==> s[i] == '_'
  {
    if s != "" {
      var init, last := s[..|s| - 1], s[|s| - 1];
      OnlyUnderscores(l, init);
      assert forall i :: 0 <= i < |init| ==> init[i] == s[i];
    }
  }

  /** A printed date by itself is read as one unless what follows seems to be a time. */
  lemma DateIsTakenExactly(d: Date, rest: string, view: string)
    requires ValidDate(d) && EndsValue(rest) && |view| == |PrintDate(d) + rest|
    ensures var s := PrintDate(d);
            && |s| == 10 && Begins(s[0]).Some? && (s + rest)[0] == s[0]
            && (ValueAs(s + rest, view) == (Read(OfDate(d)), 10) <==> !SeemsTimed(rest))
  {
    hide Looks, KindOf, DateLike, OutlookOf, Reach, Foreseen, Begins, ScanEnd, PrintDate, ReadDate, ValidDate, First,
         ScansFurther, BlankBehindDate, SeemsTimed;
    var s := PrintDate(d);
    var text := s + rest;
    DateRoundTrip(d, rest, false);
    DateKindIs(d);
    WholeIsScanned(s, rest);
    DateScan(s, rest);
    if ScansFurther(text) {
      FurtherScan(s, rest, view);
    } else {
      BlankIs(text);
      if BlankBehindDate(text) { NotFurther(text); }
    }
  }

  lemma DateScan(s: string, rest: string)
    requires Whole(s) && |s| == 10 && DateLike(Looks(s)) && EndsValue(rest)
    requires var text := s + rest; text[0] == s[0] && ScanEnd(text, 0) == 10 && First(text) == Looks(s)
    ensures var text := s + rest;
            && (BlankBehindDate(text) <==> rest != "" && rest[0] == ' ')
            && (ScansFurther(text) <==> |rest| > 1 && rest[0] == ' ' && IsDigit(10, rest[1]))
            && (SeemsTimed(rest) ==> ScansFurther(text))
  {
    hide Looks, DateLike, ScanEnd, First, IsDigit, FurtherLength;
    var text := s + rest;
    assert |rest| > 0 ==> text[10] == rest[0];
    assert |rest| > 1 ==> text[11] == rest[1];
  }

  lemma FurtherScan(s: string, rest: string, view: string)
    requires Whole(s) && |s| == 10 && Looks(s).chars == s && |view| == |s + rest|
    requires DateLike(Looks(s)) && KindOf(Looks(s)) == DateKind
    requires var text := s + rest; text[0] == s[0] && ScanEnd(text, 0) == 10 && First(text) == Looks(s)
    requires ScansFurther(s + rest)
    requires |rest| > 1 && rest[0] == ' ' && IsDigit(10, rest[1])
    ensures SeemsTimed(rest) ==> !ValueAs(s + rest, view).0.Read? || !ValueAs(s + rest, view).0.value.OfDate?
    ensures !SeemsTimed(rest) ==> ValueAs(s + rest, view) == ReadByKind(DateKind, Looks(s).chars, s + rest, view)
  {
    hide Looks, KindOf, OutlookOf, Reach, Foreseen, Begins, ScanEnd, First, ScansFurther, ReadDate, ReadTime, IsDigit,
         DateLike, SeemsTimed, Further, FurtherEnd, NumberAs, ReadDateTime, IsValueTerminator;
    var text := s + rest;
    FurtherIs(text);
    FurtherReach(s, rest);
    var l, b := First(text), FurtherEnd(text);
    var seeded := Looked(l.chars + [' ', text[11]], l.traits + {T});
    OnlyUnderscores(seeded, text[12..b]);
    DateIsNoInteger(l);
    LookKeeps(seeded, text[12..b]);
    Stretch(rest, text[12..b]);
    if |Further(text).chars| == 12 {
      UnderscoreDoesNotEnd();
    } else {
      DatedIsNoInteger(l.traits, Further(text));
    }
  }

  lemma UnderscoreDoesNotEnd()
    ensures !IsValueTerminator('_')
  {
  }

  /** Where the further scan ends, in terms of what follows the date. */
  lemma FurtherReach(s: string, rest: string)
    requires |s| == 10 && |rest| > 1
    ensures var text := s + rest;
            var b := ScanEnd(text, 12);
            && b == (if |rest| == 2 then 12 else 10 + FurtherLength(rest)) <= HISTORY_SIZE
            && text[12..b] == (if |rest| == 2 then "" else rest[2..FurtherLength(rest)])
            && text[11] == rest[1] && (|rest| > 2 ==> text[12] == rest[2])
  {
    hide ValueLength;
    var text := s + rest;
    if |rest| > 2 { assert text[13..] == rest[3..]; }
  }

  lemma Stretch(rest: string, t: string)
    requires |rest| > 1 && rest[0] == ' ' && IsDigit(10, rest[1])
    requires t == if |rest| == 2 then "" else rest[2..FurtherLength(rest)]
    ensures SeemsTimed(rest) <==> !(forall i :: 0 <= i < |t| ==> t[i] == '_')
    ensures |rest| > 2 ==> t != "" && t[0] == rest[2]
  {
    hide FurtherLength, IsDigit;
    if |rest| > 2 {
      assert forall i :: 2 <= i < FurtherLength(rest) ==> t[i - 2] == rest[i];
      assert forall i :: 0 <= i < |t| ==> t[i] == rest[i + 2];
    }
  }

  // ----- where the scan oversteps the history -----

  /** A date with `n` underscores behind it. */
  function Stretched(d: Date, n: nat): string {
    PrintDate(d) + seq(n, _ => '_')
  }

  /** With a blank, a digit and more behind them, 114 underscores are the most the scan can step back over. */
  lemma OverstepsExactly(d: Date, n: nat, rest: string)
    requires ValidDate(d) && n <= 117
    requires |rest| > 2 && rest[0] == ' ' && IsDigit(10, rest[1]) && !IsValueTerminator(rest[2])
    ensures var text := Stretched(d, n) + rest;
            && text != "" && Begins(text[0]).Some?
            && (Reach(text) > HISTORY_SIZE <==> n > 114) && (Foreseen(text) <==> n <= 114)
  {
    hide Looks, DateLike, Reach, Foreseen, ScanEnd, PrintDate, First, ValidDate, IsValueTerminator, IsDigit,
         BlankBehindDate, ScansFurther, Begins;
    var s, u := PrintDate(d), seq(n, _ => '_');
    DateKindIs(d);
    DateRoundTrip(d, "", false);
    StretchedIsWhole(s, u);
    BlankEnds();
    WholeIsScanned(s + u, rest);
    StretchedLooks(s, u);
    var text := s + u + rest;
    StretchedScan(s + u, rest);
    FurtherIs(text);
    ReachExactly(text);
  }

  lemma BlankEnds()
    ensures IsValueTerminator(' ')
  {
  }

  lemma StretchedIsWhole(s: string, u: string)
    requires Whole(s) && |s| + |u| <= HISTORY_SIZE && forall i :: 0 <= i < |u| ==> u[i] == '_'
    ensures Whole(s + u) && (s + u)[0] == s[0]
  {
    hide IsValueTerminator, Begins;
    UnderscoreDoesNotEnd();
  }

  lemma {:induction false} StretchedLooks(s: string, u: string)
    requires s != "" && Begins(s[0]).Some? && (s + u)[0] == s[0] && forall i :: 0 <= i < |u| ==> u[i] == '_'
    ensures Looks(s + u) == Looks(s)
  {
    hide Begins;
    LookConcat(Looked("", Begins(s[0]).value), s, u);
    UnderscoresPass(Looks(s), u);
  }

  lemma {:induction false} UnderscoresPass(l: Looked, u: string)
    requires forall i :: 0 <= i < |u| ==> u[i] == '_'
    ensures Look(l, u) == l
  {
    if u != "" { UnderscoresPass(l, u[..|u| - 1]); }
  }

  lemma StretchedScan(s: string, rest: string)
    requires 0 < |s| && |rest| > 1 && rest[0] == ' ' && IsDigit(10, rest[1])
    requires var text := s + rest; Begins(text[0]).Some? && ScanEnd(text, 0) == |s| && DateLike(First(text))
    ensures ScansFurther(s + rest) && BlankBehindDate(s + rest)
    ensures |rest| > 2 ==> (s + rest)[|s| + 2] == rest[2]
  {
    hide DateLike, ScanEnd, First, IsDigit, Begins;
  }
}
