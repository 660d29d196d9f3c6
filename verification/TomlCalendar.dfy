/**
  Which dates, times and offsets there are, in numbers: how many days every month and every span of years
  has, the ranges of a clock, and fractions of any length.
 */
module TomlCalendar {

  import opened Options
  import opened TomlNumerals
  import opened TomlDateTime

  /** The parser takes this date as it is printed. */
  predicate Reads(y: nat, m: nat, d: nat) {
    ReadDate(PrintDate(Date(y, m, d)), false) == Some(Date(y, m, d))
  }

  lemma ReadsIs(y: nat, m: nat, d: nat)
    ensures Reads(y, m, d) <==> ValidDate(Date(y, m, d))
  {
    hide ReadDate, PrintDate, ValidDate;
    DateRoundTripExactly(Date(y, m, d), "");
    assert PrintDate(Date(y, m, d)) + "" == PrintDate(Date(y, m, d));
  }

  // ----- months -----

  /** The days of a month that are accepted. */
  function Days(y: nat, m: nat): set<nat> {
    set d: nat | d <= 99 && Reads(y, m, d)
  }

  function UpTo(n: nat): (days: set<nat>)
    ensures forall d: nat :: d in days <==> 1 <= d <= n
    ensures |days| == n
  {
    if n == 0 then {} else UpTo(n - 1) + {n}
  }

  /** Thirty days hath September, and there are twelve months; of February it is known that it has 28 or 29. */
  lemma MonthLengths(y: nat, m: nat)
    requires y <= 9999
    ensures m in {1, 3, 5, 7, 8, 10, 12} ==> Days(y, m) == UpTo(31) && |Days(y, m)| == 31
    ensures m in {4, 6, 9, 11} ==> Days(y, m) == UpTo(30) && |Days(y, m)| == 30
    ensures m == 2 ==> (Days(y, m) == UpTo(28) && |Days(y, m)| == 28) || (Days(y, m) == UpTo(29) && |Days(y, m)| == 29)
    ensures m == 0 || m > 12 ==> Days(y, m) == {}
  {
    hide Reads, UpTo;
    forall d: nat ensures Reads(y, m, d) <==> ValidDate(Date(y, m, d)) {
      ReadsIs(y, m, d);
    }
    var n := DaysIn(y, m);
    if 1 <= m <= 12 { assert Days(y, m) == UpTo(n); }
  }

  // ----- years -----

  /** How many dates of the first `m` two-digit months are accepted. */
  function DaysBeforeMonth(y: nat, m: nat): nat {
    if m == 0 then 0 else DaysBeforeMonth(y, m - 1) + |Days(y, m - 1)|
  }

  /** How many dates before that year are accepted. */
  function DaysBefore(y: nat): nat {
    if y == 0 then 0 else DaysBefore(y - 1) + DaysBeforeMonth(y - 1, 100)
  }

  lemma {:induction false} NoMoreMonths(y: nat, m: nat)
    requires y <= 9999 && 13 <= m
    ensures DaysBeforeMonth(y, m) == DaysBeforeMonth(y, 13)
  {
    if m > 13 {
      NoMoreMonths(y, m - 1);
      MonthLengths(y, m - 1);
    }
  }

  lemma YearLength(y: nat)
    requires y <= 9999
    ensures DaysBeforeMonth(y, 100) == 337 + |Days(y, 2)|
  {
    hide Days, DaysBeforeMonth;
    NoMoreMonths(y, 100);
    MonthIs(y, 0);
    MonthIs(y, 1);
    MonthIs(y, 2);
    MonthIs(y, 3);
    MonthIs(y, 4);
    MonthIs(y, 5);
    MonthIs(y, 6);
    MonthIs(y, 7);
    MonthIs(y, 8);
    MonthIs(y, 9);
    MonthIs(y, 10);
    MonthIs(y, 11);
    MonthIs(y, 12);
    assert DaysBeforeMonth(y, 0) == 0 by { NoMonths(y); }
  }

  lemma NoMonths(y: nat)
    ensures DaysBeforeMonth(y, 0) == 0
  {
  }

  lemma MonthIs(y: nat, m: nat)
    requires y <= 9999 && m <= 12
    ensures DaysBeforeMonth(y, m + 1) == DaysBeforeMonth(y, m) + |Days(y, m)|
    ensures m != 2 ==> |Days(y, m)| == if m == 0 then 0 else if m in {4, 6, 9, 11} then 30 else 31
  {
    hide Days;
    MonthLengths(y, m);
  }

  lemma FebruaryIs(y: nat)
    requires y <= 9999
    ensures |Days(y, 2)| == 28 + (if y % 4 == 0 then 1 else 0) - (if y % 100 == 0 then 1 else 0)
                            + (if y % 400 == 0 then 1 else 0)
  {
    hide Reads, UpTo;
    forall d: nat ensures Reads(y, 2, d) <==> ValidDate(Date(y, 2, d)) {
      ReadsIs(y, 2, d);
    }
    assert Days(y, 2) == UpTo(DaysIn(y, 2));
  }

  /** The Gregorian calendar: three leap years of four centuries' turns are left out. */
  lemma CalendarIsGregorian(y: nat)
    requires y <= 10000
    ensures DaysBefore(y) == 365 * y + (y + 3) / 4 - (y + 99) / 100 + (y + 399) / 400
  {
    hide DaysBefore;
    DaysAreGregorian(y);
  }

  function Gregorian(y: nat): int {
    365 * y + (y + 3) / 4 - (y + 99) / 100 + (y + 399) / 400
  }

  lemma {:induction false} DaysAreGregorian(y: nat)
    requires y <= 10000
    ensures DaysBefore(y) == Gregorian(y)
  {
    hide DaysBeforeMonth, Days;
    if y > 0 {
      hide Gregorian;
      DaysAreGregorian(y - 1);
      YearLength(y - 1);
      FebruaryIs(y - 1);
      GregorianGrows(y - 1);
    }
  }

  lemma GregorianGrows(y: nat)
    ensures Gregorian(y + 1) == Gregorian(y) + 365 + (if y % 4 == 0 then 1 else 0)
                                - (if y % 100 == 0 then 1 else 0) + (if y % 400 == 0 then 1 else 0)
  {
    FourYears(y);
    Centuries(y);
    FourCenturies(y);
  }

  lemma FourYears(y: nat)
    ensures (y + 4) / 4 == (y + 3) / 4 + if y % 4 == 0 then 1 else 0
  {
  }

  lemma Centuries(y: nat)
    ensures (y + 100) / 100 == (y + 99) / 100 + if y % 100 == 0 then 1 else 0
  {
  }

  lemma FourCenturies(y: nat)
    ensures (y + 400) / 400 == (y + 399) / 400 + if y % 400 == 0 then 1 else 0
  {
  }

  // ----- only what can be printed is accepted -----

  lemma {:induction false} PaddedIsUnique(t: string)
    requires AllDigits(10, t) && t != ""
    ensures Padded(10, ValueOf(10, t), |t|) == t
  {
    hide ValueOf, Numeral, HexToDec, IsDigit;
    var front, c := t[..|t| - 1], t[|t| - 1];
    DigitsInside(10, t);
    DecimalDigit(c);
    assert front + [c] == t;
    ValueOfLast(10, front, c);
    if front == "" {
      NoValue();
      assert t == [c];
    } else {
      PaddedIsUnique(front);
      PaddedLast(ValueOf(10, front), HexToDec(c), |front|);
    }
  }

  lemma NoValue()
    ensures ValueOf(10, "") == 0
    ensures forall d: nat :: d < 10 ==> Numeral(10, d) == [DigitChar(d)]
  {
  }

  lemma DecimalDigit(c: char)
    requires IsDigit(10, c)
    ensures IsHexDigit(c) && HexToDec(c) < 10 && DigitChar(HexToDec(c)) == c
  {
  }

  lemma PaddedLast(v: nat, d: nat, width: nat)
    requires d < 10 && width > 0
    ensures Padded(10, v * 10 + d, width + 1) == Padded(10, v, width) + [DigitChar(d)]
  {
    hide Numeral;
    NumeralLast(v, d);
    var s, t := Numeral(10, v), Numeral(10, v * 10 + d);
    if v == 0 {
      assert Zeros(width) == Zeros(width - 1) + "0";
      assert Zeros(width) + [DigitChar(d)] == Zeros(width - 1) + "0" + [DigitChar(d)];
    } else if |s| < width {
      assert Zeros(width - |s|) + t == Zeros(width - |s|) + s + [DigitChar(d)];
    }
  }

  lemma NumeralLast(v: nat, d: nat)
    requires d < 10
    ensures Numeral(10, v * 10 + d) == if v == 0 then [DigitChar(d)] else Numeral(10, v) + [DigitChar(d)]
    ensures v == 0 ==> Numeral(10, v) == "0"
  {
    assert (v * 10 + d) / 10 == v && (v * 10 + d) % 10 == d;
  }

  /** A date is accepted in no other spelling than the printed one. */
  lemma AcceptedIsPrinted(s: string, part: bool)
    requires ReadDate(s, part).Some?
    ensures |s| >= 10 && s[..10] == PrintDate(ReadDate(s, part).value)
  {
    hide ValidDate, Padded, ValueOf, IsDigit;
    PaddedIsUnique(s[0..4]);
    PaddedIsUnique(s[5..7]);
    PaddedIsUnique(s[8..10]);
    assert s[..10] == s[0..4] + [s[4]] + s[5..7] + [s[7]] + s[8..10];
  }

  // ----- the clock -----

  /** Twenty-four hours, sixty minutes, sixty seconds and a thousand million nanoseconds. */
  lemma ClockIs(h: nat, m: nat, s: nat, ns: nat, rest: string)
    requires EndsValue(rest)
    ensures var t := Time(h, m, s, ns);
            ReadTime(PrintTime(t) + rest, false) == Some((t, |PrintTime(t)|))
            <==> h < 24 && m < 60 && s < 60 && ns < 1_000_000_000
  {
    hide ReadTime, PrintTime, IsValueTerminator;
    TimeRoundTripExactly(Time(h, m, s, ns), rest);
  }

  /** An offset comes back if it is less than a day in either direction, and is printed with its sign. */
  lemma OffsetIs(minutes: int, rest: string)
    requires EndsValue(rest)
    ensures ReadOffset(PrintOffset(minutes) + rest) == Some((Some(minutes), |PrintOffset(minutes)|))
            <==> -24 * 60 < minutes < 24 * 60
  {
    hide ReadOffset, PrintOffset, IsValueTerminator;
    if ValidOffset(minutes) { OffsetRoundTrip(minutes, rest); }
    AcceptedOffsetIsValid(PrintOffset(minutes) + rest);
  }

  // ----- fractions of any length -----

  lemma {:induction false} ValueOfSplit(a: string, b: string)
    requires AllDigits(10, a) && AllDigits(10, b)
    ensures AllDigits(10, a + b) && ValueOf(10, a + b) == ValueOf(10, a) * Power(10, |b|) + ValueOf(10, b)
    decreases |b|
  {
    hide ValueOf, Power, HexToDec, IsDigit;
    if b == "" {
      assert a + b == a;
      NoPlaces();
    } else {
      var front, c := b[..|b| - 1], b[|b| - 1];
      DigitsInside(10, b);
      ValueOfSplit(a, front);
      assert a + front + [c] == a + b && front + [c] == b;
      ValueOfLast(10, a + front, c);
      ValueOfLast(10, front, c);
      PowerNext(10, |b|);
      Places(ValueOf(10, a), Power(10, |b| - 1));
    }
  }

  lemma NoPlaces()
    ensures Power(10, 0) == 1 && ValueOf(10, "") == 0
  {
  }

  lemma Places(v: nat, p: nat)
    ensures v * p * 10 == v * (10 * p)
  {
  }

  /** A fraction of up to 64 digits is read as the whole nanoseconds in it, the rest being cut off. */
  lemma FractionIsFloor(d: string, rest: string)
    requires AllDigits(10, d) && 1 <= |d| <= 64 && EndsValue(rest)
    ensures var r := ReadFraction("." + d + rest, false);
            && r.Some? && r.value.1 == 1 + |d|
            && var ns := r.value.0;
               ns * Power(10, |d|) <= ValueOf(10, d) * 1_000_000_000 < (ns + 1) * Power(10, |d|)
  {
    hide *;
    FractionIsRead(d, rest);
    if |d| <= 9 { ShortFraction(d); } else { LongFraction(d); }
  }

  lemma FractionIsRead(d: string, rest: string)
    requires AllDigits(10, d) && 1 <= |d| <= 64 && EndsValue(rest)
    ensures ReadFraction("." + d + rest, false) == Some((Nanoseconds(d), 1 + |d|))
  {
    hide Nanoseconds, IsDigit;
    var s := "." + d + rest;
    assert s[1..] == d + rest && (d + rest)[..|d|] == d && s[1 + |d|..] == rest;
    if rest != "" { EndIsNoDigit(rest[0]); }
    DigitRunIs(d, rest);
    PointDoesNotEnd();
  }

  lemma EndIsNoDigit(c: char)
    requires IsValueTerminator(c)
    ensures !IsDigit(10, c)
  {
  }

  lemma ShortFraction(d: string)
    requires AllDigits(10, d) && |d| <= 9
    ensures Nanoseconds(d) * Power(10, |d|) == ValueOf(10, d) * 1_000_000_000 && Power(10, |d|) > 0
    ensures ValueOf(10, d) * 1_000_000_000 < (Nanoseconds(d) + 1) * Power(10, |d|)
  {
    hide ValueOf, Power;
    Powers();
    var n := |d|;
    PowerSum(10, 9 - n, n);
    PowerGrows(10, 0, n);
    if n == 9 { assert d[..9] == d && ValueOf(10, d) * 1 == ValueOf(10, d); }
    assert Nanoseconds(d) == ValueOf(10, d) * Power(10, 9 - n);
    hide Nanoseconds;
    Exactly(ValueOf(10, d), Power(10, 9 - n), Power(10, n), 1_000_000_000);
  }

  lemma LongFraction(d: string)
    requires AllDigits(10, d) && |d| > 9
    ensures Nanoseconds(d) * Power(10, |d|) <= ValueOf(10, d) * 1_000_000_000 < (Nanoseconds(d) + 1) * Power(10, |d|)
  {
    hide ValueOf, Power;
    Powers();
    ValueOfSplit(d[..9], d[9..]);
    assert d[..9] + d[9..] == d && Nanoseconds(d) == ValueOf(10, d[..9]);
    hide Nanoseconds;
    ValueOfBounds(10, d[9..]);
    PowerSum(10, 9, |d| - 9);
    Floors(ValueOf(10, d[..9]), ValueOf(10, d[9..]), Power(10, |d| - 9), 1_000_000_000);
  }

  lemma Exactly(v: nat, a: nat, p: nat, all: nat)
    requires a * p == all && p > 0
    ensures v * a * p <= v * all < (v * a + 1) * p
  {
    assert v * a * p == v * (a * p);
    assert (v * a + 1) * p == v * a * p + p;
  }

  lemma Floors(v: nat, r: nat, p: nat, all: nat)
    requires r < p && all > 0
    ensures v * (all * p) <= (v * p + r) * all < (v + 1) * (all * p)
  {
    assert (v * p + r) * all == v * (all * p) + r * all;
    assert (v + 1) * (all * p) == v * (all * p) + all * p;
    MulOrdered(r, p - 1, all);
    assert (p - 1) * all == all * p - all;
    assert r * all >= 0;
  }

  // ----- the other spellings of a date-time -----

  /** Date and time may be parted by a T in either case or a blank, and any readable offset may follow. */
  lemma DateTimeSpelled(d: Date, t: Time, separator: char, offset: string, minutes: Option<int>, rest: string)
    requires ValidDate(d) && ValidTime(t)
    requires separator == ' ' || separator == 'T' || separator == 't'
    requires ReadOffset(offset + rest) == Some((minutes, |offset|)) && EndsTime(offset + rest, true)
    ensures var s := PrintDate(d) + [separator] + PrintTime(t) + offset;
            ReadDateTime(s + rest) == Some((DateTime(d, t, minutes), |s|))
  {
    hide ReadDate, ReadTime, ReadOffset, PrintDate, PrintTime, ValidDate, ValidTime, EndsTime;
    var a, b := PrintDate(d), PrintTime(t);
    var s := a + [separator] + b + offset + rest;
    assert s == a + ([separator] + b + offset + rest);
    DateRoundTrip(d, [separator] + b + offset + rest, true);
    assert s[10] == separator;
    assert s[11..] == b + (offset + rest);
    TimeRoundTrip(t, offset + rest, true);
    assert s[11 + |b|..] == offset + rest;
  }

  /** No offset is written in five ways. */
  lemma ZeroOffsets(rest: string)
    requires EndsValue(rest)
    ensures ReadOffset(rest) == Some((None, 0))
    ensures ReadOffset("Z" + rest) == ReadOffset("z" + rest) == Some((Some(0), 1))
    ensures ReadOffset("+00:00" + rest) == ReadOffset("-00:00" + rest) == Some((Some(0), 6))
  {
    hide IsValueTerminator;
    ZeroSigned(rest);
    OffsetsDoNotEnd();
    assert ("Z" + rest)[1..] == rest && ("z" + rest)[1..] == rest;
  }

  lemma ZeroSigned(rest: string)
    requires EndsValue(rest)
    ensures ReadOffset("+00:00" + rest) == ReadOffset("-00:00" + rest) == Some((Some(0), 6))
  {
    hide Padded, ReadOffset, IsValueTerminator;
    SignedOffset(false, 0, 0, rest);
    SignedOffset(true, 0, 0, rest);
    assert Padded(10, 0, 2) == "00" by { TwoZeros(); }
    assert HoursAndMinutes(false, 0, 0) == "+00:00" && HoursAndMinutes(true, 0, 0) == "-00:00";
  }

  lemma TwoZeros()
    ensures Padded(10, 0, 2) == "00"
  {
    assert Zeros(1) == "0";
  }
}
