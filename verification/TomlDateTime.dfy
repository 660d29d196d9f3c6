/** Dates, times and offsets: the parser of section 5.6 of RFC 3339 and the writer it inverts. */
module TomlDateTime {

  import opened Options
  import opened TomlNumerals
  import opened TomlCursor

  const U32 := 0x1_0000_0000
  const MAX_FRACTION_DIGITS := 64
  const NANOS := 1_000_000_000

  datatype Date = Date(year: nat, month: nat, day: nat)
  datatype Time = Time(hour: nat, minute: nat, second: nat, nanosecond: nat)
  datatype DateTime = DateTime(date: Date, time: Time, offset: Option<int>)

  predicate IsLeapYear(year: nat) {
    year % 4 == 0 && (year % 100 != 0 || year % 400 == 0)
  }

  function DaysIn(year: nat, month: nat): nat {
    if month == 2 then if IsLeapYear(year) then 29 else 28
    else if month in {4, 6, 9, 11} then 30
    else 31
  }

  predicate ValidDate(d: Date) {
    d.year <= 9999 && 1 <= d.month <= 12 && 1 <= d.day <= DaysIn(d.year, d.month)
  }

  predicate ValidTime(t: Time) {
    t.hour <= 23 && t.minute <= 59 && t.second <= 59 && t.nanosecond < NANOS
  }

  predicate ValidOffset(minutes: int) { -1440 < minutes < 1440 }

  predicate Valid(v: DateTime) {
    ValidDate(v.date) && ValidTime(v.time) && (v.offset.Some? ==> ValidOffset(v.offset.value))
  }

  // ----- the shapes of section 5.6 of RFC 3339 -----

  predicate HasDigits(s: string, i: nat, width: nat) {
    i + width <= |s| && AllDigits(10, s[i..i + width])
  }

  function Field(s: string, i: nat, width: nat): nat
    requires HasDigits(s, i, width)
  {
    ValueOf(10, s[i..i + width])
  }

  predicate HasChar(s: string, i: nat, c: char) {
    i < |s| && s[i] == c
  }

  predicate DateShape(s: string) {
    && HasDigits(s, 0, 4) && HasChar(s, 4, '-')
    && HasDigits(s, 5, 2) && HasChar(s, 7, '-')
    && HasDigits(s, 8, 2)
  }

  function ReadDate(s: string, part: bool): Option<Date> {
    if !DateShape(s) then None
    else
      var d := Date(Field(s, 0, 4), Field(s, 5, 2), Field(s, 8, 2));
      if ValidDate(d) && (part || EndsValue(s[10..])) then Some(d) else None
  }

  predicate ClockShape(s: string) {
    && HasDigits(s, 0, 2) && HasChar(s, 2, ':')
    && HasDigits(s, 3, 2) && HasChar(s, 5, ':')
    && HasDigits(s, 6, 2)
  }

  predicate StartsOffset(s: string) {
    s != "" && (s[0] == '+' || s[0] == '-' || s[0] == 'Z' || s[0] == 'z')
  }

  /** Nanoseconds from the digits behind the point: nine count, missing ones are zeros. */
  function Nanoseconds(digits: string): nat
    requires AllDigits(10, digits)
  {
    if |digits| >= 9 then ValueOf(10, digits[..9]) else ValueOf(10, digits) * Power(10, 9 - |digits|)
  }

  /** The fraction behind hours, minutes and seconds: its nanoseconds and its length. */
  function ReadFraction(s: string, part: bool): (r: Option<(nat, nat)>)
    ensures r.Some? ==> r.value.1 <= |s|
  {
    if EndsValue(s) || (part && StartsOffset(s)) then Some((0, 0))
    else if s[0] != '.' then None
    else
      var n := DigitRun(s[1..]);
      if n == 0 || n > MAX_FRACTION_DIGITS || !(part || EndsValue(s[1 + n..])) then None
      else Some((Nanoseconds(s[1..][..n]), 1 + n))
  }

  function ReadTime(s: string, part: bool): (r: Option<(Time, nat)>)
    ensures r.Some? ==> r.value.1 <= |s|
  {
    if !ClockShape(s) then None
    else
      var f := ReadFraction(s[8..], part);
      if f.None? then None
      else
        var t := Time(Field(s, 0, 2), Field(s, 3, 2), Field(s, 6, 2), f.value.0);
        if t.hour <= 23 && t.minute <= 59 && t.second <= 59 then Some((t, 8 + f.value.1)) else None
  }

  /** The offset behind a time: none, zero or signed hours and minutes; and its length. */
  function ReadOffset(s: string): Option<(Option<int>, nat)> {
    if EndsValue(s) then Some((None, 0))
    else if s[0] == 'Z' || s[0] == 'z' then
      if EndsValue(s[1..]) then Some((Some(0), 1)) else None
    else if (s[0] == '+' || s[0] == '-') && HasDigits(s, 1, 2) && HasChar(s, 3, ':') && HasDigits(s, 4, 2) then
      var h, m: int := Field(s, 1, 2), Field(s, 4, 2);
      if h <= 23 && m <= 59 && EndsValue(s[6..]) then
        Some((Some(if s[0] == '-' then -(h * 60 + m) else h * 60 + m), 6))
      else None
    else None
  }

  predicate IsDateTimeSeparator(c: char) { c == ' ' || c == 'T' || c == 't' }

  function ReadDateTime(s: string): Option<(DateTime, nat)> {
    var d := ReadDate(s, true);
    if d.None? || |s| <= 10 || !IsDateTimeSeparator(s[10]) then None
    else
      var t := ReadTime(s[11..], true);
      if t.None? then None
      else
        var o := ReadOffset(s[11 + t.value.1..]);
        if o.None? then None else Some((DateTime(d.value, t.value.0, o.value.0), 11 + t.value.1 + o.value.1))
  }

  // ----- the writer -----

  function PrintDate(d: Date): string {
    Padded(10, d.year, 4) + "-" + Padded(10, d.month, 2) + "-" + Padded(10, d.day, 2)
  }

  /** The nanoseconds without trailing zeros, and how many of nine digits are left. */
  function Trim(ns: nat, digits: nat): (nat, nat)
    decreases digits
  {
    if digits > 0 && ns % 10 == 0 then Trim(ns / 10, digits - 1) else (ns, digits)
  }

  function PrintFraction(ns: nat): string {
    if 0 < ns < NANOS && Trim(ns, 9).1 > 0 then "." + Padded(10, Trim(ns, 9).0, Trim(ns, 9).1) else ""
  }

  function PrintTime(t: Time): string {
    Padded(10, t.hour, 2) + ":" + Padded(10, t.minute, 2) + ":" + Padded(10, t.second, 2) + PrintFraction(t.nanosecond)
  }

  function PrintOffset(minutes: int): string {
    if minutes == 0 then "Z"
    else
      var m: nat := if minutes < 0 then -minutes else minutes;
      (if minutes < 0 then "-" else "+") + Padded(10, m / 60, 2) + ":" + Padded(10, m % 60, 2)
  }

  function PrintDateTime(v: DateTime): string {
    PrintDate(v.date) + "T" + PrintTime(v.time)
    + match v.offset case None => "" case Some(minutes) => PrintOffset(minutes)
  }

  // ----- padded numbers come back -----

  /** A padded number in the middle of a text is the field found there. */
  lemma FieldIs(before: string, n: nat, width: nat, after: string)
    requires width > 0 && n < Power(10, width)
    ensures var s := before + Padded(10, n, width) + after;
            HasDigits(s, |before|, width) && Field(s, |before|, width) == n
  {
    hide ValueOf, Power, Padded;
    PaddedIs(10, n, width);
    var s := before + Padded(10, n, width) + after;
    assert s[|before|..|before| + width] == Padded(10, n, width);
  }

  lemma Powers()
    ensures Power(10, 0) == 1 && Power(10, 1) == 10 && Power(10, 2) == 100 && Power(10, 3) == 1000
    ensures Power(10, 4) == 10000
    ensures Power(10, 9) == NANOS
  {
    assert Power(10, 2) == 100;
    assert Power(10, 4) == 10000;
    assert Power(10, 6) == 1000000;
    assert Power(10, 8) == 100000000;
  }

  lemma DateRoundTrip(d: Date, rest: string, part: bool)
    requires ValidDate(d) && (part || EndsValue(rest))
    ensures |PrintDate(d)| == 10 && ReadDate(PrintDate(d) + rest, part) == Some(d)
  {
    hide Power, Padded, Field, HasDigits;
    Powers();
    PaddedIs(10, d.year, 4);
    PaddedIs(10, d.month, 2);
    PaddedIs(10, d.day, 2);
    var s := PrintDate(d) + rest;
    var y, m, day := Padded(10, d.year, 4), Padded(10, d.month, 2), Padded(10, d.day, 2);
    FieldIs("", d.year, 4, "-" + m + "-" + day + rest);
    assert "" + y + ("-" + m + "-" + day + rest) == s;
    FieldIs(y + "-", d.month, 2, "-" + day + rest);
    assert y + "-" + m + ("-" + day + rest) == s;
    FieldIs(y + "-" + m + "-", d.day, 2, rest);
    assert y + "-" + m + "-" + day + rest == s;
    assert s[10..] == rest;
  }

  lemma {:induction false} TrimIs(ns: nat, digits: nat)
    requires 0 < ns < Power(10, digits)
    ensures var r := Trim(ns, digits);
            && 0 < r.1 <= digits && 0 < r.0 < Power(10, r.1)
            && ns == r.0 * Power(10, digits - r.1)
    decreases digits
  {
    assert digits > 0;
    if ns % 10 == 0 {
      TrimIs(ns / 10, digits - 1);
      var r := Trim(ns / 10, digits - 1);
      calc {
        ns;
        10 * (ns / 10);
        10 * (r.0 * Power(10, digits - 1 - r.1));
        r.0 * (10 * Power(10, digits - 1 - r.1));
        r.0 * Power(10, digits - r.1);
      }
    } else {
      assert ns * 1 == ns;
    }
  }

  /** What may follow a time: the end of the value or, inside a date-time, an offset. */
  predicate EndsTime(rest: string, part: bool) {
    EndsValue(rest) || (part && StartsOffset(rest))
  }

  lemma TimeEndsAreNotDigits(rest: string)
    requires rest != "" && EndsTime(rest, true)
    ensures !IsDigit(10, rest[0]) && rest[0] != '.'
  {
  }

  lemma FractionRoundTrip(ns: nat, rest: string, part: bool)
    requires ns < NANOS && EndsTime(rest, part)
    ensures ReadFraction(PrintFraction(ns) + rest, part) == Some((ns, |PrintFraction(ns)|))
  {
    hide Power, Padded, IsDigit, Trim, IsValueTerminator, ValueOf;
    Powers();
    if ns == 0 {
      assert PrintFraction(ns) + rest == rest;
    } else {
      TrimIs(ns, 9);
      var m, k := Trim(ns, 9).0, Trim(ns, 9).1;
      PaddedIs(10, m, k);
      var f := Padded(10, m, k);
      var s := PrintFraction(ns) + rest;
      assert s[1..] == f + rest;
      if rest != "" { TimeEndsAreNotDigits(rest); }
      DigitRunIs(f, rest);
      assert (f + rest)[..k] == f;
      assert s[1 + k..] == rest;
      assert k == 9 ==> f[..9] == f && m * 1 == m;
      PointDoesNotEnd();
    }
  }

  lemma PointDoesNotEnd()
    ensures !IsValueTerminator('.')
  {
  }

  lemma TimeRoundTrip(t: Time, rest: string, part: bool)
    requires ValidTime(t) && EndsTime(rest, part)
    ensures ReadTime(PrintTime(t) + rest, part) == Some((t, |PrintTime(t)|))
  {
    hide Power, Padded, Field, HasDigits, ReadFraction, PrintFraction, EndsTime;
    Powers();
    PaddedIs(10, t.hour, 2);
    PaddedIs(10, t.minute, 2);
    PaddedIs(10, t.second, 2);
    var h, m, sec := Padded(10, t.hour, 2), Padded(10, t.minute, 2), Padded(10, t.second, 2);
    var f := PrintFraction(t.nanosecond);
    var s := PrintTime(t) + rest;
    FieldIs("", t.hour, 2, ":" + m + ":" + sec + f + rest);
    assert "" + h + (":" + m + ":" + sec + f + rest) == s;
    FieldIs(h + ":", t.minute, 2, ":" + sec + f + rest);
    assert h + ":" + m + (":" + sec + f + rest) == s;
    FieldIs(h + ":" + m + ":", t.second, 2, f + rest);
    assert h + ":" + m + ":" + sec + (f + rest) == s;
    assert s[8..] == f + rest;
    FractionRoundTrip(t.nanosecond, rest, part);
  }

  lemma OffsetRoundTrip(minutes: int, rest: string)
    requires ValidOffset(minutes) && EndsValue(rest)
    ensures ReadOffset(PrintOffset(minutes) + rest) == Some((Some(minutes), |PrintOffset(minutes)|))
    ensures StartsOffset(PrintOffset(minutes) + rest)
  {
    hide Padded, EndsValue, ReadOffset;
    if minutes == 0 {
      ReadZulu(rest);
    } else {
      hide PrintOffset, StartsOffset;
      var a: nat := if minutes < 0 then -minutes else minutes;
      SignedOffset(minutes < 0, a / 60, a % 60, rest);
      PrintOffsetIs(minutes, a);
    }
  }

  lemma PrintOffsetIs(minutes: int, a: nat)
    requires minutes != 0 && a == if minutes < 0 then -minutes else minutes
    ensures a == a / 60 * 60 + a % 60
    ensures PrintOffset(minutes) == HoursAndMinutes(minutes < 0, a / 60, a % 60)
  {
    hide Padded;
  }

  function HoursAndMinutes(negative: bool, h: nat, m: nat): string {
    (if negative then "-" else "+") + Padded(10, h, 2) + ":" + Padded(10, m, 2)
  }

  lemma ReadZulu(rest: string)
    requires EndsValue(rest)
    ensures ReadOffset("Z" + rest) == Some((Some(0), 1))
  {
    OffsetsDoNotEnd();
    hide IsValueTerminator;
    assert ("Z" + rest)[1..] == rest;
  }

  lemma SignedOffset(negative: bool, h: nat, m: nat, rest: string)
    requires h <= 23 && m <= 59 && EndsValue(rest)
    ensures var s := HoursAndMinutes(negative, h, m) + rest;
            && StartsOffset(s) && |HoursAndMinutes(negative, h, m)| == 6
            && ReadOffset(s) == Some((Some(if negative then -(h * 60 + m) else h * 60 + m), 6))
  {
    hide Power, Padded, Field, HasDigits, IsValueTerminator;
    Powers();
    OffsetsDoNotEnd();
    PaddedIs(10, h, 2);
    PaddedIs(10, m, 2);
    var sign := if negative then "-" else "+";
    var x, y := Padded(10, h, 2), Padded(10, m, 2);
    var s := HoursAndMinutes(negative, h, m) + rest;
    FieldIs(sign, h, 2, ":" + y + rest);
    assert sign + x + (":" + y + rest) == s;
    FieldIs(sign + x + ":", m, 2, rest);
    assert sign + x + ":" + y + rest == s;
    assert s[6..] == rest;
  }

  lemma OffsetsDoNotEnd()
    ensures forall c :: c in "+-Zz" ==> !IsValueTerminator(c)
  {
  }

  /** Every valid date-time comes back from its printed form. */
  lemma DateTimeRoundTrip(v: DateTime, rest: string)
    requires Valid(v) && EndsValue(rest)
    ensures ReadDateTime(PrintDateTime(v) + rest) == Some((v, |PrintDateTime(v)|))
  {
    hide ReadDate, ReadTime, ReadOffset, PrintDate, PrintTime, PrintOffset, ValidDate, ValidTime;
    var d, t := PrintDate(v.date), PrintTime(v.time);
    var o := match v.offset case None => "" case Some(minutes) => PrintOffset(minutes);
    var s := PrintDateTime(v) + rest;
    assert s == d + ("T" + t + o + rest);
    DateRoundTrip(v.date, "T" + t + o + rest, true);
    assert s[10] == 'T';
    assert s[11..] == t + (o + rest);
    if v.offset.Some? {
      OffsetRoundTrip(v.offset.value, rest);
    } else {
      assert o + rest == rest;
      NoOffset(rest);
    }
    TimeRoundTrip(v.time, o + rest, true);
    assert s[11 + |t|..] == o + rest;
  }

  lemma NoOffset(rest: string)
    requires EndsValue(rest)
    ensures ReadOffset(rest) == Some((None, 0))
  {
  }

  // ----- what is accepted is valid -----

  lemma FieldBound(s: string, i: nat, width: nat)
    requires HasDigits(s, i, width)
    ensures Field(s, i, width) < Power(10, width)
  {
    ValueOfBounds(10, s[i..i + width]);
  }

  lemma NanosecondsBound(digits: string)
    requires AllDigits(10, digits)
    ensures Nanoseconds(digits) < NANOS
  {
    hide ValueOf, Power;
    Powers();
    if |digits| >= 9 {
      ValueOfBounds(10, digits[..9]);
    } else {
      var k := 9 - |digits|;
      ValueOfBounds(10, digits);
      PowerSum(10, |digits|, k);
      MulOrdered(ValueOf(10, digits), Power(10, |digits|) - 1, Power(10, k));
      PowerGrows(10, 0, k);
      assert (Power(10, |digits|) - 1) * Power(10, k) == Power(10, |digits|) * Power(10, k) - Power(10, k);
    }
  }

  lemma AcceptedDateTimeIsValid(s: string)
    ensures match ReadDateTime(s)
            case None => true
            case Some(r) => Valid(r.0) && r.1 <= |s| && EndsValue(s[r.1..])
  {
    hide HasDigits, Field, IsValueTerminator, IsDigit, ReadTime, ReadOffset, ValidTime;
    var r := ReadDateTime(s);
    if r.Some? {
      var rest := s[11..];
      var t := ReadTime(rest, true).value;
      AcceptedTimeIsValid(rest, true);
      assert rest[t.1..] == s[11 + t.1..];
      AcceptedOffsetIsValid(rest[t.1..]);
      var o := ReadOffset(rest[t.1..]).value;
      assert rest[t.1..][o.1..] == s[11 + t.1 + o.1..];
    }
  }

  lemma AcceptedOffsetIsValid(s: string)
    ensures match ReadOffset(s)
            case None => true
            case Some(r) => (r.0.Some? ==> ValidOffset(r.0.value)) && r.1 <= |s| && EndsValue(s[r.1..])
  {
    hide IsValueTerminator, IsDigit, Field;
    assert s[0..] == s;
  }

  lemma AcceptedTimeIsValid(s: string, part: bool)
    ensures match ReadTime(s, part)
            case None => true
            case Some(r) => ValidTime(r.0) && r.1 <= |s| && (part || EndsValue(s[r.1..]))
  {
    hide Field, IsValueTerminator, IsDigit, Nanoseconds;
    var r := ReadTime(s, part);
    if r.Some? {
      var rest := s[8..];
      if r.value.1 > 8 {
        var n := r.value.1 - 9;
        NanosecondsBound(rest[1..][..n]);
        assert rest[1 + n..] == s[r.value.1..];
      }
    }
  }

  /** What is printed comes back exactly when it was valid: the writer prints any fields, and the parser
      takes no others than valid ones. */
  lemma DateTimeRoundTripExactly(v: DateTime, rest: string)
    requires EndsValue(rest)
    ensures ReadDateTime(PrintDateTime(v) + rest) == Some((v, |PrintDateTime(v)|)) <==> Valid(v)
  {
    hide ReadDateTime, PrintDateTime, EndsValue, Valid;
    AcceptedDateTimeIsValid(PrintDateTime(v) + rest);
    if Valid(v) { DateTimeRoundTrip(v, rest); }
  }

  lemma TimeRoundTripExactly(t: Time, rest: string)
    requires EndsValue(rest)
    ensures ReadTime(PrintTime(t) + rest, false) == Some((t, |PrintTime(t)|)) <==> ValidTime(t)
  {
    hide ReadTime, PrintTime, IsValueTerminator, ValidTime;
    AcceptedTimeIsValid(PrintTime(t) + rest, false);
    if ValidTime(t) { TimeRoundTrip(t, rest, false); }
  }

  lemma DateRoundTripExactly(d: Date, rest: string)
    requires EndsValue(rest)
    ensures ReadDate(PrintDate(d) + rest, false) == Some(d) <==> ValidDate(d)
  {
    hide HasDigits, PrintDate, IsValueTerminator;
    if ValidDate(d) { DateRoundTrip(d, rest, false); }
  }

  // ----- the loops of the source -----

  function DigitValues(s: string): (values: seq<nat>)
    requires AllDigits(10, s)
    ensures |values| == |s| && forall i :: 0 <= i < |s| ==> values[i] == HexToDec(s[i])
  {
    seq(|s|, i requires 0 <= i < |s| => HexToDec(s[i]))
  }

  function DigitValue(c: char): (d: nat)
    requires IsDigit(10, c)
    ensures d == HexToDec(c) < 10
  {
    c as int - '0' as int
  }

  lemma OneMoreDigit(text: string, start: nat, i: nat)
    requires start + i < |text| && AllDigits(10, text[start..start + i]) && IsDigit(10, text[start + i])
    ensures AllDigits(10, text[start..start + i + 1])
    ensures DigitValues(text[start..start + i + 1])
            == DigitValues(text[start..start + i]) + [HexToDec(text[start + i])]
  {
    hide HexToDec;
    assert text[start..start + i + 1] == text[start..start + i] + [text[start + i]];
  }

  lemma NoDigits(text: string, start: nat)
    requires start <= |text|
    ensures AllDigits(10, text[start..start]) && DigitValues(text[start..start]) == []
  {
  }

  lemma NotAField(text: string, start: nat, i: nat, len: nat)
    requires i < len && (start + i >= |text| || !IsDigit(10, text[start + i]))
    ensures !HasDigits(text, start, len)
  {
    if start + len <= |text| { assert text[start..start + len][i] == text[start + i]; }
  }

  /** `consume_digit_sequence`: exactly `len` digits from `start`. */
  method ConsumeDigitSequence(c: TextCursor, digits: array<nat>, len: nat, ghost text: string, ghost start: nat)
    returns (ok: bool)
    requires Stands(c, text, start) && 0 < len <= digits.Length && digits !in c.Repr()
    modifies c.Repr(), digits
    ensures c.Valid() && (c.Broken() ==> !ok)
    ensures !c.Broken() ==> (ok <==> HasDigits(text, start, len))
    ensures ok ==> Stands(c, text, start + len) && HasDigits(text, start, len)
    ensures ok ==> digits[..len] == DigitValues(text[start..start + len])
  {
    hide Stands, TextCursor.Valid, TextCursor.Rest, IsDigit, HexToDec, AllDigits, DigitValues;
    ok := false;
    StandsAt(c, text, start);
    NoDigits(text, start);
    for i := 0 to len
      invariant c.Valid() && !c.Broken() && Stands(c, text, start + i) && !ok
      invariant start + i <= |text|
      invariant AllDigits(10, text[start..start + i]) && digits[..i] == DigitValues(text[start..start + i])
    {
      StandsAt(c, text, start + i);
      if c.IsEof() || !IsDigit(10, c.Peek()) {
        NotAField(text, start, i, len);
        return;
      }
      OneMoreDigit(text, start, i);
      digits[i] := DigitValue(c.Peek());
      assert digits[..i + 1] == digits[..i] + [digits[i]];
      var more := Step(c, text, start + i);
      if !more { return; }
      StandsAt(c, text, start + i + 1);
    }
    ok := true;
  }

  lemma TwoDigits(s: string, i: nat)
    requires HasDigits(s, i, 2)
    ensures Field(s, i, 2) == HexToDec(s[i + 1]) + HexToDec(s[i]) * 10
  {
    hide HexToDec;
    var f := s[i..i + 2];
    assert f[0] == s[i] && f[1] == s[i + 1];
    assert f[..1] == [s[i]];
    ValueOfLast(10, [], s[i]);
    ValueOfLast(10, [s[i]], s[i + 1]);
    assert [] + [s[i]] == [s[i]] && [s[i]] + [s[i + 1]] == f;
  }

  lemma FourDigits(s: string, i: nat)
    requires HasDigits(s, i, 4)
    ensures Field(s, i, 4)
            == HexToDec(s[i + 3]) + HexToDec(s[i + 2]) * 10 + HexToDec(s[i + 1]) * 100 + HexToDec(s[i]) * 1000
  {
    hide HexToDec, ValueOf;
    var f := s[i..i + 4];
    assert f[0] == s[i] && f[1] == s[i + 1] && f[2] == s[i + 2] && f[3] == s[i + 3];
    assert s[i..i + 2] == f[..2];
    TwoDigits(s, i);
    ValueOfLast(10, f[..2], f[2]);
    assert f[..2] + [f[2]] == f[..3];
    ValueOfLast(10, f[..3], f[3]);
    assert f[..3] + [f[3]] == f;
  }

  /** Two digits and their value. */
  method ConsumeTwoDigits(c: TextCursor, ghost text: string, ghost start: nat) returns (ok: bool, value: nat)
    requires Stands(c, text, start)
    modifies c.Repr()
    ensures c.Valid() && (c.Broken() ==> !ok)
    ensures !c.Broken() ==> (ok <==> HasDigits(text, start, 2))
    ensures ok ==> Stands(c, text, start + 2) && HasDigits(text, start, 2) && value == Field(text, start, 2)
  {
    hide Stands, TextCursor.Valid, TextCursor.Rest, IsDigit, HexToDec, AllDigits, DigitValues, ValueOf;
    value := 0;
    var digits := new nat[2];
    ok := ConsumeDigitSequence(c, digits, 2, text, start);
    if ok {
      TwoDigits(text, start);
      assert digits[..2][0] == digits[0] && digits[..2][1] == digits[1];
      value := digits[1] + digits[0] * 10;
    }
  }

  /** The expected character, with something behind it. */
  method ConsumeSeparator(c: TextCursor, sep: char, ghost text: string, ghost k: nat) returns (ok: bool)
    requires Stands(c, text, k)
    modifies c.Repr()
    ensures c.Valid() && (c.Broken() ==> !ok)
    ensures !c.Broken() ==> (ok <==> HasChar(text, k, sep) && k + 1 < |text|)
    ensures ok ==> Stands(c, text, k + 1) && HasChar(text, k, sep) && k + 1 < |text|
  {
    hide Stands, TextCursor.Valid, TextCursor.Rest;
    StandsAt(c, text, k);
    if c.IsEof() || c.Peek() != sep { return false; }
    ok := Step(c, text, k);
    if ok {
      StandsAt(c, text, k + 1);
      ok := !c.IsEof();
    }
  }

  method ParseYear(c: TextCursor, ghost text: string) returns (ok: bool, year: nat)
    requires Stands(c, text, 0)
    modifies c.Repr()
    ensures c.Valid() && (c.Broken() ==> !ok)
    ensures !c.Broken() ==> (ok <==> HasDigits(text, 0, 4))
    ensures ok ==> Stands(c, text, 4) && HasDigits(text, 0, 4) && year == Field(text, 0, 4) <= 9999
  {
    hide Stands, TextCursor.Valid, TextCursor.Rest, AllDigits, ValueOf, IsDigit, HexToDec, DigitValues;
    year := 0;
    var digits := new nat[4];
    ok := ConsumeDigitSequence(c, digits, 4, text, 0);
    if ok {
      FourDigits(text, 0);
      assert forall k :: 0 <= k < 4 ==> digits[..4][k] == digits[k];
      year := digits[3] + digits[2] * 10 + digits[1] * 100 + digits[0] * 1000;
      FieldBound(text, 0, 4);
      Powers();
    }
  }

  method ParseDate(c: TextCursor, partOfDateTime: bool) returns (r: Option<Date>)
    requires c.Valid() && !c.Broken()
    modifies c.Repr()
    ensures c.Valid() && (c.Broken() ==> r == None)
    ensures !c.Broken() ==> r == ReadDate(old(c.Rest()), partOfDateTime)
    ensures r.Some? ==> Stands(c, old(c.Rest()), 10)
  {
    hide Stands, TextCursor.Valid, TextCursor.Rest, HasDigits, Field, IsValueTerminator;
    r := None;
    ghost var text := c.Rest();
    StandsHere(c);
    var ok, year, month, day;
    ok, year := ParseYear(c, text);
    if !ok { return; }
    var isLeapYear := year % 4 == 0 && (year % 100 != 0 || year % 400 == 0);
    TooShort(text, 5, 2);
    ok := ConsumeSeparator(c, '-', text, 4);
    if !ok { return; }
    ok, month := ConsumeTwoDigits(c, text, 5);
    if !ok || month == 0 || month > 12 { return; }
    var maxDaysInMonth :=
      if month == 2 then (if isLeapYear then 29 else 28)
      else if month == 4 || month == 6 || month == 9 || month == 11 then 30
      else 31;
    TooShort(text, 8, 2);
    ok := ConsumeSeparator(c, '-', text, 7);
    if !ok { return; }
    ok, day := ConsumeTwoDigits(c, text, 8);
    if !ok || day == 0 || day > maxDaysInMonth { return; }
    StandsAt(c, text, 10);
    if !partOfDateTime && !c.IsEof() && !IsValueTerminator(c.Peek()) { return; }
    r := Some(Date(year, month, day));
  }

  lemma TooShort(s: string, i: nat, width: nat)
    requires width > 0
    ensures HasDigits(s, i, width) ==> i < |s|
  {
  }

  /** `consume_variable_length_digit_sequence`: up to `maxLen` digits. */
  method ConsumeDigits(c: TextCursor, buffer: array<nat>, maxLen: nat, ghost text: string, ghost start: nat)
    returns (count: nat)
    requires Stands(c, text, start) && maxLen <= buffer.Length && buffer !in c.Repr()
    modifies c.Repr(), buffer
    ensures c.Valid()
    ensures !c.Broken() ==>
              var run := DigitRun(text[start..]);
              && count == (if run < maxLen then run else maxLen) && Stands(c, text, start + count)
              && AllDigits(10, text[start..start + count])
              && buffer[..count] == DigitValues(text[start..start + count])
  {
    hide Stands, TextCursor.Valid, TextCursor.Rest, IsDigit, HexToDec, DigitValues, AllDigits, DigitRun;
    count := 0;
    StandsAt(c, text, start);
    NoDigits(text, start);
    while count < maxLen && !c.IsEof() && IsDigit(10, c.Peek())
      invariant c.Valid() && !c.Broken() && Stands(c, text, start + count)
      invariant count <= maxLen && start + count <= |text|
      invariant DigitRun(text[start..]) == count + DigitRun(text[start + count..])
      invariant AllDigits(10, text[start..start + count])
      invariant buffer[..count] == DigitValues(text[start..start + count])
    {
      StandsAt(c, text, start + count);
      OneMoreDigit(text, start, count);
      RunContinues(text, start + count);
      buffer[count] := DigitValue(c.Peek());
      assert buffer[..count + 1] == buffer[..count] + [buffer[count]];
      var ok := Step(c, text, start + count);
      if !ok { return; }
      StandsAt(c, text, start + count + 1);
      count := count + 1;
    }
    StandsAt(c, text, start + count);
    RunEnds(text, start + count);
  }

  lemma RunContinues(text: string, at: nat)
    requires at < |text| && IsDigit(10, text[at])
    ensures DigitRun(text[at..]) == 1 + DigitRun(text[at + 1..])
  {
    hide IsDigit;
    assert text[at..][1..] == text[at + 1..];
  }

  lemma RunEnds(text: string, at: nat)
    requires at <= |text|
    ensures at == |text| || !IsDigit(10, text[at]) ==> DigitRun(text[at..]) == 0
  {
    hide IsDigit;
  }

  /** Least significant digit first, in 32-bit arithmetic that never wraps. */
  method SumDigits(ghost text: string, digits: array<nat>, used: nat) returns (value: nat)
    requires used == |text| <= 9 && used <= digits.Length && AllDigits(10, text)
    requires digits[..used] == DigitValues(text)
    ensures value == ValueOf(10, text)
  {
    hide ValueOf, Power, HexToDec, IsDigit, DigitValues;
    value := 0;
    var place := 1;
    var i := used;
    EmptyValue(text[used..]);
    while i > 0
      invariant 0 <= i <= used
      invariant AllDigits(10, text[i..])
      invariant value == ValueOf(10, text[i..]) && place == Power(10, used - i)
    {
      i := i - 1;
      PlaceFits(text, i);
      assert text[i..][1..] == text[i + 1..];
      assert digits[..used][i] == digits[i];
      value := (value + digits[i] * place % U32) % U32;
      place := place * 10 % U32;
    }
    assert text[0..] == text;
  }

  /** The first nine digits as nanoseconds; missing digits are zeros. */
  method Scale(ghost text: string, digits: array<nat>, count: nat) returns (value: nat)
    requires count == |text| <= digits.Length && AllDigits(10, text)
    requires digits[..count] == DigitValues(text)
    ensures value == Nanoseconds(text) < NANOS
  {
    hide ValueOf, Power, HexToDec, IsDigit, Nanoseconds;
    var used := if count < 9 then count else 9;
    ghost var first := text[..used];
    assert digits[..used] == digits[..count][..used];
    value := SumDigits(first, digits, used);
    ghost var v := value;
    ValueOfBounds(10, first);
    EmptyValue("");
    var i := count;
    while i < 9
      invariant count <= i && (count <= 9 ==> i <= 9)
      invariant count > 9 ==> value == v
      invariant count <= 9 ==> value == v * Power(10, i - count) < Power(10, i)
    {
      PlaceGrows(v, i - count, i);
      value := value * 10 % U32;
      i := i + 1;
    }
    assert count <= 9 ==> first == text;
    NanosecondsAre(text);
    NanosecondsBound(text);
  }

  lemma EmptyValue(s: string)
    requires s == []
    ensures AllDigits(10, s) && ValueOf(10, s) == 0 && Power(10, 0) == 1
  {
  }

  lemma NanosecondsAre(digits: string)
    requires AllDigits(10, digits)
    ensures Nanoseconds(digits) == if |digits| < 9 then ValueOf(10, digits) * Power(10, 9 - |digits|)
                                   else ValueOf(10, digits[..9])
  {
  }

  lemma PlaceFits(s: string, i: nat)
    requires i < |s| <= 9 && AllDigits(10, s)
    ensures var d, place, v := HexToDec(s[i]), Power(10, |s| - i - 1), ValueOf(10, s[i + 1..]);
            && ValueOf(10, s[i..]) == (v + d * place % U32) % U32
            && place * 10 % U32 == Power(10, |s| - i)
  {
    hide ValueOf, HexToDec, IsHexDigit;
    var t := s[i..];
    assert t[1..] == s[i + 1..] && t[0] == s[i];
    ValueOfFirst(10, t);
    ValueOfBounds(10, t);
    Powers();
    PowerGrows(10, |t|, 9);
    assert HexToDec(t[0]) * Power(10, |t| - 1) >= 0;
  }

  lemma PlaceGrows(v: nat, k: nat, i: nat)
    requires i < 9 && v * Power(10, k) < Power(10, i)
    ensures v * Power(10, k) * 10 % U32 == v * Power(10, k + 1) < Power(10, i + 1)
  {
    Powers();
    PowerGrows(10, i + 1, 9);
    assert v * Power(10, k + 1) == v * Power(10, k) * 10;
  }

  method ParseFraction(c: TextCursor, partOfDateTime: bool) returns (r: Option<nat>)
    requires c.Valid() && !c.Broken()
    modifies c.Repr()
    ensures c.Valid() && (c.Broken() ==> r == None)
    ensures !c.Broken() ==>
              match ReadFraction(old(c.Rest()), partOfDateTime)
              case None => r == None
              case Some(f) => r == Some(f.0) && Stands(c, old(c.Rest()), f.1)
  {
    hide Stands, TextCursor.Valid, TextCursor.Rest, IsDigit, IsValueTerminator, Nanoseconds, DigitRun, ReadFraction;
    r := None;
    ghost var s := c.Rest();
    StandsHere(c);
    StandsAt(c, s, 0);
    FractionIs(s, partOfDateTime);
    if c.IsEof() || IsValueTerminator(c.Peek())
       || (partOfDateTime && (c.Peek() == '+' || c.Peek() == '-' || c.Peek() == 'Z' || c.Peek() == 'z')) {
      return Some(0);
    }
    if c.Peek() != '.' { return; }
    var ok := Step(c, s, 0);
    if !ok { return; }
    StandsAt(c, s, 1);
    if c.IsEof() {
      RunEnds(s, 1);
      return;
    }
    r := ParseFractionDigits(c, partOfDateTime, s);
  }

  /** What follows the point. */
  method ParseFractionDigits(c: TextCursor, partOfDateTime: bool, ghost s: string) returns (r: Option<nat>)
    requires Stands(c, s, 1) && 1 < |s|
    modifies c.Repr()
    ensures c.Valid() && (c.Broken() ==> r == None)
    ensures !c.Broken() ==>
              var n := DigitRun(s[1..]);
              if n == 0 || n > MAX_FRACTION_DIGITS || !(partOfDateTime || EndsValue(s[1 + n..])) then r == None
              else r == Some(Nanoseconds(s[1..][..n])) && Stands(c, s, 1 + n)
  {
    hide Stands, TextCursor.Valid, TextCursor.Rest, IsDigit, IsValueTerminator, Nanoseconds, DigitRun, AllDigits;
    r := None;
    var digits := new nat[MAX_FRACTION_DIGITS];
    var digitCount := ConsumeDigits(c, digits, MAX_FRACTION_DIGITS, s, 1);
    if c.Broken() || digitCount == 0 { return; }
    StandsAt(c, s, 1 + digitCount);
    FractionSlices(s, digitCount);
    if !c.IsEof() {
      if digitCount == MAX_FRACTION_DIGITS && IsDigit(10, c.Peek()) {
        RunGoesOn(s[1..], digitCount);
        return;
      } else if !partOfDateTime && !IsValueTerminator(c.Peek()) {
        RunStopsHere(s[1..], digitCount);
        return;
      }
    }
    RunStopsHere(s[1..], digitCount);
    var value := Scale(s[1..1 + digitCount], digits, digitCount);
    return Some(value);
  }

  /** The fraction, case by case. */
  lemma FractionIs(s: string, part: bool)
    ensures EndsTime(s, part) ==> ReadFraction(s, part) == Some((0, 0))
    ensures !EndsTime(s, part) && s[0] != '.' ==> ReadFraction(s, part) == None
    ensures !EndsTime(s, part) && s[0] == '.' ==>
              var n := DigitRun(s[1..]);
              ReadFraction(s, part)
              == if n == 0 || n > MAX_FRACTION_DIGITS || !(part || EndsValue(s[1 + n..])) then None
                 else Some((Nanoseconds(s[1..][..n]), 1 + n))
  {
    hide Nanoseconds, DigitRun, IsValueTerminator;
  }

  lemma FractionSlices(s: string, n: nat)
    requires 1 + n <= |s|
    ensures s[1..][..n] == s[1..1 + n] && |s[1..]| == |s| - 1
    ensures 1 + n < |s| ==> s[1..][n] == s[1 + n] == s[1 + n..][0]
  {
  }

  lemma RunGoesOn(s: string, n: nat)
    requires n <= DigitRun(s) && n < |s| && IsDigit(10, s[n])
    ensures n < DigitRun(s)
  {
  }

  lemma RunStopsHere(s: string, n: nat)
    requires n <= DigitRun(s) && (n == |s| || !IsDigit(10, s[n]) || n == DigitRun(s))
    ensures n == DigitRun(s)
  {
    var run := DigitRun(s);
    assert forall i :: 0 <= i < run ==> s[..run][i] == s[i];
  }

  method ParseTime(c: TextCursor, partOfDateTime: bool) returns (r: Option<Time>)
    requires c.Valid() && !c.Broken()
    modifies c.Repr()
    ensures c.Valid() && (c.Broken() ==> r == None)
    ensures !c.Broken() ==>
              match ReadTime(old(c.Rest()), partOfDateTime)
              case None => r == None
              case Some(t) => r == Some(t.0) && Stands(c, old(c.Rest()), t.1)
  {
    hide Stands, TextCursor.Valid, TextCursor.Rest, HasDigits, Field, ReadFraction;
    r := None;
    ghost var text := c.Rest();
    StandsHere(c);
    var ok, hour, minute, second, fraction;
    ok, hour := ConsumeTwoDigits(c, text, 0);
    if !ok || hour > 23 { return; }
    TooShort(text, 3, 2);
    ok := ConsumeSeparator(c, ':', text, 2);
    if !ok { return; }
    ok, minute := ConsumeTwoDigits(c, text, 3);
    if !ok || minute > 59 { return; }
    TooShort(text, 6, 2);
    ok := ConsumeSeparator(c, ':', text, 5);
    if !ok { return; }
    ok, second := ConsumeTwoDigits(c, text, 6);
    if !ok || second > 59 { return; }
    StandsAt(c, text, 8);
    fraction := ParseFraction(c, partOfDateTime);
    if fraction.Some? {
      r := Some(Time(hour, minute, second, fraction.value));
      StandsBehind(c, text, 8, ReadFraction(text[8..], partOfDateTime).value.1);
    }
  }

  /** The offset of a date-time, and the end of the value behind it. */
  method ParseOffset(c: TextCursor) returns (ok: bool, offset: Option<int>)
    requires c.Valid() && !c.Broken()
    modifies c.Repr()
    ensures c.Valid() && (c.Broken() ==> !ok)
    ensures !c.Broken() ==>
              match ReadOffset(old(c.Rest()))
              case None => !ok
              case Some(o) => ok && offset == o.0 && Stands(c, old(c.Rest()), o.1)
  {
    hide Stands, TextCursor.Valid, TextCursor.Rest, HasDigits, Field, IsValueTerminator;
    ok, offset := false, None;
    ghost var s := c.Rest();
    StandsHere(c);
    StandsAt(c, s, 0);
    if c.IsEof() || IsValueTerminator(c.Peek()) {
      return true, None;
    }
    if c.Peek() == 'Z' || c.Peek() == 'z' {
      ok := Step(c, s, 0);
      if !ok { return; }
      StandsAt(c, s, 1);
      offset := Some(0);
    } else if c.Peek() == '+' || c.Peek() == '-' {
      ok, offset := ParseSignedOffset(c, s);
      if !ok { return; }
      StandsAt(c, s, 6);
    }
    ok := c.IsEof() || IsValueTerminator(c.Peek());
  }

  method ParseSignedOffset(c: TextCursor, ghost s: string) returns (ok: bool, offset: Option<int>)
    requires Stands(c, s, 0) && s != "" && (s[0] == '+' || s[0] == '-')
    modifies c.Repr()
    ensures c.Valid() && (c.Broken() ==> !ok)
    ensures !c.Broken() ==>
              (ok <==> && HasDigits(s, 1, 2) && HasChar(s, 3, ':') && HasDigits(s, 4, 2)
                       && Field(s, 1, 2) <= 23 && Field(s, 4, 2) <= 59)
    ensures ok ==> Stands(c, s, 6) && HasDigits(s, 1, 2) && HasDigits(s, 4, 2)
    ensures ok ==> var minutes: int := Field(s, 1, 2) * 60 + Field(s, 4, 2);
                   offset == Some(if s[0] == '-' then -minutes else minutes)
  {
    hide Stands, TextCursor.Valid, TextCursor.Rest, HasDigits, Field;
    offset := None;
    StandsAt(c, s, 0);
    var sign: int := if c.Peek() == '-' then -1 else 1;
    var hour, minute;
    TooShort(s, 1, 2);
    TooShort(s, 4, 2);
    ok := Step(c, s, 0);
    if !ok { return; }
    StandsAt(c, s, 1);
    if c.IsEof() { return false, None; }
    ok, hour := ConsumeTwoDigits(c, s, 1);
    if !ok || hour > 23 { return false, None; }
    ok := ConsumeSeparator(c, ':', s, 3);
    if !ok { return; }
    ok, minute := ConsumeTwoDigits(c, s, 4);
    if !ok || minute > 59 { return false, None; }
    offset := Some((hour * 60 + minute) * sign);
  }

  /** A stand behind a part of the text is one in the whole. */
  lemma StandsBehind(c: TextCursor, text: string, k: nat, n: nat)
    requires k <= |text| && Stands(c, text[k..], n)
    ensures Stands(c, text, k + n)
  {
    hide TextCursor.Valid, TextCursor.Rest;
  }

  method ParseDateTime(c: TextCursor) returns (r: Option<DateTime>)
    requires c.Valid() && !c.Broken()
    modifies c.Repr()
    ensures c.Valid() && (c.Broken() ==> r == None)
    ensures !c.Broken() ==>
              match ReadDateTime(old(c.Rest()))
              case None => r == None
              case Some(v) => r == Some(v.0) && Stands(c, old(c.Rest()), v.1)
  {
    hide Stands, TextCursor.Valid, TextCursor.Rest, ReadDate, ReadTime, ReadOffset;
    r := None;
    ghost var text := c.Rest();
    var time, ok, offset;
    var date := ParseDate(c, true);
    if date.None? { return; }
    StandsAt(c, text, 10);
    if c.IsEof() { return; }
    if c.Peek() != ' ' && c.Peek() != 'T' && c.Peek() != 't' { return; }
    ok := Step(c, text, 10);
    if !ok { return; }
    StandsAt(c, text, 11);
    if c.IsEof() {
      NoTime(text[11..]);
      return;
    }
    time := ParseTime(c, true);
    if time.None? { return; }
    ghost var n := 11 + ReadTime(text[11..], true).value.1;
    StandsBehind(c, text, 11, n - 11);
    StandsAt(c, text, n);
    ok, offset := ParseOffset(c);
    if ok {
      r := Some(DateTime(date.value, time.value, offset));
      StandsBehind(c, text, n, ReadOffset(text[n..]).value.1);
    }
  }

  lemma NoTime(s: string)
    requires s == []
    ensures ReadTime(s, true) == None
  {
  }

  /** `print_to_stream` of an unsigned integer with a minimum number of digits. */
  method PrintPadded(val: nat, minDigits: nat) returns (stream: string)
    requires minDigits > 0
    ensures stream == Padded(10, val, minDigits)
  {
    stream := "";
    if val == 0 {
      for i := 0 to minDigits
        invariant stream == Zeros(i)
      {
        stream := stream + "0";
      }
      assert Zeros(minDigits) == Zeros(minDigits - 1) + "0";
      return;
    }
    var buf := Numeral(10, val);
    for i := |buf| to if |buf| < minDigits then minDigits else |buf|
      invariant stream == Zeros(i - |buf|)
    {
      stream := stream + "0";
    }
    stream := stream + buf;
    assert "" + buf == buf;
  }

  method PrintTimeTo(t: Time) returns (stream: string)
    ensures stream == PrintTime(t)
  {
    hide Padded, Power;
    var h := PrintPadded(t.hour, 2);
    var m := PrintPadded(t.minute, 2);
    var s := PrintPadded(t.second, 2);
    stream := h + ":" + m + ":" + s;
    if t.nanosecond != 0 && t.nanosecond < NANOS {
      Powers();
      TrimIs(t.nanosecond, 9);
      var ns: nat, digits: nat := t.nanosecond, 9;
      while ns % 10 == 0
        invariant 0 < ns < Power(10, digits) && digits <= 9
        invariant Trim(ns, digits) == Trim(t.nanosecond, 9)
        decreases digits
      {
        DropZero(ns, digits);
        ns, digits := ns / 10, digits - 1;
      }
      assert digits > 0 by { TrimIs(ns, digits); }
      var f := PrintPadded(ns, digits);
      assert h + ":" + m + ":" + s + ("." + f) == stream + "." + f;
      stream := stream + "." + f;
    } else {
      assert stream + "" == stream;
    }
  }

  lemma DropZero(ns: nat, digits: nat)
    requires 0 < ns < Power(10, digits) && ns % 10 == 0
    ensures digits > 0 && 0 < ns / 10 < Power(10, digits - 1)
    ensures Trim(ns, digits) == Trim(ns / 10, digits - 1)
  {
  }

  method PrintOffsetTo(minutes: int) returns (stream: string)
    ensures stream == PrintOffset(minutes)
  {
    hide Padded;
    if minutes == 0 {
      return "Z";
    }
    var mins: nat := if minutes < 0 then -minutes else minutes;
    stream := if minutes < 0 then "-" else "+";
    var hours := mins / 60;
    var h, m;
    if hours != 0 {
      h := PrintPadded(hours, 2);
      mins := mins - hours * 60;
    } else {
      h := PrintPadded(0, 2);
    }
    m := PrintPadded(mins, 2);
    stream := stream + h + ":" + m;
  }

  method PrintDateTo(d: Date) returns (stream: string)
    ensures stream == PrintDate(d)
  {
    hide Padded;
    var year := PrintPadded(d.year, 4);
    var month := PrintPadded(d.month, 2);
    var day := PrintPadded(d.day, 2);
    stream := year + "-" + month + "-" + day;
  }

  method PrintDateTimeTo(v: DateTime) returns (stream: string)
    ensures stream == PrintDateTime(v)
  {
    hide PrintDate, PrintTime, PrintOffset;
    var d := PrintDateTo(v.date);
    var t := PrintTimeTo(v.time);
    stream := d + "T" + t;
    if v.offset.Some? {
      var o := PrintOffsetTo(v.offset.value);
      stream := stream + o;
    } else {
      assert stream + "" == stream;
    }
  }
}
