/** Numerals in bases up to sixteen, and the character classes the value parsers share. */
module TomlNumerals {

  /** Upper-case digits, as the writer prints them. */
  function DigitChar(d: nat): char
    requires d < 16
  {
    if d < 10 then ('0' as int + d) as char else ('A' as int + d - 10) as char
  }

  predicate IsHexDigit(c: char) {
    '0' <= c <= '9' || 'A' <= c <= 'F' || 'a' <= c <= 'f'
  }

  function HexToDec(c: char): (d: nat)
    requires IsHexDigit(c)
    ensures d < 16
  {
    if c <= '9' then c as int - '0' as int
    else if c <= 'F' then c as int - 'A' as int + 10
    else c as int - 'a' as int + 10
  }

  predicate IsDigit(base: nat, c: char) {
    IsHexDigit(c) && HexToDec(c) < base
  }

  predicate AllDigits(base: nat, s: string) {
    forall i :: 0 <= i < |s| ==> IsDigit(base, s[i])
  }

  /** What a string of digits means. */
  function ValueOf(base: nat, s: string): nat
    requires AllDigits(base, s)
  {
    if s == [] then 0 else ValueOf(base, s[..|s| - 1]) * base + HexToDec(s[|s| - 1])
  }

  /** The shortest numeral. */
  function Numeral(base: nat, n: nat): string
    requires 2 <= base <= 16
  {
    if n < base then [DigitChar(n)] else Numeral(base, n / base) + [DigitChar(n % base)]
  }

  function Power(base: nat, n: nat): nat {
    if n == 0 then 1 else base * Power(base, n - 1)
  }

  lemma DigitCharIsDigit(base: nat, d: nat)
    requires d < base <= 16
    ensures IsDigit(base, DigitChar(d)) && HexToDec(DigitChar(d)) == d
  {
  }

  lemma ValueOfLast(base: nat, s: string, c: char)
    requires AllDigits(base, s) && IsDigit(base, c)
    ensures AllDigits(base, s + [c]) && ValueOf(base, s + [c]) == ValueOf(base, s) * base + HexToDec(c)
  {
    hide HexToDec;
    assert (s + [c])[..|s|] == s;
  }

  lemma {:induction false} NumeralRoundTrip(base: nat, n: nat)
    requires 2 <= base <= 16
    ensures var s := Numeral(base, n);
            s != [] && AllDigits(base, s) && ValueOf(base, s) == n && (s[0] == '0' <==> n == 0)
    decreases n
  {
    if n < base {
      OneDigit(base, n);
    } else {
      hide *;
      QuotientAndRemainder(n, base);
      var q, r := n / base, n % base;
      NumeralSplits(base, n);
      NumeralRoundTrip(base, q);
      DigitCharIsDigit(base, r);
      ValueOfLast(base, Numeral(base, q), DigitChar(r));
    }
  }

  lemma OneDigit(base: nat, d: nat)
    requires d < base && 2 <= base <= 16
    ensures var s := Numeral(base, d);
            s == [DigitChar(d)] && AllDigits(base, s) && ValueOf(base, s) == d && (s[0] == '0' <==> d == 0)
  {
    DigitCharIsDigit(base, d);
    ValueOfLast(base, [], DigitChar(d));
    assert [] + [DigitChar(d)] == [DigitChar(d)];
  }

  lemma NumeralSplits(base: nat, n: nat)
    requires 2 <= base <= 16 && base <= n && 0 <= n % base < base
    ensures Numeral(base, n) == Numeral(base, n / base) + [DigitChar(n % base)]
  {
  }

  lemma QuotientAndRemainder(n: nat, base: nat)
    requires 2 <= base <= n
    ensures 0 < n / base < n && 0 <= n % base < base
    ensures n / base * base + n % base == n
  {
  }

  lemma {:induction false} PowerGrows(base: nat, m: nat, n: nat)
    requires base >= 1 && m <= n
    ensures 1 <= Power(base, m) <= Power(base, n)
    decreases n
  {
    if n > 0 {
      if m == n {
        PowerGrows(base, m - 1, n - 1);
      } else {
        PowerGrows(base, m, n - 1);
      }
      assert base * Power(base, n - 1) >= Power(base, n - 1);
    }
  }

  /** A numeral's value read from its first digit. */
  lemma {:induction false} ValueOfFirst(base: nat, s: string)
    requires AllDigits(base, s) && s != []
    ensures ValueOf(base, s) == HexToDec(s[0]) * Power(base, |s| - 1) + ValueOf(base, s[1..])
  {
    hide *;
    DigitsInside(base, s);
    var n := |s|;
    if n == 1 {
      OneDigitValue(base, s);
    } else {
      var front := s[..n - 1];
      ValueOfFirst(base, front);
      assert front + [s[n - 1]] == s && front[1..] + [s[n - 1]] == s[1..];
      ValueOfLast(base, front, s[n - 1]);
      ValueOfLast(base, front[1..], s[n - 1]);
      PowerNext(base, n - 1);
      Regroup(HexToDec(s[0]), Power(base, n - 2), ValueOf(base, front[1..]), base);
    }
  }

  lemma DigitsInside(base: nat, s: string)
    requires AllDigits(base, s) && s != []
    ensures IsHexDigit(s[0]) && IsHexDigit(s[|s| - 1]) && IsDigit(base, s[|s| - 1]) && AllDigits(base, s[1..])
    ensures AllDigits(base, s[..|s| - 1]) && (|s| > 1 ==> AllDigits(base, s[..|s| - 1][1..]))
  {
    hide HexToDec;
  }

  lemma OneDigitValue(base: nat, s: string)
    requires AllDigits(base, s) && |s| == 1
    ensures IsHexDigit(s[0]) && AllDigits(base, s[1..])
    ensures ValueOf(base, s) == HexToDec(s[0]) == HexToDec(s[0]) * Power(base, 0) + ValueOf(base, s[1..])
  {
    assert s[..0] == [];
  }

  lemma PowerNext(base: nat, n: nat)
    requires n > 0
    ensures Power(base, n) == base * Power(base, n - 1)
  {
  }

  lemma Regroup(d: nat, p: nat, rest: nat, base: nat)
    ensures (d * p + rest) * base == d * (base * p) + rest * base
  {
    assert d * p * base == d * (base * p);
  }

  lemma {:induction false} ValueOfBounds(base: nat, s: string)
    requires AllDigits(base, s) && base >= 1
    ensures ValueOf(base, s) < Power(base, |s|)
    ensures s != [] && s[0] != '0' ==> Power(base, |s| - 1) <= ValueOf(base, s)
    decreases |s|
  {
    if s != [] {
      ValueOfBounds(base, s[1..]);
      ValueOfFirst(base, s);
      PowerNext(base, |s|);
      assert IsDigit(base, s[0]);
      hide ValueOf, Power, AllDigits;
      BoundStep(base, HexToDec(s[0]), Power(base, |s| - 1), ValueOf(base, s[1..]));
    }
  }

  lemma BoundStep(base: nat, d: nat, p: nat, v: nat)
    requires d < base && v < p
    ensures d * p + v < base * p
    ensures d > 0 ==> p <= d * p + v
  {
    MulOrdered(d, base - 1, p);
    assert (base - 1) * p == base * p - p;
    if d > 0 { MulOrdered(1, d, p); }
  }

  lemma {:induction false} PowerSum(base: nat, m: nat, n: nat)
    ensures Power(base, m + n) == Power(base, m) * Power(base, n)
    decreases m
  {
    if m > 0 {
      PowerSum(base, m - 1, n);
      PowerNext(base, m);
      PowerNext(base, m + n);
      hide Power;
      MulAssociates(base, Power(base, m - 1), Power(base, n));
    } else {
      assert 1 * Power(base, n) == Power(base, n);
    }
  }

  lemma MulAssociates(a: nat, b: nat, c: nat)
    ensures a * b * c == a * (b * c)
  {
  }

  lemma MulOrdered(a: nat, b: nat, p: nat)
    requires a <= b
    ensures a * p <= b * p
  {
  }

  /** The longest run of digits at the start. */
  function DigitRun(s: string): (n: nat)
    ensures n <= |s| && AllDigits(10, s[..n]) && (n < |s| ==> !IsDigit(10, s[n]))
  {
    if s == [] || !IsDigit(10, s[0]) then 0
    else
      var n := DigitRun(s[1..]);
      assert s[..n + 1] == [s[0]] + s[1..][..n];
      n + 1
  }

  lemma {:induction false} DigitRunIs(s: string, rest: string)
    requires AllDigits(10, s) && (rest == "" || !IsDigit(10, rest[0]))
    ensures DigitRun(s + rest) == |s|
  {
    if s == "" {
      assert s + rest == rest;
    } else {
      assert (s + rest)[1..] == s[1..] + rest;
      DigitRunIs(s[1..], rest);
    }
  }

  // ----- padding -----

  function Zeros(n: nat): string { seq(n, _ => '0') }

  /** `print_integer_to_stream` with a minimum number of digits. */
  function Padded(base: nat, n: nat, width: nat): string
    requires width > 0 && 2 <= base <= 16
  {
    var s := Numeral(base, n);
    if |s| < width then Zeros(width - |s|) + s else s
  }

  lemma {:induction false} ZerosInFront(base: nat, n: nat, s: string)
    requires base > 0 && AllDigits(base, s)
    ensures AllDigits(base, Zeros(n) + s) && ValueOf(base, Zeros(n) + s) == ValueOf(base, s)
  {
    if n == 0 {
      assert Zeros(0) + s == s;
    } else {
      ZerosInFront(base, n - 1, s);
      var t := Zeros(n) + s;
      assert t[1..] == Zeros(n - 1) + s;
      assert t[0] == '0';
      ValueOfFirst(base, t);
    }
  }

  lemma PaddedIs(base: nat, n: nat, width: nat)
    requires width > 0 && 2 <= base <= 16 && n < Power(base, width)
    ensures var s := Padded(base, n, width);
            |s| == width && AllDigits(base, s) && ValueOf(base, s) == n
  {
    hide Numeral, ValueOf, Power;
    var s := Numeral(base, n);
    NumeralRoundTrip(base, n);
    ZerosInFront(base, if |s| < width then width - |s| else 0, s);
    if |s| > width {
      if n == 0 {
        OneDigit(base, 0);
      } else {
        ValueOfBounds(base, s);
        PowerGrows(base, width, |s| - 1);
      }
    }
  }

  predicate IsHorizontalWhitespace(c: char) {
    || c == '\t' || c == ' ' || c == '\U{A0}' || c == '\U{1680}' || c == '\U{180E}'
    || '\U{2000}' <= c <= '\U{200B}' || c == '\U{202F}' || '\U{205F}' <= c <= '\U{2060}'
    || c == '\U{3000}' || c == '\U{FEFF}'
  }

  predicate IsVerticalWhitespace(c: char) {
    '\n' <= c <= '\r' || c == '\U{85}' || '\U{2028}' <= c <= '\U{2029}'
  }

  /** What may directly follow a value. */
  predicate IsValueTerminator(c: char) {
    IsHorizontalWhitespace(c) || IsVerticalWhitespace(c) || c == ']' || c == '}' || c == ',' || c == '#'
  }

  /** Where the current value's text ends. */
  function ValueLength(s: string): (n: nat)
    ensures n <= |s| && (n < |s| ==> IsValueTerminator(s[n]))
    ensures forall i :: 0 <= i < n ==> !IsValueTerminator(s[i])
  {
    if s == [] || IsValueTerminator(s[0]) then 0 else 1 + ValueLength(s[1..])
  }

  predicate EndsValue(rest: string) {
    rest == [] || IsValueTerminator(rest[0])
  }

  lemma {:induction false} ValueLengthIs(s: string, rest: string)
    requires forall i :: 0 <= i < |s| ==> !IsValueTerminator(s[i])
    requires EndsValue(rest)
    ensures ValueLength(s + rest) == |s|
  {
    if s == [] {
      assert s + rest == rest;
    } else {
      assert (s + rest)[1..] == s[1..] + rest;
      ValueLengthIs(s[1..], rest);
    }
  }
}
