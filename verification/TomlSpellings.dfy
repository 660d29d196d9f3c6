/**
  All the ways an integer may be spelled, most of which the formatter never uses: either case of letter
  digits, underscores between digits, leading zeros behind a prefix, a plus sign.
 */
module TomlSpellings {

  import opened Options
  import opened TomlNumerals
  import opened TomlInteger

  // ----- digits -----

  /** The digits of each base, by themselves. */
  function DigitsIn(base: nat): (digits: string)
    requires IsBase(base)
    ensures |digits| == base
  {
    match base
    case 2 => "01"
    case 8 => "01234567"
    case 10 => "0123456789"
    case _ => "0123456789ABCDEF"
  }

  /** The same letter, in either case. */
  predicate EitherCase(c: char, capital: char) {
    c == capital || ('A' <= capital <= 'Z' && c as int == capital as int + 32)
  }

  lemma DigitIs(base: nat, c: char, d: nat)
    requires IsBase(base) && d < base
    ensures EitherCase(c, DigitsIn(base)[d]) <==> IsDigit(base, c) && HexToDec(c) == d
  {
  }

  /** Exactly those characters are digits of the base, and each has its place as its value. */
  lemma DigitsAre(base: nat, c: char)
    requires IsBase(base)
    ensures IsDigit(base, c) <==> exists d :: 0 <= d < base && EitherCase(c, DigitsIn(base)[d])
    ensures forall d :: 0 <= d < base && EitherCase(c, DigitsIn(base)[d]) ==> IsDigit(base, c) && HexToDec(c) == d
  {
    forall d | 0 <= d < base
      ensures EitherCase(c, DigitsIn(base)[d]) <==> IsDigit(base, c) && HexToDec(c) == d
    {
      DigitIs(base, c, d);
    }
    if IsDigit(base, c) {
      assert EitherCase(c, DigitsIn(base)[HexToDec(c)]);
    }
  }

  // ----- numerals -----

  /** What the digits stand for, each in its place. */
  function Total(base: nat, ds: seq<nat>): nat {
    if ds == [] then 0 else Total(base, ds[..|ds| - 1]) * base + ds[|ds| - 1]
  }

  /** The text spells those digits: one character for each, in either case, with or without an underscore
      between two of them. */
  ghost predicate Spells(base: nat, s: string, ds: seq<nat>)
    requires IsBase(base)
    decreases |s|
  {
    && s != "" && ds != []
    && var front, d := s[..|s| - 1], ds[|ds| - 1];
    && d < base && EitherCase(s[|s| - 1], DigitsIn(base)[d])
    && if |ds| == 1 then front == ""
       else
         || Spells(base, front, ds[..|ds| - 1])
         || (front != "" && front[|front| - 1] == '_' && Spells(base, front[..|front| - 1], ds[..|ds| - 1]))
  }

  /** What the scanner collects of such a text. */
  ghost predicate Collects(base: nat, s: string, ds: seq<nat>)
    requires IsBase(base)
  {
    && Body(base, s, s) && ds != []
    && var digits := Strip(s);
    && |digits| == |ds| && AllDigits(base, digits) && ValueOf(base, digits) == Total(base, ds)
    && (digits[0] == '0' <==> ds[0] == 0)
  }

  lemma {:induction false} SpelledIsCollected(base: nat, s: string, ds: seq<nat>)
    requires IsBase(base) && Spells(base, s, ds)
    ensures Collects(base, s, ds)
    decreases |s|
  {
    hide Spaced, IsDigit, EitherCase, ValueOf, Total, HexToDec, DigitsIn;
    var front, c, init, d := s[..|s| - 1], s[|s| - 1], ds[..|ds| - 1], ds[|ds| - 1];
    DigitsAre(base, c);
    assert front + [c] == s && init + [d] == ds;
    if |ds| == 1 {
      OneCollected(base, c, d);
    } else if Spells(base, front, init) {
      SpelledIsCollected(base, front, init);
      MoreCollected(base, front, init, c, d);
    } else {
      var shorter := front[..|front| - 1];
      assert shorter + "_" == front;
      SpelledIsCollected(base, shorter, init);
      GapCollected(base, shorter, init);
      MoreCollected(base, front, init, c, d);
    }
  }

  /** Looking back only ever reaches what is already passed. */
  lemma {:induction false} SpacedAlike(base: nat, s: string, u: string, v: string)
    requires |s| <= |u| && |s| <= |v| && forall i :: 0 <= i < |s| ==> u[i] == v[i]
    ensures Spaced(base, s, u) == Spaced(base, s, v)
    decreases |s|
  {
    hide IsDigit;
    if s != "" { SpacedAlike(base, s[..|s| - 1], u, v); }
  }

  lemma NotUnderscore(base: nat)
    ensures !IsDigit(base, '_')
  {
  }

  /** One more character, which sees what stands in front of it. */
  lemma SpacedMore(base: nat, front: string, c: char)
    ensures Spaced(base, front + [c], front + [c]) <==>
              && Spaced(base, front, front)
              && if c == '_' then front != "" && IsDigit(base, front[|front| - 1]) else IsDigit(base, c)
    ensures Strip(front + [c]) == Strip(front) + if c == '_' then "" else [c]
  {
    hide IsDigit;
    var s := front + [c];
    assert s[..|s| - 1] == front;
    SpacedAlike(base, front, front, s);
  }

  lemma OneCollected(base: nat, c: char, d: nat)
    requires IsBase(base) && IsDigit(base, c) && HexToDec(c) == d
    ensures Collects(base, [c], [d])
  {
    hide IsDigit, HexToDec, Spaced, Strip;
    NotUnderscore(base);
    SpacedMore(base, "", c);
    assert "" + [c] == [c];
    assert Spaced(base, "", "") && Strip("") == "" by { NothingSpaced(base); }
    OneDigitValue(base, [c]);
    assert [d][..0] == [] && Total(base, []) == 0;
    ZeroIs(c);
  }

  lemma NothingSpaced(base: nat)
    ensures Spaced(base, "", "") && Strip("") == ""
  {
  }

  lemma ZeroIs(c: char)
    requires IsHexDigit(c)
    ensures c == '0' <==> HexToDec(c) == 0
  {
  }

  lemma MoreCollected(base: nat, front: string, init: seq<nat>, c: char, d: nat)
    requires IsBase(base) && Spaced(base, front, front) && front != "" && init != []
    requires var digits := Strip(front);
             && |digits| == |init| && AllDigits(base, digits) && ValueOf(base, digits) == Total(base, init)
             && (digits[0] == '0' <==> init[0] == 0)
    requires IsDigit(base, c) && HexToDec(c) == d
    ensures Collects(base, front + [c], init + [d])
  {
    hide IsDigit, HexToDec, Spaced, Strip, ValueOf, AllDigits;
    NotUnderscore(base);
    SpacedMore(base, front, c);
    ValueOfLast(base, Strip(front), c);
    assert (init + [d])[..|init|] == init;
  }

  lemma GapCollected(base: nat, front: string, init: seq<nat>)
    requires IsBase(base) && Collects(base, front, init)
    ensures var s := front + "_"; Spaced(base, s, s) && Strip(s) == Strip(front)
  {
    hide IsDigit, Strip;
    SpacedMore(base, front, '_');
    LastIsDigit(base, front);
  }

  lemma LastIsDigit(base: nat, s: string)
    requires Body(base, s, s)
    ensures IsDigit(base, s[|s| - 1])
  {
    hide IsDigit;
  }

  // ----- and back -----

  lemma {:induction false} CollectedIsSpelled(base: nat, s: string)
    requires IsBase(base) && Body(base, s, s)
    ensures exists ds: seq<nat> :: Spells(base, s, ds)
    decreases |s|
  {
    hide Spaced, IsDigit, EitherCase, HexToDec, DigitsIn;
    var front, c := s[..|s| - 1], s[|s| - 1];
    assert front + [c] == s;
    SpacedMore(base, front, c);
    DigitsAre(base, c);
    var d: nat :| d < base && EitherCase(c, DigitsIn(base)[d]);
    if front == "" {
      assert [d][..0] == [];
      assert Spells(base, s, [d]);
    } else {
      var shorter := if front[|front| - 1] == '_' then front[..|front| - 1] else front;
      GapBehindDigit(base, front);
      CollectedIsSpelled(base, shorter);
      var init: seq<nat> :| Spells(base, shorter, init);
      assert (init + [d])[..|init|] == init && init != [];
      assert Spells(base, s, init + [d]);
    }
  }

  lemma GapBehindDigit(base: nat, front: string)
    requires front != "" && Spaced(base, front, front)
    ensures front[|front| - 1] == '_' ==> Body(base, front[..|front| - 1], front[..|front| - 1])
    ensures front[|front| - 1] != '_' ==> Body(base, front, front)
  {
    hide IsDigit;
    var init, c := front[..|front| - 1], front[|front| - 1];
    assert init + [c] == front;
    NotUnderscore(base);
    SpacedMore(base, init, c);
  }

  // ----- integers -----

  /** The spelling of an integer: a decimal with or without a sign and without superfluous zeros, or digits
      behind one of the three prefixes. */
  ghost predicate SpellsInteger(base: nat, literal: string, ds: seq<nat>, v: int)
    requires IsBase(base)
  {
    var t: int := Total(base, ds);
    && |ds| <= 128 && I64_MIN <= v <= I64_MAX
    && match base
       case 10 =>
         && (|ds| > 1 ==> ds[0] != 0)
         && (|| (Spells(10, literal, ds) && v == t)
             || (literal != "" && literal[0] == '+' && Spells(10, literal[1..], ds) && v == t)
             || (literal != "" && literal[0] == '-' && Spells(10, literal[1..], ds) && v == -t))
       case _ =>
         && |literal| > 2 && literal[0] == '0'
         && literal[1] == (if base == 2 then 'b' else if base == 8 then 'o' else 'x')
         && Spells(base, literal[2..], ds) && v == t
  }

  /** A body is spelled by the digits that are collected of it, and by no others. */
  lemma BodyIs(base: nat, s: string)
    requires IsBase(base)
    ensures Body(base, s, s) <==> exists ds: seq<nat> :: Spells(base, s, ds)
    ensures forall ds: seq<nat> :: Spells(base, s, ds) ==> Collects(base, s, ds)
  {
    hide Spells, Collects, Body;
    forall ds: seq<nat> | Spells(base, s, ds) ensures Collects(base, s, ds) && Body(base, s, s) {
      SpelledIsCollected(base, s, ds);
      assert Body(base, s, s) by { CollectsBody(base, s, ds); }
    }
    if Body(base, s, s) { CollectedIsSpelled(base, s); }
  }

  lemma CollectsBody(base: nat, s: string, ds: seq<nat>)
    requires IsBase(base) && Collects(base, s, ds)
    ensures Body(base, s, s)
  {
    hide Body;
  }

  lemma SpelledStarts(base: nat, s: string, ds: seq<nat>)
    requires IsBase(base) && Spells(base, s, ds)
    ensures s != "" && IsDigit(base, s[0]) && s[0] != '+' && s[0] != '-'
  {
    hide IsDigit, ValueOf, Total;
    SpelledIsCollected(base, s, ds);
    StripDigits(base, s, s);
    NoSigns(base);
  }

  lemma NoSigns(base: nat)
    ensures !IsDigit(base, '+') && !IsDigit(base, '-')
  {
  }

  /** The same with the sign or prefix in one place. */
  ghost predicate SpellsBehindLead(base: nat, literal: string, ds: seq<nat>, v: int)
    requires IsBase(base)
  {
    var lead, t: int := LeadLength(base, literal), Total(base, ds);
    && |ds| <= MAX_LITERAL_DIGITS && I64_MIN <= v <= I64_MAX
    && lead <= |literal| && PrefixOf(base) <= literal && Spells(base, literal[lead..], ds)
    && (base == 10 && |ds| > 1 ==> ds[0] != 0)
    && v == if base == 10 && literal[0] == '-' then -t else t
  }

  lemma LeadIs(base: nat, literal: string, ds: seq<nat>, v: int)
    requires IsBase(base)
    ensures SpellsInteger(base, literal, ds, v) <==> SpellsBehindLead(base, literal, ds, v)
  {
    hide Spells, Total;
    if base == 10 {
      assert literal[0..] == literal;
      if Spells(10, literal, ds) { SpelledStarts(10, literal, ds); }
      if literal != "" && Spells(10, literal[1..], ds) { SpelledStarts(10, literal[1..], ds); }
    } else if |literal| >= 2 && Spells(base, literal[2..], ds) {
      SpelledStarts(base, literal[2..], ds);
    }
  }

  lemma ReadIs(base: nat, text: string, ds: seq<nat>, v: int)
    requires IsBase(base) && SpellsBehindLead(base, text[..ValueLength(text)], ds, v)
    ensures ReadInteger(base, text) == Some((v, ValueLength(text)))
  {
    hide ValueLength, Spells, Spaced, Strip, Total, ValueOf, AllDigits;
    var literal := text[..ValueLength(text)];
    var lead := LeadLength(base, literal);
    BodyIs(base, literal[lead..]);
    ViewIsText(base, literal, text);
  }

  lemma ViewIsText(base: nat, literal: string, text: string)
    requires IsBase(base) && literal <= text
    ensures Grammatical(base, literal, text) == Grammatical(base, literal, literal)
  {
    hide Strip, Spaced;
    var lead := LeadLength(base, literal);
    if lead <= |literal| && literal[lead..] != "" {
      SpacedAlike(base, literal[lead..], literal[lead..], text[lead..]);
    }
  }

  lemma SpelledIs(base: nat, text: string)
    requires IsBase(base) && ReadInteger(base, text).Some?
    ensures exists ds: seq<nat> ::
              SpellsBehindLead(base, text[..ValueLength(text)], ds, ReadInteger(base, text).value.0)
  {
    hide ValueLength, Spells, Spaced, Strip, Total, ValueOf, AllDigits;
    var literal := text[..ValueLength(text)];
    var lead := LeadLength(base, literal);
    ViewIsText(base, literal, text);
    BodyIs(base, literal[lead..]);
    var ds: seq<nat> :| Spells(base, literal[lead..], ds);
    assert SpellsBehindLead(base, literal, ds, ReadInteger(base, text).value.0);
  }

  /**
    The parser's integers are exactly the spellings: whatever a value's text is, it is read as `v` if and
    only if it spells `v`.
   */
  lemma ReadsExactlySpellings(base: nat, text: string, v: int)
    requires IsBase(base)
    ensures var n := ValueLength(text);
            ReadInteger(base, text) == Some((v, n)) <==> exists ds: seq<nat> :: SpellsInteger(base, text[..n], ds, v)
  {
    hide ReadInteger, ValueLength, SpellsInteger, SpellsBehindLead;
    var literal := text[..ValueLength(text)];
    forall ds: seq<nat> ensures SpellsInteger(base, literal, ds, v) <==> SpellsBehindLead(base, literal, ds, v) {
      LeadIs(base, literal, ds, v);
    }
    if ReadInteger(base, text) == Some((v, ValueLength(text))) {
      SpelledIs(base, text);
    }
    if ds: seq<nat> :| SpellsInteger(base, literal, ds, v) {
      ReadIs(base, text, ds, v);
    }
  }

  /** `s` spells the capital digits `t` in any mix of cases. */
  predicate AnyCase(s: string, t: string) {
    |s| == |t| && forall i :: 0 <= i < |t| ==> EitherCase(s[i], t[i])
  }

  lemma {:induction false} NumeralIsSpelled(base: nat, n: nat, s: string)
    requires IsBase(base) && AnyCase(s, Numeral(base, n))
    ensures exists ds: seq<nat> ::
              Spells(base, s, ds) && Total(base, ds) == n && |ds| == |s| && (|ds| > 1 ==> ds[0] != 0)
    decreases n
  {
    hide EitherCase, DigitsIn, Total;
    var t := Numeral(base, n);
    var front, c, d := s[..|s| - 1], s[|s| - 1], n % base;
    SameDigit(base, d);
    if n < base {
      assert [d][..0] == [] && Spells(base, s, [d]);
      OneTotal(base, d);
    } else {
      NumeralSplits(base, n);
      QuotientAndRemainder(n, base);
      assert front == s[..|s| - 1] && t[..|t| - 1] == Numeral(base, n / base);
      assert forall i :: 0 <= i < |front| ==> front[i] == s[i] && Numeral(base, n / base)[i] == t[i];
      NumeralIsSpelled(base, n / base, front);
      var init: seq<nat> :| Spells(base, front, init) && Total(base, init) == n / base && |init| == |front|
                            && (|init| > 1 ==> init[0] != 0);
      var ds := init + [d];
      assert ds[..|ds| - 1] == init && Spells(base, s, ds);
      LastTotal(base, init, d);
      if |init| == 1 { OneTotal(base, init[0]); }
      assert ds[0] == init[0] && (|init| == 1 ==> init == [init[0]]);
    }
  }

  lemma SameDigit(base: nat, d: nat)
    requires IsBase(base) && d < base
    ensures DigitsIn(base)[d] == DigitChar(d)
  {
  }

  lemma OneTotal(base: nat, d: nat)
    ensures Total(base, [d]) == d
  {
    assert [d][..0] == [] && Total(base, []) == 0;
  }

  lemma LastTotal(base: nat, init: seq<nat>, d: nat)
    ensures Total(base, init + [d]) == Total(base, init) * base + d
  {
    assert (init + [d])[..|init|] == init;
  }

  /** Every number in every base comes back from its digits in any mix of cases. */
  lemma AnyCaseIsRead(base: nat, n: nat, s: string, rest: string)
    requires IsBase(base) && n <= I64_MAX && AnyCase(s, Numeral(base, n)) && EndsValue(rest)
    ensures var prefix := if base == 2 then "0b" else if base == 8 then "0o" else if base == 10 then "" else "0x";
            ReadInteger(base, prefix + s + rest) == Some((n, |prefix| + |s|))
  {
    hide ReadInteger, Spells, Total, ValueLength, Numeral, AnyCase;
    var prefix := if base == 2 then "0b" else if base == 8 then "0o" else if base == 10 then "" else "0x";
    NumeralIsSpelled(base, n, s);
    var ds: seq<nat> :| Spells(base, s, ds) && Total(base, ds) == n && |ds| == |s| && (|ds| > 1 ==> ds[0] != 0);
    NumeralLength(base, n, s);
    SpelledStarts(base, s, ds);
    assert (prefix + s)[|prefix|..] == s;
    assert SpellsInteger(base, prefix + s, ds, n);
    SpelledHasNoEnd(base, s, ds);
    ValueLengthIs(prefix + s, rest);
    var text := prefix + s + rest;
    assert text[..|prefix + s|] == prefix + s;
    ReadsExactlySpellings(base, text, n);
  }

  lemma NumeralLength(base: nat, n: nat, s: string)
    requires IsBase(base) && n <= I64_MAX && AnyCase(s, Numeral(base, n))
    ensures |s| <= 64
  {
    NumeralFits(base, n);
  }

  lemma {:induction false} SpelledHasNoEnd(base: nat, s: string, ds: seq<nat>)
    requires IsBase(base) && Spells(base, s, ds)
    ensures forall i :: 0 <= i < |s| ==> !IsValueTerminator(s[i])
    decreases |s|
  {
    hide IsValueTerminator, EitherCase, DigitsIn, IsDigit, HexToDec;
    var front, c, init := s[..|s| - 1], s[|s| - 1], ds[..|ds| - 1];
    DigitsAre(base, c);
    DigitHasNoEnd(base, c);
    DigitHasNoEnd(base, '_');
    if |ds| > 1 {
      if Spells(base, front, init) { SpelledHasNoEnd(base, front, init); }
      else { SpelledHasNoEnd(base, front[..|front| - 1], init); }
    }
    forall i | 0 <= i < |s| ensures !IsValueTerminator(s[i]) {
      if |ds| > 1 && i < |s| - 1 {
        assert s[i] == front[i];
        if i < |front| - 1 { assert front[i] == front[..|front| - 1][i]; }
      }
    }
  }

  lemma LiteralHasNoEnd(base: nat, literal: string, ds: seq<nat>, v: int)
    requires IsBase(base) && SpellsInteger(base, literal, ds, v)
    ensures literal != "" && literal[0] as int < 128
    ensures forall i :: 0 <= i < |literal| ==> !IsValueTerminator(literal[i])
  {
    hide IsValueTerminator, Spells, IsDigit, Total;
    var lead := if base != 10 then 2 else if Spells(10, literal, ds) then 0 else 1;
    SpelledHasNoEnd(base, literal[lead..], ds);
    SpelledStarts(base, literal[lead..], ds);
    LeadHasNoEnd();
    assert IsDigit(base, literal[lead]) && literal[lead] as int < 128 by { DigitIsAscii(base, literal[lead]); }
    forall i | 0 <= i < |literal| ensures !IsValueTerminator(literal[i]) {
      if lead <= i { assert literal[i] == literal[lead..][i - lead]; }
    }
  }

  lemma LeadHasNoEnd()
    ensures forall c :: c == '+' || c == '-' || c == '0' || c == 'b' || c == 'o' || c == 'x' ==> !IsValueTerminator(c)
  {
  }

  lemma DigitIsAscii(base: nat, c: char)
    requires IsDigit(base, c)
    ensures c as int < 128
  {
  }

  lemma DigitHasNoEnd(base: nat, c: char)
    requires IsDigit(base, c) || c == '_'
    ensures !IsValueTerminator(c)
  {
  }

  /** The formatter spells an integer in the base it is asked for where that is allowed and the number is not
      negative, and else in decimals. */
  lemma WrittenSpells(val: int, format: Format, allowed: Allowed)
    requires I64_MIN <= val <= I64_MAX
    ensures var base := if val < 0 then 10
                        else match format
                             case Plain => 10
                             case Binary => if allowed.binary then 2 else 10
                             case Octal => if allowed.octal then 8 else 10
                             case Hexadecimal => if allowed.hexadecimal then 16 else 10;
            exists ds: seq<nat> :: SpellsInteger(base, Written(val, format, allowed), ds, val)
  {
    hide ReadInteger, Written, SpellsInteger, ValueLength;
    IntegerRoundTrip(val, format, allowed, "");
    var base, s := BaseOf(FormatFor(val, format, allowed)), Written(val, format, allowed);
    assert s + "" == s;
    ReadLength(base, s);
    assert s[..|s|] == s;
    ReadsExactlySpellings(base, s, val);
  }

  lemma ReadLength(base: nat, text: string)
    requires IsBase(base) && ReadInteger(base, text).Some?
    ensures ReadInteger(base, text).value.1 == ValueLength(text)
  {
  }
}
