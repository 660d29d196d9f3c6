/** Every integer literal, however it is spelled, is taken for an integer of its base. */
module TomlLiterals {

  import opened Options
  import opened Utf8
  import opened HistoryRing
  import opened TomlCursor
  import opened TomlNumerals
  import opened TomlInteger
  import opened TomlLookback
  import opened TomlValue
  import opened TomlKinds

  /** Underscores leave no trace in the scan. */
  lemma {:induction false} LookStrips(l: Looked, s: string)
    ensures Look(l, s) == Look(l, Strip(s))
  {
    hide LookOne;
    if s != "" {
      var init, c := s[..|s| - 1], s[|s| - 1];
      LookStrips(l, init);
      GapUnseen(Look(l, init));
      if c != '_' {
        LookConcat(l, Strip(init), [c]);
        LookSingle(Look(l, Strip(init)), c);
      } else {
        assert Strip(init) + [] == Strip(init);
      }
    }
  }

  lemma GapUnseen(l: Looked)
    ensures LookOne(l, '_') == l
  {
  }

  lemma {:induction false} StripConcat(a: string, b: string)
    ensures Strip(a + b) == Strip(a) + Strip(b)
  {
    if b == "" {
      assert a + b == a;
    } else {
      assert (a + b)[..|a + b| - 1] == a + b[..|b| - 1];
      StripConcat(a, b[..|b| - 1]);
    }
  }

  /** The scan's part of a literal, without underscores: its sign or prefix and some digits. */
  ghost predicate Opens(base: nat, s: string, lead: string)
    requires IsBase(base)
  {
    && lead <= s && |s| > |lead| && AllDigits(base, s[|lead|..])
    && if base == 10 then lead == "" || lead == "+" || lead == "-" else lead == PrefixOf(base)
  }

  /** How such a text is told apart, and that it is no date. */
  lemma OpensKind(base: nat, s: string, lead: string)
    requires IsBase(base) && Opens(base, s, lead)
    ensures Begins(s[0]).Some? && Looks(s).chars == s && !DateLike(Looks(s))
    ensures KindOf(Looks(s)) == WrittenKind(base, s)
  {
    hide Looks, KindOf, DateLike, IsDigit;
    var digits := s[|lead|..];
    assert s == lead + digits;
    if base != 10 {
      PrefixedKind(base, digits);
      PrefixBegins(base);
    } else if lead == "" {
      DecimalKind(digits);
      assert IsDigit(10, s[0]);
      DigitIsNoSign(s[0]);
    } else if lead == "-" {
      NegativeKind(digits);
    } else {
      PositiveKind(digits);
    }
  }

  lemma PrefixBegins(base: nat)
    requires IsBase(base) && base != 10
    ensures |PrefixOf(base)| == 2 && Begins(PrefixOf(base)[0]).Some?
  {
  }

  lemma DigitIsNoSign(c: char)
    requires IsDigit(10, c)
    ensures !IsSign(c)
  {
  }

  lemma PositiveKind(s: string)
    requires s != "" && AllDigits(10, s)
    ensures var t := "+" + s;
            && Looks(t).chars == t && !DateLike(Looks(t))
            && KindOf(Looks(t)) == if |s| == 1 then SignedDigit else IntegerIn(10)
  {
    hide Look;
    var t, l := "+" + s, Looked("", {BeginsSign});
    LookConcat(l, "+", s);
    LookSingle(l, '+');
    MarkTraits(l, '+');
    LookDigits(LookOne(l, '+'), s);
    assert [] + ['+'] + s == t && "+" == ['+'];
    assert IsDigit(10, s[0]) && t[1] == s[0];
    assert |s| > 1 ==> IsDigit(10, s[1]) && t[2] == s[1];
    assert Looks(t).traits == {BeginsSign, Digits, Plus};
  }

  // ----- a literal and the part of it that is scanned -----

  function LeadOf(base: nat, text: string): string
    requires IsBase(base)
  {
    if base != 10 then PrefixOf(base)
    else if text != "" && (text[0] == '+' || text[0] == '-') then [text[0]] else ""
  }

  lemma {:induction false} SpacedPrefix(base: nat, s: string, view: string, k: nat)
    requires k <= |s| <= |view| && Spaced(base, s, view)
    ensures Spaced(base, s[..k], view)
    decreases |s|
  {
    hide IsDigit;
    if k < |s| {
      SpacedPrefix(base, s[..|s| - 1], view, k);
      assert s[..|s| - 1][..k] == s[..k];
    } else {
      assert s[..k] == s;
    }
  }

  /** What the scan sees of a literal opens one. */
  lemma ScannedOpens(base: nat, text: string)
    requires IsBase(base) && ReadInteger(base, text).Some?
    ensures var a := ScanLength(text);
            && 0 < a <= |text| && Strip(text[..a]) != "" && Strip(text[..a])[0] == text[0]
            && Opens(base, Strip(text[..a]), LeadOf(base, text))
  {
    hide IsDigit, ValueOf, ValueLength, Spaced, Strip, AllDigits, ReadInteger, LeadLength, ScanLength;
    var n, a, lead := ValueLength(text), ScanLength(text), |LeadOf(base, text)|;
    LeadIsLong(base, text);
    var body, view := text[lead..n], text[lead..];
    SpacedPrefix(base, body, view, a - lead);
    var p := text[lead..a];
    assert body[..a - lead] == p;
    StripDigits(base, p, view);
    StripConcat(text[..lead], p);
    assert text[..lead] + p == text[..a];
    LeadStripped(base, text);
  }

  lemma LeadIsLong(base: nat, text: string)
    requires IsBase(base) && ReadInteger(base, text).Some?
    ensures var n := ValueLength(text);
            var lead := LeadLength(base, text[..n]);
            && lead < ScanLength(text) <= n && lead == |LeadOf(base, text)| && text[..lead] == LeadOf(base, text)
            && Body(base, text[lead..n], text[lead..])
  {
    hide IsDigit, ValueOf, ValueLength, Spaced, Strip, AllDigits;
    var n := ValueLength(text);
    var lead := LeadLength(base, text[..n]);
    assert text[..n][lead..] == text[lead..n];
    assert n > 0 ==> text[..n][0] == text[0];
    assert base != 10 ==> text[..n][..2] == PrefixOf(base);
  }

  lemma LeadStripped(base: nat, text: string)
    requires IsBase(base)
    ensures Strip(LeadOf(base, text)) == LeadOf(base, text)
  {
    var lead := LeadOf(base, text);
    if |lead| == 2 {
      StripOne(lead[0]);
      StripOne(lead[1]);
      assert lead == [lead[0]] + [lead[1]];
      StripConcat([lead[0]], [lead[1]]);
    } else if |lead| == 1 {
      StripOne(lead[0]);
      assert lead == [lead[0]];
    }
  }

  lemma StripOne(c: char)
    ensures Strip([c]) == if c == '_' then "" else [c]
  {
    assert [c][..0] == "" && Strip("") == "" && "" + [c] == [c];
  }

  // ----- the value -----

  /** A text that the scan takes for such an opening is what the scan says. */
  lemma LiteralIsSeen(base: nat, text: string)
    requires IsBase(base) && ReadInteger(base, text).Some?
    ensures text != "" && Begins(text[0]).Some? && Foreseen(text) && Reach(text) == ScanLength(text)
    ensures var s := Strip(text[..ScanLength(text)]);
            && s != "" && OutlookOf(text).looked.chars == s && KindOf(OutlookOf(text).looked) == WrittenKind(base, s)
  {
    hide ReadInteger, Look, KindOf, DateLike, Begins, ScanEnd, Opens, LeadOf, WrittenKind;
    ScannedOpens(base, text);
    var s := Strip(text[..ScanLength(text)]);
    OpensKind(base, s, LeadOf(base, text));
    ScanLengthIs(text);
    LookStrips(Looked("", Begins(text[0]).value), text[..ScanLength(text)]);
    assert First(text) == Looks(s);
    BlankIs(text);
  }

  lemma StripTwo(a: char, b: char)
    ensures |Strip([a, b])| == (if a == '_' then 0 else 1) + (if b == '_' then 0 else 1)
    ensures a != '_' && b != '_' ==> Strip([a, b]) == [a, b]
  {
    StripConcat([a], [b]);
    StripOne(a);
    StripOne(b);
    assert [a] + [b] == [a, b];
  }

  /** Behind its first digit a longer body has another within two characters. */
  lemma TwoDigits(base: nat, body: string, view: string, k: nat)
    requires |body| <= |view| && (forall i :: 0 <= i < |body| ==> view[i] == body[i]) && Body(base, body, view)
    requires 1 < |body| && (k == |body| || 3 <= k <= |body|)
    ensures |Strip(body[..k])| >= 2
  {
    hide Spaced, Strip, IsDigit;
    SpacedIs(base, body, view);
    assert Decided(base, body, view, 0);
    NoDigit(base);
    StripTwo(body[0], body[1]);
    if body[1] != '_' {
      StripConcat(body[..2], body[2..k]);
      assert body[..2] == [body[0], body[1]] && body[..2] + body[2..k] == body[..k];
    } else {
      assert Decided(base, body, view, 1);
      StripConcat(body[..2], [body[2]]);
      StripOne(body[2]);
      StripConcat(body[..3], body[3..k]);
      assert body[..2] == [body[0], body[1]] && body[..2] + [body[2]] == body[..3];
      assert body[..3] + body[3..k] == body[..k];
    }
  }

  lemma NoDigit(base: nat)
    ensures !IsDigit(base, '_')
  {
  }

  /** One digit, or one behind a sign: the value without the integer parser. */
  lemma ShortLiteral(text: string)
    requires ReadInteger(10, text).Some?
    ensures var s := Strip(text[..ScanLength(text)]);
            && (WrittenKind(10, s) == Digit ==> |s| == 1 && ReadInteger(10, text) == Some((DigitOf(s[0]), 1)))
            && (WrittenKind(10, s) == SignedDigit ==>
                  |s| == 2 && ReadInteger(10, text) == Some((if s[0] == '-' then -DigitOf(s[1]) else DigitOf(s[1]), 2)))
  {
    hide Opens, Strip, IsDigit, ValueLength, Spaced, ReadInteger, DigitOf, AllDigits;
    ScannedOpens(10, text);
    LeadIsLong(10, text);
    var n, a := ValueLength(text), ScanLength(text);
    var lead := |LeadOf(10, text)|;
    var body, s := text[lead..n], Strip(text[..a]);
    LeadStripped(10, text);
    StripConcat(text[..lead], text[lead..a]);
    assert text[..lead] + text[lead..a] == text[..a] && body[..a - lead] == text[lead..a];
    OpensDigits(10, s, LeadOf(10, text));
    if |body| > 1 {
      TwoDigits(10, body, text[lead..], a - lead);
    } else {
      StripOne(text[lead]);
      assert text[lead..a] == [text[lead]];
      OneDigitRead(text, lead);
    }
  }

  lemma OpensDigits(base: nat, s: string, lead: string)
    requires IsBase(base) && Opens(base, s, lead)
    ensures lead <= s && |s| > |lead| && IsDigit(base, s[|lead|])
    ensures base == 10 && lead == "" ==> !IsSign(s[0])
    ensures base == 10 && lead != "" ==> IsSign(s[0])
  {
  }

  lemma OneDigitRead(text: string, lead: nat)
    requires ReadInteger(10, text).Some? && lead == |LeadOf(10, text)| && ValueLength(text) == lead + 1 <= |text|
    requires IsDigit(10, text[lead])
    ensures ReadInteger(10, text)
            == Some((if text[0] == '-' then -DigitOf(text[lead]) else DigitOf(text[lead]), lead + 1))
  {
    hide ValueLength, Grammatical, DigitsOf, ValueOf, IsDigit, LeadOf;
    var literal := text[..lead + 1];
    DigitValue(text[lead]);
    OneDigitOf(literal, text, lead);
  }

  lemma OneDigitOf(literal: string, text: string, lead: nat)
    requires literal <= text && Grammatical(10, literal, text) && lead == |LeadOf(10, text)| && |literal| == lead + 1
    requires IsDigit(10, text[lead])
    ensures DigitsOf(10, literal, text) == [text[lead]]
  {
    hide Spaced, Strip, IsDigit, AllDigits;
    assert literal[lead..] == [text[lead]];
    NoDigit(10);
    StripOne(text[lead]);
  }

  lemma DigitValue(c: char)
    requires IsDigit(10, c)
    ensures AllDigits(10, [c]) && ValueOf(10, [c]) == DigitOf(c)
  {
    OneDigitValue(10, [c]);
  }

  /**
    Every integer literal is taken for an integer of its base: if the integer parser reads it as the grammar
    says, so does the dispatcher.
   */
  lemma LiteralIsTaken(base: nat, text: string, view: string)
    requires IsBase(base) && |view| == |text|
    requires ReadInteger(base, text).Some? && NumberAs(base, text, view) == ReadInteger(base, text)
    ensures text != "" && Begins(text[0]).Some?
    ensures var (v, n) := ReadInteger(base, text).value; ValueAs(text, view) == (Read(OfInteger(v)), n)
  {
    hide ReadInteger, NumberAs, OutlookOf, Foreseen, Reach, Begins, KindOf, DigitOf, Strip, ScanLength;
    LiteralIsSeen(base, text);
    if base == 10 { ShortLiteral(text); }
  }
}
