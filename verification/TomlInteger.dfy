/** Integer literals: an exact parser in four bases, and the writer it inverts. */
module TomlInteger {

  import opened Options
  import opened Utf8
  import opened Utf8Reader
  import opened HistoryRing
  import opened TomlCursor
  import opened TomlNumerals

  const U64 := 0x1_0000_0000_0000_0000
  const I64_MAX := 0x7FFF_FFFF_FFFF_FFFF
  const I64_MIN := -0x8000_0000_0000_0000
  const MAX_LITERAL_DIGITS := 128

  predicate IsBase(base: nat) { base == 2 || base == 8 || base == 10 || base == 16 }

  function MaxDigits(base: nat): nat
    requires IsBase(base)
  {
    match base case 2 => 63 case 8 => 21 case 10 => 19 case _ => 16
  }

  function PrefixOf(base: nat): string
    requires IsBase(base)
  {
    match base case 2 => "0b" case 8 => "0o" case 10 => "" case _ => "0x"
  }

  // ----- the grammar, and what a literal means -----

  function SignLength(s: string): (n: nat)
    ensures n <= |s|
  {
    if s != "" && (s[0] == '+' || s[0] == '-') then 1 else 0
  }

  function LeadLength(base: nat, s: string): nat
    requires IsBase(base)
  {
    if base == 10 then SignLength(s) else 2
  }

  function Strip(s: string): string {
    if s == [] then [] else Strip(s[..|s| - 1]) + if s[|s| - 1] == '_' then [] else [s[|s| - 1]]
  }

  /**
    Digits, and underscores that follow a digit. `view` is what a look back at each place yields: the
    text itself, or in the parser whatever its pointers then lead to.
   */
  predicate Spaced(base: nat, s: string, view: string)
    requires |s| <= |view|
  {
    s == [] ||
    var last := |s| - 1;
    && Spaced(base, s[..last], view)
    && if s[last] == '_' then 0 < last && IsDigit(base, view[last - 1]) else IsDigit(base, s[last])
  }

  predicate Body(base: nat, s: string, view: string)
    requires |s| <= |view|
  {
    s != "" && Spaced(base, s, view) && view[|s| - 1] != '_'
  }

  lemma {:induction false} StripDigits(base: nat, s: string, view: string)
    requires |s| <= |view| && Spaced(base, s, view)
    ensures AllDigits(base, Strip(s)) && |Strip(s)| <= |s|
    ensures s != [] ==> Strip(s) != [] && Strip(s)[0] == s[0]
  {
    if s != [] {
      StripDigits(base, s[..|s| - 1], view);
    }
  }

  predicate Grammatical(base: nat, literal: string, view: string)
    requires IsBase(base) && |literal| <= |view|
  {
    var lead := LeadLength(base, literal);
    && lead <= |literal|
    && PrefixOf(base) <= literal
    && Body(base, literal[lead..], view[lead..])
    && var digits := Strip(literal[lead..]);
    (base == 10 && |digits| > 1 ==> digits[0] != '0')
  }

  function DigitsOf(base: nat, literal: string, view: string): (digits: string)
    requires IsBase(base) && |literal| <= |view| && Grammatical(base, literal, view)
    ensures AllDigits(base, digits)
  {
    var lead := LeadLength(base, literal);
    StripDigits(base, literal[lead..], view[lead..]);
    Strip(literal[lead..])
  }

  function Meaning(base: nat, literal: string, view: string): int
    requires IsBase(base) && |literal| <= |view| && Grammatical(base, literal, view)
  {
    var v: int := ValueOf(base, DigitsOf(base, literal, view));
    if base == 10 && literal[0] == '-' then -v else v
  }

  /** The literal at the start of `text`, if looking back yields `view`: its value and its length. */
  function ReadAs(base: nat, text: string, view: string): Option<(int, nat)>
    requires IsBase(base) && |text| == |view|
  {
    var n := ValueLength(text);
    var literal := text[..n];
    if Grammatical(base, literal, view)
       && |DigitsOf(base, literal, view)| <= MAX_LITERAL_DIGITS
       && I64_MIN <= Meaning(base, literal, view) <= I64_MAX
    then Some((Meaning(base, literal, view), n))
    else None
  }

  /** The literal at the start of `text`, if there is one: its value and its length. */
  function ReadInteger(base: nat, text: string): Option<(int, nat)>
    requires IsBase(base)
  {
    ReadAs(base, text, text)
  }

  // ----- 64-bit arithmetic -----

  lemma PowerLimits(base: nat)
    requires IsBase(base)
    ensures I64_MAX < Power(base, MaxDigits(base)) <= U64
    ensures base == 10 ==> -I64_MIN < Power(base, MaxDigits(base))
  {
    hide Power;
    SmallPowers(base);
    PowerSum(base, 4, 4);
    PowerSum(base, 8, 8);
    if base == 2 {
      PowerSum(2, 16, 16);
      PowerSum(2, 32, 16);
      PowerSum(2, 48, 8);
      PowerSum(2, 56, 4);
      PowerSum(2, 60, 3);
    } else if base == 8 {
      PowerSum(8, 16, 4);
      PowerSum(8, 20, 1);
    } else if base == 10 {
      PowerSum(10, 16, 3);
    }
  }

  lemma SmallPowers(base: nat)
    requires IsBase(base)
    ensures Power(base, 1) == base && Power(base, 3) == base * base * base
    ensures Power(base, 4) == base * base * base * base
  {
    assert Power(base, 2) == base * base;
  }

  /** Least significant digit first, every operation modulo 2^64. */
  method Accumulate(base: nat, digits: array<char>, msd: nat, length: nat) returns (result: nat)
    requires IsBase(base)
    requires msd <= length <= digits.Length && AllDigits(base, digits[..length])
    requires length - msd <= MaxDigits(base)
    ensures AllDigits(base, digits[msd..length])
    ensures result == ValueOf(base, digits[msd..length]) < U64
  {
    hide *;
    result := 0;
    var power := 1;
    var end := length;
    ghost var all := digits[..length];
    PowerLimits(base);
    NothingYet(base, digits[end..length]);
    while end > msd
      invariant msd <= end <= length
      invariant AllDigits(base, digits[end..length])
      invariant result == ValueOf(base, digits[end..length]) < U64
      invariant power == Power(base, length - end) % U64
    {
      end := end - 1;
      ghost var s := digits[end..length];
      assert s[1..] == digits[end + 1..length] && s[0] == all[end];
      DigitIn(base, all, end);
      AddDigit(base, s);
      result := (result + power * HexToDec(digits[end]) % U64) % U64;
      power := power * base % U64;
    }
  }

  lemma DigitIn(base: nat, s: string, i: nat)
    requires AllDigits(base, s) && i < |s|
    ensures IsHexDigit(s[i]) && IsDigit(base, s[i])
  {
  }

  lemma NothingYet(base: nat, s: string)
    requires s == []
    ensures AllDigits(base, s) && ValueOf(base, s) == 0 && Power(base, 0) == 1 && 1 % U64 == 1 && 0 < U64
  {
  }

  /** One step of the accumulation wraps nowhere but in the power it no longer needs. */
  lemma AddDigit(base: nat, s: string)
    requires IsBase(base) && 0 < |s| <= MaxDigits(base)
    requires IsDigit(base, s[0]) && IsHexDigit(s[0]) && AllDigits(base, s[1..])
    ensures AllDigits(base, s)
    ensures var p := Power(base, |s| - 1) % U64;
            && ValueOf(base, s) == (ValueOf(base, s[1..]) + p * HexToDec(s[0]) % U64) % U64
            && ValueOf(base, s) < U64
            && p * base % U64 == Power(base, |s|) % U64
  {
    hide HexToDec, IsHexDigit, ValueOf, MaxDigits, IsDigit;
    assert AllDigits(base, s) by {
      forall i | 0 <= i < |s| ensures IsDigit(base, s[i]) {
        if i > 0 { assert s[i] == s[1..][i - 1]; }
      }
    }
    ValueOfFirst(base, s);
    ValueOfBounds(base, s);
    PowerLimits(base);
    PowerGrows(base, |s|, MaxDigits(base));
    PowerGrows(base, |s| - 1, |s|);
    NoWrap(base, Power(base, |s| - 1), HexToDec(s[0]), ValueOf(base, s[1..]));
  }

  lemma NoWrap(base: nat, p: nat, d: nat, v: nat)
    requires 2 <= base && 1 <= p && base * p <= U64 && d * p + v < U64
    ensures d * p + v == (v + p % U64 * d % U64) % U64
    ensures p % U64 * base % U64 == base * p % U64
  {
    assert base * p >= 2 * p by { MulOrdered(2, base, p); }
    Small(p);
    assert p * d == d * p && p * base == base * p;
    assert 0 <= d * p;
    Small(d * p);
    Small(v + d * p);
  }

  lemma Small(x: nat)
    requires x < U64
    ensures x % U64 == x
  {
  }

  /** What the digits of a literal stand for, or nothing where the parser refuses them. */
  function Converted(base: nat, digits: string, negative: bool): Option<int>
    requires IsBase(base) && AllDigits(base, digits) && digits != []
  {
    var v: int := ValueOf(base, digits);
    var x := if negative then -v else v;
    if base == 10 && |digits| > 1 && digits[0] == '0' then None
    else if I64_MIN <= x <= I64_MAX then Some(x)
    else None
  }

  lemma TrimZero(base: nat, s: string)
    requires AllDigits(base, s) && s != [] && s[0] == '0'
    ensures ValueOf(base, s) == ValueOf(base, s[1..])
  {
    ValueOfFirst(base, s);
  }

  /** More digits than fit: too large in either sign. */
  lemma TooManyDigits(base: nat, s: string)
    requires IsBase(base) && AllDigits(base, s) && |s| > MaxDigits(base) && s[0] != '0'
    ensures var v: int := ValueOf(base, s); v > I64_MAX && (base == 10 ==> -v < I64_MIN)
  {
    hide ValueOf, Power;
    ValueOfBounds(base, s);
    PowerGrows(base, MaxDigits(base), |s| - 1);
    PowerLimits(base);
  }

  method SkipZeros(base: nat, digits: array<char>, length: nat) returns (msd: nat)
    requires IsBase(base) && length <= digits.Length && AllDigits(base, digits[..length])
    ensures msd <= length && (msd < length ==> digits[msd] != '0')
    ensures AllDigits(base, digits[msd..length])
    ensures ValueOf(base, digits[msd..length]) == ValueOf(base, digits[..length])
  {
    hide ValueOf, IsDigit;
    msd := 0;
    assert digits[0..length] == digits[..length];
    while msd < length && digits[msd] == '0'
      invariant msd <= length
      invariant AllDigits(base, digits[msd..length])
      invariant ValueOf(base, digits[msd..length]) == ValueOf(base, digits[..length])
    {
      TrimZero(base, digits[msd..length]);
      assert digits[msd..length][1..] == digits[msd + 1..length];
      msd := msd + 1;
    }
  }

  /** From collected digits to the value. */
  method Convert(base: nat, digits: array<char>, length: nat, negative: bool) returns (r: Option<int>)
    requires IsBase(base) && 0 < length <= digits.Length && AllDigits(base, digits[..length])
    requires negative ==> base == 10
    ensures r == Converted(base, digits[..length], negative)
  {
    hide ValueOf, IsDigit, HexToDec, MaxDigits;
    ghost var ds := digits[..length];
    if length == 1 {
      OneDigitValue(base, ds);
      var v: int := HexToDec(digits[0]);
      return Some(if negative then -v else v);
    }
    var msd := 0;
    if base != 10 {
      msd := SkipZeros(base, digits, length);
      if msd == length {
        NothingYet(base, digits[msd..length]);
        return Some(0);
      }
    } else if digits[0] == '0' {
      return None;
    } else {
      assert digits[0..length] == ds;
    }
    if length - msd > MaxDigits(base) {
      TooManyDigits(base, digits[msd..length]);
      return None;
    }
    var result := Accumulate(base, digits, msd, length);
    if result > I64_MAX + (if negative then 1 else 0) {
      return None;
    }
    var magnitude: int := result;
    return Some(if negative then -magnitude else magnitude);
  }

  // ----- the scanner -----

  lemma {:induction false} SpacedPrefix(base: nat, s: string, view: string, n: nat)
    requires |s| <= |view| && Spaced(base, s, view) && n <= |s|
    ensures Spaced(base, s[..n], view) && |Strip(s[..n])| <= |Strip(s)|
    decreases |s|
  {
    if n < |s| {
      assert s[..|s| - 1][..n] == s[..n];
      SpacedPrefix(base, s[..|s| - 1], view, n);
    } else {
      assert s[..n] == s;
    }
  }

  /** One more character the scanner lets pass. */
  lemma Continue(base: nat, body: string, c: char, view: string)
    requires |body| < |view| && Spaced(base, body, view)
    requires if c == '_' then body != "" && IsDigit(base, view[|body| - 1]) else IsDigit(base, c)
    ensures Spaced(base, body + [c], view)
    ensures Strip(body + [c]) == Strip(body) + if c == '_' then [] else [c]
  {
    assert (body + [c])[..|body|] == body;
  }

  /** A character the scanner refuses: no continuation can be a literal's body. */
  lemma Refused(base: nat, whole: string, view: string, at: nat)
    requires at < |whole| <= |view|
    requires var c := whole[at];
             if c == '_' then at == 0 || !IsDigit(base, view[at - 1]) else !IsDigit(base, c)
    ensures whole != "" && !Body(base, whole, view)
  {
    var longer := whole[..at + 1];
    assert longer[..at] == whole[..at];
    assert !Spaced(base, longer, view);
    if Body(base, whole, view) {
      SpacedPrefix(base, whole, view, at + 1);
    }
  }

  /** One digit more than there is room for. */
  lemma Longer(base: nat, whole: string, view: string, at: nat)
    requires at < |whole| <= |view| && IsDigit(base, whole[at]) && Spaced(base, whole[..at], view)
    requires whole[at] != '_'
    ensures Body(base, whole, view) ==> |Strip(whole)| > |Strip(whole[..at])|
  {
    if Body(base, whole, view) {
      Continue(base, whole[..at], whole[at], view);
      assert whole[..at + 1] == whole[..at] + [whole[at]];
      SpacedPrefix(base, whole, view, at + 1);
    }
  }

  lemma Ends(base: nat, body: string, view: string)
    requires |body| <= |view| && Spaced(base, body, view)
    ensures body == "" || Body(base, body, view) <==> body == "" || view[|body| - 1] != '_'
  {
  }

  lemma Nothing(base: nat, view: string)
    ensures Spaced(base, "", view) && Strip("") == ""
  {
  }

  lemma UnderscoreIsNoDigit(base: nat)
    ensures !IsDigit(base, '_')
  {
  }

  /** Where the scanner is in the value: what it has passed, and what it sees when it looks back. */
  ghost predicate Scanning(c: TextCursor, text: string, view: string, start: nat, top: int, pos: nat, prev: Place)
    reads c.Repr()
  {
    && c.Valid() && !c.Broken() && pos <= |text| == |view|
    && start <= |Text(c.reader.reader.source)| && text == Text(c.reader.reader.source)[start..]
    && c.Pos() == start + pos && c.Top() == Max(top, start + pos)
    && view == SeenFrom(c, start, top)
    && if pos == 0 then prev == Nowhere else c.Readable(prev) && c.Star(prev) == view[pos - 1]
  }

  ghost function SeenFrom(c: TextCursor, start: nat, top: int): string {
    if start <= |Decoded(c.reader.reader.source)| then Seen(c.reader.reader.source, start, top) else ""
  }

  lemma StartScanning(c: TextCursor)
    requires c.Valid() && !c.Broken() && !c.IsEof()
    ensures Scanning(c, c.Rest(), SeenFrom(c, c.Pos(), c.Top()), c.Pos(), c.Top(), 0, Nowhere)
  {
    c.PosInText();
  }

  /** `prev = cp`, and on to the next character. */
  method Pass(c: TextCursor, ghost text: string, ghost view: string, ghost start: nat, ghost top: int,
              ghost pos: nat, ghost before: Place) returns (prev: Place)
    requires Scanning(c, text, view, start, top, pos, before) && !c.IsEof()
    modifies c.Repr()
    ensures c.Valid() && pos < |text|
    ensures !c.Broken() ==> Scanning(c, text, view, start, top, pos + 1, prev)
  {
    hide TextCursor.Valid, Behind;
    c.PosInText();
    prev := c.cp;
    c.Advance();
  }

  lemma ScanningAt(c: TextCursor, text: string, view: string, start: nat, top: int, pos: nat, prev: Place)
    requires Scanning(c, text, view, start, top, pos, prev)
    ensures pos <= |text| && c.Rest() == text[pos..]
  {
    hide TextCursor.Valid, Seen, Behind;
    assert Text(c.reader.reader.source)[start..][pos..] == Text(c.reader.reader.source)[start + pos..];
  }

  lemma AtText(text: string, pos: nat, n: nat)
    requires pos <= n <= |text|
    ensures text[..n][..pos] == text[..pos]
    ensures pos < |text| ==> text[..pos + 1] == text[..pos] + [text[pos]] && text[pos..][0] == text[pos]
    ensures text[pos..] == "" <==> pos == |text|
  {
  }

  lemma EndsAt(text: string, pos: nat)
    requires pos <= ValueLength(text)
    ensures (pos == |text| || IsValueTerminator(text[pos])) <==> pos == ValueLength(text)
  {
    hide ValueLength, IsValueTerminator;
  }

  lemma Inside(c: TextCursor, text: string, view: string, start: nat, top: int, pos: nat, prev: Place)
    requires Scanning(c, text, view, start, top, pos, prev) && pos <= ValueLength(text)
    ensures |text| == |view| && (prev == Nowhere <==> pos == 0)
    ensures pos > 0 ==> c.Readable(prev) && c.Star(prev) == view[pos - 1]
    ensures !c.IsEof() ==> text[..pos + 1] == text[..pos] + [c.Peek()]
    ensures var n := ValueLength(text);
            && text[..n][..pos] == text[..pos]
            && ((c.IsEof() || IsValueTerminator(c.Peek())) <==> pos == n)
            && (pos < n ==> text[..n][pos] == c.Peek())
            && (pos == n ==> c.Rest() == text[n..])
  {
    hide TextCursor.Valid, TextCursor.Rest, SeenFrom, ValueLength, IsValueTerminator, Text;
    c.EndIsReached();
    ScanningAt(c, text, view, start, top, pos, prev);
    AtText(text, pos, ValueLength(text));
    EndsAt(text, pos);
  }

  /** Where the input ends, the last character is still there to look back at. */
  lemma LooksBackAtEnd(c: TextCursor, text: string, view: string, start: nat, top: int, pos: nat, prev: Place)
    requires Scanning(c, text, view, start, top, pos, prev) && c.IsEof() && 0 < pos
    ensures view[pos - 1] == text[pos - 1]
  {
    hide TextCursor.Valid, Passed, BlockFrom, Decoded;
    c.PosInText();
    var i := start + pos - 1;
    assert view[pos - 1] as int == Behind(c.reader.reader.source, Cursor(i, Max(top, i)));
  }

  /** Collects the digits up to the end of the value. */
  method Collect(base: nat, c: TextCursor, digits: array<char>) returns (ok: bool, length: nat)
    requires IsBase(base) && digits.Length == MAX_LITERAL_DIGITS && digits !in c.Repr()
    requires c.Valid() && !c.Broken() && !c.IsEof()
    modifies c.Repr(), digits
    ensures c.Valid() && (c.Broken() ==> !ok)
    ensures !c.Broken() ==>
              var text, view := old(c.Rest()), old(SeenFrom(c, c.Pos(), c.Top()));
              var n := ValueLength(text);
              && |view| == |text|
              && (ok <==> (n == 0 || Body(base, text[..n], view)) && |Strip(text[..n])| <= MAX_LITERAL_DIGITS)
              && (ok ==> c.Rest() == text[n..] && length <= digits.Length && digits[..length] == Strip(text[..n]))
  {
    hide Scanning, TextCursor.Valid, TextCursor.Rest, TextCursor.Readable, SeenFrom, Strip, Spaced, Body,
         IsDigit, IsValueTerminator, ValueLength;
    ghost var text, view := c.Rest(), SeenFrom(c, c.Pos(), c.Top());
    ghost var start, top, pos := c.Pos(), c.Top(), 0;
    ghost var n := ValueLength(text);
    ok, length := false, 0;
    var prev := Nowhere;
    StartScanning(c);
    Nothing(base, view);
    UnderscoreIsNoDigit(base);
    while !c.IsEof() && !IsValueTerminator(c.Peek())
      invariant c.Valid() && !c.Broken()
      invariant pos <= n && length <= MAX_LITERAL_DIGITS
      invariant Scanning(c, text, view, start, top, pos, prev)
      invariant Spaced(base, text[..pos], view) && digits[..length] == Strip(text[..pos])
      decreases n - pos
    {
      var ch := c.Peek();
      Inside(c, text, view, start, top, pos, prev);
      if ch == '_' {
        if prev == Nowhere || !IsDigit(base, c.Star(prev)) {
          Refused(base, text[..n], view, pos);
          return;
        }
        Continue(base, text[..pos], ch, view);
        prev := Pass(c, text, view, start, top, pos, prev);
        if c.Broken() { return; }
        pos := pos + 1;
        if c.IsEof() {
          Inside(c, text, view, start, top, pos, prev);
          Ends(base, text[..n], view);
          LooksBackAtEnd(c, text, view, start, top, pos, prev);
          return;
        }
      } else if prev != Nowhere && c.Star(prev) == '_' && !IsDigit(base, ch) {
        Refused(base, text[..n], view, pos);
        return;
      } else if !IsDigit(base, ch) {
        Refused(base, text[..n], view, pos);
        return;
      } else if length == digits.Length {
        Longer(base, text[..n], view, pos);
        return;
      } else {
        Continue(base, text[..pos], ch, view);
        digits[length] := ch;
        length := length + 1;
        prev := Pass(c, text, view, start, top, pos, prev);
        if c.Broken() { return; }
        pos := pos + 1;
      }
    }
    Inside(c, text, view, start, top, pos, prev);
    Ends(base, text[..n], view);
    if prev != Nowhere && c.Star(prev) == '_' {
      return;
    }
    ok := true;
  }

  // ----- the whole parser -----

  /** A sign or base prefix, with a digit right behind it. */
  predicate StartsLiteral(base: nat, text: string)
    requires IsBase(base)
  {
    var lead := LeadLength(base, text);
    PrefixOf(base) <= text && lead < |text| && IsDigit(base, text[lead])
  }

  predicate IsNegative(base: nat, text: string) {
    base == 10 && text != "" && text[0] == '-'
  }

  method ReadLead(base: nat, c: TextCursor) returns (ok: bool, negative: bool)
    requires IsBase(base) && c.Valid() && !c.Broken() && !c.IsEof()
    modifies c.Repr()
    ensures c.Valid() && (c.Broken() ==> !ok)
    ensures !c.Broken() ==> (ok <==> StartsLiteral(base, old(c.Rest())))
    ensures ok ==> Moved(c, old(c.Rest()), old(c.Pos()), old(c.Top()), LeadLength(base, old(c.Rest())))
    ensures ok ==> !c.IsEof() && negative == IsNegative(base, old(c.Rest()))
  {
    hide IsDigit, Moved, TextCursor.Valid;
    ghost var text, start, top := c.Rest(), c.Pos(), c.Top();
    ok, negative := false, false;
    NotMoved(c);
    MovedTo(c, text, start, top, 0);
    if base == 10 {
      if c.Peek() == '+' || c.Peek() == '-' {
        negative := c.Peek() == '-';
        Move(c, text, start, top, 0);
        if c.Broken() { return; }
        MovedTo(c, text, start, top, 1);
        if c.IsEof() { return; }
      }
    } else {
      if c.Peek() != '0' { return; }
      Move(c, text, start, top, 0);
      if c.Broken() { return; }
      MovedTo(c, text, start, top, 1);
      if c.IsEof() { return; }
      if c.Peek() != PrefixOf(base)[1] { return; }
      Move(c, text, start, top, 1);
      if c.Broken() { return; }
      MovedTo(c, text, start, top, 2);
      if c.IsEof() { return; }
    }
    ok := IsDigit(base, c.Peek());
  }

  lemma DigitDoesNotEnd(base: nat, c: char)
    requires IsDigit(base, c)
    ensures !IsValueTerminator(c)
  {
  }

  lemma LongEnough(s: string, k: nat)
    requires k < |s| && forall i :: 0 <= i <= k ==> !IsValueTerminator(s[i])
    ensures k < ValueLength(s)
  {
  }

  lemma {:induction false} FirstOfBody(base: nat, s: string, view: string)
    requires |s| <= |view| && Spaced(base, s, view) && s != ""
    ensures IsDigit(base, s[0])
  {
    if |s| > 1 { FirstOfBody(base, s[..|s| - 1], view); }
  }

  lemma LeadInside(base: nat, text: string)
    requires IsBase(base) && StartsLiteral(base, text)
    ensures LeadLength(base, text) < ValueLength(text)
  {
    hide IsDigit, IsValueTerminator;
    var lead := LeadLength(base, text);
    LeadChars();
    DigitDoesNotEnd(base, text[lead]);
    forall i | 0 <= i <= lead ensures !IsValueTerminator(text[i]) {
    }
    LongEnough(text, lead);
  }

  lemma LeadChars()
    ensures forall c :: c in "+-0box" ==> !IsValueTerminator(c)
  {
  }

  lemma NoLiteral(base: nat, text: string, view: string)
    requires IsBase(base) && !StartsLiteral(base, text) && |text| == |view|
    ensures ReadAs(base, text, view) == None
  {
    hide Strip, IsDigit, Spaced, ValueOf;
    var literal := text[..ValueLength(text)];
    var lead := LeadLength(base, literal);
    if lead < |literal| && Spaced(base, literal[lead..], view[lead..]) {
      assert literal[lead] == text[lead];
      FirstOfBody(base, literal[lead..], view[lead..]);
    }
  }

  lemma LiteralRead(base: nat, text: string, view: string)
    requires IsBase(base) && StartsLiteral(base, text) && |text| == |view|
    ensures var lead, n := LeadLength(base, text), ValueLength(text);
            && lead < n
            && var body, back := text[lead..n], view[lead..];
            && (Body(base, body, back) ==> AllDigits(base, Strip(body)) && Strip(body) != [])
            && ReadAs(base, text, view)
               == if Body(base, body, back) && |Strip(body)| <= MAX_LITERAL_DIGITS
                     && Converted(base, Strip(body), IsNegative(base, text)).Some?
                  then Some((Converted(base, Strip(body), IsNegative(base, text)).value, n))
                  else None
  {
    hide Strip, IsDigit, Spaced, ValueOf;
    LeadInside(base, text);
    var lead, n := LeadLength(base, text), ValueLength(text);
    var literal := text[..n];
    var body, back := text[lead..n], view[lead..];
    assert literal[lead..] == body;
    assert LeadLength(base, literal) == lead;
    assert PrefixOf(base) <= literal;
    if Body(base, body, back) { StripDigits(base, body, back); }
  }

  lemma {:induction false} ValueLengthBehind(text: string, k: nat)
    requires k <= ValueLength(text)
    ensures ValueLength(text[k..]) == ValueLength(text) - k
    decreases k
  {
    if k > 0 {
      ValueLengthBehind(text[1..], k - 1);
      assert text[1..][k - 1..] == text[k..];
    }
  }

  lemma SeenBehind(source: seq<Byte>, from: nat, top: int, k: nat)
    requires from + k <= |Decoded(source)|
    ensures Seen(source, from + k, Max(top, from + k)) == Seen(source, from, top)[k..]
  {
    hide Behind, Decoded;
    var a, b := Seen(source, from + k, Max(top, from + k)), Seen(source, from, top)[k..];
    forall i | 0 <= i < |a| ensures a[i] == b[i] {
      assert a[i] as int == b[i] as int;
    }
  }

  /**
    `parse_integer`: the cursor stands on the first character of the value. What it accepts is the
    literal as its pointers see it, and it stops with an error where the input is ill-formed.
   */
  method ParseInteger(base: nat, c: TextCursor) returns (r: Option<int>)
    requires IsBase(base) && c.Valid() && !c.Broken() && !c.IsEof()
    modifies c.Repr()
    ensures c.Valid() && (c.Broken() ==> r == None)
    ensures !c.Broken() ==>
              var text, view := old(c.Rest()), old(SeenFrom(c, c.Pos(), c.Top()));
              |text| == |view| &&
              match ReadAs(base, text, view)
              case None => r == None
              case Some(read) => read.1 <= |text| && r == Some(read.0) && c.Rest() == text[read.1..]
  {
    hide Moved, TextCursor.Valid, TextCursor.Rest, SeenFrom, Strip, Spaced, Body, ReadAs, Converted,
         IsDigit, ValueLength, StartsLiteral, LeadLength;
    ghost var text, view, start, top := c.Rest(), SeenFrom(c, c.Pos(), c.Top()), c.Pos(), c.Top();
    r := None;
    var ok, negative, length;
    ViewFits(c);
    ok, negative := ReadLead(base, c);
    if c.Broken() { return; }
    if !ok {
      NoLiteral(base, text, view);
      return;
    }
    LiteralRead(base, text, view);
    AtBody(base, c, text, view, start, top);
    var digits := new char[MAX_LITERAL_DIGITS];
    ok, length := Collect(base, c, digits);
    if !ok { return; }
    r := Convert(base, digits, length, negative);
  }

  lemma ViewFits(c: TextCursor)
    requires c.Valid() && !c.Broken() && !c.IsEof()
    ensures |SeenFrom(c, c.Pos(), c.Top())| == |c.Rest()|
  {
    c.PosInText();
  }

  /** The digits are seen from behind the lead as from the start of the value. */
  lemma AtBody(base: nat, c: TextCursor, text: string, view: string, start: nat, top: int)
    requires IsBase(base) && StartsLiteral(base, text) && |text| == |view|
    requires Moved(c, text, start, top, LeadLength(base, text)) && view == SeenFrom(c, start, top)
    requires !c.IsEof()
    ensures var lead, n := LeadLength(base, text), ValueLength(text);
            && lead < n && ValueLength(text[lead..]) == n - lead > 0
            && c.Rest() == text[lead..] && SeenFrom(c, c.Pos(), c.Top()) == view[lead..]
            && text[lead..][..n - lead] == text[lead..n]
            && text[lead..][n - lead..] == text[n..]
  {
    hide Moved, TextCursor.Valid, TextCursor.Rest, SeenFrom, ValueLength, IsDigit, LeadLength;
    var lead, n := LeadLength(base, text), ValueLength(text);
    LeadInside(base, text);
    ValueLengthBehind(text, lead);
    SeenFromHere(c, text, view, start, top, lead);
    assert text[lead..][..n - lead] == text[lead..n];
    assert text[lead..][n - lead..] == text[n..];
  }

  lemma SeenFromHere(c: TextCursor, text: string, view: string, start: nat, top: int, k: nat)
    requires Moved(c, text, start, top, k) && view == SeenFrom(c, start, top) && |text| == |view| && !c.IsEof()
    ensures k <= |text| && c.Rest() == text[k..] && SeenFrom(c, c.Pos(), c.Top()) == view[k..]
  {
    hide TextCursor.Valid, TextCursor.Rest, Behind, Seen;
    c.PosInText();
    SeenBehind(c.reader.reader.source, start, top, k);
  }

  // ----- the writer -----

  /** `std::to_chars`: lower-case digits, a minus sign where needed. */
  function LowerDigit(d: nat): char
    requires d < 16
  {
    if d < 10 then DigitChar(d) else ('a' as int + d - 10) as char
  }

  function LowerNumeral(base: nat, n: nat): string
    requires 2 <= base <= 16
  {
    if n < base then [LowerDigit(n)] else LowerNumeral(base, n / base) + [LowerDigit(n % base)]
  }

  function ToChars(base: nat, val: int): string
    requires 2 <= base <= 16
  {
    if val < 0 then "-" + LowerNumeral(base, -val) else LowerNumeral(base, val)
  }

  function Upper(c: char): char {
    if 'a' <= c <= 'f' then (c as int - 32) as char else c
  }

  function UpperAll(s: string): (u: string)
    ensures |u| == |s| && forall i :: 0 <= i < |s| ==> u[i] == Upper(s[i])
  {
    seq(|s|, i requires 0 <= i < |s| => Upper(s[i]))
  }

  predicate LowerHex(c: char) { '0' <= c <= '9' || 'a' <= c <= 'f' || c == '-' }

  lemma {:induction false} UpperOfLower(base: nat, n: nat)
    requires 2 <= base <= 16
    ensures UpperAll(LowerNumeral(base, n)) == Numeral(base, n)
    ensures base <= 10 ==> LowerNumeral(base, n) == Numeral(base, n)
    ensures forall c :: c in LowerNumeral(base, n) ==> LowerHex(c)
    decreases n
  {
    if n >= base {
      QuotientAndRemainder(n, base);
      UpperOfLower(base, n / base);
      assert Upper(LowerDigit(n % base)) == DigitChar(n % base);
    } else {
      assert Upper(LowerDigit(n)) == DigitChar(n);
    }
  }

  /** How an integer asks to be written. */
  datatype Format = Plain | Binary | Octal | Hexadecimal

  function BaseOf(f: Format): nat {
    match f case Plain => 10 case Binary => 2 case Octal => 8 case Hexadecimal => 16
  }

  /** The integer as `print_integer_to_stream` leaves it in the stream. */
  function Printed(val: int, format: Format): string {
    if val < 0 then "-" + Numeral(10, -val) else Numeral(BaseOf(format), val)
  }

  /** `print_integer_to_stream`, without a minimum number of digits. */
  method PrintInteger(val: int, format: Format) returns (stream: string)
    ensures stream == Printed(val, format)
  {
    if val == 0 {
      return "0";
    }
    var base := 10;
    if format != Plain && val > 0 {
      base := BaseOf(format);
    }
    var chars := ToChars(base, val);
    var buf := new char[|chars|](i requires 0 <= i < |chars| => chars[i]);
    assert buf[..] == chars;
    var magnitude: nat := if val < 0 then -val else val;
    UpperOfLower(base, magnitude);
    if base == 16 {
      UpperCase(buf);
    }
    stream := buf[..];
  }

  /** Upper-cases the digits in place: whatever is at or above 'a' moves down by 32. */
  method UpperCase(buf: array<char>)
    requires forall i :: 0 <= i < buf.Length ==> LowerHex(buf[i])
    modifies buf
    ensures buf[..] == UpperAll(old(buf[..]))
  {
    for i := 0 to buf.Length
      invariant forall j :: 0 <= j < i ==> buf[j] == Upper(old(buf[j]))
      invariant forall j :: i <= j < buf.Length ==> buf[j] == old(buf[j])
    {
      if buf[i] >= 'a' {
        buf[i] := (buf[i] as int - 32) as char;
      }
    }
  }

  /** Which bases the formatter was allowed to use. */
  datatype Allowed = Allowed(binary: bool, octal: bool, hexadecimal: bool)

  function FormatFor(val: int, format: Format, allowed: Allowed): Format {
    if val < 0 then Plain
    else match format
      case Plain => Plain
      case Binary => if allowed.binary then Binary else Plain
      case Octal => if allowed.octal then Octal else Plain
      case Hexadecimal => if allowed.hexadecimal then Hexadecimal else Plain
  }

  function Written(val: int, format: Format, allowed: Allowed): string {
    var f := FormatFor(val, format, allowed);
    PrefixOf(BaseOf(f)) + Printed(val, f)
  }

  /** `formatter::print` of an integer value. */
  method WriteInteger(val: int, format: Format, allowed: Allowed) returns (stream: string)
    ensures stream == Written(val, format, allowed)
  {
    hide Printed;
    if val >= 0 && (allowed.binary || allowed.octal || allowed.hexadecimal) {
      match format {
        case Binary =>
          if allowed.binary {
            stream := PrintInteger(val, Binary);
            return "0b" + stream;
          }
        case Octal =>
          if allowed.octal {
            stream := PrintInteger(val, Octal);
            return "0o" + stream;
          }
        case Hexadecimal =>
          if allowed.hexadecimal {
            stream := PrintInteger(val, Hexadecimal);
            return "0x" + stream;
          }
        case Plain =>
      }
    }
    stream := PrintInteger(val, Plain);
    assert "" + stream == stream;
  }

  // ----- the round trip -----

  lemma {:induction false} DigitsAreABody(base: nat, s: string, view: string)
    requires AllDigits(base, s) && |s| <= |view|
    ensures Spaced(base, s, view) && Strip(s) == s
    ensures s != "" && view[|s| - 1] != '_' ==> Body(base, s, view)
  {
    if s != "" {
      DigitsAreABody(base, s[..|s| - 1], view);
      assert s[..|s| - 1] + [s[|s| - 1]] == s;
    }
  }

  lemma DigitsAreNotEnds(base: nat, s: string)
    requires AllDigits(base, s)
    ensures forall i :: 0 <= i < |s| ==> !IsValueTerminator(s[i])
  {
    forall i | 0 <= i < |s| ensures !IsValueTerminator(s[i]) {
      DigitDoesNotEnd(base, s[i]);
    }
  }

  /** A numeral is as long as its value needs, so far from the parser's limit. */
  lemma NumeralFits(base: nat, n: nat)
    requires IsBase(base) && n <= -I64_MIN && (base != 10 ==> n <= I64_MAX)
    ensures |Numeral(base, n)| <= MaxDigits(base)
  {
    hide Numeral, ValueOf, Power;
    var s := Numeral(base, n);
    NumeralRoundTrip(base, n);
    PowerLimits(base);
    if |s| > MaxDigits(base) && n != 0 {
      ValueOfBounds(base, s);
      PowerGrows(base, MaxDigits(base), |s| - 1);
    }
    if n == 0 { OneDigit(base, 0); }
  }

  /** A written literal in front of the end of a value is read whole. */
  lemma ReadLiteral(base: nat, lead: string, s: string, rest: string)
    requires IsBase(base) && AllDigits(base, s) && 0 < |s| <= MAX_LITERAL_DIGITS && EndsValue(rest)
    requires if base == 10 then lead == "" || lead == "-" else lead == PrefixOf(base)
    ensures ReadInteger(base, lead + s + rest)
            == match Converted(base, s, lead == "-")
               case Some(v) => Some((v, |lead + s|))
               case None => None
  {
    hide Strip, Spaced, ValueOf, Body, Converted, ReadAs, IsDigit, IsValueTerminator, HexToDec;
    var text := lead + s + rest;
    LeadChars();
    DigitsAreNotEnds(base, s);
    ValueLengthIs(lead + s, rest);
    assert text[|lead|] == s[0];
    assert LeadLength(base, text) == |lead| by { SignsAreNotDigits(base, s[0]); }
    assert PrefixOf(base) <= text;
    assert text[|lead|..|lead + s|] == s;
    UnderscoreIsNoDigit(base);
    assert text[|lead|..][|s| - 1] == s[|s| - 1];
    DigitsAreABody(base, s, text[|lead|..]);
    LiteralRead(base, text, text);
    assert IsNegative(base, text) == (lead == "-") by { SignsAreNotDigits(base, s[0]); }
  }

  lemma SignsAreNotDigits(base: nat, c: char)
    requires IsDigit(base, c)
    ensures c != '+' && c != '-'
  {
  }

  /** Every 64-bit integer comes back, in whichever base it was written. */
  lemma IntegerRoundTrip(val: int, format: Format, allowed: Allowed, rest: string)
    requires I64_MIN <= val <= I64_MAX && EndsValue(rest)
    ensures var base, text := BaseOf(FormatFor(val, format, allowed)), Written(val, format, allowed);
            ReadInteger(base, text + rest) == Some((val, |text|))
  {
    hide ReadInteger, Numeral, ValueOf, IsDigit;
    var base := BaseOf(FormatFor(val, format, allowed));
    var magnitude: nat := if val < 0 then -val else val;
    var s := Numeral(base, magnitude);
    NumeralRoundTrip(base, magnitude);
    NumeralFits(base, magnitude);
    if magnitude == 0 { OneDigit(base, 0); }
    var lead := if val < 0 then "-" else PrefixOf(base);
    ReadLiteral(base, lead, s, rest);
    assert Written(val, format, allowed) == lead + s;
  }
}
