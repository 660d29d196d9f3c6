/**
  How a value that begins with a digit or a sign is told apart: the scan ahead collects its traits, goes
  back, and the traits decide which parser runs.
 */
module TomlValue {

  import opened Options
  import opened Utf8
  import opened Utf8Reader
  import opened HistoryRing
  import opened TomlCursor
  import opened TomlNumerals
  import opened TomlInteger
  import opened TomlLookback
  import opened TomlDateTime

  // ----- traits -----

  datatype Trait = Digits | B | E | O | P | T | X | Z | Colon | Plus | Minus | Dot
                 | BeginsSign | BeginsDigit | BeginsZero

  type Traits = set<Trait>

  predicate IsSign(c: char) { c == '+' || c == '-' }

  /** What the first character says; other values than these are told apart by it alone. */
  function Begins(c: char): Option<Traits> {
    if IsDigit(10, c) then Some(if c == '0' then {BeginsDigit, BeginsZero} else {BeginsDigit})
    else if IsSign(c) then Some({BeginsSign})
    else None
  }

  function LowerCase(c: char): char {
    if 'A' <= c <= 'Z' then (c as int + 32) as char else c
  }

  /** The trait that one more character behind `chars` brings, if any. */
  function TraitOf(tr: Traits, chars: string, c: char): Option<Trait> {
    var n, k := |chars| + 1, LowerCase(c);
    if IsDigit(10, c) then Some(Digits)
    else if k == 'b' then if n == 2 && BeginsZero in tr then Some(B) else None
    else if k == 'e' then
      if n > 1 && tr !! {B, O, P, T, X, Z, Colon} && (tr !! {Plus, Minus} || BeginsSign in tr) then Some(E) else None
    else if k == 'o' then if n == 2 && BeginsZero in tr then Some(O) else None
    else if k == 'p' then if X in tr then Some(P) else None
    else if k == 'x' then
      if (n == 2 && BeginsZero in tr) || (n == 3 && BeginsSign in tr && chars[1] == '0') then Some(X) else None
    else if k == 't' then Some(T)
    else if k == 'z' then Some(Z)
    else if c == '+' then Some(Plus)
    else if c == '-' then Some(Minus)
    else if c == '.' then Some(Dot)
    else if c == ':' then Some(Colon)
    else None
  }

  function AddTraits(tr: Traits, chars: string, c: char): Traits {
    match TraitOf(tr, chars, c) case None => tr case Some(t) => tr + {t}
  }

  /** The characters passed, without underscores, and their traits. */
  datatype Looked = Looked(chars: string, traits: Traits)

  function LookOne(l: Looked, c: char): Looked {
    if c == '_' then l else Looked(l.chars + [c], AddTraits(l.traits, l.chars, c))
  }

  function Look(l: Looked, s: string): (r: Looked)
    ensures |l.chars| <= |r.chars| <= |l.chars| + |s| && l.chars <= r.chars
  {
    if s == "" then l else LookOne(Look(l, s[..|s| - 1]), s[|s| - 1])
  }

  lemma {:induction false} LookConcat(l: Looked, a: string, b: string)
    ensures Look(l, a + b) == Look(Look(l, a), b)
  {
    if b == "" {
      assert a + b == a;
    } else {
      assert (a + b)[..|a + b| - 1] == a + b[..|b| - 1];
      LookConcat(l, a, b[..|b| - 1]);
    }
  }

  /** Where a scan that starts behind `k` characters ends: it passes one character unseen, then goes on to
      the end of the value, but not beyond 127 in all. */
  function ScanEnd(text: string, k: nat): (n: nat)
    requires k <= |text|
    ensures k <= n <= |text| && (k < |text| ==> k < n) && (k < HISTORY_SIZE ==> n <= HISTORY_SIZE)
    ensures n <= k + 1 || n <= HISTORY_SIZE
  {
    if k == |text| then k
    else k + 1 + Max(0, Min(ValueLength(text[k + 1..]), HISTORY_SIZE - 1 - k))
  }

  // ----- the scan ahead -----

  /** What the first scan finds. */
  function First(text: string): Looked
    requires text != "" && Begins(text[0]).Some?
  {
    Look(Looked("", Begins(text[0]).value), text[..ScanEnd(text, 0)])
  }

  /** So far it could be the date of a date-time with a blank instead of a T. */
  predicate DateLike(l: Looked) {
    && |l.chars| == 10
    && l.traits + {BeginsZero} == {BeginsDigit, BeginsZero, Digits, Minus}
    && l.chars[4] == '-' && l.chars[7] == '-'
  }

  predicate BlankBehindDate(text: string)
    requires text != "" && Begins(text[0]).Some?
  {
    var a := ScanEnd(text, 0);
    DateLike(First(text)) && a < |text| && text[a] == ' '
  }

  /** Then the scan goes on, if a digit follows the blank. */
  predicate ScansFurther(text: string)
    requires text != "" && Begins(text[0]).Some?
  {
    var a := ScanEnd(text, 0);
    BlankBehindDate(text) && a + 1 < |text| && IsDigit(10, text[a + 1])
  }

  function FurtherEnd(text: string): (b: nat)
    requires text != "" && Begins(text[0]).Some? && ScansFurther(text)
    ensures b <= |text|
  {
    ScanEnd(text, ScanEnd(text, 0) + 2)
  }

  function Further(text: string): Looked
    requires text != "" && Begins(text[0]).Some? && ScansFurther(text)
  {
    var a, l := ScanEnd(text, 0), First(text);
    Look(Looked(l.chars + [' ', text[a + 1]], l.traits + {T}), text[a + 2..FurtherEnd(text)])
  }

  /** How far ahead the reader has been at the end of it. */
  function Reach(text: string): (n: nat)
    requires text != "" && Begins(text[0]).Some?
    ensures 0 < n <= |text|
  {
    if ScansFurther(text) then FurtherEnd(text)
    else if BlankBehindDate(text) then ScanEnd(text, 0) + 1
    else ScanEnd(text, 0)
  }

  /** What the scan ahead leaves: what was seen, how many characters that is, and whether the scan met the
      end of the input. */
  datatype Outlook = Outlook(looked: Looked, advanced: nat, eof: bool)

  function OutlookOf(text: string): Outlook
    requires text != "" && Begins(text[0]).Some?
  {
    var a := ScanEnd(text, 0);
    if !ScansFurther(text) then Outlook(First(text), a, a == |text|)
    else
      var b := FurtherEnd(text);
      var eof := a + 2 < |text| && b == |text|;
      if |Further(text).chars| == 12 then Outlook(First(text), a, eof) else Outlook(Further(text), b, eof)
  }

  /** The scan relies on two things it does not check: that all it has passed can be stepped back over, and
      that the digit behind the blank does not end the value. */
  predicate Foreseen(text: string)
    requires text != "" && Begins(text[0]).Some?
  {
    && Reach(text) <= HISTORY_SIZE
    && (ScansFurther(text) ==>
          var at := ScanEnd(text, 0) + 2;
          at < |text| ==> !IsValueTerminator(text[at]))
  }

  /** The first of them fails exactly behind a date with too many underscores. */
  lemma ReachExactly(text: string)
    requires text != "" && Begins(text[0]).Some?
    ensures var a := ScanEnd(text, 0);
            Reach(text) > HISTORY_SIZE <==>
            BlankBehindDate(text) && (a == 127 || (ScansFurther(text) && a > (if a + 2 == |text| then 125 else 124)))
  {
    hide ValueLength, First, IsDigit;
  }

  /** The characters collected so far. */
  ghost predicate Holds(l: Looked, chars: array<char>, count: nat, traits: Traits)
    reads chars
  {
    count <= chars.Length && l == Looked(chars[..count], traits)
  }

  /** One character of the scan. */
  method LookAt(ch: char, chars: array<char>, before: nat, traitsBefore: Traits, ghost l: Looked)
    returns (count: nat, traits: Traits)
    requires Holds(l, chars, before, traitsBefore) && before < chars.Length
    modifies chars
    ensures Holds(LookOne(l, ch), chars, count, traits) && before <= count <= before + 1
  {
    count, traits := before, traitsBefore;
    if ch != '_' {
      traits := AddTraits(traits, chars[..count], ch);
      chars[count] := ch;
      count := count + 1;
      assert chars[..count] == l.chars + [ch];
    }
  }

  lemma LookNext(l: Looked, text: string, k: nat, n: nat)
    requires k <= n < |text|
    ensures Look(l, text[k..n + 1]) == LookOne(Look(l, text[k..n]), text[n])
  {
    assert text[k..n + 1][..n - k] == text[k..n];
  }

  lemma LookNothing(l: Looked, text: string, k: nat)
    requires k <= |text|
    ensures Look(l, text[k..k]) == l
  {
  }

  /** `scan`: at least one character, then on to the end of the value or to 127 in all. */
  method ScanOn(c: TextCursor, chars: array<char>, before: nat, traitsBefore: Traits, from: nat,
                ghost l: Looked, ghost text: string, ghost start: nat, ghost top: int)
    returns (count: nat, traits: Traits, advanceCount: nat)
    requires Moved(c, text, start, top, from) && chars !in c.Repr() && chars.Length == HISTORY_SIZE + 1
    requires Holds(l, chars, before, traitsBefore) && before + Max(1, HISTORY_SIZE - from) <= chars.Length
    modifies c.Repr(), chars
    ensures c.Valid()
    ensures !c.Broken() ==>
              && from <= |text| && advanceCount == ScanEnd(text, from)
              && Moved(c, text, start, top, advanceCount)
              && Holds(Look(l, text[from..advanceCount]), chars, count, traits)
  {
    hide Moved, TextCursor.Valid, TextCursor.Rest, ValueLength, IsValueTerminator, Look, LookOne, Holds;
    count, traits, advanceCount := before, traitsBefore, from;
    MovedTo(c, text, start, top, from);
    LookNothing(l, text, from);
    HoldsFits(l, chars, count, traits);
    if c.IsEof() { return; }
    while advanceCount == from || (advanceCount < HISTORY_SIZE && !c.IsEof() && !IsValueTerminator(c.Peek()))
      invariant c.Valid() && !c.Broken() && Moved(c, text, start, top, advanceCount)
      invariant from <= advanceCount <= |text| && (advanceCount == from ==> !c.IsEof())
      invariant advanceCount == from || advanceCount - from - 1 <= ValueLength(text[from + 1..])
      invariant advanceCount <= Max(from + 1, HISTORY_SIZE) && count <= before + (advanceCount - from)
      invariant Holds(Look(l, text[from..advanceCount]), chars, count, traits)
      decreases Max(from + 1, HISTORY_SIZE) - advanceCount
    {
      MovedTo(c, text, start, top, advanceCount);
      LookNext(l, text, from, advanceCount);
      if advanceCount > from { EndsBehind(text, from + 1, advanceCount); }
      count, traits := LookAt(c.Peek(), chars, count, traits, Look(l, text[from..advanceCount]));
      Move(c, text, start, top, advanceCount);
      if c.Broken() { return; }
      advanceCount := advanceCount + 1;
      MovedTo(c, text, start, top, advanceCount);
    }
    MovedTo(c, text, start, top, advanceCount);
    EndsBehind(text, from + 1, advanceCount);
  }

  lemma HoldsFits(l: Looked, chars: array<char>, count: nat, traits: Traits)
    requires Holds(l, chars, count, traits)
    ensures count == |l.chars| <= chars.Length && traits == l.traits
  {
  }

  lemma EndsBehind(text: string, k: nat, n: nat)
    requires k <= n <= |text| && n - k <= ValueLength(text[k..])
    ensures (n == |text| || IsValueTerminator(text[n])) <==> n - k == ValueLength(text[k..])
  {
    hide ValueLength, IsValueTerminator;
    EndsAt(text[k..], n - k);
  }

  /** The value's text begins at `start`, and the ring reaches back to there. */
  ghost predicate Anchored(c: TextCursor, text: string, start: nat, top: int) {
    && start <= |Text(c.reader.reader.source)| && text == Text(c.reader.reader.source)[start..]
    && top - start <= Recorded(Cursor(0, top))
  }

  /** The scan is over, all assumptions met, and the cursor stands behind what is still counted. */
  ghost predicate ScanDone(c: TextCursor, chars: array<char>, count: nat, traits: Traits, advanced: nat, eof: bool,
                          text: string, start: nat, top: int)
    reads c.Repr(), chars
  {
    && text != "" && Begins(text[0]).Some? && c.Valid() && !c.Broken()
    && Holds(OutlookOf(text).looked, chars, count, traits)
    && OutlookOf(text).advanced == advanced && OutlookOf(text).eof == eof && 0 < advanced <= Reach(text)
    && c.Pos() == start + advanced && c.Top() == Max(top, start + Reach(text))
  }

  /** Back over `n` of the `k` characters passed; the reader has been `b` characters ahead. */
  method Return(c: TextCursor, n: nat, ghost text: string, ghost start: nat, ghost top: int, ghost k: nat, ghost b: nat)
    requires c.Valid() && !c.Broken() && c.Pos() == start + k && c.Top() == Max(top, start + b)
    requires 0 < b <= HISTORY_SIZE && 0 < n <= k <= |text| && Anchored(c, text, start, top)
    modifies c, c.reader
    ensures c.Valid() && !c.Broken() && c.Pos() == start + k - n && c.Top() == Max(top, start + b)
    ensures c.Rest() == text[k - n..] && (c.IsEof() <==> k - n == |text|)
  {
    hide TextCursor.Valid, TextCursor.Rest, Text;
    CanReturn(c, start, top, b, n);
    c.GoBack(n);
    RestIs(c);
    assert Text(c.reader.reader.source)[start..][k - n..] == Text(c.reader.reader.source)[start + k - n..];
  }

  /** The blank behind a date: if a digit follows, the scan goes on, and else it goes back to the blank; and
      it goes back as well if nothing but that digit was found. */
  method ScanFurther(c: TextCursor, chars: array<char>, traitsBefore: Traits, before: nat,
                     ghost text: string, ghost start: nat, ghost top: int)
    returns (foreseen: bool, count: nat, traits: Traits, advanceCount: nat, eof: bool)
    requires text != "" && Begins(text[0]).Some? && BlankBehindDate(text) && before == ScanEnd(text, 0)
    requires Moved(c, text, start, top, before) && chars !in c.Repr() && chars.Length == HISTORY_SIZE + 1
    requires Holds(First(text), chars, 10, traitsBefore) && Anchored(c, text, start, top)
    modifies c.Repr(), chars
    ensures c.Valid()
    ensures !c.Broken() ==> (foreseen <==> Foreseen(text))
    ensures !c.Broken() && foreseen ==> ScanDone(c, chars, count, traits, advanceCount, eof, text, start, top)
  {
    hide Moved, TextCursor.Valid, TextCursor.Rest, ScanEnd, First, IsDigit, OutlookOf, Reach, Foreseen, Holds, Anchored;
    foreseen, count, traits, advanceCount, eof := true, 10, traitsBefore, before, false;
    MovedTo(c, text, start, top, before);
    BlankIsThere(text);
    Move(c, text, start, top, before);
    if c.Broken() { return; }
    MovedTo(c, text, start, top, before + 1);
    HasMoved(c, text, start, top, before + 1);
    if c.IsEof() || !IsDigit(10, c.Peek()) {
      NotFurther(text);
      foreseen := before + 1 <= HISTORY_SIZE;
      if foreseen { Return(c, 1, text, start, top, before + 1, before + 1); }
      return;
    }
    foreseen, count, traits, advanceCount, eof := ScanBehindDigit(c, chars, traitsBefore, before, text, start, top);
  }

  /** A digit behind the blank. */
  method ScanBehindDigit(c: TextCursor, chars: array<char>, traitsBefore: Traits, before: nat,
                         ghost text: string, ghost start: nat, ghost top: int)
    returns (foreseen: bool, count: nat, traits: Traits, advanceCount: nat, eof: bool)
    requires text != "" && Begins(text[0]).Some? && ScansFurther(text) && before == ScanEnd(text, 0)
    requires Moved(c, text, start, top, before + 1) && chars !in c.Repr() && chars.Length == HISTORY_SIZE + 1
    requires Holds(First(text), chars, 10, traitsBefore) && Anchored(c, text, start, top)
    modifies c.Repr(), chars
    ensures c.Valid()
    ensures !c.Broken() ==> (foreseen <==> Foreseen(text))
    ensures !c.Broken() && foreseen ==> ScanDone(c, chars, count, traits, advanceCount, eof, text, start, top)
  {
    hide Moved, TextCursor.Valid, TextCursor.Rest, ScanEnd, First, IsDigit, OutlookOf, Reach, Foreseen, Holds,
         Look, ScansFurther, IsValueTerminator, Further, FurtherEnd, Anchored, Begins;
    foreseen, count, traits, advanceCount, eof := false, 10, traitsBefore, before, false;
    MovedTo(c, text, start, top, before + 1);
    FurtherIs(text);
    ghost var l := First(text);
    ghost var seeded := Looked(l.chars + [' ', text[before + 1]], l.traits + {T});
    HoldsFits(l, chars, 10, traits);
    PutTwo(l, chars, traits, ' ', c.Peek());
    traits := traits + {T};
    Move(c, text, start, top, before + 1);
    if c.Broken() { return; }
    MovedTo(c, text, start, top, before + 2);
    var nothingLeft := c.IsEof();
    if !nothingLeft && IsValueTerminator(c.Peek()) { return; }
    count, traits, advanceCount := ScanOn(c, chars, 12, traits, before + 2, seeded, text, start, top);
    if c.Broken() || advanceCount > HISTORY_SIZE { return; }
    MovedTo(c, text, start, top, advanceCount);
    HasMoved(c, text, start, top, advanceCount);
    HoldsFits(Further(text), chars, count, traits);
    foreseen, eof := true, !nothingLeft && c.IsEof();
    if count == 12 {
      FirstAgain(text, chars, count, traits);
      Return(c, advanceCount - before, text, start, top, advanceCount, advanceCount);
      count, traits, advanceCount := 10, traitsBefore, before;
    }
  }

  method PutTwo(ghost l: Looked, chars: array<char>, traits: Traits, x: char, y: char)
    requires Holds(l, chars, 10, traits) && 12 <= chars.Length
    modifies chars
    ensures Holds(Looked(l.chars + [x, y], l.traits + {T}), chars, 12, traits + {T})
  {
    chars[10], chars[11] := x, y;
    assert chars[..12] == l.chars + [x, y];
  }

  lemma NotFurther(text: string)
    requires text != "" && Begins(text[0]).Some? && BlankBehindDate(text) && !ScansFurther(text)
    ensures var a := ScanEnd(text, 0);
            && OutlookOf(text) == Outlook(First(text), a, a == |text|) && a < |text|
            && Reach(text) == a + 1 && (Foreseen(text) <==> a + 1 <= HISTORY_SIZE)
  {
    hide ScanEnd, First;
  }

  lemma FurtherIs(text: string)
    requires text != "" && Begins(text[0]).Some? && ScansFurther(text)
    ensures var a := ScanEnd(text, 0);
            && a + 1 < |text| && |First(text).chars| == 10 <= a
            && var b, l := FurtherEnd(text), First(text);
            && b == ScanEnd(text, a + 2) == Reach(text)
            && Further(text) == Look(Looked(l.chars + [' ', text[a + 1]], l.traits + {T}), text[a + 2..b])
            && (Foreseen(text) <==> b <= HISTORY_SIZE && (a + 2 < |text| ==> !IsValueTerminator(text[a + 2])))
            && var eof := a + 2 < |text| && b == |text|;
            OutlookOf(text) == (if |Further(text).chars| == 12 then Outlook(l, a, eof)
                                else Outlook(Further(text), b, eof))
  {
    hide ScanEnd, Look, IsDigit, IsValueTerminator;
  }

  /** The date's characters stand in front of what the further scan has added. */
  lemma FirstAgain(text: string, chars: array<char>, count: nat, traits: Traits)
    requires text != "" && Begins(text[0]).Some? && ScansFurther(text)
    requires Holds(Further(text), chars, count, traits)
    ensures Holds(First(text), chars, 10, First(text).traits)
  {
    hide ScanEnd;
    var l := First(text);
    assert l.chars <= Further(text).chars;
    assert chars[..10] == chars[..count][..10] == l.chars;
  }

  lemma BlankIsThere(text: string)
    requires text != "" && Begins(text[0]).Some? && BlankBehindDate(text)
    ensures var a := ScanEnd(text, 0);
            a < |text| && |First(text).chars| == 10 && 10 <= a
  {
    hide ScanEnd;
  }

  /** The scan ahead from the first character, and back to it. */
  method LookAhead(c: TextCursor) returns (foreseen: bool, looked: Looked, advanceCount: nat, eof: bool)
    requires c.Valid() && !c.Broken() && !c.IsEof() && Begins(c.Peek()).Some?
    modifies c.Repr()
    ensures c.Valid()
    ensures !c.Broken() ==> (foreseen <==> Foreseen(old(c.Rest())))
    ensures !c.Broken() && foreseen ==>
              var text := old(c.Rest());
              && Outlook(looked, advanceCount, eof) == OutlookOf(text)
              && c.Rest() == text && !c.IsEof()
              && c.Pos() == old(c.Pos()) && c.Top() == Max(old(c.Top()), c.Pos() + Reach(text))
  {
    hide Moved, TextCursor.Valid, TextCursor.Rest, ScanEnd, First, IsDigit, OutlookOf, Reach, Foreseen, Holds, Anchored,
         BlankBehindDate, ScanDone, AddTraits, Begins, DateLike;
    ghost var text, start, top := c.Rest(), c.Pos(), c.Top();
    Anchor(c);
    NotMoved(c);
    MovedTo(c, text, start, top, 0);
    foreseen, looked, advanceCount, eof := true, Looked("", {}), 0, false;
    var chars := new char[HISTORY_SIZE + 1](_ => '\0');
    var count, traits := 0, Begins(c.Peek()).value;
    HoldsNothing(chars, traits);
    count, traits, advanceCount := ScanOn(c, chars, count, traits, 0, Looked("", traits), text, start, top);
    if c.Broken() { return; }
    FirstIs(text, chars, count, traits);
    MovedTo(c, text, start, top, advanceCount);
    if DateLike(Looked(chars[..count], traits)) && !c.IsEof() && c.Peek() == ' ' {
      BlankIs(text);
      foreseen, count, traits, advanceCount, eof := ScanFurther(c, chars, traits, advanceCount, text, start, top);
      if c.Broken() || !foreseen { return; }
    } else {
      BlankIs(text);
      eof := c.IsEof();
      ScanIsDone(c, chars, count, traits, advanceCount, eof, text, start, top);
    }
    looked := GoBackToStart(c, chars, count, traits, advanceCount, eof, text, start, top);
  }

  method GoBackToStart(c: TextCursor, chars: array<char>, count: nat, traits: Traits, advanceCount: nat, eof: bool,
                       ghost text: string, ghost start: nat, ghost top: int) returns (looked: Looked)
    requires ScanDone(c, chars, count, traits, advanceCount, eof, text, start, top)
    requires Anchored(c, text, start, top) && text != "" && Begins(text[0]).Some? && Foreseen(text)
    modifies c, c.reader
    ensures c.Valid() && !c.Broken() && Outlook(looked, advanceCount, eof) == OutlookOf(text)
    ensures c.Rest() == text && !c.IsEof() && c.Pos() == start && c.Top() == Max(top, start + Reach(text))
  {
    hide TextCursor.Valid, TextCursor.Rest, OutlookOf, Reach, Anchored, Begins;
    looked := Looked(chars[..count], traits);
    Return(c, advanceCount, text, start, top, advanceCount, Reach(text));
    assert text[0..] == text;
  }

  lemma Anchor(c: TextCursor)
    requires c.Valid() && !c.Broken() && !c.IsEof()
    ensures Anchored(c, c.Rest(), c.Pos(), c.Top()) && c.Rest() != "" && c.Peek() == c.Rest()[0]
  {
    hide TextCursor.Valid;
    StartsRecorded(c);
    RestIs(c);
  }

  lemma HoldsNothing(chars: array<char>, traits: Traits)
    ensures Holds(Looked("", traits), chars, 0, traits)
  {
    assert chars[..0] == "";
  }

  lemma FirstIs(text: string, chars: array<char>, count: nat, traits: Traits)
    requires text != "" && Begins(text[0]).Some?
    requires Holds(Look(Looked("", Begins(text[0]).value), text[0..ScanEnd(text, 0)]), chars, count, traits)
    ensures Holds(First(text), chars, count, traits) && count <= chars.Length
    ensures First(text) == Looked(chars[..count], traits) && count == |First(text).chars|
  {
    hide ScanEnd, Look, Begins;
    assert text[0..ScanEnd(text, 0)] == text[..ScanEnd(text, 0)];
  }

  lemma BlankIs(text: string)
    requires text != "" && Begins(text[0]).Some?
    ensures var a := ScanEnd(text, 0);
            && (BlankBehindDate(text) <==> DateLike(First(text)) && a < |text| && text[a] == ' ')
            && (BlankBehindDate(text) ==> |First(text).chars| == 10)
            && (!BlankBehindDate(text) ==> OutlookOf(text) == Outlook(First(text), a, a == |text|) && Reach(text) == a)
            && (!BlankBehindDate(text) ==> Foreseen(text))
            && 0 < a <= HISTORY_SIZE
  {
    hide ScanEnd, First, Begins;
  }

  lemma ScanIsDone(c: TextCursor, chars: array<char>, count: nat, traits: Traits, advanced: nat, eof: bool,
                   text: string, start: nat, top: int)
    requires text != "" && Begins(text[0]).Some? && !BlankBehindDate(text) && advanced == ScanEnd(text, 0)
    requires Moved(c, text, start, top, advanced) && Holds(First(text), chars, count, traits)
    requires eof <==> advanced == |text|
    ensures ScanDone(c, chars, count, traits, advanced, eof, text, start, top)
  {
    hide TextCursor.Valid, TextCursor.Rest, ScanEnd, First, Begins, BlankBehindDate, OutlookOf, Reach, Holds;
    BlankIs(text);
  }

  // ----- the kinds of value -----

  datatype Kind = Digit | SignedDigit | IntegerIn(base: nat) | DateKind | TimeKind | DateTimeKind
                | FloatKind | HexFloatKind | InfOrNanKind | NoKind

  /** Which parser runs: first what needs no second look, then the table of traits. */
  function KindOf(l: Looked): Kind
    requires l.chars != ""
  {
    var tr, n := l.traits, |l.chars|;
    if n == 1 then if BeginsDigit in tr then Digit else NoKind
    else if P in tr then HexFloatKind
    else if X in tr then IntegerIn(16)
    else if O in tr then IntegerIn(8)
    else if B in tr then IntegerIn(2)
    else if E in tr || (BeginsDigit in tr && l.chars[1] == '.') then FloatKind
    else if BeginsSign in tr && n == 2 && Digits in tr then SignedDigit
    else if BeginsSign in tr && n > 2 && IsDigit(10, l.chars[1]) && l.chars[2] == '.' then FloatKind
    else if BeginsSign in tr && l.chars[1] in "inIN" then InfOrNanKind
    else KindFromTable(tr)
  }

  /** Without the rows that were decided before. */
  function KindFromTable(tr: Traits): Kind {
    if tr == {BeginsSign, Digits, Minus} || tr == {BeginsSign, Digits, Plus} then IntegerIn(10)
    else if tr == {BeginsSign, Digits, Dot, Minus} || tr == {BeginsSign, Digits, Dot, Plus} then FloatKind
    else
      var rest := tr + {BeginsZero};
      if rest == {BeginsDigit, BeginsZero, Digits} then IntegerIn(10)
      else if rest == {BeginsDigit, BeginsZero, Digits, Dot} then FloatKind
      else if rest - {Dot} == {BeginsDigit, BeginsZero, Digits, Colon} then TimeKind
      else if rest == {BeginsDigit, BeginsZero, Digits, Minus} then DateKind
      else if rest - {Dot, Plus} == {BeginsDigit, BeginsZero, Digits, Minus, Colon, T} then DateTimeKind
      else if rest - {Dot} == {BeginsDigit, BeginsZero, Digits, Minus, Colon, Z, T} then DateTimeKind
      else NoKind
  }

  // ----- the value -----

  datatype Value = OfInteger(i: int) | OfDate(d: Date) | OfTime(t: Time) | OfDateTime(dt: DateTime)

  /** What comes of a value: an error, a scan that its own assumptions do not cover, a parser that is not
      part of this model, or the value. */
  datatype Outcome = Refused | Unforeseen | Elsewhere(kind: Kind) | Read(value: Value)

  function DigitOf(c: char): int { c as int - '0' as int }

  /** What is read at the start of `text`, and its length, if looking back yields `view`. */
  function ValueAs(text: string, view: string): (Outcome, nat)
    requires text != "" && |text| == |view|
  {
    if Begins(text[0]).None? then (Elsewhere(NoKind), 0)
    else if !Foreseen(text) then (Unforeseen, 0)
    else
      SomethingSeen(text);
      BaseOfKind(OutlookOf(text).looked);
      ReadByKind(KindOf(OutlookOf(text).looked), OutlookOf(text).looked.chars, text, view)
  }

  function ReadByKind(kind: Kind, chars: string, text: string, view: string): (Outcome, nat)
    requires |text| == |view| && (kind.Digit? ==> |chars| == 1) && (kind.SignedDigit? ==> |chars| == 2)
    requires kind.IntegerIn? ==> IsBase(kind.base)
  {
    match kind
    case Digit => (Read(OfInteger(DigitOf(chars[0]))), 1)
    case SignedDigit => (Read(OfInteger(if chars[0] == '-' then -DigitOf(chars[1]) else DigitOf(chars[1]))), 2)
    case IntegerIn(base) =>
      (match NumberAs(base, text, view) case None => (Refused, 0) case Some(r) => (Read(OfInteger(r.0)), r.1))
    case DateKind => (match ReadDate(text, false) case None => (Refused, 0) case Some(d) => (Read(OfDate(d)), 10))
    case TimeKind => (match ReadTime(text, false) case None => (Refused, 0) case Some(t) => (Read(OfTime(t.0)), t.1))
    case DateTimeKind =>
      (match ReadDateTime(text) case None => (Refused, 0) case Some(v) => (Read(OfDateTime(v.0)), v.1))
    case NoKind => (Refused, 0)
    case _ => (Elsewhere(kind), 0)
  }

  /** The first character is always seen. */
  lemma SomethingSeen(text: string)
    requires text != "" && Begins(text[0]).Some?
    ensures var l := OutlookOf(text).looked;
            && l.chars != "" && l.chars[0] == text[0]
            && (|l.chars| >= 2 ==> |text| >= 2)
  {
    FirstSeen(text);
    hide ScanEnd, Begins, Look, AddTraits;
    if ScansFurther(text) { FurtherIs(text); }
  }

  lemma FirstSeen(text: string)
    requires text != "" && Begins(text[0]).Some?
    ensures First(text).chars != "" && First(text).chars[0] == text[0]
    ensures |First(text).chars| <= |text|
  {
    var l, a := Looked("", Begins(text[0]).value), ScanEnd(text, 0);
    assert text[..a] == text[..1] + text[1..a];
    LookConcat(l, text[..1], text[1..a]);
    assert text[..1][..0] == "" && text[..1] == [text[0]];
    assert Look(l, text[..1]) == LookOne(Look(l, ""), text[0]);
  }

  /** Behind the third character no base prefix is found, and none is lost. */
  lemma {:induction false} LookKeeps(l: Looked, s: string)
    requires |l.chars| >= 3
    ensures l.traits <= Look(l, s).traits
    ensures forall x :: x in Look(l, s).traits && (x == B || x == O || x == X) ==> x in l.traits
  {
    hide TraitOf, LookOne;
    if s != "" {
      LookKeeps(l, s[..|s| - 1]);
      LookOneKeeps(Look(l, s[..|s| - 1]), s[|s| - 1]);
    }
  }

  lemma LookOneKeeps(l: Looked, c: char)
    requires |l.chars| >= 3
    ensures l.traits <= LookOne(l, c).traits
    ensures forall x :: x in LookOne(l, c).traits && (x == B || x == O || x == X) ==> x in l.traits
  {
  }

  /** An integer is seen in one scan, as far as its length and the ring allow. */
  lemma IntegersAreScannedOnce(text: string)
    requires text != "" && Begins(text[0]).Some?
    requires OutlookOf(text).looked.chars != "" && KindOf(OutlookOf(text).looked).IntegerIn?
    ensures var o := OutlookOf(text);
            && o == Outlook(First(text), ScanLength(text), ScanLength(text) == |text|)
            && Reach(text) == ScanLength(text)
            && (TooLong(10, text) <==> !o.eof && o.advanced > MAX_NUMERIC_LENGTH)
  {
    hide ScanEnd, First, Look, AddTraits, Begins, KindOf, DateLike, Further;
    BlankIs(text);
    if BlankBehindDate(text) { DateIsNoInteger(First(text)); }
    if ScansFurther(text) {
      FurtherIs(text);
      var a, l := ScanEnd(text, 0), First(text);
      BlankIsThere(text);
      LookKeeps(Looked(l.chars + [' ', text[a + 1]], l.traits + {T}), text[a + 2..FurtherEnd(text)]);
      DatedIsNoInteger(l.traits, Further(text));
    }
    ScanLengthIs(text);
  }

  lemma DateIsNoInteger(l: Looked)
    requires DateLike(l)
    ensures KindOf(l) == DateKind || KindOf(l) == FloatKind
    ensures l.chars[1] != '.' ==> KindOf(l) == DateKind
    ensures B !in l.traits && O !in l.traits && X !in l.traits
  {
    assert l.traits <= {BeginsDigit, BeginsZero, Digits, Minus};
    assert BeginsDigit in l.traits + {BeginsZero};
  }

  /** Nor is it a date once the scan has gone on behind one. */
  lemma DatedIsNoInteger(tr: Traits, l: Looked)
    requires |l.chars| > 1 && T in l.traits && B !in l.traits && O !in l.traits && X !in l.traits
    ensures !KindOf(l).IntegerIn? && KindOf(l) != DateKind
  {
    assert T in l.traits + {BeginsZero} && T in l.traits + {BeginsZero} - {Dot};
  }

  lemma ScanLengthIs(text: string)
    requires text != "" && Begins(text[0]).Some?
    ensures ScanEnd(text, 0) == ScanLength(text)
  {
    BeginsInside(text[0]);
    hide IsValueTerminator, Begins;
  }

  lemma BeginsInside(c: char)
    requires Begins(c).Some?
    ensures !IsValueTerminator(c)
  {
  }

  lemma BaseOfKind(l: Looked)
    requires l.chars != ""
    ensures var kind := KindOf(l);
            && (kind.IntegerIn? ==> IsBase(kind.base))
            && (kind.Digit? ==> |l.chars| == 1) && (kind.SignedDigit? ==> |l.chars| == 2)
  {
  }

  /** `parse_value`; values that begin with neither a digit nor a sign are told apart elsewhere. */
  method ParseValue(c: TextCursor) returns (r: Outcome)
    requires c.Valid() && !c.Broken() && !c.IsEof()
    modifies c.Repr()
    ensures c.Valid() && (c.Broken() ==> r == Refused)
    ensures !c.Broken() ==>
              var text := old(c.Rest());
              text != "" &&
              var view := ViewOf(c, text, old(c.Pos()), old(c.Top()));
              && |text| == |view| && r == ValueAs(text, view).0
              && (r.Read? ==> var n := ValueAs(text, view).1; n <= |text| && c.Rest() == text[n..])
  {
    hide TextCursor.Valid, TextCursor.Rest, OutlookOf, Reach, Foreseen, Begins, KindOf, ReadByKind, ViewOf, ValueAs;
    ghost var text, start, top := c.Rest(), c.Pos(), c.Top();
    Anchor(c);
    ViewOfFits(c, text);
    ValueUnseen(text, ViewOf(c, text, start, top));
    if Begins(c.Peek()).None? { return Elsewhere(NoKind); }
    var foreseen, looked, advanceCount, eof := LookAhead(c);
    if c.Broken() { return Refused; }
    if !foreseen { return Unforeseen; }
    ViewIs(c, text, start, top);
    ValueSeen(text, ViewOf(c, text, start, top));
    r := ParseKind(c, KindOf(looked), looked.chars, advanceCount, eof);
  }

  lemma ValueUnseen(text: string, view: string)
    requires text != "" && |text| == |view|
    ensures Begins(text[0]).None? ==> ValueAs(text, view).0 == Elsewhere(NoKind)
    ensures Begins(text[0]).Some? && !Foreseen(text) ==> ValueAs(text, view).0 == Unforeseen
  {
    hide Begins, Foreseen, OutlookOf, KindOf, ReadByKind;
  }

  /** What the parser chosen by the scan needs to know, and that its answer is the value's. */
  lemma ValueSeen(text: string, view: string)
    requires text != "" && |text| == |view| && Begins(text[0]).Some? && Foreseen(text)
    ensures var o := OutlookOf(text);
            && o.looked.chars != ""
            && var kind := KindOf(o.looked);
            && (kind.Digit? ==> |o.looked.chars| == 1)
            && (kind.SignedDigit? ==> |o.looked.chars| == 2 && |text| >= 2)
            && (kind.IntegerIn? ==>
                  IsBase(kind.base) && (TooLong(10, text) <==> !o.eof && o.advanced > MAX_NUMERIC_LENGTH))
            && ValueAs(text, view) == ReadByKind(kind, o.looked.chars, text, view)
  {
    hide Begins, Foreseen, OutlookOf, KindOf, ReadByKind, TooLong;
    SomethingSeen(text);
    BaseOfKind(OutlookOf(text).looked);
    if KindOf(OutlookOf(text).looked).IntegerIn? { IntegersAreScannedOnce(text); }
  }

  lemma ViewIs(c: TextCursor, text: string, start: nat, top: int)
    requires c.Valid() && !c.Broken() && text != "" && Begins(text[0]).Some?
    requires c.Pos() == start && c.Top() == Max(top, start + Reach(text))
    ensures ViewOf(c, text, start, top) == SeenFrom(c, c.Pos(), c.Top())
  {
    hide TextCursor.Valid, Begins, Reach;
  }

  /** What looking back from inside the value yields, once the scan has been ahead. */
  ghost function ViewOf(c: TextCursor, text: string, start: nat, top: int): string
    requires text != ""
  {
    SeenFrom(c, start, if Begins(text[0]).Some? then Max(top, start + Reach(text)) else top)
  }

  lemma ViewOfFits(c: TextCursor, text: string)
    requires c.Valid() && !c.Broken() && text != "" && text == c.Rest()
    ensures |ViewOf(c, text, c.Pos(), c.Top())| == |text|
  {
    hide TextCursor.Valid, Reach, Begins;
    c.PosInText();
  }

  method ParseKind(c: TextCursor, kind: Kind, chars: string, advanceCount: nat, eof: bool) returns (r: Outcome)
    requires c.Valid() && !c.Broken() && !c.IsEof()
    requires (kind.Digit? ==> |chars| == 1) && (kind.SignedDigit? ==> |chars| == 2)
    requires kind.IntegerIn? ==> IsBase(kind.base)
    requires kind.SignedDigit? ==> |c.Rest()| >= 2
    requires kind.IntegerIn? ==> (TooLong(10, c.Rest()) <==> !eof && advanceCount > MAX_NUMERIC_LENGTH)
    modifies c.Repr()
    ensures c.Valid() && (c.Broken() ==> r == Refused)
    ensures !c.Broken() ==>
              var text, view := old(c.Rest()), old(SeenFrom(c, c.Pos(), c.Top()));
              && |text| == |view| && r == ReadByKind(kind, chars, text, view).0
              && (r.Read? ==> var n := ReadByKind(kind, chars, text, view).1; n <= |text| && c.Rest() == text[n..])
  {
    hide TextCursor.Valid, TextCursor.Rest, SeenFrom, ReadAs, ReadDate, ReadTime, ReadDateTime, ScanLength;
    ViewFits(c);
    c.EndIsReached();
    match kind {
      case Digit =>
        var ok := Skip(c, 1);
        return if ok then Read(OfInteger(DigitOf(chars[0]))) else Refused;
      case SignedDigit =>
        var ok := Skip(c, 2);
        return if ok then Read(OfInteger(DigitOf(chars[1]) * (if chars[0] == '-' then -1 else 1))) else Refused;
      case IntegerIn(base) =>
        if base == 10 && !eof && advanceCount > MAX_NUMERIC_LENGTH { return Refused; }
        var i := ParseInteger(base, c);
        return if i.Some? then Read(OfInteger(i.value)) else Refused;
      case DateKind =>
        var d := ParseDate(c, false);
        return if d.Some? then Read(OfDate(d.value)) else Refused;
      case TimeKind =>
        var t := ParseTime(c, false);
        return if t.Some? then Read(OfTime(t.value)) else Refused;
      case DateTimeKind =>
        var dt := ParseDateTime(c);
        return if dt.Some? then Read(OfDateTime(dt.value)) else Refused;
      case NoKind =>
        return Refused;
      case _ =>
        return Elsewhere(kind);
    }
  }

  method Skip(c: TextCursor, n: nat) returns (ok: bool)
    requires c.Valid() && !c.Broken() && n <= |c.Rest()|
    modifies c.Repr()
    ensures c.Valid() && ok == !c.Broken()
    ensures ok ==> c.Rest() == old(c.Rest())[n..]
  {
    hide TextCursor.Valid, TextCursor.Rest, Stands;
    ghost var text := c.Rest();
    StandsHere(c);
    var i := 0;
    while i < n
      invariant i <= n && c.Valid() && !c.Broken() && Stands(c, text, i)
    {
      StandsAt(c, text, i);
      ok := TomlCursor.Step(c, text, i);
      if !ok { return; }
      i := i + 1;
    }
    StandsAt(c, text, n);
    ok := true;
  }
}
