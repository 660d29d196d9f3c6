/** Printing a dotted path and parsing it back. */
module TomlPath {

  import opened Options
  import opened TomlNumerals

  datatype Component = Key(name: string) | Index(index: nat)

  const SIZE_LIMIT := 0x1_0000_0000_0000_0000

  predicate IsBlank(c: char) { c == ' ' || c == '\t' }
  predicate IsSyntax(c: char) { c == '.' || c == '[' || c == ']' }

  // ----- what the parser does, on the rest of the text -----

  function Blanks(s: string): (n: nat)
    ensures n <= |s| && (n < |s| ==> !IsBlank(s[n]))
    ensures forall i :: 0 <= i < n ==> IsBlank(s[i])
  {
    if s == [] || !IsBlank(s[0]) then 0 else 1 + Blanks(s[1..])
  }

  /** The length of a regular segment: up to the next '.', '[' or ']'. */
  function SegmentLength(s: string): (n: nat)
    ensures n <= |s| && (n < |s| ==> IsSyntax(s[n]))
    ensures forall i :: 0 <= i < n ==> !IsSyntax(s[i])
  {
    if s == [] || IsSyntax(s[0]) then 0 else 1 + SegmentLength(s[1..])
  }

  /** What follows an index: blanks, then a ']' that is taken, or the end, a '.' or a '['. */
  function AfterIndex(s: string): (r: Option<nat>)
    ensures r.Some? ==> r.value <= |s|
  {
    var n := Blanks(s);
    if n == |s| then Some(n)
    else if s[n] == ']' then Some(n + 1)
    else if s[n] == '.' || s[n] == '[' then Some(n)
    else None
  }

  /** An index after its '[': the number and how much text it takes. */
  function ReadIndex(s: string): (r: Option<(nat, nat)>)
    ensures r.Some? ==> r.value.1 <= |s| && r.value.0 < SIZE_LIMIT
  {
    var a := Blanks(s);
    var n := DigitRun(s[a..]);
    if n == 0 then None
    else
      var b := a + n;
      if b < |s| && s[b] != ']' && !IsBlank(s[b]) && s[b] != '.' && s[b] != '[' then None
      else
        var rest := AfterIndex(s[b..]);
        var v := ValueOf(10, s[a..][..n]);
        if rest.None? || v >= SIZE_LIMIT then None else Some((v, b + rest.value))
  }

  predicate AllBlank(s: string) {
    forall i :: 0 <= i < |s| ==> IsBlank(s[i])
  }

  function ParseFrom(s: string, acc: seq<Component>, afterIndex: bool, afterDot: bool): Option<seq<Component>>
    decreases |s|
  {
    if s == [] then Some(if afterDot then acc + [Key("")] else acc)
    else if s[0] == '[' then
      var r := ReadIndex(s[1..]);
      if r.None? then None
      else ParseFrom(s[1 + r.value.1..], acc + [Index(r.value.0)], true, false)
    else if s[0] == '.' then
      ParseFrom(s[1..], if afterDot then acc + [Key("")] else acc, false, true)
    else if s[0] == ']' then None
    else
      var n := SegmentLength(s);
      if afterIndex then
        if AllBlank(s[..n]) then ParseFrom(s[n..], acc, false, false) else None
      else ParseFrom(s[n..], acc + [Key(s[..n])], false, false)
  }

  function Parse(path: string): Option<seq<Component>> {
    ParseFrom(path, [], false, true)
  }

  // ----- what the printer does -----

  function PrintOne(c: Component, root: bool): string {
    match c
    case Key(k) => (if root then "" else ".") + k
    case Index(i) => "[" + Numeral(10, i) + "]"
  }

  function PrintFrom(cs: seq<Component>, root: bool): string {
    if cs == [] then "" else PrintOne(cs[0], root) + PrintFrom(cs[1..], false)
  }

  function Print(cs: seq<Component>): string {
    PrintFrom(cs, true)
  }

  // ----- the round trip -----

  predicate CleanKey(c: Component) {
    c.Key? ==> forall i :: 0 <= i < |c.name| ==> !IsSyntax(c.name[i])
  }

  predicate Clean(cs: seq<Component>) {
    forall i :: 0 <= i < |cs| ==> CleanKey(cs[i])
  }

  /** Array indices are machine words. */
  predicate Sized(cs: seq<Component>) {
    forall i :: 0 <= i < |cs| ==> cs[i].Index? ==> cs[i].index < SIZE_LIMIT
  }

  predicate EmptyBeforeIndex(cs: seq<Component>, i: int)
    requires 0 <= i < |cs|
  {
    cs[i] == Key("") && i + 1 < |cs| && cs[i + 1].Index?
  }

  /** The path without the empty keys that stand directly before an index. */
  function DropEmptyBeforeIndex(cs: seq<Component>): seq<Component> {
    if cs == [] then []
    else if EmptyBeforeIndex(cs, 0) then DropEmptyBeforeIndex(cs[1..])
    else [cs[0]] + DropEmptyBeforeIndex(cs[1..])
  }

  lemma PrintStarts(cs: seq<Component>)
    ensures var s := PrintFrom(cs, false);
            && (cs == [] ==> s == [])
            && (cs != [] ==> s != [] && (s[0] == if cs[0].Key? then '.' else '['))
  {
  }

  lemma SegmentIs(k: string, rest: string)
    requires CleanKey(Key(k)) && (rest == [] || IsSyntax(rest[0]))
    ensures SegmentLength(k + rest) == |k| && (k + rest)[..|k|] == k && (k + rest)[|k|..] == rest
  {
    SegmentLengthIs(k, rest);
  }

  lemma {:induction false} SegmentLengthIs(k: string, rest: string)
    requires CleanKey(Key(k)) && (rest == [] || IsSyntax(rest[0]))
    ensures SegmentLength(k + rest) == |k|
  {
    if k == "" {
      assert k + rest == rest;
    } else {
      assert (k + rest)[1..] == k[1..] + rest;
      SegmentLengthIs(k[1..], rest);
    }
  }

  lemma IndexIs(i: nat, rest: string)
    requires i < SIZE_LIMIT
    ensures var d := Numeral(10, i); ReadIndex(d + "]" + rest) == Some((i, |d| + 1))
  {
    hide Numeral, ValueOf, DigitRun, HexToDec, Blanks, AfterIndex;
    NumeralRoundTrip(10, i);
    var d := Numeral(10, i);
    var s := d + "]" + rest;
    assert s == d + ("]" + rest);
    assert s[0] == d[0] && IsDigit(10, d[0]);
    NoBlanks(s);
    assert s[0..] == s;
    DigitRunIs(d, "]" + rest);
    assert s[..|d|] == d;
    assert s[|d|..] == "]" + rest;
    ClosingBracket(rest);
  }

  /** An index as it may be spelled: blanks before and behind the digits, which may begin with zeros, and a
      bracket that may be missing where the path ends or a dot or another bracket follows. */
  predicate SpellsIndex(s: string, before: string, digits: string, behind: string, closed: bool, rest: string) {
    && s == before + digits + behind + Close(closed) + rest
    && AllBlank(before) && AllBlank(behind)
    && digits != "" && (forall i :: 0 <= i < |digits| ==> '0' <= digits[i] <= '9')
    && (closed || rest == "" || rest[0] == '.' || rest[0] == '[')
  }

  lemma {:induction false} BlanksAre(blanks: string, rest: string)
    requires AllBlank(blanks) && (rest == "" || !IsBlank(rest[0]))
    ensures Blanks(blanks + rest) == |blanks|
  {
    if blanks == "" {
      assert blanks + rest == rest;
    } else {
      assert (blanks + rest)[1..] == blanks[1..] + rest;
      BlanksAre(blanks[1..], rest);
    }
  }

  lemma DecimalDigits(s: string)
    ensures AllDigits(10, s) <==> forall i :: 0 <= i < |s| ==> '0' <= s[i] <= '9'
  {
    assert forall c :: IsDigit(10, c) <==> '0' <= c <= '9';
  }

  function Close(closed: bool): string { if closed then "]" else "" }

  lemma BehindIndex(behind: string, closed: bool, rest: string)
    requires AllBlank(behind) && (closed || rest == "" || rest[0] == '.' || rest[0] == '[')
    ensures AfterIndex(behind + Close(closed) + rest) == Some(|behind| + |Close(closed)|)
  {
    hide Blanks;
    var tail := Close(closed) + rest;
    assert behind + Close(closed) + rest == behind + tail;
    BlanksAre(behind, tail);
    assert tail != "" ==> (behind + tail)[|behind|] == tail[0];
  }

  /** Every spelling is read. */
  lemma SpelledIndexIsRead(s: string, before: string, digits: string, behind: string, closed: bool, rest: string)
    requires SpellsIndex(s, before, digits, behind, closed, rest)
    ensures AllDigits(10, digits)
    ensures ReadIndex(s) == if ValueOf(10, digits) < 0x1_0000_0000_0000_0000
                            then Some((ValueOf(10, digits), |s| - |rest|)) else None
  {
    hide ValueOf, DigitRun, Blanks, AllDigits, IsDigit, AfterIndex, AllBlank;
    DecimalDigits(digits);
    var after := behind + Close(closed) + rest;
    var body := digits + after;
    assert s == before + body && s[|before|..] == body;
    assert body[0] == digits[0];
    StartsClean(body);
    BlanksAre(before, body);
    EndsDigits(behind, closed, rest);
    DigitRunIs(digits, after);
    assert body[..|digits|] == digits && s[|before| + |digits|..] == after;
    assert after != "" ==> s[|before| + |digits|] == after[0];
    BehindIndex(behind, closed, rest);
  }

  lemma StartsClean(s: string)
    requires s != "" && '0' <= s[0] <= '9'
    ensures !IsBlank(s[0])
  {
  }

  lemma EndsDigits(behind: string, closed: bool, rest: string)
    requires AllBlank(behind) && (closed || rest == "" || rest[0] == '.' || rest[0] == '[')
    ensures var s := behind + Close(closed) + rest;
            s == "" || (!IsDigit(10, s[0]) && (IsBlank(s[0]) || s[0] == ']' || s[0] == '.' || s[0] == '['))
  {
    var s := behind + Close(closed) + rest;
    if behind != "" {
      assert s[0] == behind[0];
    } else {
      assert s == Close(closed) + rest;
    }
  }

  /** And whatever is read is one of them. */
  lemma ReadIndexIsSpelled(s: string)
    returns (before: string, digits: string, behind: string, closed: bool, rest: string)
    requires ReadIndex(s).Some?
    ensures SpellsIndex(s, before, digits, behind, closed, rest) && AllDigits(10, digits)
    ensures ReadIndex(s).value == (ValueOf(10, digits), |s| - |rest|)
  {
    hide ValueOf, DigitRun, Blanks, AllDigits, AfterIndex;
    var a := Blanks(s);
    var n := DigitRun(s[a..]);
    before, digits := s[..a], s[a..][..n];
    DecimalDigits(digits);
    var after := s[a + n..];
    behind, closed, rest := AfterIsSpelled(after);
    assert s == before + digits + after;
    assert before + digits + (behind + Close(closed) + rest) == before + digits + behind + Close(closed) + rest;
  }

  /** An index is read with its value and its length if and only if it is spelled that way. */
  lemma IndexExactly(s: string, v: nat, n: nat)
    ensures ReadIndex(s) == Some((v, n)) <==>
            exists before, digits, behind, closed, rest ::
              && SpellsIndex(s, before, digits, behind, closed, rest) && AllDigits(10, digits)
              && ValueOf(10, digits) == v < 0x1_0000_0000_0000_0000 && n == |s| - |rest|
  {
    hide ReadIndex, SpellsIndex, ValueOf, AllDigits;
    if ReadIndex(s) == Some((v, n)) {
      var before, digits, behind, closed, rest := ReadIndexIsSpelled(s);
      SpelledIndexIsRead(s, before, digits, behind, closed, rest);
    }
    if before, digits, behind, closed, rest :|
       && SpellsIndex(s, before, digits, behind, closed, rest) && AllDigits(10, digits)
       && ValueOf(10, digits) == v < 0x1_0000_0000_0000_0000 && n == |s| - |rest| {
      SpelledIndexIsRead(s, before, digits, behind, closed, rest);
    }
  }

  lemma AfterIsSpelled(s: string) returns (behind: string, closed: bool, rest: string)
    requires AfterIndex(s).Some?
    ensures s == behind + Close(closed) + rest && AfterIndex(s).value == |s| - |rest|
    ensures AllBlank(behind) && (closed || rest == "" || rest[0] == '.' || rest[0] == '[')
  {
    hide Blanks;
    var k := Blanks(s);
    behind := s[..k];
    closed := k < |s| && s[k] == ']';
    rest := if closed then s[k + 1..] else s[k..];
    assert s == behind + s[k..];
  }

  lemma NoBlanks(s: string)
    requires s != [] && IsDigit(10, s[0])
    ensures Blanks(s) == 0
  {
  }

  lemma ClosingBracket(rest: string)
    ensures AfterIndex("]" + rest) == Some(1)
  {
    assert Blanks("]" + rest) == 0;
  }

  lemma ParseNothing(acc: seq<Component>, afterDot: bool)
    ensures forall afterIndex :: ParseFrom([], acc, afterIndex, afterDot)
                                 == Some(acc + if afterDot then [Key("")] else [])
  {
    assert acc + [] == acc;
  }

  lemma ParseDot(rest: string, acc: seq<Component>, afterIndex: bool, afterDot: bool)
    ensures ParseFrom("." + rest, acc, afterIndex, afterDot)
            == ParseFrom(rest, if afterDot then acc + [Key("")] else acc, false, true)
  {
    hide ReadIndex, SegmentLength, AllBlank;
    assert ("." + rest)[1..] == rest;
  }

  lemma ParseSegment(s: string, acc: seq<Component>)
    requires s != [] && !IsSyntax(s[0])
    ensures var n := SegmentLength(s);
            ParseFrom(s, acc, false, true) == ParseFrom(s[n..], acc + [Key(s[..n])], false, false)
  {
    hide ReadIndex, SegmentLength, AllBlank;
  }

  lemma ParseIndex(s: string, acc: seq<Component>, afterIndex: bool, afterDot: bool)
    requires ReadIndex(s).Some?
    ensures var r := ReadIndex(s).value;
            ParseFrom("[" + s, acc, afterIndex, afterDot) == ParseFrom(s[r.1..], acc + [Index(r.0)], true, false)
  {
    hide ReadIndex, SegmentLength, AllBlank;
    assert ("[" + s)[1..] == s;
    assert ("[" + s)[1 + ReadIndex(s).value.1..] == s[ReadIndex(s).value.1..];
  }

  lemma PrintKey(cs: seq<Component>)
    requires cs != [] && cs[0].Key?
    ensures PrintFrom(cs, false) == "." + (cs[0].name + PrintFrom(cs[1..], false))
  {
  }

  lemma PrintIndex(cs: seq<Component>, root: bool)
    requires cs != [] && cs[0].Index?
    ensures PrintFrom(cs, root) == "[" + (Numeral(10, cs[0].index) + "]" + PrintFrom(cs[1..], false))
  {
    hide Numeral;
  }

  lemma DropKey(k: string, cs: seq<Component>)
    ensures DropEmptyBeforeIndex([Key(k)] + cs)
            == if k == "" && cs != [] && cs[0].Index? then DropEmptyBeforeIndex(cs)
               else [Key(k)] + DropEmptyBeforeIndex(cs)
    ensures cs == [] ==> DropEmptyBeforeIndex([Key(k)] + cs) == [Key(k)]
  {
    assert ([Key(k)] + cs)[1..] == cs;
  }

  /** Just behind a dot (or at the start): the key `k` and what follows it. */
  lemma {:induction false} ParseKeyThen(k: string, cs: seq<Component>, acc: seq<Component>)
    requires CleanKey(Key(k)) && Clean(cs) && Sized(cs)
    ensures ParseFrom(k + PrintFrom(cs, false), acc, false, true) == Some(acc + DropEmptyBeforeIndex([Key(k)] + cs))
    decreases |cs|, 3
  {
    hide ReadIndex, AllBlank, SegmentLength, PrintFrom, ParseFrom, DropEmptyBeforeIndex;
    var rest := PrintFrom(cs, false);
    PrintStarts(cs);
    DropKey(k, cs);
    if k == "" {
      assert k + rest == rest;
      if cs == [] {
        ParseNothing(acc, true);
      } else if cs[0].Key? {
        PrintKey(cs);
        ParseDot(cs[0].name + PrintFrom(cs[1..], false), acc, false, true);
        ParseKeyThen(cs[0].name, cs[1..], acc + [Key("")]);
        assert [cs[0]] + cs[1..] == cs;
        assert acc + [Key("")] + DropEmptyBeforeIndex(cs) == acc + ([Key("")] + DropEmptyBeforeIndex(cs));
      } else {
        ParseIndexThen(cs, acc, false, true);
      }
    } else {
      assert !IsSyntax((k + rest)[0]) by { assert (k + rest)[0] == k[0]; }
      SegmentIs(k, rest);
      ParseSegment(k + rest, acc);
      ParseRest(cs, acc + [Key(k)], false);
      assert acc + [Key(k)] + DropEmptyBeforeIndex(cs) == acc + ([Key(k)] + DropEmptyBeforeIndex(cs));
    }
  }

  lemma {:induction false} ParseIndexThen(cs: seq<Component>, acc: seq<Component>, afterIndex: bool, afterDot: bool)
    requires cs != [] && cs[0].Index? && Clean(cs) && Sized(cs)
    ensures ParseFrom(PrintFrom(cs, false), acc, afterIndex, afterDot) == Some(acc + DropEmptyBeforeIndex(cs))
    decreases |cs|, 0
  {
    hide ReadIndex, AllBlank, SegmentLength, PrintFrom, ParseFrom, Numeral;
    var d, rest := Numeral(10, cs[0].index), PrintFrom(cs[1..], false);
    PrintIndex(cs, false);
    IndexIs(cs[0].index, rest);
    ParseIndex(d + "]" + rest, acc, afterIndex, afterDot);
    assert (d + "]" + rest)[|d| + 1..] == rest;
    ParseRest(cs[1..], acc + [cs[0]], true);
    assert acc + [cs[0]] + DropEmptyBeforeIndex(cs[1..]) == acc + ([cs[0]] + DropEmptyBeforeIndex(cs[1..]));
  }

  /** Between components: everything still to come is parsed as printed. */
  lemma {:induction false} ParseRest(cs: seq<Component>, acc: seq<Component>, afterIndex: bool)
    requires Clean(cs) && Sized(cs)
    ensures ParseFrom(PrintFrom(cs, false), acc, afterIndex, false) == Some(acc + DropEmptyBeforeIndex(cs))
    decreases |cs|, 2
  {
    hide ReadIndex, AllBlank, SegmentLength, PrintFrom, ParseFrom;
    if cs == [] {
      PrintStarts(cs);
      ParseNothing(acc, false);
    } else if cs[0].Key? {
      PrintKey(cs);
      ParseDot(cs[0].name + PrintFrom(cs[1..], false), acc, afterIndex, false);
      ParseKeyThen(cs[0].name, cs[1..], acc);
      assert [cs[0]] + cs[1..] == cs;
    } else {
      ParseIndexThen(cs, acc, afterIndex, false);
    }
  }

  // ----- a printed path and more -----

  /** The same with text behind a path that ends in an index: there the parser stands behind its bracket. */
  lemma {:induction false} KeyThenMore(k: string, cs: seq<Component>, t: string, acc: seq<Component>)
    requires CleanKey(Key(k)) && Clean(cs) && Sized(cs) && cs != [] && cs[|cs| - 1].Index?
    ensures ParseFrom(k + (PrintFrom(cs, false) + t), acc, false, true)
            == ParseFrom(t, acc + DropEmptyBeforeIndex([Key(k)] + cs), true, false)
    decreases |cs|, 3
  {
    hide ReadIndex, AllBlank, SegmentLength, PrintFrom, ParseFrom, DropEmptyBeforeIndex;
    var rest := PrintFrom(cs, false) + t;
    PrintStarts(cs);
    DropKey(k, cs);
    if k == "" {
      assert k + rest == rest;
      if cs[0].Key? {
        PrintKey(cs);
        var more := PrintFrom(cs[1..], false) + t;
        assert rest == "." + (cs[0].name + more);
        ParseDot(cs[0].name + more, acc, false, true);
        KeyThenMore(cs[0].name, cs[1..], t, acc + [Key("")]);
        assert [cs[0]] + cs[1..] == cs;
        assert acc + [Key("")] + DropEmptyBeforeIndex(cs) == acc + ([Key("")] + DropEmptyBeforeIndex(cs));
      } else {
        IndexThenMore(cs, t, acc, false, true);
      }
    } else {
      assert !IsSyntax((k + rest)[0]) by { assert (k + rest)[0] == k[0]; }
      SegmentIs(k, rest);
      ParseSegment(k + rest, acc);
      RestThenMore(cs, t, acc + [Key(k)], false);
      assert acc + [Key(k)] + DropEmptyBeforeIndex(cs) == acc + ([Key(k)] + DropEmptyBeforeIndex(cs));
    }
  }

  lemma {:induction false} IndexThenMore(cs: seq<Component>, t: string, acc: seq<Component>,
                                         afterIndex: bool, afterDot: bool)
    requires cs != [] && cs[0].Index? && Clean(cs) && Sized(cs) && cs[|cs| - 1].Index?
    ensures ParseFrom(PrintFrom(cs, false) + t, acc, afterIndex, afterDot)
            == ParseFrom(t, acc + DropEmptyBeforeIndex(cs), true, false)
    decreases |cs|, 0
  {
    hide ReadIndex, AllBlank, SegmentLength, PrintFrom, ParseFrom, Numeral;
    var d, rest := Numeral(10, cs[0].index), PrintFrom(cs[1..], false) + t;
    PrintIndex(cs, false);
    IndexIs(cs[0].index, rest);
    assert PrintFrom(cs, false) + t == "[" + (d + "]" + rest);
    ParseIndex(d + "]" + rest, acc, afterIndex, afterDot);
    assert (d + "]" + rest)[|d| + 1..] == rest;
    assert acc + [cs[0]] + DropEmptyBeforeIndex(cs[1..]) == acc + ([cs[0]] + DropEmptyBeforeIndex(cs[1..]));
    if cs[1..] == [] {
      PrintStarts(cs[1..]);
      assert rest == t;
      assert DropEmptyBeforeIndex([]) == [] && acc + [cs[0]] + [] == acc + [cs[0]];
    } else {
      RestThenMore(cs[1..], t, acc + [cs[0]], true);
    }
  }

  lemma {:induction false} RestThenMore(cs: seq<Component>, t: string, acc: seq<Component>, afterIndex: bool)
    requires Clean(cs) && Sized(cs) && cs != [] && cs[|cs| - 1].Index?
    ensures ParseFrom(PrintFrom(cs, false) + t, acc, afterIndex, false)
            == ParseFrom(t, acc + DropEmptyBeforeIndex(cs), true, false)
    decreases |cs|, 2
  {
    hide ReadIndex, AllBlank, SegmentLength, PrintFrom, ParseFrom;
    if cs[0].Key? {
      PrintKey(cs);
      var more := PrintFrom(cs[1..], false) + t;
      assert PrintFrom(cs, false) + t == "." + (cs[0].name + more);
      ParseDot(cs[0].name + more, acc, afterIndex, false);
      KeyThenMore(cs[0].name, cs[1..], t, acc);
      assert [cs[0]] + cs[1..] == cs;
    } else {
      IndexThenMore(cs, t, acc, afterIndex, false);
    }
  }

  lemma PrintedThenMore(cs: seq<Component>, t: string)
    requires Clean(cs) && Sized(cs) && cs != [] && cs[|cs| - 1].Index?
    ensures Parse(Print(cs) + t) == ParseFrom(t, DropEmptyBeforeIndex(cs), true, false)
  {
    hide PrintFrom, ParseFrom, DropEmptyBeforeIndex;
    assert [] + DropEmptyBeforeIndex(cs) == DropEmptyBeforeIndex(cs);
    if cs[0].Key? {
      RootKey(cs);
      assert Print(cs) + t == cs[0].name + (PrintFrom(cs[1..], false) + t);
      KeyThenMore(cs[0].name, cs[1..], t, []);
      assert [cs[0]] + cs[1..] == cs;
    } else {
      PrintIndex(cs, false);
      PrintIndex(cs, true);
      IndexThenMore(cs, t, [], false, true);
    }
  }

  lemma RootKey(cs: seq<Component>)
    requires cs != [] && cs[0].Key?
    ensures Print(cs) == cs[0].name + PrintFrom(cs[1..], false)
  {
  }

  /** Behind an index blanks may stand before a dot, another index or the end, and change nothing; any other
      text there, and a bracket that closes nothing, makes the whole path an error. */
  lemma BehindAnIndex(cs: seq<Component>, text: string, rest: string)
    requires Clean(cs) && Sized(cs) && cs != [] && cs[|cs| - 1].Index?
    requires text != "" && (forall i :: 0 <= i < |text| ==> text[i] != '.' && text[i] != '[' && text[i] != ']')
    requires rest == "" || rest[0] == '.' || rest[0] == '['
    ensures (forall i :: 0 <= i < |text| ==> text[i] == ' ' || text[i] == '\t') ==>
              Parse(Print(cs) + text + rest) == Parse(Print(cs) + rest)
    ensures !(forall i :: 0 <= i < |text| ==> text[i] == ' ' || text[i] == '\t') ==>
              Parse(Print(cs) + text + rest) == None
    ensures Parse(Print(cs) + "]" + rest) == None
  {
    hide Parse, Print, Sized, Clean, ReadIndex, SegmentLength;
    PrintedThenMore(cs, text + rest);
    PrintedThenMore(cs, rest);
    PrintedThenMore(cs, "]" + rest);
    assert Print(cs) + text + rest == Print(cs) + (text + rest);
    assert Print(cs) + "]" + rest == Print(cs) + ("]" + rest);
    SegmentIs(text, rest);
    assert (text + rest)[0] == text[0];
    SyntaxIgnoresIndex(rest, DropEmptyBeforeIndex(cs));
  }

  lemma SyntaxIgnoresIndex(rest: string, acc: seq<Component>)
    requires rest == "" || rest[0] == '.' || rest[0] == '['
    ensures ParseFrom(rest, acc, true, false) == ParseFrom(rest, acc, false, false)
  {
    hide ReadIndex;
  }

  /** Parsing what was printed gives the path back, less the empty keys directly before an index. */
  lemma ParsePrinted(cs: seq<Component>)
    requires cs != [] && Clean(cs) && Sized(cs)
    ensures Parse(Print(cs)) == Some(DropEmptyBeforeIndex(cs))
  {
    if cs[0].Key? {
      assert Print(cs) == cs[0].name + PrintFrom(cs[1..], false);
      ParseKeyThen(cs[0].name, cs[1..], []);
      assert [cs[0]] + cs[1..] == cs;
    } else {
      hide PrintFrom, ParseFrom;
      PrintIndex(cs, false);
      PrintIndex(cs, true);
      ParseIndexThen(cs, [], false, true);
    }
    assert [] + DropEmptyBeforeIndex(cs) == DropEmptyBeforeIndex(cs);
  }

  lemma {:induction false} ParseIsClean(s: string, acc: seq<Component>, afterIndex: bool, afterDot: bool)
    requires Clean(acc)
    requires afterDot || acc != []
    requires afterIndex ==> acc != []
    ensures var r := ParseFrom(s, acc, afterIndex, afterDot); r.Some? ==> Clean(r.value) && r.value != []
    decreases |s|
  {
    hide ReadIndex, AllBlank;
    if s != [] {
      if s[0] == '[' {
        var r := ReadIndex(s[1..]);
        if r.Some? {
          ParseIsClean(s[1 + r.value.1..], acc + [Index(r.value.0)], true, false);
        }
      } else if s[0] == '.' {
        ParseIsClean(s[1..], if afterDot then acc + [Key("")] else acc, false, true);
      } else if s[0] != ']' {
        var n := SegmentLength(s);
        if afterIndex {
          ParseIsClean(s[n..], acc, false, false);
        } else {
          ParseIsClean(s[n..], acc + [Key(s[..n])], false, false);
        }
      }
    }
  }

  lemma {:induction false} DropChanges(cs: seq<Component>)
    ensures |DropEmptyBeforeIndex(cs)| <= |cs|
    ensures DropEmptyBeforeIndex(cs) == cs <==> forall i :: 0 <= i < |cs| ==> !EmptyBeforeIndex(cs, i)
  {
    if cs != [] {
      DropChanges(cs[1..]);
      assert cs == [cs[0]] + cs[1..];
      forall i | 0 <= i < |cs| - 1
        ensures EmptyBeforeIndex(cs, i + 1) == EmptyBeforeIndex(cs[1..], i)
      {
      }
      if forall i :: 0 <= i < |cs| ==> !EmptyBeforeIndex(cs, i) {
        assert forall i :: 0 <= i < |cs| - 1 ==> EmptyBeforeIndex(cs, i + 1) == EmptyBeforeIndex(cs[1..], i);
      } else if !EmptyBeforeIndex(cs, 0) {
        var i :| 0 <= i < |cs| && EmptyBeforeIndex(cs, i);
        assert EmptyBeforeIndex(cs[1..], i - 1);
      }
    }
  }

  /** A path survives printing and parsing exactly when it is not empty, its keys hold none of '.', '['
      and ']', and no empty key stands directly before an index. */
  lemma RoundTripExactly(cs: seq<Component>)
    requires Sized(cs)
    ensures Parse(Print(cs)) == Some(cs)
            <==> cs != [] && Clean(cs) && forall i :: 0 <= i < |cs| ==> !EmptyBeforeIndex(cs, i)
  {
    ParseIsClean(Print(cs), [], false, true);
    DropChanges(cs);
    if cs != [] && Clean(cs) {
      ParsePrinted(cs);
    }
  }

  // ----- the loops of the source -----

  lemma DigitsStep(s: string, i: nat)
    requires i < |s| && IsDigit(10, s[i])
    ensures DigitRun(s[i..]) == 1 + DigitRun(s[i + 1..])
  {
    assert s[i..][1..] == s[i + 1..];
  }

  lemma BlanksStep(s: string, i: nat)
    requires i < |s| && IsBlank(s[i])
    ensures Blanks(s[i..]) == 1 + Blanks(s[i + 1..])
  {
    assert s[i..][1..] == s[i + 1..];
  }

  lemma SegmentStep(s: string, i: nat)
    requires i < |s| && !IsSyntax(s[i])
    ensures SegmentLength(s[i..]) == 1 + SegmentLength(s[i + 1..])
  {
    assert s[i..][1..] == s[i + 1..];
  }

  method SkipBlanks(path: string, start: nat) returns (pos: nat)
    requires start <= |path|
    ensures pos == start + Blanks(path[start..]) <= |path|
  {
    pos := start;
    while pos < |path| && IsBlank(path[pos])
      invariant start <= pos <= |path|
      invariant pos + Blanks(path[pos..]) == start + Blanks(path[start..])
    {
      BlanksStep(path, pos);
      pos := pos + 1;
    }
    assert pos == |path| ==> path[pos..] == [];
  }

  method SkipDigits(path: string, start: nat) returns (pos: nat)
    requires start <= |path|
    ensures pos == start + DigitRun(path[start..]) <= |path|
  {
    pos := start;
    while pos < |path| && IsDigit(10, path[pos])
      invariant start <= pos <= |path|
      invariant pos + DigitRun(path[pos..]) == start + DigitRun(path[start..])
    {
      DigitsStep(path, pos);
      pos := pos + 1;
    }
    assert pos == |path| ==> path[pos..] == [];
  }

  method FindSyntax(path: string, start: nat) returns (pos: nat)
    requires start <= |path|
    ensures pos == start + SegmentLength(path[start..]) <= |path|
  {
    pos := start;
    while pos < |path| && !IsSyntax(path[pos])
      invariant start <= pos <= |path|
      invariant pos + SegmentLength(path[pos..]) == start + SegmentLength(path[start..])
    {
      SegmentStep(path, pos);
      pos := pos + 1;
    }
    assert pos == |path| ==> path[pos..] == [];
  }

  /** Past the closing ']', or to whatever may stand in its place. */
  method SkipIndexerEnd(path: string, indexEnd: nat) returns (ok: bool, next: nat)
    requires indexEnd <= |path|
    ensures next <= |path|
    ensures AfterIndex(path[indexEnd..]) == if ok then Some(next - indexEnd) else None
  {
    hide Blanks;
    ok := true;
    next := SkipBlanks(path, indexEnd);
    if next < |path| {
      assert path[indexEnd..][next - indexEnd] == path[next];
      if path[next] == ']' {
        next := next + 1;
      } else if path[next] != '.' && path[next] != '[' {
        ok := false;
      }
    }
  }

  /** The array indexer whose '[' is at `pos`. */
  method ScanIndexer(path: string, pos: nat) returns (index: Option<nat>, next: nat)
    requires pos < |path|
    ensures next <= |path|
    ensures match ReadIndex(path[pos + 1..])
            case None => index == None
            case Some(r) => index == Some(r.0) && next == pos + 1 + r.1
  {
    hide Blanks, DigitRun, ValueOf, AfterIndex;
    ghost var rest := path[pos + 1..];
    index, next := None, pos;
    var indexStart := SkipBlanks(path, pos + 1);
    assert rest[indexStart - pos - 1..] == path[indexStart..];
    var indexEnd := SkipDigits(path, indexStart);
    if indexEnd == indexStart { return; }
    assert rest[indexStart - pos - 1..][..indexEnd - indexStart] == path[indexStart..indexEnd];
    if indexEnd < |path| && path[indexEnd] != ']' && !IsBlank(path[indexEnd])
       && path[indexEnd] != '.' && path[indexEnd] != '[' {
      return;
    }
    assert rest[indexEnd - pos - 1..] == path[indexEnd..];
    var ok;
    ok, next := SkipIndexerEnd(path, indexEnd);
    if !ok { return; }
    var value := ValueOf(10, path[indexStart..indexEnd]);
    if value < SIZE_LIMIT {
      index := Some(value);
    }
  }

  /** The parser's answer when it stands at `pos` with the components and flags it has by then. */
  function ParseAt(path: string, pos: nat, acc: seq<Component>, afterIndex: bool, afterDot: bool)
    : Option<seq<Component>>
    requires pos <= |path|
  {
    ParseFrom(path[pos..], acc, afterIndex, afterDot)
  }

  lemma ParseAtEnds(path: string, acc: seq<Component>, afterIndex: bool, afterDot: bool)
    ensures ParseAt(path, 0, acc, afterIndex, afterDot) == ParseFrom(path, acc, afterIndex, afterDot)
    ensures ParseAt(path, |path|, acc, afterIndex, afterDot) == Some(if afterDot then acc + [Key("")] else acc)
  {
    assert path[0..] == path;
    assert path[|path|..] == [];
  }

  /** One round of the parser's loop. */
  lemma ParseUnfolds(path: string, pos: nat, acc: seq<Component>, afterIndex: bool, afterDot: bool)
    requires pos < |path|
    ensures var result := ParseAt(path, pos, acc, afterIndex, afterDot);
            match path[pos]
            case '[' =>
              var r := ReadIndex(path[pos + 1..]);
              result == if r.None? then None
                        else ParseAt(path, pos + 1 + r.value.1, acc + [Index(r.value.0)], true, false)
            case '.' => result == ParseAt(path, pos + 1, if afterDot then acc + [Key("")] else acc, false, true)
            case ']' => result == None
            case _ =>
              var next := pos + SegmentLength(path[pos..]);
              && pos < next
              && result == if !afterIndex then ParseAt(path, next, acc + [Key(path[pos..next])], false, false)
                           else if AllBlank(path[pos..next]) then ParseAt(path, next, acc, false, false)
                           else None
  {
    hide ReadIndex, AllBlank;
    var s := path[pos..];
    assert s[1..] == path[pos + 1..];
    if s[0] == '[' {
      var r := ReadIndex(s[1..]);
      if r.Some? { assert s[1 + r.value.1..] == path[pos + 1 + r.value.1..]; }
    } else if !IsSyntax(s[0]) {
      var n := SegmentLength(s);
      assert s[..n] == path[pos..pos + n];
      assert s[n..] == path[pos + n..];
    }
  }

  /** The component list a path is parsed into, and printed from. */
  class Path {
    var components: seq<Component>

    constructor ()
      ensures components == []
    {
      components := [];
    }

    method OnKey(key: string)
      modifies this
      ensures components == old(components) + [Key(key)]
    {
      components := components + [Key(key)];
    }

    method OnIndex(index: nat)
      modifies this
      ensures components == old(components) + [Index(index)]
    {
      components := components + [Index(index)];
    }

    /** `parse_path`: on failure the components met so far have already been appended. */
    method ParsePath(path: string) returns (ok: bool)
      modifies this
      ensures ok <==> ParseFrom(path, old(components), false, true).Some?
      ensures ok ==> ParseFrom(path, old(components), false, true) == Some(components)
      ensures old(components) <= components
    {
      hide *;
      ParseAtEnds(path, components, false, true);
      if path == "" {
        OnKey("");
        return true;
      }
      ghost var result := ParseFrom(path, components, false, true);
      var pos := 0;
      var prevWasArrayIndexer, prevWasDot := false, true;
      while pos < |path|
        invariant pos <= |path|
        invariant old(components) <= components
        invariant ParseAt(path, pos, components, prevWasArrayIndexer, prevWasDot) == result
        decreases |path| - pos
      {
        ParseUnfolds(path, pos, components, prevWasArrayIndexer, prevWasDot);
        if path[pos] == '[' {
          var index, next := ScanIndexer(path, pos);
          if index.None? { return false; }
          pos := next;
          prevWasDot, prevWasArrayIndexer := false, true;
          OnIndex(index.value);
        } else if path[pos] == '.' {
          if prevWasDot { OnKey(""); }
          pos := pos + 1;
          prevWasDot, prevWasArrayIndexer := true, false;
        } else if path[pos] == ']' {
          return false;
        } else {
          var start := pos;
          var segmentEnd := FindSyntax(path, pos);
          pos := segmentEnd;
          prevWasDot := false;
          if prevWasArrayIndexer {
            if !AllBlank(path[start..segmentEnd]) { return false; }
            prevWasArrayIndexer := false;
          } else {
            OnKey(path[start..segmentEnd]);
          }
        }
      }
      ParseAtEnds(path, components, prevWasArrayIndexer, prevWasDot);
      if prevWasDot { OnKey(""); }
      return true;
    }

    /** `parse_path_into`: a failed parse leaves the components as they were. */
    method ParseInto(path: string) returns (ok: bool)
      modifies this
      ensures ok <==> Parse(path).Some?
      ensures components == old(components) + if ok then Parse(path).value else []
    {
      var originalSize := |components|;
      ParseAppends(path, components, [], false, true);
      assert components + [] == components;
      ok := ParsePath(path);
      if !ok {
        components := components[..originalSize];
      }
    }

    /** `path::print_to`. */
    method PrintTo() returns (os: string)
      ensures os == Print(components)
    {
      hide PrintFrom, Numeral;
      PrintEnds();
      var root := true;
      os := "";
      assert components[0..] == components;
      for i := 0 to |components|
        invariant root == (i == 0)
        invariant os + PrintFrom(components[i..], root) == Print(components)
      {
        ghost var before := os;
        match components[i] {
          case Key(key) =>
            if !root { os := os + "."; }
            os := os + key;
          case Index(index) =>
            os := os + "[" + Numeral(10, index) + "]";
        }
        PrintStep(components[i..], root);
        assert components[i..][1..] == components[i + 1..];
        assert os == before + PrintOne(components[i], root);
        assert before + PrintOne(components[i], root) + PrintFrom(components[i + 1..], false)
            == before + (PrintOne(components[i], root) + PrintFrom(components[i + 1..], false));
        root := false;
      }
      assert components[|components|..] == [];
      assert os + "" == os;
    }
  }

  lemma PrintEnds()
    ensures forall root :: PrintFrom([], root) == ""
  {
  }

  lemma PrintStep(cs: seq<Component>, root: bool)
    requires cs != []
    ensures PrintFrom(cs, root) == PrintOne(cs[0], root) + PrintFrom(cs[1..], false)
  {
  }

  /** What was parsed before does not matter: it is only put in front. */
  lemma {:induction false} ParseAppends(s: string, base: seq<Component>, acc: seq<Component>,
                                        afterIndex: bool, afterDot: bool)
    ensures var r := ParseFrom(s, acc, afterIndex, afterDot);
            ParseFrom(s, base + acc, afterIndex, afterDot) == if r.None? then None else Some(base + r.value)
    decreases |s|
  {
    hide ReadIndex, AllBlank;
    if s == [] {
      assert base + acc + [Key("")] == base + (acc + [Key("")]);
    } else if s[0] == '[' {
      var r := ReadIndex(s[1..]);
      if r.Some? {
        ParseAppends(s[1 + r.value.1..], base, acc + [Index(r.value.0)], true, false);
        assert base + acc + [Index(r.value.0)] == base + (acc + [Index(r.value.0)]);
      }
    } else if s[0] == '.' {
      ParseAppends(s[1..], base, if afterDot then acc + [Key("")] else acc, false, true);
      assert base + acc + [Key("")] == base + (acc + [Key("")]);
    } else if s[0] != ']' {
      var n := SegmentLength(s);
      ParseAppends(s[n..], base, acc, false, false);
      ParseAppends(s[n..], base, acc + [Key(s[..n])], false, false);
      assert base + acc + [Key(s[..n])] == base + (acc + [Key(s[..n])]);
    }
  }
}
