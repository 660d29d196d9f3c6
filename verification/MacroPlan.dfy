/**
  Macro expansion: which table entry a typed buffer stands for, how many characters it replaces on the
  screen, and how the case of the expansion follows what was typed.
 */
module MacroPlan {

  import opened MacroOutput
  import opened MacroText
  import opened Options

  datatype Inputs = Inputs(
    raw: seq<Wide>,
    composition: seq<Wide>,
    widths: seq<nat>,
    table: map<seq<Wide>, seq<Wide>>,
    crossCommit: bool,
    unicode: bool,
    autoCaps: bool,
    trigger: Wide,
    threshold: nat)

  datatype MacroPlan = MacroPlan(
    matched: bool, partOfMacro: bool, bsCount: nat, expansion: seq<Wide>, useClipboard: bool)

  const NO_PLAN := MacroPlan(false, false, 0, [], false)

  // ----- the lookup -----

  /** In what form a key was matched. */
  datatype Kind = Full | FullLowered | Untriggered | UntriggeredLowered | ComposedTriggered | Composed

  datatype Candidate = Candidate(key: seq<Wide>, kind: Kind)

  /** The keys that are tried, the first ones first. */
  function Candidates(input: Inputs, l: Locale): seq<Candidate> {
    var lowered := MapAll(l.lower, input.raw);
    var composed := MapAll(l.lower, input.composition);
    var triggered := input.trigger > SPACE;
    [Candidate(input.raw, Full), Candidate(lowered, FullLowered)]
    + (if triggered && |lowered| > 1 && lowered[|lowered| - 1] == input.trigger then
         [Candidate(input.raw[..|input.raw| - 1], Untriggered),
          Candidate(lowered[..|lowered| - 1], UntriggeredLowered)]
       else [])
    + (if triggered && input.composition != [] then [Candidate(composed + [input.trigger], ComposedTriggered)]
       else [])
    + (if input.composition != [] then [Candidate(composed, Composed)] else [])
  }

  function FirstIn(cs: seq<Candidate>, table: map<seq<Wide>, seq<Wide>>): (r: Option<Candidate>)
    ensures r.Some? ==> r.value in cs && r.value.key in table
    ensures r.None? <==> forall i :: 0 <= i < |cs| ==> cs[i].key !in table
  {
    if cs == [] then None
    else if cs[0].key in table then Some(cs[0])
    else
      var r := FirstIn(cs[1..], table);
      assert forall i :: 0 < i < |cs| ==> cs[i] == cs[1..][i - 1];
      r
  }

  function Match(input: Inputs, l: Locale): Option<Candidate> {
    FirstIn(Candidates(input, l), input.table)
  }

  // ----- what is on the screen -----

  function Sum(widths: seq<nat>): nat {
    if widths == [] then 0 else Sum(widths[..|widths| - 1]) + widths[|widths| - 1]
  }

  function CompositionWidth(input: Inputs): nat {
    if input.unicode then |input.composition| else Sum(input.widths)
  }

  /** The buffer without a trigger that is not on the screen yet. */
  function TypedWidth(input: Inputs): nat {
    if input.trigger > SPACE && input.raw != [] then |input.raw| - 1 else |input.raw|
  }

  function BackspaceCount(input: Inputs, kind: Kind): nat {
    if kind.Composed? || kind.ComposedTriggered? then CompositionWidth(input)
    else if input.crossCommit || input.composition == [] then TypedWidth(input)
    else CompositionWidth(input)
  }

  // ----- the case of the expansion -----

  datatype Caps = AsStored | AllUpper | EachWord

  predicate TypedAllUpper(raw: seq<Wide>, l: Locale) {
    && |raw| > 1
    && (exists i :: 0 <= i < |raw| && l.isAlpha(raw[i]))
    && forall i :: 0 <= i < |raw| && l.isAlpha(raw[i]) ==> l.isUpper(raw[i])
  }

  function CapsFor(input: Inputs, kind: Kind, stored: seq<Wide>, l: Locale): Caps {
    if !input.autoCaps || !(kind.FullLowered? || kind.UntriggeredLowered?) || input.raw == [] || stored == []
       || MapAll(l.mapLower, stored) != stored
    then AsStored
    else if TypedAllUpper(input.raw, l) then AllUpper
    else if l.isUpper(input.raw[0]) then EachWord
    else AsStored
  }

  /** The first unit of a word: not blank, and at the start, behind a blank or behind a newline escape. */
  predicate StartsWord(e: seq<Wide>, i: int, l: Locale) {
    && 0 <= i < |e| && !InEscape(e, i) && !l.isSpace(e[i])
    && (i == 0 || InEscape(e, i - 1) || l.isSpace(e[i - 1]))
  }

  predicate Capitalized(e: seq<Wide>, i: int, caps: Caps, l: Locale) {
    match caps
    case AsStored => false
    case AllUpper => !InEscape(e, i)
    case EachWord => StartsWord(e, i, l)
  }

  function CapAt(e: seq<Wide>, i: nat, caps: Caps, l: Locale): Wide
    requires i < |e|
  {
    if Capitalized(e, i, caps, l) then l.mapUpper(e[i]) else e[i]
  }

  function WithCaps(e: seq<Wide>, caps: Caps, l: Locale): (r: seq<Wide>)
    ensures |r| == |e|
    ensures forall i :: 0 <= i < |e| ==> r[i] == if Capitalized(e, i, caps, l) then l.mapUpper(e[i]) else e[i]
  {
    seq(|e|, i requires 0 <= i < |e| => CapAt(e, i, caps, l))
  }

  // ----- the plan -----

  function PlanOf(input: Inputs, l: Locale): MacroPlan {
    var m := Match(input, l);
    if m.None? then NO_PLAN
    else
      var kind := m.value.kind;
      var stored := input.table[m.value.key];
      var expansion := WithCaps(stored, CapsFor(input, kind, stored, l), l);
      MacroPlan(
        true,
        (input.trigger > SPACE && (kind.Full? || kind.FullLowered?)) || kind.ComposedTriggered?,
        BackspaceCount(input, kind),
        expansion,
        input.unicode && |expansion| > input.threshold)
  }

  method Upper(buf: array<Wide>, i: nat, l: Locale)
    requires i < buf.Length
    modifies buf
    ensures buf[..] == old(buf[..])[i := l.mapUpper(old(buf[i]))]
  {
    buf[i] := l.mapUpper(buf[i]);
  }

  /** In place: every unit but those of newline escapes. */
  method UpperAll(buf: array<Wide>, l: Locale)
    modifies buf
    ensures buf[..] == WithCaps(old(buf[..]), AllUpper, l)
  {
    ghost var e := buf[..];
    var i := 0;
    while i < buf.Length
      invariant 0 <= i <= buf.Length && !EscapeAt(e, i - 1)
      invariant forall k :: 0 <= k < i ==> buf[k] == if InEscape(e, k) then e[k] else l.mapUpper(e[k])
      invariant forall k :: i <= k < buf.Length ==> buf[k] == e[k]
    {
      if buf[i] == BACKSLASH && i + 1 < buf.Length && buf[i + 1] == LETTER_N {
        assert EscapeAt(e, i);
        i := i + 1;
      } else {
        Upper(buf, i, l);
      }
      i := i + 1;
    }
  }

  /** In place: the first unit of every word. */
  method UpperWords(buf: array<Wide>, l: Locale)
    modifies buf
    ensures buf[..] == WithCaps(old(buf[..]), EachWord, l)
  {
    ghost var e := buf[..];
    var newWord := true;
    var i := 0;
    while i < buf.Length
      invariant 0 <= i <= buf.Length && !EscapeAt(e, i - 1)
      invariant newWord == (i == 0 || InEscape(e, i - 1) || l.isSpace(e[i - 1]))
      invariant forall k :: 0 <= k < i ==> buf[k] == if StartsWord(e, k, l) then l.mapUpper(e[k]) else e[k]
      invariant forall k :: i <= k < buf.Length ==> buf[k] == e[k]
    {
      if buf[i] == BACKSLASH && i + 1 < buf.Length && buf[i + 1] == LETTER_N {
        assert EscapeAt(e, i);
        i := i + 1;
        newWord := true;
      } else if l.isSpace(buf[i]) {
        newWord := true;
      } else if newWord {
        Upper(buf, i, l);
        newWord := false;
      }
      i := i + 1;
    }
  }

  method IsTypedAllUpper(raw: seq<Wide>, l: Locale) returns (allUpper: bool)
    ensures allUpper == TypedAllUpper(raw, l)
  {
    allUpper := true;
    var anyAlpha := false;
    for i := 0 to |raw|
      invariant allUpper
      invariant anyAlpha <==> exists k :: 0 <= k < i && l.isAlpha(raw[k])
      invariant forall k :: 0 <= k < i && l.isAlpha(raw[k]) ==> l.isUpper(raw[k])
    {
      if l.isAlpha(raw[i]) {
        anyAlpha := true;
        if !l.isUpper(raw[i]) {
          return false;
        }
      }
    }
    allUpper := allUpper && anyAlpha && |raw| > 1;
  }

  /** The expansion as the typed case asks for it. */
  method ApplyCaps(input: Inputs, kind: Kind, stored: seq<Wide>, l: Locale) returns (expansion: seq<Wide>)
    ensures expansion == WithCaps(stored, CapsFor(input, kind, stored, l), l)
  {
    hide TypedAllUpper, StartsWord;
    expansion := stored;
    assert stored == WithCaps(stored, AsStored, l);
    if input.autoCaps && (kind.FullLowered? || kind.UntriggeredLowered?) && input.raw != [] && expansion != [] {
      if MapAll(l.mapLower, expansion) == expansion {
        var allUpper := IsTypedAllUpper(input.raw, l);
        var buf := new Wide[|stored|](i requires 0 <= i < |stored| => stored[i]);
        assert buf[..] == stored;
        if allUpper {
          UpperAll(buf, l);
        } else if l.isUpper(input.raw[0]) {
          UpperWords(buf, l);
        }
        expansion := buf[..];
      }
    }
  }

  method SumWidths(widths: seq<nat>) returns (sum: nat)
    ensures sum == Sum(widths)
  {
    sum := 0;
    for i := 0 to |widths|
      invariant sum == Sum(widths[..i])
    {
      assert widths[..i + 1][..i] == widths[..i];
      sum := sum + widths[i];
    }
    assert widths[..|widths|] == widths;
  }

  method CountBackspaces(input: Inputs, kind: Kind) returns (bsCount: nat)
    ensures bsCount == BackspaceCount(input, kind)
  {
    if kind.Composed? || kind.ComposedTriggered? {
      if !input.unicode {
        bsCount := SumWidths(input.widths);
      } else {
        bsCount := |input.composition|;
      }
    } else if input.crossCommit {
      bsCount := |input.raw|;
      if input.trigger > SPACE && bsCount > 0 { bsCount := bsCount - 1; }
    } else if input.composition != [] {
      if !input.unicode {
        bsCount := SumWidths(input.widths);
      } else {
        bsCount := |input.composition|;
      }
    } else {
      bsCount := |input.raw|;
      if input.trigger > SPACE && bsCount > 0 { bsCount := bsCount - 1; }
    }
  }

  /** The lookup, priority by priority. */
  method Lookup(input: Inputs, l: Locale) returns (found: Option<Candidate>)
    ensures found == Match(input, l)
  {
    var lowerKey := MapAll(l.lower, input.raw);
    var triggered := input.trigger > SPACE;
    CandidatesAre(input, l);
    found := None;
    if input.raw in input.table {
      found := Some(Candidate(input.raw, Full));
    } else if lowerKey in input.table {
      found := Some(Candidate(lowerKey, FullLowered));
    }
    if found.None? && triggered && |lowerKey| > 1 && lowerKey[|lowerKey| - 1] == input.trigger {
      var rawWithoutTrigger := input.raw[..|input.raw| - 1];
      var lowerWithoutTrigger := lowerKey[..|lowerKey| - 1];
      if rawWithoutTrigger in input.table {
        found := Some(Candidate(rawWithoutTrigger, Untriggered));
      } else if lowerWithoutTrigger in input.table {
        found := Some(Candidate(lowerWithoutTrigger, UntriggeredLowered));
      }
    }
    if found.None? && input.composition != [] {
      var compKey := MapAll(l.lower, input.composition);
      if triggered && compKey + [input.trigger] in input.table {
        found := Some(Candidate(compKey + [input.trigger], ComposedTriggered));
      }
      if found.None? && compKey in input.table {
        found := Some(Candidate(compKey, Composed));
      }
    }
  }

  lemma {:induction false} FirstInConcat(a: seq<Candidate>, b: seq<Candidate>, table: map<seq<Wide>, seq<Wide>>)
    ensures FirstIn(a + b, table) == if FirstIn(a, table).Some? then FirstIn(a, table) else FirstIn(b, table)
  {
    if a == [] {
      assert a + b == b;
    } else {
      assert (a + b)[1..] == a[1..] + b;
      FirstInConcat(a[1..], b, table);
    }
  }

  lemma FirstOfOne(c: Candidate, table: map<seq<Wide>, seq<Wide>>)
    ensures FirstIn([c], table) == if c.key in table then Some(c) else None
  {
  }

  lemma FirstOfTwo(c: Candidate, d: Candidate, table: map<seq<Wide>, seq<Wide>>)
    ensures FirstIn([c, d], table)
            == if c.key in table then Some(c) else if d.key in table then Some(d) else None
  {
    assert [c, d] == [c] + [d];
    FirstInConcat([c], [d], table);
    FirstOfOne(c, table);
    FirstOfOne(d, table);
  }

  lemma CandidatesAre(input: Inputs, l: Locale)
    ensures var lowered, composed := MapAll(l.lower, input.raw), MapAll(l.lower, input.composition);
            var triggered, t := input.trigger > SPACE, input.table;
            Match(input, l)
            == if input.raw in t then Some(Candidate(input.raw, Full))
               else if lowered in t then Some(Candidate(lowered, FullLowered))
               else if triggered && |lowered| > 1 && lowered[|lowered| - 1] == input.trigger
                       && input.raw[..|input.raw| - 1] in t
                 then Some(Candidate(input.raw[..|input.raw| - 1], Untriggered))
               else if triggered && |lowered| > 1 && lowered[|lowered| - 1] == input.trigger
                       && lowered[..|lowered| - 1] in t
                 then Some(Candidate(lowered[..|lowered| - 1], UntriggeredLowered))
               else if triggered && input.composition != [] && composed + [input.trigger] in t
                 then Some(Candidate(composed + [input.trigger], ComposedTriggered))
               else if input.composition != [] && composed in t then Some(Candidate(composed, Composed))
               else None
  {
    hide FirstIn;
    var lowered, composed := MapAll(l.lower, input.raw), MapAll(l.lower, input.composition);
    var triggered, t := input.trigger > SPACE, input.table;
    var a := [Candidate(input.raw, Full), Candidate(lowered, FullLowered)];
    var b := if triggered && |lowered| > 1 && lowered[|lowered| - 1] == input.trigger then
               [Candidate(input.raw[..|input.raw| - 1], Untriggered),
                Candidate(lowered[..|lowered| - 1], UntriggeredLowered)]
             else [];
    var c := if triggered && input.composition != [] then [Candidate(composed + [input.trigger], ComposedTriggered)]
             else [];
    var d := if input.composition != [] then [Candidate(composed, Composed)] else [];
    FirstInConcat(a + b + c, d, t);
    FirstInConcat(a + b, c, t);
    FirstInConcat(a, b, t);
    FirstOfTwo(a[0], a[1], t);
    if b != [] { FirstOfTwo(b[0], b[1], t); }
    if c != [] { FirstOfOne(c[0], t); }
    if d != [] { FirstOfOne(d[0], t); }
  }

  /** `Plan`. */
  method Plan(input: Inputs, l: Locale) returns (plan: MacroPlan)
    ensures plan == PlanOf(input, l)
  {
    hide Match, WithCaps, CapsFor, BackspaceCount;
    plan := NO_PLAN;
    var found := Lookup(input, l);
    if found.None? {
      return;
    }
    var kind := found.value.kind;
    if (input.trigger > SPACE && (kind.Full? || kind.FullLowered?)) || kind.ComposedTriggered? {
      plan := plan.(partOfMacro := true);
    }
    plan := plan.(matched := true);
    MatchIsStored(input, l);
    var stored := input.table[found.value.key];
    var bsCount := CountBackspaces(input, kind);
    var expansion := ApplyCaps(input, kind, stored, l);
    plan := plan.(bsCount := bsCount, expansion := expansion,
                  useClipboard := input.unicode && |expansion| > input.threshold);
  }

  lemma MatchIsStored(input: Inputs, l: Locale)
    ensures Match(input, l).Some? ==> Match(input, l).value.key in input.table
  {
  }

  // ----- what auto-caps keeps -----

  /** Every newline escape stays where it is, and none is made. */
  lemma CapsKeepEscapes(e: seq<Wide>, caps: Caps, l: Locale, i: int)
    requires KeepsEscapes(l)
    ensures EscapeAt(WithCaps(e, caps, l), i) <==> EscapeAt(e, i)
  {
    var r := WithCaps(e, caps, l);
    if 0 <= i < |e| - 1 {
      assert l.mapUpper(e[i]) == BACKSLASH ==> e[i] == BACKSLASH;
      assert l.mapUpper(e[i + 1]) == LETTER_N ==> e[i + 1] == LETTER_N;
      assert EscapeAt(e, i) ==> InEscape(e, i) && InEscape(e, i + 1);
    }
  }

  predicate SameShape(a: seq<Piece>, b: seq<Piece>) {
    |a| == |b| && forall i :: 0 <= i < |a| ==> (a[i].Break? <==> b[i].Break?)
  }

  lemma {:induction false} SameEscapesSameShape(a: seq<Wide>, b: seq<Wide>)
    requires |a| == |b| && forall i :: 0 <= i < |a| ==> (EscapeAt(a, i) <==> EscapeAt(b, i))
    ensures SameShape(Pieces(a), Pieces(b))
    decreases |a|
  {
    hide Pieces;
    PiecesFirst(a);
    PiecesFirst(b);
    if a != [] {
      var k := if EscapeAt(a, 0) then 2 else 1;
      assert EscapeAt(a, 0) <==> EscapeAt(b, 0);
      forall i | 0 <= i < |a| - k
        ensures EscapeAt(a[k..], i) <==> EscapeAt(b[k..], i)
      {
        assert EscapeAt(a, i + k) <==> EscapeAt(b, i + k);
        Shifted(a, k, i);
        Shifted(b, k, i);
      }
      SameEscapesSameShape(a[k..], b[k..]);
    }
  }

  lemma Shifted(e: seq<Wide>, k: nat, i: nat)
    requires k + i < |e|
    ensures EscapeAt(e[k..], i) <==> EscapeAt(e, i + k)
  {
  }

  /** Auto-caps changes only the case of letters: exactly when upper-casing can be lowered back, lowering
      the result gives the stored expansion. */
  lemma CapsLowerBack(e: seq<Wide>, caps: Caps, l: Locale)
    requires MapAll(l.mapLower, e) == e
    ensures MapAll(l.mapLower, WithCaps(e, caps, l)) == e
            <==> forall i :: 0 <= i < |e| && Capitalized(e, i, caps, l) ==> l.mapLower(l.mapUpper(e[i])) == e[i]
  {
    hide Capitalized;
    var r := WithCaps(e, caps, l);
    var back := MapAll(l.mapLower, r);
    forall i | 0 <= i < |e|
      ensures back[i] == if Capitalized(e, i, caps, l) then l.mapLower(l.mapUpper(e[i])) else e[i]
    {
      assert MapAll(l.mapLower, e)[i] == l.mapLower(e[i]);
    }
  }

  /** A plan's expansion is the stored one of the first key found, with its line breaks where they were;
      it differs only in case, and only for a key that was matched through lowering. */
  lemma PlanKeepsExpansion(input: Inputs, l: Locale)
    requires KeepsEscapes(l)
    requires forall c: Wide {:trigger l.mapUpper(c)} :: l.mapLower(c) == c ==> l.mapLower(l.mapUpper(c)) == c
    ensures var plan, m := PlanOf(input, l), Match(input, l);
            && (plan.matched <==>
                  exists i :: 0 <= i < |Candidates(input, l)| && Candidates(input, l)[i].key in input.table)
            && (m.Some? ==>
                  var stored := input.table[m.value.key];
                  && SameShape(Pieces(plan.expansion), Pieces(stored))
                  && (plan.expansion != stored ==>
                        && (m.value.kind.FullLowered? || m.value.kind.UntriggeredLowered?)
                        && MapAll(l.mapLower, plan.expansion) == stored))
  {
    hide Candidates, Capitalized, Pieces;
    var m := Match(input, l);
    if m.Some? {
      var stored := input.table[m.value.key];
      var caps := CapsFor(input, m.value.kind, stored, l);
      var r := WithCaps(stored, caps, l);
      forall i | 0 <= i < |r| ensures EscapeAt(r, i) <==> EscapeAt(stored, i) {
        CapsKeepEscapes(stored, caps, l, i);
      }
      SameEscapesSameShape(r, stored);
      if caps.AsStored? {
        NoCaps(stored, l);
      } else {
        CapsLowerBack(stored, caps, l);
        forall i | 0 <= i < |stored| ensures l.mapLower(l.mapUpper(stored[i])) == stored[i] {
          assert MapAll(l.mapLower, stored)[i] == l.mapLower(stored[i]);
        }
      }
    }
  }

  lemma NoCaps(e: seq<Wide>, l: Locale)
    ensures WithCaps(e, AsStored, l) == e
  {
  }
}
