/**
  What an expansion does to the screen: it erases exactly what the buffer has put there, and its trigger is
  kept or swallowed as the key found asks for.
 */
module MacroScreen {

  import opened MacroText
  import opened MacroPlan
  import opened Options

  // ----- what stands there -----

  function Joined(parts: seq<seq<Wide>>): seq<Wide> {
    if parts == [] then [] else parts[0] + Joined(parts[1..])
  }

  /** The composition stands on the screen: as it is, or each of its characters in the code table's units. */
  ghost predicate ShowsComposition(input: Inputs, shown: seq<Wide>) {
    if input.unicode then shown == input.composition
    else
      exists parts: seq<seq<Wide>> ::
        && |parts| == |input.widths| && shown == Joined(parts)
        && forall i :: 0 <= i < |parts| ==> |parts[i]| == input.widths[i]
  }

  /** The typed units stand there, but for a trigger, which is in the buffer already and not yet inserted. */
  ghost predicate ShowsTyped(input: Inputs, shown: seq<Wide>) {
    exists pending: seq<Wide> ::
      && input.raw == shown + pending
      && |pending| == if input.trigger > 32 && input.raw != [] then 1 else 0
  }

  /** The buffer is typed and ends in the trigger, or the units lowered do. */
  predicate EndsInTrigger(input: Inputs, l: Locale) {
    input.trigger > 32 && |input.raw| > 1 && l.lower(input.raw[|input.raw| - 1]) == input.trigger
  }

  /** The table has the buffer itself, with or without the trigger, as typed or lowered. */
  predicate FoundAsTyped(input: Inputs, l: Locale) {
    || input.raw in input.table || MapAll(l.lower, input.raw) in input.table
    || (EndsInTrigger(input, l)
        && var key := input.raw[..|input.raw| - 1];
           key in input.table || MapAll(l.lower, key) in input.table)
  }

  /** What the buffer has put on the screen: while a word is composed the composition, unless the match goes
      back over words already committed. */
  ghost predicate Shows(input: Inputs, l: Locale, shown: seq<Wide>) {
    if input.composition != [] && !(input.crossCommit && FoundAsTyped(input, l)) then ShowsComposition(input, shown)
    else ShowsTyped(input, shown)
  }

  // ----- what is erased -----

  lemma {:induction false} JoinedLength(parts: seq<seq<Wide>>, widths: seq<nat>)
    requires |parts| == |widths| && forall i :: 0 <= i < |parts| ==> |parts[i]| == widths[i]
    ensures |Joined(parts)| == Sum(widths)
  {
    if parts != [] {
      JoinedLength(parts[1..], widths[1..]);
      SumFirst(widths);
    }
  }

  lemma {:induction false} SumFirst(widths: seq<nat>)
    requires widths != []
    ensures Sum(widths) == widths[0] + Sum(widths[1..])
  {
    var front, last := widths[..|widths| - 1], widths[|widths| - 1];
    if front != [] {
      SumFirst(front);
      assert widths[1..][..|widths| - 2] == front[1..];
    } else {
      assert widths[1..] == [];
    }
  }

  lemma LoweredKey(input: Inputs, l: Locale)
    requires |input.raw| > 1
    ensures var lowered := MapAll(l.lower, input.raw);
            && lowered[|lowered| - 1] == l.lower(input.raw[|input.raw| - 1])
            && lowered[..|lowered| - 1] == MapAll(l.lower, input.raw[..|input.raw| - 1])
  {
  }

  /** Of what kind the match is, by what the table holds. */
  lemma KindIs(input: Inputs, l: Locale)
    requires PlanOf(input, l).matched
    ensures Match(input, l).Some?
    ensures var kind := Match(input, l).value.kind;
            && (FoundAsTyped(input, l) <==> !kind.Composed? && !kind.ComposedTriggered?)
            && (!FoundAsTyped(input, l) ==> input.composition != [])
  {
    hide FirstIn, Candidates;
    CandidatesAre(input, l);
    if |input.raw| > 1 { LoweredKey(input, l); }
  }

  /** Whatever stands in front, taking the plan's number of units off the screen leaves exactly that. */
  lemma ErasesExactly(input: Inputs, l: Locale, prefix: seq<Wide>, shown: seq<Wide>)
    requires PlanOf(input, l).matched && Shows(input, l, shown)
    ensures var screen, n := prefix + shown, PlanOf(input, l).bsCount;
            n <= |screen| && screen[..|screen| - n] == prefix
  {
    hide Match, FoundAsTyped, WithCaps, CapsFor, Sum;
    KindIs(input, l);
    if input.composition != [] && !(input.crossCommit && FoundAsTyped(input, l)) && !input.unicode {
      var parts: seq<seq<Wide>> :| |parts| == |input.widths| && shown == Joined(parts)
                                   && forall i :: 0 <= i < |parts| ==> |parts[i]| == input.widths[i];
      JoinedLength(parts, input.widths);
    }
    assert PlanOf(input, l).bsCount == |shown|;
  }

  /** A buffer that is a key and its trigger, with nothing composed: exactly the key is erased, and the trigger
      goes to the application. */
  lemma TriggeredKeyErasesItself(input: Inputs, l: Locale, key: seq<Wide>)
    requires input.trigger > 32 && key != [] && input.raw == key + [input.trigger] && input.composition == []
    requires l.lower(input.trigger) == input.trigger
    requires input.raw !in input.table && MapAll(l.lower, input.raw) !in input.table
    requires key in input.table || MapAll(l.lower, key) in input.table
    ensures var plan := PlanOf(input, l); plan.matched && plan.bsCount == |key| && !plan.partOfMacro
  {
    hide FirstIn, Candidates, WithCaps, CapsFor;
    CandidatesAre(input, l);
    LoweredKey(input, l);
    assert input.raw[..|input.raw| - 1] == key;
  }

  // ----- the trigger -----

  /** The trigger is swallowed exactly if the key found has it in it. */
  lemma TriggerIsSwallowedExactly(input: Inputs, l: Locale)
    requires PlanOf(input, l).matched
    ensures PlanOf(input, l).partOfMacro <==>
              && input.trigger > 32
              && (|| input.raw in input.table || MapAll(l.lower, input.raw) in input.table
                  || (!FoundAsTyped(input, l)
                      && MapAll(l.lower, input.composition) + [input.trigger] in input.table))
  {
    hide FirstIn, Candidates, WithCaps, CapsFor, BackspaceCount;
    CandidatesAre(input, l);
    if |input.raw| > 1 { LoweredKey(input, l); }
  }

  // ----- the expansion -----

  /** The key is the buffer letter for letter, not only in its lowered form, or it was found through the
      composition: then the expansion is left as it is stored. */
  predicate FoundExactly(input: Inputs, l: Locale) {
    || input.raw in input.table
    || (MapAll(l.lower, input.raw) !in input.table && EndsInTrigger(input, l)
        && input.raw[..|input.raw| - 1] in input.table)
    || !FoundAsTyped(input, l)
  }

  /** Unit `i` of the stored text is no part of a newline escape. */
  predicate Visible(stored: seq<Wide>, i: nat) {
    !EscapeAt(stored, i) && !EscapeAt(stored, i - 1)
  }

  /** It begins a word: nothing, a blank or a newline escape stands before it. */
  predicate BeginsWord(stored: seq<Wide>, i: nat, l: Locale)
    requires i < |stored|
  {
    !l.isSpace(stored[i]) && (i == 0 || l.isSpace(stored[i - 1]) || EscapeAt(stored, i - 2) || EscapeAt(stored, i - 1))
  }

  /** More than one unit, some letter among them, and every letter a capital. */
  predicate AllCapitals(raw: seq<Wide>, l: Locale) {
    && |raw| > 1
    && (exists k :: 0 <= k < |raw| && l.isAlpha(raw[k]))
    && forall k :: 0 <= k < |raw| ==> !l.isAlpha(raw[k]) || l.isUpper(raw[k])
  }

  predicate NoCapitals(stored: seq<Wide>, l: Locale) {
    forall k :: 0 <= k < |stored| ==> l.mapLower(stored[k]) == stored[k]
  }

  /** Unit `i` of the stored text becomes a capital. */
  predicate Raised(input: Inputs, stored: seq<Wide>, i: nat, l: Locale)
    requires i < |stored|
  {
    && input.autoCaps && !FoundExactly(input, l) && NoCapitals(stored, l) && Visible(stored, i)
    && (|| AllCapitals(input.raw, l)
        || (input.raw != [] && l.isUpper(input.raw[0]) && BeginsWord(stored, i, l)))
  }

  /** The stored expansion in the typed case: all capitals for a buffer of more than one unit whose letters all
      are, capitals at the start of every word for a buffer that begins with one, and nothing else; and nothing
      where auto-caps is off, the key matched letter for letter, or the stored text has capitals of its own. */
  lemma CapsFollowTyping(input: Inputs, l: Locale)
    requires PlanOf(input, l).matched
    ensures Match(input, l).Some? && Match(input, l).value.key in input.table
    ensures var e, stored := PlanOf(input, l).expansion, input.table[Match(input, l).value.key];
            && |e| == |stored|
            && forall i: nat :: i < |stored| ==>
                 e[i] == if Raised(input, stored, i, l) then l.mapUpper(stored[i]) else stored[i]
  {
    hide FirstIn, Candidates, BackspaceCount, CapsFor, FoundExactly, NoCapitals, AllCapitals, Visible, BeginsWord;
    MatchIsStored(input, l);
    var m := Match(input, l).value;
    var stored := input.table[m.key];
    LoweredKindIs(input, l);
    CapsAre(input, m.kind, stored, l);
    forall i: nat | i < |stored|
      ensures Capitalized(stored, i, CapsFor(input, m.kind, stored, l), l) == Raised(input, stored, i, l)
    {
      SpotsAre(stored, i, l);
    }
  }

  lemma LoweredKindIs(input: Inputs, l: Locale)
    requires PlanOf(input, l).matched
    ensures Match(input, l).Some?
    ensures var kind := Match(input, l).value.kind;
            FoundExactly(input, l) <==> !kind.FullLowered? && !kind.UntriggeredLowered?
  {
    hide FirstIn, Candidates;
    CandidatesAre(input, l);
    if |input.raw| > 1 { LoweredKey(input, l); }
  }

  lemma SpotsAre(stored: seq<Wide>, i: nat, l: Locale)
    requires i < |stored|
    ensures InEscape(stored, i) <==> !Visible(stored, i)
    ensures StartsWord(stored, i, l) <==> Visible(stored, i) && BeginsWord(stored, i, l)
  {
  }

  lemma CapsAre(input: Inputs, kind: Kind, stored: seq<Wide>, l: Locale)
    ensures var caps, on := CapsFor(input, kind, stored, l),
                            input.autoCaps && (kind.FullLowered? || kind.UntriggeredLowered?) && NoCapitals(stored, l);
            && (stored != [] ==> (caps.AllUpper? <==> on && AllCapitals(input.raw, l)))
            && (stored != [] ==> (caps.EachWord? <==>
                  on && !AllCapitals(input.raw, l) && input.raw != [] && l.isUpper(input.raw[0])))
  {
    var lowered := MapAll(l.mapLower, stored);
    if lowered == stored {
      forall k | 0 <= k < |stored| ensures l.mapLower(stored[k]) == stored[k] {
        assert lowered[k] == stored[k];
      }
    }
    assert AllCapitals(input.raw, l) == TypedAllUpper(input.raw, l);
  }

  /** Long Unicode expansions go through the clipboard, and no others. */
  lemma LongTextIsPasted(input: Inputs, l: Locale)
    requires PlanOf(input, l).matched
    ensures Match(input, l).Some? && Match(input, l).value.key in input.table
    ensures PlanOf(input, l).useClipboard
            <==> input.unicode && |input.table[Match(input, l).value.key]| > input.threshold
  {
    hide Match, CapsFor, Capitalized;
    MatchIsStored(input, l);
  }
}
