/**
  Two independent answers to "should the next letter be capitalised?": the keystroke machine and
  the classifier of the text before the caret. The lemmas say exactly when they agree.
 */
module AutoCap {
  import opened Keys

  datatype State = Idle | AfterPunct | ReadyToCapitalize
  datatype Trigger = NoTrigger | DocStart | LineStart | SentenceEnd

  function Transition(s: State, vk: nat, shift: bool, ctrl: bool, alt: bool, win: bool): State {
    if ctrl || alt || win then s
    else if vk == VK_OEM_PERIOD || (vk == VK_OEM_2 && shift) || (vk == VK_1 && shift) then AfterPunct
    else if vk == VK_SPACE && (s.AfterPunct? || s.ReadyToCapitalize?) then ReadyToCapitalize
    else if vk == VK_RETURN then ReadyToCapitalize
    else if IsLetterKey(vk) then (if s.ReadyToCapitalize? then s else Idle)
    else Idle
  }

  predicate IsBlank(c: char) { c == ' ' || c == '\t' }
  predicate IsNewline(c: char) { c == '\n' || c == '\r' }
  predicate IsSentencePunct(c: char) { c == '.' || c == '?' || c == '!' }

  /** The text without its trailing spaces and tabs. */
  function TrimBlanks(t: string): (r: string)
    ensures |r| <= |t| && r == t[..|r|]
    ensures r == [] || !IsBlank(r[|r| - 1])
    ensures forall i :: |r| <= i < |t| ==> IsBlank(t[i])
  {
    if t == [] || !IsBlank(t[|t| - 1]) then t else TrimBlanks(t[..|t| - 1])
  }

  /** What the classifier promises: the last character that is neither space nor tab decides. */
  function TriggerOf(t: string): Trigger {
    var r := TrimBlanks(t);
    if r == [] then DocStart
    else if IsNewline(r[|r| - 1]) then LineStart
    else if IsSentencePunct(r[|r| - 1]) && |r| < |t| then SentenceEnd
    else NoTrigger
  }

  lemma TrimOne(buf: string, i: nat)
    requires 0 < i <= |buf| && (buf[i - 1] == ' ' || buf[i - 1] == '\t')
    ensures TrimBlanks(buf[..i]) == TrimBlanks(buf[..i - 1])
  {
    assert buf[..i][..i - 1] == buf[..i - 1];
  }

  method ClassifyCapTrigger(buf: string) returns (t: Trigger)
    ensures t == TriggerOf(buf)
  {
    if |buf| == 0 { return DocStart; }
    var i := |buf|;
    var skippedWhitespace := false;
    while i > 0
      invariant 0 <= i <= |buf|
      invariant skippedWhitespace == (i < |buf|)
      invariant TrimBlanks(buf[..i]) == TrimBlanks(buf)
    {
      var c := buf[i - 1];
      if c == ' ' || c == '\t' {
        TrimOne(buf, i);
        i := i - 1;
        skippedWhitespace := true;
      } else {
        break;
      }
    }
    if i == 0 { return DocStart; }
    var c := buf[i - 1];
    if c == '\n' || c == '\r' { return LineStart; }
    if (c == '.' || c == '?' || c == '!') && skippedWhitespace { return SentenceEnd; }
    return NoTrigger;
  }

  function ShouldAutoCap(t: string): bool {
    !TriggerOf(t).NoTrigger?
  }

  // ----- the keystroke machine against the classifier -----

  /** A key press without Ctrl, Alt or Win, and the character it puts in front of the caret. */
  datatype Typed = Typed(vk: nat, shift: bool, c: char)

  datatype Kind = Newline | Blank | Punct | Plain

  function KindOfKey(k: Typed): Kind {
    if k.vk == VK_OEM_PERIOD || (k.vk == VK_OEM_2 && k.shift) || (k.vk == VK_1 && k.shift) then Punct
    else if k.vk == VK_SPACE then Blank
    else if k.vk == VK_RETURN then Newline
    else Plain
  }

  function KindOfChar(c: char): Kind {
    if IsNewline(c) then Newline else if IsBlank(c) then Blank else if IsSentencePunct(c) then Punct else Plain
  }

  /** One key press as the hook sees it: a letter key consumes an armed state. */
  function Press(s: State, k: Typed): State {
    if IsLetterKey(k.vk) then Idle else Transition(s, k.vk, k.shift, false, false, false)
  }

  function Run(s: State, ks: seq<Typed>): State
    decreases |ks|
  {
    if ks == [] then s else Run(Press(s, ks[0]), ks[1..])
  }

  function Text(t: string, ks: seq<Typed>): string
    decreases |ks|
  {
    if ks == [] then t else Text(t + [ks[0].c], ks[1..])
  }

  predicate Agree(s: State, t: string) {
    s.ReadyToCapitalize? <==> TriggerOf(t).LineStart? || TriggerOf(t).SentenceEnd?
  }

  /** A caller can test this before the first key: the machine state describes the text so far. */
  predicate Matches(s: State, t: string) {
    && Agree(s, t)
    && (s.AfterPunct? <==> t != [] && IsSentencePunct(t[|t| - 1]))
  }

  lemma TriggerAfter(t: string, c: char)
    ensures TriggerOf(t + [c]) ==
            match KindOfChar(c)
            case Newline => LineStart
            case Punct => NoTrigger
            case Plain => NoTrigger
            case Blank =>
              if t != [] && IsSentencePunct(t[|t| - 1]) then SentenceEnd else TriggerOf(t)
  {
    assert (t + [c])[..|t|] == t;
  }

  lemma OwnKindKeepsMatch(s: State, t: string, k: Typed)
    requires Matches(s, t) && KindOfKey(k) == KindOfChar(k.c)
    ensures Matches(Press(s, k), t + [k.c])
  {
    TriggerAfter(t, k.c);
  }

  lemma SampleTriggers()
    ensures TriggerOf("a").NoTrigger? && TriggerOf("a>").NoTrigger?
    ensures TriggerOf(". ").SentenceEnd? && TriggerOf("a> ").NoTrigger?
  {
    hide TriggerOf;
    TriggerAfter([], 'a');
    TriggerAfter([], '.');
    assert [] + ['a'] == "a" && [] + ['.'] == ".";
    TriggerAfter("a", '>');
    TriggerAfter(".", ' ');
    assert "a" + ['>'] == "a>" && "." + [' '] == ". ";
    TriggerAfter("a>", ' ');
    assert "a>" + [' '] == "a> ";
  }

  /** A key that types a character of another kind breaks a matching pair. */
  lemma OtherKindBreaksMatch(k: Typed) returns (s: State, t: string)
    requires KindOfKey(k) != KindOfChar(k.c)
    ensures Matches(s, t) && !Matches(Press(s, k), t + [k.c])
  {
    SampleTriggers();
    TriggerAfter(". ", k.c);
    TriggerAfter("a", k.c);
    if Matches(Press(Idle, k), "a" + [k.c]) {
      s, t := ReadyToCapitalize, ". ";
    } else {
      s, t := Idle, "a";
    }
  }

  /** A key keeps every matching pair matched exactly when it types a character of its own kind. */
  lemma KeyKeepsMatch(k: Typed)
    ensures KindOfKey(k) == KindOfChar(k.c)
            <==> forall s, t | Matches(s, t) :: Matches(Press(s, k), t + [k.c])
  {
    if KindOfKey(k) == KindOfChar(k.c) {
      forall s, t | Matches(s, t)
        ensures Matches(Press(s, k), t + [k.c])
      {
        OwnKindKeepsMatch(s, t, k);
      }
    } else {
      var s, t := OtherKindBreaksMatch(k);
    }
  }

  predicate WellTyped(ks: seq<Typed>) {
    forall i :: 0 <= i < |ks| ==> KindOfKey(ks[i]) == KindOfChar(ks[i].c)
  }

  lemma {:induction false} RunMatches(s: State, t: string, ks: seq<Typed>)
    requires Matches(s, t) && WellTyped(ks)
    ensures Matches(Run(s, ks), Text(t, ks))
    decreases |ks|
  {
    if ks != [] {
      OwnKindKeepsMatch(s, t, ks[0]);
      RunMatches(Press(s, ks[0]), t + [ks[0].c], ks[1..]);
    }
  }

  /**
    The machine and the classifier agree after every history of keys that type characters of their
    own kind, if and only if the machine state describes the text it started from. Idle after
    ordinary text is one such start.
   */
  lemma MachineAgreesWithClassifier(s: State, t: string)
    ensures Matches(s, t) <==> forall ks | WellTyped(ks) :: Agree(Run(s, ks), Text(t, ks))
    ensures t != [] && KindOfChar(t[|t| - 1]).Plain? ==> Matches(Idle, t)
  {
    hide TriggerOf, Run, Text, Transition;
    forall ks | WellTyped(ks) && Matches(s, t)
      ensures Agree(Run(s, ks), Text(t, ks))
    {
      RunMatches(s, t, ks);
    }
    if !Matches(s, t) {
      var space := SPACE_KEY;
      assert WellTyped([]) && WellTyped([space]);
      MismatchShows(s, t);
    }
    if t != [] && KindOfChar(t[|t| - 1]).Plain? {
      assert t == t[..|t| - 1] + [t[|t| - 1]];
      TriggerAfter(t[..|t| - 1], t[|t| - 1]);
    }
  }

  const SPACE_KEY := Typed(VK_SPACE, false, ' ')

  /** A state that does not describe the text disagrees with it now or after a space. */
  lemma MismatchShows(s: State, t: string)
    requires !Matches(s, t)
    ensures !Agree(Run(s, []), Text(t, [])) || !Agree(Run(s, [SPACE_KEY]), Text(t, [SPACE_KEY]))
  {
    hide TriggerOf;
    assert [SPACE_KEY][1..] == [];
    assert Run(s, [SPACE_KEY]) == Run(Press(s, SPACE_KEY), []) == Press(s, SPACE_KEY);
    assert Text(t, [SPACE_KEY]) == Text(t + [' '], []) == t + [' '];
    TriggerAfter(t, ' ');
    if t != [] {
      assert t == t[..|t| - 1] + [t[|t| - 1]];
      TriggerAfter(t[..|t| - 1], t[|t| - 1]);
    }
  }

  /** Shift with the period key types '>' but is read as a full stop, so it is not of its own kind. */
  lemma ShiftPeriodBreaksAgreement()
    ensures var ks := [Typed(VK_OEM_PERIOD, true, '>'), Typed(VK_SPACE, false, ' ')];
            Matches(Idle, "a") && !Agree(Run(Idle, ks), Text("a", ks))
  {
    var gt, space := Typed(VK_OEM_PERIOD, true, '>'), Typed(VK_SPACE, false, ' ');
    var ks := [gt, space];
    assert ks[1..] == [space] && [space][1..] == [];
    assert Run(Idle, ks) == Run(AfterPunct, [space]) == Run(ReadyToCapitalize, []) == ReadyToCapitalize;
    assert "a" + ['>'] == "a>" && "a>" + [' '] == "a> ";
    assert Text("a", ks) == Text("a" + ['>'], [space]) == Text("a>" + [' '], []) == "a> ";
    SampleTriggers();
  }
}
