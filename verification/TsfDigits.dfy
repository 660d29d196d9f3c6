/** A word that starts with a digit reaches the document exactly as typed. */
module TsfDigits {
  import opened Keys
  import opened Options
  import opened TsfModel
  import opened VietLetters
  import opened TsfSync
  import opened TsfUndo
  import opened TsfUndoLimits
  import DigitLed

  /** While a digit-led word is armed the engine is empty and no cached answer claims a key. */
  predicate DigitInv(s: Sink) {
    s.ctl.digitLed ==> Count(s.ctl) == 0 && s.ctl.modes.abiOk && (s.testedVk == 0 || !s.wantResult)
  }

  /** A Backspace behind a Vietnamese word, tested while a digit-led word is armed and the live flags say
      that the engine is off: WantKey leaves before it disarms the flag, and the word is still revived. */
  predicate StaleRevive(c: Ctl, e: KeyEvent) {
    && c.digitLed && !Composing(c) && !c.blocked
    && e.vk == VK_BACK && !Chord(e) && !(e.flags.connected && e.flags.enabled)
    && !(c.undo.state.Ready? && WithinUndoWindow(c.undo, e.now))
    && WouldRevive(c, e)
  }

  /** The gates a revive by Backspace has to pass. */
  predicate WouldRevive(c: Ctl, e: KeyEvent) {
    && c.modes.engineEnabled && c.modes.tsfActive && c.modes.vietnamese && !c.blocked && !c.scintilla
    && Count(c) == 0 && Revivable(c, WordBefore(c, e.selection, 16))
  }

  lemma GatesDecideRevive(c: Ctl, e: KeyEvent)
    ensures PrepareRevive(c, e).1 <==> WouldRevive(c, e)
  {
    hide Revivable, Window, VietSuffix, AllLetters;
    assert WordBefore(c.(pending := None), e.selection, 16) == WordBefore(c, e.selection, 16);
    SameRevivable(c, WordBefore(c, e.selection, 16));
  }

  lemma SameRevivable(c: Ctl, w: string)
    ensures Revivable(c.(pending := None), w) == Revivable(c, w)
  {
  }

  lemma WantKeyOnDigits(c: Ctl, e: KeyEvent)
    requires c.digitLed ==> Count(c) == 0 && c.modes.abiOk
    ensures var (c', want) := WantKey(c, e);
            && c' == c.(modes := c'.modes, digitLed := c'.digitLed)
            && c'.modes.abiOk == c.modes.abiOk && c'.modes.engineEnabled == c.modes.engineEnabled
            && (c'.digitLed ==> Count(c') == 0 && c'.modes.abiOk && !want)
            && (want ==> !c.digitLed)
            && (c.digitLed && !DigitLed.IsBoundary(e.vk) ==> c'.digitLed && !want)
            && (!(e.flags.connected && e.flags.enabled) ==> c' == c)
            && (c'.digitLed && e.vk == VK_BACK && !Chord(e) && e.flags.connected && e.flags.enabled ==>
                  !c'.modes.tsfActive || !c'.modes.vietnamese)
  {
  }

  /** Nothing but WantKey arms the flag. */
  lemma CommitsDisarm(c: Ctl, ch: char, e: KeyEvent)
    ensures !Commit(c, e.now).digitLed && !CommitWithChar(c, ch, e.now).digitLed
    ensures Resync(c, e.now).digitLed ==> Resync(c, e.now) == c && c.digitLed
    ensures EscapeRaw(c, e).0.digitLed ==>
              && c.digitLed && Count(EscapeRaw(c, e).0) == Count(c)
              && EscapeRaw(c, e).0.modes == c.modes && EscapeRaw(c, e).0.cfg == c.cfg
  {
    hide CommitEdit, RecordCommit, RestoreEdit;
  }

  lemma TestWantedOnDigits(s: Sink, c: Ctl, want: bool, e: KeyEvent)
    requires c.digitLed ==> Count(c) == 0 && c.modes.abiOk && !want
    ensures DigitInv(TestWanted(s, c, want, e).0)
            <==> !(c.digitLed && e.vk == VK_BACK && !(c.undo.state.Ready? && WithinUndoWindow(c.undo, e.now))
                   && WouldRevive(c, e))
    ensures c.digitLed && e.vk != VK_BACK ==> TestWanted(s, c, want, e) == (Remember(s, c, e.vk, false), false)
  {
    hide Commit, WordBefore, Revivable, WithinUndoWindow, WouldRevive;
    CommitsDisarm(c, ' ', e);
    CommitsDisarm(PrepareRevive(c, e).0, ' ', e);
    GatesDecideRevive(c, e);
    GatesDecideRevive(c.(undo := ResetUndo(c.undo)), e);
    ReviveIgnoresUndo(c, ResetUndo(c.undo), e);
  }

  lemma ReviveIgnoresUndo(c: Ctl, u: Undo, e: KeyEvent)
    ensures WouldRevive(c.(undo := u), e) == WouldRevive(c, e)
    ensures PrepareRevive(c, e).0.digitLed == c.digitLed
  {
    hide Window, VietSuffix, AllLetters;
    assert WordBefore(c.(undo := u), e.selection, 16) == WordBefore(c, e.selection, 16);
  }

  lemma ReloadKeepsDigitInv(s: Sink, r: Option<Reload>)
    requires DigitInv(s) && LawfulReload(r)
    ensures DigitInv(s.(ctl := CheckConfig(s.ctl, r)))
  {
  }

  /** A test keeps the invariant exactly when it is not a stale revive. */
  lemma TestKeepsDigitInv(s: Sink, e: KeyEvent)
    requires DigitInv(s) && LawfulReload(e.reload)
    ensures DigitInv(OnTestKeyDown(s, e).0) <==> !StaleRevive(CheckConfig(s.ctl, e.reload), e)
  {
    hide Commit, TestResynced, WouldRevive, WithinUndoWindow, Resync;
    ReloadKeepsDigitInv(s, e.reload);
    var c := CheckConfig(s.ctl, e.reload);
    CommitsDisarm(c, ' ', e);
    var c1 := c.(undo := AfterOtherKey(c.undo, e));
    CommitsDisarm(c1, ' ', e);
    ResyncOfArmed(c1, e);
    ReviveIgnoresUndo(c, c1.undo, e);
    if !c.blocked && !DismissesSuggestion(c, e) {
      TestResyncedOnDigits(s.(punct := None), Resync(c1, e.now), e);
    }
  }

  lemma ResyncOfArmed(c: Ctl, e: KeyEvent)
    requires c.digitLed ==> Count(c) == 0 && c.modes.abiOk
    ensures var c' := Resync(c, e.now);
            && c'.modes == c.modes && c'.blocked == c.blocked
            && (c'.digitLed <==> c.digitLed && !Composing(c))
            && (c'.digitLed ==> c' == c)
  {
    hide CommitEdit, RecordCommit;
  }

  lemma TestResyncedOnDigits(s: Sink, c: Ctl, e: KeyEvent)
    requires c.digitLed ==> Count(c) == 0 && c.modes.abiOk && !Composing(c)
    requires DigitInv(s.(ctl := c)) && !c.blocked
    ensures DigitInv(TestResynced(s, c, e).0) <==> !StaleRevive(c, e)
  {
    hide Commit, EscapeRaw, WantKey, TestWanted, WithinUndoWindow, WordBefore, Revivable;
    CommitsDisarm(c, ' ', e);
    if !Chord(e) {
      var c3 := EscapeRaw(c, e).0;
      EscapeRawModes(c, e);
      if e.vk != VK_ESCAPE { NoEscape(c, e); }
      WantKeyOnDigits(c3, e);
      var (c4, want) := WantKey(c3, e);
      TestWantedOnDigits(s, c4, want && !KeptBySuggestion(c4, e), e);
      ReviveIgnoresUndo(c4, c4.undo, e);
    }
  }

  lemma EscapeRawModes(c: Ctl, e: KeyEvent)
    ensures EscapeRaw(c, e).0.modes == c.modes
  {
  }

  lemma HandleKeyDisarms(c: Ctl, e: KeyEvent)
    requires !c.digitLed
    ensures !HandleKey(c, e).0.digitLed && HandleKey(c, e).0.modes == c.modes
  {
    hide CommitEdit, RecordCommit, StartComp, CoverFrom, SetComp, EndComp, UpdateEdit, WordBefore, ShouldAutoCapHere;
  }

  lemma KeyDecidedKeepsDigitInv(s: Sink, c: Ctl, want: bool, e: KeyEvent)
    requires c.digitLed ==> Count(c) == 0 && c.modes.abiOk && !want
    ensures DigitInv(KeyDecided(s, c, want, e).0)
  {
    hide Commit, HandleKey;
    CommitsDisarm(c, ' ', e);
    if !c.digitLed {
      HandleKeyDisarms(c, e);
    }
  }

  lemma KeyPlainKeepsDigitInv(s: Sink, c: Ctl, e: KeyEvent)
    requires c.digitLed ==> Count(c) == 0 && c.modes.abiOk && (s.testedVk == 0 || !s.wantResult)
    requires e.vk != 0
    ensures DigitInv(KeyPlain(s, c, e).0)
  {
    hide WantKey, KeyDecided;
    WantKeyOnDigits(c, e);
    var (c1, want) := WantKey(c, e);
    if e.vk == s.testedVk {
      KeyDecidedKeepsDigitInv(s, c, s.wantResult, e);
    } else {
      KeyDecidedKeepsDigitInv(s, c1, want && !KeptBySuggestion(c1, e), e);
    }
  }

  lemma KeyDownKeepsDigitInv(s: Sink, e: KeyEvent)
    requires DigitInv(s) && LawfulReload(e.reload) && e.vk != 0
    ensures DigitInv(OnKeyDown(s, e).0)
  {
    hide Commit, CommitWithChar, EscapeRaw, KeyPlain;
    ReloadKeepsDigitInv(s, e.reload);
    var c := CheckConfig(s.ctl, e.reload);
    CommitsDisarm(c, ' ', e);
    var c1 := EscapeRaw(c, e).0;
    EscapeRawModes(c, e);
    var ch := if e.vk == s.testedVk && s.punct.Some? then s.punct else e.printable;
    CommitsDisarm(c1, if ch.Some? then ch.value else ' ', e);
    KeyPlainKeepsDigitInv(s, c1, e);
  }

  /** What the digit-led invariant asks of a step: lawful engines and real keys. */
  ghost predicate DigitStep(st: Step) {
    match st
    case Test(e) => LawfulReload(e.reload)
    case Key(e) => LawfulReload(e.reload) && e.vk != 0
    case FocusChange(f) => LawfulReload(f.reload) && LawfulReload(f.shared)
    case _ => true
  }

  ghost predicate DigitSteps(steps: seq<Step>) {
    forall i :: 0 <= i < |steps| ==> DigitStep(steps[i])
  }

  /** None of the tests in the run is a stale revive. */
  predicate NoStaleRevive(s: Sink, steps: seq<Step>)
    decreases |steps|
  {
    steps == [] ||
    (&& (steps[0].Test? ==> !StaleRevive(CheckConfig(s.ctl, steps[0].e.reload), steps[0].e))
     && NoStaleRevive(Perform(s, steps[0]), steps[1..]))
  }

  /** The invariant holds in every state of the run. */
  predicate InvAlong(s: Sink, steps: seq<Step>)
    decreases |steps|
  {
    DigitInv(s) && (steps == [] || InvAlong(Perform(s, steps[0]), steps[1..]))
  }

  lemma QuietKeepsDigitInv(s: Sink, st: Step)
    requires DigitInv(s) && DigitStep(st) && !st.Test? && !st.Key?
    ensures DigitInv(Perform(s, st))
  {
    match st
    case FocusChange(f) => FocusKeepsDigitInv(s, f);
    case _ => hide TsfModel.OnSetFocus, OnTestKeyDown, OnKeyDown;
  }

  lemma FocusKeepsDigitInv(s: Sink, f: Focus)
    requires DigitInv(s) && DigitStep(FocusChange(f))
    ensures DigitInv(OnSetFocus(s, f))
  {
    if f.foreground {
      ReloadKeepsDigitInv(s, f.reload);
      RefreshKeepsDigitInv(s.(ctl := CheckConfig(s.ctl, f.reload)), f);
    }
  }

  lemma RefreshKeepsDigitInv(s: Sink, f: Focus)
    requires DigitInv(s) && LawfulReload(f.shared)
    ensures DigitInv(s.(ctl := RefreshFlags(s.ctl, f)))
  {
    hide MethodOf;
  }

  /** In a run of tests, keys, host edits, terminations and focus changes an armed flag always means an
      empty engine and no claimed key, if and only if no test is a stale revive. */
  lemma {:induction false} ArmedMeansEmptyExactly(s: Sink, steps: seq<Step>)
    requires DigitInv(s) && DigitSteps(steps)
    ensures InvAlong(s, steps) <==> NoStaleRevive(s, steps)
    decreases |steps|
  {
    hide OnTestKeyDown, OnKeyDown, StaleRevive;
    if steps != [] {
      match steps[0] {
        case Test(e) => TestKeepsDigitInv(s, e);
        case Key(e) => KeyDownKeepsDigitInv(s, e);
        case _ => QuietKeepsDigitInv(s, steps[0]);
      }
      hide Perform, DigitInv, CheckConfig;
      if DigitInv(Perform(s, steps[0])) {
        assert forall i :: 0 <= i < |steps| - 1 ==> steps[1..][i] == steps[i + 1];
        ArmedMeansEmptyExactly(Perform(s, steps[0]), steps[1..]);
      }
    }
  }

  /** So in a run without stale revives an armed flag means an empty engine at the end as well. */
  lemma {:induction false} ArmedMeansEmpty(s: Sink, steps: seq<Step>)
    requires DigitInv(s) && DigitSteps(steps) && NoStaleRevive(s, steps)
    ensures RunSteps(s, steps).ctl.digitLed ==> Count(RunSteps(s, steps).ctl) == 0
    decreases |steps|
  {
    ArmedMeansEmptyExactly(s, steps);
    LastOfRun(s, steps);
  }

  lemma {:induction false} LastOfRun(s: Sink, steps: seq<Step>)
    requires InvAlong(s, steps)
    ensures DigitInv(RunSteps(s, steps))
    decreases |steps|
  {
    hide Perform, DigitInv;
    if steps != [] {
      LastOfRun(Perform(s, steps[0]), steps[1..]);
    }
  }

  // ----- the word reaches the document verbatim -----

  /** One key in either delivery style. */
  function DeliveredBy(s: Sink, e: KeyEvent, tested: bool): Sink {
    if tested then TestThenKey(s, e) else KeyOnly(s, e)
  }

  function RunDelivered(s: Sink, es: seq<(KeyEvent, bool)>): Sink
    decreases |es|
  {
    if es == [] then s else RunDelivered(DeliveredBy(s, es[0].0, es[0].1), es[1..])
  }

  /** A key that types a character and does not end a digit-led word. */
  ghost predicate TypesInWord(e: KeyEvent) {
    e.vk != 0 && e.host.Inserts? && LawfulReload(e.reload) && !DigitLed.IsBoundary(e.vk)
  }

  ghost predicate AllTypeInWord(es: seq<(KeyEvent, bool)>) {
    forall i :: 0 <= i < |es| ==> TypesInWord(es[i].0)
  }

  ghost function TypedBy(es: seq<(KeyEvent, bool)>): string
    requires AllTypeInWord(es)
  {
    if es == [] then "" else [es[0].0.host.c] + TypedBy(es[1..])
  }

  predicate ArmedAndClear(s: Sink) {
    s.ctl.digitLed && DigitInv(s) && Clear(s.ctl) && !s.ctl.blocked
  }

  lemma WantKeyBypasses(c: Ctl, e: KeyEvent)
    requires c.digitLed && Count(c) == 0 && !DigitLed.IsBoundary(e.vk)
    ensures !WantKey(c, e).1 && WantKey(c, e).0 == c.(modes := WantKey(c, e).0.modes)
    ensures WantKey(c, e).0.modes.abiOk == c.modes.abiOk
  {
  }

  lemma ArmedKeyPasses(s: Sink, e: KeyEvent, tested: bool)
    requires ArmedAndClear(s) && TypesInWord(e)
    ensures var s' := DeliveredBy(s, e, tested);
            ArmedAndClear(s') && s'.ctl.doc == s.ctl.doc.(pre := s.ctl.doc.pre + [e.host.c])
    ensures !OnTestKeyDown(s, e).1 && !OnKeyDown(s, e).1
  {
    hide WantKey, Commit, CommitWithChar, HandleKey;
    ReloadKeepsDigitInv(s, e.reload);
    var c := CheckConfig(s.ctl, e.reload);
    WantKeyBypasses(c, e);
    WantKeyBypasses(c.(undo := AfterOtherKey(c.undo, e)), e);
  }

  lemma {:induction false} ArmedWordVerbatim(s: Sink, es: seq<(KeyEvent, bool)>)
    requires ArmedAndClear(s) && AllTypeInWord(es)
    ensures ArmedAndClear(RunDelivered(s, es))
    ensures RunDelivered(s, es).ctl.doc == s.ctl.doc.(pre := s.ctl.doc.pre + TypedBy(es))
    decreases |es|
  {
    hide DeliveredBy, ArmedAndClear, AllTypeInWord, TypesInWord;
    RestTypes(es);
    if es != [] {
      ArmedKeyPasses(s, es[0].0, es[0].1);
      ArmedWordVerbatim(DeliveredBy(s, es[0].0, es[0].1), es[1..]);
      Regroup(s.ctl.doc.pre, es[0].0.host.c, TypedBy(es[1..]));
    } else {
      assert s.ctl.doc.pre + "" == s.ctl.doc.pre;
    }
  }

  lemma RestTypes(es: seq<(KeyEvent, bool)>)
    requires AllTypeInWord(es)
    ensures es != [] ==> TypesInWord(es[0].0) && es[0].0.host.Inserts? && AllTypeInWord(es[1..])
  {
  }

  lemma Regroup(a: string, c: char, b: string)
    ensures a + [c] + b == a + ([c] + b)
  {
  }

  /** The digit that starts the word, once the settings are read: the service is on, the method uses
      digits, nothing is typed yet. */
  ghost predicate StartsDigitLed(s: Sink, e: KeyEvent) {
    var c := CheckConfig(s.ctl, e.reload);
    && TypesInWord(e) && !Chord(e) && !e.shift && VK_0 <= e.vk <= VK_9 && UsesDigits(c.cfg.input)
    && c.modes.abiOk && e.flags == Flags(true, true, true, true) && !c.blocked && !c.digitLed && Clear(c)
  }

  /** WantKey is asked, and not answered from an earlier test of the same key. */
  predicate Asked(s: Sink, e: KeyEvent, tested: bool) {
    tested || s.testedVk != e.vk
  }

  lemma DigitArms(s: Sink, e: KeyEvent, tested: bool)
    requires StartsDigitLed(s, e)
    ensures var s' := DeliveredBy(s, e, tested);
            && (ArmedAndClear(s') <==> Asked(s, e, tested))
            && s'.ctl.doc == s.ctl.doc.(pre := s.ctl.doc.pre + [e.host.c])
  {
    hide Commit, CommitWithChar, PrepareRevive, ReviveEdit, HandleLetter, ProcessBackspace, SetComp;
  }

  /**
    A digit at the start of a word and every key up to the next boundary go to the host, in either
    delivery style and whatever settings change on the way: the word stands in the document exactly as
    typed. Only the first key has to be asked for.
   */
  lemma NumberLedWordVerbatim(s: Sink, e: KeyEvent, tested: bool, es: seq<(KeyEvent, bool)>)
    requires StartsDigitLed(s, e) && Asked(s, e, tested) && AllTypeInWord(es)
    ensures RunDelivered(DeliveredBy(s, e, tested), es).ctl.doc
            == s.ctl.doc.(pre := s.ctl.doc.pre + [e.host.c] + TypedBy(es))
  {
    hide DeliveredBy, ArmedAndClear;
    DigitArms(s, e, tested);
    ArmedWordVerbatim(DeliveredBy(s, e, tested), es);
  }

  // ----- where the invariant fails -----

  /**
    If the engine is disabled in the live flags while a digit-led word is armed, WantKey leaves early
    without touching the flag, yet the Backspace is still claimed to revive the word before the caret:
    the flag is then armed over a non-empty engine. The settings check at the start of the test has not
    seen the change: it lands between the two, or was being written.
   */
  lemma DisabledFlagsReviveWhileArmed()
    ensures DigitInv(Sink(ARMED, 0, false, None)) && Lawful(BARE) && StaleRevive(ARMED, DISABLED_BACK)
    ensures var s := TestThenKey(Sink(ARMED, 0, false, None), DISABLED_BACK);
            s.ctl.digitLed && Count(s.ctl) > 0
  {
    hide KeyDecided, PrepareRevive, HostApply;
    BareIsLawful();
    DisabledRevive();
    GatesDecideRevive(ARMED, DISABLED_BACK);
    var c := ARMED.(pending := Some((REVIVED, 1)));
    assert OnTestKeyDown(Sink(ARMED, 0, false, None), DISABLED_BACK) == (Sink(c, VK_BACK, true, None), true);
    ReviveKeepsFlag(Sink(c, VK_BACK, true, None));
  }

  const REVIVED: Word := TwoAs()

  function TwoAs(): Word {
    assert AllLetters("aa") by { hide AllLetters; LettersA(); }
    "aa"
  }

  lemma LettersA()
    ensures AllLetters("aa")
  {
    assert IsVietLetter('a');
  }

  const ARMED := Ctl([], Doc("1aa", None, ""), Config(BARE, VNI, false, false, false), Modes(true, true, true, true),
                     false, false, true, IDLE, None)
  const DISABLED_BACK := Press(VK_BACK, false, 0, DeletesOne).(flags := Flags(true, false, true, true))

  /** The word before the caret is offered for revival although the live flags say disabled. */
  lemma DisabledRevive()
    ensures PrepareRevive(ARMED, DISABLED_BACK) == (ARMED.(pending := Some((REVIVED, 1))), true)
  {
    hide VietSuffix;
    LastTwo('1', 'a', 'a');
    assert ['1', 'a', 'a'] == "1aa" && "1aa"[1..] == "aa" == REVIVED;
    assert WordBefore(ARMED, false, 16) == "aa";
  }

  lemma LastTwo(c: char, d: char, e: char)
    requires !IsVietLetter(c) && IsVietLetter(d) && IsVietLetter(e)
    ensures VietSuffix([c, d, e]) == 2
  {
    hide IsVietLetter, AllLetters;
    var t: string := [];
    SuffixGrows(t, c);
    SuffixGrows([c], d);
    SuffixGrows([c, d], e);
    assert t + [c] == [c] && [c] + [d] == [c, d] && [c, d] + [e] == [c, d, e];
  }

  lemma SuffixGrows(t: string, c: char)
    ensures VietSuffix(t + [c]) == if IsVietLetter(c) then 1 + VietSuffix(t) else 0
  {
    hide IsVietLetter;
    assert (t + [c])[..|t|] == t;
  }

  lemma ReviveKeepsFlag(s: Sink)
    requires s.ctl == ARMED.(pending := Some((REVIVED, 1)))
    ensures var r := KeyDecided(s, s.ctl, true, DISABLED_BACK.(reload := None));
            r.1 && r.0.ctl.digitLed && Count(r.0.ctl) > 0
  {
    var h := [Seed("aa"), Back];
    assert h[..1] == [Seed("aa")] && [Seed("aa")][..0] == [];
    assert CountOps([Seed("aa")]) == 2 && CountOps(h) == 1;
  }
}
