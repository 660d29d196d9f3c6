/** A host that tests every key first and a host that only delivers keys reach the same text. */
module TsfDelivery {
  import opened Keys
  import opened Options
  import opened TsfModel
  import opened TsfSync
  import opened TsfUndo

  /** Everything but the commit-undo cache: document, composition, engine buffer, flags, settings. */
  ghost predicate SameText(a: Ctl, b: Ctl) {
    a.(undo := IDLE) == b.(undo := IDLE)
  }

  /** One delivery of a key: punctuation commits, otherwise WantKey is asked once and obeyed. */
  function Deliver(c: Ctl, e: KeyEvent): (Ctl, bool) {
    if Chord(e) then (c, false)
    else if CommitsPunctuation(c, e) && e.printable.Some? then (CommitWithChar(c, e.printable.value, e.now), true)
    else
      var (c1, want) := WantKey(c, e);
      if want then HandleKey(c1, e)
      else (if Count(c1) > 0 then Commit(c1, e.now) else c1, false)
  }

  function Delivered(c: Ctl, e: KeyEvent): Ctl {
    var (c', eaten) := Deliver(c, e);
    if eaten then c' else c'.(doc := HostApply(c'.doc, e.host))
  }

  /** Neither Escape nor a Backspace without anything typed; a chord only when nothing is typed. */
  predicate Covered(c: Ctl, e: KeyEvent) {
    && e.vk != 0 && e.reload.None? && !e.selection
    && (if Chord(e) then Count(c) == 0
        else e.vk != VK_ESCAPE && (e.vk == VK_BACK ==> Count(c) > 0))
  }

  lemma KeyOnlyDelivers(t: Sink, e: KeyEvent)
    requires Covered(t.ctl, e) && t.testedVk == 0 && t.punct.None?
    ensures KeyOnly(t, e).ctl == Delivered(t.ctl, e)
    ensures KeyOnly(t, e).testedVk == 0 && KeyOnly(t, e).punct.None?
  {
    hide WantKey, HandleKey, Commit, CommitWithChar, HostApply, Count;
  }

  /** A key the test phase does not settle: the claim is what WantKey said, and an unclaimed key commits. */
  lemma TestPlainDelivers(s: Sink, c: Ctl, e: KeyEvent)
    requires e.vk == VK_BACK ==> Count(c) > 0
    requires !e.selection
    ensures var (c1, want) := WantKey(c, e);
            TestPlainKey(s, c, e)
            == (Remember(s, if !want && Count(c1) > 0 then Commit(c1, e.now) else c1, e.vk, want), want)
  {
    hide WantKey, Commit, PrepareRevive;
    WantKeyOnUndo(c, e);
  }

  /** The second half: a key whose test was remembered is handled without asking WantKey again. */
  lemma ClaimedKeyDelivers(s: Sink, e: KeyEvent)
    requires s.testedVk == e.vk && s.wantResult && !Chord(e) && e.vk != VK_ESCAPE && !e.selection && e.reload.None?
    ensures OnKeyDown(s, e) ==
            var ch := if s.punct.Some? then s.punct else e.printable;
            if CommitsPunctuation(s.ctl, e) && ch.Some? then
              (Sink(CommitWithChar(s.ctl, ch.value, e.now), 0, true, None), true)
            else (Sink(HandleKey(s.ctl, e).0, 0, true, None), HandleKey(s.ctl, e).1)
  {
    hide HandleKey, CommitWithChar, Count;
  }

  lemma TestDelivers(s: Sink, e: KeyEvent)
    requires Covered(s.ctl, e) && Synced(s.ctl) && !s.ctl.blocked
    ensures var c := s.ctl.(undo := AfterOtherKey(s.ctl.undo, e));
            OnTestKeyDown(s, e) ==
            if Chord(e) then (Sink(c, s.testedVk, s.wantResult, None), false)
            else if CommitsPunctuation(c, e) && e.printable.Some? then (Sink(c, e.vk, true, e.printable), true)
            else
              var (c1, want) := WantKey(c, e);
              (Sink(if !want && Count(c1) > 0 then Commit(c1, e.now) else c1, e.vk, want, None), want)
  {
    hide WantKey, Commit, TestPlainKey, AfterOtherKey;
    var c := s.ctl.(undo := AfterOtherKey(s.ctl.undo, e));
    if !Chord(e) {
      TestPlainDelivers(s.(punct := None), c, e);
    }
  }

  lemma TestThenKeyDelivers(s: Sink, e: KeyEvent)
    requires Covered(s.ctl, e) && Synced(s.ctl) && !s.ctl.blocked
    ensures TestThenKey(s, e).ctl == Delivered(s.ctl.(undo := AfterOtherKey(s.ctl.undo, e)), e)
  {
    hide WantKey, HandleKey, Commit, CommitWithChar, HostApply, OnTestKeyDown, OnKeyDown, AfterOtherKey;
    var c := s.ctl.(undo := AfterOtherKey(s.ctl.undo, e));
    TestDelivers(s, e);
    WantKeyOnUndo(c, e);
    var (s1, claimed) := OnTestKeyDown(s, e);
    assert e.(reload := None) == e;
    if claimed {
      ClaimedKeyDelivers(s1, e);
    }
  }

  // ----- one delivery does not look at the undo cache -----

  lemma WantKeySame(c: Ctl, u: Undo, e: KeyEvent)
    ensures var (c1, want) := WantKey(c, e); WantKey(c.(undo := u), e) == (c1.(undo := u), want)
  {
  }

  lemma ReviveSame(c: Ctl, u: Undo, w: string, at: nat, op: Op, e: KeyEvent)
    ensures ReviveEdit(c.(undo := u), w, at, op, e) == ReviveEdit(c, w, at, op, e).(undo := u)
  {
    hide StartComp, SetComp, EndComp, CoverFrom;
  }

  lemma PushSame(c: Ctl, u: Undo, ch: char, e: KeyEvent)
    ensures PushEdit(c.(undo := u), ch, e) == (PushEdit(c, ch, e).0.(undo := u), PushEdit(c, ch, e).1)
  {
    hide UpdateEdit;
  }

  lemma WordSame(c: Ctl, u: Undo, e: KeyEvent)
    ensures WordBefore(c.(undo := u), e.selection, 64) == WordBefore(c, e.selection, 64)
    ensures Revivable(c.(undo := u), WordBefore(c, e.selection, 64)) == Revivable(c, WordBefore(c, e.selection, 64))
    ensures ShouldAutoCapHere(c.(undo := u), e) == ShouldAutoCapHere(c, e)
    ensures Count(c.(undo := u)) == Count(c)
  {
    hide Window, VietSuffix;
  }

  lemma LetterSame(c: Ctl, u: Undo, e: KeyEvent)
    requires IsLetterKey(e.vk)
    ensures HandleLetter(c.(undo := u), e) == (HandleLetter(c, e).0.(undo := u), HandleLetter(c, e).1)
  {
    hide PushEdit, ReviveEdit, WordBefore, Revivable, ShouldAutoCapHere, Count, TypedLetter;
    var w := WordBefore(c, e.selection, 64);
    WordSame(c, u, e);
    ReviveSame(c, u, w, |c.doc.pre| - |w|, Push(TypedLetter(e)), e);
    PushSame(c, u, TypedLetter(e), e);
    PushSame(c, u, e.vk as char, e);
  }

  lemma CommitSame(c: Ctl, u: Undo, ch: char, e: KeyEvent)
    ensures SameText(Commit(c, e.now), Commit(c.(undo := u), e.now))
    ensures SameText(CommitWithChar(c, ch, e.now), CommitWithChar(c.(undo := u), ch, e.now))
    ensures ProcessBackspace(c.(undo := u), e) == ProcessBackspace(c, e).(undo := u)
  {
    hide CommitEdit, RecordCommit, UpdateEdit;
  }

  lemma HandleKeySame(c: Ctl, u: Undo, e: KeyEvent)
    ensures var (a, b) := (HandleKey(c, e), HandleKey(c.(undo := u), e));
            SameText(a.0, b.0) && a.1 == b.1
  {
    hide HandleLetter, ReviveEdit, ProcessBackspace, CommitWithChar, SetComp, UsesDigits, IsLetterKey, SameText;
    SameButUndo(HandleKey(c, e).0, u);
    CommitSame(c, u, ' ', e);
    if e.vk == VK_BACK {
      if c.pending.Some? {
        ReviveSame(c, u, c.pending.value.0, c.pending.value.1, Back, e);
      }
    } else if e.vk != VK_SPACE && IsLetterKey(e.vk) {
      LetterSame(c, u, e);
    }
  }

  lemma SameButUndo(c: Ctl, u: Undo)
    ensures SameText(c, c.(undo := u))
  {
  }

  lemma DeliverSame(c: Ctl, u: Undo, e: KeyEvent)
    ensures SameText(Delivered(c, e), Delivered(c.(undo := u), e))
  {
    hide WantKey, HandleKey, HostApply, Commit, CommitWithChar;
    WantKeySame(c, u, e);
    var c1 := WantKey(c, e).0;
    HandleKeySame(c1, u, e);
    CommitSame(c1, u, ' ', e);
    if e.printable.Some? {
      CommitSame(c, u, e.printable.value, e);
    }
  }

  // ----- whole runs -----

  function RunTested(s: Sink, es: seq<KeyEvent>): Sink
    decreases |es|
  {
    if es == [] then s else RunTested(TestThenKey(s, es[0]), es[1..])
  }

  function RunKeyOnly(s: Sink, es: seq<KeyEvent>): Sink
    decreases |es|
  {
    if es == [] then s else RunKeyOnly(KeyOnly(s, es[0]), es[1..])
  }

  predicate CoveredRun(s: Sink, es: seq<KeyEvent>)
    decreases |es|
  {
    es == [] || (Covered(s.ctl, es[0]) && CoveredRun(KeyOnly(s, es[0]), es[1..]))
  }

  /** The state the two hosts are in between keys. */
  ghost predicate InStep(s: Sink, t: Sink) {
    && SameText(s.ctl, t.ctl)
    && Good(s.ctl)
    && t.testedVk == 0 && t.punct.None?
  }

  lemma StepAgrees(s: Sink, t: Sink, e: KeyEvent)
    requires InStep(s, t) && Covered(t.ctl, e)
    ensures InStep(TestThenKey(s, e), KeyOnly(t, e))
  {
    hide TestThenKey, KeyOnly, Delivered, AfterOtherKey;
    KeyOnlyDelivers(t, e);
    TestThenKeyDelivers(s, e);
    DeliverSame(t.ctl, AfterOtherKey(s.ctl.undo, e), e);
    assert s.ctl.(undo := AfterOtherKey(s.ctl.undo, e)) == t.ctl.(undo := AfterOtherKey(s.ctl.undo, e));
    TestThenKeyKeepsGood(s, e);
  }

  ghost predicate Good(c: Ctl) {
    Lawful(c.cfg.engine) && Synced(c) && !c.blocked
  }

  lemma HostKeepsGood(s: Sink, e: KeyEvent, eaten: bool)
    requires Good(s.ctl)
    ensures Good(HostGets(s, e, eaten).ctl)
  {
  }

  lemma TestKeepsGood(s: Sink, e: KeyEvent)
    requires Good(s.ctl) && e.reload.None?
    ensures Good(OnTestKeyDown(s, e).0.ctl)
  {
    hide OnTestKeyDown;
    TestSyncs(s, e);
  }

  lemma KeyDownKeepsGood(s: Sink, e: KeyEvent)
    requires Good(s.ctl) && e.reload.None?
    ensures Good(OnKeyDown(s, e).0.ctl)
  {
    hide OnKeyDown;
    KeyDownKeepsSync(s, e);
  }

  lemma TestThenKeyKeepsGood(s: Sink, e: KeyEvent)
    requires Good(s.ctl) && e.reload.None?
    ensures Good(TestThenKey(s, e).ctl)
  {
    hide OnTestKeyDown, OnKeyDown, Good, HostGets;
    TestKeepsGood(s, e);
    assert e.(reload := None) == e;
    var (s1, claimed) := OnTestKeyDown(s, e);
    if claimed {
      KeyDownKeepsGood(s1, e);
      HostKeepsGood(OnKeyDown(s1, e).0, e, OnKeyDown(s1, e).1);
    } else {
      HostKeepsGood(s1, e, false);
    }
  }

  /**
    For every covered run of keys, the host that tests first and the host that only delivers reach the
    same document, composition, engine buffer, digit-led flag and settings: each key is delivered once.
   */
  lemma {:induction false} DeliveryStyleDoesNotMatter(s: Sink, t: Sink, es: seq<KeyEvent>)
    requires InStep(s, t) && CoveredRun(t, es)
    ensures SameText(RunTested(s, es).ctl, RunKeyOnly(t, es).ctl)
    decreases |es|
  {
    hide TestThenKey, KeyOnly, InStep;
    if es != [] {
      StepAgrees(s, t, es[0]);
      DeliveryStyleDoesNotMatter(TestThenKey(s, es[0]), KeyOnly(t, es[0]), es[1..]);
    }
    assert InStep(s, t) ==> SameText(s.ctl, t.ctl) by { StepSameText(s, t); }
  }

  lemma StepSameText(s: Sink, t: Sink)
    ensures InStep(s, t) ==> SameText(s.ctl, t.ctl)
  {
  }

  /** A chord over a live buffer does separate them: the test commits the word, a bare delivery leaves it composed. */
  lemma ChordSeparates(s: Sink, t: Sink, e: KeyEvent)
    requires InStep(s, t) && Chord(e) && e.reload.None? && !e.selection && Count(t.ctl) > 0
    ensures !SameText(TestThenKey(s, e).ctl, KeyOnly(t, e).ctl)
    ensures !Composing(TestThenKey(s, e).ctl) && Composing(KeyOnly(t, e).ctl)
  {
    hide CommitEdit, RecordCommit;
    TestSyncs(s, e);
    CommitsClear(s.ctl.(undo := AfterOtherKey(s.ctl.undo, e)), ' ', e.now);
  }
}
