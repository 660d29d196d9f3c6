/**
  Escape after Backspace puts the raw keys of the last committed word back. Over every run of the
  test-then-key protocol the cache fits the document exactly as long as nothing takes the committed text
  away from the caret, and then the text a restore replaces is exactly the committed body.
 */
module TsfUndo {
  import opened Keys
  import opened Options
  import opened TsfModel
  import opened TsfSync

  predicate EndsWith(t: string, w: string) {
    |w| <= |t| && t[|t| - |w|..] == w
  }

  /** While the cache is armed and younger than the time-out, nothing is composed and the document ends,
      before the caret, with the committed text (Ready) or with its body (Primed). */
  predicate UndoFits(c: Ctl) {
    && c.doc.comp.None?
    && Count(c) == 0
    && (c.undo.state.Ready? ==> EndsWith(c.doc.pre, c.undo.last.text))
    && (c.undo.state.Primed? ==> EndsWith(c.doc.pre, Body(c.undo.last)))
  }

  /** `clock` is the latest instant seen. */
  predicate UndoInv(c: Ctl, clock: nat) {
    !c.undo.state.NoUndo? ==>
      && c.undo.last.stamp <= clock
      && c.undo.last.trailing && c.undo.last.text != "" && c.undo.last.raw != ""
      && (clock - c.undo.last.stamp <= UNDO_TIMEOUT ==> UndoFits(c))
  }

  /** Inside one wrap of the tick counter, the age the service computes is the true age. */
  lemma AgeIsTrue(stamp: nat, now: nat)
    requires stamp <= now < stamp + TICK_WRAP
    ensures (TickCount(now) - TickCount(stamp)) % TICK_WRAP == now - stamp
  {
    var q, r := now / TICK_WRAP, stamp / TICK_WRAP;
    assert TickCount(now) - TickCount(stamp) == (now - stamp) - (q - r) * TICK_WRAP;
    assert q == r || q == r + 1;
  }

  predicate Young(u: Undo, now: nat) {
    !u.state.NoUndo? && now - u.last.stamp <= UNDO_TIMEOUT
  }

  /** The service takes an old cache for a fresh one. */
  predicate Misjudged(u: Undo, now: nat) {
    WithinUndoWindow(u, now) && !Young(u, now)
  }

  /** That happens exactly when the age has wrapped: at least 2^32 milliseconds, and no more than the
      time-out beyond a multiple of that. */
  lemma MisjudgedExactly(u: Undo, now: nat)
    requires !u.state.NoUndo? && u.last.stamp <= now
    ensures var age := now - u.last.stamp;
            Misjudged(u, now) <==> age >= TICK_WRAP && age % TICK_WRAP <= UNDO_TIMEOUT
  {
    TickDifference(u.last.stamp, now);
  }

  lemma TickDifference(stamp: nat, now: nat)
    requires stamp <= now
    ensures (TickCount(now) - TickCount(stamp)) % TICK_WRAP == (now - stamp) % TICK_WRAP
  {
    var q, r := now / TICK_WRAP, stamp / TICK_WRAP;
    assert TickCount(now) - TickCount(stamp) == (now - stamp) - (q - r) * TICK_WRAP;
  }

  lemma UsableIsYoung(c: Ctl, clock: nat, now: nat)
    requires UndoInv(c, clock) && clock <= now
    ensures UndoInv(c, now)
    ensures Young(c.undo, now) ==> WithinUndoWindow(c.undo, now) && UndoFits(c)
    ensures !Misjudged(c.undo, now) ==> (WithinUndoWindow(c.undo, now) <==> Young(c.undo, now))
  {
    if !c.undo.state.NoUndo? && now - c.undo.last.stamp <= UNDO_TIMEOUT {
      AgeIsTrue(c.undo.last.stamp, now);
    }
  }

  // ----- what each handler does to the cache -----

  lemma CommitDrops(c: Ctl, now: nat)
    ensures Commit(c, now).undo.state.NoUndo?
  {
  }

  lemma CommitWithCharArms(c: Ctl, ch: char, now: nat)
    requires Lawful(c.cfg.engine) && Synced(c) && Composing(c)
    ensures JustArmed(CommitWithChar(c, ch, now), now)
  {
    CommitsClear(c, ch, now);
  }

  /** The cache was filled by this very key, or it is empty. */
  predicate JustArmed(c: Ctl, now: nat) {
    !c.undo.state.NoUndo? ==>
      && UndoFits(c) && c.undo.state.Ready?
      && c.undo.last.stamp == now && c.undo.last.trailing && c.undo.last.text != "" && c.undo.last.raw != ""
  }

  lemma ResyncOnUndo(c: Ctl, now: nat)
    ensures Resync(c, now).undo.state.NoUndo? || Resync(c, now).undo == c.undo
    ensures Count(c) == 0 && c.doc.comp.None? ==> Resync(c, now) == c
  {
    hide Commit;
    CommitDrops(c, now);
  }

  lemma EscapeRawOnUndo(c: Ctl, e: KeyEvent)
    ensures var (c', restored) := EscapeRaw(c, e);
            && (c'.undo.state.NoUndo? || c'.undo == c.undo)
            && (restored ==> e.vk == VK_ESCAPE)
            && (restored && Count(c) == 0 ==> c'.undo.state.NoUndo?)
            && (!restored && Count(c) == 0 ==> c' == c || c'.undo.state.NoUndo?)
            && (!restored ==> c' == c.(undo := c'.undo))
  {
  }

  /** A lone Backspace on a fresh Ready cache primes it and is left to the host; a lone Backspace on a
      primed cache drops it; otherwise the cache is dropped or kept. */
  lemma TestWantedOnUndo(s: Sink, c: Ctl, want: bool, e: KeyEvent)
    ensures var (s', claimed) := TestWanted(s, c, want, e);
            var lone := e.vk == VK_BACK && Count(c) == 0;
            && (lone && c.undo.state.Ready? && WithinUndoWindow(c.undo, e.now)
                ==> !claimed && s'.ctl == c.(undo := c.undo.(state := Primed)))
            && (lone && c.undo.state.Primed? ==> s'.ctl.undo.state.NoUndo?)
            && (!(lone && c.undo.state.Ready? && WithinUndoWindow(c.undo, e.now))
                ==> s'.ctl.undo.state.NoUndo? || s'.ctl.undo == c.undo)
            && (e.vk != VK_BACK && Count(c) == 0 ==> s'.ctl == c && claimed == want)
            && (claimed && e.vk != VK_BACK ==> want && s'.ctl == c)
  {
    hide PrepareRevive, Commit;
    PrepareReviveSyncs(c, e);
    PrepareReviveSyncs(c.(undo := ResetUndo(c.undo)), e);
    CommitDrops(c, e.now);
  }

  lemma WantKeyOnUndo(c: Ctl, e: KeyEvent)
    ensures var (c', want) := WantKey(c, e);
            && c' == c.(modes := c'.modes, digitLed := c'.digitLed)
            && (want && e.vk == VK_SPACE ==> Count(c) > 0)
            && (want ==> e.vk != VK_ESCAPE)
  {
  }

  lemma TestPlainKeyOnUndo(s: Sink, c: Ctl, e: KeyEvent)
    ensures var (s', claimed) := TestPlainKey(s, c, e);
            var lone := e.vk == VK_BACK && Count(c) == 0;
            && (lone && c.undo.state.Ready? && WithinUndoWindow(c.undo, e.now)
                ==> !claimed && s'.ctl.undo == c.undo.(state := Primed) && s'.ctl.doc == c.doc && Count(s'.ctl) == 0)
            && (lone && c.undo.state.Primed? ==> s'.ctl.undo.state.NoUndo?)
            && (!(lone && c.undo.state.Ready? && WithinUndoWindow(c.undo, e.now))
                ==> s'.ctl.undo.state.NoUndo? || s'.ctl.undo == c.undo)
            && (e.vk == VK_ESCAPE && Count(c) == 0
                ==> !claimed && s'.ctl.doc == c.doc && Count(s'.ctl) == 0)
            && (claimed && e.vk == VK_SPACE ==> Count(s'.ctl) > 0)
            && (claimed ==> e.vk != VK_ESCAPE)
  {
    hide WantKey, TestWanted;
    WantKeyOnUndo(c, e);
    var (c1, want) := WantKey(c, e);
    TestWantedOnUndo(s, c1, want && !KeptBySuggestion(c1, e), e);
  }

  // ----- one key -----

  /** What Backspace and Escape leave behind in the test phase. */
  ghost predicate AfterUndoKey(c0: Ctl, s1: Sink, claimed: bool, e: KeyEvent) {
    || s1.ctl.undo.state.NoUndo?
    || (s1.ctl.undo == c0.undo && !WithinUndoWindow(c0.undo, e.now))
    || (e.vk == VK_ESCAPE && !claimed && s1.ctl.undo == c0.undo && s1.ctl.doc == c0.doc && Count(s1.ctl) == 0)
    || (&& e.vk == VK_BACK && !claimed && c0.undo.state.Ready? && s1.ctl.undo == c0.undo.(state := Primed)
        && s1.ctl.doc == c0.doc && Count(s1.ctl) == 0)
  }

  lemma TestOnUndoKey(s: Sink, e: KeyEvent)
    requires !s.ctl.blocked && !e.selection && (e.vk == VK_BACK || e.vk == VK_ESCAPE)
    requires var c0 := CheckConfig(s.ctl, e.reload);
             && (WithinUndoWindow(c0.undo, e.now) ==> UndoFits(c0))
             && (Chord(e) ==> c0.undo.state.NoUndo?)
    ensures var (s1, claimed) := OnTestKeyDown(s, e);
            AfterUndoKey(CheckConfig(s.ctl, e.reload), s1, claimed, e)
  {
    hide Commit, Resync, EscapeRaw, TestPlainKey, WithinUndoWindow;
    var c0 := CheckConfig(s.ctl, e.reload);
    ResyncOnUndo(c0, e.now);
    var c2 := Resync(c0, e.now);
    CommitDrops(c2, e.now);
    EscapeRawOnUndo(c2, e);
    TestPlainKeyOnUndo(s.(punct := None), EscapeRaw(c2, e).0, e);
  }

  /** Whatever the document: the test drops the cache, keeps it or primes it. */
  lemma TestKeepsLast(s: Sink, e: KeyEvent)
    requires !s.ctl.blocked && !e.selection && (e.vk == VK_BACK || e.vk == VK_ESCAPE)
    ensures var u := OnTestKeyDown(s, e).0.ctl.undo;
            u.state.NoUndo? || (u.last == s.ctl.undo.last && !s.ctl.undo.state.NoUndo?)
  {
    hide Commit, Resync, EscapeRaw, TestPlainKey, WithinUndoWindow;
    var c0 := CheckConfig(s.ctl, e.reload);
    ResyncOnUndo(c0, e.now);
    var c2 := Resync(c0, e.now);
    CommitDrops(c2, e.now);
    EscapeRawOnUndo(c2, e);
    TestPlainKeyOnUndo(s.(punct := None), EscapeRaw(c2, e).0, e);
  }

  lemma TestOnOtherKey(s: Sink, e: KeyEvent)
    requires !s.ctl.blocked && e.vk != VK_BACK && e.vk != VK_ESCAPE
    ensures var (s1, claimed) := OnTestKeyDown(s, e);
            s1.ctl.undo.state.NoUndo? && (claimed && e.vk == VK_SPACE ==> Count(s1.ctl) > 0)
  {
    hide Commit, Resync, EscapeRaw, TestPlainKey;
    var c0 := CheckConfig(s.ctl, e.reload);
    var c1 := c0.(undo := AfterOtherKey(c0.undo, e));
    ResyncOnUndo(c1, e.now);
    var c2 := Resync(c1, e.now);
    CommitDrops(c2, e.now);
    EscapeRawOnUndo(c2, e);
    TestPlainKeyOnUndo(s.(punct := None), EscapeRaw(c2, e).0, e);
  }

  lemma HandleKeyOnUndo(c: Ctl, e: KeyEvent)
    requires Lawful(c.cfg.engine) && Synced(c) && (e.vk == VK_SPACE ==> Count(c) > 0)
    ensures var (c', eaten) := HandleKey(c, e);
            || c'.undo == c.undo
            || (e.vk == VK_SPACE && eaten && JustArmed(c', e.now))
  {
    hide CommitWithChar;
    if e.vk == VK_SPACE {
      CommitWithCharArms(c, ' ', e.now);
    }
  }

  lemma KeyPlainOnUndo(s: Sink, c: Ctl, e: KeyEvent)
    requires Lawful(c.cfg.engine) && Synced(c) && (e.vk == VK_SPACE && e.vk == s.testedVk ==> Count(c) > 0)
    ensures var (s', eaten) := KeyPlain(s, c, e);
            || s'.ctl.undo == c.undo || s'.ctl.undo.state.NoUndo?
            || (eaten && e.vk == VK_SPACE && JustArmed(s'.ctl, e.now))
  {
    hide WantKey, HandleKey, Commit;
    WantKeyOnUndo(c, e);
    var (c1, want) := WantKey(c, e);
    CommitDrops(c, e.now);
    CommitDrops(c1, e.now);
    if e.vk != VK_SPACE || Count(c) > 0 {
      HandleKeyOnUndo(c, e);
      HandleKeyOnUndo(c1, e);
    }
  }

  /** Delivering a key leaves the cache alone, drops it, or fills it with what this key committed. */
  lemma KeyDownOnUndo(s: Sink, e: KeyEvent)
    requires Lawful(s.ctl.cfg.engine) && Synced(s.ctl) && e.reload.None? && !e.selection
    requires e.vk == VK_SPACE && e.vk == s.testedVk ==> Count(s.ctl) > 0
    ensures var (s', eaten) := OnKeyDown(s, e);
            || s'.ctl.undo == s.ctl.undo || s'.ctl.undo.state.NoUndo?
            || (eaten && e.vk != VK_BACK && e.vk != VK_ESCAPE && JustArmed(s'.ctl, e.now))
  {
    hide Commit, CommitWithChar, EscapeRaw, KeyPlain;
    EscapeRawOnUndo(s.ctl, e);
    EscapeRawSyncs(s.ctl, e);
    var c := EscapeRaw(s.ctl, e).0;
    KeyPlainOnUndo(s, c, e);
    var ch := if e.vk == s.testedVk && s.punct.Some? then s.punct else e.printable;
    if CommitsPunctuation(c, e) && ch.Some? {
      CommitWithCharArms(c, ch.value, e.now);
    }
  }

  /** What the host does with keys it gets back: Backspace deletes one character, Escape leaves text
      alone, and anything at all may follow any other key. Nothing is selected. */
  predicate HostObeys(e: KeyEvent) {
    && !e.selection
    && (e.vk == VK_BACK && !Chord(e) ==> e.host == DeletesOne)
    && (e.vk == VK_ESCAPE && !Chord(e) ==> e.host == LeavesText)
  }

  predicate ChordedUndoKey(e: KeyEvent) {
    Chord(e) && (e.vk == VK_BACK || e.vk == VK_ESCAPE)
  }

  ghost predicate SameSettings(a: Ctl, b: Ctl) {
    a.cfg == b.cfg && a.blocked == b.blocked
  }

  lemma EditSettings(c: Ctl, w: string, at: nat, op: Op, e: KeyEvent)
    ensures SameSettings(c, ReviveEdit(c, w, at, op, e))
    ensures SameSettings(c, ProcessBackspace(c, e)) && SameSettings(c, CommitWithChar(c, ' ', e.now))
  {
    hide CommitEdit, RecordCommit, StartComp, CoverFrom, SetComp, EndComp, UpdateEdit, WordBefore, ShouldAutoCapHere;
  }

  lemma HandleKeySettings(c: Ctl, e: KeyEvent)
    ensures SameSettings(c, HandleKey(c, e).0)
  {
    hide ReviveEdit, ProcessBackspace, CommitWithChar, StartComp, SetComp, UpdateEdit, WordBefore, ShouldAutoCapHere;
    forall w, at, op
      ensures SameSettings(c, ReviveEdit(c, w, at, op, e))
    {
      EditSettings(c, w, at, op, e);
    }
    EditSettings(c, "", 0, Back, e);
  }

  lemma CommitSettings(c: Ctl, ch: char, e: KeyEvent)
    ensures SameSettings(c, Commit(c, e.now)) && SameSettings(c, CommitWithChar(c, ch, e.now))
    ensures SameSettings(c, EscapeRaw(c, e).0)
  {
    hide CommitEdit, RecordCommit, RestoreEdit, WithinUndoWindow, Count;
  }

  lemma KeyDownSettings(s: Sink, e: KeyEvent)
    requires e.reload.None?
    ensures SameSettings(s.ctl, OnKeyDown(s, e).0.ctl)
    ensures Chord(e) ==> OnKeyDown(s, e).0 == s
  {
    hide HandleKey, Commit, CommitWithChar, EscapeRaw, WantKey, IsPunctuationKey, WithinUndoWindow, Count;
    forall c: Ctl
      ensures SameSettings(c, Commit(c, e.now)) && SameSettings(c, EscapeRaw(c, e).0)
    {
      CommitSettings(c, ' ', e);
    }
    forall c: Ctl, ch: char
      ensures SameSettings(c, CommitWithChar(c, ch, e.now))
    {
      CommitSettings(c, ch, e);
    }
    var c := EscapeRaw(s.ctl, e).0;
    WantKeyOnUndo(c, e);
    HandleKeySettings(c, e);
    HandleKeySettings(WantKey(c, e).0, e);
  }

  /** The key reaches the host: the cache still fits, or it is too old to be used. */
  lemma HostKeepsFit(c0: Ctl, s1: Sink, e: KeyEvent, clock: nat)
    requires UndoInv(c0, clock) && clock <= e.now && !Misjudged(c0.undo, e.now)
    requires (e.vk == VK_BACK || e.vk == VK_ESCAPE) && HostObeys(e) && !Chord(e)
    requires AfterUndoKey(c0, s1, false, e)
    ensures UndoInv(HostGets(s1, e, false).ctl, e.now)
  {
    UsableIsYoung(c0, clock, e.now);
    hide WithinUndoWindow, Count, EndsWith, AfterUndoKey;
    if AfterBackspace(c0, s1, e) {
      if UndoFits(c0) { OneLess(c0.doc.pre, c0.undo.last.text); }
    } else {
      OtherOutcomes(c0, s1, e);
    }
  }

  /** The Backspace that primes the cache. */
  ghost predicate AfterBackspace(c0: Ctl, s1: Sink, e: KeyEvent) {
    && e.vk == VK_BACK && c0.undo.state.Ready? && s1.ctl.undo == c0.undo.(state := Primed)
    && s1.ctl.doc == c0.doc && Count(s1.ctl) == 0
  }

  lemma OtherOutcomes(c0: Ctl, s1: Sink, e: KeyEvent)
    requires AfterUndoKey(c0, s1, false, e) && !AfterBackspace(c0, s1, e)
    ensures || s1.ctl.undo.state.NoUndo?
            || (s1.ctl.undo == c0.undo && !WithinUndoWindow(c0.undo, e.now))
            || (e.vk == VK_ESCAPE && s1.ctl.undo == c0.undo && s1.ctl.doc == c0.doc && Count(s1.ctl) == 0)
  {
    hide WithinUndoWindow;
  }

  lemma OneLess(pre: string, text: string)
    requires EndsWith(pre, text) && text != ""
    ensures EndsWith(pre[..|pre| - 1], text[..|text| - 1])
  {
    var cut := pre[..|pre| - 1];
    assert cut[|cut| - (|text| - 1)..] == text[..|text| - 1];
  }

  ghost predicate RunInv(c: Ctl, clock: nat) {
    UndoInv(c, clock) && Lawful(c.cfg.engine) && !c.blocked
  }

  lemma ReloadKeepsRunInv(c: Ctl, r: Option<Reload>, clock: nat)
    requires LawfulFor(c, r) && RunInv(c, clock)
    ensures RunInv(CheckConfig(c, r), clock) && CheckConfig(c, r).undo == c.undo && CheckConfig(c, r).doc == c.doc
  {
  }

  /** A lone Backspace or Escape on a young cache. */
  lemma YoungKeyKeepsInv(s: Sink, e: KeyEvent, clock: nat)
    requires LawfulFor(s.ctl, e.reload) && RunInv(s.ctl, clock) && clock <= e.now
    requires HostObeys(e) && !Chord(e) && (e.vk == VK_BACK || e.vk == VK_ESCAPE) && Young(s.ctl.undo, e.now)
    ensures RunInv(TestThenKey(s, e).ctl, e.now)
  {
    hide OnTestKeyDown, OnKeyDown, WithinUndoWindow, UndoFits, Count, CheckConfig, HostApply, Synced;
    hide Composing;
    ReloadKeepsRunInv(s.ctl, e.reload, clock);
    TestSyncs(s, e);
    var c0 := CheckConfig(s.ctl, e.reload);
    UsableIsYoung(c0, clock, e.now);
    var (s1, claimed) := OnTestKeyDown(s, e);
    TestOnUndoKey(s, e);
    if claimed {
      KeyDownOnUndo(s1, e.(reload := None));
      KeyDownSettings(s1, e.(reload := None));
    } else {
      HostKeepsFit(c0, s1, e, clock);
    }
  }

  /** Backspace or Escape, chorded or not, where there is no cache or an old one, misjudged or not. */
  lemma OldKeyKeepsInv(s: Sink, e: KeyEvent, clock: nat)
    requires LawfulFor(s.ctl, e.reload) && RunInv(s.ctl, clock) && clock <= e.now
    requires HostObeys(e) && (e.vk == VK_BACK || e.vk == VK_ESCAPE) && !Young(s.ctl.undo, e.now)
    ensures RunInv(TestThenKey(s, e).ctl, e.now)
    ensures s.ctl.undo.state.NoUndo? ==> TestThenKey(s, e).ctl.undo.state.NoUndo?
  {
    hide OnTestKeyDown, OnKeyDown, WithinUndoWindow, UndoFits, Count, CheckConfig, HostApply, Synced;
    hide Composing;
    ReloadKeepsRunInv(s.ctl, e.reload, clock);
    TestSyncs(s, e);
    TestKeepsLast(s, e);
    var (s1, claimed) := OnTestKeyDown(s, e);
    if claimed {
      KeyDownOnUndo(s1, e.(reload := None));
      KeyDownSettings(s1, e.(reload := None));
    }
  }

  lemma OtherKeyKeepsInv(s: Sink, e: KeyEvent)
    requires LawfulFor(s.ctl, e.reload) && !s.ctl.blocked && !e.selection
    requires e.vk != VK_BACK && e.vk != VK_ESCAPE
    ensures RunInv(TestThenKey(s, e).ctl, e.now)
    ensures Chord(e) ==> TestThenKey(s, e).ctl.undo.state.NoUndo?
  {
    hide OnTestKeyDown, OnKeyDown, UndoFits, Count, CheckConfig, HostApply, Synced, Composing;
    TestSyncs(s, e);
    TestOnOtherKey(s, e);
    var (s1, claimed) := OnTestKeyDown(s, e);
    if claimed {
      KeyDownOnUndo(s1, e.(reload := None));
      KeyDownSettings(s1, e.(reload := None));
    }
  }

  // ----- exactly what spoils the cache -----

  /** What has to stand before the caret for the cache to fit. */
  function Expected(u: Undo): string {
    if u.state.Primed? then Body(u.last) else u.last.text
  }

  /** The host's edit takes the committed text away from the caret while the cache is young. */
  predicate TakesAway(c: Ctl, h: HostEdit, now: nat) {
    Young(c.undo, now) && !EndsWith(HostApply(c.doc, h).pre, Expected(c.undo))
  }

  /** A chorded Backspace or Escape leaves a young cache as it is and lets the host act. */
  lemma ChordOnYoungCache(s: Sink, e: KeyEvent, clock: nat)
    requires LawfulFor(s.ctl, e.reload) && RunInv(s.ctl, clock) && clock <= e.now
    requires HostObeys(e) && ChordedUndoKey(e) && Young(s.ctl.undo, e.now)
    ensures var c := CheckConfig(s.ctl, e.reload);
            TestThenKey(s, e).ctl == c.(doc := HostApply(c.doc, e.host)) && c.undo == s.ctl.undo && UndoFits(c)
  {
    hide Commit, TestPlainKey, EscapeRaw, OnKeyDown, EndsWith, WithinUndoWindow;
    ReloadKeepsRunInv(s.ctl, e.reload, clock);
    var c := CheckConfig(s.ctl, e.reload);
    UsableIsYoung(c, clock, e.now);
    assert Resync(c, e.now) == c;
  }

  /** A host edit leaves a cache that fits exactly when it does not take the committed text away. */
  lemma EditKeepsInvExactly(c: Ctl, h: HostEdit, clock: nat, now: nat)
    requires UndoInv(c, clock) && clock <= now
    ensures UndoInv(c.(doc := HostApply(c.doc, h)), now) <==> !TakesAway(c, h, now)
  {
    hide EndsWith;
    UsableIsYoung(c, clock, now);
  }

  /** One key under the test-then-key protocol keeps the invariant of the commit-undo cache, unless it is
      a chorded Backspace or Escape whose effect takes the committed text away. */
  lemma PressKeepsUndoInvExactly(s: Sink, e: KeyEvent, clock: nat)
    requires LawfulFor(s.ctl, e.reload) && RunInv(s.ctl, clock) && clock <= e.now && HostObeys(e)
    ensures UndoInv(TestThenKey(s, e).ctl, e.now) <==> !(ChordedUndoKey(e) && TakesAway(s.ctl, e.host, e.now))
    ensures UndoInv(TestThenKey(s, e).ctl, e.now) ==> RunInv(TestThenKey(s, e).ctl, e.now)
  {
    hide TestThenKey, UndoInv, TakesAway, CheckConfig;
    if e.vk != VK_BACK && e.vk != VK_ESCAPE {
      OtherKeyKeepsInv(s, e);
    } else if !Young(s.ctl.undo, e.now) {
      OldKeyKeepsInv(s, e, clock);
      OldIsNotTaken(s.ctl, e);
    } else if !Chord(e) {
      YoungKeyKeepsInv(s, e, clock);
    } else {
      ChordOnYoungCache(s, e, clock);
      ReloadKeepsRunInv(s.ctl, e.reload, clock);
      var c := CheckConfig(s.ctl, e.reload);
      EditKeepsInvExactly(c, e.host, clock, e.now);
      SameTaken(c, s.ctl, e);
    }
  }

  lemma OldIsNotTaken(c: Ctl, e: KeyEvent)
    requires !Young(c.undo, e.now)
    ensures !TakesAway(c, e.host, e.now)
  {
  }

  lemma SameTaken(c: Ctl, d: Ctl, e: KeyEvent)
    requires c.undo == d.undo && c.doc == d.doc
    ensures TakesAway(c, e.host, e.now) == TakesAway(d, e.host, e.now)
  {
  }

  // ----- the restore itself -----

  /** The test phase of this Escape replaces the last commit by its raw keys. */
  predicate Restores(s: Sink, e: KeyEvent) {
    var c := Resync(CheckConfig(s.ctl, e.reload), e.now);
    && e.vk == VK_ESCAPE && !Chord(e)
    && c.cfg.escRestore && Count(c) == 0 && c.undo.state.Primed? && WithinUndoWindow(c.undo, e.now)
  }

  /** The document ended, before the caret, with the committed body; the key turns exactly that body into
      the raw keys. (An empty body is left as it is.) */
  predicate BodyBecomesRaw(s: Sink, e: KeyEvent) {
    var l := s.ctl.undo.last;
    var d := s.ctl.doc;
    && EndsWith(d.pre, Body(l))
    && var prefix := d.pre[..|d.pre| - |Body(l)|];
    && d == Doc(prefix + Body(l), None, d.post)
    && TestThenKey(s, e).ctl.doc == Doc(prefix + (if Body(l) == "" then "" else l.raw), None, d.post)
    && TestThenKey(s, e).ctl.undo.state.NoUndo?
  }

  lemma EscapeOnClear(s: Sink, e: KeyEvent)
    requires e.vk == VK_ESCAPE && e.reload.None? && !Chord(e) && Count(s.ctl) == 0 && s.ctl.undo.state.NoUndo?
    ensures OnKeyDown(s, e).0.ctl.doc == s.ctl.doc && OnKeyDown(s, e).0.ctl.undo.state.NoUndo?
  {
    hide WantKey;
    WantKeyOnUndo(s.ctl, e);
  }

  lemma RestoreInTest(s: Sink, e: KeyEvent)
    requires !s.ctl.blocked && Restores(s, e)
    requires var c0 := CheckConfig(s.ctl, e.reload);
             UndoFits(c0) && c0.undo == s.ctl.undo && c0.undo.last.text != "" && c0.undo.last.raw != ""
    ensures var c0 := CheckConfig(s.ctl, e.reload);
            var l := s.ctl.undo.last;
            OnTestKeyDown(s, e) ==
            (s.(punct := None, ctl := c0.(doc := RestoreEdit(c0.doc, Body(l), l.raw), undo := IDLE)), true)
  {
    hide WithinUndoWindow, Commit, TestPlainKey, RestoreEdit, Body;
    ResyncOnUndo(CheckConfig(s.ctl, e.reload), e.now);
  }

  /** With a cache that fits and is not misjudged, the test of Escape restores exactly. */
  lemma RestoreIsExact(s: Sink, e: KeyEvent, clock: nat)
    requires LawfulFor(s.ctl, e.reload) && RunInv(s.ctl, clock) && clock <= e.now
    requires HostObeys(e) && Restores(s, e) && !Misjudged(s.ctl.undo, e.now)
    ensures BodyBecomesRaw(s, e)
  {
    hide OnKeyDown, OnTestKeyDown, WithinUndoWindow, Resync;
    var c0 := CheckConfig(s.ctl, e.reload);
    ReloadKeepsRunInv(s.ctl, e.reload, clock);
    UsableIsYoung(c0, clock, e.now);
    YoungAfterResync(c0, e.now);
    RestoreInTest(s, e);
    EscapeOnClear(OnTestKeyDown(s, e).0, e.(reload := None));
  }

  /** The key-down of a claimed Escape would restore once more. */
  predicate RestoresInKeyDown(s: Sink, e: KeyEvent) {
    var (s1, claimed) := OnTestKeyDown(s, e);
    && claimed && e.vk == VK_ESCAPE && !Chord(e)
    && s1.ctl.cfg.escRestore && Count(s1.ctl) == 0 && s1.ctl.undo.state.Primed? && WithinUndoWindow(s1.ctl.undo, e.now)
  }

  /** A cache waits for Escape only while the engine is empty, whatever its age. */
  predicate PrimedIsEmpty(c: Ctl) {
    c.undo.state.Primed? ==> Count(c) == 0
  }

  /** The test of a key keeps it so, and what it claims leaves no primed cache. */
  lemma TestKeepsPrimedEmpty(s: Sink, e: KeyEvent)
    requires LawfulFor(s.ctl, e.reload) && PrimedIsEmpty(s.ctl)
    ensures var (s1, claimed) := OnTestKeyDown(s, e);
            PrimedIsEmpty(s1.ctl) && Lawful(s1.ctl.cfg.engine) && (claimed ==> !s1.ctl.undo.state.Primed?)
  {
    hide Commit, Resync, EscapeRaw, TestPlainKey, WithinUndoWindow;
    if !s.ctl.blocked { TestSyncs(s, e); }
    var c0 := CheckConfig(s.ctl, e.reload);
    var c1 := c0.(undo := AfterOtherKey(c0.undo, e));
    CommitDrops(c0, e.now);
    ResyncKeepsPrimedEmpty(c1, e.now);
    var c2 := Resync(c1, e.now);
    CommitDrops(c2, e.now);
    EscapeRawOnUndo(c2, e);
    TestPlainKeyOnUndo(s.(punct := None), EscapeRaw(c2, e).0, e);
  }

  lemma ResyncKeepsPrimedEmpty(c: Ctl, now: nat)
    requires Lawful(c.cfg.engine) && PrimedIsEmpty(c)
    ensures PrimedIsEmpty(Resync(c, now))
    ensures Resync(c, now).undo.state.NoUndo? || Resync(c, now).undo == c.undo
  {
    hide Commit;
    CommitDrops(c, now);
  }

  /** Delivering a key primes nothing. */
  lemma KeyDownPrimesNothing(s: Sink, e: KeyEvent)
    requires !s.ctl.undo.state.Primed? && e.reload.None?
    ensures !OnKeyDown(s, e).0.ctl.undo.state.Primed?
  {
    hide HandleKey, EscapeRaw, WantKey, WithinUndoWindow, Count;
    EscapeRawOnUndo(s.ctl, e);
    var c := EscapeRaw(s.ctl, e).0;
    WantKeyOnUndo(c, e);
    HandleKeyPrimesNothing(c, e);
    HandleKeyPrimesNothing(WantKey(c, e).0, e);
  }

  lemma HandleKeyPrimesNothing(c: Ctl, e: KeyEvent)
    requires !c.undo.state.Primed?
    ensures !HandleKey(c, e).0.undo.state.Primed?
  {
    hide StartComp, SetComp, UpdateEdit, WordBefore, ShouldAutoCapHere, CommitEdit;
  }

  /** The recovery step can only drop the cache, so one that is usable after it was there before. */
  lemma YoungAfterResync(c: Ctl, now: nat)
    requires Resync(c, now).undo.state.Primed? && WithinUndoWindow(Resync(c, now).undo, now)
    ensures WithinUndoWindow(c.undo, now) && c.undo.state.Primed?
  {
    ResyncOnUndo(c, now);
  }

  // ----- whole runs -----

  /** A key, a composition ended from outside, a focus change, or something the host does of its own: an
      edit, or the caret moved by mouse. */
  datatype Happening = Pressed(e: KeyEvent) | Ended | Focused(f: Focus) | Moved(h: HostEdit, now: nat)

  function After(s: Sink, h: Happening): Sink {
    match h
    case Pressed(e) => TestThenKey(s, e)
    case Ended => OnTerminated(s)
    case Focused(f) => OnSetFocus(s, f)
    case Moved(edit, _) => s.(ctl := s.ctl.(doc := HostApply(s.ctl.doc, edit)))
  }

  function RunAll(s: Sink, hs: seq<Happening>): Sink
    decreases |hs|
  {
    if hs == [] then s else RunAll(After(s, hs[0]), hs[1..])
  }

  ghost predicate LawfulReload(r: Option<Reload>) {
    r.Some? ==> Lawful(r.value.cfg.engine)
  }

  function ClockAfter(h: Happening, clock: nat): nat {
    match h case Pressed(e) => e.now case Moved(_, now) => now case _ => clock
  }

  ghost predicate LawfulSettings(h: Happening) {
    match h
    case Pressed(e) => LawfulReload(e.reload)
    case Focused(f) => LawfulReload(f.reload) && LawfulReload(f.shared)
    case _ => true
  }

  /** What every run theorem asks: time moves forward, the host obeys, settings come with lawful engines. */
  ghost predicate RunOk(hs: seq<Happening>, clock: nat)
    decreases |hs|
  {
    hs == [] ||
    (&& clock <= ClockAfter(hs[0], clock)
     && LawfulSettings(hs[0]) && (hs[0].Pressed? ==> HostObeys(hs[0].e))
     && RunOk(hs[1..], ClockAfter(hs[0], clock)))
  }

  /** A chorded Backspace or Escape, or an edit of the host's own, that takes the committed text away from
      the caret while the cache is young. */
  predicate Spoils(c: Ctl, h: Happening) {
    match h
    case Pressed(e) => ChordedUndoKey(e) && TakesAway(c, e.host, e.now)
    case Moved(edit, now) => TakesAway(c, edit, now)
    case _ => false
  }

  predicate NothingSpoils(s: Sink, hs: seq<Happening>)
    decreases |hs|
  {
    hs == [] || (!Spoils(s.ctl, hs[0]) && NothingSpoils(After(s, hs[0]), hs[1..]))
  }

  /** The cache fits in every state of the run. */
  predicate FitsAlong(s: Sink, hs: seq<Happening>, clock: nat)
    decreases |hs|
  {
    UndoInv(s.ctl, clock) && (hs == [] || FitsAlong(After(s, hs[0]), hs[1..], ClockAfter(hs[0], clock)))
  }

  lemma HappeningExactly(s: Sink, h: Happening, clock: nat)
    requires RunInv(s.ctl, clock) && RunOk([h], clock)
    ensures var c, now := After(s, h).ctl, ClockAfter(h, clock);
            && (UndoInv(c, now) <==> !Spoils(s.ctl, h))
            && (UndoInv(c, now) ==> RunInv(c, now))
  {
    hide TestThenKey, TakesAway, UndoFits, ChordedUndoKey;
    match h
    case Pressed(e) => PressKeepsUndoInvExactly(s, e, clock);
    case Moved(edit, now) => EditKeepsInvExactly(s.ctl, edit, clock, now);
    case _ => QuietKeepsInv(s, h, clock);
  }

  lemma QuietKeepsInv(s: Sink, h: Happening, clock: nat)
    requires RunInv(s.ctl, clock) && (h.Ended? || h.Focused?)
    requires h.Focused? ==> LawfulReload(h.f.reload) && LawfulReload(h.f.shared)
    ensures RunInv(After(s, h).ctl, clock)
  {
  }

  /**
    In every run of the test-then-key protocol the cache fits the document throughout, if and only if no
    chorded Backspace or Escape and no edit of the host's own takes the committed text away from the caret
    while the cache is young.
   */
  lemma {:induction false} CacheFitsExactly(s: Sink, hs: seq<Happening>, clock: nat)
    requires RunInv(s.ctl, clock) && RunOk(hs, clock)
    ensures FitsAlong(s, hs, clock) <==> NothingSpoils(s, hs)
    decreases |hs|
  {
    hide After, UndoInv, Spoils, RunInv;
    if hs != [] {
      OneOfRun(hs, clock);
      HappeningExactly(s, hs[0], clock);
      FitsAtOnce(s, hs, clock);
      if UndoInv(After(s, hs[0]).ctl, ClockAfter(hs[0], clock)) {
        CacheFitsExactly(After(s, hs[0]), hs[1..], ClockAfter(hs[0], clock));
      }
    } else {
      FitsAtOnce(s, hs, clock);
    }
  }

  lemma FitsAtOnce(s: Sink, hs: seq<Happening>, clock: nat)
    requires RunInv(s.ctl, clock)
    ensures UndoInv(s.ctl, clock)
    ensures hs != [] && FitsAlong(s, hs, clock) ==> UndoInv(After(s, hs[0]).ctl, ClockAfter(hs[0], clock))
  {
    hide After, UndoInv;
    if hs != [] {
      var t, rest, now := After(s, hs[0]), hs[1..], ClockAfter(hs[0], clock);
      assert FitsAlong(s, hs, clock) ==> FitsAlong(t, rest, now);
      assert FitsAlong(t, rest, now) ==> UndoInv(t.ctl, now);
    }
  }

  lemma OneOfRun(hs: seq<Happening>, clock: nat)
    requires hs != [] && RunOk(hs, clock)
    ensures RunOk([hs[0]], clock) && RunOk(hs[1..], ClockAfter(hs[0], clock))
  {
    assert [hs[0]][1..] == [];
    assert RunOk([], ClockAfter(hs[0], clock));
  }

  /**
    So in every such run in which nothing spoils the cache, whenever Escape restores and does not take an
    old cache for a fresh one, the text before the caret is exactly the last committed body, and exactly
    that becomes the raw keys.
   */
  lemma {:induction false} EveryRestoreIsExact(s: Sink, hs: seq<Happening>, e: KeyEvent, clock: nat)
    requires RunInv(s.ctl, clock) && RunOk(hs + [Pressed(e)], clock) && NothingSpoils(s, hs)
    requires !Misjudged(RunAll(s, hs).ctl.undo, e.now)
    ensures Restores(RunAll(s, hs), e) ==> BodyBecomesRaw(RunAll(s, hs), e)
    decreases |hs|
  {
    hide After, Restores, BodyBecomesRaw, UndoInv, Spoils, Misjudged, RunInv;
    if hs == [] {
      assert hs + [Pressed(e)] == [Pressed(e)];
      LawfulPress(s, e, clock);
      if Restores(s, e) { RestoreIsExact(s, e, clock); }
    } else {
      assert (hs + [Pressed(e)])[1..] == hs[1..] + [Pressed(e)];
      OneOfRun(hs + [Pressed(e)], clock);
      HappeningExactly(s, hs[0], clock);
      EveryRestoreIsExact(After(s, hs[0]), hs[1..], e, ClockAfter(hs[0], clock));
    }
  }

  lemma LawfulPress(s: Sink, e: KeyEvent, clock: nat)
    requires RunInv(s.ctl, clock) && RunOk([Pressed(e)], clock)
    ensures LawfulFor(s.ctl, e.reload) && clock <= e.now && HostObeys(e)
  {
  }

  /**
    The key-down handler's own call of the restore is never reached when the host tests first: in every run,
    spoiled and misjudged caches included, all restores are of the test phase.
   */
  lemma {:induction false} KeyDownNeverRestores(s: Sink, hs: seq<Happening>, e: KeyEvent)
    requires Lawful(s.ctl.cfg.engine) && PrimedIsEmpty(s.ctl)
    requires LawfulReload(e.reload) && forall i :: 0 <= i < |hs| ==> LawfulSettings(hs[i])
    ensures !RestoresInKeyDown(RunAll(s, hs), e)
    decreases |hs|
  {
    hide OnTestKeyDown, After, PrimedIsEmpty, WithinUndoWindow, Count, Lawful;
    if hs == [] {
      TestKeepsPrimedEmpty(s, e);
    } else {
      HappeningKeepsPrimedEmpty(s, hs[0]);
      KeyDownNeverRestores(After(s, hs[0]), hs[1..], e);
    }
  }

  lemma HappeningKeepsPrimedEmpty(s: Sink, h: Happening)
    requires Lawful(s.ctl.cfg.engine) && PrimedIsEmpty(s.ctl) && LawfulSettings(h)
    ensures Lawful(After(s, h).ctl.cfg.engine) && PrimedIsEmpty(After(s, h).ctl)
  {
    hide OnTestKeyDown, OnKeyDown, HostApply;
    match h
    case Pressed(e) =>
      TestKeepsPrimedEmpty(s, e);
      var (s1, claimed) := OnTestKeyDown(s, e);
      if claimed {
        KeyDownPrimesNothing(s1, e.(reload := None));
        KeyDownSettings(s1, e.(reload := None));
      }
    case _ =>
  }

  // ----- hosts that announce their modifiers -----

  /** Every chorded Backspace or Escape is preceded by another chorded key, such as the modifier's own
      key-down (`held`), and the host edits nothing of its own. */
  predicate Announced(hs: seq<Happening>, held: bool)
    decreases |hs|
  {
    hs == [] ||
    match hs[0]
    case Pressed(e) => (ChordedUndoKey(e) ==> held) && Announced(hs[1..], Chord(e))
    case Moved(_, _) => false
    case _ => Announced(hs[1..], held)
  }

  /** Under such a host nothing ever spoils the cache. */
  lemma {:induction false} AnnouncedChordsAreHarmless(s: Sink, hs: seq<Happening>, held: bool, clock: nat)
    requires RunInv(s.ctl, clock) && RunOk(hs, clock) && Announced(hs, held)
    requires held ==> s.ctl.undo.state.NoUndo?
    ensures NothingSpoils(s, hs)
    decreases |hs|
  {
    hide TestThenKey, UndoInv, RunInv;
    if hs != [] {
      OneOfRun(hs, clock);
      HappeningExactly(s, hs[0], clock);
      if hs[0].Pressed? {
        ChordDropsCache(s, hs[0].e, clock);
        AnnouncedChordsAreHarmless(After(s, hs[0]), hs[1..], Chord(hs[0].e), hs[0].e.now);
      } else {
        AnnouncedChordsAreHarmless(After(s, hs[0]), hs[1..], held, clock);
      }
    }
  }

  lemma ChordDropsCache(s: Sink, e: KeyEvent, clock: nat)
    requires RunInv(s.ctl, clock) && RunOk([Pressed(e)], clock)
    requires ChordedUndoKey(e) ==> s.ctl.undo.state.NoUndo?
    ensures Chord(e) ==> TestThenKey(s, e).ctl.undo.state.NoUndo?
  {
    hide TestThenKey, UndoInv;
    if e.vk == VK_BACK || e.vk == VK_ESCAPE {
      if Chord(e) { OldKeyKeepsInv(s, e, clock); }
    } else {
      OtherKeyKeepsInv(s, e);
    }
  }
}
