/** The engine buffer and the composition stay in step, and the host never edits inside a composition. */
module TsfSync {
  import opened Keys
  import opened Options
  import opened TsfModel

  predicate Synced(c: Ctl) {
    Composing(c) <==> Count(c) > 0
  }

  /** Nothing typed and nothing composed. */
  predicate Clear(c: Ctl) {
    c.doc.comp.None? && Count(c) == 0
  }

  /** What every key handler keeps once the settings have been read. */
  ghost predicate Keeps(a: Ctl, b: Ctl) {
    && a.cfg == b.cfg && a.blocked == b.blocked && a.scintilla == b.scintilla
    && a.modes.abiOk == b.modes.abiOk
  }

  /** The engines in use keep the engine interface's promises. */
  ghost predicate LawfulFor(c: Ctl, r: Option<Reload>) {
    && Lawful(c.cfg.engine)
    && (r.Some? ==> Lawful(r.value.cfg.engine))
  }

  lemma CommitsClear(c: Ctl, ch: char, now: nat)
    requires Lawful(c.cfg.engine)
    ensures Clear(Commit(c, now)) && Keeps(c, Commit(c, now))
    ensures Clear(CommitWithChar(c, ch, now)) && Keeps(c, CommitWithChar(c, ch, now))
  {
  }

  lemma EscapeRawSyncs(c: Ctl, e: KeyEvent)
    requires Lawful(c.cfg.engine) && Synced(c)
    ensures var (c', restored) := EscapeRaw(c, e);
            && Synced(c') && Keeps(c, c')
            && (restored ==> Clear(c'))
            && (!restored ==> c' == c || c' == c.(undo := ResetUndo(c.undo)))
  {
  }

  lemma ResyncSyncs(c: Ctl, now: nat)
    requires Lawful(c.cfg.engine)
    ensures Synced(Resync(c, now)) && Keeps(c, Resync(c, now))
    ensures Synced(c) ==> Resync(c, now) == c
  {
  }

  lemma WantKeySyncs(c: Ctl, e: KeyEvent)
    ensures var c' := WantKey(c, e).0;
            c' == c.(modes := c'.modes, digitLed := c'.digitLed) && c'.modes.abiOk == c.modes.abiOk
  {
  }

  lemma PrepareReviveSyncs(c: Ctl, e: KeyEvent)
    ensures var (c', armed) := PrepareRevive(c, e);
            c' == c.(pending := c'.pending) && armed == c'.pending.Some?
  {
  }

  lemma TestWantedSyncs(s: Sink, c: Ctl, want: bool, e: KeyEvent)
    requires Lawful(c.cfg.engine) && Synced(c)
    ensures var (s', claimed) := TestWanted(s, c, want, e);
            Synced(s'.ctl) && Keeps(c, s'.ctl) && (!claimed ==> Clear(s'.ctl))
  {
    hide PrepareRevive, Commit;
    PrepareReviveSyncs(c, e);
    PrepareReviveSyncs(c.(undo := ResetUndo(c.undo)), e);
    CommitsClear(c, ' ', e.now);
  }

  lemma TestPlainKeySyncs(s: Sink, c: Ctl, e: KeyEvent)
    requires Lawful(c.cfg.engine) && Synced(c)
    ensures var (s', claimed) := TestPlainKey(s, c, e);
            Synced(s'.ctl) && Keeps(c, s'.ctl) && (!claimed ==> Clear(s'.ctl))
  {
    hide WantKey, TestWanted;
    WantKeySyncs(c, e);
    var (c1, want) := WantKey(c, e);
    TestWantedSyncs(s, c1, want && !KeptBySuggestion(c1, e), e);
  }

  lemma TestResyncedSyncs(s: Sink, c: Ctl, e: KeyEvent)
    requires Lawful(c.cfg.engine) && Synced(c)
    ensures var (s', claimed) := TestResynced(s, c, e);
            Synced(s'.ctl) && Keeps(c, s'.ctl) && (!claimed ==> Clear(s'.ctl))
  {
    hide Commit, EscapeRaw, TestPlainKey;
    CommitsClear(c, ' ', e.now);
    EscapeRawSyncs(c, e);
    TestPlainKeySyncs(s, EscapeRaw(c, e).0, e);
  }

  /**
    From any state at all, a test that passes the blocked-context check leaves engine and composition
    in step; when it does not claim the key, nothing is left composed for the host to edit inside.
   */
  lemma TestSyncs(s: Sink, e: KeyEvent)
    requires LawfulFor(s.ctl, e.reload) && !s.ctl.blocked
    ensures var (s', claimed) := OnTestKeyDown(s, e);
            && Synced(s'.ctl)
            && (!claimed ==> Clear(s'.ctl))
            && Keeps(CheckConfig(s.ctl, e.reload), s'.ctl)
            && Lawful(s'.ctl.cfg.engine) && !s'.ctl.blocked
  {
    hide Commit, Resync, TestResynced;
    var c := CheckConfig(s.ctl, e.reload);
    CommitsClear(c, ' ', e.now);
    var c1 := c.(undo := AfterOtherKey(c.undo, e));
    ResyncSyncs(c1, e.now);
    TestResyncedSyncs(s.(punct := None), Resync(c1, e.now), e);
  }

  lemma ReviveSyncs(c: Ctl, w: string, at: nat, op: Op, e: KeyEvent)
    requires Counts(c.cfg.engine) && Synced(c)
    requires w != "" && c.cfg.engine.seeds(w)
    ensures Synced(ReviveEdit(c, w, at, op, e)) && Keeps(c, ReviveEdit(c, w, at, op, e))
  {
  }

  lemma PushEditSyncs(c: Ctl, ch: char, e: KeyEvent)
    requires Lawful(c.cfg.engine) && Synced(c)
    ensures var (c', ok) := PushEdit(c, ch, e);
            Synced(c') && Keeps(c, c') && (!ok ==> Clear(c'))
  {
    assert CountAfter(c.cfg.engine, c.buf, Push(ch)) > 0;
  }

  lemma HandleLetterSyncs(c: Ctl, e: KeyEvent)
    requires Lawful(c.cfg.engine) && Synced(c) && IsLetterKey(e.vk)
    ensures var (c', ok) := HandleLetter(c, e);
            Synced(c') && Keeps(c, c') && (!ok ==> Clear(c'))
  {
    hide PushEdit, ReviveEdit, WordBefore, ShouldAutoCapHere, TypedLetter;
    var ch := TypedLetter(e);
    PushEditSyncs(c, ch, e);
    PushEditSyncs(c, e.vk as char, e);
    var w := WordBefore(c, e.selection, 64);
    if Revivable(c, w) {
      ReviveSyncs(c, w, |c.doc.pre| - |w|, Push(ch), e);
    }
  }

  lemma BackspaceSyncs(c: Ctl, e: KeyEvent)
    requires Lawful(c.cfg.engine) && Synced(c)
    ensures Synced(ProcessBackspace(c, e)) && Keeps(c, ProcessBackspace(c, e))
  {
    if Count(c) == 0 {
      assert CountAfter(c.cfg.engine, c.buf, Back) == 0;
    }
  }

  lemma HandleKeySyncs(c: Ctl, e: KeyEvent)
    requires Lawful(c.cfg.engine) && Synced(c)
    ensures var (c', ok) := HandleKey(c, e);
            Synced(c') && Keeps(c, c')
    ensures var (c', ok) := HandleKey(c, e);
            !ok && (IsLetterKey(e.vk) || Clear(c)) ==> Clear(c')
  {
    hide HandleLetter, ReviveEdit, ProcessBackspace, CommitWithChar;
    CommitsClear(c, ' ', e.now);
    BackspaceSyncs(c, e);
    if c.pending.Some? {
      ReviveSyncs(c, c.pending.value.0, c.pending.value.1, Back, e);
    }
    if IsLetterKey(e.vk) {
      HandleLetterSyncs(c, e);
    }
    if IsEngineDigitKey(c, e) {
      assert CountAfter(c.cfg.engine, c.buf, Push(e.vk as char)) > 0;
    }
  }

  lemma KeyDecidedSyncs(s: Sink, c: Ctl, want: bool, e: KeyEvent)
    requires Lawful(c.cfg.engine) && Synced(c)
    ensures var (s', eaten) := KeyDecided(s, c, want, e); Synced(s'.ctl) && Keeps(c, s'.ctl)
  {
    hide HandleKey, Commit;
    HandleKeySyncs(c, e);
    CommitsClear(c, ' ', e.now);
  }

  lemma KeyPlainSyncs(s: Sink, c: Ctl, e: KeyEvent)
    requires Lawful(c.cfg.engine) && Synced(c)
    ensures var (s', eaten) := KeyPlain(s, c, e); Synced(s'.ctl) && Keeps(c, s'.ctl)
  {
    hide WantKey, KeyDecided;
    WantKeySyncs(c, e);
    var (c1, want) := WantKey(c, e);
    KeyDecidedSyncs(s, c, s.wantResult, e);
    KeyDecidedSyncs(s, c1, want && !KeptBySuggestion(c1, e), e);
  }

  lemma KeyUnrestoredSyncs(s: Sink, c: Ctl, e: KeyEvent)
    requires Lawful(c.cfg.engine) && Synced(c)
    ensures var (s', eaten) := KeyUnrestored(s, c, e); Synced(s'.ctl) && Keeps(c, s'.ctl)
  {
    hide CommitWithChar, KeyPlain;
    KeyPlainSyncs(s, c, e);
    var ch := if e.vk == s.testedVk && s.punct.Some? then s.punct else e.printable;
    if ch.Some? {
      CommitsClear(c, ch.value, e.now);
    }
  }

  /** While the settings are stable, delivering a key keeps engine and composition in step. */
  lemma KeyDownKeepsSync(s: Sink, e: KeyEvent)
    requires Lawful(s.ctl.cfg.engine) && e.reload.None? && Synced(s.ctl)
    ensures var (s', eaten) := OnKeyDown(s, e); Synced(s'.ctl) && Keeps(s.ctl, s'.ctl)
  {
    hide Commit, EscapeRaw, KeyUnrestored;
    CommitsClear(s.ctl, ' ', e.now);
    EscapeRawSyncs(s.ctl, e);
    KeyUnrestoredSyncs(s, EscapeRaw(s.ctl, e).0, e);
  }

  // ----- whole runs -----

  /** Anything that can reach the service: a test, a key, a host edit, a composition ended from outside, a
      focus change. */
  datatype Step = Test(e: KeyEvent) | Key(e: KeyEvent) | Host(h: HostEdit) | Ended | FocusChange(f: Focus)

  function Perform(s: Sink, st: Step): Sink {
    match st
    case Test(e) => OnTestKeyDown(s, e).0
    case Key(e) => OnKeyDown(s, e).0
    case Host(h) => s.(ctl := s.ctl.(doc := HostApply(s.ctl.doc, h)))
    case Ended => OnTerminated(s)
    case FocusChange(f) => OnSetFocus(s, f)
  }

  function RunSteps(s: Sink, steps: seq<Step>): Sink
    decreases |steps|
  {
    if steps == [] then s else RunSteps(Perform(s, steps[0]), steps[1..])
  }

  /** A step that leaves the settings alone: no reload is noticed and the engine is not switched back on. */
  predicate Stable(s: Sink, st: Step) {
    match st
    case Test(e) => e.reload.None?
    case Key(e) => e.reload.None?
    case FocusChange(f) =>
      f.foreground ==>
        f.reload.None? && (f.shared.Some? && f.shared.value.enabled ==> s.ctl.modes.engineEnabled)
    case _ => true
  }

  predicate StableRun(s: Sink, steps: seq<Step>)
    decreases |steps|
  {
    steps == [] || (Stable(s, steps[0]) && StableRun(Perform(s, steps[0]), steps[1..]))
  }

  lemma StepKeepsSync(s: Sink, st: Step)
    requires Lawful(s.ctl.cfg.engine) && Synced(s.ctl) && !s.ctl.blocked && Stable(s, st)
    ensures var c := Perform(s, st).ctl;
            Lawful(c.cfg.engine) && Synced(c) && !c.blocked
  {
    hide OnTestKeyDown, OnKeyDown;
    match st
    case Test(e) => TestSyncs(s, e);
    case Key(e) => KeyDownKeepsSync(s, e);
    case _ =>
  }

  lemma {:induction false} SyncFrom(s: Sink, steps: seq<Step>)
    requires Lawful(s.ctl.cfg.engine) && Synced(s.ctl) && !s.ctl.blocked
    requires StableRun(s, steps)
    ensures Synced(RunSteps(s, steps).ctl)
    decreases |steps|
  {
    hide Perform;
    if steps != [] {
      StepKeepsSync(s, steps[0]);
      SyncFrom(Perform(s, steps[0]), steps[1..]);
    }
  }

  /** A Backspace delivered by itself, which the live engine wants, while a revive is still pending. */
  predicate BackspaceOnPending(s: Sink, e: KeyEvent) {
    && e.vk == VK_BACK && !Chord(e) && e.reload.None? && s.testedVk != VK_BACK
    && Composing(s.ctl) && Count(s.ctl) > 0 && s.ctl.pending.Some?
    && !KeptBySuggestion(s.ctl, e) && WantKey(s.ctl, e).1
  }

  /** What the seeding law is needed for: without it, such a Backspace keeps sync iff the engine takes the word. */
  lemma SeedingDecidesSync(s: Sink, e: KeyEvent)
    requires Counts(s.ctl.cfg.engine) && BackspaceOnPending(s, e)
    ensures Synced(OnKeyDown(s, e).0.ctl) <==> s.ctl.cfg.engine.seeds(s.ctl.pending.value.0)
  {
    hide ReviveEdit, WantKey;
    WantKeySyncs(s.ctl, e);
    var c, p := WantKey(s.ctl, e).0, s.ctl.pending.value;
    assert OnKeyDown(s, e).0.ctl == HandleKey(c, e).0 == ReviveEdit(c, p.0, p.1, Back, e).(pending := None);
    SeedingDecidesRevive(c, p.0, p.1, e);
  }

  lemma SeedingDecidesRevive(c: Ctl, w: string, at: nat, e: KeyEvent)
    requires Counts(c.cfg.engine) && Composing(c) && Count(c) > 0 && w != ""
    ensures Synced(ReviveEdit(c, w, at, Back, e)) <==> c.cfg.engine.seeds(w)
  {
    if c.cfg.engine.seeds(w) { ReviveSyncs(c, w, at, Back, e); }
  }

  /**
    From any state of engine and composition, one test in an unblocked context puts them in step, and
    every later run of tests, keys, host edits, outside terminations and focus changes keeps them so
    while the settings are stable.
   */
  lemma SyncOverRuns(s: Sink, e: KeyEvent, steps: seq<Step>)
    requires LawfulFor(s.ctl, e.reload) && !s.ctl.blocked
    requires StableRun(OnTestKeyDown(s, e).0, steps)
    ensures Synced(RunSteps(OnTestKeyDown(s, e).0, steps).ctl)
  {
    hide OnTestKeyDown, RunSteps, StableRun;
    TestSyncs(s, e);
    SyncFrom(OnTestKeyDown(s, e).0, steps);
  }
}
