/**
  Commit, Backspace, Escape: the sequence the undo cache is for, and the three ways in which a restore
  reaches the wrong text, each with a concrete run.
 */
module TsfUndoLimits {
  import opened Keys
  import opened Options
  import opened TsfModel
  import opened VietLetters
  import opened TsfSync
  import opened TsfUndo

  /** A bare engine: it counts keys and shows nothing. */
  function CountOps(h: seq<Op>): nat {
    if h == [] then 0
    else
      var n := CountOps(h[..|h| - 1]);
      match h[|h| - 1]
      case Push(_) => n + 1
      case Back => if n == 0 then 0 else n - 1
      case Seed(w) => |w|
  }

  const BARE := Engine(
    _ => "", h => if h == [] then "" else "k", _ => "", CountOps, AllLetters, _ => false)

  lemma BareIsLawful()
    ensures Lawful(BARE)
  {
    forall h: seq<Op>, op: Op
      ensures CountAfter(BARE, h, op) == CountOps(h + [op])
      ensures (h + [op])[..|h|] == h
    {
    }
  }

  /** The word "ab" was committed with a space after "x"; the cache is armed since instant 0. */
  function Armed(pre: string): Sink {
    Sink(Ctl([], Doc(pre, None, ""), Config(BARE, Telex, true, false, false), Modes(true, false, false, false),
             false, false, false, Undo(Ready, LastCommit("ab ", "abk", true, 0)), None),
         0, false, None)
  }

  function Press(vk: nat, ctrl: bool, now: nat, host: HostEdit): KeyEvent {
    var flags := Flags(false, false, false, false);
    KeyEvent(vk, false, ctrl, false, false, false, None, false, flags, None, true, true, now, host)
  }

  /** A Backspace without modifiers on the armed cache, in time: it is primed and one character goes. */
  lemma BackspacePrimes(s: Sink, now: nat)
    requires s.ctl == Armed(s.ctl.doc.pre).ctl && s.ctl.doc.pre != ""
    requires WithinUndoWindow(s.ctl.undo, now)
    ensures var c := TestThenKey(s, Press(VK_BACK, false, now, DeletesOne)).ctl;
            c == s.ctl.(undo := s.ctl.undo.(state := Primed), doc := c.doc) &&
            c.doc == Doc(s.ctl.doc.pre[..|s.ctl.doc.pre| - 1], None, "")
  {
    hide PrepareRevive, Commit, WithinUndoWindow;
  }

  lemma EscapeOnWrongText(s: Sink, now: nat)
    requires s.ctl == Armed("xa").ctl.(undo := Armed("").ctl.undo.(state := Primed))
    requires WithinUndoWindow(s.ctl.undo, now)
    ensures var e := Press(VK_ESCAPE, false, now, LeavesText);
            Restores(s, e) && !BodyBecomesRaw(s, e) && OnTestKeyDown(s, e).0.ctl.doc.pre == "abk"
  {
    hide WithinUndoWindow, Commit, TestPlainKey, OnKeyDown;
    assert Body(s.ctl.undo.last) == "ab";
    assert "xa"[..0] + "abk" == "abk";
  }

  lemma RunTwo(s: Sink, a: Happening, b: Happening)
    ensures RunAll(s, [a, b]) == After(After(s, a), b)
  {
    hide After;
    assert [a, b][1..] == [b] && [b][1..] == [];
    assert RunAll(s, [a, b]) == RunAll(After(s, a), [b]) == RunAll(After(After(s, a), b), []);
  }

  /** A Backspace that the cache is too old for, or that is chorded, only takes a character away. */
  lemma BackspaceIgnored(s: Sink, ctrl: bool, now: nat)
    requires s.ctl == Armed(s.ctl.doc.pre).ctl && s.ctl.doc.pre != ""
    requires ctrl || !WithinUndoWindow(s.ctl.undo, now)
    ensures TestThenKey(s, Press(VK_BACK, ctrl, now, DeletesOne)).ctl
            == Armed(s.ctl.doc.pre[..|s.ctl.doc.pre| - 1]).ctl
  {
    hide Commit, WithinUndoWindow;
  }

  /** From a Ready cache behind "xab", Backspace and Escape reach the wrong text. */
  lemma WrongTextFrom(s: Sink, at: nat)
    requires s.ctl == Armed("xab").ctl && WithinUndoWindow(s.ctl.undo, at)
    ensures var e := Press(VK_ESCAPE, false, at, LeavesText);
            var s' := After(s, Pressed(Press(VK_BACK, false, at, DeletesOne)));
            Restores(s', e) && !BodyBecomesRaw(s', e)
  {
    hide TestThenKey, Restores, BodyBecomesRaw;
    BackspacePrimes(s, at);
    assert "xab"[..2] == "xa";
    EscapeOnWrongText(After(s, Pressed(Press(VK_BACK, false, at, DeletesOne))), at);
  }

  /**
    A chorded Backspace whose modifier was not announced by its own key-down leaves the cache Ready
    while a character is gone: the next Backspace and Escape then replace the wrong two characters.
   */
  lemma UnannouncedChordRestoresWrongText()
    ensures var s := Armed("xab ");
            var hs := [Pressed(Press(VK_BACK, true, 1, DeletesOne)), Pressed(Press(VK_BACK, false, 2, DeletesOne))];
            var esc := Press(VK_ESCAPE, false, 2, LeavesText);
            && RunInv(s.ctl, 0) && RunOk(hs + [Pressed(esc)], 0)
            && Restores(RunAll(s, hs), esc) && !BodyBecomesRaw(RunAll(s, hs), esc)
  {
    hide TestThenKey, Restores, BodyBecomesRaw;
    ArmedIsSound();
    var s := Armed("xab ");
    var first := Press(VK_BACK, true, 1, DeletesOne);
    ThreeOk(Pressed(first), Pressed(Press(VK_BACK, false, 2, DeletesOne)), Press(VK_ESCAPE, false, 2, LeavesText));
    BackspaceIgnored(s, true, 1);
    assert "xab "[..3] == "xab";
    RunTwo(s, Pressed(first), Pressed(Press(VK_BACK, false, 2, DeletesOne)));
    WrongTextFrom(After(s, Pressed(first)), 2);
  }

  /**
    The tick counter wraps after 2^32 milliseconds. A Backspace that comes too late leaves the cache
    armed, and one wrap later the cache counts as fresh again.
   */
  lemma TickWrapRestoresWrongText()
    ensures var s := Armed("xab ");
            var hs := [Pressed(Press(VK_BACK, false, 2000, DeletesOne)),
                       Pressed(Press(VK_BACK, false, TICK_WRAP, DeletesOne))];
            var esc := Press(VK_ESCAPE, false, TICK_WRAP, LeavesText);
            && RunInv(s.ctl, 0) && RunOk(hs + [Pressed(esc)], 0)
            && Restores(RunAll(s, hs), esc) && !BodyBecomesRaw(RunAll(s, hs), esc)
            && Misjudged(RunAll(s, hs).ctl.undo, TICK_WRAP)
  {
    hide TestThenKey, Restores, BodyBecomesRaw;
    ArmedIsSound();
    var s := Armed("xab ");
    var first := Press(VK_BACK, false, 2000, DeletesOne);
    ThreeOk(Pressed(first), Pressed(Press(VK_BACK, false, TICK_WRAP, DeletesOne)),
            Press(VK_ESCAPE, false, TICK_WRAP, LeavesText));
    BackspaceIgnored(s, false, 2000);
    assert "xab "[..3] == "xab";
    RunTwo(s, Pressed(first), Pressed(Press(VK_BACK, false, TICK_WRAP, DeletesOne)));
    WrongTextFrom(After(s, Pressed(first)), TICK_WRAP);
    BackspacePrimes(After(s, Pressed(first)), TICK_WRAP);
  }

  /**
    The caret is moved by mouse between the Space and the Backspace: nothing tells the service, and the
    restore replaces the two characters before the new caret.
   */
  lemma MovedCaretRestoresWrongText()
    ensures var s := Armed("xab ");
            var hs := [Moved(Edits("x", "ab "), 1), Pressed(Press(VK_BACK, false, 2, DeletesOne))];
            var esc := Press(VK_ESCAPE, false, 2, LeavesText);
            && RunInv(s.ctl, 0) && RunOk(hs + [Pressed(esc)], 0) && Spoils(s.ctl, hs[0])
            && Restores(RunAll(s, hs), esc) && !BodyBecomesRaw(RunAll(s, hs), esc)
  {
    hide TestThenKey, Restores, BodyBecomesRaw;
    ArmedIsSound();
    var s := Armed("xab ");
    var move := Moved(Edits("x", "ab "), 1);
    ThreeOk(move, Pressed(Press(VK_BACK, false, 2, DeletesOne)), Press(VK_ESCAPE, false, 2, LeavesText));
    var t := After(s, move);
    RunTwo(s, move, Pressed(Press(VK_BACK, false, 2, DeletesOne)));
    PrimedBehind(t, "x", "ab ", 2);
    assert "x"[..0] == "";
    EscapeAtStart(After(t, Pressed(Press(VK_BACK, false, 2, DeletesOne))), 2);
  }

  /** A Backspace on a cache that counts as fresh primes it, wherever the caret stands. */
  lemma PrimedBehind(s: Sink, pre: string, post: string, now: nat)
    requires s.ctl == Armed("").ctl.(doc := Doc(pre, None, post)) && pre != ""
    requires WithinUndoWindow(s.ctl.undo, now)
    ensures TestThenKey(s, Press(VK_BACK, false, now, DeletesOne)).ctl
            == s.ctl.(undo := s.ctl.undo.(state := Primed), doc := Doc(pre[..|pre| - 1], None, post))
  {
    hide PrepareRevive, Commit, WithinUndoWindow;
  }

  lemma EscapeAtStart(s: Sink, now: nat)
    requires s.ctl == Armed("").ctl.(doc := Doc("", None, "ab "), undo := Armed("").ctl.undo.(state := Primed))
    requires WithinUndoWindow(s.ctl.undo, now)
    ensures var e := Press(VK_ESCAPE, false, now, LeavesText); Restores(s, e) && !BodyBecomesRaw(s, e)
  {
    hide WithinUndoWindow, Commit, TestPlainKey, OnKeyDown;
    assert Body(s.ctl.undo.last) == "ab";
  }

  lemma ArmedIsSound()
    ensures RunInv(Armed("xab ").ctl, 0)
  {
    BareIsLawful();
    assert EndsWith("xab ", "ab ") by { assert "xab "[1..] == "ab "; }
  }

  lemma ThreeOk(a: Happening, b: Happening, e: KeyEvent)
    requires RunOk([a], 0) && RunOk([b], ClockAfter(a, 0)) && RunOk([Pressed(e)], ClockAfter(b, ClockAfter(a, 0)))
    ensures RunOk([a, b] + [Pressed(e)], 0)
  {
    var all := [a, b] + [Pressed(e)];
    assert all[1..] == [b, Pressed(e)] && all[1..][1..] == [Pressed(e)];
    assert RunOk(all[1..][1..], ClockAfter(b, ClockAfter(a, 0)));
    assert RunOk(all[1..], ClockAfter(a, 0));
  }

  // ----- the sequence the cache is for -----

  /** The service is active and typing Vietnamese, in a host that is not a Scintilla editor. */
  predicate Active(c: Ctl, e: KeyEvent) {
    c.modes.abiOk && e.flags == Flags(true, true, true, true) && !c.blocked && !c.scintilla && !c.digitLed
  }

  predicate Plain(e: KeyEvent, vk: nat) {
    e.vk == vk && !Chord(e) && HostObeys(e) && e.reload.None?
  }

  lemma SpaceCommits(s: Sink, e: KeyEvent)
    requires Lawful(s.ctl.cfg.engine) && Synced(s.ctl) && Composing(s.ctl)
    requires Active(s.ctl, e) && Plain(e, VK_SPACE)
    ensures TestThenKey(s, e).ctl
            == CommitWithChar(WantKey(s.ctl.(undo := ResetUndo(s.ctl.undo)), e).0, ' ', e.now)
  {
    hide CommitWithChar, Commit, ReviveEdit, HandleLetter, ProcessBackspace, EscapeRaw, PrepareRevive, SetComp;
    NoEscape(s.ctl.(undo := ResetUndo(s.ctl.undo)), e);
    NoEscape(OnTestKeyDown(s, e).0.ctl, e);
  }

  lemma NoEscape(c: Ctl, e: KeyEvent)
    requires e.vk != VK_ESCAPE
    ensures EscapeRaw(c, e) == (c, false)
  {
  }

  lemma ReadyBackspacePrimes(s: Sink, e: KeyEvent)
    requires Lawful(s.ctl.cfg.engine) && !s.ctl.blocked && Plain(e, VK_BACK)
    requires s.ctl.undo.state.Ready? && UndoFits(s.ctl) && WithinUndoWindow(s.ctl.undo, e.now)
    ensures var c := TestThenKey(s, e).ctl;
            && c.undo == s.ctl.undo.(state := Primed) && c.cfg == s.ctl.cfg && !c.blocked
            && c.doc == HostApply(s.ctl.doc, DeletesOne) && Count(c) == 0
  {
    hide WithinUndoWindow, WantKey, PrepareRevive, Commit, OnKeyDown, EscapeRaw, EndsWith, IsPunctuationKey;
    WantKeyOnUndo(s.ctl, e);
    NoEscape(s.ctl, e);
  }

  /** A composed word, Space, Backspace and Escape within the time-out leave its raw keys in its place. */
  lemma CommitBackspaceEscape(s: Sink, space: KeyEvent, back: KeyEvent, esc: KeyEvent)
    requires Lawful(s.ctl.cfg.engine) && Synced(s.ctl) && Composing(s.ctl) && s.ctl.cfg.escRestore
    requires Active(s.ctl, space) && Plain(space, VK_SPACE) && Plain(back, VK_BACK) && Plain(esc, VK_ESCAPE)
    requires space.now <= back.now <= esc.now <= space.now + UNDO_TIMEOUT
    requires s.ctl.cfg.engine.commit(s.ctl.buf) != "" && s.ctl.cfg.engine.raw(s.ctl.buf) != ""
    ensures TestThenKey(TestThenKey(TestThenKey(s, space), back), esc).ctl.doc
            == Doc(s.ctl.doc.pre + s.ctl.cfg.engine.raw(s.ctl.buf), None, s.ctl.doc.post)
  {
    hide TestThenKey, CommitWithChar, WithinUndoWindow;
    var word, raw, pre := s.ctl.cfg.engine.commit(s.ctl.buf), s.ctl.cfg.engine.raw(s.ctl.buf), s.ctl.doc.pre;
    SpaceCommits(s, space);
    var c0 := WantKey(s.ctl.(undo := ResetUndo(s.ctl.undo)), space).0;
    WantKeyOnUndo(s.ctl.(undo := ResetUndo(s.ctl.undo)), space);
    var s1 := TestThenKey(s, space);
    CommittedWord(c0, word, raw, space.now);
    UsableIsYoung(s1.ctl, space.now, back.now);
    ReadyBackspacePrimes(s1, back);
    var s2 := TestThenKey(s1, back);
    var d2 := s2.ctl.doc;
    assert (pre + (word + " "))[..|pre + (word + " ")| - 1] == pre + word;
    assert d2 == Doc(pre + word, None, s.ctl.doc.post);
    assert Body(s2.ctl.undo.last) == word by { assert (word + " ")[..|word + " "| - 1] == word; }
    assert EndsWith(d2.pre, word) by { assert (pre + word)[|pre|..] == word; }
    assert UndoInv(s2.ctl, space.now);
    UsableIsYoung(s2.ctl, space.now, esc.now);
    RestoreIsExact(s2, esc, space.now);
    assert (pre + word)[..|pre|] == pre;
  }

  lemma CommittedWord(c: Ctl, word: string, raw: string, now: nat)
    requires Lawful(c.cfg.engine) && Composing(c)
    requires word == c.cfg.engine.commit(c.buf) != "" && raw == c.cfg.engine.raw(c.buf) != ""
    ensures var c' := CommitWithChar(c, ' ', now);
            && c'.undo == Undo(Ready, LastCommit(word + " ", raw, true, now))
            && c'.doc == Doc(c.doc.pre + (word + " "), None, c.doc.post)
            && Count(c') == 0 && c'.cfg == c.cfg && c'.blocked == c.blocked
            && UndoFits(c') && UndoInv(c', now)
  {
    assert EndsWith(c.doc.pre + (word + " "), word + " ");
  }
}
