/**
  What every key leaves in the document, in either delivery style: said in terms of the text around the
  caret and of the engine's answers, apart from the functions that bring it about.
 */
module TsfText {
  import opened Keys
  import opened Options
  import opened TsfModel
  import opened VietLetters
  import opened AutoCap
  import opened TsfSync
  import opened TsfUndo
  import opened TsfDigits
  import DigitLed

  // ----- a word being typed -----

  /** A composition stands in the document and the engine holds its keys. */
  ghost predicate Live(s: Sink, e: KeyEvent) {
    && Lawful(s.ctl.cfg.engine) && !s.ctl.blocked && e.reload.None?
    && s.ctl.doc.comp.Some? && Count(s.ctl) > 0
  }

  /** The service is on and no digit-led word is being passed through. */
  predicate On(c: Ctl, e: KeyEvent) {
    c.modes.abiOk && e.flags == Flags(true, true, true, true) && !c.digitLed
  }

  predicate LetterOf(vk: nat, capital: bool, ch: char) {
    0x41 <= vk <= 0x5A
    && ch == if capital then "ABCDEFGHIJKLMNOPQRSTUVWXYZ"[vk - 0x41] else "abcdefghijklmnopqrstuvwxyz"[vk - 0x41]
  }

  /** What a letter key types: shift and caps lock undo each other. */
  predicate TypesLetter(e: KeyEvent, ch: char) {
    LetterOf(e.vk, e.shift != e.caps, ch)
  }

  /** In three of the input methods a digit without Shift is the engine's. */
  predicate DigitForEngine(c: Ctl, e: KeyEvent) {
    (c.cfg.input == VNI || c.cfg.input == Combined || c.cfg.input == UserDefined) && !e.shift && 0x30 <= e.vk <= 0x39
  }

  predicate TypesDigit(c: Ctl, e: KeyEvent, ch: char) {
    DigitForEngine(c, e) && e.vk == ch as int
  }

  lemma LetterIs(e: KeyEvent, ch: char)
    requires TypesLetter(e, ch)
    ensures IsLetterKey(e.vk) && TypedLetter(e) == ch && !IsPunctuationKey(e.vk)
  {
  }

  /** The service takes the key for the word. */
  predicate Taken(c: Ctl, e: KeyEvent) {
    && On(c, e) && !Chord(e)
    && (|| 0x41 <= e.vk <= 0x5A
        || DigitForEngine(c, e)
        || (e.vk == VK_BACK && !(c.cfg.suggestKeep && e.selection))
        || (e.vk == VK_SPACE && !c.scintilla))
  }

  /** Punctuation with a character of its own, which is not a digit for the engine. */
  predicate Punctuates(c: Ctl, e: KeyEvent) {
    !Chord(e) && MayPunctuate(e.vk) && e.printable.Some? && !DigitForEngine(c, e)
  }

  /** Tab, the digits, the number pad and the keys of the manufacturer. */
  predicate MayPunctuate(vk: nat) {
    vk == 0x09 || 0x30 <= vk <= 0x39 || 0x60 <= vk <= 0x6F || 0xBA <= vk <= 0xC0 || 0xDB <= vk <= 0xDF
  }

  lemma PunctuationIs(c: Ctl, e: KeyEvent)
    ensures IsPunctuationKey(e.vk) == MayPunctuate(e.vk) && IsEngineDigitKey(c, e) == DigitForEngine(c, e)
  {
  }

  predicate EscapesRaw(c: Ctl, e: KeyEvent) {
    !Chord(e) && e.vk == VK_ESCAPE && c.cfg.escRestore && c.cfg.engine.raw(c.buf) != ""
  }

  lemma WantsLive(c: Ctl, e: KeyEvent)
    requires Count(c) > 0
    ensures var (c1, want) := WantKey(c, e);
            && c1 == c.(modes := c1.modes, digitLed := c1.digitLed) && c1.modes.abiOk == c.modes.abiOk
            && (want && !KeptBySuggestion(c, e) <==> Taken(c, e)) && (Taken(c, e) ==> !c1.digitLed)
  {
  }

  /** The state in which the key is handled. */
  function Started(s: Sink, e: KeyEvent, tested: bool): Ctl {
    WantKey(s.ctl.(undo := if tested then AfterOtherKey(s.ctl.undo, e) else s.ctl.undo), e).0
  }

  lemma StartedIs(s: Sink, e: KeyEvent, tested: bool)
    requires Count(s.ctl) > 0
    ensures var c := Started(s, e, tested);
            && c == s.ctl.(modes := c.modes, digitLed := c.digitLed, undo := c.undo)
            && c.modes.abiOk == s.ctl.modes.abiOk && (Taken(s.ctl, e) ==> !c.digitLed)
            && Taken(s.ctl.(undo := c.undo), e) == Taken(s.ctl, e)
  {
    hide WantKey;
    WantsLive(s.ctl.(undo := if tested then AfterOtherKey(s.ctl.undo, e) else s.ctl.undo), e);
  }

  lemma LiveIsTested(s: Sink, e: KeyEvent)
    requires Live(s, e) && !Chord(e) && !Punctuates(s.ctl, e) && !EscapesRaw(s.ctl, e)
    requires !(e.vk == VK_BACK && s.ctl.cfg.suggestKeep && e.selection)
    ensures var c, taken := Started(s, e, true), Taken(s.ctl, e);
            OnTestKeyDown(s, e)
            == (Sink(if taken then c else Commit(c, e.now), e.vk, taken, None), taken)
  {
    hide Commit, WantKey, PrepareRevive, TryRestore, WithinUndoWindow, Lawful, IsPunctuationKey, MayPunctuate,
         Taken;
    PunctuationIs(s.ctl, e);
    var c := s.ctl.(undo := AfterOtherKey(s.ctl.undo, e));
    WantsLive(c, e);
    StartedIs(s, e, true);
    assert Resync(c, e.now) == c;
  }

  /** A key the word takes, once that is known, is handled. */
  lemma TakenIsHandled(s: Sink, e: KeyEvent)
    requires e.reload.None? && s.punct.None? && e.vk != VK_ESCAPE && Taken(s.ctl.(digitLed := false), e)
    requires !Punctuates(s.ctl, e) && s.testedVk == e.vk && s.wantResult
    ensures var (s1, eaten) := OnKeyDown(s, e); (s1.ctl, eaten) == HandleKey(s.ctl, e) && s1.testedVk == 0
  {
    hide HandleKey, Commit, CommitWithChar, WantKey, WithinUndoWindow, IsPunctuationKey, MayPunctuate, Count;
    PunctuationIs(s.ctl, e);
  }

  lemma LiveIsDelivered(s: Sink, e: KeyEvent)
    requires Live(s, e) && !Chord(e) && !Punctuates(s.ctl, e) && !EscapesRaw(s.ctl, e) && s.testedVk != e.vk
    requires !(e.vk == VK_BACK && s.ctl.cfg.suggestKeep && e.selection)
    ensures var c, (s1, eaten) := Started(s, e, false), OnKeyDown(s, e);
            && s1.testedVk == 0
            && (s1.ctl, eaten) == if Taken(s.ctl, e) then HandleKey(c, e) else (Commit(c, e.now), false)
  {
    hide HandleKey, Commit, CommitWithChar, WantKey, TryRestore, WithinUndoWindow, Lawful, IsPunctuationKey,
         MayPunctuate, Taken;
    PunctuationIs(s.ctl, e);
    WantsLive(s.ctl, e);
    StartedIs(s, e, false);
  }

  /** What is neither an ending of its own nor a chord is handled or committed. */
  lemma LiveIsDecided(s: Sink, e: KeyEvent, tested: bool)
    requires Live(s, e) && Asked(s, e, tested) && !Chord(e)
    requires !Punctuates(s.ctl, e) && !EscapesRaw(s.ctl, e)
    requires !(e.vk == VK_BACK && s.ctl.cfg.suggestKeep && e.selection)
    ensures DeliveredBy(s, e, tested).ctl
            == var c := Started(s, e, tested);
               var (c1, eaten) := if Taken(s.ctl, e) then HandleKey(c, e) else (Commit(c, e.now), false);
               if eaten then c1 else c1.(doc := HostApply(c1.doc, e.host))
    ensures Taken(s.ctl, e) ==> DeliveredBy(s, e, tested).testedVk == 0
  {
    hide HandleKey, Commit, OnTestKeyDown, OnKeyDown, HostApply, Lawful, WantKey, IsPunctuationKey, Count, Started;
    StartedIs(s, e, tested);
    if tested {
      LiveIsTested(s, e);
      var s1 := OnTestKeyDown(s, e).0;
      assert e.(reload := None) == e;
      if Taken(s.ctl, e) { TakenIsHandled(s1, e); }
    } else {
      LiveIsDelivered(s, e);
    }
  }

  /** A letter or digit goes into the word: the text around it stays, and the engine's answer is shown. */
  lemma LiveWordGrows(s: Sink, e: KeyEvent, tested: bool, ch: char)
    requires Live(s, e) && Asked(s, e, tested) && On(s.ctl, e) && !Chord(e)
    requires TypesLetter(e, ch) || TypesDigit(s.ctl, e, ch)
    ensures var c := DeliveredBy(s, e, tested).ctl;
            && c.buf == s.ctl.buf + [Push(ch)]
            && c.doc == Doc(s.ctl.doc.pre, Some(s.ctl.cfg.engine.peek(c.buf)), s.ctl.doc.post)
  {
    hide DeliveredBy, Started, WordBefore, ReviveEdit, ProcessBackspace, CommitWithChar, Lawful, TypesLetter;
    if TypesLetter(e, ch) { LetterIs(e, ch); }
    StartedIs(s, e, tested);
    LiveIsDecided(s, e, tested);
  }

  /** And the service is ready for the next key. */
  lemma LiveGoesOn(s: Sink, e: KeyEvent, tested: bool, ch: char)
    requires Live(s, e) && Asked(s, e, tested) && On(s.ctl, e) && !Chord(e)
    requires TypesLetter(e, ch) || TypesDigit(s.ctl, e, ch)
    ensures var s1 := DeliveredBy(s, e, tested);
            && s1.testedVk == 0 && s1.ctl.cfg == s.ctl.cfg && s1.ctl.modes.abiOk && !s1.ctl.digitLed
            && !s1.ctl.blocked && s1.ctl.scintilla == s.ctl.scintilla && Count(s1.ctl) > 0
  {
    hide DeliveredBy, Started, WordBefore, ReviveEdit, ProcessBackspace, CommitWithChar, Lawful, TypesLetter, SetComp;
    if TypesLetter(e, ch) { LetterIs(e, ch); }
    StartedIs(s, e, tested);
    LiveIsDecided(s, e, tested);
    PushFills(s.ctl.cfg.engine, s.ctl.buf, ch);
    LiveWordGrows(s, e, tested, ch);
  }

  lemma PushFills(e: Engine, h: seq<Op>, ch: char)
    requires Lawful(e)
    ensures CountAfter(e, h, Push(ch)) > 0
  {
  }

  /** A Backspace takes a key back; when it was the last, the composition goes and nothing else. */
  lemma LiveWordShrinks(s: Sink, e: KeyEvent, tested: bool)
    requires Live(s, e) && Asked(s, e, tested) && On(s.ctl, e) && !Chord(e)
    requires e.vk == VK_BACK && !(s.ctl.cfg.suggestKeep && e.selection) && s.ctl.pending.None?
    ensures var c, d := DeliveredBy(s, e, tested).ctl, s.ctl.doc;
            && c.buf == s.ctl.buf + [Back]
            && c.doc == Doc(d.pre, if Count(c) > 0 then Some(s.ctl.cfg.engine.peek(c.buf)) else None, d.post)
  {
    hide DeliveredBy, Started, Lawful, Commit;
    StartedIs(s, e, tested);
    LiveIsDecided(s, e, tested);
    assert s.ctl.doc.pre + "" == s.ctl.doc.pre;
  }

  /** Space outside Scintilla commits what the engine makes of the word, with a space behind it. */
  lemma LiveWordIsSpaced(s: Sink, e: KeyEvent, tested: bool)
    requires Live(s, e) && Asked(s, e, tested) && On(s.ctl, e) && !Chord(e) && e.vk == VK_SPACE && !s.ctl.scintilla
    ensures var c, d := DeliveredBy(s, e, tested).ctl, s.ctl.doc;
            && Count(c) == 0
            && c.doc == Doc(d.pre + s.ctl.cfg.engine.commit(s.ctl.buf) + " ", None, d.post)
  {
    hide DeliveredBy, Started, RecordCommit, ReviveEdit, ProcessBackspace;
    StartedIs(s, e, tested);
    LiveIsDecided(s, e, tested);
    var d, text := s.ctl.doc, s.ctl.cfg.engine.commit(s.ctl.buf);
    assert d.pre + (text + " ") == d.pre + text + " ";
  }

  /** A Backspace that dismisses the editor's suggestion, or a chord that is tested. */
  lemma LiveIsDropped(s: Sink, e: KeyEvent, tested: bool)
    requires Live(s, e) && Asked(s, e, tested)
    requires (Chord(e) && tested) || (!Chord(e) && e.vk == VK_BACK && s.ctl.cfg.suggestKeep && e.selection)
    ensures exists u :: DeliveredBy(s, e, tested).ctl
                        == var c := Commit(s.ctl.(undo := u), e.now); c.(doc := HostApply(c.doc, e.host))
  {
    hide Commit, HostApply, Lawful;
    var c := s.ctl.(undo := AfterOtherKey(s.ctl.undo, e));
    assert Resync(c, e.now) == c;
    var u := if DismissesSuggestion(s.ctl, e) then s.ctl.undo else c.undo;
    assert DeliveredBy(s, e, tested).ctl
           == var c := Commit(s.ctl.(undo := u), e.now); c.(doc := HostApply(c.doc, e.host));
  }

  /** Any other key commits what the engine makes of the word, and then the host does what it does. */
  lemma LiveWordEnds(s: Sink, e: KeyEvent, tested: bool)
    requires Live(s, e) && Asked(s, e, tested) && (Chord(e) ==> tested)
    requires !Taken(s.ctl, e) && !Punctuates(s.ctl, e) && !EscapesRaw(s.ctl, e)
    ensures var c, d := DeliveredBy(s, e, tested).ctl, s.ctl.doc;
            && Count(c) == 0
            && c.doc == HostApply(Doc(d.pre + s.ctl.cfg.engine.commit(s.ctl.buf), None, d.post), e.host)
  {
    hide DeliveredBy, Started, RecordCommit, HostApply, HandleKey;
    if Chord(e) || (e.vk == VK_BACK && s.ctl.cfg.suggestKeep && e.selection) {
      LiveIsDropped(s, e, tested);
    } else {
      StartedIs(s, e, tested);
      LiveIsDecided(s, e, tested);
    }
  }

  /** Punctuation commits it with its own character behind it. */
  lemma LiveWordIsPunctuated(s: Sink, e: KeyEvent, tested: bool)
    requires Live(s, e) && Asked(s, e, tested) && Punctuates(s.ctl, e)
    ensures var c, d, ch := DeliveredBy(s, e, tested).ctl, s.ctl.doc, e.printable.value;
            && Count(c) == 0
            && var text := s.ctl.cfg.engine.commit(s.ctl.buf) + if ch == '\0' then "" else [ch];
               c.doc == Doc(d.pre + text, None, d.post)
  {
    hide DeliveredBy, RecordCommit;
    PunctuationIsDelivered(s, e, tested);
  }

  lemma PunctuationIsDelivered(s: Sink, e: KeyEvent, tested: bool)
    requires Live(s, e) && Asked(s, e, tested) && Punctuates(s.ctl, e)
    ensures exists u :: DeliveredBy(s, e, tested).ctl
                        == CommitWithChar(s.ctl.(undo := u), e.printable.value, e.now)
  {
    hide CommitWithChar, HandleKey, Commit, TestPlainKey, KeyPlain, Lawful;
    var c := s.ctl.(undo := AfterOtherKey(s.ctl.undo, e));
    assert Resync(c, e.now) == c;
    var u := if tested then c.undo else s.ctl.undo;
    assert e.vk != VK_BACK && e.vk != VK_ESCAPE;
    assert DeliveredBy(s, e, tested).ctl == CommitWithChar(s.ctl.(undo := u), e.printable.value, e.now);
  }

  /** Escape puts the keys as typed in the word's place. A host that tests first then gets the Escape all
      the same: the test claims it, but the key-down finds nothing to restore and does not eat it. */
  lemma LiveWordIsRaw(s: Sink, e: KeyEvent, tested: bool)
    requires Live(s, e) && EscapesRaw(s.ctl, e) && PrimedIsEmpty(s.ctl)
    ensures var c, d := DeliveredBy(s, e, tested).ctl, s.ctl.doc;
            var raw := Doc(d.pre + s.ctl.cfg.engine.raw(s.ctl.buf), None, d.post);
            Count(c) == 0 && c.doc == if tested then HostApply(raw, e.host) else raw
  {
    hide OnTestKeyDown, OnKeyDown, HostApply, Lawful;
    if tested {
      RawInTest(s, e);
      EscapeFindsNothing(OnTestKeyDown(s, e).0, e);
    } else {
      RawInKeyDown(s, e);
    }
  }

  lemma RawInTest(s: Sink, e: KeyEvent)
    requires Live(s, e) && EscapesRaw(s.ctl, e)
    ensures var (s1, claimed) := OnTestKeyDown(s, e);
            && claimed && Count(s1.ctl) == 0 && s1.ctl.undo == s.ctl.undo
            && s1.ctl.doc == Doc(s.ctl.doc.pre + s.ctl.cfg.engine.raw(s.ctl.buf), None, s.ctl.doc.post)
  {
    hide Commit, TestPlainKey, TryRestore, WithinUndoWindow;
    assert Resync(s.ctl, e.now) == s.ctl;
  }

  lemma RawInKeyDown(s: Sink, e: KeyEvent)
    requires Live(s, e) && EscapesRaw(s.ctl, e)
    ensures var (s1, eaten) := OnKeyDown(s, e);
            && eaten && Count(s1.ctl) == 0
            && s1.ctl.doc == Doc(s.ctl.doc.pre + s.ctl.cfg.engine.raw(s.ctl.buf), None, s.ctl.doc.post)
  {
    hide Commit, KeyUnrestored, TryRestore, WithinUndoWindow;
  }

  lemma EscapeFindsNothing(s: Sink, e: KeyEvent)
    requires e.vk == VK_ESCAPE && e.reload.None? && !Chord(e) && Count(s.ctl) == 0 && !s.ctl.undo.state.Primed?
    ensures var (s1, eaten) := OnKeyDown(s, e); !eaten && s1.ctl.doc == s.ctl.doc && Count(s1.ctl) == 0
  {
    hide WantKey;
    WantKeyOnUndo(s.ctl, e);
  }

  // ----- a whole word -----

  /** Letters and digits for the engine, delivered one after the other. */
  ghost predicate TypesWord(c: Ctl, es: seq<(KeyEvent, bool)>, word: string) {
    && |es| == |word|
    && forall i :: 0 <= i < |es| ==>
         var e := es[i].0;
         && e.flags == Flags(true, true, true, true) && e.reload.None? && !Chord(e) && e.vk != 0
         && (TypesLetter(e, word[i]) || TypesDigit(c, e, word[i]))
  }

  function Pushes(word: string): seq<Op> {
    seq(|word|, i requires 0 <= i < |word| => Push(word[i]))
  }

  /** Whatever is typed into a live word, in whichever delivery styles, the engine gets exactly that, its
      answer is shown, and the text around stays. */
  lemma {:induction false} WordIsShown(s: Sink, es: seq<(KeyEvent, bool)>, word: string)
    requires Lawful(s.ctl.cfg.engine) && !s.ctl.blocked && s.ctl.doc.comp.Some? && Count(s.ctl) > 0
    requires s.ctl.modes.abiOk && !s.ctl.digitLed && s.testedVk == 0 && TypesWord(s.ctl, es, word)
    ensures var r := RunDelivered(s, es);
            && r.ctl.buf == s.ctl.buf + Pushes(word) && r.testedVk == 0
            && r.ctl.doc.pre == s.ctl.doc.pre && r.ctl.doc.post == s.ctl.doc.post
            && (es != [] ==> r.ctl.doc.comp == Some(s.ctl.cfg.engine.peek(r.ctl.buf)))
            && r.ctl.cfg == s.ctl.cfg && r.ctl.doc.comp.Some? && Count(r.ctl) > 0 && !r.ctl.blocked
            && r.ctl.modes.abiOk && !r.ctl.digitLed && r.ctl.scintilla == s.ctl.scintilla
    decreases |es|
  {
    hide DeliveredBy, Lawful, TypesLetter, TypesDigit, Chord;
    if es != [] {
      var e, tested, ch := es[0].0, es[0].1, word[0];
      LiveWordGrows(s, e, tested, ch);
      LiveGoesOn(s, e, tested, ch);
      var s1 := DeliveredBy(s, e, tested);
      RestOfWord(s.ctl, s1.ctl, es, word);
      WordIsShown(s1, es[1..], word[1..]);
      assert [Push(ch)] + Pushes(word[1..]) == Pushes(word);
      assert s.ctl.buf + [Push(ch)] + Pushes(word[1..]) == s.ctl.buf + Pushes(word);
      if |es| == 1 { assert es[1..] == [] && RunDelivered(s, es) == s1; }
    } else {
      assert s.ctl.buf + Pushes(word) == s.ctl.buf;
    }
  }

  lemma RestOfWord(c: Ctl, c1: Ctl, es: seq<(KeyEvent, bool)>, word: string)
    requires TypesWord(c, es, word) && c1.cfg == c.cfg && es != []
    ensures TypesWord(c1, es[1..], word[1..])
    ensures var e := es[0].0;
            && e.flags == Flags(true, true, true, true) && e.reload.None? && !Chord(e) && e.vk != 0
            && (TypesLetter(e, word[0]) || TypesDigit(c, e, word[0]))
  {
    hide TypesLetter, Chord;
  }

  /** And Space commits the engine's word for all that was typed. */
  lemma WordIsCommitted(s: Sink, es: seq<(KeyEvent, bool)>, word: string, e: KeyEvent, tested: bool)
    requires Lawful(s.ctl.cfg.engine) && !s.ctl.blocked && s.ctl.doc.comp.Some? && Count(s.ctl) > 0
    requires s.ctl.modes.abiOk && !s.ctl.digitLed && s.testedVk == 0 && TypesWord(s.ctl, es, word)
    requires e.vk == VK_SPACE && !Chord(e) && e.reload.None? && e.flags == Flags(true, true, true, true)
    requires !s.ctl.scintilla
    ensures DeliveredBy(RunDelivered(s, es), e, tested).ctl.doc
            == Doc(s.ctl.doc.pre + s.ctl.cfg.engine.commit(s.ctl.buf + Pushes(word)) + " ", None, s.ctl.doc.post)
  {
    hide DeliveredBy, Lawful, TypesWord, Chord;
    WordIsShown(s, es, word);
    LiveWordIsSpaced(RunDelivered(s, es), e, tested);
  }

  // ----- nothing typed yet -----

  /** The service as the key finds it, the settings read: nothing is typed and nothing composed. */
  ghost predicate Empty(s: Sink, e: KeyEvent, c: Ctl) {
    c == CheckConfig(s.ctl, e.reload) && Lawful(c.cfg.engine) && !c.blocked && Clear(c)
  }

  /** The word that ends at the caret, as far as `max` characters reach. */
  predicate EndsInWord(pre: string, w: string, max: nat) {
    && 0 < |w| <= max && |w| <= |pre| && w == pre[|pre| - |w|..] && AllLetters(w)
    && (|w| == max || |w| == |pre| || !IsVietLetter(pre[|pre| - |w| - 1]))
  }

  lemma {:induction false} SuffixIs(t: string, n: nat)
    requires n <= |t| && AllLetters(t[|t| - n..]) && (n == |t| || !IsVietLetter(t[|t| - n - 1]))
    ensures VietSuffix(t) == n
  {
    hide IsVietLetter;
    if n > 0 {
      var front := t[..|t| - 1];
      assert IsVietLetter(t[|t| - n..][n - 1]);
      var a, b := front[|front| - (n - 1)..], t[|t| - n..];
      forall i | 0 <= i < |a| ensures IsVietLetter(a[i]) {
        assert a[i] == b[i];
      }
      SuffixIs(front, n - 1);
    }
  }

  lemma {:induction false} SuffixStops(t: string)
    ensures var n := VietSuffix(t); n == |t| || !IsVietLetter(t[|t| - n - 1])
  {
    hide IsVietLetter;
    if t != [] && IsVietLetter(t[|t| - 1]) {
      SuffixStops(t[..|t| - 1]);
    }
  }

  /** Looking back finds that word, and nothing where there is none. */
  lemma WordIs(c: Ctl, selection: bool, max: nat, w: string)
    requires w != ""
    ensures WordBefore(c, selection, max) == w <==> !selection && EndsInWord(c.doc.pre, w, max)
  {
    hide VietSuffix, IsVietLetter;
    var pre := c.doc.pre;
    var t := Window(pre, max);
    if !selection && EndsInWord(pre, w, max) {
      assert t[|t| - |w|..] == w;
      SuffixIs(t, |w|);
    }
    SuffixStops(t);
  }

  /** The engine takes that word up again, unless it is English. */
  predicate Resumes(c: Ctl, e: KeyEvent, w: string, max: nat) {
    !e.selection && EndsInWord(c.doc.pre, w, max) && !c.cfg.engine.english(w)
  }

  lemma ResumesIs(c: Ctl, e: KeyEvent, w: string, max: nat)
    requires Lawful(c.cfg.engine)
    ensures Resumes(c, e, w, max) <==> Revivable(c, w) && WordBefore(c, e.selection, max) == w
  {
    hide EndsInWord, VietSuffix, Window, WordBefore;
    if w != "" { WordIs(c, e.selection, max, w); }
    assert EndsInWord(c.doc.pre, w, max) ==> w != "" && AllLetters(w) by { NoEmptyWord(c.doc.pre, w, max); }
    assert c.cfg.engine.seeds(w) <==> AllLetters(w);
  }

  lemma NoEmptyWord(pre: string, w: string, max: nat)
    ensures EndsInWord(pre, w, max) ==> w != "" && AllLetters(w) && |w| <= |pre|
  {
  }

  lemma WantsEmpty(c: Ctl, e: KeyEvent)
    requires Count(c) == 0
    ensures var (c1, want) := WantKey(c, e);
            && c1 == c.(modes := c1.modes, digitLed := c1.digitLed) && c1.modes.abiOk == c.modes.abiOk
            && c1.modes.engineEnabled == c.modes.engineEnabled
            && (want <==> On(c, e) && !Chord(e) && 0x41 <= e.vk <= 0x5A)
            && (e.flags == Flags(true, true, true, true) && c.modes.abiOk ==> c1.modes.tsfActive && c1.modes.vietnamese)
  {
  }

  /** Backspace, Tab, Enter, Escape and Delete, and from Space over paging, End and Home to the arrows. */
  predicate EndsDigitLed(vk: nat) {
    vk == 0x08 || vk == 0x09 || vk == 0x0D || vk == 0x1B || vk == 0x2E || 0x20 <= vk <= 0x28
  }

  lemma DigitLedIs(c: Ctl, e: KeyEvent)
    requires Count(c) == 0
    ensures DigitLedOn(c, e) ==> (WantKey(c, e).0.digitLed <==> !EndsDigitLed(e.vk))
  {
  }

  /** A digit-led word is being passed through, and the service is on. */
  predicate DigitLedOn(c: Ctl, e: KeyEvent) {
    c.digitLed && c.modes.abiOk && e.flags == Flags(true, true, true, true) && !Chord(e)
  }

  /** What looking for a word and showing one depend on. */
  ghost predicate SameBut(a: Ctl, b: Ctl) {
    b == a.(modes := b.modes, digitLed := b.digitLed, undo := b.undo, pending := b.pending)
  }

  /** A key other than Backspace, and other than an Escape that restores: the test only asks WantKey. */
  predicate Ordinary(c: Ctl, e: KeyEvent) {
    && e.vk != VK_BACK
    && !(e.vk == VK_ESCAPE && c.cfg.escRestore && c.undo.state.Primed? && WithinUndoWindow(c.undo, e.now))
  }

  lemma EmptyIsTested(s: Sink, e: KeyEvent, c: Ctl)
    requires Empty(s, e, c) && Ordinary(c, e)
    ensures var (s1, claimed) := OnTestKeyDown(s, e);
            && SameBut(c, s1.ctl) && s1.punct.None?
            && (claimed <==> On(c, e) && !Chord(e) && 0x41 <= e.vk <= 0x5A)
            && (claimed ==> s1.testedVk == e.vk && s1.wantResult)
            && (DigitLedOn(c, e) ==> (s1.ctl.digitLed <==> !EndsDigitLed(e.vk)))
  {
    hide WantKey, Commit, PrepareRevive, WithinUndoWindow, CheckConfig, Lawful, EndsDigitLed;
    var c1 := c.(undo := AfterOtherKey(c.undo, e));
    WantsEmpty(c1, e);
    DigitLedIs(c1, e);
    assert Resync(c1, e.now) == c1;
  }

  lemma EmptyIsDelivered(s: Sink, e: KeyEvent, c: Ctl)
    requires Empty(s, e, c) && Ordinary(c, e) && s.testedVk != e.vk
    ensures var (c1, (s1, eaten)) := (WantKey(c, e).0, OnKeyDown(s, e));
            && SameBut(c, c1)
            && (s1.ctl, eaten) == if On(c, e) && !Chord(e) && 0x41 <= e.vk <= 0x5A then HandleKey(c1, e)
                                  else (if Chord(e) then c else c1, false)
  {
    hide WantKey, HandleKey, Commit, CommitWithChar, WithinUndoWindow, CheckConfig, Lawful;
    WantsEmpty(c, e);
  }

  /** A key that is no letter for the service goes to the host, and changes nothing else. */
  lemma EmptyKeyPasses(s: Sink, e: KeyEvent, tested: bool, c: Ctl)
    requires Empty(s, e, c) && Asked(s, e, tested) && Ordinary(c, e)
    requires !(On(c, e) && !Chord(e) && 0x41 <= e.vk <= 0x5A)
    ensures DeliveredBy(s, e, tested).ctl.doc == HostApply(c.doc, e.host)
    ensures Count(DeliveredBy(s, e, tested).ctl) == 0
  {
    hide OnTestKeyDown, OnKeyDown, HostApply, Ordinary, On, Chord, Lawful, CheckConfig;
    if tested { EmptyIsTested(s, e, c); } else { EmptyIsDelivered(s, e, c); }
  }

  function LetterDone(c: Ctl, e: KeyEvent): Ctl
    requires IsLetterKey(e.vk)
  {
    var (c1, eaten) := HandleLetter(c, e);
    if eaten then c1 else c1.(doc := HostApply(c1.doc, e.host))
  }

  /** A letter that starts something is handled, by a service that differs from the one it found in nothing
      that matters to the text. */
  lemma EmptyLetterIsHandled(s: Sink, e: KeyEvent, tested: bool, c: Ctl)
    requires Empty(s, e, c) && Asked(s, e, tested) && On(c, e) && !Chord(e) && IsLetterKey(e.vk)
    ensures exists c1 :: SameBut(c, c1) && DeliveredBy(s, e, tested).ctl == LetterDone(c1, e)
  {
    hide OnTestKeyDown, HandleLetter, HostApply, Lawful, CheckConfig, WantKey, Commit, CommitWithChar, IsPunctuationKey;
    NoPunctuation(e);
    if tested {
      EmptyIsTested(s, e, c);
      var s1, e1 := OnTestKeyDown(s, e).0, e.(reload := None);
      assert CheckConfig(s1.ctl, None) == s1.ctl by { NoReload(s1.ctl); }
      assert OnKeyDown(s1, e1) == (Sink(HandleLetter(s1.ctl, e1).0, 0, true, None), HandleLetter(s1.ctl, e1).1);
      LetterNeedsNoReload(s1.ctl, e);
      assert DeliveredBy(s, e, tested).ctl == LetterDone(s1.ctl, e);
    } else {
      EmptyIsDelivered(s, e, c);
      var c1 := WantKey(c, e).0;
      assert HandleKey(c1, e) == HandleLetter(c1, e);
      assert DeliveredBy(s, e, tested).ctl == LetterDone(c1, e);
    }
  }

  lemma LetterNeedsNoReload(c: Ctl, e: KeyEvent)
    requires IsLetterKey(e.vk)
    ensures HandleLetter(c, e.(reload := None)) == HandleLetter(c, e)
  {
    hide WordBefore, Revivable, CoverFrom, StartComp, SetComp, EndComp, UpdateEdit;
  }

  lemma NoReload(c: Ctl)
    ensures CheckConfig(c, None) == c
  {
  }

  lemma NoPunctuation(e: KeyEvent)
    requires IsLetterKey(e.vk)
    ensures !IsPunctuationKey(e.vk)
  {
  }

  /** Behind a word, a letter takes that word up again: it becomes the composition, the text in front of it
      and behind the caret stays, and the engine's answer is shown. A host that refuses loses the letter. */
  lemma LetterResumes(s: Sink, e: KeyEvent, tested: bool, c: Ctl, ch: char, w: string)
    requires Empty(s, e, c) && Asked(s, e, tested) && On(c, e) && !Chord(e) && TypesLetter(e, ch)
    requires !c.scintilla && Resumes(c, e, w, 64)
    ensures |w| <= |c.doc.pre|
    ensures var r, front := DeliveredBy(s, e, tested).ctl, c.doc.pre[..|c.doc.pre| - |w|];
            if e.startOk && e.shiftOk then
              r.buf == [Seed(w), Push(ch)] && r.doc == Doc(front, Some(c.cfg.engine.peek(r.buf)), c.doc.post)
            else r.buf == [] && r.doc == c.doc
  {
    hide DeliveredBy, HandleLetter, EndsInWord, Resumes, Lawful, On, TypesLetter;
    LetterIs(e, ch);
    EmptyLetterIsHandled(s, e, tested, c);
    var c1 :| SameBut(c, c1) && DeliveredBy(s, e, tested).ctl == LetterDone(c1, e);
    ResumedLetter(c, c1, e, w, ch);
  }

  lemma ResumedLetter(c: Ctl, c1: Ctl, e: KeyEvent, w: string, ch: char)
    requires SameBut(c, c1) && Lawful(c.cfg.engine) && Clear(c) && !c.scintilla && Resumes(c, e, w, 64)
    requires TypesLetter(e, ch)
    ensures |w| <= |c.doc.pre| && IsLetterKey(e.vk)
    ensures var (r, eaten) := HandleLetter(c1, e);
            && eaten && r.cfg == c.cfg
            && if e.startOk && e.shiftOk then
                 && r.buf == [Seed(w), Push(ch)]
                 && r.doc == Doc(c.doc.pre[..|c.doc.pre| - |w|], Some(c.cfg.engine.peek(r.buf)), c.doc.post)
               else r.buf == [] && r.doc == c.doc
  {
    hide EndsInWord, WordBefore, ShouldAutoCapHere, PushEdit;
    LetterIs(e, ch);
    ResumesIs(c, e, w, 64);
    NoEmptyWord(c.doc.pre, w, 64);
    SameWord(c, c1, e, 64);
    assert CountAfter(c.cfg.engine, [Seed(w)], Push(ch)) > 0;
    assert [Seed(w)] + [Push(ch)] == [Seed(w), Push(ch)];
  }

  lemma SameWord(c: Ctl, c1: Ctl, e: KeyEvent, max: nat)
    requires SameBut(c, c1)
    ensures WordBefore(c, e.selection, max) == WordBefore(c1, e.selection, max)
    ensures ShouldAutoCapHere(c, e) == ShouldAutoCapHere(c1, e)
  {
  }

  /** The text ends where a sentence would begin: at its start or behind a line break, blanks aside, or
      behind a full stop, question or exclamation mark and at least one blank. */
  predicate StartsSentence(t: string) {
    exists k :: 0 <= k <= |t| && BlankFrom(t, k)
                && (|| k == 0 || t[k - 1] == '\n' || t[k - 1] == '\r'
                    || (k < |t| && (t[k - 1] == '.' || t[k - 1] == '?' || t[k - 1] == '!')))
  }

  predicate BlankFrom(t: string, k: nat) {
    forall i :: k <= i < |t| ==> t[i] == ' ' || t[i] == '\t'
  }

  lemma StartsSentenceIs(t: string)
    ensures ShouldAutoCap(t) <==> StartsSentence(t)
  {
    var r := TrimBlanks(t);
    if ShouldAutoCap(t) {
      assert BlankFrom(t, |r|);
    }
    if StartsSentence(t) {
      var k :| 0 <= k <= |t| && BlankFrom(t, k)
               && (|| k == 0 || t[k - 1] == '\n' || t[k - 1] == '\r'
                   || (k < |t| && (t[k - 1] == '.' || t[k - 1] == '?' || t[k - 1] == '!')));
      assert |r| < k ==> IsBlank(t[k - 1]);
    }
  }

  /** The first letter of a word is made a capital. */
  predicate Capitalizes(c: Ctl, e: KeyEvent) {
    && c.cfg.autoCaps && !c.scintilla && !e.selection
    && StartsSentence(if |c.doc.pre| <= 64 then c.doc.pre else c.doc.pre[|c.doc.pre| - 64..])
  }

  /** Elsewhere a letter begins a new composition at the caret. A host that refuses gets the letter. */
  lemma LetterBegins(s: Sink, e: KeyEvent, tested: bool, c: Ctl, ch: char)
    requires Empty(s, e, c) && Asked(s, e, tested) && On(c, e) && !Chord(e)
    requires c.scintilla || forall w :: !Resumes(c, e, w, 64)
    requires LetterOf(e.vk, e.shift != e.caps || Capitalizes(c, e), ch)
    ensures var r := DeliveredBy(s, e, tested).ctl;
            if e.startOk then
              && r.buf == c.buf + [Push(ch)]
              && r.doc == Doc(c.doc.pre, Some(c.cfg.engine.peek(r.buf)), c.doc.post)
            else r.buf == [] && r.doc == HostApply(c.doc, e.host)
  {
    hide DeliveredBy, HandleLetter, Resumes, Lawful, On, HostApply, Capitalizes;
    EmptyLetterIsHandled(s, e, tested, c);
    var c1 :| SameBut(c, c1) && DeliveredBy(s, e, tested).ctl == LetterDone(c1, e);
    BegunLetter(c, c1, e, ch);
  }

  lemma BegunLetter(c: Ctl, c1: Ctl, e: KeyEvent, ch: char)
    requires SameBut(c, c1) && Lawful(c.cfg.engine) && Clear(c)
    requires c.scintilla || forall w :: !Resumes(c, e, w, 64)
    requires LetterOf(e.vk, e.shift != e.caps || Capitalizes(c, e), ch)
    ensures var (r, eaten) := HandleLetter(c1, e);
            && r.cfg == c.cfg && eaten == e.startOk
            && if e.startOk then
                 && r.buf == c.buf + [Push(ch)]
                 && r.doc == Doc(c.doc.pre, Some(c.cfg.engine.peek(r.buf)), c.doc.post)
               else r.buf == [] && r.doc == c.doc
  {
    hide Resumes, WordBefore, ReviveEdit, StartsSentence, ShouldAutoCap, Lawful;
    var w := WordBefore(c, e.selection, 64);
    ResumesIs(c, e, w, 64);
    SameWord(c, c1, e, 64);
    StartsSentenceIs(Window(c.doc.pre, 64));
  }

  // ----- a Backspace with nothing typed -----

  /** It undoes the last commit instead. */
  predicate Undoes(c: Ctl, e: KeyEvent) {
    c.undo.state.Ready? && WithinUndoWindow(c.undo, e.now)
  }

  lemma BackspaceIsTested(s: Sink, e: KeyEvent, c: Ctl)
    requires Empty(s, e, c) && !Chord(e) && e.vk == VK_BACK && !Undoes(c, e)
    ensures exists c1 ::
              && SameBut(c, c1) && c1.modes.engineEnabled == c.modes.engineEnabled
              && (OnTestKeyDown(s, e).0.ctl, OnTestKeyDown(s, e).1) == PrepareRevive(c1, e)
              && (c.modes.abiOk && e.flags == Flags(true, true, true, true)
                  ==> c1.modes.tsfActive && c1.modes.vietnamese)
              && (DigitLedOn(c, e) ==> !c1.digitLed)
    ensures var (s1, claimed) := OnTestKeyDown(s, e); claimed ==> s1.testedVk == e.vk && s1.wantResult
  {
    hide WantKey, PrepareRevive, Commit, WithinUndoWindow, CheckConfig, Lawful, IsPunctuationKey;
    WantsEmpty(c, e);
    DigitLedIs(c, e);
    assert Resync(c, e.now) == c;
    var c0 := WantKey(c, e).0;
    var c1 := if c0.undo.state.Primed? then c0.(undo := ResetUndo(c0.undo)) else c0;
    var (s1, claimed) := OnTestKeyDown(s, e);
    assert s1 == Sink(PrepareRevive(c1, e).0, e.vk, claimed, None) && claimed == PrepareRevive(c1, e).1;
    assert SameBut(c, c1);
  }

  lemma PreparesExactly(c: Ctl, c1: Ctl, e: KeyEvent, w: string)
    requires SameBut(c, c1) && Lawful(c.cfg.engine) && Clear(c) && !c.blocked
    ensures var (c2, armed) := PrepareRevive(c1, e); c2 == c1.(pending := c2.pending) && armed == c2.pending.Some?
    ensures !c1.modes.engineEnabled || c.scintilla ==> !PrepareRevive(c1, e).1
    ensures (forall v :: !Resumes(c, e, v, 16)) ==> !PrepareRevive(c1, e).1
    ensures c1.modes.engineEnabled && c1.modes.tsfActive && c1.modes.vietnamese && !c.scintilla && Resumes(c, e, w, 16)
            ==> w != "" && |w| <= |c.doc.pre| && AllLetters(w)
                && PrepareRevive(c1, e).0.pending == Some((w, |c.doc.pre| - |w|))
  {
    hide WordBefore, EndsInWord, Resumes, Lawful;
    var c2 := c1.(pending := None);
    SameWord(c, c2, e, 16);
    var v := WordBefore(c, e.selection, 16);
    ResumesIs(c, e, v, 16);
    ResumesIs(c, e, w, 16);
  }

  /** The key-down of a Backspace that was claimed for a word. */
  lemma BackspaceIsHandled(s: Sink, e: KeyEvent)
    requires !Chord(e) && e.vk == VK_BACK && e.reload.None? && s.testedVk == e.vk && s.wantResult
    requires Count(s.ctl) == 0 && s.ctl.pending.Some?
    ensures var (s1, eaten), p := OnKeyDown(s, e), s.ctl.pending.value;
            eaten && s1.ctl == ReviveEdit(s.ctl, p.0, p.1, Back, e).(pending := None)
  {
    hide WantKey, ReviveEdit, Commit;
  }

  /** Behind a word it takes the word up again without its last key: the word becomes the composition, the
      text in front of it and behind the caret stays, and the engine's answer is shown. A host that refuses
      loses the Backspace. */
  lemma BackspaceResumes(s: Sink, e: KeyEvent, c: Ctl, w: string)
    requires Empty(s, e, c) && !Chord(e) && e.vk == VK_BACK && !Undoes(c, e)
    requires c.modes.abiOk && e.flags == Flags(true, true, true, true) && c.modes.engineEnabled && !c.scintilla
    requires Resumes(c, e, w, 16)
    ensures |w| <= |c.doc.pre|
    ensures var r, front := TestThenKey(s, e).ctl, c.doc.pre[..|c.doc.pre| - |w|];
            if e.startOk && e.shiftOk then
              && r.buf == [Seed(w), Back]
              && var shown := c.cfg.engine.peek(r.buf);
                 r.doc == if Count(r) > 0 then Doc(front, Some(shown), c.doc.post)
                          else Doc(front + shown, None, c.doc.post)
            else r.buf == [] && r.doc == c.doc
  {
    hide OnTestKeyDown, OnKeyDown, Resumes, Lawful, CheckConfig, Undoes, HostApply;
    BackspaceClaims(s, e, c, w);
    var s1, e1 := OnTestKeyDown(s, e).0, e.(reload := None);
    BackspaceIsHandled(s1, e1);
    Revived(c, s1.ctl, e1, w);
  }

  lemma BackspaceClaims(s: Sink, e: KeyEvent, c: Ctl, w: string)
    requires Empty(s, e, c) && !Chord(e) && e.vk == VK_BACK && !Undoes(c, e)
    requires c.modes.abiOk && e.flags == Flags(true, true, true, true) && c.modes.engineEnabled && !c.scintilla
    requires Resumes(c, e, w, 16)
    ensures w != "" && |w| <= |c.doc.pre| && AllLetters(w)
    ensures var (s1, claimed) := OnTestKeyDown(s, e);
            && claimed && SameBut(c, s1.ctl) && s1.testedVk == e.vk && s1.wantResult
            && s1.ctl.pending == Some((w, |c.doc.pre| - |w|))
  {
    hide OnTestKeyDown, PrepareRevive, Resumes, Lawful, CheckConfig, Undoes, DigitLedOn;
    BackspaceIsTested(s, e, c);
    var c1 :| SameBut(c, c1) && c1.modes.engineEnabled == c.modes.engineEnabled
              && (OnTestKeyDown(s, e).0.ctl, OnTestKeyDown(s, e).1) == PrepareRevive(c1, e)
              && c1.modes.tsfActive && c1.modes.vietnamese;
    PreparesExactly(c, c1, e, w);
  }

  lemma Revived(c: Ctl, c1: Ctl, e: KeyEvent, w: string)
    requires SameBut(c, c1) && Lawful(c.cfg.engine) && Clear(c) && w != "" && |w| <= |c.doc.pre| && AllLetters(w)
    ensures var r, at := ReviveEdit(c1, w, |c.doc.pre| - |w|, Back, e), |c.doc.pre| - |w|;
            && r.cfg == c.cfg
            && if e.startOk && e.shiftOk then
                 && r.buf == [Seed(w), Back]
                 && var shown := c.cfg.engine.peek(r.buf);
                    r.doc == if Count(r) > 0 then Doc(c.doc.pre[..at], Some(shown), c.doc.post)
                             else Doc(c.doc.pre[..at] + shown, None, c.doc.post)
               else r.buf == [] && r.doc == c.doc
  {
  }

  /** Otherwise, and where the host does not test first, the Backspace goes to the host. */
  lemma BackspaceDeletes(s: Sink, e: KeyEvent, tested: bool, c: Ctl)
    requires Empty(s, e, c) && Asked(s, e, tested) && !Chord(e) && e.vk == VK_BACK
    requires tested ==> Undoes(c, e) || !c.modes.engineEnabled || c.scintilla || forall w :: !Resumes(c, e, w, 16)
    ensures DeliveredBy(s, e, tested).ctl.doc == HostApply(c.doc, e.host)
    ensures Count(DeliveredBy(s, e, tested).ctl) == 0
  {
    hide OnTestKeyDown, OnKeyDown, PrepareRevive, Resumes, Lawful, HostApply, CheckConfig, Undoes;
    if !tested {
      BackspaceIsDelivered(s, e, c);
    } else if Undoes(c, e) {
      BackspacePrimes(s, e, c);
    } else {
      BackspaceIsTested(s, e, c);
      var c1 :| SameBut(c, c1) && c1.modes.engineEnabled == c.modes.engineEnabled
                && (OnTestKeyDown(s, e).0.ctl, OnTestKeyDown(s, e).1) == PrepareRevive(c1, e);
      PreparesExactly(c, c1, e, "");
    }
  }

  lemma BackspaceIsDelivered(s: Sink, e: KeyEvent, c: Ctl)
    requires Empty(s, e, c) && !Chord(e) && e.vk == VK_BACK && s.testedVk != e.vk
    ensures var (s1, eaten) := OnKeyDown(s, e);
            SameBut(c, s1.ctl) && !eaten && (DigitLedOn(c, e) ==> !s1.ctl.digitLed)
  {
    hide WantKey, Commit, CheckConfig, Lawful;
    WantsEmpty(c, e);
    DigitLedIs(c, e);
  }

  lemma BackspacePrimes(s: Sink, e: KeyEvent, c: Ctl)
    requires Empty(s, e, c) && !Chord(e) && e.vk == VK_BACK && Undoes(c, e)
    ensures var (s1, claimed) := OnTestKeyDown(s, e);
            SameBut(c, s1.ctl) && !claimed && (DigitLedOn(c, e) ==> !s1.ctl.digitLed)
  {
    hide WantKey, Commit, CheckConfig, Lawful, WithinUndoWindow, PrepareRevive;
    WantsEmpty(c, e);
    DigitLedIs(c, e);
    assert Resync(c, e.now) == c;
  }

  /** A revive is pending between a test and its key-down only. */
  lemma NothingStaysPending(s: Sink, e: KeyEvent, tested: bool)
    requires s.ctl.pending.None?
    ensures DeliveredBy(s, e, tested).ctl.pending.None?
  {
    hide OnTestKeyDown, OnKeyDown;
    if tested {
      TestLeavesPending(s, e);
      var (s1, claimed) := OnTestKeyDown(s, e);
      if s1.ctl.pending.Some? {
        BackspaceIsHandled(s1, e.(reload := None));
      } else {
        KeyDownLeavesNone(s1, e.(reload := None));
      }
    } else {
      KeyDownLeavesNone(s, e);
    }
  }

  /** What a pending revive comes with. */
  ghost predicate ClaimsRevive(s: Sink, claimed: bool, e: KeyEvent) {
    && claimed && !Chord(e) && e.vk == VK_BACK && s.testedVk == e.vk && s.wantResult && Count(s.ctl) == 0
  }

  lemma TestLeavesPending(s: Sink, e: KeyEvent)
    requires s.ctl.pending.None?
    ensures var (s1, claimed) := OnTestKeyDown(s, e); s1.ctl.pending.Some? ==> ClaimsRevive(s1, claimed, e)
  {
    hide TestResynced, Count, CommitText, ClaimsRevive;
    var c := CheckConfig(s.ctl, e.reload);
    var c1 := c.(undo := AfterOtherKey(c.undo, e));
    CommitLeavesPending(c, e);
    CommitLeavesPending(c1, e);
    OpenedLeavesPending(s.(punct := None), Resync(c1, e.now), e);
  }

  lemma CommitLeavesPending(c: Ctl, e: KeyEvent)
    ensures forall text: string, trailing: bool :: CommitText(c, text, trailing, e.now).pending == c.pending
    ensures EscapeRaw(c, e).0.pending == c.pending
  {
    hide CommitEdit, RecordCommit, RestoreEdit, WithinUndoWindow, Count;
  }

  lemma OpenedLeavesPending(s: Sink, c: Ctl, e: KeyEvent)
    requires c.pending.None?
    ensures var (s1, claimed) := TestResynced(s, c, e); s1.ctl.pending.Some? ==> ClaimsRevive(s1, claimed, e)
  {
    hide TestWanted, WantKey, Count, CommitText, ClaimsRevive, EscapeRaw;
    CommitLeavesPending(c, e);
    var c1 := EscapeRaw(c, e).0;
    WantKeySyncs(c1, e);
    var (c2, want) := WantKey(c1, e);
    if !Chord(e) { WantedLeavesPending(s, c2, want && !KeptBySuggestion(c2, e), e); }
  }

  lemma WantedLeavesPending(s: Sink, c: Ctl, want: bool, e: KeyEvent)
    requires c.pending.None? && !Chord(e)
    ensures var (s1, claimed) := TestWanted(s, c, want, e); s1.ctl.pending.Some? ==> ClaimsRevive(s1, claimed, e)
  {
    hide WithinUndoWindow, CommitEdit, WordBefore, Revivable;
  }

  lemma KeyDownLeavesNone(s: Sink, e: KeyEvent)
    requires s.ctl.pending.None?
    ensures OnKeyDown(s, e).0.ctl.pending.None?
  {
    hide WantKey, HandleKey, Count, CommitText, EscapeRaw;
    CommitLeavesPending(s.ctl, e);
    CommitLeavesPending(CheckConfig(s.ctl, e.reload), e);
    var c := EscapeRaw(CheckConfig(s.ctl, e.reload), e).0;
    WantKeySyncs(c, e);
    CommitLeavesPending(c, e);
    CommitLeavesPending(WantKey(c, e).0, e);
    HandlingLeavesNone(c, e);
    HandlingLeavesNone(WantKey(c, e).0, e);
  }

  lemma HandlingLeavesNone(c: Ctl, e: KeyEvent)
    requires c.pending.None?
    ensures HandleKey(c, e).0.pending.None?
  {
    hide WordBefore, Revivable, CommitEdit, UpdateEdit, SetComp, CoverFrom, StartComp, EndComp, RecordCommit;
  }

  // ----- where a digit-led word ends -----

  /** A digit-led word goes on until one of the keys that end it. */
  lemma DigitLedEndsExactly(s: Sink, e: KeyEvent, tested: bool, c: Ctl)
    requires Empty(s, e, c) && Asked(s, e, tested) && DigitLedOn(c, e) && (Ordinary(c, e) || e.vk == VK_BACK)
    ensures DeliveredBy(s, e, tested).ctl.digitLed <==> !EndsDigitLed(e.vk)
  {
    hide WantKey, OnTestKeyDown, OnKeyDown, HandleKey, HostApply, CheckConfig, Lawful, PrepareRevive, Undoes;
    if e.vk == VK_BACK {
      BackspaceEndsDigitLed(s, e, tested, c);
    } else if tested {
      EmptyIsTested(s, e, c);
    } else {
      EmptyIsDelivered(s, e, c);
      DigitLedIs(c, e);
    }
  }

  lemma BackspaceEndsDigitLed(s: Sink, e: KeyEvent, tested: bool, c: Ctl)
    requires Empty(s, e, c) && Asked(s, e, tested) && DigitLedOn(c, e) && e.vk == VK_BACK
    ensures !DeliveredBy(s, e, tested).ctl.digitLed
  {
    hide OnTestKeyDown, OnKeyDown, HostApply, CheckConfig, Lawful, PrepareRevive, Undoes, ReviveEdit;
    if !tested {
      BackspaceIsDelivered(s, e, c);
    } else if Undoes(c, e) {
      BackspacePrimes(s, e, c);
    } else {
      BackspaceIsTested(s, e, c);
      var c1 :| SameBut(c, c1) && (OnTestKeyDown(s, e).0.ctl, OnTestKeyDown(s, e).1) == PrepareRevive(c1, e)
                && !c1.digitLed;
      PreparesExactly(c, c1, e, "");
      var (s1, claimed) := OnTestKeyDown(s, e);
      if claimed {
        BackspaceIsHandled(s1, e.(reload := None));
        var p := s1.ctl.pending.value;
        RevivedStaysOff(s1.ctl, p.0, p.1, e.(reload := None));
      }
    }
  }

  lemma RevivedStaysOff(c: Ctl, w: string, at: nat, e: KeyEvent)
    ensures ReviveEdit(c, w, at, Back, e).digitLed == c.digitLed
  {
    hide StartComp, SetComp, EndComp, CoverFrom;
  }

  // ----- a word and its composition out of step -----

  /** The composition was ended from outside while keys are held: the next test forgets the keys, as if none had
      been typed, and leaves the text alone. */
  lemma LostCompositionIsForgotten(s: Sink, e: KeyEvent)
    requires Lawful(s.ctl.cfg.engine) && !s.ctl.blocked && e.reload.None?
    requires s.ctl.doc.comp.None? && Count(s.ctl) > 0
    requires !(e.vk == VK_BACK && s.ctl.cfg.suggestKeep && e.selection)
    ensures TestThenKey(s, e) == TestThenKey(s.(ctl := s.ctl.(buf := [], digitLed := false)), e)
  {
    hide TestResynced, OnKeyDown, HostApply, Commit;
    var c := Resync(s.ctl.(undo := AfterOtherKey(s.ctl.undo, e)), e.now);
    StateIsGiven(s.(punct := None), s.ctl.(buf := [], digitLed := false), c, e);
  }

  lemma StateIsGiven(s: Sink, other: Ctl, c: Ctl, e: KeyEvent)
    ensures TestResynced(s.(ctl := other), c, e) == TestResynced(s, c, e)
  {
    hide WantKey, Commit, PrepareRevive, EscapeRaw, WithinUndoWindow, IsPunctuationKey, Count;
  }

  /** A composition without keys is committed, as what the engine makes of nothing, before the key is looked at. */
  lemma StrayCompositionIsCommitted(s: Sink, e: KeyEvent)
    requires Lawful(s.ctl.cfg.engine) && !s.ctl.blocked && e.reload.None?
    requires s.ctl.doc.comp.Some? && Count(s.ctl) == 0
    requires e.vk != VK_BACK && e.vk != VK_ESCAPE
    requires Chord(e) || !On(s.ctl.(digitLed := false), e) || !IsLetterKey(e.vk)
    ensures TestThenKey(s, e).ctl.doc
            == HostApply(Doc(s.ctl.doc.pre + s.ctl.cfg.engine.commit(s.ctl.buf), None, s.ctl.doc.post), e.host)
  {
    hide WantKey, HostApply, RecordCommit, PrepareRevive, WithinUndoWindow, Lawful, IsPunctuationKey;
    var c0 := s.ctl.(undo := AfterOtherKey(s.ctl.undo, e));
    CommitsClear(c0, ' ', e.now);
    WantsEmpty(Commit(c0, e.now), e);
  }

  // ----- settings -----

  function MethodNumbered(n: nat): InputMethod {
    match n case 1 => VNI case 2 => SimpleTelex case _ => Telex
  }

  /** A settings change that any handler notices replaces the settings, with the input method of that number,
      and the engine, which holds no keys then. */
  lemma NoticedSettingsHold(s: Sink, e: KeyEvent)
    requires e.reload.Some? && Chord(e)
    ensures var c, r := KeyOnly(s, e).ctl, e.reload.value;
            c == s.ctl.(cfg := r.cfg.(input := MethodNumbered(r.rawMethod)), buf := [], doc := c.doc,
                        modes := s.ctl.modes.(engineEnabled := r.enabled, vietnamese := r.vietnamese))
  {
    hide HostApply;
  }

  /** And they stay, whatever the key does. */
  lemma SettingsStay(s: Sink, e: KeyEvent, tested: bool)
    requires LawfulFor(s.ctl, e.reload) && !s.ctl.blocked
    ensures DeliveredBy(s, e, tested).ctl.cfg
            == if e.reload.None? then s.ctl.cfg
               else e.reload.value.cfg.(input := MethodNumbered(e.reload.value.rawMethod))
  {
    hide OnTestKeyDown, OnKeyDown, HostApply, LawfulFor;
    if tested {
      TestSyncs(s, e);
      KeyDownSettings(OnTestKeyDown(s, e).0, e.(reload := None));
    } else {
      KeySettings(s, e);
    }
  }

  lemma KeySettings(s: Sink, e: KeyEvent)
    ensures OnKeyDown(s, e).0.ctl.cfg == CheckConfig(s.ctl, e.reload).cfg
  {
    hide HandleKey, Commit, CommitWithChar, EscapeRaw, WantKey, IsPunctuationKey, WithinUndoWindow, Count, CheckConfig;
    var c := CheckConfig(s.ctl, e.reload);
    CommitSettings(c, ' ', e);
    var c1 := EscapeRaw(c, e).0;
    WantKeyOnUndo(c1, e);
    CommitSettings(c1, ' ', e);
    CommitSettings(WantKey(c1, e).0, ' ', e);
    HandleKeySettings(c1, e);
    HandleKeySettings(WantKey(c1, e).0, e);
    var ch := if e.vk == s.testedVk && s.punct.Some? then s.punct else e.printable;
    if ch.Some? { CommitSettings(c1, ch.value, e); }
  }

  /** Focus in the foreground reads the flags of the shared state; without a readable one the engine is off.
      Either way the text stays and no undo is left. */
  lemma FocusReadsState(s: Sink, f: Focus)
    ensures var c := OnSetFocus(s, f).ctl;
            && c.doc == s.ctl.doc && c.undo.state.NoUndo?
            && (!f.foreground ==> c == s.ctl.(undo := c.undo))
            && (f.foreground ==>
                  && c.scintilla == f.scintilla
                  && (c.modes.engineEnabled <==> f.shared.Some? && f.shared.value.enabled)
                  && (f.shared.Some? ==> c.modes.vietnamese == f.shared.value.vietnamese))
  {
    hide CheckConfig;
    var c := CheckConfig(s.ctl, f.reload);
    assert c.doc == s.ctl.doc by { SettingsLeaveText(s.ctl, f.reload); }
  }

  lemma SettingsLeaveText(c: Ctl, r: Option<Reload>)
    ensures CheckConfig(c, r).doc == c.doc
  {
  }

  /** Where the engine was off and is on now the settings are read as well, and the engine starts afresh. */
  lemma FocusReadsSettings(s: Sink, f: Focus)
    requires f.foreground && f.reload.None?
    ensures var c, on := OnSetFocus(s, f).ctl, f.shared.Some? && f.shared.value.enabled;
            && (on && !s.ctl.modes.engineEnabled ==>
                  && c.cfg == f.shared.value.cfg.(input := MethodNumbered(f.shared.value.rawMethod))
                  && c.buf == [])
            && (!on || s.ctl.modes.engineEnabled ==> c.cfg == s.ctl.cfg && c.buf == s.ctl.buf)
  {
  }
}
