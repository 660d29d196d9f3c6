/**
  The text service itself: the composition manager, the engine controller and the key event sink as
  objects that are updated step by step. Every method is proved against the function of the same
  name in TsfModel.dfy, so the run theorems of the other Tsf files are theorems about these methods.
 */
module TsfService {
  import opened Keys
  import opened Options
  import opened TsfModel
  import opened VietLetters
  import AutoCap
  import DigitLed

  /** The TSF context of the focused document, with its reference count; `others` references belong to
      objects outside the composition manager. */
  class TextContext {
    var doc: Doc
    var refs: int
    ghost const others: int

    constructor (d: Doc)
      ensures doc == d && refs == 1 && others == 1
    {
      doc := d;
      refs := 1;
      others := 1;
    }
  }

  /** A composition handed out by the host, with its reference count. */
  class TsfComposition {
    var refs: int

    constructor ()
      ensures refs == 1
    {
      refs := 1;
    }
  }

  class CompositionManager {
    var pComposition: TsfComposition?
    var pContext: TextContext?

    constructor ()
      ensures pComposition == null && pContext == null
    {
      pComposition := null;
      pContext := null;
    }

    /** The two pointers are null together, a composition is live in the document exactly when they are
        not, and the context's references are the manager's one and those of the others. */
    ghost predicate Valid(ctx: TextContext)
      reads this, ctx
    {
      && (pComposition == null <==> pContext == null)
      && (pContext != null ==> pContext == ctx)
      && (pComposition != null <==> ctx.doc.comp.Some?)
      && ctx.refs == ctx.others + (if pContext == null then 0 else 1)
    }

    /** Between handlers the manager's reference is the only one to the live composition. */
    ghost predicate Balanced()
      reads this, pComposition
    {
      pComposition != null ==> pComposition.refs == 1
    }

    method StartComposition(ctx: TextContext, startOk: bool) returns (ok: bool, comp: TsfComposition?)
      requires Valid(ctx)
      modifies this, ctx, pComposition
      ensures ok == startOk && Valid(ctx)
      ensures ctx.doc == if ok then StartComp(old(ctx.doc)) else EndComp(old(ctx.doc))
      ensures ok ==> comp != null && fresh(comp) && pComposition == comp && comp.refs == 2
      ensures !ok ==> pComposition == null
      ensures old(pComposition) != null ==> old(pComposition).refs == old(pComposition.refs) - 1
    {
      if pComposition != null {
        EndComposition(ctx);
      }
      if !startOk {
        return false, null;
      }
      comp := new TsfComposition();
      ctx.doc := ctx.doc.(comp := Some(""));
      pComposition := comp;
      comp.refs := comp.refs + 1;
      pContext := ctx;
      ctx.refs := ctx.refs + 1;
      ok := true;
    }

    method SetCompositionText(ctx: TextContext, text: string)
      requires Valid(ctx)
      modifies ctx`doc
      ensures Valid(ctx) && ctx.doc == SetComp(old(ctx.doc), text)
    {
      if pComposition != null {
        ctx.doc := ctx.doc.(comp := Some(text));
      }
    }

    method EndComposition(ctx: TextContext)
      requires Valid(ctx)
      modifies this, ctx, pComposition
      ensures Valid(ctx) && pComposition == null && ctx.doc == EndComp(old(ctx.doc))
      ensures old(pComposition) != null ==> old(pComposition).refs == old(pComposition.refs) - 1
    {
      if pComposition == null { return; }
      ctx.doc := Doc(ctx.doc.pre + ctx.doc.comp.value, None, ctx.doc.post);
      pComposition.refs := pComposition.refs - 1;
      pComposition := null;
      ctx.refs := ctx.refs - 1;
      pContext := null;
    }

    /** Drops the pointers without ending anything; the text stays in the document. It also completes the
        half-cleared state in which OnCompositionTerminated leaves the manager. */
    method TerminateComposition(ctx: TextContext)
      requires pContext != null ==> pContext == ctx
      requires ctx.refs == ctx.others + (if pContext == null then 0 else 1)
      modifies this, ctx, pComposition
      ensures Valid(ctx) && pComposition == null && pContext == null && ctx.doc == EndComp(old(ctx.doc))
      ensures old(pComposition) != null ==> old(pComposition).refs == old(pComposition.refs) - 1
    {
      if pComposition != null {
        pComposition.refs := pComposition.refs - 1;
        pComposition := null;
      }
      if pContext != null {
        ctx.refs := ctx.refs - 1;
        pContext := null;
      }
      if ctx.doc.comp.Some? {
        ctx.doc := Doc(ctx.doc.pre + ctx.doc.comp.value, None, ctx.doc.post);
      }
    }

    /** The host ended `comp`; if it is the one held, its reference is given up. */
    method ReleaseTerminated(comp: TsfComposition)
      modifies this, comp
      ensures pComposition == if old(pComposition) == comp then null else old(pComposition)
      ensures pContext == old(pContext)
      ensures comp.refs == old(comp.refs) - if old(pComposition) == comp then 1 else 0
    {
      if comp == pComposition {
        comp.refs := comp.refs - 1;
        pComposition := null;
      }
    }
  }

  /** The typing engine: it remembers the calls made since its last reset and answers from them. */
  class InputEngine {
    const answers: Engine
    var ops: seq<Op>

    constructor (e: Engine)
      ensures answers == e && ops == []
    {
      answers := e;
      ops := [];
    }

    method PushChar(c: char)
      modifies this
      ensures ops == old(ops) + [Push(c)]
    {
      ops := ops + [Push(c)];
    }

    method Backspace()
      modifies this
      ensures ops == old(ops) + [Back]
    {
      ops := ops + [Back];
    }

    method Reset()
      modifies this
      ensures ops == []
    {
      ops := [];
    }

    method Commit() returns (text: string)
      modifies this
      ensures text == answers.commit(old(ops)) && ops == []
    {
      text := answers.commit(ops);
      ops := [];
    }

    method SeedFromText(w: string) returns (ok: bool)
      modifies this
      ensures ok == answers.seeds(w) && ops == if ok then [Seed(w)] else []
    {
      ok := answers.seeds(w);
      ops := if ok then [Seed(w)] else [];
    }
  }

  /** Walks back over Vietnamese letters. */
  method CountVietLetters(buf: string) returns (wordlen: nat)
    ensures wordlen == VietSuffix(buf)
  {
    wordlen := 0;
    assert buf[..|buf|] == buf;
    while wordlen < |buf| && IsVietLetter(buf[|buf| - 1 - wordlen])
      invariant 0 <= wordlen <= |buf|
      invariant VietSuffix(buf) == wordlen + VietSuffix(buf[..|buf| - wordlen])
    {
      var rest := buf[..|buf| - wordlen];
      assert rest[..|rest| - 1] == buf[..|buf| - wordlen - 1];
      wordlen := wordlen + 1;
    }
  }

  class EngineController {
    const ctx: TextContext
    const mgr: CompositionManager
    var engine: InputEngine
    var cfg: Config
    var abiOk: bool
    var engineEnabled: bool
    var tsfActive: bool
    var vietnamese: bool
    var contextBlocked: bool
    var scintilla: bool
    var digitLed: bool
    var undoState: UndoState
    var lastCommit: LastCommit
    var pending: Option<(Word, nat)>

    constructor (ctx: TextContext, mgr: CompositionManager, cfg: Config)
      requires mgr.Valid(ctx) && mgr.Balanced()
      ensures this.ctx == ctx && this.mgr == mgr && Valid() && fresh(engine)
      ensures View() == Ctl([], ctx.doc, cfg, Modes(true, true, false, true), false, false, false, IDLE, None)
    {
      this.ctx := ctx;
      this.mgr := mgr;
      this.cfg := cfg;
      abiOk, engineEnabled, tsfActive, vietnamese := true, true, false, true;
      contextBlocked, scintilla, digitLed := false, false, false;
      undoState, lastCommit, pending := NoUndo, NO_COMMIT, None;
      engine := new InputEngine(cfg.engine);
    }

    ghost predicate Valid()
      reads this`engine, this`cfg, mgr, ctx, mgr.pComposition
    {
      mgr.Valid(ctx) && mgr.Balanced() && engine.answers == cfg.engine
    }

    /** What the handlers read off the objects. */
    lemma Agrees()
      requires Valid()
      ensures engine.answers == cfg.engine
      ensures mgr.pComposition != null <==> ctx.doc.comp.Some?
      ensures mgr.pContext != null ==> mgr.pContext == ctx
      ensures ctx.refs == ctx.others + (if mgr.pContext == null then 0 else 1)
    {
    }

    /** Engine and composition are those held before, or new ones. */
    twostate predicate KeepsObjects()
      reads this, mgr
    {
      && (engine == old(engine) || fresh(engine))
      && (mgr.pComposition == null || mgr.pComposition == old(mgr.pComposition) || fresh(mgr.pComposition))
    }

    ghost function View(): Ctl
      reads this, ctx, engine
    {
      Ctl(engine.ops, ctx.doc, cfg, Modes(abiOk, engineEnabled, tsfActive, vietnamese),
          contextBlocked, scintilla, digitLed, Undo(undoState, lastCommit), pending)
    }

    /** IsEngineDigitKey: an unshifted digit in a method that uses digits. */
    predicate ClaimsDigit(e: KeyEvent)
      reads this
    {
      UsesDigits(cfg.input) && VK_0 <= e.vk <= VK_9 && !e.shift
    }

    // ----- edit sessions -----

    method CommitEditSession(text: string)
      requires Valid()
      modifies mgr, ctx, mgr.pComposition
      ensures Valid() && View() == old(View()).(doc := CommitEdit(old(ctx.doc), text))
      ensures mgr.pComposition == null
    {
      if mgr.pComposition != null {
        mgr.SetCompositionText(ctx, text);
        mgr.EndComposition(ctx);
      }
    }

    /** StartCompositionEditSession and UpdateCompositionEditSession: show `text`, starting if need be. */
    method UpdateCompositionEditSession(text: string, startOk: bool)
      requires Valid()
      modifies mgr, ctx, mgr.pComposition
      ensures Valid() && View() == old(View()).(doc := UpdateEdit(old(ctx.doc), text, startOk))
      ensures KeepsObjects()
    {
      if mgr.pComposition == null {
        var ok, comp := mgr.StartComposition(ctx, startOk);
        if !ok { return; }
        comp.refs := comp.refs - 1;  // the session's own reference
      }
      mgr.SetCompositionText(ctx, text);
    }

    method ReviveEditSession(w: string, at: nat, op: Op, e: KeyEvent)
      requires Valid() && !op.Seed?
      modifies mgr, ctx, mgr.pComposition, engine
      ensures Valid() && View() == ReviveEdit(old(View()), w, at, op, e)
      ensures KeepsObjects()
    {
      hide UpdateEdit, RecordCommit, WordBefore, CoverFrom, SetComp;
      if w == "" { return; }
      var seeded := engine.SeedFromText(w);
      if !seeded { return; }
      var ok, comp := mgr.StartComposition(ctx, e.startOk);
      if !ok {
        engine.Reset();
        return;
      }
      comp.refs := comp.refs - 1;
      if !e.shiftOk {
        engine.Reset();
        mgr.EndComposition(ctx);
        return;
      }
      assert engine.ops + [op] == [Seed(w), op];
      ApplyToRevived(at, op);
    }

    /** The fresh composition is moved over the word, the key applied to the seeded engine, the result shown. */
    method ApplyToRevived(at: nat, op: Op)
      requires Valid() && !op.Seed?
      modifies mgr, ctx, mgr.pComposition, engine
      ensures Valid() && KeepsObjects()
      ensures var buf := old(engine.ops) + [op];
              var doc := SetComp(CoverFrom(old(ctx.doc), at), engine.answers.peek(buf));
              && engine.ops == buf
              && ctx.doc == if engine.answers.count(buf) == 0 then EndComp(doc) else doc
    {
      ctx.doc := CoverFrom(ctx.doc, at);
      match op {
        case Push(c) => engine.PushChar(c);
        case Back => engine.Backspace();
      }
      mgr.SetCompositionText(ctx, engine.answers.peek(engine.ops));
      if engine.answers.count(engine.ops) == 0 {
        mgr.EndComposition(ctx);
      }
    }

    // ----- commits and the undo cache -----

    method RecordCommitSnapshot(text: string, raw: string, hasTrailingChar: bool, now: nat)
      modifies this`undoState, this`lastCommit
      ensures View() == old(View()).(undo := RecordCommit(text, raw, hasTrailingChar, now))
    {
      if text == "" || raw == "" {
        undoState, lastCommit := NoUndo, NO_COMMIT;
        return;
      }
      lastCommit := LastCommit(text, raw, hasTrailingChar, now);
      undoState := if hasTrailingChar then Ready else NoUndo;
    }

    method Commit(now: nat)
      requires Valid()
      modifies this, mgr, ctx, mgr.pComposition, engine
      ensures Valid() && engine == old(engine) && View() == TsfModel.Commit(old(View()), now)
      ensures mgr.pComposition == null
    {
      var raw := engine.answers.raw(engine.ops);
      var committed := engine.Commit();
      CommitEditSession(committed);
      engine.Reset();
      digitLed := false;
      RecordCommitSnapshot(committed, raw, false, now);
    }

    method CommitWithChar(ch: char, now: nat)
      requires Valid()
      modifies this, mgr, ctx, mgr.pComposition, engine
      ensures Valid() && engine == old(engine) && View() == TsfModel.CommitWithChar(old(View()), ch, now)
      ensures mgr.pComposition == null
    {
      var raw := engine.answers.raw(engine.ops);
      var committed := engine.Commit();
      if ch != '\0' {
        committed := committed + [ch];
      } else {
        assert committed == committed + "";
      }
      CommitEditSession(committed);
      engine.Reset();
      digitLed := false;
      RecordCommitSnapshot(committed, raw, ch != '\0', now);
    }

    method CommitRawAndEnd() returns (ok: bool)
      requires Valid()
      modifies this, mgr, ctx, mgr.pComposition, engine
      ensures Valid() && engine == old(engine) && (View(), ok) == TsfModel.CommitRawAndEnd(old(View()))
      ensures mgr.pComposition == null || mgr.pComposition == old(mgr.pComposition)
    {
      var raw := engine.answers.raw(engine.ops);
      if raw == "" { return false; }
      CommitEditSession(raw);
      engine.Reset();
      digitLed := false;
      return true;
    }

    method Reset()
      requires engine.answers == cfg.engine && (mgr.pContext != null ==> mgr.pContext == ctx)
      requires ctx.refs == ctx.others + (if mgr.pContext == null then 0 else 1)
      modifies this, mgr, ctx, mgr.pComposition, engine
      ensures Valid() && engine == old(engine) && View() == ResetAll(old(View()))
      ensures mgr.pComposition == null
    {
      engine.Reset();
      mgr.TerminateComposition(ctx);
      digitLed := false;
    }

    /** ITfCompositionSink: the host ended `comp`, which may or may not be the one held. */
    method OnCompositionTerminated(comp: TsfComposition)
      requires Valid()
      modifies this, mgr, ctx, mgr.pComposition, engine, comp
      ensures Valid() && engine == old(engine) && View() == ResetAll(old(View()))
      ensures old(mgr.pComposition) == comp ==> comp.refs == 0
      ensures mgr.pComposition == null
      ensures KeepsObjects()
    {
      mgr.ReleaseTerminated(comp);
      Reset();
    }

    method ResetCommitUndo()
      modifies this`undoState, this`lastCommit
      ensures View() == old(View()).(undo := ResetUndo(old(View()).undo))
    {
      if undoState.NoUndo? { return; }
      undoState, lastCommit := NoUndo, NO_COMMIT;
    }

    method TryRestoreLastCommitRaw(now: nat) returns (ok: bool)
      requires Valid()
      modifies this`undoState, this`lastCommit, ctx`doc
      ensures Valid() && engine == old(engine) && (View(), ok) == TryRestore(old(View()), now)
    {
      if !undoState.Primed? { return false; }
      if !WithinUndoWindow(Undo(undoState, lastCommit), now) || lastCommit.text == "" || lastCommit.raw == "" {
        ResetCommitUndo();
        return false;
      }
      var body := lastCommit.text;
      if lastCommit.trailing && body != "" {
        body := body[..|body| - 1];
      }
      // EscRestoreLastCommitSession: shift the selection back over the body and replace it.
      if body != "" && |body| <= |ctx.doc.pre| {
        ctx.doc := ctx.doc.(pre := ctx.doc.pre[..|ctx.doc.pre| - |body|] + lastCommit.raw);
      }
      ResetCommitUndo();
      return true;
    }

    // ----- settings -----

    method ApplySharedState(r: Reload)
      requires Valid()
      modifies this, engine
      ensures Valid() && View() == ApplyShared(old(View()), r)
      ensures fresh(engine)
      ensures KeepsObjects()
    {
      hide MethodOf, CompositionManager.Valid, CompositionManager.Balanced;
      engineEnabled, vietnamese := r.enabled, r.vietnamese;
      cfg := r.cfg.(input := MethodOf(r.rawMethod));
      if engine.answers.count(engine.ops) > 0 {
        var dropped := engine.Commit();
      }
      engine := new InputEngine(cfg.engine);
    }

    method CheckConfigEvent(r: Option<Reload>)
      requires Valid()
      modifies this, engine
      ensures Valid() && View() == CheckConfig(old(View()), r)
      ensures KeepsObjects()
    {
      if r.Some? {
        ApplySharedState(r.value);
      }
    }

    /** RefreshFlags: re-read the window class and the shared flags; a re-enabled engine reloads its settings. */
    method RefreshFlags(f: Focus)
      requires Valid()
      modifies this, engine
      ensures Valid() && View() == TsfModel.RefreshFlags(old(View()), f)
      ensures KeepsObjects()
    {
      scintilla := f.scintilla;
      if f.shared.None? {
        engineEnabled := false;
        return;
      }
      var wasEnabled := engineEnabled;
      engineEnabled, vietnamese := f.shared.value.enabled, f.shared.value.vietnamese;
      if !wasEnabled && engineEnabled {
        ApplySharedState(f.shared.value);
      }
    }

    // ----- keys -----

    method WantKey(e: KeyEvent) returns (want: bool)
      requires Valid()
      modifies this
      ensures Valid() && engine == old(engine) && (View(), want) == TsfModel.WantKey(old(View()), e)
    {
      hide DigitLed.Decide, IsLetterKey;
      if !abiOk { return false; }
      if !e.flags.connected { return false; }
      if !e.flags.enabled { return false; }
      tsfActive := e.flags.tsfActive;
      if !tsfActive { return false; }
      vietnamese := e.flags.vietnamese;
      if !vietnamese { return false; }
      if e.ctrl || e.alt || e.win { return false; }
      var engineHasComp := engine.answers.count(engine.ops) > 0;
      match DigitLed.Decide(e.vk, e.shift, !engineHasComp, cfg.input, digitLed) {
        case Arm => digitLed := true; return false;
        case Bypass => return false;
        case Reset => digitLed := false; return false;
        case Continue =>
      }
      if IsLetterKey(e.vk) { return true; }
      if ClaimsDigit(e) && engineHasComp { return true; }
      if e.vk == VK_BACK { return engineHasComp; }
      if e.vk == VK_SPACE {
        if scintilla { return false; }
        return engineHasComp;
      }
      return false;
    }

    method PrepareBackspaceRevive(e: KeyEvent) returns (armed: bool)
      requires Valid()
      modifies this`pending
      ensures Valid() && engine == old(engine) && (View(), armed) == PrepareRevive(old(View()), e)
    {
      hide WordBefore;
      pending := None;
      if !engineEnabled || !tsfActive || !vietnamese { return false; }
      if contextBlocked { return false; }
      if engine.answers.count(engine.ops) > 0 { return false; }
      if scintilla { return false; }
      var word := ReadPrecedingWord(e.selection, 16);
      if word == "" { return false; }
      if !cfg.engine.seeds(word) || cfg.engine.english(word) { return false; }
      pending := Some((word, |ctx.doc.pre| - |word|));
      return true;
    }

    /** ReadPrecedingWordEditSession: the word at the end of the last `max` characters before the caret. */
    method ReadPrecedingWord(selection: bool, max: nat) returns (word: string)
      ensures word == WordBefore(View(), selection, max)
    {
      if selection { return []; }
      var buf := Window(ctx.doc.pre, max);
      var wordlen := CountVietLetters(buf);
      word := buf[|buf| - wordlen..];
    }

    method ProcessBackspace(e: KeyEvent)
      requires Valid()
      modifies mgr, ctx, mgr.pComposition, engine
      ensures Valid() && View() == TsfModel.ProcessBackspace(old(View()), e)
      ensures KeepsObjects()
    {
      engine.Backspace();
      if engine.answers.count(engine.ops) > 0 {
        UpdateCompositionEditSession(engine.answers.peek(engine.ops), e.startOk);
      } else {
        CommitEditSession("");
      }
    }

    method HandleKey(e: KeyEvent) returns (eaten: bool)
      requires Valid()
      modifies this, mgr, ctx, mgr.pComposition, engine
      ensures Valid() && engine == old(engine) && (View(), eaten) == TsfModel.HandleKey(old(View()), e)
      ensures KeepsObjects()
    {
      if e.vk == VK_BACK {
        if pending.Some? {
          ReviveEditSession(pending.value.0, pending.value.1, Back, e);
          pending := None;
          return true;
        }
        ProcessBackspace(e);
        return true;
      }
      if e.vk == VK_SPACE {
        CommitWithChar(' ', e.now);
        return true;
      }
      if IsLetterKey(e.vk) {
        eaten := HandleLetter(e);
        return eaten;
      }
      if ClaimsDigit(e) && engine.answers.count(engine.ops) > 0 {
        engine.PushChar(e.vk as char);
        if mgr.pComposition != null {
          mgr.SetCompositionText(ctx, engine.answers.peek(engine.ops));
        }
        return true;
      }
      return false;
    }

    /** Pushes `ch` and shows the composition; if the host refuses to start one, the engine is reset. */
    method PushAndShow(ch: char, e: KeyEvent) returns (eaten: bool)
      requires Valid()
      modifies mgr, ctx, mgr.pComposition, engine
      ensures Valid() && (View(), eaten) == PushEdit(old(View()), ch, e)
      ensures KeepsObjects()
    {
      engine.PushChar(ch);
      var composition := engine.answers.peek(engine.ops);
      if mgr.pComposition == null {
        UpdateCompositionEditSession(composition, e.startOk);
        if mgr.pComposition == null {
          engine.Reset();
          return false;
        }
      } else {
        UpdateCompositionEditSession(composition, e.startOk);
      }
      return true;
    }

    /** InspectPrecedingTextEditSession: the word before the caret and the auto-capitalise decision in one read. */
    method InspectPrecedingText(selection: bool) returns (word: string, shouldAutoCap: bool)
      ensures word == WordBefore(View(), selection, 64)
      ensures shouldAutoCap == (!selection && AutoCap.ShouldAutoCap(Window(ctx.doc.pre, 64)))
    {
      word := ReadPrecedingWord(selection, 64);
      if selection { return word, false; }
      var trigger := AutoCap.ClassifyCapTrigger(Window(ctx.doc.pre, 64));
      shouldAutoCap := !trigger.NoTrigger?;
    }

    /** The word to revive, if a new composition starts behind one; otherwise "". */
    method RevivableWord(e: KeyEvent) returns (word: string, shouldAutoCap: bool)
      requires Valid()
      ensures word != "" <==> Revivable(View(), WordBefore(View(), e.selection, 64))
      ensures word != "" ==> word == WordBefore(View(), e.selection, 64)
      ensures shouldAutoCap == ShouldAutoCapHere(View(), e)
    {
      hide WordBefore, Window, AutoCap.ShouldAutoCap;
      word, shouldAutoCap := InspectPrecedingText(e.selection);
      if word != "" && (!cfg.engine.seeds(word) || cfg.engine.english(word)) {
        word := "";
      }
    }

    /** Shift inverts Caps Lock. */
    method LetterFor(e: KeyEvent) returns (ch: char)
      requires IsLetterKey(e.vk)
      ensures ch == TypedLetter(e)
    {
      var upper := e.shift != e.caps;
      ch := e.vk as char;
      if !upper {
        ch := (e.vk + 32) as char;
      }
    }

    method HandleLetter(e: KeyEvent) returns (eaten: bool)
      requires Valid() && IsLetterKey(e.vk)
      modifies mgr, ctx, mgr.pComposition, engine
      ensures Valid() && (View(), eaten) == TsfModel.HandleLetter(old(View()), e)
      ensures KeepsObjects()
    {
      hide PushEdit, ReviveEdit, WordBefore, Revivable, ShouldAutoCapHere, TypedLetter;
      var ch := LetterFor(e);
      if engine.answers.count(engine.ops) == 0 && mgr.pComposition == null && !scintilla {
        var word, shouldAutoCap := RevivableWord(e);
        if word != "" {
          ReviveEditSession(word, |ctx.doc.pre| - |word|, Push(ch), e);
          return true;
        }
        if cfg.autoCaps && shouldAutoCap {
          ch := e.vk as char;
        }
      }
      eaten := PushAndShow(ch, e);
    }
  }

  /** The later halves of the handlers take the controller state apart from the sink; the sink's own copy
      is not read. */
  lemma SinkCopyUnread(s: Sink, c0: Ctl, c: Ctl, e: KeyEvent)
    ensures TestPlainKey(s.(ctl := c0), c, e) == TestPlainKey(s, c, e)
    ensures KeyPlain(s.(ctl := c0), c, e) == KeyPlain(s, c, e)
  {
    hide TsfModel.WantKey, PrepareRevive, TsfModel.Commit, TsfModel.HandleKey;
  }

  lemma SinkCopyUnreadOnceWanted(s: Sink, c0: Ctl, c: Ctl, want: bool, e: KeyEvent)
    ensures TestWanted(s.(ctl := c0), c, want, e) == TestWanted(s, c, want, e)
  {
    hide PrepareRevive, TsfModel.Commit;
  }

  lemma SinkCopyUnreadByTest(s: Sink, c0: Ctl, c: Ctl, e: KeyEvent)
    ensures TestResynced(s.(ctl := c0), c, e) == TestResynced(s, c, e)
    ensures KeyUnrestored(s.(ctl := c0), c, e) == KeyUnrestored(s, c, e)
    ensures TestOpen(s.(ctl := c0), c, e) == TestOpen(s, c, e)
    ensures KeyOpen(s.(ctl := c0), c, e) == KeyOpen(s, c, e)
  {
    hide TestPlainKey, KeyPlain, TsfModel.Commit, TsfModel.CommitWithChar, EscapeRaw, Resync;
    SinkCopyUnread(s, c0, EscapeRaw(c, e).0, e);
    SinkCopyUnread(s, c0, c, e);
    SinkCopyUnread(s, c0, EscapeRaw(Resync(c.(undo := AfterOtherKey(c.undo, e)), e.now), e).0, e);
  }

  /** The keystroke sink: the two key handlers, with the caches that carry a test's answer to its key-down. */
  class KeyEventSink {
    const controller: EngineController
    var lastTestedVk: nat
    var lastWantKeyResult: bool
    var lastPunctChar: Option<char>

    constructor (controller: EngineController)
      ensures this.controller == controller && lastTestedVk == 0 && !lastWantKeyResult && lastPunctChar.None?
    {
      this.controller := controller;
      lastTestedVk, lastWantKeyResult, lastPunctChar := 0, false, None;
    }

    ghost function View(): Sink
      reads this, controller, controller.ctx, controller.engine
    {
      Sink(controller.View(), lastTestedVk, lastWantKeyResult, lastPunctChar)
    }

    method OnTestKeyDown(e: KeyEvent) returns (eaten: bool)
      requires controller.Valid()
      modifies this, controller, controller.mgr, controller.ctx, controller.mgr.pComposition, controller.engine
      ensures controller.Valid() && (View(), eaten) == TsfModel.OnTestKeyDown(old(View()), e)
      ensures controller.KeepsObjects()
    {
      hide EngineController.Valid, TestOpen, CheckConfig;
      controller.Agrees();
      controller.CheckConfigEvent(e.reload);
      lastPunctChar := None;
      if controller.contextBlocked { return false; }
      SinkCopyUnreadByTest(old(View()).(punct := None), controller.View(), controller.View(), e);
      eaten := TestUnblocked(e);
    }

    method TestUnblocked(e: KeyEvent) returns (eaten: bool)
      requires controller.Valid()
      modifies this, controller, controller.mgr, controller.ctx, controller.mgr.pComposition, controller.engine
      ensures controller.Valid() && (View(), eaten) == TestOpen(old(View()), old(controller.View()), e)
      ensures controller.engine == old(controller.engine) && controller.KeepsObjects()
    {
      hide EngineController.Valid, TestResynced, TsfModel.Commit, Resync;
      controller.Agrees();
      var engine := controller.engine;
      if e.vk == VK_BACK && engine.answers.count(engine.ops) > 0 && controller.cfg.suggestKeep && e.selection {
        controller.Commit(e.now);
        lastTestedVk, lastWantKeyResult := e.vk, false;
        return false;
      }
      if e.vk != VK_BACK && e.vk != VK_ESCAPE {
        controller.ResetCommitUndo();
      }
      Recover(e.now);
      SinkCopyUnreadByTest(old(View()), controller.View(), controller.View(), e);
      eaten := TestAfterRecovery(e);
    }

    /** The desync repairs: keys without a composition are forgotten, a composition without keys is committed. */
    method Recover(now: nat)
      requires controller.Valid()
      modifies controller, controller.mgr, controller.ctx, controller.mgr.pComposition, controller.engine
      ensures controller.Valid() && controller.View() == Resync(old(controller.View()), now)
      ensures controller.engine == old(controller.engine) && controller.KeepsObjects()
    {
      hide EngineController.Valid, TsfModel.Commit, ResetAll;
      controller.Agrees();
      var engine := controller.engine;
      var isComposing := controller.mgr.pComposition != null;
      var hasBuffer := engine.answers.count(engine.ops) > 0;
      if !isComposing && hasBuffer {
        controller.Reset();
      } else if isComposing && !hasBuffer {
        controller.Commit(now);
      }
    }

    method TestAfterRecovery(e: KeyEvent) returns (eaten: bool)
      requires controller.Valid()
      modifies this, controller, controller.mgr, controller.ctx, controller.mgr.pComposition, controller.engine
      ensures controller.Valid() && (View(), eaten) == TestResynced(old(View()), old(controller.View()), e)
      ensures controller.engine == old(controller.engine) && controller.KeepsObjects()
    {
      hide EngineController.Valid, TestPlainKey, TsfModel.Commit, EscapeRaw;
      controller.Agrees();
      var engine := controller.engine;
      if e.ctrl || e.alt || e.win {
        if engine.answers.count(engine.ops) > 0 {
          controller.Commit(e.now);
        }
        return false;
      }
      var restored := RestoreOnEscape(e);
      if restored { return true; }
      controller.Agrees();
      if IsPunctuationKey(e.vk) && engine.answers.count(engine.ops) > 0 {
        if !controller.ClaimsDigit(e) && e.printable.Some? {
          lastTestedVk, lastWantKeyResult, lastPunctChar := e.vk, true, e.printable;
          return true;
        }
      }
      SinkCopyUnread(old(View()), controller.View(), controller.View(), e);
      eaten := TestOrdinaryKey(e);
    }

    /** The Escape branch both handlers share. */
    method RestoreOnEscape(e: KeyEvent) returns (restored: bool)
      requires controller.Valid()
      modifies controller, controller.mgr, controller.ctx, controller.mgr.pComposition, controller.engine
      ensures controller.Valid() && (controller.View(), restored) == EscapeRaw(old(controller.View()), e)
      ensures controller.engine == old(controller.engine) && controller.KeepsObjects()
      ensures controller.mgr.pComposition == null || controller.mgr.pComposition == old(controller.mgr.pComposition)
    {
      hide EngineController.Valid, TryRestore, TsfModel.CommitRawAndEnd;
      controller.Agrees();
      var engine := controller.engine;
      if e.vk == VK_ESCAPE && controller.cfg.escRestore {
        if engine.answers.count(engine.ops) > 0 {
          restored := controller.CommitRawAndEnd();
          return restored;
        } else if controller.undoState.Primed?
                  && WithinUndoWindow(Undo(controller.undoState, controller.lastCommit), e.now) {
          restored := controller.TryRestoreLastCommitRaw(e.now);
          return restored;
        }
      }
      return false;
    }

    method TestOrdinaryKey(e: KeyEvent) returns (eaten: bool)
      requires controller.Valid()
      modifies this, controller, controller.mgr, controller.ctx, controller.mgr.pComposition, controller.engine
      ensures controller.Valid() && (View(), eaten) == TestPlainKey(old(View()), old(controller.View()), e)
      ensures controller.engine == old(controller.engine) && controller.KeepsObjects()
    {
      hide EngineController.Valid, TsfModel.WantKey, TestWanted;
      controller.Agrees();
      var wantKey := controller.WantKey(e);
      if e.vk == VK_BACK && controller.cfg.suggestKeep && e.selection {
        wantKey := false;
      }
      SinkCopyUnreadOnceWanted(old(View()), controller.View(), controller.View(), wantKey, e);
      eaten := TestOnceWanted(e, wantKey);
    }

    /** The rest of OnTestKeyDown, once WantKey has answered. */
    method TestOnceWanted(e: KeyEvent, claimed: bool) returns (eaten: bool)
      requires controller.Valid()
      modifies this, controller, controller.mgr, controller.ctx, controller.mgr.pComposition, controller.engine
      ensures controller.Valid() && (View(), eaten) == TestWanted(old(View()), old(controller.View()), claimed, e)
      ensures controller.engine == old(controller.engine) && controller.KeepsObjects()
    {
      hide EngineController.Valid, PrepareRevive, TsfModel.Commit, WithinUndoWindow;
      controller.Agrees();
      var engine := controller.engine;
      var wantKey := claimed;
      if e.vk == VK_BACK && engine.answers.count(engine.ops) == 0 {
        if controller.undoState.Ready?
           && WithinUndoWindow(Undo(controller.undoState, controller.lastCommit), e.now) {
          controller.undoState := Primed;
          lastTestedVk, lastWantKeyResult := e.vk, false;
          return false;
        }
        if controller.undoState.Primed? {
          controller.ResetCommitUndo();
        }
      }
      if !wantKey && e.vk == VK_BACK && engine.answers.count(engine.ops) == 0 {
        wantKey := controller.PrepareBackspaceRevive(e);
      }
      lastTestedVk, lastWantKeyResult := e.vk, wantKey;
      if !wantKey && engine.answers.count(engine.ops) > 0 {
        controller.Commit(e.now);
        return false;
      }
      return wantKey;
    }

    method OnKeyDown(e: KeyEvent) returns (eaten: bool)
      requires controller.Valid()
      modifies this, controller, controller.mgr, controller.ctx, controller.mgr.pComposition, controller.engine
      ensures controller.Valid() && (View(), eaten) == TsfModel.OnKeyDown(old(View()), e)
      ensures controller.KeepsObjects()
    {
      hide EngineController.Valid, KeyOpen, CheckConfig;
      controller.Agrees();
      controller.CheckConfigEvent(e.reload);
      if e.ctrl || e.alt || e.win { return false; }
      SinkCopyUnreadByTest(old(View()), controller.View(), controller.View(), e);
      eaten := KeyWithoutChord(e);
    }

    method KeyWithoutChord(e: KeyEvent) returns (eaten: bool)
      requires controller.Valid()
      modifies this, controller, controller.mgr, controller.ctx, controller.mgr.pComposition, controller.engine
      ensures controller.Valid() && (View(), eaten) == KeyOpen(old(View()), old(controller.View()), e)
      ensures controller.engine == old(controller.engine) && controller.KeepsObjects()
    {
      hide EngineController.Valid, TsfModel.Commit, EscapeRaw, KeyUnrestored;
      controller.Agrees();
      var engine := controller.engine;
      if e.vk == VK_BACK && engine.answers.count(engine.ops) > 0 && controller.cfg.suggestKeep && e.selection {
        controller.Commit(e.now);
        lastTestedVk, lastPunctChar := 0, None;
        return false;
      }
      var restored := RestoreOnEscape(e);
      if restored { return true; }
      SinkCopyUnreadByTest(old(View()), controller.View(), controller.View(), e);
      eaten := KeyAfterEscape(e);
    }

    method KeyAfterEscape(e: KeyEvent) returns (eaten: bool)
      requires controller.Valid()
      modifies this, controller, controller.mgr, controller.ctx, controller.mgr.pComposition, controller.engine
      ensures controller.Valid() && (View(), eaten) == KeyUnrestored(old(View()), old(controller.View()), e)
      ensures controller.engine == old(controller.engine) && controller.KeepsObjects()
    {
      hide EngineController.Valid, TsfModel.CommitWithChar, KeyPlain, IsPunctuationKey, UsesDigits;
      controller.Agrees();
      var engine := controller.engine;
      if IsPunctuationKey(e.vk) && engine.answers.count(engine.ops) > 0 && !controller.ClaimsDigit(e) {
        var ch := if e.vk == lastTestedVk && lastPunctChar.Some? then lastPunctChar else e.printable;
        if ch.Some? {
          controller.CommitWithChar(ch.value, e.now);
          lastTestedVk, lastPunctChar := 0, None;
          return true;
        }
      }
      eaten := HandleOrdinaryKey(e);
    }

    method HandleOrdinaryKey(e: KeyEvent) returns (eaten: bool)
      requires controller.Valid()
      modifies this, controller, controller.mgr, controller.ctx, controller.mgr.pComposition, controller.engine
      ensures controller.Valid() && (View(), eaten) == KeyPlain(old(View()), old(controller.View()), e)
      ensures controller.engine == old(controller.engine) && controller.KeepsObjects()
    {
      hide EngineController.Valid, TsfModel.WantKey, TsfModel.HandleKey, TsfModel.Commit;
      controller.Agrees();
      var engine := controller.engine;
      var wantKey := false;
      if e.vk == lastTestedVk {
        wantKey := lastWantKeyResult;
      } else {
        wantKey := controller.WantKey(e);
        controller.Agrees();
        if wantKey && e.vk == VK_BACK && controller.cfg.suggestKeep && e.selection {
          wantKey := false;
        }
      }
      lastTestedVk, lastPunctChar := 0, None;
      if !wantKey && engine.answers.count(engine.ops) > 0 {
        controller.Commit(e.now);
        return false;
      }
      if !wantKey { return false; }
      eaten := controller.HandleKey(e);
    }

    method OnSetFocus(f: Focus)
      requires controller.Valid()
      modifies this, controller, controller.engine
      ensures controller.Valid() && View() == TsfModel.OnSetFocus(old(View()), f)
      ensures controller.KeepsObjects()
    {
      if f.foreground {
        controller.CheckConfigEvent(f.reload);
        controller.RefreshFlags(f);
      }
      controller.ResetCommitUndo();
    }
  }
}
