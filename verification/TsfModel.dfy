/**
  The key-event protocol of the text service as a state machine: the document around the caret, the
  live composition, the typing engine, the commit-undo cache, the digit-led flag and the sink's
  caches. Every function below specifies the method of the same name in TsfService.dfy.
 */
module TsfModel {
  import opened Keys
  import opened Options
  import opened AutoCap
  import opened DigitLed
  import opened VietLetters

  // ----- the document -----

  /** The text before the composition, the composition, and the text after it. The caret stands
      directly behind `comp` (behind `pre` when nothing is composed). */
  datatype Doc = Doc(pre: string, comp: Option<string>, post: string)

  function StartComp(d: Doc): Doc {
    EndComp(d).(comp := Some(""))
  }

  function SetComp(d: Doc, text: string): Doc {
    if d.comp.Some? then d.(comp := Some(text)) else d
  }

  function EndComp(d: Doc): Doc {
    if d.comp.Some? then Doc(d.pre + d.comp.value, None, d.post) else d
  }

  /** Moves the start of the (fresh) composition back over the text from offset `at`. */
  function CoverFrom(d: Doc, at: nat): Doc {
    if d.comp.Some? && at <= |d.pre| then Doc(d.pre[..at], Some(d.pre[at..] + d.comp.value), d.post) else d
  }

  /** CommitEditSession: set the final text and end, or drop the text when nothing is composed. */
  function CommitEdit(d: Doc, text: string): Doc {
    EndComp(SetComp(d, text))
  }

  // ----- the engine -----

  /** A call made on the engine since its last reset. */
  datatype Op = Push(c: char) | Back | Seed(word: string)

  /** An engine is what it answers, as a function of the calls made since its last reset. */
  datatype Engine = Engine(
    peek: seq<Op> -> string,
    raw: seq<Op> -> string,
    commit: seq<Op> -> string,
    count: seq<Op> -> nat,
    seeds: string -> bool,
    english: string -> bool)

  function CountAfter(e: Engine, h: seq<Op>, op: Op): nat {
    e.count(h + [op])
  }

  /** What the engine interface promises of counting: reset empties it, a pushed key leaves it non-empty,
      and a backspace never fills it. */
  ghost predicate Counts(e: Engine) {
    && e.count([]) == 0
    && e.raw([]) == ""
    && (forall h: seq<Op>, c: char {:trigger CountAfter(e, h, Push(c))} :: CountAfter(e, h, Push(c)) > 0)
    && (forall h: seq<Op> {:trigger CountAfter(e, h, Back)} :: e.count(h) == 0 ==> CountAfter(e, h, Back) == 0)
  }

  /** And of seeding: any word of letters is accepted, and no other, whatever the settings. */
  ghost predicate Lawful(e: Engine) {
    && Counts(e)
    && (forall w: string {:trigger e.seeds(w)} :: e.seeds(w) <==> AllLetters(w))
  }

  // ----- configuration and events -----

  datatype Config = Config(engine: Engine, input: InputMethod, escRestore: bool, suggestKeep: bool, autoCaps: bool)

  /** The flags a key handler reads live from shared memory. */
  datatype Flags = Flags(connected: bool, enabled: bool, tsfActive: bool, vietnamese: bool)

  /** A settings change noticed by CheckConfigEvent. */
  datatype Reload = Reload(enabled: bool, vietnamese: bool, rawMethod: nat, cfg: Config)

  /** What the host does with a key it gets back. */
  datatype HostEdit = Inserts(c: char) | DeletesOne | LeavesText | Edits(pre: string, post: string)

  datatype KeyEvent = KeyEvent(
    vk: nat, shift: bool, ctrl: bool, alt: bool, win: bool, caps: bool,
    printable: Option<char>,   // what VkToChar yields
    selection: bool,           // the selection is not empty
    flags: Flags,
    reload: Option<Reload>,
    startOk: bool,             // the host lets a composition start
    shiftOk: bool,             // the host lets its start be moved
    now: nat,                  // milliseconds
    host: HostEdit)

  predicate Chord(e: KeyEvent) {
    e.ctrl || e.alt || e.win
  }

  // ----- the controller -----

  datatype UndoState = NoUndo | Ready | Primed

  /** `stamp` is the instant of the commit; the field in the service holds TickCount(stamp). */
  datatype LastCommit = LastCommit(text: string, raw: string, trailing: bool, stamp: nat)

  const NO_COMMIT := LastCommit("", "", false, 0)

  datatype Undo = Undo(state: UndoState, last: LastCommit)

  const IDLE := Undo(NoUndo, NO_COMMIT)

  /** The controller's own copies of the flags that gate it. */
  datatype Modes = Modes(abiOk: bool, engineEnabled: bool, tsfActive: bool, vietnamese: bool)

  datatype Ctl = Ctl(
    buf: seq<Op>, doc: Doc, cfg: Config, modes: Modes,
    blocked: bool, scintilla: bool, digitLed: bool,
    undo: Undo, pending: Option<(Word, nat)>)

  function Count(c: Ctl): nat {
    c.cfg.engine.count(c.buf)
  }

  predicate Composing(c: Ctl) {
    c.doc.comp.Some?
  }

  const TICK_WRAP := 0x1_0000_0000
  const UNDO_TIMEOUT := 1500

  /** GetTickCount wraps after 2^32 milliseconds. */
  function TickCount(now: nat): nat {
    now % TICK_WRAP
  }

  predicate WithinUndoWindow(u: Undo, now: nat) {
    !u.state.NoUndo? && (TickCount(now) - TickCount(u.last.stamp)) % TICK_WRAP <= UNDO_TIMEOUT
  }

  function ResetUndo(u: Undo): Undo {
    if u.state.NoUndo? then u else IDLE
  }

  function RecordCommit(text: string, raw: string, trailing: bool, now: nat): Undo {
    if text == "" || raw == "" then IDLE
    else Undo(if trailing then Ready else NoUndo, LastCommit(text, raw, trailing, now))
  }

  function CommitText(c: Ctl, text: string, trailing: bool, now: nat): Ctl {
    c.(doc := CommitEdit(c.doc, text), buf := [], digitLed := false,
       undo := RecordCommit(text, c.cfg.engine.raw(c.buf), trailing, now))
  }

  function Commit(c: Ctl, now: nat): Ctl {
    CommitText(c, c.cfg.engine.commit(c.buf), false, now)
  }

  function CommitWithChar(c: Ctl, ch: char, now: nat): Ctl {
    var append := ch != '\0';
    CommitText(c, c.cfg.engine.commit(c.buf) + if append then [ch] else "", append, now)
  }

  function CommitRawAndEnd(c: Ctl): (Ctl, bool) {
    var raw := c.cfg.engine.raw(c.buf);
    if raw == "" then (c, false)
    else (c.(doc := CommitEdit(c.doc, raw), buf := [], digitLed := false), true)
  }

  /** Reset: forget the engine's buffer and drop the composition; its text stays where it is. */
  function ResetAll(c: Ctl): Ctl {
    c.(buf := [], doc := EndComp(c.doc), digitLed := false)
  }

  function ApplyShared(c: Ctl, r: Reload): Ctl {
    c.(modes := c.modes.(engineEnabled := r.enabled, vietnamese := r.vietnamese),
       cfg := r.cfg.(input := MethodOf(r.rawMethod)), buf := [])
  }

  function CheckConfig(c: Ctl, r: Option<Reload>): Ctl {
    if r.Some? then ApplyShared(c, r.value) else c
  }

  predicate IsEngineDigitKey(c: Ctl, e: KeyEvent) {
    UsesDigits(c.cfg.input) && VK_0 <= e.vk <= VK_9 && !e.shift
  }

  function WantKey(c: Ctl, e: KeyEvent): (Ctl, bool) {
    if !c.modes.abiOk || !e.flags.connected || !e.flags.enabled then (c, false)
    else if !e.flags.tsfActive then (c.(modes := c.modes.(tsfActive := false)), false)
    else
      var c := c.(modes := c.modes.(tsfActive := true, vietnamese := e.flags.vietnamese));
      if !e.flags.vietnamese || Chord(e) then (c, false)
      else
        var live := Count(c) > 0;
        match DigitLed.Decide(e.vk, e.shift, !live, c.cfg.input, c.digitLed)
        case Arm => (c.(digitLed := true), false)
        case Bypass => (c, false)
        case Reset => (c.(digitLed := false), false)
        case Continue =>
          if IsLetterKey(e.vk) then (c, true)
          else if IsEngineDigitKey(c, e) && live then (c, true)
          else if e.vk == VK_BACK then (c, live)
          else if e.vk == VK_SPACE then (c, !c.scintilla && live)
          else (c, false)
  }

  // ----- reviving a word before the caret -----

  /** How many of the last characters of `t` are Vietnamese letters. */
  function VietSuffix(t: string): (n: nat)
    ensures n <= |t| && AllLetters(t[|t| - n..])
  {
    if t == [] || !IsVietLetter(t[|t| - 1]) then 0
    else
      var n := VietSuffix(t[..|t| - 1]);
      OneMoreLetter(t, n);
      1 + n
  }

  lemma OneMoreLetter(t: string, n: nat)
    requires n < |t| && IsVietLetter(t[|t| - 1]) && AllLetters(t[..|t| - 1][|t| - 1 - n..])
    ensures AllLetters(t[|t| - 1 - n..])
  {
    hide IsVietLetter;
    var front, w := t[..|t| - 1][|t| - 1 - n..], t[|t| - 1 - n..];
    forall i | 0 <= i < |w| ensures IsVietLetter(w[i]) {
      assert i < n ==> w[i] == front[i];
    }
  }

  function Window(t: string, max: nat): (w: string)
    ensures |w| <= |t| && w == t[|t| - |w|..]
  {
    if |t| <= max then t else t[|t| - max..]
  }

  /** The Vietnamese word that ends at the caret, looking back at most `max` characters. */
  function WordBefore(c: Ctl, selection: bool, max: nat): (w: string)
    ensures |w| <= |c.doc.pre| && w == c.doc.pre[|c.doc.pre| - |w|..] && AllLetters(w)
  {
    if selection then []
    else
      var t := Window(c.doc.pre, max);
      t[|t| - VietSuffix(t)..]
  }

  predicate Revivable(c: Ctl, w: string) {
    w != "" && c.cfg.engine.seeds(w) && !c.cfg.engine.english(w)
  }

  function PrepareRevive(c0: Ctl, e: KeyEvent): (Ctl, bool) {
    var c := c0.(pending := None);
    if !c.modes.engineEnabled || !c.modes.tsfActive || !c.modes.vietnamese || c.blocked || Count(c) > 0
       || c.scintilla
    then (c, false)
    else
      var w := WordBefore(c, e.selection, 16);
      if Revivable(c, w) then (c.(pending := Some((w, |c.doc.pre| - |w|))), true) else (c, false)
  }

  /** Starts a composition over the text from offset `at`, seeds the engine with `w` and applies `op`. */
  function ReviveEdit(c: Ctl, w: string, at: nat, op: Op, e: KeyEvent): Ctl {
    if w == "" then c
    else if !c.cfg.engine.seeds(w) then c.(buf := [])
    else if !e.startOk || !e.shiftOk then c.(buf := [], doc := EndComp(c.doc))
    else
      var buf := [Seed(w), op];
      var doc := SetComp(CoverFrom(StartComp(c.doc), at), c.cfg.engine.peek(buf));
      c.(buf := buf, doc := if c.cfg.engine.count(buf) == 0 then EndComp(doc) else doc)
  }

  // ----- handling a wanted key -----

  /** UpdateCompositionEditSession: starts a composition first when there is none. */
  function UpdateEdit(d: Doc, text: string, startOk: bool): Doc {
    if d.comp.Some? then SetComp(d, text)
    else if startOk then SetComp(StartComp(d), text)
    else d
  }

  function ProcessBackspace(c: Ctl, e: KeyEvent): Ctl {
    var buf := c.buf + [Back];
    var doc := if c.cfg.engine.count(buf) > 0 then UpdateEdit(c.doc, c.cfg.engine.peek(buf), e.startOk)
               else CommitEdit(c.doc, "");
    c.(buf := buf, doc := doc)
  }

  function LowerLetter(vk: nat): char
    requires IsLetterKey(vk)
  {
    (vk + 32) as char
  }

  function TypedLetter(e: KeyEvent): char
    requires IsLetterKey(e.vk)
  {
    if e.shift != e.caps then e.vk as char else LowerLetter(e.vk)
  }

  /** Pushes one character and shows the result, starting a composition when there is none. */
  function PushEdit(c: Ctl, ch: char, e: KeyEvent): (Ctl, bool) {
    var buf := c.buf + [Push(ch)];
    if c.doc.comp.None? && !e.startOk then (c.(buf := []), false)
    else (c.(buf := buf, doc := UpdateEdit(c.doc, c.cfg.engine.peek(buf), e.startOk)), true)
  }

  function ShouldAutoCapHere(c: Ctl, e: KeyEvent): bool {
    !e.selection && ShouldAutoCap(Window(c.doc.pre, 64))
  }

  function HandleLetter(c: Ctl, e: KeyEvent): (Ctl, bool)
    requires IsLetterKey(e.vk)
  {
    var ch := TypedLetter(e);
    if Count(c) == 0 && !Composing(c) && !c.scintilla then
      var w := WordBefore(c, e.selection, 64);
      if Revivable(c, w) then (ReviveEdit(c, w, |c.doc.pre| - |w|, Push(ch), e), true)
      else PushEdit(c, if c.cfg.autoCaps && ShouldAutoCapHere(c, e) then e.vk as char else ch, e)
    else PushEdit(c, ch, e)
  }

  function HandleKey(c: Ctl, e: KeyEvent): (Ctl, bool) {
    if e.vk == VK_BACK then
      if c.pending.Some? then
        (ReviveEdit(c, c.pending.value.0, c.pending.value.1, Back, e).(pending := None), true)
      else (ProcessBackspace(c, e), true)
    else if e.vk == VK_SPACE then (CommitWithChar(c, ' ', e.now), true)
    else if IsLetterKey(e.vk) then HandleLetter(c, e)
    else if IsEngineDigitKey(c, e) && Count(c) > 0 then
      var buf := c.buf + [Push(e.vk as char)];
      (c.(buf := buf, doc := SetComp(c.doc, c.cfg.engine.peek(buf))), true)
    else (c, false)
  }

  // ----- restoring the last commit -----

  function Body(l: LastCommit): string {
    if l.trailing && l.text != "" then l.text[..|l.text| - 1] else l.text
  }

  /** EscRestoreLastCommitSession: replaces the |body| characters before the caret, if there are that many. */
  function RestoreEdit(d: Doc, body: string, raw: string): Doc {
    if body == "" || |body| > |d.pre| then d else d.(pre := d.pre[..|d.pre| - |body|] + raw)
  }

  function TryRestore(c: Ctl, now: nat): (Ctl, bool) {
    var l := c.undo.last;
    if !c.undo.state.Primed? then (c, false)
    else if !WithinUndoWindow(c.undo, now) || l.text == "" || l.raw == "" then (c.(undo := ResetUndo(c.undo)), false)
    else (c.(doc := RestoreEdit(c.doc, Body(l), l.raw), undo := ResetUndo(c.undo)), true)
  }

  // ----- the key event sink -----

  datatype Sink = Sink(ctl: Ctl, testedVk: nat, wantResult: bool, punct: Option<char>)

  function Remember(s: Sink, c: Ctl, vk: nat, want: bool): Sink {
    s.(ctl := c, testedVk := vk, wantResult := want)
  }

  /** The recovery step at the start of a test: after it the engine is non-empty iff a composition is live. */
  function Resync(c: Ctl, now: nat): Ctl {
    if !Composing(c) && Count(c) > 0 then ResetAll(c)
    else if Composing(c) && Count(c) == 0 then Commit(c, now)
    else c
  }

  predicate DismissesSuggestion(c: Ctl, e: KeyEvent) {
    e.vk == VK_BACK && Count(c) > 0 && c.cfg.suggestKeep && e.selection
  }

  /** The Escape branch both handlers share; `None` means the key was not claimed. */
  function EscapeRaw(c: Ctl, e: KeyEvent): (Ctl, bool) {
    if e.vk != VK_ESCAPE || !c.cfg.escRestore then (c, false)
    else if Count(c) > 0 then CommitRawAndEnd(c)
    else if c.undo.state.Primed? && WithinUndoWindow(c.undo, e.now) then TryRestore(c, e.now)
    else (c, false)
  }

  predicate CommitsPunctuation(c: Ctl, e: KeyEvent) {
    IsPunctuationKey(e.vk) && Count(c) > 0 && !IsEngineDigitKey(c, e)
  }

  predicate KeptBySuggestion(c: Ctl, e: KeyEvent) {
    e.vk == VK_BACK && c.cfg.suggestKeep && e.selection
  }

  function OnTestKeyDown(s0: Sink, e: KeyEvent): (Sink, bool) {
    var c := CheckConfig(s0.ctl, e.reload);
    var s := s0.(punct := None);
    if c.blocked then (s.(ctl := c), false) else TestOpen(s, c, e)
  }

  /** OnTestKeyDown in a context that does not block input. */
  function TestOpen(s: Sink, c: Ctl, e: KeyEvent): (Sink, bool) {
    if DismissesSuggestion(c, e) then (Remember(s, Commit(c, e.now), e.vk, false), false)
    else TestResynced(s, Resync(c.(undo := AfterOtherKey(c.undo, e)), e.now), e)
  }

  /** OnNonRestoreKey: every key but Backspace and Escape drops the commit-undo cache. */
  function AfterOtherKey(u: Undo, e: KeyEvent): Undo {
    if e.vk != VK_BACK && e.vk != VK_ESCAPE then ResetUndo(u) else u
  }

  /** OnTestKeyDown after the recovery step. */
  function TestResynced(s: Sink, c: Ctl, e: KeyEvent): (Sink, bool) {
    if Chord(e) then (s.(ctl := if Count(c) > 0 then Commit(c, e.now) else c), false)
    else
      var (c, restored) := EscapeRaw(c, e);
      if restored then (s.(ctl := c), true)
      else if CommitsPunctuation(c, e) && e.printable.Some? then
        (Remember(s, c, e.vk, true).(punct := e.printable), true)
      else TestPlainKey(s, c, e)
  }

  /** The rest of OnTestKeyDown, for a key that is neither a chord, a restoring Escape nor committing punctuation. */
  function TestPlainKey(s: Sink, c: Ctl, e: KeyEvent): (Sink, bool) {
    var (c, want) := WantKey(c, e);
    TestWanted(s, c, want && !KeptBySuggestion(c, e), e)
  }

  /** OnTestKeyDown once WantKey has answered: undo and revive get their say on a Backspace. */
  function TestWanted(s: Sink, c: Ctl, want: bool, e: KeyEvent): (Sink, bool) {
    var lone := e.vk == VK_BACK && Count(c) == 0;
    if lone && c.undo.state.Ready? && WithinUndoWindow(c.undo, e.now) then
      (Remember(s, c.(undo := c.undo.(state := Primed)), e.vk, false), false)
    else
      var c := if lone && c.undo.state.Primed? then c.(undo := ResetUndo(c.undo)) else c;
      if !want && lone then
        var (c, armed) := PrepareRevive(c, e);
        (Remember(s, c, e.vk, armed), armed)
      else if !want && Count(c) > 0 then (Remember(s, Commit(c, e.now), e.vk, false), false)
      else (Remember(s, c, e.vk, want), want)
  }

  function OnKeyDown(s: Sink, e: KeyEvent): (Sink, bool) {
    var c := CheckConfig(s.ctl, e.reload);
    if Chord(e) then (s.(ctl := c), false) else KeyOpen(s, c, e)
  }

  /** OnKeyDown for a key without Ctrl, Alt or Win. */
  function KeyOpen(s: Sink, c: Ctl, e: KeyEvent): (Sink, bool) {
    if DismissesSuggestion(c, e) then (Sink(Commit(c, e.now), 0, s.wantResult, None), false)
    else
      var (c, restored) := EscapeRaw(c, e);
      if restored then (s.(ctl := c), true) else KeyUnrestored(s, c, e)
  }

  /** OnKeyDown after the Escape branch: committing punctuation, else the WantKey answer. */
  function KeyUnrestored(s: Sink, c: Ctl, e: KeyEvent): (Sink, bool) {
    var ch := if e.vk == s.testedVk && s.punct.Some? then s.punct else e.printable;
    if CommitsPunctuation(c, e) && ch.Some? then
      (Sink(CommitWithChar(c, ch.value, e.now), 0, s.wantResult, None), true)
    else KeyPlain(s, c, e)
  }

  /** The rest of OnKeyDown, for a key that reaches the cached or fresh WantKey answer. */
  function KeyPlain(s: Sink, c: Ctl, e: KeyEvent): (Sink, bool) {
    if e.vk == s.testedVk then KeyDecided(s, c, s.wantResult, e)
    else
      var (c, want) := WantKey(c, e);
      KeyDecided(s, c, want && !KeptBySuggestion(c, e), e)
  }

  function KeyDecided(s: Sink, c: Ctl, want: bool, e: KeyEvent): (Sink, bool) {
    if want then
      var (c, eaten) := HandleKey(c, e);
      (Sink(c, 0, s.wantResult, None), eaten)
    else (Sink(if Count(c) > 0 then Commit(c, e.now) else c, 0, s.wantResult, None), false)
  }

  /** A focus change: the settings change it may notice, the window class, and the shared state if readable. */
  datatype Focus = Focus(foreground: bool, reload: Option<Reload>, scintilla: bool, shared: Option<Reload>)

  function RefreshFlags(c0: Ctl, f: Focus): Ctl {
    var c := c0.(scintilla := f.scintilla);
    if f.shared.None? then c.(modes := c.modes.(engineEnabled := false))
    else
      var r := f.shared.value;
      var flagged := c.(modes := c.modes.(engineEnabled := r.enabled, vietnamese := r.vietnamese));
      if !c.modes.engineEnabled && r.enabled then ApplyShared(flagged, r) else flagged
  }

  function OnSetFocus(s: Sink, f: Focus): Sink {
    var c := if f.foreground then RefreshFlags(CheckConfig(s.ctl, f.reload), f) else s.ctl;
    s.(ctl := c.(undo := ResetUndo(c.undo)))
  }

  /** OnCompositionTerminated: the host ended a composition. */
  function OnTerminated(s: Sink): Sink {
    s.(ctl := ResetAll(s.ctl))
  }

  // ----- the host -----

  function HostApply(d: Doc, h: HostEdit): Doc {
    match h
    case Inserts(c) => d.(pre := d.pre + [c])
    case DeletesOne => if d.pre == "" then d else d.(pre := d.pre[..|d.pre| - 1])
    case LeavesText => d
    case Edits(pre, post) => Doc(pre, d.comp, post)
  }

  function HostGets(s: Sink, e: KeyEvent, eaten: bool): Sink {
    if eaten then s else s.(ctl := s.ctl.(doc := HostApply(s.ctl.doc, e.host)))
  }

  /** A host that tests a key first and delivers it only when the test claimed it. */
  function TestThenKey(s: Sink, e: KeyEvent): Sink {
    var (s1, claimed) := OnTestKeyDown(s, e);
    if !claimed then HostGets(s1, e, false)
    else
      var (s2, eaten) := OnKeyDown(s1, e.(reload := None));
      HostGets(s2, e, eaten)
  }

  /** A host that skips the test. */
  function KeyOnly(s: Sink, e: KeyEvent): Sink {
    var (s1, eaten) := OnKeyDown(s, e);
    HostGets(s1, e, eaten)
  }
}
