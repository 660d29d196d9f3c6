/**
  Whole runs of the service's objects: what the run theorems say of the model's states, the composition
  manager, the controller and the sink keep step after step.
 */
module TsfRun {
  import opened Options
  import opened TsfModel
  import opened TsfSync
  import opened TsfUndo
  import opened TsfService

  /** The host edits the document behind the service, or moves the caret in it. */
  method EditByHost(c: EngineController, h: HostEdit)
    requires c.Valid()
    modifies c.ctx`doc
    ensures c.Valid() && c.View() == old(c.View()).(doc := HostApply(old(c.ctx.doc), h))
  {
    c.ctx.doc := HostApply(c.ctx.doc, h);
  }

  /** The host ends the composition held; with none held, one that was given up before. */
  method EndFromOutside(sink: KeyEventSink)
    requires sink.controller.Valid()
    modifies sink.controller, sink.controller.mgr, sink.controller.ctx, sink.controller.mgr.pComposition,
             sink.controller.engine
    ensures sink.controller.Valid() && sink.View() == OnTerminated(old(sink.View()))
    ensures sink.controller.KeepsObjects()
  {
    var comp: TsfComposition;
    if sink.controller.mgr.pComposition != null {
      comp := sink.controller.mgr.pComposition;
    } else {
      comp := new TsfComposition();
    }
    sink.controller.OnCompositionTerminated(comp);
  }

  method PerformStep(sink: KeyEventSink, st: Step)
    requires sink.controller.Valid()
    modifies sink, sink.controller, sink.controller.mgr, sink.controller.ctx, sink.controller.mgr.pComposition,
             sink.controller.engine
    ensures sink.controller.Valid() && sink.View() == Perform(old(sink.View()), st)
    ensures sink.controller.KeepsObjects()
  {
    hide TsfModel.OnTestKeyDown, TsfModel.OnKeyDown, TsfModel.OnSetFocus;
    match st {
      case Test(e) => var claimed := sink.OnTestKeyDown(e);
      case Key(e) => var eaten := sink.OnKeyDown(e);
      case Host(h) => EditByHost(sink.controller, h);
      case Ended => EndFromOutside(sink);
      case FocusChange(f) => sink.OnSetFocus(f);
    }
  }

  /** A composition is held exactly when the engine holds keys. */
  ghost predicate HeldInStep(c: EngineController)
    reads c, c.mgr, c.engine
  {
    c.mgr.pComposition != null <==> c.engine.answers.count(c.engine.ops) > 0
  }

  lemma HeldIsSynced(c: EngineController)
    requires c.Valid()
    ensures HeldInStep(c) <==> Synced(c.View())
  {
  }

  /**
    The objects through one test, from whatever state, and any run of steps behind it: while the settings
    are stable the manager holds a composition exactly when the engine holds keys, with the only reference
    to it.
   */
  method RunSteadily(sink: KeyEventSink, e: KeyEvent, steps: seq<Step>)
    requires sink.controller.Valid() && !sink.controller.contextBlocked
    requires LawfulFor(sink.controller.View(), e.reload)
    requires StableRun(TsfModel.OnTestKeyDown(sink.View(), e).0, steps)
    modifies sink, sink.controller, sink.controller.mgr, sink.controller.ctx, sink.controller.mgr.pComposition,
             sink.controller.engine
    ensures sink.controller.Valid() && HeldInStep(sink.controller)
    ensures sink.View() == RunSteps(TsfModel.OnTestKeyDown(old(sink.View()), e).0, steps)
  {
    hide TsfModel.OnTestKeyDown, Perform, Stable, Lawful, EngineController.Valid;
    TestSyncs(sink.View(), e);
    var claimed := sink.OnTestKeyDown(e);
    ghost var start := sink.View();
    var i := 0;
    assert steps[0..] == steps;
    while i < |steps|
      invariant 0 <= i <= |steps| && sink.controller.Valid() && sink.controller.KeepsObjects()
      invariant RunSteps(sink.View(), steps[i..]) == RunSteps(start, steps)
      invariant StableRun(sink.View(), steps[i..])
      invariant var c := sink.View().ctl; Lawful(c.cfg.engine) && Synced(c) && !c.blocked
    {
      StepKeepsSync(sink.View(), steps[i]);
      assert steps[i..][1..] == steps[i + 1..];
      PerformStep(sink, steps[i]);
      i := i + 1;
    }
    HeldIsSynced(sink.controller);
  }

  // ----- the commit-undo cache -----

  /** A key from a host that tests first: the key-down follows if the test claims it, and what is not eaten
      the host applies. */
  method PressKey(sink: KeyEventSink, e: KeyEvent)
    requires sink.controller.Valid()
    modifies sink, sink.controller, sink.controller.mgr, sink.controller.ctx, sink.controller.mgr.pComposition,
             sink.controller.engine
    ensures sink.controller.Valid() && sink.View() == TestThenKey(old(sink.View()), e)
    ensures sink.controller.KeepsObjects()
  {
    hide TsfModel.OnTestKeyDown, TsfModel.OnKeyDown, HostApply, EngineController.Valid;
    var eaten := sink.OnTestKeyDown(e);
    if eaten {
      eaten := sink.OnKeyDown(e.(reload := None));
    }
    if !eaten {
      EditByHost(sink.controller, e.host);
    }
  }

  method LetHappen(sink: KeyEventSink, h: Happening)
    requires sink.controller.Valid()
    modifies sink, sink.controller, sink.controller.mgr, sink.controller.ctx, sink.controller.mgr.pComposition,
             sink.controller.engine
    ensures sink.controller.Valid() && sink.View() == After(old(sink.View()), h)
    ensures sink.controller.KeepsObjects()
  {
    hide TestThenKey, TsfModel.OnSetFocus;
    match h {
      case Pressed(e) => PressKey(sink, e);
      case Ended => EndFromOutside(sink);
      case Focused(f) => sink.OnSetFocus(f);
      case Moved(edit, now) => EditByHost(sink.controller, edit);
    }
  }

  /**
    The objects through any run in which nothing spoils the cache, and one more key. If that key restores,
    the document held the last committed body before the caret and now holds the raw keys in its place.
   */
  method RunThenPress(sink: KeyEventSink, hs: seq<Happening>, e: KeyEvent, ghost clock: nat)
    requires sink.controller.Valid() && RunInv(sink.controller.View(), clock)
    requires RunOk(hs + [Pressed(e)], clock) && NothingSpoils(sink.View(), hs)
    requires !Misjudged(RunAll(sink.View(), hs).ctl.undo, e.now)
    modifies sink, sink.controller, sink.controller.mgr, sink.controller.ctx, sink.controller.mgr.pComposition,
             sink.controller.engine
    ensures sink.controller.Valid() && sink.View() == TestThenKey(RunAll(old(sink.View()), hs), e)
    ensures var before := RunAll(old(sink.View()), hs);
            Restores(before, e) ==> Restored(before.ctl, sink.controller.ctx.doc)
  {
    hide After, TestThenKey, RunInv, RunOk, NothingSpoils, Misjudged, Restores, EngineController.Valid;
    ghost var start := sink.View();
    EveryRestoreIsExact(start, hs, e, clock);
    var i := 0;
    assert hs[0..] == hs;
    while i < |hs|
      invariant 0 <= i <= |hs| && sink.controller.Valid() && sink.controller.KeepsObjects()
      invariant RunAll(sink.View(), hs[i..]) == RunAll(start, hs)
    {
      assert hs[i..][1..] == hs[i + 1..];
      LetHappen(sink, hs[i]);
      i := i + 1;
    }
    PressKey(sink, e);
  }

  /** The last committed body stood before the caret and the raw keys have taken its place. */
  predicate Restored(before: Ctl, now: Doc) {
    var l := before.undo.last;
    var body := Body(l);
    && EndsWith(before.doc.pre, body)
    && var prefix := before.doc.pre[..|before.doc.pre| - |body|];
    now == Doc(prefix + (if body == "" then "" else l.raw), None, before.doc.post)
  }

  /** The cache itself, on the objects: at the end of every such run it fits the document. */
  method RunUnspoiled(sink: KeyEventSink, hs: seq<Happening>, ghost clock: nat) returns (ghost now: nat)
    requires sink.controller.Valid() && RunInv(sink.controller.View(), clock)
    requires RunOk(hs, clock) && NothingSpoils(sink.View(), hs)
    modifies sink, sink.controller, sink.controller.mgr, sink.controller.ctx, sink.controller.mgr.pComposition,
             sink.controller.engine
    ensures sink.controller.Valid() && sink.View() == RunAll(old(sink.View()), hs)
    ensures now == ClockAtEnd(hs, clock) && UndoInv(sink.controller.View(), now)
  {
    hide After, RunInv, RunOk, NothingSpoils, UndoInv, EngineController.Valid;
    ghost var start := sink.View();
    CacheFitsExactly(start, hs, clock);
    now := clock;
    var i := 0;
    assert hs[0..] == hs;
    while i < |hs|
      invariant 0 <= i <= |hs| && sink.controller.Valid() && sink.controller.KeepsObjects()
      invariant RunAll(sink.View(), hs[i..]) == RunAll(start, hs)
      invariant FitsAlong(sink.View(), hs[i..], now) && ClockAtEnd(hs[i..], now) == ClockAtEnd(hs, clock)
    {
      assert hs[i..][1..] == hs[i + 1..];
      LetHappen(sink, hs[i]);
      now := ClockAfter(hs[i], now);
      i := i + 1;
    }
  }

  function ClockAtEnd(hs: seq<Happening>, clock: nat): nat {
    if hs == [] then clock else ClockAtEnd(hs[1..], ClockAfter(hs[0], clock))
  }
}
