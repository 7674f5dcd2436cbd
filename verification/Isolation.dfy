/** The brown-out interrupt (src/platform/stm32f1/platform_stm32f1.c:142-149).

The interrupt shuts down the controller `g_app_controller`.  If that is the application's own,
the relay stays off and the state machine in SAFE until a reconfiguration.  If it is another
object, only the output is forced off, and the running controller goes on switching. */
module Isolation {
  import opened Words
  import opened Dewpoint
  import opened ControlModel
  import opened ControlHistory
  import opened Storage
  import opened AppModel
  import Filter

  // ---------- the application's own controller ----------

  /** A reconfiguration that reaches the controller. */
  predicate Restarts(a: AppState, e: AppEvent) {
    e.Configure? && Validates(e.cfg) && a.flashPresent
  }

  predicate Isolated(a: AppState) {
    && a.node.c.state == Safe && !a.node.c.relay && !a.output && !a.node.c.cfg.safeRelay
  }

  lemma StepKeepsIsolated(a: AppState, e: AppEvent)
    requires IsFlash(a.flash) && Isolated(a)
    ensures Step(a, e).flashPresent == a.flashPresent
    ensures !Restarts(a, e) ==> Isolated(Step(a, e))
    ensures Restarts(a, e) ==> Step(a, e).node.c.state != Safe
  {
  }

  /** After the shutdown of its own controller the relay is off and the state is SAFE through any
  run without a reconfiguration that reaches the controller. */
  lemma {:induction false} OwnShutdownIsolates(a: AppState, h: seq<AppEvent>)
    requires IsFlash(a.flash) && !a.node.c.cfg.safeRelay
    requires forall i :: 0 <= i < |h| ==> !Restarts(a, h[i])
    ensures var b := Steps(Fail(a), h); Isolated(b) && b.flashPresent == a.flashPresent
  {
    if h == [] {
    } else {
      OwnShutdownIsolates(a, h[..|h| - 1]);
      StepKeepsIsolated(Steps(Fail(a), h[..|h| - 1]), h[|h| - 1]);
    }
  }

  // ---------- another controller ----------

  /** The other controller's safe value is off: nothing ever initialises it, and every
  configuration in the firmware has that value as well. */
  function ForeignFail(a: AppState): AppState { a.(output := false) }

  function ForeignStep(a: AppState, e: AppEvent): (b: AppState)
    requires IsFlash(a.flash)
    ensures IsFlash(b.flash)
  {
    match e
    case Tick(now, r) => Task(a, now, r).app
    case Configure(c) => UpdateConfig(a, c).app
    case BrownOut => ForeignFail(a)
  }

  function ForeignSteps(a: AppState, h: seq<AppEvent>): (b: AppState)
    requires IsFlash(a.flash)
    ensures IsFlash(b.flash)
  {
    if h == [] then a else ForeignStep(ForeignSteps(a, h[..|h| - 1]), h[|h| - 1])
  }

  /** How relay, remembered value and output hang together in every run with such interrupts. */
  predicate Linked(a: AppState) {
    && Sound(a.node.c) && !a.node.c.cfg.safeRelay
    && (a.node.c.relay ==> a.relayPrev)
    && (a.relayPrev && !a.node.c.relay ==> Quiet(a.node.c))
    && (a.output ==> a.relayPrev)
  }

  predicate Due(a: AppState, now: u32) { ToI32(now - a.next) >= 0 }

  /** The next step switches the running controller's relay from off to on: a condition on the
  state before it and on the reading. */
  predicate TurnsOn(a: AppState, e: AppEvent) {
    e.Tick? && Due(a, e.now) && !a.node.c.relay && SwitchesOn(a.node.c, Judged(e.reading))
  }

  predicate TurnsOff(a: AppState, e: AppEvent) {
    e.Tick? && Due(a, e.now) && a.node.c.relay && SwitchesOff(a.node.c, Judged(e.reading))
  }

  /** What a call to app_task makes of relay and output. */
  lemma TaskSwitches(a: AppState, now: u32, r: Reading)
    requires Linked(a) && Due(a, now)
    ensures var p, e := Task(a, now, r), Tick(now, r);
      && p.processed && Linked(p.app)
      && (p.app.node.c.relay <==> TurnsOn(a, e) || (a.node.c.relay && !TurnsOff(a, e)))
      && (p.app.output <==> TurnsOn(a, e) || (a.node.c.relay && !TurnsOff(a, e) && a.output))
      && (p.app.node.c.state == Safe <==> a.node.c.state == Safe)
  {
    var s := Judged(r);
    RelayAfter(a.node, s);
    ApplyKeepsSound(a.node, Measure(s));
    UpdateKeepsConfig(a.node, s);
    if Quiet(a.node.c) { QuietStep(a.node, s); }
  }

  lemma StepKeepsLinked(a: AppState, e: AppEvent)
    requires IsFlash(a.flash) && Linked(a)
    ensures Linked(ForeignStep(a, e))
    ensures TurnsOn(a, e) ==> ForeignStep(a, e).output
    ensures !TurnsOn(a, e) && !a.output ==> !ForeignStep(a, e).output
  {
    match e
    case Tick(now, r) => if Due(a, now) { TaskSwitches(a, now, r); }
    case Configure(c) => InitIsSound(ControlConfig(c));
    case BrownOut =>
  }

  /** The first processed sample after the interrupt: the state machine is not taken to SAFE; a
  relay that was off is switched on, output included, exactly by an admitted sample with a margin
  below the threshold; and a relay that was on stays on, with the output off, exactly if the
  sample does not switch it off. */
  lemma FirstSampleAfter(a: AppState, now: u32, r: Reading)
    requires Linked(a) && Due(a, now)
    ensures var p, s := Task(ForeignFail(a), now, r), Judged(r);
      && p.processed
      && (p.app.node.c.state == Safe <==> a.node.c.state == Safe)
      && (p.app.output <==> !a.node.c.relay && SwitchesOn(a.node.c, s))
      && (p.app.output != p.app.node.c.relay <==> a.node.c.relay && !SwitchesOff(a.node.c, s))
  {
    TaskSwitches(ForeignFail(a), now, r);
  }

  // ---------- whole runs ----------

  lemma {:induction false} StepsKeepLinked(a: AppState, h: seq<AppEvent>)
    requires IsFlash(a.flash) && Linked(a)
    ensures Linked(ForeignSteps(a, h))
  {
    if h == [] {
    } else {
      StepsKeepLinked(a, h[..|h| - 1]);
      StepKeepsLinked(ForeignSteps(a, h[..|h| - 1]), h[|h| - 1]);
    }
  }

  lemma StartIsLinked(flash: seq<byte>, present: bool, backup: byte, cause: ResetCause)
    requires IsFlash(flash)
    ensures Linked(PowerUp(flash, present, backup, cause))
  {
    InitIsSound(DEFAULTS);
  }

  predicate OffAt(a: AppState, h: seq<AppEvent>, i: nat)
    requires IsFlash(a.flash) && i <= |h|
  {
    !ForeignSteps(a, h[..i]).output
  }

  predicate TurnsOnAt(a: AppState, h: seq<AppEvent>, i: nat)
    requires IsFlash(a.flash) && i < |h|
  {
    TurnsOn(ForeignSteps(a, h[..i]), h[i])
  }

  lemma PrefixStep(a: AppState, h: seq<AppEvent>, i: nat)
    requires IsFlash(a.flash) && Linked(a) && i < |h|
    ensures TurnsOnAt(a, h, i) ==> !OffAt(a, h, i + 1)
    ensures !TurnsOnAt(a, h, i) && OffAt(a, h, i) ==> OffAt(a, h, i + 1)
  {
    assert h[..i + 1][..i] == h[..i];
    StepsKeepLinked(a, h[..i]);
    StepKeepsLinked(ForeignSteps(a, h[..i]), h[i]);
  }

  lemma {:induction false} OffUntil(a: AppState, h: seq<AppEvent>, i: nat)
    requires IsFlash(a.flash) && Linked(a) && !a.output && i <= |h|
    requires forall k :: 0 <= k < |h| ==> !TurnsOnAt(a, h, k)
    ensures OffAt(a, h, i)
  {
    if i == 0 {
    } else {
      OffUntil(a, h, i - 1);
      PrefixStep(a, h, i - 1);
    }
  }

  /** After the interrupt the output is off throughout a run of sampling, reconfiguration and
  further interrupts exactly when no step of the run switches the running controller's relay from
  off to on. */
  lemma OutputStaysOffIff(a: AppState, h: seq<AppEvent>)
    requires IsFlash(a.flash) && Linked(a)
    ensures var b := ForeignFail(a);
      (forall i :: 0 <= i <= |h| ==> OffAt(b, h, i)) <==> (forall i :: 0 <= i < |h| ==> !TurnsOnAt(b, h, i))
  {
    var b := ForeignFail(a);
    if forall i :: 0 <= i < |h| ==> !TurnsOnAt(b, h, i) {
      forall i | 0 <= i <= |h|
        ensures OffAt(b, h, i)
      {
        OffUntil(b, h, i);
      }
    }
    if forall i :: 0 <= i <= |h| ==> OffAt(b, h, i) {
      forall i | 0 <= i < |h|
        ensures !TurnsOnAt(b, h, i)
      {
        assert OffAt(b, h, i + 1);
        PrefixStep(b, h, i);
      }
    }
  }

  /** Whether, at the end of a history, the relay has been switched on since the latest
  interrupt and not off again since. */
  predicate Lit(a: AppState, h: seq<AppEvent>)
    requires IsFlash(a.flash)
  {
    if h == [] then a.output
    else
      var p, e := h[..|h| - 1], h[|h| - 1];
      TurnsOn(ForeignSteps(a, p), e) || (Lit(a, p) && !Darkens(ForeignSteps(a, p), e))
  }

  /** An interrupt, a sample that switches the relay off, or the first sample after a
  reconfiguration. */
  predicate Darkens(a: AppState, e: AppEvent) {
    e.BrownOut? || TurnsOff(a, e) || (e.Tick? && Due(a, e.now) && !a.node.c.relay)
  }

  /** In every run the output is on exactly if it was switched on and has not been darkened. */
  lemma {:induction false} OutputIsLit(a: AppState, h: seq<AppEvent>)
    requires IsFlash(a.flash) && Linked(a)
    ensures ForeignSteps(a, h).output <==> Lit(a, h)
  {
    if h == [] {
    } else {
      var p, e := h[..|h| - 1], h[|h| - 1];
      OutputIsLit(a, p);
      StepsKeepLinked(a, p);
      var b := ForeignSteps(a, p);
      if e.Tick? && Due(b, e.now) { TaskSwitches(b, e.now, e.reading); }
    }
  }

  // ---------- saturated air ----------

  /** In air at 100 % humidity, with the relay on, the output stays off. */
  lemma ForeignFailLosesOutput(a: AppState, now: u32, r: Reading)
    requires Sound(a.node.c) && a.node.c.state == Run && a.node.c.relay && a.relayPrev
    requires a.node.c.cfg.marginOff >= 1 && Due(a, now)
    requires r.ok && SampleValid(r.sample) && r.sample.rh >= RH_MAX
    ensures var p := Task(ForeignFail(a), now, r);
      p.processed && p.app.node.c.relay && !p.app.output
  {
    SaturatedStep(a.node, r.sample);
  }

  /** And with the relay off, the sample after the interrupt switches the output on: the relay is
  not isolated, and the state is RUN. */
  lemma ForeignFailSwitchesOn(a: AppState, now: u32, r: Reading)
    requires Sound(a.node.c) && a.node.c.state == Run && !a.node.c.relay && !a.relayPrev
    requires a.node.c.cfg.marginOn >= 2 && Due(a, now)
    requires r.ok && SampleValid(r.sample) && r.sample.rh >= RH_MAX
    ensures var p := Task(ForeignFail(a), now, r);
      p.processed && p.app.node.c.state == Run && p.app.output
  {
    var c := a.node.c.(samples := Next32(a.node.c.samples), errorStreak := 0);
    AcceptSaturated(a.node.(c := c), r.sample);
  }
}
