/** The application around the controller as a function of values (src/app/app.c): periodic
sampling, the relay output, and reconfiguration through the stored record. */
module AppModel {
  import opened Words
  import opened ControlModel
  import opened ControlHistory
  import opened Storage
  import Filter

  /** What a sensor read gives: its success and the sample it filled in. */
  datatype Reading = Reading(ok: bool, sample: Sample)

  /** The application state with everything it drives: backup byte, relay output, flash. */
  datatype AppState = AppState(
    node: Node, output: bool, cfg: DeviceConfig, next: u32, relayPrev: bool, flash: seq<byte>, flashPresent: bool)

  datatype Processed = Processed(app: AppState, processed: bool, err: Err)

  datatype Applied = Applied(app: AppState, err: Err)

  /** The controller configuration derived from a stored record. */
  function ControlConfig(c: DeviceConfig): Config {
    Config(c.marginOn, c.marginOff, c.period, 3, 3, false)
  }

  function Startup(flash: seq<byte>, present: bool, backup: byte): AppState
    requires IsFlash(flash)
  {
    var cfg := if present then LoadFrom(flash).cfg else Defaults();
    AppState(Node(InitCtrl(ControlConfig(cfg)), backup), false, cfg, 0, false, flash, present)
  }

  /** The firmware's start: app_init, then the reset cause is judged with the default
  configuration (src/app/main_mcu.c:276-280). */
  function PowerUp(flash: seq<byte>, present: bool, backup: byte, cause: ResetCause): AppState
    requires IsFlash(flash)
  {
    var a := Startup(flash, present, backup);
    a.(node := Boot(DEFAULTS, cause, backup))
  }

  function NextSample(next: u32, period: u32, now: u32): u32 {
    var ahead := Wrap(next + period);
    if ToI32(ahead - now) < 0 then Wrap(now + period) else ahead
  }

  function Judged(r: Reading): Sample {
    if r.ok then r.sample else r.sample.(quality := QualityInvalid)
  }

  /** app_task */
  function Task(a: AppState, now: u32, r: Reading): Processed {
    if ToI32(now - a.next) < 0 then Processed(a, false, ErrOk)
    else
      var p := Sampled(a, r);
      p.(app := p.app.(next := NextSample(a.next, a.node.c.cfg.period, now)))
  }

  /** app_task, once the sample is due and the next one scheduled. */
  function Sampled(a: AppState, r: Reading): Processed {
    var o := Update(a.node, Judged(r));
    var relay := o.node.c.relay;
    Processed(
      a.(node := o.node, output := if relay != a.relayPrev then relay else a.output, relayPrev := relay),
      true, o.err)
  }

  /** app_update_config: a record that validates is adopted even when it cannot be saved, but
  only a saved one reaches the controller. */
  function UpdateConfig(a: AppState, c: DeviceConfig): Applied
    requires IsFlash(a.flash)
  {
    if !Validates(c) then Applied(a, ErrInvalidArg)
    else if !a.flashPresent then Applied(a.(cfg := c), ErrStorage)
    else Applied(
      a.(cfg := c, flash := Stored(a.flash, c), node := a.node.(c := InitCtrl(ControlConfig(c)))), ErrOk)
  }

  /** ctrl_force_emergency_shutdown, called from the brown-out interrupt on the application's own
  controller. */
  function Fail(a: AppState): AppState {
    var c := Shutdown(a.node.c);
    a.(node := a.node.(c := c), output := c.relay)
  }

  // ---------- whole runs ----------

  datatype AppEvent =
    | Tick(now: u32, reading: Reading)
    | Configure(cfg: DeviceConfig)
    | BrownOut

  function Step(a: AppState, e: AppEvent): (b: AppState)
    requires IsFlash(a.flash)
    ensures IsFlash(b.flash)
  {
    match e
    case Tick(now, r) => Task(a, now, r).app
    case Configure(c) => UpdateConfig(a, c).app
    case BrownOut => Fail(a)
  }

  function Steps(a: AppState, h: seq<AppEvent>): (b: AppState)
    requires IsFlash(a.flash)
    ensures IsFlash(b.flash)
  {
    if h == [] then a else Step(Steps(a, h[..|h| - 1]), h[|h| - 1])
  }

  /** The next controller step is bound to leave the relay at its safe value. */
  predicate Quiet(c: Ctrl) {
    c.state == Safe || (c.state != Run && |c.window| + 1 < Filter.SIZE)
  }

  /** The relay output shows what the application last asked for, or the output was forced
  off behind its back and the next step will notice. */
  predicate OutputTracked(a: AppState) {
    && Sound(a.node.c) && !a.node.c.cfg.safeRelay
    && (a.output == a.relayPrev || (!a.output && Quiet(a.node.c)))
  }

  lemma QuietStep(n: Node, s: Sample)
    requires Sound(n.c) && Quiet(n.c)
    ensures Update(n, s).node.c.relay == n.c.cfg.safeRelay
  {
  }

  lemma UpdateKeepsConfig(n: Node, s: Sample)
    ensures Update(n, s).node.c.cfg == n.c.cfg
  {
  }

  lemma StepTracksOutput(a: AppState, e: AppEvent)
    requires IsFlash(a.flash) && OutputTracked(a)
    ensures OutputTracked(Step(a, e))
    ensures e.Tick? && Task(a, e.now, e.reading).processed ==>
      Step(a, e).output == Step(a, e).node.c.relay == Step(a, e).relayPrev
  {
    match e
    case Tick(now, r) =>
      var s := Judged(r);
      ApplyKeepsSound(a.node, Measure(s));
      UpdateKeepsConfig(a.node, s);
      if Quiet(a.node.c) { QuietStep(a.node, s); }
    case Configure(c) => InitIsSound(ControlConfig(c));
    case BrownOut =>
  }

  lemma {:induction false} StepsTrackOutput(a: AppState, h: seq<AppEvent>)
    requires IsFlash(a.flash) && OutputTracked(a)
    ensures OutputTracked(Steps(a, h))
  {
    if h == [] {
    } else {
      StepsTrackOutput(a, h[..|h| - 1]);
      StepTracksOutput(Steps(a, h[..|h| - 1]), h[|h| - 1]);
    }
  }

  lemma StartIsTracked(flash: seq<byte>, present: bool, backup: byte, cause: ResetCause)
    requires IsFlash(flash)
    ensures OutputTracked(Startup(flash, present, backup))
    ensures OutputTracked(PowerUp(flash, present, backup, cause))
  {
    InitIsSound(DEFAULTS);
    InitIsSound(ControlConfig(if present then LoadFrom(flash).cfg else Defaults()));
  }

  /** In every interleaving of sampling, reconfiguration and brown-outs after start-up, a task
  that processes a sample ends with the relay output equal to the controller's relay. */
  lemma OutputFollowsController(
      flash: seq<byte>, present: bool, backup: byte, cause: ResetCause, h: seq<AppEvent>, now: u32, r: Reading)
    requires IsFlash(flash)
    ensures var p := Task(Steps(PowerUp(flash, present, backup, cause), h), now, r);
      p.processed ==> p.app.output == p.app.node.c.relay
  {
    StartIsTracked(flash, present, backup, cause);
    var start := PowerUp(flash, present, backup, cause);
    StepsTrackOutput(start, h);
    StepTracksOutput(Steps(start, h), Tick(now, r));
  }

  // ---------- the application's runs are controller histories ----------

  /** What an event of the application means for the controller in it, if anything. */
  function ControllerEvent(a: AppState, e: AppEvent): seq<Event> {
    match e
    case Tick(now, r) =>
      if ToI32(now - a.next) < 0 then []
      else [Measure(if r.ok then r.sample else r.sample.(quality := QualityInvalid))]
    case Configure(c) =>
      if Validates(c) && a.flashPresent
      then [Reconfigure(Config(c.marginOn, c.marginOff, c.period, 3, 3, false))] else []
    case BrownOut => [PowerFailure]
  }

  function ControllerEvents(a: AppState, h: seq<AppEvent>): seq<Event>
    requires IsFlash(a.flash)
  {
    if h == [] then []
    else
      var p := h[..|h| - 1];
      ControllerEvents(a, p) + ControllerEvent(Steps(a, p), h[|h| - 1])
  }

  lemma StepIsControllerEvent(a: AppState, e: AppEvent)
    requires IsFlash(a.flash)
    ensures Step(a, e).node == Events(a.node, ControllerEvent(a, e))
  {
    var es := ControllerEvent(a, e);
    assert es != [] ==> es[..|es| - 1] == [];
  }

  /** Controller and backup byte of the application go through exactly the history of events that
  its runs consist of, so that what holds of controller histories holds of it. */
  lemma {:induction false} RunIsControllerHistory(a: AppState, h: seq<AppEvent>)
    requires IsFlash(a.flash)
    ensures Steps(a, h).node == Events(a.node, ControllerEvents(a, h))
  {
    if h == [] {
    } else {
      var p, e := h[..|h| - 1], h[|h| - 1];
      RunIsControllerHistory(a, p);
      StepIsControllerEvent(Steps(a, p), e);
      EventsJoin(a.node, ControllerEvents(a, p), ControllerEvent(Steps(a, p), e));
    }
  }

  lemma {:induction false} EventsJoin(n: Node, g: seq<Event>, h: seq<Event>)
    ensures Events(n, g + h) == Events(Events(n, g), h)
  {
    if h == [] {
      assert g + h == g;
    } else {
      var p := h[..|h| - 1];
      EventsJoin(n, g, p);
      assert (g + h)[..|g + h| - 1] == g + p;
    }
  }

  lemma InitialRelayIsOff(c: DeviceConfig)
    ensures !InitCtrl(ControlConfig(c)).relay
  {
  }

  /** At start-up the relay is off, the output too, and the first sample is due at time zero. */
  lemma StartIsOff(flash: seq<byte>, present: bool, backup: byte, cause: ResetCause)
    requires IsFlash(flash)
    ensures var a := PowerUp(flash, present, backup, cause);
      && !a.output && !a.relayPrev && !a.node.c.relay && a.next == 0
      && a.flash == flash && a.flashPresent == present
      && a.node == Boot(Config(500, 700, 1000, 3, 3, false), cause, backup)
  {
  }

  // ---------- what the sensor read gives ----------

  /** A failed read counts as an error, whatever sample it left: the streak advances, nothing is
  measured, and at the threshold the fault state is entered with the relay safe. */
  lemma FailedReadIsRejected(a: AppState, r: Reading)
    requires !r.ok && a.node.c.state != Safe && !a.node.c.dying
    ensures var c, p := a.node.c, Sampled(a, r);
      var d := p.app.node.c;
      && p.err == d.lastError == ErrSensor
      && d.window == c.window && d.filtered == c.filtered && d.humidity == c.humidity && d.dew == c.dew
      && d.errorStreak == (c.errorStreak + 1) % 0x100
      && (d.errorStreak >= c.cfg.faultThreshold ==> d.state == SensorFault && d.relay == c.cfg.safeRelay)
  {
  }

  /** A successful one is the controller's next sample. */
  lemma SuccessfulReadIsTaken(a: AppState, r: Reading)
    requires r.ok
    ensures var p, o := Sampled(a, r), Update(a.node, r.sample);
      p.app.node == o.node && p.err == o.err
  {
  }

  /** A call that is not due does nothing and reports success. */
  lemma EarlyTaskIsIdle(a: AppState, now: u32, r: Reading)
    requires ToI32(now - a.next) < 0
    ensures Task(a, now, r) == Processed(a, false, ErrOk)
  {
  }

  /** A call that is due is a read. */
  lemma DueTaskSamples(a: AppState, now: u32, r: Reading)
    requires ToI32(now - a.next) >= 0
    ensures var p, q := Task(a, now, r), Sampled(a, r);
      p.processed && p.err == q.err && p.app == q.app.(next := p.app.next)
  {
  }

  function SampledAll(a: AppState, rs: seq<Reading>): AppState {
    if rs == [] then a else Sampled(SampledAll(a, rs[..|rs| - 1]), rs[|rs| - 1]).app
  }

  /** Samples that are not valid, whatever was measured before: as many as the fault threshold end
  in the fault state with the relay safe. */
  lemma InvalidRunFaults(start: Node, h: seq<Sample>, bad: seq<Sample>)
    requires Fresh(start.c) && |bad| == start.c.cfg.faultThreshold
    requires forall i :: 0 <= i < |bad| ==> !SampleValid(bad[i])
    ensures var c := Samples(start, h + bad).c; c.state == SensorFault && c.relay == start.c.cfg.safeRelay
  {
    var ft, rt, g := start.c.cfg.faultThreshold, start.c.cfg.recoveryThreshold, h + bad;
    assert forall i :: |h| <= i < |g| ==> g[i] == bad[i - |h|];
    assert FaultFrom(ft, rt, g, |g|);
    FaultIffHistory(start, g);
    RelaySafeOutsideRun(start, g);
  }

  /** Over runs: after any history of samples, as many failed reads as the fault threshold end in
  the fault state with the relay safe. */
  lemma FailedReadsFault(a: AppState, start: Node, h: seq<Sample>, rs: seq<Reading>)
    requires Fresh(start.c) && a.node == Samples(start, h) && |rs| == start.c.cfg.faultThreshold
    requires forall i :: 0 <= i < |rs| ==> !rs[i].ok
    ensures var c := SampledAll(a, rs).node.c; c.state == SensorFault && c.relay == start.c.cfg.safeRelay
  {
    var bad := seq(|rs|, i requires 0 <= i < |rs| => rs[i].sample.(quality := QualityInvalid));
    ReadsAreSamples(a, start, h, rs, bad);
    InvalidRunFaults(start, h, bad);
  }

  lemma {:induction false} ReadsAreSamples(a: AppState, start: Node, h: seq<Sample>, rs: seq<Reading>, bad: seq<Sample>)
    requires a.node == Samples(start, h) && |rs| == |bad|
    requires forall i :: 0 <= i < |rs| ==> !rs[i].ok && bad[i] == rs[i].sample.(quality := QualityInvalid)
    ensures SampledAll(a, rs).node == Samples(start, h + bad)
  {
    if rs == [] {
      assert h + bad == h;
    } else {
      var n := |rs| - 1;
      ReadsAreSamples(a, start, h, rs[..n], bad[..n]);
      assert (h + bad)[..|h + bad| - 1] == h + bad[..n];
    }
  }

  // ---------- sampling on the wrapping clock ----------

  /** The next deadline on a clock that does not wrap: only a task late by more than a whole
  period starts over from now. */
  function NextDeadline(next: nat, period: nat, t: nat): nat {
    if next + period < t then t + period else next + period
  }

  /** While true time and deadline stay less than 2^31 ms apart, a sample is processed exactly
  when it is really due, and the deadline moves as on the true clock. */
  lemma SamplingIsTrue(a: AppState, next: nat, t: nat, r: Reading)
    requires next <= t + HALF && t < next + HALF && a.next == Wrap(next)
    requires a.node.c.cfg.period < HALF
    ensures var p := Task(a, Wrap(t), r);
      && (p.processed <==> next <= t)
      && (p.processed ==> p.app.next == Wrap(NextDeadline(next, a.node.c.cfg.period, t)))
  {
    DifferenceIsTrue(t, next);
    if next <= t { DeadlineIsTrue(a.next, next, a.node.c.cfg.period, t); }
  }

  lemma DeadlineIsTrue(wrapped: u32, next: nat, period: u32, t: nat)
    requires next <= t < next + HALF && wrapped == Wrap(next) && period < HALF
    ensures NextSample(wrapped, period, Wrap(t)) == Wrap(NextDeadline(next, period, t))
  {
    WrapAdds(next, period);
    WrapAdds(t, period);
    DifferenceIsTrue(next + period, t);
  }

  /** The deadline stays within a period ahead, and keeps its grid unless a whole period was
  missed. */
  lemma DeadlineAhead(next: nat, period: nat, t: nat)
    requires next <= t
    ensures t <= NextDeadline(next, period, t) <= t + period
    ensures t <= next + period ==> NextDeadline(next, period, t) == next + period
    ensures t > next + period ==> NextDeadline(next, period, t) == t + period
  {
  }

  /** Unlike the scheduler, the application may process twice at one moment: exactly when the
  first call comes a whole period after its deadline. */
  lemma ProcessesTwiceIff(a: AppState, next: nat, t: nat, r: Reading, r': Reading)
    requires next <= t < next + HALF && a.next == Wrap(next)
    requires 0 < a.node.c.cfg.period < HALF
    ensures Task(Task(a, Wrap(t), r).app, Wrap(t), r').processed
      <==> t == next + a.node.c.cfg.period
  {
    var period := a.node.c.cfg.period;
    SamplingIsTrue(a, next, t, r);
    UpdateKeepsConfig(a.node, Judged(r));
    SamplingIsTrue(Task(a, Wrap(t), r).app, NextDeadline(next, period, t), t, r');
  }

  // ---------- configuration ----------

  /** A record that is valid and can be saved reaches the controller in full; any other leaves it
  alone. */
  lemma ConfigurationReachesController(a: AppState, c: DeviceConfig)
    requires IsFlash(a.flash)
    ensures var used := UpdateConfig(a, c).app.node.c.cfg;
      if Validates(c) && a.flashPresent then
        && used.period == (if c.period > 0 then c.period else 1000)
        && used.faultThreshold == 3 && used.recoveryThreshold == 3 && !used.safeRelay
        && (c.marginOn < c.marginOff ==> used.marginOn == c.marginOn && used.marginOff == c.marginOff)
        && (c.marginOn >= c.marginOff ==> used.marginOn == 500 && used.marginOff == 700)
      else UpdateConfig(a, c).app.node == a.node
  {
  }

  /** A record that is not valid is refused and changes nothing; a valid one is adopted, whether or
  not it can be saved, and when it can, the first slot holds it and the second is left alone. */
  lemma ConfigurationOutcome(a: AppState, c: DeviceConfig)
    requires IsFlash(a.flash)
    ensures var u := UpdateConfig(a, c);
      && (u.err == ErrInvalidArg <==> !Validates(c)) && (u.err == ErrStorage <==> Validates(c) && !a.flashPresent)
      && (u.err == ErrOk <==> Validates(c) && a.flashPresent)
      && (!Validates(c) ==> u.app == a)
      && (Validates(c) ==> u.app.cfg == c)
      && (u.err == ErrOk ==> Slot(u.app.flash, 0) == Encode(c) && Slot(u.app.flash, 1) == Slot(a.flash, 1))
      && (u.err != ErrOk ==> u.app.flash == a.flash)
      && u.app.output == a.output && u.app.relayPrev == a.relayPrev && u.app.next == a.next
  {
  }

  /** After an accepted reconfiguration the controller runs with the requested margins exactly
  when they are in order; otherwise it silently keeps the defaults. */
  lemma ControllerTakesMarginsIff(a: AppState, c: DeviceConfig)
    requires IsFlash(a.flash) && Validates(c) && a.flashPresent
    ensures var used := UpdateConfig(a, c).app.node.c.cfg;
      (used.marginOn == c.marginOn && used.marginOff == c.marginOff)
      <==> c.marginOn < c.marginOff
  {
  }

  /** Without a usable stored record the controller starts with its own defaults. */
  lemma FreshDeviceUsesDefaults(flash: seq<byte>, present: bool, backup: byte)
    requires IsFlash(flash)
    ensures var a := Startup(flash, present, backup);
      && Validates(a.cfg)
      && ((present ==> !Usable(Slot(flash, 0)) && !Usable(Slot(flash, 1))) ==> a.node.c.cfg == DEFAULTS)
  {
    LoadedValidates(flash);
    FinalizedValidates(DeviceConfig(MAGIC, 1, 28, 500, 700, 1000, NO_RESERVE, 0));
  }

  /** A stored configuration survives a restart in the application's record, but the firmware
  starts the controller with the defaults: they agree only if the record says the same. */
  lemma RestartUsesStoredMarginsIff(a: AppState, c: DeviceConfig, cause: ResetCause)
    requires IsFlash(a.flash) && Validates(c) && a.flashPresent
    ensures var saved := UpdateConfig(a, c).app;
      var restarted := PowerUp(saved.flash, true, saved.node.backup, cause);
      && restarted.cfg == c
      && (restarted.node.c.cfg.marginOn == c.marginOn && restarted.node.c.cfg.marginOff == c.marginOff
          <==> c.marginOn == DEFAULTS.marginOn && c.marginOff == DEFAULTS.marginOff)
  {
    RestartLoadsRecord(a, c, cause);
    RestartUsesDefaults(UpdateConfig(a, c).app.flash, UpdateConfig(a, c).app.node.backup, cause);
  }

  lemma RestartLoadsRecord(a: AppState, c: DeviceConfig, cause: ResetCause)
    requires IsFlash(a.flash) && Validates(c) && a.flashPresent
    ensures var saved := UpdateConfig(a, c).app;
      saved.flash == Stored(a.flash, c) && PowerUp(saved.flash, true, saved.node.backup, cause).cfg == c
  {
    SavedIsLoaded(a.flash, c);
  }

  /** Whatever is stored, the controller starts with its defaults. */
  lemma RestartUsesDefaults(flash: seq<byte>, backup: byte, cause: ResetCause)
    requires IsFlash(flash)
    ensures PowerUp(flash, true, backup, cause).node.c.cfg == DEFAULTS
  {
  }

  /** A configuration write takes a controller out of SAFE, although SAFE is meant to last. */
  lemma ReconfigurationLeavesSafe(a: AppState, c: DeviceConfig)
    requires IsFlash(a.flash) && a.node.c.state == Safe
    ensures UpdateConfig(a, c).app.node.c.state == Safe <==> !(Validates(c) && a.flashPresent)
  {
  }
}
