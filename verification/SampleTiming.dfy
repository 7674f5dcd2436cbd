/** app_task over whole runs (src/app/app.c:98-106): on the wrapping clock the application samples
exactly as it would on a clock that never wraps, and, called by the scheduler, never faster than
the period with which it was registered at start-up (src/app/main_mcu.c:301-303). */
module SampleTiming {
  import opened Words
  import opened ControlModel
  import opened Storage
  import opened AppModel
  import Scheduler

  /** What happens to the application, at true times. */
  datatype TimedEvent =
    | At(t: nat, reading: Reading)
    | Reconfigured(cfg: DeviceConfig)
    | PowerFailed

  /** The same as the application sees it. */
  function Seen(e: TimedEvent): AppEvent {
    match e
    case At(t, r) => Tick(Wrap(t), r)
    case Reconfigured(c) => Configure(c)
    case PowerFailed => BrownOut
  }

  function SeenAll(h: seq<TimedEvent>): (r: seq<AppEvent>)
    ensures |r| == |h|
  {
    seq(|h|, i requires 0 <= i < |h| => Seen(h[i]))
  }

  /** The application with its deadline on a clock that does not wrap, and the times at which it
  has processed samples. */
  datatype Timed = Timed(app: AppState, next: nat, times: seq<nat>)

  predicate IsDue(x: Timed, e: TimedEvent) { e.At? && x.next <= e.t }

  function TrueStep(x: Timed, e: TimedEvent): (y: Timed)
    requires IsFlash(x.app.flash)
    ensures IsFlash(y.app.flash)
  {
    match e
    case At(t, r) =>
      if t < x.next then x
      else
        var next := NextDeadline(x.next, x.app.node.c.cfg.period, t);
        Timed(Sampled(x.app, r).app.(next := Wrap(next)), next, x.times + [t])
    case Reconfigured(c) => x.(app := Step(x.app, Configure(c)))
    case PowerFailed => x.(app := Step(x.app, BrownOut))
  }

  function TrueSteps(x: Timed, h: seq<TimedEvent>): (y: Timed)
    requires IsFlash(x.app.flash)
    ensures IsFlash(y.app.flash)
  {
    if h == [] then x else TrueStep(TrueSteps(x, h[..|h| - 1]), h[|h| - 1])
  }

  /** The times of the calls. */
  function Calls(h: seq<TimedEvent>): seq<nat> {
    if h == [] then []
    else
      var rest := Calls(h[..|h| - 1]);
      match h[|h| - 1]
      case At(t, _) => rest + [t]
      case _ => rest
  }

  function LastCall(h: seq<TimedEvent>): nat {
    var calls := Calls(h);
    if calls == [] then 0 else calls[|calls| - 1]
  }

  /** Calls come in order, each less than 2^31 ms after the one before, the first less than that
  after the start of the clock. */
  predicate Steady(h: seq<TimedEvent>) {
    h == [] || (
      var p := h[..|h| - 1];
      Steady(p) && (h[|h| - 1].At? ==> LastCall(p) <= h[|h| - 1].t < LastCall(p) + HALF))
  }

  /** Every period the application can have fits in 16 bits. */
  predicate ShortPeriod(a: AppState) { 0 < a.node.c.cfg.period < 0x1_0000 }

  predicate Synchronized(x: Timed, last: nat) {
    ShortPeriod(x.app) && x.app.next == Wrap(x.next) && last <= x.next < last + HALF
  }

  lemma StepIsTrue(x: Timed, e: TimedEvent, last: nat)
    requires IsFlash(x.app.flash) && Synchronized(x, last)
    requires e.At? ==> last <= e.t < last + HALF
    ensures Synchronized(TrueStep(x, e), if e.At? then e.t else last)
    ensures TrueStep(x, e).app == Step(x.app, Seen(e))
    ensures e.At? ==> (Task(x.app, Wrap(e.t), e.reading).processed <==> IsDue(x, e))
  {
    match e
    case At(t, r) =>
      SamplingIsTrue(x.app, x.next, t, r);
      UpdateKeepsConfig(x.app.node, Judged(r));
    case Reconfigured(c) =>
    case PowerFailed =>
  }

  /** On the wrapping clock the application does in every run what it would do on a clock that
  never wraps: it processes a sample at exactly those calls at which one is really due. */
  lemma {:induction false} RunIsTrue(a: AppState, h: seq<TimedEvent>)
    requires IsFlash(a.flash) && ShortPeriod(a) && a.next == 0 && Steady(h)
    ensures var x := TrueSteps(Timed(a, 0, []), h);
      x.app == Steps(a, SeenAll(h)) && Synchronized(x, LastCall(h))
  {
    if h == [] {
    } else {
      var p, e := h[..|h| - 1], h[|h| - 1];
      RunIsTrue(a, p);
      StepIsTrue(TrueSteps(Timed(a, 0, []), p), e, LastCall(p));
      assert SeenAll(h)[..|h| - 1] == SeenAll(p);
    }
  }

  /** The next call processes a sample exactly if one is really due. */
  lemma ProcessedIffDue(a: AppState, h: seq<TimedEvent>, t: nat, r: Reading)
    requires IsFlash(a.flash) && ShortPeriod(a) && a.next == 0 && Steady(h)
    requires LastCall(h) <= t < LastCall(h) + HALF
    ensures Task(Steps(a, SeenAll(h)), Wrap(t), r).processed <==> TrueSteps(Timed(a, 0, []), h).next <= t
  {
    RunIsTrue(a, h);
    StepIsTrue(TrueSteps(Timed(a, 0, []), h), At(t, r), LastCall(h));
  }

  // ---------- how often ----------

  predicate Paced(times: seq<nat>, period: nat) {
    forall k :: 0 <= k < |times| ==> times[k] >= k * period
  }

  lemma PacedNext(times: seq<nat>, period: nat, t: nat)
    requires Paced(times, period) && t >= |times| * period
    ensures Paced(times + [t], period)
  {
  }

  /** Without reconfigurations the sample numbered k, counted from zero, is processed no earlier
  than k periods. */
  lemma {:induction false} OwnPeriodPaces(a: AppState, h: seq<TimedEvent>)
    requires IsFlash(a.flash) && forall i :: 0 <= i < |h| ==> !h[i].Reconfigured?
    ensures var x := TrueSteps(Timed(a, 0, []), h);
      var period := a.node.c.cfg.period;
      Paced(x.times, period) && x.next >= |x.times| * period && x.app.node.c.cfg.period == period
  {
    if h == [] {
    } else {
      var p, e := h[..|h| - 1], h[|h| - 1];
      OwnPeriodPaces(a, p);
      var x := TrueSteps(Timed(a, 0, []), p);
      if IsDue(x, e) {
        UpdateKeepsConfig(x.app.node, Judged(e.reading));
        PacedNext(x.times, a.node.c.cfg.period, e.t);
        OneMore(|x.times|, a.node.c.cfg.period);
      }
    }
  }

  lemma OneMore(n: nat, period: nat)
    ensures (n + 1) * period == n * period + period
  {
  }

  lemma {:induction false} TimesAmongCalls(x: Timed, h: seq<TimedEvent>, period: nat)
    requires IsFlash(x.app.flash) && x.times == [] && Paced(Calls(h), period)
    ensures var y := TrueSteps(x, h); |y.times| <= |Calls(h)| && Paced(y.times, period)
  {
    if h == [] {
    } else {
      var p, e := h[..|h| - 1], h[|h| - 1];
      PacedPrefix(h, period);
      TimesAmongCalls(x, p, period);
      var y := TrueSteps(x, p);
      if IsDue(y, e) {
        assert Calls(h)[|Calls(p)|] == e.t;
        Scale(|y.times|, |Calls(p)|, period);
        PacedNext(y.times, period, e.t);
      }
    }
  }

  lemma PacedPrefix(h: seq<TimedEvent>, period: nat)
    requires h != [] && Paced(Calls(h), period)
    ensures Paced(Calls(h[..|h| - 1]), period)
  {
    var p := Calls(h[..|h| - 1]);
    assert forall k :: 0 <= k < |p| ==> p[k] == Calls(h)[k];
  }

  /** Called by the scheduler, the application processes its k-th sample no earlier than k times
  the period it was registered with, whatever period is configured later; up to a time T it has
  processed at most floor(T / period) + 1 samples. */
  lemma StartPeriodLimits(a: AppState, h: seq<TimedEvent>, period: nat, polls: seq<nat>)
    requires IsFlash(a.flash) && period > 0 && polls != [] && Scheduler.Ascending(polls)
    requires Calls(h) == Scheduler.Executions(Scheduler.Start(period), polls)
    ensures var times := TrueSteps(Timed(a, 0, []), h).times;
      Paced(times, period) && |times| <= polls[|polls| - 1] / period + 1
  {
    var calls := Calls(h);
    forall k | 0 <= k < |calls|
      ensures calls[k] >= k * period
    {
      Scheduler.RateBound(period, polls, k);
    }
    TimesAmongCalls(Timed(a, 0, []), h, period);
    Scheduler.DeadlineRecedes(period, polls);
    Scheduler.NeverMoreThanOncePerPeriod(period, polls);
  }

  /** The firmware registers the application with 1000 ms, whatever is stored. */
  lemma StartPeriodIsDefault(flash: seq<byte>, present: bool, backup: byte, cause: ResetCause)
    requires IsFlash(flash)
    ensures var a := PowerUp(flash, present, backup, cause);
      a.node.c.cfg.period == 1000 && ShortPeriod(a) && a.next == 0
  {
  }
}
