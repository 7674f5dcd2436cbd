/** The controller over whole runs: its state, filter and relay as functions of the samples
seen, and the backup byte as a function of the boots. */
module ControlHistory {
  import opened Words
  import opened Dewpoint
  import opened ControlModel
  import Filter

  // ---------- every reachable controller ----------

  datatype Event =
    | Reset(cfg: Config, cause: ResetCause)
    | Reconfigure(cfg: Config)
    | Measure(sample: Sample)
    | PowerFailure

  /** One whole call to the controller. */
  function Apply(n: Node, e: Event): Outcome {
    match e
    case Reset(cfg, cause) => Outcome(Boot(cfg, cause, n.backup), ErrOk)
    case Reconfigure(cfg) => Outcome(n.(c := InitCtrl(cfg)), ErrOk)
    case Measure(s) => Update(n, s)
    case PowerFailure => Outcome(n.(c := Shutdown(n.c)), ErrOk)
  }

  function Events(n: Node, h: seq<Event>): Node {
    if h == [] then n else Apply(Events(n, h[..|h| - 1]), h[|h| - 1]).node
  }

  /** What every reachable controller satisfies. */
  predicate Sound(c: Ctrl) {
    && IsSane(c.cfg)
    && |c.window| <= Filter.SIZE && Filter.AllWithin(c.window, TEMP_MIN, TEMP_MAX)
    && TempInRange(c.filtered) && TempInRange(c.dew) && c.humidity <= RH_MAX
    && c.state != MathFault
    && (c.state == Run ==> |c.window| == Filter.SIZE)
    && (c.state != Run ==> c.relay == c.cfg.safeRelay)
    && (c.dying ==> c.state == Safe)
  }

  lemma AcceptKeepsSound(n: Node, s: Sample)
    requires Sound(n.c) && !n.c.dying && SampleValid(s)
    ensures Sound(Accept(n, s).node.c)
    ensures Accept(n, s).err == if |Filter.Pushed(n.c.window, s.temp)| < Filter.SIZE then ErrWarmup else ErrOk
  {
    var w := Filter.Pushed(n.c.window, s.temp);
    Filter.SumsFitInt32(n.c.window, s.temp);
    Filter.AverageWithin(w, TEMP_MIN, TEMP_MAX);
    DewPointVerdict(Filter.Average(w), s.rh);
    DewPointMonotone(Filter.Average(w), Filter.Average(w), s.rh, s.rh);
  }

  lemma ApplyKeepsSound(n: Node, e: Event)
    requires Sound(n.c)
    ensures Sound(Apply(n, e).node.c)
  {
    if e.Measure? && SampleValid(e.sample) && !(n.c.state == Safe || n.c.dying) {
      var c := n.c.(samples := Next32(n.c.samples), errorStreak := 0);
      if !Recovering(c) { AcceptKeepsSound(n.(c := c), e.sample); }
    }
  }

  /** No history of boots, reconfigurations, samples and power failures ever reaches the
  math fault state; outside RUN the relay always has its safe value. */
  lemma {:induction false} EventsKeepSound(n: Node, h: seq<Event>)
    requires Sound(n.c)
    ensures Sound(Events(n, h).c)
  {
    if h == [] {
    } else {
      EventsKeepSound(n, h[..|h| - 1]);
      ApplyKeepsSound(Events(n, h[..|h| - 1]), h[|h| - 1]);
    }
  }

  lemma InitIsSound(cfg: Config)
    ensures Sound(InitCtrl(cfg)) && IsSane(Sanitized(cfg))
  {
  }

  /** In no history does an int32 computation of the filter, the dew point or the margin
  overflow on the next accepted sample. */
  lemma NoOverflowInAnyRun(cfg: Config, backup: byte, h: seq<Event>, s: Sample)
    requires SampleValid(s)
    ensures var w := Events(Node(InitCtrl(cfg), backup), h).c.window;
      var w' := Filter.Pushed(w, s.temp);
      var avg := Filter.Average(w');
      && InI32(Filter.Sum(w)) && InI32(Filter.Sum(w'))
      && (|w| == Filter.SIZE ==> InI32(Filter.Sum(w) - w[0]))
      && TempInRange(avg)
      && ComputationFits(avg, s.rh)
      && DewPoint(avg, s.rh).Dew? && 0 <= avg - DewPoint(avg, s.rh).cd <= 12500
  {
    InitIsSound(cfg);
    var n := Node(InitCtrl(cfg), backup);
    EventsKeepSound(n, h);
    var w := Events(n, h).c.window;
    Filter.SumsFitInt32(w, s.temp);
    var w' := Filter.Pushed(w, s.temp);
    Filter.AverageWithin(w', TEMP_MIN, TEMP_MAX);
    NoOverflow(Filter.Average(w'), s.rh);
    DewPointVerdict(Filter.Average(w'), s.rh);
    DewPointMonotone(Filter.Average(w'), Filter.Average(w'), s.rh, s.rh);
  }

  // ---------- runs of samples ----------

  /** A controller just initialised: ctrl_init, or any boot that does not land in SAFE. */
  predicate Fresh(c: Ctrl) {
    && IsSane(c.cfg) && c.window == [] && c.errorStreak == 0 && c.okStreak == 0
    && c.relay == c.cfg.safeRelay && (c.state == Init || c.state == Warmup) && !c.dying
    && c.filtered == 0 && c.dew == 0 && c.humidity == 0
  }

  lemma BootsAreFresh(cfg: Config, cause: ResetCause, backup: byte)
    ensures Fresh(InitCtrl(cfg))
    ensures Boot(cfg, cause, backup).c.state != Safe ==> Fresh(Boot(cfg, cause, backup).c)
  {
  }

  function Samples(n: Node, h: seq<Sample>): Node {
    if h == [] then n else Update(Samples(n, h[..|h| - 1]), h[|h| - 1]).node
  }

  /** Length of the run of invalid samples at the end. */
  function BadRun(h: seq<Sample>): nat {
    if h == [] || SampleValid(h[|h| - 1]) then 0 else 1 + BadRun(h[..|h| - 1])
  }

  function GoodRun(h: seq<Sample>): nat {
    if h == [] || !SampleValid(h[|h| - 1]) then 0 else 1 + GoodRun(h[..|h| - 1])
  }

  predicate AllValid(h: seq<Sample>, from: nat, to: nat) {
    to <= |h| && forall k :: from <= k < to ==> SampleValid(h[k])
  }

  predicate AllInvalid(h: seq<Sample>, from: nat, to: nat) {
    to <= |h| && forall k :: from <= k < to ==> !SampleValid(h[k])
  }

  /** At some point `ft` invalid samples in a row had come in, and since then there have not
  been `rt` valid samples in a row. */
  ghost predicate Faulted(ft: nat, rt: nat, h: seq<Sample>) {
    exists i: nat :: FaultFrom(ft, rt, h, i)
  }

  predicate FaultFrom(ft: nat, rt: nat, h: seq<Sample>, i: nat) {
    && ft <= i && AllInvalid(h, i - ft, i)
    && forall j :: i <= j <= |h| ==> !RecoveryAt(rt, h, j)
  }

  predicate RecoveryAt(rt: nat, h: seq<Sample>, j: int) {
    j >= 0 && AllValid(h, j, j + rt)
  }

  /** The same by recursion on the latest sample. */
  predicate InFault(ft: nat, rt: nat, h: seq<Sample>) {
    if h == [] then false
    else if SampleValid(h[|h| - 1]) then InFault(ft, rt, h[..|h| - 1]) && GoodRun(h) < rt
    else InFault(ft, rt, h[..|h| - 1]) || BadRun(h) >= ft
  }

  /** Temperatures of the samples that reach the filter: valid ones outside a fault. */
  function Accepted(ft: nat, rt: nat, h: seq<Sample>): (a: seq<int>)
    ensures |a| <= |h|
  {
    if h == [] then []
    else
      var rest := Accepted(ft, rt, h[..|h| - 1]);
      if SampleValid(h[|h| - 1]) && !InFault(ft, rt, h) then rest + [h[|h| - 1].temp] else rest
  }

  /** Humidity of the latest sample that reached the filter. */
  function LatestHumidity(ft: nat, rt: nat, h: seq<Sample>): nat {
    if h == [] then 0
    else if SampleValid(h[|h| - 1]) && !InFault(ft, rt, h) then h[|h| - 1].rh
    else LatestHumidity(ft, rt, h[..|h| - 1])
  }

  /** Times the error streak stood at the fault threshold or above, as the byte shows it. */
  function Alarms(ft: nat, h: seq<Sample>): nat {
    if h == [] then 0 else Alarms(ft, h[..|h| - 1]) + if BadRun(h) > 0 && BadRun(h) % 0x100 >= ft then 1 else 0
  }

  /** The error code for the latest sample. */
  function Verdict(valid: bool, fault: bool, accepted: nat): Err {
    if !valid then ErrSensor
    else if fault then ErrNotReady
    else if accepted < Filter.SIZE then ErrWarmup
    else ErrOk
  }

  function StateOf(start: State, fault: bool, accepted: nat): State {
    if fault then SensorFault
    else if accepted == 0 then start
    else if accepted < Filter.SIZE then Warmup
    else Run
  }

  /** The margin on which a relay decision rests: average temperature minus dew point. */
  function MarginOf(accepted: seq<int>, rh: nat): int {
    var avg := Filter.Average(Filter.LastFive(accepted));
    match DewPoint(avg, rh)
    case Dew(dew) => avg - dew
    case _ => 0
  }

  datatype Decision = ForcedSafe | MarginBelowOn | MarginAboveOff | NoDecision

  function Decide(cfg: Config, valid: bool, fault: bool, accepted: seq<int>, rh: nat): Decision {
    if fault || |accepted| < Filter.SIZE then ForcedSafe
    else if !valid then NoDecision
    else if MarginOf(accepted, rh) < cfg.marginOn then MarginBelowOn
    else if MarginOf(accepted, rh) > cfg.marginOff then MarginAboveOff
    else NoDecision
  }

  /** What the latest sample says about the relay, without looking at the relay. */
  function LatestDecision(cfg: Config, h: seq<Sample>): Decision
    requires h != []
  {
    var ft, rt := cfg.faultThreshold, cfg.recoveryThreshold;
    Decide(cfg, SampleValid(h[|h| - 1]), InFault(ft, rt, h), Accepted(ft, rt, h), LatestHumidity(ft, rt, h))
  }

  function Obeyed(cfg: Config, d: Decision, relay: bool): bool {
    match d
    case ForcedSafe => cfg.safeRelay
    case MarginBelowOn => true
    case MarginAboveOff => false
    case NoDecision => relay
  }

  /** The relay as decided by the latest decision in the history. */
  function RelayOf(cfg: Config, h: seq<Sample>): bool {
    if h == [] then cfg.safeRelay
    else Obeyed(cfg, LatestDecision(cfg, h), RelayOf(cfg, h[..|h| - 1]))
  }

  /** What a history leaves behind for the controller. */
  datatype Digest = Digest(bad: nat, good: nat, fault: bool, accepted: seq<int>, rh: nat, relay: bool)

  function DigestOf(cfg: Config, h: seq<Sample>): Digest {
    var ft, rt := cfg.faultThreshold, cfg.recoveryThreshold;
    Digest(
      BadRun(h), GoodRun(h), InFault(ft, rt, h), Accepted(ft, rt, h), LatestHumidity(ft, rt, h), RelayOf(cfg, h))
  }

  function NextDigest(cfg: Config, d: Digest, s: Sample): Digest {
    var valid := SampleValid(s);
    var bad := if valid then 0 else d.bad + 1;
    var good := if valid then d.good + 1 else 0;
    var fault := if valid then d.fault && good < cfg.recoveryThreshold else d.fault || bad >= cfg.faultThreshold;
    var accepted := if valid && !fault then d.accepted + [s.temp] else d.accepted;
    var rh := if valid && !fault then s.rh else d.rh;
    Digest(bad, good, fault, accepted, rh, Obeyed(cfg, Decide(cfg, valid, fault, accepted, rh), d.relay))
  }

  lemma DigestStep(cfg: Config, h: seq<Sample>)
    requires h != []
    ensures DigestOf(cfg, h) == NextDigest(cfg, DigestOf(cfg, h[..|h| - 1]), h[|h| - 1])
  {
  }

  /** The controller remembers exactly this of its history. */
  predicate Follows(start: Ctrl, c: Ctrl, d: Digest) {
    && c.cfg == start.cfg && !c.dying
    && c.window == Filter.LastFive(d.accepted)
    && c.state == StateOf(start.state, d.fault, |d.accepted|)
    && c.relay == d.relay
    && c.humidity == d.rh
    && c.filtered == Filter.Average(c.window)
    && (|d.accepted| >= Filter.SIZE ==> c.filtered - c.dew == MarginOf(d.accepted, d.rh))
    && c.errorStreak == d.bad % 0x100
    && c.okStreak == (if d.fault then d.good else 0)
    && (d.bad >= c.cfg.faultThreshold ==> d.fault)
    && (d.fault ==> d.good < c.cfg.recoveryThreshold)
  }

  /** The state, the filter window and the relay are functions of the sample history. */
  lemma {:induction false} ControllerFollowsHistory(start: Node, h: seq<Sample>)
    requires Fresh(start.c)
    ensures Follows(start.c, Samples(start, h).c, DigestOf(start.c.cfg, h))
    ensures Sound(Samples(start, h).c)
  {
    if h == [] {
    } else {
      var p := h[..|h| - 1];
      ControllerFollowsHistory(start, p);
      DigestStep(start.c.cfg, h);
      ApplyKeepsSound(Samples(start, p), Measure(h[|h| - 1]));
      FollowsStep(start.c, Samples(start, p), DigestOf(start.c.cfg, p), h[|h| - 1]);
    }
  }

  lemma FollowsStep(start: Ctrl, n: Node, d: Digest, s: Sample)
    requires Fresh(start) && Follows(start, n.c, d) && Sound(n.c)
    ensures Follows(start, Update(n, s).node.c, NextDigest(start.cfg, d, s))
  {
    if !SampleValid(s) {
      RejectedStep(start, n.c.(samples := Next32(n.c.samples)), d, s);
    } else {
      var c := n.c.(samples := Next32(n.c.samples), errorStreak := 0);
      if Recovering(c) {
        HeldStep(start, c, d, s);
      } else {
        AcceptedStep(start, n.(c := c), d, s);
      }
    }
  }

  lemma RejectedStep(start: Ctrl, c: Ctrl, d: Digest, s: Sample)
    requires Fresh(start) && Follows(start, c, d) && !SampleValid(s)
    requires c.state != Run ==> c.relay == c.cfg.safeRelay
    ensures Follows(start, Reject(c), NextDigest(start.cfg, d, s))
  {
    StreakWraps(d.bad);
  }

  lemma StreakWraps(bad: nat)
    ensures Next8(bad % 0x100) == (bad + 1) % 0x100
  {
  }

  lemma HeldStep(start: Ctrl, c: Ctrl, d: Digest, s: Sample)
    requires Fresh(start) && SampleValid(s) && Recovering(c) && c.relay == c.cfg.safeRelay
    requires Follows(start, c.(errorStreak := d.bad % 0x100), d) && c.errorStreak == 0
    ensures Follows(start, c.(okStreak := Next8(c.okStreak), lastError := ErrNotReady), NextDigest(start.cfg, d, s))
  {
  }

  /** With the margins in order, switching by the margin obeys the decision. */
  lemma SwitchIsDecision(cfg: Config, relay: bool, accepted: seq<int>, rh: nat)
    requires IsSane(cfg) && |accepted| >= Filter.SIZE
    ensures Switched(cfg, relay, MarginOf(accepted, rh))
      == Obeyed(cfg, Decide(cfg, true, false, accepted, rh), relay)
  {
  }

  lemma AcceptedStep(start: Ctrl, n: Node, d: Digest, s: Sample)
    requires Fresh(start) && Sound(n.c) && SampleValid(s) && !NextDigest(start.cfg, d, s).fault
    requires n.c.cfg == start.cfg && !n.c.dying && n.c.errorStreak == 0
    requires n.c.window == Filter.LastFive(d.accepted) && n.c.relay == d.relay
    ensures Follows(start, Accept(n, s).node.c, NextDigest(start.cfg, d, s))
  {
    Filter.PushedIsLastFive(d.accepted, s.temp);
    if |Filter.Pushed(n.c.window, s.temp)| == Filter.SIZE { AcceptedIntoRun(start, n, d, s); }
  }

  lemma AcceptedIntoRun(start: Ctrl, n: Node, d: Digest, s: Sample)
    requires Fresh(start) && Sound(n.c) && SampleValid(s) && !NextDigest(start.cfg, d, s).fault
    requires n.c.cfg == start.cfg && !n.c.dying && n.c.errorStreak == 0
    requires n.c.window == Filter.LastFive(d.accepted) && n.c.relay == d.relay
    requires Filter.Pushed(n.c.window, s.temp) == Filter.LastFive(d.accepted + [s.temp])
    requires |Filter.Pushed(n.c.window, s.temp)| == Filter.SIZE
    ensures Follows(start, Accept(n, s).node.c, NextDigest(start.cfg, d, s))
  {
    var w := Filter.Pushed(n.c.window, s.temp);
    Filter.SumsFitInt32(n.c.window, s.temp);
    Filter.AverageWithin(w, TEMP_MIN, TEMP_MAX);
    DewPointVerdict(Filter.Average(w), s.rh);
    SwitchIsDecision(start.cfg, d.relay, d.accepted + [s.temp], s.rh);
    assert |d.accepted + [s.temp]| >= Filter.SIZE;
  }

  // ---------- what the history functions mean ----------

  lemma {:induction false} GoodRunIsTail(h: seq<Sample>)
    ensures GoodRun(h) <= |h| && AllValid(h, |h| - GoodRun(h), |h|)
    ensures GoodRun(h) < |h| ==> !SampleValid(h[|h| - GoodRun(h) - 1])
  {
    if h == [] || !SampleValid(h[|h| - 1]) {
    } else {
      GoodRunIsTail(h[..|h| - 1]);
    }
  }

  lemma {:induction false} BadRunIsTail(h: seq<Sample>)
    ensures BadRun(h) <= |h| && AllInvalid(h, |h| - BadRun(h), |h|)
    ensures BadRun(h) < |h| ==> SampleValid(h[|h| - BadRun(h) - 1])
  {
    if h == [] || SampleValid(h[|h| - 1]) {
    } else {
      BadRunIsTail(h[..|h| - 1]);
    }
  }

  /** The recursive fault predicate says exactly: `ft` invalid samples in a row, and no `rt`
  valid samples in a row since. */
  lemma {:induction false} InFaultIffFaulted(ft: nat, rt: nat, h: seq<Sample>)
    requires ft > 0 && rt > 0
    ensures InFault(ft, rt, h) <==> Faulted(ft, rt, h)
  {
    if h == [] {
    } else {
      var p := h[..|h| - 1];
      InFaultIffFaulted(ft, rt, p);
      GoodRunIsTail(h);
      BadRunIsTail(h);
      if InFault(ft, rt, h) {
        if InFault(ft, rt, p) {
          var i: nat :| FaultFrom(ft, rt, p, i);
          FaultPersists(ft, rt, h, i);
        } else {
          FaultStarts(ft, rt, h);
        }
      }
      if Faulted(ft, rt, h) {
        var i: nat :| FaultFrom(ft, rt, h, i);
        FaultWasThere(ft, rt, h, i);
      }
    }
  }

  lemma FaultPersists(ft: nat, rt: nat, h: seq<Sample>, i: nat)
    requires ft > 0 && rt > 0 && h != [] && FaultFrom(ft, rt, h[..|h| - 1], i)
    requires SampleValid(h[|h| - 1]) ==> GoodRun(h) < rt
    ensures FaultFrom(ft, rt, h, i)
  {
    GoodRunIsTail(h);
    forall j | i <= j <= |h|
      ensures !RecoveryAt(rt, h, j)
    {
      if RecoveryAt(rt, h, j) {
        if j + rt < |h| {
          assert RecoveryAt(rt, h[..|h| - 1], j);
        }
      }
    }
  }

  lemma FaultStarts(ft: nat, rt: nat, h: seq<Sample>)
    requires ft > 0 && rt > 0 && BadRun(h) >= ft
    ensures FaultFrom(ft, rt, h, |h|)
  {
    BadRunIsTail(h);
  }

  lemma FaultWasThere(ft: nat, rt: nat, h: seq<Sample>, i: nat)
    requires ft > 0 && rt > 0 && h != [] && FaultFrom(ft, rt, h, i)
    requires Faulted(ft, rt, h[..|h| - 1]) ==> InFault(ft, rt, h[..|h| - 1])
    ensures InFault(ft, rt, h)
  {
    GoodRunIsTail(h);
    BadRunIsTail(h);
    if i < |h| {
      FaultInPrefix(ft, rt, h, i);
      assert !SampleValid(h[i - 1]);
      assert GoodRun(h) < rt || RecoveryAt(rt, h, |h| - rt);
    }
  }

  lemma FaultInPrefix(ft: nat, rt: nat, h: seq<Sample>, i: nat)
    requires i < |h| && FaultFrom(ft, rt, h, i)
    ensures FaultFrom(ft, rt, h[..|h| - 1], i)
  {
    var p := h[..|h| - 1];
    forall j | i <= j <= |p|
      ensures !RecoveryAt(rt, p, j)
    {
      if RecoveryAt(rt, p, j) { assert RecoveryAt(rt, h, j); }
    }
  }

  /** The sensor fault state is entered and left by exactly the documented debouncing, even
  though the error counter is a byte that wraps. */
  lemma FaultIffHistory(start: Node, h: seq<Sample>)
    requires Fresh(start.c)
    ensures Samples(start, h).c.state == SensorFault <==>
      Faulted(start.c.cfg.faultThreshold, start.c.cfg.recoveryThreshold, h)
  {
    ControllerFollowsHistory(start, h);
    InFaultIffFaulted(start.c.cfg.faultThreshold, start.c.cfg.recoveryThreshold, h);
  }

  /** Outside a fault the state counts the accepted samples: the initial state before the first,
  WARMUP up to four, RUN from the fifth on. */
  lemma StateFollowsHistory(start: Node, h: seq<Sample>)
    requires Fresh(start.c)
    ensures var ft, rt := start.c.cfg.faultThreshold, start.c.cfg.recoveryThreshold;
      var state, n := Samples(start, h).c.state, |Accepted(ft, rt, h)|;
      !InFault(ft, rt, h) ==>
        && (state == Run <==> n >= 5) && (state == Warmup <==> 1 <= n < 5 || (n == 0 && start.c.state == Warmup))
        && (n == 0 ==> state == start.c.state)
  {
    ControllerFollowsHistory(start, h);
  }

  /** The error code returned for a sample, and kept as the last error, follows from the
  history: sensor error, recovering, warming up, or success. */
  lemma VerdictFollowsHistory(start: Node, h: seq<Sample>)
    requires Fresh(start.c) && h != []
    ensures var ft, rt := start.c.cfg.faultThreshold, start.c.cfg.recoveryThreshold;
      var o := Update(Samples(start, h[..|h| - 1]), h[|h| - 1]);
      var valid, fault, n := SampleValid(h[|h| - 1]), InFault(ft, rt, h), |Accepted(ft, rt, h)|;
      && o.node.c.lastError == o.err
      && (o.err == ErrSensor <==> !valid)
      && (o.err == ErrNotReady <==> valid && fault)
      && (o.err == ErrWarmup <==> valid && !fault && n < 5)
      && (o.err == ErrOk <==> valid && !fault && n >= 5)
  {
    var p, s := h[..|h| - 1], h[|h| - 1];
    ControllerFollowsHistory(start, p);
    DigestStep(start.c.cfg, h);
    VerdictStep(start.c, Samples(start, p), DigestOf(start.c.cfg, p), s);
  }

  lemma VerdictStep(start: Ctrl, n: Node, d: Digest, s: Sample)
    requires Fresh(start) && Follows(start, n.c, d) && Sound(n.c)
    ensures var o, e := Update(n, s), NextDigest(start.cfg, d, s);
      o.err == o.node.c.lastError == Verdict(SampleValid(s), e.fault, |e.accepted|)
  {
    VerdictOfUpdate(n, s);
    SameVerdict(start, n.c, d, s);
  }

  lemma SameVerdict(start: Ctrl, c: Ctrl, d: Digest, s: Sample)
    requires Fresh(start) && Follows(start, c, d) && |c.window| <= Filter.SIZE
    ensures var e := NextDigest(start.cfg, d, s);
      Verdict(SampleValid(s), Recovering(c), |Filter.Pushed(c.window, s.temp)|) ==
        Verdict(SampleValid(s), e.fault, |e.accepted|)
  {
    if SampleValid(s) && !Recovering(c) {
      Filter.PushedIsLastFive(d.accepted, s.temp);
    }
  }

  lemma VerdictOfUpdate(n: Node, s: Sample)
    requires Sound(n.c) && n.c.state != Safe
    ensures var o := Update(n, s);
      var pushed := Filter.Pushed(n.c.window, s.temp);
      o.err == o.node.c.lastError == Verdict(SampleValid(s), Recovering(n.c), |pushed|)
  {
    if SampleValid(s) {
      var c := n.c.(samples := Next32(n.c.samples), errorStreak := 0);
      if !Recovering(c) { AcceptKeepsSound(n.(c := c), s); }
    }
  }

  /** The counters count: samples seen, and alarms as the wrapping error streak shows them. */
  lemma {:induction false} CountersFollowHistory(start: Node, h: seq<Sample>)
    requires Fresh(start.c)
    ensures CountsOf(Samples(start, h).c) == Advance(CountsOf(start.c), |h|, Alarms(start.c.cfg.faultThreshold, h))
  {
    if h == [] {
    } else {
      var p, ft := h[..|h| - 1], start.c.cfg.faultThreshold;
      CountersFollowHistory(start, p);
      LastSampleCounts(start, h);
      AlarmsAppend(ft, h);
      AdvanceStep(CountsOf(start.c), |p|, Alarms(ft, p), Alarming(BadRun(p), h[|h| - 1], ft));
    }
  }

  lemma LastSampleCounts(start: Node, h: seq<Sample>)
    requires Fresh(start.c) && h != []
    ensures var p, ft := h[..|h| - 1], start.c.cfg.faultThreshold;
      CountsOf(Samples(start, h).c) ==
        Next(CountsOf(Samples(start, p).c), Alarming(BadRun(p), h[|h| - 1], ft))
  {
    var p := h[..|h| - 1];
    StreakFollowsHistory(start, p);
    UpdateCounts(Samples(start, p), h[|h| - 1], BadRun(p));
  }

  datatype Counts = Counts(samples: u32, faults: u32)

  function CountsOf(c: Ctrl): Counts { Counts(c.samples, c.faults) }

  function Next(k: Counts, alarm: bool): Counts {
    Counts(Next32(k.samples), if alarm then Next32(k.faults) else k.faults)
  }

  /** Both counters are 32 bits wide. */
  function Advance(k: Counts, samples: nat, alarms: nat): Counts {
    Counts(Wrap(k.samples + samples), Wrap(k.faults + alarms))
  }

  /** Whether the sample makes the error streak stand at the fault threshold or above. */
  predicate Alarming(bad: nat, s: Sample, ft: nat) { !SampleValid(s) && (bad + 1) % 0x100 >= ft }

  lemma AdvanceStep(k: Counts, samples: nat, alarms: nat, alarm: bool)
    ensures Next(Advance(k, samples, alarms), alarm) ==
      Advance(k, samples + 1, alarms + if alarm then 1 else 0)
  {
    WrapAdds(k.samples + samples, 1);
    WrapAdds(k.faults + alarms, if alarm then 1 else 0);
  }

  /** The error streak is the run of invalid samples, modulo 256, and the relay obeys the
  decisions. */
  lemma StreakFollowsHistory(start: Node, h: seq<Sample>)
    requires Fresh(start.c)
    ensures var c := Samples(start, h).c;
      Sound(c) && c.state != Safe && c.cfg == start.c.cfg && c.errorStreak == BadRun(h) % 0x100
      && c.relay == RelayOf(start.c.cfg, h)
  {
    ControllerFollowsHistory(start, h);
  }

  lemma AlarmsAppend(ft: nat, h: seq<Sample>)
    requires h != [] && ft > 0
    ensures var p := h[..|h| - 1];
      Alarms(ft, h) == Alarms(ft, p) + if Alarming(BadRun(p), h[|h| - 1], ft) then 1 else 0
  {
  }

  lemma UpdateCounts(n: Node, s: Sample, bad: nat)
    requires Sound(n.c) && n.c.state != Safe && n.c.errorStreak == bad % 0x100
    ensures CountsOf(Update(n, s).node.c) == Next(CountsOf(n.c), Alarming(bad, s, n.c.cfg.faultThreshold))
  {
    var c := n.c.(samples := Next32(n.c.samples));
    if SampleValid(s) {
      AdmitCounts(n.(c := c), s);
    } else {
      StreakWraps(bad);
      RejectCounts(c);
    }
  }

  lemma RejectCounts(c: Ctrl)
    ensures CountsOf(Reject(c)) ==
      Counts(c.samples, if Next8(c.errorStreak) >= c.cfg.faultThreshold then Next32(c.faults) else c.faults)
  {
  }

  lemma AdmitCounts(n: Node, s: Sample)
    requires Sound(n.c) && !n.c.dying && SampleValid(s)
    ensures CountsOf(Admit(n, s).node.c) == CountsOf(n.c)
  {
    var c := n.c.(errorStreak := 0);
    if !Recovering(c) { AcceptCounts(n.(c := c), s); }
  }

  lemma AcceptCounts(n: Node, s: Sample)
    requires Sound(n.c) && !n.c.dying && SampleValid(s)
    ensures CountsOf(Accept(n, s).node.c) == CountsOf(n.c)
  {
    AcceptKeepsSound(n, s);
  }

  /** The filter output is the truncated average of the last five accepted temperatures. */
  lemma FilterFollowsHistory(start: Node, h: seq<Sample>)
    requires Fresh(start.c)
    ensures var accepted := Accepted(start.c.cfg.faultThreshold, start.c.cfg.recoveryThreshold, h);
      var c := Samples(start, h).c;
      var n := |accepted|;
      && c.window == Filter.LastFive(accepted)
      && (n > 0 ==> Filter.IsQuotient(c.filtered, Filter.Sum(c.window), |c.window|))
      && (n >= 5 ==>
            Filter.IsQuotient(
              c.filtered,
              accepted[n - 5] + accepted[n - 4] + accepted[n - 3] + accepted[n - 2] + accepted[n - 1], 5))
  {
    ControllerFollowsHistory(start, h);
    var accepted := Accepted(start.c.cfg.faultThreshold, start.c.cfg.recoveryThreshold, h);
    if accepted != [] { Filter.AverageIsMean(Filter.LastFive(accepted)); }
    if |accepted| >= 5 { Filter.AverageOfFive(Filter.LastFive(accepted)); }
  }

  /** The decisions of a history, in order. */
  function Decisions(cfg: Config, h: seq<Sample>): (ds: seq<Decision>)
    ensures |ds| == |h|
  {
    if h == [] then [] else Decisions(cfg, h[..|h| - 1]) + [LatestDecision(cfg, h)]
  }

  lemma {:induction false} DecisionAt(cfg: Config, h: seq<Sample>, i: nat)
    requires i < |h|
    ensures Decisions(cfg, h)[i] == LatestDecision(cfg, h[..i + 1])
  {
    if i == |h| - 1 {
      assert h[..i + 1] == h;
    } else {
      var p := h[..|h| - 1];
      DecisionAt(cfg, p, i);
      assert p[..i + 1] == h[..i + 1];
    }
  }

  function Relayed(cfg: Config, ds: seq<Decision>): bool {
    if ds == [] then cfg.safeRelay else Obeyed(cfg, ds[|ds| - 1], Relayed(cfg, ds[..|ds| - 1]))
  }

  lemma {:induction false} RelayObeys(cfg: Config, h: seq<Sample>)
    ensures RelayOf(cfg, h) == Relayed(cfg, Decisions(cfg, h))
  {
    if h == [] {
    } else {
      var p := h[..|h| - 1];
      RelayObeys(cfg, p);
      assert Decisions(cfg, h)[..|h| - 1] == Decisions(cfg, p);
    }
  }

  lemma {:induction false} LatestWins(cfg: Config, ds: seq<Decision>, i: nat)
    requires i < |ds| && ds[i] != NoDecision
    requires forall j :: i < j < |ds| ==> ds[j] == NoDecision
    ensures Relayed(cfg, ds) == Obeyed(cfg, ds[i], false)
    decreases |ds|
  {
    if i == |ds| - 1 {
    } else {
      LatestWins(cfg, ds[..|ds| - 1], i);
    }
  }

  /** The relay has the value of the latest decision: forced safe, margin below the switch-on
  threshold, or margin above the switch-off threshold. */
  lemma RelayIsLatestDecision(start: Node, h: seq<Sample>, i: nat)
    requires Fresh(start.c) && i < |h|
    requires Decisions(start.c.cfg, h)[i] != NoDecision
    requires forall j :: i < j < |h| ==> Decisions(start.c.cfg, h)[j] == NoDecision
    ensures Samples(start, h).c.relay == match Decisions(start.c.cfg, h)[i] {
      case ForcedSafe => start.c.cfg.safeRelay
      case MarginBelowOn => true
      case _ => false }
  {
    StreakFollowsHistory(start, h);
    RelayObeys(start.c.cfg, h);
    LatestWins(start.c.cfg, Decisions(start.c.cfg, h), i);
  }

  /** Outside RUN the relay has its safe value. */
  lemma RelaySafeOutsideRun(start: Node, h: seq<Sample>)
    requires Fresh(start.c)
    ensures Samples(start, h).c.state != Run ==> Samples(start, h).c.relay == start.c.cfg.safeRelay
  {
    ControllerFollowsHistory(start, h);
  }

  /** An accepted measurement after the history h switched the relay to `to`. */
  predicate SwitchedInRun(start: Node, h: seq<Sample>, to: bool) {
    && h != []
    && Samples(start, h[..|h| - 1]).c.relay != to && Samples(start, h).c.relay == to
    && Samples(start, h).c.state == Run && SampleValid(h[|h| - 1])
  }

  function MarginAt(c: Ctrl): int { c.filtered - c.dew }

  /** A sample that switches the relay in RUN was judged by the margin. */
  lemma SwitchingStep(n: Node, s: Sample)
    requires Sound(n.c) && SampleValid(s)
    ensures var c := Update(n, s).node.c;
      c.state == Run ==>
        && (c.relay && !n.c.relay ==> MarginAt(c) < n.c.cfg.marginOn)
        && (!c.relay && n.c.relay ==> MarginAt(c) > n.c.cfg.marginOff)
  {
    var c := n.c.(samples := Next32(n.c.samples), errorStreak := 0);
    if !Recovering(c) && !n.c.dying { AcceptKeepsSound(n.(c := c), s); }
  }

  lemma SwitchMargin(start: Node, h: seq<Sample>, to: bool)
    requires Fresh(start.c)
    ensures SwitchedInRun(start, h, to) ==>
      var margin := MarginAt(Samples(start, h).c);
      if to then margin < start.c.cfg.marginOn else margin > start.c.cfg.marginOff
  {
    if SwitchedInRun(start, h, to) {
      ControllerFollowsHistory(start, h[..|h| - 1]);
      SwitchingStep(Samples(start, h[..|h| - 1]), h[|h| - 1]);
    }
  }

  /** Hysteresis: between switching on and switching off in RUN, the margin has risen by more
  than the distance between the two thresholds, and that distance is positive. */
  lemma Hysteresis(start: Node, h: seq<Sample>, i: nat, j: nat)
    requires Fresh(start.c) && i < j <= |h|
    ensures SwitchedInRun(start, h[..i], true) && SwitchedInRun(start, h[..j], false) ==>
      var rise := MarginAt(Samples(start, h[..j]).c) - MarginAt(Samples(start, h[..i]).c);
      rise > start.c.cfg.marginOff - start.c.cfg.marginOn > 0
  {
    SwitchMargin(start, h[..i], true);
    SwitchMargin(start, h[..j], false);
  }

  // ---------- what one sample does to the relay ----------

  /** The margin with the sample's temperature in the filter. */
  function MarginAfter(c: Ctrl, s: Sample): int {
    var avg := Filter.Average(Filter.Pushed(c.window, s.temp));
    match DewPoint(avg, s.rh)
    case Dew(dew) => avg - dew
    case _ => 0
  }

  /** A relay that is on goes off: too large a margin, or one bad sample too many. */
  predicate SwitchesOff(c: Ctrl, s: Sample) {
    if SampleValid(s) then MarginAfter(c, s) > c.cfg.marginOff
    else Next8(c.errorStreak) >= c.cfg.faultThreshold
  }

  /** A relay that is off goes on: a valid sample that is not held back and fills the window, with
  too small a margin. */
  predicate SwitchesOn(c: Ctrl, s: Sample) {
    && c.state != Safe && SampleValid(s) && !Recovering(c)
    && |c.window| + 1 >= Filter.SIZE && MarginAfter(c, s) < c.cfg.marginOn
  }

  lemma RelayAfter(n: Node, s: Sample)
    requires Sound(n.c) && !n.c.cfg.safeRelay
    ensures Update(n, s).node.c.relay <==> if n.c.relay then !SwitchesOff(n.c, s) else SwitchesOn(n.c, s)
    ensures Update(n, s).node.c.state == Safe <==> n.c.state == Safe
  {
    var c := n.c.(samples := Next32(n.c.samples), errorStreak := 0);
    if SampleValid(s) && n.c.state != Safe && !Recovering(c) {
      AcceptRelay(n.(c := c), s);
    }
  }

  lemma AcceptRelay(n: Node, s: Sample)
    requires Sound(n.c) && !n.c.dying && SampleValid(s)
    ensures var c := Accept(n, s).node.c;
      && c.relay == (if |n.c.window| + 1 < Filter.SIZE then n.c.cfg.safeRelay
                     else Switched(n.c.cfg, n.c.relay, MarginAfter(n.c, s)))
      && c.state != Safe
  {
    AcceptKeepsSound(n, s);
  }

  // ---------- saturated air ----------

  predicate Saturated(h: seq<Sample>) {
    forall i :: 0 <= i < |h| ==> SampleValid(h[i]) && h[i].rh >= RH_MAX
  }

  /** In air at 100 % humidity a warmed-up controller has its relay on. */
  lemma SaturatedStep(n: Node, s: Sample)
    requires Sound(n.c) && n.c.state == Run && SampleValid(s) && s.rh >= RH_MAX && n.c.cfg.marginOff >= 1
    ensures var c := Update(n, s).node.c;
      n.c.relay ==> c.state == Run && c.relay
  {
    var c := n.c.(samples := Next32(n.c.samples), errorStreak := 0);
    AcceptSaturated(n.(c := c), s);
  }

  lemma AcceptSaturated(n: Node, s: Sample)
    requires Sound(n.c) && !n.c.dying && SampleValid(s) && s.rh >= RH_MAX
    requires |Filter.Pushed(n.c.window, s.temp)| == Filter.SIZE
    ensures var c := Accept(n, s).node.c;
      c.state == Run && 0 <= MarginAt(c) <= 1 && c.relay == Switched(n.c.cfg, n.c.relay, MarginAt(c))
  {
    var w := Filter.Pushed(n.c.window, s.temp);
    Filter.SumsFitInt32(n.c.window, s.temp);
    Filter.AverageWithin(w, TEMP_MIN, TEMP_MAX);
    DewPointSaturated(Filter.Average(w), s.rh);
  }

  /** Five such samples bring it there, when the margin for switching on is more than one
  hundredth of a degree. */
  lemma SaturatedRun(start: Node, h: seq<Sample>)
    requires Fresh(start.c) && start.c.cfg.marginOn > 1 && |h| >= Filter.SIZE && Saturated(h)
    ensures var c := Samples(start, h).c;
      Sound(c) && c.cfg == start.c.cfg && c.state == Run && c.relay
  {
    var p, s := h[..|h| - 1], h[|h| - 1];
    ControllerFollowsHistory(start, p);
    ControllerFollowsHistory(start, h);
    GoodStart(start, p);
    GoodStart(start, h);
    SaturatedArrival(start, Samples(start, p), DigestOf(start.c.cfg, p), s);
  }

  lemma SaturatedArrival(start: Node, n: Node, d: Digest, s: Sample)
    requires Fresh(start.c) && start.c.cfg.marginOn > 1 && Sound(n.c) && Follows(start.c, n.c, d)
    requires !d.fault && |d.accepted| + 1 >= Filter.SIZE && SampleValid(s) && s.rh >= RH_MAX
    ensures Update(n, s).node.c.relay
  {
    var c := n.c.(samples := Next32(n.c.samples), errorStreak := 0);
    AcceptSaturated(n.(c := c), s);
  }

  lemma {:induction false} GoodStart(start: Node, h: seq<Sample>)
    requires AllValid(h, 0, |h|)
    ensures !InFault(start.c.cfg.faultThreshold, start.c.cfg.recoveryThreshold, h)
    ensures |Accepted(start.c.cfg.faultThreshold, start.c.cfg.recoveryThreshold, h)| == |h|
  {
    if h == [] {
    } else {
      GoodStart(start, h[..|h| - 1]);
    }
  }

  // ---------- recovery ----------

  /** While a fault is being recovered from, valid samples leave filter and relay alone until
  the recovery threshold is reached; the sample that reaches it is processed. */
  lemma {:induction false} RecoveryHolds(n: Node, h: seq<Sample>)
    requires Sound(n.c) && n.c.state == SensorFault && AllValid(h, 0, |h|)
    requires n.c.okStreak + |h| <= n.c.cfg.recoveryThreshold
    requires n.c.okStreak < n.c.cfg.recoveryThreshold
    ensures var c := Samples(n, h).c;
      if n.c.okStreak + |h| < n.c.cfg.recoveryThreshold then
        && c.state == SensorFault && c.okStreak == n.c.okStreak + |h| && c.cfg == n.c.cfg && Sound(c)
        && c.window == n.c.window && c.filtered == n.c.filtered && c.relay == n.c.relay == c.cfg.safeRelay
      else
        c.state != SensorFault && c.window == Filter.Pushed(n.c.window, h[|h| - 1].temp)
  {
    if h == [] {
    } else {
      RecoveryHolds(n, h[..|h| - 1]);
      RecoveryStep(Samples(n, h[..|h| - 1]), h[|h| - 1]);
    }
  }

  lemma RecoveryStep(n: Node, s: Sample)
    requires Sound(n.c) && n.c.state == SensorFault && SampleValid(s)
    requires n.c.okStreak < n.c.cfg.recoveryThreshold
    ensures var c := Update(n, s).node.c;
      if n.c.okStreak + 1 < n.c.cfg.recoveryThreshold then
        && c.state == SensorFault && c.okStreak == n.c.okStreak + 1 && c.cfg == n.c.cfg && Sound(c)
        && c.window == n.c.window && c.filtered == n.c.filtered && c.relay == n.c.relay == c.cfg.safeRelay
      else
        c.state != SensorFault && c.window == Filter.Pushed(n.c.window, s.temp)
  {
    var c := n.c.(samples := Next32(n.c.samples), errorStreak := 0);
    ApplyKeepsSound(n, Measure(s));
    if !Recovering(c) { AcceptKeepsSound(n.(c := c), s); }
  }

  // ---------- SAFE ----------

  /** No sample sequence leaves SAFE or changes the filter there; the relay takes its safe
  value, and the backup byte is left alone. */
  lemma {:induction false} SafeIsAbsorbing(n: Node, h: seq<Sample>)
    requires n.c.state == Safe
    ensures Samples(n, h).backup == n.backup
    ensures Samples(n, h).c == n.c.(relay := if h == [] then n.c.relay else n.c.cfg.safeRelay)
  {
    if h == [] {
    } else {
      SafeIsAbsorbing(n, h[..|h| - 1]);
    }
  }

  /** What leaves SAFE: a reconfiguration, a boot by any other cause than the watchdog, and a
  watchdog boot that brings the 8-bit counter to less than three, be it from 0 or 1 or by
  wrapping from 255. */
  lemma SafeIsLeftBy(n: Node, e: Event)
    requires n.c.state == Safe
    ensures Apply(n, e).node.c.state != Safe <==>
      e.Reconfigure? || (e.Reset? && (e.cause == Watchdog ==> n.backup == 255 || n.backup < 2))
  {
  }
}
