/** What a controller starts with, which samples it takes, and what a boot leaves, in terms of the
documented values alone (src/core/controller.c:7-139). */
module ControlLaws {
  import opened Words
  import opened Dewpoint
  import opened ControlModel
  import opened ControlHistory
  import Filter

  /** Outside SAFE exactly the samples that are not marked valid, or are outside -40..85 degC or
  above 100 % humidity, are answered with a sensor error. */
  lemma RejectedIff(n: Node, s: Sample)
    requires n.c.state != Safe && !n.c.dying
    ensures Update(n, s).err == ErrSensor <==>
      s.quality != QualityValid || s.temp < -4000 || s.temp > 8500 || s.rh > 10000
  {
    var c := n.c.(samples := Next32(n.c.samples), errorStreak := 0);
    if SampleValid(s) && !Recovering(c) {
      AcceptIsNoSensorError(n.(c := c), s);
    }
  }

  lemma AcceptIsNoSensorError(n: Node, s: Sample)
    ensures Accept(n, s).err != ErrSensor
  {
  }

  /** The configuration a controller works with: margins in order as requested, otherwise 5 and 7
  degrees; thresholds of at least one; a period of one second for none. */
  lemma WorkingConfiguration(cfg: Config)
    ensures var c := InitCtrl(cfg).cfg;
      && (if cfg.marginOn < cfg.marginOff then c.marginOn == cfg.marginOn && c.marginOff == cfg.marginOff
          else c.marginOn == 500 && c.marginOff == 700)
      && c.faultThreshold == Max(cfg.faultThreshold, 1) && c.recoveryThreshold == Max(cfg.recoveryThreshold, 1)
      && c.period == (if cfg.period > 0 then cfg.period else 1000) && c.safeRelay == cfg.safeRelay
  {
  }

  function Max(x: int, y: int): int { if x >= y then x else y }

  /** A new controller: nothing measured, nothing counted, the relay safe. */
  lemma NewController(cfg: Config)
    ensures var c := InitCtrl(cfg);
      && c.window == [] && c.filtered == c.dew == 0 && c.humidity == 0 && c.errorStreak == c.okStreak == 0
      && c.relay == cfg.safeRelay && c.state == State.Init && c.lastError == ErrNotReady
      && c.samples == c.faults == 0 && c.crashes == 0 && !c.dying
  {
  }

  /** The emergency shutdown marks the power failure, enters SAFE with the relay safe, and keeps
  everything else. */
  lemma ShutdownOutcome(c: Ctrl)
    ensures Shutdown(c) == c.(dying := true, state := Safe, relay := c.cfg.safeRelay)
  {
  }

  /** A sample that is answered with warming up leaves the relay safe, whatever it was before. */
  lemma WarmingIsSafe(n: Node, s: Sample)
    requires Update(n, s).err == ErrWarmup
    ensures var c := Update(n, s).node.c;
      c.state == Warmup && c.lastError == ErrWarmup && c.relay == c.cfg.safeRelay && |c.window| < 5
  {
  }

  /** In SAFE every sample, whatever it is, is answered with a hardware error and counted nowhere. */
  lemma SafeAnswers(n: Node, s: Sample)
    requires n.c.state == Safe || n.c.dying
    ensures Update(n, s).err == ErrHw
    ensures Update(n, s).node == n.(c := n.c.(relay := n.c.cfg.safeRelay))
  {
  }

  /** The built-in configuration. */
  lemma BuiltInConfiguration()
    ensures DEFAULTS == Config(500, 700, 1000, 3, 3, false)
    ensures InitCtrl(DEFAULTS).cfg == DEFAULTS
  {
  }

  /** A boot starts in INIT, except by the watchdog: then in WARMUP, or in SAFE from the third on,
  with a hardware error and one fault counted.  The relay is safe and nothing else is set. */
  lemma BootOutcome(cfg: Config, cause: ResetCause, backup: byte)
    ensures var c := Boot(cfg, cause, backup).c;
      var crashes := (backup + 1) % 0x100;
      && c.state == (if cause != Watchdog then State.Init else if crashes < 3 then Warmup else Safe)
      && c.lastError == (if cause == Watchdog then ErrHw else ErrNotReady)
      && c.faults == (if cause == Watchdog then 1 else 0)
      && c.crashes == (if cause == Watchdog then crashes else 0)
      && Boot(cfg, cause, backup).backup ==
           (if cause == Watchdog then crashes else if cause == PowerOn then 0 else backup)
    ensures var c, i := Boot(cfg, cause, backup).c, InitCtrl(cfg);
      c == i.(state := c.state, lastError := c.lastError, faults := c.faults, crashes := c.crashes)
  {
  }
}
