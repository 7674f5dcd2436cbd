/** The controller as the firmware runs it (src/core/controller.c): fields updated in place,
one call at a time, over a relay output and a backup byte that outlives resets.  Every
method is proved to do what `ControlModel` says. */
module Controller {
  import opened Words
  import opened Dewpoint
  import opened ControlModel
  import Filter

  /** Relay output and backup byte (src/platform/host/platform_host.c:41-49,
  src/core/platform_stubs.c:86-111). */
  class Platform {
    var relay: bool
    var backup: byte

    constructor (backup: byte)
      ensures this.backup == backup && !relay
    {
      this.backup := backup;
      relay := false;
    }

    method RelaySet(on: bool)
      modifies this`relay
      ensures relay == on
    {
      relay := on;
    }

    method BackupSave(x: byte)
      modifies this`backup
      ensures backup == x
    {
      backup := x;
    }

    method BackupLoad() returns (x: byte)
      ensures x == backup
    {
      x := backup;
    }
  }

  class Controller {
    const platform: Platform
    const filter: Filter.MaFilter
    var cfg: Config
    var filtered: int
    var humidity: nat
    var dew: int
    var errorStreak: byte
    var okStreak: byte
    var relayOn: bool
    var state: State
    var lastError: Err
    var sampleCount: u32
    var faultCount: u32
    var crashCounter: byte
    var powerIsDying: bool

    ghost predicate Valid()
      reads this, filter, filter.buf
    {
      filter.Valid()
    }

    /** The controller as a value. */
    ghost function View(): Ctrl
      reads this, filter
    {
      Ctrl(cfg, filter.window, filtered, humidity, dew, errorStreak, okStreak, relayOn, state, lastError,
           sampleCount, faultCount, crashCounter, powerIsDying)
    }

    ghost function NodeView(): Node
      reads this, filter, platform
    {
      Node(View(), platform.backup)
    }

    constructor (platform: Platform, cfg: Config)
      ensures Valid() && this.platform == platform && fresh(filter) && fresh(filter.buf)
      ensures View() == InitCtrl(cfg)
    {
      this.platform := platform;
      filter := new Filter.MaFilter();
      this.cfg := cfg;
      filtered, humidity, dew := 0, 0, 0;
      errorStreak, okStreak := 0, 0;
      relayOn, state, lastError := false, State.Init, ErrNotReady;
      sampleCount, faultCount := 0, 0;
      crashCounter, powerIsDying := 0, false;
      new;
      Init(cfg);
    }

    /** ctrl_init */
    method Init(cfg: Config)
      requires Valid()
      modifies this, filter, filter.buf
      ensures Valid() && View() == InitCtrl(cfg)
    {
      this.cfg := cfg;
      Sanitize();
      filter.Init();
      Clear();
    }

    method Clear()
      modifies this`filtered, this`humidity, this`dew, this`errorStreak, this`okStreak, this`relayOn, this`state
      modifies this`lastError, this`sampleCount, this`faultCount, this`crashCounter, this`powerIsDying
      ensures filtered == humidity == dew == 0 && errorStreak == okStreak == 0
      ensures relayOn == cfg.safeRelay && state == State.Init && lastError == ErrNotReady
      ensures sampleCount == faultCount == 0 && crashCounter == 0 && !powerIsDying
    {
      ClearReadings();
      ClearStreaks();
      relayOn := cfg.safeRelay;
      SetState(State.Init, ErrNotReady);
      ClearCounters();
    }

    method Sanitize()
      modifies this`cfg
      ensures cfg == Sanitized(old(cfg))
    {
      if cfg.marginOn >= cfg.marginOff {
        cfg := cfg.(marginOn := DEFAULTS.marginOn, marginOff := DEFAULTS.marginOff);
      }
      if cfg.faultThreshold == 0 {
        cfg := cfg.(faultThreshold := 1);
      }
      if cfg.recoveryThreshold == 0 {
        cfg := cfg.(recoveryThreshold := 1);
      }
      if cfg.period == 0 {
        cfg := cfg.(period := 1000);
      }
    }

    method ClearReadings()
      modifies this`filtered, this`humidity, this`dew
      ensures filtered == humidity == dew == 0
    {
      filtered, humidity, dew := 0, 0, 0;
    }

    method ClearStreaks()
      modifies this`errorStreak, this`okStreak
      ensures errorStreak == okStreak == 0
    {
      errorStreak, okStreak := 0, 0;
    }

    method ClearCounters()
      modifies this`sampleCount, this`faultCount, this`crashCounter, this`powerIsDying
      ensures sampleCount == faultCount == 0 && crashCounter == 0 && !powerIsDying
    {
      sampleCount, faultCount := 0, 0;
      crashCounter, powerIsDying := 0, false;
    }

    method SetState(state: State, e: Err)
      modifies this`state, this`lastError
      ensures this.state == state && lastError == e
    {
      this.state := state;
      lastError := e;
    }

    method CountFault()
      modifies this`faultCount
      ensures faultCount == Next32(old(faultCount))
    {
      faultCount := Next32(faultCount);
    }

    /** ctrl_init_extended */
    method InitExtended(cfg: Config, cause: ResetCause)
      requires Valid()
      modifies this, filter, filter.buf, platform`backup
      ensures Valid() && NodeView() == Boot(cfg, cause, old(platform.backup))
    {
      Init(cfg);
      crashCounter := platform.BackupLoad();
      Classify(cause);
    }

    /** ctrl_init_extended, once the saved counter has been read back. */
    method Classify(cause: ResetCause)
      modifies this`crashCounter, this`faultCount, this`lastError, this`state, this`relayOn, platform`backup
      ensures NodeView() == ClassifyReset(old(NodeView()), cause)
    {
      if cause == Watchdog {
        CountCrash();
        if crashCounter >= 3 {
          state := Safe;
          relayOn := cfg.safeRelay;
          return;
        }
        state := Warmup;
      } else if cause == PowerOn {
        crashCounter := 0;
        platform.BackupSave(crashCounter);
        state := State.Init;
      } else {
        crashCounter := 0;
        state := State.Init;
      }
    }

    method CountCrash()
      modifies this`crashCounter, this`faultCount, this`lastError, platform`backup
      ensures crashCounter == platform.backup == Next8(old(crashCounter))
      ensures faultCount == Next32(old(faultCount)) && lastError == ErrHw
    {
      crashCounter := Next8(crashCounter);
      CountFault();
      lastError := ErrHw;
      platform.BackupSave(crashCounter);
    }

    /** ctrl_force_emergency_shutdown: the only place where the controller drives the relay
    output itself. */
    method ForceEmergencyShutdown()
      requires Valid()
      modifies this, platform`relay
      ensures Valid() && View() == Shutdown(old(View()))
      ensures platform.relay == relayOn
    {
      powerIsDying := true;
      state := Safe;
      relayOn := cfg.safeRelay;
      platform.RelaySet(relayOn);
    }

    /** ctrl_update */
    method Update(s: Sample) returns (err: Err)
      requires Valid()
      modifies this, filter, filter.buf, platform`backup
      ensures Valid() && Outcome(NodeView(), err) == ControlModel.Update(old(NodeView()), s)
    {
      if state == Safe || powerIsDying {
        relayOn := cfg.safeRelay;
        return ErrHw;
      }
      sampleCount := Next32(sampleCount);
      if !SampleValid(s) {
        RejectSample();
        return ErrSensor;
      }
      err := AdmitSample(s);
    }

    /** ctrl_update, for a valid sample. */
    method AdmitSample(s: Sample) returns (err: Err)
      requires Valid()
      modifies this, filter, filter.buf, platform`backup
      ensures Valid() && Outcome(NodeView(), err) == Admit(old(NodeView()), s)
    {
      errorStreak := 0;
      if state == SensorFault || state == MathFault {
        okStreak := Next8(okStreak);
        if okStreak < cfg.recoveryThreshold {
          lastError := ErrNotReady;
          return ErrNotReady;
        }
      }
      err := Process(s);
    }

    method RejectSample()
      requires Valid()
      modifies this
      ensures Valid() && View() == Reject(old(View()))
    {
      CountError();
      if errorStreak >= cfg.faultThreshold {
        state := SensorFault;
        CountFault();
        relayOn := cfg.safeRelay;
      }
    }

    method CountError()
      modifies this`errorStreak, this`okStreak, this`lastError
      ensures errorStreak == Next8(old(errorStreak)) && okStreak == 0 && lastError == ErrSensor
    {
      errorStreak := Next8(errorStreak);
      okStreak := 0;
      lastError := ErrSensor;
    }

    /** ctrl_update, once a sample has been accepted. */
    method Process(s: Sample) returns (err: Err)
      requires Valid()
      modifies this, filter, filter.buf, platform`backup
      ensures Valid() && Outcome(NodeView(), err) == Accept(old(NodeView()), s)
    {
      var warm := Measure(s);
      if !warm {
        EnterWarmup();
        return ErrWarmup;
      }
      var r := DewPoint(filtered, humidity);
      err := Decide(r);
    }

    method Measure(s: Sample) returns (warm: bool)
      requires Valid()
      modifies this`okStreak, this`humidity, this`filtered, filter, filter.buf
      ensures Valid() && View() == Measured(old(View()), s)
      ensures warm <==> |filter.window| == Filter.SIZE
    {
      okStreak := 0;
      humidity := s.rh;
      filtered, warm := filter.Update(s.temp);
    }

    /** ctrl_update, once the dew point routine has answered. */
    method Decide(r: DewResult) returns (err: Err)
      requires Valid()
      modifies this, platform`backup
      ensures Valid() && Outcome(NodeView(), err) == Judge(old(NodeView()), r)
    {
      if r.OutOfRange? {
        EnterMathFault(ErrOutOfRange);
        return ErrOutOfRange;
      } else if r.MathError? {
        EnterMathFault(ErrMath);
        return ErrMath;
      }
      dew := r.cd;
      DriveRelay(filtered - dew);
      ClearCrashes();
      SetState(Run, ErrOk);
      return ErrOk;
    }

    method EnterWarmup()
      modifies this`state, this`lastError, this`relayOn
      ensures View() == Warming(old(View()))
    {
      SetState(Warmup, ErrWarmup);
      relayOn := cfg.safeRelay;
    }

    method EnterMathFault(e: Err)
      requires Valid()
      modifies this
      ensures Valid() && View() == MathFaulted(old(View()), e)
    {
      SetState(MathFault, e);
      CountFault();
      relayOn := cfg.safeRelay;
    }

    method DriveRelay(margin: int)
      modifies this`relayOn
      ensures relayOn == Switched(cfg, old(relayOn), margin)
    {
      if !relayOn {
        if margin < cfg.marginOn {
          relayOn := true;
        }
      } else {
        if margin > cfg.marginOff {
          relayOn := false;
        }
      }
    }

    method ClearCrashes()
      modifies this`crashCounter, platform`backup
      ensures crashCounter == 0
      ensures platform.backup == if old(crashCounter) > 0 then 0 else old(platform.backup)
    {
      if crashCounter > 0 {
        crashCounter := 0;
        platform.BackupSave(crashCounter);
      }
    }
  }
}
