/** The climate controller as a function of values (src/core/controller.c): what each
operation does to the controller and to the backup byte that survives a reset.

`Controller` holds the imperative controller, proved equal to these functions step by
step; `ControlHistory` proves what they amount to over whole runs. */
module ControlModel {
  import opened Words
  import opened Dewpoint
  import Filter

  datatype Err =
    | ErrOk | ErrInvalidArg | ErrOutOfRange | ErrNotReady | ErrWarmup | ErrSensor | ErrMath
    | ErrStorage | ErrHw | ErrNotFound

  datatype Quality = QualityInvalid | QualityWarmup | QualityValid | QualityFault

  datatype Sample = Sample(temp: int, rh: nat, quality: Quality)

  datatype ResetCause = PowerOn | Watchdog | Software | External | Unknown

  datatype State = Init | Warmup | Run | SensorFault | MathFault | Safe

  datatype Config = Config(
    marginOn: int, marginOff: int, period: u32, faultThreshold: byte, recoveryThreshold: byte, safeRelay: bool)

  const DEFAULTS := Config(500, 700, 1000, 3, 3, false)

  /** controller_t; the filter is represented by its window. */
  datatype Ctrl = Ctrl(
    cfg: Config, window: seq<int>, filtered: int, humidity: nat, dew: int,
    errorStreak: byte, okStreak: byte, relay: bool, state: State, lastError: Err,
    samples: u32, faults: u32, crashes: byte, dying: bool)

  /** A controller together with the backup byte. */
  datatype Node = Node(c: Ctrl, backup: byte)

  datatype Outcome = Outcome(node: Node, err: Err)

  function Next8(x: byte): byte { (x + 1) % 0x100 }

  function Next32(x: u32): u32 { (x + 1) % 0x1_0000_0000 }

  predicate SampleValid(s: Sample) {
    s.quality == QualityValid && TempInRange(s.temp) && s.rh <= RH_MAX
  }

  /** The configuration a controller works with: bad values are replaced. */
  function Sanitized(cfg: Config): Config {
    var margins := if cfg.marginOn >= cfg.marginOff
      then cfg.(marginOn := DEFAULTS.marginOn, marginOff := DEFAULTS.marginOff) else cfg;
    margins.(
      faultThreshold := if cfg.faultThreshold == 0 then 1 else cfg.faultThreshold,
      recoveryThreshold := if cfg.recoveryThreshold == 0 then 1 else cfg.recoveryThreshold,
      period := if cfg.period == 0 then 1000 else cfg.period)
  }

  predicate IsSane(cfg: Config) {
    cfg.marginOn < cfg.marginOff && cfg.faultThreshold > 0 && cfg.recoveryThreshold > 0 && cfg.period > 0
  }

  /** ctrl_init */
  function InitCtrl(cfg: Config): Ctrl {
    var cfg := Sanitized(cfg);
    Ctrl(cfg, [], 0, 0, 0, 0, 0, cfg.safeRelay, Init, ErrNotReady, 0, 0, 0, false)
  }

  /** ctrl_init_extended */
  function Boot(cfg: Config, cause: ResetCause, backup: byte): Node {
    ClassifyReset(Node(InitCtrl(cfg).(crashes := backup), backup), cause)
  }

  /** ctrl_init_extended, once the saved counter has been read back. */
  function ClassifyReset(n: Node, cause: ResetCause): Node {
    match cause
    case Watchdog =>
      var crashes := Next8(n.c.crashes);
      var c := n.c.(crashes := crashes, faults := Next32(n.c.faults), lastError := ErrHw);
      if crashes >= 3 then Node(c.(state := Safe, relay := c.cfg.safeRelay), crashes)
      else Node(c.(state := Warmup), crashes)
    case PowerOn => Node(n.c.(crashes := 0, state := Init), 0)
    case _ => n.(c := n.c.(crashes := 0, state := Init))
  }

  /** ctrl_force_emergency_shutdown, apart from the relay output it also drives. */
  function Shutdown(c: Ctrl): Ctrl {
    c.(dying := true, state := Safe, relay := c.cfg.safeRelay)
  }

  function Reject(c: Ctrl): Ctrl {
    var streak := Next8(c.errorStreak);
    var c := c.(errorStreak := streak, okStreak := 0, lastError := ErrSensor);
    if streak >= c.cfg.faultThreshold
    then c.(state := SensorFault, faults := Next32(c.faults), relay := c.cfg.safeRelay)
    else c
  }

  function MathFaulted(c: Ctrl, e: Err): Ctrl {
    c.(state := MathFault, lastError := e, faults := Next32(c.faults), relay := c.cfg.safeRelay)
  }

  function Switched(cfg: Config, relay: bool, margin: int): bool {
    if !relay then margin < cfg.marginOn else margin <= cfg.marginOff
  }

  /** ctrl_update, once the dew point routine has answered. */
  function Judge(n: Node, r: DewResult): Outcome {
    match r
    case OutOfRange => Outcome(n.(c := MathFaulted(n.c, ErrOutOfRange)), ErrOutOfRange)
    case MathError => Outcome(n.(c := MathFaulted(n.c, ErrMath)), ErrMath)
    case Dew(dew) =>
      var relay := Switched(n.c.cfg, n.c.relay, n.c.filtered - dew);
      Outcome(
        Node(n.c.(dew := dew, relay := relay, crashes := 0, state := Run, lastError := ErrOk),
             if n.c.crashes > 0 then 0 else n.backup),
        ErrOk)
  }

  function Measured(c: Ctrl, s: Sample): Ctrl {
    var w := Filter.Pushed(c.window, s.temp);
    c.(okStreak := 0, humidity := s.rh, window := w, filtered := Filter.Average(w))
  }

  function Warming(c: Ctrl): Ctrl {
    c.(state := Warmup, lastError := ErrWarmup, relay := c.cfg.safeRelay)
  }

  /** ctrl_update, once a sample has been accepted. */
  function Accept(n: Node, s: Sample): Outcome {
    var c := Measured(n.c, s);
    if |c.window| < Filter.SIZE then
      Outcome(n.(c := Warming(c)), ErrWarmup)
    else
      Judge(n.(c := c), DewPoint(c.filtered, c.humidity))
  }

  predicate Recovering(c: Ctrl) {
    (c.state == SensorFault || c.state == MathFault) && Next8(c.okStreak) < c.cfg.recoveryThreshold
  }

  /** ctrl_update, for a valid sample. */
  function Admit(n: Node, s: Sample): Outcome {
    var c := n.c.(errorStreak := 0);
    if Recovering(c) then
      Outcome(n.(c := c.(okStreak := Next8(c.okStreak), lastError := ErrNotReady)), ErrNotReady)
    else
      Accept(n.(c := c), s)
  }

  /** ctrl_update */
  function Update(n: Node, s: Sample): Outcome {
    if n.c.state == Safe || n.c.dying then
      Outcome(n.(c := n.c.(relay := n.c.cfg.safeRelay)), ErrHw)
    else
      var c := n.c.(samples := Next32(n.c.samples));
      if SampleValid(s) then Admit(n.(c := c), s) else Outcome(n.(c := Reject(c)), ErrSensor)
  }
}
