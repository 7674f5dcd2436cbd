/** The backup byte over whole histories of boots, reconfigurations, samples and power
failures (src/core/controller.c:94-139, 237-241; src/core/platform_stubs.c:89-111). */
module BootHistory {
  import opened Words
  import opened ControlModel
  import opened ControlHistory
  import Filter

  // ---------- what an event means for the counter ----------

  /** A power-on boot clears counter and byte, a watchdog boot counts, other boots and
  reconfigurations clear the counter but not the byte, and a step is stable that succeeds. */
  datatype Effect = Clears | Crashes | Forgets | Stable | Nothing

  function EffectOf(n: Node, e: Event): Effect {
    match e
    case Reset(_, PowerOn) => Clears
    case Reset(_, Watchdog) => Crashes
    case Reset(_, _) => Forgets
    case Reconfigure(_) => Forgets
    case Measure(_) => if Apply(n, e).err == ErrOk then Stable else Nothing
    case PowerFailure => Nothing
  }

  /** Counter in RAM and backup byte. */
  datatype Counters = Counters(ram: byte, saved: byte)

  function CountersOf(n: Node): Counters { Counters(n.c.crashes, n.backup) }

  function After(k: Counters, x: Effect): Counters {
    match x
    case Clears => Counters(0, 0)
    case Crashes => Counters(Next8(k.saved), Next8(k.saved))
    case Forgets => Counters(0, k.saved)
    case Stable => Counters(0, if k.ram > 0 then 0 else k.saved)
    case Nothing => k
  }

  lemma EventCounts(n: Node, e: Event)
    ensures CountersOf(Apply(n, e).node) == After(CountersOf(n), EffectOf(n, e))
  {
  }

  /** The events of a history as effects. */
  function Effects(start: Node, h: seq<Event>): (r: seq<Effect>)
    ensures |r| == |h|
  {
    if h == [] then []
    else
      var p := h[..|h| - 1];
      Effects(start, p) + [EffectOf(Events(start, p), h[|h| - 1])]
  }

  function AfterAll(k: Counters, xs: seq<Effect>): Counters {
    if xs == [] then k else After(AfterAll(k, xs[..|xs| - 1]), xs[|xs| - 1])
  }

  lemma {:induction false} EventsCount(start: Node, h: seq<Event>)
    ensures CountersOf(Events(start, h)) == AfterAll(CountersOf(start), Effects(start, h))
  {
    if h == [] {
    } else {
      var p, e := h[..|h| - 1], h[|h| - 1];
      EventsCount(start, p);
      EventCounts(Events(start, p), e);
      assert Effects(start, h)[..|h| - 1] == Effects(start, p);
    }
  }

  // ---------- the promised count ----------

  /** The count the design asks for: watchdog boots since the last power-on or stable step,
  on top of what the backup byte held at the start. */
  function Count(saved: nat, xs: seq<Effect>): nat {
    if xs == [] then saved
    else
      var before := Count(saved, xs[..|xs| - 1]);
      match xs[|xs| - 1]
      case Clears => 0
      case Stable => 0
      case Crashes => before + 1
      case _ => before
  }

  function CrashCount(start: Node, h: seq<Event>): nat { Count(start.backup, Effects(start, h)) }

  /** Since the last power-on or watchdog boot the counter has been forgotten; at the start,
  RAM and byte may already differ. */
  predicate Forgotten(k: Counters, xs: seq<Effect>) {
    if xs == [] then k.ram != k.saved
    else match xs[|xs| - 1]
      case Forgets => true
      case Clears => false
      case Crashes => false
      case _ => Forgotten(k, xs[..|xs| - 1])
  }

  /** The i-th event is a stable step after the counter was forgotten, while the count is not
  zero. */
  predicate MissesAt(k: Counters, xs: seq<Effect>, i: nat)
    requires i < |xs|
  {
    xs[i] == Stable && Forgotten(k, xs[..i]) && Count(k.saved, xs[..i]) % 0x100 != 0
  }

  predicate CountsAt(k: Counters, xs: seq<Effect>, i: nat)
    requires i <= |xs|
  {
    AfterAll(k, xs[..i]).saved == Count(k.saved, xs[..i]) % 0x100
  }

  predicate NoMissBefore(k: Counters, xs: seq<Effect>, i: nat)
    requires i <= |xs|
  {
    forall j :: 0 <= j < i ==> !MissesAt(k, xs, j)
  }

  /** RAM counter and byte agree, or the counter in RAM is zero. */
  predicate Paired(k: Counters) { k.ram == 0 || k.ram == k.saved }

  /** In every history the counter in RAM is zero or equals the backup byte. */
  lemma CounterIsZeroOrBackup(start: Node, h: seq<Event>)
    requires Paired(CountersOf(start))
    ensures Paired(CountersOf(Events(start, h)))
  {
    EventsCount(start, h);
    StaysPaired(CountersOf(start), Effects(start, h));
  }

  lemma {:induction false} StaysPaired(k: Counters, xs: seq<Effect>)
    requires Paired(k)
    ensures Paired(AfterAll(k, xs))
  {
    if xs == [] {
    } else {
      StaysPaired(k, xs[..|xs| - 1]);
    }
  }

  lemma PrefixStep(xs: seq<Effect>, i: nat)
    requires i < |xs|
    ensures xs[..i + 1][..i] == xs[..i] && xs[..i + 1][i] == xs[i]
  {
  }

  lemma {:induction false} NoMissCounts(k: Counters, xs: seq<Effect>, i: nat)
    requires Paired(k) && i <= |xs| && NoMissBefore(k, xs, i)
    ensures var l := AfterAll(k, xs[..i]);
      CountsAt(k, xs, i) && l.ram == if Forgotten(k, xs[..i]) then 0 else l.saved
  {
    if i == 0 {
    } else {
      NoMissCounts(k, xs, i - 1);
      PrefixStep(xs, i - 1);
      StreakWraps(Count(k.saved, xs[..i - 1]));
      assert !MissesAt(k, xs, i - 1);
    }
  }

  lemma MissBreaksCount(k: Counters, xs: seq<Effect>, i: nat)
    requires Paired(k) && i < |xs| && NoMissBefore(k, xs, i) && MissesAt(k, xs, i)
    ensures !CountsAt(k, xs, i + 1)
  {
    NoMissCounts(k, xs, i);
    PrefixStep(xs, i);
  }

  lemma {:induction false} CountsMeansNoMiss(k: Counters, xs: seq<Effect>, i: nat)
    requires Paired(k) && i <= |xs| && forall j :: 0 <= j <= |xs| ==> CountsAt(k, xs, j)
    ensures NoMissBefore(k, xs, i)
  {
    if i == 0 {
    } else {
      CountsMeansNoMiss(k, xs, i - 1);
      if MissesAt(k, xs, i - 1) { MissBreaksCount(k, xs, i - 1); }
    }
  }

  /** No stable step of the history comes after the counter was forgotten, with the count not
  zero and no power-on or watchdog boot in between. */
  predicate NeverMisses(start: Node, h: seq<Event>) {
    NoMissBefore(CountersOf(start), Effects(start, h), |h|)
  }

  predicate ByteIsCount(start: Node, h: seq<Event>) {
    Events(start, h).backup == CrashCount(start, h) % 0x100
  }

  /** The backup byte holds the crash count (modulo its width) throughout a history exactly
  when the history never misses a clear. */
  lemma BackupIsCrashCountIff(start: Node, h: seq<Event>)
    requires Paired(CountersOf(start))
    ensures (forall i :: 0 <= i <= |h| ==> ByteIsCount(start, h[..i])) <==> NeverMisses(start, h)
  {
    var k, xs := CountersOf(start), Effects(start, h);
    forall i | 0 <= i <= |h|
      ensures ByteIsCount(start, h[..i]) <==> CountsAt(k, xs, i)
    {
      EventsCount(start, h[..i]);
      EffectsOfPrefix(start, h, i);
    }
    CountsIffNoMiss(k, xs);
  }

  lemma CountsIffNoMiss(k: Counters, xs: seq<Effect>)
    requires Paired(k)
    ensures (forall i :: 0 <= i <= |xs| ==> CountsAt(k, xs, i)) <==> NoMissBefore(k, xs, |xs|)
  {
    if NoMissBefore(k, xs, |xs|) {
      forall i | 0 <= i <= |xs|
        ensures CountsAt(k, xs, i)
      {
        NoMissCounts(k, xs, i);
      }
    } else if forall i :: 0 <= i <= |xs| ==> CountsAt(k, xs, i) {
      CountsMeansNoMiss(k, xs, |xs|);
    }
  }

  lemma {:induction false} EffectsOfPrefix(start: Node, h: seq<Event>, i: nat)
    requires i <= |h|
    ensures Effects(start, h[..i]) == Effects(start, h)[..i]
    decreases |h|
  {
    if i == |h| {
      assert h[..i] == h;
    } else {
      var p := h[..|h| - 1];
      EffectsOfPrefix(start, p, i);
      assert p[..i] == h[..i];
    }
  }

  /** The counters after a history that misses no clear. */
  lemma NoMissMeansCount(start: Node, h: seq<Event>)
    requires Paired(CountersOf(start)) && NeverMisses(start, h)
    ensures ByteIsCount(start, h)
    ensures !Forgotten(CountersOf(start), Effects(start, h)) ==> Events(start, h).c.crashes == Events(start, h).backup
  {
    var k, xs := CountersOf(start), Effects(start, h);
    EventsCount(start, h);
    NoMissCounts(k, xs, |h|);
    assert xs[..|h|] == xs;
  }

  predicate ForgetsCounter(e: Event) {
    e.Reconfigure? || (e.Reset? && e.cause != PowerOn && e.cause != Watchdog)
  }

  /** In histories of power-on and watchdog boots, samples and power failures the byte is the
  crash count, and so is the counter in RAM. */
  lemma BackupIsCrashCount(start: Node, h: seq<Event>)
    requires start.c.crashes == start.backup
    requires forall i :: 0 <= i < |h| ==> !ForgetsCounter(h[i])
    ensures Events(start, h).c.crashes == Events(start, h).backup == CrashCount(start, h) % 0x100
  {
    NothingForgets(start, h);
    var k, xs := CountersOf(start), Effects(start, h);
    forall i | 0 <= i <= |h|
      ensures !Forgotten(k, xs[..i])
    {
      NeverForgotten(k, xs, i);
    }
    assert xs[..|h|] == xs;
    NoMissMeansCount(start, h);
  }

  lemma {:induction false} NothingForgets(start: Node, h: seq<Event>)
    requires forall i :: 0 <= i < |h| ==> !ForgetsCounter(h[i])
    ensures Forgets !in Effects(start, h)
  {
    if h == [] {
    } else {
      NothingForgets(start, h[..|h| - 1]);
    }
  }

  lemma {:induction false} NeverForgotten(k: Counters, xs: seq<Effect>, i: nat)
    requires k.ram == k.saved && Forgets !in xs && i <= |xs|
    ensures !Forgotten(k, xs[..i])
  {
    if i == 0 {
    } else {
      NeverForgotten(k, xs, i - 1);
      PrefixStep(xs, i - 1);
    }
  }

  /** Fault isolation: after a history that misses no clear, a boot lands in SAFE exactly when
  it is a watchdog boot and the count, this boot included, is at least three modulo the width
  of the byte. */
  lemma BootLandsInSafeIff(start: Node, h: seq<Event>, cfg: Config, cause: ResetCause)
    requires Paired(CountersOf(start)) && NeverMisses(start, h)
    ensures var after := Events(start, h + [Reset(cfg, cause)]);
      after.c.state == Safe <==> cause == Watchdog && (CrashCount(start, h) + 1) % 0x100 >= 3
  {
    NoMissMeansCount(start, h);
    OneMoreBoot(start, h, cfg, cause);
    BootSafeIff(cfg, cause, CrashCount(start, h));
  }

  lemma OneMoreBoot(start: Node, h: seq<Event>, cfg: Config, cause: ResetCause)
    ensures Events(start, h + [Reset(cfg, cause)]) == Boot(cfg, cause, Events(start, h).backup)
  {
    var e := Reset(cfg, cause);
    assert (h + [e])[..|h|] == h && (h + [e])[|h|] == e;
  }

  lemma BootSafeIff(cfg: Config, cause: ResetCause, count: nat)
    ensures Boot(cfg, cause, count % 0x100).c.state == Safe <==> cause == Watchdog && (count + 1) % 0x100 >= 3
  {
    StreakWraps(count);
  }

  // ---------- the wrapping byte ----------

  function WatchdogBoots(cfg: Config, n: nat): (h: seq<Event>)
    ensures |h| == n
  {
    seq(n, _ => Reset(cfg, Watchdog))
  }

  lemma {:induction false} OnlyWatchdogCounts(start: Node, cfg: Config, n: nat)
    ensures Events(start, WatchdogBoots(cfg, n)).backup == (start.backup + n) % 0x100
  {
    if n == 0 {
    } else {
      OnlyWatchdogCounts(start, cfg, n - 1);
      OneMoreBoot(start, WatchdogBoots(cfg, n - 1), cfg, Watchdog);
      assert WatchdogBoots(cfg, n - 1) + [Reset(cfg, Watchdog)] == WatchdogBoots(cfg, n);
      WatchdogCounts(cfg, start.backup + (n - 1));
    }
  }

  lemma WatchdogCounts(cfg: Config, count: nat)
    ensures Boot(cfg, Watchdog, count % 0x100).backup == (count + 1) % 0x100
  {
    StreakWraps(count);
  }

  /** SAFE is not permanent even without any other cause: of watchdog boots alone, counted from
  a cleared byte, the n-th lands in SAFE exactly when n modulo 256 is at least three.  So the
  255th boot is in SAFE and the 256th, 257th and 258th are not. */
  lemma EndlessCrashesLeaveSafe(start: Node, cfg: Config, n: nat)
    requires start.backup == 0 && n > 0
    ensures Events(start, WatchdogBoots(cfg, n)).c.state == Safe <==> n % 0x100 >= 3
  {
    OnlyWatchdogCounts(start, cfg, n - 1);
    OneMoreBoot(start, WatchdogBoots(cfg, n - 1), cfg, Watchdog);
    assert WatchdogBoots(cfg, n - 1) + [Reset(cfg, Watchdog)] == WatchdogBoots(cfg, n);
    BootSafeIff(cfg, Watchdog, n - 1);
  }

  // ---------- the forgotten counter ----------

  lemma {:induction false} ForgottenCounterStays(n: Node, h: seq<Sample>)
    requires n.c.crashes == 0
    ensures Samples(n, h).backup == n.backup && Samples(n, h).c.crashes == 0
  {
    if h == [] {
    } else {
      var p := h[..|h| - 1];
      ForgottenCounterStays(n, p);
      EventCounts(Samples(n, p), Measure(h[|h| - 1]));
    }
  }

  /** A stable RUN does not always clear the crash count: two watchdog boots, then any number
  of valid samples after an external, software or unknown reset, and the next watchdog boot
  still lands in SAFE, although RUN was reached in between. */
  lemma StableRunForgotten(cfg: Config, cause: ResetCause, h: seq<Sample>)
    requires cause == External || cause == Software || cause == Unknown
    requires |h| >= Filter.SIZE && AllValid(h, 0, |h|)
    ensures var booted := Boot(cfg, cause, 2);
      && Samples(booted, h).c.state == Run
      && Boot(cfg, Watchdog, Samples(booted, h).backup).c.state == Safe
  {
    var booted := Boot(cfg, cause, 2);
    InitIsSound(cfg);
    BootsAreFresh(cfg, cause, 2);
    ControllerFollowsHistory(booted, h);
    GoodStart(booted, h);
    ForgottenCounterStays(booted, h);
  }
}
