/** The cooperative scheduler on a wrapping 32-bit millisecond clock (src/app/scheduler.c).

`Task` follows the C structure; `Timer` is the same task on a clock that never wraps.  The
scheduler is proved to keep them in step as long as periods and poll gaps stay below 2^31 ms,
and the run-time properties are proved on the unbounded clock. */
module Scheduler {
  import opened Words

  /** sched_task_t: the function pointer and its context are represented by a number. */
  datatype Task = Task(period: u32, next: u32, fn: nat)

  /** (int32_t)(now_ms - next_ms) >= 0 */
  predicate IsDue(now: u32, next: u32) {
    ToI32(now - next) >= 0
  }

  // ---------- the unbounded clock ----------

  /** A task on unbounded time, with the number of its executions. */
  datatype Timer = Timer(period: nat, next: nat, count: nat)

  function Poll(a: Timer, t: nat): Timer {
    if t < a.next then a
    else if t < a.next + a.period then Timer(a.period, a.next + a.period, a.count + 1)
    else Timer(a.period, t + a.period, a.count + 1)
  }

  /** Close enough to the deadline for the sign of a 32-bit difference to be right. */
  predicate InWindow(a: Timer, t: nat) {
    0 < a.period < HALF && a.next <= t + HALF && t < a.next + HALF
  }

  predicate AllInWindow(timers: seq<Timer>, t: nat) {
    forall i :: 0 <= i < |timers| ==> InWindow(timers[i], t)
  }

  predicate Tracks(task: Task, a: Timer) {
    task.period == a.period && task.next == Wrap(a.next)
  }

  /** On the wrapping clock the due test gives the true answer. */
  lemma DueIsTrue(t: nat, next: nat)
    requires next <= t + HALF && t < next + HALF
    ensures IsDue(Wrap(t), Wrap(next)) <==> next <= t
  {
    DifferenceIsTrue(t, next);
  }

  /** After a poll the deadline is ahead by at most one period, so that polling again at the
  same moment runs nothing; it keeps its grid unless whole periods were missed, and is then a
  full period ahead. */
  lemma PollLeavesDeadlineAhead(a: Timer, t: nat)
    requires a.period > 0 && a.next <= t + a.period
    ensures t < Poll(a, t).next <= t + a.period
    ensures Poll(Poll(a, t), t) == Poll(a, t)
    ensures a.next <= t < a.next + a.period ==> Poll(a, t).next == a.next + a.period
    ensures a.next + a.period <= t ==> Poll(a, t).next == t + a.period
  {
  }

  /** Hence any later poll less than 2^31 ms away finds the deadline in the window. */
  lemma NextPollInWindow(a: Timer, t: nat, t': nat)
    requires 0 < a.period < HALF && a.next <= t + a.period
    requires t <= t' < t + HALF
    ensures InWindow(Poll(a, t), t') && Poll(a, t).next <= t' + a.period
  {
  }

  // ---------- whole runs ----------

  function Start(period: nat): Timer { Timer(period, 0, 0) }

  function Run(a: Timer, polls: seq<nat>): Timer {
    if polls == [] then a else Poll(Run(a, polls[..|polls| - 1]), polls[|polls| - 1])
  }

  /** The moments at which the task was executed. */
  function Executions(a: Timer, polls: seq<nat>): seq<nat> {
    if polls == [] then []
    else
      var p, t := polls[..|polls| - 1], polls[|polls| - 1];
      Executions(a, p) + if Run(a, p).next <= t then [t] else []
  }

  predicate Ascending(polls: seq<nat>) {
    forall i, j :: 0 <= i <= j < |polls| ==> polls[i] <= polls[j]
  }

  lemma ScaleUp(q: nat, p: nat)
    ensures (q + 1) * p == q * p + p
  {
  }

  /** The deadline recedes by at least a period with every execution. */
  lemma {:induction false} DeadlineRecedes(period: nat, polls: seq<nat>)
    ensures var a := Run(Start(period), polls);
      a.period == period && a.count == |Executions(Start(period), polls)| && a.next >= a.count * period
  {
    if polls == [] {
    } else {
      var p := polls[..|polls| - 1];
      DeadlineRecedes(period, p);
      ScaleUp(Run(Start(period), p).count, period);
    }
  }

  /** Rate bound: the k-th execution (counted from zero) comes no earlier than k periods. */
  lemma {:induction false} RateBound(period: nat, polls: seq<nat>, k: nat)
    requires k < |Executions(Start(period), polls)|
    ensures Executions(Start(period), polls)[k] >= k * period
  {
    var p := polls[..|polls| - 1];
    DeadlineRecedes(period, p);
    if k == |Executions(Start(period), p)| {
    } else {
      RateBound(period, p, k);
    }
  }

  // ---------- drift ----------

  lemma QuotientIs(t: nat, p: nat, q: nat)
    requires p > 0
    ensures t / p == q <==> q * p <= t < (q + 1) * p
  {
    var d := t / p;
    assert t == p * d + t % p && p * d == d * p;
    ScaleUp(q, p);
    if d < q {
      Scale(d + 1, q, p);
      ScaleUp(d, p);
    } else if d > q {
      Scale(q + 1, d, p);
    }
  }

  /** After the first i polls the task has run once for every period begun. */
  predicate OnSchedule(period: nat, polls: seq<nat>, i: nat)
    requires period > 0 && 0 < i <= |polls|
  {
    Run(Start(period), polls[..i]).count == polls[i - 1] / period + 1
  }

  /** The polls hit every period: the first one the first, and none is jumped over. */
  predicate HitsEveryPeriod(period: nat, polls: seq<nat>)
    requires period > 0
  {
    && (polls != [] ==> polls[0] / period == 0)
    && forall i :: 0 < i < |polls| ==> polls[i] / period <= polls[i - 1] / period + 1
  }

  lemma PrefixOfPrefix(polls: seq<nat>, i: nat)
    requires i < |polls|
    ensures polls[..i + 1][..i] == polls[..i] && polls[..i + 1][i] == polls[i]
  {
  }

  lemma RunStep(a: Timer, polls: seq<nat>, i: nat)
    requires i < |polls|
    ensures Run(a, polls[..i + 1]) == Poll(Run(a, polls[..i]), polls[i])
  {
    PrefixOfPrefix(polls, i);
  }

  /** One more poll in the same period runs nothing, one in the next period runs the task. */
  lemma PollOnSchedule(a: Timer, t: nat, t': nat)
    requires a.period > 0 && t <= t' && t' / a.period <= t / a.period + 1
    requires a.count == t / a.period + 1 && a.next == a.count * a.period
    ensures var b := Poll(a, t');
      b.count == t' / a.period + 1 && b.next == b.count * a.period
  {
    var p, q := a.period, t / a.period;
    QuotientIs(t, p, q);
    QuotientIs(t', p, t' / p);
    ScaleUp(q, p);
    ScaleUp(q + 1, p);
    if t' / p < q {
      Scale(t' / p + 1, q, p);
    }
  }

  lemma {:induction false} HittingKeepsSchedule(period: nat, polls: seq<nat>, i: nat)
    requires period > 0 && Ascending(polls) && HitsEveryPeriod(period, polls) && 0 < i <= |polls|
    ensures OnSchedule(period, polls, i)
    ensures var a := Run(Start(period), polls[..i]); a.period == period && a.next == a.count * period
    decreases i
  {
    RunStep(Start(period), polls, i - 1);
    if i == 1 {
      QuotientIs(polls[0], period, 0);
    } else {
      HittingKeepsSchedule(period, polls, i - 1);
      PollOnSchedule(Run(Start(period), polls[..i - 1]), polls[i - 2], polls[i - 1]);
    }
  }

  /** No drift: the task has run floor(T / period) + 1 times after every poll, exactly when
  the polls hit every period. */
  lemma NoDriftIff(period: nat, polls: seq<nat>)
    requires period > 0 && Ascending(polls)
    ensures (forall i :: 0 < i <= |polls| ==> OnSchedule(period, polls, i)) <==> HitsEveryPeriod(period, polls)
  {
    if HitsEveryPeriod(period, polls) {
      forall i | 0 < i <= |polls|
        ensures OnSchedule(period, polls, i)
      {
        HittingKeepsSchedule(period, polls, i);
      }
    }
    if forall i :: 0 < i <= |polls| ==> OnSchedule(period, polls, i) {
      if polls != [] { CountStep(period, polls, 0); }
      forall i | 0 < i < |polls|
        ensures polls[i] / period <= polls[i - 1] / period + 1
      {
        CountStep(period, polls, i);
      }
    }
  }

  /** A poll runs the task at most once. */
  lemma CountStep(period: nat, polls: seq<nat>, i: nat)
    requires period > 0 && i < |polls| && OnSchedule(period, polls, i + 1)
    requires i > 0 ==> OnSchedule(period, polls, i)
    ensures polls[i] / period <= if i == 0 then 0 else polls[i - 1] / period + 1
  {
    RunStep(Start(period), polls, i);
  }

  /** The practical case: first poll within the first period, polls at most a period apart. */
  lemma NoDriftUnderSteadyPolling(period: nat, polls: seq<nat>, i: nat)
    requires period > 0 && Ascending(polls) && 0 < i <= |polls|
    requires polls[0] < period
    requires forall k :: 0 < k < |polls| ==> polls[k] <= polls[k - 1] + period
    ensures OnSchedule(period, polls, i)
  {
    QuotientIs(polls[0], period, 0);
    forall k | 0 < k < |polls|
      ensures polls[k] / period <= polls[k - 1] / period + 1
    {
      QuotientStep(polls[k - 1], polls[k], period);
    }
    HittingKeepsSchedule(period, polls, i);
  }

  lemma QuotientStep(t: nat, t': nat, p: nat)
    requires p > 0 && t' <= t + p
    ensures t' / p <= t / p + 1
  {
    var q, r := t / p, t' / p;
    QuotientIs(t, p, q);
    QuotientIs(t', p, r);
    ScaleUp(q, p);
    if r > q + 1 {
      Scale(q + 2, r, p);
      ScaleUp(q + 1, p);
    }
  }

  /** Drift or not, the task never runs more often than once for every period begun. */
  lemma NeverMoreThanOncePerPeriod(period: nat, polls: seq<nat>)
    requires period > 0 && polls != [] && Ascending(polls)
    ensures Run(Start(period), polls).count <= polls[|polls| - 1] / period + 1
  {
    DeadlineRecedes(period, polls);
    var n := |Executions(Start(period), polls)|;
    if n > 0 {
      RateBound(period, polls, n - 1);
      ExecutedAtPolls(Start(period), polls, n - 1);
      NotBefore(polls[|polls| - 1], period, n - 1);
    }
  }

  lemma NotBefore(t: nat, p: nat, k: nat)
    requires p > 0 && k * p <= t
    ensures k <= t / p
  {
    QuotientIs(t, p, t / p);
    if k > t / p { Scale(t / p + 1, k, p); }
  }

  lemma {:induction false} ExecutedAtPolls(a: Timer, polls: seq<nat>, k: nat)
    requires Ascending(polls) && k < |Executions(a, polls)|
    ensures Executions(a, polls)[k] <= polls[|polls| - 1]
  {
    var p := polls[..|polls| - 1];
    if k == |Executions(a, p)| {
    } else {
      ExecutedAtPolls(a, p, k);
    }
  }

  // ---------- the scheduler ----------

  /** The task functions called by one round, in order. */
  function Calls(fns: seq<nat>, timers: seq<Timer>, t: nat): seq<nat>
    requires |fns| == |timers|
  {
    if fns == [] then []
    else
      var n := |fns| - 1;
      Calls(fns[..n], timers[..n], t) + if timers[n].next <= t then [fns[n]] else []
  }

  /** The task functions called by all rounds, in order. */
  function CallsOver(fns: seq<nat>, timers: seq<Timer>, polls: seq<nat>): seq<nat>
    requires |fns| == |timers|
  {
    if polls == [] then []
    else
      var p, t := polls[..|polls| - 1], polls[|polls| - 1];
      CallsOver(fns, timers, p) + Calls(fns, RunAll(timers, p), t)
  }

  function RunAll(timers: seq<Timer>, polls: seq<nat>): (r: seq<Timer>)
    ensures |r| == |timers| && forall i :: 0 <= i < |timers| ==> r[i] == Run(timers[i], polls)
  {
    seq(|timers|, i requires 0 <= i < |timers| => Run(timers[i], polls))
  }

  /** One round: the first n timers have been polled. */
  function PolledTo(timers: seq<Timer>, t: nat, n: nat): (r: seq<Timer>)
    ensures |r| == |timers|
  {
    seq(|timers|, i requires 0 <= i < |timers| => if i < n then Poll(timers[i], t) else timers[i])
  }

  function PollAll(timers: seq<Timer>, t: nat): (r: seq<Timer>)
    ensures |r| == |timers| && forall i :: 0 <= i < |timers| ==> r[i] == Poll(timers[i], t)
  {
    PolledTo(timers, t, |timers|)
  }

  lemma PolledNext(timers: seq<Timer>, t: nat, n: nat)
    requires n < |timers|
    ensures PolledTo(timers, t, n)[n] == timers[n]
    ensures PolledTo(timers, t, n)[n := Poll(timers[n], t)] == PolledTo(timers, t, n + 1)
  {
  }

  predicate Distinct(fns: seq<nat>) {
    forall i, j :: 0 <= i < j < |fns| ==> fns[i] != fns[j]
  }

  lemma {:induction false} CalledOnceIfDue(fns: seq<nat>, timers: seq<Timer>, t: nat, i: nat)
    requires |fns| == |timers| && i < |fns| && Distinct(fns)
    ensures multiset(Calls(fns, timers, t))[fns[i]] == if timers[i].next <= t then 1 else 0
  {
    var n := |fns| - 1;
    if i == n {
      NotCalled(fns[..n], timers[..n], t, fns[n]);
    } else {
      CalledOnceIfDue(fns[..n], timers[..n], t, i);
    }
  }

  lemma {:induction false} NotCalled(fns: seq<nat>, timers: seq<Timer>, t: nat, f: nat)
    requires |fns| == |timers| && f !in fns
    ensures multiset(Calls(fns, timers, t))[f] == 0
  {
    if fns == [] {
    } else {
      var n := |fns| - 1;
      NotCalled(fns[..n], timers[..n], t, f);
    }
  }

  /** Over any polls a task function is called as often as its timer executes. */
  lemma {:induction false} CallsAreExecutions(fns: seq<nat>, timers: seq<Timer>, polls: seq<nat>, i: nat)
    requires |fns| == |timers| && i < |fns| && Distinct(fns)
    ensures multiset(CallsOver(fns, timers, polls))[fns[i]] == |Executions(timers[i], polls)|
  {
    if polls == [] {
    } else {
      var p, t := polls[..|polls| - 1], polls[|polls| - 1];
      CallsAreExecutions(fns, timers, p, i);
      CalledOnceIfDue(fns, RunAll(timers, p), t, i);
    }
  }

  /** So a freshly registered function has been called floor(T / period) + 1 times when the
  polls have hit every period, and never more often. */
  lemma CallsOnSchedule(fns: seq<nat>, timers: seq<Timer>, polls: seq<nat>, i: nat, period: nat)
    requires |fns| == |timers| && i < |fns| && Distinct(fns)
    requires period > 0 && timers[i] == Start(period) && polls != [] && Ascending(polls)
    ensures var called, begun := multiset(CallsOver(fns, timers, polls))[fns[i]], polls[|polls| - 1] / period + 1;
      called <= begun && (HitsEveryPeriod(period, polls) ==> called == begun)
  {
    CallsAreExecutions(fns, timers, polls, i);
    DeadlineRecedes(period, polls);
    NeverMoreThanOncePerPeriod(period, polls);
    if HitsEveryPeriod(period, polls) {
      HittingKeepsSchedule(period, polls, |polls|);
      assert polls[..|polls|] == polls;
    }
  }

  lemma CallsNext(fns: seq<nat>, timers: seq<Timer>, t: nat, i: nat)
    requires i < |fns| == |timers|
    ensures Calls(fns[..i + 1], timers[..i + 1], t) ==
      Calls(fns[..i], timers[..i], t) + if timers[i].next <= t then [fns[i]] else []
  {
    assert fns[..i + 1][..i] == fns[..i] && timers[..i + 1][..i] == timers[..i];
  }

  class Scheduler {
    const tasks: array<Task>
    var count: nat

    /** The task functions called so far: the effect of `t->fn(t->ctx)`. */
    var called: seq<nat>

    /** The registered tasks on the unbounded clock. */
    ghost var timers: seq<Timer>

    /** Their functions. */
    ghost var fns: seq<nat>

    ghost predicate Valid()
      reads this, tasks
    {
      && count <= tasks.Length && |timers| == |fns| == count
      && forall i :: 0 <= i < count ==> Tracks(tasks[i], timers[i]) && tasks[i].fn == fns[i]
    }

    constructor (storage: array<Task>)
      ensures Valid() && tasks == storage && count == 0 && timers == [] && fns == [] && called == []
    {
      tasks := storage;
      count := 0;
      timers, fns := [], [];
      called := [];
    }

    /** sched_register; `fn` is absent for a null function pointer. */
    method Register(period: u32, fn: nat, fnIsNull: bool) returns (ok: bool)
      requires Valid()
      modifies this`count, this`timers, this`fns, tasks
      ensures Valid()
      ensures ok <==> !fnIsNull && period != 0 && old(count) < tasks.Length
      ensures timers == if ok then old(timers) + [Start(period)] else old(timers)
      ensures fns == if ok then old(fns) + [fn] else old(fns)
      ensures ok ==> count == old(count) + 1 && tasks[old(count)] == Task(period, 0, fn)
      ensures !ok ==> count == old(count) && tasks[..] == old(tasks[..])
      ensures tasks[..old(count)] == old(tasks[..count])
    {
      if fnIsNull || period == 0 {
        return false;
      }
      if count >= tasks.Length {
        return false;
      }
      tasks[count] := Task(period, 0, fn);
      count := count + 1;
      timers, fns := timers + [Start(period)], fns + [fn];
      return true;
    }

    /** sched_run_once at the true time `t`: every task runs exactly when it is really due,
    once, in order of registration, and moves as its timer does. */
    method RunOnce(now: u32, ghost t: nat) returns (any: bool)
      requires Valid() && now == Wrap(t)
      requires AllInWindow(timers, t)
      modifies this`called, this`timers, tasks
      ensures Valid() && count == old(count)
      ensures timers == PollAll(old(timers), t)
      ensures called == old(called) + Calls(fns, old(timers), t)
      ensures any <==> Calls(fns, old(timers), t) != []
      ensures tasks[count..] == old(tasks[count..])
    {
      any := false;
      ghost var start := timers;
      for i := 0 to count
        invariant Valid() && |start| == count
        invariant timers == PolledTo(start, t, i)
        invariant called == old(called) + Calls(fns[..i], start[..i], t)
        invariant any <==> Calls(fns[..i], start[..i], t) != []
        invariant tasks[count..] == old(tasks[count..])
      {
        CallsNext(fns, start, t, i);
        PolledNext(start, t, i);
        var ran := RunTask(i, now, t);
        any := any || ran;
      }
      assert fns[..count] == fns && start[..count] == start;
    }

    /** The loop body of sched_run_once. */
    method RunTask(i: nat, now: u32, ghost t: nat) returns (ran: bool)
      requires Valid() && i < count && now == Wrap(t) && InWindow(timers[i], t)
      modifies this`called, this`timers, tasks
      ensures Valid() && timers == old(timers)[i := Poll(old(timers)[i], t)]
      ensures ran <==> old(timers)[i].next <= t
      ensures called == old(called) + if ran then [fns[i]] else []
      ensures tasks[count..] == old(tasks[count..])
    {
      var task := tasks[i];
      DueIsTrue(t, timers[i].next);
      ran := IsDue(now, task.next);
      if ran {
        called := called + [task.fn];
        var next := Rescheduled(now, task, t, timers[i]);
        tasks[i] := task.(next := next);
        timers := timers[i := Poll(timers[i], t)];
      }
    }

    /** The new deadline of a task that has just run: one period on, or one period from now
    when whole periods were missed. */
    method Rescheduled(now: u32, task: Task, ghost t: nat, ghost a: Timer) returns (next: u32)
      requires Tracks(task, a) && InWindow(a, t) && a.next <= t && now == Wrap(t)
      ensures next == Wrap(Poll(a, t).next)
    {
      next := Wrap(task.next + task.period);
      WrapAdds(a.next, task.period);
      WrapAdds(t, task.period);
      DueIsTrue(t, a.next + a.period);
      if IsDue(now, next) {
        next := Wrap(now + task.period);
      }
    }
  }

  predicate Steady(polls: seq<nat>) {
    forall i :: 0 < i < |polls| ==> polls[i - 1] <= polls[i] < polls[i - 1] + HALF
  }

  /** Periods below 2^31 and deadlines that a poll at `t` can judge. */
  predicate Ready(timers: seq<Timer>, t: nat) {
    && AllInWindow(timers, t)
    && forall i :: 0 <= i < |timers| ==> timers[i].next <= t + timers[i].period
  }

  lemma ReadyAgain(timers: seq<Timer>, t: nat, t': nat)
    requires Ready(timers, t) && t <= t' < t + HALF
    ensures Ready(PollAll(timers, t), t')
  {
    var after := PollAll(timers, t);
    forall i | 0 <= i < |after|
      ensures InWindow(after[i], t') && after[i].next <= t' + after[i].period
    {
      NextPollInWindow(timers[i], t, t');
    }
  }

  lemma NextReady(timers: seq<Timer>, polls: seq<nat>, k: nat)
    requires k < |polls| && Steady(polls) && Ready(timers, polls[k])
    ensures k + 1 < |polls| ==> Ready(PollAll(timers, polls[k]), polls[k + 1])
  {
    if k + 1 < |polls| {
      ReadyAgain(timers, polls[k], polls[k + 1]);
    }
  }

  /** The main loop for the polls made so far: on the wrapping clock every task follows its
  timer for as long as the loop runs, and its function is called when the timer executes. */
  method MainLoop(s: Scheduler, polls: seq<nat>)
    requires s.Valid() && Steady(polls) && (polls != [] ==> Ready(s.timers, polls[0]))
    modifies s`called, s`timers, s.tasks
    ensures s.Valid() && s.timers == RunAll(old(s.timers), polls)
    ensures s.called == old(s.called) + CallsOver(s.fns, old(s.timers), polls)
  {
    ghost var start, before := s.timers, s.called;
    assert polls[..0] == [];
    for k := 0 to |polls|
      invariant s.Valid() && s.timers == RunAll(start, polls[..k])
      invariant s.called == before + CallsOver(s.fns, start, polls[..k])
      invariant k < |polls| ==> Ready(s.timers, polls[k])
    {
      Round(s, polls, k, start, before);
    }
    assert polls[..|polls|] == polls;
  }

  method Round(s: Scheduler, polls: seq<nat>, k: nat, ghost start: seq<Timer>, ghost before: seq<nat>)
    requires s.Valid() && Steady(polls) && k < |polls| && Ready(s.timers, polls[k])
    requires s.timers == RunAll(start, polls[..k])
    requires s.called == before + CallsOver(s.fns, start, polls[..k])
    modifies s`called, s`timers, s.tasks
    ensures s.Valid() && s.timers == RunAll(start, polls[..k + 1])
    ensures s.called == before + CallsOver(s.fns, start, polls[..k + 1])
    ensures k + 1 < |polls| ==> Ready(s.timers, polls[k + 1])
  {
    RoundStep(s.fns, start, polls, k);
    NextReady(s.timers, polls, k);
    var any := s.RunOnce(Wrap(polls[k]), polls[k]);
  }

  lemma RoundStep(fns: seq<nat>, timers: seq<Timer>, polls: seq<nat>, k: nat)
    requires |fns| == |timers| && k < |polls|
    ensures var before := RunAll(timers, polls[..k]);
      && RunAll(timers, polls[..k + 1]) == PollAll(before, polls[k])
      && CallsOver(fns, timers, polls[..k + 1]) ==
           CallsOver(fns, timers, polls[..k]) + Calls(fns, before, polls[k])
  {
    PrefixOfPrefix(polls, k);
  }
}
