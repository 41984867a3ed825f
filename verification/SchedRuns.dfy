/** What the scheduler keeps over whole runs: a running current thread, the registers of every thread, the sleep of
    every sleeper, and, while nobody sleeps and nobody is created, exact round robin. */
module SchedRuns {
  import opened Words
  import opened SchedModel

  /** The state after a run, or None when some step of it is not enabled. */
  ghost function After(s: Sched, steps: seq<Step>): Option<Sched>
    decreases |steps|
  {
    if steps == [] then Some(s)
    else
      var n := |steps| - 1;
      match After(s, steps[..n])
      case None => None
      case Some(q) => if WellFormed(q) && Enabled(q, steps[n]) then Some(Apply(q, steps[n])) else None
  }

  // ----- Between two steps the current thread runs -----

  /** What holds between steps: the current thread is running and has one or two ticks left. */
  ghost predicate Boundary(s: Sched) {
    && WellFormed(s)
    && IsRunning(s.threads, s.cur)
    && 1 <= s.threads[s.cur].remaining <= TIME_PER_THREAD
  }

  lemma DispatchResumes(s: Sched)
    requires WellFormed(s) && HasRunning(s.threads)
    ensures Boundary(Dispatch(s))
  {
    RingIsAll(s.procs, s.threads);
  }

  lemma ScheduledResumes(s: Sched)
    requires WellFormed(s) && Returns(s)
    requires IsRunning(s.threads, s.cur) ==> 1 <= s.threads[s.cur].remaining <= TIME_PER_THREAD
    ensures Boundary(Scheduled(s))
  {
    hide Dispatch, HasRunning, Listed;
    var c := s.threads[s.cur];
    if c.state == Running {
      WithCurrentKeepsWellFormed(s, Running, c.remaining - 1);
      if c.remaining == 1 {
        DispatchResumes(WithCurrent(s, Running, 0));
      }
    } else if Dec32(c.remaining) == 0 {
      WithCurrentKeepsWellFormed(s, Running, TIME_PER_THREAD);
    } else {
      WithCurrentKeepsWellFormed(s, Sleeping, Dec32(c.remaining));
      SleeperKeepsRunners(s, Dec32(c.remaining));
      DispatchResumes(WithCurrent(s, Sleeping, Dec32(c.remaining)));
    }
  }

  /** The handler never resumes a sleeping thread, and gives the resumed one 1 or 2 ticks. */
  lemma TickResumes(s: Sched, regs: Regs)
    requires WellFormed(s) && Returns(s)
    requires IsRunning(s.threads, s.cur) ==> 1 <= s.threads[s.cur].remaining <= TIME_PER_THREAD
    ensures Boundary(Tick(s, regs))
  {
    hide Scheduled;
    SavedKeepsWellFormed(s, regs);
    ScheduledResumes(Saved(s, regs));
  }

  lemma ApplyKeepsBoundary(s: Sched, step: Step)
    requires Boundary(s) && Enabled(s, step)
    ensures Boundary(Apply(s, step))
  {
    hide Tick;
    match step
    case Interrupt(regs) => TickResumes(s, regs);
    case Sleep(t, millis, regs) => TickResumes(Marked(s, t, millis), regs);
    case NewProcess(pid, kernelMode, directory, uid) =>
    case NewThread(p, regs) => WithThreadKeepsWellFormed(s, p, regs);
  }

  /** Over every run the thread the handler resumes is a running one with 1 or 2 ticks left. */
  lemma {:induction false} RunsKeepBoundary(s: Sched, steps: seq<Step>)
    requires Boundary(s) && After(s, steps).Some?
    ensures Boundary(After(s, steps).value)
    decreases |steps|
  {
    hide Apply, Enabled, WellFormed, Boundary;
    if steps != [] {
      var n := |steps| - 1;
      RunsKeepBoundary(s, steps[..n]);
      ApplyKeepsBoundary(After(s, steps[..n]).value, steps[n]);
    }
  }

  // ----- Sleep -----

  ghost predicate IsAsleep(s: Sched, t: Tid) {
    t < |s.threads| && s.threads[t].state == Sleeping
  }

  lemma DispatchKeepsStates(s: Sched)
    requires WellFormed(s) && HasRunning(s.threads)
    ensures Dispatch(s).procs == s.procs && |Dispatch(s).threads| == |s.threads|
    ensures forall u :: 0 <= u < |s.threads| ==> Dispatch(s).threads[u].state == s.threads[u].state
    ensures forall u :: 0 <= u < |s.threads| ==> Dispatch(s).threads[u].regs == s.threads[u].regs
    ensures forall u :: 0 <= u < |s.threads| ==> Dispatch(s).threads[u].owner == s.threads[u].owner
    ensures Dispatch(s).initialized == s.initialized && Dispatch(s).pageDirectory == s.pageDirectory
  {
    RingIsAll(s.procs, s.threads);
  }

  /** Choosing who runs next changes no registers, and wakes the current thread only when its counter is at one. */
  lemma ScheduledKeepsOthers(s: Sched)
    requires WellFormed(s) && Returns(s)
    ensures Scheduled(s).procs == s.procs && |Scheduled(s).threads| == |s.threads|
    ensures forall u :: 0 <= u < |s.threads| ==>
      Scheduled(s).threads[u].state
      == (if u == s.cur && s.threads[u].remaining == 1 then Running else s.threads[u].state)
    ensures forall u :: 0 <= u < |s.threads| ==> Scheduled(s).threads[u].regs == s.threads[u].regs
    ensures forall u :: 0 <= u < |s.threads| ==> Scheduled(s).threads[u].owner == s.threads[u].owner
    ensures Scheduled(s).initialized == s.initialized && Scheduled(s).pageDirectory == s.pageDirectory
  {
    hide Dispatch, HasRunning, Listed;
    var c := s.threads[s.cur];
    if c.state == Running {
      var left := if c.remaining > 0 then c.remaining - 1 else 0;
      WithCurrentKeepsWellFormed(s, Running, left);
      if left == 0 {
        DispatchKeepsStates(WithCurrent(s, Running, left));
      }
    } else if Dec32(c.remaining) != 0 {
      WithCurrentKeepsWellFormed(s, Sleeping, Dec32(c.remaining));
      SleeperKeepsRunners(s, Dec32(c.remaining));
      DispatchKeepsStates(WithCurrent(s, Sleeping, Dec32(c.remaining)));
    }
  }

  /** The handler writes registers and states of the current thread only: its registers become the interrupted
      ones, and it wakes exactly when its counter stands at one. */
  lemma TickKeepsOthers(s: Sched, regs: Regs)
    requires WellFormed(s) && Returns(s)
    ensures Tick(s, regs).procs == s.procs && |Tick(s, regs).threads| == |s.threads|
    ensures forall u :: 0 <= u < |s.threads| ==>
      Tick(s, regs).threads[u].regs == (if u == s.cur && s.initialized then regs else s.threads[u].regs)
    ensures forall u :: 0 <= u < |s.threads| ==>
      Tick(s, regs).threads[u].state
      == (if u == s.cur && s.threads[u].remaining == 1 then Running else s.threads[u].state)
    ensures forall u :: 0 <= u < |s.threads| ==> Tick(s, regs).threads[u].owner == s.threads[u].owner
    ensures Tick(s, regs).initialized
  {
    hide Scheduled;
    SavedKeepsWellFormed(s, regs);
    ScheduledKeepsWellFormed(Saved(s, regs));
    ScheduledKeepsOthers(Saved(s, regs));
  }

  /** The exact wake rule: a sleep ends before the handler returns if and only if the thread puts itself to sleep for
      one tick. No other thread falls asleep or wakes. */
  lemma SleepWakes(s: Sched, t: Tid, millis: nat, regs: Regs)
    requires Boundary(s) && Enabled(s, Sleep(t, millis, regs))
    ensures IsAsleep(Apply(s, Sleep(t, millis, regs)), t) <==> !(t == s.cur && millis == 1)
    ensures forall u: Tid :: u != t ==> (IsAsleep(Apply(s, Sleep(t, millis, regs)), u) <==> IsAsleep(s, u))
  {
    hide Tick;
    TickKeepsOthers(Marked(s, t, millis), regs);
  }

  lemma StepKeepsAsleep(s: Sched, step: Step, t: Tid)
    requires Boundary(s) && Enabled(s, step) && IsAsleep(s, t)
    ensures IsAsleep(Apply(s, step), t)
  {
    hide Tick;
    match step
    case Interrupt(regs) => TickKeepsOthers(s, regs);
    case Sleep(u, millis, regs) =>
      TickKeepsOthers(Marked(s, u, millis), regs);
    case NewProcess(pid, kernelMode, directory, uid) =>
    case NewThread(p, regs) =>
  }

  /** A thread asleep between two steps is asleep for ever. */
  lemma {:induction false} SleepersNeverWake(s: Sched, steps: seq<Step>, t: Tid)
    requires Boundary(s) && After(s, steps).Some? && IsAsleep(s, t)
    ensures IsAsleep(After(s, steps).value, t)
    decreases |steps|
  {
    hide Apply, Enabled, WellFormed, Boundary, IsAsleep;
    if steps != [] {
      var n := |steps| - 1;
      SleepersNeverWake(s, steps[..n], t);
      RunsKeepBoundary(s, steps[..n]);
      StepKeepsAsleep(After(s, steps[..n]).value, steps[n], t);
    }
  }

  /** Sleeping for anything but one tick, or putting another thread to sleep, is for ever. */
  lemma SleepIsForEver(s: Sched, t: Tid, millis: nat, regs: Regs, steps: seq<Step>)
    requires Boundary(s) && Enabled(s, Sleep(t, millis, regs))
    requires !(t == s.cur && millis == 1)
    requires After(Apply(s, Sleep(t, millis, regs)), steps).Some?
    ensures IsAsleep(After(Apply(s, Sleep(t, millis, regs)), steps).value, t)
  {
    hide Apply, Enabled;
    SleepWakes(s, t, millis, regs);
    ApplyKeepsBoundary(s, Sleep(t, millis, regs));
    SleepersNeverWake(Apply(s, Sleep(t, millis, regs)), steps, t);
  }

  // ----- Context isolation -----

  /** The registers a step stores for a thread, if it does: the handler those it found, for the thread it found
      current; a creation those of the new thread. */
  function Stored(q: Sched, step: Step, t: Tid): Option<Regs> {
    match step
    case Interrupt(regs) => if t == q.cur && q.initialized then Some(regs) else None
    case Sleep(_, _, regs) => if t == q.cur && q.initialized then Some(regs) else None
    case NewProcess(_, _, _, _) => None
    case NewThread(_, regs) => if t == |q.threads| then Some(regs) else None
  }

  /** The registers a thread last left the processor with, or was created with. */
  ghost function LastLeft(s: Sched, steps: seq<Step>, t: Tid): Regs
    requires WellFormed(s) && After(s, steps).Some? && t < |After(s, steps).value.threads|
    decreases |steps|
  {
    if steps == [] then s.threads[t].regs
    else
      var n := |steps| - 1;
      var q := After(s, steps[..n]).value;
      ThreadCount(q, steps[n]);
      match Stored(q, steps[n], t)
      case Some(regs) => regs
      case None => LastLeft(s, steps[..n], t)
  }

  lemma ThreadCount(q: Sched, step: Step)
    requires WellFormed(q) && Enabled(q, step)
    ensures |Apply(q, step).threads| == |q.threads| + if step.NewThread? then 1 else 0
  {
    hide Tick;
    match step
    case Interrupt(regs) => TickKeepsOthers(q, regs);
    case Sleep(t, millis, regs) => TickKeepsOthers(Marked(q, t, millis), regs);
    case NewProcess(pid, kernelMode, directory, uid) =>
    case NewThread(p, regs) =>
  }

  lemma StepKeepsRegs(q: Sched, step: Step, t: Tid)
    requires WellFormed(q) && Enabled(q, step) && t < |Apply(q, step).threads|
    ensures Stored(q, step, t).Some? ==> Apply(q, step).threads[t].regs == Stored(q, step, t).value
    ensures Stored(q, step, t).None? ==> t < |q.threads| && Apply(q, step).threads[t].regs == q.threads[t].regs
  {
    hide Tick;
    match step
    case Interrupt(regs) => TickKeepsOthers(q, regs);
    case Sleep(u, millis, regs) => TickKeepsOthers(Marked(q, u, millis), regs);
    case NewProcess(pid, kernelMode, directory, uid) =>
    case NewThread(p, regs) =>
  }

  /** Over every run each thread keeps the registers it last left the processor with. */
  lemma {:induction false} RegistersAreKept(s: Sched, steps: seq<Step>, t: Tid)
    requires WellFormed(s) && After(s, steps).Some? && t < |After(s, steps).value.threads|
    ensures After(s, steps).value.threads[t].regs == LastLeft(s, steps, t)
    decreases |steps|
  {
    hide Apply, Enabled, WellFormed, Stored;
    if steps != [] {
      var n := |steps| - 1;
      var q := After(s, steps[..n]).value;
      StepKeepsRegs(q, steps[n], t);
      if Stored(q, steps[n], t).None? {
        RegistersAreKept(s, steps[..n], t);
      }
    }
  }

  /** The current thread's process owns the current directory, or has none. */
  ghost predicate InOwnDirectory(s: Sched)
    requires WellFormed(s)
  {
    var pd := s.procs[s.threads[s.cur].owner].pageDirectory;
    pd != 0 ==> s.pageDirectory == pd
  }

  lemma TickSwitches(s: Sched, regs: Regs)
    requires WellFormed(s) && Returns(s)
    ensures WellFormed(Tick(s, regs)) && InOwnDirectory(Tick(s, regs))
    ensures s.procs[Tick(s, regs).threads[Tick(s, regs).cur].owner].pageDirectory == 0
            ==> Tick(s, regs).pageDirectory == s.pageDirectory
  {
    hide Scheduled;
    SavedKeepsWellFormed(s, regs);
    ScheduledKeepsWellFormed(Saved(s, regs));
    ScheduledKeepsOthers(Saved(s, regs));
  }

  /** Context isolation: whatever the run did, the thread the handler resumes at its end gets back the registers it
      last left the processor with, and runs in its own process's directory. */
  lemma ResumedContext(s: Sched, steps: seq<Step>)
    requires WellFormed(s) && After(s, steps).Some?
    requires steps != [] && (steps[|steps| - 1].Interrupt? || steps[|steps| - 1].Sleep?)
    ensures var s' := After(s, steps).value;
            WellFormed(s') && Loaded(s') == LastLeft(s, steps, s'.cur) && InOwnDirectory(s')
  {
    hide Tick, InOwnDirectory, LastLeft, Listed, HasRunning;
    var n := |steps| - 1;
    var q, s' := After(s, steps[..n]).value, After(s, steps).value;
    match steps[n] {
      case Interrupt(regs) => TickSwitches(q, regs);
      case Sleep(t, millis, regs) =>
        MarkedKeepsWellFormed(q, t, millis);
        TickSwitches(Marked(q, t, millis), regs);
    }
    RegistersAreKept(s, steps, s'.cur);
  }

  // ----- Round robin -----

  /** The running threads, in the order of the ring. */
  function Runners(r: seq<Tid>, threads: seq<Thread>): seq<Tid> {
    if r == [] then []
    else
      var n := |r| - 1;
      Runners(r[..n], threads) + if IsRunning(threads, r[n]) then [r[n]] else []
  }

  /** How many running threads stand before position i of the ring. */
  function Rank(r: seq<Tid>, threads: seq<Thread>, i: nat): nat
    requires i <= |r|
  {
    |Runners(r[..i], threads)|
  }

  lemma {:induction false} RankCounts(r: seq<Tid>, threads: seq<Thread>, i: nat, j: nat)
    requires i <= j <= |r|
    ensures Rank(r, threads, i) <= Rank(r, threads, j)
    ensures (forall m :: i <= m < j ==> !IsRunning(threads, r[m])) ==> Rank(r, threads, i) == Rank(r, threads, j)
    ensures Runners(r[..i], threads) <= Runners(r[..j], threads)
    decreases j
  {
    if i < j {
      RankCounts(r, threads, i, j - 1);
      assert r[..j][..j - 1] == r[..j - 1];
    }
  }

  lemma RankAtEnds(r: seq<Tid>, threads: seq<Thread>)
    ensures Rank(r, threads, 0) == 0 && Rank(r, threads, |r|) == |Runners(r, threads)|
  {
    assert r[..|r|] == r;
  }

  /** A running thread stands at its rank among the runners. */
  lemma RankedRunner(r: seq<Tid>, threads: seq<Thread>, i: nat)
    requires i < |r| && IsRunning(threads, r[i])
    ensures Rank(r, threads, i + 1) == Rank(r, threads, i) + 1 <= |Runners(r, threads)|
    ensures Runners(r, threads)[Rank(r, threads, i)] == r[i]
  {
    assert r[..i + 1][..i] == r[..i];
    assert r[..|r|] == r;
    RankCounts(r, threads, i + 1, |r|);
  }

  /** Nobody runs strictly between a position and the next runner. */
  lemma NoneBetween(r: seq<Tid>, threads: seq<Thread>, f: nat, k: nat, m: nat)
    requires f < |r| && IsGap(r, threads, f, k) && f < m < f + k
    ensures !IsRunning(threads, r[if m < |r| then m else m - |r|])
  {
    ModWithinRound(|r|, m);
    assert Ahead(r, f, m - f) == r[m % |r|];
  }

  lemma GapAhead(r: seq<Tid>, threads: seq<Thread>, f: nat, k: nat)
    requires f < |r| && IsRunning(threads, r[f]) && IsGap(r, threads, f, k) && f + k < |r|
    ensures Rank(r, threads, f) + 1 < |Runners(r, threads)|
    ensures Ahead(r, f, k) == Runners(r, threads)[Rank(r, threads, f) + 1]
  {
    hide Rank, Runners;
    ModWithinRound(|r|, f + k);
    assert IsRunning(threads, r[f + k]);
    RankedRunner(r, threads, f);
    forall m | f + 1 <= m < f + k ensures !IsRunning(threads, r[m]) {
      NoneBetween(r, threads, f, k, m);
    }
    RankCounts(r, threads, f + 1, f + k);
    RankedRunner(r, threads, f + k);
  }

  lemma GapWraps(r: seq<Tid>, threads: seq<Thread>, f: nat, k: nat)
    requires f < |r| && IsRunning(threads, r[f]) && IsGap(r, threads, f, k) && f + k >= |r|
    ensures Rank(r, threads, f) + 1 == |Runners(r, threads)|
    ensures Ahead(r, f, k) == Runners(r, threads)[0]
  {
    hide Rank, Runners;
    var n := |r|;
    ModWithinRound(n, f + k);
    RankedRunner(r, threads, f);
    forall m | f + 1 <= m < n ensures !IsRunning(threads, r[m]) {
      NoneBetween(r, threads, f, k, m);
    }
    forall m | 0 <= m < f + k - n ensures !IsRunning(threads, r[m]) {
      NoneBetween(r, threads, f, k, m + n);
    }
    RankAtEnds(r, threads);
    RankCounts(r, threads, f + 1, n);
    RankCounts(r, threads, 0, f + k - n);
    RankedRunner(r, threads, f + k - n);
  }

  /** The next running thread of the ring is the next of the runners, cyclically. */
  lemma GapIsNextRunner(r: seq<Tid>, threads: seq<Thread>, f: nat, k: nat)
    requires f < |r| && IsRunning(threads, r[f]) && IsGap(r, threads, f, k)
    ensures Rank(r, threads, f) < |Runners(r, threads)|
    ensures Ahead(r, f, k)
            == Runners(r, threads)[(Rank(r, threads, f) + 1) % |Runners(r, threads)|]
  {
    hide IsGap, Rank, Runners, Ahead;
    if f + k < |r| {
      GapAhead(r, threads, f, k);
    } else {
      GapWraps(r, threads, f, k);
    }
    ModWithinRound(|Runners(r, threads)|, Rank(r, threads, f) + 1);
  }

  lemma {:induction false} RunnersKept(r: seq<Tid>, a: seq<Thread>, b: seq<Thread>)
    requires forall t :: t in r ==> (IsRunning(a, t) <==> IsRunning(b, t))
    ensures Runners(r, a) == Runners(r, b)
  {
    if r != [] {
      RunnersKept(r[..|r| - 1], a, b);
    }
  }

  lemma {:induction false} RunnersNoRepeat(r: seq<Tid>, threads: seq<Thread>)
    requires NoRepeat(r)
    ensures NoRepeat(Runners(r, threads))
    ensures forall t :: t in Runners(r, threads) <==> t in r && IsRunning(threads, t)
  {
    if r != [] {
      var n := |r| - 1;
      RunnersNoRepeat(r[..n], threads);
      assert r == r[..n] + [r[n]];
      assert r[n] !in r[..n];
    }
  }

  function RunnersOf(s: Sched): seq<Tid> {
    Runners(Ring(s.procs), s.threads)
  }

  /** The runners are exactly the running threads, each once. */
  lemma RunnersAreAll(s: Sched)
    requires WellFormed(s)
    ensures NoRepeat(RunnersOf(s))
    ensures forall t: Tid :: t in RunnersOf(s) <==> IsRunning(s.threads, t)
  {
    RingIsAll(s.procs, s.threads);
    RunnersNoRepeat(Ring(s.procs), s.threads);
  }

  lemma RunnersUnchanged(s: Sched, s': Sched)
    requires s'.procs == s.procs && |s'.threads| == |s.threads|
    requires forall t :: 0 <= t < |s.threads| ==> s'.threads[t].state == s.threads[t].state
    ensures RunnersOf(s') == RunnersOf(s)
  {
    RunnersKept(Ring(s.procs), s.threads, s'.threads);
  }

  /** The dispatch loop goes from the j-th of the runners to the next, cyclically. */
  lemma DispatchNext(s: Sched, j: nat)
    requires WellFormed(s) && IsRunning(s.threads, s.cur) && HasRunning(s.threads)
    requires j < |RunnersOf(s)| && RunnersOf(s)[j] == s.cur
    ensures Dispatch(s).cur == RunnersOf(s)[(j + 1) % |RunnersOf(s)|]
  {
    hide Rank, Runners;
    RingIsAll(s.procs, s.threads);
    RunnersAreAll(s);
    var r := Ring(s.procs);
    var f := Pos(r, s.cur);
    GapIsNextRunner(r, s.threads, f, Gap(r, s.threads, f));
    RankedRunner(r, s.threads, f);
  }

  /** One tick without a sleep: a full slice is cut to its last tick, a last tick passes the turn. */
  lemma ScheduledNext(s: Sched, j: nat)
    requires Boundary(s) && Returns(s)
    requires j < |RunnersOf(s)| && RunnersOf(s)[j] == s.cur
    ensures s.threads[s.cur].remaining == 2 ==>
      Scheduled(s).cur == s.cur && Scheduled(s).threads[s.cur].remaining == 1
    ensures s.threads[s.cur].remaining == 1 ==>
      && Scheduled(s).cur == RunnersOf(s)[(j + 1) % |RunnersOf(s)|]
      && Scheduled(s).cur < |Scheduled(s).threads|
      && Scheduled(s).threads[Scheduled(s).cur].remaining == 2
  {
    hide Dispatch, Listed, HasRunning, RunnersOf;
    if s.threads[s.cur].remaining == 1 {
      WithCurrentKeepsWellFormed(s, Running, 0);
      var s1 := WithCurrent(s, Running, 0);
      RunnersUnchanged(s, s1);
      DispatchNext(s1, j);
      FreshSlice(s1);
    }
  }

  lemma FreshSlice(s: Sched)
    requires WellFormed(s) && HasRunning(s.threads)
    ensures Dispatch(s).cur < |Dispatch(s).threads|
    ensures Dispatch(s).threads[Dispatch(s).cur].remaining == TIME_PER_THREAD
  {
    RingIsAll(s.procs, s.threads);
  }

  lemma QuietTick(s: Sched, regs: Regs, j: nat)
    requires Boundary(s) && j < |RunnersOf(s)| && RunnersOf(s)[j] == s.cur
    ensures Returns(s)
    ensures var s' := Tick(s, regs);
            && Boundary(s') && RunnersOf(s') == RunnersOf(s)
            && if s.threads[s.cur].remaining == 2
               then s'.cur == s.cur && s'.threads[s'.cur].remaining == 1
               else s'.cur == RunnersOf(s)[(j + 1) % |RunnersOf(s)|] && s'.threads[s'.cur].remaining == 2
  {
    hide Scheduled, RunnersOf, Listed;
    assert HasRunning(s.threads);
    var s0 := Saved(s, regs);
    SavedKeepsWellFormed(s, regs);
    TickResumes(s, regs);
    TickKeepsOthers(s, regs);
    RunnersUnchanged(s, Tick(s, regs));
    RunnersUnchanged(s, s0);
    ScheduledNext(s0, j);
  }

  ghost predicate Quiet(steps: seq<Step>) {
    forall k :: 0 <= k < |steps| ==> steps[k].Interrupt?
  }

  /** Which turn of the round is being served n ticks after a state whose current thread had left ticks. */
  function Turn(n: nat, left: nat): nat
    requires 1 <= left <= 2
  {
    (n + 2 - left) / 2
  }

  /** The ticks left in the turn being served. */
  function LeftInTurn(n: nat, left: nat): nat
    requires 1 <= left <= 2
  {
    2 - (n + 2 - left) % 2
  }

  lemma NextTurn(n: nat, left: nat)
    requires 1 <= left <= 2
    ensures Turn(n + 1, left) == Turn(n, left) + if LeftInTurn(n, left) == 2 then 0 else 1
    ensures LeftInTurn(n + 1, left) == if LeftInTurn(n, left) == 2 then 1 else 2
  {
  }

  /** The round robin's promise n ticks after s, when the current thread was the j-th of the runners. */
  ghost predicate InTurn(s: Sched, j: nat, n: nat, s': Sched)
    requires Boundary(s) && j < |RunnersOf(s)|
  {
    var left := s.threads[s.cur].remaining;
    && Boundary(s') && RunnersOf(s') == RunnersOf(s)
    && s'.cur == RunnersOf(s)[(j + Turn(n, left)) % |RunnersOf(s)|]
    && s'.threads[s'.cur].remaining == LeftInTurn(n, left)
  }

  lemma TurnPasses(s: Sched, j: nat, n: nat, q: Sched, regs: Regs)
    requires Boundary(s) && j < |RunnersOf(s)| && InTurn(s, j, n, q)
    ensures WellFormed(q) && Returns(q) && InTurn(s, j, n + 1, Tick(q, regs))
  {
    hide RunnersOf, Tick, Listed, HasRunning, Turn, LeftInTurn;
    var R, left := |RunnersOf(s)|, s.threads[s.cur].remaining;
    var x := j + Turn(n, left);
    QuietTick(q, regs, x % R);
    NextInRound(x, R);
    NextTurn(n, left);
  }

  /** Exact round robin: over any number of ticks without sleeps and creations, the current thread and the ticks it has
      left are a function of the number of ticks. */
  lemma {:induction false} RoundRobin(s: Sched, steps: seq<Step>, j: nat)
    requires Boundary(s) && Quiet(steps)
    requires j < |RunnersOf(s)| && RunnersOf(s)[j] == s.cur
    ensures After(s, steps).Some? && InTurn(s, j, |steps|, After(s, steps).value)
    decreases |steps|
  {
    hide RunnersOf, Tick, Listed;
    if steps == [] {
      ModWithinRound(|RunnersOf(s)|, j);
    } else {
      hide InTurn, Boundary, WellFormed;
      var n := |steps| - 1;
      RoundRobin(s, steps[..n], j);
      TurnPasses(s, j, n, After(s, steps[..n]).value, steps[n].regs);
    }
  }

  /** The thread current after the first k of the steps. */
  ghost predicate ResumedAt(s: Sched, steps: seq<Step>, k: nat, t: Tid)
    requires k <= |steps|
  {
    After(s, steps[..k]).Some? && After(s, steps[..k]).value.cur == t
  }

  lemma ResumedAtTurn(s: Sched, steps: seq<Step>, j: nat, k: nat, i: nat)
    requires Boundary(s) && Quiet(steps) && k <= |steps|
    requires j < |RunnersOf(s)| && RunnersOf(s)[j] == s.cur
    requires i < |RunnersOf(s)|
    ensures ResumedAt(s, steps, k, RunnersOf(s)[i])
            <==> (j + Turn(k, s.threads[s.cur].remaining)) % |RunnersOf(s)| == i
  {
    hide RunnersOf, Listed, Turn, LeftInTurn, After;
    RunnersAreAll(s);
    RoundRobin(s, steps[..k], j);
  }

  /** Fairness: with R running threads, in any 2 R ticks each of them is the one resumed exactly twice. */
  lemma ResumedExactlyTwice(s: Sched, steps: seq<Step>, t: Tid) returns (first: nat, second: nat)
    requires Boundary(s) && Quiet(steps) && |steps| == 2 * |RunnersOf(s)|
    requires IsRunning(s.threads, t)
    ensures 1 <= first < second <= |steps|
    ensures forall k: nat :: 1 <= k <= |steps| ==> (ResumedAt(s, steps, k, t) <==> k == first || k == second)
  {
    hide RunnersOf, Listed, Turn, LeftInTurn, ResumedAt;
    RunnersAreAll(s);
    var all, R, left := RunnersOf(s), |RunnersOf(s)|, s.threads[s.cur].remaining;
    var j: nat :| j < R && all[j] == s.cur;
    var i: nat :| i < R && all[i] == t;
    var d := if i >= j then i - j else i - j + R;
    first, second := TwoTurns(d, R, left);
    forall k: nat | 1 <= k <= |steps| ensures ResumedAt(s, steps, k, t) <==> k == first || k == second {
      ResumedAtTurn(s, steps, j, k, i);
      TurnIsServed(j, i, R, k, left);
    }
  }

  lemma TurnIsServed(j: nat, i: nat, R: nat, k: nat, left: nat)
    requires j < R && i < R && 1 <= left <= 2 && k <= 2 * R
    ensures var d := if i >= j then i - j else i - j + R;
            (j + Turn(k, left)) % R == i <==> Turn(k, left) == d || Turn(k, left) == d + R
  {
    ModWithinRound(R, j + Turn(k, left));
  }

  /** Among 2 R ticks the turn that is d places away comes up at exactly two. */
  lemma TwoTurns(d: nat, R: nat, left: nat) returns (first: nat, second: nat)
    requires d < R && 1 <= left <= 2
    ensures 1 <= first < second <= 2 * R
    ensures forall k: nat {:trigger Turn(k, left)} :: 1 <= k <= 2 * R ==>
      (Turn(k, left) == d || Turn(k, left) == d + R <==> k == first || k == second)
  {
    if d > 0 {
      first, second := 2 * d + left - 2, 2 * d + left - 1;
    } else if left == 1 {
      first, second := 2 * R - 1, 2 * R;
    } else {
      first, second := 1, 2 * R;
    }
  }

  // ----- The dispatch loop -----

  /** The threads after k iterations of the dispatch loop from position f: each goes on to the next thread of the ring
      and ticks it down if it sleeps. */
  function Iterations(r: seq<Tid>, threads: seq<Thread>, f: nat, k: nat): (out: seq<Thread>)
    requires r != [] && (forall t :: t in r ==> t < |threads|)
    requires forall t :: 0 <= t < |threads| ==> threads[t].remaining < WORD
    ensures |out| == |threads|
    ensures forall t :: 0 <= t < |threads| ==> out[t].remaining < WORD && out[t].state == threads[t].state
  {
    if k == 0 then threads
    else
      var before, t := Iterations(r, threads, f, k - 1), Ahead(r, f, k);
      assert t in r;
      if before[t].state == Sleeping then before[t := before[t].(remaining := Dec32(before[t].remaining))] else before
  }

  /** The k-th iteration tests its thread after ticking it down, and asks for another. */
  predicate GoesOn(r: seq<Tid>, threads: seq<Thread>, f: nat, k: nat)
    requires r != [] && (forall t :: t in r ==> t < |threads|)
    requires forall t :: 0 <= t < |threads| ==> threads[t].remaining < WORD
  {
    assert Ahead(r, f, k) in r;
    Iterations(r, threads, f, k)[Ahead(r, f, k)].state == Sleeping
  }

  /** Every iteration of the dispatch loop asks for another, so that the handler never returns, if and only if no
      thread runs; otherwise the first that does not is within one round. */
  lemma DispatchNeverEnds(s: Sched)
    requires WellFormed(s)
    ensures s.cur in Ring(s.procs) && forall t :: t in Ring(s.procs) ==> t < |s.threads|
    ensures var r := Ring(s.procs);
      (forall k: nat :: k >= 1 ==> GoesOn(r, s.threads, Pos(r, s.cur), k)) <==> !HasRunning(s.threads)
    ensures var r := Ring(s.procs);
      HasRunning(s.threads) ==> exists k: nat :: 1 <= k <= |r| && !GoesOn(r, s.threads, Pos(r, s.cur), k)
  {
    RingIsAll(s.procs, s.threads);
    var r := Ring(s.procs);
    var f := Pos(r, s.cur);
    if HasRunning(s.threads) {
      DispatchEnds(s);
      var k :| IsGap(r, s.threads, f, k);
      assert IsRunning(s.threads, Ahead(r, f, k));
      assert !GoesOn(r, s.threads, f, k);
    } else {
      forall k: nat | k >= 1 ensures GoesOn(r, s.threads, f, k) {
        assert Ahead(r, f, k) in r;
        assert !IsRunning(s.threads, Ahead(r, f, k));
      }
    }
  }

  /** The dispatch loop started in this state comes to an iteration that does not ask for another. */
  ghost predicate LoopEnds(s: Sched)
    requires WellFormed(s)
  {
    RingIsAll(s.procs, s.threads);
    exists k: nat :: k >= 1 && !GoesOn(Ring(s.procs), s.threads, Pos(Ring(s.procs), s.cur), k)
  }

  /** The handler by its branches: it comes back unless it enters a dispatch loop that does not end. */
  ghost predicate ComesBack(s: Sched)
    requires WellFormed(s)
  {
    var c := s.threads[s.cur];
    if c.state == Running then
      var left := if c.remaining > 0 then c.remaining - 1 else 0;
      WithCurrentKeepsWellFormed(s, Running, left);
      left > 0 || LoopEnds(WithCurrent(s, Running, left))
    else
      var left := Dec32(c.remaining);
      WithCurrentKeepsWellFormed(s, Sleeping, left);
      left == 0 || LoopEnds(WithCurrent(s, Sleeping, left))
  }

  /** The handler comes back if and only if some thread runs or the current one's counter stands at one; so not for a
      sleeping current thread with any other counter when no other thread runs. */
  lemma HandlerReturnsIff(s: Sched, regs: Regs)
    requires WellFormed(s)
    ensures WellFormed(Saved(s, regs)) && (ComesBack(Saved(s, regs)) <==> Returns(s))
  {
    SavedKeepsWellFormed(s, regs);
    SavedStates(s, regs);
    var s0 := Saved(s, regs);
    var c := s0.threads[s0.cur];
    hide Saved, GoesOn, Ring, Listed;
    if c.state == Running {
      var left := if c.remaining > 0 then c.remaining - 1 else 0;
      WithCurrentKeepsWellFormed(s0, Running, left);
      LoopEndsIff(WithCurrent(s0, Running, left));
      assert IsRunning(s0.threads, s0.cur);
    } else {
      WithCurrentKeepsWellFormed(s0, Sleeping, Dec32(c.remaining));
      LoopEndsIff(WithCurrent(s0, Sleeping, Dec32(c.remaining)));
      SleepingKeepsRunners(s0, Dec32(c.remaining));
    }
  }

  lemma LoopEndsIff(s: Sched)
    requires WellFormed(s)
    ensures LoopEnds(s) <==> HasRunning(s.threads)
  {
    DispatchNeverEnds(s);
  }

  lemma SavedStates(s: Sched, regs: Regs)
    requires WellFormed(s)
    ensures Saved(s, regs).cur == s.cur && Saved(s, regs).threads[s.cur].remaining == s.threads[s.cur].remaining
    ensures HasRunning(Saved(s, regs).threads) <==> HasRunning(s.threads)
  {
    forall t: Tid ensures IsRunning(Saved(s, regs).threads, t) <==> IsRunning(s.threads, t) {
    }
  }

  lemma SleepingKeepsRunners(s: Sched, left: nat)
    requires WellFormed(s) && s.threads[s.cur].state == Sleeping
    ensures HasRunning(WithCurrent(s, Sleeping, left).threads) <==> HasRunning(s.threads)
  {
    forall t: Tid ensures IsRunning(WithCurrent(s, Sleeping, left).threads, t) <==> IsRunning(s.threads, t) {
    }
  }

  /** Up to the first running thread, those iterations are what the machine's dispatch passes over. */
  lemma {:induction false} IterationsPassOver(r: seq<Tid>, threads: seq<Thread>, f: nat, g: nat, k: nat)
    requires NoRepeat(r) && f < |r| && IsGap(r, threads, f, g) && k < g && (forall t :: t in r ==> t < |threads|)
    requires forall t :: 0 <= t < |threads| ==> threads[t].remaining < WORD
    ensures Iterations(r, threads, f, k) == PassOver(r, threads, f, k + 1)
  {
    if k == 0 {
      PassNone(r, threads, f);
    } else {
      IterationsPassOver(r, threads, f, g, k - 1);
      assert Ahead(r, f, k) in r && !IsRunning(threads, Ahead(r, f, k));
      PassOne(r, threads, f, k);
    }
  }

  /** Some running thread is at a finite distance if and only if there is one. */
  lemma DispatchEnds(s: Sched)
    requires WellFormed(s)
    ensures s.cur in Ring(s.procs)
    ensures (exists k :: IsGap(Ring(s.procs), s.threads, Pos(Ring(s.procs), s.cur), k)) <==> HasRunning(s.threads)
  {
    RingIsAll(s.procs, s.threads);
    if HasRunning(s.threads) {
      var t :| IsRunning(s.threads, t);
      assert t in Ring(s.procs);
      GapExists(Ring(s.procs), s.threads, Pos(Ring(s.procs), s.cur));
    }
  }

  /** On the way from position f of the ring to position g, round the end if need be, comes position i. */
  predicate Between(f: nat, i: nat, g: nat) {
    if f < g then f < i < g else i > f || i < g
  }

  /** Every other counter the loop changes is that of a sleeper it passed on its way, and it drops by one, wrapping. */
  lemma DispatchCounts(s: Sched, u: Tid)
    requires WellFormed(s) && HasRunning(s.threads) && u < |s.threads| && u != Dispatch(s).cur
    ensures u < |Dispatch(s).threads| && s.cur in Ring(s.procs) && u in Ring(s.procs)
    ensures var r := Ring(s.procs);
            var met := Between(Pos(r, s.cur), Pos(r, u), Pos(r, Dispatch(s).cur));
            && Dispatch(s).threads[u].remaining
               == (if met then Dec32(s.threads[u].remaining) else s.threads[u].remaining)
            && (met ==> s.threads[u].state == Sleeping)
  {
    hide Dispatch, Ring, Listed, HasRunning;
    RingIsAll(s.procs, s.threads);
    var r, f, k := DispatchIs(s);
    var n, i := |r|, Pos(r, u);
    var g := if f + k < n then f + k else f + k - n;
    ModWithinRound(n, f + k);
    assert r[g] == Dispatch(s).cur;
    assert g == Pos(r, Dispatch(s).cur);
    PassedMeans(r, f, k, u);
    if Passed(r, f, k, u) {
      var m :| 1 <= m < k && Ahead(r, f, m) == u;
      assert !IsRunning(s.threads, u);
    }
  }

  /** The current thread goes on: it has ticks left, or its sleep is over. */
  predicate GoesOnRunning(c: Thread) {
    if c.state == Running then c.remaining > 1 else c.remaining == 1
  }

  /** The counter of thread u after the handler: a thread that goes on has one tick less, or a fresh slice when it
      wakes, and no other counter changes; otherwise the next thread has a fresh slice, the old one has none left or
      sleeps a tick less, and so does every sleeper in between. */
  ghost predicate Counted(s: Sched, s': Sched, u: Tid)
    requires s.cur < |s.threads| && u < |s.threads| && u < |s'.threads|
    requires forall t :: 0 <= t < |s.threads| ==> s.threads[t].remaining < WORD
    requires var r := Ring(s.procs); s.cur in r && u in r && s'.cur in r
  {
    var r, c, was, left := Ring(s.procs), s.threads[s.cur], s.threads[u].remaining, s'.threads[u].remaining;
    if GoesOnRunning(c) then
      s'.cur == s.cur && left == if u != s.cur then was else if c.state == Running then was - 1 else 2
    else
      var met := Between(Pos(r, s.cur), Pos(r, u), Pos(r, s'.cur));
      && (met ==> s.threads[u].state == Sleeping)
      && left == if u == s'.cur then 2
                 else if u == s.cur then (if c.state == Running then 0 else Dec32(was))
                 else if met then Dec32(was)
                 else was
  }

  lemma InRing(s: Sched, u: Tid)
    requires WellFormed(s) && u < |s.threads|
    ensures u in Ring(s.procs)
  {
    RingIsAll(s.procs, s.threads);
  }

  lemma ScheduledCounts(s: Sched, u: Tid)
    requires WellFormed(s) && Returns(s) && u < |s.threads|
    ensures WellFormed(Scheduled(s)) && Scheduled(s).procs == s.procs && |Scheduled(s).threads| == |s.threads|
    ensures var r := Ring(s.procs); s.cur in r && u in r && Scheduled(s).cur in r
    ensures Counted(s, Scheduled(s), u)
  {
    hide Dispatch, HasRunning, Listed, Ring;
    ScheduledKeepsWellFormed(s);
    ScheduledKeepsOthers(s);
    InRing(s, u);
    InRing(s, s.cur);
    InRing(Scheduled(s), Scheduled(s).cur);
    var c := s.threads[s.cur];
    if !GoesOnRunning(c) {
      var left := if c.state == Running then 0 else Dec32(c.remaining);
      WithCurrentKeepsWellFormed(s, c.state, left);
      if c.state == Sleeping {
        SleeperKeepsRunners(s, left);
      }
      var s1 := WithCurrent(s, c.state, left);
      FreshSlice(s1);
      if u != Dispatch(s1).cur {
        DispatchCounts(s1, u);
      }
    }
  }

  /** Every counter after a timer interrupt. */
  lemma TickCounts(s: Sched, regs: Regs, u: Tid)
    requires WellFormed(s) && Returns(s) && u < |s.threads|
    ensures u < |Tick(s, regs).threads|
    ensures var r := Ring(s.procs); s.cur in r && u in r && Tick(s, regs).cur in r
    ensures Counted(s, Tick(s, regs), u)
  {
    hide Scheduled, Listed, Ring;
    SavedKeepsWellFormed(s, regs);
    ScheduledKeepsWellFormed(Saved(s, regs));
    ScheduledCounts(Saved(s, regs), u);
  }

  /** Every counter after a sleep call, the sleeper's included: it is at the ticks asked for, or one below if the call
      or the dispatch that followed has already counted. */
  lemma SleepCounts(s: Sched, t: Tid, millis: nat, regs: Regs, u: Tid)
    requires Boundary(s) && Enabled(s, Sleep(t, millis, regs)) && u < |s.threads|
    ensures u < |Apply(s, Sleep(t, millis, regs)).threads|
    ensures var r := Ring(s.procs); s.cur in r && u in r && Apply(s, Sleep(t, millis, regs)).cur in r
    ensures var s' := Apply(s, Sleep(t, millis, regs));
      var was := if u == t then millis else s.threads[u].remaining;
      var r, left := Ring(s.procs), s'.threads[u].remaining;
      if t == s.cur && millis == 1 then s'.cur == s.cur && left == if u == t then 2 else was
      else if t != s.cur && s.threads[s.cur].remaining == 2 then
        s'.cur == s.cur && left == if u == s.cur then 1 else was
      else
        left == if u == s'.cur then 2
                else if u == s.cur then (if t == s.cur then Dec32(millis) else 0)
                else if Between(Pos(r, s.cur), Pos(r, u), Pos(r, s'.cur)) then Dec32(was)
                else was
  {
    hide Tick, Listed, Ring;
    MarkedKeepsWellFormed(s, t, millis);
    TickCounts(Marked(s, t, millis), regs, u);
    TickKeepsOthers(Marked(s, t, millis), regs);
    SleepWakes(s, t, millis, regs);
    TickKeepsWellFormed(Marked(s, t, millis), regs);
  }

  /** Which positions the first k - 1 steps from f go over. */
  lemma PassedMeans(r: seq<Tid>, f: nat, k: nat, u: Tid)
    requires NoRepeat(r) && f < |r| && 1 <= k <= |r| && u in r
    ensures var i := Pos(r, u);
            Passed(r, f, k, u) <==> if f + k < |r| then f < i < f + k else i > f || i < f + k - |r|
  {
    var n, i := |r|, Pos(r, u);
    if Passed(r, f, k, u) {
      var m :| 1 <= m < k && Ahead(r, f, m) == u;
      ModWithinRound(n, f + m);
    }
    if i > f && i < f + k {
      ModWithinRound(n, i);
      assert Ahead(r, f, i - f) == u;
    }
    if i + n < f + k {
      ModWithinRound(n, i + n);
      assert Ahead(r, f, i + n - f) == u;
    }
  }
}
