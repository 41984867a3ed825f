/** The scheduler (kernel/src/Scheduler/Scheduler.c) as a state machine: one step is a timer interrupt, an
    atomic sleep call, or the creation of a process or a thread. Scheduler.dfy proves the code against it.
    A thread id stands for the address of its SchedThread record. */
module SchedModel {
  import opened Words

  type Tid = nat

  /** The CPUFrame of a thread: all the registers a context switch keeps. */
  datatype Regs = Regs(Gs: nat, Fs: nat, Ss: nat, Es: nat, Ds: nat, Cs: nat,
                       Edi: nat, Esi: nat, Ebp: nat, Esp: nat, Ebx: nat, Edx: nat, Ecx: nat, Eax: nat,
                       Eip: nat, Eflags: nat)

  datatype TaskState = Running | Sleeping

  datatype Thread = Thread(owner: nat, state: TaskState, remaining: nat, regs: Regs)

  /** PageDirectory is an address, 0 for none. */
  datatype Proc = Proc(pid: nat, uid: nat, kernelMode: bool, pageDirectory: nat, threads: seq<Tid>)

  datatype Sched = Sched(procs: seq<Proc>, threads: seq<Thread>, cur: Tid, initialized: bool, pageDirectory: nat)

  const TIME_PER_THREAD: nat := 2

  // ----- The ring of threads -----

  /** All threads in the order the dispatcher meets them: process by process. */
  function Ring(procs: seq<Proc>): seq<Tid> {
    if procs == [] then [] else Ring(procs[..|procs| - 1]) + procs[|procs| - 1].threads
  }

  /** Each thread is listed once, by its owner. */
  ghost predicate Listed(procs: seq<Proc>, threads: seq<Thread>) {
    && (forall p, k :: 0 <= p < |procs| && 0 <= k < |procs[p].threads| ==>
          procs[p].threads[k] < |threads| && threads[procs[p].threads[k]].owner == p)
    && (forall p, k, l :: 0 <= p < |procs| && 0 <= k < l < |procs[p].threads| ==>
          procs[p].threads[k] != procs[p].threads[l])
    && (forall t :: 0 <= t < |threads| ==>
          threads[t].owner < |procs| && t in procs[threads[t].owner].threads)
  }

  ghost predicate WellFormed(s: Sched) {
    && Listed(s.procs, s.threads)
    && s.cur < |s.threads|
    && forall t :: 0 <= t < |s.threads| ==> s.threads[t].remaining < WORD
  }

  lemma {:induction false} RingHolds(procs: seq<Proc>, t: Tid)
    ensures t in Ring(procs) <==> exists p :: 0 <= p < |procs| && t in procs[p].threads
  {
    if procs != [] {
      var n := |procs| - 1;
      RingHolds(procs[..n], t);
      if t in Ring(procs[..n]) {
        var p :| 0 <= p < n && t in procs[..n][p].threads;
        assert t in procs[p].threads;
      }
      if p :| 0 <= p < n && t in procs[p].threads {
        assert t in procs[..n][p].threads;
      }
    }
  }

  lemma {:induction false} RingNoRepeat(procs: seq<Proc>, threads: seq<Thread>)
    requires forall p, k :: 0 <= p < |procs| && 0 <= k < |procs[p].threads| ==>
      procs[p].threads[k] < |threads| && threads[procs[p].threads[k]].owner == p
    requires forall p, k, l :: 0 <= p < |procs| && 0 <= k < l < |procs[p].threads| ==>
      procs[p].threads[k] != procs[p].threads[l]
    ensures NoRepeat(Ring(procs))
  {
    if procs != [] {
      var n := |procs| - 1;
      var front, back := Ring(procs[..n]), procs[n].threads;
      RingNoRepeat(procs[..n], threads);
      forall i, j | 0 <= i < j < |front + back| ensures (front + back)[i] != (front + back)[j] {
        if i < |front| <= j {
          RingHolds(procs[..n], front[i]);
          var p :| 0 <= p < n && front[i] in procs[..n][p].threads;
          assert threads[front[i]].owner == p && threads[back[j - |front|]].owner == n;
        }
      }
    }
  }

  /** The ring holds every thread exactly once. */
  lemma RingIsAll(procs: seq<Proc>, threads: seq<Thread>)
    requires Listed(procs, threads)
    ensures NoRepeat(Ring(procs))
    ensures forall t: Tid :: t in Ring(procs) <==> t < |threads|
  {
    RingNoRepeat(procs, threads);
    forall t: Tid ensures t in Ring(procs) <==> t < |threads| {
      RingHolds(procs, t);
      if t in Ring(procs) {
        var p :| 0 <= p < |procs| && t in procs[p].threads;
        var k :| 0 <= k < |procs[p].threads| && procs[p].threads[k] == t;
      }
      if t < |threads| {
        assert t in procs[threads[t].owner].threads;
      }
    }
  }

  /** Where the threads of process p begin in the ring. */
  function Offset(procs: seq<Proc>, p: nat): nat
    requires p <= |procs|
  {
    |Ring(procs[..p])|
  }

  lemma {:induction false} RingGrows(procs: seq<Proc>, p: nat, q: nat)
    requires p <= q <= |procs|
    ensures Ring(procs[..p]) <= Ring(procs[..q]) && Offset(procs, p) <= Offset(procs, q)
    ensures (forall i :: p <= i < q ==> procs[i].threads == []) ==> Offset(procs, p) == Offset(procs, q)
    ensures p < q ==> Offset(procs, p + 1) == Offset(procs, p) + |procs[p].threads|
    decreases q
  {
    if p < q {
      assert procs[..q][..q - 1] == procs[..q - 1];
      assert procs[..p + 1][..p] == procs[..p];
      RingGrows(procs, p, q - 1);
    }
  }

  lemma OffsetAtEnds(procs: seq<Proc>)
    ensures Offset(procs, 0) == 0 && Offset(procs, |procs|) == |Ring(procs)|
  {
    assert procs[..|procs|] == procs;
  }

  /** The k-th thread of process p stands k places after the offset of p. */
  lemma RingAt(procs: seq<Proc>, p: nat, k: nat)
    requires p < |procs| && k < |procs[p].threads|
    ensures Offset(procs, p) + k < |Ring(procs)|
    ensures Ring(procs)[Offset(procs, p) + k] == procs[p].threads[k]
  {
    assert procs[..p + 1][..p] == procs[..p];
    assert procs[..|procs|] == procs;
    RingGrows(procs, p + 1, |procs|);
  }

  ghost function Pos(r: seq<Tid>, t: Tid): nat
    requires t in r
    ensures Pos(r, t) < |r| && r[Pos(r, t)] == t
  {
    var i: nat :| i < |r| && r[i] == t;
    i
  }

  // ----- Dispatching -----

  predicate IsRunning(threads: seq<Thread>, t: Tid) {
    t < |threads| && threads[t].state == Running
  }

  /** The thread k places behind position f of the ring. */
  function Ahead(r: seq<Tid>, f: nat, k: nat): Tid
    requires r != []
  {
    r[(f + k) % |r|]
  }

  ghost predicate HasRunning(threads: seq<Thread>) {
    exists t :: IsRunning(threads, t)
  }

  lemma ModWithinRound(n: nat, x: nat)
    requires n > 0 && x < 2 * n
    ensures x % n == if x < n then x else x - n
  {
    if x < n {
      ModIsUnique(x, n, 0, x);
    } else {
      ModIsUnique(x, n, 1, x - n);
    }
  }

  lemma NextInRound(x: nat, n: nat)
    requires n > 0
    ensures (x % n + 1) % n == (x + 1) % n
  {
    var q := x / n;
    assert x == q * n + x % n;
    if x % n + 1 < n {
      ModIsUnique(x + 1, n, q, x % n + 1);
      ModIsUnique(x % n + 1, n, 0, x % n + 1);
    } else {
      assert (q + 1) * n == q * n + n;
      ModIsUnique(x + 1, n, q + 1, 0);
      ModIsUnique(n, n, 1, 0);
    }
  }

  /** Within one round from any position every thread is met. */
  lemma MetWithinRound(r: seq<Tid>, f: nat, t: Tid) returns (k: nat)
    requires f < |r| && t in r
    ensures 1 <= k <= |r| && Ahead(r, f, k) == t
  {
    var i := Pos(r, t);
    k := if i > f then i - f else i + |r| - f;
    ModWithinRound(|r|, f + k);
  }

  /** The distance to the next running thread: at least 1, and |r| when there is no other. */
  ghost predicate IsGap(r: seq<Tid>, threads: seq<Thread>, f: nat, k: nat) {
    && r != [] && 1 <= k <= |r|
    && IsRunning(threads, Ahead(r, f, k))
    && forall m :: 1 <= m < k ==> !IsRunning(threads, Ahead(r, f, m))
  }

  lemma GapExists(r: seq<Tid>, threads: seq<Thread>, f: nat)
    requires f < |r| && exists t :: t in r && IsRunning(threads, t)
    ensures exists k :: IsGap(r, threads, f, k)
  {
    var t :| t in r && IsRunning(threads, t);
    var last := MetWithinRound(r, f, t);
    var k: nat := 1;
    while !IsRunning(threads, Ahead(r, f, k))
      invariant 1 <= k <= last
      invariant forall m :: 1 <= m < k ==> !IsRunning(threads, Ahead(r, f, m))
      decreases last - k
    {
      k := k + 1;
    }
    assert IsGap(r, threads, f, k);
  }

  ghost function Gap(r: seq<Tid>, threads: seq<Thread>, f: nat): (k: nat)
    requires f < |r| && exists t :: t in r && IsRunning(threads, t)
    ensures IsGap(r, threads, f, k)
  {
    GapExists(r, threads, f);
    var k :| IsGap(r, threads, f, k);
    k
  }

  /** The thread is among the first k - 1 met from position f. */
  ghost predicate Passed(r: seq<Tid>, f: nat, k: nat, t: Tid) {
    r != [] && exists m :: 1 <= m < k && Ahead(r, f, m) == t
  }

  /** The threads after the dispatcher passed over the first k - 1: each of those ticked down once. */
  ghost function PassOver(r: seq<Tid>, threads: seq<Thread>, f: nat, k: nat): (out: seq<Thread>)
    requires forall t :: 0 <= t < |threads| ==> threads[t].remaining < WORD
    ensures |out| == |threads|
  {
    seq(|threads|, t requires 0 <= t < |threads| =>
      if Passed(r, f, k, t) then threads[t].(remaining := Dec32(threads[t].remaining)) else threads[t])
  }

  lemma PassNone(r: seq<Tid>, threads: seq<Thread>, f: nat)
    requires forall t :: 0 <= t < |threads| ==> threads[t].remaining < WORD
    ensures PassOver(r, threads, f, 1) == threads
  {
  }

  lemma PassedBounded(r: seq<Tid>, threads: seq<Thread>, f: nat, k: nat)
    requires forall t :: 0 <= t < |threads| ==> threads[t].remaining < WORD
    ensures forall t :: 0 <= t < |threads| ==> PassOver(r, threads, f, k)[t].remaining < WORD
    ensures forall t :: 0 <= t < |threads| ==> PassOver(r, threads, f, k)[t].state == threads[t].state
  {
  }

  /** Passing one more sleeper ticks down that one, which was not passed before. */
  lemma PassOne(r: seq<Tid>, threads: seq<Thread>, f: nat, m: nat)
    requires forall t :: 0 <= t < |threads| ==> threads[t].remaining < WORD
    requires NoRepeat(r) && f < |r| && 1 <= m <= |r| && Ahead(r, f, m) < |threads|
    ensures var t, before := Ahead(r, f, m), PassOver(r, threads, f, m);
            && before[t] == threads[t]
            && PassOver(r, threads, f, m + 1) == before[t := before[t].(remaining := Dec32(before[t].remaining))]
  {
    var t := Ahead(r, f, m);
    if Passed(r, f, m, t) {
      var l :| 1 <= l < m && Ahead(r, f, l) == t;
      ModWithinRound(|r|, f + l);
      ModWithinRound(|r|, f + m);
    }
    forall u | 0 <= u < |threads| ensures Passed(r, f, m + 1, u) <==> Passed(r, f, m, u) || u == t {
    }
  }

  /** The dispatch loop: on to the next running thread, with a fresh time slice. */
  ghost function Dispatch(s: Sched): Sched
    requires WellFormed(s) && HasRunning(s.threads)
  {
    RingIsAll(s.procs, s.threads);
    var r := Ring(s.procs);
    var f := Pos(r, s.cur);
    var k := Gap(r, s.threads, f);
    var t := Ahead(r, f, k);
    var threads := PassOver(r, s.threads, f, k);
    s.(threads := threads[t := threads[t].(remaining := TIME_PER_THREAD)], cur := t)
  }

  /** The dispatch loop by its steps: it goes k places on from position f of the ring. */
  lemma DispatchIs(s: Sched) returns (r: seq<Tid>, f: nat, k: nat)
    requires WellFormed(s) && HasRunning(s.threads)
    ensures r == Ring(s.procs) && NoRepeat(r) && s.cur in r && f == Pos(r, s.cur) && IsGap(r, s.threads, f, k)
    ensures forall m :: 1 <= m <= k ==> Ahead(r, f, m) < |s.threads|
    ensures var out := PassOver(r, s.threads, f, k);
            Dispatch(s) == s.(threads := out[Ahead(r, f, k) := out[Ahead(r, f, k)].(remaining := TIME_PER_THREAD)],
                              cur := Ahead(r, f, k))
  {
    RingIsAll(s.procs, s.threads);
    r := Ring(s.procs);
    f := Pos(r, s.cur);
    k := Gap(r, s.threads, f);
    forall m | 1 <= m <= k ensures Ahead(r, f, m) < |s.threads| {
      assert Ahead(r, f, m) in r;
    }
  }

  // ----- The interrupt handler -----

  /** Whether the handler comes back: the dispatch loop needs a running thread, and a current thread woken
      by its own counter needs no dispatch. */
  ghost predicate Returns(s: Sched)
    requires s.cur < |s.threads|
  {
    HasRunning(s.threads) || s.threads[s.cur].remaining == 1
  }

  /** The registers of the interrupted thread are kept, except on the very first tick. */
  function Saved(s: Sched, regs: Regs): Sched
    requires s.cur < |s.threads|
  {
    if s.initialized then s.(threads := s.threads[s.cur := s.threads[s.cur].(regs := regs)])
    else s.(initialized := true)
  }

  function WithCurrent(s: Sched, state: TaskState, remaining: nat): Sched
    requires s.cur < |s.threads|
  {
    s.(threads := s.threads[s.cur := s.threads[s.cur].(state := state, remaining := remaining)])
  }

  lemma WithCurrentKeepsWellFormed(s: Sched, state: TaskState, remaining: nat)
    requires WellFormed(s) && remaining < WORD
    ensures WellFormed(WithCurrent(s, state, remaining))
    ensures state == Running ==> HasRunning(WithCurrent(s, state, remaining).threads)
  {
    if state == Running {
      assert IsRunning(WithCurrent(s, state, remaining).threads, s.cur);
    }
  }

  /** Who runs next. */
  ghost function Scheduled(s: Sched): Sched
    requires WellFormed(s) && Returns(s)
  {
    var c := s.threads[s.cur];
    if c.state == Running then
      var left := if c.remaining > 0 then c.remaining - 1 else 0;
      var s1 := WithCurrent(s, Running, left);
      WithCurrentKeepsWellFormed(s, Running, left);
      if left == 0 then Dispatch(s1) else s1
    else
      var left := Dec32(c.remaining);
      if left == 0 then WithCurrent(s, Running, TIME_PER_THREAD)
      else
        var s1 := WithCurrent(s, Sleeping, left);
        WithCurrentKeepsWellFormed(s, Sleeping, left);
        SleeperKeepsRunners(s, left);
        Dispatch(s1)
  }

  lemma SleeperKeepsRunners(s: Sched, left: nat)
    requires s.cur < |s.threads| && s.threads[s.cur].state == Sleeping && HasRunning(s.threads)
    ensures HasRunning(WithCurrent(s, Sleeping, left).threads)
  {
    var t :| IsRunning(s.threads, t);
    assert IsRunning(WithCurrent(s, Sleeping, left).threads, t);
  }

  /** The directory of the current thread's process, if it has one, becomes the current directory. */
  function Switched(s: Sched): Sched
    requires s.cur < |s.threads| && s.threads[s.cur].owner < |s.procs|
  {
    var pd := s.procs[s.threads[s.cur].owner].pageDirectory;
    if pd != 0 && pd != s.pageDirectory then s.(pageDirectory := pd) else s
  }

  lemma SavedKeepsWellFormed(s: Sched, regs: Regs)
    requires WellFormed(s)
    ensures WellFormed(Saved(s, regs)) && (Returns(s) ==> Returns(Saved(s, regs)))
  {
    if HasRunning(s.threads) {
      var t :| IsRunning(s.threads, t);
      assert IsRunning(Saved(s, regs).threads, t);
    }
  }

  lemma DispatchKeepsWellFormed(s: Sched)
    requires WellFormed(s) && HasRunning(s.threads)
    ensures WellFormed(Dispatch(s)) && IsRunning(Dispatch(s).threads, Dispatch(s).cur)
    ensures Dispatch(s).initialized == s.initialized && Dispatch(s).pageDirectory == s.pageDirectory
  {
    RingIsAll(s.procs, s.threads);
  }

  lemma ScheduledKeepsWellFormed(s: Sched)
    requires WellFormed(s) && Returns(s)
    ensures WellFormed(Scheduled(s))
    ensures IsRunning(Scheduled(s).threads, Scheduled(s).cur)
  {
    hide Dispatch, Listed, HasRunning;
    var c := s.threads[s.cur];
    if c.state == Running {
      var left := if c.remaining > 0 then c.remaining - 1 else 0;
      WithCurrentKeepsWellFormed(s, Running, left);
      if left == 0 {
        DispatchKeepsWellFormed(WithCurrent(s, Running, left));
      }
    } else if Dec32(c.remaining) == 0 {
      WithCurrentKeepsWellFormed(s, Running, TIME_PER_THREAD);
    } else {
      WithCurrentKeepsWellFormed(s, Sleeping, Dec32(c.remaining));
      SleeperKeepsRunners(s, Dec32(c.remaining));
      DispatchKeepsWellFormed(WithCurrent(s, Sleeping, Dec32(c.remaining)));
    }
  }

  /** SchedIrqHandler. The registers it loads are those of the thread that is then current. */
  ghost function Tick(s: Sched, regs: Regs): Sched
    requires WellFormed(s) && Returns(s)
  {
    SavedKeepsWellFormed(s, regs);
    ScheduledKeepsWellFormed(Saved(s, regs));
    Switched(Scheduled(Saved(s, regs)))
  }

  function Loaded(s: Sched): Regs
    requires s.cur < |s.threads|
  {
    s.threads[s.cur].regs
  }

  // ----- Steps -----

  datatype Step =
    | Interrupt(regs: Regs)
    | Sleep(t: Tid, millis: nat, regs: Regs)
    | NewProcess(pid: nat, kernelMode: bool, directory: nat, uid: nat)
    | NewThread(p: nat, regs: Regs)

  /** SchedSleep up to the software interrupt it ends with. */
  function Marked(s: Sched, t: Tid, millis: nat): Sched
    requires t < |s.threads|
  {
    s.(threads := s.threads[t := s.threads[t].(state := Sleeping, remaining := millis)])
  }

  function WithProcess(s: Sched, p: Proc): Sched {
    s.(procs := s.procs + [p])
  }

  function WithThread(s: Sched, p: nat, regs: Regs): Sched
    requires p < |s.procs|
  {
    s.(procs := s.procs[p := s.procs[p].(threads := s.procs[p].threads + [|s.threads|])],
       threads := s.threads + [Thread(p, Running, TIME_PER_THREAD, regs)])
  }

  /** What the callers must not do: sleep the last running thread (the dispatch loop would not end), or
      pass a thread or process that does not exist. */
  ghost predicate Enabled(s: Sched, step: Step)
    requires WellFormed(s)
  {
    match step
    case Interrupt(_) => Returns(s)
    case Sleep(t, millis, _) => t < |s.threads| && millis < WORD && Returns(Marked(s, t, millis))
    case NewProcess(_, _, _, _) => true
    case NewThread(p, _) => p < |s.procs|
  }

  lemma MarkedKeepsWellFormed(s: Sched, t: Tid, millis: nat)
    requires WellFormed(s) && t < |s.threads| && millis < WORD
    ensures WellFormed(Marked(s, t, millis))
  {
  }

  ghost function Apply(s: Sched, step: Step): Sched
    requires WellFormed(s) && Enabled(s, step)
  {
    match step
    case Interrupt(regs) => Tick(s, regs)
    case Sleep(t, millis, regs) => MarkedKeepsWellFormed(s, t, millis); Tick(Marked(s, t, millis), regs)
    case NewProcess(pid, kernelMode, directory, uid) => WithProcess(s, Proc(pid, uid, kernelMode, directory, []))
    case NewThread(p, regs) => WithThread(s, p, regs)
  }

  lemma ApplyKeepsWellFormed(s: Sched, step: Step)
    requires WellFormed(s) && Enabled(s, step)
    ensures WellFormed(Apply(s, step))
  {
    match step
    case Interrupt(regs) => TickKeepsWellFormed(s, regs);
    case Sleep(t, millis, regs) => TickKeepsWellFormed(Marked(s, t, millis), regs);
    case NewProcess(pid, kernelMode, directory, uid) =>
    case NewThread(p, regs) => WithThreadKeepsWellFormed(s, p, regs);
  }

  lemma TickKeepsWellFormed(s: Sched, regs: Regs)
    requires WellFormed(s) && Returns(s)
    ensures WellFormed(Tick(s, regs)) && IsRunning(Tick(s, regs).threads, Tick(s, regs).cur)
  {
    SavedKeepsWellFormed(s, regs);
    ScheduledKeepsWellFormed(Saved(s, regs));
  }

  lemma WithThreadKeepsListed(s: Sched, p: nat, regs: Regs)
    requires Listed(s.procs, s.threads) && p < |s.procs|
    ensures Listed(WithThread(s, p, regs).procs, WithThread(s, p, regs).threads)
  {
    var s', n := WithThread(s, p, regs), |s.threads|;
    assert s'.procs[p].threads[|s.procs[p].threads|] == n;
    forall t | 0 <= t < n ensures t in s'.procs[s'.threads[t].owner].threads {
      var q := s.threads[t].owner;
      var k :| 0 <= k < |s.procs[q].threads| && s.procs[q].threads[k] == t;
      assert s'.procs[q].threads[k] == t;
    }
  }

  lemma WithThreadKeepsWellFormed(s: Sched, p: nat, regs: Regs)
    requires WellFormed(s) && p < |s.procs|
    ensures WellFormed(WithThread(s, p, regs))
  {
    hide Listed;
    WithThreadKeepsListed(s, p, regs);
  }
}
