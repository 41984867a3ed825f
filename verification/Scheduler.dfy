/** The scheduler as written (kernel/src/Scheduler/Scheduler.c): process and thread records on intrusive lists, two
    cursors, and an interrupt handler that changes them in place. Each method is proved against SchedModel. */
module Scheduler {
  import opened Words
  import opened LinkedList
  import opened SchedModel
  import SchedRuns

  /** The registers an interrupt leaves on the stack. */
  class IdtFrame {
    var Gs: nat
    var Fs: nat
    var Es: nat
    var Ds: nat
    var Edi: nat
    var Esi: nat
    var Ebp: nat
    var Unused: nat
    var Ebx: nat
    var Edx: nat
    var Ecx: nat
    var Eax: nat
    var InterruptNumber: nat
    var ErrorCode: nat
    var Eip: nat
    var Cs: nat
    var Eflags: nat
    var UserEsp: nat
    var Ss: nat
  }

  class Process {
    const ProcessId: nat
    const UserId: nat
    const IsKernelMode: bool
    var PageDirectory: nat
    var Threads: LListElement?<SchedThread>

    constructor (pid: nat, uid: nat, kernelMode: bool, directory: nat)
      ensures ProcessId == pid && UserId == uid && IsKernelMode == kernelMode
      ensures PageDirectory == directory && Threads == null
    {
      ProcessId, UserId, IsKernelMode, PageDirectory, Threads := pid, uid, kernelMode, directory, null;
    }
  }

  class SchedThread {
    const ParentProcess: Process
    var State: TaskState
    var RemainingCpuTime: nat
    var CPUFrame: Regs

    constructor (owner: Process, frame: Regs)
      ensures ParentProcess == owner && State == Running && RemainingCpuTime == TIME_PER_THREAD && CPUFrame == frame
    {
      ParentProcess, State, RemainingCpuTime, CPUFrame := owner, Running, TIME_PER_THREAD, frame;
    }
  }

  /** The frame as register values: the stack pointer is the one the processor pushed. */
  function FrameRegs(f: IdtFrame): Regs
    reads f
  {
    Regs(f.Gs, f.Fs, f.Ss, f.Es, f.Ds, f.Cs, f.Edi, f.Esi, f.Ebp, f.UserEsp, f.Ebx, f.Edx, f.Ecx, f.Eax,
         f.Eip, f.Eflags)
  }

  /** Register by register, with the frame's UserEsp for the stack pointer. */
  ghost predicate SameRegisters(f: IdtFrame, r: Regs)
    reads f
  {
    && r.Eax == f.Eax && r.Ebx == f.Ebx && r.Ecx == f.Ecx && r.Edx == f.Edx
    && r.Esi == f.Esi && r.Edi == f.Edi && r.Ebp == f.Ebp && r.Esp == f.UserEsp
    && r.Eip == f.Eip && r.Eflags == f.Eflags
    && r.Cs == f.Cs && r.Ds == f.Ds && r.Es == f.Es && r.Fs == f.Fs && r.Gs == f.Gs && r.Ss == f.Ss
  }

  method SchedSaveFrame(source: IdtFrame, target: SchedThread)
    modifies target`CPUFrame
    ensures target.CPUFrame == FrameRegs(source)
    ensures SameRegisters(source, target.CPUFrame)
  {
    target.CPUFrame := target.CPUFrame.(Eax := source.Eax, Ebx := source.Ebx, Ecx := source.Ecx, Edx := source.Edx);
    target.CPUFrame := target.CPUFrame.(Esi := source.Esi, Edi := source.Edi, Esp := source.UserEsp, Ebp := source.Ebp);
    target.CPUFrame := target.CPUFrame.(Eip := source.Eip, Eflags := source.Eflags, Cs := source.Cs, Ds := source.Ds);
    target.CPUFrame := target.CPUFrame.(Es := source.Es, Fs := source.Fs, Gs := source.Gs, Ss := source.Ss);
  }

  method SchedLoadFrame(target: IdtFrame, source: SchedThread)
    modifies target
    ensures FrameRegs(target) == source.CPUFrame
    ensures SameRegisters(target, source.CPUFrame)
    ensures target.Unused == old(target.Unused)
    ensures target.InterruptNumber == old(target.InterruptNumber) && target.ErrorCode == old(target.ErrorCode)
  {
    var frame := source.CPUFrame;
    LoadGeneral(target, frame);
    target.Eip, target.Eflags, target.Cs, target.Ds := frame.Eip, frame.Eflags, frame.Cs, frame.Ds;
    target.Es, target.Fs, target.Gs, target.Ss := frame.Es, frame.Fs, frame.Gs, frame.Ss;
  }

  /** The first half of the assignments: the general registers. */
  method LoadGeneral(target: IdtFrame, frame: Regs)
    modifies target`Eax, target`Ebx, target`Ecx, target`Edx, target`Esi, target`Edi, target`UserEsp, target`Ebp
    ensures target.Eax == frame.Eax && target.Ebx == frame.Ebx && target.Ecx == frame.Ecx && target.Edx == frame.Edx
    ensures target.Esi == frame.Esi && target.Edi == frame.Edi
    ensures target.UserEsp == frame.Esp && target.Ebp == frame.Ebp
  {
    target.Eax, target.Ebx, target.Ecx, target.Edx := frame.Eax, frame.Ebx, frame.Ecx, frame.Edx;
    target.Esi, target.Edi, target.UserEsp, target.Ebp := frame.Esi, frame.Edi, frame.Esp, frame.Ebp;
  }

  // ----- The records against the model -----

  /** The process records are the model's processes, each once. */
  ghost predicate ProcsHeld(nodes: seq<LListElement<Process>>, procs: seq<Proc>)
    reads (set n | n in nodes :: n.Item)`PageDirectory
  {
    && |nodes| == |procs|
    && (forall i, j :: 0 <= i < j < |nodes| ==> nodes[i].Item != nodes[j].Item)
    && forall i :: 0 <= i < |nodes| ==>
         && nodes[i].Item.ProcessId == procs[i].pid && nodes[i].Item.UserId == procs[i].uid
         && nodes[i].Item.IsKernelMode == procs[i].kernelMode
         && (assert nodes[i] in nodes; nodes[i].Item.PageDirectory == procs[i].pageDirectory)
  }

  /** The thread list of a process holds the threads the model lists for it. */
  ghost predicate ListHeld(owner: Process, list: seq<LListElement<SchedThread>>, objs: seq<SchedThread>, tids: seq<Tid>)
    reads owner`Threads, list
  {
    && IsList(list) && |list| == |tids|
    && owner.Threads == (if list == [] then null else list[0])
    && forall k :: 0 <= k < |list| ==> tids[k] < |objs| && list[k].Item == objs[tids[k]]
  }

  ghost function ThreadNodes(lists: seq<seq<LListElement<SchedThread>>>): (all: set<LListElement<SchedThread>>)
    ensures forall p, k :: 0 <= p < |lists| && 0 <= k < |lists[p]| ==> lists[p][k] in all
    ensures forall n :: n in all ==> exists p, k :: 0 <= p < |lists| && 0 <= k < |lists[p]| && lists[p][k] == n
  {
    set p, k | 0 <= p < |lists| && 0 <= k < |lists[p]| :: lists[p][k]
  }

  /** Every process lists its threads. */
  ghost predicate ListsHeld(nodes: seq<LListElement<Process>>, lists: seq<seq<LListElement<SchedThread>>>,
                            objs: seq<SchedThread>, procs: seq<Proc>)
    reads set n | n in nodes :: n.Item
    reads ThreadNodes(lists)
  {
    && |lists| == |nodes| == |procs|
    && forall p :: 0 <= p < |lists| ==>
         assert nodes[p] in nodes;
         ListHeld(nodes[p].Item, lists[p], objs, procs[p].threads)
  }

  /** All the lists are linked as the model says. */
  ghost predicate Linked(head: LListElement?<Process>, nodes: seq<LListElement<Process>>,
                         lists: seq<seq<LListElement<SchedThread>>>, objs: seq<SchedThread>, procs: seq<Proc>)
    reads nodes, set n | n in nodes :: n.Item
    reads ThreadNodes(lists)
  {
    && IsList(nodes) && head == (if nodes == [] then null else nodes[0])
    && ProcsHeld(nodes, procs) && ListsHeld(nodes, lists, objs, procs)
  }

  lemma ProcAt(head: LListElement?<Process>, nodes: seq<LListElement<Process>>,
               lists: seq<seq<LListElement<SchedThread>>>, objs: seq<SchedThread>, procs: seq<Proc>, p: nat)
    requires Linked(head, nodes, lists, objs, procs) && p < |nodes|
    ensures |nodes| == |procs| == |lists| && |lists[p]| == |procs[p].threads|
    ensures head == nodes[0]
    ensures nodes[p].Next == if p + 1 < |nodes| then nodes[p + 1] else null
    ensures nodes[p].Item.Threads == if lists[p] == [] then null else lists[p][0]
    ensures nodes[p].Item.PageDirectory == procs[p].pageDirectory
    ensures nodes[p].Item.IsKernelMode == procs[p].kernelMode
  {
    assert ListHeld(nodes[p].Item, lists[p], objs, procs[p].threads);
  }

  lemma ThreadAt(head: LListElement?<Process>, nodes: seq<LListElement<Process>>,
                 lists: seq<seq<LListElement<SchedThread>>>, objs: seq<SchedThread>, procs: seq<Proc>, p: nat, k: nat)
    requires Linked(head, nodes, lists, objs, procs) && p < |nodes|
    requires p < |lists| && k < |lists[p]|
    ensures |nodes| == |procs| && k < |procs[p].threads| && procs[p].threads[k] < |objs|
    ensures lists[p][k].Next == if k + 1 < |lists[p]| then lists[p][k + 1] else null
    ensures lists[p][k].Item == objs[procs[p].threads[k]]
  {
    assert ListHeld(nodes[p].Item, lists[p], objs, procs[p].threads);
  }

  /** The thread records hold the model's threads. */
  ghost predicate Held(objs: seq<SchedThread>, threads: seq<Thread>)
    reads objs
  {
    && |objs| == |threads|
    && (forall i, j :: 0 <= i < j < |objs| ==> objs[i] != objs[j])
    && forall t :: 0 <= t < |objs| ==>
         && objs[t].State == threads[t].state && objs[t].RemainingCpuTime == threads[t].remaining
         && objs[t].CPUFrame == threads[t].regs
  }

  lemma RecordIs(objs: seq<SchedThread>, threads: seq<Thread>, t: nat)
    requires Held(objs, threads) && t < |threads|
    ensures t < |objs| && objs[t].State == threads[t].state && objs[t].RemainingCpuTime == threads[t].remaining
    ensures objs[t].CPUFrame == threads[t].regs
  {
  }

  method SetRemaining(thread: SchedThread, remaining: nat,
                      ghost objs: seq<SchedThread>, ghost threads: seq<Thread>, ghost t: nat)
    requires Held(objs, threads) && t < |objs| && thread == objs[t]
    modifies thread`RemainingCpuTime
    ensures t < |threads| && Held(objs, threads[t := threads[t].(remaining := remaining)])
  {
    thread.RemainingCpuTime := remaining;
  }

  /** One thread met by the dispatch loop: a sleeper's counter drops by one. */
  method TickIfAsleep(thread: SchedThread, ghost objs: seq<SchedThread>, ghost threads: seq<Thread>, ghost t: nat)
    returns (asleep: bool)
    requires Held(objs, threads) && t < |objs| && thread == objs[t]
    requires t < |threads| && threads[t].remaining < WORD
    modifies thread`RemainingCpuTime
    ensures asleep == (threads[t].state == Sleeping)
    ensures Held(objs, if asleep then threads[t := threads[t].(remaining := Dec32(threads[t].remaining))] else threads)
  {
    asleep := thread.State == Sleeping;
    if asleep {
      thread.RemainingCpuTime := Dec32(thread.RemainingCpuTime);
    }
  }

  // ----- The next place of the ring -----

  lemma NextInProcess(procs: seq<Proc>, p: nat, k: nat)
    requires p < |procs| && k + 1 < |procs[p].threads|
    ensures Offset(procs, p) + k + 1 < |Ring(procs)|
    ensures Offset(procs, p) + k + 1 == (Offset(procs, p) + k + 1) % |Ring(procs)|
  {
    RingAt(procs, p, k + 1);
    ModWithinRound(|Ring(procs)|, Offset(procs, p) + k + 1);
  }

  /** The processes strictly between home and q, going round the end when wrapped, have no threads. */
  ghost predicate Skipped(procs: seq<Proc>, home: nat, q: nat, wrapped: bool) {
    if wrapped
    then forall x :: 0 <= x < |procs| && (x > home || x < q) ==> procs[x].threads == []
    else forall x :: home < x < q && x < |procs| ==> procs[x].threads == []
  }

  /** After the last thread of a process comes the first thread of the next process that has one. */
  lemma NextProcess(procs: seq<Proc>, home: nat, q: nat, wrapped: bool)
    requires home < |procs| && q < |procs| && procs[home].threads != [] && procs[q].threads != []
    requires if wrapped then q <= home else q > home
    requires Skipped(procs, home, q, wrapped)
    ensures Offset(procs, home) + |procs[home].threads| <= |Ring(procs)|
    ensures Offset(procs, q) == (Offset(procs, home) + |procs[home].threads|) % |Ring(procs)|
  {
    hide Ring, Offset;
    var n := |procs|;
    OffsetAtEnds(procs);
    RingGrows(procs, home, n);
    RingGrows(procs, home + 1, n);
    RingAt(procs, q, 0);
    ModWithinRound(|Ring(procs)|, Offset(procs, home) + |procs[home].threads|);
    if wrapped {
      RingGrows(procs, 0, q);
    } else {
      RingGrows(procs, home + 1, q);
    }
  }

  class Scheduler {
    var SchedProcessList: LListElement?<Process>
    var CurrIteratedProc: LListElement?<Process>
    var CurrIteratedThread: LListElement?<SchedThread>
    var CurrentPageDirectory: nat
    var initialized: bool
    var currentPid: nat

    ghost var procNodes: seq<LListElement<Process>>
    ghost var lists: seq<seq<LListElement<SchedThread>>>
    ghost var objs: seq<SchedThread>
    ghost var model: Sched
    ghost var at: nat
    ghost var pos: nat

    /** The static variables before any call. */
    constructor (directory: nat)
      ensures Filed() && model == Sched([], [], 0, false, directory)
      ensures !initialized && currentPid == 0 && CurrentPageDirectory == directory
      ensures procNodes == [] && lists == [] && objs == []
    {
      SchedProcessList, CurrIteratedProc, CurrIteratedThread := null, null, null;
      CurrentPageDirectory, initialized, currentPid := directory, false, 0;
      procNodes, lists, objs, at, pos := [], [], [], 0, 0;
      model := Sched([], [], 0, false, directory);
    }

    /** The kernel process with its idle thread and its test thread; the idle thread is the first to run. */
    method SchedInit(idle: nat, idleStack: nat, test: nat, testStack: nat)
      requires Filed() && model == Sched([], [], 0, false, CurrentPageDirectory)
      requires procNodes == [] && lists == [] && objs == [] && !initialized
      modifies `SchedProcessList, `currentPid, `procNodes, `lists, `objs, `model
      modifies `CurrIteratedThread, `CurrIteratedProc, `at, `pos
      ensures Ready() && |model.procs| == 1
      ensures model.procs[0] == Proc(old(currentPid), 0, true, 0, [0, 1])
      ensures model.threads == [Thread(0, Running, TIME_PER_THREAD, NewFrame(true, idle, idleStack)),
                                Thread(0, Running, TIME_PER_THREAD, NewFrame(true, test, testStack))]
      ensures StartsAt(model.threads[0].regs, true, idle, idleStack)
      ensures StartsAt(model.threads[1].regs, true, test, testStack)
      ensures model.cur == 0 && !model.initialized && SchedRuns.Boundary(model)
    {
      hide Filed, Ready, Apply, WellFormed, StartsAt, WithProcess;
      ghost var e, f, g;
      var process, thread;
      process, e := SchedCreateProcess(true, false, 0, 0);
      FirstProcess();
      thread, f := SchedCreateThread(SchedProcessList.Item, idle, idleStack, 0);
      FirstProcess();
      thread, g := SchedCreateThread(SchedProcessList.Item, test, testStack, 0);
      StartWithFirst();
      ReadyIsWellFormed();
    }

    /** The cursors start at the first thread of the first process. */
    method StartWithFirst()
      requires Filed() && procNodes != [] && lists != [] && lists[0] != []
      requires model.procs != [] && model.procs[0].threads != [] && model.procs[0].threads[0] == model.cur
      requires initialized == model.initialized && CurrentPageDirectory == model.pageDirectory
      modifies `CurrIteratedThread, `CurrIteratedProc, `at, `pos
      ensures Ready()
    {
      hide Linked, Held, Listed;
      FirstProcess();
      CurrIteratedProc := SchedProcessList;
      CurrIteratedThread := CurrIteratedProc.Item.Threads;
      at, pos := 0, 0;
      Apart(lists, objs);
      FiledIsReady();
    }

    lemma FirstProcess()
      requires Filed() && procNodes != []
      ensures SchedProcessList == procNodes[0] && |lists| == |procNodes| == |model.procs|
      ensures procNodes[0].Item.Threads == if lists[0] == [] then null else lists[0][0]
    {
      ProcAt(SchedProcessList, procNodes, lists, objs, model.procs, 0);
    }

    // Records of different classes are different. The lemmas below say so where a frame depends on it.

    /** No record is the scheduler itself. */
    lemma Apart(ls: seq<seq<LListElement<SchedThread>>>, os: seq<SchedThread>)
      ensures forall n: LListElement<Process> :: n in procNodes ==> (n as object) != this && (n.Item as object) != this
      ensures forall n: LListElement<SchedThread> :: n in ThreadNodes(ls) ==> (n as object) != this
      ensures forall i :: 0 <= i < |os| ==> (os[i] as object) != this
    {
    }

    /** A thread record is no process and no list node. */
    lemma RecordApart(thread: SchedThread)
      ensures forall n: LListElement<Process> :: n in procNodes ==>
        (n as object) != thread && (n.Item as object) != thread
      ensures forall n: LListElement<SchedThread> :: n in ThreadNodes(lists) ==> (n as object) != thread
      ensures (thread as object) != this
    {
    }

    lemma ElementApart(e: LListElement<Process>)
      ensures forall n: LListElement<Process> :: n in procNodes ==> (n.Item as object) != e
      ensures forall n: LListElement<SchedThread> :: n in ThreadNodes(lists) ==> (n as object) != e
      ensures forall o: SchedThread :: o in objs ==> (o as object) != e
      ensures (e as object) != this && (e.Item as object) != e && (e.Item as object) != this
      ensures forall n: LListElement<Process> :: n in procNodes ==> (n as object) != e.Item
    {
    }

    lemma FrameApart(frame: IdtFrame)
      ensures forall n: LListElement<Process> :: n in procNodes ==>
        (n as object) != frame && (n.Item as object) != frame
      ensures forall n: LListElement<SchedThread> :: n in ThreadNodes(lists) ==> (n as object) != frame
      ensures forall o: SchedThread :: o in objs ==> (o as object) != frame
      ensures (frame as object) != this
    {
    }

    /** The nodes of the process list are neither processes nor nodes of thread lists. */
    lemma ProcNodesApart()
      ensures forall n: LListElement<Process>, l: LListElement<Process> :: n in procNodes && l in procNodes ==>
        (n as object) != l.Item
      ensures forall n: LListElement<Process>, l: LListElement<SchedThread> ::
        n in procNodes && l in ThreadNodes(lists) ==> (n as object) != l
      ensures forall n: LListElement<Process> :: n in procNodes ==> (n as object) != this
      ensures forall n: LListElement<SchedThread> :: n in ThreadNodes(lists) ==> (n as object) != this
      ensures forall n: LListElement<Process> :: n in procNodes ==> (n.Item as object) != this
      ensures forall o: SchedThread, n: LListElement<Process> :: o in objs && n in procNodes ==> (o as object) != n
      ensures forall o: SchedThread :: o in objs ==> (o as object) != this
    {
    }

    /** The cursors are at position i of the ring. */
    ghost predicate Here(i: nat)
      reads this
    {
      && at < |procNodes| && at < |lists| && pos < |lists[at]| && at <= |model.procs|
      && CurrIteratedProc == procNodes[at] && CurrIteratedThread == lists[at][pos]
      && i == Offset(model.procs, at) + pos
    }

    /** On to the next thread of the process, or the first of the next process that has one. */
    method PickNextThread(ghost i: nat)
      requires Linked(SchedProcessList, procNodes, lists, objs, model.procs) && Here(i)
      modifies `CurrIteratedThread, `CurrIteratedProc, `at, `pos
      ensures i < |Ring(model.procs)| && Here((i + 1) % |Ring(model.procs)|)
    {
      hide Linked, Ring, Offset;
      Apart(lists, objs);
      ThreadAt(SchedProcessList, procNodes, lists, objs, model.procs, at, pos);
      RingAt(model.procs, at, pos);
      CurrIteratedThread := CurrIteratedThread.Next;
      if CurrIteratedThread == null {
        PickNextProcess();
      } else {
        ProcAt(SchedProcessList, procNodes, lists, objs, model.procs, at);
        pos := pos + 1;
        NextInProcess(model.procs, at, pos - 1);
      }
    }

    /** The inner loop: on to the next process, the first of the list after the last, until one has a thread. */
    method PickNextProcess()
      requires Linked(SchedProcessList, procNodes, lists, objs, model.procs)
      requires at < |procNodes| && CurrIteratedProc == procNodes[at]
      requires at < |lists| && lists[at] != []
      modifies `CurrIteratedThread, `CurrIteratedProc, `at, `pos
      ensures old(at) < |model.procs|
      ensures 0 < Offset(model.procs, old(at)) + |lists[old(at)]| <= |Ring(model.procs)|
      ensures Here((Offset(model.procs, old(at)) + |lists[old(at)]|) % |Ring(model.procs)|)
    {
      hide Linked, Ring, Offset;
      Apart(lists, objs);
      ghost var procs := model.procs;
      ghost var home, wrapped := at, false;
      CurrIteratedThread := null;
      ProcAt(SchedProcessList, procNodes, lists, objs, procs, at);
      while CurrIteratedThread == null
        invariant at < |procs| && CurrIteratedProc == procNodes[at]
        invariant if wrapped then at <= home else at >= home
        invariant CurrIteratedThread == if at == home && !wrapped then null else procNodes[at].Item.Threads
        invariant Skipped(procs, home, at, wrapped)
        decreases !wrapped, |procs| - at
      {
        ProcAt(SchedProcessList, procNodes, lists, objs, procs, at);
        CurrIteratedProc := CurrIteratedProc.Next;
        at := at + 1;
        if CurrIteratedProc == null {
          CurrIteratedProc := SchedProcessList;
          at, wrapped := 0, true;
        }
        CurrIteratedThread := CurrIteratedProc.Item.Threads;
      }
      ProcAt(SchedProcessList, procNodes, lists, objs, procs, at);
      pos := 0;
      NextProcess(procs, home, at, wrapped);
    }

    /** The cursors are at the model's current thread. */
    ghost predicate AtCurrent()
      reads this
    {
      && at < |procNodes| && at < |lists| && pos < |lists[at]|
      && CurrIteratedProc == procNodes[at] && CurrIteratedThread == lists[at][pos]
      && at < |model.procs| && pos < |model.procs[at].threads| && model.procs[at].threads[pos] == model.cur
    }

    lemma CurrentIsHere()
      requires WellFormed(model) && AtCurrent()
      ensures model.cur in Ring(model.procs) && Here(Pos(Ring(model.procs), model.cur))
    {
      RingIsAll(model.procs, model.threads);
      RingAt(model.procs, at, pos);
    }

    lemma HereIs(i: nat)
      requires Linked(SchedProcessList, procNodes, lists, objs, model.procs) && Here(i)
      ensures i < |Ring(model.procs)| && Ring(model.procs)[i] < |objs|
      ensures CurrIteratedThread.Item == objs[Ring(model.procs)[i]]
      ensures at < |model.procs| && pos < |model.procs[at].threads|
      ensures model.procs[at].threads[pos] == Ring(model.procs)[i]
    {
      ThreadAt(SchedProcessList, procNodes, lists, objs, model.procs, at, pos);
      RingAt(model.procs, at, pos);
    }

    /** One turn of the dispatch loop: the next thread, whose counter drops by one if it sleeps. */
    method MeetNext(ghost i: nat, ghost threads: seq<Thread>) returns (asleep: bool)
      requires Linked(SchedProcessList, procNodes, lists, objs, model.procs) && Here(i)
      requires Held(objs, threads) && forall t :: 0 <= t < |threads| ==> threads[t].remaining < WORD
      modifies `CurrIteratedThread, `CurrIteratedProc, `at, `pos, objs
      ensures Linked(SchedProcessList, procNodes, lists, objs, model.procs)
      ensures var r := Ring(model.procs); i < |r| && Here((i + 1) % |r|) && r[(i + 1) % |r|] < |threads|
      ensures var r := Ring(model.procs); var t := r[(i + 1) % |r|];
              && asleep == (threads[t].state == Sleeping)
              && Held(objs, if asleep then threads[t := threads[t].(remaining := Dec32(threads[t].remaining))]
                            else threads)
    {
      hide Linked, Held, Ring;
      Apart(lists, objs);
      HeldLength(objs, threads);
      PickNextThread(i);
      ghost var j := (i + 1) % |Ring(model.procs)|;
      HereIs(j);
      RecordApart(CurrIteratedThread.Item);
      asleep := TickIfAsleep(CurrIteratedThread.Item, objs, threads, Ring(model.procs)[j]);
    }

    /** The dispatch loop (pickNextTask): every sleeper met ticks down, the first running thread gets the processor. */
    method PickNextTask()
      requires Linked(SchedProcessList, procNodes, lists, objs, model.procs) && Held(objs, model.threads)
      requires WellFormed(model) && HasRunning(model.threads) && AtCurrent()
      modifies `CurrIteratedThread, `CurrIteratedProc, `at, `pos, `model, objs
      ensures model == Dispatch(old(model))
      ensures Linked(SchedProcessList, procNodes, lists, objs, model.procs) && Held(objs, model.threads)
      ensures AtCurrent()
    {
      hide Linked, Listed, Held, Passed, PassOver, Ring, NoRepeat, HasRunning, Dispatch;
      Apart(lists, objs);
      ghost var s := model;
      ghost var r, f, k := DispatchIs(s);
      ghost var m := 0;
      CurrentIsHere();
      PassNone(r, s.threads, f);
      ModWithinRound(|r|, f);
      var asleep := true;
      while asleep
        invariant model == s && Linked(SchedProcessList, procNodes, lists, objs, s.procs)
        invariant if asleep then m < k else m == k
        invariant Here((f + m) % |r|)
        invariant Held(objs, PassOver(r, s.threads, f, if asleep then m + 1 else m))
        decreases k - m, asleep
      {
        NextInRound(f + m, |r|);
        PassOne(r, s.threads, f, m + 1);
        PassedBounded(r, s.threads, f, m + 1);
        asleep := MeetNext((f + m) % |r|, PassOver(r, s.threads, f, m + 1));
        m := m + 1;
      }
      HereIs((f + m) % |r|);
      RecordApart(CurrIteratedThread.Item);
      SetRemaining(CurrIteratedThread.Item, TIME_PER_THREAD, objs, PassOver(r, s.threads, f, k), Ahead(r, f, k));
      model := Dispatch(s);
    }

    /** Everything the kernel keeps about scheduling agrees with the model. */
    ghost predicate Ready()
      reads this, procNodes, set n | n in procNodes :: n.Item
      reads ThreadNodes(lists), objs
    {
      && Linked(SchedProcessList, procNodes, lists, objs, model.procs) && Held(objs, model.threads)
      && WellFormed(model) && AtCurrent()
      && initialized == model.initialized && CurrentPageDirectory == model.pageDirectory
    }

    /** The registers of the interrupted thread are saved, except on the first tick. */
    method SaveContext(frame: IdtFrame)
      requires Ready()
      modifies `initialized, `model, objs
      ensures model == Saved(old(model), old(FrameRegs(frame)))
      ensures Ready() && FrameRegs(frame) == old(FrameRegs(frame))
    {
      hide Linked, Listed, Ring;
      Apart(lists, objs);
      CurrentIsHere();
      HereIs(Pos(Ring(model.procs), model.cur));
      RecordApart(CurrIteratedThread.Item);
      SavedKeepsWellFormed(model, FrameRegs(frame));
      model := Saved(model, FrameRegs(frame));
      if initialized {
        SchedSaveFrame(frame, CurrIteratedThread.Item);
      } else {
        initialized := true;
      }
    }

    /** The state and the counter of the current thread. */
    method SetCurrent(state: TaskState, remaining: nat)
      requires Ready() && remaining < WORD
      modifies `model, objs
      ensures Ready() && model == WithCurrent(old(model), state, remaining)
      ensures CurrIteratedThread.Item in objs
      ensures CurrIteratedThread.Item.RemainingCpuTime == remaining
    {
      hide Linked, Listed, Ring;
      Apart(lists, objs);
      CurrentIsHere();
      HereIs(Pos(Ring(model.procs), model.cur));
      RecordApart(CurrIteratedThread.Item);
      WithCurrentKeepsWellFormed(model, state, remaining);
      model := WithCurrent(model, state, remaining);
      CurrIteratedThread.Item.State := state;
      CurrIteratedThread.Item.RemainingCpuTime := remaining;
    }

    /** The body of the handler: the current thread's counter, and if its turn is over the dispatch loop. */
    method ChooseNext()
      requires Ready() && Returns(model)
      modifies `CurrIteratedThread, `CurrIteratedProc, `at, `pos, `model, objs
      ensures Ready() && model == Scheduled(old(model))
    {
      hide Linked, Listed, Ring, Held, HasRunning, Dispatch;
      ghost var s := model;
      CurrentIsHere();
      HereIs(Pos(Ring(model.procs), model.cur));
      RecordIs(objs, model.threads, model.cur);
      var thread := CurrIteratedThread.Item;
      if thread.State == Running {
        if thread.RemainingCpuTime > 0 {
          SetCurrent(Running, thread.RemainingCpuTime - 1);
        }
        WithCurrentKeepsWellFormed(s, Running, thread.RemainingCpuTime);
        assert model == WithCurrent(s, Running, thread.RemainingCpuTime);
        if thread.RemainingCpuTime == 0 {
          DispatchKeepsWellFormed(model);
          PickNextTask();
        }
      } else {
        var left := Dec32(thread.RemainingCpuTime);
        if left == 0 {
          SetCurrent(Running, TIME_PER_THREAD);
        } else {
          SetCurrent(Sleeping, left);
          SleeperKeepsRunners(s, left);
          DispatchKeepsWellFormed(model);
          PickNextTask();
        }
      }
    }

    /** The timer interrupt. The frame it returns holds the registers of the thread it resumes. */
    method SchedIrqHandler(frame: IdtFrame) returns (r: IdtFrame)
      requires Ready() && Returns(model)
      modifies `CurrIteratedThread, `CurrIteratedProc, `CurrentPageDirectory, `initialized, `at, `pos, `model
      modifies objs, frame
      ensures Ready() && model == Tick(old(model), old(FrameRegs(frame)))
      ensures r == frame && FrameRegs(frame) == Loaded(model)
    {
      hide Linked, Listed, Ring, Held, HasRunning, Scheduled, Saved, Switched, Ready, Returns, WellFormed;
      ReadyIsWellFormed();
      SavedKeepsWellFormed(model, FrameRegs(frame));
      SaveContext(frame);
      ScheduledKeepsWellFormed(model);
      ChooseNext();
      Resume(frame);
      r := frame;
    }

    lemma ReadyIsWellFormed()
      requires Ready()
      ensures WellFormed(model)
    {
    }

    /** The current process's directory is made current, and the current thread's registers are loaded. */
    method Resume(frame: IdtFrame)
      requires Ready()
      modifies `CurrentPageDirectory, `model, frame
      ensures Ready() && model == Switched(old(model)) && FrameRegs(frame) == Loaded(model)
    {
      hide Linked, Listed, Ring, Held;
      Apart(lists, objs);
      FrameApart(frame);
      CurrentIsHere();
      HereIs(Pos(Ring(model.procs), model.cur));
      CurrentProcess();
      RecordIs(objs, model.threads, model.cur);
      if CurrentPageDirectory != CurrIteratedProc.Item.PageDirectory && CurrIteratedProc.Item.PageDirectory != 0 {
        CurrentPageDirectory := CurrIteratedProc.Item.PageDirectory;
      }
      model := Switched(model);
      SchedLoadFrame(frame, CurrIteratedThread.Item);
    }

    lemma CurrentProcess()
      requires Ready()
      ensures model.threads[model.cur].owner == at < |model.procs|
      ensures CurrIteratedProc.Item.PageDirectory == model.procs[at].pageDirectory
    {
      ProcAt(SchedProcessList, procNodes, lists, objs, model.procs, at);
    }

    /** A thread is put to sleep and the processor given up at once, by the software interrupt of SchedTick. */
    method SchedSleep(thread: SchedThread, millis: nat, frame: IdtFrame, ghost t: Tid)
      requires Ready() && t < |objs| && thread == objs[t]
      requires Enabled(model, Sleep(t, millis, FrameRegs(frame)))
      modifies `CurrIteratedThread, `CurrIteratedProc, `CurrentPageDirectory, `initialized, `at, `pos, `model
      modifies objs, frame
      ensures Ready() && model == Apply(old(model), Sleep(t, millis, old(FrameRegs(frame))))
      ensures FrameRegs(frame) == Loaded(model)
    {
      hide Linked, Listed, Ring, HasRunning;
      Apart(lists, objs);
      RecordApart(thread);
      MarkedKeepsWellFormed(model, t, millis);
      model := Marked(model, t, millis);
      thread.State := Sleeping;
      thread.RemainingCpuTime := millis;
      var r := SchedIrqHandler(frame);
    }

    /** What the creating calls need and keep, with or without a current thread. */
    ghost predicate Filed()
      reads this, procNodes, set n | n in procNodes :: n.Item
      reads ThreadNodes(lists), objs
    {
      && Linked(SchedProcessList, procNodes, lists, objs, model.procs) && Held(objs, model.threads)
      && Listed(model.procs, model.threads)
      && forall t :: 0 <= t < |model.threads| ==> model.threads[t].remaining < WORD
    }

    /** A creating call between two interrupts leaves everything ready for the next. */
    lemma FiledIsReady()
      requires Filed() && AtCurrent()
      requires initialized == model.initialized && CurrentPageDirectory == model.pageDirectory
      ensures Ready()
    {
    }

    /** newDirectory is the address MmAllocPageDirectory returns when it is asked. */
    method SchedCreateProcess(kernelMode: bool, allocPageDir: bool, uid: nat, newDirectory: nat)
      returns (process: Process, ghost element: LListElement<Process>)
      requires Filed()
      modifies `SchedProcessList, `currentPid, `procNodes, `lists, `model, procNodes
      ensures Filed() && element.Item == process && fresh(process) && fresh(element)
      ensures procNodes == old(procNodes) + [element] && lists == old(lists) + [[]]
      ensures model == WithProcess(old(model), Proc(old(currentPid), uid, kernelMode,
                                                    if allocPageDir then newDirectory else 0, []))
      ensures currentPid == Wrap32(old(currentPid) + 1)
      ensures old(WellFormed(model)) ==>
        model == old(Apply(model, NewProcess(currentPid, kernelMode, if allocPageDir then newDirectory else 0, uid)))
      ensures process.ProcessId == old(currentPid) && process.UserId == uid && process.IsKernelMode == kernelMode
      ensures process.PageDirectory == (if allocPageDir then newDirectory else 0) && process.Threads == null
      ensures |model.procs| == |old(model.procs)| + 1 && model.procs[..|old(model.procs)|] == old(model.procs)
      ensures model.procs[|old(model.procs)|] ==
        Proc(old(currentPid), uid, kernelMode, if allocPageDir then newDirectory else 0, [])
      ensures (model.threads, model.cur, model.initialized, model.pageDirectory)
              == old((model.threads, model.cur, model.initialized, model.pageDirectory))
      ensures old(AtCurrent()) ==> AtCurrent()
    {
      hide Linked, Held, Listed;
      ProcNodesApart();
      process := new Process(currentPid, uid, kernelMode, if allocPageDir then newDirectory else 0);
      var e := new LListElement(process);
      currentPid := Wrap32(currentPid + 1);
      AddProcess(e, Proc(process.ProcessId, uid, kernelMode, process.PageDirectory, []));
      element := e;
    }

    /** A process record that is not listed yet goes to the back of the process list. */
    method AddProcess(element: LListElement<Process>, ghost p: Proc)
      requires Filed()
      requires element !in procNodes && forall n :: n in procNodes ==> n.Item != element.Item
      requires element.Next == null && element.Prev == null && RecordIsProc(element.Item, p)
      modifies `SchedProcessList, `procNodes, `lists, `model, procNodes, element
      ensures Filed() && procNodes == old(procNodes) + [element] && lists == old(lists) + [[]]
      ensures model == WithProcess(old(model), p)
    {
      hide Held, IsList, ProcsHeld, ListsHeld, Listed;
      ProcNodesApart();
      ElementApart(element);
      ghost var nodes, before, m := procNodes, lists, model;
      procNodes, lists, model := nodes + [element], before + [[]], WithProcess(m, p);
      AppendProcess(element, nodes);
      ProcsGrow(nodes, before, objs, m, element, p);
    }

    method AppendProcess(element: LListElement<Process>, ghost nodes: seq<LListElement<Process>>)
      requires IsList(nodes) && SchedProcessList == (if nodes == [] then null else nodes[0])
      requires element !in nodes && element.Next == null && element.Prev == null
      modifies `SchedProcessList, nodes, element
      ensures IsList(nodes + [element]) && SchedProcessList == (nodes + [element])[0]
    {
      if SchedProcessList == null {
        SchedProcessList := element;
      } else {
        LListPushBack(SchedProcessList, element, nodes);
      }
    }

    method SchedCreateThread(owner: Process, eip: nat, stack: nat, ghost p: nat)
      returns (thread: SchedThread, ghost element: LListElement<SchedThread>)
      requires Filed() && p < |procNodes| && p < |lists| && p < |model.procs| && owner == procNodes[p].Item
      modifies `lists, `objs, `model, owner`Threads, lists[p]
      ensures Filed() && objs == old(objs) + [thread] && fresh(thread) && fresh(element)
      ensures lists == old(lists)[p := old(lists[p]) + [element]]
      ensures model == WithThread(old(model), p, NewFrame(old(model.procs[p].kernelMode), eip, stack))
      ensures old(WellFormed(model)) ==>
        model == Apply(old(model), NewThread(p, thread.CPUFrame))
      ensures thread.ParentProcess == owner && thread.State == Running && thread.RemainingCpuTime == 2
      ensures StartsAt(thread.CPUFrame, owner.IsKernelMode, eip, stack)
      ensures model.threads == old(model.threads) + [Thread(p, Running, 2, thread.CPUFrame)]
      ensures model.procs == old(model.procs)[p :=
        old(model.procs[p]).(threads := old(model.procs[p].threads) + [|old(model.threads)|])]
      ensures (model.cur, model.initialized, model.pageDirectory)
              == old((model.cur, model.initialized, model.pageDirectory))
      ensures old(AtCurrent()) ==> AtCurrent()
    {
      hide Linked, Held, Listed;
      Apart(lists, objs);
      thread := new SchedThread(owner, NewFrame(owner.IsKernelMode, eip, stack));
      var e := new LListElement(thread);
      ProcAt(SchedProcessList, procNodes, lists, objs, model.procs, p);
      AddThread(owner, e, p);
      element := e;
    }

    /** A running thread record that is not listed yet goes to the back of its process's list. */
    method AddThread(owner: Process, element: LListElement<SchedThread>, ghost p: nat)
      requires Filed() && p < |procNodes| && p < |lists| && p < |model.procs| && owner == procNodes[p].Item
      requires element !in ThreadNodes(lists) && element.Item !in objs
      requires element.Next == null && element.Prev == null && IsFresh(element.Item)
      modifies `lists, `objs, `model, owner`Threads, lists[p], element
      ensures Filed() && objs == old(objs) + [element.Item]
      ensures lists == old(lists)[p := old(lists[p]) + [element]]
      ensures model == WithThread(old(model), p, element.Item.CPUFrame)
    {
      hide Held, Linked, Listed, ListsHeld, IsList, ProcsHeld, ThreadNodes, ListHeld;
      ghost var newLists, newObjs := lists[p := lists[p] + [element]], objs + [element.Item];
      ThreadNodesApart(owner, element);
      LinkThread(owner, element, p);
      ghost var newModel := FiledGrows(SchedProcessList, procNodes, lists, objs, model, p, element);
      Apart(newLists, newObjs);
      lists, objs, model := newLists, newObjs, newModel;
    }

    method LinkThread(owner: Process, element: LListElement<SchedThread>, ghost p: nat)
      requires Filed() && p < |procNodes| && p < |lists| && owner == procNodes[p].Item
      requires element !in ThreadNodes(lists)
      requires element.Next == null && element.Prev == null
      modifies owner`Threads, lists[p], element
      ensures Held(objs, model.threads) && |objs| == |model.threads|
      ensures IsList(procNodes) && SchedProcessList == (if procNodes == [] then null else procNodes[0])
      ensures ProcsHeld(procNodes, model.procs) && |lists| == |procNodes| == |model.procs|
      ensures forall q :: 0 <= q < |lists| && q != p ==>
        ListHeld(procNodes[q].Item, lists[q], objs, model.procs[q].threads)
      ensures IsList(lists[p] + [element]) && owner.Threads == (lists[p] + [element])[0]
      ensures |lists[p]| == |model.procs[p].threads|
      ensures forall k :: 0 <= k < |lists[p]| ==>
        model.procs[p].threads[k] < |objs| && lists[p][k].Item == objs[model.procs[p].threads[k]]
    {
      hide Held, IsList, Listed, ThreadNodes, ProcsHeld, ListHeld;
      HeldLength(objs, model.threads);
      ghost var list := lists[p];
      ListApart(list, owner, element);
      ListIs(owner, list, objs, model.procs[p].threads);
      forall q | 0 <= q < |lists| && q != p
        ensures ListHeld(procNodes[q].Item, lists[q], objs, model.procs[q].threads)
        ensures procNodes[q] in procNodes && procNodes[q].Item != owner
        ensures forall k, l :: 0 <= k < |lists[q]| && 0 <= l < |list| ==> lists[q][k] != list[l]
        ensures forall k :: 0 <= k < |lists[q]| ==> lists[q][k] != element && (lists[q][k] as object) != owner
      {
        OthersApart(p, element, q);
      }
      AppendThread(owner, element, list);
      forall q | 0 <= q < |lists| && q != p
        ensures ListHeld(procNodes[q].Item, lists[q], objs, model.procs[q].threads)
      {
        assert procNodes[q] in procNodes;
      }
    }

    method AppendThread(owner: Process, element: LListElement<SchedThread>, ghost nodes: seq<LListElement<SchedThread>>)
      requires IsList(nodes) && owner.Threads == (if nodes == [] then null else nodes[0])
      requires element !in nodes && element.Next == null && element.Prev == null
      modifies owner`Threads, nodes, element
      ensures IsList(nodes + [element]) && owner.Threads == (nodes + [element])[0]
    {
      if owner.Threads == null {
        owner.Threads := element;
      } else {
        LListPushBack(owner.Threads, element, nodes);
      }
    }

    /** What appending to one thread list leaves alone. */
    lemma ListApart(list: seq<LListElement<SchedThread>>, owner: Process, e: LListElement<SchedThread>)
      ensures forall n: LListElement<Process>, l: LListElement<SchedThread> :: n in procNodes && l in list ==>
        (n as object) != l && (n.Item as object) != l
      ensures forall n: LListElement<Process> :: n in procNodes ==> (n as object) != e && (n.Item as object) != e
      ensures forall n: LListElement<Process> :: n in procNodes ==> (n as object) != owner
      ensures forall o: SchedThread :: o in objs ==> (o as object) != e && (o as object) != owner
      ensures forall o: SchedThread, n: LListElement<SchedThread> :: o in objs && n in list ==> (o as object) != n
    {
    }

    /** Another process's list shares no record with the list of process p. */
    lemma OthersApart(p: nat, e: LListElement<SchedThread>, q: nat)
      requires Filed() && p < |procNodes| && q < |procNodes| && q != p
      requires e !in ThreadNodes(lists)
      ensures q < |lists| && p < |lists| && q < |model.procs|
      ensures ListHeld(procNodes[q].Item, lists[q], objs, model.procs[q].threads)
      ensures procNodes[q].Item != procNodes[p].Item
      ensures forall k, l :: 0 <= k < |lists[q]| && 0 <= l < |lists[p]| ==> lists[q][k] != lists[p][l]
      ensures forall k :: 0 <= k < |lists[q]| ==>
        lists[q][k] != e && (lists[q][k] as object) != procNodes[p].Item
    {
      hide Held, Listed, IsList;
      ListsApart(procNodes, lists, objs, model, p, q);
    }

    lemma ThreadNodesApart(owner: Process, e: LListElement<SchedThread>)
      ensures forall n: LListElement<Process>, l: LListElement<SchedThread> ::
        n in procNodes && l in ThreadNodes(lists) ==> (n as object) != l && (n.Item as object) != l
      ensures forall n: LListElement<Process> :: n in procNodes ==> (n as object) != e && (n.Item as object) != e
      ensures forall n: LListElement<Process> :: n in procNodes ==> (n as object) != owner
      ensures forall o: SchedThread :: o in objs ==> (o as object) != e && (o as object) != owner
      ensures forall n: LListElement<SchedThread> :: n in ThreadNodes(lists) ==> (n as object) != owner
      ensures (e as object) != this && (owner as object) != this && (e as object) != owner
    {
    }
  }

  const GDT_KERNEL_CODE: nat := 0x08
  const GDT_KERNEL_DATA: nat := 0x10
  const GDT_USER_CODE: nat := 0x18
  const GDT_USER_DATA: nat := 0x20

  /** What a new thread finds in its registers: it begins at eip on its stack, with interrupts enabled, in the flat
      segments of its mode, of which those of user mode have privilege level 3. */
  ghost predicate StartsAt(r: Regs, kernelMode: bool, eip: nat, stack: nat) {
    && r.Eip == eip && r.Esp == stack && r.Ebp == stack && r.Eflags == 0x200
    && r.Eax == 0 && r.Ebx == 0 && r.Ecx == 0 && r.Edx == 0 && r.Esi == 0 && r.Edi == 0
    && r.Cs == (if kernelMode then 0x08 else 0x1B)
    && r.Ds == (if kernelMode then 0x10 else 0x23)
    && r.Es == r.Ds && r.Fs == r.Ds && r.Gs == r.Ds && r.Ss == r.Ds
  }

  /** The registers a thread starts with. */
  function NewFrame(kernelMode: bool, eip: nat, stack: nat): (r: Regs)
    ensures StartsAt(r, kernelMode, eip, stack)
  {
    var code := if kernelMode then GDT_KERNEL_CODE else GDT_USER_CODE + 3;
    var data := if kernelMode then GDT_KERNEL_DATA else GDT_USER_DATA + 3;
    Regs(data, data, data, data, data, code, 0, 0, stack, stack, 0, 0, 0, 0, eip, 0x200)
  }

  ghost predicate IsFresh(thread: SchedThread)
    reads thread
  {
    thread.State == Running && thread.RemainingCpuTime == TIME_PER_THREAD
  }

  /** The thread behind a node of a process's list is owned by that process. */
  lemma NodeOwner(nodes: seq<LListElement<Process>>, lists: seq<seq<LListElement<SchedThread>>>,
                  objs: seq<SchedThread>, m: Sched, q: nat, n: LListElement<SchedThread>) returns (t: nat)
    requires ListsHeld(nodes, lists, objs, m.procs) && |objs| == |m.threads| && Listed(m.procs, m.threads)
    requires q < |lists| && n in lists[q]
    ensures t < |objs| && n.Item == objs[t] && m.threads[t].owner == q
  {
    assert ListHeld(nodes[q].Item, lists[q], objs, m.procs[q].threads);
    var k: nat :| k < |lists[q]| && lists[q][k] == n;
    t := m.procs[q].threads[k];
  }

  lemma ListIs(owner: Process, list: seq<LListElement<SchedThread>>, objs: seq<SchedThread>, tids: seq<Tid>)
    requires ListHeld(owner, list, objs, tids)
    ensures IsList(list) && |list| == |tids| && owner.Threads == (if list == [] then null else list[0])
    ensures forall k :: 0 <= k < |list| ==> tids[k] < |objs| && list[k].Item == objs[tids[k]]
  {
  }

  /** A node is on the list of one process only. */
  lemma ListsApart(nodes: seq<LListElement<Process>>, lists: seq<seq<LListElement<SchedThread>>>,
                   objs: seq<SchedThread>, m: Sched, p: nat, q: nat)
    requires ListsHeld(nodes, lists, objs, m.procs) && Held(objs, m.threads) && Listed(m.procs, m.threads)
    requires p < |lists|
    requires q < |lists| && q != p
    ensures forall k, l :: 0 <= k < |lists[q]| && 0 <= l < |lists[p]| ==> lists[q][k] != lists[p][l]
  {
    hide ListsHeld, Listed;
    forall k, l | 0 <= k < |lists[q]| && 0 <= l < |lists[p]| ensures lists[q][k] != lists[p][l] {
      var t := NodeOwner(nodes, lists, objs, m, q, lists[q][k]);
      var u := NodeOwner(nodes, lists, objs, m, p, lists[p][l]);
    }
  }

  lemma ListsGrow(nodes: seq<LListElement<Process>>, lists: seq<seq<LListElement<SchedThread>>>,
                  objs: seq<SchedThread>, m: Sched, p: nat, e: LListElement<SchedThread>, regs: Regs)
    requires |lists| == |nodes| == |m.procs| && p < |lists| && |objs| == |m.threads| && ProcsHeld(nodes, m.procs)
    requires forall q :: 0 <= q < |lists| && q != p ==> ListHeld(nodes[q].Item, lists[q], objs, m.procs[q].threads)
    requires IsList(lists[p] + [e]) && nodes[p].Item.Threads == (lists[p] + [e])[0]
    requires |lists[p]| == |m.procs[p].threads|
    requires forall k :: 0 <= k < |lists[p]| ==>
      m.procs[p].threads[k] < |objs| && lists[p][k].Item == objs[m.procs[p].threads[k]]
    ensures ProcsHeld(nodes, WithThread(m, p, regs).procs)
    ensures ListsHeld(nodes, lists[p := lists[p] + [e]], objs + [e.Item], WithThread(m, p, regs).procs)
  {
    hide IsList;
  }

  lemma HeldLength(objs: seq<SchedThread>, threads: seq<Thread>)
    requires Held(objs, threads)
    ensures |objs| == |threads|
  {
  }

  lemma HeldGrows(objs: seq<SchedThread>, m: Sched, p: nat, thread: SchedThread)
    requires Held(objs, m.threads) && thread !in objs && IsFresh(thread) && p < |m.procs|
    ensures Held(objs + [thread], WithThread(m, p, thread.CPUFrame).threads)
  {
  }

  /** Adding a thread record to a list is adding a thread to the model. */
  lemma FiledGrows(head: LListElement?<Process>, nodes: seq<LListElement<Process>>,
                   lists: seq<seq<LListElement<SchedThread>>>, objs: seq<SchedThread>, m: Sched, p: nat,
                   e: LListElement<SchedThread>) returns (m': Sched)
    requires IsList(nodes) && head == (if nodes == [] then null else nodes[0])
    requires |lists| == |nodes| == |m.procs| && p < |lists| && |objs| == |m.threads| && ProcsHeld(nodes, m.procs)
    requires forall q :: 0 <= q < |lists| && q != p ==> ListHeld(nodes[q].Item, lists[q], objs, m.procs[q].threads)
    requires IsList(lists[p] + [e]) && nodes[p].Item.Threads == (lists[p] + [e])[0]
    requires |lists[p]| == |m.procs[p].threads|
    requires forall k :: 0 <= k < |lists[p]| ==>
      m.procs[p].threads[k] < |objs| && lists[p][k].Item == objs[m.procs[p].threads[k]]
    requires Held(objs, m.threads) && e.Item !in objs && IsFresh(e.Item) && Listed(m.procs, m.threads)
    requires forall t :: 0 <= t < |m.threads| ==> m.threads[t].remaining < WORD
    ensures m' == WithThread(m, p, e.Item.CPUFrame)
    ensures Linked(head, nodes, lists[p := lists[p] + [e]], objs + [e.Item], m'.procs)
    ensures Held(objs + [e.Item], m'.threads) && Listed(m'.procs, m'.threads)
    ensures forall t :: 0 <= t < |m'.threads| ==> m'.threads[t].remaining < WORD
  {
    hide IsList, ProcsHeld, ListsHeld, ListHeld, Held, Listed;
    m' := WithThread(m, p, e.Item.CPUFrame);
    ListsGrow(nodes, lists, objs, m, p, e, e.Item.CPUFrame);
    HeldGrows(objs, m, p, e.Item);
    WithThreadKeepsListed(m, p, e.Item.CPUFrame);
  }

  ghost predicate RecordIsProc(record: Process, p: Proc)
    reads record
  {
    && record.ProcessId == p.pid && record.UserId == p.uid && record.IsKernelMode == p.kernelMode
    && record.PageDirectory == p.pageDirectory && record.Threads == null && p.threads == []
  }

  lemma ProcsGrow(nodes: seq<LListElement<Process>>, lists: seq<seq<LListElement<SchedThread>>>,
                  objs: seq<SchedThread>, m: Sched, e: LListElement<Process>, p: Proc)
    requires ProcsHeld(nodes, m.procs) && ListsHeld(nodes, lists, objs, m.procs) && Listed(m.procs, m.threads)
    requires forall n :: n in nodes ==> n.Item != e.Item
    requires RecordIsProc(e.Item, p)
    ensures ProcsHeld(nodes + [e], m.procs + [p]) && ListsHeld(nodes + [e], lists + [[]], objs, m.procs + [p])
    ensures Listed(m.procs + [p], m.threads)
  {
  }
}
