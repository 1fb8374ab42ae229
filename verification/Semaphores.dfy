/**
 Threads, the ready list and semaphores on one CPU (threads/thread.cc, scheduler.cc, synch.cc).

 Interrupts are off inside P, V, Yield, Sleep and Run, so each stretch between two points where the CPU can
 change hands is one atomic step. A thread that finds a semaphore at zero appends itself to the queue
 and sleeps; when it runs again it tests the value again, still with interrupts off.
 */
module Semaphores {
  import Lists

  type Tid(==, !new) = nat
  type SemId(==, !new) = nat

  /** Where a thread is: outside the semaphore code, or inside the wait loop of P. */
  datatype Control = Outside | InP(sem: SemId)

  datatype Status = Ready | Running | Blocked

  datatype Semaphore = Semaphore(value: int, queue: seq<Tid>, initial: nat, vs: nat, ps: nat)

  /**
   What the CPU is doing. Executing: the current thread runs with interrupts on. Resuming: it has just been
   switched to, inside Run or Begin. Sleeping: it has blocked or finished and looks for a successor.
   */
  datatype Phase = Executing | Resuming | Sleeping(finishing: bool)

  datatype State = State(
    current: Tid,
    phase: Phase,
    ready: seq<Tid>,
    threads: map<Tid, (Status, Control)>,
    sems: map<SemId, Semaphore>,
    toBeDestroyed: set<Tid>)
  {
    function ControlOf(t: Tid): Control
    {
      if t in threads then threads[t].1 else Outside
    }

    /** Threads that were woken inside P on this semaphore and have not tested its value again. */
    ghost function Woken(s: SemId): set<Tid>
      requires s in sems
    {
      set t | t in threads && threads[t].1 == InP(s) && t !in sems[s].queue
    }
  }

  datatype Action =
    | CallP(sem: SemId)          // the current thread calls P
    | CallV(sem: SemId)          // the current thread calls V
    | HandlerV(sem: SemId)       // a device interrupt handler calls V, while a thread runs or the CPU idles
    | Resume                     // the thread switched to finishes Run (or Begin), testing again if inside P
    | Dispatch                   // Sleep finds the next thread and runs it
    | Yield                      // the current thread, or a time slice, gives the CPU away
    | Fork(thread: Tid)          // a new thread is put on the ready list
    | Finish                     // the current thread ends
    | NewSem(sem: SemId, initial: nat)  // the current thread makes a semaphore

  // ---------- pieces of the steps ----------

  function SetStatus(st: State, t: Tid, status: Status): State
    requires t in st.threads
  {
    st.(threads := st.threads[t := (status, st.threads[t].1)])
  }

  function SetControl(st: State, t: Tid, c: Control): State
    requires t in st.threads
  {
    st.(threads := st.threads[t := (st.threads[t].0, c)])
  }

  /** Scheduler::ReadyToRun */
  function ReadyToRun(st: State, t: Tid): State
    requires t in st.threads
  {
    SetStatus(st, t, Ready).(ready := st.ready + [t])
  }

  /** One turn of P's loop: take the value, or queue up and sleep. */
  function TryP(st: State, s: SemId): State
    requires s in st.sems && st.current in st.threads
  {
    var sem := st.sems[s];
    if sem.value == 0 then
      var st1 := SetControl(SetStatus(st, st.current, Blocked), st.current, InP(s));
      st1.(phase := Sleeping(false), sems := st.sems[s := sem.(queue := sem.queue + [st.current])])
    else
      SetControl(st, st.current, Outside).(
        phase := Executing, sems := st.sems[s := sem.(value := sem.value - 1, ps := sem.ps + 1)])
  }

  function DoV(st: State, s: SemId): State
    requires s in st.sems && forall t :: t in st.sems[s].queue ==> t in st.threads
  {
    var sem := st.sems[s];
    if sem.queue != [] then
      ReadyToRun(st, sem.queue[0]).(
        sems := st.sems[s := sem.(value := sem.value + 1, vs := sem.vs + 1, queue := sem.queue[1..])])
    else
      st.(sems := st.sems[s := sem.(value := sem.value + 1, vs := sem.vs + 1)])
  }

  /** FindNextToRun, then the part of Run before the switch. */
  function SwitchTo(st: State, finishing: bool): State
    requires st.ready != [] && st.ready[0] in st.threads
  {
    var next := st.ready[0];
    SetStatus(st, next, Running).(
      ready := st.ready[1..], current := next, phase := Resuming,
      toBeDestroyed := if finishing then st.toBeDestroyed + {st.current} else st.toBeDestroyed)
  }

  /** CheckToBeDestroyed */
  function Reap(st: State): State
  {
    st.(threads := st.threads - st.toBeDestroyed, toBeDestroyed := {})
  }

  // ---------- the machine ----------

  ghost predicate Init(st: State)
  {
    && st.phase == Executing && st.ready == [] && st.toBeDestroyed == {}
    && st.threads == map[st.current := (Running, Outside)]
    && forall s :: s in st.sems ==>
         && st.sems[s].queue == [] && st.sems[s].vs == st.sems[s].ps == 0
         && st.sems[s].value == st.sems[s].initial
  }

  ghost predicate QueuedAreThreads(st: State)
  {
    && st.current in st.threads
    && (forall t :: t in st.ready ==> t in st.threads)
    && (forall s, t :: s in st.sems && t in st.sems[s].queue ==> t in st.threads)
  }

  /** The steps. A step is only described for states whose lists hold known threads; the invariant provides this. */
  ghost predicate Next(st: State, a: Action, st': State)
    requires QueuedAreThreads(st)
  {
    match a
    case CallP(s) => st.phase == Executing && s in st.sems && st' == TryP(st, s)
    case CallV(s) => st.phase == Executing && s in st.sems && st' == DoV(st, s)
    case HandlerV(s) =>
      st.phase != Resuming && s in st.sems && st' == DoV(st, s)
    case Resume =>
      st.phase == Resuming && st.current in Reap(st).threads &&
      (match st.ControlOf(st.current)
       case Outside => st' == Reap(st).(phase := Executing)
       case InP(s) => s in st.sems && st' == TryP(Reap(st), s))
    case Dispatch => st.phase.Sleeping? && st.ready != [] && st' == SwitchTo(st, st.phase.finishing)
    case Yield =>
      st.phase == Executing &&
      if st.ready == [] then st' == st
      else
        // FindNextToRun first, so that the yielding thread cannot pick itself
        var next := st.ready[0];
        var st1 := ReadyToRun(st.(ready := st.ready[1..]), st.current);
        st' == SetStatus(st1, next, Running).(current := next, phase := Resuming)
    case Fork(t) =>
      st.phase == Executing && t !in st.threads &&
      st' == st.(threads := st.threads[t := (Ready, Outside)], ready := st.ready + [t])
    case Finish =>
      st.phase == Executing && st' == SetStatus(st, st.current, Blocked).(phase := Sleeping(true))
    case NewSem(s, initial) =>
      st.phase == Executing && s !in st.sems &&
      st' == st.(sems := st.sems[s := Semaphore(initial, [], initial, 0, 0)])
  }

  // ---------- the invariant ----------

  /** value = initial + completed Vs - completed Ps, and it is never negative. */
  ghost predicate Counts(sem: Semaphore)
  {
    sem.value == sem.initial + sem.vs - sem.ps && sem.value >= 0
  }

  /** The ready list holds exactly the READY threads, once each. */
  ghost predicate ReadyListOk(st: State)
  {
    Lists.Distinct(st.ready) && forall t :: t in st.threads ==> (t in st.ready <==> st.threads[t].0 == Ready)
  }

  /** A semaphore's queue holds exactly the threads blocked on it, once each. */
  ghost predicate QueueOk(st: State, s: SemId)
    requires s in st.sems
  {
    Lists.Distinct(st.sems[s].queue) && forall t :: t in st.threads ==> (t in st.sems[s].queue <==> st.threads[t] == (Blocked, InP(s)))
  }

  /** Only the current thread runs; a thread blocked outside any queue is one that finished. */
  ghost predicate ThreadOk(st: State, t: Tid)
    requires t in st.threads
  {
    && (st.threads[t].0 == Running ==> t == st.current)
    && (st.threads[t] == (Blocked, Outside) ==> t in st.toBeDestroyed || (t == st.current && st.phase == Sleeping(true)))
    && (st.threads[t].1.InP? ==> st.threads[t].1.sem in st.sems)
  }

  ghost predicate Placed(st: State)
  {
    && ReadyListOk(st)
    && (forall s :: s in st.sems ==> QueueOk(st, s))
    && (forall t :: t in st.threads ==> ThreadOk(st, t))
  }

  ghost predicate CpuOk(st: State)
    requires QueuedAreThreads(st)
  {
    && (!st.phase.Sleeping? ==> st.threads[st.current].0 == Running)
    && (st.phase == Executing ==> st.threads[st.current].1 == Outside)
    && (st.phase == Sleeping(true) ==> st.threads[st.current] == (Blocked, Outside))
    && (st.phase == Sleeping(false) ==> st.threads[st.current].1.InP? && st.threads[st.current].0 != Running)
    && (st.toBeDestroyed != {} ==> st.phase == Resuming)
    && (forall t :: t in st.toBeDestroyed ==> t in st.threads && t != st.current && st.threads[t] == (Blocked, Outside))
  }

  /** Waiters are left in a queue only while enough woken threads are on their way to the value. */
  ghost predicate NoLostWakeup(st: State)
  {
    forall s :: s in st.sems && st.sems[s].queue != [] ==> st.sems[s].value <= |st.Woken(s)|
  }

  ghost predicate Inv(st: State)
  {
    && QueuedAreThreads(st)
    && (forall s :: s in st.sems ==> Counts(st.sems[s]))
    && Placed(st)
    && CpuOk(st)
    && NoLostWakeup(st)
  }

  // ---------- every step keeps it ----------

  lemma InitInv(st: State)
    requires Init(st)
    ensures Inv(st)
  {
  }

  lemma WokenAfter(st: State, st': State, s: SemId, t: Tid, joins: bool)
    requires s in st.sems && s in st'.sems
    requires forall u :: u != t ==> (u in st.Woken(s) <==> u in st'.Woken(s))
    requires t in st'.Woken(s) <==> joins
    ensures t in st.Woken(s) && !joins ==> |st'.Woken(s)| == |st.Woken(s)| - 1
    ensures t !in st.Woken(s) && joins ==> |st'.Woken(s)| == |st.Woken(s)| + 1
    ensures (t in st.Woken(s) <==> joins) ==> |st'.Woken(s)| == |st.Woken(s)|
  {
    if joins {
      assert st'.Woken(s) == st.Woken(s) + {t};
    } else {
      assert st'.Woken(s) == st.Woken(s) - {t};
    }
  }

  /** What holds between steps, but for the state of the CPU. */
  ghost predicate Core(st: State)
  {
    QueuedAreThreads(st) && (forall r :: r in st.sems ==> Counts(st.sems[r])) && Placed(st) && NoLostWakeup(st)
  }

  /** The current thread may take a turn of P's loop on s: it calls P now, or was woken inside it. */
  ghost predicate AtP(st: State, s: SemId)
  {
    && Core(st) && s in st.sems && !st.phase.Sleeping? && st.toBeDestroyed == {}
    && (st.threads[st.current] == (Running, Outside) || st.threads[st.current] == (Running, InP(s)))
  }

  lemma TryPKeepsQueue(st: State, s: SemId, r: SemId)
    requires AtP(st, s) && r in st.sems
    ensures QueueOk(TryP(st, s), r)
  {
    hide ReadyListOk, ThreadOk, NoLostWakeup, Counts;
    assert QueueOk(st, s) && QueueOk(st, r);
    Lists.DistinctAppend(st.sems[s].queue, st.current);
  }

  lemma TryPKeepsQueues(st: State, s: SemId)
    requires AtP(st, s)
    ensures QueuedAreThreads(TryP(st, s)) && forall r :: r in TryP(st, s).sems ==> QueueOk(TryP(st, s), r)
  {
    hide QueueOk, ReadyListOk, ThreadOk, NoLostWakeup, Counts;
    forall r | r in TryP(st, s).sems
      ensures QueueOk(TryP(st, s), r)
    {
      TryPKeepsQueue(st, s, r);
    }
  }

  lemma TryPKeepsPlaced(st: State, s: SemId)
    requires AtP(st, s)
    ensures QueuedAreThreads(TryP(st, s)) && Placed(TryP(st, s))
  {
    TryPKeepsQueues(st, s);
    hide QueueOk;
    forall u | u in TryP(st, s).threads
      ensures ThreadOk(TryP(st, s), u)
    {
      assert ThreadOk(st, u);
    }
  }

  lemma TryPKeepsWakeups(st: State, s: SemId)
    requires AtP(st, s)
    ensures NoLostWakeup(TryP(st, s))
  {
    var st', t := TryP(st, s), st.current;
    forall r | r in st'.sems && st'.sems[r].queue != []
      ensures st'.sems[r].value <= |st'.Woken(r)|
    {
      assert QueueOk(st, r);
      if r != s || st.sems[s].value != 0 {
        assert st'.sems[r].queue == st.sems[r].queue;
        WokenAfter(st, st', r, t, false);
      }
    }
  }

  lemma TryPKeepsInv(st: State, s: SemId)
    requires AtP(st, s)
    ensures Inv(TryP(st, s))
  {
    hide Placed, NoLostWakeup;
    TryPKeepsPlaced(st, s);
    TryPKeepsWakeups(st, s);
  }

  lemma VKeepsReady(st: State, s: SemId)
    requires Core(st) && s in st.sems
    ensures QueuedAreThreads(DoV(st, s)) && ReadyListOk(DoV(st, s))
  {
    var q := st.sems[s].queue;
    assert QueueOk(st, s);
    if q != [] {
      assert q == [q[0]] + q[1..];
      Lists.DistinctAppend(st.ready, q[0]);
    }
  }

  lemma VKeepsQueue(st: State, s: SemId, r: SemId)
    requires Core(st) && s in st.sems && r in st.sems
    ensures QueueOk(DoV(st, s), r)
  {
    hide ReadyListOk, ThreadOk, NoLostWakeup, Counts;
    var q := st.sems[s].queue;
    assert QueueOk(st, s) && QueueOk(st, r);
    if q != [] {
      assert q == [q[0]] + q[1..];
      assert q[0] !in q[1..];
    }
  }

  lemma VKeepsThread(st: State, s: SemId, u: Tid)
    requires Core(st) && s in st.sems && u in DoV(st, s).threads
    ensures ThreadOk(DoV(st, s), u)
  {
    hide ReadyListOk, NoLostWakeup, Counts, Lists.Distinct;
    assert QueueOk(st, s) && ThreadOk(st, u);
    if st.sems[s].queue != [] { assert st.sems[s].queue[0] in st.sems[s].queue; }
  }

  lemma VKeepsPlaced(st: State, s: SemId)
    requires Core(st) && s in st.sems
    ensures QueuedAreThreads(DoV(st, s)) && Placed(DoV(st, s))
  {
    VKeepsReady(st, s);
    hide ReadyListOk, QueueOk, ThreadOk, NoLostWakeup, Counts;
    forall r | r in DoV(st, s).sems
      ensures QueueOk(DoV(st, s), r)
    {
      VKeepsQueue(st, s, r);
    }
    forall u | u in DoV(st, s).threads
      ensures ThreadOk(DoV(st, s), u)
    {
      VKeepsThread(st, s, u);
    }
  }

  lemma VKeepsWakeups(st: State, s: SemId)
    requires Core(st) && s in st.sems
    ensures NoLostWakeup(DoV(st, s))
  {
    var st', q := DoV(st, s), st.sems[s].queue;
    assert QueueOk(st, s);
    forall r | r in st'.sems && st'.sems[r].queue != []
      ensures st'.sems[r].value <= |st'.Woken(r)|
    {
      assert QueueOk(st, r);
      if q != [] {
        assert q == [q[0]] + q[1..];
        assert q[0] !in q[1..];
        assert q[0] in q;
        WokenAfter(st, st', r, q[0], r == s);
      } else {
        assert st'.Woken(r) == st.Woken(r);
      }
    }
  }

  lemma VKeepsInv(st: State, s: SemId)
    requires Inv(st) && s in st.sems && st.phase != Resuming
    ensures Inv(DoV(st, s))
  {
    hide NoLostWakeup, ReadyListOk, ThreadOk;
    VKeepsPlaced(st, s);
    VKeepsWakeups(st, s);
    assert QueueOk(st, s);
  }

  /** Steps that move threads between the CPU and the ready list leave every semaphore alone. */
  lemma SameWoken(st: State, st': State)
    requires NoLostWakeup(st) && st'.sems == st.sems
    requires forall t, s :: s in st.sems ==> (t in st'.threads && st'.threads[t].1 == InP(s) <==> t in st.threads && st.threads[t].1 == InP(s))
    ensures NoLostWakeup(st')
  {
    forall r | r in st'.sems && st'.sems[r].queue != []
      ensures st'.sems[r].value <= |st'.Woken(r)|
    {
      assert st'.Woken(r) == st.Woken(r);
    }
  }

  /** The ready list without its front. */
  lemma ReadyFront(q: seq<Tid>)
    requires q != [] && Lists.Distinct(q)
    ensures Lists.Distinct(q[1..]) && q[0] !in q[1..] && forall t :: t in q <==> t == q[0] || t in q[1..]
  {
    assert q == [q[0]] + q[1..];
  }

  lemma DispatchKeepsReady(st: State)
    requires ReadyListOk(st) && QueuedAreThreads(st) && st.ready != []
    ensures forall finishing :: ReadyListOk(SwitchTo(st, finishing)) && QueuedAreThreads(SwitchTo(st, finishing))
  {
    ReadyFront(st.ready);
    hide Lists.Distinct;
  }

  lemma DispatchKeepsPlaced(st: State)
    requires Inv(st) && st.phase.Sleeping? && st.ready != []
    ensures Placed(SwitchTo(st, st.phase.finishing))
  {
    var st' := SwitchTo(st, st.phase.finishing);
    DispatchKeepsReady(st);
    FrontIsReady(st);
    hide ReadyListOk, Lists.Distinct, NoLostWakeup, Counts;
    forall r | r in st'.sems
      ensures QueueOk(st', r)
    {
      assert QueueOk(st, r);
    }
    forall u | u in st'.threads
      ensures ThreadOk(st', u)
    {
      assert ThreadOk(st, u);
    }
  }

  lemma FrontIsReady(st: State)
    requires ReadyListOk(st) && QueuedAreThreads(st) && st.ready != []
    ensures st.threads[st.ready[0]].0 == Ready
  {
  }

  lemma DispatchKeepsInv(st: State)
    requires Inv(st) && st.phase.Sleeping? && st.ready != []
    ensures st.phase.finishing ==> st.toBeDestroyed == {}
    ensures Inv(SwitchTo(st, st.phase.finishing))
  {
    hide NoLostWakeup, Counts, ReadyListOk, QueueOk;
    DispatchKeepsPlaced(st);
    FrontIsReady(st);
    SameWoken(st, SwitchTo(st, st.phase.finishing));
  }

  /** The state in which a resumed thread goes on: the finished thread, if any, is gone. */
  lemma ReapKeepsCore(st: State)
    requires Inv(st) && st.phase == Resuming
    ensures Core(Reap(st)) && st.current in Reap(st).threads
    ensures Reap(st).threads[st.current] == st.threads[st.current]
  {
    var st' := Reap(st);
    assert forall t :: t in st'.threads <==> t in st.threads && t !in st.toBeDestroyed;
    SameWoken(st, st');
    forall r | r in st'.sems
      ensures QueueOk(st', r)
    {
      assert QueueOk(st, r);
    }
    forall u | u in st'.threads
      ensures ThreadOk(st', u)
    {
      assert ThreadOk(st, u);
    }
    forall s, t | s in st'.sems && t in st'.sems[s].queue
      ensures t in st'.threads
    {
      assert QueueOk(st, s);
    }
  }

  /** Unless the CPU idles for want of a ready thread, the machine can go on. */
  lemma CanStep(st: State) returns (a: Action, st': State)
    requires Inv(st) && !(st.phase.Sleeping? && st.ready == [])
    ensures Next(st, a, st')
  {
    if st.phase == Executing {
      a := Yield;
      st' := if st.ready == [] then st
        else
          SetStatus(ReadyToRun(st.(ready := st.ready[1..]), st.current), st.ready[0], Running).(
            current := st.ready[0], phase := Resuming);
    } else if st.phase.Sleeping? {
      a, st' := Dispatch, SwitchTo(st, st.phase.finishing);
    } else {
      ReapKeepsCore(st);
      assert ThreadOk(st, st.current);
      a := Resume;
      match st.ControlOf(st.current)
      case Outside => st' := Reap(st).(phase := Executing);
      case InP(s) => st' := TryP(Reap(st), s);
    }
  }

  lemma ResumeKeepsInv(st: State, st': State)
    requires Inv(st) && Next(st, Resume, st')
    ensures Inv(st')
  {
    ReapKeepsCore(st);
    assert ThreadOk(st, st.current);
    if st.ControlOf(st.current).InP? {
      TryPKeepsInv(Reap(st), st.ControlOf(st.current).sem);
    } else {
      SameWoken(Reap(st), st');
      forall r | r in st'.sems
        ensures QueueOk(st', r)
      {
        assert QueueOk(Reap(st), r);
      }
      forall u | u in st'.threads
        ensures ThreadOk(st', u)
      {
        assert ThreadOk(Reap(st), u);
      }
    }
  }

  lemma YieldKeepsReady(st: State, st': State)
    requires Inv(st) && Next(st, Yield, st')
    ensures ReadyListOk(st')
  {
    hide QueueOk, ThreadOk, NoLostWakeup, Counts;
    if st.ready != [] {
      ReadyFront(st.ready);
      assert st.current !in st.ready;
      Lists.DistinctAppend(st.ready[1..], st.current);
      hide Lists.Distinct;
    }
  }

  lemma YieldKeepsPlaced(st: State, st': State)
    requires Inv(st) && Next(st, Yield, st') && st.ready != []
    ensures Placed(st')
  {
    YieldKeepsReady(st, st');
    hide ReadyListOk, Lists.Distinct;
    forall r | r in st'.sems
      ensures QueueOk(st', r)
    {
      assert QueueOk(st, r);
    }
    forall u | u in st'.threads
      ensures ThreadOk(st', u)
    {
      assert ThreadOk(st, u);
    }
  }

  lemma YieldKeepsCpu(st: State, st': State)
    requires Inv(st) && Next(st, Yield, st') && st.ready != []
    ensures QueuedAreThreads(st') && CpuOk(st')
  {
    hide NoLostWakeup, Counts, QueueOk, ThreadOk;
    assert ReadyListOk(st) && st.ready[0] in st.ready;
  }

  lemma YieldKeepsInv(st: State, st': State)
    requires Inv(st) && Next(st, Yield, st')
    ensures Inv(st')
  {
    if st.ready != [] {
      YieldKeepsCpu(st, st');
      hide Placed, NoLostWakeup, Counts, CpuOk;
      YieldKeepsPlaced(st, st');
      SameWoken(st, st');
    }
  }

  lemma ForkKeepsInv(st: State, st': State, t: Tid)
    requires Inv(st) && Next(st, Fork(t), st')
    ensures Inv(st')
  {
    Lists.DistinctAppend(st.ready, t);
    SameWoken(st, st');
    forall r | r in st'.sems
      ensures QueueOk(st', r)
    {
      assert QueueOk(st, r);
    }
    forall u | u in st'.threads
      ensures ThreadOk(st', u)
    {
      if u != t { assert ThreadOk(st, u); }
    }
  }

  lemma FinishKeepsInv(st: State, st': State)
    requires Inv(st) && Next(st, Finish, st')
    ensures Inv(st')
  {
    SameWoken(st, st');
    forall r | r in st'.sems
      ensures QueueOk(st', r)
    {
      assert QueueOk(st, r);
    }
    forall u | u in st'.threads
      ensures ThreadOk(st', u)
    {
      assert ThreadOk(st, u);
    }
  }

  lemma NewSemKeepsInv(st: State, st': State, s: SemId, initial: nat)
    requires Inv(st) && Next(st, NewSem(s, initial), st')
    ensures Inv(st')
  {
    forall r | r in st'.sems
      ensures QueueOk(st', r)
    {
      if r != s {
        assert QueueOk(st, r);
      } else {
        assert forall t :: t in st.threads ==> ThreadOk(st, t);
      }
    }
    forall u | u in st'.threads
      ensures ThreadOk(st', u)
    {
      assert ThreadOk(st, u);
    }
    forall r | r in st'.sems && st'.sems[r].queue != []
      ensures st'.sems[r].value <= |st'.Woken(r)|
    {
      assert st'.Woken(r) == st.Woken(r);
    }
  }

  lemma NextKeepsInv(st: State, a: Action, st': State)
    requires Inv(st) && Next(st, a, st')
    ensures Inv(st')
  {
    match a
    case CallP(s) => TryPKeepsInv(st, s);
    case CallV(s) => VKeepsInv(st, s);
    case HandlerV(s) => VKeepsInv(st, s);
    case Resume => ResumeKeepsInv(st, st');
    case Dispatch => DispatchKeepsInv(st);
    case Yield => YieldKeepsInv(st, st');
    case Fork(t) => ForkKeepsInv(st, st', t);
    case Finish => FinishKeepsInv(st, st');
    case NewSem(s, initial) => NewSemKeepsInv(st, st', s, initial);
  }

  // ---------- what holds in every interleaving ----------

  /** A run: a start state and any finite sequence of steps, chosen in any order by threads, devices and the clock. */
  ghost predicate IsRun(states: seq<State>, actions: seq<Action>)
  {
    && |states| == |actions| + 1 && Init(states[0])
    && forall i :: 0 <= i < |actions| ==>
         QueuedAreThreads(states[i]) && Next(states[i], actions[i], states[i + 1])
  }

  lemma {:induction false} RunInv(states: seq<State>, actions: seq<Action>, i: nat)
    requires IsRun(states, actions) && i < |states|
    ensures Inv(states[i])
  {
    if i == 0 {
      InitInv(states[0]);
    } else {
      RunInv(states, actions, i - 1);
      assert Next(states[i - 1], actions[i - 1], states[i]);
      NextKeepsInv(states[i - 1], actions[i - 1], states[i]);
    }
  }

  /** The semaphore law: value is initial plus completed Vs minus completed Ps, and never negative. */
  lemma SemaphoreLaw(states: seq<State>, actions: seq<Action>, i: nat, s: SemId)
    requires IsRun(states, actions) && i < |states| && s in states[i].sems
    ensures
      var sem := states[i].sems[s];
      sem.value == sem.initial + sem.vs - sem.ps && sem.value >= 0 && sem.ps <= sem.initial + sem.vs
  {
    RunInv(states, actions, i);
    assert Counts(states[i].sems[s]);
  }

  /** Used as a lock, a semaphore that starts at 1 has never been taken by two threads at once. */
  lemma LockExcludes(states: seq<State>, actions: seq<Action>, i: nat, s: SemId)
    requires IsRun(states, actions) && i < |states| && s in states[i].sems && states[i].sems[s].initial == 1
    ensures states[i].sems[s].ps - states[i].sems[s].vs <= 1
  {
    SemaphoreLaw(states, actions, i, s);
  }

  /**
   No lost wakeup: while threads wait in the queue, the value is at most the number of woken threads that are still on
   their way to it, each on the ready list or on the CPU.
   */
  lemma WaitersAreWoken(states: seq<State>, actions: seq<Action>, i: nat, s: SemId)
    requires IsRun(states, actions) && i < |states| && s in states[i].sems && states[i].sems[s].queue != []
    ensures states[i].sems[s].value <= |states[i].Woken(s)|
    ensures forall t <- states[i].Woken(s) ::
      states[i].ControlOf(t) == InP(s) && t !in states[i].sems[s].queue && (t in states[i].ready || t == states[i].current)
  {
    var st := states[i];
    RunInv(states, actions, i);
    forall t <- st.Woken(s)
      ensures st.ControlOf(t) == InP(s) && t !in st.sems[s].queue && (t in st.ready || t == st.current)
    {
      assert QueueOk(st, s) && ThreadOk(st, t);
    }
  }

  /** When the CPU sleeps with nothing ready, every semaphore that threads wait for stands at 0: only an interrupt can help. */
  lemma IdleMeansZero(states: seq<State>, actions: seq<Action>, i: nat, s: SemId)
    requires IsRun(states, actions) && i < |states| && s in states[i].sems && states[i].sems[s].queue != []
    requires states[i].phase.Sleeping? && states[i].ready == []
    ensures states[i].sems[s].value == 0 && states[i].Woken(s) == {}
  {
    var st := states[i];
    WaitersAreWoken(states, actions, i, s);
    SemaphoreLaw(states, actions, i, s);
    RunInv(states, actions, i);
    assert QueueOk(st, s) && ThreadOk(st, st.current) && ReadyListOk(st);
    assert st.Woken(s) == {};
  }

  /** No thread is ever in two lists, or twice in one. */
  lemma OnePlace(states: seq<State>, actions: seq<Action>, i: nat, t: Tid, s: SemId, r: SemId)
    requires IsRun(states, actions) && i < |states| && s in states[i].sems && r in states[i].sems
    requires t in states[i].sems[s].queue
    ensures t !in states[i].ready && (t in states[i].sems[r].queue ==> r == s)
    ensures Lists.Distinct(states[i].ready) && Lists.Distinct(states[i].sems[s].queue)
  {
    var st := states[i];
    RunInv(states, actions, i);
    assert QueueOk(st, s) && QueueOk(st, r);
  }

  /** The thread that a step appends to a list, when it appends one, and that list. */
  ghost predicate Appends(st: State, a: Action, list: seq<Tid>, t: Tid)
    requires QueuedAreThreads(st)
  {
    match a
    case CallP(s) => s in st.sems && st.sems[s].value == 0 && list == st.sems[s].queue && t == st.current
    case Resume =>
      st.ControlOf(st.current).InP? && st.ControlOf(st.current).sem in st.sems &&
      st.sems[st.ControlOf(st.current).sem].value == 0 &&
      list == st.sems[st.ControlOf(st.current).sem].queue && t == st.current
    case CallV(s) => s in st.sems && st.sems[s].queue != [] && list == st.ready && t == st.sems[s].queue[0]
    case HandlerV(s) => s in st.sems && st.sems[s].queue != [] && list == st.ready && t == st.sems[s].queue[0]
    case Yield => st.ready != [] && list == st.ready[1..] && t == st.current
    case Fork(u) => list == st.ready && t == u
    case _ => false
  }

  /** List::Append asserts that the item is not in the list already; no step of any run breaks that. */
  lemma AppendNeverFails(states: seq<State>, actions: seq<Action>, i: nat, list: seq<Tid>, t: Tid)
    requires IsRun(states, actions) && i < |actions|
    requires QueuedAreThreads(states[i]) && Appends(states[i], actions[i], list, t)
    ensures t !in list
  {
    var st, a := states[i], actions[i];
    RunInv(states, actions, i);
    assert Next(st, a, states[i + 1]);
    match a
    case CallP(s) => assert QueueOk(st, s);
    case Resume => assert QueueOk(st, st.ControlOf(st.current).sem);
    case CallV(s) => assert QueueOk(st, s);
    case HandlerV(s) => assert QueueOk(st, s);
    case Yield =>
    case Fork(u) =>
  }

  /** Run's assertion that no other carcass is waiting, and the destructor's that no thread deletes itself. */
  lemma CarcassAssertions(states: seq<State>, actions: seq<Action>, i: nat)
    requires IsRun(states, actions) && i < |actions|
    ensures actions[i] == Dispatch && states[i].phase == Sleeping(true) ==> states[i].toBeDestroyed == {}
    ensures actions[i] == Resume ==> states[i].current !in states[i].toBeDestroyed
  {
    RunInv(states, actions, i);
  }

  // ---------- one semaphore, seen from outside ----------

  /** What callers see of a semaphore: its value and how many Vs and Ps have completed. */
  datatype Shown = Shown(value: int, vs: nat, ps: nat)

  function Show(sem: Semaphore): Shown
  {
    Shown(sem.value, sem.vs, sem.ps)
  }

  /** Nothing happens to it, or a whole V, or a whole P that is taken only from a positive value. */
  ghost predicate AtomicStep(x: Shown, y: Shown)
  {
    || y == x
    || y == Shown(x.value + 1, x.vs + 1, x.ps)
    || (x.value > 0 && y == Shown(x.value - 1, x.vs, x.ps + 1))
  }

  /**
   Seen at one semaphore, every step of a run is a stutter, an atomic V or an atomic P: the loop in P, the queues and
   the scheduler do not show. A thread that leaves P took the value in that very step, and one that enters V completes
   it.
   */
  lemma SemaphoresAreAtomic(states: seq<State>, actions: seq<Action>, i: nat, s: SemId)
    requires IsRun(states, actions) && i < |actions| && s in states[i].sems
    ensures s in states[i + 1].sems && AtomicStep(Show(states[i].sems[s]), Show(states[i + 1].sems[s]))
    ensures actions[i] == CallV(s) || actions[i] == HandlerV(s) <==>
      states[i + 1].sems[s].vs == states[i].sems[s].vs + 1
    ensures states[i + 1].sems[s].ps == states[i].sems[s].ps + 1 <==>
      || (actions[i] == CallP(s) && states[i + 1].ControlOf(states[i].current) == Outside)
      || (actions[i] == Resume && states[i].ControlOf(states[i].current) == InP(s)
          && states[i + 1].ControlOf(states[i].current) == Outside)
  {
    RunInv(states, actions, i);
    assert Counts(states[i].sems[s]);
    hide Inv, Next;
    StepIsAtomic(states[i], actions[i], states[i + 1], s);
  }

  lemma StepIsAtomic(st: State, a: Action, st': State, s: SemId)
    requires QueuedAreThreads(st) && Next(st, a, st') && s in st.sems && st.sems[s].value >= 0
    ensures s in st'.sems && AtomicStep(Show(st.sems[s]), Show(st'.sems[s]))
    ensures a == CallV(s) || a == HandlerV(s) <==> st'.sems[s].vs == st.sems[s].vs + 1
    ensures st'.sems[s].ps == st.sems[s].ps + 1 <==>
      || (a == CallP(s) && st'.ControlOf(st.current) == Outside)
      || (a == Resume && st.ControlOf(st.current) == InP(s) && st'.ControlOf(st.current) == Outside)
  {
    if a == Resume { assert Reap(st).sems == st.sems; }
  }
}
