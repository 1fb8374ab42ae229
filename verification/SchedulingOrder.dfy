/**
 Who comes first: the order in which semaphores wake threads and in which the CPU runs them (threads/synch.cc,
 scheduler.cc). The history is read off the lists before and after each step of a run of module Semaphores, whatever
 the step does.
 */
module SchedulingOrder {
  import opened Semaphores
  import opened QueueHistory
  import Lists

  // ---------- the lists of a run ----------

  function QueueAt(st: State, s: SemId): seq<Tid>
  {
    if s in st.sems then st.sems[s].queue else []
  }

  /** The threads that have queued up at a semaphore in the first n steps, in order, each time they did. */
  ghost function Joined(states: seq<State>, s: SemId, n: nat): seq<Tid>
    requires n < |states|
  {
    if n == 0 then []
    else Joined(states, s, n - 1) + Minus(QueueAt(states[n], s), QueueAt(states[n - 1], s))
  }

  /** The threads that have left its queue, in order. */
  ghost function WokenSoFar(states: seq<State>, s: SemId, n: nat): seq<Tid>
    requires n < |states|
  {
    if n == 0 then []
    else WokenSoFar(states, s, n - 1) + Minus(QueueAt(states[n - 1], s), QueueAt(states[n], s))
  }

  /** The threads that were put on the ready list. */
  ghost function Readied(states: seq<State>, n: nat): seq<Tid>
    requires n < |states|
  {
    if n == 0 then [] else Readied(states, n - 1) + Minus(states[n].ready, states[n - 1].ready)
  }

  /** The threads that left it. */
  ghost function Dispatched(states: seq<State>, n: nat): seq<Tid>
    requires n < |states|
  {
    if n == 0 then [] else Dispatched(states, n - 1) + Minus(states[n - 1].ready, states[n].ready)
  }

  lemma QueueStep(st: State, a: Action, st': State, s: SemId)
    requires Inv(st) && Next(st, a, st')
    ensures ListStep(QueueAt(st, s), QueueAt(st', s))
    ensures forall t :: t in QueueAt(st, s) && t !in QueueAt(st', s) ==> st'.ready == st.ready + [t]
  {
    hide NoLostWakeup, Counts, ReadyListOk;
    if s in st.sems {
      assert QueueOk(st, s);
      FrontOnce(st.sems[s].queue);
      if !st.phase.Sleeping? { CurrentNotQueued(st, s); }
    }
    assert a == Resume ==> Reap(st).sems == st.sems;
  }

  lemma FrontOnce(q: seq<Tid>)
    requires Lists.Distinct(q)
    ensures q != [] ==> q[0] !in q[1..] && forall t :: t in q ==> t == q[0] || t in q[1..]
  {
    if q != [] { assert q == [q[0]] + q[1..]; }
  }

  /** A thread on the CPU is in no queue. */
  lemma CurrentNotQueued(st: State, s: SemId)
    requires Inv(st) && s in st.sems && !st.phase.Sleeping?
    ensures st.current !in st.sems[s].queue
  {
    assert QueueOk(st, s);
  }

  lemma ReadyStep(st: State, a: Action, st': State)
    requires Inv(st) && Next(st, a, st')
    ensures ListStep(st.ready, st'.ready)
    ensures forall t :: t in st.ready && t !in st'.ready ==> st'.current == t == st.ready[0] && st'.phase == Resuming
  {
    hide NoLostWakeup, Counts;
    assert ReadyListOk(st);
    FrontOnce(st.ready);
    match a
    case CallV(s) => assert QueueOk(st, s);
    case HandlerV(s) => assert QueueOk(st, s);
    case Resume => assert Reap(st).ready == st.ready;
    case _ =>
  }

  // ---------- first come, first served ----------

  /**
   In every run, threads are woken from a semaphore in the order in which they queued up: those woken so far are the first
   ones, and the queue holds the rest.
   */
  lemma {:induction false} FirstComeFirstWoken(states: seq<State>, actions: seq<Action>, n: nat, s: SemId)
    requires IsRun(states, actions) && n < |states|
    ensures Joined(states, s, n) == WokenSoFar(states, s, n) + QueueAt(states[n], s)
  {
    hide Next, Inv;
    if n == 0 {
      NoQueueYet(states[0], s);
    } else {
      FirstComeFirstWoken(states, actions, n - 1, s);
      RunInv(states, actions, n - 1);
      assert Next(states[n - 1], actions[n - 1], states[n]);
      QueueStep(states[n - 1], actions[n - 1], states[n], s);
      hide ListStep;
      Shift(Joined(states, s, n - 1), WokenSoFar(states, s, n - 1), QueueAt(states[n - 1], s), QueueAt(states[n], s));
    }
  }

  lemma NoQueueYet(st: State, s: SemId)
    requires Init(st)
    ensures QueueAt(st, s) == [] && st.ready == []
  {
  }

  /** A woken thread goes behind all that are ready. */
  lemma WokenIsReadied(states: seq<State>, actions: seq<Action>, i: nat, s: SemId, t: Tid)
    requires IsRun(states, actions) && i < |actions| && t in QueueAt(states[i], s) && t !in QueueAt(states[i + 1], s)
    ensures states[i + 1].ready == states[i].ready + [t]
  {
    hide Next, Inv;
    RunInv(states, actions, i);
    assert Next(states[i], actions[i], states[i + 1]);
    QueueStep(states[i], actions[i], states[i + 1], s);
  }

  /** In every run, threads get the CPU in the order in which they became ready. */
  lemma {:induction false} FirstReadyFirstRun(states: seq<State>, actions: seq<Action>, n: nat)
    requires IsRun(states, actions) && n < |states|
    ensures Readied(states, n) == Dispatched(states, n) + states[n].ready
  {
    hide Next, Inv;
    if n == 0 {
      NoQueueYet(states[0], 0);
    } else {
      FirstReadyFirstRun(states, actions, n - 1);
      RunInv(states, actions, n - 1);
      assert Next(states[n - 1], actions[n - 1], states[n]);
      ReadyStep(states[n - 1], actions[n - 1], states[n]);
      hide ListStep;
      Shift(Readied(states, n - 1), Dispatched(states, n - 1), states[n - 1].ready, states[n].ready);
    }
  }

  /** A thread leaves the ready list only to run. */
  lemma DispatchedRuns(states: seq<State>, actions: seq<Action>, i: nat, t: Tid)
    requires IsRun(states, actions) && i < |actions| && t in states[i].ready && t !in states[i + 1].ready
    ensures states[i + 1].current == t == states[i].ready[0] && states[i + 1].phase == Resuming
  {
    hide Next, Inv;
    RunInv(states, actions, i);
    assert Next(states[i], actions[i], states[i + 1]);
    ReadyStep(states[i], actions[i], states[i + 1]);
  }

  // ---------- what single calls must do ----------

  /** Yield gives way whenever another thread is ready, and the yielder waits behind all of them. */
  lemma YieldGivesWay(states: seq<State>, actions: seq<Action>, i: nat)
    requires IsRun(states, actions) && i < |actions| && actions[i] == Yield && states[i].ready != []
    ensures
      var st, st' := states[i], states[i + 1];
      && st'.current == st.ready[0] != st.current && st'.ready == st.ready[1..] + [st.current]
      && st.threads[st.current] == (Running, Outside)
      && st.current in st'.threads && st'.threads[st.current] == (Ready, Outside)
  {
    RunInv(states, actions, i);
    var st := states[i];
    assert Next(st, Yield, states[i + 1]);
    hide NoLostWakeup, Counts, QueueOk;
    assert ReadyListOk(st) && st.ready[0] in st.ready;
  }

  /** A thread that sleeps hands the CPU over as soon as some thread is ready. */
  lemma DispatchHandsOver(states: seq<State>, actions: seq<Action>, i: nat)
    requires IsRun(states, actions) && i < |actions| && actions[i] == Dispatch
    ensures states[i].ready != [] && states[i + 1].current == states[i].ready[0]
    ensures states[i + 1].ready == states[i].ready[1..] && states[i + 1].phase == Resuming
    ensures states[i].phase.finishing <==> states[i].current in states[i + 1].toBeDestroyed
  {
    RunInv(states, actions, i);
    assert Next(states[i], Dispatch, states[i + 1]);
    hide Placed, NoLostWakeup, Counts;
  }

  /** A forked thread starts behind all that are ready, outside the semaphore code. */
  lemma ForkIsReady(states: seq<State>, actions: seq<Action>, i: nat, t: Tid)
    requires IsRun(states, actions) && i < |actions| && actions[i] == Fork(t)
    ensures states[i + 1].ready == states[i].ready + [t] && states[i + 1].current == states[i].current
    ensures t !in states[i].threads && t in states[i + 1].threads && states[i + 1].threads[t] == (Ready, Outside)
  {
    assert Next(states[i], Fork(t), states[i + 1]);
  }

  /** A new semaphore has the value it was given, and nobody waits. */
  lemma NewSemStarts(states: seq<State>, actions: seq<Action>, i: nat, s: SemId, initial: nat)
    requires IsRun(states, actions) && i < |actions| && actions[i] == NewSem(s, initial)
    ensures s !in states[i].sems && s in states[i + 1].sems && Show(states[i + 1].sems[s]) == Shown(initial, 0, 0)
    ensures states[i + 1].sems[s].queue == [] && states[i + 1].sems[s].initial == initial
  {
    assert Next(states[i], NewSem(s, initial), states[i + 1]);
  }

  /** P sleeps exactly when the value is 0, and then the caller is last in the queue. */
  lemma PSleepsAtZero(states: seq<State>, actions: seq<Action>, i: nat, s: SemId)
    requires IsRun(states, actions) && i < |actions| && s in states[i].sems
    requires actions[i] == CallP(s) || (actions[i] == Resume && states[i].ControlOf(states[i].current) == InP(s))
    ensures s in states[i + 1].sems && states[i + 1].current == states[i].current
    ensures states[i].sems[s].value == 0 ==>
      && states[i + 1].sems[s].queue == states[i].sems[s].queue + [states[i].current]
      && states[i + 1].phase == Sleeping(false)
    ensures states[i].sems[s].value > 0 ==>
      && states[i + 1].sems[s].queue == states[i].sems[s].queue && states[i + 1].phase == Executing
      && states[i + 1].ControlOf(states[i].current) == Outside
  {
    RunInv(states, actions, i);
    assert Next(states[i], actions[i], states[i + 1]);
    hide Placed, NoLostWakeup;
    if actions[i] == Resume { assert Reap(states[i]).sems == states[i].sems; }
  }

  // ---------- which calls can be made ----------

  ghost predicate Possible(st: State, a: Action)
    requires QueuedAreThreads(st)
  {
    exists st' :: Next(st, a, st')
  }

  /** A running thread can make every call, and a handler can call V whenever no thread is just being switched to. */
  lemma CallsArePossible(states: seq<State>, actions: seq<Action>, i: nat, a: Action)
    requires IsRun(states, actions) && i < |states|
    ensures QueuedAreThreads(states[i])
    ensures
      var st := states[i];
      st.phase == Executing ==> (Possible(st, a) <==>
        match a
        case CallP(s) => s in st.sems
        case CallV(s) => s in st.sems
        case HandlerV(s) => s in st.sems
        case Fork(t) => t !in st.threads
        case NewSem(s, _) => s !in st.sems
        case Yield => true
        case Finish => true
        case Resume => false
        case Dispatch => false)
    ensures
      var st := states[i];
      st.phase.Sleeping? ==> (Possible(st, a) <==>
        (a.HandlerV? && a.sem in st.sems) || (a == Dispatch && st.ready != []))
  {
    RunInv(states, actions, i);
    hide Placed, NoLostWakeup, Counts, CpuOk;
    var st := states[i];
    match a
    case CallP(s) => if s in st.sems { assert st.phase == Executing ==> Next(st, a, TryP(st, s)); }
    case CallV(s) => if s in st.sems { assert st.phase == Executing ==> Next(st, a, DoV(st, s)); }
    case HandlerV(s) => if s in st.sems { assert st.phase != Resuming ==> Next(st, a, DoV(st, s)); }
    case Dispatch => if st.phase.Sleeping? && st.ready != [] { assert Next(st, a, SwitchTo(st, st.phase.finishing)); }
    case Yield =>
      if st.phase == Executing { YieldPossible(st); }
    case Fork(t) =>
      assert st.phase == Executing && t !in st.threads ==>
        Next(st, a, st.(threads := st.threads[t := (Ready, Outside)], ready := st.ready + [t]));
    case Finish =>
      assert st.phase == Executing ==> Next(st, a, SetStatus(st, st.current, Blocked).(phase := Sleeping(true)));
    case NewSem(s, initial) =>
      assert st.phase == Executing && s !in st.sems ==>
        Next(st, a, st.(sems := st.sems[s := Semaphore(initial, [], initial, 0, 0)]));
    case Resume =>
  }

  lemma YieldPossible(st: State)
    requires QueuedAreThreads(st) && st.phase == Executing
    ensures Possible(st, Yield)
  {
    if st.ready == [] {
      assert Next(st, Yield, st);
    } else {
      assert st.ready[0] in st.ready;
      assert Next(st, Yield, SetStatus(ReadyToRun(st.(ready := st.ready[1..]), st.current), st.ready[0], Running).(
        current := st.ready[0], phase := Resuming));
    }
  }
}
