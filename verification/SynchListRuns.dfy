/**
 What runs of the synchronised list owe to their callers (threads/synchlist.cc, synch.cc): which item each call appends
 and returns, whom Signal wakes, and that the monitor never locks up.
 */
module SynchListRuns {
  import opened Options
  import opened SynchLists
  import opened QueueHistory
  import Lists

  // ---------- items are those of the calls ----------

  /** The item of thread t's last call of Append among the first n moves. */
  function LastAsked(moves: seq<(Tid, Action)>, n: nat, t: Tid): Option<Item>
    requires n <= |moves|
  {
    if n == 0 then None
    else if moves[n - 1].0 == t && moves[n - 1].1.StartAppend? then Some(moves[n - 1].1.item)
    else LastAsked(moves, n - 1, t)
  }

  /** A step changes nobody's next action but its own thread's. */
  ghost predicate OnlyMoves(pcs: Pcs, u: Tid, pcs': Pcs, t: Tid)
  {
    t != u ==> (t in pcs' <==> t in pcs) && (t in pcs ==> pcs'[t] == pcs[t])
  }

  lemma LockStepsMove(st: State, u: Tid, a: Action, st': State, t: Tid)
    requires Next(st, u, a, st') && (a.StartAppend? || a.StartRemove? || a.Acquire? || a.Release?)
    ensures OnlyMoves(st.pcs, u, st'.pcs, t)
    ensures u in st'.pcs && HasItem(st'.pcs[u]) ==>
      if a.StartAppend? then st'.pcs[u].item == a.item
      else HasItem(st.pcs[u]) && st.pcs[u].item == st'.pcs[u].item
  {
    hide StepAppend, StepSignal, StepTest, StepP;
  }

  lemma ListStepsMove(st: State, u: Tid, a: Action, st': State, t: Tid)
    requires Next(st, u, a, st') && (a.Append? || a.Signal? || a.Test? || a.P?)
    ensures OnlyMoves(st.pcs, u, st'.pcs, t)
    ensures u in st'.pcs && !HasItem(st'.pcs[u])
  {
    hide StepAcquire, StepRelease;
  }

  lemma CarriesStep(st: State, u: Tid, a: Action, st': State, t: Tid)
    requires Next(st, u, a, st') && t in st'.pcs && HasItem(st'.pcs[t])
    ensures u == t && a.StartAppend? ==> st'.pcs[t].item == a.item
    ensures !(u == t && a.StartAppend?) ==> t in st.pcs && HasItem(st.pcs[t]) && st.pcs[t].item == st'.pcs[t].item
  {
    if a.Append? || a.Signal? || a.Test? || a.P? {
      ListStepsMove(st, u, a, st', t);
    } else {
      LockStepsMove(st, u, a, st', t);
    }
    hide Next, HasItem;
  }

  lemma {:induction false} CarriesItsItem(states: seq<State>, moves: seq<(Tid, Action)>, n: nat, t: Tid)
    requires IsRun(states, moves) && n < |states| && t in states[n].pcs && HasItem(states[n].pcs[t])
    ensures LastAsked(moves, n, t) == Some(states[n].pcs[t].item)
  {
    hide Next, Inv;
    IdleAtFirst(states[0]);
    assert n > 0;
    assert Next(states[n - 1], moves[n - 1].0, moves[n - 1].1, states[n]);
    CarriesStep(states[n - 1], moves[n - 1].0, moves[n - 1].1, states[n], t);
    if !(moves[n - 1].0 == t && moves[n - 1].1.StartAppend?) {
      CarriesItsItem(states, moves, n - 1, t);
    }
  }

  lemma IdleAtFirst(st: State)
    requires Init(st)
    ensures (forall t :: t in st.pcs ==> st.pcs[t] == Idle) && st.waitQueue == [] && st.removed == [] && st.appended == []
  {
  }

  /** An append puts exactly the item of its thread's last call of Append behind the others. */
  lemma AppendsAsked(states: seq<State>, moves: seq<(Tid, Action)>, i: nat)
    requires IsRun(states, moves) && i < |moves| && moves[i].1 == Append
    ensures LastAsked(moves, i, moves[i].0).Some?
    ensures
      var x := LastAsked(moves, i, moves[i].0).value;
      && states[i + 1].appended == states[i].appended + [x] && states[i + 1].list == states[i].list + [x]
      && states[i + 1].removed == states[i].removed
  {
    assert Next(states[i], moves[i].0, Append, states[i + 1]);
    CarriesItsItem(states, moves, i, moves[i].0);
  }

  /** A removal hands its thread exactly the oldest item not yet handed out, and takes it out of the list. */
  lemma ReturnsOldest(states: seq<State>, moves: seq<(Tid, Action)>, i: nat)
    requires IsRun(states, moves) && i < |moves| && moves[i].1.Test? && states[i].list != []
    ensures
      var st, st', t := states[i], states[i + 1], moves[i].0;
      && |st.removed| < |st.appended| && t in st'.pcs
      && var x := st.appended[|st.removed|];
      st'.pcs[t] == RemoveRelease(x) && st'.removed == st.removed + [x] && st'.list == st.list[1..]
      && st'.appended == st.appended
  {
    RunInv(states, moves, i);
    assert Next(states[i], moves[i].0, moves[i].1, states[i + 1]);
  }

  /** Nothing but an append and a removal touches the list and its history. */
  lemma OthersLeaveList(states: seq<State>, moves: seq<(Tid, Action)>, i: nat)
    requires IsRun(states, moves) && i < |moves| && moves[i].1 != Append && !(moves[i].1.Test? && states[i].list != [])
    ensures states[i + 1].list == states[i].list && states[i + 1].appended == states[i].appended
    ensures states[i + 1].removed == states[i].removed
  {
    assert Next(states[i], moves[i].0, moves[i].1, states[i + 1]);
  }

  // ---------- whom Signal wakes ----------

  ghost function Queued(states: seq<State>, n: nat): seq<Waiter>
    requires n < |states|
  {
    if n == 0 then [] else Queued(states, n - 1) + Minus(states[n].waitQueue, states[n - 1].waitQueue)
  }

  ghost function SignalledSoFar(states: seq<State>, n: nat): seq<Waiter>
    requires n < |states|
  {
    if n == 0 then [] else SignalledSoFar(states, n - 1) + Minus(states[n - 1].waitQueue, states[n].waitQueue)
  }

  lemma WaitQueueStep(st: State, t: Tid, a: Action, st': State)
    requires Inv(st) && Next(st, t, a, st')
    ensures ListStep(st.waitQueue, st'.waitQueue)
    ensures a != Signal && !a.Test? ==> st'.waitQueue == st.waitQueue
    ensures a == Signal && st.waitQueue != [] ==> st'.waitQueue == st.waitQueue[1..]
  {
    hide Exclusion, AppendedOnce, NoLostWakeup;
    var q := st.waitQueue;
    if q != [] { assert q == [q[0]] + q[1..]; }
    if a.Test? && st.list == [] {
      var w := a.newWaiter;
      forall x | x in q
        ensures x != w
      {
        assert QueuedOk(st.pcs, st.owner, x);
      }
    }
  }

  /** Consumers are signalled in the order in which they began to wait: the first ones so far, the queue holds the rest. */
  lemma {:induction false} FirstWaitingFirstSignalled(states: seq<State>, moves: seq<(Tid, Action)>, n: nat)
    requires IsRun(states, moves) && n < |states|
    ensures Queued(states, n) == SignalledSoFar(states, n) + states[n].waitQueue
  {
    hide Next, Inv, ListStep;
    if n == 0 {
      IdleAtFirst(states[0]);
    } else {
      FirstWaitingFirstSignalled(states, moves, n - 1);
      RunInv(states, moves, n - 1);
      WaitQueueStep(states[n - 1], moves[n - 1].0, moves[n - 1].1, states[n]);
      Shift(Queued(states, n - 1), SignalledSoFar(states, n - 1), states[n - 1].waitQueue, states[n].waitQueue);
    }
  }

  // ---------- the monitor never locks up ----------

  /** Thread t can go on with the call that it is in. */
  ghost predicate CanGoOn(st: State, t: Tid)
  {
    exists a: Action, st' :: !a.StartAppend? && a != StartRemove && Next(st, t, a, st')
  }

  /** An idle thread can call Append with any new item, and RemoveFront, at any time. */
  lemma CallsArePossible(st: State, t: Tid, x: Item)
    requires t in st.pcs && st.pcs[t] == Idle
    ensures x !in st.maker ==> exists st' :: Next(st, t, StartAppend(x), st') && st'.pcs[t] == AppendAcquire(x)
    ensures exists st' :: Next(st, t, StartRemove, st') && st'.pcs[t] == RemoveAcquire
  {
    if x !in st.maker {
      assert Next(st, t, StartAppend(x), Goto(st, t, AppendAcquire(x)).(maker := st.maker[x := t]));
    }
    assert Next(st, t, StartRemove, Goto(st, t, RemoveAcquire));
  }

  lemma HolderGoesOn(st: State, t: Tid)
    requires Inv(st) && st.lockHolder == Some(t)
    ensures CanGoOn(st, t)
  {
    hide AppendedOnce, NoLostWakeup;
    assert t in st.pcs && st.pcs[t].HoldsLock();
    match st.pcs[t]
    case AppendItem(x) =>
      assert Next(st, t, Append, Goto(st, t, AppendSignal).(list := st.list + [x], appended := st.appended + [x]));
    case AppendSignal =>
      SignalPossible(st, t);
    case AppendRelease =>
      assert Next(st, t, Release, Goto(st, t, Idle).(lockHolder := None));
    case RemoveTest(_) =>
      TestPossible(st, t);
    case WaitRelease(w) =>
      assert Next(st, t, Release, Goto(st, t, WaitP(w)).(lockHolder := None));
    case RemoveRelease(_) =>
      assert Next(st, t, Release, Goto(st, t, Idle).(lockHolder := None));
  }

  lemma SignalPossible(st: State, t: Tid)
    requires Inv(st) && t in st.pcs && st.pcs[t] == AppendSignal
    ensures CanGoOn(st, t)
  {
    if st.waitQueue == [] {
      assert Next(st, t, Signal, Goto(st, t, AppendRelease));
    } else {
      var w := st.waitQueue[0];
      assert QueuedOk(st.pcs, st.owner, w);
      assert Next(st, t, Signal,
        Goto(st, t, AppendRelease).(waitQueue := st.waitQueue[1..], value := st.value[w := st.value[w] + 1]));
    }
  }

  /** A semaphore that was not there before. */
  lemma {:induction false} FreshWaiter(used: set<Waiter>) returns (w: Waiter)
    ensures w !in used
    decreases |used|
  {
    if used == {} {
      w := 0;
    } else {
      var m := Largest(used);
      w := m + 1;
    }
  }

  lemma {:induction false} Largest(s: set<Waiter>) returns (m: Waiter)
    requires s != {}
    ensures m in s && forall x :: x in s ==> x <= m
    decreases |s|
  {
    var x :| x in s;
    var rest := s - {x};
    assert s == rest + {x};
    if rest == {} {
      m := x;
    } else {
      var n := Largest(rest);
      m := if x > n then x else n;
    }
  }

  lemma TestPossible(st: State, t: Tid)
    requires t in st.pcs && st.pcs[t].RemoveTest?
    ensures CanGoOn(st, t)
  {
    var w := FreshWaiter(st.value.Keys);
    if st.list == [] {
      assert Next(st, t, Test(w), Goto(st, t, WaitRelease(w)).(
        waitQueue := st.waitQueue + [w], value := st.value[w := 0], owner := st.owner[w := t]));
    } else {
      assert Next(st, t, Test(w),
        Goto(st, t, RemoveRelease(st.list[0])).(list := st.list[1..], removed := st.removed + [st.list[0]]));
    }
  }

  /** A thread that wants the lock gets it whenever it is free. */
  lemma AcquirePossible(st: State, t: Tid)
    requires t in st.pcs && st.lockHolder == None
    requires st.pcs[t].AppendAcquire? || st.pcs[t] == RemoveAcquire || st.pcs[t] == WaitAcquire
    ensures CanGoOn(st, t)
  {
    match st.pcs[t]
    case AppendAcquire(x) => assert Next(st, t, Acquire, Goto(st, t, AppendItem(x)).(lockHolder := Some(t)));
    case RemoveAcquire => assert Next(st, t, Acquire, Goto(st, t, RemoveTest(false)).(lockHolder := Some(t)));
    case WaitAcquire => assert Next(st, t, Acquire, Goto(st, t, RemoveTest(true)).(lockHolder := Some(t)));
  }

  /** A waiting consumer goes on exactly if it was signalled. */
  lemma WaiterGoesOn(st: State, t: Tid)
    requires Inv(st) && t in st.pcs && st.pcs[t].WaitP?
    ensures CanGoOn(st, t) <==> st.pcs[t].own !in st.waitQueue
  {
    var w := st.pcs[t].own;
    assert WaitingOk(st.pcs[t], t, st.waitQueue, st.value, st.owner);
    if w !in st.waitQueue {
      assert Next(st, t, P, Goto(st, t, WaitAcquire).(value := st.value[w := st.value[w] - 1]));
    }
  }

  /**
   If no call can go on, then every thread is idle or a consumer that nobody has signalled, and if there is such a
   consumer the list is empty. So the monitor is never stuck with work to do.
   */
  lemma NeverStuck(states: seq<State>, moves: seq<(Tid, Action)>, i: nat)
    requires IsRun(states, moves) && i < |states|
    requires forall t :: t in states[i].pcs ==> !CanGoOn(states[i], t)
    ensures states[i].lockHolder == None
    ensures forall t :: t in states[i].pcs ==>
      states[i].pcs[t] == Idle ||
      (states[i].pcs[t].WaitP? && states[i].pcs[t].own in states[i].waitQueue && states[i].list == [])
  {
    var st := states[i];
    RunInv(states, moves, i);
    hide CanGoOn;
    if st.lockHolder.Some? { HolderGoesOn(st, st.lockHolder.value); }
    assert st.lockHolder == None;
    forall t | t in st.pcs
      ensures st.pcs[t] == Idle || (st.pcs[t].WaitP? && st.pcs[t].own in st.waitQueue)
    {
      assert !st.pcs[t].HoldsLock();
      if st.pcs[t].WaitP? {
        WaiterGoesOn(st, t);
      } else if st.pcs[t] != Idle {
        AcquirePossible(st, t);
      }
    }
    if st.waitQueue != [] {
      assert SignalledThreads(st.pcs, st.waitQueue) == {};
    }
  }
}
