/**
 The synchronised list (threads/synchlist.cc): a Mesa monitor made of a lock and a condition variable
 (threads/synch.cc). Any number of threads append and remove; between any two of the steps below the CPU may go to
 another thread.

 A semaphore operation is one step, enabled when it can complete; lemma SemaphoresAreAtomic in module Semaphores justifies this.
 */
module SynchLists {
  import opened Options
  import Lists

  type Tid(==, !new) = nat
  type Item(==, !new) = nat
  /** A semaphore that Condition::Wait made for one wait. */
  type Waiter(==, !new) = nat

  /** The next thing a thread does. */
  datatype Pc =
    | Idle
    | AppendAcquire(item: Item)   // Append: lock->Acquire()
    | AppendItem(item: Item)      //         list->Append(item)
    | AppendSignal                //         listEmpty->Signal(lock)
    | AppendRelease               //         lock->Release()
    | RemoveAcquire               // RemoveFront: lock->Acquire()
    | RemoveTest(again: bool)     //         while (list->IsEmpty()); again after a wait
    | WaitRelease(own: Waiter)    // Wait:   conditionLock->Release(), own semaphore queued
    | WaitP(own: Waiter)          //         waiter->P()
    | WaitAcquire                 //         conditionLock->Acquire()
    | RemoveRelease(item: Item)   //         lock->Release()
  {
    predicate HoldsLock()
    {
      AppendItem? || AppendSignal? || AppendRelease? || RemoveTest? || WaitRelease? || RemoveRelease?
    }

    predicate HasWaiter()
    {
      WaitRelease? || WaitP?
    }
  }

  datatype State = State(
    list: seq<Item>,
    lockHolder: Option<Tid>,      // the lock's semaphore stands at 0 exactly when there is a holder
    waitQueue: seq<Waiter>,
    value: map<Waiter, nat>,
    pcs: Pcs,
    owner: map<Waiter, Tid>,      // history: which thread made each semaphore
    maker: map<Item, Tid>,        // history: which thread appends each item
    appended: seq<Item>,          // history: items in the order list->Append took them
    removed: seq<Item>)           // history: items in the order list->RemoveFront gave them

  type Pcs = map<Tid, Pc>

  /** t was signalled and has not tested the list since. */
  predicate Signalled(pcs: Pcs, waitQueue: seq<Waiter>, t: Tid)
  {
    t in pcs && (pcs[t] == WaitAcquire || pcs[t] == RemoveTest(true) || (pcs[t].WaitP? && pcs[t].own !in waitQueue))
  }

  ghost function SignalledThreads(pcs: Pcs, waitQueue: seq<Waiter>): set<Tid>
  {
    set t | t in pcs && Signalled(pcs, waitQueue, t)
  }

  /** The append that has put its item in the list and not signalled yet; the lock makes it at most one. */
  function Pending(pcs: Pcs, lockHolder: Option<Tid>): nat
  {
    if lockHolder.Some? && lockHolder.value in pcs && pcs[lockHolder.value] == AppendSignal then 1 else 0
  }

  datatype Action =
    | StartAppend(item: Item) | StartRemove
    | Acquire | Append | Signal | Release | Test(newWaiter: Waiter) | P

  ghost predicate Init(st: State)
  {
    && st.list == [] && st.lockHolder == None && st.waitQueue == [] && st.value == map[]
    && st.owner == map[] && st.maker == map[]
    && st.appended == [] && st.removed == []
    && forall t :: t in st.pcs ==> st.pcs[t] == Idle
  }

  function Goto(st: State, t: Tid, pc: Pc): State
  {
    st.(pcs := st.pcs[t := pc])
  }

  ghost predicate StepAcquire(st: State, t: Tid, st': State)
    requires t in st.pcs
  {
    st.lockHolder == None &&
    match st.pcs[t]
    case AppendAcquire(item) => st' == Goto(st, t, AppendItem(item)).(lockHolder := Some(t))
    case RemoveAcquire => st' == Goto(st, t, RemoveTest(false)).(lockHolder := Some(t))
    case WaitAcquire => st' == Goto(st, t, RemoveTest(true)).(lockHolder := Some(t))
    case _ => false
  }

  ghost predicate StepAppend(st: State, t: Tid, st': State)
    requires t in st.pcs
  {
    st.pcs[t].AppendItem? &&
    var item := st.pcs[t].item;
    st' == Goto(st, t, AppendSignal).(list := st.list + [item], appended := st.appended + [item])
  }

  ghost predicate StepSignal(st: State, t: Tid, st': State)
    requires t in st.pcs
  {
    st.pcs[t] == AppendSignal &&
    if st.waitQueue == [] then st' == Goto(st, t, AppendRelease)
    else
      var w := st.waitQueue[0];
      w in st.value &&
      st' == Goto(st, t, AppendRelease).(waitQueue := st.waitQueue[1..], value := st.value[w := st.value[w] + 1])
  }

  ghost predicate StepRelease(st: State, t: Tid, st': State)
    requires t in st.pcs
  {
    match st.pcs[t]
    case AppendRelease => st' == Goto(st, t, Idle).(lockHolder := None)
    case RemoveRelease(_) => st' == Goto(st, t, Idle).(lockHolder := None)
    case WaitRelease(w) => st' == Goto(st, t, WaitP(w)).(lockHolder := None)
    case _ => false
  }

  /** The loop test of RemoveFront: wait on a new semaphore, or take the front. */
  ghost predicate StepTest(st: State, t: Tid, w: Waiter, st': State)
    requires t in st.pcs
  {
    st.pcs[t].RemoveTest? &&
    if st.list == [] then
      w !in st.value &&
      st' == Goto(st, t, WaitRelease(w)).(
        waitQueue := st.waitQueue + [w], value := st.value[w := 0], owner := st.owner[w := t])
    else
      st' == Goto(st, t, RemoveRelease(st.list[0])).(list := st.list[1..], removed := st.removed + [st.list[0]])
  }

  ghost predicate StepP(st: State, t: Tid, st': State)
    requires t in st.pcs
  {
    st.pcs[t].WaitP? &&
    var w := st.pcs[t].own;
    w in st.value && st.value[w] > 0 && st' == Goto(st, t, WaitAcquire).(value := st.value[w := st.value[w] - 1])
  }

  /** Thread t does action a. */
  ghost predicate Next(st: State, t: Tid, a: Action, st': State)
  {
    t in st.pcs &&
    match a
    case StartAppend(item) =>
      st.pcs[t] == Idle && item !in st.maker && st' == Goto(st, t, AppendAcquire(item)).(maker := st.maker[item := t])
    case StartRemove => st.pcs[t] == Idle && st' == Goto(st, t, RemoveAcquire)
    case Acquire => StepAcquire(st, t, st')
    case Append => StepAppend(st, t, st')
    case Signal => StepSignal(st, t, st')
    case Release => StepRelease(st, t, st')
    case Test(w) => StepTest(st, t, w, st')
    case P => StepP(st, t, st')
  }

  // ---------- the invariant ----------

  /** Exactly the lock holder is inside the monitor. */
  ghost predicate Exclusion(pcs: Pcs, lockHolder: Option<Tid>)
  {
    && (forall t :: t in pcs ==> (pcs[t].HoldsLock() <==> lockHolder == Some(t)))
    && (lockHolder.Some? ==> lockHolder.value in pcs)
  }

  /** A queued semaphore's maker is still waiting on it. */
  ghost predicate QueuedOk(pcs: Pcs, owner: map<Waiter, Tid>, w: Waiter)
  {
    w in owner && owner[w] in pcs && pcs[owner[w]].HasWaiter() && pcs[owner[w]].own == w
  }

  /** A waiting thread's semaphore stands at 0 while queued, at 1 once signalled. */
  ghost predicate WaitingOk(pc: Pc, t: Tid, waitQueue: seq<Waiter>, value: map<Waiter, nat>, owner: map<Waiter, Tid>)
  {
    pc.HasWaiter() ==>
      && pc.own in value && value[pc.own] == (if pc.own in waitQueue then 0 else 1)
      && pc.own in owner && owner[pc.own] == t
      && (pc.WaitRelease? ==> pc.own in waitQueue)
  }

  ghost predicate Waiters(pcs: Pcs, waitQueue: seq<Waiter>, value: map<Waiter, nat>, owner: map<Waiter, Tid>)
  {
    && Lists.Distinct(waitQueue) && owner.Keys == value.Keys
    && (forall w :: w in waitQueue ==> QueuedOk(pcs, owner, w))
    && (forall t :: t in pcs ==> WaitingOk(pcs[t], t, waitQueue, value, owner))
  }

  predicate HasItem(pc: Pc)
  {
    pc.AppendAcquire? || pc.AppendItem?
  }

  /** Items are appended once; pending ones are not in the list yet. */
  ghost predicate AppendedOnce(pcs: Pcs, appended: seq<Item>, maker: map<Item, Tid>)
  {
    && Lists.Distinct(appended)
    && (forall x :: x in appended ==> x in maker)
    && (forall t :: t in pcs && HasItem(pcs[t]) ==>
          pcs[t].item !in appended && pcs[t].item in maker && maker[pcs[t].item] == t)
  }

  /** While consumers are queued, every item in the list is covered by a signalled consumer or a signal about to be sent. */
  ghost predicate NoLostWakeup(pcs: Pcs, lockHolder: Option<Tid>, waitQueue: seq<Waiter>, items: nat)
  {
    waitQueue != [] ==> items <= |SignalledThreads(pcs, waitQueue)| + Pending(pcs, lockHolder)
  }

  ghost predicate Inv(st: State)
  {
    && st.appended == st.removed + st.list
    && Exclusion(st.pcs, st.lockHolder)
    && Waiters(st.pcs, st.waitQueue, st.value, st.owner)
    && AppendedOnce(st.pcs, st.appended, st.maker)
    && NoLostWakeup(st.pcs, st.lockHolder, st.waitQueue, |st.list|)
  }

  // ---------- each part of the invariant under one thread's move ----------

  lemma ExclusionMove(pcs: Pcs, holder: Option<Tid>, t: Tid, pc: Pc, holder': Option<Tid>)
    requires Exclusion(pcs, holder) && t in pcs && (pc.HoldsLock() <==> holder' == Some(t))
    requires holder' == holder || (holder == None && holder' == Some(t)) || (holder == Some(t) && holder' == None)
    ensures Exclusion(pcs[t := pc], holder')
  {
  }

  lemma WaitersMove(pcs: Pcs, waitQueue: seq<Waiter>, value: map<Waiter, nat>, owner: map<Waiter, Tid>, t: Tid, pc: Pc)
    requires Waiters(pcs, waitQueue, value, owner) && t in pcs
    requires (!pcs[t].HasWaiter() && !pc.HasWaiter()) || (pcs[t].WaitRelease? && pc == WaitP(pcs[t].own))
    ensures Waiters(pcs[t := pc], waitQueue, value, owner)
  {
    var pcs' := pcs[t := pc];
    assert WaitingOk(pcs[t], t, waitQueue, value, owner);
    forall w | w in waitQueue
      ensures QueuedOk(pcs', owner, w)
    {
      assert QueuedOk(pcs, owner, w);
    }
  }

  lemma AppendedOnceMove(pcs: Pcs, appended: seq<Item>, maker: map<Item, Tid>, t: Tid, pc: Pc)
    requires AppendedOnce(pcs, appended, maker) && t in pcs
    requires HasItem(pc) ==> HasItem(pcs[t]) && pc.item == pcs[t].item
    ensures AppendedOnce(pcs[t := pc], appended, maker)
  {
  }

  lemma SignalledMove(pcs: Pcs, waitQueue: seq<Waiter>, t: Tid, pc: Pc)
    requires t in pcs
    ensures
      var pcs' := pcs[t := pc];
      |SignalledThreads(pcs', waitQueue)| == |SignalledThreads(pcs, waitQueue)|
        + (if Signalled(pcs', waitQueue, t) then 1 else 0) - (if Signalled(pcs, waitQueue, t) then 1 else 0)
  {
    var before, after := SignalledThreads(pcs, waitQueue), SignalledThreads(pcs[t := pc], waitQueue);
    if Signalled(pcs[t := pc], waitQueue, t) {
      assert after == before + {t};
    } else {
      assert after == before - {t};
    }
  }

  // ---------- every step keeps the invariant ----------

  lemma InitInv(st: State)
    requires Init(st)
    ensures Inv(st)
  {
  }

  lemma StartKeepsInv(st: State, t: Tid, a: Action, st': State)
    requires Inv(st) && Next(st, t, a, st') && (a.StartAppend? || a.StartRemove?)
    ensures Inv(st')
  {
    var pc := st'.pcs[t];
    ExclusionMove(st.pcs, st.lockHolder, t, pc, st.lockHolder);
    WaitersMove(st.pcs, st.waitQueue, st.value, st.owner, t, pc);
    SignalledMove(st.pcs, st.waitQueue, t, pc);
  }

  lemma AcquireKeepsInv(st: State, t: Tid, st': State)
    requires Inv(st) && t in st.pcs && StepAcquire(st, t, st')
    ensures Inv(st')
  {
    var pc := st'.pcs[t];
    ExclusionMove(st.pcs, st.lockHolder, t, pc, Some(t));
    WaitersMove(st.pcs, st.waitQueue, st.value, st.owner, t, pc);
    AppendedOnceMove(st.pcs, st.appended, st.maker, t, pc);
    SignalledMove(st.pcs, st.waitQueue, t, pc);
  }

  lemma AppendKeepsInv(st: State, t: Tid, st': State)
    requires Inv(st) && t in st.pcs && StepAppend(st, t, st')
    ensures st.pcs[t].item !in st.list && Inv(st')
  {
    var pc := st'.pcs[t];
    assert forall x :: x in st.list ==> x in st.appended;
    ExclusionMove(st.pcs, st.lockHolder, t, pc, st.lockHolder);
    WaitersMove(st.pcs, st.waitQueue, st.value, st.owner, t, pc);
    SignalledMove(st.pcs, st.waitQueue, t, pc);
  }

  lemma ReleaseKeepsInv(st: State, t: Tid, st': State)
    requires Inv(st) && t in st.pcs && StepRelease(st, t, st')
    ensures Inv(st')
  {
    var pc := st'.pcs[t];
    ExclusionMove(st.pcs, st.lockHolder, t, pc, None);
    WaitersMove(st.pcs, st.waitQueue, st.value, st.owner, t, pc);
    AppendedOnceMove(st.pcs, st.appended, st.maker, t, pc);
    SignalledMove(st.pcs, st.waitQueue, t, pc);
    assert WaitingOk(st.pcs[t], t, st.waitQueue, st.value, st.owner);
  }

  /** Taking the first semaphore off the queue and posting it turns its owner into a signalled thread. */
  lemma WaitersSignal(pcs: Pcs, waitQueue: seq<Waiter>, value: map<Waiter, nat>, owner: map<Waiter, Tid>)
    requires Waiters(pcs, waitQueue, value, owner) && waitQueue != []
    requires QueuedOk(pcs, owner, waitQueue[0]) && pcs[owner[waitQueue[0]]].WaitP?
    ensures
      var w := waitQueue[0];
      && w in value && Waiters(pcs, waitQueue[1..], value[w := value[w] + 1], owner)
      && |SignalledThreads(pcs, waitQueue[1..])| == |SignalledThreads(pcs, waitQueue)| + 1
  {
    var w, rest := waitQueue[0], waitQueue[1..];
    assert waitQueue == [w] + rest;
    assert w !in rest;
    assert QueuedOk(pcs, owner, w);
    var u := owner[w];
    forall t | t in pcs
      ensures WaitingOk(pcs[t], t, rest, value[w := value[w] + 1], owner)
      ensures Signalled(pcs, rest, t) <==> Signalled(pcs, waitQueue, t) || t == u
    {
      assert WaitingOk(pcs[t], t, waitQueue, value, owner);
    }
    assert SignalledThreads(pcs, rest) == SignalledThreads(pcs, waitQueue) + {u};
  }

  lemma SignalKeepsInv(st: State, t: Tid, st': State)
    requires Inv(st) && t in st.pcs && StepSignal(st, t, st')
    ensures Inv(st')
  {
    var pc := AppendRelease;
    ExclusionMove(st.pcs, st.lockHolder, t, pc, st.lockHolder);
    WaitersMove(st.pcs, st.waitQueue, st.value, st.owner, t, pc);
    AppendedOnceMove(st.pcs, st.appended, st.maker, t, pc);
    SignalledMove(st.pcs, st.waitQueue, t, pc);
    if st.waitQueue != [] {
      assert QueuedOk(st.pcs, st.owner, st.waitQueue[0]);
      WaitersSignal(st.pcs[t := pc], st.waitQueue, st.value, st.owner);
    }
  }

  /** A consumer that found the list empty joins the queue with a new semaphore. */
  lemma WaitersJoin(pcs: Pcs, waitQueue: seq<Waiter>, value: map<Waiter, nat>, owner: map<Waiter, Tid>, t: Tid, w: Waiter)
    requires Waiters(pcs, waitQueue, value, owner) && t in pcs && !pcs[t].HasWaiter() && w !in value
    ensures Waiters(pcs[t := WaitRelease(w)], waitQueue + [w], value[w := 0], owner[w := t])
  {
    var pcs' := pcs[t := WaitRelease(w)];
    assert forall x :: x in waitQueue ==> QueuedOk(pcs, owner, x) && x != w;
    Lists.DistinctAppend(waitQueue, w);
    assert owner[w := t].Keys == owner.Keys + {w} && value[w := 0].Keys == value.Keys + {w};
    assert QueuedOk(pcs', owner[w := t], w);
    forall x | x in waitQueue
      ensures QueuedOk(pcs', owner[w := t], x)
    {
      assert QueuedOk(pcs, owner, x);
    }
    forall u | u in pcs'
      ensures WaitingOk(pcs'[u], u, waitQueue + [w], value[w := 0], owner[w := t])
    {
      assert WaitingOk(pcs[u], u, waitQueue, value, owner);
    }
  }

  lemma TestKeepsInv(st: State, t: Tid, w: Waiter, st': State)
    requires Inv(st) && t in st.pcs && StepTest(st, t, w, st')
    ensures Inv(st')
  {
    var pc := st'.pcs[t];
    ExclusionMove(st.pcs, st.lockHolder, t, pc, st.lockHolder);
    AppendedOnceMove(st.pcs, st.appended, st.maker, t, pc);
    if st.list == [] {
      WaitersJoin(st.pcs, st.waitQueue, st.value, st.owner, t, w);
    } else {
      WaitersMove(st.pcs, st.waitQueue, st.value, st.owner, t, pc);
      SignalledMove(st.pcs, st.waitQueue, t, pc);
      assert st.list == [st.list[0]] + st.list[1..];
    }
  }

  lemma WaitersP(pcs: Pcs, waitQueue: seq<Waiter>, value: map<Waiter, nat>, owner: map<Waiter, Tid>, t: Tid)
    requires Waiters(pcs, waitQueue, value, owner) && t in pcs && pcs[t].WaitP? && pcs[t].own in value && value[pcs[t].own] > 0
    ensures pcs[t].own !in waitQueue
    ensures Waiters(pcs[t := WaitAcquire], waitQueue, value[pcs[t].own := value[pcs[t].own] - 1], owner)
  {
    var w, pcs' := pcs[t].own, pcs[t := WaitAcquire];
    assert WaitingOk(pcs[t], t, waitQueue, value, owner);
    forall x | x in waitQueue
      ensures QueuedOk(pcs', owner, x)
    {
      assert QueuedOk(pcs, owner, x);
    }
    forall u | u in pcs'
      ensures WaitingOk(pcs'[u], u, waitQueue, value[w := value[w] - 1], owner)
    {
      assert WaitingOk(pcs[u], u, waitQueue, value, owner);
    }
  }

  lemma PKeepsInv(st: State, t: Tid, st': State)
    requires Inv(st) && t in st.pcs && StepP(st, t, st')
    ensures Inv(st')
  {
    ExclusionMove(st.pcs, st.lockHolder, t, WaitAcquire, st.lockHolder);
    AppendedOnceMove(st.pcs, st.appended, st.maker, t, WaitAcquire);
    WaitersP(st.pcs, st.waitQueue, st.value, st.owner, t);
    SignalledMove(st.pcs, st.waitQueue, t, WaitAcquire);
  }

  lemma NextKeepsInv(st: State, t: Tid, a: Action, st': State)
    requires Inv(st) && Next(st, t, a, st')
    ensures Inv(st')
  {
    match a
    case StartAppend(_) => StartKeepsInv(st, t, a, st');
    case StartRemove => StartKeepsInv(st, t, a, st');
    case Acquire => AcquireKeepsInv(st, t, st');
    case Append => AppendKeepsInv(st, t, st');
    case Signal => SignalKeepsInv(st, t, st');
    case Release => ReleaseKeepsInv(st, t, st');
    case Test(w) => TestKeepsInv(st, t, w, st');
    case P => PKeepsInv(st, t, st');
  }

  // ---------- what holds in every interleaving ----------

  ghost predicate IsRun(states: seq<State>, moves: seq<(Tid, Action)>)
  {
    && |states| == |moves| + 1 && Init(states[0])
    && forall i :: 0 <= i < |moves| ==> Next(states[i], moves[i].0, moves[i].1, states[i + 1])
  }

  lemma {:induction false} RunInv(states: seq<State>, moves: seq<(Tid, Action)>, i: nat)
    requires IsRun(states, moves) && i < |states|
    ensures Inv(states[i])
  {
    if i == 0 {
      InitInv(states[0]);
    } else {
      RunInv(states, moves, i - 1);
      NextKeepsInv(states[i - 1], moves[i - 1].0, moves[i - 1].1, states[i]);
    }
  }

  /** Items come out exactly in the order in which they went in: none lost, none twice, none made up. */
  lemma RemovedIsPrefix(states: seq<State>, moves: seq<(Tid, Action)>, i: nat)
    requires IsRun(states, moves) && i < |states|
    ensures states[i].removed <= states[i].appended
    ensures states[i].list == states[i].appended[|states[i].removed|..]
    ensures Lists.Distinct(states[i].appended)
  {
    RunInv(states, moves, i);
  }

  /** At most one thread is between Acquire and Release. */
  lemma MutualExclusion(states: seq<State>, moves: seq<(Tid, Action)>, i: nat, t: Tid, u: Tid)
    requires IsRun(states, moves) && i < |states| && t in states[i].pcs && u in states[i].pcs
    requires states[i].pcs[t].HoldsLock() && states[i].pcs[u].HoldsLock()
    ensures t == u
  {
    RunInv(states, moves, i);
  }

  /** No lost wakeup: an item never sits in the list while consumers sleep and nobody is on the way to it. */
  lemma NoItemLeftBehind(states: seq<State>, moves: seq<(Tid, Action)>, i: nat)
    requires IsRun(states, moves) && i < |states| && states[i].waitQueue != []
    ensures
      var st := states[i];
      |st.list| <= |SignalledThreads(st.pcs, st.waitQueue)| + Pending(st.pcs, st.lockHolder)
    ensures
      var st := states[i];
      (forall t :: t in st.pcs ==> !Signalled(st.pcs, st.waitQueue, t) && st.pcs[t] != AppendSignal) ==> st.list == []
  {
    RunInv(states, moves, i);
    var st := states[i];
    if forall t :: t in st.pcs ==> !Signalled(st.pcs, st.waitQueue, t) && st.pcs[t] != AppendSignal {
      assert SignalledThreads(st.pcs, st.waitQueue) == {};
    }
  }

  /** List::Append's assertion: the item to be appended is not in the list. */
  lemma AppendNeverFails(states: seq<State>, moves: seq<(Tid, Action)>, i: nat)
    requires IsRun(states, moves) && i < |moves| && moves[i].1 == Append
    ensures moves[i].0 in states[i].pcs && states[i].pcs[moves[i].0].AppendItem?
    ensures states[i].pcs[moves[i].0].item !in states[i].list
  {
    RunInv(states, moves, i);
    AppendKeepsInv(states[i], moves[i].0, states[i + 1]);
  }

  /** A semaphore posted by Signal is never lost: its waiter's P can complete. */
  lemma SignalReachesWaiter(states: seq<State>, moves: seq<(Tid, Action)>, i: nat, t: Tid)
    requires IsRun(states, moves) && i < |states| && t in states[i].pcs && states[i].pcs[t].WaitP?
    ensures
      var st := states[i];
      st.pcs[t].own !in st.waitQueue <==> st.pcs[t].own in st.value && st.value[st.pcs[t].own] > 0
  {
    RunInv(states, moves, i);
    assert WaitingOk(states[i].pcs[t], t, states[i].waitQueue, states[i].value, states[i].owner);
  }
}
