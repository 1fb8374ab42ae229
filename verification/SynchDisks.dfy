/**
 The synchronous disk (filesys/synchdisk.cc) over the raw disk (machine/disk.cc): any number of threads issue
 requests, the disk answers each with one interrupt. Between any two steps the CPU may go to another thread.

 A semaphore operation is one step, enabled when it can complete; lemma SemaphoresAreAtomic in module Semaphores justifies this.
 */
module SynchDisks {
  import opened Options

  type Tid(==, !new) = nat
  type SectorNumber(==, !new) = nat
  /** The contents of one sector. */
  type Data(==, !new) = seq<int>

  datatype Request = Read(sector: SectorNumber) | Write(sector: SectorNumber, data: Data)

  /** One finished turn on the disk: the request, and the bytes that moved. */
  datatype Entry = Entry(request: Request, data: Data)

  /** The next thing a thread does in ReadSector or WriteSector; entry is its place in the log. */
  datatype Pc =
    | Idle
    | Acquire(request: Request)                        // lock->Acquire()
    | Issue(request: Request)                          // disk->ReadRequest / WriteRequest
    | AwaitInterrupt(request: Request, entry: nat, buffer: Data)   // semaphore->P()
    | Release(request: Request, entry: nat, buffer: Data)          // lock->Release()
  {
    predicate HoldsLock()
    {
      Issue? || AwaitInterrupt? || Release?
    }
  }

  type Disk = map<SectorNumber, Data>

  datatype State = State(
    lockHolder: Option<Tid>,
    semaphore: nat,                // starts at 0
    active: bool,                  // Disk::active; a disk interrupt is pending exactly when it is set
    disk: Disk,
    pcs: map<Tid, Pc>,
    initialDisk: Disk,             // history: the disk at the start
    log: seq<Entry>)               // history: requests in lock order

  datatype Action = Start(request: Request) | AcquireLock | IssueRequest | P | ReleaseLock | Interrupt

  ghost predicate Init(st: State)
  {
    && st.lockHolder == None && st.semaphore == 0 && !st.active
    && st.disk == st.initialDisk && st.log == []
    && forall t :: t in st.pcs ==> st.pcs[t] == Idle
  }

  function Goto(st: State, t: Tid, pc: Pc): State
  {
    st.(pcs := st.pcs[t := pc])
  }

  /** What the disk does with a request the moment it is issued. */
  function Moved(d: Disk, r: Request): Data
    requires r.Read? ==> r.sector in d
  {
    if r.Read? then d[r.sector] else r.data
  }

  function Effect(d: Disk, r: Request): Disk
  {
    if r.Read? then d else d[r.sector := r.data]
  }

  /** Thread t acts; for Interrupt, t is the thread that happens to be interrupted. */
  ghost predicate Next(st: State, t: Tid, a: Action, st': State)
  {
    t in st.pcs &&
    match a
    case Start(r) => st.pcs[t] == Idle && r.sector in st.disk && st' == Goto(st, t, Acquire(r))
    case AcquireLock =>
      st.pcs[t].Acquire? && st.lockHolder == None && st' == Goto(st, t, Issue(st.pcs[t].request)).(lockHolder := Some(t))
    case IssueRequest =>
      st.pcs[t].Issue? && st.pcs[t].request.sector in st.disk &&
      var r := st.pcs[t].request;
      var data := Moved(st.disk, r);
      st' == Goto(st, t, AwaitInterrupt(r, |st.log|, data)).(
        active := true, disk := Effect(st.disk, r), log := st.log + [Entry(r, data)])
    case P =>
      st.pcs[t].AwaitInterrupt? && st.semaphore > 0 &&
      var pc := st.pcs[t];
      st' == Goto(st, t, Release(pc.request, pc.entry, pc.buffer)).(semaphore := st.semaphore - 1)
    case ReleaseLock =>
      st.pcs[t].Release? && st' == Goto(st, t, Idle).(lockHolder := None)
    case Interrupt =>
      st.active && st' == st.(active := false, semaphore := st.semaphore + 1)
  }

  // ---------- the invariant ----------

  ghost predicate Exclusion(pcs: map<Tid, Pc>, lockHolder: Option<Tid>)
  {
    && (forall t :: t in pcs ==> (pcs[t].HoldsLock() <==> lockHolder == Some(t)))
    && (lockHolder.Some? ==> lockHolder.value in pcs)
  }

  /** The disk works only for a holder in P, and the one interrupt is either pending or counted. */
  ghost predicate Handshake(pcs: map<Tid, Pc>, lockHolder: Option<Tid>, active: bool, semaphore: nat)
  {
    if lockHolder.Some? && lockHolder.value in pcs && pcs[lockHolder.value].AwaitInterrupt?
    then semaphore == (if active then 0 else 1)
    else !active && semaphore == 0
  }

  /** The disk after the requests of a log. */
  function Replay(d: Disk, log: seq<Entry>): (r: Disk)
    ensures d.Keys <= r.Keys
  {
    if log == [] then d else Effect(Replay(d, log[..|log| - 1]), log[|log| - 1].request)
  }

  /** Every read in the log saw what the log before it left in the sector. */
  ghost predicate LogOk(d: Disk, log: seq<Entry>)
  {
    forall i :: 0 <= i < |log| ==>
      log[i].request.sector in d && log[i].data == Moved(Replay(d, log[..i]), log[i].request)
  }

  /** A thread waiting for or holding its data points at its own log entry. */
  ghost predicate PointsAt(pc: Pc, log: seq<Entry>, d: Disk)
  {
    && (pc.Acquire? || pc.Issue? ==> pc.request.sector in d)
    && (pc.AwaitInterrupt? || pc.Release? ==> pc.entry < |log| && log[pc.entry] == Entry(pc.request, pc.buffer))
  }

  ghost predicate Inv(st: State)
  {
    && Exclusion(st.pcs, st.lockHolder)
    && Handshake(st.pcs, st.lockHolder, st.active, st.semaphore)
    && st.disk == Replay(st.initialDisk, st.log) && st.disk.Keys == st.initialDisk.Keys
    && LogOk(st.initialDisk, st.log)
    && (forall t :: t in st.pcs ==> PointsAt(st.pcs[t], st.log, st.initialDisk))
  }

  lemma ExclusionMove(pcs: map<Tid, Pc>, holder: Option<Tid>, t: Tid, pc: Pc, holder': Option<Tid>)
    requires Exclusion(pcs, holder) && t in pcs && (pc.HoldsLock() <==> holder' == Some(t))
    requires holder' == holder || (holder == None && holder' == Some(t)) || (holder == Some(t) && holder' == None)
    ensures Exclusion(pcs[t := pc], holder')
  {
  }

  lemma LogExtend(d: Disk, log: seq<Entry>, r: Request)
    requires LogOk(d, log) && r.sector in d
    ensures
      var e := Entry(r, Moved(Replay(d, log), r));
      LogOk(d, log + [e]) && Replay(d, log + [e]) == Effect(Replay(d, log), r)
  {
    var e := Entry(r, Moved(Replay(d, log), r));
    var log' := log + [e];
    assert log'[..|log|] == log;
    forall i | 0 <= i < |log'|
      ensures log'[i].request.sector in d && log'[i].data == Moved(Replay(d, log'[..i]), log'[i].request)
    {
      if i < |log| { assert log'[..i] == log[..i]; }
    }
  }

  lemma IssuePointsAt(st: State, t: Tid, st': State)
    requires Inv(st) && Next(st, t, IssueRequest, st')
    ensures forall u :: u in st'.pcs ==> PointsAt(st'.pcs[u], st'.log, st.initialDisk)
  {
    hide Replay, LogOk, Exclusion, Handshake, Moved, Effect;
    forall u | u in st'.pcs
      ensures PointsAt(st'.pcs[u], st'.log, st.initialDisk)
    {
      assert PointsAt(st.pcs[u], st.log, st.initialDisk);
    }
  }

  lemma EffectKeepsSectors(d: Disk, r: Request)
    requires r.sector in d
    ensures Effect(d, r).Keys == d.Keys
  {
  }

  lemma IssueKeepsInv(st: State, t: Tid, st': State)
    requires Inv(st) && Next(st, t, IssueRequest, st')
    ensures !st.active && Inv(st')
  {
    var r := st.pcs[t].request;
    HolderIs(st, t);
    LogExtend(st.initialDisk, st.log, r);
    EffectKeepsSectors(st.disk, r);
    IssuePointsAt(st, t, st');
    ExclusionMove(st.pcs, st.lockHolder, t, st'.pcs[t], st.lockHolder);
    hide Replay, LogOk, Exclusion, PointsAt, Moved, Effect;
  }

  lemma NextKeepsInv(st: State, t: Tid, a: Action, st': State)
    requires Inv(st) && Next(st, t, a, st')
    ensures Inv(st')
  {
    if a == IssueRequest {
      IssueKeepsInv(st, t, st');
    } else {
      OtherKeepsInv(st, t, a, st');
    }
  }

  /** Steps other than Issue leave disk and log alone. */
  lemma OtherKeepsInv(st: State, t: Tid, a: Action, st': State)
    requires Inv(st) && Next(st, t, a, st') && a != IssueRequest
    ensures Inv(st')
  {
    hide Replay, LogOk, PointsAt, Exclusion;
    if a != Interrupt {
      PointsAtMove(st, t, a, st');
      assert st.lockHolder == Some(t) <==> st.pcs[t].HoldsLock() by { HolderIs(st, t); }
      ExclusionMove(st.pcs, st.lockHolder, t, st'.pcs[t], st'.lockHolder);
    }
  }

  lemma HolderIs(st: State, t: Tid)
    requires Exclusion(st.pcs, st.lockHolder) && t in st.pcs
    ensures st.lockHolder == Some(t) <==> st.pcs[t].HoldsLock()
  {
  }

  lemma PointsAtMove(st: State, t: Tid, a: Action, st': State)
    requires Inv(st) && Next(st, t, a, st') && a != IssueRequest && a != Interrupt
    ensures forall u :: u in st'.pcs ==> PointsAt(st'.pcs[u], st'.log, st'.initialDisk)
  {
    hide Replay, LogOk, Exclusion, Handshake;
    assert PointsAt(st.pcs[t], st.log, st.initialDisk);
  }

  // ---------- what holds in every interleaving ----------

  ghost predicate IsRun(states: seq<State>, moves: seq<(Tid, Action)>)
  {
    && |states| == |moves| + 1 && Init(states[0])
    && forall i :: 0 <= i < |moves| ==> Next(states[i], moves[i].0, moves[i].1, states[i + 1])
  }

  lemma {:induction false} RunInv(states: seq<State>, moves: seq<(Tid, Action)>, i: nat)
    requires IsRun(states, moves) && i < |states|
    ensures Inv(states[i])
  {
    if i > 0 {
      RunInv(states, moves, i - 1);
      NextKeepsInv(states[i - 1], moves[i - 1].0, moves[i - 1].1, states[i]);
    }
  }

  /** Disk's assertion that only one request is outstanding holds whenever a request is issued. */
  lemma OneRequestAtATime(states: seq<State>, moves: seq<(Tid, Action)>, i: nat)
    requires IsRun(states, moves) && i < |moves| && moves[i].1 == IssueRequest
    ensures !states[i].active
  {
    RunInv(states, moves, i);
    IssueKeepsInv(states[i], moves[i].0, states[i + 1]);
  }

  /** Position of the last write to a sector, looking back from the end of a log; -1 when there is none. */
  function LastWrite(log: seq<Entry>, s: SectorNumber): (i: int)
    ensures -1 <= i < |log|
  {
    if log == [] then -1
    else if log[|log| - 1].request.Write? && log[|log| - 1].request.sector == s then |log| - 1
    else LastWrite(log[..|log| - 1], s)
  }

  /** After any log, a sector holds the data of the last write to it, or its first contents. */
  lemma {:induction false} ReplayIsLastWrite(d: Disk, log: seq<Entry>, s: SectorNumber)
    requires s in d
    ensures
      var i := LastWrite(log, s);
      (i >= 0 ==> log[i].request.Write? && log[i].request.sector == s) &&
      Replay(d, log)[s] == (if i >= 0 then log[i].request.data else d[s])
  {
    if log != [] { ReplayIsLastWrite(d, log[..|log| - 1], s); }
  }

  /** A ReadSector that is about to return gives the data of the last WriteSector before it in lock order. */
  lemma ReadsSeeLastWrite(states: seq<State>, moves: seq<(Tid, Action)>, i: nat, t: Tid)
    requires IsRun(states, moves) && i < |states| && t in states[i].pcs
    requires states[i].pcs[t].Release? && states[i].pcs[t].request.Read?
    ensures
      var st, pc := states[i], states[i].pcs[t];
      && pc.entry < |st.log| && st.log[pc.entry].request == pc.request && pc.request.sector in st.initialDisk
      && var w := LastWrite(st.log[..pc.entry], pc.request.sector);
         pc.buffer == if w >= 0 then st.log[w].data else st.initialDisk[pc.request.sector]
  {
    RunInv(states, moves, i);
    var st, pc := states[i], states[i].pcs[t];
    assert PointsAt(pc, st.log, st.initialDisk);
    var before := st.log[..pc.entry];
    ReplayIsLastWrite(st.initialDisk, before, pc.request.sector);
    var w := LastWrite(before, pc.request.sector);
    if w >= 0 { assert before[w] == st.log[w] && st.log[w].data == Moved(Replay(st.initialDisk, st.log[..w]), st.log[w].request); }
  }

  /** The interrupt for a request is never lost or counted twice: a waiting thread's P completes after exactly one. */
  lemma InterruptIsForHolder(states: seq<State>, moves: seq<(Tid, Action)>, i: nat)
    requires IsRun(states, moves) && i < |states|
    ensures
      var st := states[i];
      st.active || st.semaphore > 0 ==>
        && st.lockHolder.Some? && st.lockHolder.value in st.pcs && st.pcs[st.lockHolder.value].AwaitInterrupt?
        && (st.active <==> st.semaphore == 0) && st.semaphore <= 1
  {
    RunInv(states, moves, i);
  }

  // ---------- requests are those of the calls ----------

  /** The request of thread t's last call among the first n moves. */
  function LastAsked(moves: seq<(Tid, Action)>, n: nat, t: Tid): Option<Request>
    requires n <= |moves|
  {
    if n == 0 then None
    else if moves[n - 1].0 == t && moves[n - 1].1.Start? then Some(moves[n - 1].1.request)
    else LastAsked(moves, n - 1, t)
  }

  lemma AllIdle(st: State)
    requires Init(st)
    ensures forall t :: t in st.pcs ==> st.pcs[t] == Idle
  {
  }

  lemma CarriesStep(st: State, u: Tid, a: Action, st': State, t: Tid)
    requires Next(st, u, a, st') && t in st'.pcs && st'.pcs[t] != Idle
    ensures u == t && a.Start? ==> st'.pcs[t].request == a.request
    ensures !(u == t && a.Start?) ==> t in st.pcs && st.pcs[t] != Idle && st.pcs[t].request == st'.pcs[t].request
  {
    hide Moved, Effect;
  }

  lemma {:induction false} CarriesItsRequest(states: seq<State>, moves: seq<(Tid, Action)>, n: nat, t: Tid)
    requires IsRun(states, moves) && n < |states| && t in states[n].pcs && states[n].pcs[t] != Idle
    ensures LastAsked(moves, n, t) == Some(states[n].pcs[t].request)
  {
    hide Next, Init;
    AllIdle(states[0]);
    assert n > 0;
    assert Next(states[n - 1], moves[n - 1].0, moves[n - 1].1, states[n]);
    CarriesStep(states[n - 1], moves[n - 1].0, moves[n - 1].1, states[n], t);
    if !(moves[n - 1].0 == t && moves[n - 1].1.Start?) {
      CarriesItsRequest(states, moves, n - 1, t);
    }
  }

  /** The disk is handed exactly the request of the thread's last call; a write replaces one sector, a read none. */
  lemma IssuesAsked(states: seq<State>, moves: seq<(Tid, Action)>, i: nat)
    requires IsRun(states, moves) && i < |moves| && moves[i].1 == IssueRequest
    ensures LastAsked(moves, i, moves[i].0).Some?
    ensures
      var st, st', r := states[i], states[i + 1], LastAsked(moves, i, moves[i].0).value;
      && r.sector in st.disk && st'.active
      && match r
         case Read(s) => st'.disk == st.disk && st'.log == st.log + [Entry(r, st.disk[s])]
         case Write(s, data) => st'.disk == st.disk[s := data] && st'.log == st.log + [Entry(r, data)]
  {
    assert Next(states[i], moves[i].0, IssueRequest, states[i + 1]);
    CarriesItsRequest(states, moves, i, moves[i].0);
  }

  /** The last move among the first n by which thread t handed the disk a request; -1 when there is none. */
  function LastIssue(moves: seq<(Tid, Action)>, n: nat, t: Tid): (k: int)
    requires n <= |moves|
    ensures -1 <= k < n
  {
    if n == 0 then -1 else if moves[n - 1] == (t, IssueRequest) then n - 1 else LastIssue(moves, n - 1, t)
  }

  lemma EntryStep(st: State, u: Tid, a: Action, st': State, t: Tid)
    requires Next(st, u, a, st') && t in st'.pcs && (st'.pcs[t].AwaitInterrupt? || st'.pcs[t].Release?)
    ensures u == t && a == IssueRequest ==> st'.pcs[t].entry == |st.log|
    ensures !(u == t && a == IssueRequest) ==>
      && !(u == t && a.Start?) && t in st.pcs && (st.pcs[t].AwaitInterrupt? || st.pcs[t].Release?)
      && st.pcs[t].entry == st'.pcs[t].entry
  {
    hide Moved, Effect;
  }

  /** A thread that waits for its data or holds it has them from its own turn on the disk, which lies within its call. */
  lemma {:induction false} TurnWithinCall(states: seq<State>, moves: seq<(Tid, Action)>, n: nat, t: Tid)
    requires IsRun(states, moves) && n < |states| && t in states[n].pcs
    requires states[n].pcs[t].AwaitInterrupt? || states[n].pcs[t].Release?
    ensures
      var k := LastIssue(moves, n, t);
      && k >= 0 && moves[k] == (t, IssueRequest) && states[n].pcs[t].entry == |states[k].log|
      && forall j :: k <= j < n ==> !(moves[j].0 == t && moves[j].1.Start?)
  {
    hide Next, Init;
    AllIdle(states[0]);
    assert n > 0;
    assert Next(states[n - 1], moves[n - 1].0, moves[n - 1].1, states[n]);
    EntryStep(states[n - 1], moves[n - 1].0, moves[n - 1].1, states[n], t);
    if moves[n - 1] != (t, IssueRequest) { TurnWithinCall(states, moves, n - 1, t); }
  }

  lemma OthersLeaveDisk(states: seq<State>, moves: seq<(Tid, Action)>, i: nat)
    requires IsRun(states, moves) && i < |moves| && moves[i].1 != IssueRequest
    ensures states[i + 1].disk == states[i].disk && states[i + 1].log == states[i].log
  {
    assert Next(states[i], moves[i].0, moves[i].1, states[i + 1]);
  }

  lemma {:induction false} StartsFromFirstDisk(states: seq<State>, moves: seq<(Tid, Action)>, i: nat)
    requires IsRun(states, moves) && i < |states|
    ensures states[i].initialDisk == states[0].disk
  {
    if i > 0 {
      StartsFromFirstDisk(states, moves, i - 1);
      assert Next(states[i - 1], moves[i - 1].0, moves[i - 1].1, states[i]);
    }
  }

  // ---------- no call waits for ever ----------

  /** The only thing that can happen is that another call begins. */
  ghost predicate Settled(st: State)
  {
    forall t, a, st' :: Next(st, t, a, st') ==> a.Start?
  }

  /** An idle thread can ask for any sector of the disk at any time. */
  lemma CallsArePossible(st: State, t: Tid, r: Request)
    requires t in st.pcs && st.pcs[t] == Idle && r.sector in st.disk
    ensures exists st' :: Next(st, t, Start(r), st') && st'.pcs[t] == Acquire(r)
  {
    assert Next(st, t, Start(r), Goto(st, t, Acquire(r)));
  }

  lemma HolderGoesOn(st: State, t: Tid)
    requires Inv(st) && st.lockHolder == Some(t)
    ensures !Settled(st)
  {
    hide Replay, LogOk, Moved, Effect;
    assert t in st.pcs && st.pcs[t].HoldsLock() && PointsAt(st.pcs[t], st.log, st.initialDisk);
    match st.pcs[t]
    case Issue(r) =>
      var data := Moved(st.disk, r);
      assert Next(st, t, IssueRequest, Goto(st, t, AwaitInterrupt(r, |st.log|, data)).(
        active := true, disk := Effect(st.disk, r), log := st.log + [Entry(r, data)]));
    case AwaitInterrupt(r, n, buffer) =>
      WaitEnds(st, t);
    case Release(_, _, _) =>
      assert Next(st, t, ReleaseLock, Goto(st, t, Idle).(lockHolder := None));
  }

  /** A user of the disk that waits for it goes on exactly if the interrupt was counted; until then the disk works on it. */
  lemma WaitEnds(st: State, t: Tid)
    requires Inv(st) && t in st.pcs && st.pcs[t].AwaitInterrupt?
    ensures (exists st' :: Next(st, t, P, st')) <==> !st.active
    ensures (exists st' :: Next(st, t, Interrupt, st')) <==> st.active
  {
    hide Replay, LogOk, PointsAt, Moved, Effect;
    HolderIs(st, t);
    var pc := st.pcs[t];
    if st.active {
      assert Next(st, t, Interrupt, st.(active := false, semaphore := st.semaphore + 1));
    } else {
      assert Next(st, t, P, Goto(st, t, Release(pc.request, pc.entry, pc.buffer)).(semaphore := st.semaphore - 1));
    }
  }

  lemma AcquirePossible(st: State, t: Tid)
    requires t in st.pcs && st.pcs[t].Acquire? && st.lockHolder == None
    ensures !Settled(st)
  {
    assert Next(st, t, AcquireLock, Goto(st, t, Issue(st.pcs[t].request)).(lockHolder := Some(t)));
  }

  /** Nothing gets stuck: where only a new call can begin, every call has returned. */
  lemma NeverStuck(states: seq<State>, moves: seq<(Tid, Action)>, i: nat)
    requires IsRun(states, moves) && i < |states| && Settled(states[i])
    ensures states[i].lockHolder == None && !states[i].active && states[i].semaphore == 0
    ensures forall t :: t in states[i].pcs ==> states[i].pcs[t] == Idle
  {
    var st := states[i];
    RunInv(states, moves, i);
    hide Settled, Next, Replay, LogOk, PointsAt;
    if st.lockHolder.Some? { HolderGoesOn(st, st.lockHolder.value); }
    assert st.lockHolder == None;
    forall t | t in st.pcs
      ensures st.pcs[t] == Idle
    {
      if st.pcs[t].Acquire? { AcquirePossible(st, t); }
    }
  }
}
