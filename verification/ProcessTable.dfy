/**
 The process table's Exec, Join and Exit (threads/ptable.cc, pcb.cc). A child that exits leaves its code in its
 PCB, posts joinsem and waits on exitsem; a parent that joins waits on joinsem, reads the code and posts exitsem; then
 the child clears its slot and deletes its PCB. Slots are reused, and a joining parent goes through
 the slot number at every step, so the PCB it reads must still be the same child's.

 Between any two steps the CPU may go to another process. A semaphore operation is one step, enabled when
 it can complete; lemma SemaphoresAreAtomic in module Semaphores justifies this.
 */
module ProcessTable {

  const MAXPROCESS := 10

  type Pid = int
  /** A process for good: unlike a slot number it is never reused. A process and its PCB share it. */
  type Proc(==, !new) = nat

  /** The next thing a process does. */
  datatype Pc =
    | Run
    | ExitJoinRelease                       // ExitUpdate: JoinRelease(), the exit code is set
    | ExitWait                              //             ExitWait()
    | ExitRemove                            //             Remove(processID)
    | JoinWait(target: Pid)                 // JoinUpdate: JoinWait()
    | JoinRead(target: Pid)                 //             GetExitCode()
    | JoinExitRelease(target: Pid, code: int)   //         ExitRelease(), then return code
  {
    predicate Joining()
    {
      JoinWait? || JoinRead? || JoinExitRelease?
    }
  }

  datatype Process = Process(pid: Pid, pc: Pc)
  datatype Pcb = Pcb(parentID: Pid, exitcode: int, joinsem: nat, exitsem: nat)

  /** History: how far the parent's Join of a child has come. */
  datatype Stage = NotJoined | Waiting | Reading | Releasing | Done

  datatype State = State(
    bm: set<Pid>,                           // marked slots
    pcb: map<Pid, Proc>,                    // the array of PCB pointers
    pcbs: map<Proc, Pcb>,                   // PCBs that have not been deleted
    procs: map<Proc, Process>,
    parent: map<Proc, Proc>,                // history
    stage: map<Proc, Stage>,                // history
    passed: map<Proc, int>)                 // history: what each child gave to ExitUpdate

  datatype Action =
    | Exec(child: Proc, slot: Pid) | ExecFull
    | ExitStart(code: int) | ExitPost | ExitTake | ExitDelete
    | JoinStart(target: Pid) | JoinTake | JoinGet | JoinPost

  /** What a call gives back: -1 if it is refused, the slot from Exec, the code from Join. */
  datatype Outcome = Nothing | Returned(value: int)

  ghost predicate Init(st: State, main: Proc)
  {
    && st.bm == {0} && st.pcb == map[0 := main] && st.pcbs == map[main := Pcb(-1, 0, 0, 0)]
    && st.procs == map[main := Process(0, Run)]
    && st.parent == map[] && st.stage == map[] && st.passed == map[]
  }

  function Goto(st: State, p: Proc, pc: Pc): State
    requires p in st.procs
  {
    st.(procs := st.procs[p := st.procs[p].(pc := pc)])
  }

  function SetPcb(st: State, c: Proc, b: Pcb): State
  {
    st.(pcbs := st.pcbs[c := b])
  }

  predicate IsExist(st: State, pid: Pid)
  {
    0 <= pid < MAXPROCESS && pid in st.bm
  }

  /** The slot that FindAndSet gives. */
  ghost predicate IsFreeSlot(st: State, slot: Pid)
  {
    0 <= slot < MAXPROCESS && slot !in st.bm && forall k :: 0 <= k < slot ==> k in st.bm
  }

  /** FindAndSet gives -1. */
  ghost predicate NoFreeSlot(st: State)
  {
    forall k :: 0 <= k < MAXPROCESS ==> k in st.bm
  }

  /** The PCB that the slot number points to, when it points to a live one. */
  predicate Points(st: State, pid: Pid)
  {
    pid in st.pcb && st.pcb[pid] in st.pcbs
  }

  /** Join is used as designed: at most once for each child. */
  ghost predicate MayJoin(st: State, target: Pid)
  {
    Points(st, target) && st.pcb[target] in st.stage ==> st.stage[st.pcb[target]] == NotJoined
  }

  /** Exit is used as designed: a parent outlives its children. */
  ghost predicate NoChildren(st: State, p: Proc)
  {
    forall c :: c in st.procs && c in st.parent ==> st.parent[c] != p
  }

  ghost predicate StepExec(st: State, p: Proc, child: Proc, slot: Pid, st': State)
    requires p in st.procs
  {
    && st.procs[p].pc == Run && child !in st.parent && child !in st.procs && child !in st.pcbs && child !in st.stage
    && child !in st.passed && IsFreeSlot(st, slot)
    && st' == st.(
         bm := st.bm + {slot}, pcb := st.pcb[slot := child],
         pcbs := st.pcbs[child := Pcb(st.procs[p].pid, 0, 0, 0)],
         procs := st.procs[child := Process(slot, Run)],
         parent := st.parent[child := p], stage := st.stage[child := NotJoined])
  }

  /** ExitUpdate, step by step. */
  ghost predicate StepExit(st: State, p: Proc, a: Action, st': State)
    requires p in st.procs
  {
    var pid := st.procs[p].pid;
    Points(st, pid) &&
    var c := st.pcb[pid];
    var b := st.pcbs[c];
    match a
    case ExitStart(code) =>
      st.procs[p].pc == Run && pid != 0 && IsExist(st, pid) && NoChildren(st, p) &&
      st' == SetPcb(Goto(st, p, ExitJoinRelease), c, b.(exitcode := code)).(passed := st.passed[p := code])
    case ExitPost =>
      st.procs[p].pc == ExitJoinRelease && st' == SetPcb(Goto(st, p, ExitWait), c, b.(joinsem := b.joinsem + 1))
    case ExitTake =>
      st.procs[p].pc == ExitWait && b.exitsem > 0 &&
      st' == SetPcb(Goto(st, p, ExitRemove), c, b.(exitsem := b.exitsem - 1))
    case ExitDelete =>
      st.procs[p].pc == ExitRemove &&
      st' == st.(bm := st.bm - {pid}, pcbs := st.pcbs - {c}, procs := st.procs - {p})
    case _ => false
  }

  /** JoinUpdate, step by step, with what it returns. */
  ghost predicate StepJoin(st: State, p: Proc, a: Action, st': State, r: Outcome)
    requires p in st.procs
  {
    match a
    case JoinStart(target) =>
      st.procs[p].pc == Run &&
      if !IsExist(st, target) || st.procs[p].pid == target then st' == st && r == Returned(-1)
      else
        Points(st, target) &&
        var c := st.pcb[target];
        if st.procs[p].pid != st.pcbs[c].parentID then st' == st && r == Returned(-1)
        else MayJoin(st, target) && r == Nothing &&
             st' == Goto(st, p, JoinWait(target)).(stage := st.stage[c := Waiting])
    case JoinTake =>
      r == Nothing && st.procs[p].pc.JoinWait? && Points(st, st.procs[p].pc.target) &&
      var c := st.pcb[st.procs[p].pc.target];
      st.pcbs[c].joinsem > 0 &&
      st' == SetPcb(Goto(st, p, JoinRead(st.procs[p].pc.target)), c, st.pcbs[c].(joinsem := st.pcbs[c].joinsem - 1)).(
               stage := st.stage[c := Reading])
    case JoinGet =>
      r == Nothing && st.procs[p].pc.JoinRead? && Points(st, st.procs[p].pc.target) &&
      var c := st.pcb[st.procs[p].pc.target];
      st' == Goto(st, p, JoinExitRelease(st.procs[p].pc.target, st.pcbs[c].exitcode)).(stage := st.stage[c := Releasing])
    case JoinPost =>
      st.procs[p].pc.JoinExitRelease? && Points(st, st.procs[p].pc.target) && r == Returned(st.procs[p].pc.code) &&
      var c := st.pcb[st.procs[p].pc.target];
      st' == SetPcb(Goto(st, p, Run), c, st.pcbs[c].(exitsem := st.pcbs[c].exitsem + 1)).(stage := st.stage[c := Done])
    case _ => false
  }

  ghost predicate Next(st: State, p: Proc, a: Action, st': State, r: Outcome)
  {
    p in st.procs &&
    match a
    case Exec(child, slot) => r == Returned(slot) && StepExec(st, p, child, slot, st')
    case ExecFull => st.procs[p].pc == Run && NoFreeSlot(st) && st' == st && r == Returned(-1)
    case JoinStart(_) => StepJoin(st, p, a, st', r)
    case JoinTake => StepJoin(st, p, a, st', r)
    case JoinGet => StepJoin(st, p, a, st', r)
    case JoinPost => StepJoin(st, p, a, st', r)
    case _ => r == Nothing && StepExit(st, p, a, st')
  }

  // ---------- the invariant ----------

  /** A live process owns its slot, and the slot leads to its PCB. */
  ghost predicate SlotOk(bm: set<Pid>, pcb: map<Pid, Proc>, pcbs: map<Proc, Pcb>, p: Proc, pid: Pid)
  {
    0 <= pid < MAXPROCESS && pid in bm && pid in pcb && pcb[pid] == p && p in pcbs
  }

  ghost predicate Occupied(pcb: map<Pid, Proc>, procs: map<Proc, Process>, k: Pid)
  {
    k in pcb && pcb[k] in procs && procs[pcb[k]].pid == k
  }

  ghost predicate SlotsOk(bm: set<Pid>, pcb: map<Pid, Proc>, pcbs: map<Proc, Pcb>, procs: map<Proc, Process>)
  {
    && (forall p :: p in procs ==> SlotOk(bm, pcb, pcbs, p, procs[p].pid))
    && (forall k :: k in bm ==> Occupied(pcb, procs, k))
  }

  /** A child's parent is alive and sits in the slot that the child's PCB names; only process 0 has no parent. */
  ghost predicate FamilyOk(pcbs: map<Proc, Pcb>, procs: map<Proc, Process>, parent: map<Proc, Proc>, c: Proc)
    requires c in procs
  {
    c in pcbs &&
    if c in parent then parent[c] in procs && parent[c] != c && pcbs[c].parentID == procs[parent[c]].pid
    else procs[c].pid == 0 && pcbs[c].parentID == -1
  }

  /** The two semaphores of a child count exactly the tokens that its and its parent's progress imply. */
  ghost predicate ChildOk(b: Pcb, pc: Pc, stage: Stage, passed: map<Proc, int>, c: Proc)
  {
    var posted := pc == ExitWait || pc == ExitRemove;
    && b.joinsem == (if posted && (stage == NotJoined || stage == Waiting) then 1 else 0)
    && b.exitsem == (if stage == Done && pc == ExitWait then 1 else 0)
    && (stage == Reading || stage == Releasing || stage == Done ==> posted)
    && (pc == ExitRemove ==> stage == Done)
    && (posted || pc == ExitJoinRelease ==> c in passed && b.exitcode == passed[c])
  }

  ghost predicate ChildAt(st: State, c: Proc)
    requires c in st.procs
  {
    c in st.parent ==> c in st.stage && c in st.pcbs && ChildOk(st.pcbs[c], st.procs[c].pc, st.stage[c], st.passed, c)
  }

  /** A joining parent's target is its own live child, at the matching stage, and it carries the child's own code. */
  ghost predicate JoinerOk(st: State, p: Proc)
    requires p in st.procs
  {
    var pc := st.procs[p].pc;
    pc.Joining() ==>
      && pc.target in st.pcb
      && var c := st.pcb[pc.target];
      && c in st.procs && st.procs[c].pid == pc.target && c in st.parent && st.parent[c] == p && c in st.stage
      && st.stage[c] == (if pc.JoinWait? then Waiting else if pc.JoinRead? then Reading else Releasing)
      && (pc.JoinExitRelease? ==> c in st.passed && pc.code == st.passed[c])
  }

  /** A process on its way out has no children left. */
  ghost predicate ExitingOk(st: State, p: Proc)
    requires p in st.procs
  {
    var pc := st.procs[p].pc;
    pc == ExitJoinRelease || pc == ExitWait || pc == ExitRemove ==> p in st.parent && NoChildren(st, p)
  }

  ghost predicate Shape(st: State)
  {
    && SlotsOk(st.bm, st.pcb, st.pcbs, st.procs)
    && (forall c :: c in st.procs ==> FamilyOk(st.pcbs, st.procs, st.parent, c))
  }

  ghost predicate Inv(st: State)
  {
    && Shape(st)
    && (forall c :: c in st.procs ==> ChildAt(st, c))
    && (forall p :: p in st.procs ==> JoinerOk(st, p))
    && (forall p :: p in st.procs ==> ExitingOk(st, p))
  }

  lemma InitInv(st: State, main: Proc)
    requires Init(st, main)
    ensures Inv(st)
  {
  }

  // ---------- Exec ----------

  lemma ExecKeepsShape(st: State, p: Proc, child: Proc, slot: Pid, st': State)
    requires Shape(st) && p in st.procs && StepExec(st, p, child, slot, st')
    ensures Shape(st')
  {
    forall q | q in st'.procs
      ensures SlotOk(st'.bm, st'.pcb, st'.pcbs, q, st'.procs[q].pid)
      ensures FamilyOk(st'.pcbs, st'.procs, st'.parent, q)
    {
      if q != child { assert SlotOk(st.bm, st.pcb, st.pcbs, q, st.procs[q].pid) && FamilyOk(st.pcbs, st.procs, st.parent, q); }
    }
    forall k | k in st'.bm
      ensures Occupied(st'.pcb, st'.procs, k)
    {
      if k != slot { assert Occupied(st.pcb, st.procs, k); }
    }
  }

  /** A joiner's target slot is taken, so Exec does not give it away. */
  lemma JoinerSlot(st: State, q: Proc)
    requires Shape(st) && q in st.procs && JoinerOk(st, q) && st.procs[q].pc.Joining()
    ensures st.procs[q].pc.target in st.bm && Points(st, st.procs[q].pc.target)
  {
    var c := st.pcb[st.procs[q].pc.target];
    assert SlotOk(st.bm, st.pcb, st.pcbs, c, st.procs[c].pid);
  }

  lemma ExecKeepsInv(st: State, p: Proc, child: Proc, slot: Pid, st': State)
    requires Inv(st) && p in st.procs && StepExec(st, p, child, slot, st')
    ensures Inv(st')
  {
    ExecKeepsShape(st, p, child, slot, st');
    hide Shape, JoinerOk, ExitingOk, ChildAt, StepExec;
    forall q | q in st'.procs
      ensures JoinerOk(st', q) && ExitingOk(st', q) && ChildAt(st', q)
    {
      ExecKeepsAt(st, p, child, slot, st', q);
    }
  }

  lemma ExecKeepsJoiner(st: State, p: Proc, child: Proc, slot: Pid, st': State, q: Proc)
    requires p in st.procs && StepExec(st, p, child, slot, st') && q in st.procs && q in st'.procs && q != child
    requires JoinerOk(st, q) && (st.procs[q].pc.Joining() ==> st.procs[q].pc.target in st.bm)
    ensures JoinerOk(st', q)
  {
  }

  lemma ExecKeepsExiting(st: State, p: Proc, child: Proc, slot: Pid, st': State, q: Proc)
    requires p in st.procs && StepExec(st, p, child, slot, st') && q in st.procs && q in st'.procs && q != child
    requires ExitingOk(st, q)
    ensures ExitingOk(st', q)
  {
  }

  lemma ExecKeepsChild(st: State, p: Proc, child: Proc, slot: Pid, st': State, q: Proc)
    requires p in st.procs && StepExec(st, p, child, slot, st') && q in st.procs && q in st'.procs && q != child
    requires ChildAt(st, q)
    ensures ChildAt(st', q)
  {
    hide ChildOk;
  }

  /** The new process is a child that nobody has joined. */
  lemma ExecStarts(st: State, p: Proc, child: Proc, slot: Pid, st': State)
    requires p in st.procs && StepExec(st, p, child, slot, st') && child in st'.procs
    ensures JoinerOk(st', child) && ExitingOk(st', child) && ChildAt(st', child)
  {
  }

  lemma ExecKeepsAt(st: State, p: Proc, child: Proc, slot: Pid, st': State, q: Proc)
    requires Inv(st) && p in st.procs && StepExec(st, p, child, slot, st') && q in st'.procs && (q == child || q in st.procs)
    ensures JoinerOk(st', q) && ExitingOk(st', q) && ChildAt(st', q)
  {
    if q == child {
      ExecStarts(st, p, child, slot, st');
    } else {
      assert JoinerOk(st, q) && ExitingOk(st, q) && ChildAt(st, q);
      if st.procs[q].pc.Joining() { JoinerSlot(st, q); }
      hide Shape, Inv, StepExec, JoinerOk, ExitingOk, ChildAt;
      ExecKeepsJoiner(st, p, child, slot, st', q);
      ExecKeepsExiting(st, p, child, slot, st', q);
      ExecKeepsChild(st, p, child, slot, st', q);
    }
  }

  // ---------- steps that leave the table's shape alone ----------

  /** One process moves on, and one PCB changes its code or semaphores. */
  ghost predicate SameShape(st: State, st': State)
  {
    && st'.bm == st.bm && st'.pcb == st.pcb && st'.parent == st.parent
    && st'.procs.Keys == st.procs.Keys && st'.pcbs.Keys == st.pcbs.Keys
    && (forall q :: q in st.procs ==> st'.procs[q].pid == st.procs[q].pid)
    && (forall q :: q in st.pcbs ==> st'.pcbs[q].parentID == st.pcbs[q].parentID)
  }

  lemma SameShapeOk(st: State, st': State)
    requires Shape(st) && SameShape(st, st')
    ensures Shape(st')
  {
    forall q | q in st'.procs
      ensures SlotOk(st'.bm, st'.pcb, st'.pcbs, q, st'.procs[q].pid)
      ensures FamilyOk(st'.pcbs, st'.procs, st'.parent, q)
    {
      assert SlotOk(st.bm, st.pcb, st.pcbs, q, st.procs[q].pid) && FamilyOk(st.pcbs, st.procs, st.parent, q);
    }
    forall k | k in st'.bm
      ensures Occupied(st'.pcb, st'.procs, k)
    {
      assert Occupied(st.pcb, st.procs, k);
    }
  }

  /** The process that acts on its own PCB acts on the one its slot leads to. */
  lemma OwnPcb(st: State, p: Proc)
    requires Shape(st) && p in st.procs
    ensures Points(st, st.procs[p].pid) && st.pcb[st.procs[p].pid] == p
    ensures st.procs[p].pid != 0 ==> p in st.parent
  {
    assert SlotOk(st.bm, st.pcb, st.pcbs, p, st.procs[p].pid) && FamilyOk(st.pcbs, st.procs, st.parent, p);
  }

  lemma ExitKeepsInv(st: State, p: Proc, a: Action, st': State)
    requires Inv(st) && p in st.procs && StepExit(st, p, a, st') && a != ExitDelete
    ensures Inv(st')
  {
    hide Shape;
    OwnPcb(st, p);
    SameShapeOk(st, st');
    assert ChildAt(st, p) && p in st.parent by { assert ExitingOk(st, p); }
    hide JoinerOk, ExitingOk, ChildAt, StepExit;
    forall q | q in st'.procs
      ensures JoinerOk(st', q) && ExitingOk(st', q) && ChildAt(st', q)
    {
      if q == p { ExitMovesTokens(st, p, a, st'); }
      ExitKeepsAt(st, p, a, st', q);
    }
  }

  /** What the parts of the next lemma need to know about the step. */
  ghost predicate ExitMove(st: State, p: Proc, a: Action, st': State)
  {
    && p in st.procs && p in st.parent && StepExit(st, p, a, st') && a != ExitDelete && st.pcb[st.procs[p].pid] == p
    && ChildAt(st, p)
  }

  lemma ExitKeepsJoiner(st: State, p: Proc, a: Action, st': State, q: Proc)
    requires ExitMove(st, p, a, st') && q in st.procs && q in st'.procs && JoinerOk(st, q)
    ensures JoinerOk(st', q)
  {
  }

  lemma ExitKeepsExiting(st: State, p: Proc, a: Action, st': State, q: Proc)
    requires ExitMove(st, p, a, st') && q in st.procs && q in st'.procs && ExitingOk(st, q)
    ensures ExitingOk(st', q)
  {
    hide ChildOk;
  }

  lemma ExitKeepsChild(st: State, p: Proc, a: Action, st': State, q: Proc)
    requires ExitMove(st, p, a, st') && q in st.procs && q in st'.procs && q != p && ChildAt(st, q)
    ensures ChildAt(st', q)
  {
  }

  lemma ExitKeepsAt(st: State, p: Proc, a: Action, st': State, q: Proc)
    requires Inv(st) && p in st.procs && StepExit(st, p, a, st') && a != ExitDelete && q in st'.procs && q in st.procs
    requires q == p ==> ChildAt(st', p)
    ensures JoinerOk(st', q) && ExitingOk(st', q) && ChildAt(st', q)
  {
    OwnPcb(st, p);
    assert p in st.parent by { assert ExitingOk(st, p); }
    assert ChildAt(st, p) && JoinerOk(st, q) && ExitingOk(st, q) && ChildAt(st, q);
    hide ChildOk, Shape, Inv, StepExit, JoinerOk, ExitingOk, ChildAt;
    ExitKeepsJoiner(st, p, a, st', q);
    ExitKeepsExiting(st, p, a, st', q);
    if q != p { ExitKeepsChild(st, p, a, st', q); }
  }

  /** A step of the exiting child moves the tokens as its new program counter says. */
  lemma ExitMovesTokens(st: State, p: Proc, a: Action, st': State)
    requires Shape(st) && p in st.procs && p in st.parent && ChildAt(st, p) && StepExit(st, p, a, st') && a != ExitDelete
    ensures ChildAt(st', p)
  {
    OwnPcb(st, p);
  }

  lemma DeleteKeepsShape(st: State, p: Proc, st': State)
    requires Shape(st) && p in st.procs && StepExit(st, p, ExitDelete, st') && NoChildren(st, p)
    ensures Shape(st')
  {
    OwnPcb(st, p);
    forall q | q in st'.procs
      ensures SlotOk(st'.bm, st'.pcb, st'.pcbs, q, st'.procs[q].pid)
      ensures FamilyOk(st'.pcbs, st'.procs, st'.parent, q)
    {
      DeleteSparesOther(st, p, q, st');
    }
    forall k | k in st'.bm
      ensures Occupied(st'.pcb, st'.procs, k)
    {
      assert Occupied(st.pcb, st.procs, k);
    }
  }

  /** The slot of another process is another slot. */
  lemma DeleteSparesSlot(st: State, p: Proc, q: Proc, st': State)
    requires Shape(st) && p in st.procs && StepExit(st, p, ExitDelete, st')
    requires q in st.procs && q != p && q in st'.procs
    ensures SlotOk(st'.bm, st'.pcb, st'.pcbs, q, st'.procs[q].pid)
  {
    OwnPcb(st, p);
    OwnPcb(st, q);
    assert SlotOk(st.bm, st.pcb, st.pcbs, q, st.procs[q].pid);
    hide SlotsOk, FamilyOk;
  }

  lemma FamilySurvives(pcbs: map<Proc, Pcb>, procs: map<Proc, Process>, parent: map<Proc, Proc>, q: Proc, p: Proc)
    requires q in procs && q != p && FamilyOk(pcbs, procs, parent, q) && (q in parent ==> parent[q] != p)
    ensures FamilyOk(pcbs - {p}, procs - {p}, parent, q)
  {
  }

  /** The family of another process does not include the deleted one, which has no children left. */
  lemma DeleteSparesFamily(st: State, p: Proc, q: Proc, st': State)
    requires Shape(st) && p in st.procs && StepExit(st, p, ExitDelete, st') && NoChildren(st, p)
    requires q in st.procs && q != p && q in st'.procs
    ensures FamilyOk(st'.pcbs, st'.procs, st'.parent, q)
  {
    OwnPcb(st, p);
    hide FamilyOk, SlotsOk;
    assert q in st.parent ==> st.parent[q] != p;
    FamilySurvives(st.pcbs, st.procs, st.parent, q, p);
  }

  lemma DeleteSparesOther(st: State, p: Proc, q: Proc, st': State)
    requires Shape(st) && p in st.procs && StepExit(st, p, ExitDelete, st') && NoChildren(st, p)
    requires q in st.procs && q != p && q in st'.procs
    ensures SlotOk(st'.bm, st'.pcb, st'.pcbs, q, st'.procs[q].pid)
    ensures FamilyOk(st'.pcbs, st'.procs, st'.parent, q)
  {
    DeleteSparesSlot(st, p, q, st');
    DeleteSparesFamily(st, p, q, st');
  }

  /** The slot is cleared and the PCB deleted only when the parent has read the code and released the child. */
  lemma DeleteKeepsInv(st: State, p: Proc, st': State)
    requires Inv(st) && p in st.procs && StepExit(st, p, ExitDelete, st')
    ensures Inv(st') && p in st.stage && st.stage[p] == Done
  {
    hide Shape;
    OwnPcb(st, p);
    assert ExitingOk(st, p) && ChildAt(st, p);
    DeleteKeepsShape(st, p, st');
    forall q | q in st'.procs
      ensures JoinerOk(st', q) && ExitingOk(st', q) && ChildAt(st', q)
    {
      assert JoinerOk(st, q) && ExitingOk(st, q) && ChildAt(st, q);
    }
  }

  // ---------- Join ----------

  /** The PCB behind an existing slot belongs to a live process, so its parent field can be read. */
  lemma ExistingPoints(st: State, target: Pid)
    requires Shape(st) && IsExist(st, target)
    ensures Points(st, target) && st.pcb[target] in st.procs && st.procs[st.pcb[target]].pid == target
  {
    assert Occupied(st.pcb, st.procs, target);
    var c := st.pcb[target];
    assert SlotOk(st.bm, st.pcb, st.pcbs, c, st.procs[c].pid);
  }

  /** If the caller's slot is the one named in the PCB, the caller is the parent. */
  lemma CallerIsParent(st: State, p: Proc, c: Proc)
    requires Shape(st) && p in st.procs && c in st.procs && c in st.pcbs && st.pcbs[c].parentID == st.procs[p].pid && c in st.parent
    ensures st.parent[c] == p
  {
    assert FamilyOk(st.pcbs, st.procs, st.parent, c);
    assert SlotOk(st.bm, st.pcb, st.pcbs, p, st.procs[p].pid);
    assert SlotOk(st.bm, st.pcb, st.pcbs, st.parent[c], st.procs[st.parent[c]].pid);
  }

  /** Joins of different children do not meet: each child has one parent, and a process has one program counter. */
  lemma OtherJoiner(st: State, p: Proc, c: Proc, q: Proc)
    requires q in st.procs && JoinerOk(st, q) && q != p && c in st.parent && st.parent[c] == p
    ensures st.procs[q].pc.Joining() ==> st.pcb[st.procs[q].pc.target] != c
  {
  }

  /** The child of a join in progress, and what its tokens say. */
  lemma JoinTarget(st: State, p: Proc) returns (c: Proc)
    requires Inv(st) && p in st.procs && st.procs[p].pc.Joining()
    ensures Points(st, st.procs[p].pc.target) && c == st.pcb[st.procs[p].pc.target]
    ensures c in st.procs && c != p && c in st.parent && st.parent[c] == p && c in st.stage && c in st.pcbs && ChildAt(st, c)
  {
    assert JoinerOk(st, p);
    c := st.pcb[st.procs[p].pc.target];
    JoinerSlot(st, p);
    assert ChildAt(st, c) && FamilyOk(st.pcbs, st.procs, st.parent, c);
  }

  lemma JoinStartKeepsInv(st: State, p: Proc, target: Pid, st': State, r: Outcome)
    requires Inv(st) && p in st.procs && StepJoin(st, p, JoinStart(target), st', r)
    ensures Inv(st')
  {
    hide Shape;
    if st' != st {
      ExistingPoints(st, target);
      var c := st.pcb[target];
      assert ChildAt(st, c) && ExitingOk(st, p);
      RootHasNoParent(st, p, c);
      CallerIsParent(st, p, c);
      SameShapeOk(st, st');
      forall q | q in st'.procs
        ensures JoinerOk(st', q) && ExitingOk(st', q) && ChildAt(st', q)
      {
        assert JoinerOk(st, q) && ExitingOk(st, q) && ChildAt(st, q);
        if q != p { OtherJoiner(st, p, c, q); }
      }
    }
  }

  /** The root's PCB names parent -1, which is no slot. */
  lemma RootHasNoParent(st: State, p: Proc, c: Proc)
    requires Shape(st) && p in st.procs && c in st.procs && c in st.pcbs && st.pcbs[c].parentID == st.procs[p].pid
    ensures c in st.parent
  {
    assert FamilyOk(st.pcbs, st.procs, st.parent, c);
    assert SlotOk(st.bm, st.pcb, st.pcbs, p, st.procs[p].pid);
  }

  /** JoinTake, JoinGet and JoinPost move the parent one step and the child's tokens with it. */
  lemma JoinMovesTokens(st: State, p: Proc, a: Action, st': State, r: Outcome, c: Proc)
    requires p in st.procs && StepJoin(st, p, a, st', r) && !a.JoinStart? && JoinerOk(st, p)
    requires c == st.pcb[st.procs[p].pc.target] && c in st.procs && c != p && ChildAt(st, c)
    requires ChildAt(st, p)
    ensures ChildAt(st', c) && ChildAt(st', p) && JoinerOk(st', p)
    ensures a == JoinPost ==> c in st.passed && r == Returned(st.passed[c])
  {
  }

  lemma JoinKeepsInv(st: State, p: Proc, a: Action, st': State, r: Outcome)
    requires Inv(st) && p in st.procs && StepJoin(st, p, a, st', r) && !a.JoinStart?
    ensures Inv(st')
  {
    hide Shape, ChildOk;
    var c := JoinTarget(st, p);
    assert JoinerOk(st, p) && ChildAt(st, p);
    SameShapeOk(st, st');
    JoinMovesTokens(st, p, a, st', r, c);
    hide StepJoin, JoinerOk, ExitingOk, ChildAt;
    forall q | q in st'.procs
      ensures JoinerOk(st', q) && ExitingOk(st', q) && ChildAt(st', q)
    {
      JoinKeepsAt(st, p, a, st', r, c, q);
    }
  }

  /** What the parts of the next lemma need to know about the step. */
  ghost predicate JoinMove(st: State, p: Proc, a: Action, st': State, r: Outcome, c: Proc)
  {
    && p in st.procs && StepJoin(st, p, a, st', r) && !a.JoinStart? && st.procs[p].pc.Joining()
    && c == st.pcb[st.procs[p].pc.target] && c in st.procs && c in st.parent && st.parent[c] == p
  }

  lemma JoinKeepsJoiner(st: State, p: Proc, a: Action, st': State, r: Outcome, c: Proc, q: Proc)
    requires JoinMove(st, p, a, st', r, c) && q in st.procs && q in st'.procs && q != p && JoinerOk(st, q)
    ensures JoinerOk(st', q)
  {
    OtherJoiner(st, p, c, q);
  }

  lemma JoinKeepsExiting(st: State, p: Proc, a: Action, st': State, r: Outcome, c: Proc, q: Proc)
    requires JoinMove(st, p, a, st', r, c) && q in st.procs && q in st'.procs && ExitingOk(st, q)
    ensures ExitingOk(st', q)
  {
  }

  lemma JoinKeepsChild(st: State, p: Proc, a: Action, st': State, r: Outcome, c: Proc, q: Proc)
    requires JoinMove(st, p, a, st', r, c) && q in st.procs && q in st'.procs && q != p && q != c && ChildAt(st, q)
    ensures ChildAt(st', q)
  {
    hide ChildOk;
  }

  lemma JoinKeepsAt(st: State, p: Proc, a: Action, st': State, r: Outcome, c: Proc, q: Proc)
    requires Inv(st) && JoinMove(st, p, a, st', r, c) && q in st.procs && q in st'.procs
    requires p in st'.procs && c in st'.procs && ChildAt(st', c) && ChildAt(st', p) && JoinerOk(st', p)
    ensures JoinerOk(st', q) && ExitingOk(st', q) && ChildAt(st', q)
  {
    assert JoinerOk(st, q) && ExitingOk(st, q) && ChildAt(st, q);
    hide Shape, ChildOk, Inv, JoinMove, JoinerOk, ExitingOk, ChildAt;
    JoinKeepsExiting(st, p, a, st', r, c, q);
    if q != p {
      JoinKeepsJoiner(st, p, a, st', r, c, q);
      if q != c { JoinKeepsChild(st, p, a, st', r, c, q); }
    }
  }

  lemma NextKeepsInv(st: State, p: Proc, a: Action, st': State, r: Outcome)
    requires Inv(st) && Next(st, p, a, st', r)
    ensures Inv(st')
  {
    hide Shape, StepExec, StepExit, StepJoin, JoinerOk, ExitingOk, ChildAt, Inv;
    match a
    case Exec(child, slot) => ExecKeepsInv(st, p, child, slot, st');
    case ExecFull =>
    case ExitDelete => DeleteKeepsInv(st, p, st');
    case JoinStart(target) => JoinStartKeepsInv(st, p, target, st', r);
    case JoinTake => JoinKeepsInv(st, p, a, st', r);
    case JoinGet => JoinKeepsInv(st, p, a, st', r);
    case JoinPost => JoinKeepsInv(st, p, a, st', r);
    case _ => ExitKeepsInv(st, p, a, st');
  }

  // ---------- what holds in every interleaving ----------

  datatype Move = Move(proc: Proc, action: Action, outcome: Outcome)

  ghost predicate IsRun(states: seq<State>, moves: seq<Move>, main: Proc)
  {
    && |states| == |moves| + 1 && Init(states[0], main)
    && forall i :: 0 <= i < |moves| ==> Next(states[i], moves[i].proc, moves[i].action, states[i + 1], moves[i].outcome)
  }

  lemma {:induction false} RunInv(states: seq<State>, moves: seq<Move>, main: Proc, i: nat)
    requires IsRun(states, moves, main) && i < |states|
    ensures Inv(states[i])
  {
    hide Next, Inv;
    if i == 0 {
      InitInv(states[0], main);
    } else {
      RunInv(states, moves, main, i - 1);
      NextKeepsInv(states[i - 1], moves[i - 1].proc, moves[i - 1].action, states[i], moves[i - 1].outcome);
    }
  }

  /** A Join that was let in returns exactly the code that the child gave to Exit. */
  lemma JoinReturnsExitCode(states: seq<State>, moves: seq<Move>, main: Proc, i: nat)
    requires IsRun(states, moves, main) && i < |moves| && moves[i].action == JoinPost
    ensures
      var st, p := states[i], moves[i].proc;
      && p in st.procs && st.procs[p].pc.JoinExitRelease? && Points(st, st.procs[p].pc.target)
      && var c := st.pcb[st.procs[p].pc.target];
      c in st.parent && st.parent[c] == p && c in st.passed && moves[i].outcome == Returned(st.passed[c])
  {
    var st, p := states[i], moves[i].proc;
    RunInv(states, moves, main, i);
    assert Next(st, p, JoinPost, states[i + 1], moves[i].outcome);
    assert JoinerOk(st, p) && ChildAt(st, p);
    var c := JoinTarget(st, p);
    JoinMovesTokens(st, p, JoinPost, states[i + 1], moves[i].outcome, c);
  }

  /** A child clears its slot and deletes its PCB only after its parent has read the code and released it. */
  lemma DeletedAfterRelease(states: seq<State>, moves: seq<Move>, main: Proc, i: nat)
    requires IsRun(states, moves, main) && i < |moves| && moves[i].action == ExitDelete
    ensures moves[i].proc in states[i].stage && states[i].stage[moves[i].proc] == Done
  {
    RunInv(states, moves, main, i);
    assert Next(states[i], moves[i].proc, ExitDelete, states[i + 1], moves[i].outcome);
    DeleteKeepsInv(states[i], moves[i].proc, states[i + 1]);
  }

  /** Slots are never shared, every marked slot leads to a live PCB, and no join ever follows a dead pointer. */
  lemma NoDanglingPcb(states: seq<State>, moves: seq<Move>, main: Proc, i: nat, p: Proc, q: Proc)
    requires IsRun(states, moves, main) && i < |states| && p in states[i].procs && q in states[i].procs
    ensures states[i].procs[p].pid == states[i].procs[q].pid ==> p == q
    ensures forall k :: k in states[i].bm ==> Points(states[i], k)
    ensures states[i].procs[p].pc.Joining() ==> Points(states[i], states[i].procs[p].pc.target)
  {
    var st := states[i];
    RunInv(states, moves, main, i);
    OwnPcb(st, p);
    OwnPcb(st, q);
    forall k | k in st.bm
      ensures Points(st, k)
    {
      assert Occupied(st.pcb, st.procs, k);
      OwnPcb(st, st.pcb[k]);
    }
    assert JoinerOk(st, p);
    if st.procs[p].pc.Joining() { JoinerSlot(st, p); }
  }

  // ---------- nobody is stuck in the handshake ----------

  /** The next step of a joining parent, if it is not refused by a semaphore. */
  ghost predicate JoinCanStep(st: State, p: Proc)
  {
    exists a, st', r :: (a == JoinTake || a == JoinGet || a == JoinPost) && Next(st, p, a, st', r)
  }

  ghost predicate ExitCanTake(st: State, c: Proc)
  {
    exists st', r :: Next(st, c, ExitTake, st', r)
  }

  /**
   A joining parent is held up only in JoinWait, and there exactly as long as its child has not come to ExitWait. So the two
   are never both stuck: when the child waits in ExitWait for a parent that is joining it, the parent can go on.
   */
  lemma ParentGoesOn(states: seq<State>, moves: seq<Move>, main: Proc, i: nat, p: Proc)
    requires IsRun(states, moves, main) && i < |states| && p in states[i].procs && states[i].procs[p].pc.Joining()
    ensures
      var st := states[i];
      && Points(st, st.procs[p].pc.target)
      && var c := st.pcb[st.procs[p].pc.target];
      && c in st.procs && c in st.parent && st.parent[c] == p
      && (JoinCanStep(st, p) <==> (st.procs[p].pc.JoinWait? ==> st.procs[c].pc == ExitWait))
  {
    var st := states[i];
    RunInv(states, moves, main, i);
    var c := JoinTarget(st, p);
    assert JoinerOk(st, p) && ChildAt(st, p) && ChildAt(st, c);
    JoinStepExact(st, p, c);
  }

  lemma JoinStepExact(st: State, p: Proc, c: Proc)
    requires p in st.procs && st.procs[p].pc.Joining() && Points(st, st.procs[p].pc.target)
    requires c == st.pcb[st.procs[p].pc.target]
    ensures JoinCanStep(st, p) <==> (st.procs[p].pc.JoinWait? ==> st.pcbs[c].joinsem > 0)
  {
    var t := st.procs[p].pc.target;
    var b := st.pcbs[c];
    match st.procs[p].pc
    case JoinWait(_) =>
      if b.joinsem > 0 {
        var st' := SetPcb(Goto(st, p, JoinRead(t)), c, b.(joinsem := b.joinsem - 1)).(stage := st.stage[c := Reading]);
        assert Next(st, p, JoinTake, st', Nothing);
      }
    case JoinRead(_) =>
      var st' := Goto(st, p, JoinExitRelease(t, b.exitcode)).(stage := st.stage[c := Releasing]);
      assert Next(st, p, JoinGet, st', Nothing);
    case JoinExitRelease(_, code) =>
      var st' := SetPcb(Goto(st, p, Run), c, b.(exitsem := b.exitsem + 1)).(stage := st.stage[c := Done]);
      assert Next(st, p, JoinPost, st', Returned(code));
  }

  /** A child in ExitWait can go on exactly when its parent has read the code and released it. */
  lemma ChildGoesOn(states: seq<State>, moves: seq<Move>, main: Proc, i: nat, c: Proc)
    requires IsRun(states, moves, main) && i < |states| && c in states[i].procs && states[i].procs[c].pc == ExitWait
    ensures c in states[i].stage && (ExitCanTake(states[i], c) <==> states[i].stage[c] == Done)
  {
    var st := states[i];
    RunInv(states, moves, main, i);
    OwnPcb(st, c);
    assert ExitingOk(st, c) && ChildAt(st, c);
    if st.stage[c] == Done {
      var b := st.pcbs[c];
      assert Next(st, c, ExitTake, SetPcb(Goto(st, c, ExitRemove), c, b.(exitsem := b.exitsem - 1)), Nothing);
    }
  }
}
