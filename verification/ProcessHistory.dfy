/**
 What the process table's runs owe to their callers (threads/ptable.cc): which calls are let in, and that codes, parents
 and releases are those of earlier calls of the same run.
 */
module ProcessHistory {
  import opened ProcessTable

  /** Slot target holds a live child of p. */
  ghost predicate ChildIn(st: State, p: Proc, target: Pid)
  {
    exists c :: c in st.procs && c in st.parent && st.parent[c] == p && st.procs[c].pid == target
  }

  // ---------- which Join is let in ----------

  lemma ChildAtSlot(st: State, p: Proc, c: Proc)
    requires Inv(st) && p in st.procs && c in st.procs && c in st.parent && st.parent[c] == p
    ensures
      var target := st.procs[c].pid;
      && IsExist(st, target) && st.procs[p].pid != target && Points(st, target) && st.pcb[target] == c
      && st.pcbs[c].parentID == st.procs[p].pid
  {
    OwnPcb(st, p);
    OwnPcb(st, c);
    assert SlotOk(st.bm, st.pcb, st.pcbs, c, st.procs[c].pid) && FamilyOk(st.pcbs, st.procs, st.parent, c);
  }

  lemma SlotHoldsChild(st: State, p: Proc, target: Pid)
    requires Inv(st) && p in st.procs && IsExist(st, target)
    ensures Points(st, target)
    ensures st.pcbs[st.pcb[target]].parentID == st.procs[p].pid ==>
      var c := st.pcb[target]; c in st.procs && c in st.parent && st.parent[c] == p && st.procs[c].pid == target
  {
    assert Occupied(st.pcb, st.procs, target);
    var c := st.pcb[target];
    OwnPcb(st, c);
    OwnPcb(st, p);
    assert FamilyOk(st.pcbs, st.procs, st.parent, c);
    if c in st.parent { OwnPcb(st, st.parent[c]); }
    assert SlotOk(st.bm, st.pcb, st.pcbs, p, st.procs[p].pid);
  }

  /** A Join is refused if and only if the slot does not hold a live child of the caller. */
  lemma JoinAnswers(states: seq<State>, moves: seq<Move>, main: Proc, i: nat, target: Pid)
    requires IsRun(states, moves, main) && i < |moves| && moves[i].action == JoinStart(target)
    ensures
      var st, p := states[i], moves[i].proc;
      && p in st.procs && p in states[i + 1].procs
      && (moves[i].outcome == Returned(-1) <==> !ChildIn(st, p, target))
      && (ChildIn(st, p, target) ==>
            moves[i].outcome == Nothing && states[i + 1].procs[p].pc == JoinWait(target) && states[i + 1].pcbs == st.pcbs)
      && (!ChildIn(st, p, target) ==> states[i + 1] == st)
  {
    var st, p := states[i], moves[i].proc;
    RunInv(states, moves, main, i);
    assert Next(st, p, JoinStart(target), states[i + 1], moves[i].outcome);
    hide Inv;
    if ChildIn(st, p, target) {
      var c :| c in st.procs && c in st.parent && st.parent[c] == p && st.procs[c].pid == target;
      ChildAtSlot(st, p, c);
    } else if IsExist(st, target) {
      SlotHoldsChild(st, p, target);
    }
  }

  /** And every first Join is possible at once, whatever the child has done so far. */
  lemma JoinIsPossible(states: seq<State>, moves: seq<Move>, main: Proc, i: nat, p: Proc, target: Pid)
    requires IsRun(states, moves, main) && i < |states| && p in states[i].procs && states[i].procs[p].pc == Run
    ensures !ChildIn(states[i], p, target) ==> Next(states[i], p, JoinStart(target), states[i], Returned(-1))
    ensures ChildIn(states[i], p, target) && MayJoin(states[i], target) ==>
      exists st' :: Next(states[i], p, JoinStart(target), st', Nothing)
  {
    var st := states[i];
    RunInv(states, moves, main, i);
    hide Inv;
    if ChildIn(st, p, target) {
      var c :| c in st.procs && c in st.parent && st.parent[c] == p && st.procs[c].pid == target;
      ChildAtSlot(st, p, c);
      if MayJoin(st, target) {
        assert Next(st, p, JoinStart(target), Goto(st, p, JoinWait(target)).(stage := st.stage[c := Waiting]), Nothing);
      }
    } else if IsExist(st, target) {
      SlotHoldsChild(st, p, target);
    }
  }

  // ---------- Exec ----------

  /** Exec gives the lowest slot that no live process has, and is refused exactly when every slot has one. */
  lemma ExecTakesLowest(states: seq<State>, moves: seq<Move>, main: Proc, i: nat)
    requires IsRun(states, moves, main) && i < |moves| && (moves[i].action.Exec? || moves[i].action == ExecFull)
    ensures moves[i].action.Exec? ==>
      var slot := moves[i].action.slot;
      && moves[i].outcome == Returned(slot) && 0 <= slot < 10
      && !HasSlot(states[i], slot) && (forall k :: 0 <= k < slot ==> HasSlot(states[i], k))
      && moves[i].action.child in states[i + 1].procs
      && states[i + 1].procs[moves[i].action.child] == Process(slot, Run)
    ensures moves[i].action == ExecFull ==>
      moves[i].outcome == Returned(-1) && states[i + 1] == states[i] && forall k :: 0 <= k < 10 ==> HasSlot(states[i], k)
  {
    var st := states[i];
    RunInv(states, moves, main, i);
    assert Next(st, moves[i].proc, moves[i].action, states[i + 1], moves[i].outcome);
    hide Inv;
    forall k: Pid
      ensures k in st.bm <==> HasSlot(st, k)
    {
      MarkedIffLive(st, k);
    }
  }

  /** A running process can always call Exec: for any process not seen before if some slot is free, and else to be refused. */
  lemma ExecIsPossible(states: seq<State>, moves: seq<Move>, main: Proc, i: nat, p: Proc, child: Proc)
    requires IsRun(states, moves, main) && i < |states| && p in states[i].procs && states[i].procs[p].pc == Run
    requires IsNew(states[i], child)
    ensures (exists slot, st', r :: Next(states[i], p, Exec(child, slot), st', r)) <==>
            exists k :: 0 <= k < 10 && !HasSlot(states[i], k)
    ensures (exists st', r :: Next(states[i], p, ExecFull, st', r)) <==> forall k :: 0 <= k < 10 ==> HasSlot(states[i], k)
  {
    var st := states[i];
    RunInv(states, moves, main, i);
    hide Inv;
    forall k: Pid
      ensures k in st.bm <==> HasSlot(st, k)
    {
      MarkedIffLive(st, k);
    }
    hide HasSlot;
    if NoFreeSlot(st) {
      assert Next(st, p, ExecFull, st, Returned(-1));
    } else {
      var slot := LowestFree(st, 0);
      assert Next(st, p, Exec(child, slot), st.(
        bm := st.bm + {slot}, pcb := st.pcb[slot := child],
        pcbs := st.pcbs[child := Pcb(st.procs[p].pid, 0, 0, 0)],
        procs := st.procs[child := Process(slot, Run)],
        parent := st.parent[child := p], stage := st.stage[child := NotJoined]), Returned(slot));
    }
  }

  ghost predicate IsNew(st: State, child: Proc)
  {
    child !in st.parent && child !in st.procs && child !in st.pcbs && child !in st.stage && child !in st.passed
  }

  lemma {:induction false} LowestFree(st: State, k: nat) returns (slot: Pid)
    requires !NoFreeSlot(st) && k <= 10 && forall j :: 0 <= j < k ==> j in st.bm
    ensures IsFreeSlot(st, slot)
    decreases 10 - k
  {
    if k !in st.bm && k < 10 {
      slot := k;
    } else {
      slot := LowestFree(st, k + 1);
    }
  }

  ghost predicate HasSlot(st: State, k: Pid)
  {
    exists p :: p in st.procs && st.procs[p].pid == k
  }

  lemma MarkedIffLive(st: State, k: Pid)
    requires Inv(st)
    ensures k in st.bm <==> HasSlot(st, k)
  {
    if k in st.bm {
      assert Occupied(st.pcb, st.procs, k);
    }
    if HasSlot(st, k) {
      var p :| p in st.procs && st.procs[p].pid == k;
      assert SlotOk(st.bm, st.pcb, st.pcbs, p, k);
    }
  }

  // ---------- every history is somebody's call ----------

  ghost predicate PassedTold(st: State, p: Proc, a: Action, st': State, c: Proc)
  {
    c in st'.passed && !(c in st.passed && st.passed[c] == st'.passed[c]) ==> p == c && a == ExitStart(st'.passed[c])
  }

  ghost predicate ParentTold(st: State, p: Proc, a: Action, st': State, c: Proc)
  {
    && (c in st'.parent && !(c in st.parent && st.parent[c] == st'.parent[c]) ==>
          a.Exec? && a.child == c && p == st'.parent[c])
    && (c in st.parent ==> c in st'.parent && st'.parent[c] == st.parent[c])
  }

  ghost predicate StageTold(st: State, p: Proc, a: Action, st': State, c: Proc)
  {
    c in st'.stage && st'.stage[c] == Done && !(c in st.stage && st.stage[c] == Done) ==>
      && a == JoinPost && p in st.procs && st.procs[p].pc.JoinExitRelease?
      && st.procs[p].pc.target in st.pcb && st.pcb[st.procs[p].pc.target] == c
  }

  lemma ExecHistory(st: State, p: Proc, child: Proc, slot: Pid, st': State, c: Proc)
    requires p in st.procs && StepExec(st, p, child, slot, st')
    ensures
      var a := Exec(child, slot);
      PassedTold(st, p, a, st', c) && ParentTold(st, p, a, st', c) && StageTold(st, p, a, st', c)
  {
  }

  lemma ExitHistory(st: State, p: Proc, a: Action, st': State, c: Proc)
    requires p in st.procs && StepExit(st, p, a, st')
    ensures PassedTold(st, p, a, st', c) && ParentTold(st, p, a, st', c) && StageTold(st, p, a, st', c)
  {
    hide IsExist, NoChildren;
  }

  lemma JoinHistory(st: State, p: Proc, a: Action, st': State, r: Outcome, c: Proc)
    requires p in st.procs && StepJoin(st, p, a, st', r)
    ensures PassedTold(st, p, a, st', c) && ParentTold(st, p, a, st', c) && StageTold(st, p, a, st', c)
  {
    hide IsExist, MayJoin;
  }

  /** Each step tells the histories what it does, and nothing else. */
  lemma StepHistory(st: State, p: Proc, a: Action, st': State, r: Outcome, c: Proc)
    requires Next(st, p, a, st', r)
    ensures PassedTold(st, p, a, st', c) && ParentTold(st, p, a, st', c) && StageTold(st, p, a, st', c)
  {
    hide StepExec, StepExit, StepJoin, NoFreeSlot;
    match a
    case Exec(child, slot) => ExecHistory(st, p, child, slot, st', c);
    case ExecFull =>
    case ExitStart(_) => ExitHistory(st, p, a, st', c);
    case ExitPost => ExitHistory(st, p, a, st', c);
    case ExitTake => ExitHistory(st, p, a, st', c);
    case ExitDelete => ExitHistory(st, p, a, st', c);
    case JoinStart(_) => JoinHistory(st, p, a, st', r, c);
    case JoinTake => JoinHistory(st, p, a, st', r, c);
    case JoinGet => JoinHistory(st, p, a, st', r, c);
    case JoinPost => JoinHistory(st, p, a, st', r, c);
  }

  /** The code kept for a process is the one that it gave to Exit. */
  lemma {:induction false} PassedByExit(states: seq<State>, moves: seq<Move>, main: Proc, i: nat, c: Proc) returns (j: nat)
    requires IsRun(states, moves, main) && i < |states| && c in states[i].passed
    ensures j < i && moves[j].proc == c && moves[j].action == ExitStart(states[i].passed[c])
  {
    hide Next, Inv;
    NothingAtFirst(states[0], main);
    assert i > 0;
    RunInv(states, moves, main, i - 1);
    StepHistory(states[i - 1], moves[i - 1].proc, moves[i - 1].action, states[i], moves[i - 1].outcome, c);
    if c in states[i - 1].passed && states[i - 1].passed[c] == states[i].passed[c] {
      j := PassedByExit(states, moves, main, i - 1, c);
    } else {
      j := i - 1;
    }
  }

  lemma NothingAtFirst(st: State, main: Proc)
    requires Init(st, main)
    ensures st.passed == map[] && st.parent == map[] && st.stage == map[]
  {
  }

  /** The parent of a process is the one that executed it. */
  lemma {:induction false} ParentExecuted(states: seq<State>, moves: seq<Move>, main: Proc, i: nat, c: Proc) returns (j: nat)
    requires IsRun(states, moves, main) && i < |states| && c in states[i].parent
    ensures j < i && moves[j].proc == states[i].parent[c] && moves[j].action.Exec? && moves[j].action.child == c
  {
    hide Next, Inv;
    NothingAtFirst(states[0], main);
    assert i > 0;
    RunInv(states, moves, main, i - 1);
    StepHistory(states[i - 1], moves[i - 1].proc, moves[i - 1].action, states[i], moves[i - 1].outcome, c);
    if c in states[i - 1].parent && states[i - 1].parent[c] == states[i].parent[c] {
      j := ParentExecuted(states, moves, main, i - 1, c);
    } else {
      j := i - 1;
    }
  }

  /** A Join that is done for c is one that some process made on c and finished. */
  lemma {:induction false} DoneByJoin(states: seq<State>, moves: seq<Move>, main: Proc, i: nat, c: Proc) returns (j: nat)
    requires IsRun(states, moves, main) && i < |states| && c in states[i].stage && states[i].stage[c] == Done
    ensures j < i && JoinsChild(states[j], moves[j], c)
  {
    hide Next, Inv;
    NothingAtFirst(states[0], main);
    assert i > 0;
    RunInv(states, moves, main, i - 1);
    StepHistory(states[i - 1], moves[i - 1].proc, moves[i - 1].action, states[i], moves[i - 1].outcome, c);
    if c in states[i - 1].stage && states[i - 1].stage[c] == Done {
      j := DoneByJoin(states, moves, main, i - 1, c);
    } else {
      j := i - 1;
    }
  }

  /** The move is the end of a Join on process c. */
  ghost predicate JoinsChild(st: State, move: Move, c: Proc)
  {
    && move.action == JoinPost && move.proc in st.procs && st.procs[move.proc].pc.JoinExitRelease?
    && st.procs[move.proc].pc.target in st.pcb && st.pcb[st.procs[move.proc].pc.target] == c
  }

  // ---------- the handshake, in terms of calls alone ----------

  /** What Join returns is the argument of an earlier Exit of the joined process, whose Exec was the caller's. */
  lemma JoinReturnsExitArgument(states: seq<State>, moves: seq<Move>, main: Proc, i: nat)
    requires IsRun(states, moves, main) && i < |moves| && moves[i].action == JoinPost
    ensures exists c, j, e ::
      && JoinsChild(states[i], moves[i], c) && 0 <= j < i && 0 <= e < i
      && moves[j].proc == c && moves[j].action.ExitStart? && moves[i].outcome == Returned(moves[j].action.code)
      && moves[e].proc == moves[i].proc && moves[e].action.Exec? && moves[e].action.child == c
  {
    JoinReturnsExitCode(states, moves, main, i);
    hide Next, Inv;
    var st := states[i];
    var c := st.pcb[st.procs[moves[i].proc].pc.target];
    var j := PassedByExit(states, moves, main, i, c);
    var e := ParentExecuted(states, moves, main, i, c);
    assert JoinsChild(st, moves[i], c);
  }

  /** A process is deleted only after a Join on it has returned. */
  lemma DeletedAfterJoin(states: seq<State>, moves: seq<Move>, main: Proc, i: nat)
    requires IsRun(states, moves, main) && i < |moves| && moves[i].action == ExitDelete
    ensures exists j :: 0 <= j < i && JoinsChild(states[j], moves[j], moves[i].proc)
  {
    DeletedAfterRelease(states, moves, main, i);
    hide Next, Inv;
    var j := DoneByJoin(states, moves, main, i, moves[i].proc);
  }

  // ---------- a process exits once ----------

  /** On its way out, or gone. */
  ghost predicate Leaving(st: State, c: Proc)
  {
    c in st.parent && (c in st.procs ==> var pc := st.procs[c].pc; pc == ExitJoinRelease || pc == ExitWait || pc == ExitRemove)
  }

  lemma LeavingStays(st: State, p: Proc, a: Action, st': State, r: Outcome, c: Proc)
    requires Inv(st) && Next(st, p, a, st', r)
    ensures Leaving(st, c) ==> Leaving(st', c)
    ensures p == c && a.ExitStart? ==> !Leaving(st, c) && Leaving(st', c)
  {
    if p in st.procs { OwnPcb(st, p); }
    hide Inv;
  }

  lemma {:induction false} StaysAway(states: seq<State>, moves: seq<Move>, main: Proc, i: nat, k: nat, c: Proc)
    requires IsRun(states, moves, main) && i <= k < |states| && Leaving(states[i], c)
    ensures Leaving(states[k], c)
  {
    hide Next, Inv, Leaving;
    if i < k {
      StaysAway(states, moves, main, i, k - 1, c);
      RunInv(states, moves, main, k - 1);
      LeavingStays(states[k - 1], moves[k - 1].proc, moves[k - 1].action, states[k], moves[k - 1].outcome, c);
    }
  }

  /** So the code in JoinReturnsExitArgument is the only one there is. */
  lemma ExitsOnce(states: seq<State>, moves: seq<Move>, main: Proc, i: nat, k: nat)
    requires IsRun(states, moves, main) && i < k < |moves| && moves[i].action.ExitStart? && moves[k].action.ExitStart?
    ensures moves[i].proc != moves[k].proc
  {
    hide Next, Inv, Leaving;
    var c := moves[i].proc;
    RunInv(states, moves, main, i);
    LeavingStays(states[i], moves[i].proc, moves[i].action, states[i + 1], moves[i].outcome, c);
    StaysAway(states, moves, main, i + 1, k, c);
    RunInv(states, moves, main, k);
    LeavingStays(states[k], moves[k].proc, moves[k].action, states[k + 1], moves[k].outcome, c);
  }

  /** A child that exits goes on by itself up to ExitWait, and again once it was released. */
  lemma ExitIsPossible(states: seq<State>, moves: seq<Move>, main: Proc, i: nat, c: Proc, code: int)
    requires IsRun(states, moves, main) && i < |states| && c in states[i].procs
    ensures
      var st := states[i];
      && (st.procs[c].pc == Run && st.procs[c].pid != 0 && NoChildren(st, c) ==>
            exists st' :: Next(st, c, ExitStart(code), st', Nothing))
      && (st.procs[c].pc == ExitJoinRelease ==> exists st' :: Next(st, c, ExitPost, st', Nothing))
      && (st.procs[c].pc == ExitRemove ==> exists st' :: Next(st, c, ExitDelete, st', Nothing))
  {
    var st := states[i];
    RunInv(states, moves, main, i);
    OwnPcb(st, c);
    assert SlotOk(st.bm, st.pcb, st.pcbs, c, st.procs[c].pid);
    hide Inv, Next;
    ExitStepExists(st, c, code);
  }

  lemma ExitStepExists(st: State, c: Proc, code: int)
    requires c in st.procs && IsExist(st, st.procs[c].pid) && Points(st, st.procs[c].pid) && st.pcb[st.procs[c].pid] == c
    ensures st.procs[c].pc == Run && st.procs[c].pid != 0 && NoChildren(st, c) ==>
      exists st' :: Next(st, c, ExitStart(code), st', Nothing)
    ensures st.procs[c].pc == ExitJoinRelease ==> exists st' :: Next(st, c, ExitPost, st', Nothing)
    ensures st.procs[c].pc == ExitRemove ==> exists st' :: Next(st, c, ExitDelete, st', Nothing)
  {
    var b, pid := st.pcbs[c], st.procs[c].pid;
    if st.procs[c].pc == Run && pid != 0 && NoChildren(st, c) {
      var st' := SetPcb(Goto(st, c, ExitJoinRelease), c, b.(exitcode := code)).(passed := st.passed[c := code]);
      assert Next(st, c, ExitStart(code), st', Nothing);
    } else if st.procs[c].pc == ExitJoinRelease {
      assert Next(st, c, ExitPost, SetPcb(Goto(st, c, ExitWait), c, b.(joinsem := b.joinsem + 1)), Nothing);
    } else if st.procs[c].pc == ExitRemove {
      assert Next(st, c, ExitDelete, st.(bm := st.bm - {pid}, pcbs := st.pcbs - {c}, procs := st.procs - {c}), Nothing);
    }
  }
}
