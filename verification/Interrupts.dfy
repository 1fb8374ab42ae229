/**
 Simulated time and the interrupt queue (machine/interrupt.cc). Device handlers run when their interrupt is due and
 may schedule more interrupts; what they schedule is a parameter of the model, free to differ at every call.
 */
module Interrupts {
  import Lists

  const SYSTEM_TICK := 10
  const USER_TICK := 1

  datatype IntStatus = IntOff | IntOn
  datatype MachineStatus = IdleMode | SystemMode | UserMode
  datatype IntType = TimerInt | DiskInt | ConsoleWriteInt | ConsoleReadInt | NetworkSendInt | NetworkRecvInt

  /** A scheduled interrupt; id counts Schedule calls and only serves to tell which came first. */
  datatype Pending = Pending(when_: int, kind: IntType, id: nat)

  /** History: an interrupt and the time at which its handler ran. */
  datatype Fired = Fired(interrupt: Pending, at: int)

  /** What a handler schedules: delays and kinds, in order; and whether it asks for a context switch. */
  datatype Reaction = Reaction(requests: seq<(int, IntType)>, wantsYield: bool)
  {
    /** Schedule asserts that the delay is positive. */
    ghost predicate Legal()
    {
      forall i :: 0 <= i < |requests| ==> requests[i].0 > 0
    }
  }

  /** The handlers of all devices; the number tells apart successive calls. */
  type Handlers = (Pending, nat) -> Reaction

  ghost predicate LegalHandlers(h: Handlers)
  {
    forall p, n :: h(p, n).Legal()
  }

  /** a is to run before b: due earlier, or due together and scheduled first. */
  predicate Earlier(a: Pending, b: Pending)
  {
    a.when_ < b.when_ || (a.when_ == b.when_ && a.id < b.id)
  }

  ghost predicate Ordered(q: seq<Pending>)
  {
    forall i, j :: 0 <= i < j < |q| ==> Earlier(q[i], q[j])
  }

  ghost predicate IdsBelow(q: seq<Pending>, n: nat)
  {
    forall i :: 0 <= i < |q| ==> q[i].id < n
  }

  ghost predicate AllAfter(q: seq<Pending>, time: int)
  {
    forall i :: 0 <= i < |q| ==> q[i].when_ > time
  }

  /** PendingCompare looks at the due time alone. */
  function PendingCompare(x: Pending, y: Pending): int
  {
    if x.when_ < y.when_ then -1 else if x.when_ > y.when_ then 1 else 0
  }

  /** The pending list is a sorted list: a new interrupt goes behind everything due no later. */
  function Insert(q: seq<Pending>, p: Pending): seq<Pending>
  {
    Lists.SortedInsert(q, p, PendingCompare)
  }

  /** Where the new interrupt goes. */
  lemma InsertAt(q: seq<Pending>, p: Pending) returns (k: nat)
    requires Ordered(q)
    ensures k <= |q| && Insert(q, p) == Lists.With(q, k, p)
    ensures forall j :: 0 <= j < k ==> q[j].when_ <= p.when_
    ensures forall j :: k <= j < |q| ==> q[j].when_ > p.when_
  {
    k := Lists.SortedInsertSplits(q, p, PendingCompare);
    forall j | 0 <= j < k ensures q[j].when_ <= p.when_ { assert PendingCompare(q[j], p) <= 0; }
    forall j | k <= j < |q| ensures q[j].when_ > p.when_ { assert PendingCompare(p, q[j]) < 0; }
  }

  lemma InsertMembers(q: seq<Pending>, p: Pending)
    requires Ordered(q)
    ensures multiset(Insert(q, p)) == multiset(q) + multiset{p}
    ensures forall x :: x in Insert(q, p) <==> x in q || x == p
  {
    var k := InsertAt(q, p);
    assert q == q[..k] + q[k..];
    assert forall x :: x in Insert(q, p) <==> x in multiset(Insert(q, p));
  }

  /** Scheduling keeps the queue in due order, ties first scheduled first. */
  lemma InsertOrdered(q: seq<Pending>, p: Pending)
    requires Ordered(q) && IdsBelow(q, p.id)
    ensures Ordered(Insert(q, p)) && IdsBelow(Insert(q, p), p.id + 1)
  {
    var k := InsertAt(q, p);
    var r := Lists.With(q, k, p);
    forall i | 0 <= i < |r|
      ensures r[i].id < p.id + 1
    {
      assert i == k || r[i] == q[if i < k then i else i - 1];
    }
    forall i, j | 0 <= i < j < |r|
      ensures Earlier(r[i], r[j])
    {
      assert i == k || r[i] == q[if i < k then i else i - 1];
      assert j == k || r[j] == q[if j < k then j else j - 1];
    }
  }

  lemma InsertAfter(q: seq<Pending>, p: Pending, time: int)
    requires Ordered(q) && p.when_ > time
    ensures AllAfter(q, time) ==> AllAfter(Insert(q, p), time)
  {
    InsertMembers(q, p);
    if AllAfter(q, time) {
      forall i | 0 <= i < |Insert(q, p)|
        ensures Insert(q, p)[i].when_ > time
      {
        assert Insert(q, p)[i] in Insert(q, p);
      }
    }
  }

  /** How many interrupts at the front are due. */
  function DueCount(q: seq<Pending>, time: int): (n: nat)
    ensures n <= |q|
  {
    if q == [] || q[0].when_ > time then 0 else 1 + DueCount(q[1..], time)
  }

  /** The due front is due, and nothing behind it is. */
  lemma {:induction false} DueFront(q: seq<Pending>, time: int)
    requires Ordered(q)
    ensures forall i :: 0 <= i < DueCount(q, time) ==> q[i].when_ <= time
    ensures AllAfter(q[DueCount(q, time)..], time)
  {
    if q != [] && q[0].when_ <= time {
      DueFront(q[1..], time);
      assert q[1..][DueCount(q[1..], time)..] == q[DueCount(q, time)..];
    } else if q != [] {
      assert forall i :: 0 < i < |q| ==> Earlier(q[0], q[i]);
    }
  }

  lemma {:induction false} DueCountIs(q: seq<Pending>, n: nat, time: int)
    requires n <= |q| && (forall i :: 0 <= i < n ==> q[i].when_ <= time) && (n < |q| ==> q[n].when_ > time)
    ensures DueCount(q, time) == n
  {
    if n > 0 { DueCountIs(q[1..], n - 1, time); }
  }

  /** The test of the firing loop. */
  lemma DueHead(q: seq<Pending>, time: int)
    ensures q != [] && q[0].when_ <= time <==> DueCount(q, time) > 0
  {
  }

  lemma DueTail(q: seq<Pending>, time: int)
    requires q != [] && q[0].when_ <= time
    ensures
      var n := DueCount(q, time);
      n > 0 && DueCount(q[1..], time) == n - 1 && q[1..][..n - 1] == q[1..n]
  {
  }

  lemma FrontIsFirst(q: seq<Pending>, time: int)
    requires Ordered(q) && q != [] && q[0].when_ > time - SYSTEM_TICK
    ensures AllAfter(q, time - SYSTEM_TICK)
  {
    forall i | 0 <= i < |q|
      ensures q[i].when_ > time - SYSTEM_TICK
    {
      if i > 0 { assert Earlier(q[0], q[i]); }
    }
  }

  /** What is due later stands behind what is due. */
  lemma DueBefore(q: seq<Pending>, n: nat, k: nat, time: int)
    requires n <= |q| && (forall j :: 0 <= j < n ==> q[j].when_ <= time) && (k < |q| ==> q[k].when_ > time)
    requires k <= |q|
    ensures n <= k
  {
  }

  /** Inserting something due later does not touch the due front. */
  lemma InsertKeepsDue(q: seq<Pending>, p: Pending, time: int)
    requires Ordered(q) && p.when_ > time
    ensures DueCount(Insert(q, p), time) == DueCount(q, time) <= |Insert(q, p)|
    ensures Insert(q, p)[..DueCount(q, time)] == q[..DueCount(q, time)]
  {
    var n := DueCount(q, time);
    var k := InsertAt(q, p);
    DueFront(q, time);
    var r := Lists.With(q, k, p);
    DueBefore(q, n, k, time);
    assert forall i :: 0 <= i < n ==> r[i] == q[i];
    assert r[n].when_ > time by {
      if n < k { assert r[n] == q[n] == q[n..][0]; }
    }
    DueCountIs(r, n, time);
  }

  // ---------- the books: what was asked for, what ran, what waits ----------

  /**
   Everything ever scheduled, in order of scheduling; the queue; the history of handlers that ran; and whether a handler
   asked for a context switch that has not happened yet.
   */
  datatype Books = Books(requested: seq<Pending>, pending: seq<Pending>, fired: seq<Fired>, yielding: bool)

  /** The interrupts of a history. */
  function Ran(fired: seq<Fired>): (r: seq<Pending>)
    ensures |r| == |fired|
  {
    seq(|fired|, i requires 0 <= i < |fired| => fired[i].interrupt)
  }

  ghost predicate Numbered(requested: seq<Pending>)
  {
    forall k :: 0 <= k < |requested| ==> requested[k].id == k
  }

  /** Nothing lost, nothing run twice, nothing made up: what was scheduled either waits or has run. */
  ghost predicate Conserved(b: Books)
  {
    Numbered(b.requested) && multiset(b.requested) == multiset(b.pending) + multiset(Ran(b.fired))
  }

  /** Everything fired ran before everything still pending was due to run. */
  ghost predicate FiredFirst(fired: seq<Fired>, q: seq<Pending>)
  {
    forall i, x :: 0 <= i < |fired| && x in q ==> Earlier(fired[i].interrupt, x)
  }

  /** Handlers ran in order of due time, first scheduled first; none early, none SystemTick or more late. */
  ghost predicate Punctual(fired: seq<Fired>, time: int)
  {
    && (forall i, j :: 0 <= i < j < |fired| ==> Earlier(fired[i].interrupt, fired[j].interrupt))
    && (forall i :: 0 <= i < |fired| ==>
          fired[i].interrupt.when_ <= fired[i].at <= fired[i].interrupt.when_ + SYSTEM_TICK - 1 && fired[i].at <= time)
  }

  ghost predicate BooksOk(b: Books, time: int)
  {
    && Ordered(b.pending) && IdsBelow(b.pending, |b.requested|)
    && FiredFirst(b.fired, b.pending) && Punctual(b.fired, time) && Conserved(b)
  }

  lemma BooksOrdered(b: Books, time: int)
    requires BooksOk(b, time)
    ensures Ordered(b.pending)
  {
  }

  lemma YieldsNoMatter(b: Books, time: int)
    requires BooksOk(b, time)
    ensures BooksOk(b.(yielding := false), time)
  {
  }

  lemma TimePasses(b: Books, time: int, time': int)
    requires BooksOk(b, time) && time <= time'
    ensures BooksOk(b, time')
  {
  }

  /** The books after one Schedule. */
  function Entered(b: Books, p: Pending): Books
  {
    b.(requested := b.requested + [p], pending := Insert(b.pending, p))
  }

  lemma ScheduleKeepsBooks(b: Books, time: int, p: Pending)
    requires BooksOk(b, time) && p.when_ > time && p.id == |b.requested|
    ensures BooksOk(Entered(b, p), time)
  {
    InsertOrdered(b.pending, p);
    InsertMembers(b.pending, p);
  }

  /** The books after the front interrupt is taken off, before its handler has scheduled anything. */
  function Taken(b: Books, time: int): Books
    requires b.pending != []
  {
    b.(pending := b.pending[1..], fired := b.fired + [Fired(b.pending[0], time)])
  }

  lemma TakenKeepsBooks(b: Books, time: int)
    requires BooksOk(b, time) && b.pending != [] && b.pending[0].when_ <= time <= b.pending[0].when_ + SYSTEM_TICK - 1
    ensures BooksOk(Taken(b, time), time)
  {
    var q, log := b.pending, b.fired + [Fired(b.pending[0], time)];
    assert q == [q[0]] + q[1..];
    assert Ran(log) == Ran(b.fired) + [q[0]];
    forall i, x | 0 <= i < |log| && x in q[1..]
      ensures Earlier(log[i].interrupt, x)
    {
      assert x in q;
    }
    forall i, j | 0 <= i < j < |log|
      ensures Earlier(log[i].interrupt, log[j].interrupt)
    {
      if j == |b.fired| { assert q[0] in q; }
    }
  }

  /** Request number k waits or has run, exactly once; it waits only while it is not due, and it ran on time. */
  ghost predicate Settled(b: Books, time: int, k: nat)
    requires k < |b.requested|
  {
    var p := b.requested[k];
    && multiset(b.pending + Ran(b.fired))[p] == 1
    && (p in b.pending <==> p.when_ > time)
    && (p.when_ <= time ==> exists i ::
          0 <= i < |b.fired| && b.fired[i].interrupt == p && p.when_ <= b.fired[i].at <= p.when_ + SYSTEM_TICK - 1)
  }

  /**
   Every interrupt ever scheduled is accounted for exactly once: it waits if and only if it is not due yet; otherwise its
   handler has run, exactly once, not early and less than one system tick late.
   */
  lemma NoneLost(b: Books, time: int, k: nat)
    requires BooksOk(b, time) && AllAfter(b.pending, time) && k < |b.requested|
    ensures Settled(b, time, k)
  {
    var p := b.requested[k];
    OnlyOnce(b.requested, k);
    assert p in multiset(b.requested);
    if p in Ran(b.fired) {
      var i :| 0 <= i < |b.fired| && Ran(b.fired)[i] == p;
      assert b.fired[i].interrupt == p;
    }
  }

  lemma {:induction false} OnlyOnce(requested: seq<Pending>, k: nat)
    requires Numbered(requested) && k < |requested|
    ensures multiset(requested)[requested[k]] == 1
  {
    var p := requested[k];
    assert requested == requested[..k] + [p] + requested[k + 1..];
    assert p !in requested[..k] && p !in requested[k + 1..];
  }

  // ---------- what a batch of handlers does ----------

  /** The interrupts that a handler's requests stand for. */
  function Stamped(requests: seq<(int, IntType)>, time: int, n: nat): (r: seq<Pending>)
    ensures |r| == |requests|
  {
    seq(|requests|, i requires 0 <= i < |requests| => Pending(time + requests[i].0, requests[i].1, n + i))
  }

  lemma StampedNone(time: int, n: nat)
    ensures Stamped([], time, n) == []
  {
  }

  lemma StampedNext(requests: seq<(int, IntType)>, time: int, n: nat, i: nat)
    requires i < |requests|
    ensures Stamped(requests[..i + 1], time, n) ==
            Stamped(requests[..i], time, n) + [Pending(time + requests[i].0, requests[i].1, n + i)]
  {
  }

  /** new_ was scheduled, nothing else changed, and what is due is in front as before. */
  ghost predicate Reacted(b: Books, new_: seq<Pending>, time: int, b': Books)
  {
    var n := DueCount(b.pending, time);
    && b' == b.(requested := b.requested + new_, pending := b'.pending)
    && multiset(b'.pending) == multiset(b.pending) + multiset(new_)
    && DueCount(b'.pending, time) == n && b'.pending[..n] == b.pending[..n]
  }

  lemma ReactedNone(b: Books, time: int)
    ensures Reacted(b, [], time, b)
  {
  }

  lemma ReactedNext(b: Books, new_: seq<Pending>, time: int, b': Books, p: Pending)
    requires Reacted(b, new_, time, b') && Ordered(b'.pending) && p.when_ > time
    ensures Reacted(b, new_ + [p], time, Entered(b', p))
  {
    hide Insert, Ordered;
    InsertKeepsDue(b'.pending, p, time);
    InsertMembers(b'.pending, p);
    assert b.requested + (new_ + [p]) == b.requested + new_ + [p];
  }

  /** All that the handlers of a batch schedule, one after the other, when n interrupts were scheduled before. */
  function Reactions(batch: seq<Pending>, n: nat, h: Handlers, time: int): seq<Pending>
  {
    if batch == [] then []
    else
      var before := Reactions(batch[..|batch| - 1], n, h, time);
      before + Stamped(h(batch[|batch| - 1], n + |before|).requests, time, n + |before|)
  }

  /** Whether one of the handlers of a batch asks for a context switch. */
  function Yields(batch: seq<Pending>, n: nat, h: Handlers, time: int): bool
  {
    if batch == [] then false
    else
      var before := batch[..|batch| - 1];
      Yields(before, n, h, time) || h(batch[|batch| - 1], n + |Reactions(before, n, h, time)|).wantsYield
  }

  /** The log entries of a batch of interrupts fired at the same time. */
  function Batch(q: seq<Pending>, time: int): (r: seq<Fired>)
    ensures |r| == |q|
  {
    seq(|q|, i requires 0 <= i < |q| => Fired(q[i], time))
  }

  /** The handlers logged in log have run, new_ was scheduled, rest and new_ wait, and y says whether to yield. */
  ghost predicate Moved(b: Books, log: seq<Fired>, new_: seq<Pending>, rest: seq<Pending>, y: bool, b': Books)
  {
    && b'.fired == b.fired + log && b'.requested == b.requested + new_
    && multiset(b'.pending) == multiset(rest) + multiset(new_)
    && b'.yielding == (b.yielding || y)
  }

  lemma MovedTwice(
    b: Books, log: seq<Fired>, new_: seq<Pending>, rest: seq<Pending>, y: bool,
    mid: Books, log': seq<Fired>, new': seq<Pending>, y': bool, b': Books)
    requires rest != [] && mid.pending != [] && mid.pending[0] == rest[0]
    requires Moved(b, log, new_, rest, y, mid) && Moved(mid, log', new', mid.pending[1..], y', b')
    ensures Moved(b, log + log', new_ + new', rest[1..], y || y', b')
  {
    WaitingTwice(mid.pending, rest, new_, new');
    assert b.fired + log + log' == b.fired + (log + log');
    assert b.requested + new_ + new' == b.requested + (new_ + new');
  }

  lemma WaitingTwice(left: seq<Pending>, rest: seq<Pending>, new_: seq<Pending>, new': seq<Pending>)
    requires left != [] && rest != [] && left[0] == rest[0] && multiset(left) == multiset(rest) + multiset(new_)
    ensures multiset(left[1..]) + multiset(new') == multiset(rest[1..]) + multiset(new_ + new')
  {
    assert left == [left[0]] + left[1..] && rest == [rest[0]] + rest[1..];
    assert multiset(left[1..]) == multiset(left) - multiset{left[0]};
  }

  /**
   The first n interrupts have run at this time and in this order, their handlers' requests have been scheduled, and the
   queue holds the others and those requests.
   */
  ghost predicate RanFirst(b: Books, n: nat, h: Handlers, time: int, b': Books)
    requires n <= |b.pending|
  {
    var batch, m := b.pending[..n], |b.requested|;
    Moved(b, Batch(batch, time), Reactions(batch, m, h, time), b.pending[n..], Yields(batch, m, h, time), b')
  }

  /** Exactly what is due has run. */
  ghost predicate RanDue(b: Books, h: Handlers, time: int, b': Books)
  {
    RanFirst(b, DueCount(b.pending, time), h, time, b')
  }

  lemma RanNone(b: Books, h: Handlers, time: int)
    ensures RanFirst(b, 0, h, time, b)
  {
    assert b.pending[..0] == [] && b.pending[0..] == b.pending;
  }

  /** One more interrupt of the batch. */
  lemma RanNext(b: Books, n: nat, h: Handlers, time: int, mid: Books, b': Books)
    requires n < |b.pending| && RanFirst(b, n, h, time, mid) && mid.pending != [] && mid.pending[0] == b.pending[n]
    requires RanOne(mid, h, time, b')
    ensures RanFirst(b, n + 1, h, time, b')
  {
    hide Reactions, Yields, Batch, Stamped, Moved;
    var batch, m := b.pending[..n], |b.requested|;
    var before, r := Reactions(batch, m, h, time), h(b.pending[n], |mid.requested|);
    MovedLength(b, Batch(batch, time), before, b.pending[n..], Yields(batch, m, h, time), mid);
    BatchNext(b.pending, n, m, h, time);
    MovedTwice(b, Batch(batch, time), before, b.pending[n..], Yields(batch, m, h, time),
      mid, [Fired(b.pending[n], time)], Stamped(r.requests, time, |mid.requested|), r.wantsYield, b');
    assert b.pending[n..][1..] == b.pending[n + 1..];
  }

  lemma MovedLength(b: Books, log: seq<Fired>, new_: seq<Pending>, rest: seq<Pending>, y: bool, b': Books)
    requires Moved(b, log, new_, rest, y, b')
    ensures |b'.requested| == |b.requested| + |new_|
  {
  }

  /** The front interrupt has run. */
  ghost predicate RanOne(b: Books, h: Handlers, time: int, b': Books)
    requires b.pending != []
  {
    var r := h(b.pending[0], |b.requested|);
    Moved(b, [Fired(b.pending[0], time)], Stamped(r.requests, time, |b.requested|), b.pending[1..], r.wantsYield, b')
  }

  lemma BatchNext(q: seq<Pending>, n: nat, m: nat, h: Handlers, time: int)
    requires n < |q|
    ensures Batch(q[..n + 1], time) == Batch(q[..n], time) + [Fired(q[n], time)]
    ensures
      var before := Reactions(q[..n], m, h, time);
      var r := h(q[n], m + |before|);
      && Reactions(q[..n + 1], m, h, time) == before + Stamped(r.requests, time, m + |before|)
      && Yields(q[..n + 1], m, h, time) == (Yields(q[..n], m, h, time) || r.wantsYield)
  {
    assert q[..n + 1][..n] == q[..n];
  }

  // ---------- every handler gets what it asks for ----------

  /** Call number n of the handler that f tells of: its requests stand on the books, counted from its time, from place n on. */
  ghost predicate HeardAt(f: Fired, h: Handlers, requested: seq<Pending>, n: nat)
  {
    var asked := h(f.interrupt, n).requests;
    n + |asked| <= |requested| &&
    forall j :: 0 <= j < |asked| ==> requested[n + j] == Pending(f.at + asked[j].0, asked[j].1, n + j)
  }

  ghost predicate Heard(f: Fired, h: Handlers, requested: seq<Pending>)
  {
    exists n: nat :: HeardAt(f, h, requested, n)
  }

  ghost predicate AllHeard(fired: seq<Fired>, h: Handlers, requested: seq<Pending>)
  {
    forall i :: 0 <= i < |fired| ==> Heard(fired[i], h, requested)
  }

  lemma HeardLonger(f: Fired, h: Handlers, requested: seq<Pending>, more: seq<Pending>)
    requires Heard(f, h, requested) && requested <= more
    ensures Heard(f, h, more)
  {
    var n: nat :| HeardAt(f, h, requested, n);
    assert HeardAt(f, h, more, n);
  }

  lemma AllHeardLonger(fired: seq<Fired>, h: Handlers, requested: seq<Pending>, more: seq<Pending>)
    requires AllHeard(fired, h, requested) && requested <= more
    ensures AllHeard(fired, h, more)
  {
    hide Heard;
    forall i | 0 <= i < |fired|
      ensures Heard(fired[i], h, more)
    {
      HeardLonger(fired[i], h, requested, more);
    }
  }

  lemma HeardNow(p: Pending, h: Handlers, requested: seq<Pending>, time: int)
    ensures Heard(Fired(p, time), h, requested + Stamped(h(p, |requested|).requests, time, |requested|))
  {
    assert HeardAt(Fired(p, time), h, requested + Stamped(h(p, |requested|).requests, time, |requested|), |requested|);
  }

  lemma BatchLast(batch: seq<Pending>, time: int)
    requires batch != []
    ensures Batch(batch, time) == Batch(batch[..|batch| - 1], time) + [Fired(batch[|batch| - 1], time)]
  {
  }

  lemma {:induction false} BatchHeard(batch: seq<Pending>, requested: seq<Pending>, h: Handlers, time: int)
    ensures AllHeard(Batch(batch, time), h, requested + Reactions(batch, |requested|, h, time))
  {
    hide Heard, Batch, Stamped;
    if batch != [] {
      var n := |batch| - 1;
      var before := Reactions(batch[..n], |requested|, h, time);
      var sofar, all := requested + before, requested + Reactions(batch, |requested|, h, time);
      BatchHeard(batch[..n], requested, h, time);
      HeardNow(batch[n], h, sofar, time);
      assert all == sofar + Stamped(h(batch[n], |sofar|).requests, time, |sofar|);
      BatchLast(batch, time);
      hide Reactions;
      AllHeardLonger(Batch(batch[..n], time), h, sofar, all);
    }
  }

  /** A handler that has run has had all its requests scheduled. */
  lemma RanDueHeard(b: Books, h: Handlers, time: int, b': Books)
    requires RanDue(b, h, time, b') && AllHeard(b.fired, h, b.requested)
    ensures AllHeard(b'.fired, h, b'.requested)
  {
    BatchHeard(b.pending[..DueCount(b.pending, time)], b.requested, h, time);
    hide Heard, Reactions, Batch, Yields, DueCount;
    AllHeardLonger(b.fired, h, b.requested, b'.requested);
  }

  /** The handler of p asks for a context switch in some call, or in every call. */
  ghost predicate MayYield(h: Handlers, p: Pending)
  {
    exists n: nat :: h(p, n).wantsYield
  }

  ghost predicate AlwaysYields(h: Handlers, p: Pending)
  {
    forall n: nat :: h(p, n).wantsYield
  }

  /** A context switch is owed afterwards only if it was before or a handler that ran may have asked for it; surely if one must. */
  lemma YieldOwed(b: Books, h: Handlers, time: int, b': Books)
    requires RanDue(b, h, time, b')
    ensures |b.fired| <= |b'.fired| && (b.yielding ==> b'.yielding)
    ensures b'.yielding ==> b.yielding || exists f :: f in b'.fired[|b.fired|..] && MayYield(h, f.interrupt)
    ensures (exists f :: f in b'.fired[|b.fired|..] && AlwaysYields(h, f.interrupt)) ==> b'.yielding
  {
    var batch := b.pending[..DueCount(b.pending, time)];
    YieldsExact(batch, |b.requested|, h, time);
    hide Yields, Reactions, MayYield, AlwaysYields, DueCount;
    var new_ := b'.fired[|b.fired|..];
    assert new_ == Batch(batch, time);
    forall i | 0 <= i < |batch|
      ensures new_[i].interrupt == batch[i]
    {
    }
    if p :| p in batch && MayYield(h, p) {
      var i :| 0 <= i < |batch| && batch[i] == p;
      assert new_[i] in new_;
    }
  }

  lemma {:induction false} YieldsExact(batch: seq<Pending>, m: nat, h: Handlers, time: int)
    ensures Yields(batch, m, h, time) ==> exists p :: p in batch && MayYield(h, p)
    ensures (exists p :: p in batch && AlwaysYields(h, p)) ==> Yields(batch, m, h, time)
  {
    if batch != [] {
      var front, last := batch[..|batch| - 1], batch[|batch| - 1];
      assert batch == front + [last];
      YieldsExact(front, m, h, time);
      var n := m + |Reactions(front, m, h, time)|;
      assert Yields(batch, m, h, time) == (Yields(front, m, h, time) || h(last, n).wantsYield);
      hide Reactions, Yields;
      if h(last, n).wantsYield {
        assert MayYield(h, last) && last in batch;
      }
      assert AlwaysYields(h, last) ==> h(last, n).wantsYield;
    }
  }

  class Interrupt {
    var level: IntStatus
    var inHandler: bool
    var yieldOnReturn: bool
    var status: MachineStatus
    var pending: seq<Pending>
    var totalTicks: int
    var idleTicks: int
    var systemTicks: int
    var userTicks: int
    var scheduled: nat
    ghost var requested: seq<Pending>
    ghost var fired: seq<Fired>

    ghost function State(): Books
      reads this
    {
      Books(requested, pending, fired, yieldOnReturn)
    }

    /** The books are in order, and the number of interrupts scheduled so far is known. */
    ghost predicate QueueOk()
      reads this
    {
      scheduled == |requested| && BooksOk(State(), totalTicks)
    }

    /** Between kernel operations: time adds up, the books are in order, and nothing due is waiting. */
    ghost predicate Valid()
      reads this
    {
      totalTicks == idleTicks + systemTicks + userTicks && QueueOk() && AllAfter(pending, totalTicks) && !inHandler
    }

    constructor ()
      ensures Valid() && level == IntOff && status == SystemMode && totalTicks == 0
      ensures State() == Books([], [], [], false) && systemTicks == 0 && userTicks == 0 && idleTicks == 0
    {
      level, inHandler, yieldOnReturn, status := IntOff, false, false, SystemMode;
      pending, scheduled, requested := [], 0, [];
      totalTicks, idleTicks, systemTicks, userTicks := 0, 0, 0, 0;
      fired := [];
    }

    method Schedule(fromNow: int, kind: IntType)
      requires fromNow > 0 && QueueOk()
      modifies this`pending, this`scheduled, this`requested
      ensures QueueOk() && State() == Entered(old(State()), Pending(totalTicks + fromNow, kind, old(scheduled)))
      ensures AllAfter(old(pending), totalTicks) ==> AllAfter(pending, totalTicks)
    {
      hide BooksOk, Insert, AllAfter;
      var toOccur := Pending(totalTicks + fromNow, kind, scheduled);
      ScheduleKeepsBooks(State(), totalTicks, toOccur);
      BooksOrdered(State(), totalTicks);
      InsertAfter(pending, toOccur, totalTicks);
      pending := Insert(pending, toOccur);
      scheduled := scheduled + 1;
      requested := requested + [toOccur];
    }

    /** What a handler schedules while it runs. */
    method React(requests: seq<(int, IntType)>)
      requires QueueOk() && forall i :: 0 <= i < |requests| ==> requests[i].0 > 0
      modifies this`pending, this`scheduled, this`requested
      ensures QueueOk() && Reacted(old(State()), Stamped(requests, totalTicks, old(scheduled)), totalTicks, State())
    {
      hide BooksOk, Insert, Stamped, Reacted, AllAfter;
      ghost var b := State();
      StampedNone(totalTicks, scheduled);
      ReactedNone(b, totalTicks);
      assert requests[..0] == [] && requests[..|requests|] == requests;
      for i := 0 to |requests|
        invariant QueueOk() && scheduled == old(scheduled) + i
        invariant Reacted(b, Stamped(requests[..i], totalTicks, old(scheduled)), totalTicks, State())
      {
        BooksOrdered(State(), totalTicks);
        StampedNext(requests, totalTicks, old(scheduled), i);
        ReactedNext(b, Stamped(requests[..i], totalTicks, old(scheduled)), totalTicks, State(),
          Pending(totalTicks + requests[i].0, requests[i].1, scheduled));
        Schedule(requests[i].0, requests[i].1);
      }
    }

    /** Takes the front interrupt off the queue and runs its handler. */
    method FireFront(handlers: Handlers)
      requires LegalHandlers(handlers) && QueueOk()
      requires pending != [] && pending[0].when_ <= totalTicks <= pending[0].when_ + SYSTEM_TICK - 1
      modifies this`pending, this`scheduled, this`requested, this`fired, this`yieldOnReturn
      ensures QueueOk() && RanOne(old(State()), handlers, totalTicks, State())
      ensures
        var n := DueCount(old(pending), totalTicks);
        n > 0 && DueCount(pending, totalTicks) == n - 1 && pending[..n - 1] == old(pending)[1..n]
    {
      ghost var b := State();
      var next := pending[0];
      TakenKeepsBooks(b, totalTicks);
      DueTail(pending, totalTicks);
      hide BooksOk, DueCount;
      var reaction := handlers(next, scheduled);
      assert reaction.Legal();
      pending := pending[1..];
      fired := fired + [Fired(next, totalTicks)];
      assert State() == Taken(b, totalTicks);
      React(reaction.requests);
      if reaction.wantsYield {
        yieldOnReturn := true;
      }
    }

    /** The do-while loop of CheckIfDue. Handlers only schedule strictly later, so it ends. */
    method FireDue(handlers: Handlers)
      requires LegalHandlers(handlers) && QueueOk()
      requires AllAfter(pending, totalTicks - SYSTEM_TICK) && DueCount(pending, totalTicks) > 0
      modifies this`pending, this`scheduled, this`requested, this`fired, this`yieldOnReturn
      ensures QueueOk() && AllAfter(pending, totalTicks) && RanDue(old(State()), handlers, totalTicks, State())
    {
      hide BooksOk, DueCount, RanFirst, RanOne, LegalHandlers;
      ghost var b, n := State(), DueCount(pending, totalTicks);
      BooksOrdered(b, totalTicks);
      DueFront(pending, totalTicks);
      RanNone(b, handlers, totalTicks);
      FireFront(handlers);
      RanNext(b, 0, handlers, totalTicks, b, State());
      ghost var done := 1;
      DueHead(pending, totalTicks);
      while pending != [] && pending[0].when_ <= totalTicks
        invariant 1 <= done <= n && DueCount(pending, totalTicks) == n - done && pending[..n - done] == b.pending[done..n]
        invariant QueueOk() && RanFirst(b, done, handlers, totalTicks, State())
        invariant pending != [] && pending[0].when_ <= totalTicks <==> done < n
        decreases n - done
      {
        ghost var mid := State();
        assert pending[0] == pending[..n - done][0] == b.pending[done];
        FireFront(handlers);
        RanNext(b, done, handlers, totalTicks, mid, State());
        done := done + 1;
        DueHead(pending, totalTicks);
      }
      BooksOrdered(State(), totalTicks);
      DueFront(pending, totalTicks);
      assert pending[0..] == pending;
    }

    /**
     Fires exactly the interrupts that are due, in order; the others stay, joined by what the handlers scheduled, and
     nothing due is left.
     */
    method CheckIfDue(advanceClock: bool, handlers: Handlers) returns (any: bool)
      requires LegalHandlers(handlers) && level == IntOff && !inHandler
      requires totalTicks == idleTicks + systemTicks + userTicks
      requires QueueOk() && AllAfter(pending, totalTicks - SYSTEM_TICK)
      modifies this
      ensures Valid() && level == IntOff && status == old(status)
      ensures systemTicks == old(systemTicks) && userTicks == old(userTicks)
      ensures totalTicks == if advanceClock && old(pending) != [] && old(pending)[0].when_ > old(totalTicks)
                            then old(pending)[0].when_ else old(totalTicks)
      ensures RanDue(old(State()), handlers, totalTicks, State())
      ensures any <==> DueCount(old(pending), totalTicks) > 0
      ensures !any ==> State() == old(State())
    {
      hide BooksOk, RanFirst, LegalHandlers;
      RanNone(State(), handlers, totalTicks);
      BooksOrdered(State(), totalTicks);
      DueFront(pending, totalTicks);
      if pending == [] {
        return false;
      }
      assert pending[0..] == pending;
      var next := pending[0];
      if next.when_ > totalTicks {
        if !advanceClock {
          return false;
        }
        TimePasses(State(), totalTicks, next.when_);
        idleTicks := idleTicks + (next.when_ - totalTicks);
        totalTicks := next.when_;
      }
      FrontIsFirst(pending, totalTicks);
      inHandler := true;
      FireDue(handlers);
      inHandler := false;
      any := true;
    }

    /** Advances simulated time and fires what is due. Tells whether a handler asked for a context switch. */
    method OneTick(handlers: Handlers) returns (yield_: bool)
      requires Valid() && LegalHandlers(handlers)
      modifies this
      ensures Valid() && level == IntOn && status == old(status)
      ensures totalTicks == old(totalTicks) + (if status == SystemMode then SYSTEM_TICK else USER_TICK)
      ensures idleTicks == old(idleTicks)
      ensures systemTicks == old(systemTicks) + (if status == SystemMode then SYSTEM_TICK else 0)
      ensures userTicks == old(userTicks) + (if status == SystemMode then 0 else USER_TICK)
      ensures RanDue(old(State()), handlers, totalTicks, State().(yielding := yield_)) && !yieldOnReturn
    {
      hide BooksOk, RanDue;
      var tick := if status == SystemMode then SYSTEM_TICK else USER_TICK;
      TimePasses(State(), totalTicks, totalTicks + tick);
      totalTicks := totalTicks + tick;
      if status == SystemMode {
        systemTicks := systemTicks + tick;
      } else {
        userTicks := userTicks + tick;
      }
      level := IntOff;
      var _ := CheckIfDue(false, handlers);
      level := IntOn;
      yield_ := yieldOnReturn;
      YieldsNoMatter(State(), totalTicks);
      yieldOnReturn := false;
    }

    /** Changing from off to on costs a tick; nothing else does. */
    method SetLevel(now: IntStatus, handlers: Handlers) returns (was: IntStatus, yield_: bool)
      requires Valid() && LegalHandlers(handlers)
      modifies this
      ensures Valid() && was == old(level) && level == now
      ensures now == IntOn && was == IntOff ==>
        && totalTicks == old(totalTicks) + (if old(status) == SystemMode then SYSTEM_TICK else USER_TICK)
        && systemTicks == old(systemTicks) + (if old(status) == SystemMode then SYSTEM_TICK else 0)
        && userTicks == old(userTicks) + (if old(status) == SystemMode then 0 else USER_TICK)
        && idleTicks == old(idleTicks) && status == old(status)
        && RanDue(old(State()), handlers, totalTicks, State().(yielding := yield_)) && !yieldOnReturn
      ensures !(now == IntOn && was == IntOff) ==>
        && totalTicks == old(totalTicks) && systemTicks == old(systemTicks) && userTicks == old(userTicks)
        && idleTicks == old(idleTicks) && status == old(status) && State() == old(State()) && !yield_
    {
      hide BooksOk, RanDue;
      was, yield_ := level, false;
      level := now;
      if now == IntOn && was == IntOff {
        yield_ := OneTick(handlers);
      }
    }

    /** Nothing to run: skip to the next interrupt and fire it exactly on time; with none pending, halt. */
    method Idle(handlers: Handlers) returns (halted: bool)
      requires Valid() && LegalHandlers(handlers) && level == IntOff
      modifies this
      ensures Valid() && level == IntOff && systemTicks == old(systemTicks) && userTicks == old(userTicks)
      ensures halted <==> old(pending) == []
      ensures halted ==> totalTicks == old(totalTicks) && State() == old(State())
      ensures !halted ==>
        && status == SystemMode && totalTicks == old(pending)[0].when_ > old(totalTicks)
        && RanDue(old(State()), handlers, totalTicks, State())
    {
      hide BooksOk, RanDue;
      status := IdleMode;
      ghost var q := pending;
      var any := CheckIfDue(true, handlers);
      if any {
        status := SystemMode;
        return false;
      }
      return true;
    }
  }

  /** What the rest of the kernel asks of the clock: a kernel or user tick, idling, or a device request. */
  datatype ClockOp = SystemTick | UserTick | IdleUntilNext | Request(delay: int, kind: IntType)

  /** Request number i, made when the clock showed times[i], is on the books. */
  ghost predicate Recorded(op: ClockOp, time: int, requested: seq<Pending>)
  {
    op.Request? ==> exists k :: 0 <= k < |requested| && requested[k] == Pending(time + op.delay, op.kind, k)
  }

  lemma StillRecorded(op: ClockOp, time: int, requested: seq<Pending>, more: seq<Pending>)
    requires Recorded(op, time, requested) && requested <= more
    ensures Recorded(op, time, more)
  {
    if op.Request? {
      var k :| 0 <= k < |requested| && requested[k] == Pending(time + op.delay, op.kind, k);
      assert more[k] == requested[k];
    }
  }

  /** Firing what is due only adds to what was scheduled, and all that the handlers ask for. */
  lemma OnlyMoreRequested(b: Books, h: Handlers)
    ensures forall time, b' :: RanDue(b, h, time, b') ==>
      b.requested <= b'.requested && (AllHeard(b.fired, h, b.requested) ==> AllHeard(b'.fired, h, b'.requested))
  {
    forall time, b' | RanDue(b, h, time, b')
      ensures b.requested <= b'.requested
      ensures AllHeard(b.fired, h, b.requested) ==> AllHeard(b'.fired, h, b'.requested)
    {
      if AllHeard(b.fired, h, b.requested) { RanDueHeard(b, h, time, b'); }
      hide AllHeard;
    }
  }

  lemma MoreRequested(fired: seq<Fired>, h: Handlers, requested: seq<Pending>)
    ensures forall p :: AllHeard(fired, h, requested) ==> AllHeard(fired, h, requested + [p])
  {
    forall p | AllHeard(fired, h, requested)
      ensures AllHeard(fired, h, requested + [p])
    {
      AllHeardLonger(fired, h, requested, requested + [p]);
    }
  }

  /** The times so far never go back, and every request made is on the books. */
  ghost predicate Chronicle(ops: seq<ClockOp>, times: seq<int>, requested: seq<Pending>)
  {
    && 0 < |times| <= |ops| + 1 && times[0] == 0
    && (forall i, j :: 0 <= i < j < |times| ==> times[i] <= times[j])
    && (forall i :: 0 <= i < |times| - 1 ==> Recorded(ops[i], times[i], requested))
  }

  lemma ChronicleNext(ops: seq<ClockOp>, times: seq<int>, requested: seq<Pending>, time: int, more: seq<Pending>)
    requires Chronicle(ops, times, requested) && |times| <= |ops| && times[|times| - 1] <= time && requested <= more
    requires Recorded(ops[|times| - 1], times[|times| - 1], more)
    ensures Chronicle(ops, times + [time], more)
  {
    hide Recorded;
    var times' := times + [time];
    forall i | 0 <= i < |times'| - 1
      ensures Recorded(ops[i], times'[i], more)
    {
      if i < |times| - 1 { StillRecorded(ops[i], times[i], requested, more); }
    }
  }

  /** How many of the operations are op. */
  function Count(ops: seq<ClockOp>, op: ClockOp): nat
  {
    if ops == [] then 0 else Count(ops[..|ops| - 1], op) + (if ops[|ops| - 1] == op then 1 else 0)
  }

  lemma CountNext(ops: seq<ClockOp>, n: nat, op: ClockOp)
    requires n < |ops|
    ensures Count(ops[..n + 1], op) == Count(ops[..n], op) + (if ops[n] == op then 1 else 0)
  {
    assert ops[..n + 1][..n] == ops[..n];
  }

  /** One operation. */
  method Step(clock: Interrupt, op: ClockOp, handlers: Handlers) returns (halted: bool)
    requires clock.Valid() && LegalHandlers(handlers) && (op.Request? ==> op.delay > 0)
    modifies clock
    ensures clock.Valid() && clock.totalTicks >= old(clock.totalTicks) && old(clock.requested) <= clock.requested
    ensures halted ==> clock.pending == []
    ensures Recorded(op, old(clock.totalTicks), clock.requested)
    ensures clock.systemTicks == old(clock.systemTicks) + (if op == SystemTick then 10 else 0)
    ensures clock.userTicks == old(clock.userTicks) + (if op == UserTick then 1 else 0)
    ensures old(AllHeard(clock.fired, handlers, clock.requested)) ==> AllHeard(clock.fired, handlers, clock.requested)
  {
    hide BooksOk, RanDue, LegalHandlers, AllHeard;
    halted := false;
    match op
    case SystemTick =>
      clock.status := SystemMode;
      OnlyMoreRequested(clock.State(), handlers);
      var _ := clock.OneTick(handlers);
    case UserTick =>
      clock.status := UserMode;
      OnlyMoreRequested(clock.State(), handlers);
      var _ := clock.OneTick(handlers);
    case IdleUntilNext =>
      clock.level := IntOff;
      OnlyMoreRequested(clock.State(), handlers);
      halted := clock.Idle(handlers);
    case Request(delay, kind) =>
      ghost var k := clock.scheduled;
      MoreRequested(clock.fired, handlers, clock.requested);
      clock.Schedule(delay, kind);
      assert clock.requested[k] == Pending(old(clock.totalTicks) + delay, kind, k);
  }

  /**
   Any run from power-on, up to the end or to a halt. Time is accounted for and never goes back. Every interrupt that was
   ever scheduled, by a device request or by a handler, is accounted for exactly once: it still waits, if it is not due
   yet; or its handler has run, in due order, not early, and less than one system tick late.
   */
  method Simulate(ops: seq<ClockOp>, handlers: Handlers) returns (clock: Interrupt, times: seq<int>, halted: bool)
    requires LegalHandlers(handlers)
    requires forall i :: 0 <= i < |ops| ==> (ops[i].Request? ==> ops[i].delay > 0)
    ensures fresh(clock) && clock.totalTicks == clock.idleTicks + clock.systemTicks + clock.userTicks
    ensures 0 < |times| <= |ops| + 1 && (halted ==> clock.pending == []) && (!halted ==> |times| == |ops| + 1)
    ensures times[0] == 0 && times[|times| - 1] == clock.totalTicks
    ensures forall i, j :: 0 <= i < j < |times| ==> times[i] <= times[j]
    ensures forall i :: 0 <= i < |times| - 1 ==> Recorded(ops[i], times[i], clock.requested)
    ensures clock.systemTicks == 10 * Count(ops[..|times| - 1], SystemTick)
    ensures clock.userTicks == Count(ops[..|times| - 1], UserTick)
    ensures Punctual(clock.fired, clock.totalTicks)
    ensures forall k :: 0 <= k < |clock.requested| ==> Settled(clock.State(), clock.totalTicks, k)
    ensures AllHeard(clock.fired, handlers, clock.requested)
  {
    hide BooksOk, Recorded, Count, Settled, LegalHandlers, HeardAt;
    clock := new Interrupt();
    times, halted := [clock.totalTicks], false;
    CountNone();
    assert ops[..0] == [];
    while |times| <= |ops| && !halted
      invariant fresh(clock) && clock.Valid() && (halted ==> clock.pending == [])
      invariant Chronicle(ops, times, clock.requested) && times[|times| - 1] == clock.totalTicks
      invariant clock.systemTicks == 10 * Count(ops[..|times| - 1], SystemTick)
      invariant clock.userTicks == Count(ops[..|times| - 1], UserTick)
      invariant AllHeard(clock.fired, handlers, clock.requested)
      decreases |ops| - |times|, !halted
    {
      ghost var requested := clock.requested;
      CountNext(ops, |times| - 1, SystemTick);
      CountNext(ops, |times| - 1, UserTick);
      halted := Step(clock, ops[|times| - 1], handlers);
      ChronicleNext(ops, times, requested, clock.totalTicks, clock.requested);
      hide Chronicle;
      times := times + [clock.totalTicks];
    }
    AllSettled(clock.State(), clock.totalTicks);
  }

  lemma CountNone()
    ensures Count([], SystemTick) == 0 && Count([], UserTick) == 0
  {
  }

  lemma AllSettled(b: Books, time: int)
    requires BooksOk(b, time) && AllAfter(b.pending, time)
    ensures Punctual(b.fired, time) && forall k :: 0 <= k < |b.requested| ==> Settled(b, time, k)
  {
    hide Settled;
    forall k | 0 <= k < |b.requested|
      ensures Settled(b, time, k)
    {
      NoneLost(b, time, k);
    }
  }
}
