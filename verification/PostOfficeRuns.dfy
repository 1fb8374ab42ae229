/**
 What runs of the post office (network/post.cc) deliver, told from the calls alone: which mail goes out, which arrives,
 what each user gets, and that nothing is left half way.
 */
module PostOfficeRuns {
  import opened Options
  import opened PostOffice

  // ---------- the mail that is sent is the mail of the calls ----------

  /** The mail of the last call of Send by thread t of host h, among the first n moves. */
  function LastMail(moves: seq<(HostId, Action)>, n: nat, h: HostId, t: Tid): Option<Mail>
    requires n <= |moves|
  {
    if n == 0 then None
    else if moves[n - 1].0 == h && moves[n - 1].1.SendStart? && moves[n - 1].1.thread == t then Some(moves[n - 1].1.mail)
    else LastMail(moves, n - 1, h, t)
  }

  predicate HasMail(s: Sender)
  {
    s.Acquire? || s.Transmit?
  }

  lemma SendCarries(tx: Sending, host: HostId, a: Action, numBoxes: nat, tx': Sending, t: Tid)
    requires StepSend(tx, host, a, numBoxes, tx') && t in tx'.senders && HasMail(tx'.senders[t])
    ensures a.SendStart? && a.thread == t ==> tx'.senders[t].mail == a.mail
    ensures !(a.SendStart? && a.thread == t) ==>
      t in tx.senders && HasMail(tx.senders[t]) && tx.senders[t].mail == tx'.senders[t].mail
  {
    hide WellAddressed;
  }

  lemma CarriesStep(net: Net, g: HostId, a: Action, numBoxes: nat, net': Net, h: HostId, t: Tid)
    requires Next(net, g, a, numBoxes, net') && h in net' && t in net'[h].tx.senders && HasMail(net'[h].tx.senders[t])
    ensures h in net
    ensures g == h && a.SendStart? && a.thread == t ==> net'[h].tx.senders[t].mail == a.mail
    ensures !(g == h && a.SendStart? && a.thread == t) ==>
      && t in net[h].tx.senders && HasMail(net[h].tx.senders[t])
      && net[h].tx.senders[t].mail == net'[h].tx.senders[t].mail
  {
    hide StepReceive, StepSend, Wire, Payload;
    if !a.SendTransmit? && !IsReceiveAction(a) {
      var tx' :| StepSend(net[g].tx, g, a, numBoxes, tx') && net' == net[g := net[g].(tx := tx')];
      if g == h { SendCarries(net[g].tx, g, a, numBoxes, tx', t); }
    }
  }

  lemma AllIdle(net: Net, numBoxes: nat)
    requires Init(net, numBoxes)
    ensures forall h, t :: h in net && t in net[h].tx.senders ==> net[h].tx.senders[t] == Idle
    ensures forall h :: h in net ==> net[h].tx.sent == [] && Stream(net[h].rx) == []
  {
    forall h | h in net
      ensures InitHost(net[h], numBoxes)
    {
    }
  }

  lemma {:induction false} CarriesItsMail(
    nets: seq<Net>, moves: seq<(HostId, Action)>, numBoxes: nat, n: nat, h: HostId, t: Tid)
    requires IsRun(nets, moves, numBoxes) && n < |nets|
    requires h in nets[n] && t in nets[n][h].tx.senders && HasMail(nets[n][h].tx.senders[t])
    ensures LastMail(moves, n, h, t) == Some(nets[n][h].tx.senders[t].mail)
  {
    hide Next, Init, HasMail, Stream;
    AllIdle(nets[0], numBoxes);
    NoMailAtFirst(nets, numBoxes, n, h, t);
    var (g, a) := moves[n - 1];
    assert Next(nets[n - 1], g, a, numBoxes, nets[n]);
    CarriesStep(nets[n - 1], g, a, numBoxes, nets[n], h, t);
    if !(g == h && a.SendStart? && a.thread == t) {
      CarriesItsMail(nets, moves, numBoxes, n - 1, h, t);
    }
  }

  lemma NoMailAtFirst(nets: seq<Net>, numBoxes: nat, n: nat, h: HostId, t: Tid)
    requires n < |nets| && Init(nets[0], numBoxes)
    requires h in nets[n] && t in nets[n][h].tx.senders && HasMail(nets[n][h].tx.senders[t])
    ensures n > 0
  {
    AllIdle(nets[0], numBoxes);
  }

  /** Thread t of host h puts its mail on the wire in move n, and the network loses it or not. */
  predicate Sends(moves: seq<(HostId, Action)>, n: nat, lost: bool)
    requires n < |moves|
  {
    moves[n].1.SendTransmit? && moves[n].1.lost == lost && LastMail(moves, n, moves[n].0, moves[n].1.thread).Some?
  }

  function MailOf(moves: seq<(HostId, Action)>, n: nat): Mail
    requires n < |moves| && (Sends(moves, n, true) || Sends(moves, n, false))
  {
    LastMail(moves, n, moves[n].0, moves[n].1.thread).value
  }

  /** The mail that host h has put on the wire in the first n moves. */
  function SentBy(moves: seq<(HostId, Action)>, n: nat, h: HostId): seq<Mail>
    requires n <= |moves|
  {
    if n == 0 then []
    else
      SentBy(moves, n - 1, h) +
      if moves[n - 1].0 == h && (Sends(moves, n - 1, true) || Sends(moves, n - 1, false)) then [MailOf(moves, n - 1)] else []
  }

  /** The mail for host h that was put on the wire in the first n moves and not lost. */
  function ArrivedAt(moves: seq<(HostId, Action)>, n: nat, h: HostId): seq<Mail>
    requires n <= |moves|
  {
    if n == 0 then []
    else
      ArrivedAt(moves, n - 1, h) +
      if Sends(moves, n - 1, false) && MailOf(moves, n - 1).pktHdr.to == h then [MailOf(moves, n - 1)] else []
  }

  lemma QuietStep(net: Net, g: HostId, a: Action, numBoxes: nat, net': Net, h: HostId)
    requires Inv(net, numBoxes) && Next(net, g, a, numBoxes, net') && !a.SendTransmit? && h in net
    ensures h in net' && net'[h].tx.sent == net[h].tx.sent && Stream(net'[h].rx) == Stream(net[h].rx)
  {
    hide ReceivingOk, BoxesOk, SendingOk, Stream, StepReceive, StepSend, InOrder;
    assert HostOk(net[g], g, numBoxes);
    if IsReceiveAction(a) {
      var rx' :| StepReceive(net[g].rx, a, numBoxes, rx') && net' == net[g := net[g].(rx := rx')];
      ReceiveKeepsStream(net[g].rx, a, g, numBoxes, rx');
    } else {
      var tx' :| StepSend(net[g].tx, g, a, numBoxes, tx') && net' == net[g := net[g].(tx := tx')];
      SendKeepsOk(net[g].tx, g, a, numBoxes, tx');
    }
  }

  lemma {:induction false} SameHosts(nets: seq<Net>, moves: seq<(HostId, Action)>, numBoxes: nat, n: nat, m: nat)
    requires IsRun(nets, moves, numBoxes) && n <= m < |nets|
    ensures nets[m].Keys == nets[n].Keys
  {
    if n < m {
      SameHosts(nets, moves, numBoxes, n, m - 1);
      HostsStay(nets[m - 1], moves[m - 1].0, moves[m - 1].1, numBoxes, nets[m]);
    }
  }

  lemma HostsStay(net: Net, g: HostId, a: Action, numBoxes: nat, net': Net)
    requires Next(net, g, a, numBoxes, net')
    ensures net'.Keys == net.Keys
  {
    hide StepReceive, StepSend, Wire, Payload;
  }

  /**
   The history of every host is fixed by the calls and by what the network loses: it sends the mail of its threads' calls,
   and what reaches it is exactly the mail for it that was not lost, in the order in which it was put on the wire.
   */
  lemma {:induction false} WireExact(nets: seq<Net>, moves: seq<(HostId, Action)>, numBoxes: nat, n: nat, h: HostId)
    requires IsRun(nets, moves, numBoxes) && n < |nets| && h in nets[n]
    ensures nets[n][h].tx.sent == SentBy(moves, n, h)
    ensures Stream(nets[n][h].rx) == ArrivedAt(moves, n, h)
  {
    hide Next, Init, Inv, Stream, HasMail, LastMail;
    if n == 0 {
      AllIdle(nets[0], numBoxes);
    } else {
      var (g, a) := moves[n - 1];
      assert Next(nets[n - 1], g, a, numBoxes, nets[n]);
      HostsStay(nets[n - 1], g, a, numBoxes, nets[n]);
      RunInv(nets, moves, numBoxes, n - 1);
      WireExact(nets, moves, numBoxes, n - 1, h);
      if a.SendTransmit? {
        OneSent(nets, moves, numBoxes, n - 1, h);
      } else {
        QuietStep(nets[n - 1], g, a, numBoxes, nets[n], h);
      }
    }
  }

  /** A packet that goes out carries the mail of its thread's last call, to the host it is addressed to and no other. */
  lemma OneSent(nets: seq<Net>, moves: seq<(HostId, Action)>, numBoxes: nat, i: nat, h: HostId)
    requires IsRun(nets, moves, numBoxes) && i < |moves| && moves[i].1.SendTransmit? && h in nets[i]
    ensures Sends(moves, i, moves[i].1.lost) && h in nets[i + 1]
    ensures
      var m := MailOf(moves, i);
      && nets[i + 1][h].tx.sent == nets[i][h].tx.sent + (if moves[i].0 == h then [m] else [])
      && Stream(nets[i + 1][h].rx) == Stream(nets[i][h].rx) + (if !moves[i].1.lost && m.pktHdr.to == h then [m] else [])
  {
    hide Init, Inv, Stream, Wire, Payload, InOrder, HostOk, IsReceiveAction;
    RunInv(nets, moves, numBoxes, i);
    var (g, a) := moves[i];
    assert Next(nets[i], g, a, numBoxes, nets[i + 1]);
    assert g in nets[i] && a.thread in nets[i][g].tx.senders && nets[i][g].tx.senders[a.thread].Transmit?;
    CarriesItsMail(nets, moves, numBoxes, i, g, a.thread);
    hide Next;
    TransmitEffects(nets[i], g, a, numBoxes, nets[i + 1], nets[i][g].tx.senders[a.thread].mail);
  }

  // ---------- what users get ----------

  /** The boxes hold a first part of the mail that arrived; each user has taken the first of the mail for the box. */
  lemma UsersGetArrivals(
    nets: seq<Net>, moves: seq<(HostId, Action)>, numBoxes: nat, n: nat, h: HostId, b: int)
    requires IsRun(nets, moves, numBoxes) && n < |nets| && h in nets[n] && 0 <= b < numBoxes
    ensures b in nets[n][h].rx.boxes && b in nets[n][h].rx.got
    ensures
      var rx := nets[n][h].rx;
      && rx.delivered <= ArrivedAt(moves, n, h)
      && rx.got[b] + rx.boxes[b] == Filter(rx.delivered, ToBox(b))
  {
    hide ArrivedAt, Filter, ToBox, WorkerMail, BufferedMail, SocketMail;
    RunInv(nets, moves, numBoxes, n);
    assert HostOk(nets[n][h], h, numBoxes);
    WireExact(nets, moves, numBoxes, n, h);
  }

  /** Get hands over the oldest mail for its box that nobody has got, and does not touch other boxes. */
  lemma GetIsOldest(
    nets: seq<Net>, moves: seq<(HostId, Action)>, numBoxes: nat, i: nat, h: HostId, b: int)
    requires IsRun(nets, moves, numBoxes) && i < |moves| && moves[i] == (h, Get(b))
    ensures h in nets[i] && h in nets[i + 1] && b in nets[i][h].rx.got
    ensures
      var rx, rx' := nets[i][h].rx, nets[i + 1][h].rx;
      var mail := Filter(rx.delivered, ToBox(b));
      && |rx.got[b]| < |mail| && rx'.got == rx.got[b := rx.got[b] + [mail[|rx.got[b]|]]]
      && rx'.delivered == rx.delivered
  {
    hide Filter, ToBox;
    RunInv(nets, moves, numBoxes, i);
    assert Next(nets[i], h, Get(b), numBoxes, nets[i + 1]);
    assert HostOk(nets[i][h], h, numBoxes);
    assert nets[i][h].rx.got[b] + nets[i][h].rx.boxes[b] == Filter(nets[i][h].rx.delivered, ToBox(b));
  }

  /** An idle thread can send up to 40 bytes to any box of any host at any time. */
  lemma SendIsPossible(net: Net, h: HostId, t: Tid, m: Mail, numBoxes: nat)
    requires h in net && t in net[h].tx.senders && net[h].tx.senders[t] == Idle
    requires |m.data| == m.mailHdr.length <= 40 && m.pktHdr.length == |m.data| + 12 && m.pktHdr.from == h
    requires 0 <= m.mailHdr.to < numBoxes
    ensures exists net' :: Next(net, h, SendStart(t, m), numBoxes, net')
  {
    var tx' := SetSender(net[h].tx, t, Acquire(m));
    assert StepSend(net[h].tx, h, SendStart(t, m), numBoxes, tx');
    assert Next(net, h, SendStart(t, m), numBoxes, net[h := net[h].(tx := tx')]);
  }

  /** A user can get mail from a box exactly if there is some. */
  lemma GetIsPossible(rx: Receiving, b: int, numBoxes: nat)
    requires BoxesOk(rx, numBoxes) && 0 <= b < numBoxes
    ensures b in rx.boxes && ((exists rx' :: StepReceive(rx, Get(b), numBoxes, rx')) <==> rx.boxes[b] != [])
  {
    hide Filter, ToBox;
    if rx.boxes[b] != [] {
      assert StepReceive(rx, Get(b), numBoxes,
        rx.(boxes := rx.boxes[b := rx.boxes[b][1..]], got := rx.got[b := rx.got[b] + [rx.boxes[b][0]]]));
    }
  }

  // ---------- nothing is left half way ----------

  /** Nothing more happens unless a user sends or gets mail; a poll that finds nothing to do changes nothing. */
  ghost predicate Settled(net: Net, numBoxes: nat)
  {
    forall h, a, net' :: Next(net, h, a, numBoxes, net') && net' != net ==> a.SendStart? || a.Get?
  }

  lemma ReceiveGoesOn(net: Net, h: HostId, a: Action, numBoxes: nat, rx': Receiving)
    requires h in net && IsReceiveAction(a) && !a.Get? && StepReceive(net[h].rx, a, numBoxes, rx') && rx' != net[h].rx
    ensures !Settled(net, numBoxes)
  {
    hide StepReceive;
    var net' := net[h := net[h].(rx := rx')];
    assert net'[h].rx == rx';
    assert Next(net, h, a, numBoxes, net');
  }

  lemma SendGoesOn(net: Net, h: HostId, a: Action, numBoxes: nat, tx': Sending)
    requires h in net && !IsReceiveAction(a) && !a.SendStart? && !a.SendTransmit?
    requires StepSend(net[h].tx, h, a, numBoxes, tx') && tx' != net[h].tx
    ensures !Settled(net, numBoxes)
  {
    hide StepSend;
    var net' := net[h := net[h].(tx := tx')];
    assert net'[h].tx == tx';
    assert Next(net, h, a, numBoxes, net');
  }

  /** The postal worker can go on exactly if a packet is buffered or in its hand. */
  lemma WorkerGoesOn(rx: Receiving, host: HostId, numBoxes: nat)
    requires ReceivingOk(rx, host, numBoxes)
    ensures
      (exists a, rx' :: (a == WorkerP || a == WorkerReceive || a == WorkerPut) && StepReceive(rx, a, numBoxes, rx')
        && rx' != rx)
      <==> rx.inHdr.length != 0 || rx.worker.Deliver?
  {
    hide Opened, WireHeader, WireData, WellAddressed, LegalPacket;
    match rx.worker
    case WaitMessage =>
      if rx.messageAvailable > 0 {
        assert StepReceive(rx, WorkerP, numBoxes, rx.(worker := Receive, messageAvailable := rx.messageAvailable - 1));
      }
    case Receive =>
      assert StepReceive(rx, WorkerReceive, numBoxes, TakePacket(rx));
    case Deliver(hdr, buffer) =>
      assert StepReceive(rx, WorkerPut, numBoxes, PutMail(rx, Opened(hdr, buffer)));
  }

  /** A poll takes a packet off the socket exactly if there is one and the buffer is free. */
  lemma PollGoesOn(rx: Receiving, host: HostId, numBoxes: nat)
    requires ReceivingOk(rx, host, numBoxes)
    ensures Poll(rx) != rx <==> rx.socket != [] && rx.inHdr.length == 0
  {
    hide Opened, WireHeader, WireData, WellAddressed;
    if rx.socket != [] && rx.inHdr.length == 0 {
      assert LegalPacket(rx.socket[0], host, numBoxes);
      assert |Poll(rx).socket| < |rx.socket|;
    }
  }

  lemma ReceiverSettles(net: Net, h: HostId, numBoxes: nat)
    requires h in net && ReceivingOk(net[h].rx, h, numBoxes) && Settled(net, numBoxes)
    ensures net[h].rx.worker == WaitMessage && net[h].rx.inHdr.length == 0 && net[h].rx.socket == []
  {
    var rx := net[h].rx;
    WorkerGoesOn(rx, h, numBoxes);
    PollGoesOn(rx, h, numBoxes);
    assert Tokens(rx);
    hide Settled, ReceivingOk, Poll;
    if rx.inHdr.length != 0 || rx.worker.Deliver? {
      hide StepReceive;
      var a, rx' :| (a == WorkerP || a == WorkerReceive || a == WorkerPut) && StepReceive(rx, a, numBoxes, rx') && rx' != rx;
      ReceiveGoesOn(net, h, a, numBoxes, rx');
    } else if rx.socket != [] {
      ReceiveGoesOn(net, h, PollInterrupt, numBoxes, Poll(rx));
    }
  }

  lemma NothingOnTheWay(rx: Receiving)
    requires rx.worker == WaitMessage && rx.inHdr.length == 0 && rx.socket == []
    ensures Stream(rx) == rx.delivered
  {
  }

  lemma HolderGoesOn(net: Net, h: HostId, numBoxes: nat, t: Tid)
    requires h in net && SendingOk(net[h].tx, h, numBoxes) && net[h].tx.sendLock == Some(t)
    ensures !Settled(net, numBoxes)
  {
    var tx := net[h].tx;
    hide Settled, WellAddressed;
    assert t in tx.senders && tx.senders[t].HoldsLock();
    match tx.senders[t]
    case Transmit(m) =>
      SenderMail(tx, h, numBoxes, t);
      TransmitGoesOn(net, h, numBoxes, t);
    case AwaitSent =>
      if tx.sendInterrupts > 0 {
        SendGoesOn(net, h, SendInterrupt, numBoxes,
          tx.(sendInterrupts := tx.sendInterrupts - 1, messageSent := tx.messageSent + 1));
      } else {
        SendGoesOn(net, h, SendP(t), numBoxes, SetSender(tx, t, Sender.Release).(messageSent := tx.messageSent - 1));
      }
    case Release =>
      SendGoesOn(net, h, SendRelease(t), numBoxes, SetSender(tx, t, Idle).(sendLock := None));
  }

  lemma TransmitGoesOn(net: Net, h: HostId, numBoxes: nat, t: Tid)
    requires h in net && t in net[h].tx.senders && net[h].tx.senders[t].Transmit?
    requires |Payload(net[h].tx.senders[t].mail)| <= MAX_PACKET_SIZE
    ensures !Settled(net, numBoxes)
  {
    var m := net[h].tx.senders[t].mail;
    var padding := seq(MAX_PACKET_SIZE - |Payload(m)|, _ => 0);
    var net' := net[h := net[h].(tx := Transmitted(net[h].tx, t, m))];
    hide Payload;
    assert |net'[h].tx.sent| > |net[h].tx.sent|;
    assert Next(net, h, SendTransmit(t, true, padding), numBoxes, net');
  }

  lemma SenderSettles(net: Net, h: HostId, numBoxes: nat)
    requires h in net && SendingOk(net[h].tx, h, numBoxes) && Settled(net, numBoxes)
    ensures net[h].tx.sendLock == None && net[h].tx.sendInterrupts == 0
    ensures forall t :: t in net[h].tx.senders ==> net[h].tx.senders[t] == Idle
  {
    var tx := net[h].tx;
    hide Settled, WellAddressed;
    if tx.sendLock.Some? { HolderGoesOn(net, h, numBoxes, tx.sendLock.value); }
    assert tx.sendLock == None;
    forall t | t in tx.senders
      ensures tx.senders[t] == Idle
    {
      if tx.senders[t].Acquire? {
        SendGoesOn(net, h, SendAcquire(t), numBoxes, SetSender(tx, t, Transmit(tx.senders[t].mail)).(sendLock := Some(t)));
      }
    }
  }

  /**
   Where nothing more happens by itself, every Send has returned and every mail that was not lost stands in its box or has
   been taken out of it.
   */
  lemma AllDelivered(
    nets: seq<Net>, moves: seq<(HostId, Action)>, numBoxes: nat, n: nat, h: HostId, b: int)
    requires IsRun(nets, moves, numBoxes) && n < |nets| && Settled(nets[n], numBoxes) && h in nets[n] && 0 <= b < numBoxes
    ensures forall t :: t in nets[n][h].tx.senders ==> nets[n][h].tx.senders[t] == Idle
    ensures b in nets[n][h].rx.boxes && b in nets[n][h].rx.got
    ensures nets[n][h].rx.got[b] + nets[n][h].rx.boxes[b] == Filter(ArrivedAt(moves, n, h), ToBox(b))
  {
    hide Settled, Filter, ToBox, ArrivedAt, Stream;
    RunInv(nets, moves, numBoxes, n);
    assert HostOk(nets[n][h], h, numBoxes);
    SenderSettles(nets[n], h, numBoxes);
    ReceiverSettles(nets[n], h, numBoxes);
    NothingOnTheWay(nets[n][h].rx);
    WireExact(nets, moves, numBoxes, n, h);
    UsersGetArrivals(nets, moves, numBoxes, n, h, b);
  }
}
