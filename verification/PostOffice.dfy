/**
 The post office (network/post.cc) over the network device (machine/network.cc): hosts send mail through a network
 that keeps packets in order but may lose any of them. A receiving host buffers one packet; the
 postal worker takes it out and puts the mail into a mailbox.

 Between any two steps other threads, interrupts and hosts may act. A semaphore operation is one step, enabled when
 it can complete; lemma SemaphoresAreAtomic in module Semaphores justifies this.
 */
module PostOffice {
  import opened Options
  import opened Words

  const HEADER_SIZE := 12        // sizeof(PacketHeader) and sizeof(MailHeader)
  const MAX_PACKET_SIZE := 52
  const MAX_MAIL_SIZE := 40

  type HostId(==, !new) = Int32
  type Tid(==, !new) = nat

  datatype PacketHeader = PacketHeader(to: HostId, from: HostId, length: Word)
  datatype MailHeader = MailHeader(to: Int32, from: Int32, length: Word)
  datatype Mail = Mail(pktHdr: PacketHeader, mailHdr: MailHeader, data: seq<Byte>)

  // ---------- the wire format ----------

  function EncodeTriple(a: Int32, b: Int32, n: Word): (r: seq<Byte>)
    ensures |r| == HEADER_SIZE
  {
    EncodeWords([ToWord(a), ToWord(b), n])
  }

  lemma TripleRoundTrip(a: Int32, b: Int32, n: Word)
    ensures
      var ws := DecodeWords(EncodeTriple(a, b, n));
      ToInt(ws[0]) == a && ToInt(ws[1]) == b && ws[2] == n
  {
    WordsRoundTrip([ToWord(a), ToWord(b), n]);
  }

  function DecodePacketHeader(b: seq<Byte>): PacketHeader
    requires |b| == HEADER_SIZE
  {
    var ws := DecodeWords(b);
    PacketHeader(ToInt(ws[0]), ToInt(ws[1]), ws[2])
  }

  function DecodeMailHeader(b: seq<Byte>): MailHeader
    requires |b| == HEADER_SIZE
  {
    var ws := DecodeWords(b);
    MailHeader(ToInt(ws[0]), ToInt(ws[1]), ws[2])
  }

  /** What PostOfficeOutput::Send gives to the network: the mail header and the data. */
  function Payload(m: Mail): seq<Byte>
  {
    EncodeTriple(m.mailHdr.to, m.mailHdr.from, m.mailHdr.length) + m.data
  }

  /** Mail as Send makes it: the packet length covers mail header and data. */
  predicate WellAddressed(m: Mail, numBoxes: nat)
  {
    && 0 <= m.mailHdr.to < numBoxes && m.mailHdr.length <= MAX_MAIL_SIZE && |m.data| == m.mailHdr.length
    && m.pktHdr.length == m.mailHdr.length + HEADER_SIZE
  }

  type Packet = b: seq<Byte> | |b| == 64 witness seq(64, _ => 0)

  /** NetworkOutput::Send: header, payload, and whatever memory holds up to the wire size. */
  function Wire(m: Mail, padding: seq<Byte>): Packet
    requires |Payload(m)| <= MAX_PACKET_SIZE && |padding| == MAX_PACKET_SIZE - |Payload(m)|
  {
    EncodeTriple(m.pktHdr.to, m.pktHdr.from, m.pktHdr.length) + Payload(m) + padding
  }

  /** The header that NetworkInput::CallBack splits off, and the bytes it keeps. */
  function WireHeader(p: Packet): PacketHeader
  {
    DecodePacketHeader(p[..HEADER_SIZE])
  }

  function WireData(p: Packet): seq<Byte>
    requires WireHeader(p).length <= MAX_PACKET_SIZE
  {
    p[HEADER_SIZE..HEADER_SIZE + WireHeader(p).length]
  }

  /** The mail that PostalDelivery makes of a packet header and the received bytes. */
  function Opened(hdr: PacketHeader, bytes: seq<Byte>): Mail
    requires |bytes| >= HEADER_SIZE
  {
    var mh := DecodeMailHeader(bytes[..HEADER_SIZE]);
    var rest := bytes[HEADER_SIZE..];
    Mail(hdr, mh, if mh.length <= |rest| then rest[..mh.length] else rest)
  }

  /** Whatever the padding, the packet is opened as the mail that was sent. */
  lemma WireRoundTrip(m: Mail, padding: seq<Byte>, numBoxes: nat)
    requires WellAddressed(m, numBoxes) && |padding| == MAX_PACKET_SIZE - |Payload(m)|
    ensures
      var p := Wire(m, padding);
      WireHeader(p) == m.pktHdr && WireData(p) == Payload(m) && Opened(WireHeader(p), WireData(p)) == m
  {
    var p := Wire(m, padding);
    TripleRoundTrip(m.pktHdr.to, m.pktHdr.from, m.pktHdr.length);
    assert p[..HEADER_SIZE] == EncodeTriple(m.pktHdr.to, m.pktHdr.from, m.pktHdr.length);
    assert WireHeader(p) == m.pktHdr;
    assert WireData(p) == Payload(m);
    TripleRoundTrip(m.mailHdr.to, m.mailHdr.from, m.mailHdr.length);
    assert Payload(m)[..HEADER_SIZE] == EncodeTriple(m.mailHdr.to, m.mailHdr.from, m.mailHdr.length);
    assert Payload(m)[HEADER_SIZE..] == m.data;
  }

  // ---------- subsequences ----------

  /** a is what remains of b when some elements are taken out: in order, nothing added. */
  ghost predicate IsSubsequence<T>(a: seq<T>, b: seq<T>)
  {
    a == [] ||
    (b != [] &&
     ((a[|a| - 1] == b[|b| - 1] && IsSubsequence(a[..|a| - 1], b[..|b| - 1])) || IsSubsequence(a, b[..|b| - 1])))
  }

  function Filter<T>(s: seq<T>, keep: T -> bool): seq<T>
  {
    if s == [] then []
    else
      var front := Filter(s[..|s| - 1], keep);
      if keep(s[|s| - 1]) then front + [s[|s| - 1]] else front
  }

  lemma FilterAppend<T>(s: seq<T>, x: T, keep: T -> bool)
    ensures Filter(s + [x], keep) == if keep(x) then Filter(s, keep) + [x] else Filter(s, keep)
  {
    assert (s + [x])[..|s|] == s;
  }

  lemma SubsequenceSkip<T>(a: seq<T>, b: seq<T>, x: T)
    requires IsSubsequence(a, b)
    ensures IsSubsequence(a, b + [x])
  {
    assert (b + [x])[..|b|] == b;
  }

  lemma SubsequenceKeep<T>(a: seq<T>, b: seq<T>, x: T)
    requires IsSubsequence(a, b)
    ensures IsSubsequence(a + [x], b + [x])
  {
    assert (b + [x])[..|b|] == b && (a + [x])[..|a|] == a;
  }

  /** Dropping from the end of the shorter sequence keeps it a subsequence. */
  lemma {:induction false} SubsequencePrefix<T>(a: seq<T>, b: seq<T>, n: nat)
    requires n <= |a| && IsSubsequence(a, b)
    ensures IsSubsequence(a[..n], b)
    decreases |b|
  {
    if n == |a| {
      assert a[..n] == a;
    } else if a != [] && b != [] {
      var b' := b[..|b| - 1];
      assert b == b' + [b[|b| - 1]];
      if IsSubsequence(a, b') {
        SubsequencePrefix(a, b', n);
      } else {
        var a' := a[..|a| - 1];
        SubsequencePrefix(a', b', n);
        assert a'[..n] == a[..n];
      }
      SubsequenceSkip(a[..n], b', b[|b| - 1]);
    }
  }

  /** Picking out the same kind of element from both keeps the relation. */
  lemma {:induction false} SubsequenceFilter<T>(a: seq<T>, b: seq<T>, keep: T -> bool)
    requires IsSubsequence(a, b)
    ensures IsSubsequence(Filter(a, keep), Filter(b, keep))
    decreases |b|
  {
    if a != [] {
      var b', x := b[..|b| - 1], b[|b| - 1];
      if IsSubsequence(a, b') {
        SubsequenceFilter(a, b', keep);
        if keep(x) { SubsequenceSkip(Filter(a, keep), Filter(b', keep), x); }
      } else {
        SubsequenceFilter(a[..|a| - 1], b', keep);
        if keep(x) { SubsequenceKeep(Filter(a[..|a| - 1], keep), Filter(b', keep), x); }
      }
    }
  }

  // ---------- hosts ----------

  /** The postal worker's next action in PostalDelivery. */
  datatype Worker = WaitMessage | Receive | Deliver(hdr: PacketHeader, buffer: seq<Byte>)

  /** A sending thread's next action in PostOfficeOutput::Send. */
  datatype Sender = Idle | Acquire(mail: Mail) | Transmit(mail: Mail) | AwaitSent | Release
  {
    predicate HoldsLock()
    {
      Transmit? || AwaitSent? || Release?
    }
  }

  datatype Receiving = Receiving(
    socket: seq<Packet>,           // packets on their way to this host, oldest first
    inHdr: PacketHeader,           // length 0 means that no packet is buffered
    inbox: seq<Byte>,
    messageAvailable: nat,
    worker: Worker,
    boxes: map<int, seq<Mail>>,
    delivered: seq<Mail>,          // history: every mail put into some box, in order
    got: map<int, seq<Mail>>)      // history: the mail that users have taken out of each box, in order

  datatype Sending = Sending(
    sendLock: Option<Tid>,
    messageSent: nat,
    sendInterrupts: nat,           // NetworkSendInt scheduled and not fired
    senders: map<Tid, Sender>,
    sent: seq<Mail>)               // history: every mail given to the network, in order

  datatype Host = Host(rx: Receiving, tx: Sending)

  type Net = map<HostId, Host>

  datatype Action =
    | SendStart(thread: Tid, mail: Mail) | SendAcquire(thread: Tid)
    | SendTransmit(thread: Tid, lost: bool, padding: seq<Byte>)
    | SendInterrupt | SendP(thread: Tid) | SendRelease(thread: Tid)
    | PollInterrupt | WorkerP | WorkerReceive | WorkerPut | Get(box: int)

  ghost predicate InitHost(h: Host, numBoxes: nat)
  {
    && h.rx.socket == [] && h.rx.inHdr.length == 0 && h.rx.inbox == [] && h.rx.messageAvailable == 0
    && h.rx.worker == WaitMessage && h.rx.delivered == []
    && (forall b :: b in h.rx.boxes <==> 0 <= b < numBoxes) && h.rx.got.Keys == h.rx.boxes.Keys
    && (forall b :: b in h.rx.boxes ==> h.rx.boxes[b] == [] && h.rx.got[b] == [])
    && h.tx.sendLock == None && h.tx.messageSent == 0 && h.tx.sendInterrupts == 0 && h.tx.sent == []
    && forall t :: t in h.tx.senders ==> h.tx.senders[t] == Idle
  }

  ghost predicate Init(net: Net, numBoxes: nat)
  {
    forall h :: h in net ==> InitHost(net[h], numBoxes)
  }

  // ---------- the receiving side ----------

  /** NetworkInput::CallBack, when the poll interrupt fires. */
  function Poll(rx: Receiving): Receiving
  {
    if rx.inHdr.length != 0 || rx.socket == [] || WireHeader(rx.socket[0]).length > MAX_PACKET_SIZE then rx
    else
      rx.(socket := rx.socket[1..], inHdr := WireHeader(rx.socket[0]), inbox := WireData(rx.socket[0]),
          messageAvailable := rx.messageAvailable + 1)
  }

  /** NetworkInput::Receive into the worker's buffer; an empty header copies nothing. */
  function TakePacket(rx: Receiving): Receiving
  {
    rx.(worker := Deliver(rx.inHdr, if rx.inHdr.length != 0 then rx.inbox else []),
        inHdr := rx.inHdr.(length := 0))
  }

  /** The assertions of PostalDelivery: the box exists and the length is legal. */
  predicate Deliverable(hdr: PacketHeader, buffer: seq<Byte>, numBoxes: nat)
  {
    |buffer| >= HEADER_SIZE && WellAddressed(Opened(hdr, buffer), numBoxes)
  }

  /** MailBox::Put of the opened mail. */
  function PutMail(rx: Receiving, m: Mail): Receiving
  {
    rx.(worker := WaitMessage, delivered := rx.delivered + [m],
        boxes := if m.mailHdr.to in rx.boxes then rx.boxes[m.mailHdr.to := rx.boxes[m.mailHdr.to] + [m]] else rx.boxes)
  }

  ghost predicate StepReceive(rx: Receiving, a: Action, numBoxes: nat, rx': Receiving)
  {
    match a
    case PollInterrupt => rx' == Poll(rx)
    case WorkerP =>
      rx.worker == WaitMessage && rx.messageAvailable > 0 &&
      rx' == rx.(worker := Receive, messageAvailable := rx.messageAvailable - 1)
    case WorkerReceive => rx.worker == Receive && rx' == TakePacket(rx)
    case WorkerPut =>
      rx.worker.Deliver? && Deliverable(rx.worker.hdr, rx.worker.buffer, numBoxes) &&
      rx' == PutMail(rx, Opened(rx.worker.hdr, rx.worker.buffer))
    case Get(b) =>
      b in rx.boxes && b in rx.got && rx.boxes[b] != [] &&
      rx' == rx.(boxes := rx.boxes[b := rx.boxes[b][1..]], got := rx.got[b := rx.got[b] + [rx.boxes[b][0]]])
    case _ => false
  }

  // ---------- the sending side ----------

  function SetSender(tx: Sending, t: Tid, s: Sender): Sending
  {
    tx.(senders := tx.senders[t := s])
  }

  /** Steps of Send that stay on the host; Transmit is below. */
  ghost predicate StepSend(tx: Sending, host: HostId, a: Action, numBoxes: nat, tx': Sending)
  {
    match a
    case SendStart(t, m) =>
      t in tx.senders && tx.senders[t] == Idle && WellAddressed(m, numBoxes) && m.pktHdr.from == host &&
      tx' == SetSender(tx, t, Acquire(m))
    case SendAcquire(t) =>
      t in tx.senders && tx.senders[t].Acquire? && tx.sendLock == None &&
      tx' == SetSender(tx, t, Transmit(tx.senders[t].mail)).(sendLock := Some(t))
    case SendInterrupt =>
      tx.sendInterrupts > 0 && tx' == tx.(sendInterrupts := tx.sendInterrupts - 1, messageSent := tx.messageSent + 1)
    case SendP(t) =>
      t in tx.senders && tx.senders[t] == AwaitSent && tx.messageSent > 0 &&
      tx' == SetSender(tx, t, Release).(messageSent := tx.messageSent - 1)
    case SendRelease(t) =>
      t in tx.senders && tx.senders[t] == Release && tx' == SetSender(tx, t, Idle).(sendLock := None)
    case _ => false
  }

  /** NetworkOutput::Send on the sending host: schedule the interrupt; the packet leaves. */
  function Transmitted(tx: Sending, t: Tid, m: Mail): Sending
  {
    SetSender(tx, t, AwaitSent).(sendInterrupts := tx.sendInterrupts + 1, sent := tx.sent + [m])
  }

  ghost predicate StepTransmit(net: Net, h: HostId, t: Tid, lost: bool, padding: seq<Byte>, net': Net)
    requires h in net
  {
    var tx := net[h].tx;
    && t in tx.senders && tx.senders[t].Transmit?
    && var m := tx.senders[t].mail;
    && |Payload(m)| <= MAX_PACKET_SIZE && |padding| == MAX_PACKET_SIZE - |Payload(m)|
    && var net1 := net[h := net[h].(tx := Transmitted(tx, t, m))];
    // a packet to a host that is not there is as good as lost
    if lost || m.pktHdr.to !in net then net' == net1
    else
      var rx := net1[m.pktHdr.to].rx;
      net' == net1[m.pktHdr.to := net1[m.pktHdr.to].(rx := rx.(socket := rx.socket + [Wire(m, padding)]))]
  }

  predicate IsReceiveAction(a: Action)
  {
    a.PollInterrupt? || a.WorkerP? || a.WorkerReceive? || a.WorkerPut? || a.Get?
  }

  /** Host h does action a. */
  ghost predicate Next(net: Net, h: HostId, a: Action, numBoxes: nat, net': Net)
  {
    h in net &&
    if a.SendTransmit? then StepTransmit(net, h, a.thread, a.lost, a.padding, net')
    else if IsReceiveAction(a) then
      exists rx' :: StepReceive(net[h].rx, a, numBoxes, rx') && net' == net[h := net[h].(rx := rx')]
    else
      exists tx' :: StepSend(net[h].tx, h, a, numBoxes, tx') && net' == net[h := net[h].(tx := tx')]
  }

  // ---------- the receiving invariant ----------

  ghost predicate LegalPacket(p: Packet, host: HostId, numBoxes: nat)
  {
    && HEADER_SIZE <= WireHeader(p).length <= MAX_PACKET_SIZE && WireHeader(p).to == host
    && Deliverable(WireHeader(p), WireData(p), numBoxes)
  }

  /** Exactly one token stands for a buffered packet: in the semaphore, or in the worker's hand. */
  ghost predicate Tokens(rx: Receiving)
  {
    rx.messageAvailable + (if rx.worker == Receive then 1 else 0) == (if rx.inHdr.length != 0 then 1 else 0)
  }

  ghost predicate ReceivingOk(rx: Receiving, host: HostId, numBoxes: nat)
  {
    && Tokens(rx)
    && (rx.inHdr.length != 0 ==> rx.inHdr.to == host && Deliverable(rx.inHdr, rx.inbox, numBoxes))
    && (rx.worker.Deliver? ==> rx.worker.hdr.to == host && Deliverable(rx.worker.hdr, rx.worker.buffer, numBoxes))
    && (forall i :: 0 <= i < |rx.socket| ==> LegalPacket(rx.socket[i], host, numBoxes))
  }

  function PacketMail(p: Packet): Mail
  {
    if HEADER_SIZE <= WireHeader(p).length <= MAX_PACKET_SIZE then Opened(WireHeader(p), WireData(p))
    else Mail(WireHeader(p), MailHeader(0, 0, 0), [])
  }

  function SocketMail(socket: seq<Packet>): (r: seq<Mail>)
    ensures |r| == |socket|
  {
    seq(|socket|, i requires 0 <= i < |socket| => PacketMail(socket[i]))
  }

  function BufferedMail(rx: Receiving): seq<Mail>
  {
    if rx.inHdr.length != 0 && |rx.inbox| >= HEADER_SIZE then [Opened(rx.inHdr, rx.inbox)] else []
  }

  function WorkerMail(rx: Receiving): seq<Mail>
  {
    if rx.worker.Deliver? && |rx.worker.buffer| >= HEADER_SIZE then [Opened(rx.worker.hdr, rx.worker.buffer)] else []
  }

  /** All mail that has reached the host, in arrival order: delivered, in hand, buffered, in the socket. */
  function Stream(rx: Receiving): seq<Mail>
  {
    rx.delivered + WorkerMail(rx) + BufferedMail(rx) + SocketMail(rx.socket)
  }

  lemma PollKeepsStream(rx: Receiving, host: HostId, numBoxes: nat)
    requires ReceivingOk(rx, host, numBoxes)
    ensures ReceivingOk(Poll(rx), host, numBoxes) && Stream(Poll(rx)) == Stream(rx)
  {
    hide Opened, WireHeader, WireData, WellAddressed;
    if Poll(rx) != rx {
      assert LegalPacket(rx.socket[0], host, numBoxes);
      assert SocketMail(rx.socket) == [PacketMail(rx.socket[0])] + SocketMail(rx.socket[1..]);
    }
  }

  lemma TakeKeepsStream(rx: Receiving, host: HostId, numBoxes: nat)
    requires ReceivingOk(rx, host, numBoxes) && rx.worker == Receive
    ensures ReceivingOk(TakePacket(rx), host, numBoxes) && Stream(TakePacket(rx)) == Stream(rx)
  {
    hide Opened, WireHeader, WireData, WellAddressed, SocketMail, LegalPacket;
  }

  /** A receiving step moves mail along the stream; it adds, drops and reorders nothing. */
  lemma ReceiveKeepsStream(rx: Receiving, a: Action, host: HostId, numBoxes: nat, rx': Receiving)
    requires ReceivingOk(rx, host, numBoxes) && StepReceive(rx, a, numBoxes, rx')
    ensures ReceivingOk(rx', host, numBoxes) && Stream(rx') == Stream(rx)
  {
    hide Opened, WireHeader, WireData, WellAddressed, SocketMail, LegalPacket, Poll, TakePacket;
    match a
    case PollInterrupt => PollKeepsStream(rx, host, numBoxes);
    case WorkerReceive => TakeKeepsStream(rx, host, numBoxes);
    case _ =>
  }

  /** The assertions on the receiving side: the packet is for us and fits; Receive finds a packet; the mail is legal. */
  lemma ReceiveAssertions(rx: Receiving, host: HostId, numBoxes: nat)
    requires ReceivingOk(rx, host, numBoxes)
    ensures rx.socket != [] ==> WireHeader(rx.socket[0]).to == host && WireHeader(rx.socket[0]).length <= MAX_PACKET_SIZE
    ensures rx.worker == Receive ==> rx.inHdr.length != 0
    ensures rx.worker.Deliver? ==> Deliverable(rx.worker.hdr, rx.worker.buffer, numBoxes)
    ensures rx.inHdr.length != 0 <==> rx.messageAvailable == 1 || rx.worker == Receive
  {
    if rx.socket != [] { assert LegalPacket(rx.socket[0], host, numBoxes); }
  }

  // ---------- the sending invariant ----------

  ghost predicate SenderOk(s: Sender, host: HostId, numBoxes: nat)
  {
    s.Acquire? || s.Transmit? ==> WellAddressed(s.mail, numBoxes) && s.mail.pktHdr.from == host
  }

  /** One packet at a time: the interrupt for the last one is pending or counted only while its sender waits for it. */
  ghost predicate SendingOk(tx: Sending, host: HostId, numBoxes: nat)
  {
    && (forall t :: t in tx.senders ==> (tx.senders[t].HoldsLock() <==> tx.sendLock == Some(t)))
    && (tx.sendLock.Some? ==> tx.sendLock.value in tx.senders)
    && tx.sendInterrupts + tx.messageSent ==
         (if tx.sendLock.Some? && tx.sendLock.value in tx.senders && tx.senders[tx.sendLock.value] == AwaitSent then 1 else 0)
    && (forall t :: t in tx.senders ==> SenderOk(tx.senders[t], host, numBoxes))
  }

  lemma SendKeepsOk(tx: Sending, host: HostId, a: Action, numBoxes: nat, tx': Sending)
    requires SendingOk(tx, host, numBoxes) && StepSend(tx, host, a, numBoxes, tx')
    ensures SendingOk(tx', host, numBoxes) && tx'.sent == tx.sent
  {
    hide WellAddressed;
  }

  /** When a packet goes out, the interrupt for the one before it has been taken. */
  lemma TransmitKeepsOk(tx: Sending, host: HostId, numBoxes: nat, t: Tid)
    requires SendingOk(tx, host, numBoxes) && t in tx.senders && tx.senders[t].Transmit?
    ensures tx.sendInterrupts == 0 && tx.messageSent == 0
    ensures SendingOk(Transmitted(tx, t, tx.senders[t].mail), host, numBoxes)
  {
    hide WellAddressed;
  }

  // ---------- mailboxes ----------

  function ToBox(b: int): Mail -> bool
  {
    (m: Mail) => m.mailHdr.to == b
  }

  function FromHost(s: HostId): Mail -> bool
  {
    (m: Mail) => m.pktHdr.from == s
  }

  function ToHost(h: HostId): Mail -> bool
  {
    (m: Mail) => m.pktHdr.to == h
  }

  /** Each box holds, behind what was taken out of it, exactly the mail delivered for it. */
  ghost predicate BoxesOk(rx: Receiving, numBoxes: nat)
  {
    && (forall b :: b in rx.boxes <==> 0 <= b < numBoxes) && rx.got.Keys == rx.boxes.Keys
    && forall b :: b in rx.boxes ==> rx.got[b] + rx.boxes[b] == Filter(rx.delivered, ToBox(b))
  }

  lemma ReceiveKeepsBoxes(rx: Receiving, a: Action, host: HostId, numBoxes: nat, rx': Receiving)
    requires ReceivingOk(rx, host, numBoxes) && BoxesOk(rx, numBoxes) && StepReceive(rx, a, numBoxes, rx')
    ensures BoxesOk(rx', numBoxes)
  {
    hide Opened, WireHeader, WireData;
    match a
    case WorkerPut =>
      var m := Opened(rx.worker.hdr, rx.worker.buffer);
      forall b | b in rx'.boxes
        ensures rx'.got[b] + rx'.boxes[b] == Filter(rx'.delivered, ToBox(b))
      {
        FilterAppend(rx.delivered, m, ToBox(b));
        assert rx.got[b] + rx.boxes[b] == Filter(rx.delivered, ToBox(b));
      }
    case Get(c) =>
      forall b | b in rx'.boxes
        ensures rx'.got[b] + rx'.boxes[b] == Filter(rx'.delivered, ToBox(b))
      {
        assert rx.got[b] + rx.boxes[b] == Filter(rx.delivered, ToBox(b));
        assert rx.boxes[c] == [rx.boxes[c][0]] + rx.boxes[c][1..];
      }
    case _ =>
  }

  // ---------- the network invariant ----------

  /** What has reached h from s is, in order, some of what s sent to h. */
  ghost predicate InOrder(rx: Receiving, h: HostId, tx: Sending, s: HostId)
  {
    IsSubsequence(Filter(Stream(rx), FromHost(s)), Filter(tx.sent, ToHost(h)))
  }

  ghost predicate HostOk(host: Host, h: HostId, numBoxes: nat)
  {
    ReceivingOk(host.rx, h, numBoxes) && BoxesOk(host.rx, numBoxes) && SendingOk(host.tx, h, numBoxes)
  }

  ghost predicate Inv(net: Net, numBoxes: nat)
  {
    && (forall h :: h in net ==> HostOk(net[h], h, numBoxes))
    && (forall h, s :: h in net && s in net ==> InOrder(net[h].rx, h, net[s].tx, s))
  }

  lemma InitInv(net: Net, numBoxes: nat)
    requires Init(net, numBoxes)
    ensures Inv(net, numBoxes)
  {
    forall h | h in net
      ensures HostOk(net[h], h, numBoxes) && Stream(net[h].rx) == []
    {
      assert InitHost(net[h], numBoxes);
    }
  }

  lemma ReceiveKeepsInv(net: Net, h: HostId, a: Action, numBoxes: nat, net': Net)
    requires Inv(net, numBoxes) && Next(net, h, a, numBoxes, net') && IsReceiveAction(a)
    ensures Inv(net', numBoxes)
  {
    hide ReceivingOk, BoxesOk, SendingOk, Stream, StepReceive;
    var rx' :| StepReceive(net[h].rx, a, numBoxes, rx') && net' == net[h := net[h].(rx := rx')];
    assert HostOk(net[h], h, numBoxes);
    ReceiveKeepsStream(net[h].rx, a, h, numBoxes, rx');
    ReceiveKeepsBoxes(net[h].rx, a, h, numBoxes, rx');
    forall g, s | g in net' && s in net'
      ensures InOrder(net'[g].rx, g, net'[s].tx, s)
    {
      assert InOrder(net[g].rx, g, net[s].tx, s);
    }
  }

  lemma SendKeepsInv(net: Net, h: HostId, a: Action, numBoxes: nat, net': Net)
    requires Inv(net, numBoxes) && Next(net, h, a, numBoxes, net') && !IsReceiveAction(a) && !a.SendTransmit?
    ensures Inv(net', numBoxes)
  {
    hide ReceivingOk, BoxesOk, SendingOk, Stream, StepSend;
    var tx' :| StepSend(net[h].tx, h, a, numBoxes, tx') && net' == net[h := net[h].(tx := tx')];
    assert HostOk(net[h], h, numBoxes);
    SendKeepsOk(net[h].tx, h, a, numBoxes, tx');
    forall g, s | g in net' && s in net'
      ensures InOrder(net'[g].rx, g, net'[s].tx, s)
    {
      assert InOrder(net[g].rx, g, net[s].tx, s);
    }
  }

  /** A packet put on the wire is legal where it is going and extends the stream there by the mail that was sent. */
  lemma ArriveExtendsStream(rx: Receiving, to: HostId, numBoxes: nat, m: Mail, padding: seq<Byte>)
    requires ReceivingOk(rx, to, numBoxes) && BoxesOk(rx, numBoxes) && WellAddressed(m, numBoxes) && m.pktHdr.to == to
    requires |padding| == MAX_PACKET_SIZE - |Payload(m)|
    ensures
      var rx' := rx.(socket := rx.socket + [Wire(m, padding)]);
      ReceivingOk(rx', to, numBoxes) && BoxesOk(rx', numBoxes) && Stream(rx') == Stream(rx) + [m]
  {
    WireRoundTrip(m, padding, numBoxes);
    hide Opened, WireHeader, WireData, Wire;
    var p := Wire(m, padding);
    assert LegalPacket(p, to, numBoxes);
    assert SocketMail(rx.socket + [p]) == SocketMail(rx.socket) + [m];
  }

  /** Sending m, with or without loss, keeps the order between any receiver and any sender. */
  lemma TransmitKeepsOrder(stream: seq<Mail>, sent: seq<Mail>, g: HostId, s: HostId, m: Mail, sends: bool, arrives: bool)
    requires IsSubsequence(Filter(stream, FromHost(s)), Filter(sent, ToHost(g)))
    requires sends <==> m.pktHdr.from == s
    requires arrives ==> m.pktHdr.to == g
    ensures IsSubsequence(Filter(if arrives then stream + [m] else stream, FromHost(s)),
                          Filter(if sends then sent + [m] else sent, ToHost(g)))
  {
    var a, b := Filter(stream, FromHost(s)), Filter(sent, ToHost(g));
    FilterAppend(stream, m, FromHost(s));
    FilterAppend(sent, m, ToHost(g));
    SubsequenceSkip(a, b, m);
    SubsequenceKeep(a, b, m);
  }

  /** What a transmission does to each host: one gains a sent mail, at most one gains a packet. */
  lemma TransmitEffects(net: Net, h: HostId, a: Action, numBoxes: nat, net': Net, m: Mail)
    requires Inv(net, numBoxes) && Next(net, h, a, numBoxes, net') && a.SendTransmit?
    requires a.thread in net[h].tx.senders && net[h].tx.senders[a.thread].Transmit? && m == net[h].tx.senders[a.thread].mail
    ensures m.pktHdr.from == h && net'.Keys == net.Keys
    ensures forall g :: g in net ==>
      && HostOk(net'[g], g, numBoxes)
      && net'[g].tx.sent == (if g == h then net[g].tx.sent + [m] else net[g].tx.sent)
      && Stream(net'[g].rx) == if !a.lost && g == m.pktHdr.to then Stream(net[g].rx) + [m] else Stream(net[g].rx)
  {
    hide ReceivingOk, BoxesOk, SendingOk, Stream, Wire, WellAddressed, InOrder;
    assert HostOk(net[h], h, numBoxes);
    TransmitKeepsOk(net[h].tx, h, numBoxes, a.thread);
    SenderMail(net[h].tx, h, numBoxes, a.thread);
    forall g | g in net
      ensures HostOk(net'[g], g, numBoxes)
      ensures Stream(net'[g].rx) == if !a.lost && g == m.pktHdr.to then Stream(net[g].rx) + [m] else Stream(net[g].rx)
    {
      assert HostOk(net[g], g, numBoxes);
      if !a.lost && g == m.pktHdr.to { ArriveExtendsStream(net[g].rx, g, numBoxes, m, a.padding); }
    }
  }

  lemma TransmitKeepsInv(net: Net, h: HostId, a: Action, numBoxes: nat, net': Net)
    requires Inv(net, numBoxes) && Next(net, h, a, numBoxes, net') && a.SendTransmit?
    ensures Inv(net', numBoxes)
  {
    hide ReceivingOk, BoxesOk, SendingOk, Stream, Wire, WellAddressed, InOrder;
    var m := net[h].tx.senders[a.thread].mail;
    TransmitEffects(net, h, a, numBoxes, net', m);
    TransmitOrders(net, h, m, !a.lost, net');
  }

  lemma TransmitOrders(net: Net, h: HostId, m: Mail, arrives: bool, net': Net)
    requires h in net && m.pktHdr.from == h && net'.Keys == net.Keys
    requires forall g, s :: g in net && s in net ==> InOrder(net[g].rx, g, net[s].tx, s)
    requires forall g :: g in net ==>
      && net'[g].tx.sent == (if g == h then net[g].tx.sent + [m] else net[g].tx.sent)
      && Stream(net'[g].rx) == if arrives && g == m.pktHdr.to then Stream(net[g].rx) + [m] else Stream(net[g].rx)
    ensures forall g, s :: g in net' && s in net' ==> InOrder(net'[g].rx, g, net'[s].tx, s)
  {
    hide Stream, Filter, IsSubsequence, FromHost, ToHost;
    forall g, s | g in net' && s in net'
      ensures InOrder(net'[g].rx, g, net'[s].tx, s)
    {
      assert InOrder(net[g].rx, g, net[s].tx, s);
      TransmitKeepsOrder(Stream(net[g].rx), net[s].tx.sent, g, s, m, s == h, arrives && g == m.pktHdr.to);
    }
  }

  lemma SenderMail(tx: Sending, host: HostId, numBoxes: nat, t: Tid)
    requires SendingOk(tx, host, numBoxes) && t in tx.senders && tx.senders[t].Transmit?
    ensures WellAddressed(tx.senders[t].mail, numBoxes) && tx.senders[t].mail.pktHdr.from == host
    ensures |Payload(tx.senders[t].mail)| <= MAX_PACKET_SIZE
  {
    assert SenderOk(tx.senders[t], host, numBoxes);
  }

  lemma NextKeepsInv(net: Net, h: HostId, a: Action, numBoxes: nat, net': Net)
    requires Inv(net, numBoxes) && Next(net, h, a, numBoxes, net')
    ensures Inv(net', numBoxes)
  {
    if a.SendTransmit? {
      TransmitKeepsInv(net, h, a, numBoxes, net');
    } else if IsReceiveAction(a) {
      ReceiveKeepsInv(net, h, a, numBoxes, net');
    } else {
      SendKeepsInv(net, h, a, numBoxes, net');
    }
  }

  // ---------- what holds in every run ----------

  ghost predicate IsRun(nets: seq<Net>, moves: seq<(HostId, Action)>, numBoxes: nat)
  {
    && |nets| == |moves| + 1 && Init(nets[0], numBoxes)
    && forall i :: 0 <= i < |moves| ==> Next(nets[i], moves[i].0, moves[i].1, numBoxes, nets[i + 1])
  }

  lemma {:induction false} RunInv(nets: seq<Net>, moves: seq<(HostId, Action)>, numBoxes: nat, i: nat)
    requires IsRun(nets, moves, numBoxes) && i < |nets|
    ensures Inv(nets[i], numBoxes)
  {
    hide Next, Inv, Init;
    if i == 0 {
      InitInv(nets[0], numBoxes);
    } else {
      RunInv(nets, moves, numBoxes, i - 1);
      NextKeepsInv(nets[i - 1], moves[i - 1].0, moves[i - 1].1, numBoxes, nets[i]);
    }
  }

  /**
   Mail put into box b of host h from host s is, in order and with headers and data unchanged, a subsequence of
   what s sent to that host and box.
   */
  lemma MailInOrder(nets: seq<Net>, moves: seq<(HostId, Action)>, numBoxes: nat, i: nat, h: HostId, s: HostId, b: int)
    requires IsRun(nets, moves, numBoxes) && i < |nets| && h in nets[i] && s in nets[i] && 0 <= b < numBoxes
    ensures b in nets[i][h].rx.boxes && b in nets[i][h].rx.got
    ensures
      var rx, tx := nets[i][h].rx, nets[i][s].tx;
      IsSubsequence(Filter(rx.got[b] + rx.boxes[b], FromHost(s)), Filter(Filter(tx.sent, ToHost(h)), ToBox(b)))
  {
    RunInv(nets, moves, numBoxes, i);
    assert HostOk(nets[i][h], h, numBoxes) && InOrder(nets[i][h].rx, h, nets[i][s].tx, s);
    BoxInOrder(nets[i][h].rx, h, nets[i][s].tx, s, b, numBoxes);
  }

  lemma BoxInOrder(rx: Receiving, h: HostId, tx: Sending, s: HostId, b: int, numBoxes: nat)
    requires BoxesOk(rx, numBoxes) && InOrder(rx, h, tx, s) && 0 <= b < numBoxes
    ensures IsSubsequence(Filter(rx.got[b] + rx.boxes[b], FromHost(s)), Filter(Filter(tx.sent, ToHost(h)), ToBox(b)))
  {
    hide WorkerMail, BufferedMail, SocketMail, FromHost, ToHost, ToBox, Filter, IsSubsequence;
    var rest := WorkerMail(rx) + BufferedMail(rx) + SocketMail(rx.socket);
    assert Stream(rx) == rx.delivered + rest;
    FilterConcat(rx.delivered, rest, FromHost(s));
    var all := Filter(Stream(rx), FromHost(s));
    var mine := Filter(rx.delivered, FromHost(s));
    assert all[..|mine|] == mine;
    SubsequencePrefix(all, Filter(tx.sent, ToHost(h)), |mine|);
    SubsequenceFilter(mine, Filter(tx.sent, ToHost(h)), ToBox(b));
    FilterCommutes(rx.delivered, FromHost(s), ToBox(b));
  }

  lemma {:induction false} FilterConcat<T>(a: seq<T>, b: seq<T>, keep: T -> bool)
    ensures Filter(a + b, keep) == Filter(a, keep) + Filter(b, keep)
  {
    if b == [] {
      assert a + b == a;
    } else {
      FilterConcat(a, b[..|b| - 1], keep);
      assert (a + b)[..|a + b| - 1] == a + b[..|b| - 1];
    }
  }

  lemma {:induction false} FilterCommutes<T>(s: seq<T>, p: T -> bool, q: T -> bool)
    ensures Filter(Filter(s, p), q) == Filter(Filter(s, q), p)
  {
    if s != [] {
      var front, x := s[..|s| - 1], s[|s| - 1];
      FilterCommutes(front, p, q);
      FilterAppend(Filter(front, p), x, q);
      FilterAppend(Filter(front, q), x, p);
    }
  }

  /** No step but the worker's own Receive touches a buffered packet. */
  lemma BufferStays(net: Net, g: HostId, a: Action, numBoxes: nat, net': Net, h: HostId)
    requires Next(net, g, a, numBoxes, net') && h in net && net[h].rx.inHdr.length != 0
    requires !(g == h && a == WorkerReceive)
    ensures h in net' && net'[h].rx.inHdr == net[h].rx.inHdr && net'[h].rx.inbox == net[h].rx.inbox
  {
    hide Wire, Payload, Opened, WireHeader, WireData, Deliverable, WellAddressed;
  }

  lemma {:induction false} BufferHeld(
    nets: seq<Net>, moves: seq<(HostId, Action)>, numBoxes: nat, i: nat, j: nat, h: HostId)
    requires IsRun(nets, moves, numBoxes) && i <= j < |nets| && h in nets[i] && nets[i][h].rx.inHdr.length != 0
    requires forall k :: i <= k < j ==> moves[k] != (h, WorkerReceive)
    ensures h in nets[j] && nets[j][h].rx.inHdr == nets[i][h].rx.inHdr && nets[j][h].rx.inbox == nets[i][h].rx.inbox
  {
    hide Next;
    if i < j {
      BufferHeld(nets, moves, numBoxes, i, j - 1, h);
      assert Next(nets[j - 1], moves[j - 1].0, moves[j - 1].1, numBoxes, nets[j]);
      BufferStays(nets[j - 1], moves[j - 1].0, moves[j - 1].1, numBoxes, nets[j], h);
    }
  }

  /** A poll that takes a packet off the socket splits it into header and data. */
  lemma PollSplits(nets: seq<Net>, moves: seq<(HostId, Action)>, numBoxes: nat, i: nat, h: HostId)
    requires IsRun(nets, moves, numBoxes) && i < |moves| && moves[i] == (h, PollInterrupt) && h in nets[i]
    requires nets[i][h].rx.inHdr.length == 0 && nets[i][h].rx.socket != []
    ensures
      var p := nets[i][h].rx.socket[0];
      && WireHeader(p).length != 0 && WireHeader(p).length <= MAX_PACKET_SIZE && h in nets[i + 1]
      && nets[i + 1][h].rx.inHdr == WireHeader(p) && nets[i + 1][h].rx.inbox == WireData(p)
  {
    RunInv(nets, moves, numBoxes, i);
    assert HostOk(nets[i][h], h, numBoxes);
    assert LegalPacket(nets[i][h].rx.socket[0], h, numBoxes);
    hide WireHeader, WireData, Inv;
    assert Next(nets[i], h, PollInterrupt, numBoxes, nets[i + 1]);
  }

  /**
   A buffered packet is never overwritten. Whatever threads, interrupts and hosts do between a poll that takes a packet and
   the worker's next Receive, that Receive hands over the header and the data that the poll split off.
   */
  lemma BufferNeverOverwritten(
    nets: seq<Net>, moves: seq<(HostId, Action)>, numBoxes: nat, i: nat, j: nat, h: HostId)
    requires IsRun(nets, moves, numBoxes) && i < j < |moves| && h in nets[i]
    requires moves[i] == (h, PollInterrupt) && nets[i][h].rx.inHdr.length == 0 && nets[i][h].rx.socket != []
    requires moves[j] == (h, WorkerReceive) && forall k :: i < k < j ==> moves[k] != (h, WorkerReceive)
    ensures
      var p := nets[i][h].rx.socket[0];
      && WireHeader(p).length <= MAX_PACKET_SIZE && h in nets[j + 1]
      && nets[j + 1][h].rx.worker == Deliver(WireHeader(p), WireData(p))
      && nets[j + 1][h].rx.inHdr.length == 0
  {
    PollSplits(nets, moves, numBoxes, i, h);
    BufferHeld(nets, moves, numBoxes, i + 1, j, h);
    hide WireHeader, WireData;
    assert Next(nets[j], h, WorkerReceive, numBoxes, nets[j + 1]);
  }

  /** PostalDelivery never receives an empty header, and what it opens passes its assertions. */
  lemma WorkerFindsPacket(nets: seq<Net>, moves: seq<(HostId, Action)>, numBoxes: nat, i: nat, h: HostId)
    requires IsRun(nets, moves, numBoxes) && i < |nets| && h in nets[i]
    ensures
      var rx := nets[i][h].rx;
      && (rx.worker == Receive ==> rx.inHdr.length != 0)
      && (rx.worker.Deliver? ==> Deliverable(rx.worker.hdr, rx.worker.buffer, numBoxes))
      && (rx.inHdr.length != 0 <==> rx.messageAvailable == 1 || rx.worker == Receive)
      && (rx.socket != [] ==> WireHeader(rx.socket[0]).to == h && WireHeader(rx.socket[0]).length <= MAX_PACKET_SIZE)
  {
    RunInv(nets, moves, numBoxes, i);
    assert HostOk(nets[i][h], h, numBoxes);
    ReceiveAssertions(nets[i][h].rx, h, numBoxes);
  }

  /** A host has at most one packet going out: sendBusy need not be set for its assertion to be meaningful. */
  lemma OnePacketAtATime(nets: seq<Net>, moves: seq<(HostId, Action)>, numBoxes: nat, i: nat)
    requires IsRun(nets, moves, numBoxes) && i < |moves| && moves[i].1.SendTransmit?
    ensures moves[i].0 in nets[i] && nets[i][moves[i].0].tx.sendInterrupts == 0
  {
    RunInv(nets, moves, numBoxes, i);
    var net, h := nets[i], moves[i].0;
    assert Next(net, h, moves[i].1, numBoxes, nets[i + 1]);
    assert HostOk(net[h], h, numBoxes);
    TransmitKeepsOk(net[h].tx, h, numBoxes, moves[i].1.thread);
  }
}
