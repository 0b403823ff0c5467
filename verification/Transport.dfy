/** The MIPTP daemon (miptp_utils.c, miptp_daemon.c): what its functions do to the state of
    the connected applications, as functions on values. The classes in MiptpDaemon.dfy do
    the same in place. */
module Transport {
  import opened Framing
  import opened SendQueue

  /** How many applications fit in the descriptor table behind its first two entries. */
  const MAX_APPS: nat := 18

  datatype Option<+T> = None | Some(value: T)

  /** The next sequence number expected from one sender. */
  datatype Link = Link(port: byte, mip: byte, seqno: nat)

  /** An application connected to the daemon. Port 0 means that it has no port yet. */
  datatype HostState = HostState(port: byte, seqSend: nat, queue: seq<Queued>, links: seq<Link>)

  /** Advancing a sequence counter: it returns to 0 only after the value 2^14. */
  function NextSeq(counter: nat): nat {
    if counter == SEQ_MODULUS then 0 else counter + 1
  }

  function NewHost(seqSend: nat): HostState {
    HostState(0, seqSend, [], [])
  }

  // ---- sending (forward_to_mip) ----

  function Packed(h: HostState, app: Bytes, stale: (byte, byte)): Queued {
    Queued(SeqField(h.seqSend, Rest(|app|)) / 4, FrameOf(app, stale, h.seqSend, h.port))
  }

  function Forward(h: HostState, app: Bytes, stale: (byte, byte)): HostState {
    h.(seqSend := NextSeq(h.seqSend), queue := h.queue + [Packed(h, app, stale)])
  }

  /** Where the program reads or writes outside its data: an unknown port indexes the array
      at -1, an acknowledgement on an empty queue follows a null pointer, a sender beyond the
      thirtieth is written behind the link table, and a message that outgrows the send buffer
      is copied past its end. */
  datatype Fault = NoSuchPort | EmptyQueue | LinkTableOverflow | BufferOverrun

  function ForwardFault(app: Bytes): Option<Fault> {
    if AlignedSize(|app|) > BUFSIZE then Some(BufferOverrun) else None
  }

  /** A message of any length. */
  function TakeMessage(h: HostState, app: Bytes, stale: (byte, byte)): HostState {
    if ForwardFault(app).Some? then h else Forward(h, app, stale)
  }

  /** What forwarding a message of any length comes to: up to the longest that fits it is queued
      behind the others, under the 14 bits of the counter, and the counter advances; a longer one
      changes nothing and is a fault. */
  lemma TakeMessageExact(h: HostState, app: Bytes, stale: (byte, byte))
    ensures ForwardFault(app) == if |app| <= MAX_MESSAGE then None else Some(BufferOverrun)
    ensures TakeMessage(h, app, stale) ==
      if |app| > MAX_MESSAGE then h
      else h.(seqSend := if h.seqSend == SEQ_MODULUS then 0 else h.seqSend + 1,
              queue := h.queue + [Queued(h.seqSend % SEQ_MODULUS, FrameOf(app, stale, h.seqSend, h.port))])
  {
    FitsExactly(|app|);
    FieldSplits(h.seqSend, Rest(|app|));
  }

  /** A packed segment carries its number in 14 bits, and the addresses. */
  lemma PackedFields(h: HostState, app: Bytes, stale: (byte, byte))
    ensures var item := Packed(h, app, stale);
      && item.seqno == h.seqSend % SEQ_MODULUS && 6 <= |item.frame| && item.frame[2] == h.port
      && (item.frame[0], item.frame[3]) == HeaderOf(app, stale)
  {
    FieldSplits(h.seqSend, Rest(|app|));
  }

  /** What becomes of a segment: less than the headers arrives, or it is taken for an
      acknowledgement, or for data. The length that arrives and the two low bits decide. */
  datatype Kind = BelowHeaders | AsAck | AsData

  function ArrivesAs(item: Queued): Kind {
    var words := |item.frame| / 4 % SDU_LEN_MODULUS;
    if words < 2 || |item.frame| < 8 then BelowHeaders
    else if words == 2 && item.frame[5] % 4 == 2 then AsAck
    else AsData
  }

  /** That is what read_message makes of the frame that arrives. */
  lemma ArrivesAsCarried(item: Queued, mip: byte)
    requires 2 <= |item.frame|
    ensures var frame := Carry(item.frame, mip);
      match ArrivesAs(item)
      case BelowHeaders => |frame| < 8
      case AsAck => 8 <= |frame| && IsAck(frame)
      case AsData => 8 <= |frame| && !IsAck(frame)
  {
    var frame := Carry(item.frame, mip);
    if 8 <= |frame| {
      assert frame[5] == item.frame[5];
      assert LowBits(frame) == frame[5] % 4;
    }
  }

  /** The lengths of the messages that arrive as data: of those that fit the 9-bit length, all
      but the empty one. */
  predicate DataLength(rc: nat) {
    AlignedSize(rc) <= BUFSIZE && rc != 0 && !(2039 <= rc <= 2046) && rc != 2048 && rc < 4087
  }

  lemma ArrivesAsDataExactly(h: HostState, app: Bytes, stale: (byte, byte))
    requires AlignedSize(|app|) <= BUFSIZE
    ensures ArrivesAs(Packed(h, app, stale)) == AsData <==> DataLength(|app|)
    ensures ArrivesAs(Packed(h, app, stale)) == AsAck <==> |app| == 0 || |app| == 2048
    ensures AlignedSize(|app|) < 4 * SDU_LEN_MODULUS ==> (DataLength(|app|) <==> |app| != 0)
  {
    ArrivesAsCarried(Packed(h, app, stale), 0);
    TakenForAckExactly(app, stale, h.seqSend, h.port, Rest(|app|), 0);
    CutBelowHeadersExactly(app, stale, h.seqSend, h.port, 0);
  }

  /** Whether the newest message of a queue is written at once: a plain difference. */
  predicate InWindow(queue: seq<Queued>)
    requires queue != []
  {
    queue[|queue| - 1].seqno as int - queue[0].seqno < WINDOW
  }

  /** The number of the front message, the given one being appended. */
  function FrontNumber(queue: seq<Queued>, number: nat): nat {
    if queue == [] then number else queue[0].seqno
  }

  lemma AtOnceExact(h: HostState, app: Bytes, stale: (byte, byte))
    ensures ForwardFault(app) == if |app| <= MAX_MESSAGE then None else Some(BufferOverrun)
    ensures var item, number := Packed(h, app, stale), h.seqSend % SEQ_MODULUS;
      && item.seqno == number && item.frame == FrameOf(app, stale, h.seqSend, h.port)
      && Forward(h, app, stale).queue[0].seqno == FrontNumber(h.queue, number)
  {
    TakeMessageExact(h, app, stale);
    FieldSplits(h.seqSend, Rest(|app|));
  }

  // ---- receiving (read_message) ----

  /** The first link of the given sender, or -1 (seq_exp). */
  function IndexOfLink(links: seq<Link>, mip: byte, port: byte): int {
    if links == [] then -1
    else if links[0].port == port && links[0].mip == mip then 0
    else var rest := IndexOfLink(links[1..], mip, port);
         if rest == -1 then -1 else rest + 1
  }

  lemma {:induction false} IndexOfLinkFinds(links: seq<Link>, mip: byte, port: byte)
    ensures var i := IndexOfLink(links, mip, port);
      && -1 <= i < |links|
      && (0 <= i ==> links[i].port == port && links[i].mip == mip)
      && (forall k :: 0 <= k < (if i == -1 then |links| else i) ==> !(links[k].port == port && links[k].mip == mip))
  {
    if links != [] {
      IndexOfLinkFinds(links[1..], mip, port);
      assert forall k :: 1 <= k < |links| ==> links[k] == links[1..][k - 1];
    }
  }

  lemma IndexOfLinkIs(links: seq<Link>, mip: byte, port: byte, i: nat)
    requires i < |links| && links[i].port == port && links[i].mip == mip
    requires forall k :: 0 <= k < i ==> !(links[k].port == port && links[k].mip == mip)
    ensures IndexOfLink(links, mip, port) == i
  {
    IndexOfLinkFinds(links, mip, port);
  }

  lemma IndexOfLinkIsNot(links: seq<Link>, mip: byte, port: byte)
    requires forall k :: 0 <= k < |links| ==> !(links[k].port == port && links[k].mip == mip)
    ensures IndexOfLink(links, mip, port) == -1
  {
    IndexOfLinkFinds(links, mip, port);
  }

  datatype Verdict = Unexpected | Accepted(links: seq<Link>) | TableFull

  /** What a data segment does to the table: unknown senders get a link at the number they
      arrive with, known senders must arrive with the expected number. */
  function Receive(links: seq<Link>, mip: byte, port: byte, seqno: nat): Verdict {
    IndexOfLinkFinds(links, mip, port);
    var i := IndexOfLink(links, mip, port);
    if i == -1 then
      if |links| < MAX_LINKS then Accepted(links + [Link(port, mip, NextSeq(seqno))]) else TableFull
    else if seqno != links[i].seqno then Unexpected
    else Accepted(links[i := links[i].(seqno := NextSeq(seqno))])
  }

  /** The number expected from a sender, if it has been heard. */
  function Expected(links: seq<Link>, mip: byte, port: byte): Option<nat> {
    IndexOfLinkFinds(links, mip, port);
    var i := IndexOfLink(links, mip, port);
    if i == -1 then None else Some(links[i].seqno)
  }

  /** A segment is accepted from a known sender iff it carries the expected number, from a
      new one iff the table has room; then the sender's expectation is the number after it,
      and nobody else's expectation moves. */
  lemma ReceiveExact(links: seq<Link>, mip: byte, port: byte, seqno: nat)
    ensures var v := Receive(links, mip, port, seqno);
      match Expected(links, mip, port)
      case None => if |links| < MAX_LINKS then v.Accepted? && |v.links| == |links| + 1 else v.TableFull?
      case Some(e) => if seqno == e then v.Accepted? && |v.links| == |links| else v.Unexpected?
    ensures var v := Receive(links, mip, port, seqno);
      v.Accepted? ==>
        forall m: byte, p: byte :: Expected(v.links, m, p) ==
          if m == mip && p == port then Some(NextSeq(seqno)) else Expected(links, m, p)
  {
    IndexOfLinkFinds(links, mip, port);
    var v := Receive(links, mip, port, seqno);
    if v.Accepted? {
      var i := IndexOfLink(links, mip, port);
      forall m: byte, p: byte
        ensures Expected(v.links, m, p) ==
          if m == mip && p == port then Some(NextSeq(seqno)) else Expected(links, m, p)
      {
        IndexOfLinkFinds(links, m, p);
        IndexOfLinkFinds(v.links, m, p);
        var j := IndexOfLink(links, m, p);
        if m == mip && p == port {
          IndexOfLinkIs(v.links, m, p, if i == -1 then |links| else i);
        } else if j == -1 {
          IndexOfLinkIsNot(v.links, m, p);
        } else {
          IndexOfLinkIs(v.links, m, p, j);
        }
      }
    }
  }

  /** An acknowledgement takes the front message off the queue iff it carries its number. */
  function TakeAck(h: HostState, seqno: nat): HostState
    requires h.queue != []
  {
    if seqno == h.queue[0].seqno then h.(queue := h.queue[1..]) else h
  }

  // ---- the daemon: all its applications ----

  /** The first application with the given port, or -1. */
  function IndexOfPort(hosts: seq<HostState>, port: byte): int {
    if hosts == [] then -1
    else if hosts[0].port == port then 0
    else var rest := IndexOfPort(hosts[1..], port);
         if rest == -1 then -1 else rest + 1
  }

  lemma {:induction false} IndexOfPortFinds(hosts: seq<HostState>, port: byte)
    ensures var i := IndexOfPort(hosts, port);
      && -1 <= i < |hosts|
      && (0 <= i ==> hosts[i].port == port)
      && (forall k :: 0 <= k < (if i == -1 then |hosts| else i) ==> hosts[k].port != port)
  {
    if hosts != [] {
      IndexOfPortFinds(hosts[1..], port);
      assert forall k :: 1 <= k < |hosts| ==> hosts[k] == hosts[1..][k - 1];
    }
  }


  /** The result of read_message: the new state, the acknowledgement written, what an
      application is handed, and the fault if there is one. */
  datatype Reading = Reading(
    hosts: seq<HostState>,
    acks: seq<Bytes>,
    handed: Option<(nat, Bytes)>,
    fault: Option<Fault>)

  function Read(hosts: seq<HostState>, frame: Bytes): Reading
    requires 8 <= |frame|
  {
    IndexOfPortFinds(hosts, frame[3]);
    var i := IndexOfPort(hosts, frame[3]);
    if i == -1 then Reading(hosts, [], None, Some(NoSuchPort))
    else if IsAck(frame) then
      if hosts[i].queue == [] then Reading(hosts, [], None, Some(EmptyQueue))
      else Reading(hosts[i := TakeAck(hosts[i], SeqOf(frame))], [], None, None)
    else
      var ack := AckFrame(frame[2], frame[0], SeqOf(frame), frame[3]);
      match Receive(hosts[i].links, frame[0], frame[2], SeqOf(frame))
      case Unexpected => Reading(hosts, [ack], None, None)
      case TableFull => Reading(hosts, [ack], None, Some(LinkTableOverflow))
      case Accepted(links) => Reading(hosts[i := hosts[i].(links := links)], [ack], Some((i, Upward(frame))), None)
  }

  /** What read_message makes of a frame for nobody's port. */
  lemma ReadNobodys(hosts: seq<HostState>, frame: Bytes)
    requires 8 <= |frame| && forall k :: 0 <= k < |hosts| ==> hosts[k].port != frame[3]
    ensures Read(hosts, frame) == Reading(hosts, [], None, Some(NoSuchPort))
  {
    IndexOfPortFinds(hosts, frame[3]);
  }

  /** And of a frame for the port of application i, the first with that port. An acknowledgement
      meets the front of its queue. Data is acknowledged to its sender whatever becomes of it,
      and handed up iff it is new to a table with room or carries the expected number, which
      then advances. */
  lemma ReadExact(hosts: seq<HostState>, frame: Bytes, i: nat)
    requires 8 <= |frame| && i < |hosts| && hosts[i].port == frame[3]
    requires forall k :: 0 <= k < i ==> hosts[k].port != frame[3]
    ensures var r, h, n := Read(hosts, frame), hosts[i], SeqOf(frame);
      && |r.hosts| == |hosts| && (forall k :: 0 <= k < |hosts| && k != i ==> r.hosts[k] == hosts[k])
      && if IsAck(frame) then
           && r.acks == [] && r.handed == None
           && r.fault == (if h.queue == [] then Some(EmptyQueue) else None)
           && r.hosts[i] == h.(queue := if h.queue != [] && h.queue[0].seqno == n then h.queue[1..] else h.queue)
         else
           var e := Expected(h.links, frame[0], frame[2]);
           var accepted := if e == None then |h.links| < MAX_LINKS else e == Some(n);
           && r.acks == [AckFrame(frame[2], frame[0], n, frame[3])]
           && r.fault == (if e == None && !accepted then Some(LinkTableOverflow) else None)
           && r.handed == (if accepted then Some((i, Upward(frame))) else None)
           && r.hosts[i] == h.(links := r.hosts[i].links)
           && (!accepted ==> r.hosts[i] == h)
    ensures var r := Read(hosts, frame);
      r.handed.Some? ==>
        forall m: byte, p: byte :: Expected(r.hosts[i].links, m, p) ==
          if m == frame[0] && p == frame[2] then Some(NextSeq(SeqOf(frame))) else Expected(hosts[i].links, m, p)
  {
    IndexOfPortFinds(hosts, frame[3]);
    ReceiveExact(hosts[i].links, frame[0], frame[2], SeqOf(frame));
  }

  /** A port request is granted iff no application, the requester included, has that port. */
  function RequestPort(hosts: seq<HostState>, i: nat, port: byte): seq<HostState>
    requires i < |hosts|
  {
    if IndexOfPort(hosts, port) == -1 then hosts[i := hosts[i].(port := port)] else hosts
  }

  // ---- every reachable state of a daemon ----

  datatype Event =
    | Connect(seqSend: nat)
    | FromApplication(app: nat, bytes: Bytes, stale: (byte, byte))
    | FromNetwork(frame: Bytes)

  /** One round of the main loop. A message from an application without a port is a port
      request; impossible events, faulty readings and messages that overrun the buffer leave
      the state alone. */
  function React(hosts: seq<HostState>, e: Event): seq<HostState> {
    match e
    case Connect(seqSend) =>
      if |hosts| < MAX_APPS && seqSend < SEQ_MODULUS then hosts + [NewHost(seqSend)] else hosts
    case FromApplication(i, bytes, stale) =>
      if i < |hosts| then
        if hosts[i].port == 0 then RequestPort(hosts, i, HeaderOf(bytes, stale).0)
        else hosts[i := TakeMessage(hosts[i], bytes, stale)]
      else hosts
    case FromNetwork(frame) =>
      if 8 <= |frame| then Read(hosts, frame).hosts else hosts
  }

  function History(events: seq<Event>): seq<HostState> {
    if events == [] then []
    else React(History(events[..|events| - 1]), events[|events| - 1])
  }

  predicate PortsDistinct(hosts: seq<HostState>) {
    forall i, j :: 0 <= i < j < |hosts| && hosts[i].port != 0 ==> hosts[i].port != hosts[j].port
  }

  /** In every reachable state no two applications share a port, and a port of an
      application finds that application and no other. */
  lemma {:induction false} PortsStayDistinct(events: seq<Event>)
    ensures var hosts := History(events);
      && PortsDistinct(hosts)
      && (forall i :: 0 <= i < |hosts| && hosts[i].port != 0 ==> IndexOfPort(hosts, hosts[i].port) == i)
  {
    var hosts := History(events);
    if events != [] {
      PortsStayDistinct(events[..|events| - 1]);
      ReactKeepsPorts(History(events[..|events| - 1]), events[|events| - 1]);
    }
    forall i | 0 <= i < |hosts| && hosts[i].port != 0
      ensures IndexOfPort(hosts, hosts[i].port) == i
    {
      IndexOfPortFinds(hosts, hosts[i].port);
    }
  }

  lemma ReactKeepsPorts(hosts: seq<HostState>, e: Event)
    requires PortsDistinct(hosts)
    ensures PortsDistinct(React(hosts, e))
  {
    match e
    case Connect(_) =>
    case FromApplication(i, bytes, stale) =>
      if i < |hosts| && hosts[i].port == 0 {
        IndexOfPortFinds(hosts, HeaderOf(bytes, stale).0);
      }
    case FromNetwork(frame) =>
      if 8 <= |frame| {
        IndexOfPortFinds(hosts, frame[3]);
        var after := Read(hosts, frame).hosts;
        assert |after| == |hosts|;
        assert forall k :: 0 <= k < |hosts| ==> after[k].port == hosts[k].port;
      }
  }

  /** A request is granted iff the port is free and not 0: port 0 is refused because the
      requester itself still carries it. Other requests change nothing. */
  lemma PortRequestExact(hosts: seq<HostState>, i: nat, port: byte)
    requires i < |hosts| && hosts[i].port == 0
    ensures RequestPort(hosts, i, port) ==
      if port != 0 && (forall k :: 0 <= k < |hosts| ==> hosts[k].port != port)
      then hosts[i := hosts[i].(port := port)] else hosts
  {
    IndexOfPortFinds(hosts, port);
  }
}
