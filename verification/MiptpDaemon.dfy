/** The MIPTP daemon in place (miptp_utils.c, miptp_daemon.c): applications with their link
    tables and message queues on the heap, proved against the functions of Transport. */
module MiptpDaemon {
  import opened Framing
  import opened SendQueue
  import opened Transport

  /** What the timeout scan does to one application: if there is a front message, written at the
      given time, and that is longer ago than the timeout, the window is written again and the
      front message gets the new time; otherwise nothing is written. */
  predicate Resent(written: seq<Bytes>, q: seq<Queued>, before: int, after: int, now: int, timeout: int) {
    if q != [] && now - before > timeout then WindowWritten(written, q) && after == now
    else written == [] && after == before
  }

  /** One connected application: its port, its link table and its message queue. */
  class Host {
    var port: byte
    var seqSend: nat
    var numSeqLink: nat
    var seqLink: array<Link>
    var messageQueue: MessageQueue

    ghost var repr: set<object>
    ghost var state: HostState
    /** When the front message was last written, if there is one. */
    ghost var frontTime: int

    ghost predicate Valid()
      reads this, repr
      ensures Valid() ==> this in repr
    {
      && {this, seqLink, messageQueue} <= repr && messageQueue.repr <= repr
      && {this, seqLink} !! messageQueue.repr
      && messageQueue.Valid()
      && seqLink.Length == MAX_LINKS && numSeqLink <= MAX_LINKS
      && state == HostState(port, seqSend, messageQueue.contents, seqLink[..numSeqLink])
      && (state.queue != [] ==> frontTime == messageQueue.spine[1].time)
    }

    constructor (seqSend: nat)
      ensures Valid() && fresh(repr)
      ensures state == NewHost(seqSend)
    {
      this.port, this.seqSend, numSeqLink := 0, seqSend, 0;
      seqLink := new Link[MAX_LINKS](_ => Link(255, 255, 0xFFFF_FFFF));
      messageQueue := new MessageQueue();
      new;
      state := NewHost(seqSend);
      repr := {this, seqLink, messageQueue} + messageQueue.repr;
      assert seqLink[..0] == [];
    }

    /** The frame for the next message. */
    method Pack(app: Bytes, stale: (byte, byte)) returns (item: Queued)
      requires Valid()
      requires AlignedSize(|app|) <= BUFSIZE
      ensures item == Packed(state, app, stale)
    {
      var frame, size := FillDataFrame(app, stale, seqSend, port);
      item := Queued(SeqField(seqSend, (6 + |app|) % 4) / 4, frame[..size]);
    }

    /** The counter advances. */
    method Count()
      requires Valid()
      modifies this
      ensures Valid() && repr == old(repr)
      ensures state == old(state).(seqSend := if old(seqSend) == SEQ_MODULUS then 0 else old(seqSend) + 1)
    {
      if seqSend == SEQ_MODULUS {
        seqSend := 0;
      } else {
        seqSend := seqSend + 1;
      }
      state := state.(seqSend := seqSend);
    }

    /** A message is sent now if it lies in the window. */
    method WriteInWindow(item: Queued) returns (written: Option<Bytes>)
      requires Valid() && state.queue != []
      ensures written == if item.seqno as int - state.queue[0].seqno < WINDOW then Some(item.frame) else None
    {
      var front := messageQueue.Front();
      if item.seqno as int - front.item.seqno < 16 {
        written := Some(item.frame);
      } else {
        written := None;
      }
    }

    /** Link a message in behind the others. */
    method Enqueue(item: Queued, now: int)
      requires Valid()
      modifies repr
      ensures Valid() && fresh(repr - old(repr))
      ensures state == old(state).(queue := old(state).queue + [item])
      ensures seqSend == old(seqSend)
    {
      var _ := messageQueue.AddToQueue(item, now);
      repr := repr + messageQueue.repr;
      state := state.(queue := messageQueue.contents);
      frontTime := messageQueue.spine[1].time;
    }

    /** Queue a message that fits and write it if it lies in the window. */
    method Send(app: Bytes, stale: (byte, byte), now: int) returns (written: Option<Bytes>)
      requires Valid() && AlignedSize(|app|) <= BUFSIZE
      modifies repr
      ensures Valid() && fresh(repr - old(repr))
      ensures state == Forward(old(state), app, stale)
      ensures var item := Packed(old(state), app, stale);
        written == if item.seqno as int - state.queue[0].seqno < WINDOW then Some(item.frame) else None
    {
      var item := Pack(app, stale);
      Count();
      Enqueue(item, now);
      written := WriteInWindow(item);
    }

    /** forward_to_mip: queue the message and write it if it lies in the window. stale is what
        the read buffer held where a message shorter than its header leaves it. */
    method ForwardToMip(app: Bytes, stale: (byte, byte), now: int)
      returns (written: Option<Bytes>, fault: Option<Fault>)
      requires Valid()
      modifies repr
      ensures Valid() && fresh(repr - old(repr))
      ensures fault == (if |app| <= MAX_MESSAGE then None else Some(BufferOverrun))
      ensures state == TakeMessage(old(state), app, stale)
      ensures var h, number := old(state), old(seqSend) % SEQ_MODULUS;
        written == if fault.None? && number - FrontNumber(h.queue, number) < WINDOW
                   then Some(FrameOf(app, stale, h.seqSend, h.port)) else None
    {
      AtOnceExact(state, app, stale);
      fault := ForwardFault(app);
      if fault.Some? {
        return None, fault;
      }
      written := Send(app, stale, now);
    }

    /** Write the window again if the front message is too old. */
    method ResendIfTimedOut(now: int, timeout: int) returns (written: seq<Bytes>)
      requires Valid()
      modifies repr
      ensures Valid() && repr == old(repr) && state == old(state)
      ensures messageQueue == old(messageQueue) && messageQueue.spine == old(messageQueue.spine)
      ensures Resent(written, state.queue, old(frontTime), frontTime, now, timeout)
      ensures state.queue != [] ==> old(frontTime) == old(messageQueue.spine[1].time)
      ensures var nodes, late := messageQueue.spine, state.queue != [] && now - old(frontTime) > timeout;
        forall k :: 1 <= k < |nodes| ==> nodes[k].time == if k <= WINDOW && late then now else old(nodes[k].time)
    {
      written := [];
      var front := messageQueue.Front();
      if front != null && now - front.time > timeout {
        written := messageQueue.ResendWindow(now);
        frontTime := now;
      }
    }

    method SetPort(port: byte)
      requires Valid()
      modifies this
      ensures Valid() && repr == old(repr)
      ensures state == old(state).(port := port)
    {
      this.port := port;
      state := state.(port := port);
    }

    /** seq_exp: the index of the sender's link, or -1. */
    method SeqExp(srcMip: byte, srcPort: byte) returns (index: int)
      requires Valid()
      ensures index == IndexOfLink(seqLink[..numSeqLink], srcMip, srcPort)
    {
      var i := 0;
      ghost var links := seqLink[..numSeqLink];
      while i < numSeqLink
        invariant 0 <= i <= numSeqLink
        invariant forall k :: 0 <= k < i ==> !(links[k].port == srcPort && links[k].mip == srcMip)
      {
        if seqLink[i].port == srcPort && seqLink[i].mip == srcMip {
          IndexOfLinkIs(links, srcMip, srcPort, i);
          return i;
        }
        i := i + 1;
      }
      IndexOfLinkIsNot(links, srcMip, srcPort);
      return -1;
    }

    /** Move the window by one. */
    method DropFront()
      requires Valid() && state.queue != []
      modifies repr
      ensures Valid() && repr == old(repr)
      ensures state == old(state).(queue := old(state).queue[1..])
    {
      messageQueue.Advance();
      state := state.(queue := messageQueue.contents);
      frontTime := if state.queue != [] then messageQueue.spine[1].time else 0;
    }

    /** The acknowledgement branch of read_message. */
    method HandleAck(seqno: nat) returns (fault: Option<Fault>)
      requires Valid()
      modifies repr
      ensures Valid() && repr == old(repr)
      ensures fault == if old(state).queue == [] then Some(EmptyQueue) else None
      ensures state == if fault.None? then TakeAck(old(state), seqno) else old(state)
      ensures var q := old(state).queue;
        state.queue == if q != [] && q[0].seqno == seqno then q[1..] else q
    {
      var front := messageQueue.Front();
      if front == null {
        return Some(EmptyQueue);
      }
      if seqno == front.item.seqno {
        DropFront();
        var _ := messageQueue.SendNext();
      }
      fault := None;
    }

    /** The first packet of a sender sets its number. */
    method AddLink(mip: byte, port: byte, seqno: nat)
      requires Valid() && numSeqLink < MAX_LINKS
      modifies repr
      ensures Valid() && repr == old(repr)
      ensures state == old(state).(links := old(state).links + [Link(port, mip, seqno)])
      ensures numSeqLink == old(numSeqLink) + 1
    {
      seqLink[numSeqLink] := Link(port, mip, seqno);
      numSeqLink := numSeqLink + 1;
      state := state.(links := seqLink[..numSeqLink]);
    }

    /** Expect the next number of a sender. */
    method AdvanceLink(i: nat)
      requires Valid() && i < numSeqLink
      modifies repr
      ensures Valid() && repr == old(repr)
      ensures var links := old(state).links;
        state == old(state).(links := links[i := links[i].(seqno := NextSeq(links[i].seqno))])
    {
      if seqLink[i].seqno == SEQ_MODULUS {
        seqLink[i] := seqLink[i].(seqno := 0);
      } else {
        seqLink[i] := seqLink[i].(seqno := seqLink[i].seqno + 1);
      }
      state := state.(links := seqLink[..numSeqLink]);
    }

    /** The data branch of read_message, after the acknowledgement has been written. */
    method HandleData(srcMip: byte, srcPort: byte, seqno: nat) returns (accepted: bool, fault: Option<Fault>)
      requires Valid()
      modifies repr
      ensures Valid() && repr == old(repr)
      ensures match Receive(old(state).links, srcMip, srcPort, seqno)
        case Unexpected => !accepted && fault == None && state == old(state)
        case TableFull => !accepted && fault == Some(LinkTableOverflow) && state == old(state)
        case Accepted(links) => accepted && fault == None && state == old(state).(links := links)
    {
      var exp := SeqExp(srcMip, srcPort);
      ghost var links := state.links;
      IndexOfLinkFinds(links, srcMip, srcPort);
      if exp != -1 && seqno != seqLink[exp].seqno {
        return false, None;
      }
      if exp == -1 {
        if numSeqLink == MAX_LINKS {
          return false, Some(LinkTableOverflow);
        }
        AddLink(srcMip, srcPort, seqno);
        exp := numSeqLink - 1;
      }
      AdvanceLink(exp);
      assert exp == |links| ==> state.links == links + [Link(srcPort, srcMip, NextSeq(seqno))];
      accepted, fault := true, None;
    }
  }

  class Daemon {
    var hosts: seq<Host>
    /** The states of the applications, in order. */
    ghost var view: seq<HostState>

    ghost var repr: set<object>

    /** The applications are in the given states, apart from one another, within all. */
    static ghost predicate Apart(hosts: seq<Host>, states: seq<HostState>, all: set<object>)
      reads all
    {
      && |states| == |hosts|
      && (forall i :: 0 <= i < |hosts| ==> hosts[i] in all && hosts[i].repr <= all)
      && (forall i :: 0 <= i < |hosts| ==> hosts[i].Valid() && hosts[i].state == states[i])
      && (forall i, j :: 0 <= i < j < |hosts| ==> hosts[i].repr !! hosts[j].repr)
    }

    ghost predicate Around(states: seq<HostState>, all: set<object>)
      reads `hosts, all
    {
      this !in all && Apart(hosts, states, all)
    }

    ghost predicate Valid()
      reads this, repr
      ensures Valid() ==> this in repr
    {
      this in repr && Around(view, repr - {this})
    }

    /** Work inside one application leaves the others as they were. */
    twostate lemma OthersKept(i: nat)
      requires old(Valid()) && i < |hosts| && hosts == old(hosts)
      requires forall o :: o in old(repr) && o !in old(hosts[i].repr) && o != this ==> unchanged(o)
      requires hosts[i].Valid() && fresh(hosts[i].repr - old(hosts[i].repr))
      ensures Around(old(view)[i := hosts[i].state], old(repr) - {this} + hosts[i].repr)
      ensures forall k :: 0 <= k < |hosts| && k != i ==> hosts[k].frontTime == old(hosts[k].frontTime)
      ensures fresh(old(repr) + hosts[i].repr - old(repr))
    {
      assert old(this !in hosts[i].repr);
      forall k | 0 <= k < |hosts| && k != i
        ensures hosts[k].Valid() && hosts[k].state == old(view)[k] && hosts[k].repr == old(hosts[k].repr)
          && hosts[k].frontTime == old(hosts[k].frontTime) && hosts[k].repr !! hosts[i].repr
      {
        assert old(hosts[k].Valid());
        assert old(hosts[k].repr !! hosts[i].repr);
        assert forall o :: o in old(hosts[k].repr) ==> unchanged(o);
      }
    }

    ghost method Record(states: seq<HostState>, all: set<object>)
      requires Around(states, all)
      modifies `view, `repr
      ensures Valid() && view == states && repr == {this} + all
    {
      view, repr := states, {this} + all;
      assert repr - {this} == all;
    }

    constructor ()
      ensures Valid() && fresh(repr) && view == []
    {
      hosts, view, repr := [], [], {this};
    }

    static lemma OneMoreApart(hosts: seq<Host>, states: seq<HostState>, all: set<object>, host: Host)
      requires Apart(hosts, states, all) && host.Valid() && host.repr !! all
      ensures Apart(hosts + [host], states + [host.state], all + host.repr)
    {
      assert host in host.repr;
    }

    method Adopt(host: Host)
      requires Valid() && host.Valid() && host.repr !! repr
      modifies this
      ensures Valid() && repr == old(repr) + host.repr
      ensures view == old(view) + [host.state]
    {
      assert this !in host.repr && host in host.repr;
      ghost var others := repr - {this};
      OneMoreApart(hosts, view, others, host);
      hosts := hosts + [host];
      Record(view + [host.state], others + host.repr);
    }

    /** A new application connects, with a random first sequence number. */
    method AcceptConnection(seqSend: nat)
      requires Valid() && seqSend < SEQ_MODULUS
      requires |view| < MAX_APPS
      modifies this
      ensures Valid() && fresh(repr - old(repr))
      ensures view == old(view) + [NewHost(seqSend)] == React(old(view), Connect(seqSend))
    {
      var host := new Host(seqSend);
      Adopt(host);
    }

    /** index_of_port */
    method FindPort(port: byte) returns (index: int)
      requires Valid()
      ensures index == IndexOfPort(view, port)
    {
      IndexOfPortFinds(view, port);
      for i := 0 to |hosts|
        invariant forall k :: 0 <= k < i ==> view[k].port != port
      {
        assert hosts[i].state == view[i];
        if hosts[i].port == port {
          return i;
        }
      }
      return -1;
    }

    method GrantPort(i: nat, port: byte)
      requires Valid() && i < |view|
      modifies repr
      ensures Valid() && repr == old(repr)
      ensures view == old(view)[i := old(view)[i].(port := port)]
    {
      hosts[i].SetPort(port);
      OthersKept(i);
      view := view[i := view[i].(port := port)];
    }

    /** available_port and the answer to a port request. */
    method HandlePortRequest(i: nat, port: byte) returns (approved: bool)
      requires Valid() && i < |view|
      modifies repr
      ensures Valid() && repr == old(repr)
      ensures view == RequestPort(old(view), i, port)
      ensures old(view)[i].port == 0 ==>
        forall app, stale :: HeaderOf(app, stale).0 == port ==> view == React(old(view), FromApplication(i, app, stale))
      ensures approved <==> forall k :: 0 <= k < |view| ==> old(view)[k].port != port
    {
      var owner := FindPort(port);
      IndexOfPortFinds(view, port);
      approved := owner == -1;
      if approved {
        GrantPort(i, port);
      }
    }

    /** A message of an application that has its port. */
    method HandleMessage(i: nat, app: Bytes, stale: (byte, byte), now: int)
      returns (written: Option<Bytes>, fault: Option<Fault>)
      requires Valid() && i < |view|
      modifies repr
      ensures Valid() && fresh(repr - old(repr))
      ensures fault == (if |app| <= MAX_MESSAGE then None else Some(BufferOverrun))
      ensures view == old(view)[i := TakeMessage(old(view)[i], app, stale)]
      ensures old(view)[i].port != 0 ==> view == React(old(view), FromApplication(i, app, stale))
      ensures var h := old(view)[i];
        var number := h.seqSend % SEQ_MODULUS;
        written == if fault.None? && number - FrontNumber(h.queue, number) < WINDOW
                   then Some(FrameOf(app, stale, h.seqSend, h.port)) else None
    {
      written, fault := hosts[i].ForwardToMip(app, stale, now);
      OthersKept(i);
      Record(view[i := hosts[i].state], repr - {this} + hosts[i].repr);
    }

    method HandleAckAt(i: nat, seqno: nat) returns (fault: Option<Fault>)
      requires Valid() && i < |view|
      modifies repr
      ensures Valid() && repr == old(repr)
      ensures fault == if old(view)[i].queue == [] then Some(EmptyQueue) else None
      ensures view == if fault.None? then old(view)[i := TakeAck(old(view)[i], seqno)] else old(view)
    {
      fault := hosts[i].HandleAck(seqno);
      OthersKept(i);
      view := view[i := hosts[i].state];
    }

    method HandleDataAt(i: nat, srcMip: byte, srcPort: byte, seqno: nat) returns (accepted: bool, fault: Option<Fault>)
      requires Valid() && i < |view|
      modifies repr
      ensures Valid() && repr == old(repr)
      ensures match Receive(old(view)[i].links, srcMip, srcPort, seqno)
        case Unexpected => !accepted && fault == None && view == old(view)
        case TableFull => !accepted && fault == Some(LinkTableOverflow) && view == old(view)
        case Accepted(links) => accepted && fault == None && view == old(view)[i := old(view)[i].(links := links)]
    {
      accepted, fault := hosts[i].HandleData(srcMip, srcPort, seqno);
      OthersKept(i);
      view := view[i := hosts[i].state];
    }

    /** A frame for the port of application i: an acknowledgement, or data. */
    method ReadAt(i: nat, frame: Bytes) returns (ack: Option<Bytes>, handed: Option<(nat, Bytes)>, fault: Option<Fault>)
      requires Valid() && 8 <= |frame| && i < |view| && IndexOfPort(view, frame[3]) == i
      modifies repr
      ensures Valid() && repr == old(repr)
      ensures var r := Read(old(view), frame);
        && view == r.hosts && handed == r.handed && fault == r.fault
        && r.acks == if ack.Some? then [ack.value] else []
    {
      ack, handed := None, None;
      if IsAck(frame) {
        fault := HandleAckAt(i, SeqOf(frame));
      } else {
        ack := Some(AckFrame(frame[2], frame[0], SeqOf(frame), frame[3]));
        var accepted;
        accepted, fault := HandleDataAt(i, frame[0], frame[2], SeqOf(frame));
        if accepted {
          handed := Some((i, Upward(frame)));
        }
      }
    }

    /** read_message */
    method ReadMessage(frame: Bytes) returns (ack: Option<Bytes>, handed: Option<(nat, Bytes)>, fault: Option<Fault>)
      requires Valid() && 8 <= |frame|
      modifies repr
      ensures Valid() && repr == old(repr)
      ensures var r := Read(old(view), frame);
        && view == r.hosts && handed == r.handed && fault == r.fault
        && r.acks == if ack.Some? then [ack.value] else []
      ensures view == React(old(view), FromNetwork(frame))
    {
      ack, handed, fault := None, None, None;
      var index := FindPort(frame[3]);
      IndexOfPortFinds(view, frame[3]);
      if index == -1 {
        fault := Some(NoSuchPort);
      } else {
        ack, handed, fault := ReadAt(index, frame);
      }
    }

    /** One application of the scan. */
    method ResendAt(i: nat, now: int, timeout: int) returns (written: seq<Bytes>)
      requires Valid() && i < |hosts|
      modifies hosts[i].repr
      ensures Valid()
      ensures forall k :: 0 <= k < |hosts| && k != i ==> hosts[k].frontTime == old(hosts[k].frontTime)
      ensures Resent(written, view[i].queue, old(hosts[i].frontTime), hosts[i].frontTime, now, timeout)
    {
      written := hosts[i].ResendIfTimedOut(now, timeout);
      OthersKept(i);
    }

    /** The timeout scan at the top of the main loop: every application whose front message
        is too old has its window written again. */
    method ResendTimedOut(now: int, timeout: int) returns (written: seq<seq<Bytes>>)
      requires Valid()
      modifies repr
      ensures Valid() && view == old(view) && hosts == old(hosts) && repr == old(repr)
      ensures |written| == |view|
      ensures forall i :: 0 <= i < |view| ==>
        Resent(written[i], view[i].queue, old(hosts[i].frontTime), hosts[i].frontTime, now, timeout)
    {
      written := [];
      ghost var times := seq(|hosts|, i requires 0 <= i < |hosts| reads * => hosts[i].frontTime);
      var i := 0;
      while i < |hosts|
        invariant i <= |hosts|
        invariant Valid() && view == old(view) && hosts == old(hosts) && repr == old(repr) && |written| == i
        invariant forall k :: i <= k < |hosts| ==> hosts[k].frontTime == times[k]
        invariant forall k :: 0 <= k < i ==>
          Resent(written[k], view[k].queue, times[k], hosts[k].frontTime, now, timeout)
      {
        var frames := ResendAt(i, now, timeout);
        written := written + [frames];
        i := i + 1;
      }
    }
  }
}
