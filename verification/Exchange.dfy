/** One exchange between two MIPTP daemons, byte for byte: the data segment of an application
    reaches the owner of its port through the MIP daemons, and the acknowledgement comes back
    to the application that sent it. The arrivals of GoBackN are these readings. */
module Exchange {
  import opened Framing
  import opened SendQueue
  import opened Transport
  import opened GoBackN
  import Mip = MipDaemon

  lemma OwnerIsUnique(hosts: seq<HostState>, i: nat)
    requires PortsDistinct(hosts) && i < |hosts| && hosts[i].port != 0
    ensures IndexOfPort(hosts, hosts[i].port) == i
  {
    IndexOfPortFinds(hosts, hosts[i].port);
  }

  /** What application i at address a sends to the port of application j at address b does to
      the daemon at b, for a message of any length that fits the sender's buffer: as data it
      meets the link of its sender; taken for an acknowledgement it meets the queue of j. */
  lemma DataReachesOwner(here: seq<HostState>, i: nat, a: byte, app: Bytes, stale: (byte, byte),
                         there: seq<HostState>, j: nat, b: byte)
    requires PortsDistinct(there) && i < |here| && j < |there|
    requires AlignedSize(|app|) <= BUFSIZE
    requires HeaderOf(app, stale) == (b, there[j].port) && there[j].port != 0
    ensures var item := Packed(here[i], app, stale);
      var frame := Carry(item.frame, a);
      && Mip.OnRaw(b, Mip.Accept(a, item.frame, Mip.TRANSPORT)) == Mip.ToApplication(frame)
      && (ArrivesAs(item) == BelowHeaders <==> |frame| < 8)
      && (8 <= |frame| ==> Read(there, frame) == AtOwner(there, j, a, here[i].port, item, frame))
  {
    var item := Packed(here[i], app, stale);
    CarriedFields(app, stale, here[i].seqSend, here[i].port, Rest(|app|), a);
    FieldSplits(here[i].seqSend, Rest(|app|));
    ArrivesAsCarried(item, a);
    Mip.CarriesFrames(a, b, item.frame, Mip.TRANSPORT);
    OwnerIsUnique(there, j);
  }

  /** The reading of a segment from (mip, port) that finds application j. */
  function AtOwner(there: seq<HostState>, j: nat, mip: byte, port: byte, item: Queued, frame: Bytes): Reading
    requires j < |there|
  {
    if ArrivesAs(item) == AsAck then
      if there[j].queue == [] then Reading(there, [], None, Some(EmptyQueue))
      else Reading(there[j := TakeAck(there[j], item.seqno)], [], None, None)
    else
      var ack := AckFrame(port, mip, item.seqno, there[j].port);
      match Receive(there[j].links, mip, port, item.seqno)
      case Unexpected => Reading(there, [ack], None, None)
      case TableFull => Reading(there, [ack], None, Some(LinkTableOverflow))
      case Accepted(links) => Reading(there[j := there[j].(links := links)], [ack], Some((j, Upward(frame))), None)
  }

  /** What the acknowledgement does when it is back at a: it meets the front of the queue of
      application i, and nothing else. */
  lemma AckReturnsToSender(here: seq<HostState>, i: nat, a: byte, seqno: nat, srcPort: byte, b: byte)
    requires PortsDistinct(here) && i < |here| && here[i].port != 0 && seqno < SEQ_MODULUS
    ensures var ack := AckFrame(here[i].port, a, seqno, srcPort);
      var frame := Carry(ack, b);
      && Mip.OnRaw(a, Mip.Accept(b, ack, Mip.TRANSPORT)) == Mip.ToApplication(frame)
      && 8 <= |frame|
      && Read(here, frame) ==
        if here[i].queue == [] then Reading(here, [], None, Some(EmptyQueue))
        else Reading(here[i := TakeAck(here[i], seqno)], [], None, None)
  {
    CarriedAckFrame(here[i].port, a, seqno, srcPort, b);
    Mip.CarriesFrames(b, a, AckFrame(here[i].port, a, seqno, srcPort), Mip.TRANSPORT);
    OwnerIsUnique(here, i);
  }

  // ---- the steps of GoBackN are these exchanges ----

  /** The step DataArrives is the reading of that segment's frame at the receiver: same links
      and send queue, same acknowledgement, handed over iff it is, and stopped iff it is at
      fault. */
  lemma ArrivalIsRead(s: Flow, k: nat, here: seq<HostState>, i: nat, app: Bytes, stale: (byte, byte),
                      there: seq<HostState>, j: nat, b: byte)
    requires Enabled(s, DataArrives(k)) && i < |here| && j < |there|
    requires here[i].port == s.snd.port && s.sent[k] == Packed(here[i], app, stale)
    requires AlignedSize(|app|) <= BUFSIZE && HeaderOf(app, stale) == (b, there[j].port)
    requires PortsDistinct(there) && there[j].port != 0
    requires there[j].links == s.rcv.links && there[j].queue == s.rcv.queue
    ensures var t, frame := Step(s, DataArrives(k)), Carry(s.sent[k].frame, s.mip);
      if |frame| < 8 then !t.rcvUp && t.acks == s.acks && t.delivered == s.delivered
      else
        var r := Read(there, frame);
        && (r.fault.Some? <==> !t.rcvUp)
        && r.hosts == there[j := there[j].(links := t.rcv.links, queue := t.rcv.queue)]
        && r.acks == (if t.acks == s.acks then [] else [AckFrame(s.snd.port, s.mip, s.sent[k].seqno, there[j].port)])
        && (t.acks == s.acks || t.acks == s.acks + [s.sent[k].seqno])
        && (if r.handed == None then t.delivered == s.delivered
            else r.handed == Some((j, Upward(frame))) && t.delivered == s.delivered + [s.sent[k]])
  {
    DataReachesOwner(here, i, s.mip, app, stale, there, j, b);
    assert there[j := there[j].(links := s.rcv.links)] == there;
    assert there[j].(queue := s.rcv.queue) == there[j];
  }

  /** And AckArrives is the reading of the acknowledgement's frame at the sender. */
  lemma AckArrivalIsRead(s: Flow, here: seq<HostState>, i: nat, srcPort: byte, b: byte)
    requires Enabled(s, AckArrives) && s.acks[0] < SEQ_MODULUS
    requires PortsDistinct(here) && i < |here| && here[i] == s.snd && s.snd.port != 0
    ensures var t, frame := Step(s, AckArrives), Carry(AckFrame(s.snd.port, s.mip, s.acks[0], srcPort), b);
      && 8 <= |frame|
      && var r := Read(here, frame);
        (r.fault.Some? <==> !t.sndUp) && r.hosts == here[i := t.snd] && r.acks == [] && r.handed == None
  {
    AckReturnsToSender(here, i, s.mip, s.acks[0], srcPort, b);
    assert here[i := s.snd] == here;
  }

  /** The step OtherSender is the reading of a data frame that another application sent to the
      receiver's port. */
  lemma OtherSenderIsRead(s: Flow, frame: Bytes, there: seq<HostState>, j: nat)
    requires 8 <= |frame| && !IsAck(frame) && Enabled(s, OtherSender(frame[0], frame[2], SeqOf(frame)))
    requires PortsDistinct(there) && j < |there| && frame[3] == there[j].port != 0 && there[j].links == s.rcv.links
    ensures var t, r := Step(s, OtherSender(frame[0], frame[2], SeqOf(frame))), Read(there, frame);
      && (r.fault.Some? <==> !t.rcvUp) && r.hosts == there[j := there[j].(links := t.rcv.links)]
      && t == s.(rcv := s.rcv.(links := t.rcv.links), rcvUp := t.rcvUp)
  {
    OwnerIsUnique(there, j);
    assert there[j := there[j].(links := s.rcv.links)] == there;
  }
}
