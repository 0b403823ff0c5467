/** One MIPTP sender, one receiving application and the network between them, as a system
    that takes any sequence of actions (miptp_utils.c, miptp_daemon.c). The tests are those
    of the code, through the functions of Transport; sent, front, wire, first and delivered
    record what happened and are never read by the code. */
module GoBackN {
  import opened Framing
  import opened SendQueue
  import opened Transport

  datatype Flow = Flow(
    base: nat,               // the random first sequence number
    mip: byte,               // the sender's address
    snd: HostState,
    sndUp: bool,             // false once the sender has followed a null pointer or overrun its buffer
    rcv: HostState,
    rcvUp: bool,             // false once the receiver has gone outside its data
    sent: seq<Queued>,       // every message the application submitted
    front: nat,              // how many of them the sender has discarded as acknowledged
    wire: set<nat>,          // those written to the network at least once
    acks: seq<nat>,          // acknowledgements on their way, oldest first
    first: nat,              // the first message accepted by the receiver, if any
    delivered: seq<Queued>)  // what the receiving application was handed

  datatype Action =
    | Submit(app: Bytes, stale: (byte, byte))
    | Timeout
    | DataArrives(i: nat)
    | AckArrives
    | AckLost(k: nat)
    | AckRepeated(k: nat)
    | AckOvertakes(k: nat)
    | OtherSender(mip: byte, port: byte, seqno: nat)
    | OwnQueue(queue: seq<Queued>)  // the receiving application's own messages come and go

  function Start(base: nat, mip: byte, port: byte): Flow {
    Flow(base, mip, NewHost(base).(port := port), true, NewHost(0), true, [], 0, {}, [], 0, [])
  }

  function Heard(s: Flow): Option<nat> {
    Expected(s.rcv.links, s.mip, s.snd.port)
  }

  function Indices(lo: nat, hi: nat): (indices: set<nat>)
    requires lo <= hi
    ensures forall i: nat :: i in indices <==> lo <= i < hi
    decreases hi - lo
  {
    if lo == hi then {} else {lo} + Indices(lo + 1, hi)
  }

  /** The messages that an action writes to the network, a message submitted by it included. */
  function Transmits(s: Flow, a: Action): set<nat> {
    match a
    case Submit(app, stale) =>
      if AlignedSize(|app|) <= BUFSIZE && InWindow(Forward(s.snd, app, stale).queue) then {|s.sent|} else {}
    case Timeout => Indices(s.front, s.front + |Window(s.snd.queue)|)
    case _ => {}
  }

  /** A message of any length: one that outgrows the buffer is copied past its end. */
  function DoSubmit(s: Flow, app: Bytes, stale: (byte, byte)): Flow {
    if AlignedSize(|app|) > BUFSIZE then s.(sndUp := false)
    else s.(snd := Forward(s.snd, app, stale), sent := s.sent + [Packed(s.snd, app, stale)],
            wire := s.wire + Transmits(s, Submit(app, stale)))
  }

  function DoTimeout(s: Flow): Flow {
    s.(wire := s.wire + Transmits(s, Timeout))
  }

  /** A data segment that is taken for one is acknowledged, whatever becomes of it. */
  function DoAccept(s: Flow, i: nat): Flow
    requires i < |s.sent|
  {
    var seqno := s.sent[i].seqno;
    var acked := s.(acks := s.acks + [seqno]);
    match Receive(s.rcv.links, s.mip, s.snd.port, seqno)
    case Unexpected => acked
    case TableFull => acked.(rcvUp := false)
    case Accepted(links) =>
      acked.(rcv := s.rcv.(links := links),
             first := if s.delivered == [] then i else s.first,
             delivered := s.delivered + [s.sent[i]])
  }

  /** A segment that is taken for an acknowledgement meets the receiver's own send queue. */
  function DoMistake(s: Flow, seqno: nat): Flow {
    if s.rcv.queue == [] then s.(rcvUp := false) else s.(rcv := TakeAck(s.rcv, seqno))
  }

  /** For a segment cut below its headers the receiver reads stale bytes. */
  function DoDataArrives(s: Flow, i: nat): Flow
    requires i < |s.sent|
  {
    match ArrivesAs(s.sent[i])
    case BelowHeaders => s.(rcvUp := false)
    case AsAck => DoMistake(s, s.sent[i].seqno)
    case AsData => DoAccept(s, i)
  }

  function DoAckArrives(s: Flow): Flow
    requires s.acks != []
  {
    var rest := s.(acks := s.acks[1..]);
    if s.snd.queue == [] then rest.(sndUp := false)
    else
      var snd := TakeAck(s.snd, s.acks[0]);
      rest.(snd := snd, front := if snd == s.snd then s.front else s.front + 1)
  }

  function DoOtherSender(s: Flow, mip: byte, port: byte, seqno: nat): Flow {
    match Receive(s.rcv.links, mip, port, seqno)
    case Unexpected => s
    case TableFull => s.(rcvUp := false)
    case Accepted(links) => s.(rcv := s.rcv.(links := links))
  }

  function Drop(acks: seq<nat>, k: nat): seq<nat>
    requires k < |acks|
  {
    acks[..k] + acks[k + 1..]
  }

  function Repeat(acks: seq<nat>, k: nat): seq<nat>
    requires k < |acks|
  {
    acks[..k + 1] + acks[k..]
  }

  predicate Enabled(s: Flow, a: Action) {
    match a
    case Submit(_, _) => s.sndUp
    case Timeout => s.sndUp
    case DataArrives(i) => s.rcvUp && i in s.wire && i < |s.sent|
    case AckArrives => s.sndUp && s.acks != []
    case AckLost(k) => k < |s.acks|
    case AckRepeated(k) => k < |s.acks|
    case AckOvertakes(k) => k + 1 < |s.acks|
    case OtherSender(mip, port, _) => s.rcvUp && !(mip == s.mip && port == s.snd.port)
    case OwnQueue(_) => s.rcvUp
  }

  /** An action that is not enabled changes nothing. */
  function Step(s: Flow, a: Action): Flow {
    if !Enabled(s, a) then s
    else match a
      case Submit(app, stale) => DoSubmit(s, app, stale)
      case Timeout => DoTimeout(s)
      case DataArrives(i) => DoDataArrives(s, i)
      case AckArrives => DoAckArrives(s)
      case AckLost(k) => s.(acks := Drop(s.acks, k))
      case AckRepeated(k) => s.(acks := Repeat(s.acks, k))
      case AckOvertakes(k) => s.(acks := s.acks[..k] + [s.acks[k + 1], s.acks[k]] + s.acks[k + 2..])
      case OtherSender(mip, port, seqno) => DoOtherSender(s, mip, port, seqno)
      case OwnQueue(queue) => s.(rcv := s.rcv.(queue := queue))
  }

  function Exec(s: Flow, actions: seq<Action>): Flow {
    if actions == [] then s
    else Step(Exec(s, actions[..|actions| - 1]), actions[|actions| - 1])
  }

  /** The acknowledgement channel is first-in first-out: it loses and repeats, but does not
      reorder. Nothing is asked of the data channel. */
  predicate Fifo(actions: seq<Action>) {
    forall a :: a in actions ==> !a.AckOvertakes?
  }

  /** The sequence counter has not gone past its last 14-bit value. */
  predicate NoWrap(s: Flow) {
    s.base + |s.sent| <= SEQ_MODULUS
  }

  /** What the transport is for: the application is handed a contiguous piece of the stream,
      once and in order, and from the first message handed over the sender discards nothing
      that the receiver still waits for. */
  predicate Safe(s: Flow) {
    && s.front <= |s.sent|
    && (s.delivered != [] ==>
      && s.first + |s.delivered| <= |s.sent|
      && s.delivered == s.sent[s.first..s.first + |s.delivered|]
      && s.front <= s.first + |s.delivered|)
    && (s.delivered == [] && s.rcvUp ==> s.front == 0)
  }

  // ---- the acknowledgements on their way ----

  /** Where the sender's front will stand once all the given acknowledgements arrived. */
  function Advance(front: nat, acks: seq<nat>): nat
    decreases acks
  {
    if acks == [] then front
    else Advance(if acks[0] == front then front + 1 else front, acks[1..])
  }

  lemma {:induction false} AdvanceMonotone(f: nat, g: nat, acks: seq<nat>)
    requires f <= g
    ensures f <= Advance(f, acks) <= Advance(g, acks)
    decreases acks
  {
    if acks != [] {
      AdvanceMonotone(if acks[0] == f then f + 1 else f, if acks[0] == g then g + 1 else g, acks[1..]);
    }
  }

  lemma {:induction false} AdvanceSplit(f: nat, a: seq<nat>, b: seq<nat>)
    ensures Advance(f, a + b) == Advance(Advance(f, a), b)
    decreases a
  {
    if a == [] {
      assert a + b == b;
    } else {
      assert (a + b)[1..] == a[1..] + b;
      AdvanceSplit(if a[0] == f then f + 1 else f, a[1..], b);
    }
  }

  lemma AdvanceAppend(f: nat, acks: seq<nat>, a: nat)
    ensures Advance(f, acks + [a]) == Advance(f, acks) + if a == Advance(f, acks) then 1 else 0
  {
    AdvanceSplit(f, acks, [a]);
    assert [a][1..] == [];
  }

  /** Losing an acknowledgement holds the front back, if anything. */
  lemma AdvanceDrop(f: nat, acks: seq<nat>, k: nat)
    requires k < |acks|
    ensures Advance(f, Drop(acks, k)) <= Advance(f, acks)
  {
    var a, b := acks[..k], acks[k + 1..];
    assert acks == a + ([acks[k]] + b);
    AdvanceSplit(f, a, b);
    AdvanceSplit(f, a, [acks[k]] + b);
    AdvanceSplit(Advance(f, a), [acks[k]], b);
    AdvanceMonotone(Advance(f, a), Advance(Advance(f, a), [acks[k]]), []);
    AdvanceMonotone(Advance(f, a), Advance(f, a), [acks[k]]);
    AdvanceMonotone(Advance(f, a), Advance(Advance(f, a), [acks[k]]), b);
  }

  /** Repeating one in place makes no difference. */
  lemma AdvanceRepeat(f: nat, acks: seq<nat>, k: nat)
    requires k < |acks|
    ensures Advance(f, Repeat(acks, k)) == Advance(f, acks)
  {
    var a, b, x := acks[..k], acks[k + 1..], acks[k];
    var g := Advance(f, a);
    assert acks == a + ([x] + b);
    assert acks[..k + 1] + acks[k..] == a + ([x] + ([x] + b));
    AdvanceSplit(f, a, [x] + b);
    AdvanceSplit(f, a, [x] + ([x] + b));
    assert ([x] + ([x] + b))[1..] == [x] + b;
    assert ([x] + b)[1..] == b;
  }

  // ---- the invariant ----

  /** What is queued is what was submitted and not yet discarded. */
  predicate QueueInv(s: Flow) {
    s.front <= |s.sent| && s.snd.queue == s.sent[s.front..]
  }

  /** Before the first message is handed over nothing is acknowledged. */
  predicate HeardInv(s: Flow) {
    && (Heard(s).Some? <==> s.delivered != [])
    && (s.delivered == [] && s.rcvUp ==> s.acks == [] && s.front == 0)
  }

  predicate SenderInv(s: Flow) {
    && QueueInv(s)
    && s.snd.seqSend == s.base + |s.sent|
    && (forall i :: 0 <= i < |s.sent| ==> s.sent[i].seqno == s.base + i)
    && (forall i :: i in s.wire ==> i < |s.sent| && i < s.front + WINDOW)
  }

  /** What was handed over, independently of the acknowledgements. */
  predicate SliceInv(s: Flow) {
    && HeardInv(s)
    && match Heard(s)
    case None => true
    case Some(e) =>
      && e == s.base + s.first + |s.delivered|
      && s.first + |s.delivered| <= |s.sent|
      && s.first + |s.delivered| <= s.front + WINDOW
      && s.delivered == s.sent[s.first..s.first + |s.delivered|]
  }

  /** The acknowledgements under way never take the front past the expected number. */
  predicate FoldInv(s: Flow) {
    Heard(s).Some? ==> Advance(s.base + s.front, s.acks) <= Heard(s).value
  }

  predicate CoreInv(s: Flow) {
    SenderInv(s) && SliceInv(s)
  }

  predicate Inv(s: Flow) {
    CoreInv(s) && FoldInv(s)
  }

  lemma InvIsSafe(s: Flow)
    requires Inv(s)
    ensures Safe(s)
  {
    AdvanceMonotone(s.base + s.front, s.base + s.front, s.acks);
  }

  // ---- what every step keeps, wrapped counter or not ----

  lemma DataArrivesKeepsHeard(s: Flow, i: nat)
    requires HeardInv(s) && i < |s.sent|
    ensures HeardInv(DoDataArrives(s, i))
  {
    ReceiveExact(s.rcv.links, s.mip, s.snd.port, s.sent[i].seqno);
  }

  lemma StepKeepsHeard(s: Flow, a: Action)
    requires HeardInv(s)
    ensures HeardInv(Step(s, a))
  {
    if Enabled(s, a) {
      match a
      case DataArrives(i) => DataArrivesKeepsHeard(s, i);
      case OtherSender(mip, port, seqno) => ReceiveExact(s.rcv.links, mip, port, seqno);
      case _ =>
    }
  }

  lemma StepKeepsQueue(s: Flow, a: Action)
    requires QueueInv(s)
    ensures QueueInv(Step(s, a))
  {
    if Enabled(s, a) {
      match a
      case Submit(app, stale) =>
        if AlignedSize(|app|) <= BUFSIZE {
          var item := Packed(s.snd, app, stale);
          assert s.snd.queue + [item] == (s.sent + [item])[s.front..];
        }
      case AckArrives =>
        if s.snd.queue != [] {
          assert s.snd.queue[1..] == s.sent[s.front + 1..];
        }
      case _ =>
    }
  }

  lemma {:induction false} ExecKeepsQueue(base: nat, mip: byte, port: byte, actions: seq<Action>)
    ensures var s := Exec(Start(base, mip, port), actions); QueueInv(s) && HeardInv(s)
  {
    if actions == [] {
      StartInv(base, mip, port);
    } else {
      ExecKeepsQueue(base, mip, port, actions[..|actions| - 1]);
      StepKeepsQueue(Exec(Start(base, mip, port), actions[..|actions| - 1]), actions[|actions| - 1]);
      StepKeepsHeard(Exec(Start(base, mip, port), actions[..|actions| - 1]), actions[|actions| - 1]);
    }
  }

  // ---- what every step keeps, whatever happens to the acknowledgements ----

  lemma SubmitKeepsCore(s: Flow, app: Bytes, stale: (byte, byte))
    requires CoreInv(s) && NoWrap(DoSubmit(s, app, stale))
    ensures CoreInv(DoSubmit(s, app, stale))
  {
    var t := DoSubmit(s, app, stale);
    if AlignedSize(|app|) <= BUFSIZE {
      SubmitKeepsSenderInv(s, app, stale);
      MoreSentKeepsSlice(s, t.snd, t.sent, t.wire);
    }
  }

  lemma MoreSentKeepsSlice(s: Flow, snd: HostState, sent: seq<Queued>, wire: set<nat>)
    requires SliceInv(s) && snd.port == s.snd.port && s.sent <= sent
    ensures SliceInv(s.(snd := snd, sent := sent, wire := wire))
  {
    if Heard(s).Some? {
      assert sent[s.first..s.first + |s.delivered|] == s.sent[s.first..s.first + |s.delivered|];
    }
  }

  lemma SubmitKeepsSenderInv(s: Flow, app: Bytes, stale: (byte, byte))
    requires SenderInv(s) && AlignedSize(|app|) <= BUFSIZE && s.base + |s.sent| < SEQ_MODULUS
    ensures SenderInv(DoSubmit(s, app, stale))
  {
    SubmitQueues(s, app, stale);
    SubmitNumbers(s, app, stale);
    var t := DoSubmit(s, app, stale);
    forall i | i in t.wire
      ensures i < |t.sent| && i < t.front + WINDOW
    {
      assert i in s.wire || i in Transmits(s, Submit(app, stale));
    }
  }

  /** A new message has the next number, and is written iff it is within the window. */
  lemma SubmitNumbers(s: Flow, app: Bytes, stale: (byte, byte))
    requires SenderInv(s) && AlignedSize(|app|) <= BUFSIZE && s.base + |s.sent| < SEQ_MODULUS
    ensures Packed(s.snd, app, stale).seqno == s.base + |s.sent|
    ensures InWindow(Forward(s.snd, app, stale).queue) <==> |s.sent| < s.front + WINDOW
  {
    PackedFields(s.snd, app, stale);
    SubmitQueues(s, app, stale);
    var queue := Forward(s.snd, app, stale).queue;
    assert queue[|queue| - 1] == Packed(s.snd, app, stale);
    assert s.front < |s.sent| ==> queue[0] == s.sent[s.front];
    assert queue[0].seqno == s.base + s.front;
  }

  lemma SubmitQueues(s: Flow, app: Bytes, stale: (byte, byte))
    requires QueueInv(s) && AlignedSize(|app|) <= BUFSIZE
    ensures var t := DoSubmit(s, app, stale);
      && QueueInv(t) && t.snd.queue[0] == t.sent[s.front]
      && t.snd.queue[|t.snd.queue| - 1] == t.sent[|s.sent|]
  {
    var item := Packed(s.snd, app, stale);
    assert s.snd.queue + [item] == (s.sent + [item])[s.front..];
  }

  lemma TimeoutKeepsCore(s: Flow)
    requires CoreInv(s)
    ensures CoreInv(DoTimeout(s))
  {
  }

  lemma AcceptKeepsSlice(s: Flow, i: nat)
    requires CoreInv(s) && NoWrap(s) && Enabled(s, DataArrives(i))
    ensures SliceInv(DoAccept(s, i))
  {
    ReceiveExact(s.rcv.links, s.mip, s.snd.port, s.sent[i].seqno);
    SliceOneMore(s, i);
  }

  lemma SliceOneMore(s: Flow, i: nat)
    requires CoreInv(s) && i < |s.sent|
    ensures Heard(s) == None ==> s.delivered + [s.sent[i]] == s.sent[i..i + 1]
    ensures Heard(s) == Some(s.sent[i].seqno) ==>
      var end := s.first + |s.delivered|;
      i == end && s.delivered + [s.sent[i]] == s.sent[s.first..end + 1]
  {
  }

  lemma AcceptKeepsSender(s: Flow, i: nat)
    requires SenderInv(s) && i < |s.sent|
    ensures SenderInv(DoAccept(s, i))
  {
  }

  lemma DataArrivesKeepsCore(s: Flow, i: nat)
    requires CoreInv(s) && NoWrap(s) && Enabled(s, DataArrives(i))
    ensures CoreInv(DoDataArrives(s, i))
  {
    DataArrivesKeepsHeard(s, i);
    if ArrivesAs(s.sent[i]) == AsData {
      AcceptKeepsSlice(s, i);
      AcceptKeepsSender(s, i);
    }
  }

  lemma OtherSenderKeepsCore(s: Flow, mip: byte, port: byte, seqno: nat)
    requires CoreInv(s) && Enabled(s, OtherSender(mip, port, seqno))
    ensures CoreInv(DoOtherSender(s, mip, port, seqno))
  {
    ReceiveExact(s.rcv.links, mip, port, seqno);
  }

  lemma AckArrivesKeepsCore(s: Flow)
    requires CoreInv(s) && Enabled(s, AckArrives)
    ensures CoreInv(DoAckArrives(s))
  {
    if s.snd.queue != [] {
      assert s.snd.queue[0] == s.sent[s.front];
      assert s.snd.queue[1..] == s.sent[s.front + 1..];
    }
  }

  lemma SenderKeepsCore(s: Flow, a: Action)
    requires CoreInv(s) && Enabled(s, a) && (a.Submit? || a.Timeout? || a.AckArrives?) && NoWrap(Step(s, a))
    ensures CoreInv(Step(s, a))
  {
    match a
    case Submit(app, stale) => SubmitKeepsCore(s, app, stale);
    case Timeout => TimeoutKeepsCore(s);
    case AckArrives => AckArrivesKeepsCore(s);
  }

  lemma ReceiverKeepsCore(s: Flow, a: Action)
    requires CoreInv(s) && Enabled(s, a) && (a.DataArrives? || a.OtherSender?) && NoWrap(s)
    ensures CoreInv(Step(s, a))
  {
    match a
    case DataArrives(i) => DataArrivesKeepsCore(s, i);
    case OtherSender(mip, port, seqno) => OtherSenderKeepsCore(s, mip, port, seqno);
  }

  lemma StepKeepsCore(s: Flow, a: Action)
    requires CoreInv(s) && NoWrap(Step(s, a))
    ensures CoreInv(Step(s, a))
  {
    StepOnlyAdds(s, a);
    if Enabled(s, a) {
      if a.Submit? || a.Timeout? || a.AckArrives? {
        SenderKeepsCore(s, a);
      } else if a.DataArrives? || a.OtherSender? {
        ReceiverKeepsCore(s, a);
      } else {
        AcksAndOwnQueueKeepCore(s, Step(s, a));
      }
    }
  }

  lemma AcksAndOwnQueueKeepCore(s: Flow, t: Flow)
    requires CoreInv(s) && (s.acks == [] ==> t.acks == [])
    requires t == s.(acks := t.acks, rcv := s.rcv.(queue := t.rcv.queue))
    ensures CoreInv(t)
  {
  }

  lemma {:induction false} ExecKeepsCore(s: Flow, actions: seq<Action>)
    requires CoreInv(s) && NoWrap(Exec(s, actions))
    ensures CoreInv(Exec(s, actions))
  {
    if actions != [] {
      var t := Exec(s, actions[..|actions| - 1]);
      var a := actions[|actions| - 1];
      StepOnlyAdds(t, a);
      ExecKeepsCore(s, actions[..|actions| - 1]);
      StepKeepsCore(t, a);
    }
  }

  // ---- what every step keeps, if acknowledgements do not overtake one another ----

  lemma SubmitOrTimeoutKeepsFold(s: Flow, a: Action)
    requires FoldInv(s) && (a.Submit? || a.Timeout?) && Enabled(s, a)
    ensures FoldInv(Step(s, a))
  {
  }

  lemma OtherSenderKeepsFold(s: Flow, mip: byte, port: byte, seqno: nat)
    requires FoldInv(s) && Enabled(s, OtherSender(mip, port, seqno))
    ensures FoldInv(DoOtherSender(s, mip, port, seqno))
  {
    ReceiveExact(s.rcv.links, mip, port, seqno);
  }

  lemma AckLostOrRepeatedKeepsFold(s: Flow, k: nat)
    requires FoldInv(s) && k < |s.acks|
    ensures FoldInv(s.(acks := Drop(s.acks, k))) && FoldInv(s.(acks := Repeat(s.acks, k)))
  {
    AdvanceDrop(s.base + s.front, s.acks, k);
    AdvanceRepeat(s.base + s.front, s.acks, k);
  }

  lemma DataArrivesKeepsFold(s: Flow, i: nat)
    requires Inv(s) && NoWrap(s) && Enabled(s, DataArrives(i))
    ensures FoldInv(DoDataArrives(s, i))
  {
    if ArrivesAs(s.sent[i]) == AsData {
      AcceptKeepsFold(s, i);
    }
  }

  lemma AcceptKeepsFold(s: Flow, i: nat)
    requires Inv(s) && NoWrap(s) && Enabled(s, DataArrives(i))
    ensures FoldInv(DoAccept(s, i))
  {
    var seqno := s.sent[i].seqno;
    ReceiveExact(s.rcv.links, s.mip, s.snd.port, seqno);
    match Heard(s)
    case None => AdvanceAppend(s.base, [], seqno);
    case Some(_) => AdvanceAppend(s.base + s.front, s.acks, seqno);
  }

  lemma AckArrivesKeepsFold(s: Flow)
    requires Inv(s) && Enabled(s, AckArrives)
    ensures FoldInv(DoAckArrives(s))
  {
    if s.snd.queue == [] {
      if s.acks[0] == s.base + s.front {
        AdvanceMonotone(s.base + s.front, s.base + s.front + 1, s.acks[1..]);
      }
    } else {
      assert s.snd.queue[0] == s.sent[s.front];
    }
  }

  lemma StepKeepsFold(s: Flow, a: Action)
    requires Inv(s) && !a.AckOvertakes? && NoWrap(s)
    ensures FoldInv(Step(s, a))
  {
    if Enabled(s, a) {
      match a
      case DataArrives(i) => DataArrivesKeepsFold(s, i);
      case AckArrives => AckArrivesKeepsFold(s);
      case AckLost(k) => AckLostOrRepeatedKeepsFold(s, k);
      case AckRepeated(k) => AckLostOrRepeatedKeepsFold(s, k);
      case OtherSender(mip, port, seqno) => OtherSenderKeepsFold(s, mip, port, seqno);
      case OwnQueue(_) =>
      case _ => SubmitOrTimeoutKeepsFold(s, a);
    }
  }

  lemma StepKeepsInv(s: Flow, a: Action)
    requires Inv(s) && !a.AckOvertakes? && NoWrap(Step(s, a))
    ensures Inv(Step(s, a))
  {
    StepOnlyAdds(s, a);
    StepKeepsCore(s, a);
    StepKeepsFold(s, a);
  }

  lemma {:induction false} ExecKeepsInv(s: Flow, actions: seq<Action>)
    requires Inv(s) && Fifo(actions) && NoWrap(Exec(s, actions))
    ensures Inv(Exec(s, actions))
  {
    if actions != [] {
      var t := Exec(s, actions[..|actions| - 1]);
      var a := actions[|actions| - 1];
      StepOnlyAdds(t, a);
      ExecKeepsInv(s, actions[..|actions| - 1]);
      StepKeepsInv(t, a);
    }
  }

  lemma StepOnlyAdds(s: Flow, a: Action)
    ensures var t := Step(s, a);
      |s.sent| <= |t.sent| && t.base == s.base && t.mip == s.mip && t.snd.port == s.snd.port
  {
  }

  lemma StartInv(base: nat, mip: byte, port: byte)
    ensures Inv(Start(base, mip, port))
  {
    assert Start(base, mip, port).sent[0..] == [];
  }

  // ---- the main results ----

  /** The slice over all runs, whatever happens to data and acknowledgements: what the
      application was handed is a contiguous piece of the stream, once and in order. */
  lemma SliceOnEveryRun(base: nat, mip: byte, port: byte, actions: seq<Action>)
    requires NoWrap(Exec(Start(base, mip, port), actions))
    ensures var s := Exec(Start(base, mip, port), actions);
      s.delivered == [] ||
      (s.first + |s.delivered| <= |s.sent| && s.delivered == s.sent[s.first..s.first + |s.delivered|])
  {
    StartInv(base, mip, port);
    ExecKeepsCore(Start(base, mip, port), actions);
  }

  /** So what was handed over is a prefix of the stream exactly if the first message to be
      accepted was the first one sent. */
  lemma PrefixExactly(base: nat, mip: byte, port: byte, actions: seq<Action>)
    requires NoWrap(Exec(Start(base, mip, port), actions))
    ensures var s := Exec(Start(base, mip, port), actions);
      s.delivered <= s.sent <==> s.delivered == [] || s.first == 0
  {
    var s := Exec(Start(base, mip, port), actions);
    StartInv(base, mip, port);
    ExecKeepsCore(Start(base, mip, port), actions);
    if s.delivered != [] && s.first != 0 {
      assert s.delivered[0] == s.sent[s.first];
      assert s.sent[s.first].seqno != s.sent[0].seqno;
    }
  }

  /** Safety over all runs: whatever the data channel loses, repeats or reorders, whatever
      acknowledgements are lost or repeated, and whatever other senders do. */
  lemma SafeOnEveryRun(base: nat, mip: byte, port: byte, actions: seq<Action>)
    requires Fifo(actions) && NoWrap(Exec(Start(base, mip, port), actions))
    ensures Safe(Exec(Start(base, mip, port), actions))
  {
    StartInv(base, mip, port);
    ExecKeepsInv(Start(base, mip, port), actions);
    InvIsSafe(Exec(Start(base, mip, port), actions));
  }

  /** What an action would write without a window: a new message that fits, or all in the queue. */
  predicate Writable(s: Flow, a: Action, i: nat) {
    match a
    case Submit(app, _) => i == |s.sent| && |app| <= MAX_MESSAGE
    case Timeout => s.front <= i < |s.sent|
    case _ => false
  }

  /** The window on every run, whatever happens to data and acknowledgements: a new message is
      written at once, and a queued one by a timeout, exactly if fewer than sixteen messages
      lie between it and the front; all that was ever written lies below that end, and so does
      the receiver. */
  lemma WindowOnEveryRun(base: nat, mip: byte, port: byte, actions: seq<Action>, next: Action)
    requires NoWrap(Step(Exec(Start(base, mip, port), actions), next))
    ensures var s := Exec(Start(base, mip, port), actions);
      && (Enabled(s, next) ==> forall i: nat :: i in Transmits(s, next) <==> i < s.front + WINDOW && Writable(s, next, i))
      && Step(s, next).wire == s.wire + (if Enabled(s, next) then Transmits(s, next) else {})
      && (forall i :: i in s.wire ==> i < |s.sent| && i < s.front + WINDOW)
      && (forall k :: 0 <= k < |s.snd.queue| ==> s.snd.queue[k].seqno == base + s.front + k)
      && (s.delivered != [] ==> s.first + |s.delivered| <= s.front + WINDOW)
  {
    var s := Exec(Start(base, mip, port), actions);
    StartInv(base, mip, port);
    StepOnlyAdds(s, next);
    ExecKeepsCore(Start(base, mip, port), actions);
    BaseIsKept(Start(base, mip, port), actions);
    StepTransmits(s, next);
  }

  lemma StepTransmits(s: Flow, a: Action)
    requires SenderInv(s) && NoWrap(Step(s, a))
    ensures Enabled(s, a) ==> forall i: nat :: i in Transmits(s, a) <==> i < s.front + WINDOW && Writable(s, a, i)
    ensures Step(s, a).wire == s.wire + (if Enabled(s, a) then Transmits(s, a) else {})
  {
    if a.Submit? && s.sndUp {
      FitsExactly(|a.app|);
      if |a.app| <= MAX_MESSAGE {
        SubmitNumbers(s, a.app, a.stale);
      }
    }
  }

  // ---- the frames behind the indices ----

  /** On every run, a submitted message is recorded as written exactly where forward_to_mip
      writes, and under its index stands the frame that forward_to_mip writes. */
  lemma SubmitWrites(base: nat, mip: byte, port: byte, actions: seq<Action>, app: Bytes, stale: (byte, byte))
    ensures var s := Exec(Start(base, mip, port), actions);
      s.sndUp && |app| <= MAX_MESSAGE ==>
        var t, number := Step(s, Submit(app, stale)), s.snd.seqSend % SEQ_MODULUS;
        && t.snd == TakeMessage(s.snd, app, stale)
        && t.sent == s.sent + [Queued(number, FrameOf(app, stale, s.snd.seqSend, s.snd.port))]
        && t.wire == s.wire + if number - FrontNumber(s.snd.queue, number) < WINDOW then {|s.sent|} else {}
  {
    TakeMessageExact(Exec(Start(base, mip, port), actions).snd, app, stale);
  }

  /** On every run, a timeout records as written exactly the messages whose frames resend_window
      writes. */
  lemma TimeoutWrites(base: nat, mip: byte, port: byte, actions: seq<Action>, written: seq<Bytes>)
    requires WindowWritten(written, Exec(Start(base, mip, port), actions).snd.queue)
    ensures var s := Exec(Start(base, mip, port), actions);
      && (forall k :: 0 <= k < |written| ==> s.front + k < |s.sent| && written[k] == s.sent[s.front + k].frame)
      && (forall i: nat :: i in Transmits(s, Timeout) <==> s.front <= i < s.front + |written|)
      && (s.sndUp ==> Step(s, Timeout).wire == s.wire + Transmits(s, Timeout))
  {
    ExecKeepsQueue(base, mip, port, actions);
  }

  lemma {:induction false} BaseIsKept(s: Flow, actions: seq<Action>)
    ensures var t := Exec(s, actions); t.base == s.base && t.mip == s.mip && t.snd.port == s.snd.port
  {
    if actions != [] {
      BaseIsKept(s, actions[..|actions| - 1]);
      StepOnlyAdds(Exec(s, actions[..|actions| - 1]), actions[|actions| - 1]);
    }
  }

  /** What an arriving segment does, seen through the expected number. */
  lemma ArrivalOutcome(s: Flow, i: nat)
    requires Enabled(s, DataArrives(i)) && (Heard(s).Some? || |s.rcv.links| < MAX_LINKS)
    requires ArrivesAs(s.sent[i]) == AsData
    ensures var t := Step(s, DataArrives(i));
      var seqno := s.sent[i].seqno;
      if Heard(s) == None || Heard(s) == Some(seqno) then
        && Heard(t) == Some(NextSeq(seqno))
        && t == s.(acks := s.acks + [seqno], rcv := t.rcv,
                   first := if s.delivered == [] then i else s.first, delivered := s.delivered + [s.sent[i]])
      else t == s.(acks := s.acks + [seqno])
  {
    ReceiveExact(s.rcv.links, s.mip, s.snd.port, s.sent[i].seqno);
  }

  // ---- which messages are ever acknowledged ----

  /** Only messages that arrive as data are acknowledged. */
  predicate OnlyDataAcked(s: Flow) {
    && (forall k :: 0 <= k < |s.acks| ==>
        s.base <= s.acks[k] < s.base + |s.sent| && ArrivesAs(s.sent[s.acks[k] - s.base]) == AsData)
    && (forall i :: 0 <= i < s.front && i < |s.sent| ==> ArrivesAs(s.sent[i]) == AsData)
  }

  lemma SameAcksOnlyData(s: Flow, t: Flow)
    requires OnlyDataAcked(s) && s.front <= |s.sent|
    requires t.base == s.base && t.front == s.front && s.sent <= t.sent
    requires forall k :: 0 <= k < |t.acks| ==> t.acks[k] in s.acks
    ensures OnlyDataAcked(t)
  {
  }

  lemma OneMoreAckOnlyData(s: Flow, t: Flow, i: nat)
    requires OnlyDataAcked(s) && s.front <= |s.sent| && i < |s.sent| && ArrivesAs(s.sent[i]) == AsData
    requires t.base == s.base && t.front == s.front && t.sent == s.sent && t.acks == s.acks + [s.base + i]
    ensures OnlyDataAcked(t)
  {
    assert forall k :: 0 <= k < |s.acks| ==> t.acks[k] == s.acks[k];
  }

  lemma ArrivalAcksOnlyData(s: Flow, i: nat)
    requires SenderInv(s) && OnlyDataAcked(s) && i < |s.sent|
    ensures OnlyDataAcked(DoDataArrives(s, i))
  {
    assert s.sent[i].seqno == s.base + i;
    var t := DoDataArrives(s, i);
    if ArrivesAs(s.sent[i]) != AsData {
      SameAcksOnlyData(s, t);
    } else {
      OneMoreAckOnlyData(s, t, i);
    }
  }

  lemma FewerAcksOnlyData(s: Flow)
    requires OnlyDataAcked(s) && s.front < |s.sent| && s.acks != []
    ensures OnlyDataAcked(s.(acks := s.acks[1..]))
    ensures s.acks[0] == s.base + s.front ==> OnlyDataAcked(s.(acks := s.acks[1..], front := s.front + 1))
  {
  }

  lemma AckArrivesAcksOnlyData(s: Flow)
    requires SenderInv(s) && OnlyDataAcked(s) && s.acks != []
    ensures OnlyDataAcked(DoAckArrives(s))
  {
    var t := DoAckArrives(s);
    if s.snd.queue == [] {
      SameAcksOnlyData(s, t);
    } else {
      assert s.snd.queue[0] == s.sent[s.front];
      FewerAcksOnlyData(s);
      SameAcksOnlyData(s.(acks := t.acks, front := t.front), t);
    }
  }

  lemma StepAcksOnlyData(s: Flow, a: Action)
    requires SenderInv(s) && OnlyDataAcked(s)
    ensures OnlyDataAcked(Step(s, a))
  {
    if Enabled(s, a) {
      if a.DataArrives? {
        ArrivalAcksOnlyData(s, a.i);
      } else if a.AckArrives? {
        AckArrivesAcksOnlyData(s);
      } else {
        NoNewAcks(s, a);
        SameAcksOnlyData(s, Step(s, a));
      }
    }
  }

  lemma NoNewAcks(s: Flow, a: Action)
    requires !a.DataArrives? && !a.AckArrives?
    ensures var t := Step(s, a);
      && t.base == s.base && t.front == s.front && s.sent <= t.sent
      && forall k :: 0 <= k < |t.acks| ==> t.acks[k] in s.acks
  {
  }

  lemma {:induction false} ExecAcksOnlyData(s: Flow, actions: seq<Action>)
    requires CoreInv(s) && OnlyDataAcked(s) && NoWrap(Exec(s, actions))
    ensures OnlyDataAcked(Exec(s, actions))
  {
    if actions != [] {
      var t := Exec(s, actions[..|actions| - 1]);
      var a := actions[|actions| - 1];
      StepOnlyAdds(t, a);
      ExecKeepsCore(s, actions[..|actions| - 1]);
      ExecAcksOnlyData(s, actions[..|actions| - 1]);
      StepAcksOnlyData(t, a);
    }
  }

  /** On every run, whatever happens to data and acknowledgements, a message that does not
      arrive as data stays in the queue for ever. */
  lemma UndeliverableStays(base: nat, mip: byte, port: byte, actions: seq<Action>, i: nat)
    requires var s := Exec(Start(base, mip, port), actions);
      NoWrap(s) && i < |s.sent| && ArrivesAs(s.sent[i]) != AsData
    ensures var s := Exec(Start(base, mip, port), actions);
      s.front <= i && s.sent[i] in s.snd.queue
  {
    var s := Exec(Start(base, mip, port), actions);
    StartInv(base, mip, port);
    ExecKeepsCore(Start(base, mip, port), actions);
    ExecAcksOnlyData(Start(base, mip, port), actions);
    BaseIsKept(Start(base, mip, port), actions);
    assert s.front <= i;
    assert s.snd.queue[i - s.front] == s.sent[i];
  }
}
