/** The MIP daemon (mip_daemon.c, mip_daemon_utils.c): what it does with a packet, and the
    queue of packets that wait for an answer of the routing daemon. */
module MipDaemon {
  import opened Framing
  import opened Routing

  const PING: byte := 2
  const ROUTING: byte := 4
  const TRANSPORT: byte := 5
  const DEFAULT_TTL: nat := 3

  /** A packet between MIP daemons; the header has 4 bits of time to live and 9 of length. */
  datatype Raw = Raw(dst: byte, src: byte, ttl: nat, sduLen: nat, sduType: byte, sdu: Bytes)

  // ---- what happens to one packet ----

  datatype Fate =
    | ToApplication(frame: Bytes)
    | ToRouter
    | PassOn(packet: Raw)
    | Expired
    | Ignored

  /** A packet received from another daemon. After the decrement the header's ttl is below 15,
      so the second test of the source always holds. */
  function OnRaw(me: byte, p: Raw): Fate {
    if (p.sduType == PING || p.sduType == TRANSPORT) && p.dst == me then
      ToApplication(([p.src, 0] + p.sdu)[..if p.sduLen * 4 <= 2 + |p.sdu| then p.sduLen * 4 else 2 + |p.sdu|])
    else if p.sduType == PING || p.sduType == TRANSPORT then
      if p.ttl == 0 then Expired else PassOn(p.(ttl := p.ttl - 1))
    else if p.sduType == ROUTING then ToRouter
    else Ignored
  }

  /** A unix packet [mip, ttl] + message of an application becomes a raw packet: the default
      ttl replaces 0, and ttl and length are cut to their fields. */
  function Accept(me: byte, frame: Bytes, sduType: byte): Raw
    requires 2 <= |frame|
  {
    var ttl := if frame[1] == 0 then DEFAULT_TTL else frame[1];
    Raw(frame[0], me, ttl % 16, (|frame| / 4) % SDU_LEN_MODULUS, sduType, frame[2..] + [0, 0])
  }

  /** From daemon to daemon a frame arrives as Framing.Carry says, whatever its ttl. */
  lemma CarriesFrames(me: byte, there: byte, frame: Bytes, sduType: byte)
    requires 2 <= |frame| && frame[0] == there && (sduType == PING || sduType == TRANSPORT)
    ensures OnRaw(there, Accept(me, frame, sduType)) == ToApplication(Carry(frame, me))
  {
    var p := Accept(me, frame, sduType);
    assert p.sduLen * 4 <= |frame|;
    assert ([me, 0] + (frame[2..] + [0, 0]))[..p.sduLen * 4] == ([me, 0] + frame[2..])[..p.sduLen * 4];
  }

  // ---- packets waiting for their next hop ----

  /** An answer of the routing daemon: asked and table are what it was looked up for and in;
      only next travels. */
  datatype Answer = Answer(next: byte, asked: byte, table: Table)

  /** A packet that left, with the answer that sent it. */
  datatype Sent = Sent(packet: Raw, answer: Answer, unknownBefore: nat)

  datatype Pipe = Pipe(
    me: byte,
    queue: seq<Raw>,          // routing_queue
    requests: seq<byte>,      // on their way to the routing daemon
    answers: seq<Answer>,     // on their way back
    entered: seq<Raw>,        // every packet ever queued
    sent: seq<Sent>,          // every packet popped by an answer
    unknown: nat,             // answers 255 received
    underflow: bool)          // an answer found the queue empty

  datatype Action =
    | FromApplication(frame: Bytes, sduType: byte)
    | FromNetwork(packet: Raw)
    | RouterAnswers(table: Table)
    | AnswerArrives

  function Idle(me: byte): Pipe {
    Pipe(me, [], [], [], [], [], 0, false)
  }

  function Wait(s: Pipe, p: Raw): Pipe {
    s.(queue := s.queue + [p], requests := s.requests + [p.dst], entered := s.entered + [p])
  }

  /** The answer branch: 255 leaves the queue as it is, anything else pops its first packet. */
  function TakeAnswer(s: Pipe): Pipe
    requires s.answers != []
  {
    var a, t := s.answers[0], s.(answers := s.answers[1..]);
    if a.next == NO_HOP then t.(unknown := s.unknown + 1)
    else if s.queue == [] then t.(underflow := true)
    else t.(queue := s.queue[1..], sent := s.sent + [Sent(s.queue[0], a, s.unknown)])
  }

  /** An action that is impossible changes nothing. */
  function Step(s: Pipe, a: Action): Pipe {
    match a
    case FromApplication(frame, sduType) => if 2 <= |frame| then Wait(s, Accept(s.me, frame, sduType)) else s
    case FromNetwork(p) =>
      (match OnRaw(s.me, p)
       case PassOn(q) => Wait(s, q)
       case _ => s)
    case RouterAnswers(table) =>
      if s.requests == [] then s
      else s.(requests := s.requests[1..],
              answers := s.answers + [Answer(Lookup(table, s.requests[0]), s.requests[0], table)])
    case AnswerArrives => if s.answers == [] then s else TakeAnswer(s)
  }

  function Exec(me: byte, actions: seq<Action>): Pipe {
    if actions == [] then Idle(me)
    else Step(Exec(me, actions[..|actions| - 1]), actions[|actions| - 1])
  }

  function Dsts(packets: seq<Raw>): seq<byte> {
    seq(|packets|, i requires 0 <= i < |packets| => packets[i].dst)
  }

  function Asked(answers: seq<Answer>): seq<byte> {
    seq(|answers|, i requires 0 <= i < |answers| => answers[i].asked)
  }

  /** The packets leave in the order they came; answers and requests run ahead of them by the
      number of answers 255. */
  ghost predicate Inv(s: Pipe) {
    var n := |s.sent| + s.unknown;
    && !s.underflow
    && |s.sent| <= n <= |s.entered|
    && s.queue == s.entered[|s.sent|..]
    && Asked(s.answers) + s.requests == Dsts(s.entered[n..])
    && (forall i :: 0 <= i < |s.answers| ==> s.answers[i].next == Lookup(s.answers[i].table, s.answers[i].asked))
    && (forall j :: 0 <= j < |s.sent| ==> SentWell(s, j))
  }

  /** The j-th packet to leave is the j-th that entered, sent by the answer for the packet as
      many places later as answers 255 came before. */
  predicate SentWell(s: Pipe, j: nat)
    requires j < |s.sent|
  {
    var x := s.sent[j];
    && j + x.unknownBefore < |s.entered| && x.unknownBefore <= s.unknown
    && x.packet == s.entered[j]
    && x.answer.asked == s.entered[j + x.unknownBefore].dst
    && x.answer.next == Lookup(x.answer.table, x.answer.asked) && x.answer.next != NO_HOP
  }

  lemma WaitKeepsInv(s: Pipe, p: Raw)
    requires Inv(s)
    ensures Inv(Wait(s, p))
  {
    var t, n := Wait(s, p), |s.sent| + s.unknown;
    assert t.entered[n..] == s.entered[n..] + [p];
    assert Dsts(s.entered[n..] + [p]) == Dsts(s.entered[n..]) + [p.dst];
    assert forall j :: 0 <= j < |t.sent| ==> SentWell(s, j) ==> SentWell(t, j);
  }

  lemma RouterAnswersKeepsInv(s: Pipe, table: Table)
    requires Inv(s) && s.requests != []
    ensures Inv(Step(s, RouterAnswers(table)))
  {
    var a := Answer(Lookup(table, s.requests[0]), s.requests[0], table);
    assert Asked(s.answers + [a]) == Asked(s.answers) + [s.requests[0]];
    assert [s.requests[0]] + s.requests[1..] == s.requests;
    var t := Step(s, RouterAnswers(table));
    assert forall j :: 0 <= j < |t.sent| ==> SentWell(s, j) ==> SentWell(t, j);
  }

  /** The oldest answer is for the packet unknown places behind the front of the queue. */
  lemma OldestAnswer(s: Pipe)
    requires Inv(s) && s.answers != []
    ensures var n := |s.sent| + s.unknown;
      && n < |s.entered| && s.answers[0].asked == s.entered[n].dst
      && Asked(s.answers[1..]) + s.requests == Dsts(s.entered[n + 1..])
  {
    var n := |s.sent| + s.unknown;
    assert Asked(s.answers) == [s.answers[0].asked] + Asked(s.answers[1..]);
    assert (Asked(s.answers) + s.requests)[0] == s.answers[0].asked == Dsts(s.entered[n..])[0];
    assert Dsts(s.entered[n..])[1..] == Dsts(s.entered[n + 1..]);
    assert (Asked(s.answers) + s.requests)[1..] == Asked(s.answers[1..]) + s.requests;
  }

  /** An answer 255 is only counted; any other finds a packet and sends the first. */
  lemma AnswerMoves(s: Pipe)
    requires Inv(s) && s.answers != []
    ensures var t := TakeAnswer(s);
      if s.answers[0].next == NO_HOP then t == s.(answers := s.answers[1..], unknown := s.unknown + 1)
      else
        && s.queue != []
        && t == s.(answers := s.answers[1..], queue := s.queue[1..],
                   sent := s.sent + [Sent(s.queue[0], s.answers[0], s.unknown)])
  {
    OldestAnswer(s);
  }

  lemma AnswerArrivesKeepsInv(s: Pipe)
    requires Inv(s) && s.answers != []
    ensures Inv(TakeAnswer(s))
  {
    var t := TakeAnswer(s);
    OldestAnswer(s);
    assert s.entered[|s.sent|..][1..] == s.entered[|s.sent| + 1..];
    forall j | 0 <= j < |t.sent|
      ensures SentWell(t, j)
    {
      if j < |s.sent| {
        assert SentWell(s, j);
      }
    }
  }

  lemma StepKeepsInv(s: Pipe, a: Action)
    requires Inv(s)
    ensures Inv(Step(s, a)) && Step(s, a).me == s.me && s.unknown <= Step(s, a).unknown
  {
    match a
    case FromApplication(frame, sduType) => if 2 <= |frame| { WaitKeepsInv(s, Accept(s.me, frame, sduType)); }
    case FromNetwork(p) => if OnRaw(s.me, p).PassOn? { WaitKeepsInv(s, OnRaw(s.me, p).packet); }
    case RouterAnswers(table) => if s.requests != [] { RouterAnswersKeepsInv(s, table); }
    case AnswerArrives => if s.answers != [] { AnswerArrivesKeepsInv(s); }
  }

  lemma {:induction false} InvAlways(me: byte, actions: seq<Action>)
    ensures Inv(Exec(me, actions))
  {
    if actions != [] {
      InvAlways(me, actions[..|actions| - 1]);
      StepKeepsInv(Exec(me, actions[..|actions| - 1]), actions[|actions| - 1]);
    }
  }

  /** In every reachable state the packets waiting are those of the pending answers followed
      by those of the pending requests, exactly as long as no answer was 255. */
  lemma AlignedExactlyUntilUnknown(me: byte, actions: seq<Action>)
    ensures var s := Exec(me, actions);
      Dsts(s.queue) == Asked(s.answers) + s.requests <==> s.unknown == 0
  {
    InvAlways(me, actions);
    var s := Exec(me, actions);
    assert |Dsts(s.queue)| == |s.entered| - |s.sent|;
    assert |Asked(s.answers) + s.requests| == |s.entered| - |s.sent| - s.unknown;
  }

  /** On every run no answer finds the queue empty, packets leave in the order they came, and
      each leaves for a hop that was looked up for the packet unknownBefore places behind it:
      for its own destination, if no answer was 255 before. */
  lemma AnswersMatchPackets(me: byte, actions: seq<Action>, j: nat)
    requires j < |Exec(me, actions).sent|
    ensures var s := Exec(me, actions);
      var x := s.sent[j];
      && !s.underflow
      && j + x.unknownBefore < |s.entered| && x.packet == s.entered[j]
      && x.answer.next == Lookup(x.answer.table, s.entered[j + x.unknownBefore].dst) != NO_HOP
      && (x.unknownBefore == 0 ==> x.answer.next == Lookup(x.answer.table, x.packet.dst))
  {
    InvAlways(me, actions);
    assert SentWell(Exec(me, actions), j);
  }

  lemma ExecOneMore(me: byte, actions: seq<Action>, a: Action)
    ensures Exec(me, actions + [a]) == Step(Exec(me, actions), a)
  {
    assert (actions + [a])[..|actions|] == actions;
  }

  const UNKNOWN_THEN_KNOWN: Table := [Entry(2, 1, 2, 0)]

  /** Two packets are sent, for 9 and for 2; only 2 is known. */
  function TwoPackets(): seq<Action> {
    [] + [FromApplication([9, 0], TRANSPORT)] + [FromApplication([2, 0], TRANSPORT)]
    + [RouterAnswers(UNKNOWN_THEN_KNOWN)] + [RouterAnswers(UNKNOWN_THEN_KNOWN)] + [AnswerArrives] + [AnswerArrives]
  }

  /** After them the packet for 9 has left for 2, on the answer for the other packet, which
      still waits with no answer to come. */
  lemma UnknownMisdirects()
    ensures var s := Exec(1, TwoPackets());
      && |s.sent| == 1 && s.sent[0].packet.dst == 9 && s.sent[0].answer.asked == 2 && s.sent[0].answer.next == 2
      && |s.queue| == 1 && s.queue[0].dst == 2 && s.requests == [] && s.answers == []
  {
    var start := Idle(1);
    var a0, a1 := FromApplication([9, 0], TRANSPORT), FromApplication([2, 0], TRANSPORT);
    var r := RouterAnswers(UNKNOWN_THEN_KNOWN);
    ExecOneMore(1, [], a0);
    ExecOneMore(1, [] + [a0], a1);
    ExecOneMore(1, [] + [a0] + [a1], r);
    ExecOneMore(1, [] + [a0] + [a1] + [r], r);
    ExecOneMore(1, [] + [a0] + [a1] + [r] + [r], AnswerArrives);
    ExecOneMore(1, [] + [a0] + [a1] + [r] + [r] + [AnswerArrives], AnswerArrives);
    var s := Exec(1, [] + [a0] + [a1]);
    assert s.requests == [9, 2] && |s.queue| == 2 && s.queue[0].dst == 9 && s.queue[1].dst == 2;
    Answered(s);
  }

  lemma Answered(s: Pipe)
    requires s.requests == [9, 2] && s.answers == [] && s.sent == [] && |s.queue| == 2
    ensures var r := RouterAnswers(UNKNOWN_THEN_KNOWN);
      var t := Step(Step(Step(Step(s, r), r), AnswerArrives), AnswerArrives);
      && |t.sent| == 1 && t.sent[0].packet == s.queue[0] && t.sent[0].answer.asked == 2 && t.sent[0].answer.next == 2
      && t.queue == [s.queue[1]] && t.requests == [] && t.answers == []
  {
    var table := UNKNOWN_THEN_KNOWN;
    assert Lookup(table, 9) == NO_HOP by {
      assert table[1..] == [];
    }
    assert Lookup(table, 2) == 2;
    var t := Step(Step(s, RouterAnswers(table)), RouterAnswers(table));
    assert t.answers == [Answer(NO_HOP, 9, table), Answer(2, 2, table)];
  }
}
