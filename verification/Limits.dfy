/** Where the transport stops being safe: past the last 14-bit sequence number, and when
    acknowledgements overtake one another. */
module Limits {
  import opened Framing
  import opened SendQueue
  import opened Transport
  import opened GoBackN

  /** A message of nothing but its header. */
  const SUBMIT: Action := Submit([0, 0], (0, 0))

  lemma ExecOneMore(s: Flow, actions: seq<Action>, a: Action)
    ensures Exec(s, actions + [a]) == Step(Exec(s, actions), a)
  {
    assert (actions + [a])[..|actions|] == actions;
  }

  /** The state after k messages went through one at a time without loss. */
  predicate InStep(s: Flow, base: nat, k: nat) {
    && s.base == base && s.sndUp && s.rcvUp && s.acks == []
    && |s.sent| == k == s.front && s.snd.queue == [] && s.snd.seqSend == base + k
    && (if k == 0 then s.rcv.links == [] && s.delivered == []
        else Heard(s) == Some(base + k) && s.first == 0 && s.delivered == s.sent)
  }

  function Round(s: Flow): Flow {
    Step(Step(Step(s, SUBMIT), DataArrives(|s.sent|)), AckArrives)
  }

  /** The first two actions of a round. */
  lemma HalfRound(s: Flow, base: nat, k: nat)
    requires InStep(s, base, k) && base < SEQ_MODULUS && base + k <= SEQ_MODULUS
    ensures var t := Step(Step(s, SUBMIT), DataArrives(k));
      var seqno := (base + k) % SEQ_MODULUS;
      && t.base == base && t.sndUp && t.rcvUp && t.acks == [seqno]
      && |t.sent| == k + 1 && t.front == k && t.snd.seqSend == NextSeq(base + k)
      && t.snd.queue == [t.sent[k]] && t.sent[k].seqno == seqno
      && (if base + k < SEQ_MODULUS
          then Heard(t) == Some(base + k + 1) && t.first == 0 && t.delivered == t.sent
          else t.first == 0 && t.delivered == s.delivered)
  {
    ArrivesAsDataExactly(s.snd, SUBMIT.app, SUBMIT.stale);
    FieldSplits(base + k, Rest(2));
    var u := Step(s, SUBMIT);
    assert u.snd.queue == [u.sent[k]];
    assert k == 0 ==> Heard(u) == None;
    ArrivalOutcome(u, k);
  }

  lemma RoundInStep(s: Flow, base: nat, k: nat)
    requires InStep(s, base, k) && base + k < SEQ_MODULUS
    ensures InStep(Round(s), base, k + 1)
  {
    HalfRound(s, base, k);
  }

  function Rounds(k: nat): seq<Action> {
    if k == 0 then [] else Rounds(k - 1) + [SUBMIT] + [DataArrives(k - 1)] + [AckArrives]
  }

  lemma {:induction false} RoundsInStep(base: nat, mip: byte, port: byte, k: nat)
    requires base + k <= SEQ_MODULUS
    ensures InStep(Exec(Start(base, mip, port), Rounds(k)), base, k)
  {
    if k != 0 {
      RoundsInStep(base, mip, port, k - 1);
      var s := Exec(Start(base, mip, port), Rounds(k - 1));
      RoundInStep(s, base, k - 1);
      ExecRound(Start(base, mip, port), k - 1);
      assert Exec(Start(base, mip, port), Rounds(k)) == Round(s);
    }
  }

  lemma {:induction false} RoundsAreFifo(k: nat)
    ensures Fifo(Rounds(k))
  {
    if k != 0 {
      RoundsAreFifo(k - 1);
    }
  }

  lemma ExecRound(s: Flow, k: nat)
    requires |Exec(s, Rounds(k)).sent| == k
    ensures Exec(s, Rounds(k + 1)) == Round(Exec(s, Rounds(k)))
  {
    ExecOneMore(s, Rounds(k), SUBMIT);
    ExecOneMore(s, Rounds(k) + [SUBMIT], DataArrives(k));
    ExecOneMore(s, Rounds(k) + [SUBMIT] + [DataArrives(k)], AckArrives);
  }

  lemma WrapRun(base: nat, mip: byte, port: byte)
    requires base < SEQ_MODULUS
    ensures var k := SEQ_MODULUS - base;
      var s := Exec(Start(base, mip, port), Rounds(k + 1));
      |s.sent| == k + 1 && s.front == k + 1 && |s.delivered| == k && s.first == 0
  {
    var k := SEQ_MODULUS - base;
    RoundsInStep(base, mip, port, k);
    ExecRound(Start(base, mip, port), k);
    HalfRound(Exec(Start(base, mip, port), Rounds(k)), base, k);
  }

  /** Without any loss, the message after the last 14-bit number is acknowledged, refused
      and discarded. */
  lemma WrapLosesAMessage(base: nat, mip: byte, port: byte)
    requires base < SEQ_MODULUS
    ensures var k := SEQ_MODULUS - base;
      var s := Exec(Start(base, mip, port), Rounds(k + 1));
      && |s.sent| == k + 1 && s.front == k + 1 && |s.delivered| == k && s.first == 0
      && Fifo(Rounds(k + 1)) && !Safe(s)
  {
    WrapRun(base, mip, port);
    RoundsAreFifo(SEQ_MODULUS - base + 1);
  }

  /** Safety, exactly: every run of at most n messages is safe iff the counter started early
      enough not to go past its last 14-bit value. */
  lemma SafeExactlyBeforeWrap(base: nat, mip: byte, port: byte, n: nat)
    requires base < SEQ_MODULUS
    ensures (forall actions :: Fifo(actions) && |Exec(Start(base, mip, port), actions).sent| <= n
               ==> Safe(Exec(Start(base, mip, port), actions)))
      <==> base + n <= SEQ_MODULUS
  {
    var start := Start(base, mip, port);
    if base + n <= SEQ_MODULUS {
      forall actions | Fifo(actions) && |Exec(start, actions).sent| <= n
        ensures Safe(Exec(start, actions))
      {
        BaseIsKept(start, actions);
        SafeOnEveryRun(base, mip, port, actions);
      }
    } else {
      WrapLosesAMessage(base, mip, port);
      var run := Rounds(SEQ_MODULUS - base + 1);
      assert Fifo(run) && |Exec(start, run).sent| <= n && !Safe(Exec(start, run));
    }
  }

  /** Every number that travels has 14 bits. */
  predicate ShortNumbers(s: Flow) {
    forall i :: 0 <= i < |s.sent| ==> s.sent[i].seqno < SEQ_MODULUS
  }

  lemma StepKeepsShortNumbers(s: Flow, a: Action)
    requires ShortNumbers(s)
    ensures ShortNumbers(Step(s, a))
  {
    if a.Submit? && Enabled(s, a) {
      FieldSplits(s.snd.seqSend, Rest(|a.app|));
    }
  }

  /** A receiver that has accepted the last 14-bit number never accepts anything from that
      sender again: it waits for a number that no segment can carry. */
  lemma {:induction false} DeafAfterLastNumber(s: Flow, actions: seq<Action>)
    requires ShortNumbers(s) && Heard(s) == Some(SEQ_MODULUS)
    ensures var t := Exec(s, actions);
      t.delivered == s.delivered && Heard(t) == Some(SEQ_MODULUS) && ShortNumbers(t)
  {
    if actions != [] {
      var t, a := Exec(s, actions[..|actions| - 1]), actions[|actions| - 1];
      DeafAfterLastNumber(s, actions[..|actions| - 1]);
      StepKeepsShortNumbers(t, a);
      if Enabled(t, a) {
        match a
        case DataArrives(i) => ReceiveExact(t.rcv.links, t.mip, t.snd.port, t.sent[i].seqno);
        case OtherSender(mip, port, seqno) => ReceiveExact(t.rcv.links, mip, port, seqno);
        case _ =>
      }
    }
  }

  // ---- why the acknowledgements must not overtake one another ----

  lemma {:induction false} ExecAppend(s: Flow, a: seq<Action>, b: seq<Action>)
    ensures Exec(s, a + b) == Exec(Exec(s, a), b)
  {
    if b == [] {
      assert a + b == a;
    } else {
      assert (a + b)[..|a + b| - 1] == a + b[..|b| - 1];
      ExecAppend(s, a, b[..|b| - 1]);
    }
  }

  lemma ExecThree(s: Flow, a: Action, b: Action, c: Action)
    ensures Exec(s, [a, b, c]) == Step(Step(Step(s, a), b), c)
  {
    assert [a, b, c][..2] == [a, b] && [a, b][..1] == [a];
    assert Exec(s, [a]) == Step(s, a);
    assert Exec(s, [a, b]) == Step(Step(s, a), b);
  }

  const SUBMITTED: seq<Action> := [SUBMIT, SUBMIT, SUBMIT]
  const ARRIVED: seq<Action> := [DataArrives(0), DataArrives(2), DataArrives(1)]
  const ACKNOWLEDGED: seq<Action> := [AckArrives, AckArrives, AckArrives]

  /** The first n messages have been written, numbered from 0, and none has arrived. */
  predicate Written(s: Flow, n: nat) {
    && s.sndUp && s.rcvUp && s.acks == [] && s.front == 0 && s.base == 0 && s.snd.seqSend == n
    && |s.sent| == n && s.snd.queue == s.sent && s.rcv.links == [] && s.delivered == []
    && forall i :: 0 <= i < n ==> i in s.wire && s.sent[i].seqno == i && ArrivesAs(s.sent[i]) == AsData
  }

  lemma SubmitOneMore(s: Flow, n: nat)
    requires Written(s, n) && n < WINDOW
    ensures Written(Step(s, SUBMIT), n + 1)
  {
    FieldSplits(n, Rest(2));
  }

  /** Message 2 arrives before message 1 and is acknowledged although it is refused. */
  lemma OutOfOrderArrival(s: Flow)
    requires Written(s, 3)
    ensures var t := Step(Step(Step(s, DataArrives(0)), DataArrives(2)), DataArrives(1));
      t == s.(acks := [0, 2, 1], rcv := t.rcv, delivered := s.sent[..2], first := 0)
  {
    ArrivalOutcome(s, 0);
    var s1 := Step(s, DataArrives(0));
    ArrivalOutcome(s1, 2);
    var s2 := Step(s1, DataArrives(2));
    ArrivalOutcome(s2, 1);
    assert s.sent[..2] == [s.sent[0]] + [s.sent[1]];
  }

  /** If then the acknowledgement of message 1 overtakes that of message 2, the sender
      discards message 2 while the receiver still waits for it. */
  lemma OvertakingBreaksSafety()
    ensures var s := Exec(Start(0, 1, 1), SUBMITTED + ARRIVED + [AckOvertakes(1)] + ACKNOWLEDGED);
      |s.sent| == 3 && s.delivered == s.sent[..2] && s.front == 3 && !Safe(s)
  {
    var start := Start(0, 1, 1);
    var written := Exec(start, SUBMITTED);
    ExecThree(start, SUBMIT, SUBMIT, SUBMIT);
    SubmitOneMore(start, 0);
    SubmitOneMore(Step(start, SUBMIT), 1);
    SubmitOneMore(Step(Step(start, SUBMIT), SUBMIT), 2);
    OvertakingRun(written);
    ExecAppend(start, SUBMITTED, ARRIVED);
    ExecOneMore(start, SUBMITTED + ARRIVED, AckOvertakes(1));
    ExecAppend(start, SUBMITTED + ARRIVED + [AckOvertakes(1)], ACKNOWLEDGED);
  }

  lemma OvertakingRun(s: Flow)
    requires Written(s, 3)
    ensures var t := Exec(Step(Exec(s, ARRIVED), AckOvertakes(1)), ACKNOWLEDGED);
      |t.sent| == 3 && t.delivered == t.sent[..2] && t.front == 3 && !Safe(t)
  {
    OutOfOrderArrival(s);
    ExecThree(s, DataArrives(0), DataArrives(2), DataArrives(1));
    var t := Step(Exec(s, ARRIVED), AckOvertakes(1));
    assert t.acks == [0, 1, 2];
    ThreeAcknowledged(t);
  }

  lemma ThreeAcknowledged(t: Flow)
    requires t.sndUp && t.acks == [0, 1, 2] && t.front == 0 && |t.snd.queue| == 3
    requires t.snd.queue[0].seqno == 0 && t.snd.queue[1].seqno == 1 && t.snd.queue[2].seqno == 2
    ensures var u := Exec(t, ACKNOWLEDGED);
      u == t.(acks := [], snd := u.snd, front := 3)
  {
    var u1 := Step(t, AckArrives);
    assert u1 == t.(acks := [1, 2], snd := t.snd.(queue := t.snd.queue[1..]), front := 1);
    var u2 := Step(u1, AckArrives);
    assert u2 == u1.(acks := [2], snd := u2.snd, front := 2);
    ExecThree(t, AckArrives, AckArrives, AckArrives);
  }

  /** One message that arrives twice is acknowledged twice, and that is enough for the
      sender to follow a null pointer: its queue is empty when the second one comes. */
  lemma SecondAckFindsEmptyQueue()
    ensures var s := Exec(Start(0, 1, 1), [SUBMIT] + [DataArrives(0), DataArrives(0), AckArrives] + [AckArrives]);
      Safe(s) && |s.sent| == 1 && s.front == 1 && !s.sndUp
  {
    var start := Start(0, 1, 1);
    var run := [DataArrives(0), DataArrives(0), AckArrives];
    SubmitOneMore(start, 0);
    assert Exec(start, [SUBMIT]) == Step(start, SUBMIT);
    SecondAckRun(Step(start, SUBMIT));
    ExecAppend(start, [SUBMIT], run);
    ExecOneMore(start, [SUBMIT] + run, AckArrives);
  }

  lemma SecondAckRun(s: Flow)
    requires Written(s, 1)
    ensures var t := Step(Exec(s, [DataArrives(0), DataArrives(0), AckArrives]), AckArrives);
      Safe(t) && |t.sent| == 1 && t.front == 1 && !t.sndUp
  {
    ArrivalOutcome(s, 0);
    var s1 := Step(s, DataArrives(0));
    ArrivalOutcome(s1, 0);
    ExecThree(s, DataArrives(0), DataArrives(0), AckArrives);
    assert s1.delivered == s.sent[0..1];
  }

  /** One message of any length: it overruns the sender's buffer, or stops the receiver
      unacknowledged, or is acknowledged and handed over. */
  lemma MessageOfAnyLength(app: Bytes, stale: (byte, byte), base: nat, mip: byte, port: byte)
    ensures var s := Exec(Start(base, mip, port), [Submit(app, stale)] + [DataArrives(0)]);
      if AlignedSize(|app|) > BUFSIZE then !s.sndUp && s.sent == []
      else if !DataLength(|app|) then
        s.sndUp && !s.rcvUp && |s.sent| == 1 && s.delivered == [] && s.acks == []
      else s.sndUp && s.rcvUp && |s.sent| == 1 && s.delivered == s.sent && |s.acks| == 1
  {
    var start := Start(base, mip, port);
    var s := Step(start, Submit(app, stale));
    ExecOneMore(start, [], Submit(app, stale));
    ExecOneMore(start, [Submit(app, stale)], DataArrives(0));
    assert [] + [Submit(app, stale)] == [Submit(app, stale)];
    if AlignedSize(|app|) <= BUFSIZE {
      ArrivesAsDataExactly(start.snd, app, stale);
      assert 0 in s.wire && |s.sent| == 1;
      if ArrivesAs(s.sent[0]) == AsData {
        ArrivalOutcome(s, 0);
      }
    }
  }

  // ---- the first segment to arrive defines the stream ----

  const LATE_FIRST: seq<Action> := [DataArrives(1), DataArrives(0), DataArrives(1)]

  /** If the second message is the first to arrive, the first one is acknowledged and discarded
      but never handed over. The run is safe: from the first accepted message on nothing is
      lost. */
  lemma FirstMessageLost()
    ensures var s := Exec(Start(0, 1, 1), [SUBMIT] + [SUBMIT] + LATE_FIRST + ACKNOWLEDGED);
      && |s.sent| == 2 && s.front == 2 && s.snd.queue == [] && s.first == 1 && s.delivered == [s.sent[1]]
      && Safe(s)
  {
    var start := Start(0, 1, 1);
    assert [] + [SUBMIT] == [SUBMIT];
    ExecOneMore(start, [], SUBMIT);
    ExecOneMore(start, [SUBMIT], SUBMIT);
    SubmitOneMore(start, 0);
    SubmitOneMore(Step(start, SUBMIT), 1);
    var s := Exec(start, [SUBMIT] + [SUBMIT]);
    ExecAppend(start, [SUBMIT] + [SUBMIT], LATE_FIRST);
    ExecAppend(start, [SUBMIT] + [SUBMIT] + LATE_FIRST, ACKNOWLEDGED);
    LateFirstArrives(s);
    TwoAcknowledged(Exec(s, LATE_FIRST));
  }

  lemma LateFirstArrives(s: Flow)
    requires Written(s, 2)
    ensures var t := Exec(s, LATE_FIRST);
      t == s.(acks := [1, 0, 1], rcv := t.rcv, first := 1, delivered := [s.sent[1]])
  {
    ArrivalOutcome(s, 1);
    var s1 := Step(s, DataArrives(1));
    assert s1 == s.(acks := [1], rcv := s1.rcv, first := 1, delivered := [s.sent[1]]) && Heard(s1) == Some(2);
    ArrivalOutcome(s1, 0);
    var s2 := Step(s1, DataArrives(0));
    assert s2 == s1.(acks := [1, 0]);
    ArrivalOutcome(s2, 1);
    assert Step(s2, DataArrives(1)) == s2.(acks := [1, 0, 1]);
    ExecThree(s, DataArrives(1), DataArrives(0), DataArrives(1));
  }

  lemma TwoAcknowledged(t: Flow)
    requires t.sndUp && t.acks == [1, 0, 1] && t.front == 0 && |t.snd.queue| == 2
    requires t.snd.queue[0].seqno == 0 && t.snd.queue[1].seqno == 1
    ensures var u := Exec(t, ACKNOWLEDGED);
      u == t.(acks := [], snd := t.snd.(queue := []), front := 2)
  {
    var u1 := Step(t, AckArrives);
    assert u1 == t.(acks := [0, 1]);
    var u2 := Step(u1, AckArrives);
    assert u2 == u1.(acks := [1], snd := t.snd.(queue := t.snd.queue[1..]), front := 1);
    ExecThree(t, AckArrives, AckArrives, AckArrives);
  }

  // ---- acknowledgements that find their message ----

  /** No segment arrives twice, and no acknowledgement is repeated. */
  predicate ArrivesOnce(actions: seq<Action>) {
    && (forall a :: a in actions ==> !a.AckRepeated?)
    && forall j, k :: 0 <= j < k < |actions| && actions[j].DataArrives? ==> actions[j] != actions[k]
  }

  /** The numbers of the segments that arrived. */
  function Arrived(actions: seq<Action>, base: nat): set<nat> {
    set a | a in actions && a.DataArrives? :: base + a.i
  }

  predicate Different(acks: seq<nat>) {
    forall j, k :: 0 <= j < k < |acks| ==> acks[j] != acks[k]
  }

  lemma DropDifferent(acks: seq<nat>, k: nat)
    requires Different(acks) && k < |acks|
    ensures Different(Drop(acks, k)) && forall a :: a in Drop(acks, k) ==> a in acks
  {
    assert forall j :: 0 <= j < |acks| - 1 ==> Drop(acks, k)[j] == acks[if j < k then j else j + 1];
  }

  lemma SwapDifferent(acks: seq<nat>, k: nat)
    requires Different(acks) && k + 1 < |acks|
    ensures var swapped := acks[..k] + [acks[k + 1], acks[k]] + acks[k + 2..];
      Different(swapped) && forall a :: a in swapped ==> a in acks
  {
    var swapped := acks[..k] + [acks[k + 1], acks[k]] + acks[k + 2..];
    assert forall j :: 0 <= j < |acks| ==> swapped[j] == acks[if j == k then k + 1 else if j == k + 1 then k else j];
  }

  /** The acknowledgements under way are of different messages, none of them discarded; and they
      and the discarded messages are among the segments that arrived. */
  predicate AcksFindMessages(s: Flow, arrived: set<nat>) {
    && Different(s.acks)
    && (forall a :: a in s.acks ==> s.base + s.front <= a < s.base + |s.sent| && a in arrived)
    && (forall n: nat :: s.base <= n < s.base + s.front ==> n in arrived)
  }

  lemma ArrivalFindsMessage(s: Flow, arrived: set<nat>, i: nat)
    requires SenderInv(s) && AcksFindMessages(s, arrived) && i < |s.sent| && s.base + i !in arrived
    ensures AcksFindMessages(DoDataArrives(s, i), arrived + {s.base + i})
  {
    assert s.sent[i].seqno == s.base + i;
    assert s.base + i !in s.acks && i >= s.front;
    if ArrivesAs(s.sent[i]) == AsData {
      OneMoreAck(s, arrived, s.base + i);
      SameAcks(s.(acks := s.acks + [s.base + i]), DoDataArrives(s, i), arrived + {s.base + i});
    } else {
      SameAcks(s, DoDataArrives(s, i), arrived + {s.base + i});
    }
  }

  lemma OneMoreAck(s: Flow, arrived: set<nat>, n: nat)
    requires AcksFindMessages(s, arrived) && s.base + s.front <= n < s.base + |s.sent| && n !in s.acks
    ensures AcksFindMessages(s.(acks := s.acks + [n]), arrived + {n})
  {
  }

  lemma SameAcks(s: Flow, t: Flow, arrived: set<nat>)
    requires exists fewer :: fewer <= arrived && AcksFindMessages(s, fewer)
    requires t.base == s.base && t.front == s.front && t.acks == s.acks && |s.sent| <= |t.sent|
    ensures AcksFindMessages(t, arrived)
  {
  }

  lemma AckFindsMessage(s: Flow, arrived: set<nat>)
    requires SenderInv(s) && AcksFindMessages(s, arrived) && s.acks != []
    ensures s.snd.queue != [] && AcksFindMessages(DoAckArrives(s), arrived)
  {
    assert s.acks[0] in s.acks;
    assert s.snd.queue[0] == s.sent[s.front];
    TailDifferent(s.acks);
  }

  lemma TailDifferent(acks: seq<nat>)
    requires Different(acks) && acks != []
    ensures Different(acks[1..]) && forall a :: a in acks[1..] ==> a in acks && a != acks[0]
  {
    assert forall j :: 0 <= j < |acks| - 1 ==> acks[1..][j] == acks[j + 1];
  }

  /** Losing or reordering acknowledgements is harmless here. */
  lemma FewerAcks(s: Flow, acks: seq<nat>, arrived: set<nat>)
    requires AcksFindMessages(s, arrived) && Different(acks) && forall a :: a in acks ==> a in s.acks
    ensures AcksFindMessages(s.(acks := acks), arrived)
  {
  }

  lemma ChannelFindsMessages(s: Flow, arrived: set<nat>, a: Action)
    requires AcksFindMessages(s, arrived) && Enabled(s, a) && (a.AckLost? || a.AckOvertakes?)
    ensures AcksFindMessages(Step(s, a), arrived)
  {
    match a
    case AckLost(k) =>
      DropDifferent(s.acks, k);
      FewerAcks(s, Drop(s.acks, k), arrived);
    case AckOvertakes(k) =>
      SwapDifferent(s.acks, k);
      FewerAcks(s, s.acks[..k] + [s.acks[k + 1], s.acks[k]] + s.acks[k + 2..], arrived);
  }

  lemma StepFindsMessages(s: Flow, arrived: set<nat>, a: Action)
    requires SenderInv(s) && AcksFindMessages(s, arrived) && !a.AckRepeated?
    requires a.DataArrives? ==> s.base + a.i !in arrived
    ensures AcksFindMessages(Step(s, a), if a.DataArrives? then arrived + {s.base + a.i} else arrived)
  {
    if Enabled(s, a) {
      if a.DataArrives? {
        ArrivalFindsMessage(s, arrived, a.i);
      } else if a.AckArrives? {
        AckFindsMessage(s, arrived);
      } else if a.AckLost? || a.AckOvertakes? {
        ChannelFindsMessages(s, arrived, a);
      } else {
        SameAcks(s, Step(s, a), arrived);
      }
    } else if a.DataArrives? {
      SameAcks(s, s, arrived + {s.base + a.i});
    }
  }

  lemma {:induction false} OnceFindsMessages(base: nat, mip: byte, port: byte, actions: seq<Action>)
    requires NoWrap(Exec(Start(base, mip, port), actions)) && ArrivesOnce(actions)
    ensures AcksFindMessages(Exec(Start(base, mip, port), actions), Arrived(actions, base))
  {
    if actions != [] {
      var before, a := actions[..|actions| - 1], actions[|actions| - 1];
      assert actions == before + [a];
      StepOnlyAdds(Exec(Start(base, mip, port), before), a);
      ArrivedOneMore(before, a, base);
      OnceFindsMessages(base, mip, port, before);
      ReachableSender(base, mip, port, before);
      OneMoreFindsMessages(Exec(Start(base, mip, port), before), before, a);
    }
  }

  lemma OneMoreFindsMessages(s: Flow, before: seq<Action>, a: Action)
    requires SenderInv(s) && ArrivesOnce(before + [a]) && AcksFindMessages(s, Arrived(before, s.base))
    ensures AcksFindMessages(Step(s, a), Arrived(before + [a], s.base))
  {
    ArrivedOneMore(before, a, s.base);
    StepFindsMessages(s, Arrived(before, s.base), a);
  }

  lemma ReachableSender(base: nat, mip: byte, port: byte, actions: seq<Action>)
    requires NoWrap(Exec(Start(base, mip, port), actions))
    ensures var s := Exec(Start(base, mip, port), actions); SenderInv(s) && s.base == base
  {
    StartInv(base, mip, port);
    ExecKeepsCore(Start(base, mip, port), actions);
    BaseIsKept(Start(base, mip, port), actions);
  }

  lemma ArrivedOneMore(before: seq<Action>, a: Action, base: nat)
    requires ArrivesOnce(before + [a])
    ensures ArrivesOnce(before) && !a.AckRepeated?
    ensures a.DataArrives? ==> base + a.i !in Arrived(before, base)
    ensures Arrived(before + [a], base) ==
      if a.DataArrives? then Arrived(before, base) + {base + a.i} else Arrived(before, base)
  {
    var all := before + [a];
    assert all[|before|] == a && a in all;
    assert forall j :: 0 <= j < |before| ==> all[j] == before[j];
    assert forall x :: x in all <==> x in before || x == a;
  }

  /** On every run before the wrap in which no segment arrives twice and no acknowledgement is
      repeated, in whatever order they come, an acknowledgement never meets an empty queue. */
  lemma AcksMeetNoEmptyQueue(base: nat, mip: byte, port: byte, actions: seq<Action>)
    requires NoWrap(Exec(Start(base, mip, port), actions)) && ArrivesOnce(actions)
    ensures var s := Exec(Start(base, mip, port), actions); s.acks != [] ==> s.snd.queue != []
  {
    OnceFindsMessages(base, mip, port, actions);
    ReachableSender(base, mip, port, actions);
    var s := Exec(Start(base, mip, port), actions);
    if s.acks != [] {
      AckFindsMessage(s, Arrived(actions, base));
    }
  }
}
