/** Lossless rounds: from any state with nothing under way, one timeout whose segments and
    acknowledgements all arrive in order moves the front by a whole window, wrapped counter or
    not; what that brings to the receiver depends on where the front stood
    (miptp_daemon.c, resend_window, read_message). */
module Progress {
  import opened Framing
  import opened SendQueue
  import opened Transport
  import opened GoBackN
  import opened Limits

  /** The segments i, i+1, ..., i+n-1 arrive. */
  function Arrivals(i: nat, n: nat): seq<Action> {
    if n == 0 then [] else Arrivals(i, n - 1) + [DataArrives(i + n - 1)]
  }

  function AckArrivals(n: nat): seq<Action> {
    if n == 0 then [] else AckArrivals(n - 1) + [AckArrives]
  }

  function Numbers(items: seq<Queued>): seq<nat> {
    seq(|items|, i requires 0 <= i < |items| => items[i].seqno)
  }

  function RoundActions(s: Flow): seq<Action> {
    var n := |Window(s.snd.queue)|;
    [Timeout] + Arrivals(s.front, n) + AckArrivals(n)
  }

  function LosslessRound(s: Flow): Flow {
    Exec(s, RoundActions(s))
  }

  function LosslessRounds(s: Flow, r: nat): Flow {
    if r == 0 then s else LosslessRound(LosslessRounds(s, r - 1))
  }

  /** Every queued message arrives as data. */
  predicate AllData(s: Flow) {
    forall k :: 0 <= k < |s.snd.queue| ==> ArrivesAs(s.snd.queue[k]) == AsData
  }

  /** Nothing is under way, both ends work, and the receiver has a link for the sender or room
      for one. */
  predicate Idle(s: Flow) {
    s.sndUp && s.rcvUp && s.acks == [] && (s.delivered != [] || |s.rcv.links| < MAX_LINKS)
  }

  predicate Quiet(s: Flow) {
    QueueInv(s) && HeardInv(s) && Idle(s) && AllData(s)
  }

  // ---- one round ----

  /** The states while the segments i, ..., i+n-1 arrive, the last one being the result. */
  function Trace(s: Flow, i: nat, n: nat): (states: seq<Flow>)
    ensures |states| == n + 1
  {
    if n == 0 then [s]
    else
      var before := Trace(s, i, n - 1);
      before + [Step(before[n - 1], DataArrives(i + n - 1))]
  }

  /** The k-th segment arrives between the k-th state and the next. */
  predicate Linked(states: seq<Flow>, i: nat, k: nat)
    requires k + 1 < |states|
  {
    states[k + 1] == Step(states[k], DataArrives(i + k))
  }

  predicate Run(states: seq<Flow>, s: Flow, i: nat) {
    states != [] && states[0] == s && forall k: nat :: k + 1 < |states| ==> Linked(states, i, k)
  }

  lemma {:induction false} TraceIsRun(s: Flow, i: nat, n: nat)
    ensures Run(Trace(s, i, n), s, i)
  {
    if n != 0 {
      TraceIsRun(s, i, n - 1);
      var before, states := Trace(s, i, n - 1), Trace(s, i, n);
      assert states[..n] == before;
      forall k: nat | k + 1 < |states|
        ensures Linked(states, i, k)
      {
        if k + 1 < n {
          assert Linked(before, i, k);
        }
      }
    }
  }

  function Arrived(s: Flow, i: nat, n: nat): Flow {
    Trace(s, i, n)[n]
  }

  lemma {:induction false} ExecArrivals(s: Flow, i: nat, n: nat)
    ensures Exec(s, Arrivals(i, n)) == Arrived(s, i, n)
  {
    if n != 0 {
      ExecArrivals(s, i, n - 1);
      ExecOneMore(s, Arrivals(i, n - 1), DataArrives(i + n - 1));
    }
  }

  function Acknowledged(s: Flow, n: nat): Flow {
    if n == 0 then s else Step(Acknowledged(s, n - 1), AckArrives)
  }

  lemma {:induction false} ExecAcks(s: Flow, n: nat)
    ensures Exec(s, AckArrivals(n)) == Acknowledged(s, n)
  {
    if n != 0 {
      ExecAcks(s, n - 1);
      ExecOneMore(s, AckArrivals(n - 1), AckArrives);
    }
  }

  lemma RoundInThreeParts(s: Flow)
    ensures var n := |Window(s.snd.queue)|;
      LosslessRound(s) == Acknowledged(Arrived(Step(s, Timeout), s.front, n), n)
  {
    var n := |Window(s.snd.queue)|;
    ExecArrivals(Step(s, Timeout), s.front, n);
    ExecAcks(Arrived(Step(s, Timeout), s.front, n), n);
    ExecAppend(s, [Timeout] + Arrivals(s.front, n), AckArrivals(n));
    ExecAppend(s, [Timeout], Arrivals(s.front, n));
    ExecOneMore(s, [], Timeout);
  }

  /** The first n messages from the front have been written, and arrive as data. */
  predicate WindowWritten(s: Flow, n: nat) {
    && s.front + n <= |s.sent|
    && forall i: nat :: s.front <= i < s.front + n ==> i in s.wire && ArrivesAs(s.sent[i]) == AsData
  }

  predicate LinkOrRoom(s: Flow) {
    Heard(s).Some? || |s.rcv.links| < MAX_LINKS
  }

  /** t is s after the n segments from its front arrived in order: each is acknowledged. */
  predicate Arriving(s: Flow, t: Flow, n: nat) {
    && s.front + n <= |s.sent| && LinkOrRoom(t)
    && t == s.(acks := Numbers(s.sent[s.front..s.front + n]), rcv := t.rcv, first := t.first, delivered := t.delivered)
  }

  lemma NumbersOneMore(items: seq<Queued>, i: nat, n: nat)
    requires i + n < |items|
    ensures Numbers(items[i..i + n + 1]) == Numbers(items[i..i + n]) + [items[i + n].seqno]
  {
  }

  lemma ArrivalIsAcked(t: Flow, i: nat)
    requires Enabled(t, DataArrives(i)) && LinkOrRoom(t) && ArrivesAs(t.sent[i]) == AsData
    ensures var u := Step(t, DataArrives(i));
      && LinkOrRoom(u)
      && u == t.(acks := t.acks + [t.sent[i].seqno], rcv := u.rcv, first := u.first, delivered := u.delivered)
  {
    ArrivalOutcome(t, i);
  }

  lemma ArriveOne(s: Flow, t: Flow, n: nat, all: nat)
    requires n < all && Arriving(s, t, n) && s.rcvUp && WindowWritten(s, all)
    ensures Arriving(s, Step(t, DataArrives(s.front + n)), n + 1)
  {
    assert s.front + n in s.wire;
    ArrivalIsAcked(t, s.front + n);
    NumbersOneMore(s.sent, s.front, n);
  }

  lemma {:induction false} AfterArrivals(s: Flow, states: seq<Flow>, n: nat, all: nat)
    requires Arriving(s, s, 0) && s.rcvUp && WindowWritten(s, all)
    requires n <= all < |states| && Run(states, s, s.front)
    ensures Arriving(s, states[n], n)
  {
    if n != 0 {
      AfterArrivals(s, states, n - 1, all);
      ArriveLinked(s, states, n - 1, all);
    }
  }

  lemma ArriveLinked(s: Flow, states: seq<Flow>, n: nat, all: nat)
    requires s.rcvUp && WindowWritten(s, all) && n < all < |states| && Run(states, s, s.front)
    requires Arriving(s, states[n], n)
    ensures Arriving(s, states[n + 1], n + 1)
  {
    assert Linked(states, s.front, n);
    ArriveOne(s, states[n], n, all);
  }

  /** t is s after n acknowledgements, each of the message then at the front. */
  predicate Acknowledging(s: Flow, t: Flow, n: nat) {
    && n <= |s.snd.queue| && n <= |s.acks|
    && t == s.(acks := s.acks[n..], snd := s.snd.(queue := s.snd.queue[n..]), front := s.front + n)
  }

  lemma AcknowledgeOne(s: Flow, t: Flow, n: nat)
    requires Acknowledging(s, t, n) && s.sndUp
    requires n < |s.acks| && n < |s.snd.queue| && s.acks[n] == s.snd.queue[n].seqno
    ensures Acknowledging(s, Step(t, AckArrives), n + 1)
  {
    assert s.acks[n..][1..] == s.acks[n + 1..];
    assert s.snd.queue[n..][1..] == s.snd.queue[n + 1..];
  }

  lemma {:induction false} AfterAcks(s: Flow, n: nat)
    requires s.sndUp && n <= |s.acks| && n <= |s.snd.queue|
    requires forall k :: 0 <= k < n ==> s.acks[k] == s.snd.queue[k].seqno
    ensures Acknowledging(s, Acknowledged(s, n), n)
  {
    if n == 0 {
      assert s.snd.queue[0..] == s.snd.queue && s.acks[0..] == s.acks;
    } else {
      AfterAcks(s, n - 1);
      AcknowledgeOne(s, Acknowledged(s, n - 1), n - 1);
    }
  }

  lemma TimeoutWritesWindow(s: Flow)
    requires Quiet(s)
    ensures var n := |Window(s.snd.queue)|;
      var t := Step(s, Timeout);
      && t == s.(wire := t.wire) && n == Min(WINDOW, |s.snd.queue|) && Arriving(t, t, 0) && WindowWritten(t, n)
  {
    var n := |Window(s.snd.queue)|;
    forall i: nat | s.front <= i < s.front + n
      ensures ArrivesAs(s.sent[i]) == AsData
    {
      assert s.snd.queue[i - s.front] == s.sent[i];
    }
  }

  /** The first half of a lossless round: the window has arrived and is acknowledged. */
  lemma WindowArrives(s: Flow)
    requires Quiet(s)
    ensures var n := |Window(s.snd.queue)|;
      var t := Arrived(Step(s, Timeout), s.front, n);
      && s.front + n <= |s.sent| && LinkOrRoom(t)
      && t == s.(wire := t.wire, acks := Numbers(s.sent[s.front..s.front + n]),
                 rcv := t.rcv, first := t.first, delivered := t.delivered)
  {
    var n := |Window(s.snd.queue)|;
    TimeoutWritesWindow(s);
    TraceIsRun(Step(s, Timeout), s.front, n);
    AfterArrivals(Step(s, Timeout), Trace(Step(s, Timeout), s.front, n), n, n);
  }

  /** What a lossless round does to the sender. */
  lemma RoundEffect(s: Flow)
    requires Quiet(s)
    ensures var t := LosslessRound(s);
      var n := |Window(s.snd.queue)|;
      && LinkOrRoom(t)
      && t == s.(wire := t.wire, rcv := t.rcv, first := t.first, delivered := t.delivered,
                 snd := s.snd.(queue := s.snd.queue[n..]), front := s.front + n)
  {
    var n := |Window(s.snd.queue)|;
    WindowArrives(s);
    var t := Arrived(Step(s, Timeout), s.front, n);
    forall k | 0 <= k < n
      ensures t.acks[k] == s.snd.queue[k].seqno
    {
      assert s.snd.queue[k] == s.sent[s.front + k];
    }
    AfterAcks(t, n);
    assert t.acks[n..] == [];
    RoundInThreeParts(s);
  }

  lemma {:induction false} ExecKeepsHeard(s: Flow, actions: seq<Action>)
    requires HeardInv(s)
    ensures HeardInv(Exec(s, actions))
  {
    if actions != [] {
      ExecKeepsHeard(s, actions[..|actions| - 1]);
      StepKeepsHeard(Exec(s, actions[..|actions| - 1]), actions[|actions| - 1]);
    }
  }

  lemma RoundStaysQuiet(s: Flow)
    requires Quiet(s)
    ensures Quiet(LosslessRound(s))
  {
    var t, n := LosslessRound(s), |Window(s.snd.queue)|;
    RoundEffect(s);
    ExecKeepsHeard(s, RoundActions(s));
    assert s.sent[s.front..][n..] == s.sent[s.front + n..];
  }

  // ---- what a round brings to the receiver, before the wrap ----

  /** How far the receiver has got in the stream. */
  function End(s: Flow): nat {
    if s.delivered == [] then s.front else s.first + |s.delivered|
  }

  /** The receiver after the n segments from the front of s arrived in order: if it waits for
      a message at or behind the front, it has all of them; if the front has passed it, none. */
  predicate Delivering(s: Flow, t: Flow, n: nat) {
    if t.delivered == [] then n == 0 && s.delivered == [] && Heard(t) == None
    else
      && Heard(t) == Some(s.base + t.first + |t.delivered|)
      && t.first + |t.delivered| == (if s.front + n <= End(s) || End(s) < s.front then End(s) else s.front + n)
      && t.first == if s.delivered == [] then s.front else s.first
  }

  predicate WindowNumbered(s: Flow, n: nat) {
    && s.front + n <= |s.sent|
    && forall i: nat :: s.front <= i < s.front + n ==> s.sent[i].seqno == s.base + i < SEQ_MODULUS
  }

  lemma DeliverOne(s: Flow, t: Flow, n: nat, all: nat)
    requires n < all && Arriving(s, t, n) && s.rcvUp && WindowWritten(s, all) && WindowNumbered(s, all)
    requires Delivering(s, t, n)
    ensures Delivering(s, Step(t, DataArrives(s.front + n)), n + 1)
  {
    var i := s.front + n;
    assert i in s.wire && s.sent[i].seqno == s.base + i;
    ArrivalOutcome(t, i);
  }

  lemma {:induction false} AfterDeliveries(s: Flow, states: seq<Flow>, n: nat, all: nat)
    requires Arriving(s, s, 0) && s.rcvUp && WindowWritten(s, all) && WindowNumbered(s, all)
    requires n <= all < |states| && Run(states, s, s.front)
    requires Delivering(s, s, 0)
    ensures Delivering(s, states[n], n)
  {
    if n != 0 {
      AfterDeliveries(s, states, n - 1, all);
      AfterArrivals(s, states, n - 1, all);
      assert Linked(states, s.front, n - 1);
      DeliverOne(s, states[n - 1], n - 1, all);
    }
  }

  lemma {:induction false} AcksDeliverNothing(s: Flow, n: nat)
    ensures var t := Acknowledged(s, n); t.delivered == s.delivered && t.first == s.first
  {
    if n != 0 {
      AcksDeliverNothing(s, n - 1);
    }
  }

  lemma RoundDelivers(s: Flow)
    requires Quiet(s) && CoreInv(s) && NoWrap(s)
    ensures var n := |Window(s.snd.queue)|;
      var t := LosslessRound(s);
      if n == 0 || End(s) < s.front then t.delivered == s.delivered && t.first == s.first
      else
        && t.delivered != [] && t.first + |t.delivered| == s.front + n
        && t.first == if s.delivered == [] then 0 else s.first
  {
    var n := |Window(s.snd.queue)|;
    var s1 := Step(s, Timeout);
    TimeoutWritesWindow(s);
    TraceIsRun(s1, s.front, n);
    AfterDeliveries(s1, Trace(s1, s.front, n), n, n);
    AcksDeliverNothing(Arrived(s1, s.front, n), n);
    RoundInThreeParts(s);
    if n != 0 && End(s) < s.front {
      RoundKeepsSlice(s);
    }
  }

  /** A receiver that the front has passed still has the slice it had. */
  lemma RoundKeepsSlice(s: Flow)
    requires Quiet(s) && CoreInv(s) && NoWrap(s)
    ensures var t := LosslessRound(s);
      CoreInv(t) && t.sent == s.sent && t.base == s.base
      && (t.delivered != [] && s.delivered != [] && t.first == s.first && |t.delivered| == |s.delivered| ==>
          t.delivered == s.delivered)
  {
    RoundEffect(s);
    ExecKeepsCore(s, RoundActions(s));
  }

  /** One lossless round takes exactly min(16, queue length) messages off the queue, wrapped
      counter or not. Before the wrap the receiver then has everything up to the new front,
      unless the front had passed the message it waits for: then it gets nothing. */
  lemma LosslessRoundMovesWindow(s: Flow)
    requires Quiet(s)
    ensures var t := LosslessRound(s);
      var n := Min(WINDOW, |s.snd.queue|);
      && Quiet(t) && t.sent == s.sent && t.base == s.base
      && t.front == s.front + n && t.snd.queue == s.snd.queue[n..]
    ensures CoreInv(s) && NoWrap(s) ==>
      var t := LosslessRound(s);
      && CoreInv(t)
      && if s.snd.queue == [] || End(s) < s.front then t.delivered == s.delivered && t.first == s.first
         else
           && t.delivered != [] && t.first + |t.delivered| == t.front
           && t.first == if s.delivered == [] then 0 else s.first
  {
    RoundEffect(s);
    RoundStaysQuiet(s);
    if CoreInv(s) && NoWrap(s) {
      RoundKeepsSlice(s);
      RoundDelivers(s);
    }
  }

  // ---- rounds ----

  lemma {:induction false} QueueAfterRounds(s: Flow, r: nat)
    requires Quiet(s)
    ensures var t := LosslessRounds(s, r);
      && Quiet(t) && t.sent == s.sent && t.base == s.base
      && |t.snd.queue| == if WINDOW * r <= |s.snd.queue| then |s.snd.queue| - WINDOW * r else 0
  {
    if r > 0 {
      QueueAfterRounds(s, r - 1);
      LosslessRoundMovesWindow(LosslessRounds(s, r - 1));
    }
  }

  lemma {:induction false} DeliveredAfterRounds(s: Flow, r: nat)
    requires Quiet(s) && CoreInv(s) && NoWrap(s)
    ensures CoreInv(LosslessRounds(s, r)) && DeliveredIn(s, LosslessRounds(s, r), r)
  {
    if r > 0 {
      DeliveredAfterRounds(s, r - 1);
      QueueAfterRounds(s, r - 1);
      OneMoreRound(s, LosslessRounds(s, r - 1), r - 1);
    }
  }

  /** What r rounds from s have brought to the receiver of t. */
  predicate DeliveredIn(s: Flow, t: Flow, r: nat) {
    if r == 0 || s.snd.queue == [] || End(s) < s.front then
      && t.delivered == s.delivered && t.first == s.first
      && (r == 0 ==> t == s) && (s.snd.queue == [] ==> t.snd.queue == []) && (End(s) < s.front ==> End(t) < t.front)
    else
      && t.delivered != [] && t.first + |t.delivered| == t.front
      && t.first == if s.delivered == [] then 0 else s.first
  }

  lemma OneMoreRound(s: Flow, t: Flow, r: nat)
    requires Quiet(t) && CoreInv(t) && NoWrap(t) && DeliveredIn(s, t, r)
    ensures CoreInv(LosslessRound(t)) && DeliveredIn(s, LosslessRound(t), r + 1)
  {
    LosslessRoundMovesWindow(t);
  }

  // ---- a queued message that does not arrive as data ----

  lemma {:induction false} NothingSent(s: Flow, actions: seq<Action>)
    requires forall a :: a in actions ==> !a.Submit?
    ensures Exec(s, actions).sent == s.sent && Exec(s, actions).base == s.base
  {
    if actions != [] {
      NothingSent(s, actions[..|actions| - 1]);
    }
  }

  lemma {:induction false} RoundSubmitsNothing(i: nat, n: nat)
    ensures forall a :: a in Arrivals(i, n) ==> !a.Submit?
    ensures forall a :: a in AckArrivals(n) ==> !a.Submit?
  {
    if n != 0 {
      RoundSubmitsNothing(i, n - 1);
    }
  }

  /** Rounds keep the invariants even where they get stuck. */
  lemma {:induction false} RoundsAckOnlyData(s: Flow, r: nat)
    requires CoreInv(s) && OnlyDataAcked(s) && NoWrap(s)
    ensures var t := LosslessRounds(s, r);
      CoreInv(t) && OnlyDataAcked(t) && t.sent == s.sent && t.base == s.base
  {
    if r > 0 {
      RoundsAckOnlyData(s, r - 1);
      var t := LosslessRounds(s, r - 1);
      RoundSubmitsNothing(t.front, |Window(t.snd.queue)|);
      NothingSent(t, RoundActions(t));
      ExecKeepsCore(t, RoundActions(t));
      ExecAcksOnlyData(t, RoundActions(t));
    }
  }

  lemma UndeliverableStuck(s: Flow, r: nat)
    requires CoreInv(s) && OnlyDataAcked(s) && NoWrap(s) && !AllData(s)
    ensures LosslessRounds(s, r).snd.queue != []
  {
    RoundsAckOnlyData(s, r);
    var k :| 0 <= k < |s.snd.queue| && ArrivesAs(s.snd.queue[k]) != AsData;
    assert s.snd.queue[k] == s.sent[s.front + k];
  }

  lemma StartAcksOnlyData(base: nat, mip: byte, port: byte, actions: seq<Action>)
    requires NoWrap(Exec(Start(base, mip, port), actions))
    ensures var s := Exec(Start(base, mip, port), actions); CoreInv(s) && OnlyDataAcked(s)
  {
    StartInv(base, mip, port);
    ExecKeepsCore(Start(base, mip, port), actions);
    ExecAcksOnlyData(Start(base, mip, port), actions);
  }

  // ---- the main results ----

  /** From every reachable state with nothing under way, wrapped counter or not and whatever
      became of acknowledgements before, r lossless rounds empty a queue of n data messages iff
      r is at least ceil(n/16). */
  lemma RoundsEmptyQueue(base: nat, mip: byte, port: byte, actions: seq<Action>, r: nat)
    requires var s := Exec(Start(base, mip, port), actions); Idle(s) && AllData(s)
    ensures var s := Exec(Start(base, mip, port), actions);
      LosslessRounds(s, r).snd.queue == [] <==> (|s.snd.queue| + WINDOW - 1) / WINDOW <= r
  {
    ExecKeepsQueue(base, mip, port, actions);
    QueueAfterRounds(Exec(Start(base, mip, port), actions), r);
  }

  /** Before the wrap: r lossless rounds empty a queue of n messages iff r is at least ceil(n/16)
      and each of them arrives as data; and then the application has every message from the
      first one it was handed (message 0, if it had been handed nothing before) exactly if the
      front had not passed the message it waited for. */
  lemma RoundsFinish(base: nat, mip: byte, port: byte, actions: seq<Action>, r: nat)
    requires var s := Exec(Start(base, mip, port), actions); NoWrap(s) && Idle(s)
    ensures var s := Exec(Start(base, mip, port), actions);
      var t := LosslessRounds(s, r);
      && (t.snd.queue == [] <==> AllData(s) && (|s.snd.queue| + WINDOW - 1) / WINDOW <= r)
      && (t.snd.queue == [] && s.snd.queue != [] ==>
        && t.sent == s.sent && t.first <= |t.sent|
        && t.first == (if s.delivered == [] then 0 else s.first)
        && (t.delivered == t.sent[t.first..] <==> s.delivered == [] || s.front <= s.first + |s.delivered|))
  {
    var s := Exec(Start(base, mip, port), actions);
    StartAcksOnlyData(base, mip, port, actions);
    if AllData(s) {
      RoundsEmptyQueue(base, mip, port, actions, r);
      RoundsDeliver(s, r);
    } else {
      UndeliverableStuck(s, r);
    }
  }

  lemma RoundsDeliver(s: Flow, r: nat)
    requires Quiet(s) && CoreInv(s) && NoWrap(s)
    ensures var t := LosslessRounds(s, r);
      t.snd.queue == [] && s.snd.queue != [] ==>
        && t.sent == s.sent && t.first <= |t.sent|
        && t.first == (if s.delivered == [] then 0 else s.first)
        && (t.delivered == t.sent[t.first..] <==> s.front <= End(s))
  {
    var t := LosslessRounds(s, r);
    QueueAfterRounds(s, r);
    DeliveredAfterRounds(s, r);
    if t.snd.queue == [] && s.snd.queue != [] {
      assert t.front == |t.sent|;
      assert t.sent[t.first..|t.sent|] == t.sent[t.first..];
    }
  }

  lemma {:induction false} ReachableShortNumbers(base: nat, mip: byte, port: byte, actions: seq<Action>)
    ensures ShortNumbers(Exec(Start(base, mip, port), actions))
  {
    if actions != [] {
      ReachableShortNumbers(base, mip, port, actions[..|actions| - 1]);
      StepKeepsShortNumbers(Exec(Start(base, mip, port), actions[..|actions| - 1]), actions[|actions| - 1]);
    }
  }

  /** A receiver that has accepted the last 14-bit number takes nothing more, and yet every
      lossless round discards up to sixteen messages. */
  lemma {:induction false} DeafRoundsDiscard(base: nat, mip: byte, port: byte, actions: seq<Action>, r: nat)
    requires var s := Exec(Start(base, mip, port), actions);
      Idle(s) && AllData(s) && Heard(s) == Some(SEQ_MODULUS)
    ensures var s := Exec(Start(base, mip, port), actions);
      var t := LosslessRounds(s, r);
      && t.delivered == s.delivered && Heard(t) == Some(SEQ_MODULUS) && ShortNumbers(t)
      && |t.snd.queue| == if WINDOW * r <= |s.snd.queue| then |s.snd.queue| - WINDOW * r else 0
  {
    var s := Exec(Start(base, mip, port), actions);
    ExecKeepsQueue(base, mip, port, actions);
    QueueAfterRounds(s, r);
    if r == 0 {
      ReachableShortNumbers(base, mip, port, actions);
    } else {
      DeafRoundsDiscard(base, mip, port, actions, r - 1);
      var t := LosslessRounds(s, r - 1);
      DeafAfterLastNumber(t, RoundActions(t));
    }
  }
}
