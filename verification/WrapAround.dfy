/** The transport with its counters wrapping as they were meant to: after 2^14 - 1, and with
    the window difference taken modulo 2^14 (miptp_utils.c). Over channels that lose but
    neither reorder nor repeat, every test on 14-bit numbers agrees with the same test on
    unbounded message indices, for ever. */
module WrapAround {
  import opened Framing
  import opened SendQueue

  /** A message index under way. For data, since is the sender's front when it was written;
      for an acknowledgement, the index the receiver expected when it wrote it. Only the
      14-bit number of the index travels. */
  datatype Tag = Tag(index: nat, since: nat)

  datatype Ring = Ring(
    base: nat,        // the first sequence number
    next: nat,        // messages submitted
    front: nat,       // messages discarded as acknowledged
    heard: bool,      // the receiver has a link
    exp: nat,         // the index it expects
    data: seq<Tag>,
    acks: seq<Tag>)

  datatype Action = Submit | Timeout | DataArrives | DataLost(k: nat) | AckArrives | AckLost(k: nat)

  /** How indices are compared: by their 14-bit numbers, or as they are. */
  datatype Width = Short | Full

  function Start(base: nat): Ring {
    Ring(base, 0, 0, false, 0, [], [])
  }

  function Number(s: Ring, index: nat): nat {
    (s.base + index) % SEQ_MODULUS
  }

  predicate Equal(s: Ring, w: Width, a: nat, b: nat) {
    match w
    case Short => Number(s, a) == Number(s, b)
    case Full => a == b
  }

  predicate InWindow(s: Ring, w: Width)
    requires s.front <= s.next
  {
    match w
    case Short => (Number(s, s.next) - Number(s, s.front)) % SEQ_MODULUS < WINDOW
    case Full => s.next - s.front < WINDOW
  }

  /** n messages from index on, written while the front stands at the given place. */
  function Written(index: nat, n: nat, front: nat): seq<Tag> {
    seq(n, i requires 0 <= i < n => Tag(index + i, front))
  }

  function Without(tags: seq<Tag>, k: nat): seq<Tag>
    requires k < |tags|
  {
    tags[..k] + tags[k + 1..]
  }

  /** The queue never holds 2^14 messages; beyond that the window difference says nothing.
      Acknowledgements are taken up while the queue is not empty; the repaired code ignores
      one that meets an empty queue, which is AckLost(0). */
  predicate Enabled(s: Ring, a: Action) {
    match a
    case Submit => s.front <= s.next < s.front + SEQ_MODULUS
    case Timeout => s.front <= s.next
    case DataArrives => s.data != []
    case DataLost(k) => k < |s.data|
    case AckArrives => s.acks != [] && s.front < s.next
    case AckLost(k) => k < |s.acks|
  }

  function Step(s: Ring, w: Width, a: Action): Ring {
    if !Enabled(s, a) then s
    else match a
      case Submit =>
        s.(next := s.next + 1, data := if InWindow(s, w) then s.data + [Tag(s.next, s.front)] else s.data)
      case Timeout =>
        s.(data := s.data + Written(s.front, Min(WINDOW, s.next - s.front), s.front))
      case DataArrives =>
        var d := s.data[0].index;
        var e := if s.heard then s.exp else d;
        s.(data := s.data[1..], acks := s.acks + [Tag(d, e)], heard := true,
           exp := if Equal(s, w, d, e) then e + 1 else e)
      case DataLost(k) => s.(data := Without(s.data, k))
      case AckArrives =>
        s.(acks := s.acks[1..], front := if Equal(s, w, s.acks[0].index, s.front) then s.front + 1 else s.front)
      case AckLost(k) => s.(acks := Without(s.acks, k))
  }

  function Exec(s: Ring, w: Width, actions: seq<Action>): Ring {
    if actions == [] then s
    else Step(Exec(s, w, actions[..|actions| - 1]), w, actions[|actions| - 1])
  }

  // ---- the invariant of the unbounded protocol ----

  /** Data under way lies within a window of the expected index: while a segment written at
      front f is under way, everything that arrived was written before it. */
  predicate DataOk(s: Ring) {
    && (forall i :: 0 <= i < |s.data| ==>
      && s.data[i].since <= s.data[i].index < s.data[i].since + WINDOW
      && s.data[i].index < s.next && s.data[i].since <= s.front
      && (s.heard ==> s.exp <= s.data[i].since + WINDOW))
    && (forall i, j :: 0 <= i <= j < |s.data| ==> s.data[i].since <= s.data[j].since)
  }

  /** Acknowledgements under way, oldest first: none finds the front past the index that the
      receiver expected when it wrote it. */
  predicate AcksOk(front: nat, acks: seq<Tag>, exp: nat)
    decreases acks
  {
    if acks == [] then front <= exp
    else
      && front <= acks[0].since <= exp
      && acks[0].since <= acks[0].index + WINDOW && acks[0].index < acks[0].since + WINDOW
      && AcksOk(if acks[0].index == front then front + 1 else front, acks[1..], exp)
  }

  predicate Inv(s: Ring) {
    && s.front <= s.next && DataOk(s)
    && (if s.heard then s.exp <= s.front + WINDOW && s.exp <= s.next && AcksOk(s.front, s.acks, s.exp)
        else s.acks == [] && s.front == 0)
  }

  lemma {:induction false} AcksOkBelow(f: nat, g: nat, acks: seq<Tag>, exp: nat)
    requires f <= g && AcksOk(g, acks, exp)
    ensures AcksOk(f, acks, exp)
    decreases acks
  {
    if acks != [] {
      AcksOkBelow(if acks[0].index == f then f + 1 else f, if acks[0].index == g then g + 1 else g, acks[1..], exp);
    }
  }

  lemma {:induction false} AcksOkWithout(f: nat, acks: seq<Tag>, exp: nat, k: nat)
    requires AcksOk(f, acks, exp) && k < |acks|
    ensures AcksOk(f, Without(acks, k), exp)
    decreases acks
  {
    var g := if acks[0].index == f then f + 1 else f;
    if k == 0 {
      assert Without(acks, 0) == acks[1..];
      AcksOkBelow(f, g, acks[1..], exp);
    } else {
      assert Without(acks, k)[1..] == Without(acks[1..], k - 1);
      AcksOkWithout(g, acks[1..], exp, k - 1);
    }
  }

  lemma {:induction false} AcksOkAppend(f: nat, acks: seq<Tag>, exp: nat, d: nat)
    requires AcksOk(f, acks, exp)
    requires exp <= d + WINDOW && d < exp + WINDOW
    ensures AcksOk(f, acks + [Tag(d, exp)], if d == exp then exp + 1 else exp)
    decreases acks
  {
    if acks == [] {
      assert [Tag(d, exp)][1..] == [];
    } else {
      assert (acks + [Tag(d, exp)])[1..] == acks[1..] + [Tag(d, exp)];
      AcksOkAppend(if acks[0].index == f then f + 1 else f, acks[1..], exp, d);
    }
  }

  lemma {:induction false} AcksOkFront(f: nat, acks: seq<Tag>, exp: nat)
    requires AcksOk(f, acks, exp)
    ensures f <= exp
  {
  }

  /** Every acknowledgement under way was written between the front and the expected index, for
      a message within a window of the index expected then. */
  lemma {:induction false} AcksNear(f: nat, acks: seq<Tag>, exp: nat)
    requires AcksOk(f, acks, exp)
    ensures forall k :: 0 <= k < |acks| ==>
      f <= acks[k].since <= exp && acks[k].since - WINDOW <= acks[k].index < acks[k].since + WINDOW
    decreases acks
  {
    if acks != [] {
      AcksNear(if acks[0].index == f then f + 1 else f, acks[1..], exp);
      assert forall k :: 1 <= k < |acks| ==> acks[k] == acks[1..][k - 1];
    }
  }

  /** Writing n messages from index on. */
  lemma DataWritten(s: Ring, n: nat, index: nat, next: nat)
    requires Inv(s) && s.front <= index && index + n <= s.front + WINDOW && index + n <= next && s.next <= next
    ensures Inv(s.(next := next, data := s.data + Written(index, n, s.front)))
  {
  }

  lemma SubmitKeepsInv(s: Ring)
    requires Inv(s) && Enabled(s, Submit)
    ensures Inv(Step(s, Full, Submit))
  {
    if InWindow(s, Full) {
      DataWritten(s, 1, s.next, s.next + 1);
      assert Written(s.next, 1, s.front) == [Tag(s.next, s.front)];
    }
  }

  lemma DataLostKeepsInv(s: Ring, k: nat)
    requires Inv(s) && k < |s.data|
    ensures Inv(s.(data := Without(s.data, k)))
  {
    assert forall i :: 0 <= i < |s.data| - 1 ==> Without(s.data, k)[i] == s.data[if i < k then i else i + 1];
  }

  lemma StepKeepsInv(s: Ring, a: Action)
    requires Inv(s)
    ensures Inv(Step(s, Full, a))
  {
    if Enabled(s, a) {
      match a
      case Submit => SubmitKeepsInv(s);
      case Timeout => DataWritten(s, Min(WINDOW, s.next - s.front), s.front, s.next);
      case DataArrives => DataArrivesKeepsInv(s);
      case DataLost(k) => DataLostKeepsInv(s, k);
      case AckArrives => AckArrivesKeepsInv(s);
      case AckLost(k) => AcksOkWithout(s.front, s.acks, s.exp, k);
    }
  }

  lemma DataArrivesKeepsInv(s: Ring)
    requires Inv(s) && s.data != []
    ensures Inv(Step(s, Full, DataArrives))
  {
    var d := s.data[0];
    var e := if s.heard then s.exp else d.index;
    if s.heard {
      AcksOkFront(s.front, s.acks, s.exp);
    }
    assert AcksOk(s.front, s.acks, e);
    AcksOkAppend(s.front, s.acks, e, d.index);
    var t := Step(s, Full, DataArrives);
    assert t.exp <= d.since + WINDOW;
  }

  lemma AckArrivesKeepsInv(s: Ring)
    requires Inv(s) && s.acks != []
    ensures Inv(Step(s, Full, AckArrives))
  {
  }

  lemma {:induction false} InvAlways(base: nat, actions: seq<Action>)
    ensures Inv(Exec(Start(base), Full, actions))
  {
    if actions != [] {
      InvAlways(base, actions[..|actions| - 1]);
      StepKeepsInv(Exec(Start(base), Full, actions[..|actions| - 1]), actions[|actions| - 1]);
    }
  }

  // ---- short numbers agree ----

  lemma NumbersAgree(s: Ring, a: nat, b: nat)
    requires a < b + SEQ_MODULUS && b < a + SEQ_MODULUS
    ensures Equal(s, Short, a, b) == Equal(s, Full, a, b)
  {
  }

  lemma DifferenceOfNumbers(a: nat, b: nat)
    ensures ((a + b) % SEQ_MODULUS - a % SEQ_MODULUS) % SEQ_MODULUS == b % SEQ_MODULUS
  {
    var q := (a + b) / SEQ_MODULUS - a / SEQ_MODULUS;
    var p, r := b / SEQ_MODULUS, b % SEQ_MODULUS;
    assert (a + b) % SEQ_MODULUS - a % SEQ_MODULUS == (p - q) * SEQ_MODULUS + r;
    MultipleAndRest(p - q, r);
  }

  lemma MultipleAndRest(q: int, r: nat)
    requires r < SEQ_MODULUS
    ensures (q * SEQ_MODULUS + r) % SEQ_MODULUS == r
  {
  }

  lemma WindowAgrees(s: Ring)
    requires s.front <= s.next
    ensures s.next - s.front < SEQ_MODULUS ==> InWindow(s, Short) == InWindow(s, Full)
    ensures s.next - s.front == SEQ_MODULUS ==> InWindow(s, Short) && !InWindow(s, Full)
  {
    DifferenceOfNumbers(s.base + s.front, s.next - s.front);
  }

  /** In every state of the unbounded protocol, each test on 14-bit numbers decides as the
      unbounded one does. */
  lemma StepAgrees(s: Ring, a: Action)
    requires Inv(s)
    ensures Step(s, Short, a) == Step(s, Full, a)
  {
    if Enabled(s, a) {
      match a
      case Submit => WindowAgrees(s);
      case DataArrives =>
        if s.heard {
          AcksOkFront(s.front, s.acks, s.exp);
          NumbersAgree(s, s.data[0].index, s.exp);
        }
      case AckArrives => NumbersAgree(s, s.acks[0].index, s.front);
      case _ =>
    }
  }

  /** The repaired 14-bit protocol is the unbounded protocol, on every run however long. */
  lemma {:induction false} ShortNumbersRefineIndices(base: nat, actions: seq<Action>)
    ensures Exec(Start(base), Short, actions) == Exec(Start(base), Full, actions)
  {
    if actions != [] {
      ShortNumbersRefineIndices(base, actions[..|actions| - 1]);
      InvAlways(base, actions[..|actions| - 1]);
      StepAgrees(Exec(Start(base), Full, actions[..|actions| - 1]), actions[|actions| - 1]);
    }
  }

  /** So it is safe for ever: the sender's front never passes what the receiver expects, the
      receiver is never more than a window ahead, data under way is within a window of what it
      expects, and acknowledgements under way are at most a window behind the front and less
      than two ahead of it. */
  lemma SafeForEver(base: nat, actions: seq<Action>)
    ensures var s := Exec(Start(base), Short, actions);
      && (s.heard ==> s.front <= s.exp <= s.front + WINDOW && s.exp <= s.next)
      && (!s.heard ==> s.front == 0)
      && (s.heard ==> forall i :: 0 <= i < |s.data| ==> s.exp - WINDOW <= s.data[i].index < s.exp + WINDOW)
      && (forall k :: 0 <= k < |s.acks| ==> s.front - WINDOW <= s.acks[k].index < s.front + 2 * WINDOW)
  {
    ShortNumbersRefineIndices(base, actions);
    InvAlways(base, actions);
    var s := Exec(Start(base), Full, actions);
    if s.heard {
      AcksOkFront(s.front, s.acks, s.exp);
      AcksNear(s.front, s.acks, s.exp);
    }
  }

  /** The receiver takes the messages one by one: an arrival is accepted exactly when it is
      the expected message, and then the next one is expected. */
  lemma AcceptsInOrder(base: nat, actions: seq<Action>)
    ensures var s := Exec(Start(base), Short, actions);
      var t := Step(s, Short, DataArrives);
      s.heard && s.data != [] ==> t.exp == if s.data[0].index == s.exp then s.exp + 1 else s.exp
  {
    ShortNumbersRefineIndices(base, actions);
    InvAlways(base, actions);
    StepAgrees(Exec(Start(base), Full, actions), DataArrives);
  }

  /** On every run a new message is written at once exactly if fewer than sixteen are queued
      before it, however often the numbers have wrapped. */
  lemma WritesInWindow(base: nat, actions: seq<Action>)
    ensures var s := Exec(Start(base), Short, actions);
      s.next < s.front + SEQ_MODULUS ==>
        Step(s, Short, Submit).data == s.data + if s.next - s.front < WINDOW then [Tag(s.next, s.front)] else []
  {
    ShortNumbersRefineIndices(base, actions);
    InvAlways(base, actions);
    WindowAgrees(Exec(Start(base), Full, actions));
  }

  // ---- progress, for ever ----

  /** The same action n times. */
  function Again(s: Ring, w: Width, a: Action, n: nat): Ring {
    if n == 0 then s else Step(Again(s, w, a, n - 1), w, a)
  }

  /** A timeout after which nothing is lost: n segments arrive, then their acknowledgements. */
  function LosslessRound(s: Ring, w: Width): Ring {
    var n := if s.front <= s.next then Min(WINDOW, s.next - s.front) else 0;
    Again(Again(Step(s, w, Timeout), w, DataArrives, n), w, AckArrives, n)
  }

  function LosslessRounds(s: Ring, w: Width, r: nat): Ring {
    if r == 0 then s else LosslessRound(LosslessRounds(s, w, r - 1), w)
  }

  /** The index expected before the front message of s arrives. */
  function ExpectedAtFront(s: Ring): nat {
    if s.heard then s.exp else s.front
  }

  /** k of the n messages that a timeout wrote in s have arrived. */
  predicate Arriving(s: Ring, t: Ring, n: nat, k: nat) {
    && k <= n
    && t == s.(data := Written(s.front + k, n - k, s.front), acks := t.acks, heard := t.heard, exp := t.exp)
    && |t.acks| == k && (forall i :: 0 <= i < k ==> t.acks[i].index == s.front + i)
    && (if k == 0 then t.heard == s.heard && t.exp == s.exp
        else t.heard && t.exp == if ExpectedAtFront(s) < s.front + k then s.front + k else ExpectedAtFront(s))
  }

  lemma {:induction false} NArrive(s: Ring, n: nat, k: nat)
    requires Inv(s) && s.data == [] && s.acks == [] && k <= n
    ensures Arriving(s, Again(s.(data := Written(s.front, n, s.front)), Full, DataArrives, k), n, k)
    decreases k
  {
    if k != 0 {
      NArrive(s, n, k - 1);
      var written := s.(data := Written(s.front, n, s.front));
      OneArrives(s, Again(written, Full, DataArrives, k - 1), n, k - 1);
    }
  }

  lemma OneArrives(s: Ring, t: Ring, n: nat, k: nat)
    requires Inv(s) && s.data == [] && s.acks == [] && Arriving(s, t, n, k) && k < n
    ensures Arriving(s, Step(t, Full, DataArrives), n, k + 1)
  {
    assert Written(s.front + k, n - k, s.front)[1..] == Written(s.front + k + 1, n - (k + 1), s.front);
    assert s.front <= ExpectedAtFront(s);
  }

  /** k acknowledgements of consecutive messages from the front on. */
  lemma {:induction false} NAcknowledge(s: Ring, k: nat)
    requires k <= |s.acks| && s.front + |s.acks| <= s.next
    requires forall i :: 0 <= i < |s.acks| ==> s.acks[i].index == s.front + i
    ensures Again(s, Full, AckArrives, k) == s.(acks := s.acks[k..], front := s.front + k)
    decreases k
  {
    if k == 0 {
      assert s.acks[0..] == s.acks;
    } else {
      NAcknowledge(s, k - 1);
      assert s.acks[k - 1..][1..] == s.acks[k..];
    }
  }

  /** n messages discarded, the receiver having been handed all up to there. */
  function Moved(s: Ring, n: nat): Ring {
    if n == 0 then s else s.(front := s.front + n, heard := true, exp := s.front + n)
  }

  lemma RoundMoves(s: Ring)
    requires Inv(s) && s.data == [] && s.acks == []
    ensures LosslessRound(s, Full) == Moved(s, Min(WINDOW, s.next - s.front))
  {
    var n := Min(WINDOW, s.next - s.front);
    var written := s.(data := Written(s.front, n, s.front));
    assert s.data + Written(s.front, n, s.front) == Written(s.front, n, s.front);
    assert Step(s, Full, Timeout) == written;
    NArrive(s, n, n);
    NAcknowledge(Again(written, Full, DataArrives, n), n);
  }

  lemma MovedTwice(s: Ring, m: nat, n: nat)
    requires Inv(s) && s.data == [] && s.acks == [] && m + n <= s.next - s.front
    ensures Moved(Moved(s, m), n) == Moved(s, m + n)
    ensures Inv(Moved(s, m)) && Moved(s, m).data == [] && Moved(s, m).acks == []
  {
  }

  lemma RoundAfter(s: Ring, t: Ring, before: nat)
    requires Inv(s) && s.data == [] && s.acks == [] && before <= s.next - s.front && t == Moved(s, before)
    ensures LosslessRound(t, Full) == Moved(s, before + Min(WINDOW, s.next - s.front - before))
  {
    MovedTwice(s, before, Min(WINDOW, s.next - s.front - before));
    RoundMoves(t);
  }

  lemma {:induction false} RoundsMove(s: Ring, r: nat)
    requires Inv(s) && s.data == [] && s.acks == []
    ensures LosslessRounds(s, Full, r) == Moved(s, Min(WINDOW * r, s.next - s.front))
  {
    if r != 0 {
      RoundsMove(s, r - 1);
      RoundAfter(s, LosslessRounds(s, Full, r - 1), Min(WINDOW * (r - 1), s.next - s.front));
      OneRoundMore(s.next - s.front, r - 1);
    }
  }

  lemma OneRoundMore(queued: nat, r: nat)
    ensures var before := Min(WINDOW * r, queued);
      before <= queued && before + Min(WINDOW, queued - before) == Min(WINDOW * (r + 1), queued)
  {
  }

  lemma {:induction false} ShortAgain(s: Ring, a: Action, n: nat)
    requires Inv(s)
    ensures Again(s, Short, a, n) == Again(s, Full, a, n) && Inv(Again(s, Full, a, n))
  {
    if n != 0 {
      ShortAgain(s, a, n - 1);
      StepAgrees(Again(s, Full, a, n - 1), a);
      StepKeepsInv(Again(s, Full, a, n - 1), a);
    }
  }

  lemma {:induction false} ShortRounds(s: Ring, r: nat)
    requires Inv(s)
    ensures LosslessRounds(s, Short, r) == LosslessRounds(s, Full, r) && Inv(LosslessRounds(s, Full, r))
  {
    if r != 0 {
      ShortRounds(s, r - 1);
      ShortRound(LosslessRounds(s, Full, r - 1));
    }
  }

  lemma ShortRound(s: Ring)
    requires Inv(s)
    ensures LosslessRound(s, Short) == LosslessRound(s, Full) && Inv(LosslessRound(s, Full))
  {
    var n := Min(WINDOW, s.next - s.front);
    StepAgrees(s, Timeout);
    StepKeepsInv(s, Timeout);
    ShortAgain(Step(s, Full, Timeout), DataArrives, n);
    ShortAgain(Again(Step(s, Full, Timeout), Full, DataArrives, n), AckArrives, n);
  }

  lemma ShortInv(base: nat, actions: seq<Action>)
    ensures Inv(Exec(Start(base), Short, actions))
  {
    ShortNumbersRefineIndices(base, actions);
    InvAlways(base, actions);
  }

  lemma RoundsMoveShort(s: Ring, r: nat)
    requires Inv(s) && s.data == [] && s.acks == []
    ensures LosslessRounds(s, Short, r) == Moved(s, Min(WINDOW * r, s.next - s.front))
  {
    ShortRounds(s, r);
    RoundsMove(s, r);
  }

  /** Wherever a run has led, however often the numbers have wrapped: with nothing under way, r
      rounds without loss take min(16 r, queue) messages off the queue, and the receiver has
      been handed everything up to the front. So they empty the queue iff r is at least its
      length over sixteen, rounded up. */
  lemma RoundsMoveForEver(base: nat, actions: seq<Action>, s: Ring, r: nat)
    requires s == Exec(Start(base), Short, actions) && s.data == [] && s.acks == []
    ensures s.front <= s.next && LosslessRounds(s, Short, r) == Moved(s, Min(WINDOW * r, s.next - s.front))
  {
    ShortInv(base, actions);
    RoundsMoveShort(s, r);
  }
}
