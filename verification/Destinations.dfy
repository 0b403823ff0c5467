/** One sequence counter per host, whatever the destination (miptp_utils.c, forward_to_mip):
    exactly which mixtures of destinations get everything through. */
module Destinations {
  import opened Framing
  import opened SendQueue
  import opened Transport
  import opened Independence

  /** Each segment carries the number after the one before. */
  predicate Consecutive(arrivals: seq<Arrival>) {
    forall i :: 0 < i < |arrivals| ==> arrivals[i].seqno == NextSeq(arrivals[i - 1].seqno)
  }

  predicate AllFrom(arrivals: seq<Arrival>, mip: byte, port: byte) {
    forall i :: 0 <= i < |arrivals| ==> arrivals[i].mip == mip && arrivals[i].port == port
  }

  /** What a receiver that heard nothing but the given segments of one sender has done. */
  predicate HeardAll(arrivals: seq<Arrival>, h: Heard, mip: byte, port: byte) {
    && (h.handed == arrivals <==> Consecutive(arrivals))
    && |h.handed| <= |arrivals| && |h.links| <= 1
    && (if arrivals == [] then h.links == [] else Expected(h.links, mip, port).Some?)
    && (arrivals != [] && Consecutive(arrivals) ==>
      Expected(h.links, mip, port) == Some(NextSeq(arrivals[|arrivals| - 1].seqno)))
  }

  /** A receiver hands over everything that arrives from a sender iff it arrives under
      consecutive numbers. */
  lemma {:induction false} AcceptsAllIffConsecutive(arrivals: seq<Arrival>, mip: byte, port: byte)
    requires AllFrom(arrivals, mip, port)
    ensures Hear(arrivals).handed == arrivals <==> Consecutive(arrivals)
    ensures HeardAll(arrivals, Hear(arrivals), mip, port)
  {
    if arrivals != [] {
      var prefix, a := arrivals[..|arrivals| - 1], arrivals[|arrivals| - 1];
      assert arrivals == prefix + [a];
      AcceptsAllIffConsecutive(prefix, mip, port);
      HeardOneMore(prefix, a, Hear(prefix));
    }
  }

  lemma HeardOneMore(prefix: seq<Arrival>, a: Arrival, h: Heard)
    requires HeardAll(prefix, h, a.mip, a.port)
    ensures HeardAll(prefix + [a], HearNext(h, a), a.mip, a.port)
  {
    HearOneMore(h, a);
    ConsecutiveOneMore(prefix, a);
    var t := HearNext(h, a);
    if t.handed == prefix + [a] {
      assert |t.handed| == |prefix| + 1;
      assert t.handed == h.handed + [a];
      assert h.handed == t.handed[..|prefix|] == prefix;
    }
  }

  lemma HearOneMore(h: Heard, a: Arrival)
    requires |h.links| <= 1
    requires Expected(h.links, a.mip, a.port) == None ==> h.links == []
    ensures var t := HearNext(h, a);
      && t.handed == (if Expected(h.links, a.mip, a.port) in {None, Some(a.seqno)} then h.handed + [a] else h.handed)
      && |t.links| <= 1
      && Expected(t.links, a.mip, a.port) ==
         if Expected(h.links, a.mip, a.port) in {None, Some(a.seqno)} then Some(NextSeq(a.seqno))
         else Expected(h.links, a.mip, a.port)
  {
    ReceiveExact(h.links, a.mip, a.port, a.seqno);
  }

  lemma ConsecutiveOneMore(prefix: seq<Arrival>, a: Arrival)
    ensures Consecutive(prefix + [a]) <==>
      Consecutive(prefix) && (prefix != [] ==> a.seqno == NextSeq(prefix[|prefix| - 1].seqno))
  {
    var all := prefix + [a];
    assert forall i :: 0 <= i < |prefix| ==> all[i] == prefix[i];
    if Consecutive(all) && prefix != [] {
      assert all[|prefix|].seqno == NextSeq(all[|prefix| - 1].seqno);
    }
  }

  /** A message that an application writes to the daemon, with what the daemon's buffer held. */
  datatype Submission = Submission(app: Bytes, stale: (byte, byte))

  /** The address and port each message is for. */
  function Dests(subs: seq<Submission>): seq<(byte, byte)> {
    seq(|subs|, i requires 0 <= i < |subs| => HeaderOf(subs[i].app, subs[i].stale))
  }

  function ForwardAll(h: HostState, subs: seq<Submission>): HostState {
    if subs == [] then h
    else
      var n := |subs| - 1;
      Forward(ForwardAll(h, subs[..n]), subs[n].app, subs[n].stale)
  }

  /** What the application at d hears of one segment, if nothing is lost. */
  function HeardOf(item: Queued, d: (byte, byte), mip: byte): seq<Arrival> {
    if 4 <= |item.frame| && (item.frame[0], item.frame[3]) == d && ArrivesAs(item) == AsData
    then [Arrival(mip, item.frame[2], item.seqno, Upward(Carry(item.frame, mip)))] else []
  }

  function HeardAt(items: seq<Queued>, d: (byte, byte), mip: byte): seq<Arrival> {
    if items == [] then []
    else HeardAt(items[..|items| - 1], d, mip) + HeardOf(items[|items| - 1], d, mip)
  }

  /** A data segment for dest from port, under the given number. */
  predicate Segmented(item: Queued, dest: (byte, byte), seqno: nat, port: byte) {
    && 4 <= |item.frame| && (item.frame[0], item.frame[3]) == dest && item.frame[2] == port
    && item.seqno == seqno && ArrivesAs(item) == AsData
  }

  predicate Numbered(items: seq<Queued>, dests: seq<(byte, byte)>, base: nat, port: byte) {
    && |items| == |dests|
    && forall i: nat :: i < |items| ==> Segmented(items[i], dests[i], base + i, port)
  }

  lemma PackedIsSegmented(h: HostState, sub: Submission)
    requires h.seqSend < SEQ_MODULUS && DataLength(|sub.app|)
    ensures Segmented(Packed(h, sub.app, sub.stale), HeaderOf(sub.app, sub.stale), h.seqSend, h.port)
  {
    PackedFields(h, sub.app, sub.stale);
    ArrivesAsDataExactly(h, sub.app, sub.stale);
  }

  lemma NumberedOneMore(items: seq<Queued>, dests: seq<(byte, byte)>, item: Queued, d: (byte, byte),
                        base: nat, port: byte)
    requires Numbered(items, dests, base, port) && Segmented(item, d, base + |items|, port)
    ensures Numbered(items + [item], dests + [d], base, port)
  {
  }

  /** forward_to_mip numbers all messages of an application from one counter. */
  lemma {:induction false} ForwardNumbers(h: HostState, subs: seq<Submission>)
    requires h.queue == [] && h.seqSend + |subs| <= SEQ_MODULUS
    requires forall i :: 0 <= i < |subs| ==> DataLength(|subs[i].app|)
    ensures var t := ForwardAll(h, subs);
      t.port == h.port && t.seqSend == h.seqSend + |subs| && Numbered(t.queue, Dests(subs), h.seqSend, h.port)
  {
    if subs != [] {
      var n := |subs| - 1;
      var t := ForwardAll(h, subs[..n]);
      ForwardNumbers(h, subs[..n]);
      PackedIsSegmented(t, subs[n]);
      var item := Packed(t, subs[n].app, subs[n].stale);
      NumberedOneMore(t.queue, Dests(subs[..n]), item, Dests(subs)[n], h.seqSend, h.port);
      assert Dests(subs) == Dests(subs[..n]) + [Dests(subs)[n]];
    }
  }

  /** The messages for d are sent in one piece, with none for others between. */
  predicate OnePiece(dests: seq<(byte, byte)>, d: (byte, byte)) {
    forall i, j, k :: 0 <= i < j < k < |dests| && dests[i] == d && dests[k] == d ==> dests[j] == d
  }

  lemma NumberedPrefix(items: seq<Queued>, dests: seq<(byte, byte)>, base: nat, port: byte)
    requires Numbered(items, dests, base, port) && items != []
    ensures Numbered(items[..|items| - 1], dests[..|items| - 1], base, port)
  {
  }

  lemma {:induction false} HeardAtFacts(items: seq<Queued>, dests: seq<(byte, byte)>, d: (byte, byte), base: nat,
                                        mip: byte, port: byte)
    requires Numbered(items, dests, base, port)
    ensures var heard := HeardAt(items, d, mip);
      && AllFrom(heard, mip, port)
      && (heard == [] <==> d !in dests)
      && (heard != [] ==>
        var last := heard[|heard| - 1].seqno;
        last < base + |dests| && (last == base + |dests| - 1 <==> dests[|dests| - 1] == d))
  {
    if dests != [] {
      var n := |dests| - 1;
      assert dests == dests[..n] + [dests[n]];
      assert Segmented(items[n], dests[n], base + n, port);
      NumberedPrefix(items, dests, base, port);
      HeardAtFacts(items[..n], dests[..n], d, base, mip, port);
    }
  }

  lemma {:induction false} ConsecutiveIffOnePiece(items: seq<Queued>, dests: seq<(byte, byte)>, d: (byte, byte),
                                                  base: nat, mip: byte, port: byte)
    requires Numbered(items, dests, base, port) && base + |dests| <= SEQ_MODULUS
    ensures Consecutive(HeardAt(items, d, mip)) <==> OnePiece(dests, d)
  {
    if dests != [] {
      var n := |dests| - 1;
      NumberedPrefix(items, dests, base, port);
      ConsecutiveIffOnePiece(items[..n], dests[..n], d, base, mip, port);
      OneMoreHeard(items, dests, d, base, mip, port);
      OnePieceOneMore(dests[..n], dests[n], d);
      assert dests == dests[..n] + [dests[n]];
    }
  }

  /** The last message continues the consecutive numbers iff nothing for d came before it, or
      the message just before was for d. */
  lemma OneMoreHeard(items: seq<Queued>, dests: seq<(byte, byte)>, d: (byte, byte), base: nat, mip: byte, port: byte)
    requires Numbered(items, dests, base, port) && base + |dests| <= SEQ_MODULUS && dests != []
    ensures var n := |dests| - 1;
      Consecutive(HeardAt(items, d, mip)) <==>
        Consecutive(HeardAt(items[..n], d, mip)) && (dests[n] == d && d in dests[..n] ==> dests[n - 1] == d)
  {
    var n := |dests| - 1;
    var heard := HeardAt(items[..n], d, mip);
    assert Segmented(items[n], dests[n], base + n, port);
    NumberedPrefix(items, dests, base, port);
    HeardAtFacts(items[..n], dests[..n], d, base, mip, port);
    if dests[n] == d {
      ConsecutiveOneMore(heard, HeardOf(items[n], d, mip)[0]);
    } else {
      assert heard + [] == heard;
    }
  }

  lemma OnePieceOneMore(prefix: seq<(byte, byte)>, x: (byte, byte), d: (byte, byte))
    ensures OnePiece(prefix + [x], d) <==>
      OnePiece(prefix, d) && (x == d && d in prefix ==> prefix[|prefix| - 1] == d)
  {
    var all := prefix + [x];
    assert forall i :: 0 <= i < |prefix| ==> all[i] == prefix[i];
    if OnePiece(all, d) && x == d && d in prefix {
      var i :| 0 <= i < |prefix| && prefix[i] == d;
      if i < |prefix| - 1 {
        assert all[i] == d && all[|prefix|] == d;
        assert all[|prefix| - 1] == d;
      }
    }
    if OnePiece(prefix, d) && x == d && d in prefix && prefix[|prefix| - 1] == d {
      forall i, j, k | 0 <= i < j < k < |all| && all[i] == d && all[k] == d
        ensures all[j] == d
      {
        if k == |prefix| && j < |prefix| - 1 {
          assert prefix[i] == d && prefix[|prefix| - 1] == d && prefix[j] == d;
        }
      }
    }
  }

  /** Without any loss, a destination is handed everything that an application sends to it
      exactly if it is sent in one piece; otherwise what follows a gap is acknowledged and
      refused. */
  lemma DestinationServedExactly(h: HostState, subs: seq<Submission>, d: (byte, byte), mip: byte)
    requires h.queue == [] && h.seqSend + |subs| <= SEQ_MODULUS
    requires forall i :: 0 <= i < |subs| ==> DataLength(|subs[i].app|)
    ensures var heard := HeardAt(ForwardAll(h, subs).queue, d, mip);
      && (heard == [] <==> d !in Dests(subs))
      && (Hear(heard).handed == heard <==> OnePiece(Dests(subs), d))
  {
    var items, dests := ForwardAll(h, subs).queue, Dests(subs);
    ForwardNumbers(h, subs);
    HeardAtFacts(items, dests, d, h.seqSend, mip, h.port);
    ConsecutiveIffOnePiece(items, dests, d, h.seqSend, mip, h.port);
    AcceptsAllIffConsecutive(HeardAt(items, d, mip), mip, h.port);
  }
}
