/** Senders that share a receiving application do not disturb one another
    (miptp_utils.c, seq_exp and read_message). */
module Independence {
  import opened Framing
  import opened Transport

  datatype Arrival = Arrival(mip: byte, port: byte, seqno: nat, payload: Bytes)

  datatype Heard = Heard(links: seq<Link>, handed: seq<Arrival>)

  function HearNext(h: Heard, a: Arrival): Heard {
    match Receive(h.links, a.mip, a.port, a.seqno)
    case Accepted(links) => Heard(links, h.handed + [a])
    case _ => h
  }

  /** The link table and the deliveries after data segments arrived in the given order. */
  function Hear(arrivals: seq<Arrival>): Heard {
    if arrivals == [] then Heard([], [])
    else HearNext(Hear(arrivals[..|arrivals| - 1]), arrivals[|arrivals| - 1])
  }

  function From(arrivals: seq<Arrival>, mip: byte, port: byte): seq<Arrival> {
    if arrivals == [] then []
    else
      var before := From(arrivals[..|arrivals| - 1], mip, port);
      var a := arrivals[|arrivals| - 1];
      if a.mip == mip && a.port == port then before + [a] else before
  }

  function Senders(arrivals: seq<Arrival>): set<(byte, byte)> {
    set a | a in arrivals :: (a.mip, a.port)
  }

  lemma {:induction false} SubsetSize<T>(a: set<T>, b: set<T>)
    requires a <= b
    ensures |a| <= |b|
  {
    if x :| x in a {
      SubsetSize(a - {x}, b - {x});
    }
  }

  /** A link table that holds exactly one link for each of the given senders. */
  ghost predicate Tracks(links: seq<Link>, senders: set<(byte, byte)>) {
    && |links| == |senders|
    && (forall m: byte, p: byte :: Expected(links, m, p).Some? <==> (m, p) in senders)
    && (forall i, j :: 0 <= i < j < |links| ==> links[i].mip != links[j].mip || links[i].port != links[j].port)
  }

  lemma ReceiveTracks(links: seq<Link>, senders: set<(byte, byte)>, mip: byte, port: byte, seqno: nat)
    requires Tracks(links, senders) && |senders + {(mip, port)}| <= MAX_LINKS
    ensures var v := Receive(links, mip, port, seqno);
      !v.TableFull? && Tracks(if v.Accepted? then v.links else links, senders + {(mip, port)})
  {
    ReceiveExact(links, mip, port, seqno);
    IndexOfLinkFinds(links, mip, port);
    if (mip, port) in senders {
      assert senders + {(mip, port)} == senders;
    }
  }

  /** Each sender has exactly one link, and only senders have one. */
  lemma {:induction false} OneLinkPerSender(arrivals: seq<Arrival>)
    requires |Senders(arrivals)| <= MAX_LINKS
    ensures Tracks(Hear(arrivals).links, Senders(arrivals))
  {
    if arrivals == [] {
      assert Senders(arrivals) == {};
    } else {
      var a, prefix := arrivals[|arrivals| - 1], arrivals[..|arrivals| - 1];
      assert arrivals == prefix + [a];
      assert Senders(arrivals) == Senders(prefix) + {(a.mip, a.port)};
      SubsetSize(Senders(prefix), Senders(arrivals));
      OneLinkPerSender(prefix);
      ReceiveTracks(Hear(prefix).links, Senders(prefix), a.mip, a.port, a.seqno);
    }
  }

  /** The sender (mip, port) stands in h as in alone, where nobody else was heard. */
  ghost predicate Agrees(h: Heard, alone: Heard, mip: byte, port: byte) {
    && Expected(h.links, mip, port) == Expected(alone.links, mip, port)
    && From(h.handed, mip, port) == alone.handed
    && |alone.links| <= 1
    && (alone.links == [] || Expected(alone.links, mip, port).Some?)
  }

  lemma FromOneMore(prefix: seq<Arrival>, a: Arrival, mip: byte, port: byte)
    ensures From(prefix + [a], mip, port) ==
      From(prefix, mip, port) + if a.mip == mip && a.port == port then [a] else []
  {
    assert (prefix + [a])[..|prefix|] == prefix;
  }

  lemma HearNextAgrees(h: Heard, alone: Heard, a: Arrival, mip: byte, port: byte)
    requires Agrees(h, alone, mip, port)
    requires !Receive(h.links, a.mip, a.port, a.seqno).TableFull?
    ensures Agrees(HearNext(h, a), if a.mip == mip && a.port == port then HearNext(alone, a) else alone, mip, port)
  {
    ReceiveExact(h.links, a.mip, a.port, a.seqno);
    ReceiveExact(alone.links, a.mip, a.port, a.seqno);
    FromOneMore(h.handed, a, mip, port);
  }

  /** With at most MAX_LINKS senders in all, what one of them gets through, and the number
      expected from it, are the same as if it were the only one. */
  lemma {:induction false} SendersAreIndependent(arrivals: seq<Arrival>, mip: byte, port: byte)
    requires |Senders(arrivals)| <= MAX_LINKS
    ensures var alone := Hear(From(arrivals, mip, port));
      && Expected(Hear(arrivals).links, mip, port) == Expected(alone.links, mip, port)
      && From(Hear(arrivals).handed, mip, port) == alone.handed
  {
    AgreesAlways(arrivals, mip, port);
  }

  lemma {:induction false} AgreesAlways(arrivals: seq<Arrival>, mip: byte, port: byte)
    requires |Senders(arrivals)| <= MAX_LINKS
    ensures Agrees(Hear(arrivals), Hear(From(arrivals, mip, port)), mip, port)
  {
    if arrivals != [] {
      var a, prefix := arrivals[|arrivals| - 1], arrivals[..|arrivals| - 1];
      assert arrivals == prefix + [a];
      assert Senders(arrivals) == Senders(prefix) + {(a.mip, a.port)};
      SubsetSize(Senders(prefix), Senders(arrivals));
      AgreesAlways(prefix, mip, port);
      OneLinkPerSender(prefix);
      ReceiveTracks(Hear(prefix).links, Senders(prefix), a.mip, a.port, a.seqno);
      var mine := From(prefix, mip, port);
      HearNextAgrees(Hear(prefix), Hear(mine), a, mip, port);
      assert (mine + [a])[..|mine|] == mine;
    }
  }
}
