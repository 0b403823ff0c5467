/** A file from end to end: chunked by file_transfer.c, carried by the transport and the MIP
    daemons, and put together by file_server.c among the traffic of other senders. */
module EndToEnd {
  import opened Framing
  import opened SendQueue
  import opened Transport
  import opened GoBackN
  import FileTransfer
  import Independence
  import Limits
  import Progress

  // ---- the server among several senders ----

  function From(messages: seq<Bytes>, mip: byte, port: byte): (mine: seq<Bytes>)
    requires FileTransfer.WellFormed(messages)
    ensures FileTransfer.WellFormed(mine)
  {
    if messages == [] then []
    else
      var before, m := From(messages[..|messages| - 1], mip, port), messages[|messages| - 1];
      if m[0] == mip && m[1] == port then before + [m] else before
  }

  function LinkOf(links: seq<FileTransfer.Link>, mip: byte, port: byte): Option<FileTransfer.Link> {
    FileTransfer.IndexOfLinkFinds(links, mip, port);
    var i := FileTransfer.IndexOfLink(links, mip, port);
    if i == -1 then None else Some(links[i])
  }

  function Senders(messages: seq<Bytes>): set<(byte, byte)>
    requires FileTransfer.WellFormed(messages)
  {
    set i: nat | i < |messages| :: (messages[i][0], messages[i][1])
  }

  /** A message changes the link of its own sender and no other. */
  lemma ServeExact(links: seq<FileTransfer.Link>, m: Bytes, mip: byte, port: byte)
    requires 2 <= |m| && !FileTransfer.Overflows(links, m)
    ensures LinkOf(FileTransfer.Serve(links, m), mip, port) ==
      if m[0] != mip || m[1] != port then LinkOf(links, mip, port)
      else match LinkOf(links, mip, port)
        case None => Some(FileTransfer.Link(port, mip, FileTransfer.Announced(m), []))
        case Some(l) => Some(FileTransfer.Append(l, m))
  {
    var after := FileTransfer.Serve(links, m);
    FileTransfer.IndexOfLinkFinds(links, m[0], m[1]);
    FileTransfer.IndexOfLinkFinds(links, mip, port);
    FileTransfer.IndexOfLinkFinds(after, mip, port);
    var i, j := FileTransfer.IndexOfLink(links, m[0], m[1]), FileTransfer.IndexOfLink(links, mip, port);
    if m[0] == mip && m[1] == port && i == -1 {
      FileTransfer.IndexOfLinkIs(after, mip, port, |links|);
    } else {
      FileTransfer.IndexOfLinkIs(after, mip, port, j);
    }
  }

  /** A link table that holds one link for each of the given senders. */
  ghost predicate Tracks(links: seq<FileTransfer.Link>, senders: set<(byte, byte)>) {
    && |links| == |senders|
    && (forall m: byte, p: byte :: LinkOf(links, m, p).Some? <==> (m, p) in senders)
  }

  lemma ServeTracks(links: seq<FileTransfer.Link>, senders: set<(byte, byte)>, m: Bytes)
    requires 2 <= |m| && Tracks(links, senders) && |senders + {(m[0], m[1])}| <= MAX_LINKS
    ensures !FileTransfer.Overflows(links, m)
    ensures Tracks(FileTransfer.Serve(links, m), senders + {(m[0], m[1])})
  {
    FileTransfer.IndexOfLinkFinds(links, m[0], m[1]);
    assert LinkOf(links, m[0], m[1]).Some? <==> (m[0], m[1]) in senders;
    if (m[0], m[1]) in senders {
      assert senders + {(m[0], m[1])} == senders;
    }
    forall mip: byte, port: byte
      ensures LinkOf(FileTransfer.Serve(links, m), mip, port).Some? <==> (mip, port) in senders + {(m[0], m[1])}
    {
      ServeExact(links, m, mip, port);
    }
  }

  /** With at most thirty senders the server's table never overflows. */
  lemma {:induction false} OneLinkPerSender(messages: seq<Bytes>)
    requires FileTransfer.WellFormed(messages) && |Senders(messages)| <= MAX_LINKS
    ensures Tracks(FileTransfer.ServeAll(messages), Senders(messages))
    ensures messages != [] ==>
      var n := |messages| - 1;
      && |Senders(messages[..n])| <= MAX_LINKS
      && !FileTransfer.Overflows(FileTransfer.ServeAll(messages[..n]), messages[n])
  {
    if messages == [] {
      assert Senders(messages) == {};
    } else {
      var n := |messages| - 1;
      var prefix, m := messages[..n], messages[n];
      assert Senders(messages) == Senders(prefix) + {(m[0], m[1])};
      Independence.SubsetSize(Senders(prefix), Senders(messages));
      OneLinkPerSender(prefix);
      ServeTracks(FileTransfer.ServeAll(prefix), Senders(prefix), m);
    }
  }

  lemma {:induction false} OneSender(messages: seq<Bytes>, mip: byte, port: byte)
    requires FileTransfer.WellFormed(messages)
    ensures Senders(From(messages, mip, port)) <= {(mip, port)}
  {
    if messages != [] {
      OneSender(messages[..|messages| - 1], mip, port);
      var mine := From(messages, mip, port);
      var before := From(messages[..|messages| - 1], mip, port);
      forall i: nat | i < |mine|
        ensures (mine[i][0], mine[i][1]) == (mip, port)
      {
        assert i < |before| ==> (before[i][0], before[i][1]) in Senders(before);
      }
    }
  }

  /** On any interleaving of at most thirty senders, each file is as if its sender were alone. */
  lemma {:induction false} FilesAreIndependent(messages: seq<Bytes>, mip: byte, port: byte)
    requires FileTransfer.WellFormed(messages) && |Senders(messages)| <= MAX_LINKS
    ensures LinkOf(FileTransfer.ServeAll(messages), mip, port) ==
      LinkOf(FileTransfer.ServeAll(From(messages, mip, port)), mip, port)
  {
    if messages != [] {
      var prefix, m := messages[..|messages| - 1], messages[|messages| - 1];
      OneLinkPerSender(messages);
      FilesAreIndependent(prefix, mip, port);
      ServeExact(FileTransfer.ServeAll(prefix), m, mip, port);
      if m[0] == mip && m[1] == port {
        var mine := From(prefix, mip, port);
        assert (mine + [m])[..|mine|] == mine;
        OneSender(messages, mip, port);
        Independence.SubsetSize(Senders(mine + [m]), {(mip, port)});
        OneLinkPerSender(mine + [m]);
        ServeExact(FileTransfer.ServeAll(mine), m, mip, port);
      }
    }
  }

  /** What the application of the receiver is handed for a message of this sender. */
  function HandedOne(item: Queued, mip: byte): Bytes {
    if |item.frame| < 2 then [] else Upward(Carry(item.frame, mip))
  }

  function Handed(items: seq<Queued>, mip: byte): seq<Bytes> {
    seq(|items|, i requires 0 <= i < |items| => HandedOne(items[i], mip))
  }

  /** The queued items are the file's messages, numbered from base. */
  predicate CarriesFile(items: seq<Queued>, base: nat, port: byte, file: Bytes, dstMip: byte, dstPort: byte) {
    var messages := FileTransfer.Messages(file, dstMip, dstPort);
    && |items| == |messages|
    && forall i :: 0 <= i < |items| ==> items[i].frame == DataFrame(messages[i], base + i, port)
  }

  lemma HandedIsThrough(item: Queued, app: Bytes, seqno: nat, port: byte, mip: byte)
    requires 2 <= |app| && item.frame == DataFrame(app, seqno, port)
    ensures HandedOne(item, mip) == FileTransfer.Through(app, seqno, port, mip)
  {
  }

  /** The chunk messages as the server gets them. */
  lemma ChunkArrives(items: seq<Queued>, base: nat, mip: byte, port: byte,
                     file: Bytes, dstMip: byte, dstPort: byte, i: nat)
    requires CarriesFile(items, base, port, file, dstMip, dstPort) && i < |FileTransfer.Chunks(file)|
    ensures i + 1 < |items|
    ensures HandedOne(items[i + 1], mip) == [mip, port] + FileTransfer.Damaged(FileTransfer.Chunks(file)[i])
  {
    var chunk := FileTransfer.Chunks(file)[i];
    var app := FileTransfer.ChunkMessage(chunk, dstMip, dstPort);
    FileTransfer.ChunkSizes(file);
    assert FileTransfer.Messages(file, dstMip, dstPort)[i + 1] == app;
    HandedIsThrough(items[i + 1], app, base + i + 1, port, mip);
    FileTransfer.ChunkThrough(chunk, dstMip, dstPort, base + i + 1, port, mip);
  }

  /** The server's link after the announced size and the given parts arrived. */
  ghost predicate Served(mine: seq<Bytes>, mip: byte, port: byte, size: nat, parts: seq<Bytes>) {
    && FileTransfer.WellFormed(mine)
    && LinkOf(FileTransfer.ServeAll(mine), mip, port) ==
         Some(FileTransfer.Received(FileTransfer.Link(port, mip, size, []), parts))
  }

  lemma ServedSize(m: Bytes, mip: byte, port: byte)
    requires 2 <= |m| && m[0] == mip && m[1] == port
    ensures Served([m], mip, port, FileTransfer.Announced(m), [])
  {
    ServeExact([], m, mip, port);
  }

  lemma ServedPart(mine: seq<Bytes>, mip: byte, port: byte, size: nat, parts: seq<Bytes>, part: Bytes)
    requires Served(mine, mip, port, size, parts)
    ensures Served(mine + [[mip, port] + part], mip, port, size, parts + [part])
  {
    var m := [mip, port] + part;
    assert (mine + [m])[..|mine|] == mine;
    assert (parts + [part])[..|parts|] == parts;
    FileTransfer.IndexOfLinkFinds(FileTransfer.ServeAll(mine), mip, port);
    ServeExact(FileTransfer.ServeAll(mine), m, mip, port);
    FileTransfer.ReceivedContent(FileTransfer.Link(port, mip, size, []), parts);
  }

  /** The messages that the server must be handed: the size, and then the parts. */
  predicate HandsOver(handed: seq<Bytes>, mip: byte, port: byte, size: nat, parts: seq<Bytes>) {
    && |handed| == |parts| + 1
    && 2 <= |handed[0]| && handed[0][0] == mip && handed[0][1] == port && FileTransfer.Announced(handed[0]) == size
    && forall i: nat :: i < |parts| ==> handed[i + 1] == [mip, port] + parts[i]
  }

  lemma SizeArrives(items: seq<Queued>, base: nat, mip: byte, port: byte, file: Bytes, dstMip: byte, dstPort: byte)
    requires |file| < FileTransfer.WORD && CarriesFile(items, base, port, file, dstMip, dstPort)
    ensures var m := HandedOne(items[0], mip);
      2 <= |m| && m[0] == mip && m[1] == port && FileTransfer.Announced(m) == |file|
  {
    FileTransfer.SizeThrough(file, dstMip, dstPort, base, port, mip);
    assert FileTransfer.Messages(file, dstMip, dstPort)[0] == FileTransfer.SizeMessage(file, dstMip, dstPort);
  }

  lemma PartArrives(items: seq<Queued>, base: nat, mip: byte, port: byte,
                    file: Bytes, dstMip: byte, dstPort: byte, i: nat)
    requires CarriesFile(items, base, port, file, dstMip, dstPort) && i < |FileTransfer.Chunks(file)|
    ensures |Handed(items, mip)| == |FileTransfer.Chunks(file)| + 1
    ensures Handed(items, mip)[i + 1] == [mip, port] + FileTransfer.DamagedAll(FileTransfer.Chunks(file))[i]
  {
    ChunkArrives(items, base, mip, port, file, dstMip, dstPort, i);
  }

  lemma CarriesAndHandsOver(items: seq<Queued>, base: nat, mip: byte, port: byte,
                            file: Bytes, dstMip: byte, dstPort: byte)
    requires |file| < FileTransfer.WORD && CarriesFile(items, base, port, file, dstMip, dstPort)
    ensures HandsOver(Handed(items, mip), mip, port, |file|, FileTransfer.DamagedAll(FileTransfer.Chunks(file)))
  {
    var handed, parts := Handed(items, mip), FileTransfer.DamagedAll(FileTransfer.Chunks(file));
    SizeArrives(items, base, mip, port, file, dstMip, dstPort);
    forall i: nat | i < |parts|
      ensures handed[i + 1] == [mip, port] + parts[i]
    {
      PartArrives(items, base, mip, port, file, dstMip, dstPort, i);
    }
  }

  lemma {:induction false} ServedAlone(handed: seq<Bytes>, mip: byte, port: byte, size: nat, parts: seq<Bytes>, k: nat)
    requires HandsOver(handed, mip, port, size, parts) && k < |handed|
    ensures Served(handed[..k + 1], mip, port, size, parts[..k])
  {
    if k == 0 {
      assert handed[..1] == [handed[0]];
      ServedSize(handed[0], mip, port);
    } else {
      ServedAlone(handed, mip, port, size, parts, k - 1);
      assert handed[..k + 1] == handed[..k] + [handed[k]];
      assert parts[..k] == parts[..k - 1] + [parts[k - 1]];
      ServedPart(handed[..k], mip, port, size, parts[..k - 1], parts[k - 1]);
    }
  }

  /** What the server holds of a file, given the messages of it that were handed over. */
  ghost predicate FileState(l: FileTransfer.Link, file: Bytes, handed: nat)
    requires 1 <= handed <= |FileTransfer.Chunks(file)| + 1
  {
    var all := handed == |FileTransfer.Chunks(file)| + 1;
    && (all ==> l.content == FileTransfer.Damaged(file) && (l.content == file <==> |file| % 2 == 0))
    && (handed > 1 ==> (l.left == 0 <==> all && FileTransfer.FullCount(file)))
  }

  /** Of the messages f to n-1, the server takes the first for the size and the others for
      parts. */
  lemma SliceHandsOver(items: seq<Queued>, base: nat, mip: byte, port: byte,
                       file: Bytes, dstMip: byte, dstPort: byte, f: nat, n: nat)
    requires |file| < FileTransfer.WORD && CarriesFile(items, base, port, file, dstMip, dstPort) && f < n <= |items|
    ensures var mine := Handed(items[f..n], mip);
      && 2 <= |mine[0]|
      && HandsOver(mine, mip, port, FileTransfer.Announced(mine[0]),
                   FileTransfer.DamagedAll(FileTransfer.Chunks(file))[f..n - 1])
      && (f == 0 ==> FileTransfer.Announced(mine[0]) == |file|)
  {
    var handed, parts := Handed(items, mip), FileTransfer.DamagedAll(FileTransfer.Chunks(file));
    CarriesAndHandsOver(items, base, mip, port, file, dstMip, dstPort);
    HandsOverSlice(handed, mip, port, |file|, parts, f, n);
    HandedSlice(items, mip, f, n);
  }

  lemma HandedSlice(items: seq<Queued>, mip: byte, f: nat, n: nat)
    requires f <= n <= |items|
    ensures Handed(items[f..n], mip) == Handed(items, mip)[f..n]
  {
  }

  lemma HandsOverSlice(handed: seq<Bytes>, mip: byte, port: byte, size: nat, parts: seq<Bytes>, f: nat, n: nat)
    requires HandsOver(handed, mip, port, size, parts) && f < n <= |handed|
    ensures 2 <= |handed[f]| && HandsOver(handed[f..n], mip, port, FileTransfer.Announced(handed[f]), parts[f..n - 1])
  {
    if f > 0 {
      assert handed[f - 1 + 1] == [mip, port] + parts[f - 1];
    }
    var mine, some := handed[f..n], parts[f..n - 1];
    forall i: nat | i < |some|
      ensures mine[i + 1] == [mip, port] + some[i]
    {
      assert handed[f + i + 1] == [mip, port] + parts[f + i];
    }
  }

  /** Whatever other traffic the server gets in between, from at most thirty senders in all,
      and whichever messages of the file are handed over in order: the content is the file
      exactly if they are all of them and its length is even. From the first message on, the
      count of missing bytes is 0 exactly at the end of a file without zero bytes whose length
      is not 3 modulo 4. */
  lemma FileAmongTraffic(items: seq<Queued>, base: nat, mip: byte, port: byte,
                         file: Bytes, dstMip: byte, dstPort: byte, traffic: seq<Bytes>, f: nat, n: nat)
    requires |file| < FileTransfer.WORD
    requires CarriesFile(items, base, port, file, dstMip, dstPort) && f < n <= |items|
    requires FileTransfer.WellFormed(traffic) && |Senders(traffic)| <= MAX_LINKS
    requires From(traffic, mip, port) == Handed(items[f..n], mip)
    ensures var l := LinkOf(FileTransfer.ServeAll(traffic), mip, port);
      && l.Some?
      && (l.value.content == file <==> f == 0 && n == |items| && |file| % 2 == 0)
      && (f == 0 ==> FileState(l.value, file, n))
  {
    FilesAreIndependent(traffic, mip, port);
    SliceHandsOver(items, base, mip, port, file, dstMip, dstPort, f, n);
    ServedSlice(Handed(items[f..n], mip), mip, port, file, f, n);
  }

  lemma ServedSlice(mine: seq<Bytes>, mip: byte, port: byte, file: Bytes, f: nat, n: nat)
    requires |file| < FileTransfer.WORD && f < n <= |FileTransfer.Chunks(file)| + 1
    requires mine != [] && 2 <= |mine[0]| && (f == 0 ==> FileTransfer.Announced(mine[0]) == |file|)
    requires HandsOver(mine, mip, port, FileTransfer.Announced(mine[0]),
                       FileTransfer.DamagedAll(FileTransfer.Chunks(file))[f..n - 1])
    ensures FileTransfer.WellFormed(mine)
    ensures var l := LinkOf(FileTransfer.ServeAll(mine), mip, port);
      && l.Some?
      && (l.value.content == file <==> f == 0 && n - 1 == |FileTransfer.Chunks(file)| && |file| % 2 == 0)
      && (f == 0 ==> FileState(l.value, file, n))
  {
    var parts, size := FileTransfer.DamagedAll(FileTransfer.Chunks(file))[f..n - 1], FileTransfer.Announced(mine[0]);
    ServedAll(mine, mip, port, size, parts);
    ReceivedSlice(file, mip, port, size, f, n);
  }

  lemma ServedAll(mine: seq<Bytes>, mip: byte, port: byte, size: nat, parts: seq<Bytes>)
    requires HandsOver(mine, mip, port, size, parts)
    ensures Served(mine, mip, port, size, parts)
  {
    ServedAlone(mine, mip, port, size, parts, |parts|);
    assert mine[..|parts| + 1] == mine && parts[..|parts|] == parts;
  }

  lemma ReceivedFrom(l: FileTransfer.Link, parts: seq<Bytes>)
    requires l.content == []
    ensures FileTransfer.Received(l, parts).content == FileTransfer.Concat(parts)
  {
    FileTransfer.ReceivedContent(l, parts);
    assert [] + FileTransfer.Concat(parts) == FileTransfer.Concat(parts);
  }

  lemma ReceivedSlice(file: Bytes, mip: byte, port: byte, size: nat, f: nat, n: nat)
    requires |file| < FileTransfer.WORD && f < n <= |FileTransfer.Chunks(file)| + 1 && (f == 0 ==> size == |file|)
    ensures var parts := FileTransfer.DamagedAll(FileTransfer.Chunks(file))[f..n - 1];
      var l := FileTransfer.Received(FileTransfer.Link(port, mip, size, []), parts);
      && (l.content == file <==> f == 0 && n - 1 == |FileTransfer.Chunks(file)| && |file| % 2 == 0)
      && (f == 0 ==> FileState(l, file, n))
  {
    ReceivedFrom(FileTransfer.Link(port, mip, size, []), FileTransfer.DamagedAll(FileTransfer.Chunks(file))[f..n - 1]);
    FileTransfer.PartsAreFileExactly(file, f, n - 1);
    if f == 0 {
      FirstMessagesState(file, mip, port, n);
    }
  }

  /** The server's link after the size and the first n - 1 chunks. */
  lemma FirstMessagesState(file: Bytes, mip: byte, port: byte, n: nat)
    requires |file| < FileTransfer.WORD && 1 <= n <= |FileTransfer.Chunks(file)| + 1
    ensures var parts := FileTransfer.DamagedAll(FileTransfer.Chunks(file))[0..n - 1];
      FileState(FileTransfer.Received(FileTransfer.Link(port, mip, |file|, []), parts), file, n)
  {
    var parts := FileTransfer.DamagedAll(FileTransfer.Chunks(file));
    assert parts[0..n - 1] == parts[..n - 1];
    if n > 1 {
      FileTransfer.FileReceived(file, mip, port, n - 1);
    } else if FileTransfer.Chunks(file) == [] {
      assert file == [];
    }
  }

  // ---- over the transport ----

  /** The messages that the application submitted in a run, and the daemon queued. */
  function Submitted(s: Flow, actions: seq<Action>): seq<Bytes> {
    if actions == [] then []
    else
      var before, a := actions[..|actions| - 1], actions[|actions| - 1];
      Submitted(s, before) + if Queues(Exec(s, before), a) then [a.app] else []
  }

  predicate Queues(s: Flow, a: Action) {
    a.Submit? && Enabled(s, a) && AlignedSize(|a.app|) <= BUFSIZE
  }

  /** What was sent are the frames of the given messages, numbered from base. */
  predicate SentFrames(s: Flow, apps: seq<Bytes>, base: nat, mip: byte, port: byte) {
    && s.base == base && s.mip == mip && s.snd.port == port
    && s.snd.seqSend == base + |s.sent| && |apps| == |s.sent|
    && forall i :: 0 <= i < |apps| && 2 <= |apps[i]| ==> s.sent[i].frame == DataFrame(apps[i], base + i, port)
  }

  lemma SubmitSends(s: Flow, apps: seq<Bytes>, a: Action, base: nat, mip: byte, port: byte)
    requires SentFrames(s, apps, base, mip, port) && Queues(s, a) && NoWrap(Step(s, a))
    ensures SentFrames(Step(s, a), apps + [a.app], base, mip, port)
  {
  }

  /** No other action touches what was sent. */
  lemma OthersSendNothing(s: Flow, a: Action)
    requires !Queues(s, a)
    ensures var t := Step(s, a);
      && t.base == s.base && t.mip == s.mip && t.sent == s.sent
      && t.snd.port == s.snd.port && t.snd.seqSend == s.snd.seqSend
  {
  }

  lemma {:induction false} SentIsSubmitted(base: nat, mip: byte, port: byte, actions: seq<Action>)
    requires NoWrap(Exec(Start(base, mip, port), actions))
    ensures var start := Start(base, mip, port);
      SentFrames(Exec(start, actions), Submitted(start, actions), base, mip, port)
  {
    if actions != [] {
      var before, a := actions[..|actions| - 1], actions[|actions| - 1];
      var s := Exec(Start(base, mip, port), before);
      StepOnlyAdds(s, a);
      SentIsSubmitted(base, mip, port, before);
      if Queues(s, a) {
        SubmitSends(s, Submitted(Start(base, mip, port), before), a, base, mip, port);
      } else {
        OthersSendNothing(s, a);
      }
    }
  }

  lemma FileIsCarried(base: nat, mip: byte, port: byte, actions: seq<Action>, file: Bytes, dstMip: byte, dstPort: byte)
    requires NoWrap(Exec(Start(base, mip, port), actions))
    requires Submitted(Start(base, mip, port), actions) == FileTransfer.Messages(file, dstMip, dstPort)
    ensures CarriesFile(Exec(Start(base, mip, port), actions).sent, base, port, file, dstMip, dstPort)
  {
    SentIsSubmitted(base, mip, port, actions);
  }

  /** Every run of the transport before the wrap, every interleaving at the server: of a file
      that an application sent, the server holds the whole file exactly if its first message
      arrived first, everything was handed over, and its length is even. If the first message
      arrived first, the server has what FileState says of the part handed over so far. */
  lemma FileThroughTransport(base: nat, mip: byte, port: byte, actions: seq<Action>,
                             file: Bytes, dstMip: byte, dstPort: byte, traffic: seq<Bytes>)
    requires |file| < FileTransfer.WORD
    requires NoWrap(Exec(Start(base, mip, port), actions))
    requires Submitted(Start(base, mip, port), actions) == FileTransfer.Messages(file, dstMip, dstPort)
    requires FileTransfer.WellFormed(traffic) && |Senders(traffic)| <= MAX_LINKS
    requires From(traffic, mip, port) == Handed(Exec(Start(base, mip, port), actions).delivered, mip)
    ensures var s := Exec(Start(base, mip, port), actions);
      var l := LinkOf(FileTransfer.ServeAll(traffic), mip, port);
      && |s.delivered| <= |FileTransfer.Chunks(file)| + 1
      && (l.Some? <==> s.delivered != [])
      && (l.Some? && l.value.content == file <==>
          s.first == 0 && |s.delivered| == |FileTransfer.Chunks(file)| + 1 && |file| % 2 == 0)
      && (s.delivered != [] && s.first == 0 ==> FileState(l.value, file, |s.delivered|))
  {
    var s := Exec(Start(base, mip, port), actions);
    SliceOnEveryRun(base, mip, port, actions);
    FileIsCarried(base, mip, port, actions, file, dstMip, dstPort);
    if s.delivered == [] {
      FilesAreIndependent(traffic, mip, port);
    } else {
      FileAmongTraffic(s.sent, base, mip, port, file, dstMip, dstPort, traffic, s.first, s.first + |s.delivered|);
    }
  }

  /** The messages of a file all arrive as data. */
  lemma FileIsData(s: Flow, base: nat, port: byte, file: Bytes, dstMip: byte, dstPort: byte)
    requires SenderInv(s) && CarriesFile(s.sent, base, port, file, dstMip, dstPort)
    ensures Progress.AllData(s)
  {
    forall k | 0 <= k < |s.snd.queue|
      ensures ArrivesAs(s.snd.queue[k]) == AsData
    {
      assert s.snd.queue[k] == s.sent[s.front + k];
      FileMessageIsData(s.sent, base, port, file, dstMip, dstPort, s.front + k);
    }
  }

  lemma FileMessageIsData(items: seq<Queued>, base: nat, port: byte, file: Bytes, dstMip: byte, dstPort: byte, i: nat)
    requires CarriesFile(items, base, port, file, dstMip, dstPort) && i < |items|
    ensures ArrivesAs(items[i]) == AsData
  {
    var app := FileTransfer.Messages(file, dstMip, dstPort)[i];
    FileTransfer.ChunkSizes(file);
    assert 2 <= |app| <= FileTransfer.CHUNK + 2;
    SmallIsData(items[i], app, base + i, port);
  }

  lemma SmallIsData(item: Queued, app: Bytes, seqno: nat, port: byte)
    requires 2 <= |app| <= FileTransfer.CHUNK + 2 && item.frame == DataFrame(app, seqno, port)
    ensures ArrivesAs(item) == AsData
  {
    Sizes(|app|);
    ArrivesAsDataExactly(HostState(port, seqno, [], []), app, (0, 0));
    assert Packed(HostState(port, seqno, [], []), app, (0, 0)).frame == item.frame;
  }

  /** What is delivered after enough lossless rounds: everything from the first message handed
      over exactly if the front had not passed the message the receiver waited for. */
  lemma AfterRounds(s: Flow, r: nat)
    requires Progress.Quiet(s) && CoreInv(s) && NoWrap(s) && s.sent != []
    requires (|s.snd.queue| + WINDOW - 1) / WINDOW <= r
    ensures var t := Progress.LosslessRounds(s, r);
      var end := t.first + |t.delivered|;
      && t.delivered != [] && end <= |s.sent| && t.delivered == s.sent[t.first..end]
      && t.first == (if s.delivered == [] then 0 else s.first)
      && (end == |s.sent| <==> s.delivered == [] || s.front <= s.first + |s.delivered|)
  {
    Progress.QueueAfterRounds(s, r);
    Progress.DeliveredAfterRounds(s, r);
  }

  /** And once the network is quiet, after ceil(n/16) lossless rounds the server holds the whole
      file exactly if nothing of it or a first piece had been delivered before, the sender had
      discarded no message that the receiver still waited for, and its length is even; apart
      from the length, the server is then in the state of the whole file, count included. */
  lemma FileAfterLosslessRounds(base: nat, mip: byte, port: byte, actions: seq<Action>, r: nat,
                                file: Bytes, dstMip: byte, dstPort: byte, traffic: seq<Bytes>)
    requires |file| < FileTransfer.WORD
    requires Submitted(Start(base, mip, port), actions) == FileTransfer.Messages(file, dstMip, dstPort)
    requires FileTransfer.WellFormed(traffic) && |Senders(traffic)| <= MAX_LINKS
    requires var s := Exec(Start(base, mip, port), actions);
      && NoWrap(s) && Progress.Idle(s) && (|s.snd.queue| + WINDOW - 1) / WINDOW <= r
      && From(traffic, mip, port) == Handed(Progress.LosslessRounds(s, r).delivered, mip)
    ensures var s := Exec(Start(base, mip, port), actions);
      var l := LinkOf(FileTransfer.ServeAll(traffic), mip, port);
      var intact := s.delivered == [] || (s.first == 0 && s.front <= |s.delivered|);
      && l.Some?
      && (l.value.content == file <==> intact && |file| % 2 == 0)
      && (intact ==> FileState(l.value, file, |FileTransfer.Chunks(file)| + 1))
  {
    var s := Exec(Start(base, mip, port), actions);
    StartInv(base, mip, port);
    ExecKeepsCore(Start(base, mip, port), actions);
    FileIsCarried(base, mip, port, actions, file, dstMip, dstPort);
    FileIsData(s, base, port, file, dstMip, dstPort);
    AfterRounds(s, r);
    var t := Progress.LosslessRounds(s, r);
    FileAmongTraffic(s.sent, base, mip, port, file, dstMip, dstPort, traffic, t.first, t.first + |t.delivered|);
  }

  // ---- a whole file from the start ----

  function Submits(messages: seq<Bytes>): seq<Action> {
    if messages == [] then []
    else Submits(messages[..|messages| - 1]) + [Submit(messages[|messages| - 1], (0, 0))]
  }

  /** Nothing has arrived anywhere. */
  predicate Untouched(s: Flow) {
    s.sndUp && s.rcvUp && s.acks == [] && s.delivered == [] && s.rcv.links == []
  }

  lemma SubmitOneMore(s: Flow, a: Action)
    requires Untouched(s) && a.Submit? && AlignedSize(|a.app|) <= BUFSIZE
    ensures Queues(s, a)
    ensures var t := Step(s, a);
      Untouched(t) && t.base == s.base && |t.sent| == |s.sent| + 1 && |t.snd.queue| == |s.snd.queue| + 1
  {
  }

  lemma {:induction false} SubmitsReach(base: nat, mip: byte, port: byte, messages: seq<Bytes>)
    requires forall i :: 0 <= i < |messages| ==> AlignedSize(|messages[i]|) <= BUFSIZE
    ensures var s := Exec(Start(base, mip, port), Submits(messages));
      Untouched(s) && s.base == base && |s.sent| == |messages| == |s.snd.queue|
  {
    if messages != [] {
      var before, a := messages[..|messages| - 1], Submit(messages[|messages| - 1], (0, 0));
      SubmitsReach(base, mip, port, before);
      SubmitOneMore(Exec(Start(base, mip, port), Submits(before)), a);
      Limits.ExecOneMore(Start(base, mip, port), Submits(before), a);
    }
  }

  lemma {:induction false} SubmitsSubmit(base: nat, mip: byte, port: byte, messages: seq<Bytes>)
    requires forall i :: 0 <= i < |messages| ==> AlignedSize(|messages[i]|) <= BUFSIZE
    ensures Submitted(Start(base, mip, port), Submits(messages)) == messages
  {
    if messages != [] {
      var before, a := messages[..|messages| - 1], Submit(messages[|messages| - 1], (0, 0));
      SubmitsSubmit(base, mip, port, before);
      SubmitsReach(base, mip, port, before);
      assert Queues(Exec(Start(base, mip, port), Submits(before)), a);
      assert (Submits(before) + [a])[..|Submits(before)|] == Submits(before);
      assert messages == before + [a.app];
    }
  }

  lemma {:induction false} AllFromOne(messages: seq<Bytes>, mip: byte, port: byte)
    requires FileTransfer.WellFormed(messages)
    requires forall i :: 0 <= i < |messages| ==> messages[i][0] == mip && messages[i][1] == port
    ensures From(messages, mip, port) == messages
  {
    if messages != [] {
      var prefix, m := messages[..|messages| - 1], messages[|messages| - 1];
      assert messages == prefix + [m];
      AllFromOne(prefix, mip, port);
      assert From(messages, mip, port) == From(prefix, mip, port) + [m];
    }
  }

  lemma HandedIsTraffic(items: seq<Queued>, base: nat, mip: byte, port: byte, file: Bytes, dstMip: byte, dstPort: byte)
    requires |file| < FileTransfer.WORD && CarriesFile(items, base, port, file, dstMip, dstPort)
    ensures var traffic := Handed(items, mip);
      FileTransfer.WellFormed(traffic) && From(traffic, mip, port) == traffic && |Senders(traffic)| <= 1
  {
    CarriesAndHandsOver(items, base, mip, port, file, dstMip, dstPort);
    var handed := Handed(items, mip);
    forall i | 0 <= i < |handed|
      ensures 2 <= |handed[i]| && handed[i][0] == mip && handed[i][1] == port
    {
      if i > 0 {
        ChunkArrives(items, base, mip, port, file, dstMip, dstPort, i - 1);
      }
    }
    AllFromOne(handed, mip, port);
    Independence.SubsetSize(Senders(handed), {(mip, port)});
  }

  /** Giving the daemon all messages of a file leads to a state as FileAfterLosslessRounds
      asks for. */
  lemma FileSubmitted(base: nat, mip: byte, port: byte, file: Bytes, dstMip: byte, dstPort: byte)
    requires base + |FileTransfer.Chunks(file)| + 1 <= SEQ_MODULUS
    ensures var actions := Submits(FileTransfer.Messages(file, dstMip, dstPort));
      var s := Exec(Start(base, mip, port), actions);
      && NoWrap(s) && Progress.Idle(s) && s.delivered == [] && CoreInv(s) && s.sent != []
      && Submitted(Start(base, mip, port), actions) == FileTransfer.Messages(file, dstMip, dstPort)
      && |s.snd.queue| == |FileTransfer.Chunks(file)| + 1
  {
    var messages := FileTransfer.Messages(file, dstMip, dstPort);
    MessagesFit(file, dstMip, dstPort);
    SubmitsReach(base, mip, port, messages);
    SubmitsSubmit(base, mip, port, messages);
    StartInv(base, mip, port);
    ExecKeepsCore(Start(base, mip, port), Submits(messages));
  }

  lemma MessagesFit(file: Bytes, dstMip: byte, dstPort: byte)
    ensures var messages := FileTransfer.Messages(file, dstMip, dstPort);
      |messages| == |FileTransfer.Chunks(file)| + 1
      && forall i :: 0 <= i < |messages| ==> AlignedSize(|messages[i]|) <= BUFSIZE
  {
    var messages := FileTransfer.Messages(file, dstMip, dstPort);
    FileTransfer.ChunkSizes(file);
    forall i | 0 <= i < |messages|
      ensures AlignedSize(|messages[i]|) <= BUFSIZE
    {
      Sizes(|messages[i]|);
    }
  }

  /** A file of n messages given to the daemon at once, before its counter wraps, is at the
      server after ceil(n/16) lossless rounds, damaged as its length says. */
  lemma FileFromStart(base: nat, mip: byte, port: byte, r: nat, file: Bytes, dstMip: byte, dstPort: byte)
    requires |file| < FileTransfer.WORD
    requires var n := |FileTransfer.Chunks(file)| + 1; base + n <= SEQ_MODULUS && (n + WINDOW - 1) / WINDOW <= r
    ensures var s := Exec(Start(base, mip, port), Submits(FileTransfer.Messages(file, dstMip, dstPort)));
      var traffic := Handed(Progress.LosslessRounds(s, r).delivered, mip);
      && FileTransfer.WellFormed(traffic)
      && var l := LinkOf(FileTransfer.ServeAll(traffic), mip, port);
        l.Some? && FileState(l.value, file, |FileTransfer.Chunks(file)| + 1)
  {
    var actions := Submits(FileTransfer.Messages(file, dstMip, dstPort));
    var s := Exec(Start(base, mip, port), actions);
    FileSubmitted(base, mip, port, file, dstMip, dstPort);
    FileIsCarried(base, mip, port, actions, file, dstMip, dstPort);
    FileIsData(s, base, port, file, dstMip, dstPort);
    AfterRounds(s, r);
    var t := Progress.LosslessRounds(s, r);
    assert t.delivered == s.sent[0..|s.sent|] == s.sent;
    HandedIsTraffic(s.sent, base, mip, port, file, dstMip, dstPort);
    FileAfterLosslessRounds(base, mip, port, actions, r, file, dstMip, dstPort, Handed(s.sent, mip));
  }
}
