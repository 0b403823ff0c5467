/** The file layer (file_transfer.c, file_server.c, file_transfer_utils.c): a file as a size
    message and chunks of 1400 bytes, and a server that puts the chunks of several senders
    together again. */
module FileTransfer {
  import opened Framing

  const CHUNK: nat := 1400
  const WORD: nat := 0x1_0000_0000

  // ---- sending ----

  /** A 32-bit number in network order. */
  function BigEndian(n: nat): Bytes {
    [n / 0x100_0000 % 256, n / 0x1_0000 % 256, n / 0x100 % 256, n % 256]
  }

  function FromBigEndian(b: Bytes): nat
    requires |b| == 4
  {
    (b[0] as int) * 0x100_0000 + (b[1] as int) * 0x1_0000 + (b[2] as int) * 0x100 + b[3] as int
  }

  lemma BigEndianRoundTrip(n: nat)
    requires n < WORD
    ensures FromBigEndian(BigEndian(n)) == n
  {
    Shifts(n);
    var high := n / 0x100;
    var most := high / 0x100;
    assert n == high * 0x100 + n % 0x100;
    assert high == most * 0x100 + high % 0x100;
    assert most == most / 0x100 * 0x100 + most % 0x100;
    assert most / 0x100 < 0x100;
  }

  lemma Shifts(n: nat)
    ensures n / 0x1_0000 == n / 0x100 / 0x100 && n / 0x100_0000 == n / 0x100 / 0x100 / 0x100
  {
  }

  lemma DigitsRoundTrip(b: Bytes)
    requires |b| == 4
    ensures FromBigEndian(b) < WORD && BigEndian(FromBigEndian(b)) == b
  {
    var high := (b[0] as int) * 0x100 + b[1] as int;
    var most := high * 0x100 + b[2] as int;
    Digit(most, b[3]);
    Digit(high, b[2]);
    Digit(b[0], b[1]);
    var n := FromBigEndian(b);
    assert n == most * 0x100 + b[3] as int;
    Shifts(n);
  }

  lemma Digit(n: nat, d: byte)
    ensures (n * 0x100 + d as int) / 0x100 == n && (n * 0x100 + d as int) % 0x100 == d as int
  {
  }

  function FirstChunk(file: Bytes): Bytes {
    if |file| <= CHUNK then file else file[..CHUNK]
  }

  function Chunks(file: Bytes): seq<Bytes>
    decreases |file|
  {
    if file == [] then [] else [FirstChunk(file)] + Chunks(file[|FirstChunk(file)|..])
  }

  /** The message announcing the size: eight bytes are written, four of them the size. */
  function SizeMessage(file: Bytes, dstMip: byte, dstPort: byte): Bytes {
    [dstMip, dstPort] + BigEndian(|file|) + [0, 0, 0, 0]
  }

  function ChunkMessage(chunk: Bytes, dstMip: byte, dstPort: byte): Bytes {
    [dstMip, dstPort] + chunk
  }

  function ChunkMessages(chunks: seq<Bytes>, dstMip: byte, dstPort: byte): seq<Bytes> {
    seq(|chunks|, i requires 0 <= i < |chunks| => ChunkMessage(chunks[i], dstMip, dstPort))
  }

  function Messages(file: Bytes, dstMip: byte, dstPort: byte): seq<Bytes> {
    [SizeMessage(file, dstMip, dstPort)] + ChunkMessages(Chunks(file), dstMip, dstPort)
  }

  lemma NextChunk(file: Bytes, at: nat, size: nat, chunks: seq<Bytes>)
    requires at < |file| && size == if |file| - at < CHUNK then |file| - at else CHUNK
    requires Chunks(file) == chunks + Chunks(file[at..])
    ensures Chunks(file) == (chunks + [file[at..at + size]]) + Chunks(file[at + size..])
  {
    FirstOf(file, at, size);
    Associative(chunks, [file[at..at + size]], Chunks(file[at + size..]));
  }

  lemma FirstOf(file: Bytes, at: nat, size: nat)
    requires at < |file| && size == if |file| - at < CHUNK then |file| - at else CHUNK
    ensures Chunks(file[at..]) == [file[at..at + size]] + Chunks(file[at + size..])
  {
    var left := file[at..];
    assert FirstChunk(left) == left[..size] == file[at..at + size];
    assert left[size..] == file[at + size..];
  }

  lemma Associative<T>(a: seq<T>, b: seq<T>, c: seq<T>)
    ensures a + (b + c) == (a + b) + c
  {
  }

  lemma MessagesOneMore(chunks: seq<Bytes>, chunk: Bytes, dstMip: byte, dstPort: byte)
    ensures ChunkMessages(chunks + [chunk], dstMip, dstPort) ==
      ChunkMessages(chunks, dstMip, dstPort) + [ChunkMessage(chunk, dstMip, dstPort)]
  {
  }

  /** The loop of the sender: one read and one write for each chunk. */
  method SendFile(file: Bytes, dstMip: byte, dstPort: byte) returns (written: seq<Bytes>)
    requires |file| < WORD
    ensures written == Messages(file, dstMip, dstPort)
  {
    written := [SizeMessage(file, dstMip, dstPort)];
    var at := 0;
    ghost var chunks := [];
    assert file[0..] == file;
    while at < |file|
      invariant at <= |file|
      invariant Chunks(file) == chunks + Chunks(file[at..])
      invariant written == [SizeMessage(file, dstMip, dstPort)] + ChunkMessages(chunks, dstMip, dstPort)
    {
      var size := if |file| - at < 1400 then |file| - at else 1400;
      var chunk := file[at..at + size];
      NextChunk(file, at, size, chunks);
      MessagesOneMore(chunks, chunk, dstMip, dstPort);
      written := written + [[dstMip, dstPort] + chunk];
      chunks := chunks + [chunk];
      at := at + size;
    }
    assert file[at..] == [] && chunks + [] == chunks;
  }

  // ---- receiving ----

  /** The bytes of a string before its first zero byte. */
  function StrLen(s: Bytes): nat {
    if s == [] || s[0] == 0 then 0 else 1 + StrLen(s[1..])
  }

  /** k is the place of the first zero byte, or the length if there is none. */
  predicate FirstZero(s: Bytes, k: nat) {
    k <= |s| && (forall j :: 0 <= j < k ==> s[j] != 0) && (k < |s| ==> s[k] == 0)
  }

  lemma {:induction false} StrLenExact(s: Bytes)
    ensures FirstZero(s, StrLen(s))
    ensures forall k: nat :: FirstZero(s, k) ==> k == StrLen(s)
  {
    if s != [] && s[0] != 0 {
      StrLenExact(s[1..]);
      assert forall j :: 1 <= j < |s| ==> s[j] == s[1..][j - 1];
    }
  }

  lemma StrLenFull(s: Bytes)
    ensures StrLen(s) <= |s| && (StrLen(s) == |s| <==> 0 !in s)
  {
    StrLenExact(s);
  }

  lemma StrLenWithZeros(s: Bytes, n: nat)
    ensures StrLen(s + Zeros(n)) == StrLen(s)
  {
    var k := StrLen(s);
    StrLenExact(s);
    StrLenExact(s + Zeros(n));
    assert FirstZero(s + Zeros(n), k);
  }

  /** A file being received; left counts the bytes still missing, in 32 bits. */
  datatype Link = Link(port: byte, mip: byte, left: nat, content: Bytes)

  /** check_link */
  function IndexOfLink(links: seq<Link>, mip: byte, port: byte): int {
    if links == [] then -1
    else if links[0].port == port && links[0].mip == mip then 0
    else var rest := IndexOfLink(links[1..], mip, port);
         if rest == -1 then -1 else rest + 1
  }

  lemma {:induction false} IndexOfLinkFinds(links: seq<Link>, mip: byte, port: byte)
    ensures var i := IndexOfLink(links, mip, port);
      && -1 <= i < |links|
      && (0 <= i ==> links[i].port == port && links[i].mip == mip)
      && (forall k :: 0 <= k < (if i == -1 then |links| else i) ==> !(links[k].port == port && links[k].mip == mip))
  {
    if links != [] {
      IndexOfLinkFinds(links[1..], mip, port);
      assert forall k :: 1 <= k < |links| ==> links[k] == links[1..][k - 1];
    }
  }

  lemma IndexOfLinkIs(links: seq<Link>, mip: byte, port: byte, i: int)
    requires -1 <= i < |links|
    requires 0 <= i ==> links[i].port == port && links[i].mip == mip
    requires forall k :: 0 <= k < (if i == -1 then |links| else i) ==> !(links[k].port == port && links[k].mip == mip)
    ensures IndexOfLink(links, mip, port) == i
  {
    IndexOfLinkFinds(links, mip, port);
  }

  /** The first message of a sender announces the size; the buffer behind it is zero. */
  function Announced(message: Bytes): nat
    requires 2 <= |message|
  {
    FromBigEndian((message[2..] + Zeros(4))[..4])
  }

  /** A chunk is appended as it came; the count goes down by its length as a string. */
  function Append(l: Link, message: Bytes): Link
    requires 2 <= |message|
  {
    l.(content := l.content + message[2..], left := (l.left - StrLen(message[2..])) % WORD)
  }

  /** A new sender is written behind the link table if the table is full. */
  predicate Overflows(links: seq<Link>, message: Bytes)
    requires 2 <= |message|
  {
    |links| >= MAX_LINKS && IndexOfLink(links, message[0], message[1]) == -1
  }

  /** One message [mip, port] + data at the server; where the table overflows it is left alone. */
  function Serve(links: seq<Link>, message: Bytes): seq<Link>
    requires 2 <= |message|
  {
    IndexOfLinkFinds(links, message[0], message[1]);
    var i := IndexOfLink(links, message[0], message[1]);
    if Overflows(links, message) then links
    else if i == -1 then links + [Link(message[1], message[0], Announced(message), [])]
    else links[i := Append(links[i], message)]
  }

  /** What the first message of a sender announces: the number of which its first four data bytes
      are the digits in network order, bytes that it does not have being zero. */
  lemma AnnouncedExact(message: Bytes, n: nat)
    requires 2 <= |message| && n < WORD
    ensures Announced(message) == n <==>
      forall k :: 0 <= k < 4 ==> BigEndian(n)[k] == if k + 2 < |message| then message[k + 2] else 0
  {
    var b := (message[2..] + Zeros(4))[..4];
    assert forall k :: 0 <= k < 4 ==> b[k] == if k + 2 < |message| then message[k + 2] else 0;
    BigEndianRoundTrip(n);
    DigitsRoundTrip(b);
    if forall k :: 0 <= k < 4 ==> BigEndian(n)[k] == b[k] {
      assert BigEndian(n) == b;
    }
  }

  /** One round of the server: the chunk of a known sender is appended as it came, and its count
      goes down, modulo 2^32, by the place of the first zero byte in the chunk; a new sender
      is entered behind the others with nothing received; no other link changes. */
  lemma ServeExact(links: seq<Link>, message: Bytes, k: nat)
    requires 2 <= |message| && FirstZero(message[2..], k)
    ensures var u, i := Serve(links, message), IndexOfLink(links, message[0], message[1]);
      if i != -1 then
        && 0 <= i < |links| == |u| && (forall j :: 0 <= j < |u| && j != i ==> u[j] == links[j])
        && u[i] == Link(message[1], message[0], (links[i].left - k) % WORD, links[i].content + message[2..])
      else if |links| < MAX_LINKS then u == links + [Link(message[1], message[0], Announced(message), [])]
      else u == links
  {
    IndexOfLinkFinds(links, message[0], message[1]);
    StrLenExact(message[2..]);
  }

  predicate WellFormed(messages: seq<Bytes>) {
    forall i :: 0 <= i < |messages| ==> 2 <= |messages[i]|
  }

  function ServeAll(messages: seq<Bytes>): seq<Link>
    requires WellFormed(messages)
  {
    if messages == [] then []
    else Serve(ServeAll(messages[..|messages| - 1]), messages[|messages| - 1])
  }

  class FileServer {
    var links: array<Link>
    var linkLen: nat

    ghost predicate Valid()
      reads this, links
    {
      links.Length == MAX_LINKS && linkLen <= MAX_LINKS
    }

    ghost function State(): seq<Link>
      requires Valid()
      reads this, links
    {
      links[..linkLen]
    }

    constructor ()
      ensures Valid() && fresh(links) && State() == []
    {
      links := new Link[MAX_LINKS](_ => Link(0, 0, 0, []));
      linkLen := 0;
    }

    method CheckLink(mip: byte, port: byte) returns (index: int)
      requires Valid()
      ensures index == IndexOfLink(State(), mip, port)
    {
      var i := 0;
      while i < linkLen
        invariant 0 <= i <= linkLen
        invariant forall k :: 0 <= k < i ==> !(State()[k].port == port && State()[k].mip == mip)
      {
        if links[i].port == port && links[i].mip == mip {
          IndexOfLinkIs(State(), mip, port, i);
          return i;
        }
        i := i + 1;
      }
      IndexOfLinkIs(State(), mip, port, -1);
      return -1;
    }

    /** The body of the server's loop. */
    method HandleMessage(message: Bytes) returns (complete: bool, overflow: bool)
      requires Valid() && 2 <= |message| <= BUFSIZE
      modifies this, links
      ensures Valid() && links == old(links)
      ensures State() == Serve(old(State()), message)
      ensures overflow == Overflows(old(State()), message)
      ensures complete <==>
        var i := IndexOfLink(old(State()), message[0], message[1]);
        0 <= i < |State()| && State()[i].left == 0
    {
      IndexOfLinkFinds(State(), message[0], message[1]);
      var index := CheckLink(message[0], message[1]);
      complete, overflow := false, false;
      if index == -1 && linkLen == MAX_LINKS {
        overflow := true;
      } else if index == -1 {
        links[linkLen] := Link(message[1], message[0], Announced(message), []);
        linkLen := linkLen + 1;
      } else {
        var l := links[index];
        var bytesLeft := (l.left - StrLen(message[2..])) % WORD;
        links[index] := Link(l.port, l.mip, bytesLeft, l.content + message[2..]);
        complete := bytesLeft == 0;
      }
    }
  }

  // ---- one sender ----

  /** What the transport makes of a file or chunk whose length is odd: two zero bytes too many,
      or two bytes too few. */
  function Damaged(data: Bytes): Bytes {
    if |data| % 4 == 1 then data + [0, 0]
    else if |data| % 4 == 3 then data[..|data| - 2]
    else data
  }

  lemma Remainders(n: nat)
    ensures n % 2 == n % 4 % 2
    ensures (n + 2) % 4 == if n % 4 < 2 then n % 4 + 2 else n % 4 - 2
    ensures (n + 2) % 2 == n % 2
    ensures (n + CHUNK) % 4 == n % 4
  {
  }

  lemma DamagedExact(data: Bytes)
    ensures Damaged(data) == data <==> |data| % 2 == 0
  {
    Remainders(|data|);
    if |data| % 4 == 1 {
      assert |data + [0, 0]| == |data| + 2;
    } else if |data| % 4 == 3 {
      assert |data[..|data| - 2]| == |data| - 2;
    }
  }

  /** The way of an application message through the transport, whatever its sequence number. */
  function Through(message: Bytes, seqno: nat, srcPort: byte, srcMip: byte): Bytes
    requires 2 <= |message|
  {
    Upward(Carry(DataFrame(message, seqno, srcPort), srcMip))
  }

  /** The same, if the sender stored the true padding length. */
  function ThroughWithTruePadding(message: Bytes, seqno: nat, srcPort: byte, srcMip: byte): Bytes {
    Upward(Carry(FrameWith(message, (0, 0), seqno, srcPort, PaddingLength(|message|)), srcMip))
  }

  lemma ChunkThrough(chunk: Bytes, dstMip: byte, dstPort: byte, seqno: nat, srcPort: byte, srcMip: byte)
    requires |chunk| <= CHUNK
    ensures Through(ChunkMessage(chunk, dstMip, dstPort), seqno, srcPort, srcMip) == [srcMip, srcPort] + Damaged(chunk)
  {
    var app, n := ChunkMessage(chunk, dstMip, dstPort), |chunk|;
    assert |app| == n + 2 && app[2..] == chunk;
    Remainders(n);
    IntendedChunk(chunk, dstMip, dstPort, srcPort, srcMip);
    Sizes(|app|);
    if n % 2 == 0 {
      RoundTripExact(app, (0, 0), seqno, srcPort, srcMip);
      assert Damaged(chunk) == chunk;
    } else {
      OddLengthDamage(app, (0, 0), seqno, srcPort, srcMip);
      assert |app| % 4 == 3 <==> n % 4 == 1;
    }
  }

  lemma ChunkThroughWithTruePadding(chunk: Bytes, dstMip: byte, dstPort: byte, seqno: nat, srcPort: byte, srcMip: byte)
    requires |chunk| <= CHUNK
    ensures ThroughWithTruePadding(ChunkMessage(chunk, dstMip, dstPort), seqno, srcPort, srcMip) ==
      [srcMip, srcPort] + chunk
  {
    IntendedChunk(chunk, dstMip, dstPort, srcPort, srcMip);
    RoundTripWithTruePadding(ChunkMessage(chunk, dstMip, dstPort), (0, 0), seqno, srcPort, srcMip);
  }

  lemma IntendedChunk(chunk: Bytes, dstMip: byte, dstPort: byte, srcPort: byte, srcMip: byte)
    ensures var m := Intended(ChunkMessage(chunk, dstMip, dstPort), srcMip, srcPort);
      && m == [srcMip, srcPort] + chunk
      && m + [0, 0] == [srcMip, srcPort] + (chunk + [0, 0])
      && (|chunk| >= 2 ==> m[..|chunk|] == [srcMip, srcPort] + chunk[..|chunk| - 2])
  {
    assert ChunkMessage(chunk, dstMip, dstPort)[2..] == chunk;
  }

  lemma SizeThrough(file: Bytes, dstMip: byte, dstPort: byte, seqno: nat, srcPort: byte, srcMip: byte)
    requires |file| < WORD
    ensures var m := Through(SizeMessage(file, dstMip, dstPort), seqno, srcPort, srcMip);
      2 <= |m| && m[0] == srcMip && m[1] == srcPort && Announced(m) == |file|
  {
    var app := SizeMessage(file, dstMip, dstPort);
    assert |app| == 10;
    RoundTripExact(app, (0, 0), seqno, srcPort, srcMip);
    var m, size := Intended(app, srcMip, srcPort), BigEndian(|file|);
    assert m[2..] == app[2..] == size + [0, 0, 0, 0];
    assert (m[2..] + Zeros(4))[..4] == size;
    BigEndianRoundTrip(|file|);
  }

  /** The link after chunks arrived as the given parts. */
  function Received(l: Link, parts: seq<Bytes>): Link {
    if parts == [] then l
    else Append(Received(l, parts[..|parts| - 1]), [l.mip, l.port] + parts[|parts| - 1])
  }

  function Concat(parts: seq<Bytes>): Bytes {
    if parts == [] then [] else Concat(parts[..|parts| - 1]) + parts[|parts| - 1]
  }

  function DamagedAll(chunks: seq<Bytes>): seq<Bytes> {
    seq(|chunks|, i requires 0 <= i < |chunks| => Damaged(chunks[i]))
  }

  /** What the server subtracts from the announced size. */
  function Counted(parts: seq<Bytes>): nat {
    if parts == [] then 0 else Counted(parts[..|parts| - 1]) + StrLen(parts[|parts| - 1])
  }

  lemma AppendIs(l: Link, data: Bytes)
    ensures Append(l, [l.mip, l.port] + data) == l.(content := l.content + data, left := (l.left - StrLen(data)) % WORD)
  {
    assert ([l.mip, l.port] + data)[2..] == data;
  }

  lemma SubtractTwice(n: nat, a: nat, b: nat)
    ensures ((n - a) % WORD - b) % WORD == (n - (a + b)) % WORD
  {
    var q, r := (n - a) / WORD, (n - a) % WORD;
    assert n - (a + b) == q * WORD + (r - b);
    RemainderOnly(q, r - b);
  }

  lemma {:induction false} RemainderOnly(q: int, r: int)
    ensures (q * WORD + r) % WORD == r % WORD
  {
    var p, s := r / WORD, r % WORD;
    assert q * WORD + r == (q + p) * WORD + s;
  }

  /** Whatever a sender sends after its announcement: its bytes are appended, and the count is
      what is left of the size modulo 2^32. */
  lemma {:induction false} ReceivedExact(l: Link, parts: seq<Bytes>)
    requires l.left < WORD
    ensures Received(l, parts) == l.(content := l.content + Concat(parts), left := (l.left - Counted(parts)) % WORD)
  {
    if parts != [] {
      var prefix, c := parts[..|parts| - 1], parts[|parts| - 1];
      ReceivedExact(l, prefix);
      AppendIs(Received(l, prefix), c);
      SubtractTwice(l.left, Counted(prefix), StrLen(c));
      assert (l.content + Concat(prefix)) + c == l.content + (Concat(prefix) + c) == l.content + Concat(parts);
    } else {
      assert l.content + [] == l.content;
    }
  }

  lemma ReceivedIs(l: Link, parts: seq<Bytes>)
    requires Counted(parts) <= l.left < WORD
    ensures Received(l, parts) == l.(content := l.content + Concat(parts), left := l.left - Counted(parts))
  {
    ReceivedExact(l, parts);
  }

  // ---- the chunks of a file ----

  lemma {:induction false} ConcatCons(c: Bytes, rest: seq<Bytes>)
    ensures Concat([c] + rest) == c + Concat(rest)
  {
    if rest == [] {
      assert ([c] + rest)[..0] == [];
    } else {
      assert ([c] + rest)[..|rest|] == [c] + rest[..|rest| - 1];
      ConcatCons(c, rest[..|rest| - 1]);
    }
  }

  /** Only the last chunk can have an odd length, so the file as a whole is damaged as its
      last chunk is. */
  lemma {:induction false} ChunksDamaged(file: Bytes)
    ensures Concat(DamagedAll(Chunks(file))) == Damaged(file)
    decreases |file|
  {
    if file != [] {
      var c, rest := FirstChunk(file), file[|FirstChunk(file)|..];
      ChunksDamaged(rest);
      assert DamagedAll([c] + Chunks(rest)) == [Damaged(c)] + DamagedAll(Chunks(rest));
      ConcatCons(Damaged(c), DamagedAll(Chunks(rest)));
      DamagedFrom(file);
    }
  }

  lemma DamagedFrom(file: Bytes)
    requires file != []
    ensures Damaged(file) == Damaged(FirstChunk(file)) + Damaged(file[|FirstChunk(file)|..])
  {
    var c, rest := FirstChunk(file), file[|FirstChunk(file)|..];
    assert file == c + rest;
    if |file| > CHUNK {
      Remainders(|rest|);
      assert Damaged(c) == c;
      assert (c + rest) + [0, 0] == c + (rest + [0, 0]);
      assert |rest| >= 2 ==> (c + rest)[..|c + rest| - 2] == c + rest[..|rest| - 2];
    } else {
      assert rest == [] && Damaged(rest) == [];
    }
  }

  lemma {:induction false} ChunkSizes(file: Bytes)
    ensures forall i :: 0 <= i < |Chunks(file)| ==> 1 <= |Chunks(file)[i]| <= CHUNK
    ensures TotalSize(Chunks(file)) == |file|
    decreases |file|
  {
    if file != [] {
      var c, rest := FirstChunk(file), file[|FirstChunk(file)|..];
      ChunkSizes(rest);
      TotalSizeCons(c, Chunks(rest));
    }
  }

  function TotalSize(chunks: seq<Bytes>): nat {
    if chunks == [] then 0 else TotalSize(chunks[..|chunks| - 1]) + |chunks[|chunks| - 1]|
  }

  lemma {:induction false} TotalSizeCons(c: Bytes, rest: seq<Bytes>)
    ensures TotalSize([c] + rest) == |c| + TotalSize(rest)
  {
    if rest == [] {
      assert ([c] + rest)[..0] == [];
    } else {
      assert ([c] + rest)[..|rest|] == [c] + rest[..|rest| - 1];
      TotalSizeCons(c, rest[..|rest| - 1]);
    }
  }

  /** A chunk that counts in full: no zero byte, and nothing cut off. */
  predicate FullCount(c: Bytes) {
    0 !in c && |c| % 4 != 3
  }

  lemma CountedOne(c: Bytes)
    ensures StrLen(Damaged(c)) <= |c|
    ensures StrLen(Damaged(c)) == |c| <==> FullCount(c)
  {
    StrLenFull(c);
    StrLenFull(Damaged(c));
    if |c| % 4 == 1 {
      assert Zeros(2) == [0, 0];
      StrLenWithZeros(c, 2);
    }
  }

  /** The parts count for at most as much as the chunks they come from. */
  predicate CountsAtMost(parts: seq<Bytes>, chunks: seq<Bytes>) {
    |parts| == |chunks| && forall i :: 0 <= i < |chunks| ==> StrLen(parts[i]) <= |chunks[i]|
  }

  predicate CountsInFull(parts: seq<Bytes>, chunks: seq<Bytes>) {
    |parts| == |chunks| && forall i :: 0 <= i < |chunks| ==> StrLen(parts[i]) == |chunks[i]|
  }

  lemma {:induction false} CountedAll(parts: seq<Bytes>, chunks: seq<Bytes>)
    requires CountsAtMost(parts, chunks)
    ensures Counted(parts) <= TotalSize(chunks)
    ensures Counted(parts) == TotalSize(chunks) <==> CountsInFull(parts, chunks)
  {
    if chunks != [] {
      var n := |chunks| - 1;
      CountedAll(parts[..n], chunks[..n]);
      assert CountsInFull(parts, chunks) <==> CountsInFull(parts[..n], chunks[..n]) && StrLen(parts[n]) == |chunks[n]|;
    }
  }

  lemma {:induction false} TotalSizePrefix(chunks: seq<Bytes>, k: nat)
    requires k <= |chunks| && forall i :: 0 <= i < |chunks| ==> 1 <= |chunks[i]|
    ensures TotalSize(chunks[..k]) + (|chunks| - k) <= TotalSize(chunks)
    decreases |chunks|
  {
    if k < |chunks| {
      var prefix := chunks[..|chunks| - 1];
      assert prefix[..k] == chunks[..k];
      TotalSizePrefix(prefix, k);
    } else {
      assert chunks[..k] == chunks;
    }
  }

  /** The file counts in full iff all its chunks do. */
  lemma {:induction false} FullCountOfFile(file: Bytes)
    ensures FullCount(file) <==> forall i :: 0 <= i < |Chunks(file)| ==> FullCount(Chunks(file)[i])
    decreases |file|
  {
    if file != [] {
      var c, rest := FirstChunk(file), file[|FirstChunk(file)|..];
      FullCountOfFile(rest);
      var chunks := Chunks(file);
      assert chunks == [c] + Chunks(rest);
      assert file == c + rest;
      assert |c| == CHUNK || rest == [];
      assert FullCount(file) <==> FullCount(c) && FullCount(rest);
      assert forall i :: 0 <= i < |chunks| ==> chunks[i] == if i == 0 then c else Chunks(rest)[i - 1];
      if forall i :: 0 <= i < |chunks| ==> FullCount(chunks[i]) {
        assert FullCount(chunks[0]);
        forall i | 0 <= i < |Chunks(rest)|
          ensures FullCount(Chunks(rest)[i])
        {
          assert FullCount(chunks[i + 1]);
        }
      }
    }
  }

  /** The server's link after k of a file's chunks arrived as the given parts: the count reaches
      0 with the last chunk and not before, exactly if all parts count in full. */
  lemma PartsReceived(file: Bytes, parts: seq<Bytes>, mip: byte, port: byte, k: nat)
    requires |file| < WORD && CountsAtMost(parts, Chunks(file)) && 1 <= k <= |parts|
    ensures var l := Received(Link(port, mip, |file|, []), parts[..k]);
      && (l.left == 0 <==> k == |parts| && CountsInFull(parts, Chunks(file)))
      && (k == |parts| ==> l.content == Concat(parts))
  {
    var chunks := Chunks(file);
    ChunkSizes(file);
    TotalSizePrefix(chunks, k);
    CountedAll(parts[..k], chunks[..k]);
    ReceivedIs(Link(port, mip, |file|, []), parts[..k]);
    assert k == |parts| ==> parts[..k] == parts && chunks[..k] == chunks;
  }

  /** The server's view of one file after k of its chunks: all of them give the file damaged as
      its length says, so the file itself iff that is even; and the count reaches 0 with the
      last chunk and not before, exactly when the file has no zero byte and its length is not
      3 modulo 4. */
  lemma FileReceived(file: Bytes, mip: byte, port: byte, k: nat)
    requires |file| < WORD && 1 <= k <= |Chunks(file)|
    ensures var l := Received(Link(port, mip, |file|, []), DamagedAll(Chunks(file))[..k]);
      && (l.left == 0 <==> k == |Chunks(file)| && FullCount(file))
      && (k == |Chunks(file)| ==> l.content == Damaged(file))
      && (k == |Chunks(file)| ==> (l.content == file <==> |file| % 2 == 0))
  {
    var chunks, parts := Chunks(file), DamagedAll(Chunks(file));
    forall i | 0 <= i < |chunks|
      ensures StrLen(parts[i]) <= |chunks[i]| && (StrLen(parts[i]) == |chunks[i]| <==> FullCount(chunks[i]))
    {
      CountedOne(chunks[i]);
    }
    PartsReceived(file, parts, mip, port, k);
    FullCountOfFile(file);
    ChunksDamaged(file);
    DamagedExact(file);
  }

  lemma {:induction false} ChunksWhole(file: Bytes)
    ensures Concat(Chunks(file)) == file
    decreases |file|
  {
    if file != [] {
      var c, rest := FirstChunk(file), file[|FirstChunk(file)|..];
      ChunksWhole(rest);
      ConcatCons(c, Chunks(rest));
      assert file == c + rest;
    }
  }

  lemma {:induction false} NoZeroInParts(parts: seq<Bytes>)
    ensures 0 !in Concat(parts) <==> forall i :: 0 <= i < |parts| ==> 0 !in parts[i]
  {
    if parts != [] {
      var prefix, c := parts[..|parts| - 1], parts[|parts| - 1];
      NoZeroInParts(prefix);
      assert forall i :: 0 <= i < |parts| ==> parts[i] == if i < |prefix| then prefix[i] else c;
    }
  }

  /** With the true padding length in the segments every file arrives whole, and the count
      reaches 0 with its last chunk exactly if it has no zero byte. */
  lemma FileReceivedWithTruePadding(file: Bytes, mip: byte, port: byte, k: nat)
    requires |file| < WORD && 1 <= k <= |Chunks(file)|
    ensures var l := Received(Link(port, mip, |file|, []), Chunks(file)[..k]);
      && (l.left == 0 <==> k == |Chunks(file)| && 0 !in file)
      && (k == |Chunks(file)| ==> l.content == file)
  {
    var chunks := Chunks(file);
    forall i | 0 <= i < |chunks|
      ensures StrLen(chunks[i]) <= |chunks[i]| && (StrLen(chunks[i]) == |chunks[i]| <==> 0 !in chunks[i])
    {
      StrLenFull(chunks[i]);
    }
    PartsReceived(file, chunks, mip, port, k);
    ChunksWhole(file);
    NoZeroInParts(chunks);
  }

  // ---- a file of which only some of the messages arrive ----

  lemma {:induction false} ReceivedContent(l: Link, parts: seq<Bytes>)
    ensures Received(l, parts).content == l.content + Concat(parts)
    ensures Received(l, parts).mip == l.mip && Received(l, parts).port == l.port
  {
    if parts != [] {
      var prefix, c := parts[..|parts| - 1], parts[|parts| - 1];
      ReceivedContent(l, prefix);
      assert ([l.mip, l.port] + c)[2..] == c;
      assert (l.content + Concat(prefix)) + c == l.content + (Concat(prefix) + c);
    }
  }

  /** The file without its first n chunks. */
  function Tail(file: Bytes, n: nat): Bytes
    decreases n
  {
    if n == 0 || file == [] then file else Tail(file[|FirstChunk(file)|..], n - 1)
  }

  lemma {:induction false} TailChunks(file: Bytes, n: nat)
    requires n <= |Chunks(file)|
    ensures Chunks(Tail(file, n)) == Chunks(file)[n..]
    ensures |Tail(file, n)| <= |file|
    ensures 0 < n ==> |Damaged(Tail(file, n))| < |file|
    decreases n
  {
    if n != 0 {
      var rest := file[|FirstChunk(file)|..];
      assert Chunks(file) == [FirstChunk(file)] + Chunks(rest);
      TailChunks(rest, n - 1);
      assert Chunks(file)[n..] == Chunks(rest)[n - 1..];
    }
  }

  lemma {:induction false} ConcatPrefix(parts: seq<Bytes>, k: nat)
    requires k <= |parts|
    ensures |Concat(parts[..k])| <= |Concat(parts)|
    decreases |parts|
  {
    if k < |parts| {
      assert parts[..|parts| - 1][..k] == parts[..k];
      ConcatPrefix(parts[..|parts| - 1], k);
    } else {
      assert parts[..k] == parts;
    }
  }

  /** Without its first chunk, or its last ones, the parts are shorter than the file. */
  lemma LaterChunksAreShorter(file: Bytes, f: nat, n: nat)
    requires 0 < f <= n <= |Chunks(file)|
    ensures |Concat(DamagedAll(Chunks(file))[f..n])| < |file|
  {
    var parts := DamagedAll(Chunks(file))[f..];
    TailParts(file, f);
    assert DamagedAll(Chunks(file))[f..n] == parts[..n - f];
    ConcatPrefix(parts, n - f);
  }

  lemma TailParts(file: Bytes, f: nat)
    requires 0 < f <= |Chunks(file)|
    ensures |Concat(DamagedAll(Chunks(file))[f..])| < |file|
  {
    TailChunks(file, f);
    ChunksDamaged(Tail(file, f));
    assert DamagedAll(Chunks(file))[f..] == DamagedAll(Chunks(file)[f..]);
  }

  lemma {:induction false} FirstChunksAreShorter(file: Bytes, n: nat)
    requires n < |Chunks(file)|
    ensures |Concat(DamagedAll(Chunks(file))[..n])| < |file|
    decreases n
  {
    if n != 0 {
      var c, rest := FirstChunk(file), file[|FirstChunk(file)|..];
      FirstChunksAreShorter(rest, n - 1);
      assert |c| == CHUNK && Damaged(c) == c;
      assert DamagedAll(Chunks(file))[..n] == [c] + DamagedAll(Chunks(rest))[..n - 1];
      ConcatCons(c, DamagedAll(Chunks(rest))[..n - 1]);
    }
  }

  /** The chunks f to n-1 of a file give the file exactly if they are all of them and the length
      is even. */
  lemma PartsAreFileExactly(file: Bytes, f: nat, n: nat)
    requires f <= n <= |Chunks(file)|
    ensures Concat(DamagedAll(Chunks(file))[f..n]) == file <==>
      f == 0 && n == |Chunks(file)| && |file| % 2 == 0
  {
    var parts := DamagedAll(Chunks(file));
    if 0 < f {
      LaterChunksAreShorter(file, f, n);
    } else if n < |Chunks(file)| {
      FirstChunksAreShorter(file, n);
      assert parts[0..n] == parts[..n];
    } else {
      ChunksDamaged(file);
      DamagedExact(file);
      assert parts[0..n] == parts;
    }
  }
}
