/** The byte layout of MIPTP segments: how miptp_utils.c packs an application message,
    how the MIP daemons carry it, and how the receiving MIPTP daemon unpacks it. */
module Framing {

  type byte = b: int | 0 <= b < 256

  type Bytes = seq<byte>

  const BUFSIZE: nat := 4096
  /** How many senders a receiving application or the file server can tell apart. */
  const MAX_LINKS: nat := 30
  /** Sequence numbers have 14 bits on the wire. */
  const SEQ_MODULUS: nat := 16384
  /** The length field of the MIP header counts 32-bit words in 9 bits. */
  const SDU_LEN_MODULUS: nat := 512

  function Zeros(n: nat): Bytes {
    seq(n, _ => 0)
  }

  /** The two bits stored beside the sequence number: size % 4 before alignment. */
  function Rest(rc: nat): nat {
    (6 + rc) % 4
  }

  /** Two bytes of unix header, four of MIPTP header and rc of message, 32-bit aligned. */
  function AlignedSize(rc: nat): nat {
    if Rest(rc) == 0 then 6 + rc else 6 + rc + 4 - Rest(rc)
  }

  /** The number of zero bytes that alignment appends. */
  function PaddingLength(rc: nat): nat {
    AlignedSize(rc) - (6 + rc)
  }

  /** The longest message whose frame fits the buffer. */
  const MAX_MESSAGE: nat := 4090

  lemma FitsExactly(rc: nat)
    ensures AlignedSize(rc) <= BUFSIZE <==> rc <= MAX_MESSAGE
  {
    Sizes(rc);
    if rc > MAX_MESSAGE {
      assert rc == 4091 || rc == 4092 || rc == 4093 || rc >= 4094;
    }
  }

  /** How many words arrive of a frame that fits the buffer. */
  lemma Words(rc: nat)
    requires AlignedSize(rc) <= BUFSIZE
    ensures var words := AlignedSize(rc) / 4 % SDU_LEN_MODULUS;
      words * 4 == if AlignedSize(rc) < 2048 then AlignedSize(rc)
                   else if AlignedSize(rc) < 4096 then AlignedSize(rc) - 2048 else 0
  {
    Sizes(rc);
    var k := AlignedSize(rc) / 4;
    assert AlignedSize(rc) == 4 * k;
    if k < 512 {
      assert k % 512 == k;
    } else if k < 1024 {
      assert k % 512 == k - 512;
    } else {
      assert k == 1024;
    }
  }

  lemma Mod4(q: nat, r: nat)
    requires r < 4
    ensures (4 * q + r) / 4 == q && (4 * q + r) % 4 == r
  {
  }

  lemma Mod16Bits(q: nat, r: nat)
    requires r < 0x10000
    ensures (0x10000 * q + r) % 0x10000 == r
  {
  }

  lemma RestIs(rc: nat)
    ensures Rest(rc) == if rc % 4 < 2 then rc % 4 + 2 else rc % 4 - 2
  {
    var q, r := rc / 4, rc % 4;
    if r < 2 {
      Mod4(q + 1, r + 2);
    } else {
      Mod4(q + 2, r - 2);
    }
  }

  lemma Parity(rc: nat)
    ensures rc % 2 == rc % 4 % 2
  {
  }

  lemma AlignedIsMultiple(rc: nat)
    ensures AlignedSize(rc) % 4 == 0
  {
    var q := (6 + rc) / 4;
    assert 6 + rc == 4 * q + Rest(rc);
    if Rest(rc) == 0 {
      assert AlignedSize(rc) == 4 * q + 0;
      Mod4(q, 0);
    } else {
      assert AlignedSize(rc) == 4 * (q + 1) + 0;
      Mod4(q + 1, 0);
    }
  }

  /** Sizes by the length modulo 4. */
  lemma Sizes(rc: nat)
    ensures var r := rc % 4;
      && Rest(rc) == (if r < 2 then r + 2 else r - 2)
      && PaddingLength(rc) == (if r == 0 then 2 else if r == 1 then 1 else if r == 2 then 0 else 3)
      && AlignedSize(rc) == 6 + rc + PaddingLength(rc) && AlignedSize(rc) % 4 == 0
      && rc % 2 == r % 2
  {
    RestIs(rc);
    Parity(rc);
    AlignedIsMultiple(rc);
  }

  /** The 16-bit field: seq << 2 with the two low bits put in, truncated by htons. */
  function SeqField(seqno: nat, low: nat): nat
    requires low < 4
  {
    (seqno * 4 + low) % 0x10000
  }

  function Segment(dstMip: byte, srcPort: byte, dstPort: byte, field: nat, sdu: Bytes): Bytes
    requires field < 0x10000
  {
    [dstMip, 0, srcPort, dstPort, field / 256, field % 256] + sdu
  }

  /** The address and port that forward_to_mip reads from its buffer: the first two bytes of
      the message, or what the buffer held before where the message is shorter. */
  function HeaderOf(app: Bytes, stale: (byte, byte)): (byte, byte) {
    (if 1 <= |app| then app[0] else stale.0, if 2 <= |app| then app[1] else stale.1)
  }

  /** A message as forward_to_mip writes it, with the given value in the two low bits. */
  function FrameWith(app: Bytes, stale: (byte, byte), seqno: nat, srcPort: byte, low: nat): Bytes
    requires low < 4
  {
    var header := HeaderOf(app, stale);
    Segment(header.0, srcPort, header.1, SeqField(seqno, low), app + Zeros(PaddingLength(|app|)))
  }

  function FrameOf(app: Bytes, stale: (byte, byte), seqno: nat, srcPort: byte): Bytes {
    FrameWith(app, stale, seqno, srcPort, Rest(|app|))
  }

  /** The frame of a message that has its header. */
  function DataFrame(app: Bytes, seqno: nat, srcPort: byte): Bytes
    requires 2 <= |app|
  {
    FrameOf(app, (0, 0), seqno, srcPort)
  }

  /** An acknowledgement as send_ack writes it. */
  function AckFrame(dstPort: byte, dstMip: byte, seqno: nat, srcPort: byte): Bytes {
    Segment(dstMip, srcPort, dstPort, SeqField(seqno, 2), [0, 0])
  }

  /** The way from one MIPTP daemon to the other through the MIP daemons: the length is
      stored in words in a 9-bit field, and the address becomes the sender's. */
  function Carry(frame: Bytes, srcMip: byte): Bytes
    requires 2 <= |frame|
  {
    ([srcMip, 0] + frame[2..])[..(|frame| / 4) % SDU_LEN_MODULUS * 4]
  }

  function FieldOf(frame: Bytes): nat
    requires 8 <= |frame|
  {
    (frame[4] as int) * 256 + frame[5] as int
  }

  function SeqOf(frame: Bytes): nat
    requires 8 <= |frame|
  {
    FieldOf(frame) / 4
  }

  function LowBits(frame: Bytes): nat
    requires 8 <= |frame|
  {
    FieldOf(frame) % 4
  }

  predicate IsAck(frame: Bytes)
    requires 8 <= |frame|
  {
    |frame| == 8 && LowBits(frame) == 2
  }

  /** What read_message writes to the application: source address and port over the first
      two bytes of the payload, cut by the two low bits. A frame cut below the headers, or
      a negative length, hands nothing over. */
  function Upward(frame: Bytes): Bytes {
    if |frame| < 8 || |frame| - 6 - LowBits(frame) < 0 then []
    else ([frame[0], frame[2]] + frame[8..])[..|frame| - 6 - LowBits(frame)]
  }

  /** The message the sending application meant: its header now names the sender. */
  function Intended(app: Bytes, srcMip: byte, srcPort: byte): Bytes {
    if 2 <= |app| then [srcMip, srcPort] + app[2..] else [srcMip, srcPort][..|app|]
  }

  /** The copy of a message behind the six header bytes of a buffer. */
  method CopyMessage(buffer: array<byte>, app: Bytes)
    requires 6 + |app| <= buffer.Length
    modifies buffer
    ensures forall k :: 0 <= k < buffer.Length ==>
      buffer[k] == if 6 <= k < 6 + |app| then app[k - 6] else old(buffer[k])
  {
    var i := 0;
    while i < |app|
      invariant 0 <= i <= |app|
      invariant forall k :: 0 <= k < buffer.Length ==>
        buffer[k] == if 6 <= k < 6 + i then app[k - 6] else old(buffer[k])
    {
      buffer[6 + i] := app[i];
      i := i + 1;
    }
  }

  /** forward_to_mip filling its zeroed buffer field by field. */
  method FillDataFrame(app: Bytes, stale: (byte, byte), seqno: nat, srcPort: byte)
    returns (buffer: array<byte>, size: nat)
    requires AlignedSize(|app|) <= BUFSIZE
    ensures fresh(buffer) && buffer.Length == BUFSIZE
    ensures size <= BUFSIZE && buffer[..size] == FrameOf(app, stale, seqno, srcPort)
  {
    buffer := new byte[BUFSIZE](_ => 0);
    size := 6 + |app|;
    var rest := size % 4;
    size := size + if rest != 0 then 4 - rest else 0;
    var field := SeqField(seqno, rest);
    CopyMessage(buffer, app);
    var header := HeaderOf(app, stale);
    buffer[0], buffer[2], buffer[3] := header.0, srcPort, header.1;
    buffer[4], buffer[5] := field / 256, field % 256;
    assert buffer[..6] == [header.0, 0, srcPort, header.1, field / 256, field % 256];
    assert buffer[6..size] == app + Zeros(PaddingLength(|app|));
    assert buffer[..size] == buffer[..6] + buffer[6..size];
  }

  /** What of a data frame arrives, for messages of every length: the 9-bit length decides how
      much, and every field that arrives is the one sent. */
  lemma CarriedFields(app: Bytes, stale: (byte, byte), seqno: nat, srcPort: byte, low: nat, srcMip: byte)
    requires low < 4
    ensures var sent := FrameWith(app, stale, seqno, srcPort, low);
      var frame := Carry(sent, srcMip);
      && sent[0] == HeaderOf(app, stale).0
      && |sent| == AlignedSize(|app|) && |frame| == |sent| / 4 % SDU_LEN_MODULUS * 4
      && (8 <= |frame| ==>
        && frame[0] == srcMip && frame[2] == srcPort && frame[3] == HeaderOf(app, stale).1
        && SeqOf(frame) == seqno % SEQ_MODULUS && LowBits(frame) == low)
  {
    FieldSplits(seqno, low);
    var sent := FrameWith(app, stale, seqno, srcPort, low);
    var frame := Carry(sent, srcMip);
    assert |sent| == AlignedSize(|app|);
    if 8 <= |frame| {
      assert forall k :: 2 <= k < 8 ==> frame[k] == sent[k];
      assert FieldOf(frame) == SeqField(seqno, low);
    }
  }

  /** Data is taken for an acknowledgement for two lengths: 0, and 2048, of which the 9-bit
      length leaves the headers. */
  lemma TakenForAckExactly(app: Bytes, stale: (byte, byte), seqno: nat, srcPort: byte, low: nat, srcMip: byte)
    requires AlignedSize(|app|) <= BUFSIZE
    requires low == Rest(|app|) || low == PaddingLength(|app|)
    ensures var frame := Carry(FrameWith(app, stale, seqno, srcPort, low), srcMip);
      8 <= |frame| && IsAck(frame) <==> |app| == 0 || |app| == 2048
  {
    CarriedFields(app, stale, seqno, srcPort, low, srcMip);
    Sizes(|app|);
    Words(|app|);
  }

  /** A frame arrives cut below its headers for the lengths that leave a remainder of 0 or 1
      words in the 9-bit length. */
  lemma CutBelowHeadersExactly(app: Bytes, stale: (byte, byte), seqno: nat, srcPort: byte, srcMip: byte)
    requires AlignedSize(|app|) <= BUFSIZE
    ensures |Carry(FrameOf(app, stale, seqno, srcPort), srcMip)| < 8
      <==> 2039 <= |app| <= 2046 || 4087 <= |app|
  {
    CarriedFields(app, stale, seqno, srcPort, Rest(|app|), srcMip);
    Sizes(|app|);
    Words(|app|);
  }

  /** Of a frame that fits the 9-bit length everything arrives, and the low bits decide what
      is cut off. */
  lemma CarriedDataFrame(app: Bytes, stale: (byte, byte), seqno: nat, srcPort: byte, low: nat, srcMip: byte)
    requires AlignedSize(|app|) < 4 * SDU_LEN_MODULUS
    requires low == Rest(|app|) || low == PaddingLength(|app|)
    ensures var frame := Carry(FrameWith(app, stale, seqno, srcPort, low), srcMip);
      && 8 <= |frame| == AlignedSize(|app|)
      && Upward(frame) ==
        if |app| == 1 then [srcMip][..if low == 1 then 1 else 0]
        else (Intended(app, srcMip, srcPort) + Zeros(PaddingLength(|app|)))[..AlignedSize(|app|) - 6 - low]
  {
    Sizes(|app|);
    CarriedFields(app, stale, seqno, srcPort, low, srcMip);
    CarriedWhole(app, stale, seqno, srcPort, low, srcMip);
  }

  lemma CarriedWhole(app: Bytes, stale: (byte, byte), seqno: nat, srcPort: byte, low: nat, srcMip: byte)
    requires low < 4 && AlignedSize(|app|) < 4 * SDU_LEN_MODULUS
    ensures var frame := Carry(FrameWith(app, stale, seqno, srcPort, low), srcMip);
      && 8 <= |frame| == AlignedSize(|app|)
      && (2 <= |app| ==>
        [frame[0], frame[2]] + frame[8..] == Intended(app, srcMip, srcPort) + Zeros(PaddingLength(|app|)))
  {
    var sent := FrameWith(app, stale, seqno, srcPort, low);
    var frame := Carry(sent, srcMip);
    var payload := app + Zeros(PaddingLength(|app|));
    Sizes(|app|);
    Words(|app|);
    assert |frame| == |sent| == 6 + |payload|;
    if 2 <= |app| {
      assert forall k :: 8 <= k < |frame| ==> frame[k] == sent[k] == payload[k - 6];
      assert frame[8..] == payload[2..] == app[2..] + Zeros(PaddingLength(|app|));
      CarriedFields(app, stale, seqno, srcPort, low, srcMip);
      var header := [srcMip, srcPort];
      assert header + (app[2..] + Zeros(PaddingLength(|app|))) == (header + app[2..]) + Zeros(PaddingLength(|app|));
    }
  }

  lemma FieldSplits(seqno: nat, low: nat)
    requires low < 4
    ensures SeqField(seqno, low) / 4 == seqno % SEQ_MODULUS
    ensures SeqField(seqno, low) % 4 == low
  {
    var q, r := seqno / SEQ_MODULUS, seqno % SEQ_MODULUS;
    assert seqno == SEQ_MODULUS * q + r;
    assert seqno * 4 + low == 0x10000 * q + (4 * r + low);
    Mod16Bits(q, 4 * r + low);
    Mod4(r, low);
  }

  /** The round trip, exactly, for every message of at least one byte that fits the daemon's
      buffer: what arrives is the message meant iff its length is even and it fits the 9-bit
      length field. */
  lemma RoundTripExact(app: Bytes, stale: (byte, byte), seqno: nat, srcPort: byte, srcMip: byte)
    requires 1 <= |app| && AlignedSize(|app|) <= BUFSIZE
    ensures Upward(Carry(FrameOf(app, stale, seqno, srcPort), srcMip)) == Intended(app, srcMip, srcPort)
      <==> |app| % 2 == 0 && AlignedSize(|app|) < 4 * SDU_LEN_MODULUS
  {
    if AlignedSize(|app|) < 4 * SDU_LEN_MODULUS {
      FittingRoundTrip(app, stale, seqno, srcPort, srcMip);
    } else {
      TooLongIsCut(app, stale, seqno, srcPort, srcMip);
    }
  }

  /** The stored remainder is the padding length exactly for even lengths. */
  lemma RestIsPadding(rc: nat)
    ensures Rest(rc) == PaddingLength(rc) <==> rc % 2 == 0
    ensures AlignedSize(rc) - 6 - Rest(rc) == rc + PaddingLength(rc) - Rest(rc)
  {
    Sizes(rc);
  }

  lemma CutToRest(message: Bytes, rest: nat)
    requires rest == Rest(|message|) && rest <= |message| + PaddingLength(|message|)
    ensures (message + Zeros(PaddingLength(|message|)))[..|message| + PaddingLength(|message|) - rest] == message
      <==> rest == PaddingLength(|message|)
  {
    var cut := (message + Zeros(PaddingLength(|message|)))[..|message| + PaddingLength(|message|) - rest];
    assert |cut| == |message| + PaddingLength(|message|) - rest;
  }

  lemma FittingRoundTrip(app: Bytes, stale: (byte, byte), seqno: nat, srcPort: byte, srcMip: byte)
    requires 1 <= |app| && AlignedSize(|app|) < 4 * SDU_LEN_MODULUS
    ensures Upward(Carry(FrameOf(app, stale, seqno, srcPort), srcMip)) == Intended(app, srcMip, srcPort)
      <==> |app| % 2 == 0
  {
    var message := Intended(app, srcMip, srcPort);
    assert |message| == |app|;
    CarriedDataFrame(app, stale, seqno, srcPort, Rest(|app|), srcMip);
    if 2 <= |app| {
      RestIsPadding(|app|);
      CutToRest(message, Rest(|app|));
    }
  }

  lemma TooLongIsCut(app: Bytes, stale: (byte, byte), seqno: nat, srcPort: byte, srcMip: byte)
    requires 4 * SDU_LEN_MODULUS <= AlignedSize(|app|) <= BUFSIZE
    ensures |Upward(Carry(FrameOf(app, stale, seqno, srcPort), srcMip))| < |app|
  {
    var sent := FrameOf(app, stale, seqno, srcPort);
    assert |sent| == AlignedSize(|app|);
    assert |Carry(sent, srcMip)| <= |sent| - 2048;
  }

  /** How an odd length goes wrong: two zero bytes too many, or two bytes too few; a single
      byte gives a negative length and is never handed over. */
  lemma OddLengthDamage(app: Bytes, stale: (byte, byte), seqno: nat, srcPort: byte, srcMip: byte)
    requires |app| % 2 == 1 && AlignedSize(|app|) < 4 * SDU_LEN_MODULUS
    ensures var up := Upward(Carry(FrameOf(app, stale, seqno, srcPort), srcMip));
      up == if |app| % 4 == 3 then Intended(app, srcMip, srcPort) + [0, 0]
            else if |app| == 1 then []
            else Intended(app, srcMip, srcPort)[..|app| - 2]
  {
    var message := Intended(app, srcMip, srcPort);
    CarriedDataFrame(app, stale, seqno, srcPort, Rest(|app|), srcMip);
    CutOdd(message);
  }

  lemma CutOdd(message: Bytes)
    requires |message| % 2 == 1
    ensures AlignedSize(|message|) - 6 - Rest(|message|) == if |message| % 4 == 3 then |message| + 2 else |message| - 2
    ensures |message| >= 2 ==>
      (message + Zeros(PaddingLength(|message|)))[..AlignedSize(|message|) - 6 - Rest(|message|)] ==
        if |message| % 4 == 3 then message + [0, 0] else message[..|message| - 2]
  {
    var n := |message|;
    Sizes(n);
    var padded := message + Zeros(PaddingLength(n));
    if n % 4 == 3 {
      assert padded[..n + 2] == message + [0, 0];
    } else if n >= 2 {
      assert padded[..n - 2] == message[..n - 2];
    }
  }

  /** Storing the true padding length instead of size % 4 makes the round trip hold for
      every length. */
  lemma RoundTripWithTruePadding(app: Bytes, stale: (byte, byte), seqno: nat, srcPort: byte, srcMip: byte)
    requires 1 <= |app| && AlignedSize(|app|) < 4 * SDU_LEN_MODULUS
    ensures var frame := Carry(FrameWith(app, stale, seqno, srcPort, PaddingLength(|app|)), srcMip);
      8 <= |frame| && Upward(frame) == Intended(app, srcMip, srcPort) && !IsAck(frame)
  {
    CarriedDataFrame(app, stale, seqno, srcPort, PaddingLength(|app|), srcMip);
    TakenForAckExactly(app, stale, seqno, srcPort, PaddingLength(|app|), srcMip);
  }

  /** An acknowledgement arrives as an acknowledgement, addressed back to the sender's port. */
  lemma CarriedAckFrame(dstPort: byte, dstMip: byte, seqno: nat, srcPort: byte, srcMip: byte)
    ensures var frame := Carry(AckFrame(dstPort, dstMip, seqno, srcPort), srcMip);
      && |frame| == 8 && IsAck(frame) && SeqOf(frame) == seqno % SEQ_MODULUS
      && frame[0] == srcMip && frame[2] == srcPort && frame[3] == dstPort
      && AckFrame(dstPort, dstMip, seqno, srcPort)[0] == dstMip
  {
    FieldSplits(seqno, 2);
  }
}
