/** The queue of unacknowledged messages of one application host (miptp_utils.c): a linked
    list behind a dummy head, in place, refining a sequence of queued messages. */
module SendQueue {
  import opened Framing

  const WINDOW: nat := 16

  /** What a node keeps of a message: its 14-bit sequence number and the frame to write. */
  datatype Queued = Queued(seqno: nat, frame: Bytes)

  function Min(a: nat, b: nat): nat {
    if a < b then a else b
  }

  function Frames(q: seq<Queued>): (frames: seq<Bytes>)
    ensures |frames| == |q|
  {
    seq(|q|, i requires 0 <= i < |q| => q[i].frame)
  }

  lemma FramesAppend(q: seq<Queued>, i: nat)
    requires i < |q|
    ensures Frames(q[..i + 1]) == Frames(q[..i]) + [q[i].frame]
  {
  }

  /** The part of the queue that a timeout writes again. */
  function Window(q: seq<Queued>): seq<Queued> {
    q[..Min(WINDOW, |q|)]
  }

  /** The frames of the first sixteen messages of a queue, or of all if there are fewer. */
  predicate WindowWritten(written: seq<Bytes>, q: seq<Queued>) {
    && |written| == Min(WINDOW, |q|)
    && forall k :: 0 <= k < |written| ==> written[k] == q[k].frame
  }

  lemma WindowExact(q: seq<Queued>)
    ensures WindowWritten(Frames(Window(q)), q)
    ensures forall written :: WindowWritten(written, q) ==> written == Frames(Window(q))
  {
  }

  class MessageNode {
    var next: MessageNode?
    var item: Queued
    var time: int
    /** How many nodes the queue had before this one; it tells the nodes apart. */
    ghost const position: nat

    constructor (item: Queued, time: int, ghost position: nat)
      ensures this.item == item && this.time == time && this.position == position && next == null
    {
      this.next, this.item, this.time, this.position := null, item, time, position;
    }
  }

  class MessageQueue {
    var head: MessageNode
    ghost var spine: seq<MessageNode>
    ghost var contents: seq<Queued>
    ghost var repr: set<object>

    static ghost function Successor(spine: seq<MessageNode>, i: nat): MessageNode? {
      if i + 1 < |spine| then spine[i + 1] else null
    }

    ghost predicate Valid()
      reads this, repr
      ensures Valid() ==> this in repr
    {
      && this in repr && (forall i :: 0 <= i < |spine| ==> spine[i] in repr)
      && 1 <= |spine| && spine[0] == head
      && |contents| == |spine| - 1
      && (forall i :: 0 <= i < |spine| ==> spine[i].position == head.position + i)
      && (forall i :: 0 <= i < |spine| ==> spine[i].next == Successor(spine, i))
      && (forall i :: 1 <= i < |spine| ==> spine[i].item == contents[i - 1])
    }

    /** The dummy head that a newly connected application gets. */
    constructor ()
      ensures Valid() && contents == []
      ensures fresh(repr)
    {
      var dummy := new MessageNode(Queued(0, []), 0, 0);
      head := dummy;
      spine, contents, repr := [dummy], [], {this, dummy};
    }

    /** The walk of add_to_queue to the last node. */
    method Last() returns (last: MessageNode, index: nat)
      requires Valid()
      ensures index == |contents| && last == spine[index]
    {
      last, index := head, 0;
      while last.next != null
        invariant index < |spine| && last == spine[index]
        decreases |spine| - index
      {
        last, index := last.next, index + 1;
      }
    }

    /** A node is in the queue once. */
    lemma NodesDiffer(i: nat)
      requires Valid() && i < |spine|
      ensures forall k :: 0 <= k < |spine| && k != i ==> spine[k] != spine[i]
    {
      assert forall k :: 0 <= k < |spine| ==> spine[k].position == head.position + k;
    }

    method LinkBehind(last: MessageNode, node: MessageNode)
      requires Valid() && last == spine[|spine| - 1]
      requires node !in repr && node.next == null && node.position == head.position + |spine|
      modifies repr
      ensures Valid() && repr == old(repr) + {node}
      ensures contents == old(contents) + [node.item] && spine == old(spine) + [node]
      ensures forall n :: n in spine ==> n.time == old(n.time)
    {
      NodesDiffer(|spine| - 1);
      last.next := node;
      spine, contents, repr := spine + [node], contents + [node.item], repr + {node};
    }

    /** add_to_queue: link the new node behind the last one. */
    method AddToQueue(item: Queued, time: int) returns (index: nat)
      requires Valid()
      modifies repr
      ensures Valid() && fresh(repr - old(repr))
      ensures contents == old(contents) + [item]
      ensures spine[..|spine| - 1] == old(spine) && spine[|spine| - 1].time == time
      ensures forall n :: n in old(spine) ==> n.time == old(n.time)
      ensures index == |old(contents)|
    {
      var last;
      last, index := Last();
      var node := new MessageNode(item, time, head.position + |spine|);
      LinkBehind(last, node);
    }

    /** The message at the front, if there is one. */
    method Front() returns (front: MessageNode?)
      requires Valid()
      ensures front == null <==> contents == []
      ensures front != null ==> front == spine[1] && front.item == contents[0]
    {
      front := head.next;
    }

    /** An acknowledged front node becomes the new dummy head. */
    method Advance()
      requires Valid() && contents != []
      modifies this
      ensures Valid() && repr == old(repr) && contents == old(contents)[1..]
      ensures spine == old(spine)[1..]
    {
      head := head.next;
      spine, contents := spine[1..], contents[1..];
    }

    /** Step to the next message and stamp it. */
    method StampNext(current: MessageNode, ghost i: nat, now: int) returns (next: MessageNode)
      requires Valid() && i + 1 < |spine| && current == spine[i]
      modifies repr
      ensures Valid() && repr == old(repr) && contents == old(contents) && spine == old(spine)
      ensures next == spine[i + 1] && next.item == contents[i]
      ensures forall k :: 0 <= k < |spine| ==> spine[k].time == if k == i + 1 then now else old(spine[k].time)
    {
      next := current.next;
      NodesDiffer(i + 1);
      next.time := now;
    }

    /** resend_window: write the first sixteen messages again and stamp them. */
    method ResendWindow(now: int) returns (written: seq<Bytes>)
      requires Valid()
      modifies repr
      ensures Valid() && repr == old(repr) && contents == old(contents) && spine == old(spine)
      ensures WindowWritten(written, contents)
      ensures forall k :: 1 <= k < |spine| ==> spine[k].time == if k <= WINDOW then now else old(spine[k].time)
    {
      var current := head;
      var i := 0;
      written := [];
      ghost var nodes := spine;
      ghost var times := seq(|nodes|, k requires 0 <= k < |nodes| reads * => nodes[k].time);
      while i < 16 && current.next != null
        invariant i <= 16 && i < |nodes| && current == nodes[i]
        invariant Valid() && repr == old(repr) && contents == old(contents) && spine == nodes
        invariant forall k :: 1 <= k < |nodes| ==> nodes[k].time == if k <= i then now else times[k]
        invariant written == Frames(contents[..i])
        decreases |spine| - i
      {
        current := StampNext(current, i, now);
        FramesAppend(contents, i);
        written := written + [current.item.frame];
        i := i + 1;
      }
      assert contents[..i] == Window(contents);
    }

    /** send_next as it stands: its loop runs to the end of the list without counting, so
        the test for the sixteenth message fails and nothing is written. */
    method SendNext() returns (written: seq<Bytes>)
      requires Valid()
      ensures written == []
    {
      var current := head;
      var i := 0;
      written := [];
      ghost var at := 0;
      while current.next != null && i != 15
        invariant i == 0 && at < |spine| && current == spine[at]
        decreases |spine| - at
      {
        current := current.next;
        at := at + 1;
      }
      if i == 15 {
        assert false; // the branch that writes the sixteenth message is never taken
      }
    }
  }
}
