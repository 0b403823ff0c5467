/** The MIP daemon's queue of waiting packets in place (mip_daemon_utils.c): a linked list
    behind a first node that holds no packet. */
module WaitingQueue {
  import opened Framing
  import opened MipDaemon
  import opened Routing

  class WaitingNode {
    var next: WaitingNode?
    var packet: Raw
    /** How many nodes the queue had before this one; it tells the nodes apart. */
    ghost const position: nat

    constructor (packet: Raw, ghost position: nat)
      ensures this.packet == packet && this.position == position && next == null
    {
      this.next, this.packet, this.position := null, packet, position;
    }
  }

  class Queue {
    const head: WaitingNode
    ghost var rest: seq<WaitingNode>
    ghost var contents: seq<Raw>
    ghost var repr: set<object>

    ghost predicate Valid()
      reads this, repr
      ensures Valid() ==> this in repr
    {
      && this in repr && head in repr && head.position == 0
      && |contents| == |rest|
      && head.next == (if rest == [] then null else rest[0])
      && (forall i :: 0 <= i < |rest| ==> rest[i] in repr && rest[i].packet == contents[i])
      && (forall i :: 0 <= i < |rest| ==> rest[i].position == rest[0].position + i && rest[i].position > 0)
      && (forall i :: 0 <= i < |rest| ==> rest[i].next == Successor(rest, i))
    }

    static ghost function Successor(nodes: seq<WaitingNode>, i: nat): WaitingNode? {
      if i + 1 < |nodes| then nodes[i + 1] else null
    }

    constructor ()
      ensures Valid() && fresh(repr) && contents == []
    {
      var first := new WaitingNode(Raw(0, 0, 0, 0, 0, []), 0);
      head := first;
      rest, contents, repr := [], [], {this, first};
    }

    method Last() returns (last: WaitingNode)
      requires Valid()
      ensures last == if rest == [] then head else rest[|rest| - 1]
    {
      last := head;
      ghost var at := -1;
      while last.next != null
        invariant -1 <= at < |rest| && last == if at == -1 then head else rest[at]
        decreases |rest| - at
      {
        last, at := last.next, at + 1;
      }
    }

    /** add_to_waiting_queue */
    method Add(packet: Raw)
      requires Valid()
      modifies repr
      ensures Valid() && fresh(repr - old(repr))
      ensures contents == old(contents) + [packet]
    {
      var last := Last();
      var node := new WaitingNode(packet, if rest == [] then 1 else rest[0].position + |rest|);
      last.next := node;
      rest, contents, repr := rest + [node], contents + [packet], repr + {node};
    }

    /** pop_waiting_queue: the first packet, or whatever the first node holds if none waits. */
    method Pop() returns (packet: Raw)
      requires Valid()
      modifies repr
      ensures Valid() && repr == old(repr)
      ensures old(contents) != [] ==> packet == old(contents)[0] && contents == old(contents)[1..]
      ensures old(contents) == [] ==> packet == old(head.packet) && contents == []
    {
      var first := head.next;
      if first == null {
        return head.packet;
      }
      head.next := first.next;
      packet := first.packet;
      rest, contents := rest[1..], contents[1..];
    }
  }

  /** The MIP daemon with its queue, its requests to the routing daemon and what it sends. */
  class Daemon {
    const me: byte
    const queue: Queue
    /** The daemon as MipDaemon sees it, with the requests and answers on their way. */
    ghost var pipe: Pipe
    ghost var repr: set<object>

    ghost predicate Valid()
      reads this, repr
      ensures Valid() ==> this in repr
    {
      && this in repr && queue in repr && queue.repr <= repr && this !in queue.repr && queue.Valid()
      && pipe.me == me && pipe.queue == queue.contents
    }

    constructor (me: byte)
      ensures Valid() && fresh(repr) && this.me == me && queue.contents == [] && pipe == Idle(me)
    {
      this.me := me;
      queue := new Queue();
      pipe := Idle(me);
      new;
      repr := {this} + queue.repr;
    }

    /** The routing daemon answers its oldest request. */
    ghost method RoutingDaemonAnswers(table: Table)
      requires Valid()
      modifies this
      ensures Valid() && repr == old(repr) && pipe == Step(old(pipe), RouterAnswers(table))
    {
      pipe := Step(pipe, RouterAnswers(table));
    }

    /** An application's packet: ask for the route, then let it wait. */
    method HandleApplication(frame: Bytes, sduType: byte) returns (request: byte)
      requires Valid() && 2 <= |frame|
      modifies repr
      ensures Valid() && fresh(repr - old(repr))
      ensures queue.contents == old(queue.contents) + [Accept(me, frame, sduType)]
      ensures var p := Accept(me, frame, sduType);
        && request == p.dst == frame[0] && p.src == me && p.sduType == sduType
        && p.ttl == (if frame[1] == 0 then 3 else frame[1] % 16)
      ensures pipe == Step(old(pipe), FromApplication(frame, sduType))
    {
      var ttl := if frame[1] == 0 then DEFAULT_TTL else frame[1];
      request := frame[0];
      queue.Add(Raw(frame[0], me, ttl % 16, (|frame| / 4) % SDU_LEN_MODULUS, sduType, frame[2..] + [0, 0]));
      repr := repr + queue.repr;
      pipe := Step(pipe, FromApplication(frame, sduType));
    }

    /** The raw-socket branch for packets that are not for this daemon. */
    method HandleForeign(p: Raw) returns (request: seq<byte>)
      requires Valid() && p.dst != me && (p.sduType == PING || p.sduType == TRANSPORT) && p.ttl < 16
      modifies repr
      ensures Valid() && fresh(repr - old(repr))
      ensures match OnRaw(me, p)
        case PassOn(q) => queue.contents == old(queue.contents) + [q] && request == [q.dst]
        case _ => p.ttl == 0 && queue.contents == old(queue.contents) && request == []
      ensures pipe == Step(old(pipe), FromNetwork(p))
    {
      request := [];
      if p.ttl == 0 {
        return;
      }
      var q := p.(ttl := p.ttl - 1);
      if q.ttl > 0 || q.ttl != 15 {
        queue.Add(q);
        repr := repr + queue.repr;
        pipe := Step(pipe, FromNetwork(p));
        request := [q.dst];
      }
    }

    ghost predicate OldestAnswer(next: byte)
      reads this
    {
      pipe.answers != [] && pipe.answers[0].next == next
    }

    /** The answer branch of handle_routing_msg, the next hop's hardware address being cached.
        On an empty queue what the first node holds is sent. */
    method HandleAnswer(next: byte) returns (sent: seq<(Raw, byte)>)
      requires Valid()
      modifies repr
      ensures Valid() && repr == old(repr)
      ensures old(OldestAnswer(next)) ==> pipe == Step(old(pipe), AnswerArrives)
      ensures next == 255 ==> sent == [] && queue.contents == old(queue.contents)
      ensures next != 255 && old(queue.contents) != [] ==>
        sent == [(old(queue.contents)[0], next)] && queue.contents == old(queue.contents)[1..]
      ensures next != 255 && old(queue.contents) == [] ==>
        sent == [(old(queue.head.packet), next)] && queue.contents == []
    {
      sent := [];
      if next != 255 {
        var packet := queue.Pop();
        sent := [(packet, next)];
      }
      pipe := if OldestAnswer(next) then Step(pipe, AnswerArrives) else pipe.(queue := queue.contents);
    }
  }
}
