/** The routing table in place (routing_utils.c): a linked list behind an empty first node,
    proved against the functions of Routing. */
module RoutingTable {
  import opened Framing
  import opened Routing

  class RouteNode {
    var next: RouteNode?
    var mip: byte
    var distance: byte
    var nextMip: byte
    var lastRcv: int
    /** How many nodes the list had before this one; it tells the nodes apart. */
    ghost const position: nat

    constructor (e: Entry, ghost position: nat)
      ensures Value() == e && next == null && this.position == position
    {
      next, mip, distance, nextMip, lastRcv := null, e.mip, e.dist, e.next, e.heard;
      this.position := position;
    }

    function Value(): Entry
      reads this
    {
      Entry(mip, distance, nextMip, lastRcv)
    }
  }

  class RoutingList {
    var head: RouteNode
    ghost var spine: seq<RouteNode>
    ghost var entries: Table
    ghost var repr: set<object>

    static ghost function Successor(spine: seq<RouteNode>, i: nat): RouteNode? {
      if i + 1 < |spine| then spine[i + 1] else null
    }

    ghost predicate Valid()
      reads this, repr
      ensures Valid() ==> this in repr
    {
      && this in repr && (forall i :: 0 <= i < |spine| ==> spine[i] in repr)
      && 1 <= |spine| && spine[0] == head
      && |entries| == |spine| - 1
      && (forall i :: 0 <= i < |spine| ==> spine[i].position == i)
      && (forall i :: 0 <= i < |spine| ==> spine[i].next == Successor(spine, i))
      && (forall i :: 1 <= i < |spine| ==> spine[i].Value() == entries[i - 1])
      && UniqueKeys(entries)
    }

    constructor ()
      ensures Valid() && fresh(repr) && entries == []
    {
      var first := new RouteNode(Entry(0, 0, 0, 0), 0);
      head := first;
      spine, entries, repr := [first], [], {this, first};
    }

    /** A node is in the list once. */
    lemma NodesDiffer(i: nat)
      requires Valid() && i < |spine|
      ensures forall k :: 0 <= k < |spine| && k != i ==> spine[k] != spine[i]
    {
      assert forall k :: 0 <= k < |spine| ==> spine[k].position == k;
    }

    /** Overwrite a node's distance. */
    method SetDistance(node: RouteNode, ghost i: nat, distance: byte)
      requires Valid() && i < |entries| && node == spine[i + 1]
      modifies repr
      ensures Valid() && repr == old(repr) && spine == old(spine) && head == old(head)
      ensures entries == old(entries)[i := old(entries)[i].(dist := distance)]
    {
      NodesDiffer(i + 1);
      KeysKept(entries, i, entries[i].(dist := distance));
      node.distance := distance;
      entries := entries[i := entries[i].(dist := distance)];
    }

    /** Overwrite the time of a node's last hello. */
    method SetHeard(node: RouteNode, ghost i: nat, now: int)
      requires Valid() && i < |entries| && node == spine[i + 1]
      modifies repr
      ensures Valid() && repr == old(repr) && spine == old(spine) && head == old(head)
      ensures entries == old(entries)[i := old(entries)[i].(heard := now)]
    {
      NodesDiffer(i + 1);
      KeysKept(entries, i, entries[i].(heard := now));
      node.lastRcv := now;
      entries := entries[i := entries[i].(heard := now)];
    }

    /** A hello of a listed neighbour. */
    method Refresh(node: RouteNode, ghost i: nat, now: int) returns (changed: bool)
      requires Valid() && i < |entries| && node == spine[i + 1]
      modifies repr
      ensures Valid() && repr == old(repr)
      ensures entries == old(entries)[i := old(entries)[i].(heard := now, dist := 1)]
      ensures changed <==> old(entries)[i].dist != 1
    {
      SetHeard(node, i, now);
      assert node.Value() == entries[i];
      changed := node.distance != 1;
      if changed {
        SetDistance(node, i, 1);
      }
    }

    method Last() returns (last: RouteNode)
      requires Valid()
      ensures last == spine[|spine| - 1]
    {
      last := head;
      ghost var at := 0;
      while last.next != null
        invariant at < |spine| && last == spine[at]
        decreases |spine| - at
      {
        last, at := last.next, at + 1;
      }
    }

    /** Put a node behind the last one. */
    method LinkBehind(last: RouteNode, node: RouteNode)
      requires Valid() && last == spine[|spine| - 1] && !Has(entries, node.mip)
      requires node !in repr && node.next == null && node.position == |spine|
      modifies repr
      ensures Valid() && repr == old(repr) + {node}
      ensures entries == old(entries) + [old(node.Value())]
    {
      NodesDiffer(|spine| - 1);
      KeysOneMore(entries, node.Value());
      last.next := node;
      spine, entries, repr := spine + [node], entries + [node.Value()], repr + {node};
    }

    /** add_to_linked_list */
    method AddToLinkedList(distance: byte, mip: byte, nextMip: byte, now: int)
      requires Valid() && !Has(entries, mip)
      modifies repr
      ensures Valid() && fresh(repr - old(repr))
      ensures entries == old(entries) + [Entry(mip, distance, nextMip, now)]
    {
      var last := Last();
      var node := new RouteNode(Entry(mip, distance, nextMip, now), |spine|);
      LinkBehind(last, node);
    }

    /** Walk to the node of an address. */
    method Find(mip: byte) returns (node: RouteNode?, ghost i: nat)
      requires Valid()
      ensures node == null <==> !Has(entries, mip)
      ensures node != null ==> i < |entries| && node == spine[i + 1] && IndexOf(entries, mip) == i
    {
      var current := head;
      i := 0;
      while current.next != null
        invariant i < |spine| && current == spine[i]
        invariant forall k :: 0 <= k < i ==> entries[k].mip != mip
        decreases |spine| - i
      {
        current := current.next;
        assert current.Value() == entries[i];
        if current.mip == mip {
          return current, i;
        }
        i := i + 1;
      }
      node := null;
    }

    /** handle_hello */
    method HandleHello(mip: byte, now: int) returns (changed: bool)
      requires Valid()
      modifies repr
      ensures Valid() && fresh(repr - old(repr))
      ensures entries == Routing.HandleHello(old(entries), mip, now)
      ensures changed <==> HelloChanges(old(entries), mip)
    {
      var node, i := Find(mip);
      if node != null {
        changed := Refresh(node, i, now);
      } else {
        AddToLinkedList(1, mip, mip, now);
        changed := true;
      }
    }

    /** A pair of an update meets the node of its target. */
    method MeetPair(node: RouteNode, ghost i: nat, src: byte, p: Pair) returns (changed: bool)
      requires Valid() && i < |entries| && node == spine[i + 1]
      modifies repr
      ensures Valid() && repr == old(repr) && spine == old(spine) && head == old(head)
      ensures entries == old(entries)[i := Adjust(old(entries)[i], src, p)]
      ensures changed <==> Adjusts(old(entries)[i], src, p)
    {
      assert node.Value() == entries[i];
      changed := false;
      if p.dist == MAX_DISTANCE && src == node.nextMip {
        SetDistance(node, i, MAX_DISTANCE);
        changed := true;
      } else if node.distance > p.dist + 1 {
        SetDistance(node, i, p.dist + 1);
        changed := true;
      }
    }

    /** A node on the way: it is met iff it is the target's. */
    method MeetNode(node: RouteNode, ghost i: nat, src: byte, p: Pair) returns (met: bool, changed: bool)
      requires Valid() && i < |entries| && node == spine[i + 1]
      modifies repr
      ensures Valid() && repr == old(repr) && spine == old(spine) && head == old(head)
      ensures met <==> old(entries)[i].mip == p.target
      ensures entries == if met then old(entries)[i := Adjust(old(entries)[i], src, p)] else old(entries)
      ensures changed <==> met && Adjusts(old(entries)[i], src, p)
    {
      assert node.Value() == entries[i];
      met, changed := node.mip == p.target, false;
      if met {
        changed := MeetPair(node, i, src, p);
      }
    }

    /** One pair of an update meets the whole list. */
    method MeetAll(src: byte, p: Pair) returns (known: bool, changed: bool)
      requires Valid()
      modifies repr
      ensures Valid() && repr == old(repr)
      ensures known <==> Has(old(entries), p.target)
      ensures known ==>
        entries == ApplyPair(old(entries), src, p, 0) && (changed <==> PairChanges(old(entries), src, p))
      ensures !known ==> entries == old(entries) && !changed
    {
      ghost var before := entries;
      var current := head;
      known, changed := false, false;
      ghost var at := 0;
      while current.next != null
        invariant at < |spine| && current == spine[at]
        invariant Valid() && repr == old(repr) && spine == old(spine)
        invariant entries == Met(before, src, p, at)
        invariant known <==> Meets(before, p, at)
        invariant changed <==> MeetingChanges(before, src, p, at)
        decreases |spine| - at
      {
        current := current.next;
        MetFacts(before, src, p, at);
        var met, c := MeetNode(current, at, src, p);
        known, changed := known || met, changed || c;
        at := at + 1;
      }
      MetIsApplied(before, src, p);
    }

    /** One pair of an update: the walk over the whole list, then a new node if the target
        was not met. */
    method HandlePair(src: byte, p: Pair, now: int) returns (changed: bool)
      requires Valid()
      modifies repr
      ensures Valid() && fresh(repr - old(repr))
      ensures entries == ApplyPair(old(entries), src, p, now)
      ensures changed <==> PairChanges(old(entries), src, p)
    {
      var known;
      known, changed := MeetAll(src, p);
      if !known {
        AddToLinkedList((p.dist + 1) % 256, p.target, src, now);
        changed := true;
      }
    }

    /** The next pair of the message, after those before it turned before into entries. */
    method HandleNextPair(src: byte, ghost done: seq<Pair>, p: Pair, now: int, ghost before: Table)
      returns (changed: bool)
      requires Valid() && entries == Merge(before, src, done, now)
      modifies repr
      ensures Valid() && fresh(repr - old(repr))
      ensures entries == Merge(before, src, done + [p], now)
      ensures MergeChanges(before, src, done + [p], now) <==> MergeChanges(before, src, done, now) || changed
    {
      MergeOneMore(before, src, done, p, now);
      changed := HandlePair(src, p, now);
    }

    /** update_routing_list without its last step: all pairs of the message in turn. */
    method MergePairs(src: byte, pairs: seq<Pair>, now: int) returns (changed: bool)
      requires Valid()
      modifies repr
      ensures Valid() && fresh(repr - old(repr))
      ensures entries == Merge(old(entries), src, pairs, now)
      ensures changed <==> MergeChanges(old(entries), src, pairs, now)
    {
      changed := false;
      ghost var before, done := entries, [];
      var i := 0;
      while i < |pairs|
        invariant i <= |pairs| && done == pairs[..i]
        invariant Valid() && fresh(repr - old(repr))
        invariant entries == Merge(before, src, done, now)
        invariant changed <==> MergeChanges(before, src, done, now)
      {
        var c := HandleNextPair(src, done, pairs[i], now, before);
        assert MergeChanges(before, src, done + [pairs[i]], now) <==> changed || c;
        changed, done, i := changed || c, done + [pairs[i]], i + 1;
      }
      assert done == pairs;
    }

    static method Put(list: array<byte>, n: nat, mip: byte)
      requires n < list.Length
      modifies list
      ensures list[..n + 1] == old(list[..n]) + [mip]
    {
      list[n] := mip;
    }

    /** The first inner loop of update_broken_paths: the addresses at MAX_DISTANCE, as far as
        the list has room for them. */
    method CollectBroken(list: array<byte>) returns (n: nat, overflow: bool)
      requires Valid() && list !in repr
      modifies list
      ensures overflow <==> |DeadAddresses(entries)| > list.Length
      ensures !overflow ==> n <= list.Length && list[..n] == DeadAddresses(entries)
    {
      var current := head;
      n := 0;
      ghost var at := 0;
      assert entries[..0] == [];
      while current.next != null
        invariant at < |spine| && current == spine[at]
        invariant Valid()
        invariant n <= list.Length && list[..n] == DeadAddresses(entries[..at])
        decreases |spine| - at
      {
        current := current.next;
        assert current.Value() == entries[at];
        DeadOneMore(entries, at);
        at := at + 1;
        if current.distance == MAX_DISTANCE {
          if n == list.Length {
            DeadAddressesPrefix(entries, at);
            return n, true;
          }
          Put(list, n, current.mip);
          n := n + 1;
        }
      }
      assert entries[..at] == entries;
      overflow := false;
    }

    /** The second inner loop: every live node whose next hop is the given address dies. */
    method MarkThrough(mip: byte) returns (changed: bool)
      requires Valid()
      modifies repr
      ensures Valid() && repr == old(repr)
      ensures entries == Mark(old(entries), mip, |old(entries)|)
      ensures changed <==> entries != old(entries)
    {
      var current := head;
      changed := false;
      ghost var at := 0;
      ghost var before := entries;
      while current.next != null
        invariant at < |spine| && current == spine[at]
        invariant Valid() && repr == old(repr) && spine == old(spine)
        invariant entries == Mark(before, mip, at)
        invariant changed <==> entries != before
        decreases |spine| - at
      {
        current := current.next;
        assert current.Value() == entries[at];
        MarkFacts(before, mip, at);
        if current.distance != MAX_DISTANCE && mip == current.nextMip {
          SetDistance(current, at, MAX_DISTANCE);
          changed := true;
        }
        at := at + 1;
      }
    }

    /** The loop over update_list: everything routed through its addresses dies. */
    method MarkAllThrough(list: array<byte>, n: nat) returns (changed: bool)
      requires Valid() && list !in repr && n <= list.Length
      modifies repr
      ensures Valid() && repr == old(repr)
      ensures entries == MarkAll(old(entries), list[..n])
      ensures changed <==> entries != old(entries)
    {
      ghost var before := entries;
      changed := false;
      var i := 0;
      while i < n
        invariant i <= n && Valid() && repr == old(repr)
        invariant entries == MarkAll(before, list[..i])
        invariant changed <==> entries != before
      {
        assert list[..i + 1][..i] == list[..i];
        MarkAllMarks(before, list[..i]);
        MarkMarks(entries, list[i]);
        var c := MarkThrough(list[i]);
        changed := changed || c;
        i := i + 1;
      }
    }

    /** One pass of the outer loop of update_broken_paths. More than MAX_NODES dead addresses
        are written behind the list. */
    method Pass() returns (marked: bool, overflow: bool)
      requires Valid()
      modifies repr
      ensures Valid() && repr == old(repr)
      ensures overflow <==> |DeadAddresses(old(entries))| > MAX_NODES
      ensures entries == if overflow then old(entries) else MarkAll(old(entries), DeadAddresses(old(entries)))
      ensures marked <==> entries != old(entries)
    {
      var updateList := new byte[MAX_NODES];
      var n;
      n, overflow := CollectBroken(updateList);
      marked := false;
      if !overflow {
        marked := MarkAllThrough(updateList, n);
      }
    }

    /** update_broken_paths: it overruns its list exactly if more than MAX_NODES entries are dead
        in the end. */
    method UpdateBrokenPaths() returns (change: bool, overflow: bool)
      requires Valid()
      modifies repr
      ensures Valid() && repr == old(repr)
      ensures overflow <==> NumDead(Closure(old(entries))) > MAX_NODES
      ensures !overflow ==> entries == Closure(old(entries)) && (change <==> entries != old(entries))
    {
      ghost var before := entries;
      DeadCounted(Closure(before));
      var done := true;
      change, overflow := false, false;
      while done
        invariant Valid() && repr == old(repr)
        invariant PartlyMarked(before, entries)
        invariant !done ==> Closed(entries) && |DeadAddresses(entries)| <= MAX_NODES
        invariant change <==> entries != before
        decreases NumLive(entries), done
      {
        PassFacts(before, entries);
        done, overflow := Pass();
        if overflow {
          FewerDeadThanClosure(before, entries);
          return;
        }
        change := change || done;
      }
      ClosedIsClosure(before, entries);
    }

    /** update_routing_list */
    method UpdateRoutingList(src: byte, pairs: seq<Pair>, now: int) returns (changed: bool, overflow: bool)
      requires Valid()
      modifies repr
      ensures Valid() && fresh(repr - old(repr))
      ensures overflow <==> NumDead(Receive(old(entries), src, pairs, now)) > MAX_NODES
      ensures !overflow ==>
        && entries == Receive(old(entries), src, pairs, now)
        && (changed <==> ReceiveChanges(old(entries), src, pairs, now))
    {
      changed := MergePairs(src, pairs, now);
      var broken;
      broken, overflow := UpdateBrokenPaths();
      if broken {
        changed := true;
      }
    }

    /** lookup */
    method LookupNext(target: byte) returns (next: byte)
      requires Valid()
      ensures next == Lookup(entries, target)
    {
      var current := head;
      ghost var at := 0;
      assert entries[0..] == entries;
      while current.next != null
        invariant at < |spine| && current == spine[at]
        invariant Lookup(entries, target) == Lookup(entries[at..], target)
        decreases |spine| - at
      {
        current := current.next;
        assert current.Value() == entries[at] && entries[at..][1..] == entries[at + 1..];
        if current.mip == target && current.distance != MAX_DISTANCE {
          return current.nextMip;
        }
        at := at + 1;
      }
      return NO_HOP;
    }

    /** The message list that send_update builds for one neighbour. */
    method BuildPairs(dst: byte) returns (pairs: seq<Pair>)
      requires Valid()
      ensures pairs == PairsFor(entries, dst)
    {
      var current := head;
      pairs := [];
      ghost var at := 0;
      assert entries[..0] == [];
      while current.next != null
        invariant at < |spine| && current == spine[at]
        invariant pairs == PairsFor(entries[..at], dst)
        decreases |spine| - at
      {
        current := current.next;
        assert current.Value() == entries[at] && entries[..at + 1][..at] == entries[..at];
        at := at + 1;
        if current.mip == dst {
          continue;
        } else if current.nextMip == dst {
          pairs := pairs + [Pair(current.mip, MAX_DISTANCE)];
        } else {
          pairs := pairs + [Pair(current.mip, current.distance)];
        }
      }
      assert entries[..at] == entries;
    }

    /** send_update */
    method SendUpdate() returns (sent: seq<Update>)
      requires Valid()
      ensures sent == Updates(entries)
    {
      var current := head;
      sent := [];
      ghost var at := 0;
      while current.next != null
        invariant at < |spine| && current == spine[at]
        invariant sent == UpdatesTo(entries, at)
        decreases |spine| - at
      {
        current := current.next;
        assert current.Value() == entries[at];
        at := at + 1;
        if current.distance == 1 {
          var pairs := BuildPairs(current.mip);
          sent := sent + [Update(current.mip, pairs)];
        }
      }
    }

    /** identify_broken_path */
    method IdentifyBrokenPath(now: int) returns (sent: seq<Update>)
      requires Valid()
      modifies repr
      ensures Valid() && repr == old(repr)
      ensures (entries, sent) == Scan(old(entries), |old(entries)|, now)
    {
      var current := head;
      sent := [];
      ghost var before := entries;
      ghost var at := 0;
      while current.next != null
        invariant at < |spine| && current == spine[at]
        invariant Valid() && repr == old(repr) && spine == old(spine)
        invariant (entries, sent) == Scan(before, at, now)
        decreases |spine| - at
      {
        current := current.next;
        assert current.Value() == entries[at];
        if current.distance == 1 && now - current.lastRcv > 12 {
          SetDistance(current, at, MAX_DISTANCE);
          var more := SendUpdate();
          sent := sent + more;
        }
        at := at + 1;
      }
    }
  }

  predicate Adjusts(e: Entry, src: byte, p: Pair) {
    (p.dist == MAX_DISTANCE && src == e.next) || e.dist > p.dist + 1
  }

  /** The table after a pair met its first n entries. */
  function Met(t: Table, src: byte, p: Pair, n: nat): Table {
    seq(|t|, i requires 0 <= i < |t| => if i < n && t[i].mip == p.target then Adjust(t[i], src, p) else t[i])
  }

  predicate Meets(t: Table, p: Pair, n: nat) {
    exists i :: 0 <= i < n && i < |t| && t[i].mip == p.target
  }

  predicate MeetingChanges(t: Table, src: byte, p: Pair, n: nat) {
    exists i :: 0 <= i < n && i < |t| && t[i].mip == p.target && Adjusts(t[i], src, p)
  }

  lemma MetFacts(t: Table, src: byte, p: Pair, n: nat)
    requires n < |t|
    ensures Met(t, src, p, n)[n] == t[n]
    ensures Met(t, src, p, n + 1) ==
      if t[n].mip == p.target then Met(t, src, p, n)[n := Adjust(t[n], src, p)] else Met(t, src, p, n)
    ensures Meets(t, p, n + 1) <==> Meets(t, p, n) || t[n].mip == p.target
    ensures MeetingChanges(t, src, p, n + 1) <==>
      MeetingChanges(t, src, p, n) || (t[n].mip == p.target && Adjusts(t[n], src, p))
  {
  }

  lemma MetIsApplied(t: Table, src: byte, p: Pair)
    requires UniqueKeys(t)
    ensures Meets(t, p, |t|) <==> Has(t, p.target)
    ensures Has(t, p.target) ==>
      Met(t, src, p, |t|) == ApplyPair(t, src, p, 0) && (MeetingChanges(t, src, p, |t|) <==> PairChanges(t, src, p))
    ensures !Has(t, p.target) ==> Met(t, src, p, |t|) == t && !MeetingChanges(t, src, p, |t|)
  {
    var i := IndexOf(t, p.target);
    if i != -1 {
      assert t[i].mip == p.target;
      assert Met(t, src, p, |t|) == t[i := Adjust(t[i], src, p)];
    }
  }

  lemma KeysKept(t: Table, i: nat, e: Entry)
    requires UniqueKeys(t) && i < |t| && e.mip == t[i].mip
    ensures UniqueKeys(t[i := e])
  {
  }

  lemma KeysOneMore(t: Table, e: Entry)
    requires UniqueKeys(t) && !Has(t, e.mip)
    ensures UniqueKeys(t + [e])
  {
  }

  /** The table after the first n entries were looked at for the broken next hop mip. */
  function Mark(t: Table, mip: byte, n: nat): Table
    requires n <= |t|
  {
    seq(|t|, i requires 0 <= i < |t| =>
      if i < n && t[i].dist != MAX_DISTANCE && t[i].next == mip then t[i].(dist := MAX_DISTANCE) else t[i])
  }

  lemma MarkFacts(t: Table, mip: byte, n: nat)
    requires n < |t|
    ensures Mark(t, mip, n)[n] == t[n]
    ensures Mark(t, mip, n + 1) ==
      if t[n].dist != MAX_DISTANCE && t[n].next == mip
      then Mark(t, mip, n)[n := t[n].(dist := MAX_DISTANCE)] else Mark(t, mip, n)
  {
  }

  function DeadAddresses(t: Table): seq<byte> {
    if t == [] then []
    else DeadAddresses(t[..|t| - 1]) + if t[|t| - 1].dist == MAX_DISTANCE then [t[|t| - 1].mip] else []
  }

  /** How many entries are dead. */
  ghost function NumDead(t: Table): nat {
    |set i | 0 <= i < |t| && t[i].dist == MAX_DISTANCE|
  }

  lemma {:induction false} DeadCounted(t: Table)
    ensures |DeadAddresses(t)| == NumDead(t)
  {
    if t != [] {
      var n := |t| - 1;
      var prefix := t[..n];
      DeadCounted(prefix);
      var dead := set i | 0 <= i < n && prefix[i].dist == MAX_DISTANCE;
      assert (set i | 0 <= i < |t| && t[i].dist == MAX_DISTANCE)
        == if t[n].dist == MAX_DISTANCE then dead + {n} else dead;
    }
  }

  lemma DeadOneMore(t: Table, n: nat)
    requires n < |t|
    ensures DeadAddresses(t[..n + 1]) ==
      if t[n].dist == MAX_DISTANCE then DeadAddresses(t[..n]) + [t[n].mip] else DeadAddresses(t[..n])
  {
    assert t[..n + 1][..n] == t[..n];
  }

  lemma {:induction false} DeadAddressesPrefix(t: Table, k: nat)
    requires k <= |t|
    ensures |DeadAddresses(t[..k])| <= |DeadAddresses(t)|
    decreases |t|
  {
    if k < |t| {
      assert t[..|t| - 1][..k] == t[..k];
      DeadAddressesPrefix(t[..|t| - 1], k);
    } else {
      assert t[..k] == t;
    }
  }

  lemma {:induction false} FewerDead(t: Table, u: Table)
    requires |t| == |u| && forall i :: 0 <= i < |t| && t[i].dist == MAX_DISTANCE ==> u[i].dist == MAX_DISTANCE
    ensures |DeadAddresses(t)| <= |DeadAddresses(u)|
  {
    if t != [] {
      FewerDead(t[..|t| - 1], u[..|u| - 1]);
    }
  }

  /** The dead entries on the way are dead in the end. */
  lemma FewerDeadThanClosure(t: Table, cur: Table)
    requires PartlyMarked(t, cur)
    ensures |DeadAddresses(cur)| <= |DeadAddresses(Closure(t))|
  {
    forall i | 0 <= i < |t| && cur[i].dist == MAX_DISTANCE
      ensures Closure(t)[i].dist == MAX_DISTANCE
    {
      if cur[i] == t[i] {
        DeadIsBroken(t, i);
      }
    }
    FewerDead(cur, Closure(t));
  }

  predicate DeadAddress(t: Table, mip: byte) {
    exists i :: 0 <= i < |t| && t[i].mip == mip && t[i].dist == MAX_DISTANCE
  }

  lemma {:induction false} DeadAddressesExact(t: Table)
    ensures forall m :: m in DeadAddresses(t) <==> DeadAddress(t, m)
  {
    if t != [] {
      var prefix := t[..|t| - 1];
      DeadAddressesExact(prefix);
      forall m
        ensures DeadAddress(t, m) <==>
          DeadAddress(prefix, m) || (m == t[|t| - 1].mip && t[|t| - 1].dist == MAX_DISTANCE)
      {
        if DeadAddress(prefix, m) {
          var i :| 0 <= i < |prefix| && prefix[i].mip == m && prefix[i].dist == MAX_DISTANCE;
          assert t[i] == prefix[i];
        }
      }
    }
  }

  function MarkAll(t: Table, mips: seq<byte>): (u: Table)
    ensures |u| == |t|
  {
    if mips == [] then t
    else
      var u := MarkAll(t, mips[..|mips| - 1]);
      Mark(u, mips[|mips| - 1], |u|)
  }

  /** cur is t with some distances raised to MAX_DISTANCE. */
  predicate Marked(t: Table, cur: Table) {
    |cur| == |t| && forall i :: 0 <= i < |t| ==>
      cur[i] == t[i] || (cur[i] == t[i].(dist := MAX_DISTANCE) && cur[i] != t[i])
  }

  lemma MarkMarks(t: Table, mip: byte)
    ensures Marked(t, Mark(t, mip, |t|))
  {
  }

  lemma {:induction false} MarkAllMarks(t: Table, mips: seq<byte>)
    ensures Marked(t, MarkAll(t, mips))
  {
    if mips != [] {
      MarkAllMarks(t, mips[..|mips| - 1]);
    }
  }

  /** Marking everything routed through dead addresses marks broken entries only, and leaves
      nothing live that is routed through them. */
  lemma {:induction false} MarkAllExact(t: Table, mips: seq<byte>)
    requires forall m :: m in mips ==> DeadAddress(t, m)
    ensures PartlyMarked(t, MarkAll(t, mips))
    ensures forall i :: 0 <= i < |t| && t[i].next in mips ==> MarkAll(t, mips)[i].dist == MAX_DISTANCE
  {
    if mips != [] {
      var prefix, mip := mips[..|mips| - 1], mips[|mips| - 1];
      assert mips == prefix + [mip];
      MarkAllExact(t, prefix);
      assert mip in mips && DeadAddress(t, mip);
      var j :| 0 <= j < |t| && t[j].mip == mip && t[j].dist == MAX_DISTANCE;
      DeadIsBroken(t, j);
      forall i | 0 <= i < |t| && t[i].next == mip
        ensures Broken(t, i)
      {
        BrokenThrough(t, i, j);
      }
    }
  }

  /** One pass of update_broken_paths: more broken entries are marked; a pass that marks
      nothing has found the table closed, another has fewer live entries left. */
  lemma PassFacts(t: Table, cur: Table)
    requires PartlyMarked(t, cur)
    ensures var u := MarkAll(cur, DeadAddresses(cur));
      && PartlyMarked(t, u)
      && (u == cur ==> Closed(u))
      && (u != cur ==> NumLive(u) < NumLive(cur))
      && (u == t ==> cur == t)
  {
    var u := MarkAll(cur, DeadAddresses(cur));
    DeadAddressesExact(cur);
    MarkAllExact(cur, DeadAddresses(cur));
    MarkAllMarks(cur, DeadAddresses(cur));
    PartlyMarkedTransitive(t, cur, u);
    FewerLive(cur, u);
    if u == cur {
      forall i, j | 0 <= i < |u| && 0 <= j < |u| && u[j].dist == MAX_DISTANCE && u[i].next == u[j].mip
        ensures u[i].dist == MAX_DISTANCE
      {
        assert DeadAddress(cur, u[j].mip);
      }
    }
  }

  lemma BrokenInMarked(t: Table, cur: Table, i: nat)
    requires PartlyMarked(t, cur) && i < |t| && Broken(cur, i)
    ensures Broken(t, i)
  {
    var c :| Chain(cur, c) && c[0] == i && cur[c[|c| - 1]].dist == MAX_DISTANCE;
    BrokenAlong(t, cur, c);
  }

  lemma {:induction false} BrokenAlong(t: Table, cur: Table, c: seq<nat>)
    requires PartlyMarked(t, cur) && Chain(cur, c) && cur[c[|c| - 1]].dist == MAX_DISTANCE
    ensures Broken(t, c[0])
    decreases |c|
  {
    if |c| == 1 {
      if cur[c[0]] == t[c[0]] {
        DeadIsBroken(t, c[0]);
      }
    } else {
      assert Chain(cur, c[1..]);
      BrokenAlong(t, cur, c[1..]);
      BrokenThrough(t, c[0], c[1]);
    }
  }

  lemma PartlyMarkedTransitive(t: Table, u: Table, v: Table)
    requires PartlyMarked(t, u) && PartlyMarked(u, v)
    ensures PartlyMarked(t, v)
    ensures v == t ==> u == t
  {
    forall i | 0 <= i < |t| && v[i] != u[i]
      ensures Broken(t, i)
    {
      BrokenInMarked(t, u, i);
    }
  }

  /** The measure of update_broken_paths: entries not at MAX_DISTANCE. */
  ghost function NumLive(t: Table): nat {
    if t == [] then 0 else NumLive(t[1..]) + if t[0].dist != MAX_DISTANCE then 1 else 0
  }

  lemma {:induction false} FewerLive(t: Table, cur: Table)
    requires Marked(t, cur)
    ensures NumLive(cur) <= NumLive(t) && (cur != t ==> NumLive(cur) < NumLive(t))
  {
    if t != [] {
      FewerLive(t[1..], cur[1..]);
      if cur[0] == t[0] && cur[1..] == t[1..] {
        assert cur == [cur[0]] + cur[1..] && t == [t[0]] + t[1..];
      }
    }
  }
}
