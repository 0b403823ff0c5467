/** Synchronous convergence (routing_utils.c): after all hellos and k rounds in which every
    daemon's updates from one snapshot arrive, in any order, the tables hold exactly the
    targets within k + 1 links, with exact distances and next hops one link closer. */
module Convergence {
  import opened Framing
  import opened Routing
  import opened RoutingNetwork
  import opened LoopFreedom
  import opened Distances

  ghost predicate Within(adj: Links, u: byte, t: byte, n: nat) {
    exists d: nat :: d <= n && HopDistance(adj, u, t, d)
  }

  /** u's entry for t has the hop distance, and its next hop is a neighbour one link closer. */
  ghost predicate ExactEntry(adj: Links, u: byte, e: Entry) {
    && HopDistance(adj, u, e.mip, e.dist) && e.dist >= 1
    && (u, e.next) in adj && HopDistance(adj, e.next, e.mip, e.dist - 1)
  }

  ghost predicate ExactTable(adj: Links, u: byte, t: Table, k: nat) {
    && UniqueKeys(t)
    && (forall i :: 0 <= i < |t| ==> ExactEntry(adj, u, t[i]) && t[i].dist <= k + 1)
    && (forall m: byte :: m != u && Within(adj, u, m, k + 1) ==> Has(t, m))
  }

  /** Every table holds exactly the targets within k + 1 links, exactly. */
  ghost predicate Exact(net: Net, adj: Links, k: nat) {
    forall u :: u in net.tables ==> ExactTable(adj, u, net.tables[u], k)
  }

  // ---- hop distances ----

  lemma WalkAppend(adj: Links, u: byte, v: byte, t: byte, n: nat)
    requires (u, v) in adj && Walk(adj, v, t, n)
    ensures Walk(adj, u, t, n + 1)
  {
  }

  /** Hop distances of linked daemons differ by at most one. */
  lemma NeighbourDistance(adj: Links, u: byte, s: byte, t: byte, d: nat, e: nat)
    requires (u, s) in adj && HopDistance(adj, u, t, d) && HopDistance(adj, s, t, e)
    ensures d <= e + 1
  {
    WalkAppend(adj, u, s, t, e);
  }

  lemma {:induction false} ShortestWalk(adj: Links, u: byte, t: byte, n: nat) returns (d: nat)
    requires Walk(adj, u, t, n)
    ensures d <= n && HopDistance(adj, u, t, d)
  {
    if m: nat :| m < n && Walk(adj, u, t, m) {
      d := ShortestWalk(adj, u, t, m);
    } else {
      d := n;
    }
  }

  /** A daemon at distance d + 1 has a neighbour at distance d. */
  lemma CloserNeighbour(adj: Links, u: byte, t: byte, d: nat) returns (s: byte)
    requires HopDistance(adj, u, t, d + 1)
    ensures (u, s) in adj && HopDistance(adj, s, t, d)
  {
    s :| (u, s) in adj && Walk(adj, s, t, d);
    forall n: nat | n < d
      ensures !Walk(adj, s, t, n)
    {
      if Walk(adj, s, t, n) {
        WalkAppend(adj, u, s, t, n);
      }
    }
  }

  lemma NeighbourIsOne(adj: Links, u: byte, t: byte)
    requires u != t
    ensures HopDistance(adj, u, t, 1) <==> (u, t) in adj
  {
    OneLink(adj, u, t);
  }

  // ---- the hellos ----

  /** Hellos over links, each link at least once. */
  predicate AllHellos(adj: Links, actions: seq<Action>) {
    && (forall a :: a in actions ==> a.Hello? && (a.src, a.dst) in adj)
    && (forall l :: l in adj ==> exists a :: a in actions && a.Hello? && (a.src, a.dst) == l)
  }

  ghost predicate OneHopTable(adj: Links, u: byte, t: Table) {
    UniqueKeys(t) && forall i :: 0 <= i < |t| ==> (u, t[i].mip) in adj && t[i].dist == 1 && t[i].next == t[i].mip
  }

  lemma HelloFills(adj: Links, u: byte, t: Table, src: byte, now: int)
    requires OneHopTable(adj, u, t) && (u, src) in adj
    ensures OneHopTable(adj, u, HandleHello(t, src, now)) && Has(HandleHello(t, src, now), src)
  {
    HelloKeeps(t, src, now);
    var i := IndexOf(t, src);
    assert HandleHello(t, src, now)[if i == -1 then |t| else i].mip == src;
  }

  lemma {:induction false} HellosFill(nodes: set<byte>, adj: Links, actions: seq<Action>)
    requires Topology(nodes, adj)
    requires forall a :: a in actions ==> a.Hello? && (a.src, a.dst) in adj
    ensures var net := Exec(Empty(nodes), actions);
      && net.tables.Keys == nodes
      && (forall u :: u in nodes ==> OneHopTable(adj, u, net.tables[u]))
      && (forall a :: a in actions ==> Knows(net, a.dst, a.src))
  {
    KeysKept(nodes, actions);
    if actions != [] {
      var prefix, a := actions[..|actions| - 1], actions[|actions| - 1];
      assert actions == prefix + [a];
      HellosFill(nodes, adj, prefix);
      var net := Exec(Empty(nodes), prefix);
      KeysKept(nodes, prefix);
      StepGrows(net, a);
      HelloFills(adj, a.dst, net.tables[a.dst], a.src, a.now);
      assert Step(net, a) == DoHello(net, a.src, a.dst, a.now);
    }
  }

  lemma OneHopIsExact(adj: Links, u: byte, t: Table)
    requires OneHopTable(adj, u, t) && (forall l :: l in adj ==> l.0 != l.1)
    requires forall m: byte :: (u, m) in adj ==> Has(t, m)
    ensures ExactTable(adj, u, t, 0)
  {
    forall i | 0 <= i < |t|
      ensures ExactEntry(adj, u, t[i])
    {
      NeighbourIsOne(adj, u, t[i].mip);
      assert HopDistance(adj, t[i].mip, t[i].mip, 0);
    }
    forall m: byte | m != u && Within(adj, u, m, 1)
      ensures Has(t, m)
    {
      NeighbourIsOne(adj, u, m);
    }
  }

  lemma HellosAreExact(nodes: set<byte>, adj: Links, actions: seq<Action>)
    requires Topology(nodes, adj) && AllHellos(adj, actions)
    ensures Exact(Exec(Empty(nodes), actions), adj, 0)
  {
    HellosFill(nodes, adj, actions);
    var net := Exec(Empty(nodes), actions);
    forall u | u in nodes
      ensures ExactTable(adj, u, net.tables[u], 0)
    {
      forall m: byte | (u, m) in adj
        ensures Has(net.tables[u], m)
      {
        assert (m, u) in adj;
        var a :| a in actions && a.Hello? && (a.src, a.dst) == (m, u);
        assert Knows(net, a.dst, a.src);
      }
      OneHopIsExact(adj, u, net.tables[u]);
    }
  }

  // ---- one round ----

  predicate Near(net: Net) {
    forall u, i :: u in net.tables && 0 <= i < |net.tables[u]| ==> net.tables[u][i].dist < MAX_NODES
  }

  /** Every update that the tables of a state give rise to. */
  ghost function Snapshot(net: Net): set<Mail> {
    set u, x | u in net.tables && x in Updates(net.tables[u]) :: Mail(u, x)
  }

  /** Every daemon sends its updates, then all of them arrive, each at least once. */
  ghost predicate IsRound(net: Net, sends: seq<Action>, arrivals: seq<Action>) {
    && (forall a :: a in sends ==> a.Periodic?)
    && (forall u :: u in net.tables ==> Periodic(u) in sends)
    && (forall a :: a in arrivals ==> a.Deliver? && a.m in Snapshot(net))
    && (forall m :: m in Snapshot(net) ==> exists a :: a in arrivals && a.Deliver? && a.m == m)
  }

  /** A table in the middle of the round after which targets within k + 2 links are known:
      t is what it was at the snapshot. */
  ghost predicate MidTable(adj: Links, u: byte, t: Table, cur: Table, k: nat) {
    && UniqueKeys(cur) && |t| <= |cur| && cur[..|t|] == t
    && forall i :: |t| <= i < |cur| ==> ExactEntry(adj, u, cur[i]) && cur[i].dist == k + 2 <= MAX_NODES
  }

  /** A pair of the snapshot as it reaches u from s, whose entry for the target is e. */
  predicate PairOf(e: Entry, u: byte, p: Pair) {
    e.mip != u && p == Pair(e.mip, if e.next == u then MAX_DISTANCE else e.dist)
  }

  /** A target unknown at u is k + 2 links away and advertised by a neighbour one closer. */
  lemma UnknownTarget(adj: Links, u: byte, s: byte, t: Table, e: Entry, k: nat)
    requires ExactTable(adj, u, t, k) && (u, s) in adj && ExactEntry(adj, s, e) && e.dist <= k + 1
    requires e.mip != u && !Has(t, e.mip)
    ensures e.dist == k + 1 && e.next != u && HopDistance(adj, u, e.mip, k + 2)
  {
    WalkAppend(adj, u, s, e.mip, e.dist);
    var d := ShortestWalk(adj, u, e.mip, e.dist + 1);
    assert !Within(adj, u, e.mip, k + 1);
    assert d > k + 1;
    assert Within(adj, e.next, e.mip, k + 1);
  }

  /** A target known at u is left alone: neither is the distance too large, nor does its
      route go through the sender of a pair at MAX_DISTANCE. */
  lemma KnownTarget(adj: Links, u: byte, s: byte, mine: Entry, e: Entry, p: Pair)
    requires (u, s) in adj && ExactEntry(adj, u, mine) && ExactEntry(adj, s, e) && mine.mip == e.mip && PairOf(e, u, p)
    ensures Adjust(mine, s, p) == mine
  {
    NeighbourDistance(adj, u, s, e.mip, mine.dist, e.dist);
    assert e.next == u ==> mine.dist == e.dist - 1 by {
      if e.next == u {
        SameDistance(adj, u, e.mip, mine.dist, e.dist - 1);
      }
    }
    if mine.next == s {
      SameDistance(adj, s, e.mip, e.dist, mine.dist - 1);
    }
  }

  lemma SameDistance(adj: Links, u: byte, t: byte, d: nat, e: nat)
    requires HopDistance(adj, u, t, d) && HopDistance(adj, u, t, e)
    ensures d == e
  {
  }

  lemma PairInRound(adj: Links, u: byte, s: byte, t: Table, cur: Table, e: Entry, p: Pair, k: nat, now: int)
    requires MidTable(adj, u, t, cur, k) && ExactTable(adj, u, t, k) && (u, s) in adj
    requires ExactEntry(adj, s, e) && e.dist <= k + 1 && e.dist < MAX_NODES && PairOf(e, u, p)
    ensures MidTable(adj, u, t, ApplyPair(cur, s, p, now), k)
    ensures Has(ApplyPair(cur, s, p, now), p.target)
    ensures forall i :: 0 <= i < |cur| ==> ApplyPair(cur, s, p, now)[i] == cur[i]
  {
    var i := IndexOf(cur, p.target);
    var after := ApplyPair(cur, s, p, now);
    if i == -1 {
      forall j | 0 <= j < |t|
        ensures t[j].mip != p.target
      {
        assert cur[j] == cur[..|t|][j];
      }
      UnknownTarget(adj, u, s, t, e, k);
      assert after[|cur|].mip == p.target;
      assert after[..|t|] == cur[..|t|];
    } else {
      assert ExactEntry(adj, u, cur[i]) by {
        if i < |t| {
          assert cur[i] == cur[..|t|][i];
        }
      }
      KnownTarget(adj, u, s, cur[i], e, p);
      assert after == cur;
      assert after[i].mip == p.target;
    }
  }

  /** A pair taken from the exact table of a neighbour s. */
  ghost predicate ExactPair(adj: Links, s: byte, u: byte, p: Pair, k: nat) {
    exists e :: ExactEntry(adj, s, e) && e.dist <= k + 1 && e.dist < MAX_NODES && PairOf(e, u, p)
  }

  ghost predicate PairsOf(adj: Links, s: byte, u: byte, pairs: seq<Pair>, k: nat) {
    forall p :: p in pairs ==> ExactPair(adj, s, u, p, k)
  }

  lemma {:induction false} MergeInRound(adj: Links, u: byte, s: byte, t: Table, cur: Table, pairs: seq<Pair>,
                                        k: nat, now: int)
    requires MidTable(adj, u, t, cur, k) && ExactTable(adj, u, t, k) && (u, s) in adj
    requires PairsOf(adj, s, u, pairs, k)
    ensures var after := Merge(cur, s, pairs, now);
      && MidTable(adj, u, t, after, k)
      && (forall m :: Has(cur, m) ==> Has(after, m))
      && (forall p :: p in pairs ==> Has(after, p.target))
  {
    if pairs != [] {
      var prefix, p := pairs[..|pairs| - 1], pairs[|pairs| - 1];
      assert pairs == prefix + [p];
      MergeInRound(adj, u, s, t, cur, prefix, k, now);
      assert ExactPair(adj, s, u, p, k);
      var e :| ExactEntry(adj, s, e) && e.dist <= k + 1 && e.dist < MAX_NODES && PairOf(e, u, p);
      var v := Merge(cur, s, prefix, now);
      PairInRound(adj, u, s, t, v, e, p, k, now);
      ApplyPairKeeps(v, s, p, now);
    }
  }

  lemma NoDeadEntries(adj: Links, u: byte, t: Table, cur: Table, k: nat)
    requires MidTable(adj, u, t, cur, k) && forall i :: 0 <= i < |t| ==> t[i].dist < MAX_NODES
    ensures Closure(cur) == cur
  {
    forall i | 0 <= i < |cur|
      ensures cur[i].dist != MAX_DISTANCE
    {
      if i < |t| {
        assert cur[i] == cur[..|t|][i];
      }
    }
    ClosureExact(cur);
  }

  /** The network in the middle of a round, after the given updates have arrived. */
  ghost predicate Mid(snap: Net, net: Net, adj: Links, k: nat, arrived: set<Mail>) {
    && net.tables.Keys == snap.tables.Keys
    && Snapshot(snap) <= net.mail
    && (forall u :: u in net.tables ==> MidTable(adj, u, snap.tables[u], net.tables[u], k))
    && (forall m, p :: m in arrived && p in m.update.pairs ==> Knows(net, m.update.dst, p.target))
  }

  /** What the snapshot tells u about s's table. */
  lemma SnapshotPairs(snap: Net, adj: Links, k: nat, m: Mail)
    requires Exact(snap, adj, k) && Topology(snap.tables.Keys, adj) && m in Snapshot(snap) && Near(snap)
    ensures m.src in snap.tables && m.update.dst in snap.tables && (m.update.dst, m.src) in adj
    ensures PairsOf(adj, m.src, m.update.dst, m.update.pairs, k)
  {
    var s, u := m.src, m.update.dst;
    var t := snap.tables[s];
    assert ExactTable(adj, s, t, k);
    UpdatesExact(t, |t|, m.update);
    var i :| 0 <= i < |t| && t[i].mip == u && t[i].dist == 1;
    assert ExactEntry(adj, s, t[i]);
    OneLink(adj, s, u);
    forall p | p in m.update.pairs
      ensures ExactPair(adj, s, u, p, k)
    {
      SnapshotPair(adj, s, u, t, p, k);
    }
  }

  lemma SnapshotPair(adj: Links, s: byte, u: byte, t: Table, p: Pair, k: nat)
    requires ExactTable(adj, s, t, k) && p in PairsFor(t, u) && forall i :: 0 <= i < |t| ==> t[i].dist < MAX_NODES
    ensures ExactPair(adj, s, u, p, k)
  {
    PairsForExact(t, u, p);
    var e :| e in t && e.mip != u && p == Pair(e.mip, if e.next == u then MAX_DISTANCE else e.dist);
    var j :| 0 <= j < |t| && t[j] == e;
    assert ExactEntry(adj, s, t[j]) && PairOf(e, u, p);
  }

  /** One arrival, for the table it arrives at. */
  lemma ArrivalAtTable(snap: Net, adj: Links, k: nat, cur: Table, m: Mail, now: int)
    requires Exact(snap, adj, k) && Topology(snap.tables.Keys, adj)
    requires Near(snap)
    requires m in Snapshot(snap)
    requires m.update.dst in snap.tables && MidTable(adj, m.update.dst, snap.tables[m.update.dst], cur, k)
    ensures var after := Receive(cur, m.src, m.update.pairs, now);
      && MidTable(adj, m.update.dst, snap.tables[m.update.dst], after, k)
      && (forall t :: Has(cur, t) ==> Has(after, t))
      && (forall p :: p in m.update.pairs ==> Has(after, p.target))
  {
    var u := m.update.dst;
    SnapshotPairs(snap, adj, k, m);
    MergeInRound(adj, u, m.src, snap.tables[u], cur, m.update.pairs, k, now);
    NoDeadEntries(adj, u, snap.tables[u], Merge(cur, m.src, m.update.pairs, now), k);
  }

  lemma ArrivalInRound(snap: Net, net: Net, adj: Links, k: nat, arrived: set<Mail>, m: Mail, now: int)
    requires Mid(snap, net, adj, k, arrived) && Exact(snap, adj, k) && Topology(snap.tables.Keys, adj)
    requires Near(snap)
    requires m in Snapshot(snap)
    ensures Mid(snap, Step(net, Deliver(m, now)), adj, k, arrived + {m})
  {
    var u := m.update.dst;
    SnapshotPairs(snap, adj, k, m);
    ArrivalAtTable(snap, adj, k, net.tables[u], m, now);
    var later := DoDeliver(net, m, now);
    assert Step(net, Deliver(m, now)) == later;
    forall x, p | x in arrived + {m} && p in x.update.pairs
      ensures Knows(later, x.update.dst, p.target)
    {
      if x in arrived {
        assert Knows(net, x.update.dst, p.target);
      }
    }
    forall v | v in later.tables
      ensures MidTable(adj, v, snap.tables[v], later.tables[v], k)
    {
      assert v != u ==> later.tables[v] == net.tables[v];
    }
  }

  function Arrived(arrivals: seq<Action>): set<Mail> {
    set a | a in arrivals && a.Deliver? :: a.m
  }

  lemma ArrivedOneMore(prefix: seq<Action>, a: Action)
    requires a.Deliver?
    ensures Arrived(prefix + [a]) == Arrived(prefix) + {a.m}
  {
    assert a in prefix + [a];
  }

  lemma {:induction false} ArrivalsInRound(snap: Net, net: Net, adj: Links, k: nat, arrivals: seq<Action>)
    requires Mid(snap, net, adj, k, {}) && Exact(snap, adj, k) && Topology(snap.tables.Keys, adj)
    requires Near(snap)
    requires forall a :: a in arrivals ==> a.Deliver? && a.m in Snapshot(snap)
    ensures Mid(snap, Exec(net, arrivals), adj, k, Arrived(arrivals))
  {
    if arrivals != [] {
      var prefix, a := arrivals[..|arrivals| - 1], arrivals[|arrivals| - 1];
      assert arrivals == prefix + [a];
      ArrivalsInRound(snap, net, adj, k, prefix);
      ArrivedOneMore(prefix, a);
      ArrivalInRound(snap, Exec(net, prefix), adj, k, Arrived(prefix), a.m, a.now);
      assert a == Deliver(a.m, a.now);
    }
  }

  lemma {:induction false} SendsInRound(snap: Net, sends: seq<Action>)
    requires forall a :: a in sends ==> a.Periodic?
    ensures Exec(snap, sends).tables == snap.tables
    ensures forall u, m :: u in snap.tables && Periodic(u) in sends && m in Post(u, Updates(snap.tables[u])) ==>
      m in Exec(snap, sends).mail
  {
    if sends != [] {
      var prefix, a := sends[..|sends| - 1], sends[|sends| - 1];
      assert sends == prefix + [a];
      SendsInRound(snap, prefix);
      var before := Exec(snap, prefix);
      assert a in sends && Exec(snap, sends) == Step(before, a);
      assert before.mail <= Step(before, a).mail;
      forall u, m | u in snap.tables && Periodic(u) in sends && m in Post(u, Updates(snap.tables[u]))
        ensures m in Exec(snap, sends).mail
      {
        if Periodic(u) in prefix {
        } else {
          assert a == Periodic(u);
        }
      }
    }
  }

  lemma SnapshotSent(snap: Net, sends: seq<Action>)
    requires forall a :: a in sends ==> a.Periodic?
    requires forall u :: u in snap.tables ==> Periodic(u) in sends
    ensures Exec(snap, sends).tables == snap.tables && Snapshot(snap) <= Exec(snap, sends).mail
  {
    SendsInRound(snap, sends);
    forall m | m in Snapshot(snap)
      ensures m in Exec(snap, sends).mail
    {
      assert m in Post(m.src, Updates(snap.tables[m.src]));
    }
  }

  /** An exact daemon s tells its neighbour u about every target within k + 1 links. */
  lemma NeighbourAdvertises(snap: Net, adj: Links, k: nat, s: byte, u: byte, t: byte) returns (m: Mail, p: Pair)
    requires Exact(snap, adj, k) && s in snap.tables && (s, u) in adj
    requires u != t && s != t && s != u && Within(adj, s, t, k + 1)
    ensures m in Snapshot(snap) && m.src == s && m.update.dst == u && p in m.update.pairs && p.target == t
  {
    var table := snap.tables[s];
    assert ExactTable(adj, s, table, k);
    NeighbourIsOne(adj, s, u);
    assert Within(adj, s, u, k + 1);
    var i, j := IndexOf(table, u), IndexOf(table, t);
    assert ExactEntry(adj, s, table[i]);
    SameDistance(adj, s, u, table[i].dist, 1);
    m := Mail(s, Update(u, PairsFor(table, u)));
    UpdatesExact(table, |table|, m.update);
    p := Pair(t, if table[j].next == u then MAX_DISTANCE else table[j].dist);
    PairsForExact(table, u, p);
    assert table[j] in table;
  }

  /** At the end of the round each target k + 2 links away has been learned: a neighbour one
      link closer advertised it. */
  lemma RoundTeaches(snap: Net, net: Net, adj: Links, k: nat, u: byte, t: byte)
    requires Mid(snap, net, adj, k, Snapshot(snap)) && Exact(snap, adj, k) && Topology(snap.tables.Keys, adj)
    requires u in snap.tables && u != t && HopDistance(adj, u, t, k + 2)
    ensures Knows(net, u, t)
  {
    var s := CloserNeighbour(adj, u, t, k + 1);
    assert s != t by {
      assert s == t ==> Walk(adj, s, t, 0);
    }
    assert (s, u) in adj && s != u;
    assert Within(adj, s, t, k + 1);
    var m, p := NeighbourAdvertises(snap, adj, k, s, u, t);
  }

  lemma RoundEndsExact(snap: Net, net: Net, adj: Links, k: nat, u: byte)
    requires Mid(snap, net, adj, k, Snapshot(snap)) && Exact(snap, adj, k) && Topology(snap.tables.Keys, adj)
    requires u in snap.tables
    ensures ExactTable(adj, u, net.tables[u], k + 1)
  {
    var t, cur := snap.tables[u], net.tables[u];
    assert ExactTable(adj, u, t, k) && MidTable(adj, u, t, cur, k);
    forall i | 0 <= i < |cur|
      ensures ExactEntry(adj, u, cur[i]) && cur[i].dist <= k + 2
    {
      if i < |t| {
        assert cur[i] == cur[..|t|][i];
      }
    }
    forall m: byte | m != u && Within(adj, u, m, k + 2)
      ensures Has(cur, m)
    {
      var d: nat :| d <= k + 2 && HopDistance(adj, u, m, d);
      if d == k + 2 {
        RoundTeaches(snap, net, adj, k, u, m);
      } else {
        assert Within(adj, u, m, k + 1);
        var i := IndexOf(t, m);
        assert cur[i] == cur[..|t|][i];
        assert cur[i].mip == m;
      }
    }
  }

  lemma RoundIsExact(snap: Net, adj: Links, k: nat, sends: seq<Action>, arrivals: seq<Action>)
    requires Tidy(snap) && Exact(snap, adj, k) && Topology(snap.tables.Keys, adj) && IsRound(snap, sends, arrivals)
    requires Near(snap)
    ensures Exact(Exec(Exec(snap, sends), arrivals), adj, k + 1)
  {
    SnapshotSent(snap, sends);
    var sent := Exec(snap, sends);
    forall u | u in snap.tables
      ensures MidTable(adj, u, snap.tables[u], sent.tables[u], k)
    {
      assert ExactTable(adj, u, snap.tables[u], k);
    }
    ArrivalsInRound(snap, sent, adj, k, arrivals);
    var net := Exec(sent, arrivals);
    assert (set a | a in arrivals && a.Deliver? :: a.m) == Snapshot(snap);
    forall u | u in net.tables
      ensures ExactTable(adj, u, net.tables[u], k + 1)
    {
      RoundEndsExact(snap, net, adj, k, u);
    }
  }

  // ---- any number of rounds ----

  type Round = (seq<Action>, seq<Action>)

  ghost function ExecRounds(net: Net, rounds: seq<Round>): Net {
    if rounds == [] then net
    else
      var last := rounds[|rounds| - 1];
      Exec(Exec(ExecRounds(net, rounds[..|rounds| - 1]), last.0), last.1)
  }

  ghost predicate AreRounds(net: Net, rounds: seq<Round>) {
    rounds != [] ==>
      var before, last := rounds[..|rounds| - 1], rounds[|rounds| - 1];
      AreRounds(net, before) && IsRound(ExecRounds(net, before), last.0, last.1)
  }

  lemma {:induction false} ExecAppend(net: Net, a: seq<Action>, b: seq<Action>)
    ensures Exec(net, a + b) == Exec(Exec(net, a), b)
  {
    if b == [] {
      assert a + b == a;
    } else {
      assert (a + b)[..|a + b| - 1] == a + b[..|b| - 1];
      ExecAppend(net, a, b[..|b| - 1]);
    }
  }

  /** The rounds as one run of the network. */
  function Flat(hellos: seq<Action>, rounds: seq<Round>): seq<Action> {
    if rounds == [] then hellos
    else
      var last := rounds[|rounds| - 1];
      Flat(hellos, rounds[..|rounds| - 1]) + last.0 + last.1
  }

  lemma {:induction false} RoundsAreARun(nodes: set<byte>, adj: Links, hellos: seq<Action>, rounds: seq<Round>)
    requires AllHellos(adj, hellos) && AreRounds(Exec(Empty(nodes), hellos), rounds)
    ensures Exec(Empty(nodes), Flat(hellos, rounds)) == ExecRounds(Exec(Empty(nodes), hellos), rounds)
    ensures SteadyRun(adj, Flat(hellos, rounds))
  {
    if rounds != [] {
      var before, last := rounds[..|rounds| - 1], rounds[|rounds| - 1];
      RoundsAreARun(nodes, adj, hellos, before);
      ExecAppend(Empty(nodes), Flat(hellos, before), last.0);
      ExecAppend(Empty(nodes), Flat(hellos, before) + last.0, last.1);
    }
  }

  /** No stored distance exceeds the length of a route in a network of MAX_NODES daemons. */
  lemma SteadyIsNear(nodes: set<byte>, adj: Links, actions: seq<Action>)
    requires Topology(nodes, adj) && SteadyRun(adj, actions)
    ensures Near(Exec(Empty(nodes), actions)) && Tidy(Exec(Empty(nodes), actions))
    ensures Exec(Empty(nodes), actions).tables.Keys == nodes
  {
    var net := Exec(Empty(nodes), actions);
    var rank := SoundAlways(nodes, adj, actions);
    forall u, i | u in net.tables && 0 <= i < |net.tables[u]|
      ensures net.tables[u][i].dist < MAX_NODES
    {
      assert SoundEntry(adj, rank, u, net.tables[u][i]);
      assert Knows(net, u, net.tables[u][i].mip);
      RankBound(net, rank, u, net.tables[u][i].mip);
    }
  }

  lemma {:induction false} RoundsAreExact(nodes: set<byte>, adj: Links, hellos: seq<Action>, rounds: seq<Round>)
    requires Topology(nodes, adj) && AllHellos(adj, hellos) && AreRounds(Exec(Empty(nodes), hellos), rounds)
    ensures Exact(ExecRounds(Exec(Empty(nodes), hellos), rounds), adj, |rounds|)
  {
    if rounds == [] {
      HellosAreExact(nodes, adj, hellos);
    } else {
      var before, last := rounds[..|rounds| - 1], rounds[|rounds| - 1];
      RoundsAreExact(nodes, adj, hellos, before);
      RoundsAreARun(nodes, adj, hellos, before);
      SteadyIsNear(nodes, adj, Flat(hellos, before));
      RoundIsExact(ExecRounds(Exec(Empty(nodes), hellos), before), adj, |before|, last.0, last.1);
    }
  }

  /** After all hellos and k rounds a daemon has an entry for t exactly when t is at most k + 1
      links away, then with exactly that distance and a neighbour one link closer as next hop. */
  lemma RoutesConverge(nodes: set<byte>, adj: Links, hellos: seq<Action>, rounds: seq<Round>, u: byte, t: byte)
    requires Topology(nodes, adj) && AllHellos(adj, hellos) && AreRounds(Exec(Empty(nodes), hellos), rounds)
    requires u in nodes && u != t
    ensures var net := ExecRounds(Exec(Empty(nodes), hellos), rounds);
      && u in net.tables
      && (Knows(net, u, t) <==> Within(adj, u, t, |rounds| + 1))
      && (Knows(net, u, t) ==>
        var e := Get(net.tables[u], t);
        HopDistance(adj, u, t, e.dist) && e.dist >= 1 && (u, e.next) in adj && HopDistance(adj, e.next, t, e.dist - 1))
  {
    RoundsAreExact(nodes, adj, hellos, rounds);
    RoundsAreARun(nodes, adj, hellos, rounds);
    SteadyIsNear(nodes, adj, Flat(hellos, rounds));
    ExactTableSays(adj, u, ExecRounds(Exec(Empty(nodes), hellos), rounds).tables[u], |rounds|, t);
  }

  /** Timeout scans that give nobody up may be anywhere in the run: without them it is the
      hellos and the rounds, so it ends in the same state. */
  lemma ScansDoNotMatter(nodes: set<byte>, adj: Links, hellos: seq<Action>, rounds: seq<Round>, actions: seq<Action>)
    requires AllHellos(adj, hellos) && AreRounds(Exec(Empty(nodes), hellos), rounds)
    requires NobodyGivenUp(nodes, actions) && HellosCross(adj, actions)
    requires WithoutTicks(actions) == Flat(hellos, rounds)
    ensures Exec(Empty(nodes), actions) == ExecRounds(Exec(Empty(nodes), hellos), rounds)
  {
    RoundsAreARun(nodes, adj, hellos, rounds);
    TicksDropOut(nodes, adj, actions);
  }

  lemma ExactTableSays(adj: Links, u: byte, table: Table, k: nat, t: byte)
    requires ExactTable(adj, u, table, k) && u != t
    ensures Has(table, t) <==> Within(adj, u, t, k + 1)
    ensures Has(table, t) ==> ExactEntry(adj, u, Get(table, t))
  {
    if Has(table, t) {
      assert ExactEntry(adj, u, table[IndexOf(table, t)]);
    }
  }
}
