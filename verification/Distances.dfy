/** Distances in a routing network whose links do not change (routing_utils.c): in any
    interleaving of hellos, of delayed, lost or repeated updates, and of timeout scans that
    give nobody up, poisoned reverse never hits a route, and every stored distance is the
    length of a real walk and at most the length of the route it belongs to. */
module Distances {
  import opened Framing
  import opened Routing
  import opened RoutingNetwork
  import opened LoopFreedom

  type Links = set<(byte, byte)>

  /** Links go both ways and join different daemons of the network. */
  predicate Topology(nodes: set<byte>, adj: Links) {
    && |nodes| <= MAX_NODES
    && forall l :: l in adj ==> (l.1, l.0) in adj && l.0 != l.1 && l.0 in nodes && l.1 in nodes
  }

  /** u reaches t over exactly n links. */
  ghost predicate Walk(adj: Links, u: byte, t: byte, n: nat)
    decreases n
  {
    if n == 0 then u == t else exists v :: (u, v) in adj && Walk(adj, v, t, n - 1)
  }

  /** The number of links on a shortest way. */
  ghost predicate HopDistance(adj: Links, u: byte, t: byte, d: nat) {
    Walk(adj, u, t, d) && forall n: nat :: n < d ==> !Walk(adj, u, t, n)
  }

  /** Hellos cross links only, and there is no timeout scan. */
  predicate Steady(adj: Links, a: Action) {
    match a
    case Hello(src, dst, _) => (src, dst) in adj
    case Tick(_, _) => false
    case _ => true
  }

  predicate SteadyRun(adj: Links, actions: seq<Action>) {
    forall a :: a in actions ==> Steady(adj, a)
  }

  // ---- the invariant ----

  ghost predicate SoundEntry(adj: Links, rank: Rank, u: byte, e: Entry) {
    1 <= e.dist <= rank(u, e.mip) && e.dist < MAX_DISTANCE && Walk(adj, u, e.mip, e.dist)
  }

  ghost predicate SoundTable(adj: Links, rank: Rank, u: byte, t: Table) {
    forall i :: 0 <= i < |t| ==> SoundEntry(adj, rank, u, t[i])
  }

  /** A pair advertised over the link from s to u: MAX_DISTANCE only for a route through u. */
  ghost predicate SoundPair(net: Net, adj: Links, rank: Rank, s: byte, u: byte, p: Pair) {
    && Knows(net, s, p.target)
    && if p.dist == MAX_DISTANCE then Next(net, s, p.target) == u
       else 1 <= p.dist <= rank(s, p.target) && Walk(adj, s, p.target, p.dist)
  }

  ghost predicate SoundMail(net: Net, adj: Links, rank: Rank, m: Mail) {
    && (m.src, m.update.dst) in adj
    && forall p :: p in m.update.pairs ==> SoundPair(net, adj, rank, m.src, m.update.dst, p)
  }

  ghost predicate Sound(net: Net, adj: Links, rank: Rank) {
    && (forall u :: u in net.tables ==> SoundTable(adj, rank, u, net.tables[u]))
    && (forall m :: m in net.mail ==> SoundMail(net, adj, rank, m))
  }

  /** Ranks stay below MAX_DISTANCE in a network of at most MAX_NODES daemons. */
  lemma RankBound(net: Net, rank: Rank, u: byte, t: byte)
    requires Ranked(net, rank) && Knows(net, u, t) && |net.tables.Keys| <= MAX_NODES
    ensures 1 <= rank(u, t) < MAX_NODES
  {
    var path := RouteFrom(net, rank, u, t);
    DistinctWithin(path, net.tables.Keys);
  }

  /** What a daemon sends from a sound table is sound. */
  lemma SoundPost(net: Net, adj: Links, rank: Rank, s: byte)
    requires Tidy(net) && Topology(net.tables.Keys, adj) && s in net.tables && SoundTable(adj, rank, s, net.tables[s])
    ensures forall m :: m in Post(s, Updates(net.tables[s])) ==> SoundMail(net, adj, rank, m)
  {
    var t := net.tables[s];
    forall m | m in Post(s, Updates(t))
      ensures SoundMail(net, adj, rank, m)
    {
      var u := m.update.dst;
      UpdatesExact(t, |t|, m.update);
      var i :| 0 <= i < |t| && t[i].mip == u && t[i].dist == 1;
      OneLink(adj, s, u);
      forall p | p in m.update.pairs
        ensures SoundPair(net, adj, rank, s, u, p)
      {
        SoundPairFor(net, adj, rank, s, u, p);
      }
    }
  }

  lemma OneLink(adj: Links, u: byte, t: byte)
    ensures Walk(adj, u, t, 1) <==> (u, t) in adj
  {
    if (u, t) in adj {
      assert Walk(adj, t, t, 0);
    }
  }

  lemma UniqueEntry(t: Table, e: Entry)
    requires UniqueKeys(t) && e in t
    ensures Has(t, e.mip) && Get(t, e.mip) == e
  {
    var i :| 0 <= i < |t| && t[i] == e;
    assert t[i].mip == e.mip;
  }

  lemma SoundPairFor(net: Net, adj: Links, rank: Rank, s: byte, u: byte, p: Pair)
    requires Tidy(net) && s in net.tables && SoundTable(adj, rank, s, net.tables[s])
    requires p in PairsFor(net.tables[s], u)
    ensures SoundPair(net, adj, rank, s, u, p)
  {
    var t := net.tables[s];
    PairsForExact(t, u, p);
    var e :| e in t && e.mip != u && p == Pair(e.mip, if e.next == u then MAX_DISTANCE else e.dist);
    UniqueEntry(t, e);
    var i :| 0 <= i < |t| && t[i] == e;
    assert SoundEntry(adj, rank, s, t[i]);
  }

  // ---- one update ----

  /** What an arriving pair must satisfy at its receiver u, whose table was t. */
  ghost predicate Welcome(adj: Links, rank: Rank, t: Table, s: byte, u: byte, p: Pair) {
    if p.dist == MAX_DISTANCE then Has(t, p.target) && Get(t, p.target).next != s
    else
      && 1 <= p.dist < MAX_NODES && p.dist <= rank(s, p.target) && Walk(adj, s, p.target, p.dist)
      && (!Has(t, p.target) ==> rank(u, p.target) == rank(s, p.target) + 1)
  }

  lemma ApplyPairSound(adj: Links, rank: Rank, t: Table, cur: Table, s: byte, u: byte, p: Pair, now: int)
    requires (u, s) in adj && UniqueKeys(t) && UniqueKeys(cur) && Extends(t, cur)
    requires SoundTable(adj, rank, u, cur) && Welcome(adj, rank, t, s, u, p)
    requires forall i :: |t| <= i < |cur| ==> !Has(t, cur[i].mip)
    ensures SoundTable(adj, rank, u, ApplyPair(cur, s, p, now))
  {
    if p.dist == MAX_DISTANCE {
      GetKept(t, cur, p.target);
    } else {
      assert Walk(adj, u, p.target, p.dist + 1) by {
        assert (u, s) in adj && Walk(adj, s, p.target, p.dist);
      }
      var i := IndexOf(cur, p.target);
      if i == -1 && Has(t, p.target) {
        GetKept(t, cur, p.target);
      }
    }
  }

  lemma NewAreNew(t: Table, cur: Table)
    requires UniqueKeys(cur) && Extends(t, cur)
    ensures forall i :: |t| <= i < |cur| ==> !Has(t, cur[i].mip)
  {
    forall i | |t| <= i < |cur|
      ensures !Has(t, cur[i].mip)
    {
      assert forall j :: 0 <= j < |t| ==> cur[j].mip == t[j].mip && cur[j].mip != cur[i].mip;
    }
  }

  lemma {:induction false} MergeSound(adj: Links, rank: Rank, t: Table, s: byte, u: byte, pairs: seq<Pair>, now: int)
    requires (u, s) in adj && UniqueKeys(t) && SoundTable(adj, rank, u, t)
    requires forall p :: p in pairs ==> Welcome(adj, rank, t, s, u, p)
    ensures SoundTable(adj, rank, u, Merge(t, s, pairs, now))
  {
    if pairs != [] {
      var prefix := pairs[..|pairs| - 1];
      MergeSound(adj, rank, t, s, u, prefix, now);
      MergeKeeps(t, s, prefix, now);
      NewAreNew(t, Merge(t, s, prefix, now));
      ApplyPairSound(adj, rank, t, Merge(t, s, prefix, now), s, u, pairs[|pairs| - 1], now);
    }
  }

  lemma ReceiveSound(adj: Links, rank: Rank, t: Table, s: byte, u: byte, pairs: seq<Pair>, now: int)
    requires (u, s) in adj && UniqueKeys(t) && SoundTable(adj, rank, u, t)
    requires forall p :: p in pairs ==> Welcome(adj, rank, t, s, u, p)
    ensures Receive(t, s, pairs, now) == Merge(t, s, pairs, now)
    ensures SoundTable(adj, rank, u, Receive(t, s, pairs, now))
  {
    MergeSound(adj, rank, t, s, u, pairs, now);
    var v := Merge(t, s, pairs, now);
    assert forall i :: 0 <= i < |v| ==> SoundEntry(adj, rank, u, v[i]);
    ClosureExact(v);
  }

  /** Poisoned reverse spares the receiver: a pair at MAX_DISTANCE is about a route that the
      receiver knows, and not through the sender. */
  lemma MailIsWelcome(net: Net, adj: Links, rank: Rank, m: Mail, later: Net, more: Rank, p: Pair)
    requires Inv(net, rank) && Topology(net.tables.Keys, adj) && SoundMail(net, adj, rank, m)
    requires HonestMail(net, m) && p in m.update.pairs
    requires Ranked(later, more) && forall u, t :: Knows(net, u, t) ==> more(u, t) == rank(u, t)
    requires !Knows(net, m.update.dst, p.target) ==>
      Knows(later, m.update.dst, p.target) && Next(later, m.update.dst, p.target) == m.src
    ensures Welcome(adj, more, net.tables[m.update.dst], m.src, m.update.dst, p)
  {
    var s, u, t := m.src, m.update.dst, p.target;
    assert SoundPair(net, adj, rank, s, u, p);
    NextLowersRank(net, rank, s, t);
    RankBound(net, rank, s, t);
    if p.dist == MAX_DISTANCE {
      if Next(net, u, t) == s {
        NextLowersRank(net, rank, u, t);
      }
    } else if !Knows(net, u, t) {
      assert RankedEntry(later, more, u, t);
    }
  }

  // ---- every step ----

  lemma DeliverSound(net: Net, adj: Links, rank: Rank, m: Mail, now: int, more: Rank)
    requires Inv(net, rank) && Sound(net, adj, rank) && Topology(net.tables.Keys, adj)
    requires Enabled(net, Deliver(m, now))
    requires var later := Step(net, Deliver(m, now));
      Ranked(later, more) && forall u, t :: Knows(net, u, t) ==> more(u, t) == rank(u, t)
    ensures SoundTable(adj, more, m.update.dst, DoDeliver(net, m, now).tables[m.update.dst])
  {
    var later, u := DoDeliver(net, m, now), m.update.dst;
    ReceiveKeeps(net.tables[u], m.src, m.update.pairs, now);
    forall p | p in m.update.pairs
      ensures Welcome(adj, more, net.tables[u], m.src, u, p)
    {
      if !Knows(net, u, p.target) {
        LearnedFrom(net.tables[u], m.src, m.update.pairs, now, p.target);
      }
      MailIsWelcome(net, adj, rank, m, later, more, p);
    }
    SameTable(net, adj, rank, more, u);
    assert SoundMail(net, adj, rank, m);
    ReceiveSound(adj, more, net.tables[u], m.src, u, m.update.pairs, now);
  }

  /** Soundness speaks about ranks of known targets only. */
  lemma SameTable(net: Net, adj: Links, rank: Rank, more: Rank, u: byte)
    requires u in net.tables && SoundTable(adj, rank, u, net.tables[u])
    requires forall u, t :: Knows(net, u, t) ==> more(u, t) == rank(u, t)
    ensures SoundTable(adj, more, u, net.tables[u])
  {
    forall i | 0 <= i < |net.tables[u]|
      ensures SoundEntry(adj, more, u, net.tables[u][i])
    {
      assert SoundEntry(adj, rank, u, net.tables[u][i]);
      assert Knows(net, u, net.tables[u][i].mip);
    }
  }

  lemma HelloSound(net: Net, adj: Links, rank: Rank, src: byte, dst: byte, now: int, more: Rank)
    requires Inv(net, rank) && Sound(net, adj, rank) && Topology(net.tables.Keys, adj)
    requires (src, dst) in adj && Enabled(net, Hello(src, dst, now))
    requires var later := Step(net, Hello(src, dst, now));
      Ranked(later, more) && forall u, t :: Knows(net, u, t) ==> more(u, t) == rank(u, t)
    ensures SoundTable(adj, more, dst, DoHello(net, src, dst, now).tables[dst])
  {
    var later := DoHello(net, src, dst, now);
    SameTable(net, adj, rank, more, dst);
    OneLink(adj, dst, src);
    var table := later.tables[dst];
    var i := IndexOf(net.tables[dst], src);
    if i == -1 {
      assert table[|net.tables[dst]|].mip == src;
      LearnedFromHello(net.tables[dst], src, now, src);
      assert Knows(later, dst, src) && RankedEntry(later, more, dst, src);
    }
    assert forall k :: 0 <= k < |table| && k != i && k < |net.tables[dst]| ==> table[k] == net.tables[dst][k];
  }

  lemma MailStaysSound(net: Net, later: Net, adj: Links, rank: Rank, more: Rank)
    requires Grown(net, later) && forall u, t :: Knows(net, u, t) ==> more(u, t) == rank(u, t)
    requires forall m :: m in net.mail ==> SoundMail(net, adj, rank, m)
    ensures forall m :: m in net.mail ==> SoundMail(later, adj, more, m)
  {
    forall m | m in net.mail
      ensures SoundMail(later, adj, more, m)
    {
      assert SoundMail(net, adj, rank, m);
      forall p | p in m.update.pairs
        ensures SoundPair(later, adj, more, m.src, m.update.dst, p)
      {
        assert SoundPair(net, adj, rank, m.src, m.update.dst, p);
      }
    }
  }

  lemma TablesStaySound(net: Net, adj: Links, rank: Rank, a: Action, more: Rank)
    requires Inv(net, rank) && Sound(net, adj, rank) && Topology(net.tables.Keys, adj) && Steady(adj, a)
    requires Ranked(Step(net, a), more) && forall u, t :: Knows(net, u, t) ==> more(u, t) == rank(u, t)
    ensures forall u :: u in Step(net, a).tables ==> SoundTable(adj, more, u, Step(net, a).tables[u])
  {
    forall u | u in net.tables
      ensures SoundTable(adj, more, u, net.tables[u])
    {
      SameTable(net, adj, rank, more, u);
    }
    if Enabled(net, a) {
      match a
      case Hello(src, dst, now) => HelloSound(net, adj, rank, src, dst, now, more);
      case Deliver(m, now) => DeliverSound(net, adj, rank, m, now, more);
      case Periodic(node) =>
    }
  }

  lemma StepSound(net: Net, adj: Links, rank: Rank, a: Action) returns (more: Rank)
    requires Inv(net, rank) && Sound(net, adj, rank) && Topology(net.tables.Keys, adj) && Steady(adj, a)
    ensures Inv(Step(net, a), more) && Sound(Step(net, a), adj, more)
  {
    var later := Step(net, a);
    StepGrows(net, a);
    StepStaysHonest(net, rank, a);
    more := RanksExtend(net, rank, a);
    TablesStaySound(net, adj, rank, a, more);
    MailStaysSound(net, later, adj, rank, more);
    if Enabled(net, a) {
      match a
      case Hello(src, dst, now) => SoundPost(later, adj, more, dst);
      case Deliver(m, now) => SoundPost(later, adj, more, m.update.dst);
      case Periodic(node) => SoundPost(later, adj, more, node);
    }
  }

  lemma {:induction false} SoundAlways(nodes: set<byte>, adj: Links, actions: seq<Action>) returns (rank: Rank)
    requires Topology(nodes, adj) && SteadyRun(adj, actions)
    ensures var net := Exec(Empty(nodes), actions);
      Inv(net, rank) && Sound(net, adj, rank) && net.tables.Keys == nodes
  {
    KeysKept(nodes, actions);
    if actions == [] {
      rank := (u: byte, t: byte) => 0;
    } else {
      var prefix := actions[..|actions| - 1];
      var before := SoundAlways(nodes, adj, prefix);
      rank := StepSound(Exec(Empty(nodes), prefix), adj, before, actions[|actions| - 1]);
    }
  }

  // ---- timeout scans ----

  /** The scan finds a neighbour that has been silent for too long. */
  predicate GivesUp(net: Net, node: byte, now: int) {
    node in net.tables && exists i :: 0 <= i < |net.tables[node]| && Silent(net.tables[node][i], now)
  }

  /** No scan of the run gives up a neighbour. */
  ghost predicate NobodyGivenUp(nodes: set<byte>, actions: seq<Action>) {
    actions != [] ==>
      var before, a := actions[..|actions| - 1], actions[|actions| - 1];
      NobodyGivenUp(nodes, before) && (a.Tick? ==> !GivesUp(Exec(Empty(nodes), before), a.node, a.now))
  }

  predicate HellosCross(adj: Links, actions: seq<Action>) {
    forall a :: a in actions && a.Hello? ==> (a.src, a.dst) in adj
  }

  lemma {:induction false} QuietScan(t: Table, k: nat, now: int)
    requires k <= |t| && forall i :: 0 <= i < |t| ==> !Silent(t[i], now)
    ensures Scan(t, k, now) == (t, [])
  {
    if k != 0 {
      QuietScan(t, k - 1, now);
    }
  }

  /** A scan that gives up nobody changes nothing. */
  lemma QuietTick(net: Net, node: byte, now: int)
    requires !GivesUp(net, node, now)
    ensures Step(net, Tick(node, now)) == net
  {
    if node in net.tables {
      QuietScan(net.tables[node], |net.tables[node]|, now);
      assert net.tables[node := net.tables[node]] == net.tables;
      assert Post(node, []) == {};
    }
  }

  function WithoutTicks(actions: seq<Action>): seq<Action> {
    if actions == [] then []
    else
      var before, a := WithoutTicks(actions[..|actions| - 1]), actions[|actions| - 1];
      if a.Tick? then before else before + [a]
  }

  /** So a run in which nobody is given up ends where it would without its scans. */
  lemma {:induction false} TicksDropOut(nodes: set<byte>, adj: Links, actions: seq<Action>)
    requires NobodyGivenUp(nodes, actions) && HellosCross(adj, actions)
    ensures Exec(Empty(nodes), WithoutTicks(actions)) == Exec(Empty(nodes), actions)
    ensures SteadyRun(adj, WithoutTicks(actions))
  {
    if actions != [] {
      var prefix, a := actions[..|actions| - 1], actions[|actions| - 1];
      TicksDropOut(nodes, adj, prefix);
      if a.Tick? {
        QuietTick(Exec(Empty(nodes), prefix), a.node, a.now);
      } else {
        var before := WithoutTicks(prefix);
        assert (before + [a])[..|before|] == before;
      }
    }
  }

  // ---- the main results ----

  /** What is said of the distance that u stores for t: it is live, it lies between the hop
      distance, being the length of a walk, and the length of its route. */
  ghost predicate SoundDistance(net: Net, adj: Links, u: byte, t: byte)
    requires Knows(net, u, t)
  {
    var dist := Get(net.tables[u], t).dist;
    && dist != MAX_DISTANCE && Walk(adj, u, t, dist)
    && (forall d: nat :: HopDistance(adj, u, t, d) ==> 1 <= d <= dist)
    && exists path :: Route(net, path, t) && path[0] == u && Distinct(path) && dist < |path| <= |net.tables.Keys|
  }

  ghost predicate SoundDistances(net: Net, adj: Links) {
    forall u, t :: Knows(net, u, t) ==> SoundDistance(net, adj, u, t)
  }

  /** On a fixed topology, every state of every run in which nobody is given up has sound
      distances only. */
  lemma DistancesAreSound(nodes: set<byte>, adj: Links, actions: seq<Action>)
    requires Topology(nodes, adj) && HellosCross(adj, actions) && NobodyGivenUp(nodes, actions)
    ensures SoundDistances(Exec(Empty(nodes), actions), adj)
  {
    var net := Exec(Empty(nodes), actions);
    TicksDropOut(nodes, adj, actions);
    var rank := SoundAlways(nodes, adj, WithoutTicks(actions));
    forall u, t | Knows(net, u, t)
      ensures SoundDistance(net, adj, u, t)
    {
      DistanceWithinRoute(net, adj, rank, u, t);
    }
  }

  /** A scan that gives somebody up leaves a dead entry. */
  lemma GivingUpKills(net: Net, adj: Links, node: byte, now: int)
    requires Tidy(net) && GivesUp(net, node, now)
    ensures !SoundDistances(Step(net, Tick(node, now)), adj)
  {
    var t, later := net.tables[node], Step(net, Tick(node, now));
    ScanKeeps(t, |t|, now);
    var i :| 0 <= i < |t| && Silent(t[i], now);
    var e := later.tables[node][i];
    assert e.mip == t[i].mip && e.dist == MAX_DISTANCE;
    UniqueEntry(later.tables[node], e);
    assert Knows(later, node, e.mip);
  }

  /** And exactly those runs: all states on the way have sound distances iff no scan gives up
      a neighbour. */
  lemma {:induction false} SoundIffNobodyGivenUp(nodes: set<byte>, adj: Links, actions: seq<Action>)
    requires Topology(nodes, adj) && HellosCross(adj, actions)
    ensures (forall k: nat :: k <= |actions| ==> SoundDistances(Exec(Empty(nodes), actions[..k]), adj))
      <==> NobodyGivenUp(nodes, actions)
  {
    assert actions[..|actions|] == actions;
    if actions == [] {
      DistancesAreSound(nodes, adj, []);
    } else {
      var n, a := |actions| - 1, actions[|actions| - 1];
      var prefix := actions[..n];
      SoundIffNobodyGivenUp(nodes, adj, prefix);
      assert forall k: nat :: k <= n ==> prefix[..k] == actions[..k];
      KeysKept(nodes, prefix);
      if NobodyGivenUp(nodes, actions) {
        DistancesAreSound(nodes, adj, actions);
      } else if NobodyGivenUp(nodes, prefix) {
        GivingUpKills(Exec(Empty(nodes), prefix), adj, a.node, a.now);
        assert !SoundDistances(Exec(Empty(nodes), actions[..n + 1]), adj);
      } else {
        var k: nat :| k <= n && !SoundDistances(Exec(Empty(nodes), prefix[..k]), adj);
        assert !SoundDistances(Exec(Empty(nodes), actions[..k]), adj);
      }
    }
  }

  lemma DistanceWithinRoute(net: Net, adj: Links, rank: Rank, u: byte, t: byte)
    requires Ranked(net, rank) && Sound(net, adj, rank) && Knows(net, u, t)
    ensures SoundDistance(net, adj, u, t)
  {
    var path := RouteFrom(net, rank, u, t);
    assert Distinct(path);
    DistinctWithin(path, net.tables.Keys);
    var i := IndexOf(net.tables[u], t);
    assert SoundEntry(adj, rank, u, net.tables[u][i]);
    NextLowersRank(net, rank, u, t);
  }
}
