/** A packet on its way through the MIP daemons (mip_daemon.c) over the routes that the
    routing daemons built: how often it is forwarded, and when it arrives. */
module Forwarding {
  import opened Framing
  import opened Routing
  import opened RoutingNetwork
  import opened LoopFreedom
  import opened Distances
  import opened Convergence
  import Mip = MipDaemon

  datatype Outcome = Delivered(forwards: nat) | Dropped | Unroutable

  /** A packet for t that has arrived at a daemon, while the tables stand still. */
  function Arrive(net: Net, at: byte, p: Mip.Raw, forwards: nat): Outcome
    decreases p.ttl
  {
    match Mip.OnRaw(at, p)
    case ToApplication(_) => Delivered(forwards)
    case PassOn(q) =>
      if at !in net.tables then Unroutable
      else
        var next := Lookup(net.tables[at], q.dst);
        if next == NO_HOP then Unroutable else Arrive(net, next, q, forwards + 1)
    case _ => Dropped
  }

  /** A packet that an application at u sends: its first hop is looked up with the ttl
      untouched. */
  function Originate(net: Net, u: byte, p: Mip.Raw): Outcome {
    if u !in net.tables then Unroutable
    else
      var next := Lookup(net.tables[u], p.dst);
      if next == NO_HOP then Unroutable else Arrive(net, next, p, 0)
  }

  /** Every entry along the path is live. */
  predicate LivePath(net: Net, path: seq<byte>, t: byte) {
    forall i :: 0 <= i < |path| - 1 ==> Knows(net, path[i], t) && Get(net.tables[path[i]], t).dist != MAX_DISTANCE
  }

  lemma NextIsLookedUp(net: Net, u: byte, t: byte)
    requires Tidy(net) && Knows(net, u, t) && Get(net.tables[u], t).dist != MAX_DISTANCE
    ensures Lookup(net.tables[u], t) == Next(net, u, t)
  {
    LookupExact(net.tables[u], t);
  }

  /** At place i of its route a packet gets through iff its ttl covers the daemons between. */
  lemma {:induction false} ArriveAlong(net: Net, path: seq<byte>, p: Mip.Raw, i: nat, forwards: nat)
    requires Tidy(net) && Route(net, path, p.dst) && Distinct(path) && LivePath(net, path, p.dst)
    requires NO_HOP !in net.tables && (forall k :: 0 <= k < |path| ==> path[k] in net.tables)
    requires i < |path| && (p.sduType == Mip.PING || p.sduType == Mip.TRANSPORT)
    ensures Arrive(net, path[i], p, forwards) ==
      if |path| - 1 - i <= p.ttl then Delivered(forwards + (|path| - 1 - i)) else Dropped
    decreases |path| - i
  {
    if i < |path| - 1 && p.ttl > 0 {
      NextIsLookedUp(net, path[i], p.dst);
      ArriveAlong(net, path, p.(ttl := p.ttl - 1), i + 1, forwards + 1);
    }
  }

  /** Over live routes a packet with time to live T arrives iff its route has at most T + 1
      hops; then it was forwarded once per daemon between. */
  lemma DeliveredExactly(nodes: set<byte>, actions: seq<Action>, u: byte, p: Mip.Raw, path: seq<byte>)
    requires NO_HOP !in nodes && (p.sduType == Mip.PING || p.sduType == Mip.TRANSPORT)
    requires var net := Exec(Empty(nodes), actions);
      && Knows(net, u, p.dst)
      && Route(net, path, p.dst) && path[0] == u && LivePath(net, path, p.dst)
    ensures |path| >= 2
    ensures Originate(Exec(Empty(nodes), actions), u, p) ==
      if |path| - 1 <= p.ttl + 1 then Delivered(|path| - 2) else Dropped
  {
    var net := Exec(Empty(nodes), actions);
    var rank := RankExists(nodes, actions);
    KeysKept(nodes, actions);
    RouteFacts(net, rank, path, p.dst);
    NextIsLookedUp(net, u, p.dst);
    ArriveAlong(net, path, p, 1, 0);
  }

  /** A route from a daemon that is not the target itself visits daemons of the network, none
      twice. */
  lemma RouteFacts(net: Net, rank: Rank, path: seq<byte>, t: byte)
    requires Ranked(net, rank) && Route(net, path, t) && Knows(net, path[0], t)
    ensures |path| >= 2 && Distinct(path) && forall i :: 0 <= i < |path| ==> path[i] in net.tables
    ensures path[1] == Next(net, path[0], t)
  {
    NextLowersRank(net, rank, path[0], t);
    assert |path| >= 2;
    forall i, j | 0 <= i < j < |path|
      ensures path[i] != path[j]
    {
      RanksFall(net, rank, path, t, i, j);
    }
  }

  /** A packet's trip while the tables change: trip[i] is the packet as daemon walk[i+1] gets
      it, and each daemon on the way passes it on. */
  predicate Trip(walk: seq<byte>, trip: seq<Mip.Raw>) {
    && |trip| == |walk| - 1
    && forall i :: 0 <= i < |trip| - 1 ==> Mip.OnRaw(walk[i + 1], trip[i]) == Mip.PassOn(trip[i + 1])
  }

  lemma {:induction false} TtlFalls(walk: seq<byte>, trip: seq<Mip.Raw>, i: nat)
    requires Trip(walk, trip) && i < |trip|
    ensures trip[i].ttl + i == trip[0].ttl
  {
    if i > 0 {
      TtlFalls(walk, trip, i - 1);
      assert Mip.OnRaw(walk[i - 1 + 1], trip[i - 1]) == Mip.PassOn(trip[i - 1 + 1]);
    }
  }

  /** Whatever the tables do and whatever answers send it on, a packet with time to live T is
      forwarded at most T times, even where it goes in circles. */
  lemma ForwardedAtMost(walk: seq<byte>, trip: seq<Mip.Raw>)
    requires trip != [] && Trip(walk, trip)
    ensures |trip| - 1 <= trip[0].ttl
  {
    TtlFalls(walk, trip, |trip| - 1);
  }

  /** And while each hop is one looked up for the packet's own destination, as it is while no
      answer was 255, no daemon gets it twice. */
  lemma ForwardedOncePerDaemon(nodes: set<byte>, actions: seq<Action>, moments: seq<nat>,
                               walk: seq<byte>, trip: seq<Mip.Raw>)
    requires |walk| == |moments| + 1 && trip != [] && Trip(walk, trip)
    requires forall i :: 0 <= i < |moments| ==>
      HopAt(nodes, actions, moments[i], walk[i], walk[i + 1], trip[0].dst)
    ensures Distinct(walk) && |trip| - 1 <= |nodes| - 2
  {
    PacketNeverRevisits(nodes, actions, moments, walk, trip[0].dst);
  }

  // ---- over converged routes ----

  /** One hop of a converged state. */
  lemma ConvergedHop(net: Net, adj: Links, k: nat, u: byte, t: byte, d: nat)
    requires u in net.tables && ExactTable(adj, u, net.tables[u], k) && Near(net)
    requires HopDistance(adj, u, t, d) && 1 <= d <= k + 1
    ensures Knows(net, u, t) && Get(net.tables[u], t).dist != MAX_DISTANCE
    ensures (u, Next(net, u, t)) in adj && HopDistance(adj, Next(net, u, t), t, d - 1)
  {
    assert u != t by {
      assert u == t ==> Walk(adj, u, t, 0);
    }
    assert Within(adj, u, t, k + 1);
    ExactTableSays(adj, u, net.tables[u], k, t);
    var e := Get(net.tables[u], t);
    SameDistance(adj, u, t, e.dist, d);
    assert net.tables[u][IndexOf(net.tables[u], t)] == e;
  }

  lemma RoutePrepend(net: Net, u: byte, rest: seq<byte>, t: byte)
    requires Route(net, rest, t) && LivePath(net, rest, t)
    requires Knows(net, u, t) && Next(net, u, t) == rest[0] && Get(net.tables[u], t).dist != MAX_DISTANCE
    ensures Route(net, [u] + rest, t) && LivePath(net, [u] + rest, t)
  {
    assert forall j :: 1 <= j < |[u] + rest| ==> ([u] + rest)[j] == rest[j - 1];
  }

  /** In a converged state routes are shortest paths. */
  lemma {:induction false} ConvergedRoute(net: Net, adj: Links, k: nat, u: byte, t: byte, d: nat)
    returns (path: seq<byte>)
    requires Exact(net, adj, k) && Near(net) && u in net.tables
    requires forall l :: l in adj ==> l.1 in net.tables
    requires HopDistance(adj, u, t, d) && 1 <= d <= k + 1
    ensures Route(net, path, t) && path[0] == u && |path| == d + 1 && LivePath(net, path, t)
    decreases d
  {
    ConvergedHop(net, adj, k, u, t, d);
    var v := Next(net, u, t);
    if d == 1 {
      assert v == t;
      path := [u, t];
    } else {
      var rest := ConvergedRoute(net, adj, k, v, t, d - 1);
      path := [u] + rest;
      RoutePrepend(net, u, rest, t);
    }
  }

  /** The state after the hellos and the rounds. */
  lemma Converged(nodes: set<byte>, adj: Links, hellos: seq<Action>, rounds: seq<Round>) returns (run: seq<Action>)
    requires Topology(nodes, adj) && AllHellos(adj, hellos) && AreRounds(Exec(Empty(nodes), hellos), rounds)
    ensures var net := ExecRounds(Exec(Empty(nodes), hellos), rounds);
      && net == Exec(Empty(nodes), run) && net.tables.Keys == nodes
      && Exact(net, adj, |rounds|) && Near(net) && Tidy(net)
  {
    run := Flat(hellos, rounds);
    RoundsAreARun(nodes, adj, hellos, rounds);
    RoundsAreExact(nodes, adj, hellos, rounds);
    SteadyIsNear(nodes, adj, run);
  }

  lemma UnknownIsUnroutable(net: Net, adj: Links, k: nat, u: byte, p: Mip.Raw, d: nat)
    requires Exact(net, adj, k) && Tidy(net) && u in net.tables && u != p.dst
    requires HopDistance(adj, u, p.dst, d) && d > k + 1
    ensures Originate(net, u, p) == Unroutable
  {
    ExactTableSays(adj, u, net.tables[u], k, p.dst);
    LookupExact(net.tables[u], p.dst);
  }

  /** After all hellos and k rounds of updates, a packet with time to live T gets from u to a
      target within k + 1 links exactly when the target is within T + 1 links, on a shortest
      path; targets further away than k + 1 links are unroutable. */
  lemma DeliveredAfterRounds(nodes: set<byte>, adj: Links, hellos: seq<Action>, rounds: seq<Round>,
                             u: byte, p: Mip.Raw, d: nat)
    requires Topology(nodes, adj) && AllHellos(adj, hellos) && AreRounds(Exec(Empty(nodes), hellos), rounds)
    requires NO_HOP !in nodes && u in nodes && u != p.dst && HopDistance(adj, u, p.dst, d)
    requires p.sduType == Mip.PING || p.sduType == Mip.TRANSPORT
    ensures d >= 1
    ensures Originate(ExecRounds(Exec(Empty(nodes), hellos), rounds), u, p) ==
      if d > |rounds| + 1 then Unroutable
      else if d <= p.ttl + 1 then Delivered(d - 1) else Dropped
  {
    var net := ExecRounds(Exec(Empty(nodes), hellos), rounds);
    var run := Converged(nodes, adj, hellos, rounds);
    assert d >= 1;
    if d > |rounds| + 1 {
      UnknownIsUnroutable(net, adj, |rounds|, u, p, d);
    } else {
      ConvergedHop(net, adj, |rounds|, u, p.dst, d);
      var path := ConvergedRoute(net, adj, |rounds|, u, p.dst, d);
      DeliveredExactly(nodes, run, u, p, path);
    }
  }

  lemma AcceptedPacket(u: byte, frame: Bytes, sduType: byte)
    requires 2 <= |frame|
    ensures var p := Mip.Accept(u, frame, sduType);
      && p.dst == frame[0] && p.src == u && p.sduType == sduType
      && p.ttl == if frame[1] == 0 then 3 else frame[1] % 16
  {
  }

  /** An application chooses the ttl of its packet, modulo 16, and 0 stands for 3: after k rounds
      the packet reaches exactly the daemons within k + 1 links and within one more link than
      the ttl. */
  lemma ApplicationReach(nodes: set<byte>, adj: Links, hellos: seq<RoutingNetwork.Action>, rounds: seq<Round>,
                         u: byte, frame: Bytes, sduType: byte, d: nat)
    requires Topology(nodes, adj) && AllHellos(adj, hellos) && AreRounds(Exec(Empty(nodes), hellos), rounds)
    requires NO_HOP !in nodes && u in nodes && (sduType == Mip.PING || sduType == Mip.TRANSPORT)
    requires 2 <= |frame| && u != frame[0] && HopDistance(adj, u, frame[0], d)
    ensures d >= 1
    ensures var p, ttl := Mip.Accept(u, frame, sduType), if frame[1] == 0 then 3 else frame[1] % 16;
      Originate(ExecRounds(Exec(Empty(nodes), hellos), rounds), u, p) ==
        if d > |rounds| + 1 then Unroutable else if d <= ttl + 1 then Delivered(d - 1) else Dropped
  {
    AcceptedPacket(u, frame, sduType);
    var p := Mip.Accept(u, frame, sduType);
    DeliveredAfterRounds(nodes, adj, hellos, rounds, u, p, d);
  }

  /** What the transport sends carries no ttl of its own, so the default of 3 decides: after k
      rounds its segments reach exactly the daemons within k + 1 and within four links. */
  lemma TransportReach(nodes: set<byte>, adj: Links, hellos: seq<RoutingNetwork.Action>, rounds: seq<Round>,
                       u: byte, app: Bytes, stale: (byte, byte), seqno: nat, srcPort: byte, d: nat)
    requires Topology(nodes, adj) && AllHellos(adj, hellos) && AreRounds(Exec(Empty(nodes), hellos), rounds)
    requires NO_HOP !in nodes && u in nodes
    requires u != HeaderOf(app, stale).0 && HopDistance(adj, u, HeaderOf(app, stale).0, d)
    ensures d >= 1
    ensures var p := Mip.Accept(u, FrameOf(app, stale, seqno, srcPort), Mip.TRANSPORT);
      Originate(ExecRounds(Exec(Empty(nodes), hellos), rounds), u, p) ==
        if d > |rounds| + 1 then Unroutable else if d <= 4 then Delivered(d - 1) else Dropped
  {
    var frame := FrameOf(app, stale, seqno, srcPort);
    assert frame[0] == HeaderOf(app, stale).0 && frame[1] == 0;
    ApplicationReach(nodes, adj, hellos, rounds, u, frame, Mip.TRANSPORT, d);
  }
}
