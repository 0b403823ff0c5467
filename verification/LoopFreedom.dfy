/** Loop freedom of the routing network over all runs (routing_utils.c): every route ends at
    its target without visiting a daemon twice, and neither does a packet that hops while
    the tables change. */
module LoopFreedom {
  import opened Framing
  import opened Routing
  import opened RoutingNetwork

  predicate Distinct(path: seq<byte>) {
    forall i, j :: 0 <= i < j < |path| ==> path[i] != path[j]
  }

  /** path follows the next hops for t and ends at t. */
  predicate Route(net: Net, path: seq<byte>, t: byte) {
    && path != [] && path[|path| - 1] == t
    && forall i :: 0 <= i < |path| - 1 ==> Knows(net, path[i], t) && Next(net, path[i], t) == path[i + 1]
  }

  /** The rank of a daemon on its way to t; t itself comes last. */
  ghost function RankTo(rank: Rank, u: byte, t: byte): nat {
    if u == t then 0 else rank(u, t)
  }

  lemma NextLowersRank(net: Net, rank: Rank, u: byte, t: byte)
    requires Ranked(net, rank) && Knows(net, u, t)
    ensures u != t && t in net.tables && Next(net, u, t) in net.tables
    ensures RankTo(rank, u, t) == RankTo(rank, Next(net, u, t), t) + 1
    ensures Next(net, u, t) == t || Knows(net, Next(net, u, t), t)
  {
    assert RankedEntry(net, rank, u, t);
    if Next(net, u, t) != t {
      assert RankedEntry(net, rank, Next(net, u, t), t);
    }
  }

  /** The route from a daemon, as long as its rank says. */
  lemma {:induction false} RouteFrom(net: Net, rank: Rank, u: byte, t: byte) returns (path: seq<byte>)
    requires Ranked(net, rank) && Knows(net, u, t)
    ensures Route(net, path, t) && path[0] == u && |path| == rank(u, t) + 1
    ensures forall i :: 0 <= i < |path| ==> path[i] in net.tables && RankTo(rank, path[i], t) == |path| - 1 - i
    decreases rank(u, t)
  {
    NextLowersRank(net, rank, u, t);
    var v := Next(net, u, t);
    if v == t {
      path := [u, t];
    } else {
      var rest := RouteFrom(net, rank, v, t);
      path := [u] + rest;
    }
  }

  lemma {:induction false} DistinctWithin(path: seq<byte>, nodes: set<byte>)
    requires Distinct(path) && forall i :: 0 <= i < |path| ==> path[i] in nodes
    ensures |path| <= |nodes|
  {
    if path != [] {
      DistinctWithin(path[1..], nodes - {path[0]});
    }
  }

  /** In every state of every run, each entry for t leads along next hops to t, without
      visiting a daemon twice. */
  lemma RoutesNeverLoop(nodes: set<byte>, actions: seq<Action>, u: byte, t: byte)
    requires Knows(Exec(Empty(nodes), actions), u, t)
    ensures exists path ::
      Route(Exec(Empty(nodes), actions), path, t) && path[0] == u && Distinct(path) && |path| <= |nodes|
  {
    var rank := RankExists(nodes, actions);
    var net := Exec(Empty(nodes), actions);
    KeysKept(nodes, actions);
    var path := RouteFrom(net, rank, u, t);
    assert Distinct(path);
    DistinctWithin(path, nodes);
  }

  lemma {:induction false} KeysKept(nodes: set<byte>, actions: seq<Action>)
    ensures Tidy(Exec(Empty(nodes), actions)) && Exec(Empty(nodes), actions).tables.Keys == nodes
  {
    if actions != [] {
      KeysKept(nodes, actions[..|actions| - 1]);
      StepGrows(Exec(Empty(nodes), actions[..|actions| - 1]), actions[|actions| - 1]);
    }
  }

  /** The same for the acyclicity of the whole graph of next hops toward t: no daemon comes
      back to itself after one or more hops. */
  lemma NoCycle(nodes: set<byte>, actions: seq<Action>, cycle: seq<byte>, t: byte)
    requires |cycle| >= 2
    requires var net := Exec(Empty(nodes), actions);
      forall i :: 0 <= i < |cycle| - 1 ==> Knows(net, cycle[i], t) && Next(net, cycle[i], t) == cycle[i + 1]
    ensures cycle[0] != cycle[|cycle| - 1]
  {
    var rank := RankExists(nodes, actions);
    RanksFall(Exec(Empty(nodes), actions), rank, cycle, t, 0, |cycle| - 1);
  }

  lemma {:induction false} RanksFall(net: Net, rank: Rank, walk: seq<byte>, t: byte, i: nat, j: nat)
    requires Ranked(net, rank) && i < j < |walk|
    requires forall k :: 0 <= k < |walk| - 1 ==> Knows(net, walk[k], t) && Next(net, walk[k], t) == walk[k + 1]
    ensures RankTo(rank, walk[j], t) < RankTo(rank, walk[i], t)
    decreases j - i
  {
    NextLowersRank(net, rank, walk[i], t);
    if i + 1 < j {
      RanksFall(net, rank, walk, t, i + 1, j);
    }
  }

  /** After the first k actions of a run, daemon u answers v when asked for t. */
  ghost predicate HopAt(nodes: set<byte>, actions: seq<Action>, k: nat, u: byte, v: byte, t: byte) {
    && k <= |actions| && u in nodes
    && var net := Exec(Empty(nodes), actions[..k]);
      u in net.tables && v == Lookup(net.tables[u], t) && v != NO_HOP
  }

  /** A hop taken from a live entry of an earlier state is still the next hop later. */
  lemma HopIsFinal(nodes: set<byte>, actions: seq<Action>, k: nat, u: byte, v: byte, t: byte)
    requires HopAt(nodes, actions, k, u, v, t)
    ensures var net := Exec(Empty(nodes), actions);
      Knows(net, u, t) && Next(net, u, t) == v
  {
    KeysKept(nodes, actions[..k]);
    ExecGrows(Empty(nodes), actions, k);
    LookupExact(Exec(Empty(nodes), actions[..k]).tables[u], t);
  }

  /** Whenever a daemon is asked for t, at whatever moments of the run, its answer is 255 or
      always the same hop: a neighbour that was given up is never routed around. */
  lemma AnswerNeverMoves(nodes: set<byte>, actions: seq<Action>, k: nat, l: nat, u: byte, v: byte, w: byte, t: byte)
    requires HopAt(nodes, actions, k, u, v, t) && HopAt(nodes, actions, l, u, w, t)
    ensures v == w
  {
    HopIsFinal(nodes, actions, k, u, v, t);
    HopIsFinal(nodes, actions, l, u, w, t);
  }

  /** A packet for t that hops from daemon to daemon, each hop looked up at some moment of
      the run, in whatever order and however the tables change between, never visits a
      daemon twice. */
  lemma PacketNeverRevisits(nodes: set<byte>, actions: seq<Action>, moments: seq<nat>, walk: seq<byte>, t: byte)
    requires |walk| == |moments| + 1
    requires forall i :: 0 <= i < |moments| ==> HopAt(nodes, actions, moments[i], walk[i], walk[i + 1], t)
    ensures Distinct(walk)
    ensures |moments| < |nodes| || |moments| == 0
  {
    var net := Exec(Empty(nodes), actions);
    var rank := RankExists(nodes, actions);
    forall i | 0 <= i < |walk| - 1
      ensures Knows(net, walk[i], t) && Next(net, walk[i], t) == walk[i + 1]
    {
      HopIsFinal(nodes, actions, moments[i], walk[i], walk[i + 1], t);
    }
    forall i, j | 0 <= i < j < |walk|
      ensures walk[i] != walk[j]
    {
      RanksFall(net, rank, walk, t, i, j);
    }
    if |moments| > 0 {
      KeysKept(nodes, actions);
      NextLowersRank(net, rank, walk[|walk| - 2], t);
      DistinctWithin(walk, nodes);
    }
  }
}
