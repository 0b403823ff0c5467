/** What a neighbour that is given up does to the distances (routing_utils.c): the advertised
    MAX_DISTANCE wraps to 0 where the target is unknown. */
module Timeouts {
  import opened Framing
  import opened Routing
  import opened RoutingNetwork

  /** An unknown target is stored one further away than advertised, exactly unless it was
      advertised at MAX_DISTANCE. */
  lemma StoredDistanceExact(t: Table, src: byte, p: Pair, now: int)
    requires !Has(t, p.target)
    ensures var u := ApplyPair(t, src, p, now);
      Has(u, p.target) && (Get(u, p.target).dist == p.dist + 1 <==> p.dist != MAX_DISTANCE)
  {
    var u := ApplyPair(t, src, p, now);
    assert u[|t|].mip == p.target;
    assert forall k :: 0 <= k < |t| ==> u[k] == t[k] && t[k].mip != p.target;
    assert IndexOf(u, p.target) == |t|;
  }

  /** An advertised MAX_DISTANCE that meets an unknown target wraps to distance 0, and the new
      route is live. */
  lemma DeadRouteLearnedAsZero(s: byte, u: byte, now: int)
    requires s != NO_HOP
    ensures var table := Receive([], s, [Pair(u, MAX_DISTANCE)], now);
      table == [Entry(u, 0, s, now)] && Lookup(table, u) == s
  {
    var p := Pair(u, MAX_DISTANCE);
    MergeOneMore([], s, [], p, now);
    assert [] + [p] == [p];
    var table := [Entry(u, 0, s, now)];
    assert IndexOf([], u) == -1;
    assert ApplyPair([], s, p, now) == table;
    ClosureExact(table);
  }

  lemma ExecOneMore(net: Net, actions: seq<Action>, a: Action)
    ensures Exec(net, actions + [a]) == Step(Exec(net, actions), a)
  {
    assert (actions + [a])[..|actions|] == actions;
  }

  /** The table of a daemon that heard 3, gave it up, and then heard 1. */
  const DEAD_AND_LIVE: Table := [Entry(3, MAX_DISTANCE, 3, 0), Entry(1, 1, 1, 13)]

  const POISONED: Mail := Mail(2, Update(1, [Pair(3, MAX_DISTANCE)]))

  /** The daemons 1 - 2 - 3 in a row; 2 hears 3, gives it up, then hears 1. */
  const GIVING_UP: seq<Action> := [] + [Hello(3, 2, 0)] + [Tick(2, 13)] + [Hello(1, 2, 13)]

  lemma DeadRouteIsAdvertised()
    ensures POISONED in Post(2, Updates(DEAD_AND_LIVE))
  {
    var table, x := DEAD_AND_LIVE, POISONED.update;
    assert table[..1] == [table[0]] && table[..1][..0] == [];
    assert PairsFor(table[..1], 1) == [Pair(3, MAX_DISTANCE)];
    UpdatesExact(table, 2, x);
  }

  lemma GivingUp()
    ensures var net := Exec(Empty({1, 2, 3}), GIVING_UP);
      net.tables == map[1 := [], 2 := DEAD_AND_LIVE, 3 := []] && POISONED in net.mail
  {
    var n0 := Empty({1, 2, 3});
    ExecOneMore(n0, [], Hello(3, 2, 0));
    ExecOneMore(n0, [] + [Hello(3, 2, 0)], Tick(2, 13));
    ExecOneMore(n0, [] + [Hello(3, 2, 0)] + [Tick(2, 13)], Hello(1, 2, 13));
    var n1 := Step(n0, Hello(3, 2, 0));
    assert n1.tables == map[1 := [], 2 := [Entry(3, 1, 3, 0)], 3 := []];
    var n2 := Step(n1, Tick(2, 13));
    GiveUp(3, 13);
    assert n2.tables == map[1 := [], 2 := [Entry(3, MAX_DISTANCE, 3, 0)], 3 := []];
    HearOne(n2);
  }

  lemma HearOne(net: Net)
    requires net.tables == map[1 := [], 2 := [Entry(3, MAX_DISTANCE, 3, 0)], 3 := []]
    ensures var later := Step(net, Hello(1, 2, 13));
      later.tables == map[1 := [], 2 := DEAD_AND_LIVE, 3 := []] && POISONED in later.mail
  {
    var t := net.tables[2];
    assert IndexOf(t, 1) == -1;
    assert HandleHello(t, 1, 13) == DEAD_AND_LIVE;
    DeadRouteIsAdvertised();
  }

  lemma GiveUp(u: byte, now: int)
    requires now > HELLO_LIMIT
    ensures Scan([Entry(u, 1, u, 0)], 1, now).0 == [Entry(u, MAX_DISTANCE, u, 0)]
  {
  }

  /** With one timeout a reachable state can hold a live route of distance 0 to a daemon that
      its next hop has given up. */
  lemma TimeoutBreaksSoundness()
    ensures var net := Exec(Empty({1, 2, 3}), GIVING_UP + [Deliver(POISONED, 14)]);
      && Knows(net, 1, 3) && Get(net.tables[1], 3).dist == 0 && Next(net, 1, 3) == 2
      && Knows(net, 2, 3) && Get(net.tables[2], 3).dist == MAX_DISTANCE
      && Lookup(net.tables[1], 3) == 2 && Lookup(net.tables[2], 3) == NO_HOP
  {
    GivingUp();
    DeadRouteLearnedAsZero(2, 3, 14);
    var before := Exec(Empty({1, 2, 3}), GIVING_UP);
    ExecOneMore(Empty({1, 2, 3}), GIVING_UP, Deliver(POISONED, 14));
    var net := Step(before, Deliver(POISONED, 14));
    assert net.tables[1] == [Entry(3, 0, 2, 14)] && net.tables[2] == DEAD_AND_LIVE;
    assert DEAD_AND_LIVE[0].mip == 3 && net.tables[1][0].mip == 3;
    LookupExact(DEAD_AND_LIVE, 3);
  }
}
