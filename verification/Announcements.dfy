/** What a network of routing daemons tells of its changes (routing_utils.c, routing_daemon.c):
    a daemon whose distance to a target changed, for whatever reason, has told every neighbour. */
module Announcements {
  import opened Framing
  import opened Routing
  import opened RoutingEffects
  import opened RoutingNetwork

  /** u has a distance to t that it did not have before. */
  predicate NewDistance(net: Net, later: Net, u: byte, t: byte) {
    Knows(later, u, t) && (Knows(net, u, t) ==> Get(later.tables[u], t).dist != Get(net.tables[u], t).dist)
  }

  /** u counts v as a neighbour. */
  predicate Neighbour(net: Net, u: byte, v: byte) {
    Knows(net, u, v) && Get(net.tables[u], v).dist == 1
  }

  /** What u tells its neighbour v of t: the distance, or MAX_DISTANCE if the route goes through v. */
  function Advertised(net: Net, u: byte, v: byte, t: byte): Pair
    requires Knows(net, u, t)
  {
    Pair(t, if Next(net, u, t) == v then MAX_DISTANCE else Get(net.tables[u], t).dist)
  }

  /** An update in which u tells v of t as the table stands. */
  predicate Tells(net: Net, u: byte, v: byte, t: byte, m: Mail) {
    Knows(net, u, t) && m.src == u && m.update.dst == v && Advertised(net, u, v, t) in m.update.pairs
  }

  /** The updates of a table tell every neighbour of every other entry. */
  lemma UpdatesTell(net: Net, u: byte, v: byte, t: byte) returns (m: Mail)
    requires Tidy(net) && Knows(net, u, t) && Neighbour(net, u, v) && v != t
    ensures m.update in Updates(net.tables[u]) && Tells(net, u, v, t, m)
  {
    var table := net.tables[u];
    m := Mail(u, Update(v, PairsFor(table, v)));
    UpdatesExact(table, |table|, m.update);
    PairsForExact(table, v, Advertised(net, u, v, t));
  }

  lemma HelloAnnounced(net: Net, a: Action, u: byte, t: byte)
    requires Tidy(net) && Enabled(net, a) && a.Hello? && NewDistance(net, Step(net, a), u, t)
    ensures Post(u, Updates(Step(net, a).tables[u])) <= Step(net, a).mail
  {
    var table := net.tables[a.dst];
    HelloKeeps(table, a.src, a.now);
    if u == a.dst && !HelloChanges(table, a.src) {
      SameDistance(table, HandleHello(table, a.src, a.now), t);
    }
  }

  /** Tables with the same addresses and distances, place by place. */
  lemma SameDistance(t: Table, u: Table, m: byte)
    requires UniqueKeys(t) && UniqueKeys(u) && |t| == |u| && Has(u, m)
    requires forall i :: 0 <= i < |t| ==> u[i].mip == t[i].mip && u[i].dist == t[i].dist
    ensures Has(t, m) && Get(t, m).dist == Get(u, m).dist
  {
    var i := IndexOf(u, m);
    assert t[i].mip == m;
    EntryAt(t, i);
  }

  lemma DeliverAnnounced(net: Net, a: Action, u: byte, t: byte)
    requires Tidy(net) && Enabled(net, a) && a.Deliver? && NewDistance(net, Step(net, a), u, t)
    ensures Post(u, Updates(Step(net, a).tables[u])) <= Step(net, a).mail
  {
    ReceiveKeeps(net.tables[a.m.update.dst], a.m.src, a.m.update.pairs, a.now);
  }

  lemma TickAnnounced(net: Net, a: Action, u: byte, t: byte)
    requires Tidy(net) && Enabled(net, a) && a.Tick? && NewDistance(net, Step(net, a), u, t)
    ensures Post(u, Updates(Step(net, a).tables[u])) <= Step(net, a).mail
  {
    var table := net.tables[a.node];
    if u == a.node {
      ScanKeeps(table, |table|, a.now);
      if forall i :: 0 <= i < |table| ==> !Silent(table[i], a.now) {
        SameDistance(table, Scan(table, |table|, a.now).0, t);
      } else {
        ScanPostsAll(table, a.now);
      }
    }
  }

  /** A scan that gives somebody up sends the updates of the table that it leaves behind. */
  lemma ScanPostsAll(t: Table, now: int)
    requires UniqueKeys(t) && exists i :: 0 <= i < |t| && Silent(t[i], now)
    ensures forall x :: x in Updates(Scan(t, |t|, now).0) ==> x in Scan(t, |t|, now).1
  {
    var k := LastSilent(t, |t|, now);
    ScanTable(t, |t|, now);
    assert GivenUp(t, k + 1, now) == GivenUp(t, |t|, now);
    forall x | x in Updates(GivenUp(t, |t|, now))
      ensures x in Scan(t, |t|, now).1
    {
      assert SentFor(t, k, now, x);
      ScanSends(t, |t|, now, x);
    }
  }

  lemma {:induction false} LastSilent(t: Table, n: nat, now: int) returns (k: nat)
    requires n <= |t| && exists i :: 0 <= i < n && Silent(t[i], now)
    ensures k < n && Silent(t[k], now) && forall i :: k < i < n ==> !Silent(t[i], now)
  {
    if Silent(t[n - 1], now) {
      k := n - 1;
    } else {
      k := LastSilent(t, n - 1, now);
    }
  }

  lemma StepPosts(net: Net, a: Action, u: byte, t: byte)
    requires Tidy(net) && NewDistance(net, Step(net, a), u, t)
    ensures Post(u, Updates(Step(net, a).tables[u])) <= Step(net, a).mail
  {
    if Enabled(net, a) {
      if a.Hello? {
        HelloAnnounced(net, a, u, t);
      } else if a.Deliver? {
        DeliverAnnounced(net, a, u, t);
      } else if a.Tick? {
        TickAnnounced(net, a, u, t);
      }
    }
  }

  /** Whatever a step changes, a hello, an update or a timeout: where a daemon has a distance to t
      that it did not have before, each of its neighbours has been sent that distance, or
      MAX_DISTANCE if the route goes through the neighbour. */
  lemma ChangesAreAnnounced(net: Net, a: Action, u: byte, v: byte, t: byte) returns (m: Mail)
    requires Tidy(net) && NewDistance(net, Step(net, a), u, t)
    requires Neighbour(Step(net, a), u, v) && v != t
    ensures m in Step(net, a).mail && Tells(Step(net, a), u, v, t, m)
  {
    StepGrows(net, a);
    StepPosts(net, a, u, t);
    var later := Step(net, a);
    m := UpdatesTell(later, u, v, t);
    assert m in Post(u, Updates(later.tables[u]));
  }

  /** And every periodic update tells everything. */
  lemma PeriodicTells(net: Net, u: byte, v: byte, t: byte) returns (m: Mail)
    requires Tidy(net) && Knows(net, u, t) && Neighbour(net, u, v) && v != t
    ensures m in Step(net, Periodic(u)).mail && Tells(net, u, v, t, m)
  {
    m := UpdatesTell(net, u, v, t);
    assert m in Post(u, Updates(net.tables[u]));
  }
}
