/** A network of routing daemons (routing_utils.c, routing_daemon.c): any interleaving of
    hellos, timeouts, periodic updates, and updates that are delayed, lost or delivered
    again. Whatever happens, following next hops never loops. */
module RoutingNetwork {
  import opened Framing
  import opened Routing

  /** An update on its way from one daemon. */
  datatype Mail = Mail(src: byte, update: Update)

  /** The tables of all daemons, and every update ever sent. */
  datatype Net = Net(tables: map<byte, Table>, mail: set<Mail>)

  datatype Action =
    | Hello(src: byte, dst: byte, now: int)
    | Deliver(m: Mail, now: int)
    | Tick(node: byte, now: int)
    | Periodic(node: byte)

  function Empty(nodes: set<byte>): Net {
    Net(map n | n in nodes :: [], {})
  }

  function Post(src: byte, updates: seq<Update>): set<Mail> {
    set u | u in updates :: Mail(src, u)
  }

  ghost predicate Enabled(net: Net, a: Action) {
    match a
    case Hello(src, dst, _) => src != dst && src in net.tables && dst in net.tables
    case Deliver(m, _) => m in net.mail && m.update.dst in net.tables
    case Tick(node, _) => node in net.tables
    case Periodic(node) => node in net.tables
  }

  ghost function DoHello(net: Net, src: byte, dst: byte, now: int): Net
    requires dst in net.tables
  {
    var t := net.tables[dst];
    var u := HandleHello(t, src, now);
    Net(net.tables[dst := u], if HelloChanges(t, src) then net.mail + Post(dst, Updates(u)) else net.mail)
  }

  ghost function DoDeliver(net: Net, m: Mail, now: int): Net
    requires m.update.dst in net.tables
  {
    var dst := m.update.dst;
    var t := net.tables[dst];
    var u := Receive(t, m.src, m.update.pairs, now);
    Net(net.tables[dst := u],
        if ReceiveChanges(t, m.src, m.update.pairs, now) then net.mail + Post(dst, Updates(u)) else net.mail)
  }

  ghost function DoTick(net: Net, node: byte, now: int): Net
    requires node in net.tables
  {
    var (u, sent) := Scan(net.tables[node], |net.tables[node]|, now);
    Net(net.tables[node := u], net.mail + Post(node, sent))
  }

  ghost function DoPeriodic(net: Net, node: byte): Net
    requires node in net.tables
  {
    net.(mail := net.mail + Post(node, Updates(net.tables[node])))
  }

  /** An action that is not enabled changes nothing. */
  ghost function Step(net: Net, a: Action): Net {
    if !Enabled(net, a) then net
    else match a
      case Hello(src, dst, now) => DoHello(net, src, dst, now)
      case Deliver(m, now) => DoDeliver(net, m, now)
      case Tick(node, now) => DoTick(net, node, now)
      case Periodic(node) => DoPeriodic(net, node)
  }

  ghost function Exec(net: Net, actions: seq<Action>): Net {
    if actions == [] then net
    else Step(Exec(net, actions[..|actions| - 1]), actions[|actions| - 1])
  }

  // ---- next hops ----

  predicate Knows(net: Net, u: byte, t: byte) {
    u in net.tables && Has(net.tables[u], t)
  }

  function Next(net: Net, u: byte, t: byte): byte
    requires Knows(net, u, t)
  {
    Get(net.tables[u], t).next
  }

  predicate Tidy(net: Net) {
    forall u :: u in net.tables ==> UniqueKeys(net.tables[u])
  }

  /** Nothing is forgotten and no next hop ever changes. */
  predicate Grown(net: Net, later: Net) {
    && later.tables.Keys == net.tables.Keys
    && net.mail <= later.mail
    && forall u, t :: Knows(net, u, t) ==> Knows(later, u, t) && Next(later, u, t) == Next(net, u, t)
  }

  lemma GetKept(t: Table, u: Table, m: byte)
    requires UniqueKeys(t) && UniqueKeys(u) && Extends(t, u) && Has(t, m)
    ensures Has(u, m) && Get(u, m).next == Get(t, m).next
  {
    var i := IndexOf(t, m);
    assert u[i].mip == m;
    assert IndexOf(u, m) == i;
  }

  lemma TableReplaced(net: Net, u: byte, table: Table, mail: set<Mail>)
    requires Tidy(net) && u in net.tables && net.mail <= mail
    requires UniqueKeys(table) && Extends(net.tables[u], table)
    ensures var later := Net(net.tables[u := table], mail);
      Tidy(later) && Grown(net, later)
  {
    forall m | Has(net.tables[u], m)
      ensures Has(table, m) && Get(table, m).next == Get(net.tables[u], m).next
    {
      GetKept(net.tables[u], table, m);
    }
  }

  lemma StepGrows(net: Net, a: Action)
    requires Tidy(net)
    ensures Tidy(Step(net, a)) && Grown(net, Step(net, a))
  {
    if Enabled(net, a) {
      var later := Step(net, a);
      match a
      case Hello(src, dst, now) =>
        HelloKeeps(net.tables[dst], src, now);
        TableReplaced(net, dst, later.tables[dst], later.mail);
      case Deliver(m, now) =>
        ReceiveKeeps(net.tables[m.update.dst], m.src, m.update.pairs, now);
        TableReplaced(net, m.update.dst, later.tables[m.update.dst], later.mail);
      case Tick(node, now) =>
        ScanKeeps(net.tables[node], |net.tables[node]|, now);
        TableReplaced(net, node, later.tables[node], later.mail);
      case Periodic(node) =>
    }
  }

  lemma {:induction false} ExecGrows(net: Net, actions: seq<Action>, k: nat)
    requires Tidy(net) && k <= |actions|
    ensures Tidy(Exec(net, actions[..k])) && Tidy(Exec(net, actions))
    ensures Grown(Exec(net, actions[..k]), Exec(net, actions))
    decreases |actions|
  {
    if k == |actions| {
      assert actions[..k] == actions;
      if k > 0 {
        ExecGrows(net, actions[..k - 1], k - 1);
        assert actions[..k - 1][..k - 1] == actions[..k - 1];
        StepGrows(Exec(net, actions[..k - 1]), actions[k - 1]);
      }
    } else {
      var prefix := actions[..|actions| - 1];
      assert prefix[..k] == actions[..k];
      ExecGrows(net, prefix, k);
      StepGrows(Exec(net, prefix), actions[|actions| - 1]);
    }
  }

  // ---- the invariant: a rank that next hops lower ----

  /** How many hops a route has: fixed when its entry is created. */
  type Rank = (byte, byte) -> nat

  ghost predicate RankedEntry(net: Net, rank: Rank, u: byte, t: byte)
    requires Knows(net, u, t)
  {
    var v := Next(net, u, t);
    && t in net.tables && t != u
    && if v == t then rank(u, t) == 1 else Knows(net, v, t) && rank(u, t) == rank(v, t) + 1
  }

  ghost predicate Ranked(net: Net, rank: Rank) {
    forall u, t :: Knows(net, u, t) ==> RankedEntry(net, rank, u, t)
  }

  /** An update tells a neighbour about targets that its sender knows, never about itself. */
  predicate HonestMail(net: Net, m: Mail) {
    && m.src in net.tables && m.update.dst in net.tables && m.src != m.update.dst
    && forall p :: p in m.update.pairs ==>
      Knows(net, m.src, p.target) && p.target in net.tables && p.target != m.update.dst
  }

  predicate Honest(net: Net) {
    forall m :: m in net.mail ==> HonestMail(net, m)
  }

  /** Where a new entry comes from: a hello of the target itself, or an update of a daemon
      that knows the target already. */
  ghost predicate NewEntry(net: Net, later: Net, u: byte, t: byte)
    requires Knows(later, u, t)
  {
    var v := Next(later, u, t);
    && t in net.tables && t != u && v in net.tables
    && (v == t || Knows(net, v, t))
  }

  ghost predicate AllNew(net: Net, later: Net) {
    forall u, t :: Knows(later, u, t) && !Knows(net, u, t) ==> NewEntry(net, later, u, t)
  }

  /** Only the replaced table can hold new entries. */
  lemma AddedBy(net: Net, dst: byte, table: Table, mail: set<Mail>)
    requires dst in net.tables
    requires forall t :: Has(table, t) && !Has(net.tables[dst], t) ==>
      var v := Get(table, t).next;
      t in net.tables && t != dst && v in net.tables && (v == t || Knows(net, v, t))
    ensures AllNew(net, Net(net.tables[dst := table], mail))
  {
  }

  lemma HelloAdds(net: Net, src: byte, dst: byte, now: int)
    requires Enabled(net, Hello(src, dst, now))
    ensures AllNew(net, DoHello(net, src, dst, now))
  {
    var table := HandleHello(net.tables[dst], src, now);
    forall t | Has(table, t) && !Has(net.tables[dst], t)
      ensures t == src && Get(table, t).next == src
    {
      LearnedFromHello(net.tables[dst], src, now, t);
    }
    AddedBy(net, dst, table, DoHello(net, src, dst, now).mail);
  }

  lemma DeliverAdds(net: Net, m: Mail, now: int)
    requires Tidy(net) && HonestMail(net, m)
    ensures AllNew(net, DoDeliver(net, m, now))
  {
    var dst, pairs := m.update.dst, m.update.pairs;
    var table := Receive(net.tables[dst], m.src, pairs, now);
    forall t | Has(table, t) && !Has(net.tables[dst], t)
      ensures Get(table, t).next == m.src && Knows(net, m.src, t) && t in net.tables && t != dst
    {
      LearnedFrom(net.tables[dst], m.src, pairs, now, t);
      var p :| p in pairs && p.target == t;
    }
    AddedBy(net, dst, table, DoDeliver(net, m, now).mail);
  }

  lemma TickAdds(net: Net, node: byte, now: int)
    requires Tidy(net) && node in net.tables
    ensures forall u, t :: Knows(Step(net, Tick(node, now)), u, t) ==> Knows(net, u, t)
  {
    var was := net.tables[node];
    var table := Scan(was, |was|, now).0;
    ScanKeeps(was, |was|, now);
    forall t | Has(table, t)
      ensures Has(was, t)
    {
      var i :| 0 <= i < |table| && table[i].mip == t;
      assert was[i].mip == t;
    }
  }

  lemma StepAdds(net: Net, a: Action)
    requires Tidy(net) && Honest(net)
    ensures AllNew(net, Step(net, a))
  {
    if Enabled(net, a) {
      match a
      case Hello(src, dst, now) => HelloAdds(net, src, dst, now);
      case Deliver(m, now) => DeliverAdds(net, m, now);
      case Tick(node, now) => TickAdds(net, node, now);
      case Periodic(node) =>
    }
  }

  /** A daemon knows every target of the table it posts, and is none of them. */
  predicate Publishable(net: Net, src: byte, table: Table) {
    && src in net.tables
    && forall t :: Has(table, t) ==> Knows(net, src, t) && t in net.tables && t != src
  }

  /** What a daemon posts from its own table is honest. */
  lemma PostIsHonest(later: Net, src: byte, table: Table)
    requires Publishable(later, src, table)
    ensures forall m :: m in Post(src, Updates(table)) ==> HonestMail(later, m)
  {
    forall m | m in Post(src, Updates(table))
      ensures HonestMail(later, m)
    {
      UpdatesExact(table, |table|, m.update);
      var i :| 0 <= i < |table| && table[i].mip == m.update.dst && table[i].dist == 1;
      assert Has(table, m.update.dst);
      forall p | p in m.update.pairs
        ensures Has(table, p.target) && p.target in later.tables && p.target != m.update.dst
      {
        PairsForExact(table, m.update.dst, p);
        var e :| e in table && e.mip != m.update.dst &&
          p == Pair(e.mip, if e.next == m.update.dst then MAX_DISTANCE else e.dist);
        var k :| 0 <= k < |table| && table[k] == e;
        assert table[k].mip == p.target;
      }
    }
  }

  lemma {:induction false} ScanPosts(later: Net, src: byte, table: Table, k: nat, now: int)
    requires k <= |table| && UniqueKeys(table) && Publishable(later, src, table)
    ensures forall m :: m in Post(src, Scan(table, k, now).1) ==> HonestMail(later, m)
  {
    if k != 0 {
      ScanPosts(later, src, table, k - 1, now);
      ScanKeeps(table, k, now);
      var v := Scan(table, k, now).0;
      forall t | Has(v, t)
        ensures Has(table, t)
      {
        var i :| 0 <= i < |v| && v[i].mip == t;
        assert table[i].mip == t;
      }
      PostIsHonest(later, src, v);
    }
  }

  ghost predicate Inv(net: Net, rank: Rank) {
    Tidy(net) && Honest(net) && Ranked(net, rank)
  }

  lemma HonestMailKept(net: Net, later: Net)
    requires Grown(net, later) && Honest(net)
    ensures forall m :: m in net.mail ==> HonestMail(later, m)
  {
  }

  /** Ranks of old entries stay, a new entry gets one more than its next hop. */
  lemma RanksExtend(net: Net, rank: Rank, a: Action) returns (more: Rank)
    requires Inv(net, rank)
    ensures Ranked(Step(net, a), more)
    ensures forall u, t :: Knows(net, u, t) ==> more(u, t) == rank(u, t)
  {
    StepGrows(net, a);
    StepAdds(net, a);
    more := RanksOfGrown(net, rank, Step(net, a));
  }

  lemma RanksOfGrown(net: Net, rank: Rank, later: Net) returns (more: Rank)
    requires Ranked(net, rank) && Grown(net, later) && AllNew(net, later)
    ensures Ranked(later, more)
    ensures forall u, t :: Knows(net, u, t) ==> more(u, t) == rank(u, t)
  {
    more := (u: byte, t: byte) =>
      if Knows(net, u, t) || !Knows(later, u, t) then rank(u, t)
      else if Next(later, u, t) == t then 1 else rank(Next(later, u, t), t) + 1;
    forall u, t | Knows(later, u, t)
      ensures RankedEntry(later, more, u, t)
    {
      if Knows(net, u, t) {
        assert RankedEntry(net, rank, u, t);
      } else {
        assert NewEntry(net, later, u, t);
      }
    }
  }

  lemma OwnTableIsPublishable(net: Net, rank: Rank)
    requires Ranked(net, rank)
    ensures forall u :: u in net.tables ==> Publishable(net, u, net.tables[u])
  {
    forall u, t | u in net.tables && Has(net.tables[u], t)
      ensures Knows(net, u, t) && t in net.tables && t != u
    {
      assert Knows(net, u, t) && RankedEntry(net, rank, u, t);
    }
  }

  lemma StepStaysHonest(net: Net, rank: Rank, a: Action)
    requires Inv(net, rank)
    ensures Honest(Step(net, a))
  {
    var later := Step(net, a);
    var more := RanksExtend(net, rank, a);
    StepGrows(net, a);
    HonestMailKept(net, later);
    OwnTableIsPublishable(later, more);
    if Enabled(net, a) {
      match a
      case Hello(src, dst, now) => PostIsHonest(later, dst, later.tables[dst]);
      case Deliver(m, now) => PostIsHonest(later, m.update.dst, later.tables[m.update.dst]);
      case Tick(node, now) =>
        OwnTableIsPublishable(net, rank);
        assert Publishable(later, node, net.tables[node]) by {
          forall t | Has(net.tables[node], t)
            ensures Knows(later, node, t) && t in later.tables && t != node
          {
            assert Knows(net, node, t);
          }
        }
        ScanPosts(later, node, net.tables[node], |net.tables[node]|, now);
      case Periodic(node) => PostIsHonest(later, node, later.tables[node]);
    }
  }

  lemma {:induction false} RankExists(nodes: set<byte>, actions: seq<Action>) returns (rank: Rank)
    ensures Inv(Exec(Empty(nodes), actions), rank)
  {
    if actions == [] {
      rank := (u: byte, t: byte) => 0;
    } else {
      var prefix := actions[..|actions| - 1];
      var before := RankExists(nodes, prefix);
      StepGrows(Exec(Empty(nodes), prefix), actions[|actions| - 1]);
      StepStaysHonest(Exec(Empty(nodes), prefix), before, actions[|actions| - 1]);
      rank := RanksExtend(Exec(Empty(nodes), prefix), before, actions[|actions| - 1]);
    }
  }
}
