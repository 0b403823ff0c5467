/** What each function of the routing daemon (routing_utils.c) does to a table, said entry by
    entry, and which messages it makes the daemon send. */
module RoutingEffects {
  import opened Framing
  import opened Routing

  lemma EntryAt(t: Table, i: nat)
    requires UniqueKeys(t) && i < |t|
    ensures Has(t, t[i].mip) && IndexOf(t, t[i].mip) == i && Get(t, t[i].mip) == t[i]
  {
    assert t[i].mip == t[i].mip;
  }

  // ---- hellos ----

  /** After a hello its sender is at distance 1 and was heard now, whatever the table was;
      nothing else changed. Updates are sent iff somebody's distance changed. */
  lemma HelloExact(t: Table, m: byte, now: int)
    ensures var u := HandleHello(t, m, now);
      && Has(u, m) && Get(u, m) == Entry(m, 1, if Has(t, m) then Get(t, m).next else m, now)
      && |u| == (if Has(t, m) then |t| else |t| + 1)
      && (forall k :: 0 <= k < |t| && k != IndexOf(t, m) ==> u[k] == t[k])
      && (HelloChanges(t, m) <==> |u| != |t| || exists k :: 0 <= k < |t| && u[k].dist != t[k].dist)
  {
    var u, i := HandleHello(t, m, now), IndexOf(t, m);
    var at := if i == -1 then |t| else i;
    assert u[at].mip == m;
    assert forall k :: 0 <= k < at ==> u[k].mip == t[k].mip != m;
    assert IndexOf(u, m) == at;
    if HelloChanges(t, m) && i != -1 {
      assert u[i].dist != t[i].dist;
    }
  }

  /** So it is routed to, and a timeout scan gives it up exactly if the hello is older than
      the limit by then. */
  lemma HelloKeepsAlive(t: Table, m: byte, now: int, later: int)
    requires UniqueKeys(t)
    ensures var u := HandleHello(t, m, now);
      var v := Scan(u, |u|, later).0;
      && Lookup(u, m) == (if Has(t, m) then Get(t, m).next else m)
      && Has(u, m) && Has(v, m)
      && Get(v, m) == if later <= now + HELLO_LIMIT then Get(u, m) else Get(u, m).(dist := MAX_DISTANCE)
  {
    var u := HandleHello(t, m, now);
    var v := Scan(u, |u|, later).0;
    HelloExact(t, m, now);
    HelloKeeps(t, m, now);
    LookupExact(u, m);
    ScanKeeps(u, |u|, later);
    var i := IndexOf(u, m);
    assert v[i].mip == m;
    EntryAt(v, i);
  }

  // ---- one pair ----

  /** The entry says that its route goes through src, and src says that the target is lost. */
  predicate Withdrawn(e: Entry, src: byte, p: Pair) {
    p.target == e.mip && p.dist == MAX_DISTANCE && e.next == src
  }

  /** A pair that withdraws a route puts it at MAX_DISTANCE; any other leaves the smaller of the
      two distances; an unknown target is entered behind the others. No other entry changes. */
  lemma ApplyPairExact(t: Table, src: byte, p: Pair, now: int)
    requires UniqueKeys(t)
    ensures var u := ApplyPair(t, src, p, now);
      && (Has(t, p.target) ==> |u| == |t|)
      && (!Has(t, p.target) ==> u == t + [Entry(p.target, if p.dist == MAX_DISTANCE then 0 else p.dist + 1, src, now)])
      && (forall k :: 0 <= k < |t| ==> u[k] == t[k].(dist :=
           if Withdrawn(t[k], src, p) then MAX_DISTANCE
           else if t[k].mip == p.target && p.dist + 1 < t[k].dist then p.dist + 1
           else t[k].dist))
  {
    forall k | 0 <= k < |t|
      ensures Has(t, p.target) ==> (k == IndexOf(t, p.target) <==> t[k].mip == p.target)
    {
      EntryAt(t, k);
    }
  }

  // ---- all pairs of an update ----

  /** d is the least of start and what the pairs from k on offer for the target m. */
  predicate LeastOffer(d: nat, start: nat, m: byte, pairs: seq<Pair>, k: nat) {
    && d <= start
    && (forall j :: k <= j < |pairs| && pairs[j].target == m ==> d <= pairs[j].dist + 1)
    && (d == start || exists j :: k <= j < |pairs| && pairs[j].target == m && d == pairs[j].dist + 1)
  }

  /** No pair from k on withdraws the route of e, but the one before k does, if there is one. */
  predicate SinceWithdrawal(e: Entry, src: byte, pairs: seq<Pair>, k: nat) {
    && k <= |pairs|
    && (k > 0 ==> Withdrawn(e, src, pairs[k - 1]))
    && (forall j :: k <= j < |pairs| ==> !Withdrawn(e, src, pairs[j]))
  }

  /** What an update makes of a known entry: from its own distance, or from MAX_DISTANCE since
      the last pair that withdrew it, the least distance offered. Nothing else changes in it. */
  lemma {:induction false} MergeExact(t: Table, src: byte, pairs: seq<Pair>, now: int, i: nat) returns (k: nat)
    requires UniqueKeys(t) && i < |t|
    ensures SinceWithdrawal(t[i], src, pairs, k)
    ensures var u := Merge(t, src, pairs, now);
      && i < |u| && u[i] == t[i].(dist := u[i].dist)
      && LeastOffer(u[i].dist, if k == 0 then t[i].dist else MAX_DISTANCE, t[i].mip, pairs, k)
  {
    if pairs == [] {
      k := 0;
    } else {
      var prefix, p := pairs[..|pairs| - 1], pairs[|pairs| - 1];
      assert pairs == prefix + [p];
      k := MergeExact(t, src, prefix, now, i);
      MergeKeeps(t, src, prefix, now);
      ApplyPairExact(Merge(t, src, prefix, now), src, p, now);
      if Withdrawn(t[i], src, p) {
        k := |pairs|;
      } else {
        OfferOneMore(t, src, prefix, p, now, i, k);
      }
    }
  }

  lemma OfferOneMore(t: Table, src: byte, prefix: seq<Pair>, p: Pair, now: int, i: nat, k: nat)
    requires i < |t| && k <= |prefix|
    requires i < |Merge(t, src, prefix, now)| && i < |Merge(t, src, prefix + [p], now)|
    requires var d, start := Merge(t, src, prefix, now)[i].dist, if k == 0 then t[i].dist else MAX_DISTANCE;
      && LeastOffer(d, start, t[i].mip, prefix, k)
      && Merge(t, src, prefix + [p], now)[i].dist == if t[i].mip == p.target && p.dist + 1 < d then p.dist + 1 else d
    ensures LeastOffer(Merge(t, src, prefix + [p], now)[i].dist, if k == 0 then t[i].dist else MAX_DISTANCE,
                       t[i].mip, prefix + [p], k)
  {
    var pairs, m := prefix + [p], t[i].mip;
    var d, e := Merge(t, src, prefix, now)[i].dist, Merge(t, src, pairs, now)[i].dist;
    if p.target == m && p.dist + 1 < d {
      assert pairs[|prefix|] == p;
    } else if exists j :: k <= j < |prefix| && prefix[j].target == m && d == prefix[j].dist + 1 {
      var j :| k <= j < |prefix| && prefix[j].target == m && d == prefix[j].dist + 1;
      assert pairs[j] == prefix[j];
    }
  }

  lemma {:induction false} MergeSplit(t: Table, src: byte, a: seq<Pair>, b: seq<Pair>, now: int)
    ensures Merge(t, src, a + b, now) == Merge(Merge(t, src, a, now), src, b, now)
  {
    if b == [] {
      assert a + b == a;
    } else {
      var prefix, p := b[..|b| - 1], b[|b| - 1];
      assert a + b == (a + prefix) + [p];
      assert b == prefix + [p];
      MergeSplit(t, src, a, prefix, now);
      MergeOneMore(t, src, a + prefix, p, now);
      MergeOneMore(Merge(t, src, a, now), src, prefix, p, now);
    }
  }

  /** An unknown target is entered by the first pair for it; from then on it is a known one. */
  lemma NewEntryExact(t: Table, src: byte, pairs: seq<Pair>, now: int, j: nat)
    requires UniqueKeys(t) && j < |pairs| && !Has(t, pairs[j].target)
    requires forall l :: 0 <= l < j ==> pairs[l].target != pairs[j].target
    ensures var p, before := pairs[j], Merge(t, src, pairs[..j], now);
      Merge(t, src, pairs, now) ==
        Merge(before + [Entry(p.target, if p.dist == MAX_DISTANCE then 0 else p.dist + 1, src, now)], src, pairs[j + 1..], now)
  {
    var before := Merge(t, src, pairs[..j], now);
    MergeKeeps(t, src, pairs[..j], now);
    assert !Has(before, pairs[j].target);
    ApplyPairExact(before, src, pairs[j], now);
    MergeOneMore(t, src, pairs[..j], pairs[j], now);
    assert pairs[..j] + [pairs[j]] == pairs[..j + 1];
    assert pairs[..j + 1] + pairs[j + 1..] == pairs;
    MergeSplit(t, src, pairs[..j + 1], pairs[j + 1..], now);
  }

  // ---- the whole update ----

  /** After an update a known entry has the distance the pairs left it, unless it leads to a
      dead one. */
  lemma ReceiveExact(t: Table, src: byte, pairs: seq<Pair>, now: int, i: nat)
    requires UniqueKeys(t) && i < |t|
    ensures var v, u := Merge(t, src, pairs, now), Receive(t, src, pairs, now);
      && i < |v| == |u|
      && u[i] == t[i].(dist := if Broken(v, i) then MAX_DISTANCE else v[i].dist)
      && Lookup(u, t[i].mip) == if Broken(v, i) then NO_HOP else t[i].next
  {
    var v, u := Merge(t, src, pairs, now), Receive(t, src, pairs, now);
    var k := MergeExact(t, src, pairs, now, i);
    MergeKeeps(t, src, pairs, now);
    ReceiveKeeps(t, src, pairs, now);
    ClosureExact(v);
    EntryAt(u, i);
    LookupExact(u, t[i].mip);
  }

  /** The last withdrawal of a route by its next hop stands exactly if the same message does not
      offer the target for fewer than 255 links after it. */
  lemma WithdrawalExact(t: Table, src: byte, pairs: seq<Pair>, now: int, i: nat, j: nat)
    requires UniqueKeys(t) && i < |t| && j < |pairs| && Withdrawn(t[i], src, pairs[j])
    requires forall l :: j < l < |pairs| ==> !Withdrawn(t[i], src, pairs[l])
    ensures var v := Merge(t, src, pairs, now);
      && i < |v|
      && (v[i].dist == MAX_DISTANCE <==>
          forall l :: j < l < |pairs| && pairs[l].target == t[i].mip ==> pairs[l].dist + 1 >= MAX_DISTANCE)
  {
    var k := MergeExact(t, src, pairs, now, i);
    assert k == j + 1;
  }

  /** A next hop that withdraws a target, and offers it for at most 254 links after that, is
      heeded: neither the target nor anything routed through it has a route any more. */
  lemma WithdrawalHeeded(t: Table, src: byte, pairs: seq<Pair>, now: int, j: nat, c: seq<nat>)
    requires UniqueKeys(t) && Chain(t, c) && j < |pairs| && Withdrawn(t[c[|c| - 1]], src, pairs[j])
    requires forall l :: j < l < |pairs| && pairs[l].target == pairs[j].target ==> pairs[l].dist >= MAX_DISTANCE - 1
    ensures var u := Receive(t, src, pairs, now);
      Has(u, t[c[0]].mip) && Get(u, t[c[0]].mip).dist == MAX_DISTANCE && Lookup(u, t[c[0]].mip) == NO_HOP
  {
    var i, v := c[|c| - 1], Merge(t, src, pairs, now);
    var k := MergeExact(t, src, pairs, now, i);
    assert k > j;
    assert v[i].dist == MAX_DISTANCE;
    MergeKeeps(t, src, pairs, now);
    assert Chain(v, c);
    assert Broken(v, c[0]);
    ReceiveExact(t, src, pairs, now, c[0]);
    ReceiveKeeps(t, src, pairs, now);
    EntryAt(Receive(t, src, pairs, now), c[0]);
  }

  /** t with none of its distances raised, and perhaps more entries. */
  predicate Lowered(t: Table, u: Table) {
    |t| <= |u| && forall i :: 0 <= i < |t| ==> u[i].dist <= t[i].dist
  }

  predicate Differs(t: Table, u: Table) {
    |t| != |u| || exists i :: 0 <= i < |t| && i < |u| && u[i].dist != t[i].dist
  }

  predicate Withdraws(t: Table, src: byte, pairs: seq<Pair>) {
    exists i, j :: 0 <= i < |t| && 0 <= j < |pairs| && Withdrawn(t[i], src, pairs[j])
  }

  lemma PairReport(t: Table, src: byte, p: Pair, now: int)
    requires UniqueKeys(t)
    ensures PairChanges(t, src, p) <==>
      Differs(t, ApplyPair(t, src, p, now)) || exists i :: 0 <= i < |t| && Withdrawn(t[i], src, p)
  {
    var u, i := ApplyPair(t, src, p, now), IndexOf(t, p.target);
    ApplyPairExact(t, src, p, now);
    if i != -1 {
      EntryAt(t, i);
      assert PairChanges(t, src, p) ==> Withdrawn(t[i], src, p) || u[i].dist != t[i].dist;
      forall k | 0 <= k < |t| && t[k].mip == p.target
        ensures k == i
      {
        EntryAt(t, k);
      }
    }
  }

  lemma {:induction false} NoWithdrawalLowers(t: Table, src: byte, pairs: seq<Pair>, now: int)
    requires UniqueKeys(t) && !Withdraws(t, src, pairs)
    ensures var u := Merge(t, src, pairs, now);
      Lowered(t, u) && (MergeChanges(t, src, pairs, now) ==> Differs(t, u))
  {
    if pairs != [] {
      var prefix, p := pairs[..|pairs| - 1], pairs[|pairs| - 1];
      var v := Merge(t, src, prefix, now);
      assert forall j :: 0 <= j < |prefix| ==> pairs[j] == prefix[j];
      NoWithdrawalLowers(t, src, prefix, now);
      MergeKeeps(t, src, prefix, now);
      ApplyPairExact(v, src, p, now);
      PairReport(v, src, p, now);
      forall i | 0 <= i < |t|
        ensures !Withdrawn(v[i], src, p)
      {
        assert !Withdrawn(t[i], src, pairs[|pairs| - 1]);
      }
    }
  }

  /** When an update makes the daemon send updates: exactly if its pairs changed a distance, made
      a target known or withdrew a route, or a route led to a dead one. */
  lemma ReportExact(t: Table, src: byte, pairs: seq<Pair>, now: int)
    requires UniqueKeys(t)
    ensures var v := Merge(t, src, pairs, now);
      ReceiveChanges(t, src, pairs, now) <==>
        Differs(t, v) || Withdraws(t, src, pairs) || exists i :: 0 <= i < |v| && Broken(v, i) && v[i].dist != MAX_DISTANCE
  {
    var v := Merge(t, src, pairs, now);
    ClosureExact(v);
    if Differs(t, v) {
      if !MergeChanges(t, src, pairs, now) {
        MergeUnchanged(t, src, pairs, now);
      }
    } else if Withdraws(t, src, pairs) {
      var i, j :| 0 <= i < |t| && 0 <= j < |pairs| && Withdrawn(t[i], src, pairs[j]);
      WithdrawalReported(t, src, pairs, now, i, j);
    } else {
      NoWithdrawalLowers(t, src, pairs, now);
    }
  }

  lemma {:induction false} WithdrawalReported(t: Table, src: byte, pairs: seq<Pair>, now: int, i: nat, j: nat)
    requires UniqueKeys(t) && i < |t| && j < |pairs| && Withdrawn(t[i], src, pairs[j])
    ensures MergeChanges(t, src, pairs, now)
    decreases |pairs|
  {
    var prefix := pairs[..|pairs| - 1];
    if j < |prefix| {
      WithdrawalReported(t, src, prefix, now, i, j);
    } else {
      LastWithdrawalReported(t, src, prefix, pairs[j], now, i);
    }
  }

  lemma LastWithdrawalReported(t: Table, src: byte, prefix: seq<Pair>, p: Pair, now: int, i: nat)
    requires UniqueKeys(t) && i < |t| && Withdrawn(t[i], src, p)
    ensures PairChanges(Merge(t, src, prefix, now), src, p)
  {
    var v := Merge(t, src, prefix, now);
    MergeKeeps(t, src, prefix, now);
    assert Withdrawn(v[i], src, p);
    PairReport(v, src, p, now);
  }

  // ---- what is sent ----

  /** The pairs for a neighbour are those of all entries but its own, which is at place d if
      there is one, in the order of the table. */
  lemma {:induction false} PairsInOrder(t: Table, dst: byte, d: nat)
    requires d <= |t| && (d < |t| ==> t[d].mip == dst)
    requires forall k :: 0 <= k < |t| && k != d ==> t[k].mip != dst
    ensures var pairs := PairsFor(t, dst);
      && |pairs| == (if d < |t| then |t| - 1 else |t|)
      && forall k :: 0 <= k < |pairs| ==>
        var e := t[if k < d then k else k + 1];
        pairs[k] == Pair(e.mip, if e.next == dst then MAX_DISTANCE else e.dist)
  {
    if t != [] {
      var n := |t| - 1;
      PairsInOrder(t[..n], dst, if d < n then d else n);
    }
  }

  /** The updates sent go to the entries at the given places, in the order of the table. */
  predicate SentTo(t: Table, k: nat, sent: seq<Update>, places: seq<nat>) {
    && |places| == |sent|
    && (forall i :: 0 <= i < |sent| ==> places[i] < k && places[i] < |t| && sent[i].dst == t[places[i]].mip)
    && (forall i, j :: 0 <= i < j < |sent| ==> places[i] < places[j])
  }

  lemma {:induction false} UpdatesInOrder(t: Table, k: nat) returns (places: seq<nat>)
    requires k <= |t|
    ensures SentTo(t, k, UpdatesTo(t, k), places)
  {
    places := [];
    if k != 0 {
      places := UpdatesInOrder(t, k - 1);
      if t[k - 1].dist == 1 {
        places := places + [k - 1];
      }
    }
  }

  predicate OneEach(sent: seq<Update>) {
    forall i, j :: 0 <= i < j < |sent| ==> sent[i].dst != sent[j].dst
  }

  /** So no neighbour is written to twice. */
  lemma UpdatesOnce(t: Table, k: nat)
    requires UniqueKeys(t) && k <= |t|
    ensures OneEach(UpdatesTo(t, k))
  {
    var places := UpdatesInOrder(t, k);
    var sent := UpdatesTo(t, k);
    forall i, j | 0 <= i < j < |sent|
      ensures sent[i].dst != sent[j].dst
    {
      assert places[i] < places[j];
    }
  }

  lemma {:induction false} CountOnce(sent: seq<Update>, x: Update)
    requires OneEach(sent)
    ensures multiset(sent)[x] == if x in sent then 1 else 0
  {
    if sent != [] {
      var n := |sent| - 1;
      assert sent == sent[..n] + [sent[n]];
      CountOnce(sent[..n], x);
    }
  }

  /** The table with its silent neighbours among the first k entries given up. */
  function GivenUp(t: Table, k: nat, now: int): Table {
    seq(|t|, i requires 0 <= i < |t| => if i < k && Silent(t[i], now) then t[i].(dist := MAX_DISTANCE) else t[i])
  }

  lemma ScanTable(t: Table, k: nat, now: int)
    requires k <= |t| && UniqueKeys(t)
    ensures Scan(t, k, now).0 == GivenUp(t, k, now)
  {
    ScanKeeps(t, k, now);
  }

  /** What the scan sends at its entry k. */
  function News(t: Table, k: nat, now: int): seq<Update>
    requires k < |t|
  {
    if Silent(t[k], now) then Updates(GivenUp(t, k + 1, now)) else []
  }

  lemma ScanOneMore(t: Table, k: nat, now: int)
    requires k < |t| && UniqueKeys(t)
    ensures Scan(t, k + 1, now).1 == Scan(t, k, now).1 + News(t, k, now)
  {
    ScanTable(t, k, now);
    ScanTable(t, k + 1, now);
    assert GivenUp(t, k, now)[k] == t[k];
  }

  /** Entry j is given up by a scan, and x is among the updates of the table in which it and the
      silent ones before it are given up. */
  predicate SentFor(t: Table, j: nat, now: int, x: Update) {
    j < |t| && Silent(t[j], now) && x in Updates(GivenUp(t, j + 1, now))
  }

  ghost function Moments(t: Table, k: nat, now: int, x: Update): set<nat> {
    set j: nat | j < k && SentFor(t, j, now, x)
  }

  lemma NewsOnce(t: Table, k: nat, now: int, x: Update)
    requires k < |t| && UniqueKeys(t)
    ensures multiset(News(t, k, now))[x] == if SentFor(t, k, now, x) then 1 else 0
  {
    var u := GivenUp(t, k + 1, now);
    UpdatesOnce(u, |u|);
    CountOnce(Updates(u), x);
  }

  function Flatten(parts: seq<seq<Update>>): seq<Update> {
    if parts == [] then [] else Flatten(parts[..|parts| - 1]) + parts[|parts| - 1]
  }

  predicate OnceAtMost(part: seq<Update>, x: Update) {
    multiset(part)[x] == if x in part then 1 else 0
  }

  ghost function Holders(parts: seq<seq<Update>>, x: Update): set<nat> {
    set j: nat | j < |parts| && x in parts[j]
  }

  lemma HoldersOneMore(parts: seq<seq<Update>>, x: Update)
    requires parts != []
    ensures var n := |parts| - 1; |Holders(parts, x)| == |Holders(parts[..n], x)| + if x in parts[n] then 1 else 0
  {
    var n := |parts| - 1;
    var before := Holders(parts[..n], x);
    assert n !in before;
    assert Holders(parts, x) == if x in parts[n] then before + {n} else before;
  }

  /** How many parts hold x, if each holds it once at most. */
  lemma {:induction false} FlattenCounts(parts: seq<seq<Update>>, x: Update)
    requires forall j :: 0 <= j < |parts| ==> OnceAtMost(parts[j], x)
    ensures multiset(Flatten(parts))[x] == |Holders(parts, x)|
  {
    if parts == [] {
      assert Holders(parts, x) == {};
    } else {
      var n := |parts| - 1;
      FlattenCounts(parts[..n], x);
      HoldersOneMore(parts, x);
      assert OnceAtMost(parts[n], x);
      CountAppended(Flatten(parts[..n]), parts[n], x);
    }
  }

  lemma CountAppended(a: seq<Update>, b: seq<Update>, x: Update)
    ensures multiset(a + b)[x] == multiset(a)[x] + multiset(b)[x]
  {
  }

  function AllNews(t: Table, k: nat, now: int): seq<seq<Update>>
    requires k <= |t|
  {
    seq(k, j requires 0 <= j < k => News(t, j, now))
  }

  lemma {:induction false} ScanIsNews(t: Table, k: nat, now: int)
    requires k <= |t| && UniqueKeys(t)
    ensures Scan(t, k, now).1 == Flatten(AllNews(t, k, now))
  {
    if k != 0 {
      ScanIsNews(t, k - 1, now);
      ScanOneMore(t, k - 1, now);
      assert AllNews(t, k, now)[..k - 1] == AllNews(t, k - 1, now);
    }
  }

  lemma NewsCounted(t: Table, k: nat, now: int, x: Update)
    requires k <= |t| && UniqueKeys(t)
    ensures multiset(Flatten(AllNews(t, k, now)))[x] == |Moments(t, k, now, x)|
  {
    var parts := AllNews(t, k, now);
    forall j | 0 <= j < k
      ensures OnceAtMost(parts[j], x) && (x in parts[j] <==> SentFor(t, j, now, x))
    {
      NewsOnce(t, j, now, x);
    }
    FlattenCounts(parts, x);
    assert Holders(parts, x) == Moments(t, k, now, x);
  }

  /** What a timeout scan sends: for each silent neighbour, once, the updates of the table in
      which it and the silent ones before it are given up, and nothing else. */
  lemma ScanSends(t: Table, k: nat, now: int, x: Update)
    requires k <= |t| && UniqueKeys(t)
    ensures multiset(Scan(t, k, now).1)[x] == |Moments(t, k, now, x)|
    ensures x in Scan(t, k, now).1 <==> exists j: nat :: j < k && SentFor(t, j, now, x)
  {
    ScanIsNews(t, k, now);
    NewsCounted(t, k, now, x);
    var moments := Moments(t, k, now, x);
    if x in Scan(t, k, now).1 {
      assert moments != {};
      var j :| j in moments;
    }
    if j: nat :| j < k && SentFor(t, j, now, x) {
      assert j in moments;
      assert |moments| > 0;
    }
  }

  /** Whoever is given up by a scan, every neighbour still at distance 1 afterwards is told. */
  lemma GivenUpIsAnnounced(t: Table, now: int, i: nat, j: nat) returns (x: Update)
    requires UniqueKeys(t) && i < |t| && j < |t| && i != j
    requires Silent(t[j], now) && t[i].dist == 1 && !Silent(t[i], now)
    ensures x in Scan(t, |t|, now).1 && x.dst == t[i].mip && Pair(t[j].mip, MAX_DISTANCE) in x.pairs
  {
    var u := GivenUp(t, j + 1, now);
    x := Update(t[i].mip, PairsFor(u, t[i].mip));
    assert u[i] == t[i] && u[j] == t[j].(dist := MAX_DISTANCE);
    UpdatesExact(u, |u|, x);
    PairsForExact(u, t[i].mip, Pair(t[j].mip, MAX_DISTANCE));
    assert SentFor(t, j, now, x);
    ScanSends(t, |t|, now, x);
  }
}
