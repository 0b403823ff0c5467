/** The routing table of one daemon (routing_utils.c) as a sequence of entries, and what each
    function of the daemon does to it. RoutingTable.dfy does the same on the linked list. */
module Routing {
  import opened Framing

  const MAX_DISTANCE: byte := 255
  const NO_HOP: byte := 255
  const MAX_NODES: nat := 20
  /** A neighbour is given up when its last hello is older than this many seconds. */
  const HELLO_LIMIT: int := 12

  datatype Entry = Entry(mip: byte, dist: byte, next: byte, heard: int)

  type Table = seq<Entry>

  datatype Pair = Pair(target: byte, dist: byte)

  /** An update message and the neighbour it is for. */
  datatype Update = Update(dst: byte, pairs: seq<Pair>)

  predicate UniqueKeys(t: Table) {
    forall i, j :: 0 <= i < j < |t| ==> t[i].mip != t[j].mip
  }

  predicate Has(t: Table, mip: byte) {
    exists i :: 0 <= i < |t| && t[i].mip == mip
  }

  /** The first entry for an address, or -1. */
  function IndexOf(t: Table, mip: byte): (i: int)
    ensures -1 <= i < |t|
    ensures i == -1 <==> !Has(t, mip)
    ensures 0 <= i ==> t[i].mip == mip && forall k :: 0 <= k < i ==> t[k].mip != mip
  {
    if t == [] then -1
    else if t[0].mip == mip then 0
    else
      var rest := IndexOf(t[1..], mip);
      assert forall k :: 1 <= k < |t| ==> t[k] == t[1..][k - 1];
      if rest == -1 then -1 else rest + 1
  }

  /** The entry for a known address. */
  function Get(t: Table, mip: byte): (e: Entry)
    requires Has(t, mip)
    ensures e in t && e.mip == mip
  {
    t[IndexOf(t, mip)]
  }

  // ---- hellos ----

  function HandleHello(t: Table, mip: byte, now: int): Table {
    var i := IndexOf(t, mip);
    if i == -1 then t + [Entry(mip, 1, mip, now)] else t[i := t[i].(heard := now, dist := 1)]
  }

  /** Whether a hello makes the daemon send updates. */
  predicate HelloChanges(t: Table, mip: byte) {
    var i := IndexOf(t, mip);
    i == -1 || t[i].dist != 1
  }

  // ---- updates ----

  /** A known entry meets a pair advertised by src: the path through src is broken, or a
      shorter distance is stored; the next hop stays as it is. */
  function Adjust(e: Entry, src: byte, p: Pair): Entry {
    if p.dist == MAX_DISTANCE && src == e.next then e.(dist := MAX_DISTANCE)
    else if e.dist > p.dist + 1 then e.(dist := p.dist + 1)
    else e
  }

  /** An unknown target is appended; its distance is stored in eight bits. */
  function ApplyPair(t: Table, src: byte, p: Pair, now: int): Table {
    var i := IndexOf(t, p.target);
    if i == -1 then t + [Entry(p.target, (p.dist + 1) % 256, src, now)] else t[i := Adjust(t[i], src, p)]
  }

  predicate PairChanges(t: Table, src: byte, p: Pair) {
    var i := IndexOf(t, p.target);
    i == -1 || (p.dist == MAX_DISTANCE && src == t[i].next) || t[i].dist > p.dist + 1
  }

  function Merge(t: Table, src: byte, pairs: seq<Pair>, now: int): Table {
    if pairs == [] then t
    else ApplyPair(Merge(t, src, pairs[..|pairs| - 1], now), src, pairs[|pairs| - 1], now)
  }

  predicate MergeChanges(t: Table, src: byte, pairs: seq<Pair>, now: int) {
    pairs != [] &&
    var prefix := pairs[..|pairs| - 1];
    MergeChanges(t, src, prefix, now) || PairChanges(Merge(t, src, prefix, now), src, pairs[|pairs| - 1])
  }

  lemma MergeOneMore(t: Table, src: byte, prefix: seq<Pair>, p: Pair, now: int)
    ensures Merge(t, src, prefix + [p], now) == ApplyPair(Merge(t, src, prefix, now), src, p, now)
    ensures MergeChanges(t, src, prefix + [p], now)
      <==> MergeChanges(t, src, prefix, now) || PairChanges(Merge(t, src, prefix, now), src, p)
  {
    assert (prefix + [p])[..|prefix|] == prefix;
  }

  // ---- broken paths ----

  /** Entries that lead one to the next through their next hops. */
  ghost predicate Chain(t: Table, c: seq<nat>) {
    && c != []
    && (forall j :: 0 <= j < |c| ==> c[j] < |t|)
    && (forall j :: 0 <= j < |c| - 1 ==> t[c[j]].next == t[c[j + 1]].mip)
  }

  /** Following next hops inside the table from entry i reaches an entry at MAX_DISTANCE. */
  ghost predicate Broken(t: Table, i: nat) {
    exists c :: Chain(t, c) && c[0] == i && t[c[|c| - 1]].dist == MAX_DISTANCE
  }

  /** What update_broken_paths makes of a table: exactly the broken entries are at
      MAX_DISTANCE, nothing else changes. */
  ghost function Closure(t: Table): Table {
    seq(|t|, i requires 0 <= i < |t| => if Broken(t, i) then t[i].(dist := MAX_DISTANCE) else t[i])
  }

  /** No live entry routes through a dead one. */
  predicate Closed(t: Table) {
    forall i, j :: 0 <= i < |t| && 0 <= j < |t| && t[j].dist == MAX_DISTANCE && t[i].next == t[j].mip
      ==> t[i].dist == MAX_DISTANCE
  }

  /** cur is t with some broken entries marked. */
  ghost predicate PartlyMarked(t: Table, cur: Table) {
    && |cur| == |t|
    && forall i :: 0 <= i < |t| ==> cur[i] == t[i] || (cur[i] == t[i].(dist := MAX_DISTANCE) && Broken(t, i))
  }

  lemma DeadIsBroken(t: Table, i: nat)
    requires i < |t| && t[i].dist == MAX_DISTANCE
    ensures Broken(t, i)
  {
    assert Chain(t, [i]);
  }

  lemma BrokenThrough(t: Table, i: nat, j: nat)
    requires i < |t| && j < |t| && t[i].next == t[j].mip && Broken(t, j)
    ensures Broken(t, i)
  {
    var c :| Chain(t, c) && c[0] == j && t[c[|c| - 1]].dist == MAX_DISTANCE;
    assert Chain(t, [i] + c);
  }

  lemma {:induction false} BrokenIsMarked(t: Table, cur: Table, c: seq<nat>)
    requires PartlyMarked(t, cur) && Closed(cur)
    requires Chain(t, c) && t[c[|c| - 1]].dist == MAX_DISTANCE
    ensures cur[c[0]].dist == MAX_DISTANCE
    decreases |c|
  {
    if |c| > 1 {
      assert Chain(t, c[1..]);
      BrokenIsMarked(t, cur, c[1..]);
    }
  }

  /** Marking that has nothing left to do has computed the closure. */
  lemma ClosedIsClosure(t: Table, cur: Table)
    requires PartlyMarked(t, cur) && Closed(cur)
    ensures cur == Closure(t)
  {
    forall i | 0 <= i < |t|
      ensures cur[i] == Closure(t)[i]
    {
      if Broken(t, i) {
        var c :| Chain(t, c) && c[0] == i && t[c[|c| - 1]].dist == MAX_DISTANCE;
        BrokenIsMarked(t, cur, c);
      } else if t[i].dist == MAX_DISTANCE {
        DeadIsBroken(t, i);
      }
    }
  }

  lemma BrokenHasDead(t: Table, i: nat)
    requires Broken(t, i)
    ensures exists j :: 0 <= j < |t| && t[j].dist == MAX_DISTANCE
  {
    var c :| Chain(t, c) && c[0] == i && t[c[|c| - 1]].dist == MAX_DISTANCE;
    assert c[|c| - 1] < |t|;
  }

  /** The closure kills a route exactly when it leads to a dead entry, leaves no live route
      through a dead one, and changes nothing when nothing is dead. */
  lemma ClosureExact(t: Table)
    ensures |Closure(t)| == |t|
    ensures forall i :: 0 <= i < |t| ==> (Closure(t)[i].dist == MAX_DISTANCE <==> Broken(t, i))
    ensures forall i :: 0 <= i < |t| ==> Closure(t)[i] == t[i].(dist := Closure(t)[i].dist)
    ensures Closed(Closure(t))
    ensures (forall i :: 0 <= i < |t| ==> t[i].dist != MAX_DISTANCE) ==> Closure(t) == t
  {
    var u := Closure(t);
    forall i | 0 <= i < |t| && t[i].dist == MAX_DISTANCE
      ensures Broken(t, i)
    {
      DeadIsBroken(t, i);
    }
    forall i, j | 0 <= i < |t| && 0 <= j < |t| && u[j].dist == MAX_DISTANCE && u[i].next == u[j].mip
      ensures u[i].dist == MAX_DISTANCE
    {
      BrokenThrough(t, i, j);
    }
    forall i: nat | i < |t| && Broken(t, i)
      ensures exists j :: 0 <= j < |t| && t[j].dist == MAX_DISTANCE
    {
      BrokenHasDead(t, i);
    }
  }

  /** The table after an update message, and whether updates are sent on. */
  ghost function Receive(t: Table, src: byte, pairs: seq<Pair>, now: int): Table {
    Closure(Merge(t, src, pairs, now))
  }

  ghost predicate ReceiveChanges(t: Table, src: byte, pairs: seq<Pair>, now: int) {
    MergeChanges(t, src, pairs, now) || Closure(Merge(t, src, pairs, now)) != Merge(t, src, pairs, now)
  }

  // ---- what is sent ----

  /** The pairs for a neighbour: nothing about itself, and MAX_DISTANCE for every route that
      goes through it. */
  function PairsFor(t: Table, dst: byte): seq<Pair> {
    if t == [] then []
    else
      var before, e := PairsFor(t[..|t| - 1], dst), t[|t| - 1];
      if e.mip == dst then before
      else before + [Pair(e.mip, if e.next == dst then MAX_DISTANCE else e.dist)]
  }

  lemma {:induction false} PairsForExact(t: Table, dst: byte, p: Pair)
    ensures p in PairsFor(t, dst) <==>
      exists e :: e in t && e.mip != dst && p == Pair(e.mip, if e.next == dst then MAX_DISTANCE else e.dist)
  {
    if t != [] {
      PairsForExact(t[..|t| - 1], dst, p);
      assert t == t[..|t| - 1] + [t[|t| - 1]];
    }
  }

  /** The updates sent for the first k entries: one to each neighbour at distance 1. */
  function UpdatesTo(t: Table, k: nat): seq<Update>
    requires k <= |t|
  {
    if k == 0 then []
    else UpdatesTo(t, k - 1) + if t[k - 1].dist == 1 then [Update(t[k - 1].mip, PairsFor(t, t[k - 1].mip))] else []
  }

  function Updates(t: Table): seq<Update> {
    UpdatesTo(t, |t|)
  }

  lemma {:induction false} UpdatesExact(t: Table, k: nat, u: Update)
    requires k <= |t|
    ensures u in UpdatesTo(t, k) <==>
      u.pairs == PairsFor(t, u.dst) && exists i :: 0 <= i < k && t[i].mip == u.dst && t[i].dist == 1
  {
    if k != 0 {
      UpdatesExact(t, k - 1, u);
    }
  }

  /** A neighbour that has not been heard for too long. */
  predicate Silent(e: Entry, now: int) {
    e.dist == 1 && now - e.heard > HELLO_LIMIT
  }

  /** The timeout scan after its first k entries: the table, and what was sent meanwhile. */
  function Scan(t: Table, k: nat, now: int): (r: (Table, seq<Update>))
    requires k <= |t|
    ensures |r.0| == |t|
  {
    if k == 0 then (t, [])
    else
      var (u, sent) := Scan(t, k - 1, now);
      if Silent(u[k - 1], now) then
        var v := u[k - 1 := u[k - 1].(dist := MAX_DISTANCE)];
        (v, sent + Updates(v))
      else (u, sent)
  }

  // ---- lookup ----

  /** The next hop of the first live entry for a target, or 255. */
  function Lookup(t: Table, target: byte): byte {
    if t == [] then NO_HOP
    else if t[0].mip == target && t[0].dist != MAX_DISTANCE then t[0].next
    else Lookup(t[1..], target)
  }

  /** With one entry per address: the next hop of the target's entry if that is live. */
  lemma {:induction false} LookupExact(t: Table, target: byte)
    requires UniqueKeys(t)
    ensures Lookup(t, target) ==
      if Has(t, target) && Get(t, target).dist != MAX_DISTANCE then Get(t, target).next else NO_HOP
  {
    if t != [] {
      assert forall k :: 1 <= k < |t| ==> t[k] == t[1..][k - 1];
      LookupExact(t[1..], target);
      if t[0].mip == target {
        assert !Has(t[1..], target);
      }
    }
  }

  // ---- what every function keeps ----

  /** u holds the entries of t in their places, with the same addresses and next hops. */
  predicate Extends(t: Table, u: Table) {
    && |t| <= |u|
    && forall i :: 0 <= i < |t| ==> u[i].mip == t[i].mip && u[i].next == t[i].next
  }

  lemma HelloKeeps(t: Table, mip: byte, now: int)
    requires UniqueKeys(t)
    ensures var u := HandleHello(t, mip, now);
      && UniqueKeys(u) && Extends(t, u)
      && (!HelloChanges(t, mip) ==> forall i :: 0 <= i < |u| ==> i < |t| && u[i] == t[i].(heard := u[i].heard))
  {
  }

  lemma ApplyPairKeeps(t: Table, src: byte, p: Pair, now: int)
    requires UniqueKeys(t)
    ensures var u := ApplyPair(t, src, p, now);
      && UniqueKeys(u) && Extends(t, u)
      && (forall i :: |t| <= i < |u| ==> u[i].next == src)
      && (forall m :: Has(u, m) <==> Has(t, m) || p.target == m)
      && (!PairChanges(t, src, p) ==> u == t)
  {
    var u := ApplyPair(t, src, p, now);
    forall m
      ensures Has(u, m) <==> Has(t, m) || p.target == m
    {
      if Has(t, m) {
        var i :| 0 <= i < |t| && t[i].mip == m;
        assert u[i].mip == m;
      }
      if IndexOf(t, p.target) == -1 {
        assert u[|t|].mip == p.target;
      }
    }
  }

  lemma {:induction false} MergeKeeps(t: Table, src: byte, pairs: seq<Pair>, now: int)
    requires UniqueKeys(t)
    ensures var u := Merge(t, src, pairs, now);
      && UniqueKeys(u) && Extends(t, u)
      && (forall i :: |t| <= i < |u| ==> u[i].next == src)
      && (forall m :: Has(u, m) <==> Has(t, m) || exists p :: p in pairs && p.target == m)
  {
    if pairs != [] {
      var prefix, p := pairs[..|pairs| - 1], pairs[|pairs| - 1];
      assert pairs == prefix + [p];
      MergeKeeps(t, src, prefix, now);
      ApplyPairKeeps(Merge(t, src, prefix, now), src, p, now);
    }
  }

  lemma {:induction false} MergeUnchanged(t: Table, src: byte, pairs: seq<Pair>, now: int)
    requires UniqueKeys(t) && !MergeChanges(t, src, pairs, now)
    ensures Merge(t, src, pairs, now) == t
  {
    if pairs != [] {
      var prefix, p := pairs[..|pairs| - 1], pairs[|pairs| - 1];
      MergeUnchanged(t, src, prefix, now);
      ApplyPairKeeps(t, src, p, now);
    }
  }

  /** After an update: one entry per address, next hops of known entries kept, new entries
      route through the sender, exactly the advertised targets are added, no live route goes
      through a dead one; and if nothing is sent on, nothing changed. */
  lemma ReceiveKeeps(t: Table, src: byte, pairs: seq<Pair>, now: int)
    requires UniqueKeys(t)
    ensures var u := Receive(t, src, pairs, now);
      && UniqueKeys(u) && Extends(t, u) && Closed(u)
      && (forall i :: |t| <= i < |u| ==> u[i].next == src)
      && (forall m :: Has(u, m) <==> Has(t, m) || exists p :: p in pairs && p.target == m)
      && (!ReceiveChanges(t, src, pairs, now) ==> u == t)
  {
    MergeKeeps(t, src, pairs, now);
    if !MergeChanges(t, src, pairs, now) {
      MergeUnchanged(t, src, pairs, now);
    }
    var v := Merge(t, src, pairs, now);
    ClosureExact(v);
    var u := Closure(v);
    forall m
      ensures Has(u, m) <==> Has(v, m)
    {
      if Has(v, m) {
        var i :| 0 <= i < |v| && v[i].mip == m;
        assert u[i].mip == m;
      }
    }
  }

  /** The only target a hello can make known is its sender, reached directly. */
  lemma LearnedFromHello(t: Table, src: byte, now: int, m: byte)
    requires Has(HandleHello(t, src, now), m) && !Has(t, m)
    ensures m == src && Get(HandleHello(t, src, now), m).next == src
  {
    var u := HandleHello(t, src, now);
    assert forall k :: 0 <= k < |t| ==> u[k].mip == t[k].mip && t[k].mip != m;
  }

  /** A target that an update made known routes through its sender. */
  lemma LearnedFrom(t: Table, src: byte, pairs: seq<Pair>, now: int, m: byte)
    requires UniqueKeys(t) && Has(Receive(t, src, pairs, now), m) && !Has(t, m)
    ensures Get(Receive(t, src, pairs, now), m).next == src
    ensures exists p :: p in pairs && p.target == m
  {
    ReceiveKeeps(t, src, pairs, now);
    var u := Receive(t, src, pairs, now);
    assert forall k :: 0 <= k < |t| ==> u[k].mip == t[k].mip && t[k].mip != m;
  }

  lemma {:induction false} ScanKeeps(t: Table, k: nat, now: int)
    requires k <= |t| && UniqueKeys(t)
    ensures var u := Scan(t, k, now).0;
      && UniqueKeys(u) && Extends(t, u)
      && forall i :: 0 <= i < |t| ==> u[i] == if i < k && t[i].dist == 1 && now - t[i].heard > HELLO_LIMIT
                                               then t[i].(dist := MAX_DISTANCE) else t[i]
  {
    if k != 0 {
      ScanKeeps(t, k - 1, now);
    }
  }
}
