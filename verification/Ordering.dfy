/** Why acknowledgements do not overtake one another (mip_daemon.c, mip_daemon_utils.c,
    routing_utils.c): MIP daemons that keep packets in order, joined by links that lose but do
    not reorder, under routing tables that never change a next hop. While no daemon on the way
    is answered 255, the packets of one host for another arrive in the order it sent them. */
module Ordering {
  import opened Framing
  import opened Routing
  import opened RoutingNetwork
  import opened LoopFreedom
  import Mip = MipDaemon

  // ---- in order, with losses ----

  /** x is y with some elements left out. */
  predicate Sub(x: seq<Mip.Raw>, y: seq<Mip.Raw>) {
    x == [] ||
    (y != [] &&
     ((x[|x| - 1] == y[|y| - 1] && Sub(x[..|x| - 1], y[..|y| - 1])) || Sub(x, y[..|y| - 1])))
  }

  lemma {:induction false} SubSame(x: seq<Mip.Raw>)
    ensures Sub(x, x)
  {
    if x != [] {
      SubSame(x[..|x| - 1]);
    }
  }

  lemma {:induction false} SubInit(x: seq<Mip.Raw>, y: seq<Mip.Raw>)
    requires Sub(x, y) && x != []
    ensures Sub(x[..|x| - 1], y)
  {
    if Sub(x, y[..|y| - 1]) {
      SubInit(x, y[..|y| - 1]);
    }
  }

  lemma {:induction false} SubTransitive(x: seq<Mip.Raw>, y: seq<Mip.Raw>, z: seq<Mip.Raw>)
    requires Sub(x, y) && Sub(y, z)
    ensures Sub(x, z)
    decreases |x| + |y| + |z|
  {
    if x != [] {
      if Sub(y, z[..|z| - 1]) {
        SubTransitive(x, y, z[..|z| - 1]);
      } else if Sub(x, y[..|y| - 1]) {
        SubInit(y, z);
        SubTransitive(x, y[..|y| - 1], z);
      } else {
        SubTransitive(x[..|x| - 1], y[..|y| - 1], z[..|z| - 1]);
      }
    }
  }

  lemma {:induction false} SubConcat(x: seq<Mip.Raw>, y: seq<Mip.Raw>, v: seq<Mip.Raw>, w: seq<Mip.Raw>)
    requires Sub(x, y) && Sub(v, w)
    ensures Sub(x + v, y + w)
    decreases |v| + |w|
  {
    if w == [] {
      assert x + v == x && y + w == y;
    } else {
      assert (y + w)[..|y + w| - 1] == y + w[..|w| - 1];
      if v == [] || Sub(v, w[..|w| - 1]) {
        SubConcat(x, y, v, w[..|w| - 1]);
      } else {
        assert (x + v)[..|x + v| - 1] == x + v[..|v| - 1];
        SubConcat(x, y, v[..|v| - 1], w[..|w| - 1]);
      }
    }
  }

  // ---- the packets of one host for another ----

  /** The packets from a for b, in order; the time to live does not matter. */
  function Flow(packets: seq<Mip.Raw>, a: byte, b: byte): seq<Mip.Raw> {
    if packets == [] then []
    else
      var p := packets[|packets| - 1];
      Flow(packets[..|packets| - 1], a, b) + if p.src == a && p.dst == b then [p.(ttl := 0)] else []
  }

  lemma {:induction false} FlowConcat(x: seq<Mip.Raw>, y: seq<Mip.Raw>, a: byte, b: byte)
    ensures Flow(x + y, a, b) == Flow(x, a, b) + Flow(y, a, b)
  {
    if y == [] {
      assert x + y == x;
    } else {
      assert (x + y)[..|x + y| - 1] == x + y[..|y| - 1];
      FlowConcat(x, y[..|y| - 1], a, b);
    }
  }

  lemma FlowOne(p: Mip.Raw, a: byte, b: byte)
    ensures Flow([p], a, b) == if p.src == a && p.dst == b then [p.(ttl := 0)] else []
  {
    assert [p][..0] == [];
  }

  lemma FlowHead(x: seq<Mip.Raw>, a: byte, b: byte)
    requires x != []
    ensures Flow(x, a, b) == Flow([x[0]], a, b) + Flow(x[1..], a, b)
  {
    assert x == [x[0]] + x[1..];
    FlowConcat([x[0]], x[1..], a, b);
  }

  /** Losing a packet loses at most one of the flow. */
  lemma FlowWithout(x: seq<Mip.Raw>, k: nat, a: byte, b: byte)
    requires k < |x|
    ensures Sub(Flow(x[..k] + x[k + 1..], a, b), Flow(x, a, b))
  {
    var y, z := x[..k], x[k + 1..];
    assert x == (y + [x[k]]) + z;
    FlowConcat(y + [x[k]], z, a, b);
    FlowConcat(y, [x[k]], a, b);
    FlowConcat(y, z, a, b);
    SubSame(Flow(y, a, b));
    SubSame(Flow(z, a, b));
    assert Flow(y, a, b) + [] == Flow(y, a, b);
    SubConcat(Flow(y, a, b), Flow(y, a, b), [], Flow([x[k]], a, b));
    SubConcat(Flow(y, a, b), Flow(y, a, b) + Flow([x[k]], a, b), Flow(z, a, b), Flow(z, a, b));
  }

  // ---- all MIP daemons and the links between them ----

  datatype Mesh = Mesh(
    pipes: map<byte, Mip.Pipe>,
    links: map<(byte, byte), seq<Mip.Raw>>,  // packets under way from one daemon to another
    arrived: seq<Mip.Raw>)                   // packets handed to their transport daemons

  datatype Action =
    | FromApplication(u: byte, frame: Bytes, sduType: byte)
    | RouterAnswers(u: byte, table: Table)
    | Leaves(u: byte)
    | Arrives(u: byte, v: byte)
    | Lost(u: byte, v: byte, k: nat)

  function Quiet(nodes: set<byte>): Mesh {
    Mesh(map u | u in nodes :: Mip.Idle(u), map[], [])
  }

  function Link(m: Mesh, u: byte, v: byte): seq<Mip.Raw> {
    if (u, v) in m.links then m.links[(u, v)] else []
  }

  function At(m: Mesh, u: byte, a: Mip.Action): Mesh
    requires u in m.pipes
  {
    m.(pipes := m.pipes[u := Mip.Step(m.pipes[u], a)])
  }

  /** An answer arrives; if it takes a packet off the queue, that is sent to the hop answered. */
  function DoLeaves(m: Mesh, u: byte): Mesh
    requires u in m.pipes
  {
    var before, after := m.pipes[u], Mip.Step(m.pipes[u], Mip.AnswerArrives);
    var t := At(m, u, Mip.AnswerArrives);
    if |after.sent| == |before.sent| || after.sent == [] then t
    else
      var x := after.sent[|after.sent| - 1];
      t.(links := m.links[(u, x.answer.next) := Link(m, u, x.answer.next) + [x.packet]])
  }

  function DoArrives(m: Mesh, u: byte, v: byte): Mesh
    requires v in m.pipes && Link(m, u, v) != []
  {
    var p := Link(m, u, v)[0];
    var t := At(m, v, Mip.FromNetwork(p));
    t.(links := m.links[(u, v) := Link(m, u, v)[1..]],
       arrived := if Mip.OnRaw(v, p).ToApplication? then m.arrived + [p] else m.arrived)
  }

  function DoLost(m: Mesh, u: byte, v: byte, k: nat): Mesh
    requires k < |Link(m, u, v)|
  {
    m.(links := m.links[(u, v) := Link(m, u, v)[..k] + Link(m, u, v)[k + 1..]])
  }

  /** An action that is not possible changes nothing. */
  function Step(m: Mesh, a: Action): Mesh {
    match a
    case FromApplication(u, frame, sduType) =>
      if u in m.pipes then At(m, u, Mip.FromApplication(frame, sduType)) else m
    case RouterAnswers(u, table) => if u in m.pipes then At(m, u, Mip.RouterAnswers(table)) else m
    case Leaves(u) => if u in m.pipes then DoLeaves(m, u) else m
    case Arrives(u, v) => if v in m.pipes && Link(m, u, v) != [] then DoArrives(m, u, v) else m
    case Lost(u, v, k) => if k < |Link(m, u, v)| then DoLost(m, u, v, k) else m
  }

  function Exec(nodes: set<byte>, actions: seq<Action>): Mesh {
    if actions == [] then Quiet(nodes)
    else Step(Exec(nodes, actions[..|actions| - 1]), actions[|actions| - 1])
  }

  // ---- the daemons by themselves ----

  ghost predicate PipesInv(pipes: map<byte, Mip.Pipe>) {
    forall u :: u in pipes ==> pipes[u].me == u && Mip.Inv(pipes[u])
  }

  /** The same daemons, having been answered 255 at least as often. */
  predicate UnknownGrows(before: map<byte, Mip.Pipe>, after: map<byte, Mip.Pipe>) {
    before.Keys == after.Keys && forall u :: u in before ==> before[u].unknown <= after[u].unknown
  }

  lemma AtKeepsPipes(m: Mesh, u: byte, a: Mip.Action)
    requires PipesInv(m.pipes) && u in m.pipes
    ensures PipesInv(At(m, u, a).pipes) && UnknownGrows(m.pipes, At(m, u, a).pipes)
  {
    Mip.StepKeepsInv(m.pipes[u], a);
  }

  /** A step is the work of one daemon, or of none. */
  lemma StepIsAt(m: Mesh, a: Action)
    ensures Step(m, a).pipes == m.pipes || exists u, b :: u in m.pipes && Step(m, a).pipes == At(m, u, b).pipes
  {
    match a
    case FromApplication(u, frame, sduType) =>
      if u in m.pipes { assert Step(m, a).pipes == At(m, u, Mip.FromApplication(frame, sduType)).pipes; }
    case RouterAnswers(u, table) =>
      if u in m.pipes { assert Step(m, a).pipes == At(m, u, Mip.RouterAnswers(table)).pipes; }
    case Leaves(u) =>
      if u in m.pipes { assert Step(m, a).pipes == At(m, u, Mip.AnswerArrives).pipes; }
    case Arrives(u, v) =>
      if v in m.pipes && Link(m, u, v) != [] {
        assert Step(m, a).pipes == At(m, v, Mip.FromNetwork(Link(m, u, v)[0])).pipes;
      }
    case Lost(_, _, _) =>
  }

  lemma StepKeepsPipes(m: Mesh, a: Action)
    requires PipesInv(m.pipes)
    ensures PipesInv(Step(m, a).pipes) && UnknownGrows(m.pipes, Step(m, a).pipes)
  {
    StepIsAt(m, a);
    if Step(m, a).pipes != m.pipes {
      var u, b :| u in m.pipes && Step(m, a).pipes == At(m, u, b).pipes;
      AtKeepsPipes(m, u, b);
    }
  }

  /** Two meshes differ in one daemon and one link at most. */
  predicate ElsewhereSame(m: Mesh, t: Mesh, w: byte, u: byte, v: byte) {
    && m.pipes.Keys == t.pipes.Keys
    && (forall x: byte :: x in m.pipes && x != w ==> t.pipes[x] == m.pipes[x])
    && (forall x: byte, y: byte :: (x, y) != (u, v) ==> Link(t, x, y) == Link(m, x, y))
  }

  /** An answer other than 255 finds a packet waiting and moves the first one to the end of the
      link that it names; 255 moves nothing. */
  lemma PacketLeaves(m: Mesh, u: byte)
    requires PipesInv(m.pipes) && u in m.pipes && m.pipes[u].answers != []
    ensures var t, s := Step(m, Leaves(u)), m.pipes[u];
      var next := s.answers[0].next;
      && ElsewhereSame(m, t, u, u, next) && t.arrived == m.arrived
      && t.pipes[u].answers == s.answers[1..] && t.pipes[u].requests == s.requests
      && if next == NO_HOP then t.pipes[u].queue == s.queue && Link(t, u, next) == Link(m, u, next)
         else
           && s.queue != [] && t.pipes[u].queue == s.queue[1..]
           && Link(t, u, next) == Link(m, u, next) + [s.queue[0]]
  {
    Mip.AnswerMoves(m.pipes[u]);
  }

  /** The first packet of a link comes off it: for the daemon at its end it is handed up, for
      another it waits there with its time to live lowered, unless that has run out. */
  lemma PacketArrives(m: Mesh, u: byte, v: byte)
    requires PipesInv(m.pipes) && v in m.pipes && Link(m, u, v) != []
    ensures var t, p := Step(m, Arrives(u, v)), Link(m, u, v)[0];
      var carried := p.sduType == Mip.PING || p.sduType == Mip.TRANSPORT;
      && ElsewhereSame(m, t, v, u, v) && Link(t, u, v) == Link(m, u, v)[1..]
      && t.arrived == (if carried && p.dst == v then m.arrived + [p] else m.arrived)
      && t.pipes[v] == (if carried && p.dst != v && p.ttl > 0 then Mip.Wait(m.pipes[v], p.(ttl := p.ttl - 1))
                        else m.pipes[v])
  {
  }

  // ---- the flow along a path ----

  /** The packets of the flow along a path of n hops: waiting at its daemons, under way on its
      links, arrived at its end, and all that ever entered at its start. */
  datatype Strip = Strip(
    queues: seq<seq<Mip.Raw>>,
    links: seq<seq<Mip.Raw>>,
    arrived: seq<Mip.Raw>,
    entered: seq<Mip.Raw>)

  predicate Whole(s: Strip) {
    |s.queues| == |s.links|
  }

  /** The flow from the i-th daemon on, what is furthest ahead first. */
  function Ahead(s: Strip, i: nat): seq<Mip.Raw>
    requires Whole(s) && i <= |s.links|
    decreases |s.links| - i
  {
    if i == |s.links| then s.arrived else Ahead(s, i + 1) + s.links[i] + s.queues[i]
  }

  predicate Ordered(s: Strip) {
    Whole(s) && Sub(Ahead(s, 0), s.entered)
  }

  lemma {:induction false} AheadSame(s: Strip, t: Strip, i: nat)
    requires Whole(s) && Whole(t) && |s.links| == |t.links| && i <= |s.links| && t.arrived == s.arrived
    requires forall j :: i <= j < |s.links| ==> t.links[j] == s.links[j] && t.queues[j] == s.queues[j]
    ensures Ahead(t, i) == Ahead(s, i)
    decreases |s.links| - i
  {
    if i < |s.links| {
      AheadSame(s, t, i + 1);
    }
  }

  lemma {:induction false} AheadShorter(s: Strip, t: Strip, i: nat)
    requires Whole(s) && Whole(t) && |s.links| == |t.links| && i <= |s.links|
    requires forall j :: 0 <= j < i ==> t.links[j] == s.links[j] && t.queues[j] == s.queues[j]
    requires Sub(Ahead(t, i), Ahead(s, i))
    ensures Sub(Ahead(t, 0), Ahead(s, 0))
  {
    if i > 0 {
      var j := i - 1;
      SubSame(s.links[j]);
      SubSame(s.queues[j]);
      SubConcat(Ahead(t, i), Ahead(s, i), s.links[j], s.links[j]);
      SubConcat(Ahead(t, i) + s.links[j], Ahead(s, i) + s.links[j], s.queues[j], s.queues[j]);
      AheadShorter(s, t, j);
    }
  }

  lemma StaysOrdered(s: Strip, t: Strip, i: nat)
    requires Ordered(s) && Whole(t) && |s.links| == |t.links| && i <= |s.links| && t.entered == s.entered
    requires forall j :: 0 <= j < i ==> t.links[j] == s.links[j] && t.queues[j] == s.queues[j]
    requires Sub(Ahead(t, i), Ahead(s, i))
    ensures Ordered(t)
  {
    AheadShorter(s, t, i);
    SubTransitive(Ahead(t, 0), Ahead(s, 0), s.entered);
  }

  function Enter(s: Strip, x: seq<Mip.Raw>): Strip
    requires Whole(s) && s.links != []
  {
    s.(queues := s.queues[0 := s.queues[0] + x], entered := s.entered + x)
  }

  lemma EnterKeeps(s: Strip, x: seq<Mip.Raw>)
    requires Ordered(s) && s.links != []
    ensures Ordered(Enter(s, x))
  {
    var t := Enter(s, x);
    AheadSame(s, t, 1);
    assert Ahead(t, 0) == Ahead(s, 0) + x;
    SubSame(x);
    SubConcat(Ahead(s, 0), s.entered, x, x);
  }

  /** x leaves the i-th daemon. */
  function Leave(s: Strip, i: nat, x: seq<Mip.Raw>, rest: seq<Mip.Raw>): Strip
    requires Whole(s) && i < |s.links|
  {
    s.(queues := s.queues[i := rest], links := s.links[i := s.links[i] + x])
  }

  lemma LeaveKeeps(s: Strip, i: nat, x: seq<Mip.Raw>, rest: seq<Mip.Raw>)
    requires Ordered(s) && i < |s.links| && s.queues[i] == x + rest
    ensures Ordered(Leave(s, i, x, rest))
  {
    var t := Leave(s, i, x, rest);
    AheadSame(s, t, i + 1);
    assert Ahead(s, i + 1) + (s.links[i] + x) + rest == Ahead(s, i + 1) + s.links[i] + (x + rest);
    SubSame(Ahead(s, i));
    StaysOrdered(s, t, i);
  }

  /** The packets on the i-th link lose some. */
  lemma LoseKeeps(s: Strip, i: nat, link: seq<Mip.Raw>)
    requires Ordered(s) && i < |s.links| && Sub(link, s.links[i])
    ensures Ordered(s.(links := s.links[i := link]))
  {
    var t := s.(links := s.links[i := link]);
    AheadSame(s, t, i + 1);
    SubSame(Ahead(s, i + 1));
    SubSame(s.queues[i]);
    SubConcat(Ahead(s, i + 1), Ahead(s, i + 1), link, s.links[i]);
    SubConcat(Ahead(s, i + 1) + link, Ahead(s, i + 1) + s.links[i], s.queues[i], s.queues[i]);
    StaysOrdered(s, t, i);
  }

  /** x comes off the i-th link and waits at the next daemon, or has arrived. */
  function Cross(s: Strip, i: nat, x: seq<Mip.Raw>, rest: seq<Mip.Raw>): Strip
    requires Whole(s) && i < |s.links|
  {
    var t := s.(links := s.links[i := rest]);
    if i + 1 < |s.links| then t.(queues := s.queues[i + 1 := s.queues[i + 1] + x])
    else t.(arrived := s.arrived + x)
  }

  lemma CrossKeeps(s: Strip, i: nat, x: seq<Mip.Raw>, rest: seq<Mip.Raw>)
    requires Ordered(s) && i < |s.links| && s.links[i] == x + rest
    ensures Ordered(Cross(s, i, x, rest))
  {
    var t := Cross(s, i, x, rest);
    CrossAhead(s, i, x, rest);
    assert (Ahead(s, i + 1) + x) + rest + s.queues[i] == Ahead(s, i + 1) + (x + rest) + s.queues[i];
    SubSame(Ahead(s, i));
    StaysOrdered(s, t, i);
  }

  lemma CrossAhead(s: Strip, i: nat, x: seq<Mip.Raw>, rest: seq<Mip.Raw>)
    requires Whole(s) && i < |s.links|
    ensures Ahead(Cross(s, i, x, rest), i + 1) == Ahead(s, i + 1) + x
  {
    var t := Cross(s, i, x, rest);
    if i + 1 < |s.links| {
      AheadSame(s, t, i + 2);
      assert Ahead(s, i + 2) + s.links[i + 1] + (s.queues[i + 1] + x)
        == (Ahead(s, i + 2) + s.links[i + 1] + s.queues[i + 1]) + x;
    }
  }

  // ---- the flow in the mesh ----

  predicate Path(path: seq<byte>) {
    |path| >= 2 && Distinct(path)
  }

  function Queue(m: Mesh, u: byte): seq<Mip.Raw> {
    if u in m.pipes then m.pipes[u].queue else []
  }

  /** The packets from one end of the path for the other. */
  function Along(packets: seq<Mip.Raw>, path: seq<byte>): seq<Mip.Raw>
    requires Path(path)
  {
    Flow(packets, path[0], path[|path| - 1])
  }

  function Entered(m: Mesh, path: seq<byte>): seq<Mip.Raw>
    requires Path(path)
  {
    if path[0] in m.pipes then Along(m.pipes[path[0]].entered, path) else []
  }

  function QueueFlow(m: Mesh, path: seq<byte>, u: byte): seq<Mip.Raw>
    requires Path(path)
  {
    Along(Queue(m, u), path)
  }

  function LinkFlow(m: Mesh, path: seq<byte>, u: byte, v: byte): seq<Mip.Raw>
    requires Path(path)
  {
    Along(Link(m, u, v), path)
  }

  function View(m: Mesh, path: seq<byte>): (s: Strip)
    requires Path(path)
    ensures Whole(s) && |s.links| == |path| - 1
  {
    Strip(seq(|path| - 1, i requires 0 <= i < |path| - 1 => QueueFlow(m, path, path[i])),
          seq(|path| - 1, i requires 0 <= i < |path| - 1 => LinkFlow(m, path, path[i], path[i + 1])),
          Along(m.arrived, path), Entered(m, path))
  }

  predicate OnHop(path: seq<byte>, u: byte, v: byte) {
    exists i :: 0 <= i < |path| - 1 && path[i] == u && path[i + 1] == v
  }

  /** The flow is nowhere but on its path. */
  ghost predicate Confined(m: Mesh, path: seq<byte>)
    requires Path(path)
  {
    && (forall u: byte :: u !in path[..|path| - 1] ==> QueueFlow(m, path, u) == [])
    && (forall u: byte, v: byte :: !OnHop(path, u, v) ==> LinkFlow(m, path, u, v) == [])
  }

  ghost predicate InOrder(m: Mesh, path: seq<byte>)
    requires Path(path)
  {
    Confined(m, path) && Ordered(View(m, path))
  }

  /** Only the flow at w and on the link from u to v differs in t. */
  ghost predicate Differ(m: Mesh, t: Mesh, path: seq<byte>, w: byte, u: byte, v: byte)
    requires Path(path)
  {
    && (forall x: byte :: x != w ==> QueueFlow(t, path, x) == QueueFlow(m, path, x))
    && (forall x: byte, y: byte :: x != u || y != v ==> LinkFlow(t, path, x, y) == LinkFlow(m, path, x, y))
  }

  lemma StaysConfined(m: Mesh, t: Mesh, path: seq<byte>, w: byte, u: byte, v: byte)
    requires Path(path) && Confined(m, path) && Differ(m, t, path, w, u, v)
    requires QueueFlow(t, path, w) == [] || w in path[..|path| - 1]
    requires LinkFlow(t, path, u, v) == [] || OnHop(path, u, v)
    ensures Confined(t, path)
  {
  }

  /** Where no flow differs, nothing happened to it. */
  lemma SameView(m: Mesh, t: Mesh, path: seq<byte>, w: byte, u: byte, v: byte)
    requires Path(path) && InOrder(m, path) && Differ(m, t, path, w, u, v)
    requires QueueFlow(t, path, w) == QueueFlow(m, path, w) && LinkFlow(t, path, u, v) == LinkFlow(m, path, u, v)
    requires Along(t.arrived, path) == Along(m.arrived, path) && Entered(t, path) == Entered(m, path)
    ensures InOrder(t, path)
  {
    SameConfined(m, t, path, w, u, v);
    SameStrip(m, t, path, w, u, v);
  }

  lemma SameConfined(m: Mesh, t: Mesh, path: seq<byte>, w: byte, u: byte, v: byte)
    requires Path(path) && Confined(m, path) && Differ(m, t, path, w, u, v)
    requires QueueFlow(t, path, w) == QueueFlow(m, path, w) && LinkFlow(t, path, u, v) == LinkFlow(m, path, u, v)
    ensures Confined(t, path)
  {
    forall x: byte | x !in path[..|path| - 1]
      ensures QueueFlow(t, path, x) == []
    {
      assert QueueFlow(m, path, x) == [];
    }
    forall x: byte, y: byte | !OnHop(path, x, y)
      ensures LinkFlow(t, path, x, y) == []
    {
      assert LinkFlow(m, path, x, y) == [];
    }
  }

  lemma SameStrip(m: Mesh, t: Mesh, path: seq<byte>, w: byte, u: byte, v: byte)
    requires Path(path) && Differ(m, t, path, w, u, v)
    requires QueueFlow(t, path, w) == QueueFlow(m, path, w) && LinkFlow(t, path, u, v) == LinkFlow(m, path, u, v)
    requires Along(t.arrived, path) == Along(m.arrived, path) && Entered(t, path) == Entered(m, path)
    ensures View(t, path) == View(m, path)
  {
    var x, y := View(m, path), View(t, path);
    assert forall i :: 0 <= i < |path| - 1 ==> y.queues[i] == x.queues[i] && y.links[i] == x.links[i];
  }

  /** The view where only a daemon of the path and the link behind it differ. */
  lemma ViewAt(m: Mesh, t: Mesh, path: seq<byte>, i: nat)
    requires Path(path) && i + 1 < |path| && Differ(m, t, path, path[i], path[i], path[i + 1])
    requires Along(t.arrived, path) == Along(m.arrived, path)
    ensures var s := View(m, path);
      View(t, path) == Strip(s.queues[i := QueueFlow(t, path, path[i])],
                             s.links[i := LinkFlow(t, path, path[i], path[i + 1])], s.arrived, Entered(t, path))
  {
    var s, r := View(m, path), View(t, path);
    forall j | 0 <= j < |path| - 1 && j != i
      ensures r.queues[j] == s.queues[j] && r.links[j] == s.links[j]
    {
      assert path[j] != path[i];
    }
    assert r.queues == s.queues[i := QueueFlow(t, path, path[i])];
    assert r.links == s.links[i := LinkFlow(t, path, path[i], path[i + 1])];
  }

  // ---- every step ----

  lemma FlowEnd(x: seq<Mip.Raw>, p: Mip.Raw, path: seq<byte>)
    requires Path(path)
    ensures Along(x + [p], path) == Along(x, path) + Along([p], path)
  {
    FlowConcat(x, [p], path[0], path[|path| - 1]);
  }

  lemma FlowStart(x: seq<Mip.Raw>, path: seq<byte>)
    requires Path(path) && x != []
    ensures Along(x, path) == Along([x[0]], path) + Along(x[1..], path)
  {
    FlowHead(x, path[0], path[|path| - 1]);
  }

  /** q joins the queue of u. */
  function Waits(m: Mesh, u: byte, q: Mip.Raw): Mesh
    requires u in m.pipes
  {
    m.(pipes := m.pipes[u := Mip.Wait(m.pipes[u], q)])
  }

  lemma WaitsFlow(m: Mesh, path: seq<byte>, u: byte, q: Mip.Raw)
    requires Path(path) && u in m.pipes
    ensures var t := Waits(m, u, q);
      && (forall x: byte, y: byte :: LinkFlow(t, path, x, y) == LinkFlow(m, path, x, y))
      && (forall x: byte :: x != u ==> QueueFlow(t, path, x) == QueueFlow(m, path, x))
      && QueueFlow(t, path, u) == QueueFlow(m, path, u) + Along([q], path)
      && Entered(t, path) == if u == path[0] then Entered(m, path) + Along([q], path) else Entered(m, path)
  {
    var t := Waits(m, u, q);
    FlowEnd(m.pipes[u].queue, q, path);
    FlowEnd(m.pipes[u].entered, q, path);
    assert forall x: byte, y: byte :: Link(t, x, y) == Link(m, x, y);
  }

  /** A packet that is not of the flow joins a queue. */
  lemma OtherWaits(m: Mesh, path: seq<byte>, u: byte, q: Mip.Raw)
    requires Path(path) && InOrder(m, path) && u in m.pipes && Along([q], path) == []
    ensures InOrder(Waits(m, u, q), path)
  {
    WaitsFlow(m, path, u, q);
    assert QueueFlow(m, path, u) + [] == QueueFlow(m, path, u) && Entered(m, path) + [] == Entered(m, path);
    SameView(m, Waits(m, u, q), path, u, u, u);
  }

  lemma FirstWaitsView(m: Mesh, path: seq<byte>, q: Mip.Raw)
    requires Path(path) && path[0] in m.pipes
    ensures View(Waits(m, path[0], q), path) == Enter(View(m, path), Along([q], path))
  {
    WaitsFlow(m, path, path[0], q);
    ViewAt(m, Waits(m, path[0], q), path, 0);
    var s := View(m, path);
    assert s.links[0 := s.links[0]] == s.links;
  }

  lemma WaitsConfined(m: Mesh, path: seq<byte>, u: byte, q: Mip.Raw)
    requires Path(path) && Confined(m, path) && u in m.pipes && u in path[..|path| - 1]
    ensures Confined(Waits(m, u, q), path)
  {
    var t := Waits(m, u, q);
    WaitsFlow(m, path, u, q);
    forall x: byte, y: byte | !OnHop(path, x, y)
      ensures LinkFlow(t, path, x, y) == []
    {
      assert LinkFlow(m, path, x, y) == [];
    }
    forall x: byte | x !in path[..|path| - 1]
      ensures QueueFlow(t, path, x) == []
    {
      assert QueueFlow(m, path, x) == [];
    }
  }

  lemma FirstWaits(m: Mesh, path: seq<byte>, q: Mip.Raw)
    requires Path(path) && InOrder(m, path) && path[0] in m.pipes
    ensures InOrder(Waits(m, path[0], q), path)
  {
    assert path[0] == path[..|path| - 1][0];
    WaitsConfined(m, path, path[0], q);
    FirstWaitsView(m, path, q);
    EnterKeeps(View(m, path), Along([q], path));
  }

  lemma ApplicationInOrder(m: Mesh, path: seq<byte>, u: byte, frame: Bytes, sduType: byte)
    requires Path(path) && InOrder(m, path) && u in m.pipes && m.pipes[u].me == u
    ensures InOrder(At(m, u, Mip.FromApplication(frame, sduType)), path)
  {
    if 2 <= |frame| {
      var q := Mip.Accept(u, frame, sduType);
      assert At(m, u, Mip.FromApplication(frame, sduType)) == Waits(m, u, q);
      FlowOne(q, path[0], path[|path| - 1]);
      if u == path[0] {
        FirstWaits(m, path, q);
      } else {
        OtherWaits(m, path, u, q);
      }
    } else {
      assert At(m, u, Mip.FromApplication(frame, sduType)).pipes == m.pipes;
    }
  }

  /** Work inside a daemon that does not touch its packets. */
  lemma PacketsStay(m: Mesh, t: Mesh, path: seq<byte>, u: byte)
    requires Path(path) && InOrder(m, path) && u in m.pipes && u in t.pipes
    requires t == m.(pipes := m.pipes[u := t.pipes[u]])
    requires t.pipes[u].queue == m.pipes[u].queue && t.pipes[u].entered == m.pipes[u].entered
    ensures InOrder(t, path)
  {
    StayingFlow(m, t, path, u);
    SameView(m, t, path, u, u, u);
  }

  lemma StayingFlow(m: Mesh, t: Mesh, path: seq<byte>, u: byte)
    requires Path(path) && u in m.pipes && u in t.pipes && t == m.(pipes := m.pipes[u := t.pipes[u]])
    requires t.pipes[u].queue == m.pipes[u].queue && t.pipes[u].entered == m.pipes[u].entered
    ensures Differ(m, t, path, u, u, u)
    ensures QueueFlow(t, path, u) == QueueFlow(m, path, u) && LinkFlow(t, path, u, u) == LinkFlow(m, path, u, u)
    ensures Along(t.arrived, path) == Along(m.arrived, path) && Entered(t, path) == Entered(m, path)
  {
    assert forall x: byte :: Queue(t, x) == Queue(m, x);
    assert forall x: byte, y: byte :: Link(t, x, y) == Link(m, x, y);
  }

  lemma AnswersInOrder(m: Mesh, path: seq<byte>, u: byte, table: Table)
    requires Path(path) && InOrder(m, path) && u in m.pipes
    ensures InOrder(At(m, u, Mip.RouterAnswers(table)), path)
  {
    PacketsStay(m, At(m, u, Mip.RouterAnswers(table)), path, u);
  }

  /** The oldest answer takes a packet off the queue. */
  predicate Pops(s: Mip.Pipe) {
    s.answers != [] && s.answers[0].next != NO_HOP && s.queue != []
  }

  /** If a packet of the flow leaves a daemon, it leaves for the next one of the path. */
  predicate LeavesAlong(m: Mesh, path: seq<byte>, u: byte)
    requires Path(path) && u in m.pipes
  {
    var s := m.pipes[u];
    Pops(s) && Along([s.queue[0]], path) != [] ==> OnHop(path, u, s.answers[0].next)
  }

  lemma LeavesExact(m: Mesh, u: byte)
    requires u in m.pipes
    ensures var s, t := m.pipes[u], DoLeaves(m, u);
      && t.arrived == m.arrived && t.pipes == m.pipes[u := t.pipes[u]] && t.pipes[u].entered == s.entered
      && if Pops(s) then
           && t.pipes[u].queue == s.queue[1..]
           && t.links == m.links[(u, s.answers[0].next) := Link(m, u, s.answers[0].next) + [s.queue[0]]]
         else t.links == m.links && t.pipes[u].queue == s.queue
  {
  }

  lemma LeavesFlow(m: Mesh, path: seq<byte>, u: byte)
    requires Path(path) && u in m.pipes && Pops(m.pipes[u])
    ensures var s, t := m.pipes[u], DoLeaves(m, u);
      var v, x := s.answers[0].next, Along([s.queue[0]], path);
      && Differ(m, t, path, u, u, v)
      && QueueFlow(m, path, u) == x + QueueFlow(t, path, u)
      && LinkFlow(t, path, u, v) == LinkFlow(m, path, u, v) + x
      && Along(t.arrived, path) == Along(m.arrived, path) && Entered(t, path) == Entered(m, path)
  {
    var s, t := m.pipes[u], DoLeaves(m, u);
    var v := s.answers[0].next;
    LeavesExact(m, u);
    FlowStart(s.queue, path);
    FlowEnd(Link(m, u, v), s.queue[0], path);
    assert forall x: byte :: x != u ==> Queue(t, x) == Queue(m, x);
    assert forall x: byte, y: byte :: x != u || y != v ==> Link(t, x, y) == Link(m, x, y);
  }

  lemma LeavesInOrder(m: Mesh, path: seq<byte>, u: byte)
    requires Path(path) && InOrder(m, path) && u in m.pipes && LeavesAlong(m, path, u)
    ensures InOrder(DoLeaves(m, u), path)
  {
    var s, t := m.pipes[u], DoLeaves(m, u);
    if Pops(s) {
      var v, x := s.answers[0].next, Along([s.queue[0]], path);
      LeavesFlow(m, path, u);
      if x == [] {
        assert [] + QueueFlow(t, path, u) == QueueFlow(t, path, u);
        assert LinkFlow(m, path, u, v) + [] == LinkFlow(m, path, u, v);
        SameView(m, t, path, u, u, v);
      } else {
        OneLeaves(m, t, path, u, v, x);
      }
    } else {
      LeavesExact(m, u);
      PacketsStay(m, t, path, u);
    }
  }

  lemma OneLeaves(m: Mesh, t: Mesh, path: seq<byte>, u: byte, v: byte, x: seq<Mip.Raw>)
    requires Path(path) && InOrder(m, path) && Differ(m, t, path, u, u, v) && OnHop(path, u, v)
    requires QueueFlow(m, path, u) == x + QueueFlow(t, path, u)
    requires LinkFlow(t, path, u, v) == LinkFlow(m, path, u, v) + x
    requires Along(t.arrived, path) == Along(m.arrived, path) && Entered(t, path) == Entered(m, path)
    ensures InOrder(t, path)
  {
    var i :| 0 <= i < |path| - 1 && path[i] == u && path[i + 1] == v;
    assert path[..|path| - 1][i] == u;
    StaysConfined(m, t, path, u, u, v);
    OneLeavesOrdered(m, t, path, i, x);
  }

  lemma OneLeavesOrdered(m: Mesh, t: Mesh, path: seq<byte>, i: nat, x: seq<Mip.Raw>)
    requires Path(path) && Ordered(View(m, path)) && i + 1 < |path|
    requires Differ(m, t, path, path[i], path[i], path[i + 1])
    requires QueueFlow(m, path, path[i]) == x + QueueFlow(t, path, path[i])
    requires LinkFlow(t, path, path[i], path[i + 1]) == LinkFlow(m, path, path[i], path[i + 1]) + x
    requires Along(t.arrived, path) == Along(m.arrived, path) && Entered(t, path) == Entered(m, path)
    ensures Ordered(View(t, path))
  {
    var s := View(m, path);
    assert s.queues[i] == QueueFlow(m, path, path[i]);
    OneLeavesView(m, t, path, i, x);
    LeaveKeeps(s, i, x, QueueFlow(t, path, path[i]));
  }

  lemma OneLeavesView(m: Mesh, t: Mesh, path: seq<byte>, i: nat, x: seq<Mip.Raw>)
    requires Path(path) && i + 1 < |path| && Differ(m, t, path, path[i], path[i], path[i + 1])
    requires LinkFlow(t, path, path[i], path[i + 1]) == LinkFlow(m, path, path[i], path[i + 1]) + x
    requires Along(t.arrived, path) == Along(m.arrived, path) && Entered(t, path) == Entered(m, path)
    ensures View(t, path) == Leave(View(m, path), i, x, QueueFlow(t, path, path[i]))
  {
    ViewAt(m, t, path, i);
    assert View(m, path).links[i] == LinkFlow(m, path, path[i], path[i + 1]);
  }

  lemma LinkView(m: Mesh, t: Mesh, path: seq<byte>, i: nat)
    requires Path(path) && i + 1 < |path| && Differ(m, t, path, path[i], path[i], path[i + 1])
    requires QueueFlow(t, path, path[i]) == QueueFlow(m, path, path[i])
    requires Along(t.arrived, path) == Along(m.arrived, path) && Entered(t, path) == Entered(m, path)
    ensures View(t, path) ==
      View(m, path).(links := View(m, path).links[i := LinkFlow(t, path, path[i], path[i + 1])])
  {
    ViewAt(m, t, path, i);
    var s := View(m, path);
    assert s.queues[i := s.queues[i]] == s.queues;
  }

  lemma LinkConfined(m: Mesh, t: Mesh, path: seq<byte>, u: byte, v: byte)
    requires Path(path) && Confined(m, path) && Differ(m, t, path, u, u, v)
    requires QueueFlow(t, path, u) == QueueFlow(m, path, u)
    requires Sub(LinkFlow(t, path, u, v), LinkFlow(m, path, u, v))
    ensures Confined(t, path)
  {
    if u !in path[..|path| - 1] {
      assert QueueFlow(m, path, u) == [];
    }
    if !OnHop(path, u, v) {
      assert LinkFlow(m, path, u, v) == [];
    }
    StaysConfined(m, t, path, u, u, v);
  }

  /** The packets on a link lose some. */
  lemma LinkShorter(m: Mesh, t: Mesh, path: seq<byte>, u: byte, v: byte)
    requires Path(path) && InOrder(m, path) && Differ(m, t, path, u, u, v)
    requires QueueFlow(t, path, u) == QueueFlow(m, path, u)
    requires Sub(LinkFlow(t, path, u, v), LinkFlow(m, path, u, v))
    requires Along(t.arrived, path) == Along(m.arrived, path) && Entered(t, path) == Entered(m, path)
    ensures InOrder(t, path)
  {
    LinkConfined(m, t, path, u, v);
    if OnHop(path, u, v) {
      var i :| 0 <= i < |path| - 1 && path[i] == u && path[i + 1] == v;
      LinkOrdered(m, t, path, i);
    } else {
      assert LinkFlow(m, path, u, v) == [] && LinkFlow(t, path, u, v) == [];
      SameStrip(m, t, path, u, u, v);
    }
  }

  lemma LinkOrdered(m: Mesh, t: Mesh, path: seq<byte>, i: nat)
    requires Path(path) && Ordered(View(m, path)) && i + 1 < |path|
    requires Differ(m, t, path, path[i], path[i], path[i + 1])
    requires QueueFlow(t, path, path[i]) == QueueFlow(m, path, path[i])
    requires Sub(LinkFlow(t, path, path[i], path[i + 1]), LinkFlow(m, path, path[i], path[i + 1]))
    requires Along(t.arrived, path) == Along(m.arrived, path) && Entered(t, path) == Entered(m, path)
    ensures Ordered(View(t, path))
  {
    var s, link := View(m, path), LinkFlow(t, path, path[i], path[i + 1]);
    assert s.links[i] == LinkFlow(m, path, path[i], path[i + 1]);
    LinkView(m, t, path, i);
    LoseKeeps(s, i, link);
  }

  lemma LostFlow(m: Mesh, path: seq<byte>, u: byte, v: byte, k: nat)
    requires Path(path) && k < |Link(m, u, v)|
    ensures var t := DoLost(m, u, v, k);
      && Differ(m, t, path, u, u, v) && QueueFlow(t, path, u) == QueueFlow(m, path, u)
      && Sub(LinkFlow(t, path, u, v), LinkFlow(m, path, u, v))
      && Along(t.arrived, path) == Along(m.arrived, path) && Entered(t, path) == Entered(m, path)
  {
    var t := DoLost(m, u, v, k);
    FlowWithout(Link(m, u, v), k, path[0], path[|path| - 1]);
    assert forall x: byte :: Queue(t, x) == Queue(m, x);
    assert forall x: byte, y: byte :: x != u || y != v ==> Link(t, x, y) == Link(m, x, y);
  }

  lemma LostInOrder(m: Mesh, path: seq<byte>, u: byte, v: byte, k: nat)
    requires Path(path) && InOrder(m, path) && k < |Link(m, u, v)|
    ensures InOrder(DoLost(m, u, v, k), path)
  {
    LostFlow(m, path, u, v, k);
    LinkShorter(m, DoLost(m, u, v, k), path, u, v);
  }

  /** The first packet comes off a link. */
  function Taken(m: Mesh, u: byte, v: byte): Mesh
    requires Link(m, u, v) != []
  {
    m.(links := m.links[(u, v) := Link(m, u, v)[1..]])
  }

  lemma TakenFlow(m: Mesh, path: seq<byte>, u: byte, v: byte)
    requires Path(path) && Link(m, u, v) != []
    ensures var t := Taken(m, u, v);
      && Differ(m, t, path, u, u, v) && QueueFlow(t, path, u) == QueueFlow(m, path, u)
      && LinkFlow(m, path, u, v) == Along([Link(m, u, v)[0]], path) + LinkFlow(t, path, u, v)
      && Along(t.arrived, path) == Along(m.arrived, path) && Entered(t, path) == Entered(m, path)
  {
    var t := Taken(m, u, v);
    FlowStart(Link(m, u, v), path);
    assert forall x: byte :: Queue(t, x) == Queue(m, x);
    assert forall x: byte, y: byte :: x != u || y != v ==> Link(t, x, y) == Link(m, x, y);
  }

  lemma TakenInOrder(m: Mesh, path: seq<byte>, u: byte, v: byte)
    requires Path(path) && InOrder(m, path) && Link(m, u, v) != []
    ensures InOrder(Taken(m, u, v), path)
  {
    var t := Taken(m, u, v);
    var x, rest := Along([Link(m, u, v)[0]], path), LinkFlow(t, path, u, v);
    TakenFlow(m, path, u, v);
    SubSame(rest);
    SubConcat([], x, rest, rest);
    assert [] + rest == rest;
    LinkShorter(m, t, path, u, v);
  }

  /** What becomes of it at v: it waits, or it is handed up, or it is dropped. */
  lemma ArrivesExact(m: Mesh, u: byte, v: byte)
    requires v in m.pipes && m.pipes[v].me == v && Link(m, u, v) != []
    ensures var p, t := Link(m, u, v)[0], Taken(m, u, v);
      DoArrives(m, u, v) == match Mip.OnRaw(v, p)
        case PassOn(q) => Waits(t, v, q)
        case ToApplication(_) => HandedUp(t, p)
        case _ => t
  {
    var t := Taken(m, u, v);
    assert t.pipes == m.pipes && m.pipes[v := m.pipes[v]] == m.pipes;
  }

  function HandedUp(m: Mesh, p: Mip.Raw): Mesh {
    m.(arrived := m.arrived + [p])
  }

  lemma HandedUpFlow(m: Mesh, path: seq<byte>, p: Mip.Raw)
    requires Path(path)
    ensures var t := HandedUp(m, p);
      && (forall x: byte :: QueueFlow(t, path, x) == QueueFlow(m, path, x))
      && (forall x: byte, y: byte :: LinkFlow(t, path, x, y) == LinkFlow(m, path, x, y))
      && Along(t.arrived, path) == Along(m.arrived, path) + Along([p], path) && Entered(t, path) == Entered(m, path)
  {
    var t := HandedUp(m, p);
    FlowEnd(m.arrived, p, path);
    assert forall x: byte :: Queue(t, x) == Queue(m, x);
    assert forall x: byte, y: byte :: Link(t, x, y) == Link(m, x, y);
  }

  lemma OtherHandedUp(m: Mesh, path: seq<byte>, p: Mip.Raw)
    requires Path(path) && InOrder(m, path) && Along([p], path) == []
    ensures InOrder(HandedUp(m, p), path)
  {
    HandedUpFlow(m, path, p);
    assert Along(m.arrived, path) + [] == Along(m.arrived, path);
    SameView(m, HandedUp(m, p), path, 0, 0, 0);
  }

  lemma HandedUpConfined(m: Mesh, path: seq<byte>, p: Mip.Raw)
    requires Path(path) && Confined(m, path)
    ensures Confined(HandedUp(m, p), path)
  {
    HandedUpFlow(m, path, p);
    SameConfined(m, HandedUp(m, p), path, 0, 0, 0);
  }

  lemma HandedUpView(m: Mesh, path: seq<byte>, p: Mip.Raw)
    requires Path(path)
    ensures View(HandedUp(m, p), path) ==
      View(m, path).(arrived := View(m, path).arrived + Along([p], path))
  {
    var t := HandedUp(m, p);
    HandedUpFlow(m, path, p);
    var x, y := View(m, path), View(t, path);
    assert forall i :: 0 <= i < |path| - 1 ==> y.queues[i] == x.queues[i] && y.links[i] == x.links[i];
  }

  lemma WaitsView(m: Mesh, path: seq<byte>, i: nat, q: Mip.Raw)
    requires Path(path) && 0 < i < |path| - 1 && path[i] in m.pipes
    ensures var s := View(m, path);
      View(Waits(m, path[i], q), path) == s.(queues := s.queues[i := s.queues[i] + Along([q], path)])
  {
    assert path[i] != path[0];
    WaitsFlow(m, path, path[i], q);
    ViewAt(m, Waits(m, path[i], q), path, i);
    var s := View(m, path);
    assert s.links[i := s.links[i]] == s.links;
  }

  /** A packet of the flow comes off its link and is passed on: it waits at the next daemon. */
  lemma OnePassedOn(m: Mesh, path: seq<byte>, i: nat, q: Mip.Raw)
    requires Path(path) && InOrder(m, path) && i + 2 < |path| && path[i + 1] in m.pipes
    requires Link(m, path[i], path[i + 1]) != []
    requires Along([q], path) == Along([Link(m, path[i], path[i + 1])[0]], path)
    ensures InOrder(Waits(Taken(m, path[i], path[i + 1]), path[i + 1], q), path)
  {
    TakenInOrder(m, path, path[i], path[i + 1]);
    assert path[..|path| - 1][i + 1] == path[i + 1];
    WaitsConfined(Taken(m, path[i], path[i + 1]), path, path[i + 1], q);
    OnePassedOnView(m, path, i, q);
    TakenHead(m, path, i);
    var rest := LinkFlow(Taken(m, path[i], path[i + 1]), path, path[i], path[i + 1]);
    CrossKeeps(View(m, path), i, Along([q], path), rest);
  }

  lemma OnePassedOnView(m: Mesh, path: seq<byte>, i: nat, q: Mip.Raw)
    requires Path(path) && i + 2 < |path| && path[i + 1] in m.pipes && Link(m, path[i], path[i + 1]) != []
    ensures var t := Taken(m, path[i], path[i + 1]);
      View(Waits(t, path[i + 1], q), path) ==
        Cross(View(m, path), i, Along([q], path), LinkFlow(t, path, path[i], path[i + 1]))
  {
    var t := Taken(m, path[i], path[i + 1]);
    TakenFlow(m, path, path[i], path[i + 1]);
    LinkView(m, t, path, i);
    WaitsView(t, path, i + 1, q);
  }

  /** One that is handed up has arrived at the end of the path. */
  lemma OneHandedUp(m: Mesh, path: seq<byte>, i: nat, p: Mip.Raw)
    requires Path(path) && InOrder(m, path) && i + 2 == |path|
    requires Link(m, path[i], path[i + 1]) != [] && p == Link(m, path[i], path[i + 1])[0]
    ensures InOrder(HandedUp(Taken(m, path[i], path[i + 1]), p), path)
  {
    TakenInOrder(m, path, path[i], path[i + 1]);
    HandedUpConfined(Taken(m, path[i], path[i + 1]), path, p);
    OneHandedUpView(m, path, i, p);
    TakenHead(m, path, i);
    var rest := LinkFlow(Taken(m, path[i], path[i + 1]), path, path[i], path[i + 1]);
    CrossKeeps(View(m, path), i, Along([p], path), rest);
  }

  lemma TakenHead(m: Mesh, path: seq<byte>, i: nat)
    requires Path(path) && i + 1 < |path| && Link(m, path[i], path[i + 1]) != []
    ensures View(m, path).links[i] == Along([Link(m, path[i], path[i + 1])[0]], path)
      + LinkFlow(Taken(m, path[i], path[i + 1]), path, path[i], path[i + 1])
  {
    TakenFlow(m, path, path[i], path[i + 1]);
  }

  lemma OneHandedUpView(m: Mesh, path: seq<byte>, i: nat, p: Mip.Raw)
    requires Path(path) && i + 2 == |path| && Link(m, path[i], path[i + 1]) != []
    ensures var t := Taken(m, path[i], path[i + 1]);
      View(HandedUp(t, p), path) == Cross(View(m, path), i, Along([p], path), LinkFlow(t, path, path[i], path[i + 1]))
  {
    var t := Taken(m, path[i], path[i + 1]);
    TakenFlow(m, path, path[i], path[i + 1]);
    LinkView(m, t, path, i);
    HandedUpView(t, path, p);
  }

  /** A packet of the flow is on a link of the path. */
  lemma HopOf(m: Mesh, path: seq<byte>, u: byte, v: byte) returns (i: nat)
    requires Path(path) && Confined(m, path) && LinkFlow(m, path, u, v) != []
    ensures i + 1 < |path| && path[i] == u && path[i + 1] == v
  {
    assert OnHop(path, u, v);
    i :| 0 <= i < |path| - 1 && path[i] == u && path[i + 1] == v;
  }

  lemma PassedOnInOrder(m: Mesh, path: seq<byte>, u: byte, v: byte, q: Mip.Raw)
    requires Path(path) && InOrder(m, path) && v in m.pipes && Link(m, u, v) != []
    requires q == Link(m, u, v)[0].(ttl := q.ttl) && q.dst != v
    ensures InOrder(Waits(Taken(m, u, v), v, q), path)
  {
    var p := Link(m, u, v)[0];
    FlowOne(p, path[0], path[|path| - 1]);
    FlowOne(q, path[0], path[|path| - 1]);
    if Along([q], path) == [] {
      TakenInOrder(m, path, u, v);
      OtherWaits(Taken(m, u, v), path, v, q);
    } else {
      FlowStart(Link(m, u, v), path);
      var i := HopOf(m, path, u, v);
      OnePassedOn(m, path, i, q);
    }
  }

  lemma HandedUpInOrder(m: Mesh, path: seq<byte>, u: byte, v: byte)
    requires Path(path) && InOrder(m, path) && Link(m, u, v) != [] && Link(m, u, v)[0].dst == v
    ensures InOrder(HandedUp(Taken(m, u, v), Link(m, u, v)[0]), path)
  {
    var p := Link(m, u, v)[0];
    FlowOne(p, path[0], path[|path| - 1]);
    if Along([p], path) == [] {
      TakenInOrder(m, path, u, v);
      OtherHandedUp(Taken(m, u, v), path, p);
    } else {
      FlowStart(Link(m, u, v), path);
      var i := HopOf(m, path, u, v);
      assert path[i + 1] == path[|path| - 1];
      OneHandedUp(m, path, i, p);
    }
  }

  lemma ArrivesInOrder(m: Mesh, path: seq<byte>, u: byte, v: byte)
    requires Path(path) && InOrder(m, path) && v in m.pipes && m.pipes[v].me == v && Link(m, u, v) != []
    ensures InOrder(DoArrives(m, u, v), path)
  {
    ArrivesExact(m, u, v);
    match Mip.OnRaw(v, Link(m, u, v)[0])
    case PassOn(q) => PassedOnInOrder(m, path, u, v, q);
    case ToApplication(_) => HandedUpInOrder(m, path, u, v);
    case _ => TakenInOrder(m, path, u, v);
  }

  // ---- answers along the path ----

  /** What a daemon of the path may be answered for its end: 255 or the next daemon. */
  predicate ForNext(path: seq<byte>, u: byte, next: byte)
    requires Path(path)
  {
    next == NO_HOP || forall i :: 0 <= i < |path| - 1 && path[i] == u ==> next == path[i + 1]
  }

  /** The pending answers send the flow along the path. */
  predicate Follows(m: Mesh, path: seq<byte>)
    requires Path(path)
  {
    forall u :: u in m.pipes ==> forall k :: 0 <= k < |m.pipes[u].answers| ==>
      (m.pipes[u].answers[k].asked == path[|path| - 1] ==> ForNext(path, u, m.pipes[u].answers[k].next))
  }

  predicate TableFits(path: seq<byte>, a: Action)
    requires Path(path)
  {
    a.RouterAnswers? ==> ForNext(path, a.u, Lookup(a.table, path[|path| - 1]))
  }

  /** No daemon of the path, its end apart, was answered 255. */
  predicate NoneUnknown(m: Mesh, path: seq<byte>)
    requires Path(path)
  {
    forall u :: u in m.pipes && u in path[..|path| - 1] ==> m.pipes[u].unknown == 0
  }

  lemma StepFollows(m: Mesh, path: seq<byte>, a: Action)
    requires Path(path) && Follows(m, path) && TableFits(path, a)
    ensures Follows(Step(m, a), path)
  {
    var t := Step(m, a);
    forall u | u in t.pipes
      ensures u in m.pipes && forall k :: 0 <= k < |t.pipes[u].answers| ==>
        (t.pipes[u].answers[k].asked == path[|path| - 1] ==> ForNext(path, u, t.pipes[u].answers[k].next))
    {
    }
  }

  /** As long as no daemon of the path was answered 255, its packets take their own answers. */
  lemma OwnAnswer(m: Mesh, path: seq<byte>, u: byte)
    requires Path(path) && Confined(m, path) && Follows(m, path) && NoneUnknown(m, path) && u in m.pipes
    requires Mip.Inv(m.pipes[u])
    ensures LeavesAlong(m, path, u)
  {
    var s := m.pipes[u];
    if Pops(s) && Along([s.queue[0]], path) != [] {
      FlowOne(s.queue[0], path[0], path[|path| - 1]);
      FlowStart(s.queue, path);
      assert QueueFlow(m, path, u) != [];
      assert u in path[..|path| - 1];
      AskedForFirst(s);
      assert ForNext(path, u, s.answers[0].next);
      var i :| 0 <= i < |path| - 1 && path[..|path| - 1][i] == u;
      assert path[i] == u && s.answers[0].next == path[i + 1];
    }
  }

  lemma AskedForFirst(s: Mip.Pipe)
    requires Mip.Inv(s) && s.unknown == 0 && s.answers != [] && s.queue != []
    ensures s.answers[0].asked == s.queue[0].dst
  {
    Mip.OldestAnswer(s);
    assert s.queue[0] == s.entered[|s.sent|];
  }

  predicate Named(m: Mesh) {
    forall u :: u in m.pipes ==> m.pipes[u].me == u
  }

  lemma StepInOrder(m: Mesh, path: seq<byte>, a: Action)
    requires Path(path) && Named(m) && InOrder(m, path)
    requires a.Leaves? && a.u in m.pipes ==> LeavesAlong(m, path, a.u)
    ensures InOrder(Step(m, a), path)
  {
    match a
    case FromApplication(u, frame, sduType) =>
      if u in m.pipes { ApplicationInOrder(m, path, u, frame, sduType); }
    case RouterAnswers(u, table) => if u in m.pipes { AnswersInOrder(m, path, u, table); }
    case Leaves(u) => if u in m.pipes { LeavesInOrder(m, path, u); }
    case Arrives(u, v) => if v in m.pipes && Link(m, u, v) != [] { ArrivesInOrder(m, path, u, v); }
    case Lost(u, v, k) => if k < |Link(m, u, v)| { LostInOrder(m, path, u, v, k); }
  }

  lemma QuietInOrder(nodes: set<byte>, path: seq<byte>)
    requires Path(path)
    ensures InOrder(Quiet(nodes), path)
  {
    QuietFlows(nodes, path);
    EmptyAhead(View(Quiet(nodes), path), 0);
  }

  lemma QuietFlows(nodes: set<byte>, path: seq<byte>)
    requires Path(path)
    ensures forall u: byte :: QueueFlow(Quiet(nodes), path, u) == []
    ensures forall u: byte, v: byte :: LinkFlow(Quiet(nodes), path, u, v) == []
    ensures var s := View(Quiet(nodes), path);
      s.arrived == [] && forall j :: 0 <= j < |s.links| ==> s.links[j] == [] && s.queues[j] == []
  {
    var m := Quiet(nodes);
    assert forall u: byte :: Queue(m, u) == [];
    assert forall u: byte, v: byte :: Link(m, u, v) == [];
  }

  lemma {:induction false} EmptyAhead(s: Strip, i: nat)
    requires Whole(s) && i <= |s.links| && s.arrived == []
    requires forall j :: 0 <= j < |s.links| ==> s.links[j] == [] && s.queues[j] == []
    ensures Ahead(s, i) == []
    decreases |s.links| - i
  {
    if i < |s.links| {
      EmptyAhead(s, i + 1);
    }
  }

  lemma {:induction false} ExecInOrder(nodes: set<byte>, path: seq<byte>, actions: seq<Action>)
    requires Path(path) && (forall a :: a in actions ==> TableFits(path, a))
    requires NoneUnknown(Exec(nodes, actions), path)
    ensures var m := Exec(nodes, actions); PipesInv(m.pipes) && InOrder(m, path) && Follows(m, path)
  {
    if actions == [] {
      QuietInOrder(nodes, path);
    } else {
      var before, a := actions[..|actions| - 1], actions[|actions| - 1];
      assert actions == before + [a];
      PipesAlways(nodes, before);
      StepKeepsPipes(Exec(nodes, before), a);
      ExecInOrder(nodes, path, before);
      if a.Leaves? && a.u in Exec(nodes, before).pipes {
        OwnAnswer(Exec(nodes, before), path, a.u);
      }
      StepInOrder(Exec(nodes, before), path, a);
      StepFollows(Exec(nodes, before), path, a);
    }
  }

  lemma {:induction false} PipesAlways(nodes: set<byte>, actions: seq<Action>)
    ensures PipesInv(Exec(nodes, actions).pipes)
  {
    if actions != [] {
      PipesAlways(nodes, actions[..|actions| - 1]);
      StepKeepsPipes(Exec(nodes, actions[..|actions| - 1]), actions[|actions| - 1]);
    }
  }

  lemma {:induction false} ArrivedIsAhead(s: Strip, i: nat)
    requires Whole(s) && i <= |s.links|
    ensures Sub(s.arrived, Ahead(s, i))
    decreases |s.links| - i
  {
    SubSame(s.arrived);
    if i < |s.links| {
      ArrivedIsAhead(s, i + 1);
      SubConcat(s.arrived, Ahead(s, i + 1), [], s.links[i]);
      SubConcat(s.arrived + [], Ahead(s, i + 1) + s.links[i], [], s.queues[i]);
      assert s.arrived + [] + [] == s.arrived;
    }
  }

  // ---- the main result ----

  /** u's routing table at some moment of a run of the routing daemons. */
  ghost predicate TableOf(nodes: set<byte>, routing: seq<RoutingNetwork.Action>, u: byte, table: Table) {
    exists k :: 0 <= k <= |routing| && u in nodes &&
      u in RoutingNetwork.Exec(Empty(nodes), routing[..k]).tables &&
      table == RoutingNetwork.Exec(Empty(nodes), routing[..k]).tables[u]
  }

  /** Over every run of all MIP daemons, answered from the tables of any run of the routing
      daemons at any moments: while no daemon on the route from a to b was answered 255, the
      packets of a that arrive at b are those it sent, in order, some left out. So the
      acknowledgements of one transport daemon for another do not overtake one another. */
  lemma FlowsArriveInOrder(nodes: set<byte>, routing: seq<RoutingNetwork.Action>, path: seq<byte>, actions: seq<Action>)
    requires Path(path) && Route(RoutingNetwork.Exec(Empty(nodes), routing), path, path[|path| - 1])
    requires forall a :: a in actions && a.RouterAnswers? ==> TableOf(nodes, routing, a.u, a.table)
    requires NoneUnknown(Exec(nodes, actions), path)
    ensures var m := Exec(nodes, actions);
      Sub(Along(m.arrived, path), Entered(m, path))
  {
    forall a | a in actions
      ensures TableFits(path, a)
    {
      if a.RouterAnswers? {
        TableLeadsOn(nodes, routing, path, a.u, a.table);
      }
    }
    ExecInOrder(nodes, path, actions);
    var s := View(Exec(nodes, actions), path);
    ArrivedIsAhead(s, 0);
    SubTransitive(s.arrived, Ahead(s, 0), s.entered);
  }

  lemma TableLeadsOn(nodes: set<byte>, routing: seq<RoutingNetwork.Action>, path: seq<byte>, u: byte, table: Table)
    requires Path(path) && Route(RoutingNetwork.Exec(Empty(nodes), routing), path, path[|path| - 1])
    requires TableOf(nodes, routing, u, table)
    ensures ForNext(path, u, Lookup(table, path[|path| - 1]))
  {
    var b := path[|path| - 1];
    var next := Lookup(table, b);
    if next != NO_HOP {
      var k :| 0 <= k <= |routing| && u in nodes &&
        u in RoutingNetwork.Exec(Empty(nodes), routing[..k]).tables &&
        table == RoutingNetwork.Exec(Empty(nodes), routing[..k]).tables[u];
      assert HopAt(nodes, routing, k, u, next, b);
      HopIsFinal(nodes, routing, k, u, next, b);
    }
  }
}
