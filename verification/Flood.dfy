/** A network of nodes running the gossip and ack merges: the flood ends, and dials never cross. */
module Flood {
  import opened Collections
  import opened Text
  import opened Dedup
  import opened Net
  import opened Registry
  import opened SeedSets
  import opened SeedsCommands
  import opened Gossip

  type Id = string

  /** Messages in flight have no order: any of them may be handled next. */
  datatype Network = Network(
    regs: map<Id, Nodes>,
    gossip: multiset<GossipMsg>,
    acks: multiset<AckMsg>,
    dialled: set<(Id, Id)>)

  /** What the surroundings decide in a step: which message is handled, which peers are connected
      at that moment, the order a registry is listed in, and the clock. */
  datatype Choice =
    | HandleGossip(g: GossipMsg, audience: seq<(Id, SocketAddr)>, order: seq<Pair>, clock: nat -> int, now: nat)
    | HandleAck(a: AckMsg, audience: seq<(Id, SocketAddr)>, order: seq<Pair>, clock: nat -> int, now: nat)

  datatype Context = Context(h: Hasher, scopeOf: Ip -> Scope)

  /** One copy of the list to every connected peer. */
  function Copies(from: Id, audience: seq<(Id, SocketAddr)>, cmd: SeedsCommand): multiset<GossipMsg> {
    multiset(Map((p: (Id, SocketAddr)) => GossipMsg(p.0, from, p.1, Some(cmd)), audience))
  }

  function Edges(from: Id, dials: seq<Dial>): set<(Id, Id)> {
    set n | n in Targets(dials) :: (from, n)
  }

  ghost predicate AudienceOk(net: Network, audience: seq<(Id, SocketAddr)>) {
    forall p | p in audience :: p.0 in net.regs
  }

  ghost predicate GossipStep(cx: Context, net: Network, net': Network, c: Choice)
    requires c.HandleGossip?
  {
    var m := c.g;
    && m in net.gossip && m.to in net.regs && AudienceOk(net, c.audience)
    && var nodes := net.regs[m.to];
       var after := AfterGossip(cx.h, nodes, m, cx.scopeOf, c.now);
    && Enumerates(c.order, Pairs(after))
    && net'.regs == net.regs[m.to := after]
    && net'.acks == net.acks
    && net'.gossip == net.gossip - multiset{m} +
         (if PassesOn(cx.h, nodes, m, cx.scopeOf, c.now)
          then Copies(m.to, c.audience, NewCommand(cx.h, Records(c.order, c.clock))) else multiset{})
    && net'.dialled == net.dialled +
         Edges(m.to, Dials(WithSender(nodes, m, cx.scopeOf, c.now), m.to, Accepted(cx.h, m.cmd)))
  }

  ghost predicate AckStep(cx: Context, net: Network, net': Network, c: Choice)
    requires c.HandleAck?
  {
    var m := c.a;
    && m in net.acks && m.to in net.regs && AudienceOk(net, c.audience)
    && var nodes := net.regs[m.to];
       var after := AfterAck(cx.h, nodes, m, cx.scopeOf, c.now);
    && Enumerates(c.order, Pairs(after))
    && net'.regs == net.regs[m.to := after]
    && net'.acks == net.acks - multiset{m}
    && net'.gossip == net.gossip +
         (if AckPassesOn(cx.h, nodes, m, cx.scopeOf, c.now)
          then Copies(m.to, c.audience, NewCommand(cx.h, Records(c.order, c.clock))) else multiset{})
    && net'.dialled == net.dialled +
         Edges(m.to, Dials(WithResponder(nodes, m, cx.scopeOf, c.now), m.to, Accepted(cx.h, m.cmd)))
  }

  ghost predicate Step(cx: Context, net: Network, net': Network, c: Choice) {
    if c.HandleGossip? then GossipStep(cx, net, net', c) else AckStep(cx, net, net', c)
  }

  // ---------------------------------------------------------------- a finite set of node ids suffices

  function Named(cmd: Option<SeedsCommand>): set<string> {
    match cmd
    case Some(c) => KeySet(NodeOf, c.seeds)
    case None => {}
  }

  /** Every id that occurs anywhere in the network lies in ids. */
  ghost predicate Closed(net: Network, ids: set<string>) {
    && (forall n | n in net.regs :: n in ids && net.regs[n].Keys <= ids && Keyed(net.regs[n]))
    && (forall m | m in net.gossip :: m.to in net.regs && m.from in ids && Named(m.cmd) <= ids)
    && (forall m | m in net.acks :: m.to in net.regs && m.from in ids && Named(m.cmd) <= ids)
  }

  /** Who does not know whom. */
  function Unaware(net: Network, ids: set<string>): set<(Id, string)> {
    set n, u | n in net.regs && u in ids && u !in net.regs[n] :: (n, u)
  }

  lemma AcceptedNames(h: Hasher, cmd: Option<SeedsCommand>)
    ensures KeySet(NodeOf, Accepted(h, cmd)) <= Named(cmd)
  {
  }

  lemma BroadcastNames(h: Hasher, order: seq<Pair>, clock: nat -> int, nodes: Nodes)
    requires Elems(order) == Pairs(nodes)
    ensures Named(Some(NewCommand(h, Records(order, clock)))) <= nodes.Keys
  {
    var rs := Records(order, clock);
    forall u | u in KeySet(NodeOf, Deduped(rs))
      ensures u in nodes
    {
      var r :| r in Deduped(rs) && NodeOf(r) == u;
      var i :| 0 <= i < |order| && rs[i] == r;
      assert order[i] in Elems(order);
    }
  }

  lemma CopiesClosed(net: Network, ids: set<string>, from: Id, audience: seq<(Id, SocketAddr)>, cmd: SeedsCommand)
    requires AudienceOk(net, audience) && from in ids && Named(Some(cmd)) <= ids
    ensures forall m | m in Copies(from, audience, cmd) :: m.to in net.regs && m.from in ids && Named(m.cmd) <= ids
  {
    var copies := Map((p: (Id, SocketAddr)) => GossipMsg(p.0, from, p.1, Some(cmd)), audience);
    forall m | m in copies
      ensures m.to in net.regs && m.from in ids && Named(m.cmd) <= ids
    {
      var i :| 0 <= i < |copies| && copies[i] == m;
      assert audience[i] in audience;
    }
  }

  lemma GossipLearns(cx: Context, nodes: Nodes, m: GossipMsg, now: nat, ids: set<string>)
    requires Keyed(nodes) && nodes.Keys <= ids && m.from in ids && Named(m.cmd) <= ids
    ensures var after := AfterGossip(cx.h, nodes, m, cx.scopeOf, now);
            Keyed(after) && nodes.Keys <= after.Keys <= ids
            && (PassesOn(cx.h, nodes, m, cx.scopeOf, now) ==> nodes.Keys != after.Keys)
  {
    hide Accepted, Learn, Pairs;
    var before := WithSender(nodes, m, cx.scopeOf, now);
    ApplyPairs(nodes, Register(m.from, m.sender, cx.scopeOf(m.sender.ip), Unknown, now));
    AcceptedNames(cx.h, m.cmd);
    LearnKeys(before, Accepted(cx.h, m.cmd), cx.scopeOf, now);
    CountGrowsIff(before, Accepted(cx.h, m.cmd), cx.scopeOf, now);
  }

  lemma AckLearns(cx: Context, nodes: Nodes, m: AckMsg, now: nat, ids: set<string>)
    requires Keyed(nodes) && nodes.Keys <= ids && m.from in ids && Named(m.cmd) <= ids
    ensures var after := AfterAck(cx.h, nodes, m, cx.scopeOf, now);
            Keyed(after) && nodes.Keys <= after.Keys <= ids
  {
    hide Accepted, MergeAll, WithResponder;
    WithResponderPairs(nodes, m, cx.scopeOf, now);
    AcceptedNames(cx.h, m.cmd);
    MergeAllPairs(WithResponder(nodes, m, cx.scopeOf, now), Accepted(cx.h, m.cmd), cx.scopeOf, now);
  }

  lemma UnawareShrinks(net: Network, net': Network, n: Id, after: Nodes, ids: set<string>)
    requires n in net.regs && net'.regs == net.regs[n := after]
    requires net.regs[n].Keys <= after.Keys <= ids
    ensures |Unaware(net', ids)| <= |Unaware(net, ids)|
    ensures net.regs[n].Keys != after.Keys ==> |Unaware(net', ids)| < |Unaware(net, ids)|
  {
    SubsetSize(Unaware(net', ids), Unaware(net, ids));
    if net.regs[n].Keys != after.Keys {
      var u :| u in after && u !in net.regs[n];
      assert (n, u) in Unaware(net, ids) && (n, u) !in Unaware(net', ids);
    }
  }

  /** Every gossip step either uses up its message without passing anything on, or strictly enlarges
      the receiver's set of known nodes; every ack step uses up an ack, and nothing makes new ones. */
  lemma StepDecreases(cx: Context, net: Network, net': Network, c: Choice, ids: set<string>)
    requires Closed(net, ids) && Step(cx, net, net', c)
    ensures Closed(net', ids)
    ensures c.HandleAck? ==> |net'.acks| == |net.acks| - 1 && |Unaware(net', ids)| <= |Unaware(net, ids)|
    ensures c.HandleGossip? ==> |net'.acks| == |net.acks|
    ensures c.HandleGossip? && PassedOn(cx, net, c) ==> |Unaware(net', ids)| < |Unaware(net, ids)|
    ensures c.HandleGossip? && !PassedOn(cx, net, c) ==>
      |Unaware(net', ids)| <= |Unaware(net, ids)| && |net'.gossip| == |net.gossip| - 1
  {
    if c.HandleGossip? {
      GossipStepFacts(cx, net, net', c, ids);
    } else {
      AckStepFacts(cx, net, net', c, ids);
    }
  }

  ghost predicate PassedOn(cx: Context, net: Network, c: Choice) {
    match c
    case HandleGossip(m, _, _, _, now) => m.to in net.regs && PassesOn(cx.h, net.regs[m.to], m, cx.scopeOf, now)
    case HandleAck(m, _, _, _, now) => m.to in net.regs && AckPassesOn(cx.h, net.regs[m.to], m, cx.scopeOf, now)
  }

  ghost predicate Fits(m: GossipMsg, net: Network, ids: set<string>) {
    m.to in net.regs && m.from in ids && Named(m.cmd) <= ids
  }

  lemma ClosedAfter(net: Network, net': Network, n: Id, after: Nodes, sent: multiset<GossipMsg>, ids: set<string>)
    requires Closed(net, ids) && n in net.regs && net'.regs == net.regs[n := after]
    requires after.Keys <= ids && Keyed(after)
    requires net'.acks <= net.acks && net'.gossip <= net.gossip + sent
    requires forall m | m in sent :: Fits(m, net, ids)
    ensures Closed(net', ids)
  {
    hide Named, Keyed;
    forall m | m in net'.gossip
      ensures m.to in net'.regs && m.from in ids && Named(m.cmd) <= ids
    {
      assert m in net.gossip || m in sent;
    }
  }

  lemma BroadcastFits(h: Hasher, net: Network, n: Id, audience: seq<(Id, SocketAddr)>, order: seq<Pair>,
                      clock: nat -> int, after: Nodes, ids: set<string>)
    requires AudienceOk(net, audience) && n in ids && after.Keys <= ids && Elems(order) == Pairs(after)
    ensures forall m | m in Copies(n, audience, NewCommand(h, Records(order, clock))) :: Fits(m, net, ids)
  {
    hide NewCommand, Records, Copies;
    BroadcastNames(h, order, clock, after);
    CopiesClosed(net, ids, n, audience, NewCommand(h, Records(order, clock)));
  }

  lemma GossipStepFacts(cx: Context, net: Network, net': Network, c: Choice, ids: set<string>)
    requires Closed(net, ids) && c.HandleGossip? && GossipStep(cx, net, net', c)
    ensures Closed(net', ids) && |net'.acks| == |net.acks|
    ensures |Unaware(net', ids)| <= |Unaware(net, ids)|
    ensures if PassedOn(cx, net, c) then |Unaware(net', ids)| < |Unaware(net, ids)| else |net'.gossip| == |net.gossip| - 1
  {
    hide AfterGossip, PassesOn, NewCommand, Copies, Records, Unaware, Dials, Edges, Accepted, WithSender;
    var m := c.g;
    var nodes := net.regs[m.to];
    var after := AfterGossip(cx.h, nodes, m, cx.scopeOf, c.now);
    var sent := Copies(m.to, c.audience, NewCommand(cx.h, Records(c.order, c.clock)));
    GossipLearns(cx, nodes, m, c.now, ids);
    UnawareShrinks(net, net', m.to, after, ids);
    BroadcastFits(cx.h, net, m.to, c.audience, c.order, c.clock, after, ids);
    ClosedAfter(net, net', m.to, after, sent, ids);
  }

  lemma AckStepFacts(cx: Context, net: Network, net': Network, c: Choice, ids: set<string>)
    requires Closed(net, ids) && c.HandleAck? && AckStep(cx, net, net', c)
    ensures Closed(net', ids) && |net'.acks| == |net.acks| - 1
    ensures |Unaware(net', ids)| <= |Unaware(net, ids)|
  {
    hide AfterAck, AckPassesOn, NewCommand, Copies, Records, Unaware, Dials, Edges, Accepted, WithResponder;
    var m := c.a;
    var nodes := net.regs[m.to];
    var after := AfterAck(cx.h, nodes, m, cx.scopeOf, c.now);
    var sent := Copies(m.to, c.audience, NewCommand(cx.h, Records(c.order, c.clock)));
    AckLearns(cx, nodes, m, c.now, ids);
    UnawareShrinks(net, net', m.to, after, ids);
    BroadcastFits(cx.h, net, m.to, c.audience, c.order, c.clock, after, ids);
    ClosedAfter(net, net', m.to, after, sent, ids);
  }

  /** No infinite run: whatever the surroundings choose, some step is impossible. */
  lemma FloodTerminates(cx: Context, nets: nat -> Network, choices: nat -> Choice, ids: set<string>)
    requires Closed(nets(0), ids)
    ensures exists i: nat :: !Step(cx, nets(i), nets(i + 1), choices(i))
  {
    var i := StopsFrom(cx, nets, choices, ids, 0);
  }

  lemma StopsFrom(cx: Context, nets: nat -> Network, choices: nat -> Choice, ids: set<string>, i: nat) returns (j: nat)
    requires Closed(nets(i), ids)
    ensures !Step(cx, nets(j), nets(j + 1), choices(j))
    decreases |nets(i).acks|, |Unaware(nets(i), ids)|, |nets(i).gossip|
  {
    hide Step, Closed, Unaware;
    if Step(cx, nets(i), nets(i + 1), choices(i)) {
      StepDecreases(cx, nets(i), nets(i + 1), choices(i), ids);
      j := StopsFrom(cx, nets, choices, ids, i + 1);
    } else {
      j := i;
    }
  }

  // ---------------------------------------------------------------- finite runs

  ghost predicate IsRun(cx: Context, nets: seq<Network>, choices: seq<Choice>) {
    && |nets| == |choices| + 1
    && forall i | 0 <= i < |choices| :: Step(cx, nets[i], nets[i + 1], choices[i])
  }

  /** How many handler steps of a run ended in a broadcast. */
  ghost function Broadcasts(cx: Context, nets: seq<Network>, choices: seq<Choice>): nat
    requires |nets| == |choices| + 1
    decreases |choices|
  {
    if choices == [] then 0
    else (if PassedOn(cx, nets[0], choices[0]) then 1 else 0) + Broadcasts(cx, nets[1..], choices[1..])
  }

  /** The number of broadcasts of a run is paid for in acks and in first meetings of nodes. */
  lemma {:induction false} BroadcastsBounded(cx: Context, nets: seq<Network>, choices: seq<Choice>, ids: set<string>)
    requires IsRun(cx, nets, choices) && Closed(nets[0], ids)
    ensures Closed(nets[|choices|], ids)
    ensures Broadcasts(cx, nets, choices) + |nets[|choices|].acks| + |Unaware(nets[|choices|], ids)|
         <= |nets[0].acks| + |Unaware(nets[0], ids)|
    decreases |choices|
  {
    hide Step, Closed, Unaware, PassedOn;
    if choices != [] {
      StepDecreases(cx, nets[0], nets[1], choices[0], ids);
      forall i | 0 <= i < |choices[1..]|
        ensures Step(cx, nets[1..][i], nets[1..][i + 1], choices[1..][i])
      {
        var k := i + 1;
        assert Step(cx, nets[k], nets[k + 1], choices[k]);
      }
      BroadcastsBounded(cx, nets[1..], choices[1..], ids);
    }
  }

  // ---------------------------------------------------------------- what a step sends and dials

  function Receiver(c: Choice): Id {
    match c case HandleGossip(m, _, _, _, _) => m.to case HandleAck(m, _, _, _, _) => m.to
  }

  /** The message lists a registry: it verifies, every socket of the registry is in it, and every record is the
      printing of one of the registry's pairs. */
  ghost predicate Lists(h: Hasher, cmd: SeedsCommand, pairs: set<Pair>) {
    && h(HashText(cmd.seeds)) == cmd.hash
    && (forall p | p in pairs :: exists r | r in cmd.seeds :: r.address == p.0.Text())
    && (forall r | r in cmd.seeds :: exists p | p in pairs :: r.address == p.0.Text() && r.nodeAddress == p.1)
  }

  lemma RecordsListed(order: seq<Pair>, clock: nat -> int)
    ensures forall r | r in Records(order, clock) :: exists p | p in Elems(order) :: r.address == p.0.Text() && r.nodeAddress == p.1
    ensures forall p | p in Elems(order) :: p.0.Text() in KeySet(RecordAddress, Records(order, clock))
  {
    forall r | r in Records(order, clock)
      ensures exists p | p in Elems(order) :: r.address == p.0.Text() && r.nodeAddress == p.1
    {
      var i :| 0 <= i < |order| && Records(order, clock)[i] == r;
      assert order[i] in Elems(order);
    }
    forall p | p in Elems(order)
      ensures p.0.Text() in KeySet(RecordAddress, Records(order, clock))
    {
      var i :| 0 <= i < |order| && order[i] == p;
      assert Records(order, clock)[i] in Records(order, clock);
    }
  }

  lemma CommandRecords(h: Hasher, rs: seq<SeedRecord>)
    ensures var cmd := NewCommand(h, rs);
            && h(HashText(cmd.seeds)) == cmd.hash && KeySet(RecordAddress, cmd.seeds) == KeySet(RecordAddress, rs)
            && forall r | r in cmd.seeds :: r in rs
  {
    hide HashText;
    CommandKeepsFirsts(h, rs, SeedRecord("", "", 0));
    hide KeySet;
  }

  lemma CommandLists(h: Hasher, order: seq<Pair>, clock: nat -> int, pairs: set<Pair>)
    requires Enumerates(order, pairs)
    ensures Lists(h, NewCommand(h, Records(order, clock)), pairs)
  {
    RecordsListed(order, clock);
    CommandRecords(h, Records(order, clock));
    hide HashText, Records, NewCommand;
    var cmd := NewCommand(h, Records(order, clock));
    forall p | p in pairs
      ensures exists r | r in cmd.seeds :: r.address == p.0.Text()
    {
      assert p.0.Text() in KeySet(RecordAddress, cmd.seeds);
    }
  }

  lemma StepSends(cx: Context, net: Network, net': Network, c: Choice)
    requires Step(cx, net, net', c) && PassedOn(cx, net, c)
    ensures Receiver(c) in net'.regs && Enumerates(c.order, Pairs(net'.regs[Receiver(c)]))
    ensures Copies(Receiver(c), c.audience, NewCommand(cx.h, Records(c.order, c.clock))) <= net'.gossip
  {
    hide NewCommand, Records, Copies, PassesOn, AckPassesOn, AfterGossip, AfterAck, Pairs, Edges, Dials, Enumerates;
    hide AudienceOk, WithSender, WithResponder, Accepted;
  }

  /** A step that passes something on leaves one message for every connected peer in flight, which lists the
      receiver's whole registry. */
  lemma BroadcastReaches(cx: Context, net: Network, net': Network, c: Choice, p: (Id, SocketAddr))
    requires Step(cx, net, net', c) && PassedOn(cx, net, c) && p in c.audience
    ensures Receiver(c) in net'.regs && exists m | m in net'.gossip ::
      && m.to == p.0 && m.from == Receiver(c) && m.sender == p.1
      && m.cmd.Some? && Lists(cx.h, m.cmd.value, Pairs(net'.regs[Receiver(c)]))
  {
    hide *;
    var cmd := NewCommand(cx.h, Records(c.order, c.clock));
    StepSends(cx, net, net', c);
    CommandLists(cx.h, c.order, c.clock, Pairs(net'.regs[Receiver(c)]));
    CopiesHas(Receiver(c), c.audience, cmd, p);
    assert GossipMsg(p.0, Receiver(c), p.1, Some(cmd)) in net'.gossip;
  }

  lemma CopiesHas(from: Id, audience: seq<(Id, SocketAddr)>, cmd: SeedsCommand, p: (Id, SocketAddr))
    requires p in audience
    ensures GossipMsg(p.0, from, p.1, Some(cmd)) in Copies(from, audience, cmd)
  {
    var copy := (q: (Id, SocketAddr)) => GossipMsg(q.0, from, q.1, Some(cmd));
    var i :| 0 <= i < |audience| && audience[i] == p;
    assert Map(copy, audience)[i] == GossipMsg(p.0, from, p.1, Some(cmd));
    assert Copies(from, audience, cmd) == multiset(Map(copy, audience));
  }

  /** The registry from which a step judges whom to dial, and the list it goes through. */
  function Judged(cx: Context, net: Network, c: Choice): Nodes
    requires Receiver(c) in net.regs
  {
    match c
    case HandleGossip(m, _, _, _, now) => WithSender(net.regs[m.to], m, cx.scopeOf, now)
    case HandleAck(m, _, _, _, now) => WithResponder(net.regs[m.to], m, cx.scopeOf, now)
  }

  function Carried(c: Choice): Option<SeedsCommand> {
    match c case HandleGossip(m, _, _, _, _) => m.cmd case HandleAck(m, _, _, _, _) => m.cmd
  }

  /** The dials a step adds: from its receiver to every larger, unconnected node that a verified list names readably. */
  lemma DialsRecorded(cx: Context, net: Network, net': Network, c: Choice, a: Id, b: Id)
    requires Step(cx, net, net', c) && Receiver(c) in net.regs
    ensures (a, b) in net'.dialled
       <==> || (a, b) in net.dialled
            || (&& a == Receiver(c) && Carried(c).Some? && cx.h(HashText(Carried(c).value.seeds)) == Carried(c).value.hash
                && Less(a, b) && !IsConnected(Judged(cx, net, c), b)
                && exists r | r in Carried(c).value.seeds :: r.nodeAddress == b && ParseSocketAddr(r.address).Some?)
  {
    var nodes, rs := Judged(cx, net, c), Accepted(cx.h, Carried(c));
    AcceptedExactly(cx.h, Carried(c));
    assert net'.dialled == net.dialled + Edges(Receiver(c), Dials(nodes, Receiver(c), rs));
    hide Step, Judged, Accepted, Less, ParseSocketAddr, HashText, IsConnected;
    TargetsExactly(nodes, Receiver(c), rs, b);
    hide Dials, Targets;
  }

  lemma TargetsExactly(nodes: Nodes, me: Id, rs: seq<SeedRecord>, b: Id)
    ensures b in Targets(Dials(nodes, me, rs))
       <==> Less(me, b) && !IsConnected(nodes, b) && exists r | r in rs :: r.nodeAddress == b && ParseSocketAddr(r.address).Some?
  {
    hide Dials, Less, IsConnected, ParseSocketAddr;
    if d :| d in Dials(nodes, me, rs) && d.node == b {
      DialsExactly(nodes, me, rs, d);
    }
    if r :| r in rs && r.nodeAddress == b && ParseSocketAddr(r.address).Some? {
      var i :| 0 <= i < |rs| && rs[i] == r;
      DialsExactly(nodes, me, rs, Dial(b, ParseSocketAddr(r.address).value));
    }
  }

  ghost predicate Upward(dialled: set<(Id, Id)>) {
    forall e | e in dialled :: Less(e.0, e.1)
  }

  lemma EdgesUpward(nodes: Nodes, me: Id, rs: seq<SeedRecord>)
    ensures Upward(Edges(me, Dials(nodes, me, rs)))
  {
    DialsGoUp(nodes, me, rs);
  }

  /** Over every run the merges dial only from a smaller to a larger address,
      so no two nodes ever dial each other through them. */
  lemma {:induction false} DialsNeverCross(cx: Context, nets: seq<Network>, choices: seq<Choice>, i: nat)
    requires IsRun(cx, nets, choices) && i < |nets| && nets[0].dialled == {}
    ensures Upward(nets[i].dialled)
    ensures forall a, b | (a, b) in nets[i].dialled :: (b, a) !in nets[i].dialled
  {
    hide Step, Less;
    if i > 0 {
      DialsNeverCross(cx, nets, choices, i - 1);
      assert Step(cx, nets[i - 1], nets[i - 1 + 1], choices[i - 1]);
      StepUpward(cx, nets[i - 1], nets[i], choices[i - 1]);
    }
    forall a, b | (a, b) in nets[i].dialled
      ensures (b, a) !in nets[i].dialled
    {
      LessAsymmetric(a, b);
    }
  }

  lemma StepUpward(cx: Context, net: Network, net': Network, c: Choice)
    requires Step(cx, net, net', c) && Upward(net.dialled)
    ensures Upward(net'.dialled)
  {
    match c
    case HandleGossip(m, _, _, _, now) =>
      EdgesUpward(WithSender(net.regs[m.to], m, cx.scopeOf, now), m.to, Accepted(cx.h, m.cmd));
    case HandleAck(m, _, _, _, now) =>
      EdgesUpward(WithResponder(net.regs[m.to], m, cx.scopeOf, now), m.to, Accepted(cx.h, m.cmd));
  }
}
