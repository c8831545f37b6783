/** The seed gossip: what a node learns from it, when it passes it on, whom it dials, and why the flood ends. */
module Gossip {
  import opened Collections
  import opened Text
  import opened Dedup
  import opened Net
  import opened Registry
  import opened SeedSets
  import opened SeedsCommands

  // ---------------------------------------------------------------- the gossip branch of the OnLine handler

  function LearnOne(nodes: Nodes, r: SeedRecord, scopeOf: Ip -> Scope, now: nat): Nodes {
    if r.nodeAddress in nodes then nodes
    else
      match ParseSocketAddr(r.address)
      case Some(addr) => Apply(nodes, Register(r.nodeAddress, addr, scopeOf(addr.ip), Unknown, now))
      case None => nodes
  }

  function Learn(nodes: Nodes, rs: seq<SeedRecord>, scopeOf: Ip -> Scope, now: nat): Nodes
    decreases |rs|
  {
    if rs == [] then nodes else Learn(LearnOne(nodes, rs[0], scopeOf, now), rs[1..], scopeOf, now)
  }

  /** The first readable socket that a list gives for a node. */
  function FirstReadable(rs: seq<SeedRecord>, node: string): Option<SocketAddr> {
    if rs == [] then None
    else if rs[0].nodeAddress == node && ParseSocketAddr(rs[0].address).Some? then ParseSocketAddr(rs[0].address)
    else FirstReadable(rs[1..], node)
  }

  /** What gossip teaches, node by node: entries already there stay as they are,
      and an unknown node is entered with its first readable socket alone. */
  lemma {:induction false} LearnExactly(nodes: Nodes, rs: seq<SeedRecord>, scopeOf: Ip -> Scope, now: nat, node: string)
    ensures var after := Learn(nodes, rs, scopeOf, now);
            if node in nodes then node in after && after[node] == nodes[node]
            else match FirstReadable(rs, node)
              case None => node !in after
              case Some(addr) =>
                node in after && after[node] == NodeEntry(node, map[addr := {Unknown}], false, scopeOf(addr.ip), now)
    decreases |rs|
  {
    if rs != [] {
      var none: set<Direction> := {};
      assert none + {Unknown} == {Unknown};
      LearnExactly(LearnOne(nodes, rs[0], scopeOf, now), rs[1..], scopeOf, now, node);
    }
  }

  lemma LearnKeys(nodes: Nodes, rs: seq<SeedRecord>, scopeOf: Ip -> Scope, now: nat)
    requires Keyed(nodes)
    ensures var after := Learn(nodes, rs, scopeOf, now);
            Keyed(after) && nodes.Keys <= after.Keys <= nodes.Keys + KeySet(NodeOf, rs)
    ensures var after := Learn(nodes, rs, scopeOf, now);
            Pairs(nodes) <= Pairs(after) && (Pairs(nodes) == Pairs(after) <==> nodes.Keys == after.Keys)
  {
    var after := Learn(nodes, rs, scopeOf, now);
    forall node
      ensures node in nodes ==> node in after && after[node] == nodes[node]
      ensures node in after && node !in nodes ==>
        after[node].address == node && node in KeySet(NodeOf, rs)
        && exists addr :: (addr, node) in Pairs(after) && (addr, node) !in Pairs(nodes)
    {
      LearnExactly(nodes, rs, scopeOf, now, node);
      if node in after && node !in nodes {
        FirstReadableNames(rs, node);
        var addr := FirstReadable(rs, node).value;
        assert addr in after[node].seeds;
        assert (addr, node) in Pairs(after) && (addr, node) !in Pairs(nodes);
      }
    }
    assert Pairs(nodes) <= Pairs(after) by {
      forall p | p in Pairs(nodes)
        ensures p in Pairs(after)
      {
        assert p.1 in nodes && p.0 in nodes[p.1].seeds;
      }
    }
    if nodes.Keys == after.Keys {
      assert forall p | p in Pairs(after) :: p.1 in nodes && p in Pairs(nodes);
    }
  }

  lemma {:induction false} FirstReadableNames(rs: seq<SeedRecord>, node: string)
    ensures FirstReadable(rs, node).Some?
       <==> exists r | r in rs :: r.nodeAddress == node && ParseSocketAddr(r.address).Some?
    ensures FirstReadable(rs, node).Some? ==> node in KeySet(NodeOf, rs)
  {
    hide ParseSocketAddr;
    if rs != [] {
      FirstReadableNames(rs[1..], node);
      assert rs == [rs[0]] + rs[1..];
      KeySetCons(NodeOf, rs[0], rs[1..]);
    }
  }

  datatype GossipMsg = GossipMsg(to: string, from: string, sender: SocketAddr, cmd: Option<SeedsCommand>)

  /** The sender is registered before anything is counted. */
  function WithSender(nodes: Nodes, m: GossipMsg, scopeOf: Ip -> Scope, now: nat): Nodes {
    Apply(nodes, Register(m.from, m.sender, scopeOf(m.sender.ip), Unknown, now))
  }

  function Accepted(h: Hasher, cmd: Option<SeedsCommand>): seq<SeedRecord> {
    if cmd.Some? && VerifyCommand(h, cmd.value) then cmd.value.seeds else []
  }

  function AfterGossip(h: Hasher, nodes: Nodes, m: GossipMsg, scopeOf: Ip -> Scope, now: nat): Nodes {
    Learn(WithSender(nodes, m, scopeOf, now), Accepted(h, m.cmd), scopeOf, now)
  }

  /** The handler's own test: the number of listed seeds went up after the sender was registered. */
  predicate PassesOn(h: Hasher, nodes: Nodes, m: GossipMsg, scopeOf: Ip -> Scope, now: nat) {
    |Pairs(AfterGossip(h, nodes, m, scopeOf, now))| > |Pairs(WithSender(nodes, m, scopeOf, now))|
  }

  lemma LearnGrowsIff(nodes: Nodes, rs: seq<SeedRecord>, scopeOf: Ip -> Scope, now: nat)
    ensures Learn(nodes, rs, scopeOf, now).Keys != nodes.Keys
       <==> exists r | r in rs :: ParseSocketAddr(r.address).Some? && r.nodeAddress !in nodes
  {
    hide ParseSocketAddr, Learn, FirstReadable;
    var after := Learn(nodes, rs, scopeOf, now);
    forall node
      ensures node in after && node !in nodes
         <==> node !in nodes && exists r | r in rs :: r.nodeAddress == node && ParseSocketAddr(r.address).Some?
      ensures node in nodes ==> node in after
    {
      LearnExactly(nodes, rs, scopeOf, now, node);
      FirstReadableNames(rs, node);
    }
    if r :| r in rs && ParseSocketAddr(r.address).Some? && r.nodeAddress !in nodes {
      assert r.nodeAddress in after;
    }
  }

  lemma CountGrowsIff(nodes: Nodes, rs: seq<SeedRecord>, scopeOf: Ip -> Scope, now: nat)
    requires Keyed(nodes)
    ensures |Pairs(Learn(nodes, rs, scopeOf, now))| > |Pairs(nodes)|
       <==> Learn(nodes, rs, scopeOf, now).Keys != nodes.Keys
  {
    LearnKeys(nodes, rs, scopeOf, now);
    SubsetSize(Pairs(nodes), Pairs(Learn(nodes, rs, scopeOf, now)));
  }

  /** A list counts exactly if there is one and its hash is that of its records; otherwise nothing of it is used. */
  lemma AcceptedExactly(h: Hasher, cmd: Option<SeedsCommand>)
    ensures cmd.Some? && h(HashText(cmd.value.seeds)) == cmd.value.hash ==> Accepted(h, cmd) == cmd.value.seeds
    ensures cmd.None? || h(HashText(cmd.value.seeds)) != cmd.value.hash ==> Accepted(h, cmd) == []
  {
  }

  /** A node passes gossip on exactly if a verified list names, with a readable socket, a node
      that neither its registry nor the sender's own registration accounts for. */
  lemma PassesOnIffNewNode(h: Hasher, nodes: Nodes, m: GossipMsg, scopeOf: Ip -> Scope, now: nat)
    requires Keyed(nodes)
    ensures PassesOn(h, nodes, m, scopeOf, now)
       <==> && m.cmd.Some? && h(HashText(m.cmd.value.seeds)) == m.cmd.value.hash
            && exists r | r in m.cmd.value.seeds ::
                 ParseSocketAddr(r.address).Some? && r.nodeAddress !in nodes && r.nodeAddress != m.from
  {
    AcceptedExactly(h, m.cmd);
    hide ParseSocketAddr, Learn, Accepted;
    var before, rs := WithSender(nodes, m, scopeOf, now), Accepted(h, m.cmd);
    ApplyPairs(nodes, Register(m.from, m.sender, scopeOf(m.sender.ip), Unknown, now));
    assert before.Keys == nodes.Keys + {m.from};
    CountGrowsIff(before, rs, scopeOf, now);
    LearnGrowsIff(before, rs, scopeOf, now);
  }

  /** The sender is entered, or its entry extended, by the socket it advertises; nobody else's entry changes. */
  lemma WithSenderExactly(nodes: Nodes, m: GossipMsg, scopeOf: Ip -> Scope, now: nat)
    ensures var after := WithSender(nodes, m, scopeOf, now);
            && after.Keys == nodes.Keys + {m.from} && (forall n | n in nodes && n != m.from :: after[n] == nodes[n])
            && (forall a :: Directions(after, m.from, a)
                         == Directions(nodes, m.from, a) + if a == m.sender then {Unknown} else {})
            && (after[m.from].isConnected <==> m.from in nodes && nodes[m.from].isConnected)
            && after[m.from].scope == (if m.from in nodes then nodes[m.from].scope else scopeOf(m.sender.ip))
            && after[m.from].lastSeen == now
  {
    RegisterEffect(nodes, m.from, m.sender, scopeOf(m.sender.ip), Unknown, now);
  }

  /** The registry after the gossip branch, node by node: the sender by its own registration, everybody known as
      before, and an unknown node with the first readable socket that a verified list gives for it. */
  lemma AfterGossipExactly(h: Hasher, nodes: Nodes, m: GossipMsg, scopeOf: Ip -> Scope, now: nat, node: string)
    ensures var after := AfterGossip(h, nodes, m, scopeOf, now);
            && m.from in after && after[m.from] == WithSender(nodes, m, scopeOf, now)[m.from]
            && (node in nodes && node != m.from ==> node in after && after[node] == nodes[node])
            && (node !in nodes && node != m.from ==>
                  if m.cmd.Some? && h(HashText(m.cmd.value.seeds)) == m.cmd.value.hash
                     && FirstReadable(m.cmd.value.seeds, node).Some?
                  then
                    var addr := FirstReadable(m.cmd.value.seeds, node).value;
                    node in after && after[node] == NodeEntry(node, map[addr := {Unknown}], false, scopeOf(addr.ip), now)
                  else node !in after)
  {
    AcceptedExactly(h, m.cmd);
    WithSenderExactly(nodes, m, scopeOf, now);
    var before, rs := WithSender(nodes, m, scopeOf, now), Accepted(h, m.cmd);
    LearnExactly(before, rs, scopeOf, now, m.from);
    LearnExactly(before, rs, scopeOf, now, node);
    NothingReadable(node);
    hide Learn, WithSender, Accepted, FirstReadable, HashText;
  }

  lemma NothingReadable(node: string)
    ensures FirstReadable([], node) == None
  {
  }

  // ---------------------------------------------------------------- the merge of the OnLineAck handler

  function MergeOne(nodes: Nodes, r: SeedRecord, scopeOf: Ip -> Scope, now: nat): Nodes {
    match ParseSocketAddr(r.address)
    case Some(addr) => Apply(nodes, Register(r.nodeAddress, addr, scopeOf(addr.ip), Unknown, now))
    case None => nodes
  }

  function MergeAll(nodes: Nodes, rs: seq<SeedRecord>, scopeOf: Ip -> Scope, now: nat): Nodes
    decreases |rs|
  {
    if rs == [] then nodes else MergeAll(MergeOne(nodes, rs[0], scopeOf, now), rs[1..], scopeOf, now)
  }

  function Readable(rs: seq<SeedRecord>): set<Pair> {
    set r | r in rs && ParseSocketAddr(r.address).Some? :: (ParseSocketAddr(r.address).value, r.nodeAddress)
  }

  function ReadableOne(r: SeedRecord): set<Pair> {
    match ParseSocketAddr(r.address)
    case Some(addr) => {(addr, r.nodeAddress)}
    case None => {}
  }

  lemma ReadableCons(r: SeedRecord, rest: seq<SeedRecord>)
    ensures Readable([r] + rest) == ReadableOne(r) + Readable(rest)
  {
    hide ParseSocketAddr;
  }

  lemma MergeOneFacts(nodes: Nodes, r: SeedRecord, scopeOf: Ip -> Scope, now: nat)
    requires Keyed(nodes)
    ensures var after := MergeOne(nodes, r, scopeOf, now);
            Keyed(after) && Pairs(after) == Pairs(nodes) + ReadableOne(r)
            && nodes.Keys <= after.Keys <= nodes.Keys + {r.nodeAddress}
    ensures forall n :: IsConnected(MergeOne(nodes, r, scopeOf, now), n) <==> IsConnected(nodes, n)
  {
    hide ParseSocketAddr;
    if ParseSocketAddr(r.address).Some? {
      var addr := ParseSocketAddr(r.address).value;
      ApplyPairs(nodes, Register(r.nodeAddress, addr, scopeOf(addr.ip), Unknown, now));
    }
  }

  /** Unlike gossip, an ack teaches every readable socket of every node, and touches no connection flag. */
  lemma {:induction false} MergeAllPairs(nodes: Nodes, rs: seq<SeedRecord>, scopeOf: Ip -> Scope, now: nat)
    requires Keyed(nodes)
    ensures var after := MergeAll(nodes, rs, scopeOf, now);
            Keyed(after) && Pairs(after) == Pairs(nodes) + Readable(rs)
    ensures var after := MergeAll(nodes, rs, scopeOf, now);
            nodes.Keys <= after.Keys <= nodes.Keys + KeySet(NodeOf, rs)
    ensures forall n :: IsConnected(MergeAll(nodes, rs, scopeOf, now), n) <==> IsConnected(nodes, n)
    decreases |rs|
  {
    if rs != [] {
      hide MergeOne, ReadableOne, Pairs;
      var r := rs[0];
      assert rs == [r] + rs[1..];
      KeySetCons(NodeOf, r, rs[1..]);
      ReadableCons(r, rs[1..]);
      MergeOneFacts(nodes, r, scopeOf, now);
      MergeAllPairs(MergeOne(nodes, r, scopeOf, now), rs[1..], scopeOf, now);
    }
  }

  datatype AckMsg = AckMsg(to: string, from: string, sender: SocketAddr, announced: seq<string>, cmd: Option<SeedsCommand>)

  /** An announced IP gets the connection's port; what does not read as a socket is replaced by the connection's own. */
  function AnnouncedSocket(ip: string, sender: SocketAddr): SocketAddr {
    match ParseSocketAddr(HostPort(ip, sender.port)) case Some(addr) => addr case None => sender
  }

  /** An announced IPv4 address becomes a socket on the connection's port. An IPv6 address does not: without
      brackets the text cannot be read, so the connection's own socket stands in for it. */
  lemma AnnouncedExactly(ip: Ip, sender: SocketAddr)
    ensures AnnouncedSocket(ip.Text(), sender) == if ip.V4? then SocketAddr(ip, sender.port) else sender
  {
    ParseUnbracketed(SocketAddr(ip, sender.port));
  }

  function AnnouncedOps(from: string, announced: seq<string>, sender: SocketAddr, now: nat): seq<Op> {
    if announced == [] then []
    else
      var rest := AnnouncedOps(from, announced[1..], sender, now);
      if IsLoopbackText(announced[0]) then rest else [AddSeed(from, AnnouncedSocket(announced[0], sender), now)] + rest
  }

  /** The sockets a responder's announcement stands for. */
  function AnnouncedSockets(announced: seq<string>, sender: SocketAddr): set<SocketAddr> {
    set ip | ip in announced && !IsLoopbackText(ip) :: AnnouncedSocket(ip, sender)
  }

  /** Before the merge the responder is marked connected, entered as outbound, and given its announced sockets. */
  function WithResponder(nodes: Nodes, m: AckMsg, scopeOf: Ip -> Scope, now: nat): Nodes {
    Run(nodes, [TryConnect(m.from, now), Register(m.from, m.sender, scopeOf(m.sender.ip), Outbound, now)]
               + AnnouncedOps(m.from, m.announced, m.sender, now))
  }

  function AfterAck(h: Hasher, nodes: Nodes, m: AckMsg, scopeOf: Ip -> Scope, now: nat): Nodes {
    MergeAll(WithResponder(nodes, m, scopeOf, now), Accepted(h, m.cmd), scopeOf, now)
  }

  predicate AckPassesOn(h: Hasher, nodes: Nodes, m: AckMsg, scopeOf: Ip -> Scope, now: nat) {
    |Pairs(AfterAck(h, nodes, m, scopeOf, now))| > |Pairs(WithResponder(nodes, m, scopeOf, now))|
  }

  lemma AnnouncedCons(ip: string, rest: seq<string>, sender: SocketAddr)
    ensures AnnouncedSockets([ip] + rest, sender)
         == (if IsLoopbackText(ip) then {} else {AnnouncedSocket(ip, sender)}) + AnnouncedSockets(rest, sender)
  {
    hide IsLoopbackText, AnnouncedSocket;
  }

  lemma {:induction false} AnnouncedPairs(nodes: Nodes, from: string, announced: seq<string>, sender: SocketAddr, now: nat)
    requires Keyed(nodes) && from in nodes
    ensures var after := Run(nodes, AnnouncedOps(from, announced, sender, now));
            && Keyed(after) && after.Keys == nodes.Keys
            && Pairs(after) == Pairs(nodes) + WithNode(AnnouncedSockets(announced, sender), from)
    decreases |announced|
  {
    hide IsLoopbackText, AnnouncedSocket, Pairs;
    if announced != [] {
      var ip, more := announced[0], announced[1..];
      assert announced == [ip] + more;
      AnnouncedCons(ip, more, sender);
      if IsLoopbackText(ip) {
        AnnouncedPairs(nodes, from, more, sender, now);
      } else {
        var op := AddSeed(from, AnnouncedSocket(ip, sender), now);
        ApplyPairs(nodes, op);
        RunFirst(nodes, op, AnnouncedOps(from, more, sender, now));
        AnnouncedPairs(Apply(nodes, op), from, more, sender, now);
      }
    }
  }

  function WithNode(addrs: set<SocketAddr>, node: string): set<Pair> {
    set addr | addr in addrs :: (addr, node)
  }

  /** The first two operations on a responder, before its announcement is read. */
  function Entered(nodes: Nodes, m: AckMsg, scopeOf: Ip -> Scope, now: nat): Nodes {
    Apply(Apply(nodes, TryConnect(m.from, now)), Register(m.from, m.sender, scopeOf(m.sender.ip), Outbound, now))
  }

  lemma EnteredPairs(nodes: Nodes, m: AckMsg, scopeOf: Ip -> Scope, now: nat)
    requires Keyed(nodes)
    ensures var after := Entered(nodes, m, scopeOf, now);
            Keyed(after) && after.Keys == nodes.Keys + {m.from} && Pairs(after) == Pairs(nodes) + {(m.sender, m.from)}
  {
    hide Pairs;
    var first := TryConnect(m.from, now);
    ApplyPairs(nodes, first);
    ApplyPairs(Apply(nodes, first), Register(m.from, m.sender, scopeOf(m.sender.ip), Outbound, now));
  }

  lemma WithResponderRun(nodes: Nodes, m: AckMsg, scopeOf: Ip -> Scope, now: nat)
    ensures WithResponder(nodes, m, scopeOf, now)
         == Run(Entered(nodes, m, scopeOf, now), AnnouncedOps(m.from, m.announced, m.sender, now))
  {
    hide Apply, AnnouncedOps;
    var first, second := TryConnect(m.from, now), Register(m.from, m.sender, scopeOf(m.sender.ip), Outbound, now);
    var rest := AnnouncedOps(m.from, m.announced, m.sender, now);
    assert [first, second] + rest == [first] + ([second] + rest);
    RunFirst(nodes, first, [second] + rest);
    RunFirst(Apply(nodes, first), second, rest);
    hide Run;
  }

  /** The responder comes in with its connection's socket and every announced socket, and nobody else changes. */
  lemma WithResponderPairs(nodes: Nodes, m: AckMsg, scopeOf: Ip -> Scope, now: nat)
    requires Keyed(nodes)
    ensures Keyed(WithResponder(nodes, m, scopeOf, now))
    ensures WithResponder(nodes, m, scopeOf, now).Keys == nodes.Keys + {m.from}
    ensures Pairs(WithResponder(nodes, m, scopeOf, now))
         == Pairs(nodes) + WithNode({m.sender} + AnnouncedSockets(m.announced, m.sender), m.from)
  {
    hide *;
    EnteredPairs(nodes, m, scopeOf, now);
    WithResponderRun(nodes, m, scopeOf, now);
    AnnouncedPairs(Entered(nodes, m, scopeOf, now), m.from, m.announced, m.sender, now);
    OneMoreSocket(m.sender, AnnouncedSockets(m.announced, m.sender), m.from);
  }

  /** The responder ends up connected, its connection's socket marked as outbound; other entries do not change. */
  lemma ResponderConnected(nodes: Nodes, m: AckMsg, scopeOf: Ip -> Scope, now: nat)
    requires Keyed(nodes)
    ensures var after := WithResponder(nodes, m, scopeOf, now);
            && m.from in after && after[m.from].isConnected && Outbound in Directions(after, m.from, m.sender)
            && forall n | n in nodes && n != m.from :: n in after && after[n] == nodes[n]
  {
    var first := TryConnect(m.from, now);
    TryConnectEffect(nodes, m.from, now);
    RegisterEffect(Apply(nodes, first), m.from, m.sender, scopeOf(m.sender.ip), Outbound, now);
    WithResponderRun(nodes, m, scopeOf, now);
    AnnouncedKeeps(Entered(nodes, m, scopeOf, now), m.from, m.announced, m.sender, now, m.sender);
    hide AnnouncedOps, WithResponder, Apply;
  }

  lemma {:induction false} AnnouncedKeeps(nodes: Nodes, from: string, announced: seq<string>, sender: SocketAddr, now: nat, addr: SocketAddr)
    requires from in nodes
    ensures var after := Run(nodes, AnnouncedOps(from, announced, sender, now));
            && after.Keys == nodes.Keys && (after[from].isConnected <==> nodes[from].isConnected)
            && Directions(nodes, from, addr) <= Directions(after, from, addr)
            && forall n | n in nodes && n != from :: after[n] == nodes[n]
    decreases |announced|
  {
    hide IsLoopbackText, AnnouncedSocket, Directions;
    if announced != [] {
      var more := announced[1..];
      if IsLoopbackText(announced[0]) {
        AnnouncedKeeps(nodes, from, more, sender, now, addr);
      } else {
        var op := AddSeed(from, AnnouncedSocket(announced[0], sender), now);
        AddSeedEffect(nodes, from, AnnouncedSocket(announced[0], sender), now);
        assert nodes[from].(seeds := map[], lastSeen := now).isConnected == nodes[from].isConnected;
        assert Apply(nodes, op)[from].(seeds := map[]).isConnected == Apply(nodes, op)[from].isConnected;
        RunFirst(nodes, op, AnnouncedOps(from, more, sender, now));
        hide Apply;
        AnnouncedKeeps(Apply(nodes, op), from, more, sender, now, addr);
      }
    }
  }

  lemma OneMoreSocket(addr: SocketAddr, addrs: set<SocketAddr>, node: string)
    ensures WithNode({addr} + addrs, node) == {(addr, node)} + WithNode(addrs, node)
  {
  }

  /** An ack is passed on exactly if its verified list holds a readable pair not yet in the registry. */
  lemma AckPassesOnIffNewPair(h: Hasher, nodes: Nodes, m: AckMsg, scopeOf: Ip -> Scope, now: nat)
    requires Keyed(nodes)
    ensures AckPassesOn(h, nodes, m, scopeOf, now)
       <==> && m.cmd.Some? && h(HashText(m.cmd.value.seeds)) == m.cmd.value.hash
            && exists p | p in Readable(m.cmd.value.seeds) ::
                 p !in Pairs(nodes) && !(p.1 == m.from && p.0 in {m.sender} + AnnouncedSockets(m.announced, m.sender))
  {
    AcceptedExactly(h, m.cmd);
    assert Readable([]) == {};
    assert forall p :: p in WithNode({m.sender} + AnnouncedSockets(m.announced, m.sender), m.from)
                  <==> p.1 == m.from && p.0 in {m.sender} + AnnouncedSockets(m.announced, m.sender);
    hide Accepted, WithResponder, MergeAll, Readable, Pairs;
    var before, rs := WithResponder(nodes, m, scopeOf, now), Accepted(h, m.cmd);
    WithResponderPairs(nodes, m, scopeOf, now);
    MergeAllPairs(before, rs, scopeOf, now);
    UnionSize(Pairs(before), Readable(rs));
  }

  function Item(r: SeedRecord): Listed {
    Listed(r.nodeAddress, ParseSocketAddr(r.address))
  }

  lemma {:induction false} MergeIsRegistering(nodes: Nodes, rs: seq<SeedRecord>, scopeOf: Ip -> Scope, now: nat)
    ensures MergeAll(nodes, rs, scopeOf, now) == RegisterListed(nodes, Map(Item, rs), scopeOf, now)
    decreases |rs|
  {
    if rs != [] {
      assert Map(Item, rs)[0] == Item(rs[0]) && Map(Item, rs)[1..] == Map(Item, rs[1..]);
      assert MergeOne(nodes, rs[0], scopeOf, now) == RegisterOne(nodes, Item(rs[0]), scopeOf, now);
      hide MergeOne, RegisterOne, Item;
      MergeIsRegistering(MergeOne(nodes, rs[0], scopeOf, now), rs[1..], scopeOf, now);
    }
  }

  lemma ItemsListed(rs: seq<SeedRecord>)
    ensures forall x: Listed :: x in Map(Item, rs)
                           <==> exists r | r in rs :: r.nodeAddress == x.node && ParseSocketAddr(r.address) == x.addr
  {
    hide ParseSocketAddr;
    forall x: Listed
      ensures x in Map(Item, rs) <==> exists r | r in rs :: r.nodeAddress == x.node && ParseSocketAddr(r.address) == x.addr
    {
      if x in Map(Item, rs) {
        var i :| 0 <= i < |rs| && Map(Item, rs)[i] == x;
        assert rs[i] in rs;
      }
      if r :| r in rs && r.nodeAddress == x.node && ParseSocketAddr(r.address) == x.addr {
        var i :| 0 <= i < |rs| && rs[i] == r;
        assert Map(Item, rs)[i] == x;
      }
    }
  }

  /** What the merge of an ack does to the entry of a node: every readable socket named for it gets the unknown direction
      besides those it has, an unknown node comes in under the scope of its first one, and no flag changes. */
  lemma MergeExactly(nodes: Nodes, rs: seq<SeedRecord>, scopeOf: Ip -> Scope, now: nat, node: string, addr: SocketAddr)
    ensures var after := MergeAll(nodes, rs, scopeOf, now);
            && (node in after <==> node in nodes || exists r | r in rs :: r.nodeAddress == node && ParseSocketAddr(r.address).Some?)
            && (IsConnected(after, node) <==> IsConnected(nodes, node))
            && Directions(after, node, addr) == Directions(nodes, node, addr)
                 + (if exists r | r in rs :: r.nodeAddress == node && ParseSocketAddr(r.address) == Some(addr) then {Unknown} else {})
            && (node in nodes ==> after[node].scope == nodes[node].scope)
            && (node in after && node !in nodes ==>
                  exists r | r in rs :: r.nodeAddress == node && ParseSocketAddr(r.address).Some?
                    && after[node].scope == scopeOf(ParseSocketAddr(r.address).value.ip) && after[node].lastSeen == now)
  {
    hide *;
    MergeIsRegistering(nodes, rs, scopeOf, now);
    RegisterListedEffect(nodes, Map(Item, rs), scopeOf, now, node, addr);
    ItemsListed(rs);
    if r :| r in rs && r.nodeAddress == node && ParseSocketAddr(r.address).Some? {
      assert Listed(node, ParseSocketAddr(r.address)) in Map(Item, rs);
    }
  }

  // ---------------------------------------------------------------- whom a merge dials

  datatype Dial = Dial(node: string, addr: SocketAddr)

  /** The four tests that stand before a dial, in the source's order. */
  predicate MayDial(nodes: Nodes, me: string, r: SeedRecord) {
    && !IsConnected(nodes, r.nodeAddress)
    && r.nodeAddress != me
    && !Less(r.nodeAddress, me)
    && ParseSocketAddr(r.address).Some?
  }

  function Dials(nodes: Nodes, me: string, rs: seq<SeedRecord>): seq<Dial> {
    if rs == [] then []
    else if MayDial(nodes, me, rs[0]) then
      [Dial(rs[0].nodeAddress, ParseSocketAddr(rs[0].address).value)] + Dials(nodes, me, rs[1..])
    else Dials(nodes, me, rs[1..])
  }

  /** Each record is judged by itself, so there is one dial for each record that passes, in the list's order. */
  lemma {:induction false} DialsAppend(nodes: Nodes, me: string, rs: seq<SeedRecord>, more: seq<SeedRecord>)
    ensures Dials(nodes, me, rs + more) == Dials(nodes, me, rs) + Dials(nodes, me, more)
  {
    if rs == [] {
      assert rs + more == more;
    } else {
      assert (rs + more)[0] == rs[0] && (rs + more)[1..] == rs[1..] + more;
      DialsHead(nodes, me, rs);
      DialsHead(nodes, me, rs + more);
      DialsAppend(nodes, me, rs[1..], more);
      hide Dials;
      AppendAssociative(Dials(nodes, me, [rs[0]]), Dials(nodes, me, rs[1..]), Dials(nodes, me, more));
    }
  }

  lemma DialsHead(nodes: Nodes, me: string, rs: seq<SeedRecord>)
    requires rs != []
    ensures Dials(nodes, me, rs) == Dials(nodes, me, [rs[0]]) + Dials(nodes, me, rs[1..])
  {
    hide MayDial, ParseSocketAddr;
    var rest := Dials(nodes, me, rs[1..]);
    assert [rs[0]][1..] == [] && [] + rest == rest;
  }

  /** A record is dialled exactly if its socket is readable, its node not connected, and its address larger. */
  lemma DialsOne(nodes: Nodes, me: string, r: SeedRecord)
    ensures Dials(nodes, me, [r])
         == if ParseSocketAddr(r.address).Some? && Less(me, r.nodeAddress) && !IsConnected(nodes, r.nodeAddress)
            then [Dial(r.nodeAddress, ParseSocketAddr(r.address).value)] else []
  {
    LessTotal(me, r.nodeAddress);
    LessIrreflexive(me);
    if Less(me, r.nodeAddress) {
      LessAsymmetric(me, r.nodeAddress);
    }
    hide ParseSocketAddr, Less;
    assert [r][1..] == [];
  }

  /** Exactly these dials are made. */
  lemma {:induction false} DialsExactly(nodes: Nodes, me: string, rs: seq<SeedRecord>, d: Dial)
    ensures d in Dials(nodes, me, rs)
       <==> exists i | 0 <= i < |rs| ::
              && rs[i].nodeAddress == d.node && ParseSocketAddr(rs[i].address) == Some(d.addr)
              && Less(me, d.node) && !IsConnected(nodes, d.node)
  {
    if rs != [] {
      var front, last := rs[..|rs| - 1], rs[|rs| - 1];
      assert rs == front + [last];
      DialsAppend(nodes, me, front, [last]);
      DialsOne(nodes, me, last);
      DialsExactly(nodes, me, front, d);
      hide ParseSocketAddr, Less, Dials, IsConnected;
      assert forall i | 0 <= i < |front| :: front[i] == rs[i];
    }
  }

  lemma LearnOneFlags(nodes: Nodes, r: SeedRecord, scopeOf: Ip -> Scope, now: nat)
    ensures forall n :: IsConnected(LearnOne(nodes, r, scopeOf, now), n) <==> IsConnected(nodes, n)
  {
  }

  lemma {:induction false} DialsByFlags(nodes: Nodes, nodes': Nodes, me: string, rs: seq<SeedRecord>)
    requires forall n :: IsConnected(nodes, n) <==> IsConnected(nodes', n)
    ensures Dials(nodes, me, rs) == Dials(nodes', me, rs)
  {
    if rs != [] {
      DialsByFlags(nodes, nodes', me, rs[1..]);
    }
  }

  /** A merge dials only larger addresses, unconnected, each named by a record of the list. */
  lemma {:induction false} DialsGoUp(nodes: Nodes, me: string, rs: seq<SeedRecord>)
    ensures forall d | d in Dials(nodes, me, rs) ::
      Less(me, d.node) && !IsConnected(nodes, d.node) && (d.addr, d.node) in Readable(rs)
  {
    if rs != [] {
      DialsGoUp(nodes, me, rs[1..]);
      LessTotal(me, rs[0].nodeAddress);
      assert rs == [rs[0]] + rs[1..];
      assert forall p | p in Readable(rs[1..]) :: p in Readable(rs);
    }
  }

  function Targets(dials: seq<Dial>): set<string> {
    set d | d in dials :: d.node
  }

  // ---------------------------------------------------------------- the handlers

  function Records(order: seq<Pair>, clock: nat -> int): (r: seq<SeedRecord>)
    ensures |r| == |order|
    ensures forall i | 0 <= i < |order| :: r[i] == SeedRecord(order[i].0.Text(), order[i].1, clock(i))
  {
    seq(|order|, i requires 0 <= i < |order| => SeedRecord(order[i].0.Text(), order[i].1, clock(i)))
  }

  class GossipNode {
    const me: string
    const h: Hasher
    const scopeOf: Ip -> Scope
    const registry: NodeRegistry

    constructor (me: string, h: Hasher, scopeOf: Ip -> Scope, registry: NodeRegistry)
      ensures this.me == me && this.h == h && this.scopeOf == scopeOf && this.registry == registry
    {
      this.me, this.h, this.scopeOf, this.registry := me, h, scopeOf, registry;
    }

    /** A broadcast lists the whole registry; the two counts decide whether there is one. */
    method Announce(before: nat, clock: nat -> int) returns (broadcast: Option<SeedsCommand>, ghost order: seq<Pair>)
      ensures Enumerates(order, Pairs(registry.nodes))
      ensures broadcast == if |Pairs(registry.nodes)| > before then Some(NewCommand(h, Records(order, clock))) else None
    {
      var all := registry.GetAllSeeds();
      order := all;
      DistinctSize(all);
      if |all| > before {
        var cmd := MakeCommand(h, Records(all, clock));
        broadcast := Some(cmd);
      } else {
        broadcast := None;
      }
    }

    method HandleGossip(m: GossipMsg, clock: nat -> int, now: nat)
      returns (broadcast: Option<SeedsCommand>, dials: seq<Dial>, ghost order: seq<Pair>)
      requires Keyed(registry.nodes)
      modifies registry
      ensures registry.nodes == AfterGossip(h, old(registry.nodes), m, scopeOf, now) && Keyed(registry.nodes)
      ensures broadcast.Some? <==> PassesOn(h, old(registry.nodes), m, scopeOf, now)
      ensures broadcast.Some? ==> Enumerates(order, Pairs(registry.nodes))
      ensures broadcast.Some? ==> broadcast.value == NewCommand(h, Records(order, clock))
      ensures dials == Dials(WithSender(old(registry.nodes), m, scopeOf, now), me, Accepted(h, m.cmd))
    {
      ApplyPairs(registry.nodes, Op.Register(m.from, m.sender, scopeOf(m.sender.ip), Unknown, now));
      registry.Register(m.from, m.sender, scopeOf(m.sender.ip), now);
      ghost var start := registry.nodes;
      dials, broadcast, order := [], None, [];
      if m.cmd.None? || !VerifyCommand(h, m.cmd.value) {
        return;
      }
      var before := registry.GetAllSeeds();
      DistinctSize(before);
      var rs := m.cmd.value.seeds;
      LearnKeys(start, rs, scopeOf, now);
      dials := LearnAndDial(rs, now);
      broadcast, order := Announce(|before|, clock);
    }

    method LearnAndDial(rs: seq<SeedRecord>, now: nat) returns (dials: seq<Dial>)
      modifies registry
      ensures registry.nodes == Learn(old(registry.nodes), rs, scopeOf, now)
      ensures dials == Dials(old(registry.nodes), me, rs)
    {
      dials := [];
      var i := 0;
      while i < |rs|
        invariant 0 <= i <= |rs|
        invariant Learn(registry.nodes, rs[i..], scopeOf, now) == Learn(old(registry.nodes), rs, scopeOf, now)
        invariant forall n :: IsConnected(registry.nodes, n) <==> IsConnected(old(registry.nodes), n)
        invariant dials + Dials(old(registry.nodes), me, rs[i..]) == Dials(old(registry.nodes), me, rs)
      {
        var r := rs[i];
        assert rs[i..][1..] == rs[i + 1..];
        LearnOneFlags(registry.nodes, r, scopeOf, now);
        var parsed := ParseSocketAddr(r.address);
        if r.nodeAddress !in registry.nodes {
          if parsed.Some? {
            registry.Register(r.nodeAddress, parsed.value, scopeOf(parsed.value.ip), now);
          }
        }
        i := i + 1;
        if IsConnected(registry.nodes, r.nodeAddress) {
          continue;
        }
        if r.nodeAddress == me {
          continue;
        }
        if Less(r.nodeAddress, me) {
          continue;
        }
        if parsed.Some? {
          dials := dials + [Dial(r.nodeAddress, parsed.value)];
        }
      }
    }

    /** The part of the OnLineAck handler that follows the key exchange. */
    method HandleAck(m: AckMsg, clock: nat -> int, now: nat)
      returns (broadcast: Option<SeedsCommand>, dials: seq<Dial>, ghost order: seq<Pair>)
      requires Keyed(registry.nodes)
      modifies registry
      ensures registry.nodes == AfterAck(h, old(registry.nodes), m, scopeOf, now) && Keyed(registry.nodes)
      ensures broadcast.Some? <==> AckPassesOn(h, old(registry.nodes), m, scopeOf, now)
      ensures broadcast.Some? ==> Enumerates(order, Pairs(registry.nodes))
      ensures broadcast.Some? ==> broadcast.value == NewCommand(h, Records(order, clock))
      ensures dials == Dials(WithResponder(old(registry.nodes), m, scopeOf, now), me, Accepted(h, m.cmd))
    {
      EnterResponder(m, now);
      WithResponderPairs(old(registry.nodes), m, scopeOf, now);
      ghost var start := registry.nodes;
      dials, broadcast, order := [], None, [];
      if m.cmd.None? || !VerifyCommand(h, m.cmd.value) {
        return;
      }
      var before := registry.GetAllSeeds();
      DistinctSize(before);
      var rs := m.cmd.value.seeds;
      MergeAllPairs(start, rs, scopeOf, now);
      RegisterAll(rs, now);
      broadcast, order := Announce(|before|, clock);
      DialsByFlags(start, registry.nodes, me, rs);
      dials := DialAll(rs);
    }

    method EnterResponder(m: AckMsg, now: nat)
      modifies registry
      ensures registry.nodes == WithResponder(old(registry.nodes), m, scopeOf, now)
    {
      ghost var first := TryConnect(m.from, now);
      ghost var second := Op.Register(m.from, m.sender, scopeOf(m.sender.ip), Outbound, now);
      ghost var rest := AnnouncedOps(m.from, m.announced, m.sender, now);
      assert [first, second] + rest == [first] + ([second] + rest);
      RunFirst(registry.nodes, first, [second] + rest);
      RunFirst(Apply(registry.nodes, first), second, rest);
      var _ := registry.TryConnect(m.from, now);
      registry.RegisterWithDirection(m.from, m.sender, scopeOf(m.sender.ip), Outbound, now);
      var i := 0;
      while i < |m.announced|
        invariant 0 <= i <= |m.announced|
        invariant Run(registry.nodes, AnnouncedOps(m.from, m.announced[i..], m.sender, now))
               == WithResponder(old(registry.nodes), m, scopeOf, now)
      {
        var ip := m.announced[i];
        assert m.announced[i..][1..] == m.announced[i + 1..];
        if !IsLoopbackText(ip) {
          var addr := AnnouncedSocket(ip, m.sender);
          RunFirst(registry.nodes, Op.AddSeed(m.from, addr, now), AnnouncedOps(m.from, m.announced[i + 1..], m.sender, now));
          var _ := registry.AddSeed(m.from, addr, now);
        }
        i := i + 1;
      }
    }

    method RegisterAll(rs: seq<SeedRecord>, now: nat)
      modifies registry
      ensures registry.nodes == MergeAll(old(registry.nodes), rs, scopeOf, now)
    {
      var i := 0;
      while i < |rs|
        invariant 0 <= i <= |rs|
        invariant MergeAll(registry.nodes, rs[i..], scopeOf, now) == MergeAll(old(registry.nodes), rs, scopeOf, now)
      {
        assert rs[i..][1..] == rs[i + 1..];
        var parsed := ParseSocketAddr(rs[i].address);
        if parsed.Some? {
          registry.Register(rs[i].nodeAddress, parsed.value, scopeOf(parsed.value.ip), now);
        }
        i := i + 1;
      }
    }

    method DialAll(rs: seq<SeedRecord>) returns (dials: seq<Dial>)
      ensures dials == Dials(registry.nodes, me, rs)
    {
      dials := [];
      var i := 0;
      while i < |rs|
        invariant 0 <= i <= |rs|
        invariant dials + Dials(registry.nodes, me, rs[i..]) == Dials(registry.nodes, me, rs)
      {
        var r := rs[i];
        assert rs[i..][1..] == rs[i + 1..];
        i := i + 1;
        if IsConnected(registry.nodes, r.nodeAddress) || r.nodeAddress == me || Less(r.nodeAddress, me) {
          continue;
        }
        var parsed := ParseSocketAddr(r.address);
        if parsed.Some? {
          dials := dials + [Dial(r.nodeAddress, parsed.value)];
        }
      }
    }
  }
}
