/** The registry of known nodes: node address -> listening sockets, directions, connected flag. */
module Registry {
  import opened Collections
  import opened Net

  datatype Direction = Inbound | Outbound | Unknown
  datatype Scope = Intranet | Extranet

  datatype NodeEntry = NodeEntry(
    address: string,
    seeds: map<SocketAddr, set<Direction>>,
    isConnected: bool,
    scope: Scope,
    lastSeen: nat)

  type Nodes = map<string, NodeEntry>
  type Pair = (SocketAddr, string)

  /** What the rest of the program reads from a registry: which socket belongs to which node. */
  function Pairs(nodes: Nodes): set<Pair> {
    set node, addr | node in nodes && addr in nodes[node].seeds :: (addr, node)
  }

  predicate IsConnected(nodes: Nodes, node: string) {
    node in nodes && nodes[node].isConnected
  }

  predicate Keyed(nodes: Nodes) {
    forall node | node in nodes :: nodes[node].address == node
  }

  // ---------------------------------------------------------------- operations on values

  function EntryOr(nodes: Nodes, node: string, scope: Scope, now: nat): NodeEntry {
    if node in nodes then nodes[node] else NodeEntry(node, map[], false, scope, now)
  }

  function AddDirection(seeds: map<SocketAddr, set<Direction>>, addr: SocketAddr, dir: Direction)
    : map<SocketAddr, set<Direction>>
  {
    seeds[addr := (if addr in seeds then seeds[addr] else {}) + {dir}]
  }

  datatype Op =
    | Register(node: string, addr: SocketAddr, scope: Scope, dir: Direction, now: nat)
    | AddSeed(node: string, addr: SocketAddr, now: nat)
    | TryConnect(node: string, now: nat)
    | MarkConnected(node: string, connected: bool)
    | Disconnect(node: string)
    | SyncInbound(node: string, now: nat)
    | SyncOutbound(node: string, addr: SocketAddr, scope: Scope, now: nat)

  function Apply(nodes: Nodes, op: Op): Nodes {
    match op
    case Register(node, addr, scope, dir, now) =>
      var e := EntryOr(nodes, node, scope, now);
      nodes[node := e.(seeds := AddDirection(e.seeds, addr, dir), lastSeen := now)]
    case AddSeed(node, addr, now) =>
      if node !in nodes then nodes
      else
        var e := nodes[node];
        nodes[node := e.(seeds := AddDirection(e.seeds, addr, Unknown), lastSeen := now)]
    case TryConnect(node, now) =>
      if IsConnected(nodes, node) then nodes
      else nodes[node := EntryOr(nodes, node, Intranet, now).(isConnected := true, lastSeen := now)]
    case MarkConnected(node, connected) =>
      if node !in nodes then nodes else nodes[node := nodes[node].(isConnected := connected)]
    case Disconnect(node) =>
      if node !in nodes then nodes else nodes[node := nodes[node].(isConnected := false)]
    case SyncInbound(node, now) =>
      nodes[node := EntryOr(nodes, node, Extranet, now).(isConnected := true, lastSeen := now)]
    case SyncOutbound(node, addr, scope, now) =>
      var e := EntryOr(nodes, node, scope, now);
      nodes[node := e.(seeds := AddDirection(e.seeds, addr, Outbound), scope := scope,
                       isConnected := true, lastSeen := now)]
  }

  /** The pairs an operation may bring in. */
  function Learned(nodes: Nodes, op: Op): set<Pair> {
    match op
    case Register(node, addr, _, _, _) => {(addr, node)}
    case AddSeed(node, addr, _) => if node in nodes then {(addr, node)} else {}
    case SyncOutbound(node, addr, _, _) => {(addr, node)}
    case _ => {}
  }

  /** Every operation adds exactly the pairs it names and never removes one. */
  lemma ApplyPairs(nodes: Nodes, op: Op)
    requires Keyed(nodes)
    ensures Pairs(Apply(nodes, op)) == Pairs(nodes) + Learned(nodes, op)
    ensures Keyed(Apply(nodes, op))
  {
    var after := Apply(nodes, op);
    forall addr: SocketAddr, node: string
      ensures (addr, node) in Pairs(after) <==> (addr, node) in Pairs(nodes) + Learned(nodes, op)
    {
      assert (addr, node) in Pairs(after) <==> node in after && addr in after[node].seeds;
      assert (addr, node) in Pairs(nodes) <==> node in nodes && addr in nodes[node].seeds;
    }
  }

  function Run(nodes: Nodes, ops: seq<Op>): Nodes
    decreases |ops|
  {
    if ops == [] then nodes else Run(Apply(nodes, ops[0]), ops[1..])
  }

  /** Over a whole run the registry only grows. */
  lemma {:induction false} RunGrows(nodes: Nodes, ops: seq<Op>)
    requires Keyed(nodes)
    ensures Pairs(nodes) <= Pairs(Run(nodes, ops))
    ensures nodes.Keys <= Run(nodes, ops).Keys
    ensures Keyed(Run(nodes, ops))
    decreases |ops|
  {
    if ops != [] {
      ApplyPairs(nodes, ops[0]);
      RunGrows(Apply(nodes, ops[0]), ops[1..]);
    }
  }

  // ---------------------------------------------------------------- what each operation does, entry by entry

  /** The directions recorded for a socket of a node. */
  function Directions(nodes: Nodes, node: string, addr: SocketAddr): set<Direction> {
    if node in nodes && addr in nodes[node].seeds then nodes[node].seeds[addr] else {}
  }

  /** Registration adds one direction to one socket, enters an unknown node unconnected and with the given scope,
      and leaves scope and flag of a known one, and everybody else, alone. */
  lemma RegisterEffect(nodes: Nodes, node: string, addr: SocketAddr, scope: Scope, dir: Direction, now: nat)
    ensures var after := Apply(nodes, Register(node, addr, scope, dir, now));
            && after.Keys == nodes.Keys + {node}
            && (forall n | n in nodes && n != node :: after[n] == nodes[n])
            && (forall a :: Directions(after, node, a) == Directions(nodes, node, a) + if a == addr then {dir} else {})
            && after[node].lastSeen == now
            && after[node].address == (if node in nodes then nodes[node].address else node)
            && after[node].scope == (if node in nodes then nodes[node].scope else scope)
            && (after[node].isConnected <==> node in nodes && nodes[node].isConnected)
  {
  }

  lemma AddSeedEffect(nodes: Nodes, node: string, addr: SocketAddr, now: nat)
    ensures var after := Apply(nodes, AddSeed(node, addr, now));
            && after.Keys == nodes.Keys
            && (forall n | n in nodes && n != node :: after[n] == nodes[n])
            && (node in nodes ==>
                  && (forall a :: Directions(after, node, a) == Directions(nodes, node, a) + if a == addr then {Unknown} else {})
                  && after[node].(seeds := map[]) == nodes[node].(seeds := map[], lastSeen := now))
  {
  }

  /** A node that is not connected becomes connected, an unknown one with no sockets; a connected one stays as it is. */
  lemma TryConnectEffect(nodes: Nodes, node: string, now: nat)
    ensures var after := Apply(nodes, TryConnect(node, now));
            && after.Keys == nodes.Keys + {node} && after[node].isConnected
            && (forall n | n in nodes && n != node :: after[n] == nodes[n])
            && (node in nodes && nodes[node].isConnected ==> after == nodes)
            && (node in nodes && !nodes[node].isConnected ==> after[node] == nodes[node].(isConnected := true, lastSeen := now))
            && (node !in nodes ==> after[node] == NodeEntry(node, map[], true, Intranet, now))
  {
  }

  /** Setting the flag of a known node sets that and nothing else; an unknown node stays unknown. */
  lemma MarkEffect(nodes: Nodes, node: string, connected: bool)
    ensures var after := Apply(nodes, MarkConnected(node, connected));
            && after.Keys == nodes.Keys
            && (forall n | n in nodes && n != node :: after[n] == nodes[n])
            && (node in nodes ==> (after[node].isConnected <==> connected))
            && (node in nodes ==> after[node].(isConnected := false) == nodes[node].(isConnected := false))
  {
  }

  /** After a disconnect the node is not connected; everything else about it, and everybody else, is as before. */
  lemma DisconnectEffect(nodes: Nodes, node: string)
    ensures var after := Apply(nodes, Disconnect(node));
            && !IsConnected(after, node) && !(node in after && after[node].isConnected)
            && after.Keys == nodes.Keys && Pairs(after) == Pairs(nodes)
            && (forall n | n in nodes && n != node :: after[n] == nodes[n])
            && (node in nodes ==> after[node].(isConnected := false) == nodes[node].(isConnected := false))
  {
    var after := Apply(nodes, Disconnect(node));
    assert forall p :: p in Pairs(after) <==> p.1 in after && p.0 in after[p.1].seeds;
    assert forall p :: p in Pairs(nodes) <==> p.1 in nodes && p.0 in nodes[p.1].seeds;
  }

  lemma SyncEffect(nodes: Nodes, node: string, addr: SocketAddr, scope: Scope, now: nat)
    ensures var after := Apply(nodes, SyncInbound(node, now));
            && after.Keys == nodes.Keys + {node} && (forall n | n in nodes && n != node :: after[n] == nodes[n])
            && after[node] == (if node in nodes then nodes[node].(isConnected := true, lastSeen := now)
                               else NodeEntry(node, map[], true, Extranet, now))
    ensures var after := Apply(nodes, SyncOutbound(node, addr, scope, now));
            && after.Keys == nodes.Keys + {node} && (forall n | n in nodes && n != node :: after[n] == nodes[n])
            && (forall a :: Directions(after, node, a) == Directions(nodes, node, a) + if a == addr then {Outbound} else {})
            && after[node].isConnected && after[node].scope == scope && after[node].lastSeen == now
            && after[node].address == (if node in nodes then nodes[node].address else node)
  {
  }

  // ---------------------------------------------------------------- the connection flag as a lock

  predicate Acquires(nodes: Nodes, op: Op, node: string) {
    op.TryConnect? && op.node == node && !IsConnected(nodes, node)
  }

  predicate Releases(op: Op, node: string) {
    (op.Disconnect? && op.node == node) || (op.MarkConnected? && op.node == node && !op.connected)
  }

  function Acquired(nodes: Nodes, ops: seq<Op>, node: string): nat
    decreases |ops|
  {
    if ops == [] then 0
    else (if Acquires(nodes, ops[0], node) then 1 else 0) + Acquired(Apply(nodes, ops[0]), ops[1..], node)
  }

  function Released(ops: seq<Op>, node: string): nat {
    if ops == [] then 0 else (if Releases(ops[0], node) then 1 else 0) + Released(ops[1..], node)
  }

  function Held(nodes: Nodes, node: string): nat {
    if IsConnected(nodes, node) then 1 else 0
  }

  /** try_connect works as a lock: between two successes for one node lies a release of it. */
  lemma {:induction false} ConnectIsExclusive(nodes: Nodes, ops: seq<Op>, node: string)
    ensures Acquired(nodes, ops, node) + Held(nodes, node) <= Released(ops, node) + Held(Run(nodes, ops), node)
    ensures Acquired(nodes, ops, node) <= 1 + Released(ops, node)
    decreases |ops|
  {
    if ops != [] {
      ConnectIsExclusive(Apply(nodes, ops[0]), ops[1..], node);
    }
  }

  lemma {:induction false} RunLast(nodes: Nodes, ops: seq<Op>, op: Op)
    ensures Run(nodes, ops + [op]) == Apply(Run(nodes, ops), op)
    decreases |ops|
  {
    if ops == [] {
      assert ops + [op] == [op] && [op][1..] == [];
    } else {
      RunLast(Apply(nodes, ops[0]), ops[1..], op);
      assert (ops + [op])[1..] == ops[1..] + [op];
    }
  }

  /** A release really releases: after any run that ends in one, the node is free and the next try_connect acquires it. */
  lemma ReleasedThenAcquires(nodes: Nodes, ops: seq<Op>, node: string, release: Op, now: nat)
    requires release == Disconnect(node) || release == MarkConnected(node, false)
    ensures var after := Run(nodes, ops + [release]);
            && !IsConnected(after, node) && Acquires(after, TryConnect(node, now), node)
            && IsConnected(Apply(after, TryConnect(node, now)), node)
    ensures Acquired(nodes, ops + [release, TryConnect(node, now)], node) == Acquired(nodes, ops, node) + 1
  {
    RunLast(nodes, ops, release);
    var before := Run(nodes, ops);
    DisconnectEffect(before, node);
    MarkEffect(before, node, false);
    TryConnectEffect(Run(nodes, ops + [release]), node, now);
    assert ops + [release, TryConnect(node, now)] == ops + [release] + [TryConnect(node, now)];
    AcquiredLast(nodes, ops + [release], TryConnect(node, now), node);
    AcquiredLast(nodes, ops, release, node);
  }

  lemma {:induction false} AcquiredLast(nodes: Nodes, ops: seq<Op>, op: Op, node: string)
    ensures Acquired(nodes, ops + [op], node)
         == Acquired(nodes, ops, node) + if Acquires(Run(nodes, ops), op, node) then 1 else 0
    decreases |ops|
  {
    hide Apply, Acquires;
    if ops == [] {
      assert ops + [op] == [op] && [op][1..] == [];
      assert Acquired(Apply(nodes, op), [], node) == 0;
    } else {
      AcquiredLast(Apply(nodes, ops[0]), ops[1..], op, node);
      assert (ops + [op])[1..] == ops[1..] + [op];
    }
  }

  // ---------------------------------------------------------------- registering a list

  /** An entry of a received list: a node, and the socket if its text can be read. */
  datatype Listed = Listed(node: string, addr: Option<SocketAddr>)

  function RegisterOne(nodes: Nodes, x: Listed, scopeOf: Ip -> Scope, now: nat): Nodes {
    match x.addr
    case Some(addr) => Apply(nodes, Register(x.node, addr, scopeOf(addr.ip), Unknown, now))
    case None => nodes
  }

  function RegisterListed(nodes: Nodes, xs: seq<Listed>, scopeOf: Ip -> Scope, now: nat): Nodes
    decreases |xs|
  {
    if xs == [] then nodes else RegisterListed(RegisterOne(nodes, xs[0], scopeOf, now), xs[1..], scopeOf, now)
  }

  /** The first readable socket that a list gives for a node decides the scope under which an unknown node comes in. */
  function FirstListed(xs: seq<Listed>, node: string): (r: Option<SocketAddr>)
    ensures r.Some? ==> Listed(node, r) in xs
    ensures r.None? ==> forall x | x in xs :: x.node == node ==> x.addr.None?
  {
    if xs == [] then None
    else if xs[0].node == node && xs[0].addr.Some? then xs[0].addr
    else FirstListed(xs[1..], node)
  }

  lemma RegisterOneEffect(nodes: Nodes, x: Listed, scopeOf: Ip -> Scope, now: nat, node: string, addr: SocketAddr)
    ensures var after := RegisterOne(nodes, x, scopeOf, now);
            var hit := x.node == node && x.addr.Some?;
            && (node in after <==> node in nodes || hit)
            && (IsConnected(after, node) <==> IsConnected(nodes, node))
            && Directions(after, node, addr) == Directions(nodes, node, addr) + (if x == Listed(node, Some(addr)) then {Unknown} else {})
            && (node in nodes ==> after[node].scope == nodes[node].scope && after[node].address == nodes[node].address)
            && (node in nodes ==> after[node].lastSeen == if hit then now else nodes[node].lastSeen)
            && (node !in nodes && hit ==> after[node].scope == scopeOf(x.addr.value.ip) && after[node].lastSeen == now)
            && (node !in nodes && hit ==> after[node].address == node)
  {
    if x.addr.Some? {
      RegisterEffect(nodes, x.node, x.addr.value, scopeOf(x.addr.value.ip), Unknown, now);
      hide Apply;
    }
  }

  lemma ListedCons(x: Listed, rest: seq<Listed>, y: Listed)
    ensures y in [x] + rest <==> y == x || y in rest
  {
  }

  /** Registering a list, entry by entry: which nodes are known, their flags, directions, scopes and times. */
  lemma {:induction false} RegisterListedEffect(nodes: Nodes, xs: seq<Listed>, scopeOf: Ip -> Scope, now: nat, node: string, addr: SocketAddr)
    ensures var after := RegisterListed(nodes, xs, scopeOf, now);
            var first := FirstListed(xs, node);
            && (node in after <==> node in nodes || first.Some?)
            && (IsConnected(after, node) <==> IsConnected(nodes, node))
            && Directions(after, node, addr) == Directions(nodes, node, addr) + (if Listed(node, Some(addr)) in xs then {Unknown} else {})
            && (node in nodes ==> after[node].scope == nodes[node].scope && after[node].address == nodes[node].address)
            && (node in nodes ==> after[node].lastSeen == if first.Some? then now else nodes[node].lastSeen)
            && (node !in nodes && first.Some? ==> after[node].scope == scopeOf(first.value.ip) && after[node].lastSeen == now)
            && (node !in nodes && first.Some? ==> after[node].address == node)
    decreases |xs|
  {
    hide RegisterOne, Directions, IsConnected;
    if xs != [] {
      assert xs == [xs[0]] + xs[1..];
      ListedCons(xs[0], xs[1..], Listed(node, Some(addr)));
      RegisterOneEffect(nodes, xs[0], scopeOf, now, node, addr);
      RegisterListedEffect(RegisterOne(nodes, xs[0], scopeOf, now), xs[1..], scopeOf, now, node, addr);
    }
  }

  // ---------------------------------------------------------------- the object

  datatype PeerInfo = PeerInfo(nodeId: Option<string>, addr: string)

  function SyncInboundOps(peers: seq<PeerInfo>, now: nat): seq<Op> {
    if peers == [] then []
    else
      var rest := SyncInboundOps(peers[1..], now);
      match peers[0].nodeId
      case Some(id) => [SyncInbound(id, now)] + rest
      case None => rest
  }

  function SyncOutboundOps(peers: seq<PeerInfo>, scopeOf: Ip -> Scope, now: nat): seq<Op> {
    if peers == [] then []
    else
      var rest := SyncOutboundOps(peers[1..], scopeOf, now);
      match (peers[0].nodeId, ParseSocketAddr(peers[0].addr))
      case (Some(id), Some(addr)) => [SyncOutbound(id, addr, scopeOf(addr.ip), now)] + rest
      case _ => rest
  }

  predicate ListedInbound(peers: seq<PeerInfo>, node: string) {
    exists i | 0 <= i < |peers| :: peers[i].nodeId == Some(node)
  }

  predicate ListedOutbound(peers: seq<PeerInfo>, node: string) {
    exists i | 0 <= i < |peers| :: peers[i].nodeId == Some(node) && ParseSocketAddr(peers[i].addr).Some?
  }

  function OutboundPairs(peers: seq<PeerInfo>): set<Pair> {
    set p | p in peers && p.nodeId.Some? && ParseSocketAddr(p.addr).Some? :: (ParseSocketAddr(p.addr).value, p.nodeId.value)
  }

  lemma RunFirst(nodes: Nodes, op: Op, rest: seq<Op>)
    ensures Run(nodes, [op] + rest) == Run(Apply(nodes, op), rest)
  {
    assert ([op] + rest)[1..] == rest;
  }

  lemma {:induction false} RunAppend(nodes: Nodes, ops: seq<Op>, more: seq<Op>)
    ensures Run(nodes, ops + more) == Run(Run(nodes, ops), more)
    decreases |ops|
  {
    if ops == [] {
      assert ops + more == more;
    } else {
      RunAppend(Apply(nodes, ops[0]), ops[1..], more);
      assert (ops + more)[1..] == ops[1..] + more;
    }
  }

  lemma ListedInboundCons(p: PeerInfo, rest: seq<PeerInfo>, node: string)
    ensures ListedInbound([p] + rest, node) <==> p.nodeId == Some(node) || ListedInbound(rest, node)
  {
    assert ([p] + rest)[0] == p;
    assert forall i | 0 <= i < |rest| :: ([p] + rest)[i + 1] == rest[i];
  }

  lemma ListedOutboundCons(p: PeerInfo, rest: seq<PeerInfo>, node: string)
    ensures ListedOutbound([p] + rest, node)
       <==> (p.nodeId == Some(node) && ParseSocketAddr(p.addr).Some?) || ListedOutbound(rest, node)
  {
    hide ParseSocketAddr;
    assert ([p] + rest)[0] == p;
    assert forall i | 0 <= i < |rest| :: ([p] + rest)[i + 1] == rest[i];
  }

  lemma OutboundPairsCons(p: PeerInfo, rest: seq<PeerInfo>)
    ensures OutboundPairs([p] + rest)
         == (if p.nodeId.Some? && ParseSocketAddr(p.addr).Some? then {(ParseSocketAddr(p.addr).value, p.nodeId.value)} else {})
            + OutboundPairs(rest)
  {
    hide ParseSocketAddr;
  }

  lemma {:induction false} SyncInboundExactly(nodes: Nodes, peers: seq<PeerInfo>, now: nat, node: string)
    requires Keyed(nodes)
    ensures var after := Run(nodes, SyncInboundOps(peers, now));
            && Keyed(after) && Pairs(after) == Pairs(nodes)
            && (IsConnected(after, node) <==> IsConnected(nodes, node) || ListedInbound(peers, node))
    decreases |peers|
  {
    hide Pairs, IsConnected, ListedInbound;
    if peers != [] {
      var p, more := peers[0], peers[1..];
      assert peers == [p] + more;
      ListedInboundCons(p, more, node);
      if p.nodeId.Some? {
        var op := SyncInbound(p.nodeId.value, now);
        ApplyPairs(nodes, op);
        SyncFlags(nodes, op, node);
        RunFirst(nodes, op, SyncInboundOps(more, now));
        SyncInboundExactly(Apply(nodes, op), more, now, node);
      } else {
        SyncInboundExactly(nodes, more, now, node);
      }
    } else {
      NoPeers(node);
    }
  }

  lemma NoPeers(node: string)
    ensures !ListedInbound([], node) && !ListedOutbound([], node) && OutboundPairs([]) == {}
  {
  }

  lemma SyncFlags(nodes: Nodes, op: Op, node: string)
    requires op.SyncInbound? || op.SyncOutbound?
    ensures IsConnected(Apply(nodes, op), node) <==> IsConnected(nodes, node) || op.node == node
  {
  }

  lemma {:induction false} SyncOutboundExactly(nodes: Nodes, peers: seq<PeerInfo>, scopeOf: Ip -> Scope, now: nat, node: string)
    requires Keyed(nodes)
    ensures var after := Run(nodes, SyncOutboundOps(peers, scopeOf, now));
            && Keyed(after) && Pairs(after) == Pairs(nodes) + OutboundPairs(peers)
            && (IsConnected(after, node) <==> IsConnected(nodes, node) || ListedOutbound(peers, node))
    decreases |peers|
  {
    hide Pairs, IsConnected, ListedOutbound, OutboundPairs, ParseSocketAddr;
    if peers != [] {
      var p, more := peers[0], peers[1..];
      assert peers == [p] + more;
      ListedOutboundCons(p, more, node);
      OutboundPairsCons(p, more);
      var parsed := ParseSocketAddr(p.addr);
      if p.nodeId.Some? && parsed.Some? {
        var op := SyncOutbound(p.nodeId.value, parsed.value, scopeOf(parsed.value.ip), now);
        ApplyPairs(nodes, op);
        SyncFlags(nodes, op, node);
        RunFirst(nodes, op, SyncOutboundOps(more, scopeOf, now));
        SyncOutboundExactly(Apply(nodes, op), more, scopeOf, now, node);
      } else {
        SyncOutboundExactly(nodes, more, scopeOf, now, node);
      }
    } else {
      NoPeers(node);
    }
  }

  /** Reconciling with the connection manager connects exactly the listed peers more, and learns exactly the readable
      sockets of outbound ones: an inbound peer's socket is never stored. */
  lemma SyncExactly(nodes: Nodes, inbound: seq<PeerInfo>, outbound: seq<PeerInfo>, scopeOf: Ip -> Scope, now: nat, node: string)
    requires Keyed(nodes)
    ensures var after := Run(nodes, SyncInboundOps(inbound, now) + SyncOutboundOps(outbound, scopeOf, now));
            && Pairs(after) == Pairs(nodes) + OutboundPairs(outbound)
            && (IsConnected(after, node) <==>
                  IsConnected(nodes, node) || ListedInbound(inbound, node) || ListedOutbound(outbound, node))
  {
    hide *;
    RunAppend(nodes, SyncInboundOps(inbound, now), SyncOutboundOps(outbound, scopeOf, now));
    SyncInboundExactly(nodes, inbound, now, node);
    SyncOutboundExactly(Run(nodes, SyncInboundOps(inbound, now)), outbound, scopeOf, now, node);
  }

  /** Every outbound operation names the scope of its own socket. */
  lemma {:induction false} OutboundScopes(peers: seq<PeerInfo>, scopeOf: Ip -> Scope, now: nat)
    ensures forall op | op in SyncOutboundOps(peers, scopeOf, now) ::
              op.SyncOutbound? && op.scope == scopeOf(op.addr.ip) && op.now == now
  {
    hide ParseSocketAddr;
    if peers != [] {
      OutboundScopes(peers[1..], scopeOf, now);
    }
  }

  class NodeRegistry {
    var nodes: Nodes

    constructor ()
      ensures nodes == map[]
    {
      nodes := map[];
    }

    method Register(node: string, addr: SocketAddr, scope: Scope, now: nat)
      modifies this
      ensures nodes == Apply(old(nodes), Op.Register(node, addr, scope, Unknown, now))
    {
      RegisterWithDirection(node, addr, scope, Unknown, now);
    }

    method RegisterWithDirection(node: string, addr: SocketAddr, scope: Scope, dir: Direction, now: nat)
      modifies this
      ensures nodes == Apply(old(nodes), Op.Register(node, addr, scope, dir, now))
    {
      if node !in nodes {
        nodes := nodes[node := NodeEntry(node, map[], false, scope, now)];
      }
      var dirs := if addr in nodes[node].seeds then nodes[node].seeds[addr] else {};
      var seeds := nodes[node].seeds[addr := dirs + {dir}];
      nodes := nodes[node := nodes[node].(seeds := seeds, lastSeen := now)];
    }

    method AddSeed(node: string, addr: SocketAddr, now: nat) returns (isNew: bool)
      modifies this
      ensures nodes == Apply(old(nodes), Op.AddSeed(node, addr, now))
      ensures isNew <==> node in old(nodes) && (addr, node) !in Pairs(old(nodes))
    {
      if node in nodes {
        isNew := addr !in nodes[node].seeds;
        var dirs := if addr in nodes[node].seeds then nodes[node].seeds[addr] else {};
        nodes := nodes[node := nodes[node].(seeds := nodes[node].seeds[addr := dirs + {Unknown}], lastSeen := now)];
      } else {
        isNew := false;
      }
    }

    method TryConnect(node: string, now: nat) returns (acquired: bool)
      modifies this
      ensures nodes == Apply(old(nodes), Op.TryConnect(node, now))
      ensures acquired <==> !IsConnected(old(nodes), node)
      ensures IsConnected(nodes, node)
    {
      if node in nodes {
        if nodes[node].isConnected {
          return false;
        }
        nodes := nodes[node := nodes[node].(isConnected := true, lastSeen := now)];
      } else {
        nodes := nodes[node := NodeEntry(node, map[], true, Intranet, now)];
      }
      return true;
    }

    method MarkConnected(node: string, connected: bool)
      modifies this
      ensures nodes == Apply(old(nodes), Op.MarkConnected(node, connected))
      ensures node in old(nodes) ==> (IsConnected(nodes, node) <==> connected)
    {
      if node in nodes {
        nodes := nodes[node := nodes[node].(isConnected := connected)];
      }
    }

    method Disconnect(node: string)
      modifies this
      ensures nodes == Apply(old(nodes), Op.Disconnect(node))
      ensures !IsConnected(nodes, node) && nodes.Keys == old(nodes).Keys
    {
      if node in nodes {
        nodes := nodes[node := nodes[node].(isConnected := false)];
      }
    }

    /** All pairs, each once, in whatever order the two hash maps iterate. */
    method GetAllSeeds() returns (seeds: seq<Pair>)
      ensures Enumerates(seeds, Pairs(nodes))
    {
      seeds := [];
      var left := nodes.Keys;
      while left != {}
        invariant left <= nodes.Keys
        invariant Enumerates(seeds, set p | p in Pairs(nodes) && p.1 !in left)
      {
        var node :| node in left;
        var addrs := nodes[node].seeds.Keys;
        while addrs != {}
          invariant addrs <= nodes[node].seeds.Keys
          invariant Enumerates(seeds, set p | p in Pairs(nodes) && (p.1 !in left || (p.1 == node && p.0 !in addrs)))
        {
          var addr :| addr in addrs;
          assert (addr, node) !in Elems(seeds);
          DistinctAppend(seeds, (addr, node));
          assert (addr, node) in Pairs(nodes);
          seeds := seeds + [(addr, node)];
          addrs := addrs - {addr};
        }
        left := left - {node};
      }
    }

    method GetConnectedNodes() returns (connected: seq<string>)
      ensures Enumerates(connected, set n | n in nodes && IsConnected(nodes, n))
    {
      connected := [];
      var left := nodes.Keys;
      while left != {}
        invariant left <= nodes.Keys
        invariant Enumerates(connected, set n | n in nodes && n !in left && IsConnected(nodes, n))
      {
        var node :| node in left;
        if nodes[node].isConnected {
          assert node !in Elems(connected);
          DistinctAppend(connected, node);
          connected := connected + [node];
        }
        left := left - {node};
      }
    }

    method FindNodeForSeed(addr: SocketAddr) returns (owner: Option<string>)
      ensures owner.Some? ==> (addr, owner.value) in Pairs(nodes)
      ensures owner.None? ==> forall n :: (addr, n) !in Pairs(nodes)
    {
      var left := nodes.Keys;
      while left != {}
        invariant left <= nodes.Keys
        invariant forall n | n in nodes && n !in left :: addr !in nodes[n].seeds
      {
        var node :| node in left;
        if addr in nodes[node].seeds {
          return Some(node);
        }
        left := left - {node};
      }
      return None;
    }

    method MarkInbound(node: string, now: nat)
      modifies this
      ensures nodes == Apply(old(nodes), SyncInbound(node, now))
    {
      if node in nodes {
        nodes := nodes[node := nodes[node].(isConnected := true, lastSeen := now)];
      } else {
        nodes := nodes[node := NodeEntry(node, map[], true, Extranet, now)];
      }
    }

    method MarkOutbound(node: string, addr: SocketAddr, scope: Scope, now: nat)
      modifies this
      ensures nodes == Apply(old(nodes), SyncOutbound(node, addr, scope, now))
    {
      if node in nodes {
        var dirs := if addr in nodes[node].seeds then nodes[node].seeds[addr] else {};
        nodes := nodes[node := nodes[node].(seeds := nodes[node].seeds[addr := dirs + {Outbound}],
                                            scope := scope, isConnected := true, lastSeen := now)];
      } else {
        var none: set<Direction> := {};
        assert none + {Outbound} == {Outbound};
        nodes := nodes[node := NodeEntry(node, map[addr := {Outbound}], true, scope, now)];
      }
    }

    method SyncInboundPeers(inbound: seq<PeerInfo>, now: nat)
      modifies this
      ensures nodes == Run(old(nodes), SyncInboundOps(inbound, now))
    {
      var i := 0;
      while i < |inbound|
        invariant 0 <= i <= |inbound|
        invariant Run(nodes, SyncInboundOps(inbound[i..], now)) == Run(old(nodes), SyncInboundOps(inbound, now))
      {
        assert inbound[i..][1..] == inbound[i + 1..];
        if inbound[i].nodeId.Some? {
          RunFirst(nodes, SyncInbound(inbound[i].nodeId.value, now), SyncInboundOps(inbound[i + 1..], now));
          MarkInbound(inbound[i].nodeId.value, now);
        }
        i := i + 1;
      }
    }

    method SyncOutboundPeers(outbound: seq<PeerInfo>, scopeOf: Ip -> Scope, now: nat)
      modifies this
      ensures nodes == Run(old(nodes), SyncOutboundOps(outbound, scopeOf, now))
    {
      var i := 0;
      while i < |outbound|
        invariant 0 <= i <= |outbound|
        invariant Run(nodes, SyncOutboundOps(outbound[i..], scopeOf, now))
               == Run(old(nodes), SyncOutboundOps(outbound, scopeOf, now))
      {
        assert outbound[i..][1..] == outbound[i + 1..];
        var id, parsed := outbound[i].nodeId, ParseSocketAddr(outbound[i].addr);
        if id.Some? && parsed.Some? {
          var scope := scopeOf(parsed.value.ip);
          RunFirst(nodes, SyncOutbound(id.value, parsed.value, scope, now), SyncOutboundOps(outbound[i + 1..], scopeOf, now));
          MarkOutbound(id.value, parsed.value, scope, now);
        }
        i := i + 1;
      }
    }

    /** Inbound peers are only marked connected; outbound peers also give a listening socket. */
    method SyncFromConnectionInfo(inbound: seq<PeerInfo>, outbound: seq<PeerInfo>, scopeOf: Ip -> Scope, now: nat)
      modifies this
      ensures nodes == Run(old(nodes), SyncInboundOps(inbound, now) + SyncOutboundOps(outbound, scopeOf, now))
    {
      RunAppend(nodes, SyncInboundOps(inbound, now), SyncOutboundOps(outbound, scopeOf, now));
      SyncInboundPeers(inbound, now);
      SyncOutboundPeers(outbound, scopeOf, now);
    }
  }
}
