/** The seed-sync handlers on one node: absorb a peer's seeds, extend the dial list, answer with what is known. */
module SeedSync {
  import opened Collections
  import opened Net
  import opened Registry
  import opened SeedSets

  // ---------------------------------------------------------------- what a list of seeds stands for

  /** The pairs a handler registers from a received list: seeds whose printed address reads back. */
  function Parsed(seeds: seq<SeedInfo>): set<Pair> {
    set s | s in seeds && s.SocketAddress().Some? :: (s.SocketAddress().value, s.nodeId)
  }

  /** The pairs a derived list can carry to another node. */
  function Sendable(pairs: set<Pair>): set<Pair> {
    set p | p in pairs && p.0.port != 0 && p.0.ip.V4?
  }

  /** The pairs that nodes agree on: loopback sockets are never sent in an answer. */
  function Syncable(pairs: set<Pair>): set<Pair> {
    set p | p in Sendable(pairs) && !p.0.ip.IsLoopback()
  }

  lemma ParsedInfo(p: Pair)
    ensures InfoOf(p).SocketAddress() == if p.0.ip.V4? then Some(p.0) else None
  {
    ParseUnbracketed(p.0);
  }

  /** A list that holds the printings of some pairs parses to those of them that are IPv4. */
  lemma ParsedListed(seeds: seq<SeedInfo>, ps: set<Pair>)
    requires forall s | s in seeds :: exists p | p in ps :: s == InfoOf(p)
    requires forall p | p in ps :: InfoOf(p) in seeds
    ensures Parsed(seeds) == set p | p in ps && p.0.ip.V4?
  {
    forall p | p in ps
      ensures InfoOf(p).SocketAddress() == (if p.0.ip.V4? then Some(p.0) else None) && InfoOf(p).nodeId == p.1
    {
      ParsedInfo(p);
    }
    hide InfoOf;
  }

  lemma InfosListed(order: seq<Pair>)
    ensures forall s | s in Infos(order) :: exists p | p in Elems(order) :: s == InfoOf(p)
    ensures forall p | p in Elems(order) :: InfoOf(p) in Infos(order)
  {
    hide InfoOf;
    forall s | s in Infos(order)
      ensures exists p | p in Elems(order) :: s == InfoOf(p)
    {
      var i :| 0 <= i < |order| && Infos(order)[i] == s;
      assert order[i] in Elems(order);
    }
    forall p | p in Elems(order)
      ensures InfoOf(p) in Infos(order)
    {
      var i :| 0 <= i < |order| && order[i] == p;
      assert Infos(order)[i] == InfoOf(p);
    }
  }

  lemma ParsedInfos(order: seq<Pair>, pairs: set<Pair>)
    requires Enumerates(order, NonZero(pairs))
    ensures Parsed(Infos(order)) == Sendable(pairs)
  {
    InfosListed(order);
    ParsedListed(Infos(order), Elems(order));
    hide Infos, Parsed;
  }

  lemma LoopbackPrinted(p: Pair)
    ensures IsLoopbackText(InfoOf(p).ip) == p.0.ip.IsLoopback()
  {
    ParseIpPrinted(p.0.ip);
  }

  lemma ParsedAnswer(order: seq<Pair>, pairs: set<Pair>)
    requires Enumerates(order, NonZero(pairs))
    ensures Parsed(NonLoopback(Infos(order))) == Syncable(pairs)
  {
    InfosListed(order);
    forall p: Pair
      ensures IsLoopbackText(InfoOf(p).ip) == p.0.ip.IsLoopback()
    {
      LoopbackPrinted(p);
    }
    hide Infos, Parsed, InfoOf, IsLoopbackText;
    ParsedListed(NonLoopback(Infos(order)), set p | p in Elems(order) && !p.0.ip.IsLoopback());
  }

  // ---------------------------------------------------------------- absorbing a list

  function AbsorbOne(nodes: Nodes, s: SeedInfo, scopeOf: Ip -> Scope, now: nat): Nodes {
    match s.SocketAddress()
    case Some(addr) => Apply(nodes, Register(s.nodeId, addr, scopeOf(addr.ip), Unknown, now))
    case None => nodes
  }

  function Absorb(nodes: Nodes, seeds: seq<SeedInfo>, scopeOf: Ip -> Scope, now: nat): Nodes
    decreases |seeds|
  {
    if seeds == [] then nodes
    else Absorb(AbsorbOne(nodes, seeds[0], scopeOf, now), seeds[1..], scopeOf, now)
  }

  lemma ParsedCons(s: SeedInfo, rest: seq<SeedInfo>)
    ensures Parsed([s] + rest)
         == (if s.SocketAddress().Some? then {(s.SocketAddress().value, s.nodeId)} else {}) + Parsed(rest)
  {
  }

  /** A handler adds to the registry exactly the pairs of the list it received. */
  lemma {:induction false} AbsorbPairs(nodes: Nodes, seeds: seq<SeedInfo>, scopeOf: Ip -> Scope, now: nat)
    requires Keyed(nodes)
    ensures Pairs(Absorb(nodes, seeds, scopeOf, now)) == Pairs(nodes) + Parsed(seeds)
    ensures Keyed(Absorb(nodes, seeds, scopeOf, now))
    decreases |seeds|
  {
    if seeds != [] {
      var s := seeds[0];
      ParsedCons(s, seeds[1..]);
      assert seeds == [s] + seeds[1..];
      if s.SocketAddress().Some? {
        var addr := s.SocketAddress().value;
        ApplyPairs(nodes, Register(s.nodeId, addr, scopeOf(addr.ip), Unknown, now));
      }
      AbsorbPairs(AbsorbOne(nodes, s, scopeOf, now), seeds[1..], scopeOf, now);
    }
  }

  function Item(s: SeedInfo): Listed {
    Listed(s.nodeId, s.SocketAddress())
  }

  lemma {:induction false} AbsorbIsRegistering(nodes: Nodes, seeds: seq<SeedInfo>, scopeOf: Ip -> Scope, now: nat)
    ensures Absorb(nodes, seeds, scopeOf, now) == RegisterListed(nodes, Map(Item, seeds), scopeOf, now)
    decreases |seeds|
  {
    if seeds != [] {
      assert Map(Item, seeds)[0] == Item(seeds[0]) && Map(Item, seeds)[1..] == Map(Item, seeds[1..]);
      assert AbsorbOne(nodes, seeds[0], scopeOf, now) == RegisterOne(nodes, Item(seeds[0]), scopeOf, now);
      hide AbsorbOne, RegisterOne, Item;
      AbsorbIsRegistering(AbsorbOne(nodes, seeds[0], scopeOf, now), seeds[1..], scopeOf, now);
    }
  }

  /** What a received list does to the entry of a node: it becomes known if some readable seed names it, every socket
      named for it gets the unknown direction besides those it has, an unknown node comes in under the scope of its
      first readable socket, and no connection flag or known scope changes. */
  lemma AbsorbExactly(nodes: Nodes, seeds: seq<SeedInfo>, scopeOf: Ip -> Scope, now: nat, node: string, addr: SocketAddr)
    ensures var after := Absorb(nodes, seeds, scopeOf, now);
            && (node in after <==> node in nodes || exists s | s in seeds :: s.nodeId == node && s.SocketAddress().Some?)
            && (IsConnected(after, node) <==> IsConnected(nodes, node))
            && Directions(after, node, addr) == Directions(nodes, node, addr)
                 + (if exists s | s in seeds :: s.nodeId == node && s.SocketAddress() == Some(addr) then {Unknown} else {})
            && (node in nodes ==> after[node].scope == nodes[node].scope)
            && (node in after && node !in nodes ==>
                  exists s | s in seeds :: s.nodeId == node && s.SocketAddress().Some?
                    && after[node].scope == scopeOf(s.SocketAddress().value.ip) && after[node].lastSeen == now)
  {
    hide *;
    AbsorbIsRegistering(nodes, seeds, scopeOf, now);
    RegisterListedEffect(nodes, Map(Item, seeds), scopeOf, now, node, addr);
    ItemsListed(seeds);
    var first := FirstListed(Map(Item, seeds), node);
    if s :| s in seeds && s.nodeId == node && s.SocketAddress().Some? {
      assert Listed(node, s.SocketAddress()) in Map(Item, seeds);
    }
  }

  lemma ItemsListed(seeds: seq<SeedInfo>)
    ensures forall x: Listed :: x in Map(Item, seeds) <==> exists s | s in seeds :: s.nodeId == x.node && s.SocketAddress() == x.addr
  {
    hide ParseSocketAddr;
    forall x: Listed
      ensures x in Map(Item, seeds) <==> exists s | s in seeds :: s.nodeId == x.node && s.SocketAddress() == x.addr
    {
      if x in Map(Item, seeds) {
        var i :| 0 <= i < |seeds| && Map(Item, seeds)[i] == x;
        assert seeds[i] in seeds;
      }
      if s :| s in seeds && s.nodeId == x.node && s.SocketAddress() == x.addr {
        var i :| 0 <= i < |seeds| && seeds[i] == s;
        assert Map(Item, seeds)[i] == x;
      }
    }
  }

  // ---------------------------------------------------------------- the node

  function Dialable(pairs: set<Pair>): set<SocketAddr> {
    set p | p in Sendable(pairs) :: p.0
  }

  function V4Sockets(order: seq<Pair>): set<SocketAddr> {
    set p | p in order && p.0.ip.V4? :: p.0
  }

  lemma V4SocketsSnoc(order: seq<Pair>, i: nat)
    requires i < |order|
    ensures V4Sockets(order[..i + 1]) == V4Sockets(order[..i]) + if order[i].0.ip.V4? then {order[i].0} else {}
  {
    assert order[..i + 1] == order[..i] + [order[i]];
  }

  lemma DialableListed(order: seq<Pair>, pairs: set<Pair>)
    requires Enumerates(order, NonZero(pairs))
    ensures V4Sockets(order) == Dialable(pairs)
  {
    forall a
      ensures a in V4Sockets(order) <==> a in Dialable(pairs)
    {
      if a in Dialable(pairs) {
        var p :| p in Sendable(pairs) && p.0 == a;
        assert p in Elems(order);
      }
      if a in V4Sockets(order) {
        var p :| p in order && p.0.ip.V4? && p.0 == a;
        assert p in Elems(order);
      }
    }
  }

  lemma DerivedSeeds(h: Hasher, order: seq<Pair>)
    ensures New(h, Infos(order), 0).seeds == Infos(order)
  {
  }

  lemma NoSockets(order: seq<Pair>, addrs: seq<SocketAddr>)
    ensures Elems(addrs) == Elems(addrs) + V4Sockets(order[..0])
  {
  }

  /** The dial list after one more seed. */
  lemma DialStep(addrs: seq<SocketAddr>, was: seq<SocketAddr>, order: seq<Pair>, i: nat)
    requires i < |order| && was <= addrs && Distinct(addrs)
    requires Elems(addrs) == Elems(was) + V4Sockets(order[..i])
    ensures var parsed := Infos(order)[i].SocketAddress();
            var next := if parsed.Some? && parsed.value !in addrs then addrs + [parsed.value] else addrs;
            was <= next && Distinct(next) && Elems(next) == Elems(was) + V4Sockets(order[..i + 1])
  {
    ParsedInfo(order[i]);
    V4SocketsSnoc(order, i);
    var addr := order[i].0;
    if addr !in addrs {
      DistinctAppend(addrs, addr);
    } else {
      assert addr in Elems(addrs);
    }
    hide V4Sockets, InfoOf, Distinct;
  }

  datatype SyncResponse = SyncResponse(seedSet: SeedSet, hash: Digest)

  class SyncNode {
    const registry: NodeRegistry
    const scopeOf: Ip -> Scope
    const h: Hasher
    var peerAddrs: seq<SocketAddr>

    constructor (registry: NodeRegistry, scopeOf: Ip -> Scope, h: Hasher)
      ensures this.registry == registry && this.scopeOf == scopeOf && this.h == h && peerAddrs == []
    {
      this.registry := registry;
      this.scopeOf := scopeOf;
      this.h := h;
      peerAddrs := [];
    }

    method RegisterSeeds(seeds: seq<SeedInfo>, now: nat)
      modifies registry
      ensures registry.nodes == Absorb(old(registry.nodes), seeds, scopeOf, now)
    {
      var i := 0;
      while i < |seeds|
        invariant 0 <= i <= |seeds|
        invariant Absorb(registry.nodes, seeds[i..], scopeOf, now) == Absorb(old(registry.nodes), seeds, scopeOf, now)
      {
        assert seeds[i..][1..] == seeds[i + 1..];
        var parsed := seeds[i].SocketAddress();
        if parsed.Some? {
          registry.Register(seeds[i].nodeId, parsed.value, scopeOf(parsed.value.ip), now);
        }
        i := i + 1;
      }
    }

    /** Every IPv4 socket the registry knows joins the dial list, at its end and only once. */
    method ExtendPeerAddrs()
      requires Distinct(peerAddrs)
      modifies this`peerAddrs
      ensures old(peerAddrs) <= peerAddrs && Distinct(peerAddrs)
      ensures Elems(peerAddrs) == old(Elems(peerAddrs)) + Dialable(Pairs(registry.nodes))
    {
      hide *;
      var derived, order := Derive(h, registry);
      DialableListed(order, Pairs(registry.nodes));
      DerivedSeeds(h, order);
      NoSockets(order, peerAddrs);
      ghost var was := peerAddrs;
      var i := 0;
      while i < |derived.seeds|
        invariant 0 <= i <= |derived.seeds| == |order|
        invariant was <= peerAddrs && Distinct(peerAddrs)
        invariant Elems(peerAddrs) == Elems(was) + V4Sockets(order[..i])
      {
        DialStep(peerAddrs, was, order, i);
        var parsed := derived.seeds[i].SocketAddress();
        if parsed.Some? && parsed.value !in peerAddrs {
          peerAddrs := peerAddrs + [parsed.value];
        }
        i := i + 1;
      }
      assert order[..i] == order;
    }

    /** What all three handlers do with the list they received. */
    method Receive(seeds: seq<SeedInfo>, now: nat)
      requires Keyed(registry.nodes) && Distinct(peerAddrs)
      modifies this, registry
      ensures registry.nodes == Absorb(old(registry.nodes), seeds, scopeOf, now)
      ensures Keyed(registry.nodes) && Pairs(registry.nodes) == old(Pairs(registry.nodes)) + Parsed(seeds)
      ensures old(peerAddrs) <= peerAddrs && Distinct(peerAddrs)
      ensures Elems(peerAddrs) == old(Elems(peerAddrs)) + Dialable(Pairs(registry.nodes))
    {
      AbsorbPairs(registry.nodes, seeds, scopeOf, now);
      RegisterSeeds(seeds, now);
      ExtendPeerAddrs();
    }

    method HandleRequest(request: SeedSet, now: nat) returns (response: SyncResponse, ghost order: seq<Pair>)
      requires Keyed(registry.nodes) && Distinct(peerAddrs)
      modifies this, registry
      ensures registry.nodes == Absorb(old(registry.nodes), request.seeds, scopeOf, now)
      ensures Pairs(registry.nodes) == old(Pairs(registry.nodes)) + Parsed(request.seeds)
      ensures Elems(peerAddrs) == old(Elems(peerAddrs)) + Dialable(Pairs(registry.nodes))
      ensures Keyed(registry.nodes) && Distinct(peerAddrs)
      ensures Enumerates(order, NonZero(Pairs(registry.nodes)))
      ensures response.seedSet == New(h, NonLoopback(Infos(order)), 0)
      ensures Parsed(response.seedSet.seeds) == Syncable(Pairs(registry.nodes))
      ensures response.hash == response.seedSet.hash && Verify(h, response.seedSet)
    {
      Receive(request.seeds, now);
      var derived;
      derived, order := Derive(h, registry);
      ParsedAnswer(order, Pairs(registry.nodes));
      var filtered := FilterLoopback(h, derived);
      response := SyncResponse(filtered, filtered.hash);
    }

    method HandleResponse(response: SyncResponse, now: nat)
      requires Keyed(registry.nodes) && Distinct(peerAddrs)
      modifies this, registry
      ensures registry.nodes == Absorb(old(registry.nodes), response.seedSet.seeds, scopeOf, now)
      ensures Pairs(registry.nodes) == old(Pairs(registry.nodes)) + Parsed(response.seedSet.seeds)
      ensures Elems(peerAddrs) == old(Elems(peerAddrs)) + Dialable(Pairs(registry.nodes))
      ensures Keyed(registry.nodes) && Distinct(peerAddrs)
    {
      Receive(response.seedSet.seeds, now);
    }

    method HandleCommit(commit: SeedSet, now: nat)
      requires Keyed(registry.nodes) && Distinct(peerAddrs)
      modifies this, registry
      ensures registry.nodes == Absorb(old(registry.nodes), commit.seeds, scopeOf, now)
      ensures Pairs(registry.nodes) == old(Pairs(registry.nodes)) + Parsed(commit.seeds)
      ensures Elems(peerAddrs) == old(Elems(peerAddrs)) + Dialable(Pairs(registry.nodes))
      ensures Keyed(registry.nodes) && Distinct(peerAddrs)
    {
      Receive(commit.seeds, now);
    }
  }

  /** One request and its response, run through the handlers of two nodes, leave both
      with the same pairs of the kind that travels: what either had before. */
  method Exchange(a: SyncNode, b: SyncNode, now: nat)
    requires a != b && a.registry != b.registry && a.h == b.h
    requires Keyed(a.registry.nodes) && Keyed(b.registry.nodes) && Distinct(a.peerAddrs) && Distinct(b.peerAddrs)
    modifies a, b, a.registry, b.registry
    ensures Syncable(Pairs(a.registry.nodes)) == Syncable(Pairs(b.registry.nodes))
         == old(Syncable(Pairs(a.registry.nodes)) + Syncable(Pairs(b.registry.nodes)))
    ensures Pairs(b.registry.nodes) == old(Pairs(b.registry.nodes)) + old(Sendable(Pairs(a.registry.nodes)))
    ensures Pairs(a.registry.nodes) == old(Pairs(a.registry.nodes)) + Syncable(Pairs(b.registry.nodes))
  {
    hide *;
    ghost var held, other := Pairs(a.registry.nodes), Pairs(b.registry.nodes);
    var request, order := Derive(a.h, a.registry);
    DerivedSeeds(a.h, order);
    ParsedInfos(order, held);
    var response, answered := b.HandleRequest(request, now);
    a.HandleResponse(response, now);
    ExchangedPairs(held, other);
  }

  lemma ExchangedPairs(held: set<Pair>, other: set<Pair>)
    ensures var other' := other + Sendable(held);
            Syncable(held + Syncable(other')) == Syncable(other') == Syncable(held) + Syncable(other)
  {
  }
}
