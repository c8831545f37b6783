/** Return connections: every inbound handshake makes the receiver dial back, until the mesh is symmetric. */
module Mesh {
  import opened Collections
  import opened Net

  type Id = string

  /** A full OnLine handshake on its way: the ephemeral socket it comes from, and the advertised listening port. */
  datatype OnLine = OnLine(from: Id, to: Id, sock: SocketAddr, port: Port)

  /** A return dial that has been decided on and spawned, but has not connected yet. */
  datatype Task = Task(from: Id, addr: SocketAddr)

  /** servers[n] holds the endpoints n has connected to. */
  datatype State = State(
    servers: map<Id, set<SocketAddr>>,
    pending: multiset<OnLine>,
    tasks: multiset<Task>)

  type Listening = map<Id, SocketAddr>

  ghost predicate OneEndpointEach(listen: Listening) {
    forall a, b | a in listen && b in listen && listen[a] == listen[b] :: a == b
  }

  /** A connection's source socket: the dialler's address, on a port nobody listens on. */
  ghost predicate Ephemeral(listen: Listening, from: Id, sock: SocketAddr)
    requires from in listen
  {
    sock.ip == listen[from].ip && forall n | n in listen :: listen[n] != sock
  }

  // ---------------------------------------------------------------- the decision in the handler

  /** Only connections the node itself made count: the inbound one must not block the way back. */
  function ReturnTarget(servers: set<SocketAddr>, m: OnLine): Option<SocketAddr> {
    var peerAddr := SocketAddr(m.sock.ip, m.port);
    if m.sock in servers || peerAddr in servers then None else Some(peerAddr)
  }

  class Connections {
    var servers: set<SocketAddr>

    constructor ()
      ensures servers == {}
    {
      servers := {};
    }

    method PlanReturn(m: OnLine) returns (target: Option<SocketAddr>)
      ensures target == ReturnTarget(servers, m)
      ensures target == None <==> m.sock in servers || SocketAddr(m.sock.ip, m.port) in servers
      ensures target.Some? ==> target.value == SocketAddr(m.sock.ip, m.port)
    {
      var peerAddr := SocketAddr(m.sock.ip, m.port);
      var alreadyConnected := m.sock in servers;
      if !alreadyConnected {
        alreadyConnected := peerAddr in servers;
      }
      if alreadyConnected {
        target := None;
      } else {
        target := Some(peerAddr);
      }
    }
  }

  // ---------------------------------------------------------------- the network

  datatype Event =
    | Start(a: Id, b: Id, sock: SocketAddr)
    | Receive(m: OnLine)
    | Complete(t: Task, to: Id, sock: SocketAddr)

  ghost predicate Connects(listen: Listening, s: State, s': State, a: Id, b: Id, sock: SocketAddr, tasks: multiset<Task>)
    requires a in listen && b in listen && a in s.servers
  {
    && Ephemeral(listen, a, sock)
    && s' == State(s.servers[a := s.servers[a] + {listen[b]}],
                   s.pending + multiset{OnLine(a, b, sock, listen[a].port)}, tasks)
  }

  ghost predicate Step(listen: Listening, s: State, s': State, e: Event) {
    match e
    case Start(a, b, sock) =>
      && a in listen && b in listen && a in s.servers && listen[b] !in s.servers[a]
      && Connects(listen, s, s', a, b, sock, s.tasks)
    case Receive(m) =>
      && m in s.pending && m.to in s.servers
      && s'.servers == s.servers && s'.pending == s.pending - multiset{m}
      && s'.tasks == s.tasks + (match ReturnTarget(s.servers[m.to], m)
                                case Some(addr) => multiset{Task(m.to, addr)}
                                case None => multiset{})
    case Complete(t, to, sock) =>
      && t in s.tasks && t.from in s.servers && t.from in listen && to in listen && listen[to] == t.addr
      && var tasks := s.tasks - multiset{t};
         if t.addr in s.servers[t.from] then s' == s.(tasks := tasks)
         else Connects(listen, s, s', t.from, to, sock, tasks)
  }

  predicate Edge(listen: Listening, s: State, a: Id, b: Id) {
    a in s.servers && b in listen && listen[b] in s.servers[a]
  }

  ghost predicate Undelivered(s: State, a: Id, b: Id) {
    exists m | m in s.pending :: m.from == a && m.to == b
  }

  ghost predicate Spawned(listen: Listening, s: State, a: Id, b: Id) {
    b in listen && Task(a, listen[b]) in s.tasks
  }

  ghost predicate MsgOk(listen: Listening, s: State, m: OnLine) {
    && m.from in listen && m.to in listen && Edge(listen, s, m.from, m.to)
    && Ephemeral(listen, m.from, m.sock) && m.port == listen[m.from].port
  }

  ghost predicate TaskOk(listen: Listening, s: State, t: Task) {
    t.from in listen && exists b | b in listen :: listen[b] == t.addr && Edge(listen, s, b, t.from)
  }

  ghost predicate ServersOk(listen: Listening, s: State) {
    && s.servers.Keys == listen.Keys
    && forall a | a in s.servers :: s.servers[a] <= listen.Values
  }

  ghost predicate Shape(listen: Listening, s: State) {
    && ServersOk(listen, s)
    && (forall m | m in s.pending :: MsgOk(listen, s, m))
    && (forall t | t in s.tasks :: TaskOk(listen, s, t))
  }

  /** Each connection has its way back, or something under way that will make it. */
  ghost predicate Balanced(listen: Listening, s: State) {
    forall a, b | Edge(listen, s, a, b) ::
      Edge(listen, s, b, a) || Undelivered(s, a, b) || Spawned(listen, s, b, a)
  }

  ghost predicate Inv(listen: Listening, s: State) {
    OneEndpointEach(listen) && Shape(listen, s) && Balanced(listen, s)
  }

  /** The handler sees the peer's endpoint, and finds it connected exactly if the way back exists. */
  lemma TargetIsPeer(listen: Listening, s: State, m: OnLine)
    requires OneEndpointEach(listen) && Shape(listen, s) && m in s.pending
    ensures m.to in s.servers
    ensures ReturnTarget(s.servers[m.to], m) == if Edge(listen, s, m.to, m.from) then None else Some(listen[m.from])
  {
    assert MsgOk(listen, s, m);
    assert SocketAddr(m.sock.ip, m.port) == listen[m.from];
    assert forall x | x in listen.Values :: x != m.sock;
  }

  ghost predicate EdgesGrow(listen: Listening, s: State, s': State) {
    && s'.servers.Keys == s.servers.Keys
    && forall c, d | Edge(listen, s, c, d) :: Edge(listen, s', c, d)
  }

  lemma ShapeGrows(listen: Listening, s: State, s': State, sent: multiset<OnLine>, spawned: multiset<Task>)
    requires Shape(listen, s) && EdgesGrow(listen, s, s') && ServersOk(listen, s')
    requires s'.pending <= s.pending + sent && forall m | m in sent :: MsgOk(listen, s', m)
    requires s'.tasks <= s.tasks + spawned && forall t | t in spawned :: TaskOk(listen, s', t)
    ensures Shape(listen, s')
  {
    forall m | m in s'.pending
      ensures MsgOk(listen, s', m)
    {
      assert m in s.pending || m in sent;
    }
    forall t | t in s'.tasks
      ensures TaskOk(listen, s', t)
    {
      if t in s.tasks {
        assert TaskOk(listen, s, t);
        var b :| b in listen && listen[b] == t.addr && Edge(listen, s, b, t.from);
        assert Edge(listen, s', b, t.from);
      } else {
        assert t in spawned;
      }
    }
  }

  /** Nothing that still waits at s is forgotten at s', except what covers the connection a to b. */
  ghost predicate Keeps(listen: Listening, s: State, s': State, a: Id, b: Id) {
    && (forall c, d | Undelivered(s, c, d) && (c, d) != (a, b) :: Undelivered(s', c, d))
    && (forall c, d | Spawned(listen, s, d, c) && (c, d) != (a, b) :: Spawned(listen, s', d, c))
  }

  lemma UndeliveredKept(s: State, s': State, gone: multiset<OnLine>, a: Id, b: Id)
    requires s.pending - gone <= s'.pending && forall m | m in gone :: m.from == a && m.to == b
    ensures forall c, d | Undelivered(s, c, d) && (c, d) != (a, b) :: Undelivered(s', c, d)
  {
    forall c, d | Undelivered(s, c, d) && (c, d) != (a, b)
      ensures Undelivered(s', c, d)
    {
      var k :| k in s.pending && k.from == c && k.to == d;
      assert k !in gone;
      assert k in s.pending - gone;
    }
  }

  lemma SpawnedKept(listen: Listening, s: State, s': State, gone: multiset<Task>, a: Id, b: Id)
    requires OneEndpointEach(listen)
    requires a in listen && s.tasks - gone <= s'.tasks && forall t | t in gone :: t == Task(b, listen[a])
    ensures forall c, d | Spawned(listen, s, d, c) && (c, d) != (a, b) :: Spawned(listen, s', d, c)
  {
    forall c, d | Spawned(listen, s, d, c) && (c, d) != (a, b)
      ensures Spawned(listen, s', d, c)
    {
      assert Task(d, listen[c]) !in gone;
      assert Task(d, listen[c]) in s.tasks - gone;
    }
  }

  lemma BalanceGrows(listen: Listening, s: State, s': State, a: Id, b: Id)
    requires Balanced(listen, s) && EdgesGrow(listen, s, s') && Keeps(listen, s, s', a, b)
    requires forall c, d | Edge(listen, s', c, d) && !Edge(listen, s, c, d) ::
      Edge(listen, s', d, c) || Undelivered(s', c, d) || Spawned(listen, s', d, c)
    requires Edge(listen, s', a, b) ==> Edge(listen, s', b, a) || Undelivered(s', a, b) || Spawned(listen, s', b, a)
    ensures Balanced(listen, s')
  {
    hide Edge, Undelivered, Spawned;
  }

  lemma EdgesAfterConnect(listen: Listening, s: State, s': State, a: Id, b: Id, sock: SocketAddr, tasks: multiset<Task>)
    requires OneEndpointEach(listen) && a in listen && b in listen && a in s.servers
    requires Connects(listen, s, s', a, b, sock, tasks)
    ensures forall c, d :: Edge(listen, s', c, d) <==> Edge(listen, s, c, d) || (c == a && d == b)
  {
  }

  lemma ConnectLocal(listen: Listening, s: State, s': State, a: Id, b: Id, sock: SocketAddr, tasks: multiset<Task>)
    requires ServersOk(listen, s) && a in listen && b in listen && Connects(listen, s, s', a, b, sock, tasks)
    ensures ServersOk(listen, s') && MsgOk(listen, s', OnLine(a, b, sock, listen[a].port))
  {
    assert listen[b] in listen.Values;
  }

  lemma ConnectKeepsShape(listen: Listening, s: State, s': State, a: Id, b: Id, sock: SocketAddr, tasks: multiset<Task>)
    requires Inv(listen, s) && a in listen && b in listen && tasks <= s.tasks
    requires Connects(listen, s, s', a, b, sock, tasks)
    ensures Shape(listen, s') && EdgesGrow(listen, s, s')
  {
    EdgesAfterConnect(listen, s, s', a, b, sock, tasks);
    var sent := OnLine(a, b, sock, listen[a].port);
    ConnectLocal(listen, s, s', a, b, sock, tasks);
    hide Edge, ServersOk, MsgOk, TaskOk, Balanced;
    ShapeGrows(listen, s, s', multiset{sent}, multiset{});
  }

  lemma ConnectKeepsInv(listen: Listening, s: State, s': State, a: Id, b: Id, sock: SocketAddr, gone: multiset<Task>)
    requires Inv(listen, s) && a in listen && b in listen
    requires Connects(listen, s, s', a, b, sock, s.tasks - gone)
    requires forall t | t in gone :: t == Task(a, listen[b])
    ensures Inv(listen, s')
  {
    ConnectKeepsShape(listen, s, s', a, b, sock, s.tasks - gone);
    EdgesAfterConnect(listen, s, s', a, b, sock, s.tasks - gone);
    UndeliveredKept(s, s', multiset{}, b, a);
    SpawnedKept(listen, s, s', gone, b, a);
    assert OnLine(a, b, sock, listen[a].port) in s'.pending;
    assert Undelivered(s', a, b);
    hide Edge, Shape, Undelivered, Spawned;
    BalanceGrows(listen, s, s', b, a);
  }

  /** Handling a message spawns the way back unless it exists. */
  lemma ReceiveSpawns(listen: Listening, s: State, s': State, m: OnLine)
    requires Inv(listen, s) && Step(listen, s, s', Receive(m))
    ensures MsgOk(listen, s, m)
    ensures s' == State(s.servers, s.pending - multiset{m},
      if Edge(listen, s, m.to, m.from) then s.tasks else s.tasks + multiset{Task(m.to, listen[m.from])})
    ensures Edge(listen, s, m.to, m.from) || Spawned(listen, s', m.to, m.from)
  {
    TargetIsPeer(listen, s, m);
    assert s.tasks + multiset{} == s.tasks;
  }

  lemma ReceiveKeepsShape(listen: Listening, s: State, s': State, m: OnLine)
    requires Inv(listen, s) && Step(listen, s, s', Receive(m))
    ensures Shape(listen, s') && EdgesGrow(listen, s, s')
  {
    ReceiveSpawns(listen, s, s', m);
    assert forall c, d :: Edge(listen, s', c, d) <==> Edge(listen, s, c, d);
    var back := Task(m.to, listen[m.from]);
    assert ServersOk(listen, s') && TaskOk(listen, s', back);
    hide Edge, ServersOk, MsgOk, TaskOk, Balanced, Step;
    ShapeGrows(listen, s, s', multiset{}, multiset{back});
  }

  lemma SameServers(listen: Listening, s: State, s': State)
    requires s'.servers == s.servers
    ensures forall c, d :: Edge(listen, s', c, d) <==> Edge(listen, s, c, d)
  {
  }

  lemma ReceiveKeepsInv(listen: Listening, s: State, s': State, m: OnLine)
    requires Inv(listen, s) && Step(listen, s, s', Receive(m))
    ensures Inv(listen, s')
  {
    hide Edge, Shape, Undelivered, Spawned, MsgOk, Step;
    ReceiveSpawns(listen, s, s', m);
    ReceiveKeepsShape(listen, s, s', m);
    UndeliveredKept(s, s', multiset{m}, m.from, m.to);
    ReceiveKeepsSpawned(listen, s, s');
    SameServers(listen, s, s');
    BalanceGrows(listen, s, s', m.from, m.to);
  }

  lemma ReceiveKeepsSpawned(listen: Listening, s: State, s': State)
    requires s.tasks <= s'.tasks
    ensures forall c, d | Spawned(listen, s, d, c) :: Spawned(listen, s', d, c)
  {
  }

  lemma DropTaskLocal(listen: Listening, s: State, s': State, t: Task, to: Id)
    requires Inv(listen, s) && t.from in listen && to in listen && listen[to] == t.addr
    requires t.addr in s.servers[t.from] && s' == s.(tasks := s.tasks - multiset{t})
    ensures ServersOk(listen, s') && EdgesGrow(listen, s, s') && Edge(listen, s', t.from, to)
    ensures forall c, d :: Edge(listen, s', c, d) <==> Edge(listen, s, c, d)
  {
    SameServers(listen, s, s');
  }

  lemma DropTaskKeepsInv(listen: Listening, s: State, t: Task, to: Id)
    requires Inv(listen, s) && t in s.tasks && t.from in listen && to in listen && listen[to] == t.addr
    requires t.addr in s.servers[t.from]
    ensures Inv(listen, s.(tasks := s.tasks - multiset{t}))
  {
    var s' := s.(tasks := s.tasks - multiset{t});
    DropTaskLocal(listen, s, s', t, to);
    hide Edge, EdgesGrow, ServersOk, MsgOk, TaskOk, Undelivered, Spawned, OneEndpointEach, Shape, Balanced;
    UndeliveredKept(s, s', multiset{}, to, t.from);
    SpawnedKept(listen, s, s', multiset{t}, to, t.from);
    ShapeGrows(listen, s, s', multiset{}, multiset{});
    BalanceGrows(listen, s, s', to, t.from);
  }

  lemma StepKeepsInv(listen: Listening, s: State, s': State, e: Event)
    requires Inv(listen, s) && Step(listen, s, s', e)
    ensures Inv(listen, s')
  {
    match e
    case Start(a, b, sock) =>
      assert s.tasks - multiset{} == s.tasks;
      ConnectKeepsInv(listen, s, s', a, b, sock, multiset{});
    case Receive(m) =>
      ReceiveKeepsInv(listen, s, s', m);
    case Complete(t, to, sock) =>
      if t.addr in s.servers[t.from] {
        DropTaskKeepsInv(listen, s, t, to);
      } else {
        ConnectKeepsInv(listen, s, s', t.from, to, sock, multiset{t});
      }
  }

  ghost predicate IsRun(listen: Listening, states: seq<State>, events: seq<Event>) {
    && |states| == |events| + 1
    && forall i | 0 <= i < |events| :: Step(listen, states[i], states[i + 1], events[i])
  }

  ghost predicate Symmetric(listen: Listening, s: State) {
    forall a, b | Edge(listen, s, a, b) :: Edge(listen, s, b, a)
  }

  ghost predicate NoConnections(listen: Listening, s: State) {
    s.servers.Keys == listen.Keys && (forall a | a in s.servers :: s.servers[a] == {})
    && s.pending == multiset{} && s.tasks == multiset{}
  }

  /** In every reachable state each connection A to B has its reverse, an undelivered OnLine from A at B,
      or a return dial already spawned at B; so the mesh is symmetric whenever nothing is under way. */
  lemma {:induction false} MeshBalances(listen: Listening, states: seq<State>, events: seq<Event>, i: nat)
    requires OneEndpointEach(listen) && IsRun(listen, states, events) && i < |states|
    requires NoConnections(listen, states[0])
    ensures Inv(listen, states[i])
    ensures states[i].pending == multiset{} && states[i].tasks == multiset{} ==> Symmetric(listen, states[i])
  {
    hide Step, ServersOk;
    if i > 0 {
      MeshBalances(listen, states, events, i - 1);
      assert Step(listen, states[i - 1], states[i - 1 + 1], events[i - 1]);
      StepKeepsInv(listen, states[i - 1], states[i], events[i - 1]);
    } else {
      EmptyInv(listen, states[0]);
    }
  }

  lemma EmptyInv(listen: Listening, s: State)
    requires OneEndpointEach(listen) && NoConnections(listen, s)
    ensures Inv(listen, s)
  {
  }

  /** Every node can still open a connection: some port of its address has no listener. */
  ghost predicate FreePorts(listen: Listening) {
    forall a | a in listen :: exists sock :: Ephemeral(listen, a, sock)
  }

  lemma ReceivePossible(listen: Listening, s: State, m: OnLine) returns (s': State)
    requires Shape(listen, s) && m in s.pending
    ensures Step(listen, s, s', Receive(m))
  {
    assert MsgOk(listen, s, m);
    var spawned := match ReturnTarget(s.servers[m.to], m) case Some(addr) => multiset{Task(m.to, addr)} case None => multiset{};
    s' := State(s.servers, s.pending - multiset{m}, s.tasks + spawned);
  }

  lemma CompletePossible(listen: Listening, s: State, t: Task) returns (e: Event, s': State)
    requires Shape(listen, s) && FreePorts(listen) && t in s.tasks
    ensures e.Complete? && Step(listen, s, s', e)
  {
    assert TaskOk(listen, s, t);
    var b :| b in listen && listen[b] == t.addr;
    var sock :| Ephemeral(listen, t.from, sock);
    e := Complete(t, b, sock);
    var tasks := s.tasks - multiset{t};
    if t.addr in s.servers[t.from] {
      s' := s.(tasks := tasks);
    } else {
      s' := State(s.servers[t.from := s.servers[t.from] + {listen[b]}],
                  s.pending + multiset{OnLine(t.from, b, sock, listen[t.from].port)}, tasks);
    }
  }

  /** While anything is under way, a step from inside is possible; so a state in which only outside dials are
      possible has a symmetric mesh. */
  lemma StuckIsSymmetric(listen: Listening, s: State)
    requires Inv(listen, s) && FreePorts(listen)
    requires forall e, s' :: Step(listen, s, s', e) ==> e.Start?
    ensures s.pending == multiset{} && s.tasks == multiset{} && Symmetric(listen, s)
  {
    hide Step, Shape;
    if s.pending != multiset{} {
      var m :| m in s.pending;
      var s' := ReceivePossible(listen, s, m);
    }
    if s.tasks != multiset{} {
      var t :| t in s.tasks;
      var e, s' := CompletePossible(listen, s, t);
    }
  }

  // ---------------------------------------------------------------- only finitely many return dials

  /** Connections without a way back. */
  function Lonely(listen: Listening, s: State): set<(Id, Id)> {
    set a, b | a in listen && b in listen && Edge(listen, s, a, b) && !Edge(listen, s, b, a) :: (a, b)
  }

  function Measure(listen: Listening, s: State): nat {
    2 * |Lonely(listen, s)| + 2 * |s.pending| + |s.tasks|
  }

  /** A return dial is a spawned dial that really makes a new connection. */
  predicate ReturnDial(s: State, e: Event) {
    e.Complete? && e.t.from in s.servers && e.t.addr !in s.servers[e.t.from]
  }

  lemma LonelyAfterConnect(listen: Listening, s: State, s': State, a: Id, b: Id, sock: SocketAddr, tasks: multiset<Task>)
    requires OneEndpointEach(listen) && a in listen && b in listen && a in s.servers && !Edge(listen, s, a, b)
    requires Connects(listen, s, s', a, b, sock, tasks)
    ensures |Lonely(listen, s')| <= |Lonely(listen, s)| + 1
    ensures a != b && Edge(listen, s, b, a) ==> |Lonely(listen, s')| == |Lonely(listen, s)| - 1
  {
    EdgesAfterConnect(listen, s, s', a, b, sock, tasks);
    var before, after := Lonely(listen, s), Lonely(listen, s');
    SubsetSize(after, before + {(a, b)});
    if a != b && Edge(listen, s, b, a) {
      assert (b, a) in before;
      assert after == before - {(b, a)};
    }
  }

  lemma LonelyByEdges(listen: Listening, s: State, s': State)
    requires s'.servers == s.servers
    ensures Lonely(listen, s') == Lonely(listen, s)
  {
    assert forall c, d :: Edge(listen, s', c, d) <==> Edge(listen, s, c, d);
  }

  lemma CompleteLonely(listen: Listening, s: State, s': State, t: Task, to: Id, sock: SocketAddr)
    requires Inv(listen, s) && Step(listen, s, s', Complete(t, to, sock))
    requires t.addr !in s.servers[t.from]
    ensures |Lonely(listen, s')| == |Lonely(listen, s)| - 1
  {
    assert TaskOk(listen, s, t);
    var n :| n in listen && listen[n] == t.addr && Edge(listen, s, n, t.from);
    assert n == to;
    LonelyAfterConnect(listen, s, s', t.from, to, sock, s.tasks - multiset{t});
  }

  lemma StartMeasure(listen: Listening, s: State, s': State, a: Id, b: Id, sock: SocketAddr)
    requires OneEndpointEach(listen) && Step(listen, s, s', Start(a, b, sock))
    ensures |Lonely(listen, s')| <= |Lonely(listen, s)| + 1
    ensures |s'.pending| == |s.pending| + 1 && s'.tasks == s.tasks
  {
    assert !Edge(listen, s, a, b);
    LonelyAfterConnect(listen, s, s', a, b, sock, s.tasks);
    hide Lonely, Edge;
  }

  lemma ReceiveMeasure(listen: Listening, s: State, s': State, m: OnLine)
    requires Step(listen, s, s', Receive(m))
    ensures |Lonely(listen, s')| == |Lonely(listen, s)|
    ensures |s'.pending| == |s.pending| - 1 && |s'.tasks| <= |s.tasks| + 1
  {
    LonelyByEdges(listen, s, s');
    hide Lonely, ReturnTarget;
  }

  lemma CompleteMeasure(listen: Listening, s: State, s': State, t: Task, to: Id, sock: SocketAddr)
    requires Inv(listen, s) && Step(listen, s, s', Complete(t, to, sock))
    ensures |s'.tasks| == |s.tasks| - 1
    ensures if ReturnDial(s, Complete(t, to, sock))
            then |Lonely(listen, s')| == |Lonely(listen, s)| - 1 && |s'.pending| == |s.pending| + 1
            else |Lonely(listen, s')| == |Lonely(listen, s)| && s'.pending == s.pending
  {
    if t.addr in s.servers[t.from] {
      LonelyByEdges(listen, s, s');
    } else {
      CompleteLonely(listen, s, s', t, to, sock);
    }
    hide Lonely, Inv;
  }

  lemma StepMeasure(listen: Listening, s: State, s': State, e: Event)
    requires Inv(listen, s) && Step(listen, s, s', e)
    ensures e.Start? ==> Measure(listen, s') <= Measure(listen, s) + 4
    ensures !e.Start? ==> Measure(listen, s') < Measure(listen, s)
    ensures |Lonely(listen, s')| + (if ReturnDial(s, e) then 1 else 0)
         <= |Lonely(listen, s)| + (if e.Start? then 1 else 0)
  {
    assert OneEndpointEach(listen);
    hide Lonely, Inv, ReturnTarget, Step;
    match e
    case Start(a, b, sock) => StartMeasure(listen, s, s', a, b, sock);
    case Receive(m) => ReceiveMeasure(listen, s, s', m);
    case Complete(t, to, sock) => CompleteMeasure(listen, s, s', t, to, sock);
  }

  function Starts(events: seq<Event>): nat {
    if events == [] then 0 else (if events[0].Start? then 1 else 0) + Starts(events[1..])
  }

  function ReturnDials(states: seq<State>, events: seq<Event>): nat
    requires |states| == |events| + 1
    decreases |events|
  {
    if events == [] then 0
    else (if ReturnDial(states[0], events[0]) then 1 else 0) + ReturnDials(states[1..], events[1..])
  }

  /** A run makes at most one return dial for each dial begun from outside and each connection still
      without a way back at its start; and between outside dials only finitely many steps are possible. */
  lemma {:induction false} ReturnDialsBounded(listen: Listening, states: seq<State>, events: seq<Event>)
    requires IsRun(listen, states, events) && Inv(listen, states[0])
    ensures ReturnDials(states, events) + |Lonely(listen, states[|events|])| <= |Lonely(listen, states[0])| + Starts(events)
    ensures |events| - Starts(events) + Measure(listen, states[|events|]) <= Measure(listen, states[0]) + 4 * Starts(events)
    decreases |events|
  {
    hide Step, Inv, Measure, Lonely, ReturnDial;
    if events != [] {
      StepMeasure(listen, states[0], states[1], events[0]);
      StepKeepsInv(listen, states[0], states[1], events[0]);
      forall i | 0 <= i < |events[1..]|
        ensures Step(listen, states[1..][i], states[1..][i + 1], events[1..][i])
      {
        var k := i + 1;
        assert Step(listen, states[k], states[k + 1], events[k]);
      }
      ReturnDialsBounded(listen, states[1..], events[1..]);
    }
  }
}
