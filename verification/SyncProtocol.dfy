/** Seed synchronisation among any number of nodes: no invention and no loss over every run,
    and the convergence of one node's sync cycle. */
module SyncProtocol {
  import opened Collections
  import opened Net
  import opened Registry
  import opened SeedSets
  import opened SeedSync

  type Id = string
  type Held = map<Id, set<Pair>>

  // ---------------------------------------------------------------- arbitrary runs

  datatype Msg =
    | Request(from: Id, to: Id, seeds: seq<SeedInfo>)
    | Response(to: Id, seeds: seq<SeedInfo>)
    | Commit(to: Id, seeds: seq<SeedInfo>)

  datatype World = World(held: Held, flight: multiset<Msg>)

  /** What may happen next. The order is the one in which a registry happened to be iterated. */
  datatype Event =
    | Ask(from: Id, to: Id, order: seq<Pair>)
    | Announce(from: Id, to: Id, order: seq<Pair>)
    | Deliver(msg: Msg, order: seq<Pair>)
    | Lose(msg: Msg)

  ghost predicate Step(w: World, w': World, e: Event) {
    match e
    case Ask(from, to, order) =>
      && from in w.held && Enumerates(order, NonZero(w.held[from]))
      && w' == w.(flight := w.flight + multiset{Request(from, to, Infos(order))})
    case Announce(from, to, order) =>
      && from in w.held && Enumerates(order, NonZero(w.held[from]))
      && w' == w.(flight := w.flight + multiset{Commit(to, Infos(order))})
    case Deliver(msg, order) =>
      && msg in w.flight && msg.to in w.held
      && w'.held == w.held[msg.to := w.held[msg.to] + Parsed(msg.seeds)]
      && (if msg.Request? then
            Enumerates(order, NonZero(w'.held[msg.to]))
            && w'.flight == w.flight - multiset{msg} + multiset{Response(msg.from, NonLoopback(Infos(order)))}
          else
            w'.flight == w.flight - multiset{msg})
    case Lose(msg) =>
      msg in w.flight && w' == w.(flight := w.flight - multiset{msg})
  }

  ghost predicate IsRun(worlds: seq<World>, events: seq<Event>) {
    && |worlds| == |events| + 1
    && forall i | 0 <= i < |events| :: Step(worlds[i], worlds[i + 1], events[i])
  }

  function Everything(held: Held): set<Pair> {
    set n, p | n in held && p in held[n] :: p
  }

  /** Every seed of the list is the printing of one of the pairs. */
  ghost predicate Describes(seeds: seq<SeedInfo>, pairs: set<Pair>) {
    forall s | s in seeds :: exists p | p in pairs :: s == InfoOf(p)
  }

  ghost predicate Sound(w: World, start: Held) {
    && w.held.Keys == start.Keys
    && (forall n | n in start :: start[n] <= w.held[n] <= Everything(start))
    && (forall m | m in w.flight :: Describes(m.seeds, Everything(start)))
  }

  lemma DescribedParses(seeds: seq<SeedInfo>, pairs: set<Pair>)
    requires Describes(seeds, pairs)
    ensures Parsed(seeds) <= pairs
  {
    forall addr: SocketAddr, node: string | (addr, node) in Parsed(seeds)
      ensures (addr, node) in pairs
    {
      var s :| s in seeds && s.SocketAddress() == Some(addr) && s.nodeId == node;
      var p :| p in pairs && s == InfoOf(p);
      ParsedInfo(p);
    }
  }

  lemma DerivedDescribes(order: seq<Pair>, pairs: set<Pair>)
    requires Elems(order) <= pairs
    ensures Describes(Infos(order), pairs) && Describes(NonLoopback(Infos(order)), pairs)
  {
    forall s | s in Infos(order)
      ensures exists p | p in pairs :: s == InfoOf(p)
    {
      var i :| 0 <= i < |order| && Infos(order)[i] == s;
      assert order[i] in Elems(order);
    }
  }

  lemma StepSound(w: World, w': World, e: Event, start: Held)
    requires Sound(w, start) && Step(w, w', e)
    ensures Sound(w', start)
    ensures forall n | n in start :: w.held[n] <= w'.held[n]
  {
    match e
    case Ask(from, to, order) =>
      DerivedDescribes(order, Everything(start));
    case Announce(from, to, order) =>
      DerivedDescribes(order, Everything(start));
    case Deliver(msg, order) =>
      DescribedParses(msg.seeds, Everything(start));
      assert w'.held[msg.to] <= Everything(start);
      if msg.Request? {
        DerivedDescribes(order, Everything(start));
      }
    case Lose(msg) =>
  }

  /** Over every run of request, response and commit steps, with losses: nothing is held or under way
      that some registry did not hold at the start, and no registry ever loses a pair. */
  lemma {:induction false} NothingInventedNothingLost(worlds: seq<World>, events: seq<Event>, i: nat)
    requires IsRun(worlds, events) && i < |worlds|
    requires worlds[0].flight == multiset{}
    ensures Sound(worlds[i], worlds[0].held)
    ensures i > 0 ==> forall n | n in worlds[0].held :: worlds[i - 1].held[n] <= worlds[i].held[n]
  {
    var start := worlds[0].held;
    if i == 0 {
      forall n | n in start
        ensures start[n] <= Everything(start)
      {
      }
    } else {
      NothingInventedNothingLost(worlds, events, i - 1);
      StepSound(worlds[i - 1], worlds[i], events[i - 1], start);
    }
  }

  /** A request that is delivered and answered does in the protocol what the two handlers do: the peer learns what
      the asker can send, the asker what the peer then can answer, and nobody else anything. */
  lemma ExchangeTeaches(w: World, w1: World, w2: World, w3: World, a: Id, b: Id, order: seq<Pair>, answer: seq<Pair>)
    requires a != b && a in w.held && b in w.held
    requires Step(w, w1, Ask(a, b, order))
    requires Step(w1, w2, Deliver(Request(a, b, Infos(order)), answer))
    requires Step(w2, w3, Deliver(Response(a, NonLoopback(Infos(answer))), []))
    ensures w3.held[b] == w.held[b] + Sendable(w.held[a])
    ensures w3.held[a] == w.held[a] + Syncable(w3.held[b])
    ensures w3.held.Keys == w.held.Keys && forall n | n in w.held && n !in {a, b} :: w3.held[n] == w.held[n]
    ensures w3.flight == w.flight
  {
    hide Infos, NonLoopback, Sendable, Syncable, Parsed;
    ParsedInfos(order, w.held[a]);
    ParsedAnswer(answer, w2.held[b]);
  }

  lemma AnnouncementTeaches(w: World, w1: World, w2: World, a: Id, b: Id, order: seq<Pair>)
    requires a in w.held && b in w.held
    requires Step(w, w1, Announce(a, b, order)) && Step(w1, w2, Deliver(Commit(b, Infos(order)), []))
    ensures w2.held == w.held[b := w.held[b] + Sendable(w.held[a])] && w2.flight == w.flight
  {
    hide Infos, Sendable, Parsed;
    ParsedInfos(order, w.held[a]);
  }

  // ---------------------------------------------------------------- one round of the cycle

  /** The exchange with one peer of the round: not begun, request under way, response under way, finished. */
  datatype Stage = Idle | Asked(request: seq<SeedInfo>) | Answered(response: seq<SeedInfo>) | Done

  /** All exchanges of a round run concurrently; stage[i] belongs to peers[i]. */
  datatype Round = Round(held: Held, stage: seq<Stage>)

  ghost predicate Advance(r: Round, r': Round, i: nat, order: seq<Pair>, caller: Id, peers: seq<Id>)
    requires |r.stage| == |peers| && i < |peers| && caller in r.held && peers[i] in r.held
  {
    var peer := peers[i];
    match r.stage[i]
    case Idle =>
      && Enumerates(order, NonZero(r.held[caller]))
      && r' == r.(stage := r.stage[i := Asked(Infos(order))])
    case Asked(request) =>
      && r'.held == r.held[peer := r.held[peer] + Parsed(request)]
      && Enumerates(order, NonZero(r'.held[peer]))
      && r'.stage == r.stage[i := Answered(NonLoopback(Infos(order)))]
    case Answered(response) =>
      && r'.held == r.held[caller := r.held[caller] + Parsed(response)]
      && r'.stage == r.stage[i := Done]
    case Done => false
  }

  function Members(caller: Id, peers: seq<Id>): set<Id> {
    {caller} + Elems(peers)
  }

  /** The union of what caller and peers hold, of the pairs that travel. */
  function Joint(held: Held, caller: Id, peers: seq<Id>): set<Pair>
    requires Members(caller, peers) <= held.Keys
  {
    set n, p | n in Members(caller, peers) && p in Syncable(held[n]) :: p
  }

  ghost predicate SlotOk(stage: Stage, peer: Id, held: Held, start: Held, caller: Id, joint: set<Pair>)
    requires peer in held && caller in held && peer in start && caller in start
  {
    match stage
    case Idle => true
    case Asked(request) =>
      Sendable(start[caller]) <= Parsed(request) <= Sendable(start[caller]) + joint
    case Answered(response) =>
      && Syncable(start[peer]) <= Parsed(response) <= joint
      && Sendable(start[caller]) <= held[peer]
    case Done =>
      && Syncable(start[peer]) <= held[caller]
      && Sendable(start[caller]) <= held[peer]
  }

  ghost predicate Bounded(held: Held, start: Held, caller: Id, peers: seq<Id>)
    requires Members(caller, peers) <= start.Keys
  {
    var joint := Joint(start, caller, peers);
    && held.Keys == start.Keys
    && (forall n | n in start :: start[n] <= held[n])
    && (forall n | n in start && n !in Members(caller, peers) :: held[n] == start[n])
    && held[caller] <= start[caller] + joint
    && (forall n | n in Members(caller, peers) :: held[n] <= start[n] + Sendable(start[caller]) + joint)
  }

  ghost predicate RoundInv(r: Round, start: Held, caller: Id, peers: seq<Id>)
    requires Members(caller, peers) <= start.Keys
  {
    && |r.stage| == |peers|
    && Bounded(r.held, start, caller, peers)
    && forall i | 0 <= i < |peers| ::
         peers[i] in Elems(peers) && SlotOk(r.stage[i], peers[i], r.held, start, caller, Joint(start, caller, peers))
  }

  /** What a completed round has achieved, whatever the interleaving of its exchanges. */
  ghost predicate RoundDone(held: Held, start: Held, caller: Id, peers: seq<Id>)
    requires Members(caller, peers) <= start.Keys
  {
    && Bounded(held, start, caller, peers)
    && held[caller] == start[caller] + Joint(start, caller, peers)
    && forall p | p in peers :: p in held && Sendable(start[caller]) <= held[p]
  }

  lemma SendableParts(a: set<Pair>, b: set<Pair>)
    ensures Sendable(a + b) == Sendable(a) + Sendable(b)
    ensures Syncable(a + b) == Syncable(a) + Syncable(b)
  {
  }

  lemma JointIsSyncable(held: Held, caller: Id, peers: seq<Id>)
    requires Members(caller, peers) <= held.Keys
    ensures Syncable(Joint(held, caller, peers)) == Joint(held, caller, peers)
    ensures Sendable(Joint(held, caller, peers)) == Joint(held, caller, peers)
    ensures forall n | n in Members(caller, peers) :: Syncable(held[n]) <= Joint(held, caller, peers)
  {
  }

  lemma {:induction false} SlotsGrow(r: Round, held: Held, start: Held, caller: Id, peers: seq<Id>)
    requires Members(caller, peers) <= start.Keys && RoundInv(r, start, caller, peers)
    requires held.Keys == start.Keys && forall n | n in start :: r.held[n] <= held[n]
    ensures forall i | 0 <= i < |peers| :: peers[i] in Elems(peers) &&
              SlotOk(r.stage[i], peers[i], held, start, caller, Joint(start, caller, peers))
  {
    forall i | 0 <= i < |peers|
      ensures peers[i] in Elems(peers)
      ensures SlotOk(r.stage[i], peers[i], held, start, caller, Joint(start, caller, peers))
    {
      assert SlotOk(r.stage[i], peers[i], r.held, start, caller, Joint(start, caller, peers));
    }
  }

  /** Bounds on what one more list adds at one member of the round. */
  lemma BoundsGrow(held: Held, held': Held, n: Id, more: set<Pair>, start: Held, caller: Id, peers: seq<Id>)
    requires Members(caller, peers) <= start.Keys && Bounded(held, start, caller, peers)
    requires n in Members(caller, peers) && held' == held[n := held[n] + more]
    requires more <= Sendable(start[caller]) + Joint(start, caller, peers)
    ensures Bounded(held', start, caller, peers)
  {
    assert Sendable(start[caller]) <= start[caller];
  }

  lemma AskKeepsInv(r: Round, r': Round, i: nat, order: seq<Pair>, start: Held, caller: Id, peers: seq<Id>)
    requires Members(caller, peers) <= start.Keys && RoundInv(r, start, caller, peers)
    requires i < |peers| && peers[i] in Elems(peers) && Advance(r, r', i, order, caller, peers)
    requires r.stage[i].Idle?
    ensures RoundInv(r', start, caller, peers)
  {
    var joint := Joint(start, caller, peers);
    JointIsSyncable(start, caller, peers);
    SendableParts(start[caller], joint);
    ParsedInfos(order, r.held[caller]);
    assert Sendable(start[caller]) <= Sendable(r.held[caller]) <= Sendable(start[caller] + joint);
  }

  /** What a peer can answer, given what it may hold by then. */
  lemma AnswerBounds(pairs: set<Pair>, start: Held, peer: Id, caller: Id, peers: seq<Id>)
    requires Members(caller, peers) <= start.Keys && caller in start && peer in Members(caller, peers)
    requires start[peer] <= pairs <= start[peer] + Sendable(start[caller]) + Joint(start, caller, peers)
    ensures Syncable(start[peer]) <= Syncable(pairs) <= Joint(start, caller, peers)
  {
    var joint := Joint(start, caller, peers);
    JointIsSyncable(start, caller, peers);
    forall p | p in Syncable(pairs)
      ensures p in joint
    {
      if p in start[peer] {
        assert p in Syncable(start[peer]);
      } else if p in Sendable(start[caller]) {
        assert p in Syncable(start[caller]);
      }
    }
  }

  lemma AnswerKeepsInv(r: Round, r': Round, i: nat, order: seq<Pair>, start: Held, caller: Id, peers: seq<Id>)
    requires Members(caller, peers) <= start.Keys && RoundInv(r, start, caller, peers)
    requires i < |peers| && peers[i] in Elems(peers) && Advance(r, r', i, order, caller, peers)
    requires r.stage[i].Asked?
    ensures RoundInv(r', start, caller, peers)
  {
    var peer, request := peers[i], r.stage[i].request;
    assert SlotOk(r.stage[i], peer, r.held, start, caller, Joint(start, caller, peers));
    BoundsGrow(r.held, r'.held, peer, Parsed(request), start, caller, peers);
    AnswerBounds(r'.held[peer], start, peer, caller, peers);
    ParsedAnswer(order, r'.held[peer]);
    SlotsGrow(r, r'.held, start, caller, peers);
  }

  lemma DoneSlot(held: Held, held': Held, peer: Id, response: seq<SeedInfo>, start: Held, caller: Id, joint: set<Pair>)
    requires peer in held && caller in held && peer in start && caller in start
    requires SlotOk(Answered(response), peer, held, start, caller, joint)
    requires held' == held[caller := held[caller] + Parsed(response)]
    ensures SlotOk(Done, peer, held', start, caller, joint)
    ensures Parsed(response) <= joint
  {
    hide Parsed, Syncable, Sendable;
  }

  lemma LearnKeepsInv(r: Round, r': Round, i: nat, order: seq<Pair>, start: Held, caller: Id, peers: seq<Id>)
    requires Members(caller, peers) <= start.Keys && RoundInv(r, start, caller, peers)
    requires i < |peers| && peers[i] in Elems(peers) && Advance(r, r', i, order, caller, peers)
    requires r.stage[i].Answered?
    ensures RoundInv(r', start, caller, peers)
  {
    hide SlotOk, Joint, Parsed;
    var peer, response, joint := peers[i], r.stage[i].response, Joint(start, caller, peers);
    assert SlotOk(r.stage[i], peer, r.held, start, caller, joint);
    DoneSlot(r.held, r'.held, peer, response, start, caller, joint);
    BoundsGrow(r.held, r'.held, caller, Parsed(response), start, caller, peers);
    SlotsGrow(r, r'.held, start, caller, peers);
    hide Bounded;
  }

  lemma AdvanceKeepsInv(r: Round, r': Round, i: nat, order: seq<Pair>, start: Held, caller: Id, peers: seq<Id>)
    requires Members(caller, peers) <= start.Keys && RoundInv(r, start, caller, peers)
    requires i < |peers| && peers[i] in Elems(peers) && Advance(r, r', i, order, caller, peers)
    ensures RoundInv(r', start, caller, peers)
  {
    match r.stage[i]
    case Idle => AskKeepsInv(r, r', i, order, start, caller, peers);
    case Asked(_) => AnswerKeepsInv(r, r', i, order, start, caller, peers);
    case Answered(_) => LearnKeepsInv(r, r', i, order, start, caller, peers);
    case Done =>
  }

  lemma RoundStarts(start: Held, stage: seq<Stage>, caller: Id, peers: seq<Id>)
    requires Members(caller, peers) <= start.Keys
    requires |stage| == |peers| && forall i | 0 <= i < |stage| :: stage[i] == Idle
    ensures RoundInv(Round(start, stage), start, caller, peers)
  {
  }

  lemma RoundEnds(r: Round, start: Held, caller: Id, peers: seq<Id>)
    requires Members(caller, peers) <= start.Keys && RoundInv(r, start, caller, peers)
    requires forall i | 0 <= i < |peers| :: r.stage[i] == Done
    ensures RoundDone(r.held, start, caller, peers)
  {
    var joint := Joint(start, caller, peers);
    forall p | p in joint
      ensures p in r.held[caller]
    {
      var n :| n in Members(caller, peers) && p in Syncable(start[n]);
      if n != caller {
        assert n in Elems(peers);
        var i :| 0 <= i < |peers| && peers[i] == n;
        assert SlotOk(r.stage[i], peers[i], r.held, start, caller, joint);
      }
    }
    forall n | n in peers
      ensures n in r.held && Sendable(start[caller]) <= r.held[n]
    {
      var i :| 0 <= i < |peers| && peers[i] == n;
      assert SlotOk(r.stage[i], peers[i], r.held, start, caller, joint);
    }
  }

  /** Every interleaving of the exchanges of a round ends in the same achievement. */
  lemma {:induction false} AnyInterleaving(rounds: seq<Round>, who: seq<nat>, orders: seq<seq<Pair>>, caller: Id, peers: seq<Id>)
    requires |rounds| == |who| + 1 && |orders| == |who|
    requires Members(caller, peers) <= rounds[0].held.Keys
    requires |rounds[0].stage| == |peers| && forall i | 0 <= i < |peers| :: rounds[0].stage[i] == Idle
    requires forall k | 0 <= k < |who| ::
      && |rounds[k].stage| == |peers| && who[k] < |peers|
      && caller in rounds[k].held && peers[who[k]] in rounds[k].held
      && Advance(rounds[k], rounds[k + 1], who[k], orders[k], caller, peers)
    ensures RoundInv(rounds[|who|], rounds[0].held, caller, peers)
    ensures (forall i | 0 <= i < |peers| :: rounds[|who|].stage[i] == Done)
        ==> RoundDone(rounds[|who|].held, rounds[0].held, caller, peers)
    decreases |who|
  {
    var start, k := rounds[0].held, |who| - 1;
    if who == [] {
      RoundStarts(start, rounds[0].stage, caller, peers);
    } else {
      AnyInterleaving(rounds[..k + 1], who[..k], orders[..k], caller, peers);
      assert rounds[..k + 1][0] == rounds[0] && rounds[..k + 1][k] == rounds[k];
      assert peers[who[k]] in Elems(peers);
      AdvanceKeepsInv(rounds[k], rounds[k + 1], who[k], orders[k], start, caller, peers);
    }
    if forall i | 0 <= i < |peers| :: rounds[|who|].stage[i] == Done {
      RoundEnds(rounds[|who|], start, caller, peers);
    }
  }

  // ---------------------------------------------------------------- several rounds

  ghost predicate Agreement(held: Held, agreed: set<Pair>, caller: Id, peers: seq<Id>) {
    forall n | n in Members(caller, peers) :: n in held && Syncable(held[n]) == agreed
  }

  lemma JointStays(held: Held, start: Held, caller: Id, peers: seq<Id>)
    requires Members(caller, peers) <= start.Keys && RoundDone(held, start, caller, peers)
    ensures Members(caller, peers) <= held.Keys && Joint(held, caller, peers) == Joint(start, caller, peers)
  {
    var joint := Joint(start, caller, peers);
    JointIsSyncable(start, caller, peers);
    forall n | n in Members(caller, peers)
      ensures Syncable(start[n]) <= Syncable(held[n]) <= joint
    {
      SendableParts(start[n] + Sendable(start[caller]), joint);
      SendableParts(start[n], Sendable(start[caller]));
      assert Syncable(Sendable(start[caller])) <= Syncable(start[caller]);
      assert Syncable(held[n]) <= Syncable(start[n] + Sendable(start[caller]) + joint);
    }
    forall p | p in joint
      ensures p in Joint(held, caller, peers)
    {
      var n :| n in Members(caller, peers) && p in Syncable(start[n]);
      assert p in Syncable(held[n]);
    }
  }

  /** When the caller already holds everything, a round teaches it nothing and brings every peer level. */
  lemma RoundFromFull(held: Held, start: Held, caller: Id, peers: seq<Id>)
    requires Members(caller, peers) <= start.Keys && RoundDone(held, start, caller, peers)
    requires Joint(start, caller, peers) <= start[caller]
    ensures held[caller] == start[caller]
    ensures Agreement(held, Joint(start, caller, peers), caller, peers)
  {
    var joint := Joint(start, caller, peers);
    JointIsSyncable(start, caller, peers);
    JointStays(held, start, caller, peers);
    JointIsSyncable(held, caller, peers);
    assert held[caller] == start[caller];
    forall n | n in Members(caller, peers)
      ensures Syncable(held[n]) == joint
    {
      if n != caller {
        assert n in Elems(peers);
        assert Sendable(joint) <= Sendable(start[caller]) <= held[n];
      }
      assert joint <= held[n];
      assert Syncable(joint) <= Syncable(held[n]);
    }
  }

  /** After one round the caller holds the union of what all started with and never changes again;
      from the end of the second round on, the caller and all peers agree on exactly that union. */
  lemma {:induction false} RoundsConverge(helds: seq<Held>, k: nat, caller: Id, peers: seq<Id>)
    requires 1 <= k < |helds|
    requires forall j | 0 <= j < |helds| :: caller in helds[j] && Members(caller, peers) <= helds[j].Keys
    requires forall j | 0 <= j < |helds| - 1 :: RoundDone(helds[j + 1], helds[j], caller, peers)
    ensures helds[k][caller] == helds[0][caller] + Joint(helds[0], caller, peers)
    ensures Joint(helds[k], caller, peers) == Joint(helds[0], caller, peers)
    ensures k >= 2 ==> Agreement(helds[k], Joint(helds[0], caller, peers), caller, peers)
  {
    assert RoundDone(helds[k - 1 + 1], helds[k - 1], caller, peers);
    JointStays(helds[k], helds[k - 1], caller, peers);
    if k > 1 {
      RoundsConverge(helds, k - 1, caller, peers);
      RoundFromFull(helds[k], helds[k - 1], caller, peers);
    }
  }

  // ---------------------------------------------------------------- when the loop stops

  datatype Progress = Progress(stable: nat, prev: Option<Digest>)

  const STABLE_ROUNDS_REQUIRED: nat := 2

  function Observe(p: Progress, d: Digest): Progress {
    if p.prev == Some(d) then p.(stable := p.stable + 1) else Progress(0, Some(d))
  }

  /** The loop's two variables after it has seen these hashes, one a round. */
  function ProgressAfter(ds: seq<Digest>): Progress {
    if ds == [] then Progress(0, None) else Observe(ProgressAfter(ds[..|ds| - 1]), ds[|ds| - 1])
  }

  ghost predicate LastThreeEqual(ds: seq<Digest>) {
    |ds| >= 3 && ds[|ds| - 1] == ds[|ds| - 2] == ds[|ds| - 3]
  }

  /** The counter test is the same as: the last three rounds gave the same hash. */
  lemma {:induction false} StableMeansThreeEqual(ds: seq<Digest>)
    ensures ProgressAfter(ds).stable >= STABLE_ROUNDS_REQUIRED <==> LastThreeEqual(ds)
    ensures ProgressAfter(ds).stable >= 1 <==> |ds| >= 2 && ds[|ds| - 1] == ds[|ds| - 2]
    ensures ProgressAfter(ds).prev == if ds == [] then None else Some(ds[|ds| - 1])
  {
    if ds != [] {
      StableMeansThreeEqual(ds[..|ds| - 1]);
    }
  }

  /** The first round after which the loop reports convergence. */
  ghost predicate StopsAt(ds: seq<Digest>, r: nat) {
    && r <= |ds|
    && ProgressAfter(ds[..r]).stable >= STABLE_ROUNDS_REQUIRED
    && forall q | 0 <= q < r :: ProgressAfter(ds[..q]).stable < STABLE_ROUNDS_REQUIRED
  }

  ghost predicate Running(ds: seq<Digest>) {
    forall q | 0 <= q <= |ds| :: ProgressAfter(ds[..q]).stable < STABLE_ROUNDS_REQUIRED
  }

  lemma NextHash(ds: seq<Digest>, d: Digest)
    requires Running(ds)
    ensures ProgressAfter(ds + [d]) == Observe(ProgressAfter(ds), d)
    ensures if ProgressAfter(ds + [d]).stable < STABLE_ROUNDS_REQUIRED
            then Running(ds + [d]) else StopsAt(ds + [d], |ds| + 1)
  {
    hide ProgressAfter;
    var next := ds + [d];
    assert ProgressAfter(next) == Observe(ProgressAfter(ds), d) by {
      ProgressSnoc(ds, d);
    }
    assert next[..|ds| + 1] == next;
    assert forall q | 0 <= q <= |ds| :: next[..q] == ds[..q];
  }

  lemma ProgressSnoc(ds: seq<Digest>, d: Digest)
    ensures ProgressAfter(ds + [d]) == Observe(ProgressAfter(ds), d)
  {
    assert (ds + [d])[..|ds|] == ds;
  }

  /** What the caller held at the end of each round, its hash, and the order it was derived in. */
  datatype Sighting = Sighting(pairs: set<Pair>, order: seq<Pair>)

  function SightingHash(h: Hasher, s: Sighting): Digest {
    New(h, Infos(s.order), 0).hash
  }

  function SightingText(s: Sighting): string {
    HashInput(DEFAULT_PRE_HASH, Infos(s.order))
  }

  /** Whatever else registers seeds meanwhile, the loop stops after exactly the first round that ends two
      rounds in which the caller learned no usable pair, if SHA-256 does not collide on the texts hashed. */
  lemma StopsWhenQuiet(h: Hasher, seen: seq<Sighting>, ds: seq<Digest>, r: nat)
    requires Watched(h, seen, ds) && r <= |seen|
    ensures StopsAt(ds, r) <==> Quiet(seen, r) && forall q | 0 <= q < r :: !Quiet(seen, q)
  {
    forall q | 0 <= q <= r
      ensures ProgressAfter(ds[..q]).stable >= STABLE_ROUNDS_REQUIRED <==> Quiet(seen, q)
    {
      StableMeansQuiet(h, seen, ds, q);
    }
  }

  /** A caller whose registry only grows, seen at the end of every round. */
  ghost predicate Observed(h: Hasher, seen: seq<Sighting>, ds: seq<Digest>) {
    && |ds| == |seen|
    && (forall i | 0 <= i < |seen| :: ds[i] == SightingHash(h, seen[i]))
    && (forall i | 0 <= i < |seen| :: Enumerates(seen[i].order, NonZero(seen[i].pairs)))
    && (forall i | 1 <= i < |seen| :: seen[i - 1].pairs <= seen[i].pairs)
  }

  ghost predicate Watched(h: Hasher, seen: seq<Sighting>, ds: seq<Digest>) {
    && Observed(h, seen, ds)
    && (forall i | 1 <= i < |seen| :: NoCollision(h, SightingText(seen[i - 1]), SightingText(seen[i])))
  }

  lemma ObservedSnoc(h: Hasher, seen: seq<Sighting>, ds: seq<Digest>, s: Sighting)
    requires Observed(h, seen, ds) && Enumerates(s.order, NonZero(s.pairs))
    requires seen != [] ==> seen[|seen| - 1].pairs <= s.pairs
    ensures Observed(h, seen + [s], ds + [SightingHash(h, s)])
  {
    hide SightingHash;
  }

  lemma StableMeansQuiet(h: Hasher, seen: seq<Sighting>, ds: seq<Digest>, q: nat)
    requires Watched(h, seen, ds) && q <= |seen|
    ensures ProgressAfter(ds[..q]).stable >= STABLE_ROUNDS_REQUIRED <==> Quiet(seen, q)
  {
    hide ProgressAfter, SightingHash, SightingText;
    StableMeansThreeEqual(ds[..q]);
    if q >= 3 {
      SameHashSamePairs(h, seen[q - 2 - 1], seen[q - 2]);
      SameHashSamePairs(h, seen[q - 1 - 1], seen[q - 1]);
    }
  }

  ghost predicate Quiet(seen: seq<Sighting>, r: nat)
    requires r <= |seen|
  {
    r >= 3 && NonZero(seen[r - 3].pairs) == NonZero(seen[r - 2].pairs) == NonZero(seen[r - 1].pairs)
  }

  lemma SameHashSamePairs(h: Hasher, a: Sighting, b: Sighting)
    requires a.pairs <= b.pairs
    requires Enumerates(a.order, NonZero(a.pairs)) && Enumerates(b.order, NonZero(b.pairs))
    requires NoCollision(h, SightingText(a), SightingText(b))
    ensures SightingHash(h, a) == SightingHash(h, b) <==> NonZero(a.pairs) == NonZero(b.pairs)
  {
    EqualHashNothingLearned(h, a.pairs, b.pairs, a.order, b.order);
  }

  lemma SameListing(h: Hasher, ps: seq<Pair>, qs: seq<Pair>, pairs: set<Pair>)
    requires Enumerates(ps, NonZero(pairs)) && Enumerates(qs, NonZero(pairs))
    ensures New(h, Infos(ps), 0).hash == New(h, Infos(qs), 0).hash
  {
    hide New, Infos;
    DerivedHashDeterministic(h, ps, qs);
  }

  lemma ThreeEqualStops(ds: seq<Digest>)
    requires |ds| == 3 && ds[0] == ds[1] == ds[2]
    ensures StopsAt(ds, 3)
  {
    hide ProgressAfter;
    forall q | 0 <= q <= 3
      ensures ProgressAfter(ds[..q]).stable >= STABLE_ROUNDS_REQUIRED <==> q == 3
    {
      StableMeansThreeEqual(ds[..q]);
    }
  }

  /** With every exchange delivered, nothing else registering, and time for three rounds, the loop stops after
      exactly its third round. No property of the hash is needed for this direction. */
  lemma StopsAtThree(h: Hasher, helds: seq<Held>, orders: seq<seq<Pair>>, ds: seq<Digest>, caller: Id, peers: seq<Id>)
    requires |helds| == 4 && |orders| == |ds| == 3
    requires forall j | 0 <= j < 4 :: caller in helds[j] && Members(caller, peers) <= helds[j].Keys
    requires forall j | 0 <= j < 3 :: RoundDone(helds[j + 1], helds[j], caller, peers)
    requires forall j | 0 <= j < 3 :: Enumerates(orders[j], NonZero(helds[j + 1][caller]))
    requires forall j | 0 <= j < 3 :: ds[j] == New(h, Infos(orders[j]), 0).hash
    ensures StopsAt(ds, 3)
  {
    hide StopsAt, RoundDone, Joint, New, Infos, Enumerates, NonZero, ProgressAfter, LastThreeEqual, Agreement, Members;
    forall j | 1 <= j <= 3
      ensures helds[j][caller] == helds[0][caller] + Joint(helds[0], caller, peers)
    {
      RoundsConverge(helds, j, caller, peers);
    }
    SameListing(h, orders[0], orders[1], helds[1][caller]);
    SameListing(h, orders[1], orders[2], helds[2][caller]);
    ThreeEqualStops(ds);
  }
}
