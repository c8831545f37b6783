# A verified model of the peer-to-peer node

A node knows other nodes by their addresses and keeps, for each, the sockets it listens on. Nodes exchange
these seeds by handshakes, gossip and a request/response synchronisation, dial each other back until the mesh
is balanced, lock a ring of witnesses and pay it, deliver chat messages with acknowledgements, and keep a
few ledgers. The project models this logic, without the sockets beneath it, and proves what the protocols
keep over whole runs.

How it is built:

- **Objects** that the program updates in place are classes (`Registry.NodeRegistry`, `SeedSync.SyncNode`,
  `SyncCycle.Cluster`, `Gossip.GossipNode`, `Mesh.Connections`, `EpochChain.EpochStore`, `Tick.WitnessState`,
  `Delivery.Messenger`, `Balances.BalanceStore`, `Ledger.TransactionStore`, `UserStores.UserStore`). Each method
  ends in the state that a function of the old state gives; the theorems are about those functions.
- **Protocols** are state machines over atomic handler steps, with the messages in flight as a multiset. The
  steps use the same functions as the handlers. Results hold for every run, so for every interleaving.
- **Iteration over a hash map** is an arbitrary order: a method may list a map in any order, and protocol
  steps carry the order as a free choice (`Collections.Enumerates`).
- **SHA-256** is a function parameter. Freedom from collisions is assumed only where a result names it, and
  only for the texts that were hashed (`SeedSets.NoCollision`); a function from all texts to 64 characters
  that never collides does not exist.
- **Machine integers** wrap where the program's release build wraps (no overflow checks are set in its
  release profile): the stability counter is a u32, balances, request ids and page offsets are u64.
- **The clock** and the classification of an address as intranet or extranet are parameters.

What the proofs found, beside what they confirm:

- Two different seed sets can have the same hash under every hash function, because the hashed text has no
  separators (`SeedSets.HashConfuses`). Within one node equal hashes are sound all the same, because its
  registry only grows (`SeedSets.EqualHashNothingLearned`).
- The hash of a handshake's seed list shows the order in which the registry was listed, exactly if one socket
  stands under two nodes or one node's records carry two times (`SeedsCommands.OrderNeverShowsExactly`).
- After 2^32 equal ticks in a row the stability counter is 0 and the ring is not locked (`Tick.WrapMissesLock`).
- A transfer from an address to itself creates money (`Balances.ConservesExactly`).
- The message key that fills the duplicate set is forgotten in the same step (`SeenMessages.RepeatPassesExactly`),
  an acknowledgement of another process can make a node drop its own (`Delivery.ForeignAckBlocks`), and one
  that comes between timeout and clean-up is accepted without effect: a call ends as delivered exactly if it
  was confirmed before it woke up (`Delivery.EndsDeliveredExactly`).
- Two messages can share their key's text exactly if a part of one holds a bar (`Delivery.ConfusedExactly`).
- A connection without a context uses up its node in the fallback of a send, so another connection of that node
  gets no copy (`Sending.RecipientsExactly`).
- With 20 rows a page, every page comes back after 2^62 pages (`Ledger.WrappedPageRepeats`); amounts from -0.99 to -0.01 are
  shown without their sign (`Ledger.ShowsAmountExactly`).
- The chain checker detects every gap (`EpochChain.CheckerDetectsGaps`). Of rewritten records it rejects exactly
  those whose stored previous hash changed, or whose stored hash changed with a record after them
  (`EpochChain.RewriteLinkedExactly`); what else a record says is not checked (`EpochChain.ContentsUnchecked`).
- A comment at src/protocols/commands/online.rs:534-537 promises exactly one return connection per inbound
  one. The code skips the return where one exists already; the model follows the code.

Files: `Collections`, `Text`, `Dedup` and `Net` are shared ground; `Registry`, `SeedSet`, `SeedSync`,
`SyncProtocol`, `SyncCycle` and `SyncQuiet` are seed synchronisation; `SeedsCommand`, `Gossip`, `Flood` and `Mesh` are
handshake and gossip; `Tick` is the witness ring; `SeenMessages`, `Delivery` and `Sending` are message delivery;
`EpochChain`, `Balances`, `Ledger` and `UserStore` are the stores.

## Model

| member | source | states |
|---|---|---|
| Text.LessExactly | src/protocols/commands/online.rs:125-135 | the order of the tiebreaker and the sorts: one text comes before another exactly if it is a proper beginning of it or has the smaller character at the first difference |
| Net.HostPortInjective | src/protocols/commands/seed_sync.rs:55-57 | the text ip:port determines ip and port |
| Net.ParseUnbracketed | src/protocols/commands/seed_sync.rs:59-61 | a printed seed address reads back exactly if it is IPv4: an IPv6 address is printed without brackets and is lost |
| Net.ParseV4Exactly | src/protocols/commands/seed_sync.rs:144-150 | a text reads as an IPv4 address exactly if it is that address's printing |
| Net.ParseV4SocketExactly | src/protocols/commands/seed_sync.rs:59-61 | a text reads as an IPv4 socket exactly if it is the address's printing, a colon, and digits of the port's value |
| Net.ParsePrinted | src/protocols/commands/ack.rs:304-318 | the address text of handshake and gossip lists, which Rust prints itself, always reads back |
| Registry.ApplyPairs | src/protocols/commands/node_registry.rs:38-166 | every registry operation adds exactly the (socket, node) pairs it names and removes none |
| Registry.RunGrows | src/protocols/commands/node_registry.rs:38-166 | over any run of operations the registry only grows |
| Registry.ConnectIsExclusive | src/protocols/commands/node_registry.rs:119-166 | successful `try_connect` calls for a node number at most 1 plus its releases |
| Registry.RegisterEffect | src/protocols/commands/node_registry.rs:38-95 | entry by entry: one direction more at one socket, an unknown node enters unconnected under the given scope, flag and scope of a known one and everybody else stay |
| Registry.AddSeedEffect | src/protocols/commands/node_registry.rs:97-115 | entry by entry: the unknown direction at one socket of a known node, nothing for an unknown one |
| Registry.TryConnectEffect | src/protocols/commands/node_registry.rs:119-146 | entry by entry: connected afterwards; unchanged if it was; an unknown node enters as intranet without sockets |
| Registry.MarkEffect | src/protocols/commands/node_registry.rs:148-152 | the flag of a known node takes the given value, and nothing else changes |
| Registry.DisconnectEffect | src/protocols/commands/node_registry.rs:162-166 | the node is not connected afterwards; its other fields, all pairs and everybody else stay |
| Registry.ReleasedThenAcquires | src/protocols/commands/node_registry.rs:119-166 | after any run that ends in a release the next `try_connect` succeeds, and is counted |
| Registry.SyncEffect | src/protocols/commands/node_registry.rs:262-318 | entry by entry: what one inbound and one outbound peer change |
| Registry.SyncExactly | src/protocols/commands/node_registry.rs:262-318 | after reconciling, exactly the listed peers are connected besides those that were, and exactly the readable outbound sockets are learned |
| Registry.OutboundScopes | src/protocols/commands/node_registry.rs:291-316 | an outbound peer takes the scope of its own socket |
| Registry.NodeRegistry.RegisterWithDirection | src/protocols/commands/node_registry.rs:66-95 | enters the socket and its direction, keeping connected flag and scope of a known node |
| Registry.NodeRegistry.Register | src/protocols/commands/node_registry.rs:38-61 | the same with unknown direction |
| Registry.NodeRegistry.AddSeed | src/protocols/commands/node_registry.rs:97-115 | only for known nodes; true exactly if the pair is new |
| Registry.NodeRegistry.TryConnect | src/protocols/commands/node_registry.rs:119-146 | succeeds exactly if the node was not connected; afterwards it is |
| Registry.NodeRegistry.MarkConnected | src/protocols/commands/node_registry.rs:148-152 | sets the flag of a known node and nothing else |
| Registry.NodeRegistry.Disconnect | src/protocols/commands/node_registry.rs:162-166 | clears the flag of a known node and nothing else |
| Registry.NodeRegistry.GetAllSeeds | src/protocols/commands/node_registry.rs:172-180 | lists every pair exactly once, in an unknown order |
| Registry.NodeRegistry.GetConnectedNodes | src/protocols/commands/node_registry.rs:190-196 | lists every connected node exactly once |
| Registry.NodeRegistry.FindNodeForSeed | src/protocols/commands/node_registry.rs:198-205 | some node that has the socket, or none exactly if no node has it |
| Registry.NodeRegistry.SyncFromConnectionInfo | src/protocols/commands/node_registry.rs:262-318 | inbound peers are marked connected, then outbound peers are also entered with their readable socket |
| SeedSets.ComputeSeedHash | src/protocols/commands/seed_sync.rs:176-186 | the digest is of the previous hash followed by a sorted arrangement of the addresses, without separators |
| SeedSets.SeedHashExactly | src/protocols/commands/seed_sync.rs:176-186 | whatever sorted arrangement of the printed addresses one takes, the hash is that of the previous hash followed by it |
| SeedSets.PreviousHashTells | src/protocols/commands/seed_sync.rs:176-186 | for previous hashes of one length, one seed list has the same hash under both exactly if they are equal, given no collision |
| SeedSets.VerifiesExactly | src/protocols/commands/seed_sync.rs:100-103 | a set verifies exactly if its hash is that of its own previous hash and sorted addresses |
| SeedSets.NewSet | src/protocols/commands/seed_sync.rs:75-98 | a new set is unlocked, in round 0, on a previous hash of 64 zeros, and verifies |
| SeedSets.NonLoopbackAppend | src/protocols/commands/seed_sync.rs:152-160 | the loopback filter judges seeds one by one and keeps their order |
| SeedSets.LoopbackExactly | src/protocols/commands/seed_sync.rs:144-150 | what is filtered is exactly 127.0.0.0/8 and ::1 |
| SeedSets.HashIgnoresOrder | src/protocols/commands/seed_sync.rs:176-186 | the hash depends only on which addresses occur how often |
| SeedSets.HashConfuses | src/protocols/commands/seed_sync.rs:176-186 | two different address sets, without repeats, hash alike under every hash function |
| SeedSets.SameInputSameSize | src/protocols/commands/seed_sync.rs:176-186 | of two lists, one included in the other, equal hash texts force equal length |
| SeedSets.MergeSets | src/protocols/commands/seed_sync.rs:121-142 | the loop computes the join that the merge laws are about |
| SeedSets.MergeIsUnion | src/protocols/commands/seed_sync.rs:100-160 | a merge contains exactly the non-loopback (ip, port) of either side, verifies, and takes the later epoch |
| SeedSets.MergeNoRepeats | src/protocols/commands/seed_sync.rs:121-142 | a merge into a list without repeated addresses has none |
| SeedSets.MergeCommutes | src/protocols/commands/seed_sync.rs:121-142 | with equal previous hashes and no repeats, both orders of merging give one hash and epoch |
| SeedSets.MergeAssociative | src/protocols/commands/seed_sync.rs:121-142 | merging is associative as an equation between sets, with no condition |
| SeedSets.MergeAbsorbs | src/protocols/commands/seed_sync.rs:121-160 | merging in addresses already there leaves what the loopback filter leaves |
| SeedSets.MergeIdempotent | src/protocols/commands/seed_sync.rs:121-160 | a set merged with itself is that set without loopback addresses |
| SeedSets.Derive | src/protocols/commands/seed_sync.rs:163-174 | the derived set lists every registry pair with a non-zero port once, in an unknown order, with the private ranges marked intranet and fresh counters |
| SeedSets.DerivedHashDeterministic | src/protocols/commands/seed_sync.rs:163-186 | the derived hash does not depend on the iteration order |
| SeedSets.EqualHashNothingLearned | src/protocols/commands/seed_sync.rs:163-186 | between two looks at a growing registry the hashes are equal exactly if no usable pair was learned, given no collision on the two texts |
| SeedSync.AbsorbPairs | src/protocols/commands/seed_sync.rs:214-367 | what a handler adds to the registry is exactly what parses of the received list |
| SeedSync.AbsorbExactly | src/protocols/commands/seed_sync.rs:214-367 | what a received list does to the entry of a node: directions, scope, time; no flag changes |
| SeedSync.ParsedInfos | src/protocols/commands/seed_sync.rs:163-174 | of a derived set, exactly the IPv4 pairs with a non-zero port survive the way to another node |
| SeedSync.SyncNode.ExtendPeerAddrs | src/protocols/commands/seed_sync.rs:331-367 | every IPv4 socket known with a port joins the dial list, at its end, once |
| SeedSync.SyncNode.HandleRequest | src/protocols/commands/seed_sync.rs:214-287 | learns the request, answers with what it then holds minus loopback; the answer verifies |
| SeedSync.SyncNode.HandleResponse | src/protocols/commands/seed_sync.rs:289-329 | learns exactly the response |
| SeedSync.SyncNode.HandleCommit | src/protocols/commands/seed_sync.rs:331-367 | learns exactly the announced set |
| SeedSync.Exchange | src/protocols/commands/seed_sync.rs:214-329 | one request and response leave both nodes with the same IPv4, non-loopback, non-zero-port pairs: the union of both; either learns exactly what the other can send and loses nothing |
| SyncProtocol.NothingInventedNothingLost | src/protocols/commands/seed_sync.rs:214-367 | over every run of request, response and commit steps with losses, among any number of nodes, nothing is held or in flight that was not held at the start, and nothing is lost |
| SyncProtocol.ExchangeTeaches | src/protocols/commands/seed_sync.rs:214-329 | a delivered and answered request does in a run what SeedSync.Exchange does with the handlers |
| SyncProtocol.AnnouncementTeaches | src/protocols/commands/seed_sync.rs:331-367 | a delivered announcement teaches its receiver exactly what the sender can send |
| SyncProtocol.AnyInterleaving | src/protocols/commands/seed_sync.rs:493-517 | however the concurrent exchanges of a round interleave, the finished round taught the caller everything and gave every peer what the caller had |
| SyncProtocol.RoundFromFull | src/protocols/commands/seed_sync.rs:493-517 | a round begun by a caller that has everything changes nothing for it and brings all peers level |
| SyncProtocol.RoundsConverge | src/protocols/commands/seed_sync.rs:470-556 | from the end of round one the caller's registry is fixed, from the end of round two caller and peers agree on exactly the union of what they started with |
| SyncProtocol.StableMeansThreeEqual | src/protocols/commands/seed_sync.rs:467-556 | the counter of stable rounds reaches two exactly if the last three hashes are equal |
| SyncProtocol.StopsWhenQuiet | src/protocols/commands/seed_sync.rs:467-556 | whatever else registers seeds, the loop stops after exactly the first round that ends two rounds without a new usable pair, given no collision on consecutive texts |
| SyncProtocol.StopsAtThree | src/protocols/commands/seed_sync.rs:467-556 | with every exchange delivered and nothing else registering, the loop converges after exactly its third round, whatever the hash function |
| SyncCycle.Cluster.SyncRound | src/protocols/commands/seed_sync.rs:493-521 | a round ends whatever exchanges are lost, cut off or disturbed, with growing registries; undisturbed, it teaches the caller everything and every peer what the caller had |
| SyncCycle.Cluster.NextRound | src/protocols/commands/seed_sync.rs:470-530 | a further round, clean or not, extends the record of a growing caller; while all rounds are clean the caller is full after one and all agree after two |
| SyncCycle.Cluster.RunSeedSyncCycle | src/protocols/commands/seed_sync.rs:453-579 | under any losses, deadlines and other messages: the loop reports convergence at exactly the first third equal hash in a row and otherwise stops at the round limit or deadline; if every round is clean it converges after round three and not otherwise, with agreement from round two on |
| SyncQuiet.ChangesBounded | src/protocols/commands/seed_sync.rs:214-367 | with any number of callers at once, every registry changes at most as often as there are pairs it lacks |
| SyncQuiet.SettledExactly | src/protocols/commands/seed_sync.rs:214-329 | a request and its answer teach neither side anything exactly if each already holds what the other can send |
| SyncQuiet.QuietAgrees | src/protocols/commands/seed_sync.rs:214-367 | in every reachable state: once no request along a connected graph would teach anything, every node holds the same travelling pairs, all that anybody started with |
| SeedsCommands.MakeCommand | src/protocols/commands/ack.rs:54-76 | the constructor's loop keeps the first record of each address and hashes the records stably sorted by node |
| SeedsCommands.CommandKeepsFirsts | src/protocols/commands/ack.rs:54-88 | a command holds exactly the first record of every address, no address twice, and verifies |
| SeedsCommands.CommandIdempotent | src/protocols/commands/ack.rs:54-76 | building a command from a command's records gives the same command |
| SeedsCommands.SortCommutes | src/protocols/commands/ack.rs:66-67 | the sort orders the node addresses and permutes the records |
| SeedsCommands.SortStable | src/protocols/commands/ack.rs:66-67 | the records are sorted by node address, and within a node keep the order they came in |
| SeedsCommands.VerifiesExactly | src/protocols/commands/ack.rs:66-88 | a command verifies exactly with the hash of its own records' text; other records are accepted exactly if they give the same text, given no collision |
| SeedsCommands.OrderNeverShowsExactly | src/protocols/commands/ack.rs:53-89 | for lists of any length: no listing order changes the hashed text exactly if every socket stands under one node and every node has one time stamp, provided no node address is a proper prefix of another or those sharing a socket differ in length |
| SeedsCommands.DistinctSocketsExactly | src/protocols/commands/ack.rs:53-89 | for lists without repeated sockets, of any length: no arrangement changes the hashed text exactly if every node has one time stamp, with no other condition |
| SeedsCommands.CommandHashIgnoresOrder | src/protocols/commands/ack.rs:53-89 | so with distinct addresses and one time per node, the listing order does not show in the hash |
| SeedsCommands.SharedSocketShowsOrder | src/protocols/commands/ack.rs:53-89 | a socket under two nodes, anywhere in a list, gives an order that shows in the text |
| SeedsCommands.TwoTimesShowOrder | src/protocols/commands/ack.rs:53-89 | two time stamps of one node, anywhere in a list, give an order that shows in the text |
| Gossip.LearnExactly | src/protocols/commands/online.rs:104-111 | gossip leaves known nodes as they are and enters an unknown one with its first readable socket only |
| Gossip.WithSenderExactly | src/protocols/commands/online.rs:78-89 | the sender's entry after it was registered, and nobody else's change |
| Gossip.AcceptedExactly | src/protocols/commands/online.rs:92-93 | a list is used exactly if it verifies |
| Gossip.AfterGossipExactly | src/protocols/commands/online.rs:78-111 | the whole registry after the branch, node by node |
| Gossip.PassesOnIffNewNode | src/protocols/commands/online.rs:76-182 | gossip is passed on exactly if a verified list names, readably, a node other than the sender that was unknown |
| Gossip.MergeAllPairs | src/protocols/commands/ack.rs:292-303 | an ack teaches exactly its readable pairs and touches no connected flag |
| Gossip.MergeExactly | src/protocols/commands/ack.rs:292-303 | what the merge does to the entry of a node: directions, scope, time; no flag changes |
| Gossip.AckPassesOnIffNewPair | src/protocols/commands/ack.rs:278-322 | an ack is broadcast exactly if its verified list holds a readable pair that is neither known nor announced by the responder itself |
| Gossip.DialsExactly | src/protocols/commands/online.rs:113-158 | exactly these sockets are dialled: those a record gives readably for an unconnected node with a larger address |
| Gossip.DialsAppend | src/protocols/commands/online.rs:113-158 | records are judged one by one: one dial each, in the order of the list |
| Gossip.DialsOne | src/protocols/commands/ack.rs:324-383 | a single record is dialled exactly if readable, unconnected and larger |
| Gossip.DialsGoUp | src/protocols/commands/online.rs:113-158 | a merge dials only unconnected nodes with a larger address, at a socket the list gives |
| Gossip.GossipNode.HandleGossip | src/protocols/commands/online.rs:53-187 | registers the sender before counting; registry, broadcast and dials after the branch |
| Gossip.WithResponderPairs | src/protocols/commands/ack.rs:196-276 | the responder comes in with its connection's socket and a socket for every announced non-loopback IP, and nothing else changes |
| Gossip.AnnouncedExactly | src/protocols/commands/ack.rs:251-262 | an announced IPv4 address becomes a socket on the connection's port, an IPv6 one is replaced by the connection's socket |
| Gossip.ResponderConnected | src/protocols/commands/ack.rs:202-222 | the responder is connected, its socket marked outbound, and no other entry changes |
| Gossip.GossipNode.HandleAck | src/protocols/commands/ack.rs:196-383 | registry, broadcast and dials after the seed part of the handler |
| Gossip.GossipNode.LearnAndDial | src/protocols/commands/online.rs:104-158 | learning while dialling in one loop dials whom the registry at its start allows |
| Flood.StepDecreases | src/protocols/commands/online.rs:53-187 | a gossip step uses up a message without passing it on, or makes the receiver know a node it did not know; acks only get fewer |
| Flood.FloodTerminates | src/protocols/commands/online.rs:53-187 | in any network with finitely many node ids no infinite run of gossip and ack steps exists |
| Flood.BroadcastsBounded | src/protocols/commands/online.rs:161-182 | the broadcasts of a run number at most the acks handled plus the first meetings of nodes |
| Flood.DialsNeverCross | src/protocols/commands/ack.rs:324-383 | over every run the merges dial from smaller to larger addresses, so no two nodes dial each other |
| Flood.BroadcastReaches | src/protocols/commands/online.rs:161-182 | a step that passes something on leaves a verifying message with the whole registry in flight for every connected peer |
| Flood.DialsRecorded | src/protocols/commands/ack.rs:324-383 | exactly which dials a step adds |
| Mesh.Connections.PlanReturn | src/protocols/commands/online.rs:513-567 | the return dial goes to the advertised port and is skipped exactly if an own connection to that peer exists |
| Mesh.TargetIsPeer | src/protocols/commands/online.rs:515-560 | the handler finds the peer connected exactly if the way back exists, and otherwise aims at its listening socket |
| Mesh.StepKeepsInv | src/protocols/commands/online.rs:513-629 | every step keeps: each connection has its reverse, an undelivered OnLine, or a spawned return dial |
| Mesh.MeshBalances | src/protocols/commands/online.rs:513-629 | in every reachable state the mesh is balanced in that sense, and symmetric once nothing is under way |
| Mesh.StuckIsSymmetric | src/protocols/commands/online.rs:513-629 | while anything is under way a step from inside is possible, so a state where only outside dials are possible is symmetric |
| Mesh.StepMeasure | src/protocols/commands/online.rs:513-629 | every step but an outside dial decreases one measure; every return dial closes a one-way connection |
| Mesh.ReturnDialsBounded | src/protocols/commands/online.rs:513-629 | return dials number at most the outside dials, and runs are finite between outside dials |
| EpochChain.EpochStore.GetByEpoch | src/db/entity/epoch_allocation/store.rs:70-77 | the records of an epoch in the order of their ids |
| EpochChain.ByEpochAppend | src/db/entity/epoch_allocation/store.rs:70-77 | records are picked one by one and keep their order |
| EpochChain.ByEpochOne | src/db/entity/epoch_allocation/store.rs:70-77 | a record is picked exactly if it carries the epoch asked for |
| EpochChain.PreimageLayout | src/db/entity/epoch_allocation/store.rs:44-52 | where every field stands in the bytes hashed |
| EpochChain.NewestDecides | src/db/entity/epoch_allocation/store.rs:23-31 | the record after which the table has no other of the epoch is the one to link to |
| EpochChain.EpochStore.FindLastHash | src/db/entity/epoch_allocation/store.rs:23-31 | the newest record's hash, 64 zeros for an empty epoch |
| EpochChain.EpochStore.InsertRecord | src/db/entity/epoch_allocation/store.rs:33-68 | appends one record with the given fields, linked to the epoch's newest one, under the hash of its bytes |
| EpochChain.EpochStore.VerifyChain | src/db/entity/epoch_allocation/store.rs:79-96 | accepts exactly the lists linked from the genesis hash on |
| EpochChain.InsertionsChain | src/db/entity/epoch_allocation/store.rs:23-68 | whatever the interleaving of insertions over epochs, each epoch is a hash chain |
| EpochChain.HashesDistinct | src/db/entity/epoch_allocation/store.rs:33-68 | no hash occurs twice along a chain, given 64-character, non-zero, collision-free digests on its records |
| EpochChain.CheckerDetectsGaps | src/db/entity/epoch_allocation/store.rs:79-96 | a subsequence of an epoch's records passes exactly if it is a prefix, given such digests |
| EpochChain.RewriteLinkedExactly | src/db/entity/epoch_allocation/store.rs:79-96 | with any record put in place of one, the check passes exactly if the previous hash is the same and, where a record follows, the hash is |
| EpochChain.ContentsUnchecked | src/db/entity/epoch_allocation/store.rs:79-96 | a record rewritten in any field but its two hashes passes the check, and still hashes to its stored hash exactly if the hashed bytes are the same, given no collision |
| EpochChain.FieldsRunTogether | src/db/entity/epoch_allocation/store.rs:44-52 | moving text between address, weight and amount leaves the hashed bytes the same |
| Tick.RingHashExactly | src/protocols/commands/tick.rs:59-68 | whatever sorted arrangement of the ring's addresses one takes, the ring hash is that of their concatenation |
| Tick.RingHashIgnoresOrder | src/protocols/commands/tick.rs:59-68 | rings with the same addresses in any order have one hash |
| Tick.SameRingMatches | src/protocols/commands/tick.rs:93-123 | a tick of a node with the same ring in any order always counts as matching |
| Tick.WitnessState.HandleTick | src/protocols/commands/tick.rs:93-129 | the counter step, which any node with the same ring triggers, and both tables rewritten exactly if the ring is locked |
| Tick.WitnessState.LockRing | src/protocols/commands/tick.rs:156-223 | one witness entry and one credit per seed of the ring, in order |
| Tick.WitnessState.StoreWitness | src/protocols/commands/tick.rs:166-193 | replaces the node's entry in place or appends one |
| Tick.WitnessState.AddReward | src/protocols/commands/tick.rs:198-221 | raises the node's balance in place or appends it |
| Tick.CounterIsRunLength | src/protocols/commands/tick.rs:93-123 | the stored counter is the length of the current run of equal matching hashes, modulo 2^32; other ticks leave no trace |
| Tick.LocksExactly | src/protocols/commands/tick.rs:93-129 | a tick locks exactly if it matches and that run, modulo 2^32, is two or longer |
| Tick.LocksOnRepeat | src/protocols/commands/tick.rs:93-129 | so it locks exactly if the matching tick before it had the same hash, except where the counter has just wrapped |
| Tick.EqualTicks | src/protocols/commands/tick.rs:93-129 | the last of n equal matching ticks locks exactly if n modulo 2^32 is neither 0 nor 1 |
| Tick.WrapMissesLock | src/protocols/commands/tick.rs:104-123 | a history of 2^32 equal ticks whose last one does not lock |
| Tick.WitnessTableAfterLock | src/protocols/commands/tick.rs:166-193 | the witness table keeps unique addresses and holds, for every node of the ring, its last seed there; others stay |
| Tick.CreditTotal | src/protocols/commands/tick.rs:198-221 | one credit adds its share to the total exactly if the balance does not overflow |
| Tick.CreditsAddUp | src/protocols/commands/tick.rs:195-221 | while no address is due more than fits u64, crediting a ring gives every address its number of seeds times the share |
| Tick.CreditsTotalExactly | src/protocols/commands/tick.rs:195-221 | the credits of a ring add up in the total exactly if no address is due more than fits u64 |
| Tick.CreditsKeepUnique | src/protocols/commands/tick.rs:195-221 | crediting keeps the addresses of the balance table unique |
| Tick.LockPays | src/protocols/commands/tick.rs:156-223 | a lock raises the total by floor(1000/n)*n exactly if no address is due more than fits u64; that is at most 1000 and leaves less than n unpaid |
| Tick.LocksAddAtMost | src/protocols/commands/tick.rs:156-223 | k locks add at most 1000k, so nothing overflows while that fits |
| SeenMessages.SeenIsOpenBlock | src/protocols/commands/message.rs:245-273 | the set holds exactly the keys offered since the last clear |
| SeenMessages.SetBounded | src/protocols/commands/message.rs:22-22 | it never holds more than 10,000 keys |
| SeenMessages.PassesExactly | src/protocols/commands/message.rs:245-273 | a key passes exactly if it was not offered since the last clear |
| SeenMessages.PassesAtMostOncePerClear | src/protocols/commands/message.rs:245-273 | a key passes at most once per clear, plus once while it is in the set |
| SeenMessages.PassesAccountedFor | src/protocols/commands/message.rs:268-270 | keys passed = 10,001 times the clears + keys held |
| SeenMessages.ClearsCounted | src/protocols/commands/message.rs:268-270 | the set is cleared on every 10,001st passed key |
| SeenMessages.RepeatPassesExactly | src/protocols/commands/message.rs:262-270 | a new key offered twice in a row passes twice exactly if it fills the set |
| Delivery.KeyIdentifiesMessage | src/protocols/commands/message.rs:24-35 | two messages share a key exactly if sender, receiver, text and timestamp agree, for names without a bar and given no collision on the two texts |
| Delivery.ConfusedExactly | src/protocols/commands/message.rs:24-35 | a message of other sender, receiver or text with the same key text exists exactly if one of the three holds a bar |
| Delivery.BarConfuses | src/protocols/commands/message.rs:24-35 | for every message with a bar somewhere, such another message |
| Delivery.Messenger.CheckSeen | src/protocols/commands/message.rs:141-163 | inserts, reports news, and clears past the maximum |
| Delivery.Messenger.HandleMessage | src/protocols/commands/message.rs:245-441 | duplicate, own echo, delivery or drop, in that order of tests |
| Delivery.Messenger.HandleAck | src/protocols/commands/message.rs:141-205 | duplicate, confirmation of the pending call, or forwarding |
| Delivery.Messenger.StartSend | src/web/api.rs:703-703 | takes the next request id |
| Delivery.Messenger.RegisterAck | src/web/api.rs:726-734 | stores the call's channel under its id |
| Delivery.Messenger.EndSend | src/web/api.rs:841-853 | without a successful send the entry is removed and the call fails |
| Sending.DirectExactly | src/web/api.rs:761-764 | exactly the connections with a context that a known socket leads to are tried directly |
| Sending.DirectAppend | src/web/api.rs:761-764 | known sockets are looked up one by one, in order |
| Sending.SendDirect | src/web/api.rs:761-785 | the target's connections are tried in order up to the first success |
| Sending.SendToMatching | src/web/api.rs:792-840 | the fallback makes one attempt for each recipient, in order, and succeeds exactly if one of them does |
| Sending.SendChat | src/web/api.rs:759-841 | a send counts exactly if some attempt succeeded; if a known socket has a connection and the first attempt works there is one attempt and no fallback; the fallback runs only if no direct attempt worked |
| Sending.RecipientsExactly | src/web/api.rs:806-836 | the fallback sends at exactly the matching connections with a context that are the first matching one of their node |
| Sending.RecipientsAppend | src/web/api.rs:804-836 | the fallback keeps the order of the connections, and earlier ones matter only by the nodes met |
| Sending.NodesOnce | src/web/api.rs:806-836 | no node gets two copies from the fallback |
| Delivery.Messenger.WakeUp | src/web/api.rs:860-862 | the waiting task learns what stands in its channel |
| Delivery.Messenger.CleanUp | src/web/api.rs:863-866 | the waiting task removes its entry |
| Delivery.CallSteps | src/web/api.rs:703-866 | a step of the send handler that is not the call's next one does nothing |
| Delivery.SeenBounded | src/protocols/commands/message.rs:141-163 | after every step of every run the shared set holds at most 10,000 keys |
| Delivery.DeliveredExactly | src/protocols/commands/message.rs:245-411 | an arrival reaches the application exactly if it is from another node, for this one, and its key is new since the last clear |
| Delivery.DeliveredAtMostOncePerClear | src/protocols/commands/message.rs:245-411 | over every run a key is delivered at most 1 + clears times |
| Delivery.AckActsOncePerPass | src/protocols/commands/message.rs:141-205 | an ack id is confirmed or forwarded exactly as often as its key passes, at most 1 + clears times; message keys never interfere |
| Delivery.PendingIsLive | src/web/api.rs:726-866 | in every reachable state every pending entry belongs to a call still sending or waiting |
| Delivery.NothingLeaks | src/web/api.rs:842-866 | once all calls have ended the table is empty |
| Delivery.ConfirmedAtMostOnce | src/protocols/commands/message.rs:165-182 | each call is confirmed at most once in every interleaving of sends, acks, timeouts and failures |
| Delivery.IdConfirmedAtMostOnce | src/protocols/commands/message.rs:37-182 | so is each request id while ids are not reused |
| Delivery.PendingExactly | src/web/api.rs:726-866 | a call's id is in the table exactly while the call is live and unconfirmed |
| Delivery.HonouredExactly | src/protocols/commands/message.rs:141-182 | an ack is honoured exactly if its key is new since the last clear and its call is live and unconfirmed |
| Delivery.DeliveredMeansConfirmed | src/web/api.rs:867-883 | a message is reported delivered only if its call was confirmed |
| Delivery.WakesExactly | src/web/api.rs:860-873 | a waiting call wakes up as delivered exactly if it was confirmed by then |
| Delivery.EndsDeliveredExactly | src/web/api.rs:842-883 | over every run a call that woke up or ended reports delivery exactly if its confirmation came before the event that woke it |
| Delivery.ConfirmedTooLate | src/web/api.rs:860-866 | a run in which the accepted ack comes between timeout and clean-up and the call ends undelivered |
| Delivery.ForeignAckBlocks | src/protocols/commands/message.rs:141-163 | a run in which another process's ack of the same id makes the node drop its own |
| Balances.BalanceStore.Get | src/db/entity/balance/store.rs:42-51 | the stored number, 0 without a row, an error for unreadable text |
| Balances.BalanceStore.Set | src/db/entity/balance/store.rs:54-77 | overwrites in place or inserts |
| Balances.BalanceStore.Transfer | src/db/entity/balance/store.rs:80-103 | the verdict, no change on failure, and two writes of balances both read before |
| Balances.PutLookup | src/db/entity/balance/store.rs:42-77 | a get after a set returns what was set, and every other address keeps its balance |
| Balances.PutTotal | src/db/entity/balance/store.rs:54-77 | a set moves the total by exactly the change of one balance |
| Balances.FailsExactly | src/db/entity/balance/store.rs:84-97 | which error a failing transfer reports, by the order of the checks |
| Balances.ParseU64Exactly | src/db/entity/balance/store.rs:48-48 | which digit texts are numbers, and which |
| Balances.ParseU64Other | src/db/entity/balance/store.rs:48-48 | a text that is not all digits behind an optional plus is no number |
| Balances.AmountsAfter | src/db/entity/balance/store.rs:93-99 | what payer, payee and every third address have after a transfer, including a transfer to oneself |
| Balances.ConservesExactly | src/db/entity/balance/store.rs:80-103 | a successful transfer conserves the total exactly if it is between two addresses and the payee's sum fits u64 |
| Balances.RunConserves | src/db/entity/balance/store.rs:80-103 | any run of transfers between distinct addresses conserves a total below 2^64, never overflows, and leaves bystanders alone |
| Ledger.TransactionStore.InsertWithNextHash | src/db/entity/transaction/store.rs:95-135 | appends a row chained to the last one and keeps ids increasing |
| Ledger.PreimageLayout | src/db/entity/transaction/store.rs:109-117 | where every field stands in the bytes hashed |
| Ledger.TransactionStore.Reset | src/db/entity/transaction/store.rs:76-92 | empties the table; the next chain starts from the genesis hash |
| Ledger.TransactionStore.LoadTransactions | src/web/api.rs:215-259 | the shown page column by column, page count and row count; no result exactly where the source divides by zero |
| Ledger.TotalPagesRoundsUp | src/web/api.rs:223-256 | the page count is the rounded-up quotient for every table of a database (fewer than 2^63 rows) and every page size, also where the sum wraps |
| Ledger.PagingPartitions | src/db/entity/transaction/store.rs:60-73 | pages 1 to the last together are the table in strictly descending ids, every row once |
| Ledger.EmptyPageExactly | src/db/entity/transaction/store.rs:60-68 | a page is empty exactly if its computed offset is past the table; page 0 is page 1 |
| Ledger.PagesPastTheLast | src/db/entity/transaction/store.rs:60-68 | every page past the last is empty while the offset does not wrap |
| Ledger.PagesRepeat | src/db/entity/transaction/store.rs:60-68 | pages that lie a whole number of 2^64 rows apart are the same page |
| Ledger.WrappedPageRepeats | src/db/entity/transaction/store.rs:60-68 | with 20 rows a page every page comes back after 2^62 pages |
| Ledger.ParseOfPrinted | src/web/api.rs:232-232 | the stored amount text reads back as the amount |
| Ledger.ParseOfOther | src/web/api.rs:232-232 | a text that is no number counts as 0 |
| Ledger.ShowAmountReads | src/web/api.rs:238-242 | the shown text is whole hundreds, a point and two digits that make up the amount |
| Ledger.ShowsAmountExactly | src/web/api.rs:232-242 | two amounts are shown alike exactly if they are equal, or opposite and below 100 |
| UserStores.UserStore.AddMessage | src/user_store.rs:270-292 | appends one message with the given fields; other contacts unchanged |
| UserStores.UserStore.UpdateLastSentStatus | src/user_store.rs:295-311 | the backward search changes the newest sent message only |
| UserStores.UserStore.MarkAsRead | src/user_store.rs:320-334 | every unread message of the contact becomes read |
| UserStores.UserStore.GetUnreadCount | src/user_store.rs:337-343 | counts the messages received and not marked |
| UserStores.UserStore.SaveProfile | src/user_store.rs:410-416 | file and cache hold the profile |
| UserStores.UserStore.LoadProfile | src/user_store.rs:420-436 | cache, then file, then default; the result is cached |
| UserStores.UserStore.ClearProfileCache | src/user_store.rs:103-108 | empties the cache, not the files |
| UserStores.UpdatesKeepMessages | src/user_store.rs:295-334 | status updates keep ids, contents and order |
| UserStores.LogIsWhatWasAdded | src/user_store.rs:270-334 | after any run of calls a log holds what was added for its contact, in order, under ids 1 to n |
| UserStores.UnreadSinceRead | src/user_store.rs:320-343 | the unread count is the number of messages received since the last mark-as-read |
| UserStores.LoadReturnsLastSaved | src/user_store.rs:410-436 | in any sequence of saves, loads and clears a load returns the last save, or a default dated by the first load since the last clear |

## Left out

- Sockets, tasks, semaphores, retries, the connection manager, encryption, key exchange, signatures, bincode, the CLI, templates, HTTP routing and JSON: a send adds a message, a successful dial adds an endpoint, encoding and decoding are taken as inverse.
- SHA-256 itself: a parameter; collision-freeness, digest length and digest alphabet are assumed only where a contract names them.
- IPv6 grammar: an IPv6 text is any text with two colons and no brackets, and only `::1` counts as loopback; canonical spelling is not modelled.
- The intranet/extranet classification of an address belongs to a foreign library and is a parameter.
- Wall-clock time, disk and database failures: time is a parameter, storage calls succeed; database transactions are all-or-nothing.
- Several handlers of one node running at once inside their critical sections: handler steps are atomic, except for the send handler and a sync round, which are split at their awaits.
- SyncCycle.Cluster.RunSeedSyncCycle: agreement is stated for clean rounds, in which every exchange is delivered before the hash is taken and nothing else registers seeds. For other rounds growth and the stop rule are stated, and SyncProtocol.StopsWhenQuiet says what that rule means.
- SeedSync.Exchange: IPv6 pairs are excluded, because their printed addresses do not read back.
- SyncProtocol.NothingInventedNothingLost: any node may announce a commit at any time; no caller of the commit broadcast is modelled.
- Flood.FloodTerminates: acks come from handshakes, which the run does not start anew; the dials that merges spawn are recorded, not carried out. The local address is taken as set.
- Mesh.MeshBalances: one listening endpoint per node, dials that succeed and are recorded, no closed connections, and source ports on which no node listens.
- Mesh.ReturnDialsBounded: the same assumptions.
- Gossip.GossipNode.HandleAck: key exchange and the update of connection entries are not part of the model.
- Dispatch of ticks: the sender uses `Entity::Node`, the router registers `Entity::Witness`; the model is of the handler on ticks that arrive.
- Tick.LocksAddAtMost: one time stands for all locks; times do not enter any amount.
- Delivery.IdConfirmedAtMostOnce: for at most 2^64 sends of one process, after which ids repeat; Delivery.ConfirmedAtMostOnce has no such bound.
- Delivery.PendingExactly: likewise.
- Delivery.HonouredExactly: likewise.
- SeedsCommands.OrderNeverShowsExactly: for a shared socket the node addresses must be readable off the text (none a proper prefix of another, or of different lengths where they share the socket); addresses of equal length always are.
- Sending.SendChat: how the manager finds and lists connections, and whether a send succeeds, are parameters.
- Which chat row an acknowledgement marks: the program marks the newest sent message, not the acknowledged one.
- Balances.BalanceStore.Transfer: row ids and database errors between the two writes are not modelled.
- Ledger.TransactionStore.LoadTransactions: how a timestamp prints is a parameter; the database is taken to accept any u64 offset.
- UserStores.LoadReturnsLastSaved: calls one after another only; concurrently, file write and cache insert are separate steps.
- UserStores.LogIsWhatWasAdded: below 2^64 calls, after which ids wrap.
- Queries by direction and node lists of the registry, contact lists and conversation summaries, the epoch, meta, contact and witness stores, price models and online rate: easy members or not reachable in the program.
