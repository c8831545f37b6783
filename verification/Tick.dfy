/** The witness ring: when ticks lock it, and what a lock does to the witness and balance tables. */
module Tick {
  import opened Collections
  import opened Text
  import opened Dedup
  import opened SeedSets
  import opened SeedsCommands

  const U32: nat := 0x1_0000_0000
  const U64: nat := 0x1_0000_0000_0000_0000
  const WITNESS_RING_STABLE_ROUNDS: nat := 2
  const TOTAL_REWARD: nat := 1000

  function RingHash(h: Hasher, ring: seq<SeedRecord>): Digest {
    h(Concat(Sort(Map(RecordAddress, ring))))
  }

  /** The hash is taken of the ring's addresses in order, so it does not depend on how the ring was listed. */
  lemma RingHashExactly(h: Hasher, ring: seq<SeedRecord>, parts: seq<string>)
    requires Sorted(parts) && multiset(parts) == multiset(Map((r: SeedRecord) => r.address, ring))
    ensures RingHash(h, ring) == h(Concat(parts))
  {
    assert Map((r: SeedRecord) => r.address, ring) == Map(RecordAddress, ring);
    SortSorts(Map(RecordAddress, ring));
    SortedUnique(parts, Sort(Map(RecordAddress, ring)));
  }

  ghost predicate SameRing(ring: seq<SeedRecord>, other: seq<SeedRecord>) {
    multiset(Map((r: SeedRecord) => r.address, ring)) == multiset(Map((r: SeedRecord) => r.address, other))
  }

  lemma RingHashIgnoresOrder(h: Hasher, ring: seq<SeedRecord>, other: seq<SeedRecord>)
    requires SameRing(ring, other)
    ensures RingHash(h, ring) == RingHash(h, other)
  {
    var parts := Sort(Map((r: SeedRecord) => r.address, ring));
    SortSorts(Map((r: SeedRecord) => r.address, ring));
    RingHashExactly(h, ring, parts);
    RingHashExactly(h, other, parts);
  }

  // ---------------------------------------------------------------- stability

  /** The two values shared state keeps between ticks. The counter is a u32 and wraps in release builds. */
  datatype Memory = Memory(prev: Option<Digest>, count: Option<nat>)

  datatype Arrival = Arrival(local: Digest, remote: Digest)

  function OnTick(m: Memory, t: Arrival): (Memory, bool) {
    if t.local != t.remote then (m, false)
    else if m.prev == Some(t.local) then
      var count := ((match m.count case Some(c) => c case None => 0) + 1) % U32;
      (m.(count := Some(count)), count >= WITNESS_RING_STABLE_ROUNDS)
    else (Memory(Some(t.local), Some(1)), false)
  }

  function MemoryAfter(ts: seq<Arrival>): Memory {
    if ts == [] then Memory(None, None) else OnTick(MemoryAfter(ts[..|ts| - 1]), ts[|ts| - 1]).0
  }

  /** Whether the last tick of the history locked the ring. */
  predicate LocksAtEnd(ts: seq<Arrival>)
    requires ts != []
  {
    OnTick(MemoryAfter(ts[..|ts| - 1]), ts[|ts| - 1]).1
  }

  /** The hashes of the ticks that agreed with the local ring, in order. */
  function Matching(ts: seq<Arrival>): seq<Digest> {
    if ts == [] then []
    else
      var t := ts[|ts| - 1];
      Matching(ts[..|ts| - 1]) + if t.local == t.remote then [t.local] else []
  }

  /** How many equal hashes stand at the end. */
  function RunLength(ds: seq<Digest>): nat {
    if |ds| <= 1 then |ds|
    else if ds[|ds| - 1] == ds[|ds| - 2] then RunLength(ds[..|ds| - 1]) + 1
    else 1
  }

  lemma RunLengthSnoc(ds: seq<Digest>, d: Digest)
    ensures RunLength(ds + [d]) == if ds != [] && ds[|ds| - 1] == d then RunLength(ds) + 1 else 1
  {
    assert (ds + [d])[..|ds|] == ds;
  }

  /** What a history of matching hashes leaves in shared state. */
  function Remembered(ds: seq<Digest>): Memory {
    if ds == [] then Memory(None, None) else Memory(Some(ds[|ds| - 1]), Some(RunLength(ds) % U32))
  }

  lemma SuccessorWraps(r: nat)
    ensures (r % U32 + 1) % U32 == (r + 1) % U32
  {
  }

  lemma RememberedSnoc(ds: seq<Digest>, d: Digest)
    ensures OnTick(Remembered(ds), Arrival(d, d))
         == (Remembered(ds + [d]), RunLength(ds + [d]) % U32 >= WITNESS_RING_STABLE_ROUNDS)
  {
    RunLengthSnoc(ds, d);
    SuccessorWraps(RunLength(ds));
    if ds != [] {
      StepAfter(ds[|ds| - 1], RunLength(ds) % U32, d);
    }
    hide RunLength;
  }

  lemma StepAfter(prev: Digest, count: nat, d: Digest)
    ensures OnTick(Memory(Some(prev), Some(count)), Arrival(d, d))
         == if prev == d then (Memory(Some(d), Some((count + 1) % U32)), (count + 1) % U32 >= WITNESS_RING_STABLE_ROUNDS)
            else (Memory(Some(d), Some(1)), false)
  {
  }

  /** The stored counter is the length of the current run of equal matching hashes, modulo 2^32.
      Ticks that did not match leave no trace. */
  lemma {:induction false} CounterIsRunLength(ts: seq<Arrival>)
    ensures MemoryAfter(ts) == Remembered(Matching(ts))
  {
    if ts != [] {
      hide OnTick, Remembered;
      var front, t := ts[..|ts| - 1], ts[|ts| - 1];
      CounterIsRunLength(front);
      if t.local == t.remote {
        RememberedSnoc(Matching(front), t.local);
      } else {
        MismatchIgnored(Remembered(Matching(front)), t);
        assert Matching(front) + [] == Matching(front);
      }
    }
  }

  lemma MismatchIgnored(m: Memory, t: Arrival)
    requires t.local != t.remote
    ensures OnTick(m, t) == (m, false)
  {
  }

  /** A tick locks the ring exactly if it matches and the run of equal matching hashes it ends,
      counted modulo 2^32, is two or longer. */
  lemma LocksExactly(ts: seq<Arrival>)
    requires ts != []
    ensures LocksAtEnd(ts)
       <==> ts[|ts| - 1].local == ts[|ts| - 1].remote && RunLength(Matching(ts)) % U32 >= WITNESS_RING_STABLE_ROUNDS
  {
    hide OnTick, Remembered, RunLength, MemoryAfter;
    var front, t := ts[..|ts| - 1], ts[|ts| - 1];
    CounterIsRunLength(front);
    if t.local == t.remote {
      RememberedSnoc(Matching(front), t.local);
    } else {
      MismatchIgnored(MemoryAfter(front), t);
    }
  }

  /** So, unless the counter has just wrapped, a tick locks exactly if it matches and the matching tick
      before it had the same hash. */
  lemma LocksOnRepeat(ts: seq<Arrival>)
    requires ts != []
    ensures var ds, t := Matching(ts), ts[|ts| - 1];
            LocksAtEnd(ts) <==> t.local == t.remote && |ds| >= 2 && ds[|ds| - 2] == ds[|ds| - 1]
                                && RunLength(ds) % U32 !in {0, 1}
  {
    LocksExactly(ts);
  }

  lemma {:induction false} RunOfEqual(n: nat, d: Digest)
    ensures RunLength(seq(n, _ => d)) == n
  {
    if n > 1 {
      var ds := seq(n, _ => d);
      RunOfEqual(n - 1, d);
      assert ds[..n - 1] == seq(n - 1, _ => d);
    }
  }

  lemma {:induction false} AllMatching(n: nat, d: Digest)
    ensures Matching(seq(n, _ => Arrival(d, d))) == seq(n, _ => d)
  {
    if n > 0 {
      var ts := seq(n, _ => Arrival(d, d));
      AllMatching(n - 1, d);
      assert ts[..n - 1] == seq(n - 1, _ => Arrival(d, d));
      assert seq(n, _ => d) == seq(n - 1, _ => d) + [d];
    }
  }

  /** A node that sees n equal matching ticks in a row: the last one locks the ring exactly if n modulo 2^32
      is neither 0 nor 1. */
  lemma EqualTicks(n: nat, d: Digest)
    requires n > 0
    ensures LocksAtEnd(seq(n, _ => Arrival(d, d))) <==> n % U32 >= 2
  {
    var ts := seq(n, _ => Arrival(d, d));
    AllMatching(n, d);
    RunOfEqual(n, d);
    LocksExactly(ts);
    hide LocksAtEnd, Matching, RunLength;
    assert ts[|ts| - 1] == Arrival(d, d);
  }

  /** So the wrap can be reached: the tick that completes a run of 2^32 does not lock. */
  lemma WrapMissesLock(d: Digest) returns (ts: seq<Arrival>)
    ensures |ts| == U32 && (forall i | 0 <= i < |ts| :: ts[i] == Arrival(d, d)) && !LocksAtEnd(ts)
  {
    ts := seq(U32, _ => Arrival(d, d));
    EqualTicks(U32, d);
  }

  // ---------------------------------------------------------------- the tables

  datatype WitnessEntry = WitnessEntry(address: string, seedAddr: string, weight: nat, status: string, lastTickTs: nat, rank: nat)

  datatype BalanceEntry = BalanceEntry(address: string, balance: nat, updatedAt: nat)

  function Witness(r: SeedRecord, rank: nat, now: nat): WitnessEntry {
    WitnessEntry(r.nodeAddress, r.address, 1, "active", now, rank)
  }

  function UpsertWitness(ws: seq<WitnessEntry>, w: WitnessEntry): seq<WitnessEntry> {
    if ws == [] then [w]
    else if ws[0].address == w.address then [w] + ws[1..]
    else [ws[0]] + UpsertWitness(ws[1..], w)
  }

  /** The table after the first k records of the ring. */
  function WitnessesAfter(ws: seq<WitnessEntry>, ring: seq<SeedRecord>, now: nat, k: nat): seq<WitnessEntry>
    requires k <= |ring|
  {
    if k == 0 then ws else UpsertWitness(WitnessesAfter(ws, ring, now, k - 1), Witness(ring[k - 1], k - 1, now))
  }

  /** Balances are u64 and wrap in release builds. */
  function Credit(bs: seq<BalanceEntry>, address: string, share: nat, now: nat): seq<BalanceEntry> {
    if bs == [] then [BalanceEntry(address, share, now)]
    else if bs[0].address == address then [Raised(bs[0], share)] + bs[1..]
    else [bs[0]] + Credit(bs[1..], address, share, now)
  }

  function BalancesAfter(bs: seq<BalanceEntry>, ring: seq<SeedRecord>, share: nat, now: nat, k: nat): seq<BalanceEntry>
    requires k <= |ring|
  {
    if k == 0 then bs else Credit(BalancesAfter(bs, ring, share, now, k - 1), ring[k - 1].nodeAddress, share, now)
  }

  function Share(n: nat): nat {
    if n > 0 then TOTAL_REWARD / n else 0
  }

  function WitnessKey(w: WitnessEntry): string {
    w.address
  }

  function BalanceKey(b: BalanceEntry): string {
    b.address
  }

  function FindWitness(ws: seq<WitnessEntry>, address: string): Option<WitnessEntry> {
    if ws == [] then None else if ws[0].address == address then Some(ws[0]) else FindWitness(ws[1..], address)
  }

  function BalanceOf(bs: seq<BalanceEntry>, address: string): nat {
    if bs == [] then 0 else if bs[0].address == address then bs[0].balance else BalanceOf(bs[1..], address)
  }

  function Total(bs: seq<BalanceEntry>): nat {
    if bs == [] then 0 else bs[0].balance + Total(bs[1..])
  }

  /** How many seeds of the ring's first k belong to a node. */
  function SeedsOf(ring: seq<SeedRecord>, address: string, k: nat): nat
    requires k <= |ring|
  {
    if k == 0 then 0 else SeedsOf(ring, address, k - 1) + if ring[k - 1].nodeAddress == address then 1 else 0
  }

  ghost predicate UniqueWitnesses(ws: seq<WitnessEntry>) {
    NoRepeats(WitnessKey, ws)
  }

  ghost predicate UniqueBalances(bs: seq<BalanceEntry>) {
    NoRepeats(BalanceKey, bs)
  }

  /** The last of the ring's first k seeds that belongs to a node. */
  function LastSeed(ring: seq<SeedRecord>, address: string, k: nat): (i: Option<nat>)
    requires k <= |ring|
    ensures i.Some? ==> i.value < k && ring[i.value].nodeAddress == address
  {
    if k == 0 then None else if ring[k - 1].nodeAddress == address then Some(k - 1) else LastSeed(ring, address, k - 1)
  }

  lemma {:induction false} UpsertAt(ws: seq<WitnessEntry>, w: WitnessEntry, pos: nat)
    requires pos <= |ws| && forall i | 0 <= i < pos :: ws[i].address != w.address
    requires pos < |ws| ==> ws[pos].address == w.address
    ensures UpsertWitness(ws, w) == if pos < |ws| then ws[pos := w] else ws + [w]
  {
    if pos > 0 {
      UpsertAt(ws[1..], w, pos - 1);
      hide UpsertWitness;
      assert ws == [ws[0]] + ws[1..];
      UpsertSkips(ws, w);
    }
  }

  lemma UpsertSkips(ws: seq<WitnessEntry>, w: WitnessEntry)
    requires ws != [] && ws[0].address != w.address
    ensures UpsertWitness(ws, w) == [ws[0]] + UpsertWitness(ws[1..], w)
  {
  }

  function Raised(b: BalanceEntry, share: nat): BalanceEntry {
    b.(balance := (b.balance + share) % U64)
  }

  lemma {:induction false} CreditAt(bs: seq<BalanceEntry>, a: string, share: nat, now: nat, pos: nat)
    requires pos <= |bs| && forall i | 0 <= i < pos :: bs[i].address != a
    requires pos < |bs| ==> bs[pos].address == a
    ensures Credit(bs, a, share, now)
         == if pos < |bs| then bs[pos := bs[pos].(balance := (bs[pos].balance + share) % U64)] else bs + [BalanceEntry(a, share, now)]
  {
    if pos > 0 {
      CreditAt(bs[1..], a, share, now, pos - 1);
    }
  }

  // ---------------------------------------------------------------- the handler

  /** So a tick of a node that holds the same ring, in whatever order it lists it, always counts as matching. */
  lemma SameRingMatches(h: Hasher, ring: seq<SeedRecord>, other: seq<SeedRecord>, m: Memory)
    requires SameRing(ring, other)
    ensures var (after, locked) := OnTick(m, Arrival(RingHash(h, ring), RingHash(h, other)));
            && after.prev == Some(RingHash(h, ring)) && after.count.Some?
            && (m.prev == Some(RingHash(h, ring)) && m.count.Some? ==>
                  after.count == Some((m.count.value + 1) % 0x1_0000_0000) && (locked <==> after.count.value >= 2))
            && (m.prev != Some(RingHash(h, ring)) ==> after.count == Some(1) && !locked)
  {
    RingHashIgnoresOrder(h, ring, other);
    hide RingHash;
  }

  class WitnessState {
    const h: Hasher
    var memory: Memory
    var witnesses: seq<WitnessEntry>
    var balances: seq<BalanceEntry>

    constructor (h: Hasher)
      ensures this.h == h && memory == Memory(None, None) && witnesses == [] && balances == []
    {
      this.h, memory, witnesses, balances := h, Memory(None, None), [], [];
    }

    method HandleTick(ring: seq<SeedRecord>, remote: Digest, now: nat) returns (locked: bool)
      modifies this
      ensures (memory, locked) == OnTick(old(memory), Arrival(RingHash(h, ring), remote))
      ensures RingHash(h, ring) != remote ==> memory == old(memory) && !locked
      ensures RingHash(h, ring) == remote ==> memory.prev == Some(remote) && memory.count.Some?
      ensures forall other | SameRing(ring, other) && remote == RingHash(h, other) ::
                memory.prev == Some(remote) && memory.count.Some?
      ensures !locked ==> witnesses == old(witnesses) && balances == old(balances)
      ensures locked ==> witnesses == WitnessesAfter(old(witnesses), ring, now, |ring|)
                         && balances == BalancesAfter(old(balances), ring, Share(|ring|), now, |ring|)
    {
      var localHash := RingHash(h, ring);
      hide RingHash;
      forall other | SameRing(ring, other)
        ensures RingHash(h, other) == localHash
      {
        RingHashIgnoresOrder(h, ring, other);
      }
      locked := false;
      if localHash == remote {
        if memory.prev == Some(localHash) {
          var count := match memory.count case Some(c) => c case None => 0;
          var newCount := (count + 1) % U32;
          memory := memory.(count := Some(newCount));
          locked := newCount >= WITNESS_RING_STABLE_ROUNDS;
        } else {
          memory := Memory(Some(localHash), Some(1));
        }
        if locked {
          LockRing(ring, localHash, now);
        }
      }
    }

    method LockRing(ring: seq<SeedRecord>, hash: Digest, now: nat)
      requires memory.prev == Some(hash)
      modifies this
      ensures memory == old(memory)
      ensures witnesses == WitnessesAfter(old(witnesses), ring, now, |ring|)
      ensures balances == BalancesAfter(old(balances), ring, Share(|ring|), now, |ring|)
    {
      var i := 0;
      while i < |ring|
        invariant 0 <= i <= |ring| && memory == old(memory) && balances == old(balances)
        invariant witnesses == WitnessesAfter(old(witnesses), ring, now, i)
      {
        StoreWitness(Witness(ring[i], i, now));
        i := i + 1;
      }
      memory := memory.(prev := Some(hash));
      var perWitness := if |ring| > 0 then TOTAL_REWARD / |ring| else 0;
      i := 0;
      while i < |ring|
        invariant 0 <= i <= |ring| && memory == old(memory)
        invariant witnesses == WitnessesAfter(old(witnesses), ring, now, |ring|)
        invariant balances == BalancesAfter(old(balances), ring, perWitness, now, i)
      {
        AddReward(ring[i].nodeAddress, perWitness, now);
        i := i + 1;
      }
    }

    method StoreWitness(w: WitnessEntry)
      modifies this`witnesses
      ensures witnesses == UpsertWitness(old(witnesses), w)
    {
      var pos := 0;
      while pos < |witnesses| && witnesses[pos].address != w.address
        invariant 0 <= pos <= |witnesses|
        invariant forall i | 0 <= i < pos :: witnesses[i].address != w.address
      {
        pos := pos + 1;
      }
      UpsertAt(witnesses, w, pos);
      if pos < |witnesses| {
        witnesses := witnesses[pos := w];
      } else {
        witnesses := witnesses + [w];
      }
    }

    method AddReward(address: string, share: nat, now: nat)
      modifies this`balances
      ensures balances == Credit(old(balances), address, share, now)
    {
      var pos := 0;
      while pos < |balances| && balances[pos].address != address
        invariant 0 <= pos <= |balances|
        invariant forall i | 0 <= i < pos :: balances[i].address != address
      {
        pos := pos + 1;
      }
      CreditAt(balances, address, share, now, pos);
      if pos < |balances| {
        balances := balances[pos := Raised(balances[pos], share)];
      } else {
        balances := balances + [BalanceEntry(address, share, now)];
      }
    }
  }

  // ---------------------------------------------------------------- what a lock does to the tables

  lemma {:induction false} UpsertFacts(ws: seq<WitnessEntry>, w: WitnessEntry, address: string)
    requires UniqueWitnesses(ws)
    ensures UniqueWitnesses(UpsertWitness(ws, w))
    ensures KeySet(WitnessKey, UpsertWitness(ws, w)) == KeySet(WitnessKey, ws) + {w.address}
    ensures FindWitness(UpsertWitness(ws, w), address) == if address == w.address then Some(w) else FindWitness(ws, address)
  {
    if ws != [] {
      var rest := ws[1..];
      assert ws == [ws[0]] + rest;
      NoRepeatsCons(WitnessKey, ws[0], rest);
      KeySetCons(WitnessKey, ws[0], rest);
      if ws[0].address == w.address {
        NoRepeatsCons(WitnessKey, w, rest);
        KeySetCons(WitnessKey, w, rest);
      } else {
        UpsertFacts(rest, w, address);
        NoRepeatsCons(WitnessKey, ws[0], UpsertWitness(rest, w));
        KeySetCons(WitnessKey, ws[0], UpsertWitness(rest, w));
      }
    } else {
      KeySetCons(WitnessKey, w, []);
      assert [w] + [] == [w];
    }
  }

  /** After a lock every node of the ring stands in the witness table once, as its last seed in the ring
      describes it; the entries of other nodes stay. */
  lemma {:induction false} WitnessTableAfterLock(ws: seq<WitnessEntry>, ring: seq<SeedRecord>, now: nat, k: nat, address: string)
    requires UniqueWitnesses(ws) && k <= |ring|
    ensures UniqueWitnesses(WitnessesAfter(ws, ring, now, k))
    ensures FindWitness(WitnessesAfter(ws, ring, now, k), address)
         == match LastSeed(ring, address, k)
            case Some(i) => Some(WitnessEntry(address, ring[i].address, 1, "active", now, i))
            case None => FindWitness(ws, address)
  {
    hide UpsertWitness, FindWitness, UniqueWitnesses;
    if k > 0 {
      WitnessTableAfterLock(ws, ring, now, k - 1, address);
      UpsertFacts(WitnessesAfter(ws, ring, now, k - 1), Witness(ring[k - 1], k - 1, now), address);
    }
  }

  lemma {:induction false} CreditKeys(bs: seq<BalanceEntry>, a: string, share: nat, now: nat)
    requires UniqueBalances(bs)
    ensures UniqueBalances(Credit(bs, a, share, now))
    ensures KeySet(BalanceKey, Credit(bs, a, share, now)) == KeySet(BalanceKey, bs) + {a}
  {
    if bs != [] {
      var rest := bs[1..];
      assert bs == [bs[0]] + rest;
      NoRepeatsCons(BalanceKey, bs[0], rest);
      KeySetCons(BalanceKey, bs[0], rest);
      if bs[0].address == a {
        var entry := Raised(bs[0], share);
        NoRepeatsCons(BalanceKey, entry, rest);
        KeySetCons(BalanceKey, entry, rest);
      } else {
        CreditKeys(rest, a, share, now);
        NoRepeatsCons(BalanceKey, bs[0], Credit(rest, a, share, now));
        KeySetCons(BalanceKey, bs[0], Credit(rest, a, share, now));
      }
    } else {
      var entry := BalanceEntry(a, share, now);
      KeySetCons(BalanceKey, entry, []);
      assert [entry] + [] == [entry];
    }
  }

  lemma {:induction false} CreditBalance(bs: seq<BalanceEntry>, a: string, share: nat, now: nat, address: string)
    requires share < U64
    ensures BalanceOf(Credit(bs, a, share, now), address)
         == if address == a then (BalanceOf(bs, a) + share) % U64 else BalanceOf(bs, address)
  {
    if bs != [] && bs[0].address != a {
      CreditBalance(bs[1..], a, share, now, address);
    }
  }

  lemma {:induction false} BalanceWithinTotal(bs: seq<BalanceEntry>, address: string)
    ensures BalanceOf(bs, address) <= Total(bs)
  {
    if bs != [] {
      BalanceWithinTotal(bs[1..], address);
    }
  }

  /** One credit adds its share to the total exactly if the credited balance does not overflow. */
  lemma {:induction false} CreditTotal(bs: seq<BalanceEntry>, a: string, share: nat, now: nat)
    requires 0 < share < U64 && BalanceOf(bs, a) < U64
    ensures Total(Credit(bs, a, share, now)) == Total(bs) + share <==> BalanceOf(bs, a) + share < U64
  {
    if bs != [] {
      if bs[0].address == a {
        assert ([Raised(bs[0], share)] + bs[1..])[1..] == bs[1..];
      } else {
        CreditTotal(bs[1..], a, share, now);
        assert ([bs[0]] + Credit(bs[1..], a, share, now))[1..] == Credit(bs[1..], a, share, now);
      }
    } else {
      assert Total([BalanceEntry(a, share, now)]) == share by {
        assert [BalanceEntry(a, share, now)][1..] == [];
      }
    }
  }

  lemma {:induction false} ZeroCreditTotal(bs: seq<BalanceEntry>, a: string, now: nat)
    requires BalanceOf(bs, a) < U64
    ensures Total(Credit(bs, a, 0, now)) == Total(bs)
  {
    if bs != [] {
      if bs[0].address == a {
        assert ([Raised(bs[0], 0)] + bs[1..])[1..] == bs[1..];
      } else {
        ZeroCreditTotal(bs[1..], a, now);
        assert ([bs[0]] + Credit(bs[1..], a, 0, now))[1..] == Credit(bs[1..], a, 0, now);
      }
    } else {
      assert [BalanceEntry(a, 0, now)][1..] == [];
    }
  }

  lemma MulStep(k: nat, share: nat)
    requires k > 0
    ensures k * share == (k - 1) * share + share
  {
  }

  /** The first balance stored for any address fits u64. */
  ghost predicate Small(bs: seq<BalanceEntry>) {
    forall a :: BalanceOf(bs, a) < U64
  }

  lemma {:induction false} CreditAtMost(bs: seq<BalanceEntry>, a: string, share: nat, now: nat)
    ensures Total(Credit(bs, a, share, now)) <= Total(bs) + share
  {
    if bs == [] {
      assert [BalanceEntry(a, share, now)][1..] == [];
    } else if bs[0].address == a {
      assert ([Raised(bs[0], share)] + bs[1..])[1..] == bs[1..];
    } else {
      CreditAtMost(bs[1..], a, share, now);
      assert ([bs[0]] + Credit(bs[1..], a, share, now))[1..] == Credit(bs[1..], a, share, now);
    }
  }

  /** One credit, of any share. */
  lemma AnyCreditTotal(bs: seq<BalanceEntry>, a: string, share: nat, now: nat)
    requires Small(bs) && share < U64
    ensures Small(Credit(bs, a, share, now))
    ensures Total(Credit(bs, a, share, now)) <= Total(bs) + share
    ensures Total(Credit(bs, a, share, now)) == Total(bs) + share <==> BalanceOf(bs, a) + share < U64
  {
    hide Credit, Total, BalanceOf;
    CreditAtMost(bs, a, share, now);
    forall x
      ensures BalanceOf(Credit(bs, a, share, now), x) < U64
    {
      CreditBalance(bs, a, share, now, x);
    }
    assert BalanceOf(bs, a) < U64;
    if share > 0 {
      CreditTotal(bs, a, share, now);
    } else {
      ZeroCreditTotal(bs, a, now);
    }
  }

  lemma {:induction false} CreditsStaySmall(bs: seq<BalanceEntry>, ring: seq<SeedRecord>, share: nat, now: nat, k: nat)
    requires Small(bs) && share < U64 && k <= |ring|
    ensures Small(BalancesAfter(bs, ring, share, now, k))
    ensures Total(BalancesAfter(bs, ring, share, now, k)) <= Total(bs) + k * share
  {
    hide Credit, Total, Small;
    if k > 0 {
      MulStep(k, share);
      CreditsStaySmall(bs, ring, share, now, k - 1);
      AnyCreditTotal(BalancesAfter(bs, ring, share, now, k - 1), ring[k - 1].nodeAddress, share, now);
    }
  }

  lemma SeedsOfStep(ring: seq<SeedRecord>, address: string, k: nat, share: nat)
    requires 0 < k <= |ring|
    ensures SeedsOf(ring, address, k) * share
         == SeedsOf(ring, address, k - 1) * share + if ring[k - 1].nodeAddress == address then share else 0
  {
  }

  /** What an address would have after the first k credits, were balances unbounded. */
  function Due(bs: seq<BalanceEntry>, ring: seq<SeedRecord>, share: nat, k: nat, address: string): nat
    requires k <= |ring|
  {
    BalanceOf(bs, address) + SeedsOf(ring, address, k) * share
  }

  lemma DueStep(bs: seq<BalanceEntry>, ring: seq<SeedRecord>, share: nat, k: nat, address: string)
    requires 0 < k <= |ring|
    ensures Due(bs, ring, share, k, address)
         == Due(bs, ring, share, k - 1, address) + if ring[k - 1].nodeAddress == address then share else 0
  {
    SeedsOfStep(ring, address, k, share);
    hide SeedsOf, BalanceOf;
  }

  /** No balance overflows: what every address is due fits u64. */
  ghost predicate Room(bs: seq<BalanceEntry>, ring: seq<SeedRecord>, share: nat, k: nat)
    requires k <= |ring|
  {
    forall a :: Due(bs, ring, share, k, a) < U64
  }

  lemma RoomStep(bs: seq<BalanceEntry>, ring: seq<SeedRecord>, share: nat, k: nat)
    requires 0 < k <= |ring|
    ensures Room(bs, ring, share, k)
       <==> Room(bs, ring, share, k - 1) && Due(bs, ring, share, k - 1, ring[k - 1].nodeAddress) + share < U64
  {
    var a, m := ring[k - 1].nodeAddress, k - 1;
    hide Due;
    DueStep(bs, ring, share, k, a);
    if Room(bs, ring, share, k) {
      forall x
        ensures Due(bs, ring, share, m, x) < U64
      {
        DueStep(bs, ring, share, k, x);
        assert Due(bs, ring, share, k, x) < U64;
      }
    }
    if Room(bs, ring, share, k - 1) && Due(bs, ring, share, k - 1, a) + share < U64 {
      forall x
        ensures Due(bs, ring, share, k, x) < U64
      {
        DueStep(bs, ring, share, k, x);
        assert Due(bs, ring, share, k - 1, x) < U64;
      }
    }
  }

  /** While nothing overflows, crediting the first k seeds gives every node its number of seeds times the share. */
  lemma {:induction false} CreditsAddUp(bs: seq<BalanceEntry>, ring: seq<SeedRecord>, share: nat, now: nat, k: nat, address: string)
    requires share < U64 && k <= |ring| && Room(bs, ring, share, k)
    ensures BalanceOf(BalancesAfter(bs, ring, share, now, k), address)
         == BalanceOf(bs, address) + SeedsOf(ring, address, k) * share
  {
    hide Credit, BalanceOf, Room;
    if k > 0 {
      RoomStep(bs, ring, share, k);
      CreditsAddUp(bs, ring, share, now, k - 1, address);
      CreditsAddUp(bs, ring, share, now, k - 1, ring[k - 1].nodeAddress);
      SeedsOfStep(ring, address, k, share);
      CreditBalance(BalancesAfter(bs, ring, share, now, k - 1), ring[k - 1].nodeAddress, share, now, address);
      hide SeedsOf, BalancesAfter;
    }
  }

  /** A ring's credits add up to k shares in all exactly if no address is due more than fits u64. */
  lemma {:induction false} CreditsTotalExactly(bs: seq<BalanceEntry>, ring: seq<SeedRecord>, share: nat, now: nat, k: nat)
    requires Small(bs) && share < U64 && k <= |ring|
    ensures Total(BalancesAfter(bs, ring, share, now, k)) == Total(bs) + k * share <==> Room(bs, ring, share, k)
  {
    if k > 0 {
      var a := ring[k - 1].nodeAddress;
      var before := BalancesAfter(bs, ring, share, now, k - 1);
      assert BalancesAfter(bs, ring, share, now, k) == Credit(before, a, share, now);
      hide Credit, Total, BalanceOf, Small, Room, SeedsOf, BalancesAfter;
      MulStep(k, share);
      CreditsTotalExactly(bs, ring, share, now, k - 1);
      CreditsStaySmall(bs, ring, share, now, k - 1);
      AnyCreditTotal(before, a, share, now);
      RoomStep(bs, ring, share, k);
      if Room(bs, ring, share, k - 1) {
        CreditsAddUp(bs, ring, share, now, k - 1, a);
      }
    } else {
      assert forall a :: Due(bs, ring, share, 0, a) == BalanceOf(bs, a);
    }
  }

  lemma {:induction false} CreditsKeepUnique(bs: seq<BalanceEntry>, ring: seq<SeedRecord>, share: nat, now: nat, k: nat)
    requires UniqueBalances(bs) && k <= |ring|
    ensures UniqueBalances(BalancesAfter(bs, ring, share, now, k))
  {
    hide Credit, UniqueBalances;
    if k > 0 {
      CreditsKeepUnique(bs, ring, share, now, k - 1);
      CreditKeys(BalancesAfter(bs, ring, share, now, k - 1), ring[k - 1].nodeAddress, share, now);
    }
  }

  lemma ShareBounds(n: nat)
    requires n > 0
    ensures n * Share(n) <= TOTAL_REWARD < n * Share(n) + n
  {
  }

  lemma SeedsAtMost(ring: seq<SeedRecord>, address: string, k: nat)
    requires k <= |ring|
    ensures SeedsOf(ring, address, k) <= k
  {
  }

  lemma ProductMonotone(a: nat, b: nat, c: nat)
    requires a <= b
    ensures 0 <= a * c <= b * c
  {
  }

  /** A lock raises the total by exactly floor(1000/n)*n if and only if no address is due more than fits u64. It then
      pays every node its seeds times floor(1000/n), in all at most 1000, and leaves less than n unpaid. */
  lemma LockPays(bs: seq<BalanceEntry>, ring: seq<SeedRecord>, now: nat, address: string)
    requires Small(bs) && ring != []
    ensures var share, after := Share(|ring|), BalancesAfter(bs, ring, Share(|ring|), now, |ring|);
            && (Total(after) == Total(bs) + |ring| * share <==> Room(bs, ring, share, |ring|))
            && |ring| * share <= 1000 < |ring| * share + |ring|
            && (Room(bs, ring, share, |ring|) ==>
                  BalanceOf(after, address) == BalanceOf(bs, address) + SeedsOf(ring, address, |ring|) * share)
            && Small(after) && (UniqueBalances(bs) ==> UniqueBalances(after))
  {
    ShareBounds(|ring|);
    ShareFits(|ring|);
    hide Share, BalancesAfter, Total, BalanceOf, SeedsOf, Small, Room, UniqueBalances;
    CreditsTotalExactly(bs, ring, Share(|ring|), now, |ring|);
    CreditsStaySmall(bs, ring, Share(|ring|), now, |ring|);
    if Room(bs, ring, Share(|ring|), |ring|) {
      CreditsAddUp(bs, ring, Share(|ring|), now, |ring|, address);
    }
    if UniqueBalances(bs) {
      CreditsKeepUnique(bs, ring, Share(|ring|), now, |ring|);
    }
  }

  lemma ShareFits(n: nat)
    ensures Share(n) <= TOTAL_REWARD < U64
  {
  }

  /** A total with 1000 to spare leaves room for any lock. */
  lemma TotalLeavesRoom(bs: seq<BalanceEntry>, ring: seq<SeedRecord>)
    requires ring != [] && Total(bs) + TOTAL_REWARD < U64
    ensures Small(bs) && Room(bs, ring, Share(|ring|), |ring|)
  {
    ShareBounds(|ring|);
    hide Total, BalanceOf, SeedsOf, Share;
    forall a
      ensures BalanceOf(bs, a) < U64 && Due(bs, ring, Share(|ring|), |ring|, a) < U64
    {
      BalanceWithinTotal(bs, a);
      SeedsAtMost(ring, a, |ring|);
      ProductMonotone(SeedsOf(ring, a, |ring|), |ring|, Share(|ring|));
    }
  }

  function AfterLocks(bs: seq<BalanceEntry>, rings: seq<seq<SeedRecord>>, now: nat): seq<BalanceEntry> {
    if rings == [] then bs
    else
      var before, ring := AfterLocks(bs, rings[..|rings| - 1], now), rings[|rings| - 1];
      BalancesAfter(before, ring, Share(|ring|), now, |ring|)
  }

  /** One more lock, whatever its ring. */
  lemma LockAdds(bs: seq<BalanceEntry>, ring: seq<SeedRecord>, now: nat, address: string)
    requires UniqueBalances(bs) && Total(bs) + TOTAL_REWARD < U64
    ensures var after := BalancesAfter(bs, ring, Share(|ring|), now, |ring|);
            && UniqueBalances(after)
            && Total(bs) <= Total(after) <= Total(bs) + TOTAL_REWARD
            && BalanceOf(bs, address) <= BalanceOf(after, address)
  {
    assert ring == [] ==> BalancesAfter(bs, ring, Share(|ring|), now, |ring|) == bs;
    hide Total, BalanceOf, BalancesAfter, UniqueBalances, SeedsOf, Share, Small, Room;
    if ring != [] {
      TotalLeavesRoom(bs, ring);
      LockPays(bs, ring, now, address);
      ProductMonotone(0, SeedsOf(ring, address, |ring|), Share(|ring|));
      ProductMonotone(0, |ring|, Share(|ring|));
    }
  }

  /** k locks add at most 1000*k, so no balance overflows while that fits. */
  lemma {:induction false} LocksAddAtMost(bs: seq<BalanceEntry>, rings: seq<seq<SeedRecord>>, now: nat, address: string)
    requires UniqueBalances(bs) && Total(bs) + TOTAL_REWARD * |rings| < U64
    ensures var after := AfterLocks(bs, rings, now);
            && UniqueBalances(after)
            && Total(bs) <= Total(after) <= Total(bs) + TOTAL_REWARD * |rings|
            && BalanceOf(bs, address) <= BalanceOf(after, address) < U64
  {
    hide BalancesAfter, Total, BalanceOf, UniqueBalances;
    if rings != [] {
      LocksAddAtMost(bs, rings[..|rings| - 1], now, address);
      LockAdds(AfterLocks(bs, rings[..|rings| - 1], now), rings[|rings| - 1], now, address);
    }
    BalanceWithinTotal(AfterLocks(bs, rings, now), address);
  }
}
