/** Sets of seeds as they travel between nodes: hashing, filtering, merging, and derivation from a registry. */
module SeedSets {
  import opened Collections
  import opened Text
  import opened Dedup
  import opened Net
  import opened Registry

  type Digest = string

  /** SHA-256 on the text fed to the hasher. Nothing is assumed of it here; where a
      result needs freedom from collisions it says so for the inputs concerned. */
  type Hasher = string -> Digest

  ghost predicate NoCollision(h: Hasher, x: string, y: string) {
    h(x) == h(y) ==> x == y
  }

  datatype SeedInfo = SeedInfo(
    ip: string,
    port: Port,
    nodeId: string,
    isIntranet: bool,
    isConnectable: bool,
    successCount: nat,
    failureCount: nat,
    lastAttemptTs: nat)
  {
    function Address(): string {
      HostPort(ip, port)
    }

    function SocketAddress(): Option<SocketAddr> {
      ParseSocketAddr(Address())
    }
  }

  datatype SeedSet = SeedSet(
    seeds: seq<SeedInfo>,
    preHash: string,
    hash: Digest,
    epoch: nat,
    locked: bool,
    syncRound: nat)

  const DEFAULT_PRE_HASH := "0000000000000000000000000000000000000000000000000000000000000000"

  // ---------------------------------------------------------------- hashing

  function AddressOf(s: SeedInfo): string {
    s.Address()
  }

  function Addresses(seeds: seq<SeedInfo>): (r: seq<string>)
    ensures |r| == |seeds|
  {
    Map(AddressOf, seeds)
  }

  /** The text that a seed hash is taken of: no separators between the sorted addresses. */
  function HashInput(preHash: string, seeds: seq<SeedInfo>): string {
    preHash + Concat(Sort(Addresses(seeds)))
  }

  function SeedHash(h: Hasher, preHash: string, seeds: seq<SeedInfo>): Digest {
    h(HashInput(preHash, seeds))
  }

  /** Feeding a hasher one part after the other hashes their concatenation. */
  method FeedHasher(h: Hasher, first: string, parts: seq<string>) returns (d: Digest)
    ensures d == h(first + Concat(parts))
  {
    var fed := first;
    var i := 0;
    while i < |parts|
      invariant 0 <= i <= |parts|
      invariant fed + Concat(parts[i..]) == first + Concat(parts)
    {
      assert parts[i..][1..] == parts[i + 1..];
      fed := fed + parts[i];
      i := i + 1;
    }
    assert fed + "" == fed;
    d := h(fed);
  }

  /** What is hashed: the previous hash, and then the addresses, each as often as it occurs, in order. */
  method ComputeSeedHash(h: Hasher, preHash: string, seeds: seq<SeedInfo>) returns (d: Digest)
    ensures d == SeedHash(h, preHash, seeds)
    ensures exists parts :: Sorted(parts) && multiset(parts) == multiset(Addresses(seeds)) && d == h(preHash + Concat(parts))
  {
    var parts := Sort(Addresses(seeds));
    SortSorts(Addresses(seeds));
    d := FeedHasher(h, preHash, parts);
  }

  /** The only texts that a seed hash can be taken of, whatever sorted arrangement one starts from. */
  lemma SeedHashExactly(h: Hasher, preHash: string, seeds: seq<SeedInfo>, parts: seq<string>)
    requires Sorted(parts) && multiset(parts) == multiset(Map((s: SeedInfo) => HostPort(s.ip, s.port), seeds))
    ensures SeedHash(h, preHash, seeds) == h(preHash + Concat(parts))
  {
    assert Map((s: SeedInfo) => HostPort(s.ip, s.port), seeds) == Addresses(seeds);
    SortSorts(Addresses(seeds));
    SortedUnique(parts, Sort(Addresses(seeds)));
  }

  /** Previous hashes of one length tell the hashes of a seed list apart. */
  lemma PreviousHashTells(h: Hasher, p: string, q: string, seeds: seq<SeedInfo>)
    requires |p| == |q| && NoCollision(h, HashInput(p, seeds), HashInput(q, seeds))
    ensures SeedHash(h, p, seeds) == SeedHash(h, q, seeds) <==> p == q
  {
    assert HashInput(p, seeds)[..|p|] == p && HashInput(q, seeds)[..|q|] == q;
  }

  /** Only which addresses occur, and how often, decides the hash. */
  lemma HashIgnoresOrder(h: Hasher, preHash: string, xs: seq<SeedInfo>, ys: seq<SeedInfo>)
    requires multiset(Addresses(xs)) == multiset(Addresses(ys))
    ensures SeedHash(h, preHash, xs) == SeedHash(h, preHash, ys)
  {
    SortOfPermutation(Addresses(xs), Addresses(ys));
  }

  /** The hash input is not uniquely decodable, but of two lists one of which is included
      in the other, equal inputs leave no room for an extra address. */
  lemma SameInputSameSize(preHash: string, xs: seq<SeedInfo>, ys: seq<SeedInfo>)
    requires multiset(Addresses(xs)) <= multiset(Addresses(ys))
    requires HashInput(preHash, xs) == HashInput(preHash, ys)
    ensures |xs| == |ys|
  {
    var sx, sy := Sort(Addresses(xs)), Sort(Addresses(ys));
    SortSorts(Addresses(xs));
    SortSorts(Addresses(ys));
    assert HashInput(preHash, xs)[|preHash|..] == Concat(sx);
    assert HashInput(preHash, ys)[|preHash|..] == Concat(sy);
    forall x | x in sy
      ensures x != ""
    {
      assert x in multiset(Addresses(ys));
      assert x in Addresses(ys);
    }
    ConcatLength(sx, sy);
    assert |sx| == |multiset(sx)| && |sy| == |multiset(sy)|;
    assert |Addresses(xs)| == |multiset(Addresses(xs))| && |Addresses(ys)| == |multiset(Addresses(ys))|;
  }

  /** Two different sets of ordinary IPv4 seeds, of equal size, that hash alike under every
      hash function: 1.1.1.1:1, 11.1.1.1:2 and 1.1.1.1:11, 1.1.1.1:2. Equal hashes alone
      therefore never show that two registries agree. */
  lemma HashConfuses(h: Hasher, preHash: string) returns (xs: seq<SeedInfo>, ys: seq<SeedInfo>)
    ensures NoRepeatedAddress(xs) && NoRepeatedAddress(ys) && AddressSet(xs) != AddressSet(ys)
    ensures SeedHash(h, preHash, xs) == SeedHash(h, preHash, ys)
  {
    var x0, x1 := PlainSeed("1.1.1.1", 1), PlainSeed("11.1.1.1", 2);
    var y0, y1 := PlainSeed("1.1.1.1", 11), PlainSeed("1.1.1.1", 2);
    ConfusedAddresses();
    SameJoinedText(h, preHash, x0, x1, y0, y1);
    xs, ys := [x0, x1], [y0, y1];
  }

  lemma SameJoinedText(h: Hasher, preHash: string, x0: SeedInfo, x1: SeedInfo, y0: SeedInfo, y1: SeedInfo)
    requires Less(x0.Address(), x1.Address()) && Less(y0.Address(), y1.Address())
    requires x0.Address() + x1.Address() == y0.Address() + y1.Address()
    requires x1.Address() != y0.Address() && x1.Address() != y1.Address()
    ensures NoRepeatedAddress([x0, x1]) && NoRepeatedAddress([y0, y1])
    ensures AddressSet([x0, x1]) != AddressSet([y0, y1])
    ensures SeedHash(h, preHash, [x0, x1]) == SeedHash(h, preHash, [y0, y1])
  {
    LessIrreflexive(x0.Address());
    LessIrreflexive(y0.Address());
    SortPair(x0.Address(), x1.Address());
    SortPair(y0.Address(), y1.Address());
    hide Less, Sort, Concat, HostPort;
    assert Addresses([x0, x1]) == [x0.Address(), x1.Address()];
    assert Addresses([y0, y1]) == [y0.Address(), y1.Address()];
    assert AddressOf(x1) in AddressSet([x0, x1]) && AddressOf(x1) !in AddressSet([y0, y1]);
  }

  function PlainSeed(ip: string, port: Port): SeedInfo {
    SeedInfo(ip, port, "n", false, true, 0, 0, 0)
  }

  lemma PlainAddresses()
    ensures PlainSeed("1.1.1.1", 1).Address() == "1.1.1.1:1" && PlainSeed("11.1.1.1", 2).Address() == "11.1.1.1:2"
    ensures PlainSeed("1.1.1.1", 11).Address() == "1.1.1.1:11" && PlainSeed("1.1.1.1", 2).Address() == "1.1.1.1:2"
  {
    assert Decimal(1) == "1" && Decimal(2) == "2" && Decimal(11) == "11" by {
      assert Decimal(11) == Decimal(1) + "1";
    }
    hide Decimal;
  }

  lemma ConfusedInOrder()
    ensures Less("1.1.1.1:1", "11.1.1.1:2") && Less("1.1.1.1:11", "1.1.1.1:2")
  {
    hide Less;
    CommonPrefix("1", ".1.1.1:1", "1.1.1.1:2");
    CommonPrefix("1.1.1.1:", "11", "2");
    LessByFirst(".1.1.1:1", "1.1.1.1:2");
    LessByFirst("11", "2");
    assert "1" + ".1.1.1:1" == "1.1.1.1:1" && "1" + "1.1.1.1:2" == "11.1.1.1:2";
    assert "1.1.1.1:" + "11" == "1.1.1.1:11" && "1.1.1.1:" + "2" == "1.1.1.1:2";
  }

  lemma ConfusedTexts()
    ensures "1.1.1.1:1" + "11.1.1.1:2" == "1.1.1.1:11" + "1.1.1.1:2"
    ensures "11.1.1.1:2" != "1.1.1.1:11" && "11.1.1.1:2" != "1.1.1.1:2"
  {
    assert |"1.1.1.1:2"| != |"11.1.1.1:2"| && "11.1.1.1:2"[1] != "1.1.1.1:11"[1];
  }

  lemma ConfusedAddresses()
    ensures var a0, a1 := PlainSeed("1.1.1.1", 1).Address(), PlainSeed("11.1.1.1", 2).Address();
            var b0, b1 := PlainSeed("1.1.1.1", 11).Address(), PlainSeed("1.1.1.1", 2).Address();
            a0 + a1 == b0 + b1 && Less(a0, a1) && Less(b0, b1) && a1 != b0 && a1 != b1
  {
    hide *;
    PlainAddresses();
    ConfusedInOrder();
    ConfusedTexts();
  }

  lemma LessByFirst(a: string, b: string)
    requires a != "" && b != "" && a[0] < b[0]
    ensures Less(a, b)
  {
  }

  lemma {:induction false} CommonPrefix(p: string, a: string, b: string)
    ensures Less(p + a, p + b) <==> Less(a, b)
  {
    if p == "" {
      assert p + a == a && p + b == b;
    } else {
      CommonPrefix(p[1..], a, b);
      assert (p + a)[1..] == p[1..] + a && (p + b)[1..] == p[1..] + b;
    }
  }

  lemma SortPair(a: string, b: string)
    requires Less(a, b)
    ensures Sort([a, b]) == [a, b] && Concat([a, b]) == a + b
  {
    LessAsymmetric(a, b);
    hide Less;
    assert [a, b][1..] == [b] && [b][1..] == [];
    assert Sort([]) == [] && Insert(b, []) == [b];
    assert Sort([b]) == [b];
    assert Sort([a, b]) == Insert(a, [b]) == [a] + [b];
    ConcatPair(a, b);
  }

  // ---------------------------------------------------------------- constructors and checks

  function WithPreHash(h: Hasher, seeds: seq<SeedInfo>, epoch: nat, preHash: string): SeedSet {
    SeedSet(seeds, preHash, SeedHash(h, preHash, seeds), epoch, false, 0)
  }

  function New(h: Hasher, seeds: seq<SeedInfo>, epoch: nat): SeedSet {
    WithPreHash(h, seeds, epoch, DEFAULT_PRE_HASH)
  }

  predicate Verify(h: Hasher, s: SeedSet) {
    SeedHash(h, s.preHash, s.seeds) == s.hash
  }

  /** A set verifies exactly if its hash is that of its own previous hash and addresses. */
  lemma VerifiesExactly(h: Hasher, s: SeedSet, parts: seq<string>)
    requires Sorted(parts) && multiset(parts) == multiset(Map((x: SeedInfo) => HostPort(x.ip, x.port), s.seeds))
    ensures Verify(h, s) <==> s.hash == h(s.preHash + Concat(parts))
  {
    SeedHashExactly(h, s.preHash, s.seeds, parts);
  }

  /** A new set starts unlocked, in round 0, from a previous hash of 64 zeros, and verifies. */
  lemma NewSet(h: Hasher, seeds: seq<SeedInfo>, epoch: nat)
    ensures var s := New(h, seeds, epoch);
            && s.seeds == seeds && s.epoch == epoch && !s.locked && s.syncRound == 0 && Verify(h, s)
            && s.preHash == "0000000000000000000000000000000000000000000000000000000000000000"
  {
    hide SeedHash;
  }

  predicate Contains(seeds: seq<SeedInfo>, ip: string, port: Port) {
    exists s | s in seeds :: s.ip == ip && s.port == port
  }

  predicate IsLoopbackText(ip: string) {
    var parsed := ParseIp(ip);
    parsed.Some? && parsed.value.IsLoopback()
  }

  function NonLoopback(seeds: seq<SeedInfo>): (r: seq<SeedInfo>)
    ensures forall s :: s in r <==> s in seeds && !IsLoopbackText(s.ip)
  {
    if seeds == [] then []
    else if IsLoopbackText(seeds[0].ip) then NonLoopback(seeds[1..])
    else [seeds[0]] + NonLoopback(seeds[1..])
  }

  /** The filter keeps the order and judges each seed by itself. */
  lemma {:induction false} NonLoopbackAppend(xs: seq<SeedInfo>, ys: seq<SeedInfo>)
    ensures NonLoopback(xs + ys) == NonLoopback(xs) + NonLoopback(ys)
  {
    if xs == [] {
      assert xs + ys == ys;
    } else {
      assert (xs + ys)[0] == xs[0] && (xs + ys)[1..] == xs[1..] + ys;
      NonLoopbackHead(xs);
      NonLoopbackHead(xs + ys);
      NonLoopbackAppend(xs[1..], ys);
      hide NonLoopback;
      AppendAssociative(NonLoopback([xs[0]]), NonLoopback(xs[1..]), NonLoopback(ys));
    }
  }

  lemma NonLoopbackHead(xs: seq<SeedInfo>)
    requires xs != []
    ensures NonLoopback(xs) == NonLoopback([xs[0]]) + NonLoopback(xs[1..])
  {
    hide IsLoopbackText;
    NonLoopbackOne(xs[0]);
    var rest := NonLoopback(xs[1..]);
    assert [] + rest == rest;
  }

  lemma NonLoopbackOne(s: SeedInfo)
    ensures NonLoopback([s]) == if IsLoopbackText(s.ip) then [] else [s]
  {
    hide IsLoopbackText;
    assert [s][1..] == [];
  }

  /** Loopback is 127.0.0.0/8 and ::1. */
  lemma LoopbackExactly(ip: Ip)
    ensures IsLoopbackText(ip.Text()) <==> if ip.V4? then ip.a == 127 else ip.text == "::1"
  {
    ParseIpPrinted(ip);
  }

  function FilterLoopback(h: Hasher, s: SeedSet): SeedSet {
    WithPreHash(h, NonLoopback(s.seeds), s.epoch, s.preHash)
  }

  // ---------------------------------------------------------------- merging

  function AddressSet(seeds: seq<SeedInfo>): set<string> {
    KeySet(AddressOf, seeds)
  }

  ghost predicate NoRepeatedAddress(seeds: seq<SeedInfo>) {
    NoRepeats(AddressOf, seeds)
  }

  function Fresh(seen: set<string>, seeds: seq<SeedInfo>): seq<SeedInfo> {
    KeepFirst(AddressOf, seen, seeds)
  }

  function Join(xs: seq<SeedInfo>, ys: seq<SeedInfo>): seq<SeedInfo> {
    xs + Fresh(AddressSet(xs), ys)
  }

  function MergedSeeds(xs: seq<SeedInfo>, ys: seq<SeedInfo>): seq<SeedInfo> {
    Join(NonLoopback(xs), NonLoopback(ys))
  }

  function Max(a: nat, b: nat): nat {
    if a > b then a else b
  }

  function Merge(h: Hasher, x: SeedSet, y: SeedSet): SeedSet {
    WithPreHash(h, MergedSeeds(x.seeds, y.seeds), Max(x.epoch, y.epoch), x.preHash)
  }

  /** The loop that SeedSet::merge runs over the other side's seeds. */
  method MergeSets(h: Hasher, x: SeedSet, y: SeedSet) returns (z: SeedSet)
    ensures z == Merge(h, x, y)
    ensures z.preHash == x.preHash && !z.locked && z.syncRound == 0
  {
    var merged := NonLoopback(x.seeds);
    var seen := AddressSet(merged);
    var i := 0;
    while i < |y.seeds|
      invariant 0 <= i <= |y.seeds|
      invariant merged + Fresh(seen, NonLoopback(y.seeds[i..])) == MergedSeeds(x.seeds, y.seeds)
    {
      var seed := y.seeds[i];
      assert y.seeds[i..][1..] == y.seeds[i + 1..];
      i := i + 1;
      if IsLoopbackText(seed.ip) {
        continue;
      }
      assert NonLoopback(y.seeds[i - 1..])[1..] == NonLoopback(y.seeds[i..]);
      var addr := seed.Address();
      if addr !in seen {
        seen := seen + {addr};
        merged := merged + [seed];
      }
    }
    assert merged + [] == merged;
    var hash := ComputeSeedHash(h, x.preHash, merged);
    z := SeedSet(merged, x.preHash, hash, Max(x.epoch, y.epoch), false, 0);
  }

  lemma {:induction false} NonLoopbackKeepsNoRepeats(seeds: seq<SeedInfo>)
    requires NoRepeatedAddress(seeds)
    ensures NoRepeatedAddress(NonLoopback(seeds))
  {
    if seeds != [] {
      var rest := NonLoopback(seeds[1..]);
      NonLoopbackKeepsNoRepeats(seeds[1..]);
      forall s | s in rest
        ensures s.Address() != seeds[0].Address()
      {
        var j :| 0 <= j < |seeds[1..]| && seeds[1..][j] == s;
        assert seeds[j + 1] == s;
      }
    }
  }

  /** Membership by (ip, port) is membership by printed address. */
  lemma ContainsByAddress(seeds: seq<SeedInfo>, ip: string, port: Port)
    ensures Contains(seeds, ip, port) <==> HostPort(ip, port) in AddressSet(seeds)
  {
    if HostPort(ip, port) in AddressSet(seeds) {
      var s :| s in seeds && AddressOf(s) == HostPort(ip, port);
      HostPortInjective(s.ip, s.port, ip, port);
    }
  }

  lemma JoinAddresses(xs: seq<SeedInfo>, ys: seq<SeedInfo>)
    ensures AddressSet(Join(xs, ys)) == AddressSet(xs) + AddressSet(ys)
  {
    KeptKeys(AddressOf, AddressSet(xs), ys);
    var added := Fresh(AddressSet(xs), ys);
    KeySetAppend(AddressOf, xs, added);
  }

  lemma NonLoopbackContains(seeds: seq<SeedInfo>, ip: string, port: Port)
    ensures Contains(NonLoopback(seeds), ip, port) <==> Contains(seeds, ip, port) && !IsLoopbackText(ip)
  {
  }

  /** The merge is the union of both sides on non-loopback addresses, verifies, and takes the later epoch. */
  lemma MergeIsUnion(h: Hasher, x: SeedSet, y: SeedSet, ip: string, port: Port)
    ensures Contains(Merge(h, x, y).seeds, ip, port)
       <==> !IsLoopbackText(ip) && (Contains(x.seeds, ip, port) || Contains(y.seeds, ip, port))
    ensures Verify(h, Merge(h, x, y))
    ensures Merge(h, x, y).epoch >= x.epoch && Merge(h, x, y).epoch >= y.epoch
    ensures Merge(h, x, y).epoch in {x.epoch, y.epoch}
  {
    JoinAddresses(NonLoopback(x.seeds), NonLoopback(y.seeds));
    ContainsByAddress(Merge(h, x, y).seeds, ip, port);
    ContainsByAddress(NonLoopback(x.seeds), ip, port);
    ContainsByAddress(NonLoopback(y.seeds), ip, port);
    NonLoopbackContains(x.seeds, ip, port);
    NonLoopbackContains(y.seeds, ip, port);
  }

  lemma MergeNoRepeats(xs: seq<SeedInfo>, ys: seq<SeedInfo>)
    requires NoRepeatedAddress(xs)
    ensures NoRepeatedAddress(MergedSeeds(xs, ys))
  {
    var left := NonLoopback(xs);
    var right := Fresh(AddressSet(left), NonLoopback(ys));
    NonLoopbackKeepsNoRepeats(xs);
    KeptNoRepeats(AddressOf, AddressSet(left), NonLoopback(ys));
    KeptKeys(AddressOf, AddressSet(left), NonLoopback(ys));
    assert forall i | 0 <= i < |left| :: left[i].Address() in AddressSet(left);
    assert forall j | 0 <= j < |right| :: right[j].Address() in AddressSet(right);
  }

  /** Without repeats, the set of addresses decides the hash. */
  lemma HashByAddressSet(h: Hasher, preHash: string, xs: seq<SeedInfo>, ys: seq<SeedInfo>)
    requires NoRepeatedAddress(xs) && NoRepeatedAddress(ys) && AddressSet(xs) == AddressSet(ys)
    ensures SeedHash(h, preHash, xs) == SeedHash(h, preHash, ys)
  {
    SameKeysSameMultiset(AddressOf, xs, ys);
    HashIgnoresOrder(h, preHash, xs, ys);
  }

  lemma MergeCommutes(h: Hasher, x: SeedSet, y: SeedSet)
    requires NoRepeatedAddress(x.seeds) && NoRepeatedAddress(y.seeds) && x.preHash == y.preHash
    ensures Merge(h, x, y).hash == Merge(h, y, x).hash
    ensures Merge(h, x, y).epoch == Merge(h, y, x).epoch
  {
    MergeNoRepeats(x.seeds, y.seeds);
    MergeNoRepeats(y.seeds, x.seeds);
    JoinAddresses(NonLoopback(x.seeds), NonLoopback(y.seeds));
    JoinAddresses(NonLoopback(y.seeds), NonLoopback(x.seeds));
    HashByAddressSet(h, x.preHash, MergedSeeds(x.seeds, y.seeds), MergedSeeds(y.seeds, x.seeds));
  }

  /** Merging in what is already there only drops loopback addresses. */
  lemma MergeAbsorbs(h: Hasher, x: SeedSet, y: SeedSet)
    requires AddressSet(NonLoopback(y.seeds)) <= AddressSet(NonLoopback(x.seeds)) && y.epoch <= x.epoch
    ensures Merge(h, x, y) == FilterLoopback(h, x)
  {
    NothingFresh(AddressOf, AddressSet(NonLoopback(x.seeds)), NonLoopback(y.seeds));
    assert NonLoopback(x.seeds) + [] == NonLoopback(x.seeds);
  }

  lemma MergeIdempotent(h: Hasher, x: SeedSet)
    ensures Merge(h, x, x) == FilterLoopback(h, x)
  {
    MergeAbsorbs(h, x, x);
  }

  lemma {:induction false} NonLoopbackStays(seeds: seq<SeedInfo>)
    requires forall s | s in seeds :: !IsLoopbackText(s.ip)
    ensures NonLoopback(seeds) == seeds
  {
    if seeds != [] {
      assert seeds[0] in seeds;
      assert forall s | s in seeds[1..] :: s in seeds;
      NonLoopbackStays(seeds[1..]);
    }
  }

  lemma MergedNonLoopback(xs: seq<SeedInfo>, ys: seq<SeedInfo>)
    ensures NonLoopback(MergedSeeds(xs, ys)) == MergedSeeds(xs, ys)
  {
    NonLoopbackStays(MergedSeeds(xs, ys));
  }

  lemma JoinAssociative(x: seq<SeedInfo>, y: seq<SeedInfo>, z: seq<SeedInfo>)
    ensures Join(Join(x, y), z) == Join(x, Join(y, z))
  {
    hide KeepFirst, KeySet;
    var sx, sy := AddressSet(x), AddressSet(y);
    var a, b := Fresh(sx, y), Fresh(sx + sy, z);
    JoinAddresses(x, y);
    assert Join(Join(x, y), z) == x + a + b;
    KeepAppend(AddressOf, sx, y, Fresh(sy, z));
    KeepOfKeep(AddressOf, sx + sy, sy, z);
    assert Join(x, Join(y, z)) == x + (a + b);
    assert x + a + b == x + (a + b);
  }

  /** Exact associativity, with no condition on repeated addresses. */
  lemma MergeAssociative(h: Hasher, x: SeedSet, y: SeedSet, z: SeedSet)
    ensures Merge(h, Merge(h, x, y), z) == Merge(h, x, Merge(h, y, z))
  {
    MergedNonLoopback(x.seeds, y.seeds);
    MergedNonLoopback(y.seeds, z.seeds);
    JoinAssociative(NonLoopback(x.seeds), NonLoopback(y.seeds), NonLoopback(z.seeds));
  }

  // ---------------------------------------------------------------- derivation from a registry

  /** The three ranges of RFC 1918, section 3. */
  predicate PrivateV4(ip: Ip) {
    ip.V4? && (ip.a == 10 || (ip.a == 172 && ip.b in {16, 17, 18, 19, 20, 21, 22, 23, 24, 25, 26, 27, 28, 29, 30, 31})
               || (ip.a == 192 && ip.b == 168))
  }

  function InfoOf(p: Pair): SeedInfo {
    SeedInfo(p.0.ip.Text(), p.0.port, p.1, p.0.ip.IsPrivateV4(), true, 0, 0, 0)
  }

  function Infos(ps: seq<Pair>): (r: seq<SeedInfo>)
    ensures |r| == |ps|
    ensures forall i | 0 <= i < |ps| :: r[i] == InfoOf(ps[i])
  {
    Map(InfoOf, ps)
  }

  function WithPort(ps: seq<Pair>): seq<Pair> {
    if ps == [] then []
    else if ps[0].0.port != 0 then [ps[0]] + WithPort(ps[1..])
    else WithPort(ps[1..])
  }

  function NonZero(pairs: set<Pair>): set<Pair> {
    set p | p in pairs && p.0.port != 0
  }

  lemma {:induction false} WithPortEnumerates(ps: seq<Pair>, pairs: set<Pair>)
    requires Enumerates(ps, pairs)
    ensures Enumerates(WithPort(ps), NonZero(pairs))
  {
    if ps != [] {
      var p, rest := ps[0], ps[1..];
      assert ps == [p] + rest;
      assert Distinct(rest) && p !in rest;
      WithPortEnumerates(rest, pairs - {p}) by {
        assert Elems(ps) == {p} + Elems(rest);
        assert Elems(rest) == pairs - {p};
      }
      assert p !in Elems(WithPort(rest));
      assert Elems([p] + WithPort(rest)) == {p} + Elems(WithPort(rest));
    }
  }

  /** The derived set lists the registry's pairs with a usable port, each once, in some order. */
  method Derive(h: Hasher, reg: NodeRegistry) returns (s: SeedSet, ghost order: seq<Pair>)
    ensures Enumerates(order, NonZero(Pairs(reg.nodes)))
    ensures s == New(h, Infos(order), 0)
    ensures |s.seeds| == |order| && forall i | 0 <= i < |order| ::
      && s.seeds[i].ip == order[i].0.ip.Text() && s.seeds[i].port == order[i].0.port && s.seeds[i].nodeId == order[i].1
      && s.seeds[i].isConnectable && s.seeds[i].successCount == s.seeds[i].failureCount == s.seeds[i].lastAttemptTs == 0
      && (s.seeds[i].isIntranet <==> PrivateV4(order[i].0.ip))
  {
    var all := reg.GetAllSeeds();
    var kept := WithPort(all);
    order := kept;
    WithPortEnumerates(all, Pairs(reg.nodes));
    s := New(h, Infos(kept), 0);
  }

  lemma InfosIncluded(ps: seq<Pair>, qs: seq<Pair>)
    requires Distinct(ps) && Distinct(qs) && Elems(ps) <= Elems(qs)
    ensures multiset(Addresses(Infos(ps))) <= multiset(Addresses(Infos(qs)))
  {
    DistinctIncluded(ps, qs);
    MapIncluded(InfoOf, ps, qs);
    MapIncluded(AddressOf, Infos(ps), Infos(qs));
  }

  /** The derived hash is a function of the registry's pairs: the iteration order does not show. */
  lemma DerivedHashDeterministic(h: Hasher, ps: seq<Pair>, qs: seq<Pair>)
    requires Distinct(ps) && Distinct(qs) && Elems(ps) == Elems(qs)
    ensures New(h, Infos(ps), 0).hash == New(h, Infos(qs), 0).hash
  {
    InfosIncluded(ps, qs);
    InfosIncluded(qs, ps);
    HashIgnoresOrder(h, DEFAULT_PRE_HASH, Infos(ps), Infos(qs));
  }

  /** Between two observations of a registry that only grew, equal hashes mean nothing usable was learned,
      provided SHA-256 does not collide on the two texts hashed. */
  lemma EqualHashNothingLearned(h: Hasher, before: set<Pair>, after: set<Pair>, ps: seq<Pair>, qs: seq<Pair>)
    requires before <= after
    requires Enumerates(ps, NonZero(before)) && Enumerates(qs, NonZero(after))
    requires NoCollision(h, HashInput(DEFAULT_PRE_HASH, Infos(ps)), HashInput(DEFAULT_PRE_HASH, Infos(qs)))
    ensures New(h, Infos(ps), 0).hash == New(h, Infos(qs), 0).hash <==> NonZero(before) == NonZero(after)
  {
    if NonZero(before) == NonZero(after) {
      DerivedHashDeterministic(h, ps, qs);
    }
    if New(h, Infos(ps), 0).hash == New(h, Infos(qs), 0).hash {
      InfosIncluded(ps, qs);
      SameInputSameSize(DEFAULT_PRE_HASH, Infos(ps), Infos(qs));
      DistinctSize(ps);
      DistinctSize(qs);
      SubsetSize(NonZero(before), NonZero(after));
    }
  }
}
