/** The seed list that handshakes and gossip carry: deduplicated by address, hashed by node. */
module SeedsCommands {
  import opened Collections
  import opened Text
  import opened Dedup
  import opened SeedSets

  datatype SeedRecord = SeedRecord(address: string, nodeAddress: string, firstSeen: int)

  datatype SeedsCommand = SeedsCommand(seeds: seq<SeedRecord>, hash: Digest)

  function RecordAddress(r: SeedRecord): string {
    r.address
  }

  function NodeOf(r: SeedRecord): string {
    r.nodeAddress
  }

  /** What one record feeds to the hasher. */
  function Chunk(r: SeedRecord): string {
    r.nodeAddress + LittleEndian(r.firstSeen, 8)
  }

  // ---------------------------------------------------------------- the stable sort by node address

  function InsertRecord(r: SeedRecord, s: seq<SeedRecord>): seq<SeedRecord> {
    if s == [] then [r]
    else if Less(s[0].nodeAddress, r.nodeAddress) then [s[0]] + InsertRecord(r, s[1..])
    else [r] + s
  }

  /** Records of one node keep the order they came in. */
  function SortByNode(rs: seq<SeedRecord>): seq<SeedRecord> {
    if rs == [] then [] else InsertRecord(rs[0], SortByNode(rs[1..]))
  }

  lemma MapFirst(r: SeedRecord, s: seq<SeedRecord>)
    ensures Map(NodeOf, [r] + s) == [r.nodeAddress] + Map(NodeOf, s)
  {
  }

  lemma {:induction false} InsertCommutes(r: SeedRecord, s: seq<SeedRecord>)
    ensures Map(NodeOf, InsertRecord(r, s)) == Insert(r.nodeAddress, Map(NodeOf, s))
    ensures multiset(InsertRecord(r, s)) == multiset(s) + multiset{r}
  {
    if s != [] {
      assert s == [s[0]] + s[1..];
      MapFirst(s[0], s[1..]);
      MapFirst(r, s);
      if Less(s[0].nodeAddress, r.nodeAddress) {
        InsertCommutes(r, s[1..]);
        MapFirst(s[0], InsertRecord(r, s[1..]));
        assert Map(NodeOf, s)[1..] == Map(NodeOf, s[1..]);
      }
    }
  }

  /** Sorting the records and sorting their node addresses are the same thing seen through node_address. */
  lemma {:induction false} SortCommutes(rs: seq<SeedRecord>)
    ensures Map(NodeOf, SortByNode(rs)) == Sort(Map(NodeOf, rs))
    ensures multiset(SortByNode(rs)) == multiset(rs)
  {
    if rs != [] {
      SortCommutes(rs[1..]);
      InsertCommutes(rs[0], SortByNode(rs[1..]));
      assert rs == [rs[0]] + rs[1..];
      MapFirst(rs[0], rs[1..]);
      assert Map(NodeOf, rs)[1..] == Map(NodeOf, rs[1..]);
    }
  }

  /** The records of one node, in their order. */
  function OfNode(rs: seq<SeedRecord>, n: string): seq<SeedRecord> {
    if rs == [] then [] else (if rs[0].nodeAddress == n then [rs[0]] else []) + OfNode(rs[1..], n)
  }

  lemma {:induction false} InsertStable(r: SeedRecord, s: seq<SeedRecord>, n: string)
    ensures OfNode(InsertRecord(r, s), n) == OfNode([r] + s, n)
  {
    assert ([r] + s)[1..] == s;
    if s != [] && Less(s[0].nodeAddress, r.nodeAddress) {
      LessIrreflexive(r.nodeAddress);
      InsertStable(r, s[1..], n);
      assert ([r] + s[1..])[1..] == s[1..];
      assert ([s[0]] + InsertRecord(r, s[1..]))[1..] == InsertRecord(r, s[1..]);
    }
  }

  /** The sort is stable, and with that fixed: by node address, and within a node in the order of arrival. */
  lemma {:induction false} SortStable(rs: seq<SeedRecord>, n: string)
    ensures OfNode(SortByNode(rs), n) == OfNode(rs, n)
    ensures Sorted(Map(NodeOf, SortByNode(rs)))
  {
    SortCommutes(rs);
    SortSorts(Map(NodeOf, rs));
    if rs != [] {
      SortStable(rs[1..], n);
      InsertStable(rs[0], SortByNode(rs[1..]), n);
      hide SortByNode, InsertRecord, Sorted;
      assert rs == [rs[0]] + rs[1..];
      assert ([rs[0]] + SortByNode(rs[1..]))[1..] == SortByNode(rs[1..]);
      SortUnfolds(rs);
    }
  }

  lemma SortUnfolds(rs: seq<SeedRecord>)
    requires rs != []
    ensures SortByNode(rs) == InsertRecord(rs[0], SortByNode(rs[1..]))
  {
  }

  // ---------------------------------------------------------------- construction and check

  function HashText(rs: seq<SeedRecord>): string {
    Concat(Map(Chunk, SortByNode(rs)))
  }

  function Deduped(rs: seq<SeedRecord>): seq<SeedRecord> {
    KeepFirst(RecordAddress, {}, rs)
  }

  function NewCommand(h: Hasher, rs: seq<SeedRecord>): SeedsCommand {
    SeedsCommand(Deduped(rs), h(HashText(Deduped(rs))))
  }

  predicate VerifyCommand(h: Hasher, c: SeedsCommand) {
    h(HashText(c.seeds)) == c.hash
  }

  /** A command verifies exactly if its hash is that of the text of its own records; so records put in the place of
      others are accepted exactly if they give the same text, given no collision. */
  lemma VerifiesExactly(h: Hasher, c: SeedsCommand, seeds: seq<SeedRecord>, hash: Digest)
    requires VerifyCommand(h, c) && NoCollision(h, HashText(seeds), HashText(c.seeds))
    ensures VerifyCommand(h, c.(hash := hash)) <==> hash == c.hash
    ensures VerifyCommand(h, c.(seeds := seeds)) <==> HashText(seeds) == HashText(c.seeds)
    ensures c.hash == h(Concat(Map((r: SeedRecord) => r.nodeAddress + LittleEndian(r.firstSeen, 8), SortByNode(c.seeds))))
  {
    hide SortByNode, Concat, LittleEndian;
    assert Map((r: SeedRecord) => r.nodeAddress + LittleEndian(r.firstSeen, 8), SortByNode(c.seeds))
        == Map(Chunk, SortByNode(c.seeds));
  }

  method MakeCommand(h: Hasher, rs: seq<SeedRecord>) returns (c: SeedsCommand)
    ensures c == NewCommand(h, rs)
  {
    var deduped: seq<SeedRecord> := [];
    var seen: set<string> := {};
    hide SortByNode, Concat, Chunk;
    var i := 0;
    while i < |rs|
      invariant 0 <= i <= |rs|
      invariant deduped + KeepFirst(RecordAddress, seen, rs[i..]) == Deduped(rs)
    {
      assert rs[i..][1..] == rs[i + 1..];
      if rs[i].address !in seen {
        seen := seen + {rs[i].address};
        deduped := deduped + [rs[i]];
      }
      i := i + 1;
    }
    assert deduped + [] == deduped;
    var hash := FeedHasher(h, "", Map(Chunk, SortByNode(deduped)));
    assert "" + HashText(deduped) == HashText(deduped);
    c := SeedsCommand(deduped, hash);
  }

  /** The constructor keeps exactly the first record of every address, in order, and its result verifies. */
  lemma CommandKeepsFirsts(h: Hasher, rs: seq<SeedRecord>, r: SeedRecord)
    ensures r in NewCommand(h, rs).seeds
       <==> exists i | 0 <= i < |rs| :: rs[i] == r && FirstAt(RecordAddress, rs, i)
    ensures NoRepeats(RecordAddress, NewCommand(h, rs).seeds)
    ensures KeySet(RecordAddress, NewCommand(h, rs).seeds) == KeySet(RecordAddress, rs)
    ensures VerifyCommand(h, NewCommand(h, rs))
  {
    KeptExactlyFirst(RecordAddress, rs, r);
    KeptNoRepeats(RecordAddress, {}, rs);
    KeptKeys(RecordAddress, {}, rs);
  }

  lemma CommandIdempotent(h: Hasher, rs: seq<SeedRecord>)
    ensures NewCommand(h, NewCommand(h, rs).seeds) == NewCommand(h, rs)
  {
    KeepOfKeep(RecordAddress, {}, {}, rs);
  }

  // ---------------------------------------------------------------- when the iteration order does not show

  /** The order the registry was listed in never shows in the text that is hashed. */
  ghost predicate OrderNeverShows(rs: seq<SeedRecord>) {
    forall ts | multiset(ts) == multiset(rs) :: HashText(Deduped(ts)) == HashText(Deduped(rs))
  }

  ghost predicate OneStampPerNode(rs: seq<SeedRecord>) {
    forall a, b | a in rs && b in rs && a.nodeAddress == b.nodeAddress ::
      LittleEndian(a.firstSeen, 8) == LittleEndian(b.firstSeen, 8)
  }

  ghost predicate OneNodePerAddress(rs: seq<SeedRecord>) {
    forall a, b | a in rs && b in rs && a.address == b.address :: a.nodeAddress == b.nodeAddress
  }

  ghost predicate OneTimePerNode(rs: seq<SeedRecord>) {
    forall a, b | a in rs && b in rs && a.nodeAddress == b.nodeAddress :: a.firstSeen == b.firstSeen
  }

  /** No node address is a proper prefix of another. */
  ghost predicate PrefixFree(rs: seq<SeedRecord>) {
    forall a, b | a in rs && b in rs :: !(a.nodeAddress < b.nodeAddress)
  }

  /** The node addresses given for one socket differ in length. */
  ghost predicate LengthsTell(rs: seq<SeedRecord>) {
    forall a, b | a in rs && b in rs && a.address == b.address && a.nodeAddress != b.nodeAddress ::
      |a.nodeAddress| != |b.nodeAddress|
  }

  // ---------------------------------------------------------------- the conditions suffice

  /** With one node per socket, the addresses of a list determine its node addresses. */
  lemma NodesByAddress(all: seq<SeedRecord>, xs: seq<SeedRecord>, ys: seq<SeedRecord>)
    requires OneNodePerAddress(all)
    requires (forall r | r in xs :: r in all) && (forall r | r in ys :: r in all)
    requires multiset(Map(RecordAddress, xs)) == multiset(Map(RecordAddress, ys))
    ensures multiset(Map(NodeOf, xs)) == multiset(Map(NodeOf, ys))
  {
    var table := map r | r in all :: r.address := r.nodeAddress;
    var nodeAt := (x: string) => if x in table then table[x] else "";
    assert Map(nodeAt, Map(RecordAddress, xs)) == Map(NodeOf, xs);
    assert Map(nodeAt, Map(RecordAddress, ys)) == Map(NodeOf, ys);
    MapIncluded(nodeAt, Map(RecordAddress, xs), Map(RecordAddress, ys));
    MapIncluded(nodeAt, Map(RecordAddress, ys), Map(RecordAddress, xs));
  }

  lemma SortedMember(rs: seq<SeedRecord>, i: nat)
    requires i < |SortByNode(rs)|
    ensures SortByNode(rs)[i] in rs
  {
    SortCommutes(rs);
    assert SortByNode(rs)[i] in multiset(SortByNode(rs));
  }

  /** With one stamp per node, the node addresses of a list determine its text. */
  lemma TextByNodes(all: seq<SeedRecord>, xs: seq<SeedRecord>, ys: seq<SeedRecord>)
    requires OneStampPerNode(all)
    requires (forall r | r in xs :: r in all) && (forall r | r in ys :: r in all)
    requires multiset(Map(NodeOf, xs)) == multiset(Map(NodeOf, ys))
    ensures HashText(xs) == HashText(ys)
  {
    SortCommutes(xs);
    SortCommutes(ys);
    SortOfPermutation(Map(NodeOf, xs), Map(NodeOf, ys));
    var a, b := SortByNode(xs), SortByNode(ys);
    assert |a| == |Map(NodeOf, a)| == |Map(NodeOf, b)| == |b|;
    hide SortByNode, LittleEndian;
    forall i | 0 <= i < |a|
      ensures Chunk(a[i]) == Chunk(b[i])
    {
      assert Map(NodeOf, a)[i] == Map(NodeOf, b)[i];
      SortedMember(xs, i);
      SortedMember(ys, i);
    }
    assert Map(Chunk, a) == Map(Chunk, b);
  }

  lemma SameMembers(rs: seq<SeedRecord>, ts: seq<SeedRecord>)
    requires multiset(rs) == multiset(ts)
    ensures forall r :: r in rs <==> r in ts
  {
    assert forall r :: r in rs <==> r in multiset(rs);
    assert forall r :: r in ts <==> r in multiset(ts);
  }

  lemma SameAddresses(rs: seq<SeedRecord>, ts: seq<SeedRecord>)
    requires multiset(rs) == multiset(ts)
    ensures multiset(Map(RecordAddress, Deduped(rs))) == multiset(Map(RecordAddress, Deduped(ts)))
  {
    SameMembers(rs, ts);
    assert KeySet(RecordAddress, rs) == KeySet(RecordAddress, ts);
    KeptKeys(RecordAddress, {}, rs);
    KeptKeys(RecordAddress, {}, ts);
    KeptNoRepeats(RecordAddress, {}, rs);
    KeptNoRepeats(RecordAddress, {}, ts);
    SameKeysSameMultiset(RecordAddress, Deduped(rs), Deduped(ts));
  }

  lemma ConditionsSuffice(rs: seq<SeedRecord>, ts: seq<SeedRecord>)
    requires multiset(rs) == multiset(ts) && OneNodePerAddress(rs) && OneStampPerNode(rs)
    ensures HashText(Deduped(rs)) == HashText(Deduped(ts))
  {
    SameMembers(rs, ts);
    SameAddresses(rs, ts);
    NodesByAddress(rs, Deduped(rs), Deduped(ts));
    TextByNodes(rs, Deduped(rs), Deduped(ts));
  }

  // ---------------------------------------------------------------- the conditions are necessary

  /** How many records at the front stand before a node address. */
  function Below(n: string, s: seq<SeedRecord>): (k: nat)
    ensures k <= |s| && forall i | 0 <= i < k :: Less(s[i].nodeAddress, n)
    ensures k < |s| ==> !Less(s[k].nodeAddress, n)
  {
    if s == [] || !Less(s[0].nodeAddress, n) then 0 else 1 + Below(n, s[1..])
  }

  lemma {:induction false} InsertAt(r: SeedRecord, s: seq<SeedRecord>)
    ensures var k := Below(r.nodeAddress, s); InsertRecord(r, s) == s[..k] + [r] + s[k..]
  {
    if s != [] && Less(s[0].nodeAddress, r.nodeAddress) {
      InsertAt(r, s[1..]);
      assert s == [s[0]] + s[1..];
    }
  }

  lemma {:induction false} BelowStops(n: string, left: seq<SeedRecord>, r: SeedRecord, right: seq<SeedRecord>)
    requires forall i | 0 <= i < |left| :: Less(left[i].nodeAddress, n)
    requires r.nodeAddress == n
    ensures Below(n, left + [r] + right) == |left|
  {
    LessIrreflexive(n);
    if left != [] {
      BelowStops(n, left[1..], r, right);
      assert (left + [r] + right)[1..] == left[1..] + [r] + right;
    }
  }

  function ChunkText(s: seq<SeedRecord>): string {
    Concat(Map(Chunk, s))
  }

  lemma TextAppend(s: seq<SeedRecord>, t: seq<SeedRecord>)
    ensures ChunkText(s + t) == ChunkText(s) + ChunkText(t)
  {
    hide Chunk, Concat;
    MapAppend(Chunk, s, t);
    ConcatAppend(Map(Chunk, s), Map(Chunk, t));
  }

  lemma TextOne(r: SeedRecord)
    ensures ChunkText([r]) == Chunk(r)
  {
    assert Map(Chunk, [r]) == [Chunk(r)];
    ConcatPair(Chunk(r), "");
  }

  lemma SortFirst(r: SeedRecord, rest: seq<SeedRecord>)
    ensures SortByNode([r] + rest) == InsertRecord(r, SortByNode(rest))
    ensures HashText([r] + rest) == ChunkText(InsertRecord(r, SortByNode(rest)))
  {
    assert ([r] + rest)[1..] == rest;
  }

  /** One record in front of a list: where it lands in the text. */
  lemma TextOfOne(r: SeedRecord, rest: seq<SeedRecord>) returns (left: seq<SeedRecord>, right: seq<SeedRecord>)
    ensures var k := Below(r.nodeAddress, SortByNode(rest));
            left == SortByNode(rest)[..k] && right == SortByNode(rest)[k..]
    ensures left + right == SortByNode(rest)
    ensures HashText([r] + rest) == ChunkText(left) + Chunk(r) + ChunkText(right)
  {
    hide *;
    var s := SortByNode(rest);
    var k := Below(r.nodeAddress, s);
    left, right := s[..k], s[k..];
    SortFirst(r, rest);
    InsertAt(r, s);
    TextAround(left, r, right);
  }

  lemma TextAround(left: seq<SeedRecord>, r: SeedRecord, right: seq<SeedRecord>)
    ensures ChunkText(left + [r] + right) == ChunkText(left) + Chunk(r) + ChunkText(right)
  {
    hide *;
    TextAppend(left + [r], right);
    TextAppend(left, [r]);
    TextOne(r);
  }

  /** Two records of one node in front of a list: they stay in the order they came in. */
  lemma TextOfTwo(a: SeedRecord, b: SeedRecord, rest: seq<SeedRecord>) returns (left: seq<SeedRecord>, right: seq<SeedRecord>)
    requires a.nodeAddress == b.nodeAddress
    ensures var k := Below(a.nodeAddress, SortByNode(rest));
            left == SortByNode(rest)[..k] && right == SortByNode(rest)[k..]
    ensures HashText([a, b] + rest) == ChunkText(left) + Chunk(a) + (Chunk(b) + ChunkText(right))
  {
    hide *;
    var s := SortByNode(rest);
    var k := Below(b.nodeAddress, s);
    left, right := s[..k], s[k..];
    assert [a, b] + rest == [a] + ([b] + rest);
    SortFirst(b, rest);
    SortFirst(a, [b] + rest);
    InsertAt(b, s);
    InsertAt(a, left + [b] + right);
    BelowStops(a.nodeAddress, left, b, right);
    assert (left + [b] + right)[..k] == left && (left + [b] + right)[k..] == [b] + right;
    TextAround(left, a, [b] + right);
    TextAround([], b, right);
    assert [] + [b] + right == [b] + right;
    TextOfNone();
  }

  lemma TextOfNone()
    ensures ChunkText([]) == ""
  {
  }

  lemma PrefixesDiffer(n: string, t: string, u: string, p: string, q: string)
    requires t != u && |t| == |u|
    ensures n + t + p != n + u + q
  {
    assert (n + t + p)[|n|..|n| + |t|] == t;
    assert (n + u + q)[|n|..|n| + |u|] == u;
  }

  /** Different stamps of one node, in the same place of the text. */
  lemma StampsDiffer(left: string, a: SeedRecord, b: SeedRecord, p: string, q: string)
    requires a.nodeAddress == b.nodeAddress && LittleEndian(a.firstSeen, 8) != LittleEndian(b.firstSeen, 8)
    ensures left + Chunk(a) + p != left + Chunk(b) + q
  {
    var n, t, u := a.nodeAddress, LittleEndian(a.firstSeen, 8), LittleEndian(b.firstSeen, 8);
    LittleEndianLength(a.firstSeen, 8);
    LittleEndianLength(b.firstSeen, 8);
    hide LittleEndian;
    PrefixesDiffer(left + n, t, u, p, q);
    assert left + Chunk(a) == left + n + t && left + Chunk(b) == left + n + u;
  }

  lemma ChunkLength(r: SeedRecord)
    ensures |Chunk(r)| == |r.nodeAddress| + 8
  {
    LittleEndianLength(r.firstSeen, 8);
  }

  /** With prefix-free node addresses the text can be read back. */
  lemma {:induction false} TextDecodes(all: seq<SeedRecord>, xs: seq<SeedRecord>, ys: seq<SeedRecord>)
    requires PrefixFree(all)
    requires (forall r | r in xs :: r in all) && (forall r | r in ys :: r in all)
    requires ChunkText(xs) == ChunkText(ys)
    ensures Map(NodeOf, xs) == Map(NodeOf, ys)
    decreases |xs|
  {
    if xs != [] {
      ChunkLength(xs[0]);
    }
    if ys != [] {
      ChunkLength(ys[0]);
    }
    if xs != [] && ys != [] {
      var x, y := xs[0], ys[0];
      assert xs == [x] + xs[1..] && ys == [y] + ys[1..];
      TextAppend([x], xs[1..]);
      TextAppend([y], ys[1..]);
      TextOne(x);
      TextOne(y);
      hide ChunkText;
      FirstNodeRead(all, x, y, ChunkText(xs[1..]), ChunkText(ys[1..]));
      TextDecodes(all, xs[1..], ys[1..]);
      MapFirst(x, xs[1..]);
      MapFirst(y, ys[1..]);
    } else if xs != [] {
      TextNotEmpty(xs);
    } else if ys != [] {
      TextNotEmpty(ys);
    }
  }

  lemma TextNotEmpty(xs: seq<SeedRecord>)
    requires xs != []
    ensures ChunkText(xs) != "" && ChunkText([]) == ""
  {
    ChunkLength(xs[0]);
    TextAppend([xs[0]], xs[1..]);
    TextOne(xs[0]);
    assert xs == [xs[0]] + xs[1..];
  }

  lemma ShorterIsPrefix(m: string, n: string, s: string)
    requires |m| <= |s| && |n| <= |s| && s[..|m|] == m && s[..|n|] == n
    ensures |m| < |n| ==> m < n
    ensures |m| == |n| ==> m == n
  {
    assert |m| <= |n| ==> n[..|m|] == s[..|n|][..|m|] == s[..|m|];
  }

  lemma FirstNodeRead(all: seq<SeedRecord>, x: SeedRecord, y: SeedRecord, p: string, q: string)
    requires PrefixFree(all) && x in all && y in all && Chunk(x) + p == Chunk(y) + q
    ensures x.nodeAddress == y.nodeAddress && p == q
  {
    ChunkLength(x);
    ChunkLength(y);
    var s, m, n := Chunk(x) + p, x.nodeAddress, y.nodeAddress;
    hide LittleEndian;
    assert s[..|m|] == m && s[..|n|] == n;
    ShorterIsPrefix(m, n, s);
    ShorterIsPrefix(n, m, s);
    assert s[|Chunk(x)|..] == p && s[|Chunk(y)|..] == q;
  }

  lemma SameTextSameNodes(all: seq<SeedRecord>, xs: seq<SeedRecord>, ys: seq<SeedRecord>)
    requires PrefixFree(all) && HashText(xs) == HashText(ys)
    requires (forall r | r in xs :: r in all) && (forall r | r in ys :: r in all)
    ensures multiset(Map(NodeOf, xs)) == multiset(Map(NodeOf, ys))
  {
    assert HashText(xs) == ChunkText(SortByNode(xs)) && HashText(ys) == ChunkText(SortByNode(ys));
    hide *;
    forall r
      ensures r in SortByNode(xs) ==> r in all
      ensures r in SortByNode(ys) ==> r in all
    {
      SortedHas(xs, r);
      SortedHas(ys, r);
    }
    TextDecodes(all, SortByNode(xs), SortByNode(ys));
    SameNodesSorted(xs, ys);
  }

  /** One record in front of a list, exchanged for one of another node. */
  lemma NodesDiffer(a: SeedRecord, b: SeedRecord, rest: seq<SeedRecord>)
    requires a.nodeAddress != b.nodeAddress
    requires |a.nodeAddress| != |b.nodeAddress| || PrefixFree([a, b] + rest)
    ensures HashText([a] + rest) != HashText([b] + rest)
  {
    MapFirst(a, rest);
    MapFirst(b, rest);
    OneMore(a.nodeAddress, b.nodeAddress, Map(NodeOf, rest));
    hide *;
    if |a.nodeAddress| != |b.nodeAddress| {
      TextLength(a, rest);
      TextLength(b, rest);
    } else if HashText([a] + rest) == HashText([b] + rest) {
      SameTextSameNodes([a, b] + rest, [a] + rest, [b] + rest);
    }
  }

  lemma OneMore(m: string, n: string, s: seq<string>)
    requires m != n
    ensures multiset([m] + s) != multiset([n] + s)
  {
    assert multiset([m] + s) == multiset{m} + multiset(s);
    assert multiset([n] + s) == multiset{n} + multiset(s);
    assert multiset([m] + s)[m] == multiset(s)[m] + 1;
  }

  lemma SortedHas(rs: seq<SeedRecord>, r: SeedRecord)
    ensures r in SortByNode(rs) <==> r in rs
  {
    SortCommutes(rs);
    SameMembers(SortByNode(rs), rs);
  }

  lemma SameNodesSorted(xs: seq<SeedRecord>, ys: seq<SeedRecord>)
    requires Map(NodeOf, SortByNode(xs)) == Map(NodeOf, SortByNode(ys))
    ensures multiset(Map(NodeOf, xs)) == multiset(Map(NodeOf, ys))
  {
    SortCommutes(xs);
    SortCommutes(ys);
    SortSorts(Map(NodeOf, xs));
    SortSorts(Map(NodeOf, ys));
  }

  lemma MiddleLength(a: string, b: string, c: string)
    ensures |a + b + c| == |a + c| + |b|
  {
  }

  lemma TextLength(r: SeedRecord, rest: seq<SeedRecord>)
    ensures |HashText([r] + rest)| == |HashText(rest)| + |r.nodeAddress| + 8
  {
    assert HashText(rest) == ChunkText(SortByNode(rest));
    hide *;
    ChunkLength(r);
    var left, right := TextOfOne(r, rest);
    TextAppend(left, right);
    MiddleLength(ChunkText(left), Chunk(r), ChunkText(right));
  }

  /** Two records moved to the front of a list. */
  function Without(rs: seq<SeedRecord>, i: nat, j: nat): seq<SeedRecord>
    requires i < j < |rs|
  {
    rs[..i] + rs[i + 1..j] + rs[j + 1..]
  }

  lemma TwoInFront(a: SeedRecord, b: SeedRecord, rest: seq<SeedRecord>)
    ensures multiset([a, b] + rest) == multiset{a, b} + multiset(rest)
  {
  }

  lemma TwoTaken(p: seq<SeedRecord>, a: SeedRecord, q: seq<SeedRecord>, b: SeedRecord, r: seq<SeedRecord>)
    ensures multiset(p + [a] + q + [b] + r) == multiset{a, b} + multiset(p + q + r)
  {
    assert multiset(p + [a] + q + [b] + r) == multiset(p) + multiset{a} + multiset(q) + multiset{b} + multiset(r);
    assert multiset(p + q + r) == multiset(p) + multiset(q) + multiset(r);
  }

  lemma MovedFirst(rs: seq<SeedRecord>, i: nat, j: nat)
    requires i < j < |rs|
    ensures multiset([rs[i], rs[j]] + Without(rs, i, j)) == multiset(rs) == multiset([rs[j], rs[i]] + Without(rs, i, j))
  {
    assert rs == rs[..i] + [rs[i]] + rs[i + 1..j] + [rs[j]] + rs[j + 1..];
    TwoTaken(rs[..i], rs[i], rs[i + 1..j], rs[j], rs[j + 1..]);
    TwoInFront(rs[i], rs[j], Without(rs, i, j));
    TwoInFront(rs[j], rs[i], Without(rs, i, j));
  }

  /** Deduplication of two records in front of a list. */
  lemma DedupedFront(a: SeedRecord, b: SeedRecord, rest: seq<SeedRecord>)
    ensures Deduped([a, b] + rest)
         == if a.address == b.address then [a] + KeepFirst(RecordAddress, {a.address}, rest)
            else [a, b] + KeepFirst(RecordAddress, {a.address, b.address}, rest)
  {
    var seen: set<string> := {};
    assert ([a, b] + rest)[1..] == [b] + rest && ([b] + rest)[1..] == rest;
    assert seen + {a.address} == {a.address} && {a.address} + {b.address} == {a.address, b.address};
    assert Deduped([a, b] + rest) == [a] + KeepFirst(RecordAddress, {a.address}, [b] + rest);
    if a.address != b.address {
      assert [a] + ([b] + KeepFirst(RecordAddress, {a.address, b.address}, rest))
          == [a, b] + KeepFirst(RecordAddress, {a.address, b.address}, rest);
    }
  }

  /** Of two arrangements with different texts, one differs from the text at hand. */
  lemma OneDiffers(rs: seq<SeedRecord>, ts: seq<SeedRecord>, us: seq<SeedRecord>) returns (other: seq<SeedRecord>)
    requires multiset(ts) == multiset(rs) == multiset(us)
    requires HashText(Deduped(ts)) != HashText(Deduped(us))
    ensures multiset(other) == multiset(rs) && HashText(Deduped(other)) != HashText(Deduped(rs))
  {
    other := if HashText(Deduped(ts)) != HashText(Deduped(rs)) then ts else us;
  }

  /** Two times of one node, anywhere in a list of any length, show the listing order. */
  lemma TwoTimesShowOrder(rs: seq<SeedRecord>, i: nat, j: nat) returns (ts: seq<SeedRecord>)
    requires i < j < |rs| && rs[i].nodeAddress == rs[j].nodeAddress
    requires LittleEndian(rs[i].firstSeen, 8) != LittleEndian(rs[j].firstSeen, 8)
    ensures multiset(ts) == multiset(rs) && HashText(Deduped(ts)) != HashText(Deduped(rs))
  {
    hide HashText, LittleEndian, Deduped, Chunk;
    var a, b, rest := rs[i], rs[j], Without(rs, i, j);
    MovedFirst(rs, i, j);
    DedupedFront(a, b, rest);
    DedupedFront(b, a, rest);
    if a.address == b.address {
      var kept := KeepFirst(RecordAddress, {a.address}, rest);
      var left, right := TextOfOne(a, kept);
      var left', right' := TextOfOne(b, kept);
      StampsDiffer(ChunkText(left), a, b, ChunkText(right), ChunkText(right));
    } else {
      var kept := KeepFirst(RecordAddress, {a.address, b.address}, rest);
      assert {b.address, a.address} == {a.address, b.address};
      var left, right := TextOfTwo(a, b, kept);
      var left', right' := TextOfTwo(b, a, kept);
      StampsDiffer(ChunkText(left), a, b, Chunk(b) + ChunkText(right), Chunk(a) + ChunkText(right));
    }
    ts := OneDiffers(rs, [a, b] + rest, [b, a] + rest);
  }

  lemma FewerPrefixFree(rs: seq<SeedRecord>, a: SeedRecord, b: SeedRecord, kept: seq<SeedRecord>)
    requires a in rs && b in rs && forall r | r in kept :: r in rs
    ensures PrefixFree(rs) ==> PrefixFree([a, b] + kept)
  {
    assert forall r | r in [a, b] + kept :: r in rs;
  }

  /** One socket under two nodes shows the listing order, if their addresses differ in length or no node
      address of the list is a proper prefix of another. */
  lemma SharedSocketShowsOrder(rs: seq<SeedRecord>, i: nat, j: nat) returns (ts: seq<SeedRecord>)
    requires i < j < |rs| && rs[i].address == rs[j].address && rs[i].nodeAddress != rs[j].nodeAddress
    requires |rs[i].nodeAddress| != |rs[j].nodeAddress| || PrefixFree(rs)
    ensures multiset(ts) == multiset(rs) && HashText(Deduped(ts)) != HashText(Deduped(rs))
  {
    hide HashText, Deduped, Chunk;
    var a, b, rest := rs[i], rs[j], Without(rs, i, j);
    MovedFirst(rs, i, j);
    DedupedFront(a, b, rest);
    DedupedFront(b, a, rest);
    var kept := KeepFirst(RecordAddress, {a.address}, rest);
    FewerPrefixFree(rs, a, b, kept) by {
      assert forall r | r in kept :: r in rest && r in rs;
    }
    hide *;
    NodesDiffer(a, b, kept);
    ts := OneDiffers(rs, [a, b] + rest, [b, a] + rest);
  }

  lemma Indices(rs: seq<SeedRecord>, a: SeedRecord, b: SeedRecord) returns (i: nat, j: nat)
    requires a in rs && b in rs && a != b
    ensures i < j < |rs| && {rs[i], rs[j]} == {a, b} && (rs[i] == a || rs[i] == b)
  {
    var k :| 0 <= k < |rs| && rs[k] == a;
    var l :| 0 <= l < |rs| && rs[l] == b;
    i, j := if k < l then k else l, if k < l then l else k;
  }

  lemma NeverShowsOneStamp(rs: seq<SeedRecord>)
    requires OrderNeverShows(rs)
    ensures OneStampPerNode(rs)
  {
    hide HashText, Deduped, LittleEndian;
    forall a, b | a in rs && b in rs && a.nodeAddress == b.nodeAddress
      ensures LittleEndian(a.firstSeen, 8) == LittleEndian(b.firstSeen, 8)
    {
      if LittleEndian(a.firstSeen, 8) != LittleEndian(b.firstSeen, 8) {
        var i, j := Indices(rs, a, b);
        var ts := TwoTimesShowOrder(rs, i, j);
      }
    }
  }

  lemma NeverShowsOneNode(rs: seq<SeedRecord>)
    requires OrderNeverShows(rs) && (PrefixFree(rs) || LengthsTell(rs))
    ensures OneNodePerAddress(rs)
  {
    hide HashText, Deduped;
    forall a, b | a in rs && b in rs && a.address == b.address
      ensures a.nodeAddress == b.nodeAddress
    {
      if a.nodeAddress != b.nodeAddress {
        var i, j := Indices(rs, a, b);
        var ts := SharedSocketShowsOrder(rs, i, j);
      }
    }
  }

  /** The hash does not depend on the order the registry was listed in exactly if every socket is listed under
      one node and all records of a node carry the same time stamp. The node addresses have to be readable off
      the text: none a proper prefix of another, or of different lengths where they share a socket. */
  lemma OrderNeverShowsExactly(rs: seq<SeedRecord>)
    requires PrefixFree(rs) || LengthsTell(rs)
    ensures OrderNeverShows(rs) <==> OneNodePerAddress(rs) && OneStampPerNode(rs)
  {
    hide HashText, Deduped, PrefixFree, LengthsTell;
    if OrderNeverShows(rs) {
      NeverShowsOneStamp(rs);
      NeverShowsOneNode(rs);
    }
    if OneNodePerAddress(rs) && OneStampPerNode(rs) {
      forall ts | multiset(ts) == multiset(rs)
        ensures HashText(Deduped(ts)) == HashText(Deduped(rs))
      {
        ConditionsSuffice(rs, ts);
      }
    }
  }

  lemma DistinctMember(rs: seq<SeedRecord>, a: SeedRecord, b: SeedRecord)
    requires NoRepeats(RecordAddress, rs) && a in rs && b in rs && a.address == b.address
    ensures a == b && Distinct(rs)
  {
    if a != b {
      var i, j := Indices(rs, a, b);
      assert RecordAddress(rs[i]) != RecordAddress(rs[j]);
    }
    forall i, j | 0 <= i < j < |rs|
      ensures rs[i] != rs[j]
    {
      assert RecordAddress(rs[i]) != RecordAddress(rs[j]);
    }
  }

  lemma DistinctOneNode(rs: seq<SeedRecord>)
    requires NoRepeats(RecordAddress, rs)
    ensures OneNodePerAddress(rs) && LengthsTell(rs)
  {
    forall a, b | a in rs && b in rs && a.address == b.address
      ensures a == b
    {
      DistinctMember(rs, a, b);
    }
  }

  lemma PermutedNoRepeats(rs: seq<SeedRecord>, ts: seq<SeedRecord>)
    requires multiset(ts) == multiset(rs) && NoRepeats(RecordAddress, rs)
    ensures NoRepeats(RecordAddress, ts)
  {
    forall i, j | 0 <= i < j < |ts|
      ensures RecordAddress(ts[i]) != RecordAddress(ts[j])
    {
      if RecordAddress(ts[i]) == RecordAddress(ts[j]) {
        TwiceIn(ts, i, j);
        SameMembers(rs, ts);
        DistinctMember(rs, ts[i], ts[j]);
        DistinctCounts(rs);
      }
    }
  }

  lemma TwiceIn(ts: seq<SeedRecord>, i: nat, j: nat)
    requires i < j < |ts|
    ensures ts[i] == ts[j] ==> multiset(ts)[ts[i]] >= 2
  {
    assert ts == ts[..j] + [ts[j]] + ts[j + 1..];
    assert ts[..j][i] == ts[i];
    assert ts[i] in multiset(ts[..j]);
  }

  lemma DedupedPermuted(rs: seq<SeedRecord>, ts: seq<SeedRecord>)
    requires multiset(ts) == multiset(rs) && NoRepeats(RecordAddress, rs)
    ensures Deduped(ts) == ts
  {
    PermutedNoRepeats(rs, ts);
    AllFresh(RecordAddress, {}, ts);
  }

  /** A list without repeated sockets, of any length: no arrangement of it changes the text exactly if the
      records of a node agree on their time stamp. Nothing else is asked. */
  lemma DistinctSocketsExactly(rs: seq<SeedRecord>)
    requires NoRepeats(RecordAddress, rs)
    ensures (forall ts | multiset(ts) == multiset(rs) :: HashText(ts) == HashText(rs)) <==> OneStampPerNode(rs)
  {
    hide HashText, Deduped;
    DistinctOneNode(rs);
    OrderNeverShowsExactly(rs);
    DedupedPermuted(rs, rs);
    if OrderNeverShows(rs) {
      forall ts | multiset(ts) == multiset(rs)
        ensures HashText(ts) == HashText(rs)
      {
        DedupedPermuted(rs, ts);
      }
    }
    if forall ts | multiset(ts) == multiset(rs) :: HashText(ts) == HashText(rs) {
      forall ts | multiset(ts) == multiset(rs)
        ensures HashText(Deduped(ts)) == HashText(Deduped(rs))
      {
        DedupedPermuted(rs, ts);
      }
    }
  }

  /** So the hash of a handshake's list does not depend on the iteration order of the registry, when no socket is
      listed twice and all records of a node carry the same time. */
  lemma CommandHashIgnoresOrder(h: Hasher, rs: seq<SeedRecord>, ts: seq<SeedRecord>)
    requires multiset(rs) == multiset(ts)
    requires NoRepeats(RecordAddress, rs) && NoRepeats(RecordAddress, ts)
    requires OneTimePerNode(rs)
    ensures NewCommand(h, rs).hash == NewCommand(h, ts).hash
    ensures multiset(NewCommand(h, rs).seeds) == multiset(NewCommand(h, ts).seeds)
  {
    hide HashText, LittleEndian;
    AllFresh(RecordAddress, {}, rs);
    AllFresh(RecordAddress, {}, ts);
    DistinctOneNode(rs);
    ConditionsSuffice(rs, ts);
  }
}
