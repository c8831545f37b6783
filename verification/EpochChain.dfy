/** The allocation records of an epoch form a hash chain; what the chain checker detects, and what it does not. */
module EpochChain {
  import opened Text
  import opened SeedSets

  datatype Row = Row(
    id: nat,
    epoch: int,
    round: int,
    address: string,
    weight: string,
    amount: string,
    preHash: string,
    hash: string,
    createdAt: int)

  /** Rows in the order of their ids, as the database hands them out. */
  type Table = seq<Row>

  const GENESIS := "0000000000000000000000000000000000000000000000000000000000000000"

  function ByEpoch(t: Table, epoch: int): Table {
    if t == [] then []
    else ByEpoch(t[..|t| - 1], epoch) + if t[|t| - 1].epoch == epoch then [t[|t| - 1]] else []
  }

  /** The query picks the records of the epoch and keeps their order. */
  lemma {:induction false} ByEpochAppend(t: Table, u: Table, epoch: int)
    ensures ByEpoch(t + u, epoch) == ByEpoch(t, epoch) + ByEpoch(u, epoch)
  {
    if u == [] {
      assert t + u == t;
    } else {
      ByEpochAppend(t, u[..|u| - 1], epoch);
      assert (t + u)[..|t + u| - 1] == t + u[..|u| - 1];
    }
  }

  lemma ByEpochOne(r: Row, epoch: int)
    ensures ByEpoch([r], epoch) == if r.epoch == epoch then [r] else []
  {
    assert [r][..0] == [];
  }

  function EndHash(rs: seq<Row>): string {
    if rs == [] then GENESIS else rs[|rs| - 1].hash
  }

  function LastHash(t: Table, epoch: int): string {
    EndHash(ByEpoch(t, epoch))
  }

  predicate NoneOf(t: Table, epoch: int) {
    forall r | r in t :: r.epoch != epoch
  }

  predicate Newest(t: Table, epoch: int, i: nat) {
    i < |t| && t[i].epoch == epoch && NoneOf(t[i + 1..], epoch)
  }

  /** The newest record of an epoch, the last one of it in the table, decides. */
  lemma {:induction false} NewestDecides(t: Table, epoch: int, i: nat)
    requires Newest(t, epoch, i)
    ensures LastHash(t, epoch) == t[i].hash
  {
    var front, last, k := t[..|t| - 1], t[|t| - 1], i + 1;
    if i < |front| {
      assert last == t[k..][|front| - k];
      assert forall r | r in front[k..] :: r in t[k..];
      NewestDecides(front, epoch, i);
    }
  }

  /** An epoch without records starts from 64 zeros. */
  lemma {:induction false} NoRecordYet(t: Table, epoch: int)
    requires NoneOf(t, epoch)
    ensures LastHash(t, epoch) == "0000000000000000000000000000000000000000000000000000000000000000"
  {
    if t != [] {
      assert t[|t| - 1] in t && forall r | r in t[..|t| - 1] :: r in t;
      NoRecordYet(t[..|t| - 1], epoch);
    }
  }

  datatype Insertion = Insertion(id: nat, epoch: int, round: int, address: string, weight: string, amount: string, now: int)

  /** The bytes hashed for a record: only the 64 characters of the previous hash have a fixed place. */
  function Preimage(r: Row): string {
    r.preHash + LittleEndian(r.epoch, 8) + LittleEndian(r.round, 8) + r.address + r.weight + r.amount
    + LittleEndian(r.createdAt, 8)
  }

  /** Where each field stands in the bytes hashed. */
  lemma PreimageLayout(r: Row)
    ensures var p, n, k := Preimage(r), |r.preHash|, |r.address + r.weight + r.amount|;
            && |p| == n + 16 + k + 8 && p[..n] == r.preHash
            && p[n..n + 8] == LittleEndian(r.epoch, 8) && p[n + 8..n + 16] == LittleEndian(r.round, 8)
            && p[n + 16..n + 16 + k] == r.address + r.weight + r.amount
            && p[n + 16 + k..] == LittleEndian(r.createdAt, 8)
  {
    LittleEndianLength(r.epoch, 8);
    LittleEndianLength(r.round, 8);
    LittleEndianLength(r.createdAt, 8);
    var e, o, c := LittleEndian(r.epoch, 8), LittleEndian(r.round, 8), LittleEndian(r.createdAt, 8);
    assert Preimage(r) == r.preHash + e + o + r.address + r.weight + r.amount + c;
    hide *;
    Regroup(r.preHash + e + o, r.address, r.weight, r.amount);
    FivePieces(r.preHash, e, o, r.address + r.weight + r.amount, c);
  }

  lemma FivePieces(a: string, b: string, c: string, d: string, e: string)
    ensures var p := a + b + c + d + e;
            && |p| == |a| + |b| + |c| + |d| + |e|
            && p[..|a|] == a && p[|a|..|a| + |b|] == b && p[|a| + |b|..|a| + |b| + |c|] == c
            && p[|a| + |b| + |c|..|a| + |b| + |c| + |d|] == d && p[|a| + |b| + |c| + |d|..] == e
  {
  }

  lemma Regroup(head: string, a: string, b: string, c: string)
    ensures head + a + b + c == head + (a + b + c)
  {
  }

  function NewRow(h: Hasher, preHash: string, x: Insertion): Row {
    var r := Row(x.id, x.epoch, x.round, x.address, x.weight, x.amount, preHash, "", x.now);
    r.(hash := h(Preimage(r)))
  }

  function Append(h: Hasher, t: Table, x: Insertion): Table {
    t + [NewRow(h, LastHash(t, x.epoch), x)]
  }

  function InsertAll(h: Hasher, xs: seq<Insertion>): Table {
    if xs == [] then [] else Append(h, InsertAll(h, xs[..|xs| - 1]), xs[|xs| - 1])
  }

  /** What the checker accepts. */
  ghost predicate Linked(rs: seq<Row>) {
    && (rs != [] ==> rs[0].preHash == GENESIS)
    && forall i | 1 <= i < |rs| :: rs[i].preHash == rs[i - 1].hash
  }

  class EpochStore {
    const h: Hasher
    var rows: Table

    constructor (h: Hasher)
      ensures this.h == h && rows == []
    {
      this.h, rows := h, [];
    }

    method GetByEpoch(epoch: int) returns (records: seq<Row>)
      ensures records == ByEpoch(rows, epoch)
    {
      records := [];
      var i := 0;
      while i < |rows|
        invariant 0 <= i <= |rows|
        invariant records == ByEpoch(rows[..i], epoch)
      {
        assert rows[..i + 1][..i] == rows[..i];
        if rows[i].epoch == epoch {
          records := records + [rows[i]];
        }
        i := i + 1;
      }
      assert rows[..i] == rows;
    }

    /** The newest record of the epoch decides; an empty epoch starts from the genesis hash. */
    method FindLastHash(epoch: int) returns (hash: string)
      ensures hash == LastHash(rows, epoch)
      ensures NoneOf(rows, epoch) ==> hash == "0000000000000000000000000000000000000000000000000000000000000000"
      ensures forall i | 0 <= i < |rows| && Newest(rows, epoch, i) :: hash == rows[i].hash
    {
      if NoneOf(rows, epoch) {
        NoRecordYet(rows, epoch);
      }
      forall i | 0 <= i < |rows| && Newest(rows, epoch, i)
        ensures LastHash(rows, epoch) == rows[i].hash
      {
        NewestDecides(rows, epoch, i);
      }
      var records := GetByEpoch(epoch);
      hash := if records == [] then GENESIS else records[|records| - 1].hash;
    }

    method InsertRecord(x: Insertion) returns (hash: string)
      modifies this`rows
      ensures rows == Append(h, old(rows), x)
      ensures hash == rows[|rows| - 1].hash == h(Preimage(rows[|rows| - 1]))
      ensures rows[|rows| - 1] == Row(x.id, x.epoch, x.round, x.address, x.weight, x.amount, LastHash(old(rows), x.epoch), hash, x.now)
    {
      var preHash := FindLastHash(x.epoch);
      var row := NewRow(h, preHash, x);
      rows := rows + [row];
      hash := row.hash;
    }

    method VerifyChain(epoch: int) returns (ok: bool)
      ensures ok <==> Linked(ByEpoch(rows, epoch))
    {
      var records := GetByEpoch(epoch);
      if records == [] {
        return true;
      }
      if records[0].preHash != GENESIS {
        return false;
      }
      var i := 1;
      while i < |records|
        invariant 1 <= i <= |records|
        invariant forall j | 1 <= j < i :: records[j].preHash == records[j - 1].hash
      {
        if records[i].preHash != records[i - 1].hash {
          return false;
        }
        i := i + 1;
      }
      return true;
    }
  }

  // ---------------------------------------------------------------- what insertion builds

  ghost predicate Chain(h: Hasher, rs: seq<Row>) {
    && Linked(rs)
    && forall i | 0 <= i < |rs| :: rs[i].hash == h(Preimage(rs[i]))
  }

  lemma ByEpochSnoc(t: Table, r: Row, epoch: int)
    ensures ByEpoch(t + [r], epoch) == ByEpoch(t, epoch) + if r.epoch == epoch then [r] else []
  {
    assert (t + [r])[..|t|] == t;
  }

  lemma NewRowHash(h: Hasher, preHash: string, x: Insertion)
    ensures var r := NewRow(h, preHash, x); r.preHash == preHash && r.epoch == x.epoch && r.hash == h(Preimage(r))
  {
  }

  lemma ChainGrows(h: Hasher, rs: seq<Row>, r: Row)
    requires Chain(h, rs) && r.hash == h(Preimage(r))
    requires r.preHash == EndHash(rs)
    ensures Chain(h, rs + [r])
  {
    hide Preimage;
  }

  lemma AppendKeepsChains(h: Hasher, t: Table, x: Insertion, epoch: int)
    requires Chain(h, ByEpoch(t, epoch))
    ensures Chain(h, ByEpoch(Append(h, t, x), epoch))
  {
    var r := NewRow(h, LastHash(t, x.epoch), x);
    NewRowHash(h, LastHash(t, x.epoch), x);
    hide NewRow, Preimage, Chain, ByEpoch, EndHash;
    ByEpochSnoc(t, r, epoch);
    if x.epoch == epoch {
      ChainGrows(h, ByEpoch(t, epoch), r);
    } else {
      assert ByEpoch(t, epoch) + [] == ByEpoch(t, epoch);
    }
  }

  /** Whatever the interleaving of insertions into any number of epochs, each epoch's records are a chain. */
  lemma {:induction false} InsertionsChain(h: Hasher, xs: seq<Insertion>, epoch: int)
    ensures Chain(h, ByEpoch(InsertAll(h, xs), epoch))
  {
    if xs == [] {
      assert ByEpoch(InsertAll(h, xs), epoch) == [];
    } else {
      hide Chain, ByEpoch, Append;
      InsertionsChain(h, xs[..|xs| - 1], epoch);
      AppendKeepsChains(h, InsertAll(h, xs[..|xs| - 1]), xs[|xs| - 1], epoch);
    }
  }

  // ---------------------------------------------------------------- what the checker detects

  /** What is asked of SHA-256, on the texts this chain hashed and no others: digests of 64 characters,
      none of them all zeros, and no two texts with the same digest. */
  ghost predicate GoodDigests(h: Hasher, rs: seq<Row>) {
    && (forall i | 0 <= i < |rs| :: |rs[i].hash| == 64 && rs[i].hash != GENESIS)
    && forall i, j | 0 <= i < |rs| && 0 <= j < |rs| ::
         NoCollision(h, Preimage(rs[i]), Preimage(rs[j]))
  }

  lemma PreHashFirst(r: Row)
    requires |r.preHash| == 64
    ensures Preimage(r)[..64] == r.preHash
  {
    hide LittleEndian;
  }

  /** The hash a record of a chain points back to. */
  lemma PreHashIs(h: Hasher, rs: seq<Row>, i: nat)
    requires Chain(h, rs) && GoodDigests(h, rs) && i < |rs|
    ensures rs[i].preHash == if i == 0 then GENESIS else rs[i - 1].hash
    ensures |rs[i].preHash| == 64 && (i > 0 ==> rs[i].preHash != GENESIS)
  {
    hide Preimage;
    assert |GENESIS| == 64;
    if i > 0 {
      assert |rs[i - 1].hash| == 64;
    }
  }

  lemma SameHashSamePreHash(h: Hasher, rs: seq<Row>, i: nat, j: nat)
    requires Chain(h, rs) && GoodDigests(h, rs) && i < j < |rs| && rs[i].hash == rs[j].hash
    ensures rs[i].preHash == rs[j].preHash
  {
    PreHashIs(h, rs, i);
    PreHashIs(h, rs, j);
    PreHashFirst(rs[i]);
    PreHashFirst(rs[j]);
    hide Preimage;
    assert NoCollision(h, Preimage(rs[i]), Preimage(rs[j]));
  }

  /** No digest occurs twice along a chain: a repetition could be pushed back to the genesis hash. */
  lemma {:induction false} HashesDistinct(h: Hasher, rs: seq<Row>, i: nat, j: nat)
    requires Chain(h, rs) && GoodDigests(h, rs) && i < j < |rs|
    ensures rs[i].hash != rs[j].hash
    decreases i
  {
    hide Preimage, Chain;
    PreHashIs(h, rs, i);
    PreHashIs(h, rs, j);
    if i > 0 {
      HashesDistinct(h, rs, i - 1, j - 1);
    }
    if rs[i].hash == rs[j].hash {
      SameHashSamePreHash(h, rs, i, j);
    }
  }

  ghost predicate Increasing(idx: seq<nat>, bound: nat) {
    && (forall k | 0 <= k < |idx| :: idx[k] < bound)
    && forall k, l | 0 <= k < l < |idx| :: idx[k] < idx[l]
  }

  function Pick(rs: seq<Row>, idx: seq<nat>): (r: seq<Row>)
    requires forall k | 0 <= k < |idx| :: idx[k] < |rs|
    ensures |r| == |idx| && forall k | 0 <= k < |idx| :: r[k] == rs[idx[k]]
  {
    seq(|idx|, k requires 0 <= k < |idx| => rs[idx[k]])
  }

  lemma {:induction false} LinkedPicksFront(h: Hasher, rs: seq<Row>, idx: seq<nat>, k: nat)
    requires Chain(h, rs) && GoodDigests(h, rs) && Increasing(idx, |rs|)
    requires Linked(Pick(rs, idx)) && k < |idx|
    ensures idx[k] == k
  {
    hide Chain, Preimage, GoodDigests;
    var picked := Pick(rs, idx);
    PreHashIs(h, rs, idx[k]);
    if k == 0 {
      assert picked[0].preHash == GENESIS;
    } else {
      LinkedPicksFront(h, rs, idx, k - 1);
      assert picked[k].preHash == picked[k - 1].hash;
      if idx[k] > k {
        HashesDistinct(h, rs, k - 1, idx[k] - 1);
      }
    }
  }

  lemma IdentityPick(rs: seq<Row>, idx: seq<nat>)
    requires Increasing(idx, |rs|) && forall k | 0 <= k < |idx| :: idx[k] == k
    ensures |idx| <= |rs| && Pick(rs, idx) == rs[..|idx|]
  {
    if idx != [] {
      assert idx[|idx| - 1] == |idx| - 1;
    }
  }

  /** Of the records that insertion left in an epoch, a subsequence passes the check exactly if it is
      a prefix: any gap is detected, a cut at the end is not. */
  lemma CheckerDetectsGaps(h: Hasher, xs: seq<Insertion>, epoch: int, idx: seq<nat>)
    requires var rs := ByEpoch(InsertAll(h, xs), epoch); GoodDigests(h, rs) && Increasing(idx, |rs|)
    ensures var rs := ByEpoch(InsertAll(h, xs), epoch);
            Linked(Pick(rs, idx)) <==> Pick(rs, idx) <= rs && forall k | 0 <= k < |idx| :: idx[k] == k
  {
    hide InsertAll, ByEpoch, Preimage, GoodDigests;
    var rs := ByEpoch(InsertAll(h, xs), epoch);
    InsertionsChain(h, xs, epoch);
    if Linked(Pick(rs, idx)) {
      forall k | 0 <= k < |idx|
        ensures idx[k] == k
      {
        LinkedPicksFront(h, rs, idx, k);
      }
      IdentityPick(rs, idx);
    }
    if forall k | 0 <= k < |idx| :: idx[k] == k {
      IdentityPick(rs, idx);
    }
  }

  /** Putting any record in the place of one in a linked list: the check passes exactly if the new one names the
      same previous hash and, where a record follows, carries the same hash. */
  lemma RewriteLinkedExactly(rs: seq<Row>, i: nat, r: Row)
    requires Linked(rs) && i < |rs|
    ensures Linked(rs[i := r]) <==> r.preHash == rs[i].preHash && (i + 1 < |rs| ==> r.hash == rs[i].hash)
  {
    var after := rs[i := r];
    if Linked(after) {
      assert i > 0 ==> after[i].preHash == after[i - 1].hash && rs[i].preHash == rs[i - 1].hash;
      assert i + 1 < |rs| ==> after[i + 1].preHash == after[i].hash && rs[i + 1].preHash == rs[i].hash;
    }
  }

  /** So the check looks at stored hashes only: rewriting anything else that a record says is never noticed. The
      record itself still hashes to its stored hash exactly if the bytes hashed are the same. */
  lemma ContentsUnchecked(h: Hasher, rs: seq<Row>, i: nat, r: Row)
    requires Chain(h, rs) && i < |rs| && r.preHash == rs[i].preHash && r.hash == rs[i].hash
    requires NoCollision(h, Preimage(rs[i]), Preimage(r))
    ensures Linked(rs[i := r])
    ensures Chain(h, rs[i := r]) <==> Preimage(r) == Preimage(rs[i])
  {
    hide Preimage, Linked;
    RewriteLinkedExactly(rs, i, r);
    var after := rs[i := r];
    assert after[i] == r;
    assert forall k | 0 <= k < |rs| && k != i :: after[k] == rs[k];
  }

  /** Even hashing the records again would not notice everything: the fields have no separators, so text can
      move from one to the next. */
  lemma FieldsRunTogether(r: Row, address: string, weight: string, amount: string)
    requires address + weight + amount == r.address + r.weight + r.amount
    ensures Preimage(r.(address := address, weight := weight, amount := amount)) == Preimage(r)
  {
    var head, tail := r.preHash + LittleEndian(r.epoch, 8) + LittleEndian(r.round, 8), LittleEndian(r.createdAt, 8);
    assert Preimage(r) == head + r.address + r.weight + r.amount + tail;
    assert Preimage(r.(address := address, weight := weight, amount := amount)) == head + address + weight + amount + tail;
    hide *;
    Regroup(head, address, weight, amount);
    Regroup(head, r.address, r.weight, r.amount);
  }
}
