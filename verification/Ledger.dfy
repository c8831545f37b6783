/** The transaction table: appended to with chained hashes, shown in pages, newest first. */
module Ledger {
  import opened Collections
  import opened Text
  import opened SeedSets

  const U64: nat := 0x1_0000_0000_0000_0000
  const I64_MAX: nat := 0x7fff_ffff_ffff_ffff
  const PRE_HASH := "00000000000000000000000000000000"

  datatype TxType = Transfer | Mint | Burn {
    function Text(): string {
      match this
      case Transfer => "transfer"
      case Mint => "mint"
      case Burn => "burn"
    }

    function Name(): string {
      match this
      case Transfer => "Transfer"
      case Mint => "Mint"
      case Burn => "Burn"
    }
  }

  datatype Tx = Tx(epoch: int, cycle: int, txType: TxType, from: string, to: string, amount: int, shardKey: string)

  datatype Row = Row(id: nat, tx: Tx, amountText: string, timestamp: int, preHash: string, hash: string)

  function SignedDecimal(a: int): string {
    if a < 0 then "-" + Decimal(-a) else Decimal(a)
  }

  function Preimage(preHash: string, t: Tx): string {
    preHash + LittleEndian(t.epoch, 8) + LittleEndian(t.cycle, 8) + t.txType.Text() + t.from + t.to
    + SignedDecimal(t.amount)
  }

  /** Where each field stands in the bytes hashed. */
  lemma PreimageLayout(preHash: string, t: Tx)
    ensures var p, n := Preimage(preHash, t), |preHash|;
            && |p| >= n + 16 && p[..n] == preHash
            && p[n..n + 8] == LittleEndian(t.epoch, 8) && p[n + 8..n + 16] == LittleEndian(t.cycle, 8)
            && p[n + 16..] == t.txType.Text() + t.from + t.to + SignedDecimal(t.amount)
  {
    LittleEndianLength(t.epoch, 8);
    LittleEndianLength(t.cycle, 8);
    hide LittleEndian, SignedDecimal;
    FourPieces(preHash, LittleEndian(t.epoch, 8), LittleEndian(t.cycle, 8), t.txType.Text(), t.from, t.to, SignedDecimal(t.amount));
  }

  lemma FourPieces(a: string, b: string, c: string, d: string, e: string, f: string, g: string)
    ensures var p := a + b + c + d + e + f + g;
            && p[..|a|] == a && p[|a|..|a| + |b|] == b && p[|a| + |b|..|a| + |b| + |c|] == c
            && p[|a| + |b| + |c|..] == d + e + f + g
  {
  }

  /** The hash a row at position i has to name. */
  function HashBefore(rows: seq<Row>, i: nat): string
    requires i <= |rows|
  {
    if i == 0 then PRE_HASH else rows[i - 1].hash
  }

  lemma HashBeforeIs(rows: seq<Row>)
    ensures HashBefore(rows, |rows|) == if rows == [] then "00000000000000000000000000000000" else rows[|rows| - 1].hash
  {
  }

  function NewRow(h: Hasher, id: nat, tx: Tx, now: int, preHash: string): Row {
    Row(id, tx, SignedDecimal(tx.amount), now, preHash, h(Preimage(preHash, tx)))
  }

  ghost predicate Chained(h: Hasher, r: Row, preHash: string) {
    r.preHash == preHash && r.hash == h(Preimage(preHash, r.tx)) && r.amountText == SignedDecimal(r.tx.amount)
  }

  /** What every state of the table keeps: ids increase, and every row names the hash of the one before it. */
  ghost predicate WellFormed(h: Hasher, rows: seq<Row>) {
    && (forall i | 0 <= i < |rows| :: Chained(h, rows[i], HashBefore(rows, i)))
    && Ascending(rows)
  }

  lemma NewRowIs(h: Hasher, id: nat, tx: Tx, now: int, preHash: string)
    ensures NewRow(h, id, tx, now, preHash) == Row(id, tx, SignedDecimal(tx.amount), now, preHash, h(Preimage(preHash, tx)))
  {
  }

  lemma NewRowChained(h: Hasher, rows: seq<Row>, id: nat, tx: Tx, now: int)
    ensures var preHash := HashBefore(rows, |rows|);
            var row := NewRow(h, id, tx, now, preHash);
            && row.id == id && Chained(h, row, preHash)
            && HashBefore(rows + [row], |rows + [row]|) == h(Preimage(preHash, tx))
  {
    hide Preimage, SignedDecimal;
  }

  ghost predicate IdsBelow(rows: seq<Row>, bound: nat) {
    forall i | 0 <= i < |rows| :: rows[i].id < bound
  }

  lemma HashBeforeSnoc(rows: seq<Row>, row: Row, i: nat)
    requires i <= |rows|
    ensures HashBefore(rows + [row], i) == HashBefore(rows, i)
  {
  }

  lemma GrowsWellFormed(h: Hasher, rows: seq<Row>, row: Row)
    requires WellFormed(h, rows)
    requires IdsBelow(rows, row.id)
    requires Chained(h, row, HashBefore(rows, |rows|))
    ensures WellFormed(h, rows + [row]) && IdsBelow(rows + [row], row.id + 1)
  {
    hide Chained, HashBefore;
    var after := rows + [row];
    forall i | 0 <= i < |after|
      ensures Chained(h, after[i], HashBefore(after, i))
    {
      HashBeforeSnoc(rows, row, i);
      assert i < |rows| ==> after[i] == rows[i] && Chained(h, rows[i], HashBefore(rows, i));
    }
  }

  /** The table in the order of its queries: descending ids. */
  function Descending(rows: seq<Row>): (r: seq<Row>)
    ensures |r| == |rows|
    ensures forall i | 0 <= i < |rows| :: r[i] == rows[|rows| - 1 - i]
  {
    if rows == [] then [] else [rows[|rows| - 1]] + Descending(rows[..|rows| - 1])
  }

  function Slice(rows: seq<Row>, offset: nat, limit: nat): seq<Row> {
    if offset >= |rows| then []
    else if offset + limit >= |rows| then rows[offset..]
    else rows[offset..offset + limit]
  }

  /** `page.saturating_sub(1) * per_page`, which wraps in release builds. */
  function Offset(page: nat, perPage: nat): nat {
    ((if page == 0 then 0 else page - 1) * perPage) % U64
  }

  function Page(rows: seq<Row>, page: nat, perPage: nat): seq<Row> {
    Slice(Descending(rows), Offset(page, perPage), perPage)
  }

  function TotalPages(n: nat, perPage: nat): nat
    requires perPage > 0
  {
    var pages := if n == 0 then 1 else ((n + perPage - 1) % U64) / perPage;
    if pages > 1 then pages else 1
  }

  /** A row as the page shows it. */
  datatype Shown = Shown(
    id: nat,
    txType: string,
    from: string,
    to: string,
    amount: string,
    timestamp: string,
    hash: string,
    preHash: string)

  datatype TransactionPage = TransactionPage(transactions: seq<Shown>, currentPage: nat, totalPages: nat, totalCount: nat)

  class TransactionStore {
    const h: Hasher
    var rows: seq<Row>
    var nextId: nat

    ghost predicate Valid()
      reads this
    {
      WellFormed(h, rows) && IdsBelow(rows, nextId)
    }

    constructor (h: Hasher)
      ensures this.h == h && rows == [] && Valid()
    {
      this.h, rows, nextId := h, [], 1;
    }

    function LastHash(): string
      reads this
    {
      HashBefore(rows, |rows|)
    }

    method InsertWithNextHash(tx: Tx, now: int) returns (hash: string)
      requires Valid()
      modifies this
      ensures Valid()
      ensures hash == h(Preimage(old(LastHash()), tx)) == LastHash()
      ensures exists id :: rows == old(rows) + [NewRow(h, id, tx, now, old(LastHash()))]
      ensures var row := rows[|rows| - 1];
              row == Row(row.id, tx, SignedDecimal(tx.amount), now, old(LastHash()), hash)
      ensures old(LastHash()) == if old(rows) == [] then "00000000000000000000000000000000" else old(rows)[|old(rows)| - 1].hash
    {
      hide WellFormed, IdsBelow, Chained, HashBefore, Preimage, SignedDecimal, NewRow;
      var preHash := LastHash();
      HashBeforeIs(rows);
      hash := h(Preimage(preHash, tx));
      var row := NewRow(h, nextId, tx, now, preHash);
      NewRowChained(h, rows, nextId, tx, now);
      NewRowIs(h, nextId, tx, now, preHash);
      GrowsWellFormed(h, rows, row);
      ghost var id := nextId;
      rows := rows + [row];
      nextId := nextId + 1;
      assert rows == old(rows) + [NewRow(h, id, tx, now, preHash)];
    }

    /** Empties the table and restarts its ids. */
    method Reset()
      modifies this
      ensures Valid() && rows == []
    {
      rows, nextId := [], 1;
    }

    /** Nothing is returned where the source divides by zero. */
    method LoadTransactions(page: nat, perPage: nat, dateText: int -> string) returns (r: Option<TransactionPage>)
      requires page < U64 && perPage < U64 && |rows| <= I64_MAX
      ensures r == None <==> perPage == 0 && rows != []
      ensures r.Some? ==> var shown := Page(rows, page, perPage);
                          && |r.value.transactions| == |shown|
                          && forall i | 0 <= i < |shown| ::
                               var t := r.value.transactions[i];
                               && t.id == shown[i].id && t.from == shown[i].tx.from && t.to == shown[i].tx.to
                               && t.hash == shown[i].hash && t.preHash == shown[i].preHash
                               && t.timestamp == dateText(shown[i].timestamp)
                               && t.amount == ShowAmount(ParseI64(shown[i].amountText))
                               && (shown[i].tx.txType == Transfer ==> t.txType == "Transfer")
                               && (shown[i].tx.txType == Mint ==> t.txType == "Mint")
                               && (shown[i].tx.txType == Burn ==> t.txType == "Burn")
      ensures r.Some? ==> && r.value.transactions == Map(r => Show(r, dateText), Page(rows, page, perPage))
                          && r.value.currentPage == page && r.value.totalCount == |rows|
                          && r.value.totalPages == if perPage == 0 then 1 else TotalPages(|rows|, perPage)
    {
      var totalCount := |rows|;
      var totalPages := 1;
      if totalCount != 0 {
        if perPage == 0 {
          return None;
        }
        totalPages := ((totalCount + perPage - 1) % U64) / perPage;
      }
      var infos: seq<Shown> := [];
      var slice := Page(rows, page, perPage);
      var i := 0;
      while i < |slice|
        invariant 0 <= i <= |slice|
        invariant infos == Map(r => Show(r, dateText), slice[..i])
      {
        assert slice[..i + 1] == slice[..i] + [slice[i]];
        infos := infos + [Show(slice[i], dateText)];
        i := i + 1;
      }
      assert slice[..i] == slice;
      hide ShowAmount, ParseI64, Page, TotalPages;
      r := Some(TransactionPage(infos, page, if totalPages > 1 then totalPages else 1, totalCount));
    }
  }

  // ---------------------------------------------------------------- paging

  ghost predicate Ascending(rows: seq<Row>) {
    forall i, j | 0 <= i < j < |rows| :: rows[i].id < rows[j].id
  }

  ghost predicate NewestFirst(rows: seq<Row>) {
    forall i, j | 0 <= i < j < |rows| :: rows[i].id > rows[j].id
  }

  lemma DescendingOrder(rows: seq<Row>)
    requires Ascending(rows)
    ensures NewestFirst(Descending(rows))
  {
    hide Descending;
  }

  /** The query returns every row once. */
  lemma {:induction false} DescendingSameRows(rows: seq<Row>)
    ensures multiset(Descending(rows)) == multiset(rows)
  {
    if rows != [] {
      DescendingSameRows(rows[..|rows| - 1]);
      assert rows == rows[..|rows| - 1] + [rows[|rows| - 1]];
    }
  }

  lemma DivisionBounds(x: nat, d: nat)
    requires d > 0
    ensures x / d * d <= x < x / d * d + d
  {
  }

  lemma NoQuotient(x: nat, d: nat)
    requires x < d
    ensures x / d == 0
  {
  }

  lemma Product(q: nat, d: nat)
    requires q > 0
    ensures q * d == (q - 1) * d + d
  {
  }

  /** The page count is the rounded-up quotient, also where the sum wraps. */
  lemma TotalPagesRoundsUp(n: nat, perPage: nat)
    requires n <= I64_MAX && 0 < perPage < U64
    ensures var t := TotalPages(n, perPage); t >= 1 && (n > 0 ==> (t - 1) * perPage < n) && n <= t * perPage
    ensures n == 0 ==> TotalPages(n, perPage) == 1
  {
    if n > 0 {
      var x := n + perPage - 1;
      if x < U64 {
        DivisionBounds(x, perPage);
        assert x % U64 == x;
        if x / perPage > 0 {
          Product(x / perPage, perPage);
        }
      } else {
        assert x % U64 == x - U64 < perPage;
        NoQuotient(x - U64, perPage);
      }
    }
  }

  lemma SmallerFactor(a: nat, b: nat, d: nat)
    requires a <= b
    ensures a * d <= b * d
  {
  }

  /** The page in the middle of the table, where the offset does not wrap. */
  lemma PageWithoutWrap(rows: seq<Row>, page: nat, perPage: nat)
    requires page >= 1 && (page - 1) * perPage < U64
    ensures Page(rows, page, perPage) == Slice(Descending(rows), (page - 1) * perPage, perPage)
  {
    hide Descending, Slice;
  }

  function PagesUpTo(rows: seq<Row>, perPage: nat, k: nat): seq<Row> {
    if k == 0 then [] else PagesUpTo(rows, perPage, k - 1) + Page(rows, k, perPage)
  }

  function Min(a: nat, b: nat): nat {
    if a < b then a else b
  }

  lemma TakeThenSlice(s: seq<Row>, offset: nat, limit: nat)
    requires offset <= |s|
    ensures s[..offset] + Slice(s, offset, limit) == s[..Min(offset + limit, |s|)]
  {
  }

  lemma {:induction false} PagesAreTake(rows: seq<Row>, perPage: nat, k: nat)
    requires |rows| <= I64_MAX && 0 < perPage < U64 && k <= TotalPages(|rows|, perPage)
    ensures PagesUpTo(rows, perPage, k) == Descending(rows)[..Min(k * perPage, |rows|)]
  {
    if k > 0 {
      var t, n := TotalPages(|rows|, perPage), |rows|;
      PagesAreTake(rows, perPage, k - 1);
      TotalPagesRoundsUp(n, perPage);
      SmallerFactor(k - 1, t - 1, perPage);
      Product(k, perPage);
      hide TotalPages, Descending, Slice, Page;
      var offset := (k - 1) * perPage;
      assert offset <= n && offset < U64;
      PageWithoutWrap(rows, k, perPage);
      TakeThenSlice(Descending(rows), offset, perPage);
    }
  }

  /** Pages 1 to the last, put together, are the whole table, newest first, every row once. */
  lemma PagingPartitions(rows: seq<Row>, perPage: nat)
    requires |rows| <= I64_MAX && 0 < perPage < U64
    ensures PagesUpTo(rows, perPage, TotalPages(|rows|, perPage)) == Descending(rows)
    ensures multiset(PagesUpTo(rows, perPage, TotalPages(|rows|, perPage))) == multiset(rows)
    ensures Ascending(rows) ==> NewestFirst(PagesUpTo(rows, perPage, TotalPages(|rows|, perPage)))
  {
    if Ascending(rows) {
      DescendingOrder(rows);
    }
    DescendingSameRows(rows);
    PagesAreTake(rows, perPage, TotalPages(|rows|, perPage));
    TotalPagesRoundsUp(|rows|, perPage);
  }

  lemma SliceEmpty(s: seq<Row>, offset: nat, limit: nat)
    requires limit > 0
    ensures Slice(s, offset, limit) == [] <==> offset >= |s|
  {
  }

  /** A page is empty exactly if its offset, as computed, lies past the table. Page 0 is page 1. */
  lemma EmptyPageExactly(rows: seq<Row>, perPage: nat, page: nat)
    requires perPage > 0
    ensures Page(rows, page, perPage) == [] <==> Offset(page, perPage) >= |rows|
    ensures Page(rows, 0, perPage) == Page(rows, 1, perPage)
  {
    SliceEmpty(Descending(rows), Offset(page, perPage), perPage);
    assert Offset(0, perPage) == Offset(1, perPage);
    hide Slice, Descending, Offset;
  }

  /** So every page past the last is empty while the product does not wrap. */
  lemma PagesPastTheLast(rows: seq<Row>, perPage: nat, page: nat)
    requires |rows| <= I64_MAX && 0 < perPage < U64
    requires page > TotalPages(|rows|, perPage) && (page - 1) * perPage < U64
    ensures Page(rows, page, perPage) == []
  {
    var t := TotalPages(|rows|, perPage);
    TotalPagesRoundsUp(|rows|, perPage);
    SmallerFactor(t, page - 1, perPage);
    EmptyPageExactly(rows, perPage, page);
    OffsetWithoutWrap(page, perPage);
    hide Page, TotalPages, Offset;
  }

  lemma OffsetWithoutWrap(page: nat, perPage: nat)
    requires page >= 1 && (page - 1) * perPage < U64
    ensures Offset(page, perPage) == (page - 1) * perPage
  {
  }

  lemma WholeTurns(a: nat, b: nat)
    requires b % U64 == 0
    ensures (a + b) % U64 == a % U64
  {
  }

  lemma Distribute(a: nat, b: nat, c: nat)
    ensures (a + b) * c == a * c + b * c
  {
  }

  /** Once the product wraps, pages come back: pages that lie a whole number of turns apart are the same. */
  lemma PagesRepeat(rows: seq<Row>, perPage: nat, page: nat, turn: nat)
    requires page >= 1 && (turn * perPage) % U64 == 0
    ensures Page(rows, page + turn, perPage) == Page(rows, page, perPage)
  {
    Distribute(page - 1, turn, perPage);
    WholeTurns((page - 1) * perPage, turn * perPage);
    assert page + turn - 1 == (page - 1) + turn;
    hide Descending, Slice;
  }

  /** With 20 rows a page, as the program shows them, that is every 2^62 pages. */
  lemma WrappedPageRepeats(rows: seq<Row>, page: nat)
    requires page >= 1
    ensures Page(rows, page + 0x4000_0000_0000_0000, 20) == Page(rows, page, 20)
  {
    PagesRepeat(rows, 20, page, 0x4000_0000_0000_0000);
  }

  // ---------------------------------------------------------------- amounts

  function Magnitude(a: int): nat {
    if a < 0 then -a else a
  }

  function ParseI64(s: string): int {
    var digits := if s != [] && s[0] in {'+', '-'} then s[1..] else s;
    if digits == [] || !AllDigits(digits) then 0
    else
      var v: int := (if s[0] == '-' then -1 else 1) * Value(digits);
      if -(I64_MAX as int) - 1 <= v <= I64_MAX then v else 0
  }

  /** Rust's integer division rounds toward zero. */
  function Hundreds(a: int): int {
    if a < 0 then -(-a / 100) else a / 100
  }

  function TwoDigits(n: nat): string {
    (if n < 10 then "0" else "") + Decimal(n)
  }

  function ShowAmount(a: int): string {
    SignedDecimal(Hundreds(a)) + "." + TwoDigits(Magnitude(a) % 100)
  }

  /** How a timestamp prints is up to the date library. */
  function Show(r: Row, dateText: int -> string): Shown {
    Shown(r.id, r.tx.txType.Name(), r.tx.from, r.tx.to, ShowAmount(ParseI64(r.amountText)), dateText(r.timestamp),
          r.hash, r.preHash)
  }

  lemma ParseOfPrinted(a: int)
    requires -(I64_MAX as int) - 1 <= a <= I64_MAX
    ensures ParseI64(SignedDecimal(a)) == a
  {
    ValueOfDecimal(Magnitude(a));
    var s := SignedDecimal(a);
    if a < 0 {
      assert s[0] == '-' && s[1..] == Decimal(-a);
    } else {
      assert IsDigit(s[0]);
    }
    hide Value, Decimal;
  }

  /** Any other text counts as 0. */
  lemma ParseOfOther(s: string)
    requires s == "" || (s[0] !in {'+', '-'} && !IsDigit(s[0])) || (exists i :: 0 < i < |s| && !IsDigit(s[i])) || s in {"+", "-"}
    ensures ParseI64(s) == 0
  {
    hide Value;
    if i :| 0 < i < |s| && !IsDigit(s[i]) {
      assert s[0] in {'+', '-'} ==> s[1..][i - 1] == s[i];
    }
  }

  lemma SignedDecimalInjective(a: int, b: int)
    requires SignedDecimal(a) == SignedDecimal(b)
    ensures a == b
  {
    assert IsDigit(Decimal(Magnitude(a))[0]) && IsDigit(Decimal(Magnitude(b))[0]);
    assert a < 0 ==> SignedDecimal(a)[1..] == Decimal(Magnitude(a));
    assert b < 0 ==> SignedDecimal(b)[1..] == Decimal(Magnitude(b));
    if Magnitude(a) != Magnitude(b) && Decimal(Magnitude(a)) == Decimal(Magnitude(b)) {
      DecimalInjective(Magnitude(a), Magnitude(b));
    }
  }

  lemma TwoDigitsShape(n: nat)
    requires n < 100
    ensures |TwoDigits(n)| == 2 && AllDigits(TwoDigits(n)) && Value(TwoDigits(n)) == n
  {
    ValueOfDecimal(n);
    if n < 10 {
      var s := TwoDigits(n);
      assert s == ['0'] + Decimal(n) && |Decimal(n)| == 1;
      assert s[..1] == ['0'] && ['0'][..0] == [];
      assert Decimal(n)[..0] == [];
      assert Value(['0']) == 0;
    } else {
      assert |Decimal(n / 10)| == 1;
    }
  }

  /** The shown text is a whole number of hundreds, a point and two digits, which make up the amount; only the
      whole number carries the sign. */
  lemma ShowAmountReads(a: int) returns (q: int, digits: string)
    ensures ShowAmount(a) == SignedDecimal(q) + "." + digits && |digits| == 2 && AllDigits(digits)
    ensures Magnitude(a) == 100 * Magnitude(q) + Value(digits)
    ensures (q > 0 ==> a > 0) && (q < 0 ==> a < 0)
  {
    q, digits := Hundreds(a), TwoDigits(Magnitude(a) % 100);
    TwoDigitsShape(Magnitude(a) % 100);
    hide Value, TwoDigits, SignedDecimal;
  }

  /** The page shows different amounts differently, except that amounts between -99 and 99 lose their sign. */
  lemma ShowsAmountExactly(a: int, b: int)
    ensures ShowAmount(a) == ShowAmount(b) <==> a == b || (a == -b && Magnitude(a) < 100)
  {
    var x, y := Magnitude(a) % 100, Magnitude(b) % 100;
    TwoDigitsShape(x);
    TwoDigitsShape(y);
    if ShowAmount(a) == ShowAmount(b) {
      var s := ShowAmount(a);
      var p, q := SignedDecimal(Hundreds(a)), SignedDecimal(Hundreds(b));
      assert |p| == |s| - 3 == |q|;
      assert s[..|p|] == p && s[..|q|] == q;
      assert s[|p| + 1..] == TwoDigits(x) && s[|q| + 1..] == TwoDigits(y);
      SignedDecimalInjective(Hundreds(a), Hundreds(b));
      assert x == y;
    }
    SameParts(a, b);
  }

  lemma SameParts(a: int, b: int)
    ensures Hundreds(a) == Hundreds(b) && Magnitude(a) % 100 == Magnitude(b) % 100
       <==> a == b || (a == -b && Magnitude(a) < 100)
  {
  }
}
