/** The balance table: amounts stored as decimal text, overwritten by `set`, moved by `transfer`. */
module Balances {
  import opened Text
  import opened Dedup

  const U64: nat := 0x1_0000_0000_0000_0000

  datatype Row = Row(address: string, balance: string, updatedAt: int)

  datatype Error = NotANumber | ZeroAmount | InsufficientFunds

  datatype Result<+T> = Ok(value: T) | Err(error: Error) {
    predicate IsFailure() { Err? }

    function PropagateFailure<U>(): Result<U>
      requires Err?
    {
      Err(error)
    }

    function Extract(): T
      requires Ok?
    {
      value
    }
  }

  /** Rust's `parse::<u64>()`: digits, at most one leading plus sign, below 2^64. */
  function ParseU64(s: string): Result<nat> {
    var digits := if s != [] && s[0] == '+' then s[1..] else s;
    if digits != [] && AllDigits(digits) && Value(digits) < U64 then Ok(Value(digits)) else Err(NotANumber)
  }

  /** Exactly these texts are numbers: decimal digits, at least one, after at most one plus sign, below 2^64. */
  lemma ParseU64Exactly(s: string, digits: string)
    requires s == digits || s == "+" + digits
    requires AllDigits(digits)
    ensures ParseU64(s) == if digits != "" && Value(digits) < 0x1_0000_0000_0000_0000 then Ok(Value(digits)) else Err(NotANumber)
  {
    hide Value;
    if s == digits {
      assert s != "" ==> IsDigit(s[0]);
    } else {
      assert s[1..] == digits;
    }
  }

  lemma ParseU64Other(s: string)
    requires !AllDigits(s) && !(s != "" && s[0] == '+' && AllDigits(s[1..]))
    ensures ParseU64(s) == Err(NotANumber)
  {
    hide Value;
  }

  function AddressOf(r: Row): string {
    r.address
  }

  /** The database allows one row per address. */
  ghost predicate Unique(rows: seq<Row>) {
    NoRepeats(AddressOf, rows)
  }

  function Lookup(rows: seq<Row>, address: string): Result<nat> {
    if rows == [] then Ok(0)
    else if rows[0].address == address then ParseU64(rows[0].balance)
    else Lookup(rows[1..], address)
  }

  function Put(rows: seq<Row>, address: string, amount: nat, now: int): seq<Row> {
    if rows == [] then [Row(address, Decimal(amount), now)]
    else if rows[0].address == address then [rows[0].(balance := Decimal(amount))] + rows[1..]
    else [rows[0]] + Put(rows[1..], address, amount, now)
  }

  class BalanceStore {
    var rows: seq<Row>

    constructor ()
      ensures rows == []
    {
      rows := [];
    }

    method Find(address: string) returns (pos: nat)
      ensures pos <= |rows| && forall i | 0 <= i < pos :: rows[i].address != address
      ensures pos < |rows| ==> rows[pos].address == address
    {
      pos := 0;
      while pos < |rows| && rows[pos].address != address
        invariant 0 <= pos <= |rows|
        invariant forall i | 0 <= i < pos :: rows[i].address != address
      {
        pos := pos + 1;
      }
    }

    /** An address without a row has nothing. */
    method Get(address: string) returns (r: Result<nat>)
      ensures r == Lookup(rows, address)
    {
      var pos := Find(address);
      LookupAt(rows, address, pos);
      r := if pos < |rows| then ParseU64(rows[pos].balance) else Ok(0);
    }

    method Set(address: string, amount: nat, now: int)
      modifies this
      ensures rows == Put(old(rows), address, amount, now)
    {
      var pos := Find(address);
      PutAt(rows, address, amount, now, pos);
      if pos < |rows| {
        rows := rows[pos := rows[pos].(balance := Decimal(amount))];
      } else {
        rows := rows + [Row(address, Decimal(amount), now)];
      }
    }

    /** Both balances are read before either is written. Every failure comes before the first write, so the
        database transaction has nothing to roll back. The sum wraps in release builds. */
    method Transfer(p: Payment, now: int) returns (r: Result<()>)
      requires p.amount < U64
      modifies this
      ensures r == Verdict(old(rows), p)
      ensures r.Err? ==> rows == old(rows)
      ensures r.Ok? ==> rows == Moved(old(rows), p, now)
    {
      if p.amount == 0 {
        return Err(ZeroAmount);
      }
      var fromBalance :- Get(p.from);
      if fromBalance < p.amount {
        return Err(InsufficientFunds);
      }
      var toBalance :- Get(p.to);
      Set(p.from, fromBalance - p.amount, now);
      Set(p.to, (toBalance + p.amount) % U64, now);
      r := Ok(());
    }
  }

  lemma {:induction false} LookupAt(rows: seq<Row>, address: string, pos: nat)
    requires pos <= |rows| && forall i | 0 <= i < pos :: rows[i].address != address
    requires pos < |rows| ==> rows[pos].address == address
    ensures Lookup(rows, address) == if pos < |rows| then ParseU64(rows[pos].balance) else Ok(0)
  {
    hide ParseU64;
    if pos > 0 {
      LookupAt(rows[1..], address, pos - 1);
    }
  }

  lemma {:induction false} PutAt(rows: seq<Row>, address: string, amount: nat, now: int, pos: nat)
    requires pos <= |rows| && forall i | 0 <= i < pos :: rows[i].address != address
    requires pos < |rows| ==> rows[pos].address == address
    ensures Put(rows, address, amount, now)
         == if pos < |rows| then rows[pos := rows[pos].(balance := Decimal(amount))] else rows + [Row(address, Decimal(amount), now)]
  {
    hide Decimal;
    if pos > 0 {
      PutAt(rows[1..], address, amount, now, pos - 1);
    }
  }

  // ---------------------------------------------------------------- one transfer

  datatype Payment = Payment(from: string, to: string, amount: nat)

  function Verdict(rows: seq<Row>, p: Payment): Result<()> {
    if p.amount == 0 then Err(ZeroAmount)
    else
      var fromBalance :- Lookup(rows, p.from);
      if fromBalance < p.amount then Err(InsufficientFunds)
      else
        var toBalance :- Lookup(rows, p.to);
        Ok(())
  }

  function Moved(rows: seq<Row>, p: Payment, now: int): seq<Row>
    requires Verdict(rows, p).Ok?
  {
    Put(Put(rows, p.from, Lookup(rows, p.from).value - p.amount, now),
        p.to, (Lookup(rows, p.to).value + p.amount) % U64, now)
  }

  function TableAfter(rows: seq<Row>, p: Payment, now: int): seq<Row> {
    if Verdict(rows, p).Ok? then Moved(rows, p, now) else rows
  }

  // ---------------------------------------------------------------- what the table is worth

  function Worth(balance: string): nat {
    match ParseU64(balance) case Ok(n) => n case Err(_) => 0
  }

  function Total(rows: seq<Row>): nat {
    if rows == [] then 0 else Worth(rows[0].balance) + Total(rows[1..])
  }

  /** What an address has, counting an unreadable row as nothing. */
  function Amount(rows: seq<Row>, address: string): nat {
    match Lookup(rows, address) case Ok(n) => n case Err(_) => 0
  }

  lemma ParsePrinted(n: nat)
    requires n < U64
    ensures ParseU64(Decimal(n)) == Ok(n) && Worth(Decimal(n)) == n
  {
    ValueOfDecimal(n);
    hide Value;
  }

  lemma ParseBelowU64(s: string)
    ensures ParseU64(s).Ok? ==> ParseU64(s).value < U64
  {
  }

  lemma {:induction false} AmountBelowU64(rows: seq<Row>, address: string)
    ensures Amount(rows, address) < U64
  {
    if rows != [] {
      ParseBelowU64(rows[0].balance);
      AmountBelowU64(rows[1..], address);
    }
  }

  lemma TotalCons(r: Row, rest: seq<Row>)
    ensures Total([r] + rest) == Worth(r.balance) + Total(rest)
  {
    assert ([r] + rest)[1..] == rest;
  }

  lemma AmountCons(r: Row, rest: seq<Row>, address: string)
    ensures Lookup([r] + rest, address) == if r.address == address then ParseU64(r.balance) else Lookup(rest, address)
  {
    assert ([r] + rest)[1..] == rest;
  }

  /** Overwriting one address: the others keep what they have. */
  lemma {:induction false} PutLookup(rows: seq<Row>, address: string, amount: nat, now: int, other: string)
    requires amount < U64
    ensures Lookup(Put(rows, address, amount, now), other) == if other == address then Ok(amount) else Lookup(rows, other)
  {
    ParsePrinted(amount);
    hide ParseU64, Decimal;
    if rows == [] {
      AmountCons(Row(address, Decimal(amount), now), [], other);
      assert [Row(address, Decimal(amount), now)] + [] == [Row(address, Decimal(amount), now)];
    } else if rows[0].address == address {
      AmountCons(rows[0].(balance := Decimal(amount)), rows[1..], other);
    } else {
      PutLookup(rows[1..], address, amount, now, other);
      AmountCons(rows[0], Put(rows[1..], address, amount, now), other);
    }
  }

  lemma {:induction false} PutTotal(rows: seq<Row>, address: string, amount: nat, now: int)
    requires amount < U64
    ensures Total(Put(rows, address, amount, now)) == Total(rows) - Amount(rows, address) + amount
  {
    ParsePrinted(amount);
    hide ParseU64, Decimal;
    if rows == [] {
      TotalCons(Row(address, Decimal(amount), now), []);
      assert [Row(address, Decimal(amount), now)] + [] == [Row(address, Decimal(amount), now)];
    } else if rows[0].address == address {
      TotalCons(rows[0].(balance := Decimal(amount)), rows[1..]);
    } else {
      PutTotal(rows[1..], address, amount, now);
      TotalCons(rows[0], Put(rows[1..], address, amount, now));
    }
  }

  lemma {:induction false} PutKeys(rows: seq<Row>, address: string, amount: nat, now: int)
    ensures KeySet(AddressOf, Put(rows, address, amount, now)) == KeySet(AddressOf, rows) + {address}
    ensures Unique(rows) ==> Unique(Put(rows, address, amount, now))
  {
    hide Decimal;
    if rows == [] {
      KeySetCons(AddressOf, Row(address, Decimal(amount), now), []);
    } else {
      var rest := rows[1..];
      assert rows == [rows[0]] + rest;
      NoRepeatsCons(AddressOf, rows[0], rest);
      KeySetCons(AddressOf, rows[0], rest);
      if rows[0].address == address {
        NoRepeatsCons(AddressOf, rows[0].(balance := Decimal(amount)), rest);
        KeySetCons(AddressOf, rows[0].(balance := Decimal(amount)), rest);
      } else {
        PutKeys(rest, address, amount, now);
        NoRepeatsCons(AddressOf, rows[0], Put(rest, address, amount, now));
        KeySetCons(AddressOf, rows[0], Put(rest, address, amount, now));
      }
    }
  }

  /** Two different addresses cannot have more than all of them together. */
  lemma {:induction false} PairWithinTotal(rows: seq<Row>, a: string, b: string)
    requires a != b
    ensures Amount(rows, a) + Amount(rows, b) <= Total(rows)
  {
    hide ParseU64;
    if rows != [] {
      PairWithinTotal(rows[1..], a, b);
    }
  }

  // ---------------------------------------------------------------- what a transfer does

  /** A transfer succeeds exactly if it moves something, both rows are readable and the payer can pay. */
  lemma SucceedsExactly(rows: seq<Row>, p: Payment)
    ensures Verdict(rows, p).Ok?
       <==> Lookup(rows, p.from).Ok? && Lookup(rows, p.to).Ok? && 0 < p.amount <= Amount(rows, p.from)
  {
    hide Lookup;
  }

  /** Which error a failing transfer reports, in the order the checks are made. */
  lemma FailsExactly(rows: seq<Row>, p: Payment)
    ensures Verdict(rows, p) == Err(ZeroAmount) <==> p.amount == 0
    ensures Verdict(rows, p) == Err(InsufficientFunds)
       <==> p.amount > 0 && Lookup(rows, p.from).Ok? && Lookup(rows, p.from).value < p.amount
    ensures Verdict(rows, p) == Err(NotANumber)
       <==> p.amount > 0 && (Lookup(rows, p.from).Err? || (Lookup(rows, p.from).value >= p.amount && Lookup(rows, p.to).Err?))
  {
    LookupError(rows, p.from);
    LookupError(rows, p.to);
    hide Lookup;
  }

  lemma {:induction false} LookupError(rows: seq<Row>, address: string)
    ensures Lookup(rows, address).Err? ==> Lookup(rows, address).error == NotANumber
  {
    if rows != [] {
      LookupError(rows[1..], address);
    }
  }

  /** A successful transfer keeps every third address. Between two addresses the payer loses and the payee
      gains the amount, modulo 2^64; an address that pays itself only gains. */
  lemma AmountsAfter(rows: seq<Row>, p: Payment, now: int, address: string)
    requires Verdict(rows, p).Ok?
    ensures Amount(Moved(rows, p, now), address)
         == if address == p.to then (Amount(rows, p.to) + p.amount) % U64
            else if address == p.from then Amount(rows, p.from) - p.amount
            else Amount(rows, address)
  {
    SucceedsExactly(rows, p);
    AmountBelowU64(rows, p.from);
    var left := Amount(rows, p.from) - p.amount;
    var right := (Amount(rows, p.to) + p.amount) % U64;
    hide Lookup, Put;
    PutLookup(rows, p.from, left, now, address);
    PutLookup(Put(rows, p.from, left, now), p.to, right, now, address);
  }

  lemma PutAmount(rows: seq<Row>, address: string, amount: nat, now: int, other: string)
    requires amount < U64
    ensures Amount(Put(rows, address, amount, now), other) == if other == address then amount else Amount(rows, other)
  {
    PutLookup(rows, address, amount, now, other);
    hide Put, Lookup;
  }

  lemma WrapsOnce(x: nat)
    requires x < U64 + U64
    ensures x % U64 == if x < U64 then x else x - U64
  {
  }

  lemma MovedPuts(rows: seq<Row>, p: Payment, now: int)
    requires Verdict(rows, p).Ok?
    ensures 0 < p.amount <= Amount(rows, p.from)
    ensures Moved(rows, p, now) == Put(Put(rows, p.from, Amount(rows, p.from) - p.amount, now),
                                       p.to, (Amount(rows, p.to) + p.amount) % U64, now)
  {
    hide Lookup, Put;
  }

  lemma MovedSum(total: int, from: int, to: int, amount: int, right: int, same: bool)
    requires same ==> from == to
    requires right == if to + amount < U64 then to + amount else to + amount - U64
    ensures (total - from + (from - amount)) - (if same then from - amount else to) + right
         == total - (if to + amount < U64 then 0 else U64) + if same then amount else 0
  {
  }

  lemma TotalOfPuts(rows: seq<Row>, from: string, to: string, amount: nat, now: int)
    requires amount <= Amount(rows, from)
    ensures Total(Put(Put(rows, from, Amount(rows, from) - amount, now), to, (Amount(rows, to) + amount) % U64, now))
         == Total(rows) - (if Amount(rows, to) + amount < U64 then 0 else U64) + if from == to then amount else 0
  {
    hide *;
    AmountBelowU64(rows, from);
    AmountBelowU64(rows, to);
    var left, right := Amount(rows, from) - amount, (Amount(rows, to) + amount) % U64;
    WrapsOnce(Amount(rows, to) + amount);
    PutTotal(rows, from, left, now);
    PutAmount(rows, from, left, now, to);
    PutTotal(Put(rows, from, left, now), to, right, now);
    MovedSum(Total(rows), Amount(rows, from), Amount(rows, to), amount, right, from == to);
  }

  lemma TotalAfter(rows: seq<Row>, p: Payment, now: int)
    requires Verdict(rows, p).Ok?
    ensures var sum := Amount(rows, p.to) + p.amount;
            Total(Moved(rows, p, now)) == Total(rows) - (if sum < U64 then 0 else U64) + if p.from == p.to then p.amount else 0
  {
    hide *;
    MovedPuts(rows, p, now);
    TotalOfPuts(rows, p.from, p.to, p.amount, now);
  }

  /** A successful transfer conserves the total exactly if it is between two addresses and the payee's balance
      does not overflow. A transfer to oneself creates its amount. */
  lemma ConservesExactly(rows: seq<Row>, p: Payment, now: int)
    requires Verdict(rows, p).Ok?
    ensures Total(Moved(rows, p, now)) == Total(rows) <==> p.from != p.to && Amount(rows, p.to) + p.amount < U64
    ensures p.from == p.to && Amount(rows, p.to) + p.amount < U64 ==> Total(Moved(rows, p, now)) == Total(rows) + p.amount
  {
    TotalAfter(rows, p, now);
    SucceedsExactly(rows, p);
    AmountBelowU64(rows, p.from);
    hide Lookup, Total, Moved;
  }

  lemma MovedUnique(rows: seq<Row>, p: Payment, now: int)
    requires Verdict(rows, p).Ok? && Unique(rows)
    ensures Unique(Moved(rows, p, now))
  {
    hide Put, Lookup, Unique;
    PutKeys(rows, p.from, Lookup(rows, p.from).value - p.amount, now);
    PutKeys(Put(rows, p.from, Lookup(rows, p.from).value - p.amount, now),
            p.to, (Lookup(rows, p.to).value + p.amount) % U64, now);
  }

  // ---------------------------------------------------------------- runs

  function TableAfterAll(rows: seq<Row>, ps: seq<Payment>, now: int): seq<Row> {
    if ps == [] then rows else TableAfter(TableAfterAll(rows, ps[..|ps| - 1], now), ps[|ps| - 1], now)
  }

  /** Between different addresses, and with a total that fits u64, one transfer conserves the total without
      overflow, whether it succeeds or fails. */
  lemma StepConserves(rows: seq<Row>, p: Payment, now: int)
    requires Unique(rows) && p.from != p.to && Total(rows) < U64
    ensures Unique(TableAfter(rows, p, now)) && Total(TableAfter(rows, p, now)) == Total(rows)
    ensures Verdict(rows, p).Ok? ==> Amount(rows, p.to) + p.amount < U64
  {
    hide Unique, Moved;
    if Verdict(rows, p).Ok? {
      SucceedsExactly(rows, p);
      PairWithinTotal(rows, p.from, p.to);
      ConservesExactly(rows, p, now);
      MovedUnique(rows, p, now);
    }
  }

  /** So over any run of transfers between different addresses the total stays what it was, no sum overflows
      at any step, and an address that takes no part keeps its balance. */
  lemma {:induction false} RunConserves(rows: seq<Row>, ps: seq<Payment>, now: int, address: string)
    requires Unique(rows) && Total(rows) < U64
    requires forall p | p in ps :: p.from != p.to
    ensures Unique(TableAfterAll(rows, ps, now)) && Total(TableAfterAll(rows, ps, now)) == Total(rows)
    ensures forall k | 0 <= k < |ps| ::
              Verdict(TableAfterAll(rows, ps[..k], now), ps[k]).Ok?
              ==> Amount(TableAfterAll(rows, ps[..k], now), ps[k].to) + ps[k].amount < U64
    ensures (forall p | p in ps :: address !in {p.from, p.to})
        ==> Amount(TableAfterAll(rows, ps, now), address) == Amount(rows, address)
  {
    hide Unique, Moved, Verdict, Total, Lookup;
    if ps != [] {
      var front, p := ps[..|ps| - 1], ps[|ps| - 1];
      RunConserves(rows, front, now, address);
      var before := TableAfterAll(rows, front, now);
      StepConserves(before, p, now);
      forall k | 0 <= k < |ps|
        ensures Verdict(TableAfterAll(rows, ps[..k], now), ps[k]).Ok?
            ==> Amount(TableAfterAll(rows, ps[..k], now), ps[k].to) + ps[k].amount < U64
      {
        if k < |front| {
          assert front[..k] == ps[..k] && front[k] == ps[k];
        }
      }
      if Verdict(before, p).Ok? {
        AmountsAfter(before, p, now, address);
      }
    }
  }
}
