/** Strings as the node uses them: decimal numbers, the byte-wise order, sorting, concatenation. */
module Text {
  import opened Collections

  // ---------------------------------------------------------------- decimal numbers

  predicate IsDigit(c: char) {
    '0' <= c <= '9'
  }

  predicate AllDigits(s: string) {
    forall i | 0 <= i < |s| :: IsDigit(s[i])
  }

  function Decimal(n: nat): (s: string)
    ensures s != [] && AllDigits(s)
    ensures |s| > 1 ==> s[0] != '0'
    ensures n > 0 ==> s[0] != '0'
  {
    if n < 10 then [('0' as int + n) as char] else Decimal(n / 10) + [('0' as int + n % 10) as char]
  }

  function Value(s: string): nat
    requires AllDigits(s)
  {
    if s == [] then 0
    else Value(s[..|s| - 1]) * 10 + (s[|s| - 1] as int - '0' as int)
  }

  lemma {:induction false} ValueOfDecimal(n: nat)
    ensures Value(Decimal(n)) == n
  {
    if n >= 10 {
      ValueOfDecimal(n / 10);
      assert Decimal(n)[..|Decimal(n)| - 1] == Decimal(n / 10);
    } else {
      assert Decimal(n)[..0] == [];
    }
  }

  /** A digit text without superfluous leading zeros is the printing of its value. */
  lemma {:induction false} DecimalOfDigits(s: string)
    requires s != "" && AllDigits(s) && (|s| > 1 ==> s[0] != '0')
    ensures Decimal(Value(s)) == s
    ensures s[0] != '0' ==> Value(s) > 0
  {
    var front, last := s[..|s| - 1], s[|s| - 1];
    if front != "" {
      DecimalOfDigits(front);
      TensAndOnes(Value(front), last as int - '0' as int);
    } else {
      assert Value(front) == 0;
    }
  }

  lemma TensAndOnes(tens: nat, ones: nat)
    requires ones < 10
    ensures (tens * 10 + ones) / 10 == tens && (tens * 10 + ones) % 10 == ones
  {
  }

  lemma DecimalInjective(m: nat, n: nat)
    requires Decimal(m) == Decimal(n)
    ensures m == n
  {
    ValueOfDecimal(m);
    ValueOfDecimal(n);
  }

  lemma {:induction false} DecimalOfSmall(n: nat)
    requires n < 1000
    ensures |Decimal(n)| <= 3
  {
    if n >= 10 {
      var m := n / 10;
      if m >= 10 {
        assert |Decimal(m / 10)| == 1;
      }
    }
  }

  // ---------------------------------------------------------------- the order on strings

  /** Strict lexicographic order, as Rust orders strings. */
  predicate Less(a: string, b: string) {
    b != [] && (a == [] || a[0] < b[0] || (a[0] == b[0] && Less(a[1..], b[1..])))
  }

  lemma {:induction false} LessIrreflexive(a: string)
    ensures !Less(a, a)
  {
    if a != [] {
      LessIrreflexive(a[1..]);
    }
  }

  lemma {:induction false} LessTransitive(a: string, b: string, c: string)
    requires Less(a, b) && Less(b, c)
    ensures Less(a, c)
  {
    if a != [] && a[0] == b[0] && b[0] == c[0] {
      LessTransitive(a[1..], b[1..], c[1..]);
    }
  }

  lemma LessAsymmetric(a: string, b: string)
    requires Less(a, b)
    ensures !Less(b, a)
  {
    if Less(b, a) {
      LessTransitive(a, b, a);
      LessIrreflexive(a);
    }
  }

  lemma {:induction false} LessTotal(a: string, b: string)
    ensures a == b || Less(a, b) || Less(b, a)
  {
    if a != [] && b != [] && a[0] == b[0] {
      LessTotal(a[1..], b[1..]);
      assert a == [a[0]] + a[1..] && b == [b[0]] + b[1..];
    }
  }

  predicate DiffersAt(a: string, b: string, i: nat) {
    i < |a| && i < |b| && a[..i] == b[..i] && a[i] < b[i]
  }

  lemma DiffersLater(a: string, b: string, i: nat)
    requires a != "" && b != "" && a[0] == b[0]
    ensures DiffersAt(a, b, i + 1) <==> DiffersAt(a[1..], b[1..], i)
  {
    if i + 1 <= |a| && i + 1 <= |b| {
      assert a[..i + 1] == [a[0]] + a[1..][..i] && b[..i + 1] == [a[0]] + b[1..][..i];
      assert a[..i + 1][1..] == a[1..][..i] && b[..i + 1][1..] == b[1..][..i];
    }
  }

  /** The order is decided at the first difference; of a string and its extension the shorter comes first. */
  lemma {:induction false} LessExactly(a: string, b: string)
    ensures Less(a, b) <==> a < b || exists i: nat :: DiffersAt(a, b, i)
  {
    if a != "" && b != "" && a[0] == b[0] {
      var a', b' := a[1..], b[1..];
      LessExactly(a', b');
      assert a == [a[0]] + a' && b == [a[0]] + b';
      assert a < b <==> a' < b';
      if i: nat :| DiffersAt(a, b, i) {
        assert i > 0;
        DiffersLater(a, b, i - 1);
      }
      if i: nat :| DiffersAt(a', b', i) {
        DiffersLater(a, b, i);
      }
      hide DiffersAt;
    } else if a != "" && b != "" {
      NoDifferenceLater(a, b);
      assert DiffersAt(a, b, 0) <==> a[0] < b[0];
      hide DiffersAt;
    }
  }

  lemma NoDifferenceLater(a: string, b: string)
    requires a != "" && b != "" && a[0] != b[0]
    ensures forall i :: i > 0 ==> !DiffersAt(a, b, i)
  {
    forall i: nat | i > 0 && i <= |a| && i <= |b|
      ensures a[..i] != b[..i]
    {
      assert a[..i][0] != b[..i][0];
    }
  }

  // ---------------------------------------------------------------- sorting

  ghost predicate Sorted(s: seq<string>) {
    forall i, j | 0 <= i < j < |s| :: !Less(s[j], s[i])
  }

  function Insert(x: string, s: seq<string>): seq<string> {
    if s == [] then [x]
    else if Less(s[0], x) then [s[0]] + Insert(x, s[1..])
    else [x] + s
  }

  function Sort(s: seq<string>): seq<string> {
    if s == [] then [] else Insert(s[0], Sort(s[1..]))
  }

  lemma {:induction false} InsertSorted(x: string, s: seq<string>)
    requires Sorted(s)
    ensures Sorted(Insert(x, s))
    ensures multiset(Insert(x, s)) == multiset(s) + multiset{x}
  {
    if s != [] {
      assert s == [s[0]] + s[1..];
      if Less(s[0], x) {
        InsertSorted(x, s[1..]);
        forall i | 0 <= i < |Insert(x, s[1..])|
          ensures !Less(Insert(x, s[1..])[i], s[0])
        {
          var y := Insert(x, s[1..])[i];
          assert y in multiset(Insert(x, s[1..]));
          if y == x {
            LessAsymmetric(s[0], x);
          } else {
            assert y in s[1..];
          }
        }
      } else {
        forall i | 0 <= i < |s|
          ensures !Less(s[i], x)
        {
          if Less(s[i], x) {
            LessTotal(x, s[0]);
            if x != s[0] {
              LessTransitive(s[i], x, s[0]);
            }
          }
        }
      }
    }
  }

  lemma {:induction false} SortSorts(s: seq<string>)
    ensures Sorted(Sort(s))
    ensures multiset(Sort(s)) == multiset(s)
  {
    if s != [] {
      SortSorts(s[1..]);
      InsertSorted(s[0], Sort(s[1..]));
      assert s == [s[0]] + s[1..];
    }
  }

  lemma SameFirst(s: seq<string>, t: seq<string>)
    requires Sorted(s) && Sorted(t) && multiset(s) == multiset(t)
    requires s != [] && t != []
    ensures s[0] == t[0]
  {
    assert s[0] in multiset(t) && t[0] in multiset(s);
    var i :| 0 <= i < |t| && t[i] == s[0];
    var j :| 0 <= j < |s| && s[j] == t[0];
    LessIrreflexive(s[0]);
    LessTotal(s[0], t[0]);
  }

  /** A multiset of strings has only one sorted arrangement. */
  lemma {:induction false} SortedUnique(s: seq<string>, t: seq<string>)
    requires Sorted(s) && Sorted(t) && multiset(s) == multiset(t)
    ensures s == t
  {
    assert |s| == |multiset(s)| == |multiset(t)| == |t|;
    if s != [] {
      SameFirst(s, t);
      assert s == [s[0]] + s[1..] && t == [t[0]] + t[1..];
      assert multiset(s[1..]) == multiset(s) - multiset{s[0]} == multiset(t[1..]);
      SortedUnique(s[1..], t[1..]);
    }
  }

  lemma SortOfPermutation(s: seq<string>, t: seq<string>)
    requires multiset(s) == multiset(t)
    ensures Sort(s) == Sort(t)
  {
    SortSorts(s);
    SortSorts(t);
    SortedUnique(Sort(s), Sort(t));
  }

  // ---------------------------------------------------------------- concatenation

  function Concat(s: seq<string>): string {
    if s == [] then "" else s[0] + Concat(s[1..])
  }

  lemma {:induction false} ConcatAppend(s: seq<string>, t: seq<string>)
    ensures Concat(s + t) == Concat(s) + Concat(t)
  {
    if s == [] {
      assert s + t == t;
    } else {
      var x, rest := s[0], s[1..];
      ConcatAppend(rest, t);
      assert s + t == [x] + (rest + t) && (s + t)[1..] == rest + t;
      assert Concat(s + t) == x + (Concat(rest) + Concat(t)) == x + Concat(rest) + Concat(t);
    }
  }

  lemma ConcatPair(a: string, b: string)
    ensures Concat([a, b]) == a + b && Concat([a]) == a
  {
    assert [a, b][1..] == [b] && [a][1..] == [] && [b][1..] == [];
    assert Concat([]) == "" && a + "" == a && b + "" == b;
    assert Concat([a]) == a && Concat([b]) == b;
  }

  lemma ConcatSplit(left: seq<string>, x: string, right: seq<string>)
    ensures |Concat(left + [x] + right)| == |Concat(left + right)| + |x|
  {
    ConcatAppend(left + [x], right);
    ConcatAppend(left, [x]);
    ConcatAppend(left, right);
    assert [x][1..] == [];
  }

  /** Of two lists of non-empty strings, one included in the other as multisets,
      equal total length leaves no room for an extra entry. */
  lemma {:induction false} ConcatLength(s: seq<string>, t: seq<string>)
    requires multiset(s) <= multiset(t)
    requires forall x | x in t :: x != ""
    ensures |Concat(s)| <= |Concat(t)|
    ensures |Concat(s)| == |Concat(t)| ==> |s| == |t|
  {
    if s != [] {
      var x, rest := s[0], s[1..];
      assert s == [] + [x] + rest && rest == [] + rest;
      var left, right := MatchFirst(s, t);
      assert forall y | y in left + right :: y in t;
      ConcatLength(rest, left + right);
      ConcatSplit([], x, rest);
      ConcatSplit(left, x, right);
    } else if t != [] {
      assert t[0] in t;
    }
  }

  // ---------------------------------------------------------------- integers as bytes

  /** The low k bytes of a two's-complement integer, least significant first. */
  function LittleEndian(n: int, k: nat): string
    decreases k
  {
    if k == 0 then "" else [(n % 256) as char] + LittleEndian(n / 256, k - 1)
  }

  lemma {:induction false} LittleEndianLength(n: int, k: nat)
    ensures |LittleEndian(n, k)| == k
    decreases k
  {
    if k > 0 {
      LittleEndianLength(n / 256, k - 1);
    }
  }
}
