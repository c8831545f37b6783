/** Small facts about sequences, sets and multisets that several models share. */
module Collections {

  datatype Option<+T> = None | Some(value: T) {
    predicate IsFailure() { None? }

    function PropagateFailure<U>(): Option<U>
      requires None?
    {
      None
    }

    function Extract(): T
      requires Some?
    {
      value
    }
  }

  ghost predicate Distinct<T>(s: seq<T>) {
    forall i, j | 0 <= i < j < |s| :: s[i] != s[j]
  }

  function Elems<T>(s: seq<T>): set<T> {
    set x | x in s
  }

  /** The sequence lists every element of the set exactly once, in any order.
      This is all that iterating over a hash map promises. */
  ghost predicate Enumerates<T>(s: seq<T>, xs: set<T>) {
    Distinct(s) && Elems(s) == xs
  }

  lemma AppendAssociative<T>(a: seq<T>, b: seq<T>, c: seq<T>)
    ensures (a + b) + c == a + (b + c)
  {
  }

  lemma DistinctAppend<T>(s: seq<T>, x: T)
    requires Distinct(s) && x !in s
    ensures Distinct(s + [x]) && Elems(s + [x]) == Elems(s) + {x}
  {
  }

  lemma {:induction false} DistinctSize<T>(s: seq<T>)
    requires Distinct(s)
    ensures |Elems(s)| == |s|
  {
    if s != [] {
      DistinctSize(s[1..]);
      assert s == [s[0]] + s[1..];
      assert Elems(s) == {s[0]} + Elems(s[1..]);
      assert s[0] !in s[1..];
    }
  }

  lemma {:induction false} DistinctCounts<T>(s: seq<T>)
    requires Distinct(s)
    ensures forall x :: multiset(s)[x] == if x in s then 1 else 0
  {
    if s != [] {
      DistinctCounts(s[1..]);
      assert s == [s[0]] + s[1..];
      assert s[0] !in s[1..];
    }
  }

  lemma DistinctIncluded<T>(s: seq<T>, t: seq<T>)
    requires Distinct(s) && Distinct(t) && Elems(s) <= Elems(t)
    ensures multiset(s) <= multiset(t)
  {
    DistinctCounts(s);
    DistinctCounts(t);
    forall x
      ensures multiset(s)[x] <= multiset(t)[x]
    {
      if x in s {
        assert x in Elems(s);
        assert x in Elems(t);
      }
    }
  }

  function Map<T, U>(f: T -> U, s: seq<T>): (r: seq<U>)
    ensures |r| == |s|
    ensures forall i | 0 <= i < |s| :: r[i] == f(s[i])
  {
    seq(|s|, i requires 0 <= i < |s| => f(s[i]))
  }

  lemma MapAppend<T, U>(f: T -> U, s: seq<T>, t: seq<T>)
    ensures Map(f, s + t) == Map(f, s) + Map(f, t)
  {
  }

  /** The first entry of s, found and removed from a larger multiset t. */
  lemma MatchFirst<T>(s: seq<T>, t: seq<T>) returns (left: seq<T>, right: seq<T>)
    requires s != [] && multiset(s) <= multiset(t)
    ensures t == left + [s[0]] + right
    ensures multiset(s[1..]) <= multiset(left + right)
  {
    var x := s[0];
    assert s == [x] + s[1..];
    assert multiset(s) == multiset(s[1..]) + multiset{x};
    assert x in multiset(t);
    var i :| 0 <= i < |t| && t[i] == x;
    left, right := t[..i], t[i + 1..];
    assert t == left + [x] + right;
    assert multiset(t) == multiset(left + right) + multiset{x};
    forall y
      ensures multiset(s[1..])[y] <= multiset(left + right)[y]
    {
      assert multiset(s)[y] <= multiset(t)[y];
    }
  }

  lemma MapSplit<T, U>(f: T -> U, left: seq<T>, x: T, right: seq<T>)
    ensures multiset(Map(f, left + [x] + right)) == multiset(Map(f, left + right)) + multiset{f(x)}
  {
    assert Map(f, left + [x] + right) == Map(f, left) + [f(x)] + Map(f, right);
    assert Map(f, left + right) == Map(f, left) + Map(f, right);
  }

  lemma {:induction false} MapIncluded<T, U>(f: T -> U, s: seq<T>, t: seq<T>)
    requires multiset(s) <= multiset(t)
    ensures multiset(Map(f, s)) <= multiset(Map(f, t))
  {
    if s != [] {
      var x, rest := s[0], s[1..];
      assert s == [] + [x] + rest && rest == [] + rest;
      var left, right := MatchFirst(s, t);
      MapIncluded(f, rest, left + right);
      MapSplit(f, [], x, rest);
      MapSplit(f, left, x, right);
    }
  }

  lemma {:induction false} SubsetSize<T>(a: set<T>, b: set<T>)
    requires a <= b
    ensures |a| <= |b|
    ensures a != b ==> |a| < |b|
  {
    if a != {} {
      var x :| x in a;
      SubsetSize(a - {x}, b - {x});
      if a != b {
        var y :| y in b && y !in a;
        assert y in b - {x} && y !in a - {x};
      }
    } else if b != {} {
      assert |b| > 0;
    }
  }

  /** A set that was extended has more elements exactly if something new came in. */
  lemma UnionSize<T>(a: set<T>, b: set<T>)
    ensures |a + b| > |a| <==> !(b <= a)
  {
    SubsetSize(a, a + b);
    if b <= a {
      assert a + b == a;
    } else {
      var x :| x in b && x !in a;
      assert x in a + b;
    }
  }
}
