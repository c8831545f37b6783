/** Keeping the first element of each key, as the loops with a `seen` set do. */
module Dedup {
  import opened Collections

  function KeySet<T(==)>(key: T -> string, xs: seq<T>): set<string> {
    set x | x in xs :: key(x)
  }

  ghost predicate NoRepeats<T>(key: T -> string, xs: seq<T>) {
    forall i, j | 0 <= i < j < |xs| :: key(xs[i]) != key(xs[j])
  }

  /** The elements whose key is not in seen, the first of each key only. */
  function KeepFirst<T>(key: T -> string, seen: set<string>, xs: seq<T>): (r: seq<T>)
    ensures forall x | x in r :: x in xs
    decreases |xs|
  {
    if xs == [] then []
    else if key(xs[0]) in seen then KeepFirst(key, seen, xs[1..])
    else [xs[0]] + KeepFirst(key, seen + {key(xs[0])}, xs[1..])
  }

  lemma KeySetCons<T>(key: T -> string, x: T, rest: seq<T>)
    ensures KeySet(key, [x] + rest) == {key(x)} + KeySet(key, rest)
  {
  }

  lemma NoRepeatsCons<T>(key: T -> string, x: T, rest: seq<T>)
    ensures NoRepeats(key, [x] + rest) <==> NoRepeats(key, rest) && key(x) !in KeySet(key, rest)
  {
    var xs := [x] + rest;
    assert forall i | 0 <= i < |rest| :: xs[i + 1] == rest[i] && rest[i] in rest;
    if NoRepeats(key, xs) {
      forall y | y in rest
        ensures key(y) != key(x)
      {
        var i :| 0 <= i < |rest| && rest[i] == y;
        assert xs[i + 1] == y && xs[0] == x;
      }
      forall i, j | 0 <= i < j < |rest|
        ensures key(rest[i]) != key(rest[j])
      {
        assert xs[i + 1] == rest[i] && xs[j + 1] == rest[j];
      }
    }
  }

  lemma KeySetAppend<T>(key: T -> string, xs: seq<T>, ys: seq<T>)
    ensures KeySet(key, xs + ys) == KeySet(key, xs) + KeySet(key, ys)
  {
  }

  lemma KeySetElems<T>(key: T -> string, xs: seq<T>)
    ensures Elems(Map(key, xs)) == KeySet(key, xs)
  {
    forall a
      ensures a in Elems(Map(key, xs)) <==> a in KeySet(key, xs)
    {
      if a in KeySet(key, xs) {
        var x :| x in xs && key(x) == a;
        var i :| 0 <= i < |xs| && xs[i] == x;
        assert Map(key, xs)[i] == a;
      }
      if a in Elems(Map(key, xs)) {
        var i :| 0 <= i < |xs| && Map(key, xs)[i] == a;
        assert key(xs[i]) == a;
      }
    }
  }

  /** Without repeats, two lists with the same keys are permutations of each other as key lists. */
  lemma SameKeysSameMultiset<T>(key: T -> string, xs: seq<T>, ys: seq<T>)
    requires NoRepeats(key, xs) && NoRepeats(key, ys) && KeySet(key, xs) == KeySet(key, ys)
    ensures multiset(Map(key, xs)) == multiset(Map(key, ys))
  {
    KeySetElems(key, xs);
    KeySetElems(key, ys);
    DistinctIncluded(Map(key, xs), Map(key, ys));
    DistinctIncluded(Map(key, ys), Map(key, xs));
  }

  lemma {:induction false} KeptKeys<T>(key: T -> string, seen: set<string>, xs: seq<T>)
    ensures KeySet(key, KeepFirst(key, seen, xs)) == KeySet(key, xs) - seen
    decreases |xs|
  {
    if xs != [] {
      var x, tail := xs[0], xs[1..];
      KeySetCons(key, x, tail);
      assert xs == [x] + tail;
      if key(x) in seen {
        KeptKeys(key, seen, tail);
      } else {
        KeptKeys(key, seen + {key(x)}, tail);
        KeySetCons(key, x, KeepFirst(key, seen + {key(x)}, tail));
      }
    }
  }

  lemma {:induction false} KeptNoRepeats<T>(key: T -> string, seen: set<string>, xs: seq<T>)
    ensures NoRepeats(key, KeepFirst(key, seen, xs))
    decreases |xs|
  {
    if xs != [] {
      var a, tail := key(xs[0]), xs[1..];
      if a in seen {
        KeptNoRepeats(key, seen, tail);
      } else {
        var rest := KeepFirst(key, seen + {a}, tail);
        KeptNoRepeats(key, seen + {a}, tail);
        KeptKeys(key, seen + {a}, tail);
        assert forall i | 0 <= i < |rest| :: key(rest[i]) in KeySet(key, rest);
      }
    }
  }

  lemma {:induction false} NothingFresh<T>(key: T -> string, seen: set<string>, xs: seq<T>)
    requires KeySet(key, xs) <= seen
    ensures KeepFirst(key, seen, xs) == []
  {
    if xs != [] {
      assert xs == [xs[0]] + xs[1..];
      KeySetCons(key, xs[0], xs[1..]);
      NothingFresh(key, seen, xs[1..]);
    }
  }

  lemma {:induction false} AllFresh<T>(key: T -> string, seen: set<string>, xs: seq<T>)
    requires NoRepeats(key, xs) && KeySet(key, xs) !! seen
    ensures KeepFirst(key, seen, xs) == xs
    decreases |xs|
  {
    if xs != [] {
      var x, tail := xs[0], xs[1..];
      assert xs == [x] + tail;
      KeySetCons(key, x, tail);
      assert forall i | 0 <= i < |tail| :: key(tail[i]) == key(xs[i + 1]) != key(x);
      AllFresh(key, seen + {key(x)}, tail);
    }
  }

  lemma {:induction false} KeepAppend<T>(key: T -> string, seen: set<string>, xs: seq<T>, ys: seq<T>)
    ensures KeepFirst(key, seen, xs + ys)
         == KeepFirst(key, seen, xs) + KeepFirst(key, seen + KeySet(key, xs), ys)
    decreases |xs|
  {
    if xs == [] {
      assert xs + ys == ys;
      assert seen + KeySet(key, xs) == seen;
    } else {
      var a, tail := key(xs[0]), xs[1..];
      assert (xs + ys)[1..] == tail + ys;
      assert xs == [xs[0]] + tail;
      KeySetCons(key, xs[0], tail);
      if a in seen {
        KeepAppend(key, seen, tail, ys);
        assert seen + KeySet(key, xs) == seen + KeySet(key, tail);
      } else {
        KeepAppend(key, seen + {a}, tail, ys);
        assert seen + KeySet(key, xs) == seen + {a} + KeySet(key, tail);
      }
    }
  }

  /** Filtering by fewer seen keys first makes no difference. */
  lemma {:induction false} KeepOfKeep<T>(key: T -> string, seen: set<string>, fewer: set<string>, xs: seq<T>)
    requires fewer <= seen
    ensures KeepFirst(key, seen, KeepFirst(key, fewer, xs)) == KeepFirst(key, seen, xs)
    decreases |xs|
  {
    if xs != [] {
      var a, tail := key(xs[0]), xs[1..];
      if a in fewer {
        KeepOfKeep(key, seen, fewer, tail);
      } else {
        assert KeepFirst(key, fewer, xs)[1..] == KeepFirst(key, fewer + {a}, tail);
        if a in seen {
          KeepOfKeep(key, seen, fewer + {a}, tail);
        } else {
          KeepOfKeep(key, seen + {a}, fewer + {a}, tail);
        }
      }
    }
  }

  ghost predicate FirstAt<T>(key: T -> string, xs: seq<T>, i: nat)
    requires i < |xs|
  {
    forall j | 0 <= j < i :: key(xs[j]) != key(xs[i])
  }

  /** Exactly the elements that come first among those of their key are kept. */
  lemma {:induction false} KeptExactlyFirst<T>(key: T -> string, xs: seq<T>, x: T)
    ensures x in KeepFirst(key, {}, xs) <==> exists i | 0 <= i < |xs| :: xs[i] == x && FirstAt(key, xs, i)
  {
    if xs != [] {
      var n := |xs| - 1;
      var front, last := xs[..n], xs[n];
      assert xs == front + [last];
      KeepAppend(key, {}, front, [last]);
      assert {} + KeySet(key, front) == KeySet(key, front);
      KeptExactlyFirst(key, front, x);
      assert forall i | 0 <= i < n :: FirstAt(key, front, i) <==> FirstAt(key, xs, i);
      assert last in KeepFirst(key, KeySet(key, front), [last]) <==> key(last) !in KeySet(key, front);
      assert key(last) !in KeySet(key, front) <==> FirstAt(key, xs, n) by {
        assert forall j | 0 <= j < n :: front[j] == xs[j] && front[j] in front;
      }
      assert x in KeepFirst(key, {}, xs) <==>
        x in KeepFirst(key, {}, front) || (x == last && FirstAt(key, xs, n));
    }
  }
}
