/** The bounded set of keys with which the message handlers drop duplicates. It is cleared wholesale. */
module SeenMessages {
  import opened Collections

  const SEEN_MESSAGES_MAX: nat := 10_000

  datatype Seen = Seen(keys: set<string>, accepted: bool)

  /** Inserts a key; the set is cleared as soon as it holds more than the maximum. */
  function See(seen: set<string>, key: string): Seen {
    if key in seen then Seen(seen, false)
    else
      var grown := seen + {key};
      Seen(if |grown| > SEEN_MESSAGES_MAX then {} else grown, true)
  }

  function SeenAfter(keys: seq<string>): set<string> {
    if keys == [] then {} else See(SeenAfter(keys[..|keys| - 1]), keys[|keys| - 1]).keys
  }

  /** Whether the last of the offered keys passed as new. */
  predicate PassesAtEnd(keys: seq<string>)
    requires keys != []
  {
    See(SeenAfter(keys[..|keys| - 1]), keys[|keys| - 1]).accepted
  }

  /** How often a key passed as new. */
  function Passes(keys: seq<string>, key: string): nat {
    if keys == [] then 0
    else Passes(keys[..|keys| - 1], key) + if keys[|keys| - 1] == key && PassesAtEnd(keys) then 1 else 0
  }

  function AllPasses(keys: seq<string>): nat {
    if keys == [] then 0 else AllPasses(keys[..|keys| - 1]) + if PassesAtEnd(keys) then 1 else 0
  }

  /** How often the set was cleared: an accepted key left it empty. */
  function Clears(keys: seq<string>): nat {
    if keys == [] then 0
    else Clears(keys[..|keys| - 1]) + if PassesAtEnd(keys) && SeenAfter(keys) == {} then 1 else 0
  }

  /** The offered keys, cut into blocks that each end with their 10,001st distinct key: the unfinished block. */
  function OpenBlock(keys: seq<string>): seq<string> {
    if keys == [] then []
    else
      var block := OpenBlock(keys[..|keys| - 1]) + [keys[|keys| - 1]];
      if |Elems(block)| > SEEN_MESSAGES_MAX then [] else block
  }

  lemma {:induction false} OpenBlockSmall(keys: seq<string>)
    ensures |Elems(OpenBlock(keys))| <= SEEN_MESSAGES_MAX
  {
    if keys == [] {
      assert OpenBlock(keys) == [];
      assert Elems<string>([]) == {};
    } else {
      assert Elems<string>([]) == {};
    }
  }

  /** The set holds exactly the keys offered since the last clear. */
  lemma {:induction false} SeenIsOpenBlock(keys: seq<string>)
    ensures SeenAfter(keys) == Elems(OpenBlock(keys))
  {
    if keys == [] {
      assert Elems<string>([]) == {};
    } else {
      var front, key := keys[..|keys| - 1], keys[|keys| - 1];
      SeenIsOpenBlock(front);
      OpenBlockSmall(front);
      SnocElems(OpenBlock(front), key);
      assert Elems<string>([]) == {};
    }
  }

  lemma SnocElems(s: seq<string>, x: string)
    ensures Elems(s + [x]) == Elems(s) + {x}
    ensures x in s ==> Elems(s + [x]) == Elems(s)
  {
  }

  /** A key passes exactly if it was not offered since the last clear. */
  lemma PassesExactly(keys: seq<string>, key: string)
    ensures PassesAtEnd(keys + [key]) <==> key !in OpenBlock(keys)
  {
    assert (keys + [key])[..|keys|] == keys;
    SeenIsOpenBlock(keys);
  }

  lemma SetBounded(keys: seq<string>)
    ensures |SeenAfter(keys)| <= 10_000
  {
    SeenIsOpenBlock(keys);
    OpenBlockSmall(keys);
  }

  /** A key passes at most once between two clears. */
  lemma {:induction false} PassesAtMostOncePerClear(keys: seq<string>, key: string)
    ensures Passes(keys, key) <= Clears(keys) + if key in SeenAfter(keys) then 1 else 0
  {
    if keys != [] {
      PassesAtMostOncePerClear(keys[..|keys| - 1], key);
    }
  }

  /** Every accepted key is in the set or was dropped by a clear, and a clear drops 10,001 of them. */
  lemma {:induction false} PassesAccountedFor(keys: seq<string>)
    ensures AllPasses(keys) == 10_001 * Clears(keys) + |SeenAfter(keys)|
  {
    if keys != [] {
      var front, key := keys[..|keys| - 1], keys[|keys| - 1];
      PassesAccountedFor(front);
      SetBounded(front);
      StepAccounts(SeenAfter(front), key);
      hide See;
    }
  }

  /** So the set is cleared on every 10,001st accepted key, whatever the keys are. */
  lemma ClearsCounted(keys: seq<string>)
    ensures Clears(keys) == AllPasses(keys) / (SEEN_MESSAGES_MAX + 1)
    ensures |SeenAfter(keys)| == AllPasses(keys) % (SEEN_MESSAGES_MAX + 1)
  {
    PassesAccountedFor(keys);
    SetBounded(keys);
    assert SEEN_MESSAGES_MAX == 10_000;
    hide *;
    Divided(Clears(keys), |SeenAfter(keys)|);
  }

  lemma Divided(q: nat, r: nat)
    requires r <= SEEN_MESSAGES_MAX
    ensures ((SEEN_MESSAGES_MAX + 1) * q + r) / (SEEN_MESSAGES_MAX + 1) == q
    ensures ((SEEN_MESSAGES_MAX + 1) * q + r) % (SEEN_MESSAGES_MAX + 1) == r
  {
  }

  /** One insertion: the size of the set after it. */
  lemma StepAccounts(seen: set<string>, key: string)
    requires |seen| <= SEEN_MESSAGES_MAX
    ensures var s := See(seen, key);
            && (!s.accepted ==> s.keys == seen)
            && (s.accepted && s.keys == {} ==> |seen| == SEEN_MESSAGES_MAX)
            && (s.accepted && s.keys != {} ==> |s.keys| == |seen| + 1)
  {
  }

  lemma SeeTwice(seen: set<string>, key: string)
    requires |seen| <= SEEN_MESSAGES_MAX && key !in seen
    ensures See(seen, key).accepted
    ensures See(See(seen, key).keys, key).accepted <==> |seen| == SEEN_MESSAGES_MAX
  {
  }

  /** A new key offered twice in a row passes both times exactly if it fills the set: the key that
      triggers a clear is forgotten with the rest. */
  lemma RepeatPassesExactly(keys: seq<string>, key: string)
    requires key !in SeenAfter(keys)
    ensures PassesAtEnd(keys + [key])
    ensures PassesAtEnd(keys + [key, key]) <==> |SeenAfter(keys)| == 10_000
  {
    SetBounded(keys);
    SeeTwice(SeenAfter(keys), key);
    hide See;
    assert (keys + [key])[..|keys|] == keys;
    assert (keys + [key, key])[..|keys| + 1] == keys + [key];
  }
}
