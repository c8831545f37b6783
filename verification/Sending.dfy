/** To which connections the send handler hands a chat message, and when it counts as sent. */
module Sending {
  import opened Collections
  import opened Net

  /** A connection as the manager lists it. `peer` is the address stored in its context, if it could be read. */
  datatype Entry = Entry(addr: SocketAddr, hasContext: bool, peer: Option<string>, node: Option<string>)

  /** One call of `send_text_message`, and how it went. */
  datatype Attempt = Attempt(addr: SocketAddr, ok: bool)

  type Network = nat -> bool

  /** Without known sockets of the target everybody is addressed. */
  predicate Matches(e: Entry, targets: seq<SocketAddr>, to: string) {
    targets == [] || e.addr in targets || e.peer == Some(to)
  }

  /** The entries at which the fallback really sends, in order. `seen` holds the nodes already met. */
  function Recipients(entries: seq<Entry>, targets: seq<SocketAddr>, to: string, seen: set<string>): seq<Entry> {
    if entries == [] then []
    else
      var e := entries[0];
      if !Matches(e, targets, to) || (e.node.Some? && e.node.value in seen) then Recipients(entries[1..], targets, to, seen)
      else
        (if e.hasContext then [e] else [])
        + Recipients(entries[1..], targets, to, if e.node.Some? then seen + {e.node.value} else seen)
  }

  /** The k-th attempt from `from` on goes to the k-th recipient; the network decides how it goes. */
  function Attempts(rs: seq<Entry>, network: Network, from: nat): (r: seq<Attempt>)
    ensures |r| == |rs|
    ensures forall k | 0 <= k < |rs| :: r[k] == Attempt(rs[k].addr, network(from + k))
  {
    seq(|rs|, k requires 0 <= k < |rs| => Attempt(rs[k].addr, network(from + k)))
  }

  /** The connections the target's sockets lead to. */
  function Direct(targets: seq<SocketAddr>, find: SocketAddr -> Option<Entry>): seq<Entry> {
    if targets == [] then []
    else
      var rest := Direct(targets[1..], find);
      match find(targets[0])
      case Some(e) => if e.hasContext then [e] + rest else rest
      case None => rest
  }

  /** The known sockets are looked up one by one, in order; each one with a connection and a context counts once. */
  lemma {:induction false} DirectAppend(targets: seq<SocketAddr>, more: seq<SocketAddr>, find: SocketAddr -> Option<Entry>)
    ensures Direct(targets + more, find) == Direct(targets, find) + Direct(more, find)
  {
    if targets == [] {
      assert targets + more == more;
    } else {
      assert (targets + more)[0] == targets[0] && (targets + more)[1..] == targets[1..] + more;
      DirectHead(targets, find);
      DirectHead(targets + more, find);
      DirectAppend(targets[1..], more, find);
      hide Direct;
      AppendAssociative(Direct([targets[0]], find), Direct(targets[1..], find), Direct(more, find));
    }
  }

  lemma DirectHead(targets: seq<SocketAddr>, find: SocketAddr -> Option<Entry>)
    requires targets != []
    ensures Direct(targets, find) == Direct([targets[0]], find) + Direct(targets[1..], find)
  {
    DirectOne(targets[0], find);
    var rest := Direct(targets[1..], find);
    assert [] + rest == rest;
  }

  lemma DirectOne(target: SocketAddr, find: SocketAddr -> Option<Entry>)
    ensures Direct([target], find) == if find(target).Some? && find(target).value.hasContext then [find(target).value] else []
  {
    assert [target][1..] == [];
  }

  lemma {:induction false} DirectExactly(targets: seq<SocketAddr>, find: SocketAddr -> Option<Entry>, e: Entry)
    ensures e in Direct(targets, find) <==> e.hasContext && exists i | 0 <= i < |targets| :: find(targets[i]) == Some(e)
  {
    if targets != [] {
      var front, last := targets[..|targets| - 1], targets[|targets| - 1];
      assert targets == front + [last];
      DirectAppend(front, [last], find);
      DirectOne(last, find);
      DirectExactly(front, find, e);
      hide Direct;
      assert forall i | 0 <= i < |front| :: front[i] == targets[i];
    }
  }

  predicate AnyOk(attempts: seq<Attempt>) {
    exists a | a in attempts :: a.ok
  }

  /** How many direct attempts are made: up to the first that succeeds. */
  function UntilOk(attempts: seq<Attempt>): (n: nat)
    ensures n <= |attempts|
  {
    if attempts == [] then 0 else if attempts[0].ok then 1 else 1 + UntilOk(attempts[1..])
  }

  /** Of all attempts to be made, these were made, and those at `rs` are left. */
  predicate Remaining(all: seq<Attempt>, made: seq<Attempt>, rs: seq<Entry>, network: Network, from: nat) {
    all == made + Attempts(rs, network, from + |made|)
  }

  lemma NextAttempt(all: seq<Attempt>, made: seq<Attempt>, e: Entry, rest: seq<Entry>, network: Network, from: nat)
    requires Remaining(all, made, [e] + rest, network, from)
    ensures Remaining(all, made + [Attempt(e.addr, network(from + |made|))], rest, network, from)
  {
    var k, a := from + |made|, Attempt(e.addr, network(from + |made|));
    assert Attempts([e] + rest, network, k) == [a] + Attempts(rest, network, k + 1);
    hide Attempts;
    AppendAssociative(made, [a], Attempts(rest, network, k + 1));
  }

  lemma AllMade(all: seq<Attempt>, made: seq<Attempt>, network: Network, from: nat)
    requires Remaining(all, made, [], network, from)
    ensures all == made
  {
  }

  lemma NoneMade(rs: seq<Entry>, network: Network, from: nat)
    ensures Remaining(Attempts(rs, network, from), [], rs, network, from) && !AnyOk([])
  {
  }

  method SendDirect(targets: seq<SocketAddr>, find: SocketAddr -> Option<Entry>, network: Network)
    returns (attempts: seq<Attempt>, succeeded: bool)
    ensures var all := Attempts(Direct(targets, find), network, 0); attempts == all[..UntilOk(all)]
    ensures succeeded <==> AnyOk(attempts)
    ensures forall i | 0 <= i < |attempts| - 1 :: !attempts[i].ok
  {
    hide Attempts, Remaining, Direct, UntilOk, AnyOk;
    attempts, succeeded := [], false;
    ghost var all := Attempts(Direct(targets, find), network, 0);
    NoneMade(Direct(targets, find), network, 0);
    assert targets[0..] == targets;
    var i := 0;
    while i < |targets|
      invariant 0 <= i <= |targets| && !succeeded
      invariant Remaining(all, attempts, Direct(targets[i..], find), network, 0)
      invariant !AnyOk(attempts)
    {
      DirectFrom(targets, find, i);
      var entry := find(targets[i]);
      i := i + 1;
      if entry.Some? && entry.value.hasContext {
        NextAttempt(all, attempts, entry.value, Direct(targets[i..], find), network, 0);
        var ok := network(|attempts|);
        var made := attempts + [Attempt(entry.value.addr, ok)];
        AnyOkSnoc(attempts, Attempt(entry.value.addr, ok));
        if ok {
          FirstOk(all, attempts, Attempt(entry.value.addr, ok), Direct(targets[i..], find), network, 0);
          return made, true;
        }
        attempts := made;
      }
    }
    NoDirect(targets, find);
    AllMade(all, attempts, network, 0);
    NoneOk(all);
  }

  lemma DirectFrom(targets: seq<SocketAddr>, find: SocketAddr -> Option<Entry>, i: nat)
    requires i < |targets|
    ensures var e, rest := find(targets[i]), Direct(targets[i + 1..], find);
            Direct(targets[i..], find) == if e.Some? && e.value.hasContext then [e.value] + rest else rest
  {
    assert targets[i..][1..] == targets[i + 1..];
  }

  lemma NoDirect(targets: seq<SocketAddr>, find: SocketAddr -> Option<Entry>)
    ensures Direct(targets[|targets|..], find) == []
  {
  }

  /** With the first success the attempts made are those up to the first success of all. */
  lemma FirstOk(all: seq<Attempt>, failed: seq<Attempt>, a: Attempt, rest: seq<Entry>, network: Network, from: nat)
    requires Remaining(all, failed + [a], rest, network, from) && a.ok && !AnyOk(failed)
    ensures failed + [a] == all[..UntilOk(all)]
    ensures forall i | 0 <= i < |failed| :: !(failed + [a])[i].ok
  {
    hide Attempts;
    forall i | 0 <= i < |failed|
      ensures !all[i].ok
    {
      assert failed[i] == (failed + [a])[i] == all[i] && failed[i] in failed;
    }
    assert all[|failed|] == (failed + [a])[|failed|];
    FirstOkAt(all, |failed|);
  }

  lemma {:induction false} FirstOkAt(all: seq<Attempt>, k: nat)
    requires k < |all| && all[k].ok && forall i | 0 <= i < k :: !all[i].ok
    ensures UntilOk(all) == k + 1
  {
    if k > 0 {
      FirstOkAt(all[1..], k - 1);
    }
  }

  lemma {:induction false} NoneOk(all: seq<Attempt>)
    requires !AnyOk(all)
    ensures UntilOk(all) == |all| && all[..UntilOk(all)] == all
    ensures forall i | 0 <= i < |all| :: !all[i].ok
  {
    assert forall i | 0 <= i < |all| :: all[i] in all;
    if all != [] {
      assert forall a | a in all[1..] :: a in all;
      NoneOk(all[1..]);
    }
  }

  method SendToMatching(entries: seq<Entry>, targets: seq<SocketAddr>, to: string, network: Network, from: nat)
    returns (attempts: seq<Attempt>, succeeded: bool)
    ensures attempts == Attempts(Recipients(entries, targets, to, {}), network, from)
    ensures succeeded <==> AnyOk(attempts)
  {
    hide Attempts, Remaining, AnyOk, Recipients;
    attempts, succeeded := [], false;
    var sentNodes: set<string> := {};
    ghost var all := Attempts(Recipients(entries, targets, to, {}), network, from);
    NoneMade(Recipients(entries, targets, to, {}), network, from);
    var i := 0;
    while i < |entries|
      invariant 0 <= i <= |entries|
      invariant Remaining(all, attempts, Recipients(entries[i..], targets, to, sentNodes), network, from)
      invariant succeeded <==> AnyOk(attempts)
    {
      var e := entries[i];
      assert entries[i..][0] == e && entries[i..][1..] == entries[i + 1..];
      ghost var met := if Matches(e, targets, to) && e.node.Some? then sentNodes + {e.node.value} else sentNodes;
      MetNodes(entries[i..], targets, to, sentNodes, met);
      i := i + 1;
      ghost var rest := Recipients(entries[i..], targets, to, met);
      assert [] + rest == rest;
      if targets != [] && e.addr !in targets && e.peer != Some(to) {
        continue;
      }
      if e.node.Some? {
        if e.node.value in sentNodes {
          assert met == sentNodes;
          continue;
        }
        sentNodes := sentNodes + {e.node.value};
      }
      if e.hasContext {
        NextAttempt(all, attempts, e, rest, network, from);
        var ok := network(from + |attempts|);
        AnyOkSnoc(attempts, Attempt(e.addr, ok));
        attempts := attempts + [Attempt(e.addr, ok)];
        if ok {
          succeeded := true;
        }
      }
    }
    NoRecipients(targets, to, sentNodes);
    assert entries[i..] == [];
    AllMade(all, attempts, network, from);
  }

  lemma NoRecipients(targets: seq<SocketAddr>, to: string, seen: set<string>)
    ensures Recipients([], targets, to, seen) == []
  {
  }

  lemma AnyOkSnoc(attempts: seq<Attempt>, a: Attempt)
    ensures AnyOk(attempts + [a]) <==> AnyOk(attempts) || a.ok
  {
    assert a in attempts + [a];
    assert forall x | x in attempts :: x in attempts + [a];
  }

  lemma SomeDirect(targets: seq<SocketAddr>, find: SocketAddr -> Option<Entry>)
    ensures (exists i | 0 <= i < |targets| :: find(targets[i]).Some? && find(targets[i]).value.hasContext)
       <==> Direct(targets, find) != []
  {
    if i :| 0 <= i < |targets| && find(targets[i]).Some? && find(targets[i]).value.hasContext {
      DirectExactly(targets, find, find(targets[i]).value);
    }
    if Direct(targets, find) != [] {
      DirectExactly(targets, find, Direct(targets, find)[0]);
    }
  }

  /** The send counts as done exactly if some attempt succeeded. Direct connections come first and end with the
      first success; only if none succeeds does every matching connection get a copy, each node at most one. */
  method SendChat(to: string, targets: seq<SocketAddr>, find: SocketAddr -> Option<Entry>, entries: seq<Entry>, network: Network)
    returns (direct: seq<Attempt>, fallback: seq<Attempt>, sentOk: bool)
    ensures sentOk <==> AnyOk(direct) || AnyOk(fallback)
    ensures var all := Attempts(Direct(targets, find), network, 0); direct == all[..UntilOk(all)]
    ensures fallback == if AnyOk(direct) then [] else Attempts(Recipients(entries, targets, to, {}), network, |direct|)
    ensures (exists i | 0 <= i < |targets| :: find(targets[i]).Some? && find(targets[i]).value.hasContext) && network(0)
        ==> |direct| == 1 && direct[0].ok && fallback == [] && sentOk
    ensures (forall k :: network(k)) && Direct(targets, find) != [] ==>
              direct == [Attempt(Direct(targets, find)[0].addr, true)] && fallback == []
    ensures (forall k :: !network(k)) ==> !sentOk && |direct| == |Direct(targets, find)|
  {
    SomeDirect(targets, find);
    if forall k :: !network(k) {
      NoneOk(Attempts(Direct(targets, find), network, 0));
    }
    fallback := [];
    direct, sentOk := SendDirect(targets, find, network);
    if !sentOk {
      fallback, sentOk := SendToMatching(entries, targets, to, network, |direct|);
    }
  }

  // ---------------------------------------------------------------- who gets a copy

  /** No earlier matching entry, with or without a context, belongs to the same known node. */
  predicate FirstOfNode(entries: seq<Entry>, targets: seq<SocketAddr>, to: string, seen: set<string>, i: nat)
    requires i < |entries|
  {
    entries[i].node.Some? ==>
      entries[i].node.value !in seen
      && forall j | 0 <= j < i :: !(Matches(entries[j], targets, to) && entries[j].node == entries[i].node)
  }

  /** The fallback sends at exactly the matching entries with a context that are the first of their node. An
      entry without a context still uses up its node. */
  lemma {:induction false} RecipientsExactly(entries: seq<Entry>, targets: seq<SocketAddr>, to: string, seen: set<string>, e: Entry)
    ensures e in Recipients(entries, targets, to, seen)
       <==> exists i | 0 <= i < |entries| ::
              && entries[i] == e && e.hasContext && (targets == [] || e.addr in targets || e.peer == Some(to))
              && FirstOfNode(entries, targets, to, seen, i)
    decreases |entries|
  {
    if entries != [] {
      var head, rest := entries[0], entries[1..];
      var met := if Matches(head, targets, to) && head.node.Some? then seen + {head.node.value} else seen;
      MetNodes(entries, targets, to, seen, met);
      assert e in Recipients(entries, targets, to, seen)
        <==> e in Recipients(rest, targets, to, met)
             || (e == head && Matches(e, targets, to) && e.hasContext && FirstOfNode(entries, targets, to, seen, 0));
      RecipientsExactly(rest, targets, to, met, e);
      forall i | 0 <= i < |rest|
        ensures FirstOfNode(rest, targets, to, met, i) <==> FirstOfNode(entries, targets, to, seen, i + 1)
      {
        FirstInRest(entries, targets, to, seen, met, i);
      }
      assert forall i | 0 <= i < |rest| :: rest[i] == entries[i + 1];
      if i :| 0 <= i < |entries| && entries[i] == e && Matches(e, targets, to) && e.hasContext
              && FirstOfNode(entries, targets, to, seen, i) {
        if i > 0 {
          assert rest[i - 1] == e && FirstOfNode(rest, targets, to, met, i - 1);
        }
      }
    }
  }

  /** One step down the list. */
  lemma MetNodes(entries: seq<Entry>, targets: seq<SocketAddr>, to: string, seen: set<string>, met: set<string>)
    requires entries != []
    requires met == if Matches(entries[0], targets, to) && entries[0].node.Some? then seen + {entries[0].node.value} else seen
    ensures Recipients(entries, targets, to, seen)
         == (if Matches(entries[0], targets, to) && entries[0].hasContext && (entries[0].node.Some? ==> entries[0].node.value !in seen)
             then [entries[0]] else [])
            + Recipients(entries[1..], targets, to, met)
  {
    var e := entries[0];
    if e.node.Some? && e.node.value in seen {
      assert seen + {e.node.value} == seen;
    }
    hide Matches;
  }

  lemma FirstInRest(entries: seq<Entry>, targets: seq<SocketAddr>, to: string, seen: set<string>, met: set<string>, i: nat)
    requires i + 1 < |entries|
    requires met == if Matches(entries[0], targets, to) && entries[0].node.Some? then seen + {entries[0].node.value} else seen
    ensures FirstOfNode(entries[1..], targets, to, met, i) <==> FirstOfNode(entries, targets, to, seen, i + 1)
  {
    hide Matches;
    var rest := entries[1..];
    assert forall j | 0 <= j < |rest| :: rest[j] == entries[j + 1];
    if FirstOfNode(rest, targets, to, met, i) && entries[i + 1].node.Some? {
      forall j | 0 <= j < i + 1
        ensures !(Matches(entries[j], targets, to) && entries[j].node == entries[i + 1].node)
      {
        if j > 0 {
          assert rest[j - 1] == entries[j];
        }
      }
    }
  }

  /** The nodes of the matching entries. */
  function MetIn(entries: seq<Entry>, targets: seq<SocketAddr>, to: string): set<string> {
    set e | e in entries && (targets == [] || e.addr in targets || e.peer == Some(to)) && e.node.Some? :: e.node.value
  }

  lemma MetInCons(e: Entry, rest: seq<Entry>, targets: seq<SocketAddr>, to: string)
    ensures MetIn([e] + rest, targets, to)
         == (if (targets == [] || e.addr in targets || e.peer == Some(to)) && e.node.Some? then {e.node.value} else {})
            + MetIn(rest, targets, to)
  {
  }

  /** The order of the connections is kept, and what came before matters only by the nodes it met. */
  lemma {:induction false} RecipientsAppend(entries: seq<Entry>, more: seq<Entry>, targets: seq<SocketAddr>, to: string, seen: set<string>)
    ensures Recipients(entries + more, targets, to, seen)
         == Recipients(entries, targets, to, seen) + Recipients(more, targets, to, seen + MetIn(entries, targets, to))
    decreases |entries|
  {
    if entries == [] {
      assert entries + more == more && MetIn(entries, targets, to) == {};
      assert seen + {} == seen;
    } else {
      var e, rest := entries[0], entries[1..];
      assert entries == [e] + rest && (entries + more)[0] == e && (entries + more)[1..] == rest + more;
      var met := if Matches(e, targets, to) && e.node.Some? then seen + {e.node.value} else seen;
      MetNodes(entries, targets, to, seen, met);
      MetNodes(entries + more, targets, to, seen, met);
      MetInCons(e, rest, targets, to);
      RecipientsAppend(rest, more, targets, to, met);
      var late := seen + MetIn(entries, targets, to);
      assert met + MetIn(rest, targets, to) == late;
      var first := if Matches(e, targets, to) && (e.node.Some? ==> e.node.value !in seen) && e.hasContext then [e] else [];
      assert Recipients(entries, targets, to, seen) == first + Recipients(rest, targets, to, met);
      assert Recipients(entries + more, targets, to, seen) == first + Recipients(rest + more, targets, to, met);
      hide Recipients, MetIn, Matches;
      AppendAssociative(first, Recipients(rest, targets, to, met), Recipients(more, targets, to, late));
    }
  }

  /** No node gets two copies from the fallback. */
  lemma {:induction false} NodesOnce(entries: seq<Entry>, targets: seq<SocketAddr>, to: string, seen: set<string>)
    ensures var rs := Recipients(entries, targets, to, seen);
            && (forall i, j | 0 <= i < j < |rs| :: rs[i].node.Some? ==> rs[i].node != rs[j].node)
            && (forall i | 0 <= i < |rs| :: rs[i].node.Some? ==> rs[i].node.value !in seen)
    decreases |entries|
  {
    if entries != [] {
      var e := entries[0];
      var met := if Matches(e, targets, to) && e.node.Some? then seen + {e.node.value} else seen;
      MetNodes(entries, targets, to, seen, met);
      NodesOnce(entries[1..], targets, to, met);
      hide Matches, Recipients;
      var rs, more := Recipients(entries, targets, to, seen), Recipients(entries[1..], targets, to, met);
      assert forall i | 0 <= i < |more| :: more[i].node.Some? ==> more[i].node.value !in seen;
      if rs == [e] + more {
        assert forall j | 0 < j < |rs| :: rs[j] == more[j - 1];
      }
    }
  }
}
