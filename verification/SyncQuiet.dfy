/** Seed synchronisation with any number of callers at once: learning ends, and where it has ended along a
    connected graph of requests, everybody holds everything. */
module SyncQuiet {
  import opened Collections
  import opened Registry
  import opened SeedSets
  import opened SeedSync
  import opened SyncProtocol

  // ---------------------------------------------------------------- learning ends

  /** How many of the first k events taught a node something. */
  function Changes(worlds: seq<World>, n: Id, k: nat): nat
    requires k < |worlds| && forall i | 0 <= i < |worlds| :: n in worlds[i].held
  {
    if k == 0 then 0 else Changes(worlds, n, k - 1) + if worlds[k].held[n] != worlds[k - 1].held[n] then 1 else 0
  }

  /** Every change of a registry takes up one of the finitely many pairs that exist. */
  lemma {:induction false} ChangesBounded(worlds: seq<World>, events: seq<Event>, n: Id, k: nat)
    requires IsRun(worlds, events) && k < |worlds| && worlds[0].flight == multiset{}
    requires forall i | 0 <= i < |worlds| :: n in worlds[i].held
    ensures Changes(worlds, n, k) + |worlds[0].held[n]| <= |worlds[k].held[n]| <= |Everything(worlds[0].held)|
  {
    NothingInventedNothingLost(worlds, events, k);
    hide IsRun, Everything;
    SubsetSize(worlds[k].held[n], Everything(worlds[0].held));
    if k > 0 {
      ChangesBounded(worlds, events, n, k - 1);
      SubsetSize(worlds[k - 1].held[n], worlds[k].held[n]);
    }
  }

  // ---------------------------------------------------------------- when nothing is left to learn

  /** A request from a to b, and its answer, would teach neither of them anything. */
  predicate Settled(held: Held, a: Id, b: Id)
    requires a in held && b in held
  {
    Sendable(held[a]) <= held[b] && Syncable(held[b]) <= held[a]
  }

  /** Settled is what the handlers make of it: delivering the request changes nothing at b, and delivering b's
      answer changes nothing at a. */
  lemma SettledExactly(held: Held, a: Id, b: Id, asked: seq<Pair>, answered: seq<Pair>)
    requires a in held && b in held
    requires Enumerates(asked, NonZero(held[a]))
    requires Enumerates(answered, NonZero(held[b] + Parsed(Infos(asked))))
    ensures Settled(held, a, b)
       <==> && held[b] + Parsed(Infos(asked)) == held[b]
            && held[a] + Parsed(NonLoopback(Infos(answered))) == held[a]
  {
    ParsedInfos(asked, held[a]);
    ParsedAnswer(answered, held[b] + Parsed(Infos(asked)));
    hide Parsed, Infos, NonLoopback, NonZero, Sendable, Syncable;
    assert Sendable(held[a]) <= held[b] <==> held[b] + Sendable(held[a]) == held[b];
  }

  lemma SettledAgree(held: Held, a: Id, b: Id)
    requires a in held && b in held && Settled(held, a, b)
    ensures Syncable(held[a]) == Syncable(held[b])
  {
  }

  /** A way from one node to another along requests, in either direction. */
  predicate IsPath(edges: set<(Id, Id)>, path: seq<Id>) {
    && path != []
    && forall i | 0 <= i < |path| - 1 :: (path[i], path[i + 1]) in edges || (path[i + 1], path[i]) in edges
  }

  ghost predicate Connected(nodes: set<Id>, edges: set<(Id, Id)>) {
    forall a, b | a in nodes && b in nodes ::
      exists path :: IsPath(edges, path) && path[0] == a && path[|path| - 1] == b
  }

  ghost predicate AllSettled(held: Held, edges: set<(Id, Id)>) {
    forall e | e in edges :: e.0 in held && e.1 in held && Settled(held, e.0, e.1)
  }

  lemma {:induction false} PathAgrees(held: Held, edges: set<(Id, Id)>, path: seq<Id>)
    requires AllSettled(held, edges) && IsPath(edges, path) && path[0] in held
    ensures path[|path| - 1] in held && Syncable(held[path[|path| - 1]]) == Syncable(held[path[0]])
  {
    if |path| > 1 {
      var front := path[..|path| - 1];
      PathAgrees(held, edges, front);
      var x, y := front[|front| - 1], path[|path| - 1];
      assert x == path[|path| - 2] && y == path[|path| - 2 + 1];
      hide Settled;
      if (x, y) in edges {
        SettledAgree(held, x, y);
      } else {
        SettledAgree(held, y, x);
      }
    }
  }

  lemma SyncableOfAll(held: Held, start: Held, n: Id)
    requires held.Keys == start.Keys && n in held
    requires forall m | m in start :: start[m] <= held[m] && Syncable(held[m]) == Syncable(held[n])
    requires held[n] <= Everything(start)
    ensures Syncable(held[n]) == Syncable(Everything(start))
  {
    forall p | p in Syncable(Everything(start))
      ensures p in Syncable(held[n])
    {
      var m :| m in start && p in start[m];
      assert p in Syncable(held[m]);
    }
  }

  /** Whatever requests, answers and announcements of whatever nodes were exchanged or lost: once no request along
      a connected graph would teach anything, every node holds the same pairs of the kind that travels, namely
      all that any node held at the start. */
  lemma QuietAgrees(worlds: seq<World>, events: seq<Event>, i: nat, edges: set<(Id, Id)>, n: Id)
    requires IsRun(worlds, events) && i < |worlds| && worlds[0].flight == multiset{}
    requires Connected(worlds[0].held.Keys, edges) && AllSettled(worlds[i].held, edges)
    requires n in worlds[0].held
    ensures n in worlds[i].held && Syncable(worlds[i].held[n]) == Syncable(Everything(worlds[0].held))
  {
    NothingInventedNothingLost(worlds, events, i);
    var held, start := worlds[i].held, worlds[0].held;
    hide IsRun, Everything, Syncable, Settled;
    forall m | m in start
      ensures Syncable(held[m]) == Syncable(held[n])
    {
      var path :| IsPath(edges, path) && path[0] == n && path[|path| - 1] == m;
      PathAgrees(held, edges, path);
    }
    SyncableOfAll(held, start, n);
  }
}
