/** The loop of run_seed_sync_cycle, run over a network that may lose exchanges. */
module SyncCycle {
  import opened Collections
  import opened Registry
  import opened SeedSets
  import opened SeedSync
  import opened SyncProtocol

  method List<T(==)>(xs: set<T>) returns (order: seq<T>)
    ensures Enumerates(order, xs)
  {
    order := [];
    var left := xs;
    while left != {}
      invariant left <= xs && Enumerates(order, xs - left)
    {
      var x :| x in left;
      assert x !in Elems(order);
      DistinctAppend(order, x);
      order := order + [x];
      left := left - {x};
    }
  }

  function ToGo(stage: Stage): nat {
    match stage case Idle => 3 case Asked(_) => 2 case Answered(_) => 1 case Done => 0
  }

  function StepsLeft(stage: seq<Stage>): nat {
    if stage == [] then 0 else StepsLeft(stage[1..]) + ToGo(stage[0])
  }

  lemma {:induction false} StepDecreases(stage: seq<Stage>, i: nat, next: Stage)
    requires i < |stage| && ToGo(next) < ToGo(stage[i])
    ensures StepsLeft(stage[i := next]) < StepsLeft(stage)
  {
    if i > 0 {
      StepDecreases(stage[1..], i - 1, next);
      assert stage[i := next][1..] == stage[1..][i - 1 := next];
    } else {
      assert stage[0 := next][1..] == stage[1..];
    }
  }

  function EffectiveMax(maxRounds: nat): nat {
    if maxRounds == 0 then 10 else maxRounds
  }

  /** In a clean cycle before its third round the loop's variables know the hash of what the caller holds. */
  ghost predicate Known(h: Hasher, rounds: nat, pairs: set<Pair>, first: seq<Pair>, p: Progress) {
    && (rounds == 0 ==> p == Progress(0, None))
    && (rounds >= 1 ==> Enumerates(first, NonZero(pairs)) && p == Progress(rounds - 1, Some(New(h, Infos(first), 0).hash)))
  }

  lemma KnownStays(h: Hasher, rounds: nat, pairs: set<Pair>, pairs': set<Pair>, first: seq<Pair>, p: Progress)
    requires Known(h, rounds, pairs, first, p) && (rounds > 0 ==> pairs' == pairs)
    ensures Known(h, rounds, pairs', first, p)
  {
  }

  lemma KnownStep(h: Hasher, rounds: nat, pairs: set<Pair>, first: seq<Pair>, p: Progress, listed: seq<Pair>)
    requires Known(h, rounds, pairs, first, p) && Enumerates(listed, NonZero(pairs))
    ensures var p' := Observe(p, New(h, Infos(listed), 0).hash);
            p'.stable == rounds && Known(h, rounds + 1, pairs, if rounds == 0 then listed else first, p')
  {
    if rounds > 0 {
      DerivedHashDeterministic(h, first, listed);
    }
  }

  class Cluster {
    const caller: Id
    const peers: seq<Id>
    const h: Hasher
    var held: Held

    constructor (caller: Id, peers: seq<Id>, h: Hasher, held: Held)
      ensures this.caller == caller && this.peers == peers && this.h == h && this.held == held
    {
      this.caller, this.peers, this.h, this.held := caller, peers, h, held;
    }

    ghost predicate Covers(held: Held) {
      caller in held && Members(caller, peers) <= held.Keys
    }

    ghost predicate Valid()
      reads this
    {
      Covers(held)
    }

    /** What other messages do meanwhile: any registry may learn anything. */
    method Interfere() returns (ghost quiet: bool)
      requires Valid()
      modifies this`held
      ensures Valid() && Grows(old(held), held)
      ensures quiet ==> held == old(held)
    {
      var learned: Held := *;
      held := map n | n in held :: held[n] + if n in learned then learned[n] else {};
      quiet := held == old(held);
    }

    /** The next event of the exchange with peers[i]: it is lost, never begun, or goes on. */
    method AdvanceSlot(stage: seq<Stage>, i: nat, ghost start: Held, ghost clean: bool)
      returns (next: Stage, ghost stillClean: bool)
      requires Valid() && Members(caller, peers) <= start.Keys
      requires clean ==> RoundInv(Round(held, stage), start, caller, peers)
      requires i < |peers| == |stage| && peers[i] in Elems(peers) && !stage[i].Done?
      modifies this`held
      ensures Valid() && Grows(old(held), held)
      ensures stillClean ==> clean && RoundInv(Round(held, stage[i := next]), start, caller, peers)
      ensures StepsLeft(stage[i := next]) < StepsLeft(stage)
    {
      ghost var before, listed := Round(held, stage), [];
      stillClean := clean;
      if * {
        next, stillClean := Done, false;
        StepDecreases(stage, i, next);
        return;
      }
      match stage[i] {
        case Idle =>
          var order := List(NonZero(held[caller]));
          listed := order;
          next := Asked(Infos(order));
        case Asked(request) =>
          held := held[peers[i] := held[peers[i]] + Parsed(request)];
          var order := List(NonZero(held[peers[i]]));
          listed := order;
          next := Answered(NonLoopback(Infos(order)));
        case Answered(response) =>
          held := held[caller := held[caller] + Parsed(response)];
          next := Done;
      }
      StepDecreases(stage, i, next);
      hide RoundInv;
      if clean {
        AdvanceKeepsInv(before, Round(held, stage[i := next]), i, listed, start, caller, peers);
      }
    }

    /** One round. The exchanges advance in any order; any of them may be lost on the way or cut off by the
        deadline, and other messages may come in between. The round is clean if nothing of the kind happened. */
    method SyncRound() returns (ghost clean: bool)
      requires Valid()
      modifies this`held
      ensures Valid() && Grows(old(held), held)
      ensures clean ==> RoundDone(held, old(held), caller, peers)
    {
      var stage := seq(|peers|, i => Idle);
      RoundStarts(held, stage, caller, peers);
      clean := true;
      while exists i :: 0 <= i < |stage| && !stage[i].Done?
        invariant Valid() && |stage| == |peers| && Grows(old(held), held)
        invariant clean ==> RoundInv(Round(held, stage), old(held), caller, peers)
        decreases StepsLeft(stage)
      {
        hide RoundInv;
        var i :| 0 <= i < |stage| && !stage[i].Done?;
        assert peers[i] in Elems(peers);
        ghost var quiet := Interfere();
        var next;
        next, clean := AdvanceSlot(stage, i, old(held), clean && quiet);
        stage := stage[i := next];
      }
      if clean {
        RoundEnds(Round(held, stage), old(held), caller, peers);
      }
      hide RoundDone;
      ghost var quiet := Interfere();
      clean := clean && quiet;
    }

    method DeriveCaller() returns (s: SeedSet, ghost order: seq<Pair>)
      requires Valid()
      ensures Enumerates(order, NonZero(held[caller])) && s == New(h, Infos(order), 0)
    {
      var listed := List(NonZero(held[caller]));
      order := listed;
      s := New(h, Infos(listed), 0);
    }

    /** What holds of the caller and its peers at the end of round number `rounds` of a clean cycle. */
    ghost predicate AfterRounds(rounds: nat, start: Held)
      reads this
      requires Covers(start)
    {
      var joint := Joint(start, caller, peers);
      && Valid() && Joint(held, caller, peers) == joint
      && (rounds == 0 ==> held == start)
      && (rounds >= 1 ==> held[caller] == start[caller] + joint)
      && (rounds >= 2 ==> Agreement(held, joint, caller, peers))
    }

    /** What the loop has seen of the caller so far. */
    ghost predicate Recorded(start: Held, hashes: seq<Digest>, seen: seq<Sighting>)
      reads this
      requires Covers(start)
    {
      && Valid() && Grows(start, held) && Observed(h, seen, hashes)
      && (seen != [] ==> start[caller] <= seen[0].pairs && seen[|seen| - 1].pairs == held[caller])
    }

    method NextRound(ghost start: Held, ghost clean: bool, ghost hashes: seq<Digest>, ghost seen: seq<Sighting>)
      returns (hash: Digest, ghost order: seq<Pair>, ghost stillClean: bool)
      requires Covers(start)
      requires Recorded(start, hashes, seen) && (clean ==> AfterRounds(|hashes|, start))
      modifies this`held
      ensures Valid() && caller in held && Recorded(start, hashes + [hash], seen + [Sighting(held[caller], order)])
      ensures stillClean ==> clean && AfterRounds(|hashes| + 1, start)
      ensures stillClean && hashes != [] ==> held[caller] == old(held)[caller]
      ensures Enumerates(order, NonZero(held[caller])) && hash == New(h, Infos(order), 0).hash
    {
      ghost var before, rounds := held, |hashes|;
      stillClean := SyncRound();
      stillClean := stillClean && clean;
      if stillClean {
        JointStays(held, before, caller, peers);
        if rounds >= 1 {
          RoundFromFull(held, before, caller, peers);
        }
      }
      var current;
      current, order := DeriveCaller();
      hash := current.hash;
      hide Joint, RoundDone, Agreement, Observed;
      ObservedSnoc(h, seen, hashes, Sighting(held[caller], order));
    }

    /** What holds between two rounds: the record, and that the loop's variables `p` sum up the hashes. */
    ghost predicate LoopOk(start: Held, hashes: seq<Digest>, seen: seq<Sighting>, first: seq<Pair>, p: Progress, clean: bool)
      reads this
      requires Covers(start)
    {
      && Recorded(start, hashes, seen) && ProgressAfter(hashes) == p
      && (clean ==> AfterRounds(|hashes|, start) && Known(h, |hashes|, held[caller], first, p))
    }

    lemma LoopEnds(start: Held, hashes: seq<Digest>, seen: seq<Sighting>, first: seq<Pair>, p: Progress, clean: bool)
      requires Covers(start)
      requires LoopOk(start, hashes, seen, first, p, clean)
      ensures Recorded(start, hashes, seen) && (clean ==> AfterRounds(|hashes|, start))
    {
    }

    /** One pass of the loop, up to the test whether to stop. */
    method LoopStep(stableRounds: nat, prevHash: Option<Digest>, ghost start: Held, ghost hashes: seq<Digest>,
                    ghost seen: seq<Sighting>, ghost first: seq<Pair>, ghost clean: bool)
      returns (hash: Digest, stable: nat, prev: Option<Digest>, ghost seen': seq<Sighting>, ghost first': seq<Pair>,
               ghost stillClean: bool)
      requires Covers(start) && Running(hashes)
      requires LoopOk(start, hashes, seen, first, Progress(stableRounds, prevHash), clean)
      modifies this`held
      ensures Valid() && |seen'| == |seen| + 1
      ensures LoopOk(start, hashes + [hash], seen', first', Progress(stable, prev), stillClean)
      ensures stillClean ==> clean && stable == |hashes|
      ensures if stable < STABLE_ROUNDS_REQUIRED then Running(hashes + [hash]) else StopsAt(hashes + [hash], |hashes| + 1)
    {
      ghost var p, was := Progress(stableRounds, prevHash), held[caller];
      hide Recorded, ProgressAfter, AfterRounds, Known, Running, StopsAt, New, Enumerates, NonZero;
      ghost var order;
      hash, order, stillClean := NextRound(start, clean, hashes, seen);
      seen', first' := seen + [Sighting(held[caller], order)], if hashes == [] then order else first;
      if stillClean {
        KnownStays(h, |hashes|, was, held[caller], first, p);
        KnownStep(h, |hashes|, held[caller], first, p, order);
      }
      NextHash(hashes, hash);
      stable, prev := stableRounds, prevHash;
      if prev == Some(hash) {
        stable := stable + 1;
      } else {
        stable, prev := 0, Some(hash);
      }
    }

    /** The cycle. Its deadline is an oracle asked at the head of every round. Whatever is lost or comes in
        between, the registries only grow, and the loop stops at exactly the first round whose hash equals those
        of the two rounds before. If every round is clean, it converges after round three and not otherwise,
        and caller and peers agree from round two on. */
    method RunSeedSyncCycle(maxRounds: nat, inTime: nat -> bool)
      returns (result: SeedSet, converged: bool, rounds: nat, hashes: seq<Digest>,
               ghost order: seq<Pair>, ghost seen: seq<Sighting>, ghost clean: bool)
      requires Valid()
      modifies this`held
      ensures Recorded(old(held), hashes, seen) && |hashes| == |seen| == rounds <= (if maxRounds == 0 then 10 else maxRounds)
      ensures Enumerates(order, NonZero(held[caller])) && result == New(h, Infos(order), 0)
      ensures peers == [] ==> rounds == 0 && converged && held == old(held)
      ensures peers != [] && converged ==> StopsAt(hashes, rounds)
      ensures peers != [] && !converged ==> Running(hashes) && (rounds == (if maxRounds == 0 then 10 else maxRounds) || !inTime(rounds))
      ensures clean ==> AfterRounds(rounds, old(held))
      ensures clean && peers != [] ==> if converged then rounds == 3 else rounds < 3
    {
      rounds, hashes, converged, clean, seen := 0, [], true, true, [];
      ghost var start, first := held, [];
      assert Recorded(start, hashes, seen) && AfterRounds(0, start);
      assert LoopOk(start, hashes, seen, first, Progress(0, None), clean) && Running(hashes);
      hide ProgressAfter, Agreement, StopsAt, Joint, Running, Recorded, AfterRounds, Known, New, Enumerates, NonZero;
      hide Members, Infos, Grows, Observed, LoopOk, Covers;
      if peers == [] {
        result, order := DeriveCaller();
        return;
      }
      var effectiveMax := EffectiveMax(maxRounds);
      var stableRounds: nat, prevHash := 0, None;
      while inTime(rounds) && rounds < effectiveMax
        invariant Valid() && |hashes| == |seen| == rounds <= effectiveMax && Running(hashes)
        invariant LoopOk(start, hashes, seen, first, Progress(stableRounds, prevHash), clean)
        invariant clean ==> rounds < 3
        decreases effectiveMax - rounds
      {
        var hash;
        hash, stableRounds, prevHash, seen, first, clean := LoopStep(stableRounds, prevHash, start, hashes, seen, first, clean);
        rounds, hashes := rounds + 1, hashes + [hash];
        if stableRounds >= STABLE_ROUNDS_REQUIRED {
          LoopEnds(start, hashes, seen, first, Progress(stableRounds, prevHash), clean);
          result, order := DeriveCaller();
          return;
        }
      }
      converged := false;
      LoopEnds(start, hashes, seen, first, Progress(stableRounds, prevHash), clean);
      result, order := DeriveCaller();
    }
  }

  ghost predicate Grows(before: Held, after: Held) {
    before.Keys == after.Keys && forall n | n in before :: before[n] <= after[n]
  }
}
