/** What a preparation can reuse, and why it fails. */
module PreparationReasons {
  import opened Prelude
  import opened CacheAddress
  import opened CacheStore
  import opened CacheRecords
  import opened CacheCollection
  import opened CacheOperations
  import opened ArtifactPolicy
  import opened ArtifactSelection
  import opened ArtifactInspection
  import opened FullSelection
  import opened Wire
  import opened Transport
  import opened Packing
  import opened Installation
  import opened PreparedResponse
  import opened PreparationRequest
  import opened ArtifactCreation
  import opened TargetPreparation

  // ---------- exhaustion ----------

  ghost predicate AnyExhausted(w: World, policies: seq<TargetPolicy>, now: nat, artifacts: Artifacts)
  {
    exists j | 0 <= j < |policies| :: Exhausted(w, policies[j], now, artifacts)
  }

  ghost predicate NoneExhausted(w: World, policies: seq<TargetPolicy>, now: nat, artifacts: Artifacts, i: nat)
    requires i <= |policies|
  {
    i == 0 || (NoneExhausted(w, policies, now, artifacts, i - 1) && !Exhausted(w, policies[i - 1], now, artifacts))
  }

  lemma {:induction false} NoneExhaustedAt(w: World, policies: seq<TargetPolicy>, now: nat, artifacts: Artifacts, i: nat, j: nat)
    requires j < i <= |policies| && NoneExhausted(w, policies, now, artifacts, i)
    ensures !Exhausted(w, policies[j], now, artifacts)
  {
    if j < i - 1 {
      NoneExhaustedAt(w, policies, now, artifacts, i - 1, j);
    }
  }

  lemma ExhaustionStays(w: World, policy: TargetPolicy, now: nat, before: Artifacts, after: Artifacts)
    requires PartOf(before, after) && Exhausted(w, policy, now, before)
    ensures Exhausted(w, policy, now, after)
  {
    var v := ViewOf(w, policy, now).value;
    var k, id, g: nat :| VerifiesIn(v, before, k, id, g) && g >= U64_MAX;
    VerifiesByEntry(v, before, after, k, id, g);
  }

  // ---------- what was there before ----------

  /** How many secrets of the first `i` targets a cache has verified artifacts for. */
  ghost function SuppliedTo(w: World, policies: seq<TargetPolicy>, now: nat, artifacts: Artifacts, i: nat): (n: nat)
    requires i <= |policies|
  {
    if i == 0 then 0 else SuppliedTo(w, policies, now, artifacts, i - 1) + SuppliedCount(w, policies[i - 1], now, artifacts)
  }

  lemma SuppliedCountIs(w: World, policy: TargetPolicy, now: nat, artifacts: Artifacts)
    requires ViewOf(w, policy, now).Some?
    ensures SuppliedCount(w, policy, now, artifacts) <= |policy.secrets|
    ensures SuppliedCount(w, policy, now, artifacts) == |policy.secrets| <==> Provided(w, policy, now, artifacts)
  {
    var ids := SuppliedIds(w, policy, now, artifacts);
    SameCount(ids, policy.secrets.Keys);
    assert |policy.secrets| == |policy.secrets.Keys| && policy.secrets.Keys == ids + (policy.secrets.Keys - ids);
  }

  ghost predicate AllViewed(w: World, policies: seq<TargetPolicy>, now: nat, i: nat)
    requires i <= |policies|
  {
    i == 0 || (AllViewed(w, policies, now, i - 1) && ViewOf(w, policies[i - 1], now).Some?)
  }

  /** Counting what can be reused shows whether anything is missing. */
  lemma {:induction false} SuppliedDecides(w: World, policies: seq<TargetPolicy>, now: nat, artifacts: Artifacts, i: nat)
    requires i <= |policies| && AllViewed(w, policies, now, i)
    ensures SuppliedTo(w, policies, now, artifacts, i) <= SecretsIn(policies, i)
    ensures SuppliedTo(w, policies, now, artifacts, i) == SecretsIn(policies, i) <==> AllWithin(w, policies, artifacts, now, i)
  {
    if i > 0 {
      SuppliedDecides(w, policies, now, artifacts, i - 1);
      SuppliedCountIs(w, policies[i - 1], now, artifacts);
    }
  }

  lemma {:induction false} PreparableIsViewed(w: World, worker: Worker, policies: seq<TargetPolicy>, now: nat, artifacts: Artifacts, i: nat)
    requires i <= |policies| && AllPreparable(w, worker, policies, now, artifacts, i)
    ensures AllViewed(w, policies, now, i)
  {
    if i > 0 {
      PreparableIsViewed(w, worker, policies, now, artifacts, i - 1);
    }
  }

  /** Every record that is new reads and is filed for one of the first `n` targets. */
  ghost predicate NewForSome(w: World, policies: seq<TargetPolicy>, n: nat, before: Artifacts, after: Artifacts)
    requires n <= |policies|
  {
    forall k | k in after && k !in before :: FiledForSome(w, policies, n, k) && IsDigest(k) && BundleReads(after[k])
  }

  ghost predicate FiledForSome(w: World, policies: seq<TargetPolicy>, n: nat, k: Text)
    requires n <= |policies|
  {
    exists j | 0 <= j < n :: KeyedFor(w, policies[j].targetId, k)
  }

  lemma NewForOneMore(w: World, policies: seq<TargetPolicy>, n: nat, start: Artifacts, before: Artifacts, after: Artifacts)
    requires n < |policies| && NewForSome(w, policies, n, start, before) && NewFor(w, policies[n].targetId, before, after) && PartOf(before, after)
    ensures NewForSome(w, policies, n + 1, start, after)
  {
    forall k | k in after && k !in start ensures FiledForSome(w, policies, n + 1, k) && IsDigest(k) && BundleReads(after[k])
    {
      if k in before {
        assert FiledForSome(w, policies, n, k);
        var j :| 0 <= j < n && KeyedFor(w, policies[j].targetId, k);
      } else {
        assert KeyedFor(w, policies[n].targetId, k);
      }
    }
  }

  /** What earlier targets were given verifies for a later one only through a collision. */
  lemma VerifiedBefore(w: World, policies: seq<TargetPolicy>, now: nat, n: nat, start: Artifacts, before: Artifacts, k: Text, id: Text, g: nat)
    requires n < |policies| && DistinctTargets(policies, |policies|) && ViewOf(w, policies[n], now).Some?
    requires PartOf(start, before) && NewForSome(w, policies, n, start, before)
    requires VerifiesIn(ViewOf(w, policies[n], now).value, before, k, id, g) && !HasCollision(w.hash)
    ensures VerifiesIn(ViewOf(w, policies[n], now).value, start, k, id, g)
  {
    var v := ViewOf(w, policies[n], now).value;
    if k in start {
      VerifiesByEntry(v, start, before, k, id, g);
    } else {
      assert FiledForSome(w, policies, n, k);
      var j :| 0 <= j < n && KeyedFor(w, policies[j].targetId, k);
      NextTarget(policies, n, |policies|);
      EarlierTarget(policies, j, n);
      ForeignKeyCollides(v, before, policies[j].targetId, k, id, g);
    }
  }

  lemma SuppliedBefore(w: World, policies: seq<TargetPolicy>, now: nat, n: nat, start: Artifacts, before: Artifacts)
    requires n < |policies| && DistinctTargets(policies, |policies|)
    requires PartOf(start, before) && NewForSome(w, policies, n, start, before)
    ensures SuppliedCount(w, policies[n], now, before) == SuppliedCount(w, policies[n], now, start) || HasCollision(w.hash)
  {
    if ViewOf(w, policies[n], now).Some? && !HasCollision(w.hash) {
      var v := ViewOf(w, policies[n], now).value;
      forall id | id in policies[n].secrets ensures SuppliedWith(v, before, id) <==> SuppliedWith(v, start, id)
      {
        if k, g: nat :| VerifiesIn(v, before, k, id, g) {
          VerifiedBefore(w, policies, now, n, start, before, k, id, g);
        }
        if k, g: nat :| VerifiesIn(v, start, k, id, g) {
          VerifiesByEntry(v, start, before, k, id, g);
          assert VerifiesIn(v, before, k, id, g);
        }
      }
      assert SuppliedIds(w, policies[n], now, before) == SuppliedIds(w, policies[n], now, start);
    }
  }

  /** What verifies for a later target is what verified before, collisions aside. */
  lemma SameVerifies(w: World, policies: seq<TargetPolicy>, now: nat, n: nat, start: Artifacts, before: Artifacts, k: Text, id: Text, g: nat)
    requires n < |policies| && DistinctTargets(policies, |policies|) && ViewOf(w, policies[n], now).Some?
    requires PartOf(start, before) && NewForSome(w, policies, n, start, before) && !HasCollision(w.hash)
    ensures VerifiesIn(ViewOf(w, policies[n], now).value, before, k, id, g) <==> VerifiesIn(ViewOf(w, policies[n], now).value, start, k, id, g)
  {
    var v := ViewOf(w, policies[n], now).value;
    if VerifiesIn(v, before, k, id, g) {
      VerifiedBefore(w, policies, now, n, start, before, k, id, g);
    } else if k in start {
      VerifiesByEntry(v, start, before, k, id, g);
    }
  }

  lemma SameNextGeneration(w: World, worker: Worker, policies: seq<TargetPolicy>, now: nat, n: nat, start: Artifacts, before: Artifacts, g: nat)
    requires n < |policies| && DistinctTargets(policies, |policies|)
    requires PartOf(start, before) && NewForSome(w, policies, n, start, before) && !HasCollision(w.hash)
    requires NextGeneration(w, worker, policies[n], now, before, g)
    ensures NextGeneration(w, worker, policies[n], now, start, g)
  {
    if worker.generation.None? {
      var v := ViewOf(w, policies[n], now).value;
      forall h: nat ensures AfterAll(v, before, h) <==> AfterAll(v, start, h)
      {
        forall k, id, f: nat ensures VerifiesIn(v, before, k, id, f) <==> VerifiesIn(v, start, k, id, f)
        {
          SameVerifies(w, policies, now, n, start, before, k, id, f);
        }
      }
    }
  }

  /** Collisions aside, `k` is the key of the next generation, as of `start`, of a secret of some target that
      had no verified artifact. */
  ghost predicate MadeForOne(w: World, worker: Worker, policies: seq<TargetPolicy>, now: nat, start: Artifacts, k: Text)
  {
    exists j | 0 <= j < |policies| :: MadeUnder(w, worker, policies[j], now, start, k)
  }

  /** Everything new was made for some target. */
  ghost predicate MadeForSome(w: World, worker: Worker, policies: seq<TargetPolicy>, now: nat, start: Artifacts, after: Artifacts)
  {
    HasCollision(w.hash) || forall k | k in after && k !in start :: MadeForOne(w, worker, policies, now, start, k)
  }

  lemma MadeBefore(w: World, worker: Worker, policies: seq<TargetPolicy>, now: nat, n: nat, start: Artifacts, before: Artifacts, k: Text)
    requires n < |policies| && DistinctTargets(policies, |policies|)
    requires PartOf(start, before) && NewForSome(w, policies, n, start, before) && !HasCollision(w.hash)
    requires MadeUnder(w, worker, policies[n], now, before, k)
    ensures MadeForOne(w, worker, policies, now, start, k)
  {
    var id, g: nat :| MadeAs(w, worker, policies[n], now, before, k, id, g);
    SameNextGeneration(w, worker, policies, now, n, start, before, g);
    assert id !in SuppliedIds(w, policies[n], now, start) by {
      if id in SuppliedIds(w, policies[n], now, start) {
        var v := ViewOf(w, policies[n], now).value;
        var j, f: nat :| VerifiesIn(v, start, j, id, f);
        SameVerifies(w, policies, now, n, start, before, j, id, f);
      }
    }
    assert MadeAs(w, worker, policies[n], now, start, k, id, g);
  }

  lemma MadeOneMore(w: World, worker: Worker, policies: seq<TargetPolicy>, now: nat, n: nat, start: Artifacts, before: Artifacts, after: Artifacts)
    requires n < |policies| && DistinctTargets(policies, |policies|)
    requires PartOf(start, before) && NewForSome(w, policies, n, start, before)
    requires MadeForSome(w, worker, policies, now, start, before) && AllMade(w, worker, policies[n], now, before, after)
    ensures MadeForSome(w, worker, policies, now, start, after)
  {
    if !HasCollision(w.hash) {
      forall k | k in after && k !in start ensures MadeForOne(w, worker, policies, now, start, k)
      {
        if k !in before {
          MadeBefore(w, worker, policies, now, n, start, before, k);
        }
      }
    }
  }

  lemma ExhaustedBefore(w: World, policies: seq<TargetPolicy>, now: nat, n: nat, start: Artifacts, before: Artifacts)
    requires n < |policies| && DistinctTargets(policies, |policies|)
    requires PartOf(start, before) && NewForSome(w, policies, n, start, before) && Exhausted(w, policies[n], now, before)
    ensures AnyExhausted(w, policies, now, start) || HasCollision(w.hash)
  {
    var v := ViewOf(w, policies[n], now).value;
    var k, id, g: nat :| VerifiesIn(v, before, k, id, g) && g >= U64_MAX;
    if !HasCollision(w.hash) {
      VerifiedBefore(w, policies, now, n, start, before, k, id, g);
      assert VerifiesExhausted(v, start) && Exhausted(w, policies[n], now, start);
    }
  }

  // ---------- why a preparation fails ----------

  /** A growing cache does not become inspectable. */
  lemma UninspectableStays(w: World, policy: TargetPolicy, now: nat, before: Artifacts, after: Artifacts)
    requires PartOf(before, after) && Uninspectable(w, policy, now, before)
    ensures Uninspectable(w, policy, now, after)
  {
    if Readable(after) {
      PartReadable(after, before);
    }
    if ViewOf(w, policy, now).Some? && Readable(before) {
      var v := ViewOf(w, policy, now).value;
      var phase :| HasFatal(In(v, phase), before);
      var k :| k in before && JudgeAt(In(v, phase), before, k).Fatal?;
      assert RecordFor(w.hash, after, k) == RecordFor(w.hash, before, k);
      assert HasFatal(In(v, phase), after);
    }
  }

  /** These targets have been packed, and the next one's selection does not fit behind them. */
  ghost predicate OverfullAt(w: World, policies: seq<TargetPolicy>, now: nat, artifacts: Artifacts, sels: seq<Selection>, sel: Selection)
  {
    && |sels| < |policies| && Filled(w, policies, now, artifacts, sels, PlanWire(artifacts, sels))
    && Selects(w, policies[|sels|], now, artifacts, sel)
    && !Admitted(WireSize(PlanWire(artifacts, sels)), SelectionFiles(artifacts, sel), |PackedKeys(sel)|)
  }

  ghost predicate Overfull(w: World, policies: seq<TargetPolicy>, now: nat, artifacts: Artifacts)
  {
    exists sels, sel :: OverfullAt(w, policies, now, artifacts, sels, sel)
  }

  ghost predicate Unverified(w: World, policies: seq<TargetPolicy>, now: nat, artifacts: Artifacts, target: Text)
  {
    exists j | 0 <= j < |policies| :: policies[j].targetId == target && !Provided(w, policies[j], now, artifacts)
  }

  /** Why a preparation that was not refused failed: `start` is the cache before it, `left` after it. */
  ghost predicate Reasoned(w: World, policies: seq<TargetPolicy>, now: nat, start: Artifacts, left: Artifacts, e: PrepareError)
  {
    match e
    case NotInspected(_) => IsTransient(e) || SomeUninspectable(w, policies, now, left)
    case GenerationExhausted => AnyExhausted(w, policies, now, left) && (AnyExhausted(w, policies, now, start) || HasCollision(w.hash))
    case NotCreated(_) => !AllWithin(w, policies, start, now, |policies|)
    case NotVerified(target) => Unverified(w, policies, now, left, target)
    case NotPacked(TooLarge) => Overfull(w, policies, now, left)
    case NotPacked(WireIo) => true
    case _ => false
  }

  lemma GapsReasoned(w: World, policies: seq<TargetPolicy>, now: nat, start: Artifacts, before: Artifacts, after: Artifacts, n: nat, e: PrepareError)
    requires n < |policies| && DistinctTargets(policies, |policies|) && PartOf(start, before) && PartOf(before, after)
    requires NewForSome(w, policies, n, start, before)
    requires (e.GenerationExhausted? && Exhausted(w, policies[n], now, before)) || (e.NotCreated? && !Provided(w, policies[n], now, before))
    ensures Reasoned(w, policies, now, start, after, e)
  {
    if e.GenerationExhausted? {
      ExhaustionStays(w, policies[n], now, before, after);
      ExhaustedBefore(w, policies, now, n, start, before);
    } else if AllWithin(w, policies, start, now, |policies|) {
      AllWithinAt(w, policies, start, now, |policies|, n);
      StaysProvided(w, policies[n], now, start, before);
    }
  }

  lemma InspectionReasoned(w: World, policies: seq<TargetPolicy>, now: nat, start: Artifacts, before: Artifacts, after: Artifacts, n: nat, e: PrepareError)
    requires n < |policies| && PartOf(before, after) && e.NotInspected?
    requires IsTransient(e) || Uninspectable(w, policies[n], now, before) || Uninspectable(w, policies[n], now, after)
    ensures Reasoned(w, policies, now, start, after, e)
  {
    if Uninspectable(w, policies[n], now, before) {
      UninspectableStays(w, policies[n], now, before, after);
    }
  }

  lemma OverflowReasoned(w: World, policies: seq<TargetPolicy>, now: nat, start: Artifacts, before: Artifacts, after: Artifacts,
                         sels: seq<Selection>, sel: Selection, wire: seq<WireArtifact>)
    requires |sels| < |policies| && DistinctTargets(policies, |policies|) && Filled(w, policies, now, before, sels, wire)
    requires PartOf(before, after) && NewFor(w, policies[|sels|].targetId, before, after)
    requires Selects(w, policies[|sels|], now, after, sel) && !Admitted(WireSize(wire), SelectionFiles(after, sel), |PackedKeys(sel)|)
    ensures Reasoned(w, policies, now, start, after, NotPacked(TooLarge))
  {
    FilledStays(w, policies, now, before, after, sels, wire);
    assert OverfullAt(w, policies, now, after, sels, sel);
  }

  /** The reasons of one target are reasons of the request. */
  lemma TargetReasoned(w: World, policies: seq<TargetPolicy>, now: nat, start: Artifacts, before: Artifacts, after: Artifacts,
                       sels: seq<Selection>, sel: Selection, wire: seq<WireArtifact>, e: PrepareError)
    requires |sels| < |policies| && DistinctTargets(policies, |policies|) && Filled(w, policies, now, before, sels, wire)
    requires PartOf(start, before) && NewForSome(w, policies, |sels|, start, before)
    requires PartOf(before, after) && NewFor(w, policies[|sels|].targetId, before, after)
    requires TargetFailed(w, policies[|sels|], now, before, after, sel, wire, e)
    ensures Reasoned(w, policies, now, start, after, e)
  {
    match e
    case NotInspected(_) => InspectionReasoned(w, policies, now, start, before, after, |sels|, e);
    case GenerationExhausted => GapsReasoned(w, policies, now, start, before, after, |sels|, e);
    case NotCreated(_) => GapsReasoned(w, policies, now, start, before, after, |sels|, e);
    case NotVerified(target) => assert Unverified(w, policies, now, after, target);
    case NotPacked(TooLarge) => OverflowReasoned(w, policies, now, start, before, after, sels, sel, wire);
    case NotPacked(WireIo) =>
    case _ => assert false;
  }
}
