/** prepare_request: reuses the artifacts a cache already has, creates the missing ones and packs all of
    them into a response. One clock reading serves the whole request. */
module Preparation {
  import opened Prelude
  import opened CacheAddress
  import opened CacheStore
  import opened CacheOperations
  import opened ArtifactPolicy
  import opened ArtifactSelection
  import opened ArtifactInspection
  import opened FullSelection
  import opened Wire
  import opened Transport
  import opened Packing
  import opened CacheRoom
  import opened Installation
  import opened PreparedResponse
  import opened PreparationRequest
  import opened ArtifactCreation
  import opened TargetPreparation
  import opened PreparationReasons

  // ---------- the second pass ----------

  /** What has been done after as many targets as there are selections. */
  ghost predicate Progressed(w: World, policies: seq<TargetPolicy>, now: nat, artifacts: Artifacts, sels: seq<Selection>, wire: seq<WireArtifact>, counts: Counts)
    requires |sels| <= |policies|
  {
    match counts
    case Counts(reused, created) => reused + created == SecretsIn(policies, |sels|) && Filled(w, policies, now, artifacts, sels, wire)
  }

  lemma NothingFilled(w: World, policies: seq<TargetPolicy>, now: nat, artifacts: Artifacts)
    ensures Filled(w, policies, now, artifacts, [], [])
  {
  }

  /** A filled response's artifacts are still in the cache, so the cache provides for every target. */
  lemma FilledProvides(w: World, policies: seq<TargetPolicy>, now: nat, artifacts: Artifacts, sels: seq<Selection>, wire: seq<WireArtifact>)
    requires |sels| == |policies| && Filled(w, policies, now, artifacts, sels, wire)
    ensures AllWithin(w, policies, artifacts, now, |policies|)
  {
    AllServeProvides(w, policies, now, artifacts, sels);
  }

  /** What is selected for each target, packed target by target without meeting a limit. */
  ghost predicate IsPlan(w: World, policies: seq<TargetPolicy>, now: nat, artifacts: Artifacts, plan: seq<Selection>)
  {
    |plan| == |policies| && AllSelect(w, policies, now, artifacts, plan) && PlanAdmitted(artifacts, plan)
  }

  lemma {:induction false} PlanShorter(artifacts: Artifacts, plan: seq<Selection>, i: nat)
    requires i <= |plan| && PlanAdmitted(artifacts, plan)
    ensures PlanAdmitted(artifacts, plan[..i])
    decreases |plan|
  {
    if i < |plan| {
      var rest := plan[..|plan| - 1];
      assert rest[..i] == plan[..i];
      PlanShorter(artifacts, rest, i);
    } else {
      assert plan[..i] == plan;
    }
  }

  lemma PlanPrefix(artifacts: Artifacts, plan: seq<Selection>, i: nat)
    requires i < |plan| && PlanAdmitted(artifacts, plan)
    ensures Admitted(WireSize(PlanWire(artifacts, plan[..i])), SelectionFiles(artifacts, plan[i]), |PackedKeys(plan[i])|)
  {
    PlanShorter(artifacts, plan, i + 1);
    var now := plan[..i + 1];
    assert now[..|now| - 1] == plan[..i] && now[|now| - 1] == plan[i];
  }

  lemma PlanNext(artifacts: Artifacts, plan: seq<Selection>, i: nat)
    requires i < |plan|
    ensures PlanWire(artifacts, plan[..i + 1]) ==
      Appended(PlanWire(artifacts, plan[..i]), SelectionFiles(artifacts, plan[i]), |PackedKeys(plan[i])|)
  {
    var now := plan[..i + 1];
    assert now[..|now| - 1] == plan[..i] && now[|now| - 1] == plan[i];
  }

  lemma {:induction false} AllSelectAt(w: World, policies: seq<TargetPolicy>, now: nat, artifacts: Artifacts, plan: seq<Selection>, i: nat)
    requires i < |plan| <= |policies| && AllSelect(w, policies, now, artifacts, plan)
    ensures Selects(w, policies[i], now, artifacts, plan[i])
    decreases |plan|
  {
    if i < |plan| - 1 {
      AllSelectAt(w, policies, now, artifacts, plan[..|plan| - 1], i);
    }
  }

  /** The next target is packed as planned. */
  lemma PlannedNext(w: World, policies: seq<TargetPolicy>, now: nat, artifacts: Artifacts, plan: seq<Selection>, i: nat, sel: Selection)
    requires i < |policies| && IsPlan(w, policies, now, artifacts, plan)
    requires Selects(w, policies[i], now, artifacts, sel)
    ensures sel == plan[i]
    ensures Admitted(WireSize(PlanWire(artifacts, plan[..i])), SelectionFiles(artifacts, sel), |PackedKeys(sel)|)
    ensures PlanWire(artifacts, plan[..i + 1]) == Appended(PlanWire(artifacts, plan[..i]), SelectionFiles(artifacts, sel), |PackedKeys(sel)|)
  {
    AllSelectAt(w, policies, now, artifacts, plan, i);
    FullSelectionUnique(ViewOf(w, policies[i], now).value, artifacts, sel, plan[i]);
    PlanPrefix(artifacts, plan, i);
    PlanNext(artifacts, plan, i);
  }

  /** Why a second pass over a provided and readable cache failed. */
  ghost predicate OnlyExcuses(w: World, policies: seq<TargetPolicy>, now: nat, artifacts: Artifacts, e: PrepareError)
  {
    IsTransient(e) || (e.GenerationExhausted? && AnyExhausted(w, policies, now, artifacts)) || e == NotPacked(TooLarge)
  }

  lemma ProvidedFails(w: World, policies: seq<TargetPolicy>, now: nat, before: Artifacts, after: Artifacts, n: nat,
                      sel: Selection, wire: seq<WireArtifact>, e: PrepareError)
    requires n < |policies| && Provided(w, policies[n], now, before) && Readable(before) && after == before
    requires TargetFailed(w, policies[n], now, before, after, sel, wire, e)
    ensures OnlyExcuses(w, policies, now, before, e)
  {
    ProvidedIsInspectable(w, policies[n], now, before);
    match e
    case NotInspected(_) => assert IsTransient(e);
    case GenerationExhausted => assert AnyExhausted(w, policies, now, before);
    case NotPacked(why) => assert why == WireIo || why == TooLarge;
    case _ => assert false;
  }

  // ---------- every target ----------

  /** Packing what a cache selects, in the order of the targets, meets no limit. */
  ghost predicate Plannable(w: World, policies: seq<TargetPolicy>, now: nat, artifacts: Artifacts)
  {
    exists plan :: IsPlan(w, policies, now, artifacts, plan)
  }

  /** What has been packed so far is what the plan says. */
  ghost predicate OnPlan(w: World, policies: seq<TargetPolicy>, now: nat, start: Artifacts, plan: seq<Selection>, n: nat, wire: seq<WireArtifact>)
    requires n <= |policies|
  {
    IsPlan(w, policies, now, start, plan) ==> wire == PlanWire(start, plan[..n])
  }

  /** Nothing has been created so far. */
  ghost predicate NothingCreated(start: Artifacts, artifacts: Artifacts, created: nat)
  {
    artifacts == start && created == 0
  }

  /** Some target is left with an artifact of the last generation, if anything was created under it. */
  ghost predicate Spent(w: World, worker: Worker, policies: seq<TargetPolicy>, now: nat, artifacts: Artifacts, created: nat)
  {
    created > 0 && worker.generation == Some(U64_MAX) ==> AnyExhausted(w, policies, now, artifacts) || HasCollision(w.hash)
  }

  lemma SpentNext(w: World, worker: Worker, policies: seq<TargetPolicy>, now: nat, before: Artifacts, after: Artifacts, created: nat, more: nat, i: nat)
    requires i < |policies| && PartOf(before, after) && Spent(w, worker, policies, now, before, created)
    requires more > 0 && worker.generation == Some(U64_MAX) ==> Exhausted(w, policies[i], now, after) || HasCollision(w.hash)
    ensures Spent(w, worker, policies, now, after, created + more)
  {
    if AnyExhausted(w, policies, now, before) {
      var j :| 0 <= j < |policies| && Exhausted(w, policies[j], now, before);
      ExhaustionStays(w, policies[j], now, before, after);
    }
  }

  /** One more target has been filled and packed. */
  lemma ProgressedNext(w: World, policies: seq<TargetPolicy>, now: nat, before: Artifacts, after: Artifacts, sels: seq<Selection>, wire: seq<WireArtifact>,
                       sel: Selection, all: seq<WireArtifact>, counts: Counts, more: Counts)
    requires |sels| < |policies| && DistinctTargets(policies, |policies|) && Progressed(w, policies, now, before, sels, wire, counts)
    requires PartOf(before, after) && NewFor(w, policies[|sels|].targetId, before, after)
    requires NextPacked(w, policies[|sels|], now, after, sel, wire, all) && more.reused + more.created == |policies[|sels|].secrets|
    ensures Progressed(w, policies, now, after, sels + [sel], all, Plus(counts, more))
  {
    FilledStays(w, policies, now, before, after, sels, wire);
    FilledGrows(w, policies, now, after, sels, wire, sel, all);
    assert SecretsIn(policies, |sels| + 1) == SecretsIn(policies, |sels|) + |policies[|sels|].secrets|;
  }

  /** In a complete cache every target is packed as planned. */
  lemma OnPlanNext(w: World, policies: seq<TargetPolicy>, now: nat, start: Artifacts, plan: seq<Selection>, i: nat, wire: seq<WireArtifact>, sel: Selection)
    requires i < |policies| && OnPlan(w, policies, now, start, plan, i, wire) && Selects(w, policies[i], now, start, sel)
    ensures OnPlan(w, policies, now, start, plan, i + 1, Appended(wire, SelectionFiles(start, sel), |PackedKeys(sel)|))
    ensures IsPlan(w, policies, now, start, plan) ==> Admitted(WireSize(wire), SelectionFiles(start, sel), |PackedKeys(sel)|)
  {
    if IsPlan(w, policies, now, start, plan) {
      PlannedNext(w, policies, now, start, plan, i, sel);
    }
  }

  lemma FiledReads(w: World, policies: seq<TargetPolicy>, n: nat, start: Artifacts, artifacts: Artifacts)
    requires n <= |policies| && NewForSome(w, policies, n, start, artifacts)
    ensures NewReads(start, artifacts)
  {
  }

  /** The second pass after `n` targets; `start` is the cache before it. */
  ghost predicate Passing(w: World, worker: Worker, policies: seq<TargetPolicy>, now: nat, start: Artifacts, plan: seq<Selection>,
                          artifacts: Artifacts, n: nat, wire: seq<WireArtifact>, counts: Counts)
    requires n <= |policies|
  {
    match counts
    case Counts(_, created) =>
    && Traced(w, policies, now, start, artifacts, n, counts) && (n > 0 ==> Readable(artifacts))
    && NoneExhausted(w, policies, now, start, n) && Spent(w, worker, policies, now, artifacts, created)
    && Steady(w, policies, now, start, plan, artifacts, n, wire, created)
  }

  /** What was reused was there before, collisions aside. */
  ghost predicate ReusedOf(w: World, policies: seq<TargetPolicy>, now: nat, start: Artifacts, n: nat, reused: nat)
    requires n <= |policies|
  {
    reused == SuppliedTo(w, policies, now, start, n) || HasCollision(w.hash)
  }

  /** Everything new was created for one of the first `n` targets, and everything else reused. */
  ghost predicate Traced(w: World, policies: seq<TargetPolicy>, now: nat, start: Artifacts, artifacts: Artifacts, n: nat, counts: Counts)
    requires n <= |policies|
  {
    match counts
    case Counts(reused, _) => PartOf(start, artifacts) && NewForSome(w, policies, n, start, artifacts) && ReusedOf(w, policies, now, start, n, reused)
  }

  lemma ReusedNext(w: World, policies: seq<TargetPolicy>, now: nat, start: Artifacts, before: Artifacts, n: nat, reused: nat)
    requires n < |policies| && DistinctTargets(policies, |policies|) && PartOf(start, before) && NewForSome(w, policies, n, start, before)
    requires ReusedOf(w, policies, now, start, n, reused)
    ensures ReusedOf(w, policies, now, start, n + 1, reused + SuppliedCount(w, policies[n], now, before))
  {
    SuppliedBefore(w, policies, now, n, start, before);
  }

  /** Where every target was provided for, nothing is created and the packing follows the plan. */
  ghost predicate Steady(w: World, policies: seq<TargetPolicy>, now: nat, start: Artifacts, plan: seq<Selection>,
                         artifacts: Artifacts, n: nat, wire: seq<WireArtifact>, created: nat)
    requires n <= |policies|
  {
    AllWithin(w, policies, start, now, |policies|) ==> NothingCreated(start, artifacts, created) && OnPlan(w, policies, now, start, plan, n, wire)
  }

  lemma SteadyNext(w: World, policies: seq<TargetPolicy>, now: nat, start: Artifacts, plan: seq<Selection>, before: Artifacts, after: Artifacts,
                   i: nat, wire: seq<WireArtifact>, all: seq<WireArtifact>, created: nat, sel: Selection, more: nat)
    requires i < |policies| && Steady(w, policies, now, start, plan, before, i, wire, created)
    requires Provided(w, policies[i], now, before) ==> after == before && more == 0
    requires NextPacked(w, policies[i], now, after, sel, wire, all)
    ensures Steady(w, policies, now, start, plan, after, i + 1, all, created + more)
  {
    if AllWithin(w, policies, start, now, |policies|) {
      AllWithinAt(w, policies, start, now, |policies|, i);
      OnPlanNext(w, policies, now, start, plan, i, wire, sel);
    }
  }

  lemma NoneExhaustedNext(w: World, policies: seq<TargetPolicy>, now: nat, start: Artifacts, before: Artifacts, i: nat)
    requires i < |policies| && NoneExhausted(w, policies, now, start, i) && PartOf(start, before) && !Exhausted(w, policies[i], now, before)
    ensures NoneExhausted(w, policies, now, start, i + 1)
  {
    if Exhausted(w, policies[i], now, start) {
      ExhaustionStays(w, policies[i], now, start, before);
    }
  }

  lemma TracedNext(w: World, policies: seq<TargetPolicy>, now: nat, start: Artifacts, before: Artifacts, after: Artifacts, n: nat, counts: Counts, more: Counts)
    requires n < |policies| && DistinctTargets(policies, |policies|) && Traced(w, policies, now, start, before, n, counts)
    requires PartOf(before, after) && NewFor(w, policies[n].targetId, before, after) && more.reused == SuppliedCount(w, policies[n], now, before)
    ensures Traced(w, policies, now, start, after, n + 1, Plus(counts, more))
  {
    PartChains(start, before, after);
    NewForOneMore(w, policies, n, start, before, after);
    ReusedNext(w, policies, now, start, before, n, counts.reused);
  }

  lemma PassingNext(w: World, worker: Worker, policies: seq<TargetPolicy>, now: nat, start: Artifacts, plan: seq<Selection>, before: Artifacts, after: Artifacts,
                    n: nat, wire: seq<WireArtifact>, counts: Counts, sel: Selection, all: seq<WireArtifact>, more: Counts)
    requires n < |policies| && DistinctTargets(policies, |policies|) && Passing(w, worker, policies, now, start, plan, before, n, wire, counts)
    requires PartOf(before, after) && NewFor(w, policies[n].targetId, before, after)
    requires Provided(w, policies[n], now, before) ==> after == before
    requires TargetDone(w, worker, policies[n], now, before, after, sel, wire, all, more)
    ensures Passing(w, worker, policies, now, start, plan, after, n + 1, all, Plus(counts, more))
  {
    TracedNext(w, policies, now, start, before, after, n, counts, more);
    SpentNext(w, worker, policies, now, before, after, counts.created, more.created, n);
    NoneExhaustedNext(w, policies, now, start, before, n);
    SteadyNext(w, policies, now, start, plan, before, after, n, wire, all, counts.created, sel, more.created);
  }

  /** Why the second pass failed, and what it left behind. */
  ghost predicate PassFailed(w: World, policies: seq<TargetPolicy>, now: nat, start: Artifacts, plan: seq<Selection>, artifacts: Artifacts, e: PrepareError)
  {
    match IsRefusal(e)
    case true => false
    case false =>
    && PartOf(start, artifacts) && NewReads(start, artifacts) && Reasoned(w, policies, now, start, artifacts, e)
    && (AllWithin(w, policies, start, now, |policies|) ==> artifacts == start)
    && (Complete(w, policies, now, start) ==> OnlyExcuses(w, policies, now, start, e))
    && (AllWithin(w, policies, start, now, |policies|) && IsPlan(w, policies, now, start, plan) ==> e != NotPacked(TooLarge))
  }

  lemma PassingFails(w: World, worker: Worker, policies: seq<TargetPolicy>, now: nat, start: Artifacts, plan: seq<Selection>, before: Artifacts, after: Artifacts,
                     sels: seq<Selection>, n: nat, wire: seq<WireArtifact>, counts: Counts, sel: Selection, e: PrepareError)
    requires n == |sels| < |policies| && DistinctTargets(policies, |policies|) && Filled(w, policies, now, before, sels, wire)
    requires Passing(w, worker, policies, now, start, plan, before, n, wire, counts)
    requires PartOf(before, after) && NewFor(w, policies[n].targetId, before, after)
    requires Provided(w, policies[n], now, before) ==> after == before
    requires TargetFailed(w, policies[n], now, before, after, sel, wire, e)
    ensures PassFailed(w, policies, now, start, plan, after, e)
  {
    PartChains(start, before, after);
    TargetReasoned(w, policies, now, start, before, after, sels, sel, wire, e);
    NewForOneMore(w, policies, n, start, before, after);
    FiledReads(w, policies, n + 1, start, after);
    FailureIsNoRefusal(w, policies[n], now, before, after, sel, wire, e);
    if AllWithin(w, policies, start, now, |policies|) {
      AllWithinAt(w, policies, start, now, |policies|, n);
      if Readable(start) {
        ProvidedFails(w, policies, now, before, after, n, sel, wire, e);
      }
      if e == NotPacked(TooLarge) {
        OnPlanNext(w, policies, now, start, plan, n, wire, sel);
      }
    }
  }

  lemma PassingStarts(w: World, worker: Worker, policies: seq<TargetPolicy>, now: nat, start: Artifacts, plan: seq<Selection>)
    ensures Passing(w, worker, policies, now, start, plan, start, 0, [], Counts(0, 0)) && Progressed(w, policies, now, start, [], [], Counts(0, 0))
  {
    NothingFilled(w, policies, now, start);
  }

  /** One more target; `start` is the cache before the pass. */
  method PrepareNext(cache: Cache, bundle: PreparedBundle, w: World, worker: Worker, policies: seq<TargetPolicy>, now: nat, ghost plan: seq<Selection>,
                     ghost start: Artifacts, ghost sels: seq<Selection>, n: nat, counts: Counts)
    returns (r: Result<Counts, PrepareError>, ghost next: seq<Selection>)
    requires cache.h == w.hash && worker.execute && n == |sels| < |policies| && DistinctTargets(policies, |policies|)
    requires Progressed(w, policies, now, cache.artifacts, sels, bundle.artifacts, counts)
    requires Passing(w, worker, policies, now, start, plan, cache.artifacts, n, bundle.artifacts, counts)
    requires MadeForSome(w, worker, policies, now, start, cache.artifacts)
    modifies cache`artifacts, bundle
    ensures MadeForSome(w, worker, policies, now, start, cache.artifacts)
    ensures r.Success? ==> |next| == n + 1 && Progressed(w, policies, now, cache.artifacts, next, bundle.artifacts, r.value)
    ensures r.Success? ==> Passing(w, worker, policies, now, start, plan, cache.artifacts, n + 1, bundle.artifacts, r.value)
    ensures r.Failure? ==> PassFailed(w, policies, now, start, plan, cache.artifacts, r.error)
    ensures cache.reliable && bundle.reliable && r.Failure? ==> !IsTransient(r.error)
  {
    next := sels;
    ghost var before, wire := cache.artifacts, bundle.artifacts;
    var more, sel := PrepareTarget(cache, bundle, w, worker, policies[n], now);
    MadeOneMore(w, worker, policies, now, n, start, before, cache.artifacts);
    if more.Failure? {
      PassingFails(w, worker, policies, now, start, plan, before, cache.artifacts, sels, n, wire, counts, sel, more.error);
      return Failure(more.error), next;
    }
    PassingNext(w, worker, policies, now, start, plan, before, cache.artifacts, n, wire, counts, sel, bundle.artifacts, more.value);
    ProgressedNext(w, policies, now, before, cache.artifacts, sels, wire, sel, bundle.artifacts, counts, more.value);
    next := sels + [sel];
    r := Success(Plus(counts, more.value));
  }

  /** The second pass over an executed request. */
  method PrepareAll(cache: Cache, bundle: PreparedBundle, w: World, worker: Worker, policies: seq<TargetPolicy>, now: nat, ghost plan: seq<Selection>)
    returns (r: Result<Counts, PrepareError>, ghost sels: seq<Selection>)
    requires cache.h == w.hash && bundle.artifacts == [] && worker.execute && DistinctTargets(policies, |policies|)
    modifies cache`artifacts, bundle
    ensures r.Success? ==> |sels| == |policies|
    ensures r.Success? ==> Progressed(w, policies, now, cache.artifacts, sels, bundle.artifacts, r.value)
    ensures r.Success? ==> Passing(w, worker, policies, now, old(cache.artifacts), plan, cache.artifacts, |policies|, bundle.artifacts, r.value)
    ensures NewReads(old(cache.artifacts), cache.artifacts)
    ensures MadeForSome(w, worker, policies, now, old(cache.artifacts), cache.artifacts)
    ensures r.Failure? ==> PassFailed(w, policies, now, old(cache.artifacts), plan, cache.artifacts, r.error)
    ensures cache.reliable && bundle.reliable && r.Failure? ==> !IsTransient(r.error)
  {
    sels := [];
    PassingStarts(w, worker, policies, now, cache.artifacts, plan);
    r := Success(Counts(0, 0));
    var i: nat := 0;
    while i < |policies|
      invariant i == |sels| <= |policies| && r.Success?
      invariant Progressed(w, policies, now, cache.artifacts, sels, bundle.artifacts, r.value)
      invariant Passing(w, worker, policies, now, old(cache.artifacts), plan, cache.artifacts, i, bundle.artifacts, r.value)
      invariant MadeForSome(w, worker, policies, now, old(cache.artifacts), cache.artifacts)
    {
      r, sels := PrepareNext(cache, bundle, w, worker, policies, now, plan, old(cache.artifacts), sels, i, r.value);
      if r.Failure? {
        return;
      }
      i := i + 1;
    }
    FiledReads(w, policies, |policies|, old(cache.artifacts), cache.artifacts);
  }

  // ---------- the request ----------

  /** How many of a target's artifacts could be reused. */
  method CountTarget(cache: Cache, w: World, policy: TargetPolicy, now: nat) returns (r: Result<nat, PrepareError>)
    requires cache.h == w.hash
    ensures r.Failure? ==> r.error.NotInspected? && (IsTransient(r.error) || Uninspectable(w, policy, now, cache.artifacts))
    ensures r.Success? ==> r.value == SuppliedCount(w, policy, now, cache.artifacts)
    ensures cache.reliable && r.Failure? ==> !IsTransient(r.error)
  {
    var selected := Reusable(cache, w, policy, now);
    r := if selected.Failure? then Failure(selected.error) else Success(|selected.value|);
  }

  /** A dry run counts what could be reused. */
  method CountReusable(cache: Cache, w: World, policies: seq<TargetPolicy>, now: nat) returns (failed: Option<PrepareError>, reused: nat)
    requires cache.h == w.hash
    ensures failed.Some? ==> failed.value.NotInspected? && (IsTransient(failed.value) || SomeUninspectable(w, policies, now, cache.artifacts))
    ensures failed.None? ==> reused == SuppliedTo(w, policies, now, cache.artifacts, |policies|)
    ensures cache.reliable && failed.Some? ==> !IsTransient(failed.value)
  {
    failed, reused := None, 0;
    var i: nat := 0;
    while i < |policies|
      invariant 0 <= i <= |policies| && failed.None? && reused == SuppliedTo(w, policies, now, cache.artifacts, i)
    {
      var counted := CountTarget(cache, w, policies[i], now);
      if counted.Failure? {
        return Some(counted.error), reused;
      }
      reused, i := reused + counted.value, i + 1;
    }
  }

  lemma CountFailureExcused(w: World, policies: seq<TargetPolicy>, now: nat, artifacts: Artifacts, e: PrepareError)
    requires e.NotInspected? && (IsTransient(e) || SomeUninspectable(w, policies, now, artifacts))
    ensures !IsRefusal(e) && Excused(w, policies, now, artifacts, e) && Reasoned(w, policies, now, artifacts, artifacts, e)
  {
    if Complete(w, policies, now, artifacts) && !IsTransient(e) {
      var j :| 0 <= j < |policies| && Uninspectable(w, policies[j], now, artifacts);
      AllWithinAt(w, policies, artifacts, now, |policies|, j);
      ProvidedIsInspectable(w, policies[j], now, artifacts);
    }
  }

  /** What a successful preparation returns and leaves behind. Executed, it accounts for every secret of
      every target as reused or created and carries artifacts that serve all of them; a dry run counts. */
  ghost predicate Answered(w: World, worker: Worker, policies: seq<TargetPolicy>, now: nat, before: Artifacts, after: Artifacts,
                           sels: seq<Selection>, response: Response)
  {
    match response
    case Response(prepared, reused, created, wire) =>
      && prepared == worker.execute
      && if worker.execute then
           && |sels| == |policies| && Progressed(w, policies, now, after, sels, wire, Counts(reused, created))
           && (policies != [] ==> Readable(after)) && NoneExhausted(w, policies, now, before, |policies|)
           && Spent(w, worker, policies, now, after, created) && ReusedOf(w, policies, now, before, |policies|, reused)
           && (AllWithin(w, policies, before, now, |policies|) ==> created == 0)
         else
           && after == before && created == 0 && wire == [] && reused == SuppliedTo(w, policies, now, before, |policies|)
  }

  /** Why a preparation that was not refused failed, and what it left behind. */
  ghost predicate Excused(w: World, policies: seq<TargetPolicy>, now: nat, before: Artifacts, e: PrepareError)
  {
    && (Complete(w, policies, now, before) ==> OnlyExcuses(w, policies, now, before, e))
    && (Complete(w, policies, now, before) && Plannable(w, policies, now, before) ==> e != NotPacked(TooLarge))
  }

  lemma RefusalExcused(w: World, worker: Worker, targets: seq<TargetRequest>, sources: set<Text>, policies: seq<TargetPolicy>,
                       now: nat, artifacts: Artifacts, e: PrepareError)
    requires Justified(w, worker, targets, sources, policies, now, artifacts, e) && (IsRefusal(e) || e.NotInspected?)
    ensures !Unaccountable(w, targets, sources) ==> Excused(w, policies, now, artifacts, e)
  {
    if !Unaccountable(w, targets, sources) && Complete(w, policies, now, artifacts) {
      ProvidedPasses(w, worker, targets, sources, policies, now, artifacts, e);
    }
  }

  /** Counting, or creating and packing, for targets that passed. */
  method SecondPass(cache: Cache, w: World, worker: Worker, policies: seq<TargetPolicy>, now: nat)
    returns (r: Result<Response, PrepareError>, ghost sels: seq<Selection>)
    requires cache.h == w.hash && DistinctTargets(policies, |policies|)
    modifies cache`artifacts
    ensures PartOf(old(cache.artifacts), cache.artifacts) && NewReads(old(cache.artifacts), cache.artifacts)
    ensures MadeForSome(w, worker, policies, now, old(cache.artifacts), cache.artifacts)
    ensures !worker.execute || AllWithin(w, policies, old(cache.artifacts), now, |policies|) ==> cache.artifacts == old(cache.artifacts)
    ensures r.Success? ==> Answered(w, worker, policies, now, old(cache.artifacts), cache.artifacts, sels, r.value)
    ensures r.Failure? ==> !IsRefusal(r.error) && Excused(w, policies, now, old(cache.artifacts), r.error)
    ensures r.Failure? ==> Reasoned(w, policies, now, old(cache.artifacts), cache.artifacts, r.error)
    ensures cache.reliable && r.Failure? ==> !IsTransient(r.error)
  {
    sels := [];
    if !worker.execute {
      var failed, reused := CountReusable(cache, w, policies, now);
      if failed.Some? {
        CountFailureExcused(w, policies, now, cache.artifacts, failed.value);
      }
      r := if failed.Some? then Failure(failed.value) else Success(Response(false, reused, 0, []));
      return r, sels;
    }
    ghost var plan := if plan :| IsPlan(w, policies, now, cache.artifacts, plan) then plan else [];
    var bundle := new PreparedBundle(cache.reliable);
    var counts;
    counts, sels := PrepareAll(cache, bundle, w, worker, policies, now, plan);
    r := if counts.Failure? then Failure(counts.error) else Success(Response(true, counts.value.reused, counts.value.created, bundle.artifacts));
  }

  /** prepare_request. A dry run writes nothing, and neither does a refused request, nor one for which
      everything was there already. However it ends, a cache that read before still does exactly if what
      was created keeps it within its reader's limits; nothing checks that beforehand. */
  method PrepareRequest(cache: Cache, w: World, worker: Worker, targets: seq<TargetRequest>, sources: set<Text>, now: nat)
    returns (r: Result<Response, PrepareError>, policies: seq<TargetPolicy>, ghost sels: seq<Selection>)
    requires cache.h == w.hash
    modifies cache`artifacts
    ensures PartOf(old(cache.artifacts), cache.artifacts) && NewReads(old(cache.artifacts), cache.artifacts)
    ensures MadeForSome(w, worker, policies, now, old(cache.artifacts), cache.artifacts)
    ensures Readable(old(cache.artifacts)) ==> (Readable(cache.artifacts) <==> WithinReader(cache.artifacts))
    ensures !worker.execute || AllWithin(w, policies, old(cache.artifacts), now, |policies|) ==> cache.artifacts == old(cache.artifacts)
    ensures r.Success? || policies != [] ==> |policies| == |targets| && Accounted(w, targets, policies, TargetsTo(policies, |policies|), sources)
    ensures r.Success? ==> AllPreparable(w, worker, policies, now, old(cache.artifacts), |policies|)
    ensures r.Success? ==> Answered(w, worker, policies, now, old(cache.artifacts), cache.artifacts, sels, r.value)
    ensures r.Failure? && IsRefusal(r.error) ==>
      && cache.artifacts == old(cache.artifacts)
      && Justified(w, worker, targets, sources, policies, now, old(cache.artifacts), r.error)
    ensures r.Failure? && !IsRefusal(r.error) ==> Reasoned(w, policies, now, old(cache.artifacts), cache.artifacts, r.error)
    ensures r.Failure? && !Unaccountable(w, targets, sources) ==> Excused(w, policies, now, old(cache.artifacts), r.error)
    ensures cache.reliable && r.Failure? ==> !IsTransient(r.error)
  {
    sels := [];
    var refused, passed := FirstPass(cache, w, worker, targets, sources, now);
    policies := passed;
    if refused.Some? {
      RefusalExcused(w, worker, targets, sources, policies, now, cache.artifacts, refused.value);
      if Readable(cache.artifacts) {
        GrownReadsIff(cache.artifacts, cache.artifacts);
      }
      return Failure(refused.value), policies, sels;
    }
    r, sels := SecondPass(cache, w, worker, passed, now);
    if Readable(old(cache.artifacts)) {
      GrownReadsIff(old(cache.artifacts), cache.artifacts);
    }
  }

  // ---------- preparing again ----------

  lemma {:induction false} AllSelectUnique(w: World, policies: seq<TargetPolicy>, now: nat, artifacts: Artifacts, one: seq<Selection>, two: seq<Selection>)
    requires |one| == |two| <= |policies| && AllSelect(w, policies, now, artifacts, one) && AllSelect(w, policies, now, artifacts, two)
    ensures one == two
    decreases |one|
  {
    if one != [] {
      var m := |one| - 1;
      AllSelectUnique(w, policies, now, artifacts, one[..m], two[..m]);
      FullSelectionUnique(ViewOf(w, policies[m], now).value, artifacts, one[m], two[m]);
      assert one == one[..m] + [one[m]] && two == two[..m] + [two[m]];
    }
  }

  /** A filled response shows that the cache is complete and, collisions aside, that it can be packed again. */
  lemma FilledIsPlannable(w: World, policies: seq<TargetPolicy>, now: nat, artifacts: Artifacts, sels: seq<Selection>, wire: seq<WireArtifact>)
    requires |sels| == |policies| && Filled(w, policies, now, artifacts, sels, wire) && (policies != [] ==> Readable(artifacts))
    ensures Complete(w, policies, now, artifacts)
    ensures Plannable(w, policies, now, artifacts) || HasCollision(w.hash)
  {
    FilledProvides(w, policies, now, artifacts, sels, wire);
    if !HasCollision(w.hash) {
      assert IsPlan(w, policies, now, artifacts, sels);
    }
  }

  lemma SameWire(w: World, policies: seq<TargetPolicy>, now: nat, artifacts: Artifacts, one: seq<Selection>, two: seq<Selection>,
                 wire: seq<WireArtifact>, again: seq<WireArtifact>)
    requires |one| == |two| == |policies| && Filled(w, policies, now, artifacts, one, wire) && Filled(w, policies, now, artifacts, two, again)
    ensures wire == again || HasCollision(w.hash)
  {
    if !HasCollision(w.hash) {
      AllSelectUnique(w, policies, now, artifacts, one, two);
    }
  }

  lemma NoneMeansNotAny(w: World, policies: seq<TargetPolicy>, now: nat, artifacts: Artifacts)
    requires NoneExhausted(w, policies, now, artifacts, |policies|)
    ensures !AnyExhausted(w, policies, now, artifacts)
  {
    forall j | 0 <= j < |policies| ensures !Exhausted(w, policies[j], now, artifacts)
    {
      NoneExhaustedAt(w, policies, now, artifacts, |policies|, j);
    }
  }

  /** A repeated preparation that succeeds reuses everything, creates nothing and packs the same. */
  ghost predicate SameAnswer(w: World, policies: seq<TargetPolicy>, now: nat, artifacts: Artifacts, first: Response, second: Response)
  {
    && second.created == 0 && second.reused == first.reused + first.created
    && (second.wire == first.wire || HasCollision(w.hash)) && !AnyExhausted(w, policies, now, artifacts)
  }

  lemma AnsweredAgain(w: World, worker: Worker, policies: seq<TargetPolicy>, now: nat, start: Artifacts, between: Artifacts,
                      one: seq<Selection>, first: Response, two: seq<Selection>, second: Response)
    requires worker.execute && Answered(w, worker, policies, now, start, between, one, first)
    requires Answered(w, worker, policies, now, between, between, two, second)
    ensures SameAnswer(w, policies, now, between, first, second)
  {
    FilledProvides(w, policies, now, between, one, first.wire);
    SameWire(w, policies, now, between, one, two, first.wire, second.wire);
    NoneMeansNotAny(w, policies, now, between);
  }

  /** Why a repeated preparation can fail. */
  ghost predicate CannotRepeat(w: World, policies: seq<TargetPolicy>, now: nat, artifacts: Artifacts, e: PrepareError)
  {
    || IsTransient(e) || (e.GenerationExhausted? && AnyExhausted(w, policies, now, artifacts))
    || (e == NotPacked(TooLarge) && HasCollision(w.hash))
  }

  lemma ExcusedAgain(w: World, worker: Worker, policies: seq<TargetPolicy>, now: nat, start: Artifacts, between: Artifacts,
                     one: seq<Selection>, first: Response, e: PrepareError)
    requires worker.execute && Answered(w, worker, policies, now, start, between, one, first)
    requires Excused(w, policies, now, between, e)
    ensures CannotRepeat(w, policies, now, between, e)
  {
    FilledIsPlannable(w, policies, now, between, one, first.wire);
  }

  lemma AccountedUnique(w: World, targets: seq<TargetRequest>, sources: set<Text>, one: seq<TargetPolicy>, two: seq<TargetPolicy>)
    requires |one| == |targets| == |two|
    requires Accounted(w, targets, one, TargetsTo(one, |one|), sources) && Accounted(w, targets, two, TargetsTo(two, |two|), sources)
    ensures one == two
  {
    PoliciesUnique(w, targets, one, two, |targets|);
    assert one == one[..|targets|] && two == two[..|targets|];
  }

  /** A second run over no targets at all, because the request was refused, can only have met I/O. */
  lemma NothingToExcuse(w: World, now: nat, artifacts: Artifacts, e: PrepareError)
    requires Excused(w, [], now, artifacts, e)
    ensures IsTransient(e)
  {
    assert IsPlan(w, [], now, artifacts, []);
    assert Complete(w, [], now, artifacts) && Plannable(w, [], now, artifacts);
  }

  lemma FirstAccounts(w: World, worker: Worker, targets: seq<TargetRequest>, sources: set<Text>, policies: seq<TargetPolicy>, again: seq<TargetPolicy>,
                      now: nat, start: Artifacts, between: Artifacts, one: seq<Selection>, first: Response)
    requires worker.execute && Answered(w, worker, policies, now, start, between, one, first)
    requires |policies| == |targets| && Accounted(w, targets, policies, TargetsTo(policies, |policies|), sources)
    requires again != [] ==> |again| == |targets| && Accounted(w, targets, again, TargetsTo(again, |again|), sources)
    ensures !Unaccountable(w, targets, sources) && AllWithin(w, again, between, now, |again|) && (again == [] || again == policies)
  {
    FilledProvides(w, policies, now, between, one, first.wire);
    if again != [] {
      AccountedUnique(w, targets, sources, policies, again);
    }
  }

  /** Preparation converges: repeated at the same clock, a successful request leaves the cache alone and,
      when it succeeds again, has reused every artifact, created none and packed the same response. It can
      fail only by I/O, by a hash collision, or when some reused artifact already has the last generation:
      then it cannot succeed, even though nothing is missing. Creating under that generation is enough. */
  method PrepareTwice(cache: Cache, w: World, worker: Worker, targets: seq<TargetRequest>, sources: set<Text>, now: nat)
    returns (first: Result<Response, PrepareError>, second: Result<Response, PrepareError>, ghost between: Artifacts, ghost policies: seq<TargetPolicy>)
    requires cache.h == w.hash && worker.execute
    modifies cache`artifacts
    ensures first.Success? ==> cache.artifacts == between
    ensures first.Success? && second.Success? ==> SameAnswer(w, policies, now, between, first.value, second.value)
    ensures first.Success? && second.Failure? ==> CannotRepeat(w, policies, now, between, second.error)
    ensures first.Success? && second.Success? && first.value.created > 0 && worker.generation == Some(U64_MAX) ==> HasCollision(w.hash)
    ensures cache.reliable && first.Success? && second.Failure? ==> !IsTransient(second.error)
  {
    ghost var start, one := cache.artifacts, [];
    first, policies, one := PrepareRequest(cache, w, worker, targets, sources, now);
    between := cache.artifacts;
    second := PrepareAgain(cache, w, worker, targets, sources, now, policies, start, one, first);
  }

  /** The second run, given what the first one returned. */
  method PrepareAgain(cache: Cache, w: World, worker: Worker, targets: seq<TargetRequest>, sources: set<Text>, now: nat,
                      ghost policies: seq<TargetPolicy>, ghost start: Artifacts, ghost one: seq<Selection>, ghost first: Result<Response, PrepareError>)
    returns (second: Result<Response, PrepareError>)
    requires cache.h == w.hash && worker.execute
    requires first.Success? ==> Answered(w, worker, policies, now, start, cache.artifacts, one, first.value)
    requires first.Success? ==> |policies| == |targets| && Accounted(w, targets, policies, TargetsTo(policies, |policies|), sources)
    modifies cache`artifacts
    ensures first.Success? ==> cache.artifacts == old(cache.artifacts)
    ensures first.Success? && second.Success? ==> SameAnswer(w, policies, now, cache.artifacts, first.value, second.value)
    ensures first.Success? && second.Failure? ==> CannotRepeat(w, policies, now, cache.artifacts, second.error)
    ensures first.Success? && second.Success? && first.value.created > 0 && worker.generation == Some(U64_MAX) ==> HasCollision(w.hash)
    ensures cache.reliable && first.Success? && second.Failure? ==> !IsTransient(second.error)
  {
    ghost var again, two := [], [];
    second, again, two := PrepareRequest(cache, w, worker, targets, sources, now);
    if first.Success? {
      FirstAccounts(w, worker, targets, sources, policies, again, now, start, old(cache.artifacts), one, first.value);
      if second.Success? {
        AccountedUnique(w, targets, sources, policies, again);
        AnsweredAgain(w, worker, policies, now, start, cache.artifacts, one, first.value, two, second.value);
      } else if again == [] {
        NothingToExcuse(w, now, cache.artifacts, second.error);
      } else {
        ExcusedAgain(w, worker, policies, now, start, cache.artifacts, one, first.value, second.error);
      }
    }
  }
}
