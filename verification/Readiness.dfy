/** Whether a cache is ready for activation: the same inspection as activation makes, phase by phase and
    with the clock skew the activation specification allows. */
module Readiness {
  import opened Prelude
  import opened CacheAddress
  import opened CacheStore
  import opened CacheRecords
  import opened CacheOperations
  import opened ArtifactPolicy
  import opened ArtifactSelection
  import opened ArtifactInspection
  import opened FullSelection
  import opened Transport

  /** What an activation specification adds to the policy of its target. */
  datatype ActivationSpec = ActivationSpec(phase: Phase, skew: nat)

  function SpecView(w: World, policy: TargetPolicy, spec: ActivationSpec, now: nat): (v: Option<View>)
  {
    match w.fingerprint(policy.recipient)
    case None => None
    case Some(fingerprint) => Some(View(w, policy, fingerprint, spec.phase, now, spec.skew))
  }

  // ---------- one view ----------

  ghost predicate FurnishedWith(u: View, artifacts: Artifacts, id: Text)
  {
    exists k, g: nat :: Verifies(u, artifacts, k, id, g)
  }

  /** Every secret of the phase has a verified artifact. */
  ghost predicate Furnished(u: View, artifacts: Artifacts)
  {
    forall id | Wanted(u, id) :: FurnishedWith(u, artifacts, id)
  }

  /** Where nothing is missing no record can make the inspection fail. */
  lemma FurnishedNeverFatal(u: View, artifacts: Artifacts)
    requires Furnished(u, artifacts)
    ensures !HasFatal(u, artifacts)
  {
    if HasFatal(u, artifacts) {
      var k :| k in artifacts && JudgeAt(u, artifacts, k).Fatal?;
      var r := RecordFor(u.w.hash, artifacts, k);
      FatalIsWanted(u, r);
      var id := u.w.envelope(r.envelope).manifest.secretId;
      assert FurnishedWith(u, artifacts, id);
      var j, g: nat :| Verifies(u, artifacts, j, id, g);
      AcceptedPrecludesFatal(u, RecordFor(u.w.hash, artifacts, j), r, id, g);
    }
  }

  /** An inspection reports that nothing is missing exactly if nothing is. */
  lemma ReportsReadyIff(u: View, artifacts: Artifacts, i: Inspection)
    requires Reports(u, artifacts, i)
    ensures IsReady(i) <==> Furnished(u, artifacts)
  {
    OnlyWantedSelected(u, artifacts, i.selected);
    if IsReady(i) {
      forall id | Wanted(u, id) ensures FurnishedWith(u, artifacts, id)
      {
        assert id in WantedSecrets(u) && id in i.selected;
        assert Verifies(u, artifacts, i.selected[id].key, id, i.selected[id].generation);
      }
    }
    if Furnished(u, artifacts) {
      forall id | id in WantedSecrets(u) ensures id in i.selected
      {
        assert FurnishedWith(u, artifacts, id);
      }
      assert i.selected.Keys == WantedSecrets(u);
    }
  }

  /** An activation from this cache can read it and finds every artifact it needs. */
  ghost predicate SpecReady(w: World, policy: TargetPolicy, spec: ActivationSpec, now: nat, artifacts: Artifacts)
  {
    match SpecView(w, policy, spec, now)
    case None => false
    case Some(u) => Readable(artifacts) && Furnished(u, artifacts)
  }

  /** The same in terms of the bundles themselves: the recipient's key has a fingerprint, the cache reads, and
      every secret of the specification's phase has a genuine artifact at this clock and skew. */
  lemma SpecReadyIff(w: World, policy: TargetPolicy, spec: ActivationSpec, now: nat, artifacts: Artifacts)
    ensures SpecReady(w, policy, spec, now, artifacts) <==>
      && w.fingerprint(policy.recipient).Some? && Readable(artifacts)
      && var u := View(w, policy, w.fingerprint(policy.recipient).value, spec.phase, now, spec.skew);
      forall id | id in policy.secrets && policy.secrets[id].phase == spec.phase :: HasGenuine(u, artifacts, id)
  {
    if w.fingerprint(policy.recipient).Some? && Readable(artifacts) {
      var u := View(w, policy, w.fingerprint(policy.recipient).value, spec.phase, now, spec.skew);
      forall id ensures FurnishedWith(u, artifacts, id) <==> HasGenuine(u, artifacts, id)
      {
        forall k, g: nat ensures Verifies(u, artifacts, k, id, g) <==> Genuine(u, artifacts, k, id, g)
        {
          VerifiesIff(u, artifacts, k, id, g);
        }
      }
    }
  }

  ghost predicate HasGenuine(u: View, artifacts: Artifacts, id: Text)
  {
    exists k, g: nat :: Genuine(u, artifacts, k, id, g)
  }

  /** spec_report_in_cache and is_ready: I/O aside it says exactly whether activation is ready. */
  method CheckSpec(cache: Cache, w: World, policy: TargetPolicy, spec: ActivationSpec, now: nat) returns (r: Result<bool, InspectError>)
    requires cache.h == w.hash
    ensures r.Success? ==> (r.value <==> SpecReady(w, policy, spec, now, cache.artifacts))
    ensures r.Failure? && r.error != CacheFailed(Io) ==> !SpecReady(w, policy, spec, now, cache.artifacts)
    ensures cache.reliable ==> r != Failure(CacheFailed(Io))
  {
    var inspection := InspectActivationArtifacts(cache, w, policy, spec.phase, now, spec.skew);
    ghost var view := SpecView(w, policy, spec, now);
    if inspection.Failure? {
      if view.Some? && Furnished(view.value, cache.artifacts) {
        FurnishedNeverFatal(view.value, cache.artifacts);
      }
      return Failure(inspection.error);
    }
    ReportsReadyIff(view.value, cache.artifacts, inspection.value);
    r := Success(IsReady(inspection.value));
  }

  // ---------- what preparation provides ----------

  /** A specification that allows at least the skew preparation verifies with. */
  predicate Lenient(spec: ActivationSpec, now: nat)
  {
    PREPARE_SKEW <= spec.skew && now + spec.skew <= U64_MAX
  }

  /** What verifies with one skew verifies with a greater one. */
  lemma SkewGrows(u: View, skew: nat, r: Record, id: Text, g: nat)
    requires Judge(u, r) == Accepted(id, g) && u.skew <= skew && u.now + skew <= U64_MAX
    ensures Judge(u.(skew := skew), r) == Accepted(id, g)
  {
  }

  lemma ProvidedIsFurnished(w: World, policy: TargetPolicy, spec: ActivationSpec, now: nat, artifacts: Artifacts)
    requires Provided(w, policy, now, artifacts) && Lenient(spec, now)
    ensures SpecView(w, policy, spec, now).Some? && Furnished(SpecView(w, policy, spec, now).value, artifacts)
  {
    var v, u := ViewOf(w, policy, now).value, SpecView(w, policy, spec, now).value;
    forall id | Wanted(u, id) ensures FurnishedWith(u, artifacts, id)
    {
      assert SuppliedWith(v, artifacts, id);
      var k, g: nat :| VerifiesIn(v, artifacts, k, id, g);
      SkewGrows(In(v, spec.phase), spec.skew, RecordFor(w.hash, artifacts, k), id, g);
      assert Verifies(u, artifacts, k, id, g);
    }
  }

  /** A cache that provides for a target is ready for its activation, in every phase, if and only if its
      own reader accepts it. */
  lemma ProvidedIsReadyIff(w: World, policy: TargetPolicy, spec: ActivationSpec, now: nat, artifacts: Artifacts)
    requires Provided(w, policy, now, artifacts) && Lenient(spec, now)
    ensures SpecReady(w, policy, spec, now, artifacts) <==> Readable(artifacts)
  {
    ProvidedIsFurnished(w, policy, spec, now, artifacts);
  }

  // ---------- several specifications ----------

  ghost predicate SpecsReady(w: World, policy: TargetPolicy, specs: seq<ActivationSpec>, now: nat, artifacts: Artifacts, n: nat)
    requires n <= |specs|
  {
    n == 0 || (SpecsReady(w, policy, specs, now, artifacts, n - 1) && SpecReady(w, policy, specs[n - 1], now, artifacts))
  }

  lemma {:induction false} SpecReadyAt(w: World, policy: TargetPolicy, specs: seq<ActivationSpec>, now: nat, artifacts: Artifacts, n: nat, j: nat)
    requires j < n <= |specs| && SpecsReady(w, policy, specs, now, artifacts, n)
    ensures SpecReady(w, policy, specs[j], now, artifacts)
  {
    if j < n - 1 {
      SpecReadyAt(w, policy, specs, now, artifacts, n - 1, j);
    }
  }

  /** One target is ready: every one of its specifications is. */
  ghost predicate TargetReady(w: World, policy: TargetPolicy, specs: seq<ActivationSpec>, now: nat, artifacts: Artifacts)
  {
    SpecsReady(w, policy, specs, now, artifacts, |specs|)
  }

  /** All specifications of one target. */
  method CheckSpecs(cache: Cache, w: World, policy: TargetPolicy, specs: seq<ActivationSpec>, now: nat) returns (r: Result<bool, InspectError>)
    requires cache.h == w.hash
    ensures r.Success? ==> (r.value <==> TargetReady(w, policy, specs, now, cache.artifacts))
    ensures r.Failure? && r.error != CacheFailed(Io) ==> !TargetReady(w, policy, specs, now, cache.artifacts)
    ensures cache.reliable ==> r != Failure(CacheFailed(Io))
  {
    var i: nat := 0;
    while i < |specs|
      invariant 0 <= i <= |specs| && SpecsReady(w, policy, specs, now, cache.artifacts, i)
    {
      r := CheckSpec(cache, w, policy, specs[i], now);
      if r.Failure? || !r.value {
        if SpecsReady(w, policy, specs, now, cache.artifacts, |specs|) {
          SpecReadyAt(w, policy, specs, now, cache.artifacts, |specs|, i);
        }
        return;
      }
      i := i + 1;
    }
    r := Success(true);
  }

  predicate AllLenient(specs: seq<ActivationSpec>, now: nat, n: nat)
    requires n <= |specs|
  {
    n == 0 || (AllLenient(specs, now, n - 1) && Lenient(specs[n - 1], now))
  }

  lemma {:induction false} ProvidedIsReadyForAll(w: World, policy: TargetPolicy, specs: seq<ActivationSpec>, now: nat, artifacts: Artifacts, n: nat)
    requires n <= |specs| && Provided(w, policy, now, artifacts) && AllLenient(specs, now, n)
    ensures SpecsReady(w, policy, specs, now, artifacts, n) <==> n == 0 || Readable(artifacts)
  {
    if n > 0 {
      ProvidedIsReadyForAll(w, policy, specs, now, artifacts, n - 1);
      ProvidedIsReadyIff(w, policy, specs[n - 1], now, artifacts);
    }
  }

  /** Each of the first `i` targets is ready in its own cache. */
  ghost predicate AllReady(w: World, policies: seq<TargetPolicy>, specs: seq<seq<ActivationSpec>>, now: nat, caches: seq<Artifacts>, i: nat)
    requires i <= |policies| && i <= |specs| && i <= |caches|
  {
    forall j | 0 <= j < i :: TargetReady(w, policies[j], specs[j], now, caches[j])
  }

  predicate EachLenient(specs: seq<seq<ActivationSpec>>, now: nat)
  {
    forall j | 0 <= j < |specs| :: AllLenient(specs[j], now, |specs[j]|)
  }

  /** The same directory for every target. */
  function Shared(artifacts: Artifacts, n: nat): (caches: seq<Artifacts>)
  {
    seq(n, _ => artifacts)
  }
}
