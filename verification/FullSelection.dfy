/** inspect_all: one selection over the four activation phases of a target. */
module FullSelection {
  import opened Prelude
  import opened CacheAddress
  import opened CacheStore
  import opened CacheRecords
  import opened CacheOperations
  import opened ArtifactPolicy
  import opened ArtifactSelection
  import opened ArtifactInspection

  const PHASES: seq<Phase> := [Partitioning, Users, Activation, Services]

  const PREPARE_SKEW: nat := 300

  /** The view of the phase a secret belongs to. */
  function In(v: View, phase: Phase): (r: View)
  {
    v.(phase := phase)
  }

  /** The bundle under `k` verifies for secret `id` in that secret's own phase. */
  predicate VerifiesIn(v: View, artifacts: Artifacts, k: Text, id: Text, g: nat)
  {
    id in v.policy.secrets && Verifies(In(v, v.policy.secrets[id].phase), artifacts, k, id, g)
  }

  /** The newest verified artifact of every secret of the given phases. */
  ghost predicate SelectsPhases(v: View, artifacts: Artifacts, phases: set<Phase>, selected: map<Text, Candidate>)
  {
    && (forall id | id in selected :: VerifiesIn(v, artifacts, selected[id].key, id, selected[id].generation) && v.policy.secrets[id].phase in phases)
    && (forall k, id, g: nat | VerifiesIn(v, artifacts, k, id, g) && v.policy.secrets[id].phase in phases ::
          id in selected && (selected[id] == Candidate(k, g) || g < selected[id].generation))
  }

  const EVERY_PHASE: set<Phase> := {Partitioning, Users, Activation, Services}

  lemma AnyPhase(phase: Phase)
    ensures phase in EVERY_PHASE
  {
  }

  ghost predicate IsFullSelection(v: View, artifacts: Artifacts, selected: map<Text, Candidate>)
  {
    SelectsPhases(v, artifacts, EVERY_PHASE, selected)
  }

  /** Verification in some phase is verification in the secret's own phase. */
  lemma OwnPhase(v: View, artifacts: Artifacts, phase: Phase, k: Text, id: Text, g: nat)
    ensures Verifies(In(v, phase), artifacts, k, id, g) <==> VerifiesIn(v, artifacts, k, id, g) && v.policy.secrets[id].phase == phase
  {
    if Verifies(In(v, phase), artifacts, k, id, g) {
      AcceptedBinding(In(v, phase), RecordFor(v.w.hash, artifacts, k), id, g);
    }
  }

  lemma PhaseAdded(v: View, artifacts: Artifacts, phases: set<Phase>, selected: map<Text, Candidate>, phase: Phase, more: map<Text, Candidate>)
    requires SelectsPhases(v, artifacts, phases, selected) && phase !in phases && IsSelection(In(v, phase), artifacts, more)
    ensures SelectsPhases(v, artifacts, phases + {phase}, selected + more)
  {
    var all := selected + more;
    forall id | id in all
      ensures VerifiesIn(v, artifacts, all[id].key, id, all[id].generation) && v.policy.secrets[id].phase in phases + {phase}
    {
      if id in more {
        OwnPhase(v, artifacts, phase, more[id].key, id, more[id].generation);
      }
    }
    forall k, id, g: nat | VerifiesIn(v, artifacts, k, id, g) && v.policy.secrets[id].phase in phases + {phase}
      ensures id in all && (all[id] == Candidate(k, g) || g < all[id].generation)
    {
      PhaseAddedAt(v, artifacts, phases, selected, phase, more, k, id, g);
    }
  }

  lemma PhaseAddedAt(v: View, artifacts: Artifacts, phases: set<Phase>, selected: map<Text, Candidate>, phase: Phase, more: map<Text, Candidate>, k: Text, id: Text, g: nat)
    requires SelectsPhases(v, artifacts, phases, selected) && phase !in phases && IsSelection(In(v, phase), artifacts, more)
    requires VerifiesIn(v, artifacts, k, id, g) && v.policy.secrets[id].phase in phases + {phase}
    ensures var all := selected + more; id in all && (all[id] == Candidate(k, g) || g < all[id].generation)
  {
    OwnPhase(v, artifacts, phase, k, id, g);
    if id in more {
      OwnPhase(v, artifacts, phase, more[id].key, id, more[id].generation);
    }
  }

  /** A full selection is the newest genuine artifact of every secret, judged in the secret's own phase. */
  lemma FullSelectionIsGenuine(v: View, artifacts: Artifacts, selected: map<Text, Candidate>)
    requires IsFullSelection(v, artifacts, selected) && forall k | k in artifacts :: artifacts[k].Bundle?
    ensures forall id | id in selected :: GenuineIn(v, artifacts, selected[id].key, id, selected[id].generation)
    ensures forall k, id, g: nat | GenuineIn(v, artifacts, k, id, g) :: id in selected && g <= selected[id].generation
  {
    forall k, id, g: nat ensures VerifiesIn(v, artifacts, k, id, g) <==> GenuineIn(v, artifacts, k, id, g)
    {
      if id in v.policy.secrets {
        VerifiesIff(In(v, v.policy.secrets[id].phase), artifacts, k, id, g);
      }
    }
    forall k, id, g: nat | GenuineIn(v, artifacts, k, id, g) ensures id in selected && g <= selected[id].generation
    {
      AnyPhase(v.policy.secrets[id].phase);
    }
  }

  ghost predicate GenuineIn(v: View, artifacts: Artifacts, k: Text, id: Text, g: nat)
  {
    && id in v.policy.secrets
    && Genuine(View(v.w, v.policy, v.fingerprint, v.policy.secrets[id].phase, v.now, v.skew), artifacts, k, id, g)
  }

  /** Preparation looks at a target with its recipient's fingerprint, its own clock and 300 seconds of skew. */
  lemma ViewOfMeans(w: World, policy: TargetPolicy, now: nat)
    ensures ViewOf(w, policy, now).Some? <==> w.fingerprint(policy.recipient).Some?
    ensures ViewOf(w, policy, now).Some? ==>
      var v := ViewOf(w, policy, now).value;
      v.w == w && v.policy == policy && Some(v.fingerprint) == w.fingerprint(policy.recipient) && v.now == now && v.skew == 300
  {
  }

  function PhasesTo(i: nat): (r: set<Phase>)
    requires i <= 4
  {
    if i == 0 then {} else PhasesTo(i - 1) + {PHASES[i - 1]}
  }

  lemma NextPhase(i: nat)
    requires i < 4
    ensures PHASES[i] !in PhasesTo(i) && PhasesTo(4) == EVERY_PHASE
  {
    assert PhasesTo(2) == {Partitioning, Users};
    assert PhasesTo(4) == PhasesTo(2) + {Activation, Services};
  }

  function ViewOf(w: World, policy: TargetPolicy, now: nat): (v: Option<View>)
  {
    match w.fingerprint(policy.recipient)
    case None => None
    case Some(fingerprint) => Some(View(w, policy, fingerprint, Activation, now, PREPARE_SKEW))
  }

  /** Inspection of this target fails whatever the file operations do. */
  ghost predicate Uninspectable(w: World, policy: TargetPolicy, now: nat, artifacts: Artifacts)
  {
    || !Readable(artifacts)
    || ViewOf(w, policy, now).None?
    || exists phase :: HasFatal(In(ViewOf(w, policy, now).value, phase), artifacts)
  }

  /** One phase of inspect_all. */
  method InspectPhase(cache: Cache, w: World, policy: TargetPolicy, phase: Phase, now: nat) returns (r: Result<map<Text, Candidate>, InspectError>)
    requires cache.h == w.hash
    ensures r.Success? ==> ViewOf(w, policy, now).Some? && Readable(cache.artifacts)
    ensures r.Success? ==> IsSelection(In(ViewOf(w, policy, now).value, phase), cache.artifacts, r.value)
    ensures r.Failure? && r.error != CacheFailed(Io) ==> Uninspectable(w, policy, now, cache.artifacts)
    ensures cache.reliable ==> r != Failure(CacheFailed(Io))
  {
    var inspection := InspectActivationArtifacts(cache, w, policy, phase, now, PREPARE_SKEW);
    ghost var v := ViewOf(w, policy, now);
    assert v.Some? ==> In(v.value, phase) == View(w, policy, v.value.fingerprint, phase, now, PREPARE_SKEW);
    r := if inspection.Failure? then Failure(inspection.error) else Success(inspection.value.selected);
  }

  /** inspect_all, at one clock. */
  method InspectAll(cache: Cache, w: World, policy: TargetPolicy, now: nat) returns (r: Result<map<Text, Candidate>, InspectError>)
    requires cache.h == w.hash
    ensures r.Success? ==> ViewOf(w, policy, now).Some? && Readable(cache.artifacts)
    ensures r.Success? ==> IsFullSelection(ViewOf(w, policy, now).value, cache.artifacts, r.value)
    ensures r.Failure? && r.error != CacheFailed(Io) ==> Uninspectable(w, policy, now, cache.artifacts)
    ensures cache.reliable ==> r != Failure(CacheFailed(Io))
  {
    var selected: map<Text, Candidate> := map[];
    var i: nat := 0;
    while i < |PHASES|
      invariant 0 <= i <= 4
      invariant i > 0 ==> ViewOf(w, policy, now).Some? && Readable(cache.artifacts)
      invariant ViewOf(w, policy, now).Some? ==> SelectsPhases(ViewOf(w, policy, now).value, cache.artifacts, PhasesTo(i), selected)
    {
      var inspected := InspectPhase(cache, w, policy, PHASES[i], now);
      if inspected.Failure? {
        return Failure(inspected.error);
      }
      NextPhase(i);
      PhaseAdded(ViewOf(w, policy, now).value, cache.artifacts, PhasesTo(i), selected, PHASES[i], inspected.value);
      selected, i := selected + inspected.value, i + 1;
    }
    NextPhase(0);
    r := Success(selected);
  }

  // ---------- one artifact, one secret ----------

  /** A bundle verifies for one target and one secret only. */
  lemma OneOwner(v: View, u: View, artifacts: Artifacts, k: Text, id: Text, g: nat, other: Text, f: nat)
    requires v.w == u.w && VerifiesIn(v, artifacts, k, id, g) && VerifiesIn(u, artifacts, k, other, f)
    ensures id == other && g == f && v.policy.targetId == u.policy.targetId
  {
    AcceptedManifest(In(v, v.policy.secrets[id].phase), RecordFor(v.w.hash, artifacts, k), id, g);
    AcceptedManifest(In(u, u.policy.secrets[other].phase), RecordFor(v.w.hash, artifacts, k), other, f);
  }

  lemma FullSelectionUnique(v: View, artifacts: Artifacts, one: map<Text, Candidate>, two: map<Text, Candidate>)
    requires IsFullSelection(v, artifacts, one) && IsFullSelection(v, artifacts, two)
    ensures one == two
  {
    forall id ensures Lookup(one, id) == Lookup(two, id)
    {
      if id in one {
        assert VerifiesIn(v, artifacts, one[id].key, id, one[id].generation);
      }
      if id in two {
        assert VerifiesIn(v, artifacts, two[id].key, id, two[id].generation);
      }
    }
    MapsEqual(one, two);
  }

  /** What verifies for every secret, with nothing else verifying, is the selection. */
  lemma OnlyVerified(v: View, artifacts: Artifacts, selected: map<Text, Candidate>)
    requires forall id | id in selected :: VerifiesIn(v, artifacts, selected[id].key, id, selected[id].generation)
    requires forall k, id, g: nat | VerifiesIn(v, artifacts, k, id, g) :: id in selected && selected[id] == Candidate(k, g)
    ensures IsFullSelection(v, artifacts, selected)
  {
    forall id | id in selected
      ensures VerifiesIn(v, artifacts, selected[id].key, id, selected[id].generation) && v.policy.secrets[id].phase in EVERY_PHASE
    {
      assert VerifiesIn(v, artifacts, selected[id].key, id, selected[id].generation);
      AnyPhase(v.policy.secrets[id].phase);
    }
  }

  lemma SelectsOwnSecrets(v: View, artifacts: Artifacts, selected: map<Text, Candidate>)
    requires IsFullSelection(v, artifacts, selected)
    ensures selected.Keys <= v.policy.secrets.Keys
  {
    forall id | id in selected ensures id in v.policy.secrets
    {
      assert VerifiesIn(v, artifacts, selected[id].key, id, selected[id].generation);
    }
  }
}
