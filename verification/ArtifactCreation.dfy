/** Creating the artifacts a target lacks: which generation they get and where they go. */
module ArtifactCreation {
  import opened Prelude
  import opened CacheAddress
  import opened CacheStore
  import opened CacheRetention
  import opened CacheRoom
  import opened CacheOperations
  import opened ArtifactPolicy
  import opened ArtifactSelection
  import opened FullSelection
  import opened Transport
  import opened PreparedResponse
  import opened PreparationRequest

  predicate SomeExhausted(selected: map<Text, Candidate>)
  {
    exists id | id in selected :: selected[id].generation >= U64_MAX
  }

  /** The newest generation among the selected artifacts. */
  method NewestGeneration(selected: map<Text, Candidate>) returns (newest: nat)
    ensures forall id | id in selected :: selected[id].generation <= newest
    ensures newest == 0 || exists id | id in selected :: selected[id].generation == newest
  {
    newest := 0;
    var todo := selected.Keys;
    while todo != {}
      invariant todo <= selected.Keys
      invariant forall id | id in selected && id !in todo :: selected[id].generation <= newest
      invariant newest == 0 || exists id | id in selected :: selected[id].generation == newest
      decreases |todo|
    {
      var id :| id in todo;
      newest := if selected[id].generation > newest then selected[id].generation else newest;
      todo := todo - {id};
    }
  }

  /** Not before the clock and later than every reused artifact. */
  predicate NewerThan(generation: nat, selected: map<Text, Candidate>, now: nat)
  {
    generation >= now && forall id | id in selected :: selected[id].generation < generation
  }

  /** The first such generation; generations begin at one. */
  ghost predicate FirstNewer(generation: nat, selected: map<Text, Candidate>, now: nat)
  {
    && generation > 0 && NewerThan(generation, selected, now)
    && forall g: nat | g > 0 && NewerThan(g, selected, now) :: generation <= g
  }

  ghost predicate Chosen(worker: Worker, selected: map<Text, Candidate>, now: nat, generation: nat)
  {
    match worker.generation
    case Some(asked) => generation == asked
    case None => FirstNewer(generation, selected, now)
  }

  /** The generation of new artifacts: by default the first that is not before the clock and later than
      anything that is reused. An exhausted counter is an error even when a generation was asked for. */
  method ChooseGeneration(worker: Worker, selected: map<Text, Candidate>, now: nat) returns (r: Result<nat, PrepareError>)
    ensures r.Success? ==> Chosen(worker, selected, now, r.value)
    ensures r.Failure? <==> SomeExhausted(selected)
    ensures r.Failure? ==> r.error.GenerationExhausted?
  {
    var newest := NewestGeneration(selected);
    if newest + 1 > U64_MAX {
      return Failure(GenerationExhausted);
    }
    var fallback := if now > newest + 1 then now else newest + 1;
    r := Success(if worker.generation.Some? then worker.generation.value else fallback);
  }

  /** Where a new artifact goes. */
  function NewKey(w: World, policy: TargetPolicy, id: Text, generation: nat): (k: Option<Text>)
    requires id in policy.secrets
  {
    match (w.policyHash(policy, id), w.fingerprint(policy.recipient))
    case (Some(hash), Some(fingerprint)) =>
      Key(w.hash, AddressOf(hash, policy.secrets[id].ciphertextHash, fingerprint, policy.targetId, id, generation))
    case _ => None
  }

  /** create_target_artifact: encryption and signing are outside the model, so the bytes are arbitrary;
      it either fails or leaves one record under the secret's own key. */
  method CreateTargetArtifact(cache: Cache, w: World, policy: TargetPolicy, id: Text, generation: nat) returns (r: Result<(), CacheError>)
    requires id in policy.secrets && cache.h == w.hash
    modifies cache`artifacts
    ensures PartOf(old(cache.artifacts), cache.artifacts)
    ensures r.Success? ==> NewKey(w, policy, id, generation).Some? && NewKey(w, policy, id, generation).value in cache.artifacts
    ensures forall k | k in cache.artifacts && k !in old(cache.artifacts) :: NewKey(w, policy, id, generation) == Some(k)
    ensures NewReads(old(cache.artifacts), cache.artifacts)
    ensures cache.reliable ==> r != Failure(Io)
  {
    var key := NewKey(w, policy, id, generation);
    if key.None? {
      return Failure(InvalidAddress);
    }
    var ciphertext: Bytes, envelope: Bytes := *, *;
    var stored := cache.PutArtifactByKey(key.value, ciphertext, envelope);
    if stored.Failure? {
      var reusable: bool := *;
      if stored.error != ArtifactExists || !reusable {
        return Failure(stored.error);
      }
    }
    r := Success(());
  }

  /** Every new record is an artifact of this generation for a secret that had none. */
  ghost predicate NewUnder(w: World, policy: TargetPolicy, selected: map<Text, Candidate>, generation: nat, before: Artifacts, after: Artifacts)
  {
    forall k | k in after && k !in before :: IsNewKey(w, policy, selected, generation, k)
  }

  ghost predicate IsNewKey(w: World, policy: TargetPolicy, selected: map<Text, Candidate>, generation: nat, k: Text)
  {
    exists id :: id in policy.secrets && id !in selected && NewKey(w, policy, id, generation) == Some(k)
  }

  /** The cache has grown by new artifacts only. */
  ghost predicate Extended(w: World, policy: TargetPolicy, selected: map<Text, Candidate>, generation: nat, before: Artifacts, after: Artifacts)
  {
    PartOf(before, after) && NewUnder(w, policy, selected, generation, before, after) && NewReads(before, after)
  }

  lemma ExtendedOnce(w: World, policy: TargetPolicy, selected: map<Text, Candidate>, generation: nat, start: Artifacts, before: Artifacts, after: Artifacts, id: Text)
    requires Extended(w, policy, selected, generation, start, before) && PartOf(before, after) && NewReads(before, after)
    requires id in policy.secrets && id !in selected
    requires forall k | k in after && k !in before :: NewKey(w, policy, id, generation) == Some(k)
    ensures Extended(w, policy, selected, generation, start, after)
  {
    PartChains(start, before, after);
    forall k | k in after && k !in start ensures IsNewKey(w, policy, selected, generation, k)
    {
      if k !in before {
        assert NewKey(w, policy, id, generation) == Some(k);
      }
    }
  }

  /** Creates an artifact for one secret unless it has one. */
  method CreateIfMissing(cache: Cache, w: World, policy: TargetPolicy, id: Text, selected: map<Text, Candidate>, generation: nat, ghost start: Artifacts)
    returns (r: Result<nat, CacheError>)
    requires cache.h == w.hash && id in policy.secrets && Extended(w, policy, selected, generation, start, cache.artifacts)
    modifies cache`artifacts
    ensures Extended(w, policy, selected, generation, start, cache.artifacts)
    ensures r.Success? ==> r.value == if id in selected then 0 else 1
    ensures r.Failure? ==> id !in selected
    ensures r.Success? && r.value == 0 ==> cache.artifacts == old(cache.artifacts)
    ensures cache.reliable ==> r != Failure(Io)
  {
    if id in selected {
      return Success(0);
    }
    var made := CreateTargetArtifact(cache, w, policy, id, generation);
    ExtendedOnce(w, policy, selected, generation, start, old(cache.artifacts), cache.artifacts, id);
    r := if made.Failure? then Failure(made.error) else Success(1);
  }

  /** Creates an artifact for every listed secret that has none. */
  method CreateListed(cache: Cache, w: World, policy: TargetPolicy, ids: seq<Text>, selected: map<Text, Candidate>, generation: nat) returns (r: Result<nat, CacheError>)
    requires cache.h == w.hash && forall j | 0 <= j < |ids| :: ids[j] in policy.secrets
    modifies cache`artifacts
    ensures Extended(w, policy, selected, generation, old(cache.artifacts), cache.artifacts)
    ensures r.Success? ==> r.value + CountIn(ids, |ids|, selected.Keys) == |ids|
    ensures policy.secrets.Keys <= selected.Keys ==> r.Success? && cache.artifacts == old(cache.artifacts)
    ensures cache.reliable ==> r != Failure(Io)
  {
    var i: nat, created: nat := 0, 0;
    while i < |ids|
      invariant 0 <= i <= |ids| && created + CountIn(ids, i, selected.Keys) == i
      invariant Extended(w, policy, selected, generation, old(cache.artifacts), cache.artifacts)
      invariant created == 0 ==> cache.artifacts == old(cache.artifacts)
      invariant policy.secrets.Keys <= selected.Keys ==> created == 0
    {
      var made := CreateIfMissing(cache, w, policy, ids[i], selected, generation, old(cache.artifacts));
      if made.Failure? {
        return Failure(made.error);
      }
      created, i := created + made.value, i + 1;
    }
    r := Success(created);
  }

  /** Creates an artifact for every secret that has none. */
  method CreateMissing(cache: Cache, w: World, policy: TargetPolicy, selected: map<Text, Candidate>, generation: nat) returns (r: Result<nat, CacheError>)
    requires cache.h == w.hash && selected.Keys <= policy.secrets.Keys
    modifies cache`artifacts
    ensures Extended(w, policy, selected, generation, old(cache.artifacts), cache.artifacts)
    ensures r.Success? ==> r.value + |selected| == |policy.secrets|
    ensures selected.Keys == policy.secrets.Keys ==> r.Success? && cache.artifacts == old(cache.artifacts)
    ensures cache.reliable ==> r != Failure(Io)
  {
    var ids := ListDirectory(policy.secrets.Keys);
    forall j | 0 <= j < |ids| ensures ids[j] in policy.secrets
    {
      ListedMember(ids, j, |ids|);
    }
    MissingCount(ids, policy, selected);
    r := CreateListed(cache, w, policy, ids, selected, generation);
  }

  lemma PartChains(a: Artifacts, b: Artifacts, c: Artifacts)
    requires PartOf(a, b) && PartOf(b, c)
    ensures PartOf(a, c)
  {
  }

  lemma MissingCount(ids: seq<Text>, policy: TargetPolicy, selected: map<Text, Candidate>)
    requires Lists(ids, policy.secrets.Keys) && selected.Keys <= policy.secrets.Keys
    ensures |ids| == |policy.secrets| && CountIn(ids, |ids|, selected.Keys) == |selected|
  {
    CountListed(ids, |ids|, selected.Keys);
    ListedCount(ids, |ids|);
    assert policy.secrets.Keys * selected.Keys == selected.Keys;
    assert |selected| == |selected.Keys| && |policy.secrets| == |policy.secrets.Keys|;
  }

  lemma CompleteCount(policy: TargetPolicy, selected: map<Text, Candidate>)
    ensures selected.Keys == policy.secrets.Keys ==> |selected| == |policy.secrets|
  {
    assert |selected| == |selected.Keys| && |policy.secrets| == |policy.secrets.Keys|;
  }

  /** Creates what cannot be reused, under one generation: how many artifacts. */
  method CreateRest(cache: Cache, w: World, worker: Worker, policy: TargetPolicy, selected: map<Text, Candidate>, now: nat) returns (r: Result<nat, PrepareError>, ghost generation: nat)
    requires cache.h == w.hash && selected.Keys <= policy.secrets.Keys
    modifies cache`artifacts
    ensures Extended(w, policy, selected, generation, old(cache.artifacts), cache.artifacts)
    ensures Chosen(worker, selected, now, generation) || cache.artifacts == old(cache.artifacts)
    ensures r.Success? ==> Chosen(worker, selected, now, generation)
    ensures r.Failure? ==> r.error.GenerationExhausted? || r.error.NotCreated?
    ensures r.Failure? && r.error.GenerationExhausted? ==> SomeExhausted(selected)
    ensures r.Success? ==> !SomeExhausted(selected)
    ensures r.Success? ==> r.value + |selected| == |policy.secrets|
    ensures selected.Keys == policy.secrets.Keys ==> cache.artifacts == old(cache.artifacts)
    ensures selected.Keys == policy.secrets.Keys ==> if r.Success? then r.value == 0 else r.error.GenerationExhausted?
    ensures cache.reliable && r.Failure? ==> !IsTransient(r.error)
  {
    generation := 0;
    var chosen := ChooseGeneration(worker, selected, now);
    if chosen.Failure? {
      return Failure(chosen.error), generation;
    }
    generation := chosen.value;
    CompleteCount(policy, selected);
    var created := CreateMissing(cache, w, policy, selected, chosen.value);
    r := if created.Failure? then Failure(NotCreated(created.error)) else Success(created.value);
  }

  /** New artifacts are filed under addresses of their target. */
  lemma ExtendedIsNewFor(w: World, policy: TargetPolicy, selected: map<Text, Candidate>, generation: nat, before: Artifacts, after: Artifacts)
    requires Extended(w, policy, selected, generation, before, after)
    ensures PartOf(before, after) && NewFor(w, policy.targetId, before, after)
  {
    forall k | k in after && k !in before ensures KeyedFor(w, policy.targetId, k)
    {
      assert IsNewKey(w, policy, selected, generation, k);
      var id :| id in policy.secrets && id !in selected && NewKey(w, policy, id, generation) == Some(k);
      var a := AddressOf(w.policyHash(policy, id).value, policy.secrets[id].ciphertextHash, w.fingerprint(policy.recipient).value,
        policy.targetId, id, generation);
      assert a.targetId == policy.targetId && Key(w.hash, a) == Some(k);
    }
  }
}
