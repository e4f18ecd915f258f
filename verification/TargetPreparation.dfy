/** Preparing one target: what verifies is reused, the rest is created, and everything is packed. */
module TargetPreparation {
  import opened Prelude
  import opened CacheAddress
  import opened CacheStore
  import opened CacheRecords
  import opened CacheOperations
  import opened ArtifactPolicy
  import opened ArtifactSelection
  import opened ArtifactInspection
  import opened FullSelection
  import opened Wire
  import opened Transport
  import opened Packing
  import opened Installation
  import opened PreparedResponse
  import opened PreparationRequest
  import opened ArtifactCreation

  datatype Counts = Counts(reused: nat, created: nat)

  function Plus(a: Counts, b: Counts): (c: Counts)
  {
    Counts(a.reused + b.reused, a.created + b.created)
  }

  // ---------- one target ----------

  /** Some artifact of the target already has the last generation there is. */
  ghost predicate Exhausted(w: World, policy: TargetPolicy, now: nat, artifacts: Artifacts)
  {
    ViewOf(w, policy, now).Some? && VerifiesExhausted(ViewOf(w, policy, now).value, artifacts)
  }

  ghost predicate VerifiesExhausted(v: View, artifacts: Artifacts)
  {
    exists k, id, g: nat :: VerifiesIn(v, artifacts, k, id, g) && g >= U64_MAX
  }

  /** The secrets of a target that a cache has a verified artifact for. */
  ghost function SuppliedIds(w: World, policy: TargetPolicy, now: nat, artifacts: Artifacts): (ids: set<Text>)
  {
    match ViewOf(w, policy, now)
    case None => {}
    case Some(v) => set id | id in policy.secrets && SuppliedWith(v, artifacts, id)
  }

  /** How many there are. */
  ghost function SuppliedCount(w: World, policy: TargetPolicy, now: nat, artifacts: Artifacts): (n: nat)
  {
    |SuppliedIds(w, policy, now, artifacts)|
  }

  lemma SelectedAreSupplied(w: World, policy: TargetPolicy, now: nat, artifacts: Artifacts, sel: Selection)
    requires Selects(w, policy, now, artifacts, sel)
    ensures |sel| == SuppliedCount(w, policy, now, artifacts)
  {
    var v := ViewOf(w, policy, now).value;
    forall id ensures id in sel <==> id in SuppliedIds(w, policy, now, artifacts)
    {
      SelectedIffSupplied(v, artifacts, sel, id);
    }
    assert sel.Keys == SuppliedIds(w, policy, now, artifacts) && |sel| == |sel.Keys|;
  }

  lemma ExhaustionSelected(v: View, artifacts: Artifacts, selected: map<Text, Candidate>)
    requires IsFullSelection(v, artifacts, selected)
    ensures SomeExhausted(selected) <==> VerifiesExhausted(v, artifacts)
  {
    forall id | id in selected && selected[id].generation >= U64_MAX ensures VerifiesExhausted(v, artifacts)
    {
      assert VerifiesIn(v, artifacts, selected[id].key, id, selected[id].generation);
    }
    forall k, id, g: nat | VerifiesIn(v, artifacts, k, id, g) && g >= U64_MAX ensures SomeExhausted(selected)
    {
      assert id in selected && selected[id].generation >= g;
    }
  }

  /** What can be reused: secrets of the target, and all of them if the cache provides for it. */
  method Reusable(cache: Cache, w: World, policy: TargetPolicy, now: nat) returns (r: Result<map<Text, Candidate>, PrepareError>)
    requires cache.h == w.hash
    ensures r.Failure? ==> r.error.NotInspected?
    ensures r.Failure? && !IsTransient(r.error) ==> Uninspectable(w, policy, now, cache.artifacts)
    ensures r.Success? ==> r.value.Keys <= policy.secrets.Keys
    ensures r.Success? ==> Selects(w, policy, now, cache.artifacts, r.value) && |r.value| == SuppliedCount(w, policy, now, cache.artifacts)
    ensures r.Success? ==> (Provided(w, policy, now, cache.artifacts) <==> r.value.Keys == policy.secrets.Keys)
    ensures r.Success? ==> (SomeExhausted(r.value) <==> Exhausted(w, policy, now, cache.artifacts))
    ensures cache.reliable && r.Failure? ==> !IsTransient(r.error)
  {
    var selected := InspectAll(cache, w, policy, now);
    if selected.Failure? {
      return Failure(NotInspected(selected.error));
    }
    ghost var v := ViewOf(w, policy, now).value;
    SelectsOwnSecrets(v, cache.artifacts, selected.value);
    CompleteIsSupplied(v, cache.artifacts, selected.value);
    ExhaustionSelected(v, cache.artifacts, selected.value);
    SelectedAreSupplied(w, policy, now, cache.artifacts, selected.value);
    r := Success(selected.value);
  }

  /** What verifies only after the creation has the generation it was created under, collisions aside. */
  lemma CreatedUnder(v: View, selected: map<Text, Candidate>, generation: nat, before: Artifacts, after: Artifacts, k: Text, id: Text, g: nat)
    requires IsFullSelection(v, before, selected) && Extended(v.w, v.policy, selected, generation, before, after)
    requires VerifiesIn(v, after, k, id, g) && id !in selected
    ensures g == generation || HasCollision(v.w.hash)
  {
    if k in before {
      VerifiesByEntry(v, before, after, k, id, g);
    } else {
      assert IsNewKey(v.w, v.policy, selected, generation, k);
      var other :| other in v.policy.secrets && other !in selected && NewKey(v.w, v.policy, other, generation) == Some(k);
      var a := AddressOf(v.w.policyHash(v.policy, other).value, v.policy.secrets[other].ciphertextHash,
        v.w.fingerprint(v.policy.recipient).value, v.policy.targetId, other, generation);
      FiledAsNamed(v, after, k, id, g, a);
    }
  }

  /** Once a target that lacked something is complete under the last generation there is, it cannot be
      prepared again. */
  ghost predicate LeftExhausted(w: World, policy: TargetPolicy, now: nat, artifacts: Artifacts)
  {
    Provided(w, policy, now, artifacts) ==> Exhausted(w, policy, now, artifacts) || HasCollision(w.hash)
  }

  lemma LastGenerationExhausts(w: World, policy: TargetPolicy, now: nat, selected: map<Text, Candidate>, generation: nat, before: Artifacts, after: Artifacts)
    requires Selects(w, policy, now, before, selected)
    requires Extended(w, policy, selected, generation, before, after) && selected.Keys <= policy.secrets.Keys
    requires |selected| < |policy.secrets| && generation >= U64_MAX
    ensures LeftExhausted(w, policy, now, after)
  {
    if Provided(w, policy, now, after) {
      var v := ViewOf(w, policy, now).value;
      CompleteCount(policy, selected);
      var id :| id in policy.secrets && id !in selected;
      assert SuppliedWith(v, after, id);
      var k, g: nat :| VerifiesIn(v, after, k, id, g);
      CreatedUnder(v, selected, generation, before, after, k, id, g);
      assert g == generation ==> VerifiesExhausted(v, after);
    }
  }

  // ---------- what new artifacts are filed under ----------

  /** A generation not before the clock and later than every verified artifact of the target. */
  ghost predicate AfterAll(v: View, artifacts: Artifacts, g: nat)
  {
    g > 0 && g >= v.now && forall k, id, h: nat | VerifiesIn(v, artifacts, k, id, h) :: h < g
  }

  ghost predicate FirstAfter(v: View, artifacts: Artifacts, g: nat)
  {
    AfterAll(v, artifacts, g) && forall h: nat | AfterAll(v, artifacts, h) :: g <= h
  }

  /** The generation that artifacts created in this cache get: the one asked for, or the first after all. */
  ghost predicate NextGeneration(w: World, worker: Worker, policy: TargetPolicy, now: nat, artifacts: Artifacts, g: nat)
  {
    match worker.generation
    case Some(asked) => g == asked
    case None => ViewOf(w, policy, now).Some? && FirstAfter(ViewOf(w, policy, now).value, artifacts, g)
  }

  /** `k` is the key of the next generation of a secret that has no verified artifact. */
  ghost predicate MadeAs(w: World, worker: Worker, policy: TargetPolicy, now: nat, artifacts: Artifacts, k: Text, id: Text, g: nat)
  {
    && id in policy.secrets && id !in SuppliedIds(w, policy, now, artifacts)
    && NewKey(w, policy, id, g) == Some(k) && NextGeneration(w, worker, policy, now, artifacts, g)
  }

  ghost predicate MadeUnder(w: World, worker: Worker, policy: TargetPolicy, now: nat, artifacts: Artifacts, k: Text)
  {
    exists id, g: nat :: MadeAs(w, worker, policy, now, artifacts, k, id, g)
  }

  ghost predicate AllMade(w: World, worker: Worker, policy: TargetPolicy, now: nat, before: Artifacts, after: Artifacts)
  {
    forall k | k in after && k !in before :: MadeUnder(w, worker, policy, now, before, k)
  }

  /** Being later than what is selected is being later than everything that verifies. */
  lemma NewerThanIffAfterAll(v: View, artifacts: Artifacts, selected: map<Text, Candidate>, g: nat)
    requires IsFullSelection(v, artifacts, selected)
    ensures AfterAll(v, artifacts, g) <==> g > 0 && NewerThan(g, selected, v.now)
  {
    if AfterAll(v, artifacts, g) {
      forall id | id in selected ensures selected[id].generation < g
      {
        assert VerifiesIn(v, artifacts, selected[id].key, id, selected[id].generation);
      }
    }
  }

  lemma ChosenIsNext(w: World, worker: Worker, policy: TargetPolicy, now: nat, artifacts: Artifacts, selected: map<Text, Candidate>, g: nat)
    requires Selects(w, policy, now, artifacts, selected) && Chosen(worker, selected, now, g)
    ensures NextGeneration(w, worker, policy, now, artifacts, g)
  {
    var v := ViewOf(w, policy, now).value;
    forall h: nat ensures AfterAll(v, artifacts, h) <==> h > 0 && NewerThan(h, selected, now)
    {
      NewerThanIffAfterAll(v, artifacts, selected, h);
    }
  }

  lemma ExtendedIsMade(w: World, worker: Worker, policy: TargetPolicy, now: nat, selected: map<Text, Candidate>, generation: nat,
                       before: Artifacts, after: Artifacts)
    requires Selects(w, policy, now, before, selected) && Extended(w, policy, selected, generation, before, after)
    requires Chosen(worker, selected, now, generation) || after == before
    ensures AllMade(w, worker, policy, now, before, after)
  {
    var v := ViewOf(w, policy, now).value;
    forall k | k in after && k !in before ensures MadeUnder(w, worker, policy, now, before, k)
    {
      assert IsNewKey(w, policy, selected, generation, k);
      var id :| id in policy.secrets && id !in selected && NewKey(w, policy, id, generation) == Some(k);
      SelectedIffSupplied(v, before, selected, id);
      ChosenIsNext(w, worker, policy, now, before, selected, generation);
      assert MadeAs(w, worker, policy, now, before, k, id, generation);
    }
  }

  /** A verified artifact is filed where a creation of its secret and generation would file it. */
  lemma VerifiedIsFiledAsNew(w: World, policy: TargetPolicy, now: nat, artifacts: Artifacts, k: Text, id: Text, g: nat)
    requires ViewOf(w, policy, now).Some? && VerifiesIn(ViewOf(w, policy, now).value, artifacts, k, id, g)
    ensures NewKey(w, policy, id, g) == Some(k)
  {
    AcceptedBinding(In(ViewOf(w, policy, now).value, policy.secrets[id].phase), RecordFor(w.hash, artifacts, k), id, g);
  }

  /** Creates what was not selected. */
  method FillRest(cache: Cache, w: World, worker: Worker, policy: TargetPolicy, selected: map<Text, Candidate>, now: nat) returns (r: Result<nat, PrepareError>)
    requires cache.h == w.hash && selected.Keys <= policy.secrets.Keys && Selects(w, policy, now, cache.artifacts, selected)
    modifies cache`artifacts
    ensures PartOf(old(cache.artifacts), cache.artifacts) && NewFor(w, policy.targetId, old(cache.artifacts), cache.artifacts)
    ensures AllMade(w, worker, policy, now, old(cache.artifacts), cache.artifacts)
    ensures r.Failure? ==> r.error.NotCreated? || (r.error.GenerationExhausted? && SomeExhausted(selected))
    ensures r.Success? ==> r.value + |selected| == |policy.secrets| && !SomeExhausted(selected)
    ensures r.Success? && r.value > 0 && worker.generation == Some(U64_MAX) ==> LeftExhausted(w, policy, now, cache.artifacts)
    ensures selected.Keys == policy.secrets.Keys ==>
      cache.artifacts == old(cache.artifacts) && if r.Success? then r.value == 0 else r.error.GenerationExhausted?
    ensures cache.reliable && r.Failure? ==> !IsTransient(r.error)
  {
    ghost var generation;
    r, generation := CreateRest(cache, w, worker, policy, selected, now);
    ExtendedIsNewFor(w, policy, selected, generation, old(cache.artifacts), cache.artifacts);
    ExtendedIsMade(w, worker, policy, now, selected, generation, old(cache.artifacts), cache.artifacts);
    if r.Success? && r.value > 0 && worker.generation == Some(U64_MAX) {
      LastGenerationExhausts(w, policy, now, selected, generation, old(cache.artifacts), cache.artifacts);
    }
  }

  /** Why filling the gaps of a target failed. */
  ghost predicate GapsFailed(w: World, policy: TargetPolicy, now: nat, before: Artifacts, e: PrepareError)
  {
    match e
    case NotInspected(_) => IsTransient(e) || Uninspectable(w, policy, now, before)
    case GenerationExhausted => Exhausted(w, policy, now, before)
    case NotCreated(_) => !Provided(w, policy, now, before)
    case _ => false
  }

  /** Reuses what verifies and creates the rest: how many of each. */
  method FillGaps(cache: Cache, w: World, worker: Worker, policy: TargetPolicy, now: nat) returns (r: Result<Counts, PrepareError>)
    requires cache.h == w.hash && worker.execute
    modifies cache`artifacts
    ensures PartOf(old(cache.artifacts), cache.artifacts) && NewFor(w, policy.targetId, old(cache.artifacts), cache.artifacts)
    ensures AllMade(w, worker, policy, now, old(cache.artifacts), cache.artifacts)
    ensures r.Success? ==> r.value.reused == SuppliedCount(w, policy, now, old(cache.artifacts))
    ensures r.Success? ==> r.value.reused + r.value.created == |policy.secrets| && !Exhausted(w, policy, now, old(cache.artifacts))
    ensures r.Failure? ==> GapsFailed(w, policy, now, old(cache.artifacts), r.error)
    ensures Provided(w, policy, now, old(cache.artifacts)) ==> cache.artifacts == old(cache.artifacts) && (r.Success? ==> r.value.created == 0)
    ensures r.Success? && r.value.created > 0 && worker.generation == Some(U64_MAX) ==> LeftExhausted(w, policy, now, cache.artifacts)
    ensures cache.reliable && r.Failure? ==> !IsTransient(r.error)
  {
    var selected := Reusable(cache, w, policy, now);
    if selected.Failure? {
      return Failure(selected.error);
    }
    var created := FillRest(cache, w, worker, policy, selected.value, now);
    r := if created.Failure? then Failure(created.error) else Success(Counts(|selected.value|, created.value));
  }

  /** Why packing a target failed. */
  ghost predicate PackFailed(w: World, policy: TargetPolicy, now: nat, artifacts: Artifacts, sel: Selection, wire: seq<WireArtifact>, e: PrepareError)
  {
    match e
    case NotInspected(_) => IsTransient(e) || Uninspectable(w, policy, now, artifacts)
    case NotVerified(target) => target == policy.targetId && !Provided(w, policy, now, artifacts)
    case NotPacked(TooLarge) => Selects(w, policy, now, artifacts, sel) && !Admitted(WireSize(wire), SelectionFiles(artifacts, sel), |PackedKeys(sel)|)
    case NotPacked(WireIo) => true
    case _ => false
  }

  lemma NotPackedFails(w: World, policy: TargetPolicy, now: nat, artifacts: Artifacts, sel: Selection, wire: seq<WireArtifact>, why: WireError)
    requires why == TooLarge ==>
      Selects(w, policy, now, artifacts, sel) && !Admitted(WireSize(wire), SelectionFiles(artifacts, sel), |PackedKeys(sel)|)
    ensures PackFailed(w, policy, now, artifacts, sel, wire, NotPacked(why))
  {
    match why
    case TooLarge =>
    case WireIo =>
  }

  /** Inspects again, insists that nothing is missing and packs the selection. */
  method PackTarget(cache: Cache, bundle: PreparedBundle, w: World, policy: TargetPolicy, now: nat) returns (r: Option<PrepareError>, ghost sel: Selection)
    requires cache.h == w.hash && Fits(bundle.artifacts)
    modifies bundle
    ensures Fits(bundle.artifacts)
    ensures r.None? ==> NextPacked(w, policy, now, cache.artifacts, sel, old(bundle.artifacts), bundle.artifacts) && Readable(cache.artifacts)
    ensures r.Some? ==> PackFailed(w, policy, now, cache.artifacts, sel, old(bundle.artifacts), r.value)
    ensures cache.reliable && bundle.reliable && r.Some? ==> !IsTransient(r.value)
  {
    sel := map[];
    var selected := InspectAll(cache, w, policy, now);
    if selected.Failure? {
      return Some(NotInspected(selected.error)), sel;
    }
    sel := selected.value;
    ghost var v := ViewOf(w, policy, now).value;
    CountDecides(v, cache.artifacts, selected.value);
    if |selected.value| != |policy.secrets| {
      return Some(NotVerified(policy.targetId)), sel;
    }
    CompleteIsSupplied(v, cache.artifacts, selected.value);
    r := PackFiles(cache, bundle, v, selected.value);
    if r.Some? {
      NotPackedFails(w, policy, now, cache.artifacts, sel, old(bundle.artifacts), r.value.wire);
    }
  }

  /** Reads the selected files and appends them. */
  method PackFiles(cache: Cache, bundle: PreparedBundle, ghost v: View, selected: map<Text, Candidate>) returns (r: Option<PrepareError>)
    requires Fits(bundle.artifacts) && cache.h == v.w.hash && Readable(cache.artifacts) && IsFullSelection(v, cache.artifacts, selected)
    modifies bundle
    ensures Fits(bundle.artifacts)
    ensures r.None? ==>
      && NoRepeats(PackedKeys(selected), |PackedKeys(selected)|)
      && AllFor(v.w, cache.artifacts, PackedKeys(selected), v.policy.targetId, |PackedKeys(selected)|)
      && bundle.artifacts == Appended(old(bundle.artifacts), SelectionFiles(cache.artifacts, selected), |PackedKeys(selected)|)
      && Admitted(WireSize(old(bundle.artifacts)), SelectionFiles(cache.artifacts, selected), |PackedKeys(selected)|)
    ensures r.Some? ==> r.value.NotPacked?
    ensures r == Some(NotPacked(TooLarge)) ==>
      !Admitted(WireSize(old(bundle.artifacts)), SelectionFiles(cache.artifacts, selected), |PackedKeys(selected)|)
    ensures bundle.reliable && r.Some? ==> !IsTransient(r.value)
  {
    var files := SelectedFiles(cache, v, selected);
    var packed, n := bundle.AppendArtifacts(files);
    r := if packed.Failure? then Some(NotPacked(packed.error)) else None;
  }

  /** One target done: its secrets are accounted for, none of what was reused is exhausted, and its
      selection is packed. */
  ghost predicate TargetDone(w: World, worker: Worker, policy: TargetPolicy, now: nat, before: Artifacts, after: Artifacts,
                             sel: Selection, wire: seq<WireArtifact>, all: seq<WireArtifact>, counts: Counts)
  {
    match counts
    case Counts(reused, created) =>
    && reused == SuppliedCount(w, policy, now, before) && reused + created == |policy.secrets| && !Exhausted(w, policy, now, before)
    && NextPacked(w, policy, now, after, sel, wire, all) && Readable(after)
    && (created > 0 && worker.generation == Some(U64_MAX) ==> Exhausted(w, policy, now, after) || HasCollision(w.hash))
    && (Provided(w, policy, now, before) ==> created == 0)
  }

  /** Why one target failed. */
  ghost predicate TargetFailed(w: World, policy: TargetPolicy, now: nat, before: Artifacts, after: Artifacts,
                               sel: Selection, wire: seq<WireArtifact>, e: PrepareError)
  {
    match e
    case NotInspected(_) => IsTransient(e) || Uninspectable(w, policy, now, before) || Uninspectable(w, policy, now, after)
    case GenerationExhausted => Exhausted(w, policy, now, before)
    case NotCreated(_) => !Provided(w, policy, now, before)
    case NotVerified(target) => target == policy.targetId && !Provided(w, policy, now, after)
    case NotPacked(TooLarge) => Selects(w, policy, now, after, sel) && !Admitted(WireSize(wire), SelectionFiles(after, sel), |PackedKeys(sel)|)
    case NotPacked(WireIo) => true
    case _ => false
  }

  lemma FailureIsNoRefusal(w: World, policy: TargetPolicy, now: nat, before: Artifacts, after: Artifacts,
                           sel: Selection, wire: seq<WireArtifact>, e: PrepareError)
    requires TargetFailed(w, policy, now, before, after, sel, wire, e)
    ensures !IsRefusal(e) && (e == NotPacked(TooLarge) ==>
      Selects(w, policy, now, after, sel) && !Admitted(WireSize(wire), SelectionFiles(after, sel), |PackedKeys(sel)|))
  {
  }

  /** One target of the second pass: gaps, then packing. */
  method PrepareTarget(cache: Cache, bundle: PreparedBundle, w: World, worker: Worker, policy: TargetPolicy, now: nat)
    returns (r: Result<Counts, PrepareError>, ghost sel: Selection)
    requires cache.h == w.hash && worker.execute && Fits(bundle.artifacts)
    modifies cache`artifacts, bundle
    ensures PartOf(old(cache.artifacts), cache.artifacts) && NewFor(w, policy.targetId, old(cache.artifacts), cache.artifacts)
    ensures AllMade(w, worker, policy, now, old(cache.artifacts), cache.artifacts)
    ensures Provided(w, policy, now, old(cache.artifacts)) ==> cache.artifacts == old(cache.artifacts)
    ensures r.Success? ==>
      TargetDone(w, worker, policy, now, old(cache.artifacts), cache.artifacts, sel, old(bundle.artifacts), bundle.artifacts, r.value)
    ensures r.Failure? ==> TargetFailed(w, policy, now, old(cache.artifacts), cache.artifacts, sel, old(bundle.artifacts), r.error)
    ensures cache.reliable && bundle.reliable && r.Failure? ==> !IsTransient(r.error)
  {
    sel := map[];
    var counts := FillGaps(cache, w, worker, policy, now);
    if counts.Failure? {
      return Failure(counts.error), sel;
    }
    var packed;
    packed, sel := PackTarget(cache, bundle, w, policy, now);
    if packed.Some? {
      return Failure(packed.value), sel;
    }
    SelectionServes(w, policy, now, cache.artifacts, sel);
    ServesProvides(w, policy, now, cache.artifacts, sel);
    r := counts;
  }
}
