/** The whole command: prepare on the administrator's side, then install into every destination. */
module Delivery {
  import opened Prelude
  import opened CacheAddress
  import opened CacheStore
  import opened CacheOperations
  import opened ArtifactPolicy
  import opened ArtifactSelection
  import opened ArtifactInspection
  import opened FullSelection
  import opened Wire
  import opened Transport
  import opened Packing
  import opened CacheRoom
  import opened Readiness
  import opened Installation
  import opened ResponseInstallation
  import opened PreparedResponse
  import opened PreparationRequest
  import opened ArtifactCreation
  import opened TargetPreparation
  import opened PreparationReasons
  import opened Preparation

  datatype DeliveryError = Preparing(prepare: PrepareError) | Installing(install: InstallError)

  predicate ByIo(e: DeliveryError)
  {
    match e
    case Preparing(p) => IsTransient(p)
    case Installing(i) => IsIo(i)
  }

  /** What a prepared response stages is part of the cache it was prepared from. */
  lemma StagedFromCache(w: World, policies: seq<TargetPolicy>, now: nat, artifacts: Artifacts, sels: seq<Selection>, wire: seq<WireArtifact>)
    requires |sels| <= |policies| && Filled(w, policies, now, artifacts, sels, wire)
    ensures StagedTo(w, wire, |wire|).Success? && PartOf(StagedTo(w, wire, |wire|).value, artifacts)
  {
    var keys := TargetKeys(sels);
    StagingReproduces(w, artifacts, keys, wire);
    PickedPart(artifacts, keys, |keys|);
  }

  lemma ContradictionFromCache(h: HashFunction, staged: Artifacts, artifacts: Artifacts, caches: seq<Artifacts>)
    requires PartOf(staged, artifacts) && SomeContradicts(h, staged, caches)
    ensures SomeContradicts(h, artifacts, caches)
  {
    var j :| 0 <= j < |caches| && Contradicts(h, staged, caches[j]);
    var k :| k in staged && k in caches[j] && !Agrees(h, staged[k], caches[j][k]);
    assert artifacts[k] == staged[k];
  }

  /** A response to no targets is empty, and can be staged anywhere. */
  lemma NothingIsAcceptable(w: World, now: nat)
    ensures Acceptable(w, [], [], now)
  {
    assert StagedTo(w, [], 0) == Success(map[]);
    EmptyReads();
  }

  /** Whatever an executed preparation returns, only I/O or the destinations themselves can refuse. */
  lemma PreparedIsAcceptable(w: World, worker: Worker, policies: seq<TargetPolicy>, now: nat, before: Artifacts, after: Artifacts,
                             sels: seq<Selection>, response: Response)
    requires worker.execute && DistinctTargets(policies, |policies|) && Answered(w, worker, policies, now, before, after, sels, response)
    ensures Acceptable(w, response.wire, policies, now)
    ensures PartOf(StagedTo(w, response.wire, |response.wire|).value, after)
  {
    StagedFromCache(w, policies, now, after, sels, response.wire);
    if policies == [] {
      assert sels == [] && response.wire == [];
      NothingIsAcceptable(w, now);
    } else {
      FilledIsAcceptable(w, policies, now, after, sels, response.wire);
    }
  }

  /** The administrator's cache may be one of the destinations. */
  ghost function PlaceOf(cache: Cache, destinations: seq<Cache>): (j: Option<nat>)
    ensures j.Some? ==> j.value < |destinations| && destinations[j.value] == cache
    ensures j.None? ==> cache !in destinations
  {
    if j: nat :| j < |destinations| && destinations[j] == cache then Some(j) else None
  }

  lemma GrownAt(before: seq<Artifacts>, after: seq<Artifacts>, j: nat)
    requires AllGrew(before, after) && j < |before|
    ensures PartOf(before[j], after[j])
  {
  }

  /** How the installation of a prepared response ends; `artifacts` is the administrator's cache. For
      specifications that allow the skew preparation verifies with: with room for what is added every
      activation is ready, without it some is not, and any other failure is I/O or a contradiction. */
  ghost predicate DeliveryOutcome(w: World, wire: seq<WireArtifact>, policies: seq<TargetPolicy>, specs: seq<seq<ActivationSpec>>, destinations: seq<Cache>, now: nat,
                                  artifacts: Artifacts, sels: seq<Selection>, before: seq<Artifacts>, after: seq<Artifacts>, r: Result<(), InstallError>)
    requires |policies| == |specs| == |destinations| == |before| == |after|
  {
    match r
    case Success(_) =>
      && Installed(w, wire, policies, destinations, now, sels, before, after) && AllReady(w, policies, specs, now, after, |policies|)
      && (EachLenient(specs, now) && AllRead(before) ==> HadRoom(w, wire, destinations, specs, sels, before))
    case Failure(Unready(genuine)) =>
      && Installed(w, wire, policies, destinations, now, sels, before, after)
      && (genuine ==> !AllReady(w, policies, specs, now, after, |policies|))
      && (genuine && EachLenient(specs, now) && AllRead(before) ==> !HadRoom(w, wire, destinations, specs, sels, before))
    case Failure(e) => EachLenient(specs, now) ==> IsIo(e) || SomeContradicts(w.hash, artifacts, after)
  }

  /** There was room at every destination that is activated for what the response adds. */
  ghost predicate HadRoom(w: World, wire: seq<WireArtifact>, destinations: seq<Cache>, specs: seq<seq<ActivationSpec>>, sels: seq<Selection>, before: seq<Artifacts>)
  {
    match StagedTo(w, wire, |wire|)
    case Failure(_) => false
    case Success(staged) => |sels| == |destinations| == |specs| == |before| && RoomForAll(staged, sels, destinations, specs, before)
  }

  lemma OutcomeFollows(w: World, wire: seq<WireArtifact>, policies: seq<TargetPolicy>, specs: seq<seq<ActivationSpec>>, destinations: seq<Cache>, now: nat,
                       artifacts: Artifacts, sels: seq<Selection>, before: seq<Artifacts>, after: seq<Artifacts>, r: Result<(), InstallError>)
    requires |policies| == |specs| == |destinations| == |before| == |after| && Acceptable(w, wire, policies, now)
    requires PartOf(StagedTo(w, wire, |wire|).value, artifacts)
    requires StagedOutcome(w, wire, policies, specs, destinations, now, sels, before, after, r)
    ensures DeliveryOutcome(w, wire, policies, specs, destinations, now, artifacts, sels, before, after, r)
  {
    if Installed(w, wire, policies, destinations, now, sels, before, after) && EachLenient(specs, now) && AllRead(before) {
      ReadyIffRoom(w, wire, policies, specs, destinations, now, sels, before, after);
    }
    if SomeContradicts(w.hash, StagedTo(w, wire, |wire|).value, after) {
      ContradictionFromCache(w.hash, StagedTo(w, wire, |wire|).value, artifacts, after);
    }
  }

  lemma RefusedOutcome(w: World, wire: seq<WireArtifact>, policies: seq<TargetPolicy>, specs: seq<seq<ActivationSpec>>, destinations: seq<Cache>, now: nat,
                       artifacts: Artifacts, sels: seq<Selection>, before: seq<Artifacts>, after: seq<Artifacts>, e: InstallError)
    requires |policies| == |specs| == |destinations| == |before| == |after| && Acceptable(w, wire, policies, now) && !e.Unready?
    requires !IsIo(e) ==> |wire| > ENTRY_LIMIT || !StagedComplete(w, wire, policies, specs, now)
    ensures DeliveryOutcome(w, wire, policies, specs, destinations, now, artifacts, sels, before, after, Failure(e))
  {
    if EachLenient(specs, now) {
      AcceptableIsComplete(w, wire, policies, specs, now);
    }
  }

  /** An outcome still holds of an administrator's cache that has grown. */
  lemma OutcomeStays(w: World, wire: seq<WireArtifact>, policies: seq<TargetPolicy>, specs: seq<seq<ActivationSpec>>, destinations: seq<Cache>, now: nat,
                     artifacts: Artifacts, grown: Artifacts, sels: seq<Selection>, before: seq<Artifacts>, after: seq<Artifacts>, r: Result<(), InstallError>)
    requires |policies| == |specs| == |destinations| == |before| == |after| && PartOf(artifacts, grown)
    requires DeliveryOutcome(w, wire, policies, specs, destinations, now, artifacts, sels, before, after, r)
    ensures DeliveryOutcome(w, wire, policies, specs, destinations, now, grown, sels, before, after, r)
  {
    if SomeContradicts(w.hash, artifacts, after) {
      ContradictionFromCache(w.hash, artifacts, grown, after);
    }
  }

  /** Installs what an executed preparation returned; `artifacts` is the administrator's cache. */
  method InstallPrepared(w: World, worker: Worker, policies: seq<TargetPolicy>, specs: seq<seq<ActivationSpec>>, response: Response, destinations: seq<Cache>, now: nat,
                         ghost before: Artifacts, ghost artifacts: Artifacts, ghost packed: seq<Selection>)
    returns (r: Result<(), InstallError>, ghost sels: seq<Selection>)
    requires |policies| == |specs| == |destinations| && forall d | d in destinations :: d.h == w.hash
    requires worker.execute && DistinctTargets(policies, |policies|) && Answered(w, worker, policies, now, before, artifacts, packed, response)
    modifies destinations
    ensures AllGrew(old(Contents(destinations)), Contents(destinations))
    ensures DeliveryOutcome(w, response.wire, policies, specs, destinations, now, artifacts, sels, old(Contents(destinations)), Contents(destinations), r)
    ensures AllReliable(destinations) && r.Failure? ==> !IsIo(r.error)
  {
    var wire := response.wire;
    PreparedIsAcceptable(w, worker, policies, now, before, artifacts, packed, response);
    ghost var checked;
    r, checked, sels := InstallResponse(w, wire, policies, specs, destinations, now);
    if checked {
      OutcomeFollows(w, wire, policies, specs, destinations, now, artifacts, sels, old(Contents(destinations)), Contents(destinations), r);
    } else {
      RefusedOutcome(w, wire, policies, specs, destinations, now, artifacts, sels, old(Contents(destinations)), Contents(destinations), r.error);
    }
  }

  /** The same, seen from the administrator's cache. */
  method InstallFrom(cache: Cache, w: World, worker: Worker, policies: seq<TargetPolicy>, specs: seq<seq<ActivationSpec>>, response: Response, destinations: seq<Cache>, now: nat,
                     ghost before: Artifacts, ghost packed: seq<Selection>)
    returns (r: Result<(), InstallError>, ghost sels: seq<Selection>)
    requires |policies| == |specs| == |destinations| && forall d | d in destinations :: d.h == w.hash
    requires worker.execute && DistinctTargets(policies, |policies|) && Answered(w, worker, policies, now, before, cache.artifacts, packed, response)
    modifies destinations
    ensures PartOf(old(cache.artifacts), cache.artifacts) && AllGrew(old(Contents(destinations)), Contents(destinations))
    ensures DeliveryOutcome(w, response.wire, policies, specs, destinations, now, cache.artifacts, sels, old(Contents(destinations)), Contents(destinations), r)
    ensures AllReliable(destinations) && r.Failure? ==> !IsIo(r.error)
  {
    ghost var place := PlaceOf(cache, destinations);
    r, sels := InstallPrepared(w, worker, policies, specs, response, destinations, now, before, cache.artifacts, packed);
    if place.Some? {
      GrownAt(old(Contents(destinations)), Contents(destinations), place.value);
    }
    OutcomeStays(w, response.wire, policies, specs, destinations, now, old(cache.artifacts), cache.artifacts, sels, old(Contents(destinations)), Contents(destinations), r);
  }

  /** The caches among which one has grown. */
  lemma OneGrew(cache: Cache, destinations: seq<Cache>, before: Artifacts, caches: seq<Artifacts>)
    requires |caches| == |destinations| && PartOf(before, cache.artifacts)
    requires forall j | 0 <= j < |destinations| :: caches[j] == if destinations[j] == cache then before else destinations[j].artifacts
    ensures AllGrew(caches, Contents(destinations))
  {
  }

  /** Why the preparation failed: a refusal, with the cache as it was, or a reason in the cache. */
  ghost predicate Unprepared(w: World, worker: Worker, targets: seq<TargetRequest>, sources: set<Text>, policies: seq<TargetPolicy>, now: nat,
                             start: Artifacts, left: Artifacts, e: PrepareError)
  {
    match IsRefusal(e)
    case true => left == start && Justified(w, worker, targets, sources, policies, now, start, e)
    case false => Reasoned(w, policies, now, start, left, e)
  }

  /** How the command ends: `start` and `left` are the administrator's cache, `before` and `after` what the
      destinations held after the preparation and in the end. */
  ghost predicate Ended(w: World, worker: Worker, targets: seq<TargetRequest>, sources: set<Text>, policies: seq<TargetPolicy>, specs: seq<seq<ActivationSpec>>,
                        destinations: seq<Cache>, now: nat, start: Artifacts, left: Artifacts, wire: seq<WireArtifact>, sels: seq<Selection>,
                        before: seq<Artifacts>, after: seq<Artifacts>, r: Result<Response, DeliveryError>)
    requires |targets| == |specs| == |destinations| == |before| == |after|
  {
    match r
    case Success(response) =>
      && wire == response.wire && |policies| == |targets| && Resolves(w, targets, policies, |policies|)
      && (worker.execute ==> DeliveryOutcome(w, wire, policies, specs, destinations, now, left, sels, before, after, Success(())))
    case Failure(Preparing(e)) => after == before && Unprepared(w, worker, targets, sources, policies, now, start, left, e)
    case Failure(Installing(e)) =>
      && worker.execute && |policies| == |targets| && Resolves(w, targets, policies, |policies|)
      && DeliveryOutcome(w, wire, policies, specs, destinations, now, left, sels, before, after, Failure(e))
  }

  /** The preparation, seen from destinations of which the administrator's cache may be one. */
  method PrepareFor(cache: Cache, w: World, worker: Worker, targets: seq<TargetRequest>, sources: set<Text>, ghost destinations: seq<Cache>, now: nat)
    returns (r: Result<Response, PrepareError>, policies: seq<TargetPolicy>, ghost packed: seq<Selection>)
    requires cache.h == w.hash
    modifies cache`artifacts
    ensures PartOf(old(cache.artifacts), cache.artifacts) && AllGrew(old(Contents(destinations)), Contents(destinations))
    ensures !worker.execute ==> cache.artifacts == old(cache.artifacts)
    ensures !worker.execute || cache !in destinations ==> Contents(destinations) == old(Contents(destinations))
    ensures r.Success? ==> |policies| == |targets| && Resolves(w, targets, policies, |policies|) && DistinctTargets(policies, |policies|)
    ensures r.Success? ==> Answered(w, worker, policies, now, old(cache.artifacts), cache.artifacts, packed, r.value)
    ensures r.Failure? ==> Unprepared(w, worker, targets, sources, policies, now, old(cache.artifacts), cache.artifacts, r.error)
    ensures cache.reliable && r.Failure? ==> !IsTransient(r.error)
  {
    r, policies, packed := PrepareRequest(cache, w, worker, targets, sources, now);
    OneGrew(cache, destinations, old(cache.artifacts), old(Contents(destinations)));
  }

  /** run: on success every destination provides every secret of its target and is ready for every
      activation. Once the preparation has succeeded, and apart from I/O, installing fails only because a
      destination holds another bundle under the name of one of the administrator's, or because one has
      no room for what is added. `before` is what the destinations held after the preparation. */
  method Deliver(cache: Cache, w: World, worker: Worker, targets: seq<TargetRequest>, sources: set<Text>, specs: seq<seq<ActivationSpec>>, destinations: seq<Cache>, now: nat)
    returns (r: Result<Response, DeliveryError>, policies: seq<TargetPolicy>, ghost wire: seq<WireArtifact>, ghost sels: seq<Selection>, ghost before: seq<Artifacts>)
    requires |targets| == |destinations| == |specs| && cache.h == w.hash && forall d | d in destinations :: d.h == w.hash
    modifies cache`artifacts, destinations
    ensures PartOf(old(cache.artifacts), cache.artifacts) && AllGrew(old(Contents(destinations)), Contents(destinations))
    ensures !worker.execute ==> cache.artifacts == old(cache.artifacts) && Contents(destinations) == old(Contents(destinations))
    ensures |before| == |destinations| && (cache !in destinations ==> before == old(Contents(destinations)))
    ensures Ended(w, worker, targets, sources, policies, specs, destinations, now, old(cache.artifacts), cache.artifacts, wire, sels, before, Contents(destinations), r)
    ensures cache.reliable && AllReliable(destinations) && r.Failure? ==> !ByIo(r.error)
  {
    ghost var start, packed := cache.artifacts, [];
    wire, sels := [], [];
    var prepared;
    prepared, policies, packed := PrepareFor(cache, w, worker, targets, sources, destinations, now);
    before := Contents(destinations);
    if prepared.Failure? {
      return Failure(Preparing(prepared.error)), policies, wire, sels, before;
    }
    wire := prepared.value.wire;
    if worker.execute {
      ghost var artifacts := cache.artifacts;
      var installed;
      installed, sels := InstallFrom(cache, w, worker, policies, specs, prepared.value, destinations, now, start, packed);
      GrowthChains(old(Contents(destinations)), before, Contents(destinations));
      PartChains(start, artifacts, cache.artifacts);
      if installed.Failure? {
        return Failure(Installing(installed.error)), policies, wire, sels, before;
      }
    }
    r := Success(prepared.value);
  }
}
