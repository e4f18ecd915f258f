/** install_response: stage, check, import into each destination, check again. */
module ResponseInstallation {
  import opened Prelude
  import opened CacheAddress
  import opened CacheStore
  import opened CacheTransfer
  import opened CacheOperations
  import opened ArtifactPolicy
  import opened ArtifactSelection
  import opened ArtifactInspection
  import opened FullSelection
  import opened Wire
  import opened Transport
  import opened TransportLimits
  import opened Packing
  import opened CacheCollection
  import opened CacheRoom
  import opened Readiness
  import opened Installation

  /** Every activation specification is ready in the staging cache. */
  method CheckStaged(staging: Cache, w: World, policies: seq<TargetPolicy>, specs: seq<seq<ActivationSpec>>, now: nat) returns (r: Result<(), InstallError>)
    requires |specs| == |policies| && staging.h == w.hash
    ensures r.Success? ==> AllReady(w, policies, specs, now, Shared(staging.artifacts, |policies|), |policies|)
    ensures r.Failure? ==> r.error.Inspecting? || r.error.NotReady?
    ensures r.Failure? && !IsIo(r.error) ==> !AllReady(w, policies, specs, now, Shared(staging.artifacts, |policies|), |policies|)
    ensures staging.reliable && r.Failure? ==> !IsIo(r.error)
  {
    var i: nat := 0;
    while i < |policies|
      invariant 0 <= i <= |policies| && AllReady(w, policies, specs, now, Shared(staging.artifacts, |policies|), i)
    {
      var ready := CheckSpecs(staging, w, policies[i], specs[i], now);
      assert Shared(staging.artifacts, |policies|)[i] == staging.artifacts;
      if ready.Failure? {
        return Failure(Inspecting(ready.error));
      }
      if !ready.value {
        return Failure(NotReady(policies[i].targetId));
      }
      i := i + 1;
    }
    r := Success(());
  }

  /** The readiness command of every destination; failures are collected. */
  method CheckInstalled(destinations: seq<Cache>, w: World, policies: seq<TargetPolicy>, specs: seq<seq<ActivationSpec>>, now: nat) returns (r: Result<(), InstallError>)
    requires |specs| == |policies| == |destinations| && forall d | d in destinations :: d.h == w.hash
    ensures r.Success? ==> AllReady(w, policies, specs, now, Contents(destinations), |policies|)
    ensures r.Failure? ==> r.error.Unready?
    ensures r.Failure? && !IsIo(r.error) ==> !AllReady(w, policies, specs, now, Contents(destinations), |policies|)
    ensures AllReliable(destinations) && r.Failure? ==> !IsIo(r.error)
  {
    var i: nat, failed, genuine := 0, false, false;
    while i < |policies|
      invariant 0 <= i <= |policies|
      invariant !failed ==> AllReady(w, policies, specs, now, Contents(destinations), i)
      invariant genuine ==> failed && !AllReady(w, policies, specs, now, Contents(destinations), i)
      invariant failed && AllReliable(destinations) ==> genuine
    {
      assert destinations[i] in destinations;
      var ready := CheckSpecs(destinations[i], w, policies[i], specs[i], now);
      if ready != Success(true) {
        failed := true;
        genuine := genuine || ready != Failure(CacheFailed(Io));
      }
      i := i + 1;
    }
    r := if failed then Failure(Unready(genuine)) else Success(());
  }

  /** A response that nothing but I/O and the destinations themselves can refuse. */
  ghost predicate Acceptable(w: World, wire: seq<WireArtifact>, policies: seq<TargetPolicy>, now: nat)
  {
    && |wire| <= ENTRY_LIMIT && StagedTo(w, wire, |wire|).Success?
    && Readable(StagedTo(w, wire, |wire|).value)
    && AllWithin(w, policies, StagedTo(w, wire, |wire|).value, now, |policies|)
    && AllPackable(w, policies, StagedTo(w, wire, |wire|).value, now, |policies|)
  }

  /** A bundle that passes every check made before the imports. */
  ghost predicate StagedComplete(w: World, wire: seq<WireArtifact>, policies: seq<TargetPolicy>, specs: seq<seq<ActivationSpec>>, now: nat)
    requires |specs| == |policies|
  {
    match StagedTo(w, wire, |wire|)
    case Failure(_) => false
    case Success(staged) =>
      && (policies != [] ==> Readable(staged)) && AllWithin(w, policies, staged, now, |policies|)
      && AllReady(w, policies, specs, now, Shared(staged, |policies|), |policies|)
  }

  /** What the imports amount to: every destination provides its target and has gained exactly what its
      targets' selections from the staging cache add. */
  ghost predicate Installed(w: World, wire: seq<WireArtifact>, policies: seq<TargetPolicy>, destinations: seq<Cache>, now: nat,
                            sels: seq<Selection>, before: seq<Artifacts>, after: seq<Artifacts>)
  {
    match StagedTo(w, wire, |wire|)
    case Failure(_) => false
    case Success(staged) =>
      && |sels| == |policies| == |destinations| == |before| == |after|
      && AllSelect(w, policies, now, staged, sels) && AllProvided(w, policies, after, now, |policies|)
      && Gained(staged, sels, destinations, before, after, |policies|)
  }

  /** How an installation ends once the first checks are passed. */
  ghost predicate StagedOutcome(w: World, wire: seq<WireArtifact>, policies: seq<TargetPolicy>, specs: seq<seq<ActivationSpec>>, destinations: seq<Cache>, now: nat,
                                sels: seq<Selection>, before: seq<Artifacts>, after: seq<Artifacts>, r: Result<(), InstallError>)
    requires |policies| == |specs| == |after|
  {
    match r
    case Success(_) =>
      Installed(w, wire, policies, destinations, now, sels, before, after) && AllReady(w, policies, specs, now, after, |policies|)
    case Failure(Unready(genuine)) =>
      && Installed(w, wire, policies, destinations, now, sels, before, after)
      && (genuine ==> !AllReady(w, policies, specs, now, after, |policies|))
    case Failure(e) =>
      Acceptable(w, wire, policies, now) ==> IsIo(e) || SomeContradicts(w.hash, StagedTo(w, wire, |wire|).value, after)
  }

  lemma StagedIsComplete(w: World, wire: seq<WireArtifact>, policies: seq<TargetPolicy>, specs: seq<seq<ActivationSpec>>, now: nat, staged: Artifacts)
    requires |specs| == |policies| && StagedTo(w, wire, |wire|) == Success(staged)
    ensures StagedComplete(w, wire, policies, specs, now) <==>
      && (policies != [] ==> Readable(staged)) && AllWithin(w, policies, staged, now, |policies|)
      && AllReady(w, policies, specs, now, Shared(staged, |policies|), |policies|)
  {
  }

  /** Everything that is checked before the first import. */
  method StageAndCheck(w: World, wire: seq<WireArtifact>, policies: seq<TargetPolicy>, specs: seq<seq<ActivationSpec>>, now: nat, reliable: bool) returns (r: Result<Cache, InstallError>)
    requires |specs| == |policies|
    ensures r.Success? ==> fresh(r.value) && r.value.h == w.hash && StagedTo(w, wire, |wire|) == Success(r.value.artifacts)
    ensures r.Success? ==> StagedComplete(w, wire, policies, specs, now)
    ensures r.Failure? ==> !r.error.Unready?
    ensures r.Failure? && !IsIo(r.error) ==> |wire| > ENTRY_LIMIT || !StagedComplete(w, wire, policies, specs, now)
    ensures r.Success? ==> r.value.reliable == reliable
    ensures reliable && r.Failure? ==> !IsIo(r.error)
  {
    var staging := StageBundle(w, wire, reliable);
    if staging.Failure? {
      return Failure(Staging(staging.error));
    }
    StagedIsComplete(w, wire, policies, specs, now, staging.value.artifacts);
    var complete := CheckTargets(staging.value, w, policies, now);
    if complete.Failure? {
      return Failure(complete.error);
    }
    var ready := CheckStaged(staging.value, w, policies, specs, now);
    r := if ready.Failure? then Failure(ready.error) else Success(staging.value);
  }

  /** install_response: on success every destination provides every secret of its target and is ready for
      its activations; unless the whole response is staged, complete and ready first, no destination is
      touched; and whatever the final check finds, each destination holds exactly what it held and what
      its targets added. */
  method InstallResponse(w: World, wire: seq<WireArtifact>, policies: seq<TargetPolicy>, specs: seq<seq<ActivationSpec>>, destinations: seq<Cache>, now: nat)
    returns (r: Result<(), InstallError>, ghost checked: bool, ghost sels: seq<Selection>)
    requires |policies| == |destinations| == |specs| && forall d | d in destinations :: d.h == w.hash
    modifies destinations
    ensures AllGrew(old(Contents(destinations)), Contents(destinations))
    ensures checked ==> StagedComplete(w, wire, policies, specs, now)
    ensures checked ==> StagedOutcome(w, wire, policies, specs, destinations, now, sels, old(Contents(destinations)), Contents(destinations), r)
    ensures !checked ==> r.Failure? && !r.error.Unready? && Contents(destinations) == old(Contents(destinations))
    ensures !checked && !IsIo(r.error) ==> |wire| > ENTRY_LIMIT || !StagedComplete(w, wire, policies, specs, now)
    ensures AllReliable(destinations) && r.Failure? ==> !IsIo(r.error)
  {
    sels := [];
    var staging := StageAndCheck(w, wire, policies, specs, now, AllReliable(destinations));
    checked := staging.Success?;
    if staging.Failure? {
      return Failure(staging.error), checked, sels;
    }
    r, sels := InstallStaged(staging.value, w, wire, policies, specs, destinations, now);
  }

  /** The imports and the final check. */
  method InstallStaged(staging: Cache, w: World, ghost wire: seq<WireArtifact>, policies: seq<TargetPolicy>, specs: seq<seq<ActivationSpec>>, destinations: seq<Cache>, now: nat)
    returns (r: Result<(), InstallError>, ghost sels: seq<Selection>)
    requires |policies| == |destinations| == |specs| && staging !in destinations && staging.h == w.hash
    requires forall d | d in destinations :: d.h == w.hash
    requires StagedTo(w, wire, |wire|) == Success(staging.artifacts) && StagedComplete(w, wire, policies, specs, now)
    modifies destinations
    ensures AllGrew(old(Contents(destinations)), Contents(destinations))
    ensures StagedOutcome(w, wire, policies, specs, destinations, now, sels, old(Contents(destinations)), Contents(destinations), r)
    ensures staging.reliable && AllReliable(destinations) && r.Failure? ==> !IsIo(r.error)
  {
    StagedIsComplete(w, wire, policies, specs, now, staging.artifacts);
    r, sels := InstallAll(staging, w, policies, destinations, now);
    if r.Success? {
      AllInstalled(w, wire, policies, destinations, now, staging.artifacts, sels, old(Contents(destinations)), Contents(destinations));
      r := CheckInstalled(destinations, w, policies, specs, now);
      OutcomeChecked(w, wire, policies, specs, destinations, now, sels, old(Contents(destinations)), Contents(destinations), r);
    } else {
      OutcomeRefused(w, wire, policies, specs, destinations, now, sels, old(Contents(destinations)), Contents(destinations), r.error);
    }
  }

  lemma AllInstalled(w: World, wire: seq<WireArtifact>, policies: seq<TargetPolicy>, destinations: seq<Cache>, now: nat, staged: Artifacts,
                     sels: seq<Selection>, before: seq<Artifacts>, after: seq<Artifacts>)
    requires StagedTo(w, wire, |wire|) == Success(staged) && |sels| == |policies| == |destinations| == |before| == |after|
    requires AllSelect(w, policies, now, staged, sels) && AllProvided(w, policies, after, now, |policies|)
    requires Gained(staged, sels, destinations, before, after, |policies|)
    ensures Installed(w, wire, policies, destinations, now, sels, before, after)
  {
  }

  lemma OutcomeChecked(w: World, wire: seq<WireArtifact>, policies: seq<TargetPolicy>, specs: seq<seq<ActivationSpec>>, destinations: seq<Cache>, now: nat,
                       sels: seq<Selection>, before: seq<Artifacts>, after: seq<Artifacts>, r: Result<(), InstallError>)
    requires |policies| == |specs| == |after| && Installed(w, wire, policies, destinations, now, sels, before, after)
    requires r.Success? ==> AllReady(w, policies, specs, now, after, |policies|)
    requires r.Failure? ==> r.error.Unready? && (!IsIo(r.error) ==> !AllReady(w, policies, specs, now, after, |policies|))
    ensures StagedOutcome(w, wire, policies, specs, destinations, now, sels, before, after, r)
  {
    if r.Failure? {
      assert r.error == Unready(r.error.genuine) && IsIo(r.error) == !r.error.genuine;
    }
  }

  lemma OutcomeRefused(w: World, wire: seq<WireArtifact>, policies: seq<TargetPolicy>, specs: seq<seq<ActivationSpec>>, destinations: seq<Cache>, now: nat,
                       sels: seq<Selection>, before: seq<Artifacts>, after: seq<Artifacts>, e: InstallError)
    requires |policies| == |specs| == |after|
    requires StagedTo(w, wire, |wire|).Success? && AllRefused(w, policies, now, StagedTo(w, wire, |wire|).value, after, e)
    ensures StagedOutcome(w, wire, policies, specs, destinations, now, sels, before, after, Failure(e))
  {
    if Acceptable(w, wire, policies, now) && !IsIo(e) {
      assert SomeContradicts(w.hash, StagedTo(w, wire, |wire|).value, after);
    }
  }

  /** A bundle that only I/O and the destinations can refuse passes the first checks, for specifications
      that allow the skew preparation verifies with. */
  lemma AcceptableIsComplete(w: World, wire: seq<WireArtifact>, policies: seq<TargetPolicy>, specs: seq<seq<ActivationSpec>>, now: nat)
    requires |specs| == |policies| && Acceptable(w, wire, policies, now) && EachLenient(specs, now)
    ensures |wire| <= ENTRY_LIMIT && StagedComplete(w, wire, policies, specs, now)
  {
    var staged := StagedTo(w, wire, |wire|).value;
    forall j | 0 <= j < |policies| ensures TargetReady(w, policies[j], specs[j], now, Shared(staged, |policies|)[j])
    {
      AllWithinAt(w, policies, staged, now, |policies|, j);
      ProvidedIsReadyForAll(w, policies[j], specs[j], now, staged, |specs[j]|);
    }
  }

  lemma {:induction false} AllProvidedAt(w: World, policies: seq<TargetPolicy>, caches: seq<Artifacts>, now: nat, i: nat, j: nat)
    requires j < i <= |policies| && i <= |caches| && AllProvided(w, policies, caches, now, i)
    ensures Provided(w, policies[j], now, caches[j])
  {
    if j < i - 1 {
      AllProvidedAt(w, policies, caches, now, i - 1, j);
    }
  }

  ghost predicate AllRead(caches: seq<Artifacts>)
  {
    forall j | 0 <= j < |caches| :: Readable(caches[j])
  }

  /** Every destination that is going to be activated has room for what its targets add. */
  ghost predicate RoomForAll(staged: Artifacts, sels: seq<Selection>, destinations: seq<Cache>, specs: seq<seq<ActivationSpec>>, before: seq<Artifacts>)
    requires |sels| == |destinations| == |specs| == |before|
  {
    forall j | 0 <= j < |destinations| :: specs[j] == [] || RoomFor(AddedTo(staged, sels, destinations, destinations[j], |sels|), before[j])
  }

  lemma ReadyIffRoomAt(w: World, policies: seq<TargetPolicy>, specs: seq<seq<ActivationSpec>>, destinations: seq<Cache>, now: nat,
                       staged: Artifacts, sels: seq<Selection>, before: seq<Artifacts>, after: seq<Artifacts>, j: nat)
    requires j < |sels| == |policies| == |specs| == |destinations| == |before| == |after|
    requires Provided(w, policies[j], now, after[j]) && AllLenient(specs[j], now, |specs[j]|) && Readable(before[j]) && BundlesRead(staged)
    requires after[j] == AddedTo(staged, sels, destinations, destinations[j], |sels|) + before[j]
    ensures TargetReady(w, policies[j], specs[j], now, after[j])
      <==> specs[j] == [] || RoomFor(AddedTo(staged, sels, destinations, destinations[j], |sels|), before[j])
  {
    ProvidedIsReadyForAll(w, policies[j], specs[j], now, after[j], |specs[j]|);
    AddedReads(staged, sels, destinations, destinations[j], |sels|);
    UnionReadsIff(AddedTo(staged, sels, destinations, destinations[j], |sels|), before[j]);
  }

  /** After the imports every activation is ready if and only if every destination had room: a condition
      on the destinations before, and on what the staged selections add. */
  lemma ReadyIffRoom(w: World, wire: seq<WireArtifact>, policies: seq<TargetPolicy>, specs: seq<seq<ActivationSpec>>, destinations: seq<Cache>, now: nat,
                     sels: seq<Selection>, before: seq<Artifacts>, after: seq<Artifacts>)
    requires |policies| == |specs| && Installed(w, wire, policies, destinations, now, sels, before, after)
    requires EachLenient(specs, now) && AllRead(before) && BundlesRead(StagedTo(w, wire, |wire|).value)
    ensures AllReady(w, policies, specs, now, after, |policies|) <==> RoomForAll(StagedTo(w, wire, |wire|).value, sels, destinations, specs, before)
  {
    var staged := StagedTo(w, wire, |wire|).value;
    forall j | 0 <= j < |policies|
      ensures TargetReady(w, policies[j], specs[j], now, after[j])
        <==> specs[j] == [] || RoomFor(AddedTo(staged, sels, destinations, destinations[j], |sels|), before[j])
    {
      AllProvidedAt(w, policies, after, now, |policies|, j);
      ReadyIffRoomAt(w, policies, specs, destinations, now, staged, sels, before, after, j);
    }
  }
}
