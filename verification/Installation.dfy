/** Receiving a prepared response: stage it, check every target, then import into each cache. */
module Installation {
  import opened Prelude
  import opened CacheAddress
  import opened CacheStore
  import opened CacheTransfer
  import opened CacheOperations
  import opened ArtifactPolicy
  import opened ArtifactSelection
  import opened ArtifactInspection
  import opened FullSelection
  import opened Wire
  import opened Transport
  import opened TransportLimits
  import opened Packing
  import opened CacheCollection
  import opened CacheRoom
  import opened Readiness

  type Selection = map<Text, Candidate>

  datatype InstallError =
    | Staging(stage: StageError)
    | Inspecting(inspect: InspectError)
    | Incomplete(target: Text)
    | NotReady(target: Text)
    | Packing(wire: WireError)
    | Importing(cache: CacheError)
    | Unready(genuine: bool)

  /** Errors that say nothing about the data. */
  predicate IsIo(e: InstallError)
  {
    match e
    case Staging(stage) => stage == StageCache(Io)
    case Inspecting(inspect) => inspect == CacheFailed(Io)
    case Packing(wire) => wire.WireIo?
    case Importing(cache) => cache.Io?
    case Unready(genuine) => !genuine
    case _ => false
  }

  /** The destination holds a different bundle under some name, or one that does not read. */
  ghost predicate Contradicts(h: HashFunction, from: Artifacts, to: Artifacts)
  {
    exists k :: k in from && k in to && !Agrees(h, from[k], to[k])
  }

  /** The target's selection can be packed into one bundle. */
  ghost predicate Packable(w: World, policy: TargetPolicy, now: nat, artifacts: Artifacts)
  {
    ViewOf(w, policy, now).Some? && exists selected :: PacksWithin(ViewOf(w, policy, now).value, artifacts, selected)
  }

  ghost predicate PacksWithin(v: View, artifacts: Artifacts, selected: map<Text, Candidate>)
  {
    IsFullSelection(v, artifacts, selected) && Admitted(0, SelectionFiles(artifacts, selected), |SelectionFiles(artifacts, selected)|)
  }

  /** They are what inspecting the cache selects for each target. */
  ghost predicate AllSelect(w: World, policies: seq<TargetPolicy>, now: nat, artifacts: Artifacts, sels: seq<Selection>)
    requires |sels| <= |policies|
  {
    sels == [] ||
    (AllSelect(w, policies, now, artifacts, sels[..|sels| - 1])
     && ViewOf(w, policies[|sels| - 1], now).Some?
     && IsFullSelection(ViewOf(w, policies[|sels| - 1], now).value, artifacts, sels[|sels| - 1]))
  }

  // ---------- what a destination gains ----------

  /** What inspecting the cache selects for a target. */
  ghost predicate Selects(w: World, policy: TargetPolicy, now: nat, artifacts: Artifacts, sel: Selection)
  {
    ViewOf(w, policy, now).Some? && IsFullSelection(ViewOf(w, policy, now).value, artifacts, sel)
  }

  /** The selected bundles of a directory. */
  ghost function PackedPart(artifacts: Artifacts, sel: Selection): (part: Artifacts)
  {
    Picked(artifacts, PackedKeys(sel), |PackedKeys(sel)|)
  }

  /** What the first `n` targets add to this destination; several targets may share one. */
  ghost function AddedTo(staged: Artifacts, sels: seq<Selection>, destinations: seq<Cache>, d: Cache, n: nat): (added: Artifacts)
    requires n <= |sels| && n <= |destinations|
  {
    if n == 0 then map[]
    else if destinations[n - 1] == d then PackedPart(staged, sels[n - 1]) + AddedTo(staged, sels, destinations, d, n - 1)
    else AddedTo(staged, sels, destinations, d, n - 1)
  }

  /** Every destination is what it was and what the first `n` targets added to it. */
  ghost predicate Gained(staged: Artifacts, sels: seq<Selection>, destinations: seq<Cache>, before: seq<Artifacts>, after: seq<Artifacts>, n: nat)
    requires n <= |sels| && n <= |destinations|
  {
    match |before| == |after| == |destinations|
    case false => false
    case true => forall j | 0 <= j < |destinations| :: after[j] == AddedTo(staged, sels, destinations, destinations[j], n) + before[j]
  }

  lemma {:induction false} AddedPrefix(staged: Artifacts, sels: seq<Selection>, sel: Selection, destinations: seq<Cache>, d: Cache, n: nat)
    requires n <= |sels| && n <= |destinations|
    ensures AddedTo(staged, sels + [sel], destinations, d, n) == AddedTo(staged, sels, destinations, d, n)
  {
    if n > 0 {
      AddedPrefix(staged, sels, sel, destinations, d, n - 1);
    }
  }

  lemma GainsNext(staged: Artifacts, sels: seq<Selection>, sel: Selection, destinations: seq<Cache>, before: seq<Artifacts>, middle: seq<Artifacts>, after: seq<Artifacts>)
    requires |sels| < |destinations| && Gained(staged, sels, destinations, before, middle, |sels|) && |after| == |middle|
    requires forall j | 0 <= j < |after| ::
      after[j] == if destinations[j] == destinations[|sels|] then PackedPart(staged, sel) + middle[j] else middle[j]
    ensures Gained(staged, sels + [sel], destinations, before, after, |sels| + 1)
  {
    forall j | 0 <= j < |destinations|
      ensures after[j] == AddedTo(staged, sels + [sel], destinations, destinations[j], |sels| + 1) + before[j]
    {
      AddedPrefix(staged, sels, sel, destinations, destinations[j], |sels|);
      JoinsAssociate(PackedPart(staged, sel), AddedTo(staged, sels, destinations, destinations[j], |sels|), before[j]);
    }
  }

  lemma JoinsAssociate(a: Artifacts, b: Artifacts, c: Artifacts)
    ensures a + (b + c) == (a + b) + c
  {
  }

  lemma {:induction false} AddedReads(staged: Artifacts, sels: seq<Selection>, destinations: seq<Cache>, d: Cache, n: nat)
    requires n <= |sels| && n <= |destinations| && BundlesRead(staged)
    ensures BundlesRead(AddedTo(staged, sels, destinations, d, n))
  {
    if n > 0 {
      AddedReads(staged, sels, destinations, d, n - 1);
      PickedPart(staged, PackedKeys(sels[n - 1]), |PackedKeys(sels[n - 1])|);
    }
  }

  // ---------- staging ----------

  lemma {:induction false} StoredFailureStays(entries: seq<Unpacked>, i: nat, j: nat)
    requires i <= j <= |entries| && StoredTo(entries, i).Failure?
    ensures StoredTo(entries, j).Failure?
  {
    if i < j {
      StoredFailureStays(entries, i, j - 1);
    }
  }

  /** One artifact of stage_bundle. */
  method StageOne(cache: Cache, entry: Unpacked) returns (r: Result<(), StageError>)
    modifies cache`artifacts
    ensures r.Success? ==> entry.Success? && Store(old(cache.artifacts), entry.value.0, entry.value.1) == Success(cache.artifacts)
    ensures r.Failure? && r.error != StageCache(Io) ==> entry.Failure? || Store(old(cache.artifacts), entry.value.0, entry.value.1).Failure?
    ensures cache.reliable && r == Failure(StageCache(Io)) ==> entry == Failure(StageCache(Io))
  {
    if entry.Failure? {
      return Failure(entry.error);
    }
    var (key, files) := entry.value;
    var record := cache.PutArtifactByKey(key, files.ciphertext, files.envelope);
    r := if record.Failure? then Failure(StageCache(record.error)) else Success(());
  }

  method StageAll(cache: Cache, entries: seq<Unpacked>) returns (r: Result<(), StageError>)
    requires cache.artifacts == map[]
    modifies cache`artifacts
    ensures r.Success? ==> StoredTo(entries, |entries|) == Success(cache.artifacts)
    ensures r.Failure? && r.error != StageCache(Io) ==> StoredTo(entries, |entries|).Failure?
    ensures cache.reliable && r == Failure(StageCache(Io)) ==> Failure(StageCache(Io)) in entries
  {
    var i: nat := 0;
    while i < |entries|
      invariant 0 <= i <= |entries| && StoredTo(entries, i) == Success(cache.artifacts)
    {
      r := StageOne(cache, entries[i]);
      if r.Failure? {
        if r.error != StageCache(Io) {
          StoredFailureStays(entries, i + 1, |entries|);
        }
        return;
      }
      i := i + 1;
    }
    r := Success(());
  }

  /** stage_bundle: a new cache holding the unpacked artifacts. */
  method StageBundle(w: World, wire: seq<WireArtifact>, reliable: bool) returns (r: Result<Cache, StageError>)
    ensures r.Success? ==> fresh(r.value) && r.value.h == w.hash && r.value.objects == map[]
    ensures r.Success? ==> StagedTo(w, wire, |wire|) == Success(r.value.artifacts)
    ensures r.Failure? && r.error != StageCache(Io) ==> |wire| > ENTRY_LIMIT || StagedTo(w, wire, |wire|).Failure?
    ensures r.Success? ==> r.value.reliable == reliable
    ensures reliable ==> r != Failure(StageCache(Io))
  {
    if |wire| > ENTRY_LIMIT {
      return Failure(UnsupportedBundle);
    }
    var cache := new Cache(w.hash, reliable);
    var entries := UnpackAll(w, wire);
    var staged := StageAll(cache, entries);
    if staged.Failure? {
      return Failure(staged.error);
    }
    r := Success(cache);
  }

  /** install: stage and import. Other than by I/O it fails only on a bad bundle or when the cache
      contradicts it, and then the cache is as it was. */
  method Install(destination: Cache, w: World, wire: seq<WireArtifact>) returns (r: Result<(), InstallError>)
    requires destination.h == w.hash
    modifies destination
    ensures PartOf(old(destination.artifacts), destination.artifacts)
    ensures r.Success? ==> StagedTo(w, wire, |wire|).Success?
    ensures r.Success? ==> destination.artifacts == StagedTo(w, wire, |wire|).value + old(destination.artifacts)
    ensures r.Success? ==> Importable(w.hash, map[], StagedTo(w, wire, |wire|).value, old(destination.objects), old(destination.artifacts))
    ensures r.Failure? ==> r.error.Staging? || r.error.Importing?
    ensures r.Failure? && r.error.Importing? ==> StagedTo(w, wire, |wire|).Success?
    ensures r.Failure? && r.error.Importing? && r.error.cache != Io ==>
      !Importable(w.hash, map[], StagedTo(w, wire, |wire|).value, old(destination.objects), old(destination.artifacts))
    ensures r.Failure? && r.error.Staging? && r.error.stage != StageCache(Io) ==> |wire| > ENTRY_LIMIT || StagedTo(w, wire, |wire|).Failure?
    ensures r.Failure? && r.error != Importing(Io) ==> destination.artifacts == old(destination.artifacts) && destination.objects == old(destination.objects)
    ensures destination.reliable && r.Failure? ==> !IsIo(r.error)
  {
    var staging := StageBundle(w, wire, destination.reliable);
    if staging.Failure? {
      return Failure(Staging(staging.error));
    }
    var imported := destination.ImportFrom(staging.value);
    if imported.Failure? {
      return Failure(Importing(imported.error));
    }
    r := Success(());
  }

  // ---------- one target ----------

  /** What a bundle packed from one selection becomes once it is staged elsewhere. */
  lemma PackedStages(v: View, artifacts: Artifacts, selected: map<Text, Candidate>, keys: seq<Text>, wire: seq<WireArtifact>)
    requires IsFullSelection(v, artifacts, selected) && Readable(artifacts) && Packs(v, artifacts, selected, keys)
    requires wire == Appended([], FilesTo(artifacts, keys, |keys|), |keys|) && Fits(wire)
    ensures StagedTo(v.w, wire, |wire|).Success? && |wire| <= ENTRY_LIMIT
    ensures var staged := StagedTo(v.w, wire, |wire|).value;
      && IsFullSelection(v, staged, selected) && Transferable(v.w.hash, map[], staged) && PartOf(staged, artifacts)
  {
    AllPortable(v.w, artifacts, keys, v.policy.targetId);
    CarriesMore(v.w, artifacts, [], [], keys);
    assert [] + keys == keys;
    TransportKeepsSelection(v, artifacts, keys, wire, selected);
    StagingReproduces(v.w, artifacts, keys, wire);
    StagedIsTransferable(v.w, artifacts, keys, wire);
    PackedCount(v.w, artifacts, keys, wire);
    PickedPart(artifacts, keys, |keys|);
  }

  lemma PackedCount(w: World, artifacts: Artifacts, keys: seq<Text>, wire: seq<WireArtifact>)
    requires Readable(artifacts) && NoRepeats(keys, |keys|) && Carries(w, artifacts, keys, wire)
    ensures |wire| <= ENTRY_LIMIT
  {
    PickedReads(w, artifacts, keys, wire);
    PickedEnvelopes(artifacts, keys);
  }

  /** An import of a complete staged cache provides the target with everything. */
  lemma ImportProvides(v: View, staged: Artifacts, objects: Objects, to: Artifacts, selected: map<Text, Candidate>)
    requires IsFullSelection(v, staged, selected) && selected.Keys == v.policy.secrets.Keys
    requires Importable(v.w.hash, map[], staged, objects, to)
    ensures Supplied(v, staged + to)
  {
    CompleteIsSupplied(v, staged, selected);
    ImportSupplies(v, staged, to);
  }

  /** A target's selection, packed. */
  ghost predicate PackedFrom(v: View, artifacts: Artifacts, selected: map<Text, Candidate>, wire: seq<WireArtifact>)
  {
    && IsFullSelection(v, artifacts, selected) && Readable(artifacts)
    && Packs(v, artifacts, selected, PackedKeys(selected))
    && wire == Appended([], SelectionFiles(artifacts, selected), |PackedKeys(selected)|) && Fits(wire)
  }

  lemma PackedProvides(v: View, artifacts: Artifacts, selected: map<Text, Candidate>, wire: seq<WireArtifact>, objects: Objects, to: Artifacts)
    requires PackedFrom(v, artifacts, selected, wire)
    requires StagedTo(v.w, wire, |wire|).Success? && Importable(v.w.hash, map[], StagedTo(v.w, wire, |wire|).value, objects, to)
    ensures Supplied(v, artifacts) ==> Supplied(v, StagedTo(v.w, wire, |wire|).value + to)
  {
    if Supplied(v, artifacts) {
      CompleteIsSupplied(v, artifacts, selected);
      PackedStages(v, artifacts, selected, PackedKeys(selected), wire);
      ImportProvides(v, StagedTo(v.w, wire, |wire|).value, objects, to, selected);
    }
  }

  lemma RefusalContradicts(v: View, artifacts: Artifacts, selected: map<Text, Candidate>, wire: seq<WireArtifact>, objects: Objects, to: Artifacts)
    requires PackedFrom(v, artifacts, selected, wire)
    requires StagedTo(v.w, wire, |wire|).Success? && !Importable(v.w.hash, map[], StagedTo(v.w, wire, |wire|).value, objects, to)
    ensures Contradicts(v.w.hash, artifacts, to)
  {
    PackedStages(v, artifacts, selected, PackedKeys(selected), wire);
    var staged := StagedTo(v.w, wire, |wire|).value;
    assert !Compatible(v.w.hash, map[], staged, objects, to);
    var k :| k in staged && k in to && !Agrees(v.w.hash, staged[k], to[k]);
    assert k in artifacts && artifacts[k] == staged[k];
  }

  lemma PackedIsStaged(v: View, artifacts: Artifacts, selected: map<Text, Candidate>, wire: seq<WireArtifact>)
    requires PackedFrom(v, artifacts, selected, wire)
    ensures StagedTo(v.w, wire, |wire|) == Success(PackedPart(artifacts, selected)) && |wire| <= ENTRY_LIMIT
  {
    var keys := PackedKeys(selected);
    PackedStages(v, artifacts, selected, keys, wire);
    AllPortable(v.w, artifacts, keys, v.policy.targetId);
    CarriesMore(v.w, artifacts, [], [], keys);
    assert [] + keys == keys;
    StagingReproduces(v.w, artifacts, keys, wire);
  }

  /** The only selection there is packs. */
  lemma PacksUniquely(w: World, policy: TargetPolicy, now: nat, artifacts: Artifacts, selected: map<Text, Candidate>)
    requires Packable(w, policy, now, artifacts) && IsFullSelection(ViewOf(w, policy, now).value, artifacts, selected)
    ensures Admitted(0, SelectionFiles(artifacts, selected), |SelectionFiles(artifacts, selected)|)
  {
    var v := ViewOf(w, policy, now).value;
    var other :| PacksWithin(v, artifacts, other);
    FullSelectionUnique(v, artifacts, selected, other);
  }

  lemma ProvidedIsInspectable(w: World, policy: TargetPolicy, now: nat, artifacts: Artifacts)
    requires Provided(w, policy, now, artifacts) && Readable(artifacts)
    ensures !Uninspectable(w, policy, now, artifacts)
  {
    var v := ViewOf(w, policy, now).value;
    forall phase ensures !HasFatal(In(v, phase), artifacts)
    {
      forall k | k in artifacts ensures !JudgeAt(In(v, phase), artifacts, k).Fatal?
      {
        SuppliedNeverFatal(v, phase, artifacts, k);
      }
    }
  }

  /** Selects a target's artifacts and packs them. */
  method PackSelection(staging: Cache, w: World, policy: TargetPolicy, now: nat)
    returns (r: Result<seq<WireArtifact>, InstallError>, ghost selected: map<Text, Candidate>)
    requires staging.h == w.hash
    ensures r.Success? ==> ViewOf(w, policy, now).Some?
    ensures r.Success? ==> PackedFrom(ViewOf(w, policy, now).value, staging.artifacts, selected, r.value)
    ensures r.Failure? ==> r.error.Inspecting? || r.error.Packing?
    ensures r.Failure? && !IsIo(r.error) ==> Uninspectable(w, policy, now, staging.artifacts) || !Packable(w, policy, now, staging.artifacts)
    ensures staging.reliable && r.Failure? ==> !IsIo(r.error)
  {
    selected := map[];
    var inspected := InspectAll(staging, w, policy, now);
    if inspected.Failure? {
      return Failure(Inspecting(inspected.error)), selected;
    }
    selected := inspected.value;
    var packed := PackFound(staging, ViewOf(w, policy, now).value, inspected.value);
    if packed.Failure? {
      if packed.error.TooLarge? && Packable(w, policy, now, staging.artifacts) {
        PacksUniquely(w, policy, now, staging.artifacts, selected);
      }
      return Failure(Packing(packed.error)), selected;
    }
    r := Success(packed.value);
  }

  /** Packs what was selected into a bundle of its own. */
  method PackFound(staging: Cache, ghost v: View, selected: map<Text, Candidate>) returns (r: Result<seq<WireArtifact>, WireError>)
    requires staging.h == v.w.hash && Readable(staging.artifacts) && IsFullSelection(v, staging.artifacts, selected)
    ensures r.Success? ==> PackedFrom(v, staging.artifacts, selected, r.value)
    ensures r == Failure(TooLarge) ==> !Admitted(0, SelectionFiles(staging.artifacts, selected), |SelectionFiles(staging.artifacts, selected)|)
    ensures staging.reliable ==> r != Failure(WireIo)
  {
    var files := SelectedFiles(staging, v, selected);
    var bundle := new PreparedBundle(staging.reliable);
    var packed, n := bundle.AppendArtifacts(files);
    r := if packed.Failure? then Failure(packed.error) else Success(bundle.artifacts);
  }

  /** Installs a packed selection: refused only by I/O or by a destination that contradicts it. */
  method InstallPacked(destination: Cache, w: World, wire: seq<WireArtifact>, ghost v: View, ghost artifacts: Artifacts, ghost selected: map<Text, Candidate>)
    returns (r: Result<(), InstallError>)
    requires destination.h == w.hash && v.w == w && PackedFrom(v, artifacts, selected, wire)
    modifies destination
    ensures PartOf(old(destination.artifacts), destination.artifacts)
    ensures r.Success? && Supplied(v, artifacts) ==> Supplied(v, destination.artifacts)
    ensures r.Success? ==> destination.artifacts == PackedPart(artifacts, selected) + old(destination.artifacts)
    ensures r.Failure? && r.error != Importing(Io) ==> destination.artifacts == old(destination.artifacts) && destination.objects == old(destination.objects)
    ensures r.Failure? ==> !r.error.NotReady? && !r.error.Unready?
    ensures r.Failure? && !IsIo(r.error) ==> Contradicts(w.hash, artifacts, destination.artifacts)
    ensures destination.reliable && r.Failure? ==> !IsIo(r.error)
  {
    ghost var objects, to := destination.objects, destination.artifacts;
    PackedIsStaged(v, artifacts, selected, wire);
    r := Install(destination, w, wire);
    if r.Success? {
      PackedProvides(v, artifacts, selected, wire, objects, to);
    } else if r.error.Importing? && r.error.cache != Io {
      RefusalContradicts(v, artifacts, selected, wire, objects, to);
      assert destination.artifacts == to;
    } else {
      assert IsIo(r.error);
    }
  }

  /** What installing one target does: its destination gains the selection from the staging cache, and
      stays readable if and only if it has room for it. */
  ghost predicate TargetInstalled(w: World, policy: TargetPolicy, now: nat, staged: Artifacts, sel: Selection, before: Artifacts, after: Artifacts)
  {
    match ViewOf(w, policy, now)
    case None => false
    case Some(v) =>
      && IsFullSelection(v, staged, sel) && after == PackedPart(staged, sel) + before
      && (Supplied(v, staged) ==> Supplied(v, after))
      && (Readable(before) ==> (Readable(after) <==> RoomFor(PackedPart(staged, sel), before)))
  }

  lemma PackedIsInstalled(w: World, policy: TargetPolicy, now: nat, staged: Artifacts, sel: Selection, before: Artifacts, after: Artifacts)
    requires ViewOf(w, policy, now).Some? && IsFullSelection(ViewOf(w, policy, now).value, staged, sel)
    requires after == PackedPart(staged, sel) + before && Readable(staged)
    requires Supplied(ViewOf(w, policy, now).value, staged) ==> Supplied(ViewOf(w, policy, now).value, after)
    ensures TargetInstalled(w, policy, now, staged, sel, before, after)
  {
    PickedPart(staged, PackedKeys(sel), |PackedKeys(sel)|);
    if Readable(before) {
      UnionReadsIff(PackedPart(staged, sel), before);
    }
  }

  /** Why one target is refused. */
  ghost predicate TargetRefused(w: World, policy: TargetPolicy, now: nat, staged: Artifacts, left: Artifacts, e: InstallError)
  {
    match e
    case NotReady(_) => false
    case Unready(_) => false
    case _ =>
      || IsIo(e) || Uninspectable(w, policy, now, staged) || !Packable(w, policy, now, staged)
      || Contradicts(w.hash, staged, left)
  }

  /** Selects from the staging cache, packs the selection and installs it. */
  method InstallTarget(staging: Cache, destination: Cache, w: World, policy: TargetPolicy, now: nat) returns (r: Result<(), InstallError>, ghost sel: Selection)
    requires staging != destination && staging.h == w.hash && destination.h == w.hash
    modifies destination
    ensures PartOf(old(destination.artifacts), destination.artifacts)
    ensures r.Success? ==> TargetInstalled(w, policy, now, staging.artifacts, sel, old(destination.artifacts), destination.artifacts)
    ensures r.Failure? ==> TargetRefused(w, policy, now, staging.artifacts, destination.artifacts, r.error)
    ensures r.Failure? && r.error != Importing(Io) ==> destination.artifacts == old(destination.artifacts) && destination.objects == old(destination.objects)
    ensures staging.reliable && destination.reliable && r.Failure? ==> !IsIo(r.error)
  {
    var wire;
    wire, sel := PackSelection(staging, w, policy, now);
    if wire.Failure? {
      return Failure(wire.error), sel;
    }
    r := InstallPacked(destination, w, wire.value, ViewOf(w, policy, now).value, staging.artifacts, sel);
    if r.Success? {
      PackedIsInstalled(w, policy, now, staging.artifacts, sel, old(destination.artifacts), destination.artifacts);
    }
  }

  // ---------- every target ----------

  /** A cache that only gained records still provides what it provided. */
  lemma StaysProvided(w: World, policy: TargetPolicy, now: nat, before: Artifacts, after: Artifacts)
    requires Provided(w, policy, now, before) && PartOf(before, after)
    ensures Provided(w, policy, now, after)
  {
    GrowthKeepsSupplied(ViewOf(w, policy, now).value, before, after);
  }

  /** The first `i` targets are provided for, each by its own cache. */
  ghost predicate AllProvided(w: World, policies: seq<TargetPolicy>, caches: seq<Artifacts>, now: nat, i: nat)
    requires i <= |policies| && i <= |caches|
  {
    i == 0 || (AllProvided(w, policies, caches, now, i - 1) && Provided(w, policies[i - 1], now, caches[i - 1]))
  }

  lemma {:induction false} AllStayProvided(w: World, policies: seq<TargetPolicy>, before: seq<Artifacts>, after: seq<Artifacts>, now: nat, i: nat)
    requires i <= |policies| && i <= |before| == |after| && AllProvided(w, policies, before, now, i)
    requires forall j | 0 <= j < i :: PartOf(before[j], after[j])
    ensures AllProvided(w, policies, after, now, i)
  {
    if i > 0 {
      AllStayProvided(w, policies, before, after, now, i - 1);
      StaysProvided(w, policies[i - 1], now, before[i - 1], after[i - 1]);
    }
  }

  /** The first `i` targets are provided for by one cache. */
  ghost predicate AllWithin(w: World, policies: seq<TargetPolicy>, artifacts: Artifacts, now: nat, i: nat)
    requires i <= |policies|
  {
    i == 0 || (AllWithin(w, policies, artifacts, now, i - 1) && Provided(w, policies[i - 1], now, artifacts))
  }

  lemma {:induction false} AllWithinAt(w: World, policies: seq<TargetPolicy>, artifacts: Artifacts, now: nat, i: nat, j: nat)
    requires j < i <= |policies| && AllWithin(w, policies, artifacts, now, i)
    ensures Provided(w, policies[j], now, artifacts)
  {
    if j < i - 1 {
      AllWithinAt(w, policies, artifacts, now, i - 1, j);
    }
  }

  /** One target's artifacts are in the staging cache. */
  method CheckTarget(staging: Cache, w: World, policy: TargetPolicy, now: nat) returns (r: Result<(), InstallError>)
    requires staging.h == w.hash
    ensures r.Success? ==> Provided(w, policy, now, staging.artifacts) && Readable(staging.artifacts)
    ensures r.Failure? ==> r.error.Inspecting? || r.error.Incomplete?
    ensures r.Failure? && r.error.Incomplete? ==> !Provided(w, policy, now, staging.artifacts)
    ensures r.Failure? && !IsIo(r.error) ==> !Provided(w, policy, now, staging.artifacts) || !Readable(staging.artifacts)
    ensures staging.reliable && r.Failure? ==> !IsIo(r.error)
  {
    var selected := InspectAll(staging, w, policy, now);
    if selected.Failure? {
      if Provided(w, policy, now, staging.artifacts) && Readable(staging.artifacts) {
        ProvidedIsInspectable(w, policy, now, staging.artifacts);
      }
      return Failure(Inspecting(selected.error));
    }
    CountDecides(ViewOf(w, policy, now).value, staging.artifacts, selected.value);
    if |selected.value| != |policy.secrets| {
      return Failure(Incomplete(policy.targetId));
    }
    r := Success(());
  }

  /** Every target's artifacts are in the staging cache before anything is installed. */
  method CheckTargets(staging: Cache, w: World, policies: seq<TargetPolicy>, now: nat) returns (r: Result<(), InstallError>)
    requires staging.h == w.hash
    ensures r.Success? ==> AllWithin(w, policies, staging.artifacts, now, |policies|) && (policies != [] ==> Readable(staging.artifacts))
    ensures r.Failure? ==> policies != [] && (r.error.Inspecting? || r.error.Incomplete?)
    ensures r.Failure? && r.error.Incomplete? ==> !AllWithin(w, policies, staging.artifacts, now, |policies|)
    ensures r.Failure? && !IsIo(r.error) ==> !AllWithin(w, policies, staging.artifacts, now, |policies|) || !Readable(staging.artifacts)
    ensures staging.reliable && r.Failure? ==> !IsIo(r.error)
  {
    var i: nat := 0;
    while i < |policies|
      invariant 0 <= i <= |policies| && AllWithin(w, policies, staging.artifacts, now, i) && (i > 0 ==> Readable(staging.artifacts))
    {
      r := CheckTarget(staging, w, policies[i], now);
      if r.Failure? {
        if AllWithin(w, policies, staging.artifacts, now, |policies|) {
          AllWithinAt(w, policies, staging.artifacts, now, |policies|, i);
        }
        return;
      }
      i := i + 1;
    }
    r := Success(());
  }

  /** Counting selected artifacts is enough to know that none is missing. */
  lemma CountDecides(v: View, artifacts: Artifacts, selected: map<Text, Candidate>)
    requires IsFullSelection(v, artifacts, selected)
    ensures |selected| == |v.policy.secrets| <==> Supplied(v, artifacts)
  {
    SelectsOwnSecrets(v, artifacts, selected);
    CompleteIsSupplied(v, artifacts, selected);
    assert |selected| == |selected.Keys| && |v.policy.secrets| == |v.policy.secrets.Keys|;
    SameCount(selected.Keys, v.policy.secrets.Keys);
  }

  lemma SameCount(part: set<Text>, whole: set<Text>)
    requires part <= whole
    ensures |part| == |whole| <==> part == whole
  {
    assert |whole| == |part| + |whole - part| by {
      assert whole == part + (whole - part);
    }
  }

  predicate AllReliable(caches: seq<Cache>)
  {
    forall j | 0 <= j < |caches| :: caches[j].reliable
  }

  /** The bundles of several caches. */
  ghost function Contents(caches: seq<Cache>): (r: seq<Artifacts>)
    reads caches
    ensures |r| == |caches| && forall j | 0 <= j < |r| :: r[j] == caches[j].artifacts
  {
    seq(|caches|, j requires 0 <= j < |caches| reads caches => caches[j].artifacts)
  }

  ghost predicate AllGrew(before: seq<Artifacts>, after: seq<Artifacts>)
  {
    |before| == |after| && forall j | 0 <= j < |before| :: PartOf(before[j], after[j])
  }

  lemma GrowthChains(a: seq<Artifacts>, b: seq<Artifacts>, c: seq<Artifacts>)
    requires AllGrew(a, b) && AllGrew(b, c)
    ensures AllGrew(a, c)
  {
  }

  /** The first `i` targets can each be packed from one cache. */
  ghost predicate AllPackable(w: World, policies: seq<TargetPolicy>, artifacts: Artifacts, now: nat, i: nat)
    requires i <= |policies|
  {
    i == 0 || (AllPackable(w, policies, artifacts, now, i - 1) && Packable(w, policies[i - 1], now, artifacts))
  }

  lemma {:induction false} AllPackableAt(w: World, policies: seq<TargetPolicy>, artifacts: Artifacts, now: nat, i: nat, j: nat)
    requires j < i <= |policies| && AllPackable(w, policies, artifacts, now, i)
    ensures Packable(w, policies[j], now, artifacts)
  {
    if j < i - 1 {
      AllPackableAt(w, policies, artifacts, now, i - 1, j);
    }
  }

  ghost predicate SomeContradicts(h: HashFunction, from: Artifacts, caches: seq<Artifacts>)
  {
    exists j | 0 <= j < |caches| :: Contradicts(h, from, caches[j])
  }

  /** Installs the next target; no cache loses anything. */
  method InstallNext(staging: Cache, w: World, policies: seq<TargetPolicy>, destinations: seq<Cache>, now: nat, i: nat,
                     ghost sels: seq<Selection>, ghost start: seq<Artifacts>)
    returns (r: Result<(), InstallError>, ghost sel: Selection)
    requires i == |sels| < |policies| == |destinations| && staging !in destinations && staging.h == w.hash
    requires forall d | d in destinations :: d.h == w.hash
    requires Provided(w, policies[i], now, staging.artifacts)
    requires AllProvided(w, policies, Contents(destinations), now, i) && Gained(staging.artifacts, sels, destinations, start, Contents(destinations), i)
    modifies destinations
    ensures AllGrew(old(Contents(destinations)), Contents(destinations))
    ensures r.Success? ==> AllProvided(w, policies, Contents(destinations), now, i + 1) && Selects(w, policies[i], now, staging.artifacts, sel)
    ensures r.Success? ==> Gained(staging.artifacts, sels + [sel], destinations, start, Contents(destinations), i + 1)
    ensures r.Failure? ==> NextRefused(w, policies[i], now, staging.artifacts, Contents(destinations), r.error)
    ensures staging.reliable && AllReliable(destinations) && r.Failure? ==> !IsIo(r.error)
  {
    ghost var middle := Contents(destinations);
    r, sel := InstallAt(staging, w, policies[i], destinations, now, i);
    ghost var after := Contents(destinations);
    ChangesGrow(destinations, i, middle, after);
    if r.Success? {
      NextProvided(w, policies, now, staging.artifacts, sel, i, middle, after);
      NextGained(staging.artifacts, destinations, sels, sel, start, middle, after);
    } else {
      RefusedNext(w, policies[i], now, staging.artifacts, after, i, r.error);
    }
  }

  /** Installs one target into the cache listed for it. */
  method InstallAt(staging: Cache, w: World, policy: TargetPolicy, destinations: seq<Cache>, now: nat, i: nat)
    returns (r: Result<(), InstallError>, ghost sel: Selection)
    requires i < |destinations| && staging !in destinations && staging.h == w.hash && forall d | d in destinations :: d.h == w.hash
    modifies destinations
    ensures staging.artifacts == old(staging.artifacts)
    ensures OnlyChanges(destinations, i, old(Contents(destinations)), Contents(destinations))
    ensures PartOf(old(Contents(destinations))[i], Contents(destinations)[i])
    ensures r.Success? ==> TargetInstalled(w, policy, now, staging.artifacts, sel, old(Contents(destinations))[i], Contents(destinations)[i])
    ensures r.Failure? ==> TargetRefused(w, policy, now, staging.artifacts, Contents(destinations)[i], r.error)
    ensures staging.reliable && AllReliable(destinations) && r.Failure? ==> !IsIo(r.error)
  {
    assert destinations[i] in destinations;
    r, sel := InstallTarget(staging, destinations[i], w, policy, now);
  }

  /** At most the cache of the `i`th target is changed, wherever it is listed. */
  ghost predicate OnlyChanges(destinations: seq<Cache>, i: nat, before: seq<Artifacts>, after: seq<Artifacts>)
    requires i < |destinations|
  {
    match |before| == |after| == |destinations|
    case false => false
    case true =>
      forall j | 0 <= j < |destinations| ::
        && (destinations[j] == destinations[i] ==> before[j] == before[i] && after[j] == after[i])
        && (destinations[j] != destinations[i] ==> after[j] == before[j])
  }

  lemma ChangesGrow(destinations: seq<Cache>, i: nat, before: seq<Artifacts>, after: seq<Artifacts>)
    requires i < |destinations| == |before| == |after| && OnlyChanges(destinations, i, before, after) && PartOf(before[i], after[i])
    ensures AllGrew(before, after)
  {
    forall j | 0 <= j < |before| ensures PartOf(before[j], after[j])
    {
      assert destinations[j] == destinations[i] ==> before[j] == before[i] && after[j] == after[i];
    }
  }

  lemma NextProvided(w: World, policies: seq<TargetPolicy>, now: nat, staged: Artifacts, sel: Selection, i: nat, middle: seq<Artifacts>, after: seq<Artifacts>)
    requires i < |policies| == |middle| == |after| && AllGrew(middle, after) && AllProvided(w, policies, middle, now, i)
    requires TargetInstalled(w, policies[i], now, staged, sel, middle[i], after[i]) && Provided(w, policies[i], now, staged)
    ensures AllProvided(w, policies, after, now, i + 1) && Selects(w, policies[i], now, staged, sel) && after[i] == PackedPart(staged, sel) + middle[i]
  {
    InstalledProvides(w, policies[i], now, staged, sel, middle[i], after[i]);
    AllStayProvided(w, policies, middle, after, now, i);
  }

  lemma NextGained(staged: Artifacts, destinations: seq<Cache>, sels: seq<Selection>, sel: Selection, start: seq<Artifacts>, middle: seq<Artifacts>, after: seq<Artifacts>)
    requires |sels| < |destinations| == |middle| == |after| && OnlyChanges(destinations, |sels|, middle, after)
    requires after[|sels|] == PackedPart(staged, sel) + middle[|sels|] && Gained(staged, sels, destinations, start, middle, |sels|)
    ensures Gained(staged, sels + [sel], destinations, start, after, |sels| + 1)
  {
    forall j | 0 <= j < |after| ensures after[j] == if destinations[j] == destinations[|sels|] then PackedPart(staged, sel) + middle[j] else middle[j]
    {
      assert destinations[j] == destinations[|sels|] ==> middle[j] == middle[|sels|] && after[j] == after[|sels|];
    }
    GainsNext(staged, sels, sel, destinations, start, middle, after);
  }

  lemma InstalledProvides(w: World, policy: TargetPolicy, now: nat, staged: Artifacts, sel: Selection, before: Artifacts, after: Artifacts)
    requires TargetInstalled(w, policy, now, staged, sel, before, after) && Provided(w, policy, now, staged)
    ensures Provided(w, policy, now, after) && Selects(w, policy, now, staged, sel) && after == PackedPart(staged, sel) + before
  {
  }

  /** Why the next target is refused although the staging cache provides for it. */
  ghost predicate NextRefused(w: World, policy: TargetPolicy, now: nat, staged: Artifacts, caches: seq<Artifacts>, e: InstallError)
  {
    match e
    case NotReady(_) => false
    case Unready(_) => false
    case _ => IsIo(e) || !Readable(staged) || !Packable(w, policy, now, staged) || SomeContradicts(w.hash, staged, caches)
  }

  lemma RefusedNext(w: World, policy: TargetPolicy, now: nat, staged: Artifacts, caches: seq<Artifacts>, i: nat, e: InstallError)
    requires i < |caches| && Provided(w, policy, now, staged) && TargetRefused(w, policy, now, staged, caches[i], e)
    ensures NextRefused(w, policy, now, staged, caches, e)
  {
    if Readable(staged) {
      ProvidedIsInspectable(w, policy, now, staged);
    }
    assert Contradicts(w.hash, staged, caches[i]) ==> SomeContradicts(w.hash, staged, caches);
  }

  lemma NothingGained(staged: Artifacts, destinations: seq<Cache>, caches: seq<Artifacts>)
    requires |caches| == |destinations|
    ensures Gained(staged, [], destinations, caches, caches, 0)
  {
  }

  method InstallAll(staging: Cache, w: World, policies: seq<TargetPolicy>, destinations: seq<Cache>, now: nat)
    returns (r: Result<(), InstallError>, ghost sels: seq<Selection>)
    requires |policies| == |destinations| && staging !in destinations && staging.h == w.hash
    requires forall d | d in destinations :: d.h == w.hash
    requires AllWithin(w, policies, staging.artifacts, now, |policies|)
    modifies destinations
    ensures AllGrew(old(Contents(destinations)), Contents(destinations))
    ensures r.Success? ==> AllProvided(w, policies, Contents(destinations), now, |policies|)
    ensures r.Success? ==> |sels| == |policies| && AllSelect(w, policies, now, staging.artifacts, sels)
    ensures r.Success? ==> Gained(staging.artifacts, sels, destinations, old(Contents(destinations)), Contents(destinations), |policies|)
    ensures r.Failure? ==> AllRefused(w, policies, now, staging.artifacts, Contents(destinations), r.error)
    ensures staging.reliable && AllReliable(destinations) && r.Failure? ==> !IsIo(r.error)
  {
    r, sels := Success(()), [];
    NothingGained(staging.artifacts, destinations, Contents(destinations));
    var i: nat := 0;
    while i < |policies|
      invariant i == |sels| <= |policies| && r.Success? && staging.artifacts == old(staging.artifacts)
      invariant AllGrew(old(Contents(destinations)), Contents(destinations))
      invariant AllProvided(w, policies, Contents(destinations), now, i) && AllSelect(w, policies, now, staging.artifacts, sels)
      invariant Gained(staging.artifacts, sels, destinations, old(Contents(destinations)), Contents(destinations), i)
    {
      AllWithinAt(w, policies, staging.artifacts, now, |policies|, i);
      ghost var before := Contents(destinations);
      ghost var sel;
      r, sel := InstallNext(staging, w, policies, destinations, now, i, sels, old(Contents(destinations)));
      GrowthChains(old(Contents(destinations)), before, Contents(destinations));
      if r.Failure? {
        RefusedSome(w, policies, now, staging.artifacts, Contents(destinations), i, r.error);
        return;
      }
      OneMoreSelected(w, policies, now, staging.artifacts, sels, sel);
      sels, i := sels + [sel], i + 1;
    }
  }

  /** Why an installation stopped, where everything can be packed. */
  ghost predicate AllRefused(w: World, policies: seq<TargetPolicy>, now: nat, staged: Artifacts, caches: seq<Artifacts>, e: InstallError)
  {
    match e
    case NotReady(_) => false
    case Unready(_) => false
    case _ =>
      || IsIo(e) || !Readable(staged) || !AllPackable(w, policies, staged, now, |policies|)
      || SomeContradicts(w.hash, staged, caches)
  }

  lemma RefusedSome(w: World, policies: seq<TargetPolicy>, now: nat, staged: Artifacts, caches: seq<Artifacts>, i: nat, e: InstallError)
    requires i < |policies| && NextRefused(w, policies[i], now, staged, caches, e)
    ensures AllRefused(w, policies, now, staged, caches, e)
  {
    if AllPackable(w, policies, staged, now, |policies|) {
      AllPackableAt(w, policies, staged, now, |policies|, i);
    }
  }

  lemma OneMoreSelected(w: World, policies: seq<TargetPolicy>, now: nat, artifacts: Artifacts, sels: seq<Selection>, sel: Selection)
    requires |sels| < |policies| && AllSelect(w, policies, now, artifacts, sels) && Selects(w, policies[|sels|], now, artifacts, sel)
    ensures AllSelect(w, policies, now, artifacts, sels + [sel])
  {
    assert (sels + [sel])[..|sels|] == sels;
  }
}
