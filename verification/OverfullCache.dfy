/** A cache that is full accepts an import and is refused by everything that reads it from then on. */
module OverfullCache {
  import opened Prelude
  import opened CacheAddress
  import opened CacheStore
  import opened CacheTransfer
  import opened CacheRetention
  import opened CacheOperations
  import opened CacheRoom
  import opened ArtifactPolicy
  import opened ArtifactSelection
  import opened ArtifactInspection
  import opened ArtifactRetention
  import opened ArtifactCollection

  /** Nothing that reads a cache beyond its reader's limits succeeds, and nothing makes it smaller. */
  method StuckRun(cache: Cache, w: World, plan: Plan, repository: Repository, policy: TargetPolicy, phase: Phase, now: nat, skew: nat)
    returns (inspected: Result<Inspection, InspectError>, announced: Result<GcReport, CacheError>, collected: Result<GcReport, CacheError>,
             exported: Result<(TransferReport, Cache), CacheError>)
    requires cache.h == w.hash && !Readable(cache.artifacts)
    modifies cache
    ensures inspected.Failure? && announced.Failure? && collected.Failure? && exported.Failure?
    ensures cache.artifacts == old(cache.artifacts) && cache.objects == old(cache.objects)
  {
    inspected := InspectActivationArtifacts(cache, w, policy, phase, now, skew);
    announced := CacheGc(cache, w, plan, repository, now, false);
    collected := CacheGc(cache, w, plan, repository, now, true);
    exported := cache.ExportTo();
    if exported.Success? {
      TransferableIsReadable(cache.h, cache.objects, cache.artifacts);
    }
  }

  /** An import of one new bundle into a full cache fails only by I/O; afterwards the cache is stuck. */
  method OverfillingRun(cache: Cache, source: Cache, ghost k: Text, w: World, plan: Plan, repository: Repository, policy: TargetPolicy, phase: Phase, now: nat, skew: nat)
    returns (imported: Result<TransferReport, CacheError>, inspected: Result<Inspection, InspectError>, collected: Result<GcReport, CacheError>)
    requires cache != source && cache.h == source.h == w.hash
    requires Transferable(w.hash, source.objects, source.artifacts) && Compatible(w.hash, source.objects, source.artifacts, cache.objects, cache.artifacts)
    requires Readable(cache.artifacts) && |cache.artifacts.Keys| == MAX_ENTRIES && k in source.artifacts && k !in cache.artifacts
    modifies cache
    ensures imported.Failure? ==> imported.error == Io
    ensures imported.Success? ==> inspected.Failure? && collected.Failure? && !Readable(cache.artifacts)
    ensures imported.Success? ==> cache.artifacts == source.artifacts + old(cache.artifacts)
    ensures cache.reliable && source.reliable ==> imported.Success?
  {
    FullAcceptsMore(w.hash, source.objects, source.artifacts, cache.objects, cache.artifacts, k);
    imported := cache.ImportFrom(source);
    inspected := InspectActivationArtifacts(cache, w, policy, phase, now, skew);
    if imported.Success? {
      var announced, exported;
      inspected, announced, collected, exported := StuckRun(cache, w, plan, repository, policy, phase, now, skew);
    } else {
      collected := CacheGc(cache, w, plan, repository, now, false);
    }
  }

  /** There are such caches, for every hash function. */
  lemma OverfillingExample(h: HashFunction) returns (source: Artifacts, to: Artifacts, k: Text)
    ensures Transferable(h, map[], source) && Compatible(h, map[], source, map[], to)
    ensures Readable(to) && |to.Keys| == MAX_ENTRIES && k in source && k !in to
  {
    k := Numbered(MAX_ENTRIES);
    source, to := map[k := Bundle([], [])], FullOf(MAX_ENTRIES);
    FullCacheExists();
    OneBundleTransfers(h, k);
  }

  lemma OneBundleTransfers(h: HashFunction, k: Text)
    requires IsDigest(k)
    ensures Transferable(h, map[], map[k := Bundle([], [])])
  {
    var objects: Objects, artifacts: Artifacts := map[], map[k := Bundle([], [])];
    SumWhole([], objects.Keys, ObjectSize(objects));
    SumWhole([k], artifacts.Keys, BundleSize(artifacts));
    SumWhole([k], artifacts.Keys, EnvelopeSize(artifacts));
  }
}
