/** The cache itself: a private directory of objects and artifact bundles changed in place. Every
    operation here runs while the caller holds the cache lock; module CacheProtocol covers what
    happens between processes. Directories are listed in an arbitrary order, and file operations
    may fail at any point, unless the cache is on reliable storage: then none ever does. */
module CacheOperations {
  import opened Prelude
  import opened CacheAddress
  import opened CacheStore
  import opened CacheLimits
  import opened CacheTransfer
  import opened CacheRetention
  import opened CacheCollection
  import opened CacheInventory
  import opened CacheRecords
  import opened Ordering

  /** Whether a file operation failed: never on reliable storage, and otherwise nothing says when. */
  method FileOperation(reliable: bool) returns (failed: bool)
    ensures reliable ==> !failed
  {
    failed := *;
    failed := failed && !reliable;
  }

  /** read_dir: the entries in whatever order the file system gives. */
  method ListDirectory(ks: set<Text>) returns (names: seq<Text>)
    ensures Lists(names, ks)
  {
    names := [];
    var todo := ks;
    while todo != {}
      invariant NoRepeats(names, |names|) && Listed(names, |names|) == ks - todo
      invariant todo <= ks
      decreases |todo|
    {
      var k :| k in todo;
      ListedPrefix(names, k, |names|);
      names, todo := names + [k], todo - {k};
    }
  }

  class Cache {
    const h: HashFunction
    const reliable: bool
    var objects: Objects
    var artifacts: Artifacts

    constructor (h: HashFunction, reliable: bool)
      ensures this.h == h && this.reliable == reliable && objects == map[] && artifacts == map[]
    {
      this.h, this.reliable := h, reliable;
      objects, artifacts := map[], map[];
    }

    // ---------- single entries ----------

    /** Object reads recompute the digest. */
    method Get(name: Text) returns (r: Result<Bytes, CacheError>)
      ensures r.Success? ==> name in objects && ObjectReads(h, name, objects[name]) && r.value == objects[name]
      ensures r.Failure? && r.error != Io ==> name in objects && !ObjectReads(h, name, objects[name])
      ensures reliable && name in objects ==> r != Failure(Io)
      ensures r.Success? ==> h(r.value) == name && |r.value| <= 73_400_320
      ensures r.Failure? ==>
        match r.error
        case Io => true
        case Limit => name in objects && |objects[name]| > 73_400_320
        case HashMismatch => name in objects && |objects[name]| <= 73_400_320 && h(objects[name]) != name
        case _ => false
    {
      var failed := FileOperation(reliable);
      if failed || name !in objects {
        return Failure(Io);
      }
      var bytes := objects[name];
      if |bytes| > MAX_CIPHERTEXT {
        return Failure(Limit);
      }
      if h(bytes) != name {
        return Failure(HashMismatch);
      }
      r := Success(bytes);
    }

    /** Stores bytes under their digest, never replacing an existing object. */
    method Put(bytes: Bytes) returns (r: Result<Text, CacheError>)
      modifies this`objects
      ensures r.Success? ==> r.value == h(bytes) && |bytes| <= MAX_CIPHERTEXT
      ensures r.Success? && h(bytes) in old(objects) ==> ObjectReads(h, h(bytes), old(objects)[h(bytes)])
      ensures objects == if r.Success? && h(bytes) !in old(objects) then old(objects)[h(bytes) := bytes] else old(objects)
      ensures r.Failure? && r.error != Io ==>
        || |bytes| > MAX_CIPHERTEXT
        || (h(bytes) in old(objects) && !ObjectReads(h, h(bytes), old(objects)[h(bytes)]))
      ensures reliable ==> r != Failure(Io)
    {
      if |bytes| > MAX_CIPHERTEXT {
        return Failure(Limit);
      }
      var digest := h(bytes);
      if digest in objects {
        var existing := Get(digest);
        if existing.Failure? {
          return Failure(existing.error);
        }
      } else {
        var failed := FileOperation(reliable);
        if failed {
          return Failure(Io);
        }
        objects := objects[digest := bytes];
      }
      r := Success(digest);
    }

    /** Stores a ciphertext and its envelope as one bundle, never replacing an existing one. */
    method PutArtifactByKey(key: Text, ciphertext: Bytes, envelope: Bytes) returns (r: Result<Record, CacheError>)
      modifies this`artifacts
      ensures r.Success? <==> artifacts == old(artifacts)[key := Bundle(ciphertext, envelope)] && key !in old(artifacts)
      ensures r.Failure? ==> artifacts == old(artifacts)
      ensures r.Success? ==> r.value == RecordOf(h, key, artifacts[key]) && IsDigest(key) && BundleReads(artifacts[key])
      ensures r == Failure(ArtifactExists) ==> key in old(artifacts)
      ensures r.Failure? && r.error !in {Io, ArtifactExists} ==>
        !IsDigest(key) || |envelope| > MAX_ENVELOPE || |ciphertext| > MAX_CIPHERTEXT
      ensures reliable ==> r != Failure(Io)
      ensures r.Failure? ==>
        match r.error
        case Io => true
        case InvalidAddress => !IsDigest(key)
        case ArtifactExists => key in old(artifacts)
        case Limit => |envelope| > 2_097_152 || (key !in old(artifacts) && |ciphertext| > 73_400_320)
        case _ => false
    {
      if !IsDigest(key) {
        return Failure(InvalidAddress);
      }
      if |envelope| > MAX_ENVELOPE {
        return Failure(Limit);
      }
      if key in artifacts {
        return Failure(ArtifactExists);
      }
      if |ciphertext| > MAX_CIPHERTEXT {
        return Failure(Limit);
      }
      var failed := FileOperation(reliable);
      if failed {
        return Failure(Io);
      }
      artifacts := artifacts[key := Bundle(ciphertext, envelope)];
      r := Success(RecordOf(h, key, artifacts[key]));
    }

    /** load_artifact_by_key after artifact_layout. */
    method LoadArtifact(key: Text) returns (r: Result<Record, CacheError>)
      ensures r.Success? ==>
        && key in artifacts && IsDigest(key) && BundleReads(artifacts[key]) && r.value == RecordOf(h, key, artifacts[key])
      ensures r.Failure? && r.error != Io ==> !IsDigest(key) || (key in artifacts && !BundleReads(artifacts[key]))
      ensures reliable && key in artifacts ==> r != Failure(Io)
      ensures r.Failure? ==>
        match r.error
        case Io => true
        case InvalidAddress => !IsDigest(key)
        case UnsafeMetadata => key in artifacts && artifacts[key].Malformed?
        case Limit => key in artifacts && artifacts[key].Bundle? && (|artifacts[key].ciphertext| > 73_400_320 || |artifacts[key].envelope| > 2_097_152)
        case _ => false
    {
      if !IsDigest(key) {
        return Failure(InvalidAddress);
      }
      var failed := FileOperation(reliable);
      if failed || key !in artifacts {
        return Failure(Io);
      }
      var e := artifacts[key];
      if e.Malformed? {
        return Failure(UnsafeMetadata);
      }
      if |e.ciphertext| > MAX_CIPHERTEXT || |e.envelope| > MAX_ENVELOPE {
        return Failure(Limit);
      }
      r := Success(RecordOf(h, key, e));
    }

    // ---------- limits ----------

    /** The object half of preflight_transfer_limits. */
    method PreflightObjectLimits(listing: seq<Text>) returns (r: Result<nat, CacheError>)
      requires Lists(listing, objects.Keys)
      ensures r == Failure(Io) || r == ObjectsVerdict(objects, listing, 0, 0)
      ensures reliable ==> r != Failure(Io)
    {
      var bytes: nat, i: nat := 0, 0;
      while i < |listing|
        invariant 0 <= i <= |listing|
        invariant ObjectsVerdict(objects, listing, 0, 0) == ObjectsVerdict(objects, listing, i, bytes)
      {
        ListedMember(listing, i, |listing|);
        var k := listing[i];
        var failed := FileOperation(reliable);
        if failed {
          return Failure(Io);
        }
        if !IsDigest(k) {
          return Failure(UnsafeMetadata);
        }
        if !EntriesAllowed(i + 1, 0) || |objects[k]| > MAX_CIPHERTEXT {
          return Failure(Limit);
        }
        var total := CheckedTransferBytes(bytes, |objects[k]|);
        if total.Failure? {
          return Failure(Limit);
        }
        bytes, i := total.value, i + 1;
      }
      r := Success(bytes);
    }

    /** The artifact half, after `count` objects of `base` bytes. */
    method PreflightBundleLimits(bundles: seq<Text>, count: nat, base: nat) returns (r: Result<nat, CacheError>)
      requires Lists(bundles, artifacts.Keys)
      ensures r == Failure(Io) || r == BundlesVerdict(artifacts, bundles, count, 0, base, 0)
      ensures reliable ==> r != Failure(Io)
    {
      var bytes: nat, envelopes: nat, j: nat := base, 0, 0;
      while j < |bundles|
        invariant 0 <= j <= |bundles|
        invariant BundlesVerdict(artifacts, bundles, count, 0, base, 0) == BundlesVerdict(artifacts, bundles, count, j, bytes, envelopes)
      {
        ListedMember(bundles, j, |bundles|);
        var k := bundles[j];
        if !EntriesAllowed(count, j + 1) {
          return Failure(Limit);
        }
        var failed := FileOperation(reliable);
        if failed {
          return Failure(Io);
        }
        if !BundleReads(artifacts[k]) {
          return Failure(if artifacts[k].Malformed? then UnsafeMetadata else Limit);
        }
        var e := artifacts[k];
        var total := CheckedTransferBytes(bytes, |e.ciphertext|);
        if total.Failure? {
          return Failure(Limit);
        }
        total := CheckedTransferBytes(total.value, |e.envelope|);
        if total.Failure? || envelopes + |e.envelope| > MAX_ENVELOPES {
          return Failure(Limit);
        }
        bytes, envelopes, j := total.value, envelopes + |e.envelope|, j + 1;
      }
      r := Success(bytes);
    }

    /** preflight_transfer_limits over some listing of the two directories. */
    method PreflightTransferLimits() returns (r: Result<nat, CacheError>, ghost names: seq<Text>, ghost keys: seq<Text>)
      ensures Lists(names, objects.Keys) && Lists(keys, artifacts.Keys)
      ensures r == Failure(Io) || r == LimitsVerdict(objects, artifacts, names, keys)
      ensures reliable ==> r != Failure(Io)
    {
      var listing := ListDirectory(objects.Keys);
      var bundles := ListDirectory(artifacts.Keys);
      names, keys := listing, bundles;
      var bytes := PreflightObjectLimits(listing);
      if bytes.Failure? {
        return Failure(bytes.error), names, keys;
      }
      var named := ArtifactKeys(bundles);
      if named.Failure? {
        return Failure(named.error), names, keys;
      }
      r := PreflightBundleLimits(bundles, |listing|, bytes.value);
    }

    /** artifact_keys: every name is a digest and there are not too many. */
    method ArtifactKeys(names: seq<Text>) returns (r: Result<(), CacheError>)
      ensures r == Failure(Io) || r == KeysVerdict(names, 0)
      ensures reliable ==> r != Failure(Io)
    {
      var failed := FileOperation(reliable);
      if failed {
        return Failure(Io);
      }
      var i := 0;
      while i < |names|
        invariant 0 <= i <= |names|
        invariant KeysVerdict(names, 0) == KeysVerdict(names, i)
      {
        if !IsDigest(names[i]) {
          return Failure(UnsafeMetadata);
        }
        if i + 1 > MAX_ENTRIES {
          return Failure(Limit);
        }
        i := i + 1;
      }
      r := Success(());
    }

    // ---------- transfers ----------

    /** Copies one object unless the destination has it; both sides have to verify. */
    method CopyObject(destination: Cache, k: Text) returns (r: Option<CacheError>)
      requires this != destination && h == destination.h && k in objects
      modifies destination`objects
      ensures r.None? ==> ObjectPasses(h, objects, old(destination.objects), k)
      ensures r.Some? && r.value != Io ==> !ObjectPasses(h, objects, old(destination.objects), k)
      ensures destination.objects ==
        if r.None? && k !in old(destination.objects) then old(destination.objects)[k := objects[k]] else old(destination.objects)
      ensures reliable && destination.reliable ==> r != Some(Io)
    {
      var read := Get(k);
      if read.Failure? {
        return Some(read.error);
      }
      var stored := destination.Put(read.value);
      r := if stored.Failure? then Some(stored.error) else None;
    }

    /** One turn of the object loop, with `to` the destination before the loop. */
    method CopyObjectAt(destination: Cache, names: seq<Text>, i: nat, ghost to: Objects) returns (r: Option<CacheError>)
      requires this != destination && h == destination.h && Lists(names, objects.Keys) && i < |names|
      requires destination.objects == Copied(objects, names, i, to)
      modifies destination`objects
      ensures destination.objects == Copied(objects, names, if r.None? then i + 1 else i, to)
      ensures r.None? ==> ObjectPasses(h, objects, to, names[i])
      ensures r.Some? && r.value != Io ==> !ObjectPasses(h, objects, to, names[i])
      ensures reliable && destination.reliable ==> r != Some(Io)
    {
      ListedMember(names, i, |names|);
      NotYetCopied(objects, names, i, to);
      CopyObjectMeets(h, objects, to, destination.objects, names[i]);
      r := CopyObject(destination, names[i]);
    }

    /** The object loop of copy_into_unlocked_with. `n` objects were copied when it ended; the
        counters cannot exceed a limit that preflight accepted. */
    method CopyObjects(destination: Cache, names: seq<Text>) returns (r: Result<nat, CacheError>, ghost n: nat)
      requires this != destination && h == destination.h
      requires Lists(names, objects.Keys) && ObjectsVerdict(objects, names, 0, 0).Success?
      modifies destination`objects
      ensures n <= |names| && destination.objects == Copied(objects, names, n, old(destination.objects))
      ensures r.Success? ==> n == |names| && r == ObjectsVerdict(objects, names, 0, 0)
      ensures r.Success? ==> ObjectsPass(h, objects, old(destination.objects), names, |names|)
      ensures r.Failure? && r.error != Io ==> n < |names| && !ObjectPasses(h, objects, old(destination.objects), names[n])
      ensures reliable && destination.reliable ==> r != Failure(Io)
    {
      n := 0;
      var i: nat, bytes: nat := 0, 0;
      while i < |names|
        invariant 0 <= i <= |names| && n == i
        invariant destination.objects == Copied(objects, names, i, old(destination.objects))
        invariant ObjectsVerdict(objects, names, i, bytes) == ObjectsVerdict(objects, names, 0, 0)
        invariant ObjectsPass(h, objects, old(destination.objects), names, i)
      {
        var total := CheckedTransferBytes(bytes, |objects[names[i]]|).value;
        var copied := CopyObjectAt(destination, names, i, old(destination.objects));
        if copied.Some? {
          return Failure(copied.value), n;
        }
        i, bytes, n := i + 1, total, n + 1;
      }
      r := Success(bytes);
    }

    /** Copies one bundle unless the destination has it; an existing one has to agree. */
    method CopyBundle(destination: Cache, k: Text) returns (r: Result<Record, CacheError>)
      requires this != destination && h == destination.h
      modifies destination`artifacts
      ensures r.Success? ==> BundlePasses(h, artifacts, old(destination.artifacts), k) && r.value == RecordOf(h, k, artifacts[k])
      ensures r.Failure? && r.error != Io ==> !BundlePasses(h, artifacts, old(destination.artifacts), k)
      ensures destination.artifacts ==
        if r.Success? && k !in old(destination.artifacts) then old(destination.artifacts)[k := artifacts[k]] else old(destination.artifacts)
      ensures reliable && destination.reliable && k in artifacts ==> r != Failure(Io)
    {
      r := LoadArtifact(k);
      if r.Failure? {
        return;
      }
      var imported := destination.PutArtifactByKey(k, r.value.ciphertext, r.value.envelope);
      if imported.Failure? {
        if imported.error != ArtifactExists {
          return Failure(imported.error);
        }
        var existing := destination.LoadArtifact(k);
        if existing.Failure? {
          return Failure(existing.error);
        }
        if existing.value.ciphertextHash != r.value.ciphertextHash || existing.value.envelope != r.value.envelope {
          return Failure(Conflict);
        }
      }
    }

    /** One turn of the artifact loop, with `to` the destination before the loop. The counters cannot
        exceed a limit that preflight accepted. */
    method CopyBundleAt(destination: Cache, keys: seq<Text>, i: nat, count: nat, bytes: nat, envelopes: nat, ghost to: Artifacts) returns (r: Result<(nat, nat), CacheError>)
      requires this != destination && h == destination.h && Lists(keys, artifacts.Keys) && i < |keys|
      requires destination.artifacts == Copied(artifacts, keys, i, to)
      requires BundleVerdict(artifacts, keys[i], count, bytes, envelopes).Success?
      modifies destination`artifacts
      ensures destination.artifacts == Copied(artifacts, keys, if r.Success? then i + 1 else i, to)
      ensures r.Success? ==> BundlePasses(h, artifacts, to, keys[i]) && r == BundleVerdict(artifacts, keys[i], count, bytes, envelopes)
      ensures r.Failure? && r.error != Io ==> !BundlePasses(h, artifacts, to, keys[i])
      ensures reliable && destination.reliable ==> r != Failure(Io)
    {
      r := BundleVerdict(artifacts, keys[i], count, bytes, envelopes);
      ListedMember(keys, i, |keys|);
      NotYetCopied(artifacts, keys, i, to);
      CopyBundleMeets(h, artifacts, to, destination.artifacts, keys[i]);
      var copied := CopyBundle(destination, keys[i]);
      if copied.Failure? {
        return Failure(copied.error);
      }
    }

    /** The artifact loop of copy_into_unlocked_with. */
    method CopyArtifacts(destination: Cache, keys: seq<Text>, objectCount: nat, objectBytes: nat) returns (r: Result<nat, CacheError>, ghost n: nat)
      requires this != destination && h == destination.h
      requires Lists(keys, artifacts.Keys) && BundlesVerdict(artifacts, keys, objectCount, 0, objectBytes, 0).Success?
      modifies destination`artifacts
      ensures n <= |keys| && destination.artifacts == Copied(artifacts, keys, n, old(destination.artifacts))
      ensures r.Success? ==> n == |keys| && r == BundlesVerdict(artifacts, keys, objectCount, 0, objectBytes, 0)
      ensures r.Success? ==> BundlesPass(h, artifacts, old(destination.artifacts), keys, |keys|)
      ensures r.Failure? && r.error != Io ==> n < |keys| && !BundlePasses(h, artifacts, old(destination.artifacts), keys[n])
      ensures reliable && destination.reliable ==> r != Failure(Io)
    {
      n := 0;
      var i: nat, bytes: nat, envelopes: nat := 0, objectBytes, 0;
      while i < |keys|
        invariant 0 <= i <= |keys| && n == i
        invariant destination.artifacts == Copied(artifacts, keys, i, old(destination.artifacts))
        invariant BundlesVerdict(artifacts, keys, objectCount, i, bytes, envelopes) == BundlesVerdict(artifacts, keys, objectCount, 0, objectBytes, 0)
        invariant BundlesPass(h, artifacts, old(destination.artifacts), keys, i)
      {
        var copied := CopyBundleAt(destination, keys, i, objectCount + i + 1, bytes, envelopes, old(destination.artifacts));
        if copied.Failure? {
          return Failure(copied.error), n;
        }
        NextBundle(artifacts, keys, objectCount, i, bytes, envelopes);
        i, bytes, envelopes, n := i + 1, copied.value.0, copied.value.1, n + 1;
      }
      r := Success(bytes);
    }

    /** copy_into_unlocked_with, with an account of where it ended. */
    method CopyListed(destination: Cache) returns (r: Result<TransferReport, CacheError>, ghost names: seq<Text>, ghost keys: seq<Text>, ghost end: CopyEnd)
      requires this != destination && h == destination.h
      modifies destination
      ensures CopyRun(h, objects, artifacts, old(destination.objects), old(destination.artifacts), names, keys, end, destination.objects, destination.artifacts)
      ensures r.Success? <==> end.Complete?
      ensures r.Failure? && r.error != Io ==> end.OverLimits? || end.AtObject? || end.AtBundle?
      ensures r.Success? ==> r.value.objects == |names| && r.value.artifacts == |keys|
      ensures r.Success? ==> LimitsVerdict(objects, artifacts, names, keys) == Success(r.value.bytes)
      ensures reliable && destination.reliable ==> r != Failure(Io)
    {
      var limits, listed, listedKeys := PreflightTransferLimits();
      names, keys := listed, listedKeys;
      if limits.Failure? {
        end := if limits.error == Io then Interrupted(0, 0) else OverLimits;
        return Failure(limits.error), names, keys, end;
      }
      var objectNames := ListDirectory(objects.Keys);
      var bundleKeys := ListDirectory(artifacts.Keys);
      names, keys := objectNames, bundleKeys;
      ListingsAgree(objects, artifacts, names, keys, listed, listedKeys);
      var copied, n := CopyObjects(destination, objectNames);
      if copied.Failure? {
        end := if copied.error == Io then Interrupted(n, 0) else AtObject(n);
        return Failure(copied.error), names, keys, end;
      }
      var bundles, m := CopyArtifacts(destination, bundleKeys, |objectNames|, copied.value);
      if bundles.Failure? {
        end := if bundles.error == Io then Interrupted(n, m) else AtBundle(m);
        return Failure(bundles.error), names, keys, end;
      }
      end := Complete;
      r := Success(TransferReport(|objectNames|, |bundleKeys|, bundles.value));
    }

    /** copy_into_unlocked: everything, or an error that names a reason not to. */
    method CopyInto(destination: Cache) returns (r: Result<TransferReport, CacheError>)
      requires this != destination && h == destination.h
      modifies destination
      ensures Between(old(destination.objects), destination.objects, objects)
      ensures Between(old(destination.artifacts), destination.artifacts, artifacts)
      ensures r.Success? ==> Importable(h, objects, artifacts, old(destination.objects), old(destination.artifacts))
      ensures r.Success? ==> r.value == ReportOf(objects, artifacts)
      ensures r.Success? ==> destination.objects == objects + old(destination.objects)
      ensures r.Success? ==> destination.artifacts == artifacts + old(destination.artifacts)
      ensures r.Failure? && r.error != Io ==> !Importable(h, objects, artifacts, old(destination.objects), old(destination.artifacts))
      ensures reliable && destination.reliable ==> r != Failure(Io)
    {
      ghost var names, keys, end;
      ghost var to, toArtifacts := destination.objects, destination.artifacts;
      r, names, keys, end := CopyListed(destination);
      CopyRunBetween(h, objects, artifacts, to, toArtifacts, names, keys, end, destination.objects, destination.artifacts);
      if r.Success? {
        CopyRunComplete(h, objects, artifacts, to, toArtifacts, names, keys, destination.objects, destination.artifacts);
        CopyRunUnion(h, objects, artifacts, to, toArtifacts, names, keys, destination.objects, destination.artifacts);
      } else if r.error != Io {
        CopyRunRefused(h, objects, artifacts, to, toArtifacts, names, keys, end, destination.objects, destination.artifacts);
      }
    }

    // ---------- the inventory reader ----------

    /** artifact_records: every bundle, verified, in the order of the keys. */
    method ArtifactRecords() returns (r: Result<seq<Record>, CacheError>, ghost keys: seq<Text>)
      ensures Lists(keys, artifacts.Keys)
      ensures r.Success? ==> keys == InOrder(artifacts.Keys)
      ensures r.Success? ==> KeysVerdict(keys, 0).Success? && RecordsVerdict(artifacts, keys, 0, 0).Success?
      ensures r.Success? ==> r.value == RecordsUpTo(h, artifacts, keys, |keys|)
      ensures r.Failure? && r.error != Io ==> KeysVerdict(keys, 0).Failure? || RecordsVerdict(artifacts, keys, 0, 0).Failure?
      ensures reliable ==> r != Failure(Io)
    {
      var listing := ListDirectory(artifacts.Keys);
      keys := listing;
      var named := ArtifactKeys(listing);
      if named.Failure? {
        return Failure(named.error), keys;
      }
      var names := SortedListing(artifacts.Keys);
      KeysListingsAgree(artifacts, listing, names);
      keys := names;
      r := ReadListed(names);
    }

    /** The loop of artifact_records. */
    method ReadListed(names: seq<Text>) returns (r: Result<seq<Record>, CacheError>)
      ensures r.Success? ==> RecordsVerdict(artifacts, names, 0, 0).Success? && r.value == RecordsUpTo(h, artifacts, names, |names|)
      ensures r.Failure? && r.error != Io ==> RecordsVerdict(artifacts, names, 0, 0).Failure?
      ensures reliable && Listed(names, |names|) <= artifacts.Keys ==> r != Failure(Io)
    {
      var records: seq<Record> := [];
      var i: nat, envelopes: nat := 0, 0;
      while i < |names|
        invariant 0 <= i <= |names|
        invariant records == RecordsUpTo(h, artifacts, names, i)
        invariant RecordsVerdict(artifacts, names, i, envelopes) == RecordsVerdict(artifacts, names, 0, 0)
      {
        ListedMember(names, i, |names|);
        var record := ListedRecord(names[i], envelopes);
        if record.Failure? {
          return Failure(record.error);
        }
        records := records + [record.value];
        i, envelopes := i + 1, envelopes + |record.value.envelope|;
      }
      r := Success(records);
    }

    /** One turn of artifact_records. */
    method ListedRecord(k: Text, envelopes: nat) returns (r: Result<Record, CacheError>)
      ensures r == Failure(Io) || r == RecordVerdict(h, artifacts, k, envelopes)
      ensures reliable && k in artifacts ==> r != Failure(Io)
    {
      var failed := FileOperation(reliable);
      if failed || k !in artifacts {
        return Failure(Io);
      }
      var e := artifacts[k];
      if !BundleReads(e) {
        return Failure(if e.Malformed? then UnsafeMetadata else Limit);
      }
      if envelopes + |e.envelope| > MAX_ENVELOPES {
        return Failure(Limit);
      }
      r := Success(RecordOf(h, k, e));
    }

    // ---------- import and export ----------

    /** preflight_destination, object half: do the objects verify on both sides? */
    method PreflightObjects(destination: Cache, names: seq<Text>) returns (r: Option<CacheError>, ghost n: nat)
      requires this != destination && h == destination.h && Lists(names, objects.Keys)
      ensures r.None? ==> ObjectsPass(h, objects, destination.objects, names, |names|)
      ensures r.Some? && r.value != Io ==> n < |names| && !ObjectPasses(h, objects, destination.objects, names[n])
      ensures reliable && destination.reliable ==> r != Some(Io)
    {
      n := 0;
      var i: nat := 0;
      while i < |names|
        invariant 0 <= i <= |names| && n == i
        invariant ObjectsPass(h, objects, destination.objects, names, i)
      {
        ListedMember(names, i, |names|);
        var own := Get(names[i]);
        if own.Failure? {
          return Some(own.error), n;
        }
        if names[i] in destination.objects {
          var theirs := destination.Get(names[i]);
          if theirs.Failure? {
            return Some(theirs.error), n;
          }
        }
        i, n := i + 1, n + 1;
      }
      r := None;
    }

    /** preflight_destination, bundle half: do bundles on both sides agree? */
    method PreflightBundles(destination: Cache) returns (r: Option<CacheError>, ghost keys: seq<Text>, ghost n: nat)
      requires this != destination && h == destination.h
      ensures Lists(keys, artifacts.Keys)
      ensures r.None? ==> BundlesPass(h, artifacts, destination.artifacts, keys, |keys|)
      ensures r.Some? && r.value != Io ==>
        || KeysVerdict(keys, 0).Failure? || RecordsVerdict(artifacts, keys, 0, 0).Failure?
        || (n < |keys| && !BundlePasses(h, artifacts, destination.artifacts, keys[n]))
      ensures reliable && destination.reliable ==> r != Some(Io)
    {
      n := 0;
      var records;
      records, keys := ArtifactRecords();
      if records.Failure? {
        return Some(records.error), keys, n;
      }
      RecordsLength(h, artifacts, keys, |keys|);
      var j: nat := 0;
      while j < |records.value|
        invariant 0 <= j <= |keys| && n == j
        invariant BundlesPass(h, artifacts, destination.artifacts, keys, j)
      {
        RecordVerified(h, artifacts, keys, j);
        var record := records.value[j];
        if record.key in destination.artifacts {
          var existing := destination.LoadArtifact(record.key);
          if existing.Failure? {
            return Some(existing.error), keys, n;
          }
          if existing.value.ciphertextHash != record.ciphertextHash || existing.value.envelope != record.envelope {
            return Some(Conflict), keys, n;
          }
        }
        j, n := j + 1, n + 1;
      }
      r := None;
    }

    /** preflight_destination: would copying everything into `destination` meet a conflict? */
    method PreflightDestination(destination: Cache) returns (r: Option<CacheError>)
      requires this != destination && h == destination.h
      ensures WithinLimits(objects, artifacts) && r.None? ==>
        Importable(h, objects, artifacts, destination.objects, destination.artifacts)
      ensures r.Some? && r.value != Io ==> !Importable(h, objects, artifacts, destination.objects, destination.artifacts)
      ensures reliable && destination.reliable ==> r != Some(Io)
    {
      var names := ListDirectory(objects.Keys);
      ghost var n;
      r, n := PreflightObjects(destination, names);
      if r.Some? {
        if r.value != Io {
          ListedMember(names, n, |names|);
          ObjectBlocks(h, objects, artifacts, destination.objects, destination.artifacts, names[n]);
        }
        return;
      }
      ghost var keys, m;
      r, keys, m := PreflightBundles(destination);
      PreflightMeaning(h, objects, artifacts, destination.objects, destination.artifacts, names, keys, m, r);
    }

    /** import_from: staged, checked and then published under the destination's lock. */
    method ImportFrom(source: Cache) returns (r: Result<TransferReport, CacheError>)
      requires h == source.h
      modifies this
      ensures source == this ==> r.Failure? && objects == old(objects) && artifacts == old(artifacts)
      ensures source != this ==> Between(old(objects), objects, source.objects) && Between(old(artifacts), artifacts, source.artifacts)
      ensures r.Success? ==> Importable(h, source.objects, source.artifacts, old(objects), old(artifacts))
      ensures r.Success? ==> objects == source.objects + old(objects) && artifacts == source.artifacts + old(artifacts)
      ensures r.Success? ==> r.value == ReportOf(source.objects, source.artifacts)
      ensures r.Failure? && r.error != Io ==> objects == old(objects) && artifacts == old(artifacts)
      ensures source != this && r.Failure? && r.error != Io ==> !Importable(h, source.objects, source.artifacts, old(objects), old(artifacts))
      ensures reliable && source.reliable ==> r != Failure(Io)
    {
      if source == this {
        return Failure(UnsafeMetadata);
      }
      var staging := new Cache(h, reliable);
      IntoEmpty(h, source.objects, source.artifacts);
      r := source.CopyInto(staging);
      if r.Failure? {
        return;
      }
      var conflict := staging.PreflightDestination(this);
      if conflict.Some? {
        return Failure(conflict.value);
      }
      var published := staging.CopyInto(this);
      if published.Failure? {
        return Failure(published.error);
      }
    }

    /** export_to: a new directory holding exactly what this cache holds. */
    method ExportTo() returns (r: Result<(TransferReport, Cache), CacheError>)
      ensures r.Success? ==> Transferable(h, objects, artifacts) && r.value.0 == ReportOf(objects, artifacts)
      ensures r.Success? ==> r.value.1.objects == objects && r.value.1.artifacts == artifacts && r.value.1.h == h
      ensures r.Failure? && r.error != Io ==> !Transferable(h, objects, artifacts)
      ensures r.Success? ==> r.value.1.reliable == reliable
      ensures reliable ==> r != Failure(Io)
    {
      var exported := new Cache(h, reliable);
      IntoEmpty(h, objects, artifacts);
      var report := CopyInto(exported);
      if report.Failure? {
        return Failure(report.error);
      }
      r := Success((report.value, exported));
    }

    /** Importing the same exchange again is always possible, reports the same and changes nothing. */
    method ImportTwice(source: Cache) returns (first: Result<TransferReport, CacheError>, second: Result<TransferReport, CacheError>)
      requires h == source.h && source != this
      modifies this
      ensures first.Success? && second.Success? ==> second.value == first.value
      ensures first.Success? && second.Failure? ==> second.error == Io
      ensures first.Success? ==> objects == source.objects + old(objects) && artifacts == source.artifacts + old(artifacts)
      ensures reliable && source.reliable && first.Success? ==> second.Success?
    {
      first := ImportFrom(source);
      ghost var union, bundles := objects, artifacts;
      if first.Success? {
        RepeatedImport(h, source.objects, source.artifacts, old(objects), old(artifacts));
      }
      second := ImportFrom(source);
      if first.Success? {
        NothingBetween(union, objects, source.objects, old(objects));
        NothingBetween(bundles, artifacts, source.artifacts, old(artifacts));
      }
    }

    /** Exported and imported into an empty cache, a cache is reproduced; I/O aside exactly if it is
        within the limits of a transfer. */
    method Reproduce() returns (r: Result<Cache, CacheError>)
      ensures r.Success? ==> fresh(r.value) && r.value.objects == objects && r.value.artifacts == artifacts && Transferable(h, objects, artifacts)
      ensures r.Failure? && r.error != Io ==> !Transferable(h, objects, artifacts)
      ensures reliable ==> (r.Success? <==> Transferable(h, objects, artifacts))
    {
      var exported := ExportTo();
      if exported.Failure? {
        return Failure(exported.error);
      }
      IntoEmpty(h, objects, artifacts);
      var copy := new Cache(h, reliable);
      var imported := copy.ImportFrom(exported.value.1);
      r := if imported.Failure? then Failure(imported.error) else Success(copy);
    }

    // ---------- garbage collection and inventory ----------

    /** Reads one listed object and recomputes its digest. */
    method ReadObject(k: Text) returns (r: Result<Bytes, CacheError>)
      ensures r == Failure(Io) || r == ReadVerdict(h, objects, k)
      ensures reliable ==> r != Failure(Io)
    {
      if !IsDigest(k) || k !in objects {
        return Failure(UnsafeMetadata);
      }
      var failed := FileOperation(reliable);
      if failed {
        return Failure(Io);
      }
      if |objects[k]| > MAX_CIPHERTEXT {
        return Failure(Limit);
      }
      if h(objects[k]) != k {
        return Failure(HashMismatch);
      }
      r := Success(objects[k]);
    }

    /** One turn of garbage_collect's object loop. */
    method CollectObject(q: GcRequest, k: Text, bytes: nat) returns (r: Result<nat, CacheError>)
      modifies this`objects
      ensures r == Failure(Io) || r == GcObject(h, old(objects), k, q.retainedObjects, bytes)
      ensures objects == if q.execute && r.Success? && k !in q.retainedObjects then old(objects) - {k} else old(objects)
      ensures reliable ==> r != Failure(Io)
    {
      var read := ReadObject(k);
      if read.Failure? {
        return Failure(read.error);
      }
      if k in q.retainedObjects {
        return Success(bytes);
      }
      var total := bytes + |read.value|;
      if total > U64_MAX {
        return Failure(Limit);
      }
      if q.execute {
        var stuck := FileOperation(reliable);
        if stuck {
          return Failure(Io);
        }
        objects := objects - {k};
      }
      r := Success(total);
    }

    /** The object loop of garbage_collect. */
    method CollectObjects(q: GcRequest, names: seq<Text>) returns (r: Result<(nat, nat), CacheError>)
      requires Lists(names, objects.Keys)
      modifies this`objects
      ensures Collected(old(objects), objects, q.retainedObjects, q.execute, r.Success?)
      ensures r == Failure(Io) || r == GcObjects(h, old(objects), names, q.retainedObjects, 0, 0, 0)
      ensures reliable ==> r != Failure(Io)
    {
      var i: nat, kept: nat, bytes: nat := 0, 0, 0;
      while i < |names|
        invariant 0 <= i <= |names|
        invariant objects == if q.execute then Kept(old(objects), names, i, q.retainedObjects) else old(objects)
        invariant GcObjects(h, old(objects), names, q.retainedObjects, i, kept, bytes) == GcObjects(h, old(objects), names, q.retainedObjects, 0, 0, 0)
      {
        StillListed(old(objects), names, i, q.retainedObjects);
        SameObject(h, old(objects), objects, names[i], q.retainedObjects, bytes);
        var total := CollectObject(q, names[i], bytes);
        if total.Failure? {
          CollectedSoFar(old(objects), names, i, q.retainedObjects, q.execute);
          return Failure(total.error);
        }
        i, kept, bytes := i + 1, Tally(kept, names[i], q.retainedObjects), total.value;
      }
      CollectedSoFar(old(objects), names, i, q.retainedObjects, q.execute);
      r := Success((kept, bytes));
    }

    /** One turn of garbage_collect's artifact loop. A bundle is removed file by file, so a failure
        can leave a candidate half removed. */
    method CollectBundle(q: GcRequest, k: Text, bytes: nat, fault: BundleFault) returns (r: Result<nat, CacheError>)
      modifies this`artifacts
      ensures Ended(CollectTurn(q, old(artifacts), k, bytes, fault), artifacts, r)
      ensures fault == NoFault ==> r != Failure(Io)
    {
      if !IsDigest(k) || k !in artifacts {
        return Failure(UnsafeMetadata);
      }
      if fault.ReadFails? {
        return Failure(Io);
      }
      var e := artifacts[k];
      if !BundleReads(e) {
        return Failure(if e.Malformed? then UnsafeMetadata else Limit);
      }
      if k in q.retainedArtifacts {
        return Success(bytes);
      }
      var total := bytes + (|e.ciphertext| + |e.envelope|);
      if total > U64_MAX {
        return Failure(Limit);
      }
      if q.execute {
        if fault.RemovalFails? {
          return Failure(Io);
        }
        if fault.RemovalStops? {
          artifacts := artifacts[k := Malformed];
          return Failure(Io);
        }
        artifacts := artifacts - {k};
      }
      r := Success(total);
    }

    /** The artifact loop of garbage_collect, exactly, for whatever goes wrong with which bundle. */
    method CollectArtifacts(q: GcRequest, keys: seq<Text>, objectBytes: nat, faults: Text -> BundleFault) returns (r: Result<(nat, nat), CacheError>)
      requires Lists(keys, artifacts.Keys)
      modifies this`artifacts
      ensures artifacts == CollectFrom(q, old(artifacts), keys, 0, objectBytes, faults).left
      ensures r.Failure? <==> CollectFrom(q, old(artifacts), keys, 0, objectBytes, faults).Stops?
      ensures r.Failure? ==> r.error == CollectFrom(q, old(artifacts), keys, 0, objectBytes, faults).error
      ensures Collected(old(artifacts), artifacts, q.retainedArtifacts, q.execute, r.Success?)
      ensures Shrunk(old(artifacts), artifacts)
      ensures r == Failure(Io) || r == GcBundles(old(artifacts), keys, q.retainedArtifacts, 0, 0, objectBytes)
      ensures (forall k :: faults(k) == NoFault) ==> r != Failure(Io)
    {
      var i: nat, kept: nat, bytes: nat := 0, 0, objectBytes;
      while i < |keys|
        invariant 0 <= i <= |keys|
        invariant artifacts == if q.execute then Kept(old(artifacts), keys, i, q.retainedArtifacts) else old(artifacts)
        invariant GcBundles(old(artifacts), keys, q.retainedArtifacts, i, kept, bytes) == GcBundles(old(artifacts), keys, q.retainedArtifacts, 0, 0, objectBytes)
        invariant CollectFrom(q, artifacts, keys, i, bytes, faults) == CollectFrom(q, old(artifacts), keys, 0, objectBytes, faults)
      {
        StillListed(old(artifacts), keys, i, q.retainedArtifacts);
        SameBundle(old(artifacts), artifacts, keys[i], q.retainedArtifacts, bytes);
        ghost var before := artifacts;
        var total := CollectBundle(q, keys[i], bytes, faults(keys[i]));
        TurnTaken(q, before, keys[i], bytes, faults(keys[i]));
        if total.Failure? {
          if artifacts != before {
            CollectedDamaged(old(artifacts), keys, i, q.retainedArtifacts, Malformed);
            DamagedShrinks(old(artifacts), keys, i, q.retainedArtifacts);
          } else {
            KeptShrinks(old(artifacts), keys, i, q.retainedArtifacts, q.execute);
            CollectedSoFar(old(artifacts), keys, i, q.retainedArtifacts, q.execute);
          }
          return Failure(total.error);
        }
        i, kept, bytes := i + 1, Tally(kept, keys[i], q.retainedArtifacts), total.value;
      }
      KeptShrinks(old(artifacts), keys, i, q.retainedArtifacts, q.execute);
      CollectedSoFar(old(artifacts), keys, i, q.retainedArtifacts, q.execute);
      r := Success((kept, bytes));
    }

    /** How the object directory splits; I/O aside it fails exactly when some object does not read or the
        candidates' bytes do not fit. */
    method SplitObjects(q: GcRequest, names: seq<Text>) returns (r: Result<Split, CacheError>)
      requires Lists(names, objects.Keys)
      modifies this`objects
      ensures r.Success? ==> r.value == ObjectSplit(old(objects), q.retainedObjects) && ObjectsFit(h, q.retainedObjects, old(objects))
      ensures r.Failure? && r.error != Io ==> !ObjectsFit(h, q.retainedObjects, old(objects))
      ensures Collected(old(objects), objects, q.retainedObjects, q.execute, r.Success?)
      ensures reliable ==> r != Failure(Io)
    {
      var collected := CollectObjects(q, names);
      if collected.Failure? {
        if collected.error != Io {
          ObjectsStuckDecide(h, q.retainedObjects, old(objects), names);
        }
        return Failure(collected.error);
      }
      var (kept, bytes) := collected.value;
      ObjectsCompleteDecide(h, q.retainedObjects, old(objects), names, kept, bytes);
      r := Success(Split(kept, |names| - kept, bytes));
    }

    /** The same, with whatever goes wrong. */
    method CollectBundles(q: GcRequest, keys: seq<Text>, base: nat) returns (r: Result<(nat, nat), CacheError>)
      requires Lists(keys, artifacts.Keys)
      modifies this`artifacts
      ensures Collected(old(artifacts), artifacts, q.retainedArtifacts, q.execute, r.Success?) && Shrunk(old(artifacts), artifacts)
      ensures MayLeave(q, old(artifacts), artifacts)
      ensures r == Failure(Io) || r == GcBundles(old(artifacts), keys, q.retainedArtifacts, 0, 0, base)
      ensures reliable ==> r != Failure(Io)
    {
      var faults: Text -> BundleFault := *;
      if reliable {
        faults := _ => NoFault;
      }
      r := CollectArtifacts(q, keys, base, faults);
      LoopMayLeave(q, old(artifacts), keys, base, faults);
    }

    /** How the artifact directory splits, on top of the objects' bytes. */
    method SplitBundles(q: GcRequest, keys: seq<Text>, base: nat) returns (r: Result<Split, CacheError>)
      requires Lists(keys, artifacts.Keys) && base <= U64_MAX
      modifies this`artifacts
      ensures r.Success? ==> r.value == BundleSplit(old(artifacts), q.retainedArtifacts) && BundlesFit(q.retainedArtifacts, old(artifacts), base)
      ensures r.Failure? && r.error != Io ==> !BundlesFit(q.retainedArtifacts, old(artifacts), base)
      ensures Collected(old(artifacts), artifacts, q.retainedArtifacts, q.execute, r.Success?) && Shrunk(old(artifacts), artifacts)
      ensures MayLeave(q, old(artifacts), artifacts)
      ensures reliable ==> r != Failure(Io)
    {
      var collected := CollectBundles(q, keys, base);
      if collected.Failure? {
        if collected.error != Io {
          BundlesStuckDecide(q.retainedArtifacts, old(artifacts), keys, base);
        }
        return Failure(collected.error);
      }
      var (kept, total) := collected.value;
      BundlesCompleteDecide(q.retainedArtifacts, old(artifacts), keys, base, kept, total);
      r := Success(Split(kept, |keys| - kept, total - base));
    }

    /** Both loops of garbage_collect. */
    method Collect(q: GcRequest, names: seq<Text>, keys: seq<Text>) returns (r: Result<(Split, Split), CacheError>)
      requires Lists(names, objects.Keys) && Lists(keys, artifacts.Keys)
      modifies this
      ensures r.Success? ==> r.value == (ObjectSplit(old(objects), q.retainedObjects), BundleSplit(old(artifacts), q.retainedArtifacts))
      ensures r.Success? ==> EveryEntryReads(h, q, old(objects), old(artifacts))
      ensures r.Failure? && r.error != Io ==> !EveryEntryReads(h, q, old(objects), old(artifacts))
      ensures Collected(old(objects), objects, q.retainedObjects, q.execute, r.Success?)
      ensures Collected(old(artifacts), artifacts, q.retainedArtifacts, q.execute, r.Success?) && Shrunk(old(artifacts), artifacts)
      ensures MayLeave(q, old(artifacts), artifacts)
      ensures reliable ==> r != Failure(Io)
    {
      var o := SplitObjects(q, names);
      NothingCollected(artifacts, q.retainedArtifacts, q.execute);
      if o.Failure? {
        return Failure(o.error);
      }
      CollectedInPart(old(objects), objects, q.retainedObjects, q.execute);
      var a := SplitBundles(q, keys, o.value.bytes);
      r := if a.Failure? then Failure(a.error) else Success((o.value, a.value));
    }

    /** garbage_collect: I/O aside it succeeds exactly on a collectable cache. On success the report is
        exact and an executed run leaves precisely the retained entries; on every exit the retained
        entries are untouched and the others as they were, gone or half removed. */
    method GarbageCollect(q: GcRequest) returns (r: Result<GcReport, CacheError>)
      modifies this
      ensures r.Success? ==> r.value == GcReportOf(q, old(objects), old(artifacts))
      ensures r.Success? ==> Collectable(h, q, old(objects), old(artifacts))
      ensures r.Failure? && r.error != Io ==> !Collectable(h, q, old(objects), old(artifacts))
      ensures Collected(old(objects), objects, q.retainedObjects, q.execute, r.Success?)
      ensures Collected(old(artifacts), artifacts, q.retainedArtifacts, q.execute, r.Success?) && Shrunk(old(artifacts), artifacts)
      ensures MayLeave(q, old(artifacts), artifacts)
      ensures Readable(old(artifacts)) ==> (Readable(artifacts) <==> !SomeDamaged(artifacts))
      ensures reliable ==> r != Failure(Io)
    {
      if exists k | k in q.retainedArtifacts + q.retainedObjects :: !IsDigest(k) {
        NothingCollected(objects, q.retainedObjects, q.execute);
        NothingCollected(artifacts, q.retainedArtifacts, q.execute);
        LeftReadableIff(artifacts, artifacts);
        return Failure(InvalidAddress);
      }
      var names := ListDirectory(objects.Keys);
      var keys := ListDirectory(artifacts.Keys);
      var splits := Collect(q, names, keys);
      LeftReadableIff(old(artifacts), artifacts);
      if splits.Failure? {
        return Failure(splits.error);
      }
      r := Success(ReportFrom(q, splits.value.0, splits.value.1));
    }

    /** A dry run followed by the real thing: it announces exactly what is then done, only I/O can stop
        what it announced, and the directories it counted are what the execution leaves plus what it
        removes. */
    method AnnounceAndCollect(retainedArtifacts: set<Text>, retainedObjects: set<Text>) returns (announced: Result<GcReport, CacheError>, done: Result<GcReport, CacheError>)
      modifies this
      ensures announced.Success? && done.Success? ==> done.value == announced.value.(executed := true)
      ensures announced.Success? && done.Success? ==>
        && |old(artifacts).Keys| == |artifacts.Keys| + announced.value.candidateArtifacts
        && |old(objects).Keys| == |objects.Keys| + announced.value.candidateObjects
      ensures announced.Success? && done.Failure? ==> done.error == Io
      ensures announced.Success? && announced.value.candidateArtifacts == 0 ==> artifacts == old(artifacts)
      ensures announced.Failure? ==> objects == old(objects) && artifacts == old(artifacts)
      ensures reliable && announced.Success? ==> done.Success?
    {
      var dry := GcRequest(retainedArtifacts, retainedObjects, false);
      var final := dry.(execute := true);
      announced := GarbageCollect(dry);
      if announced.Failure? {
        return announced, announced;
      }
      AnnouncedIsDone(dry, final, objects, artifacts);
      AnnouncedCanBeDone(h, dry, final, objects, artifacts);
      AnnouncedCounts(dry, objects, artifacts);
      NoCandidatesIff(dry, objects, artifacts);
      done := GarbageCollect(final);
      if announced.value.candidateArtifacts == 0 {
        SafeWithoutCandidates(final, old(artifacts), artifacts);
      }
    }

    /** The object half of inventory. */
    method CountObjectBytes(names: seq<Text>) returns (r: Result<nat, CacheError>)
      requires Lists(names, objects.Keys)
      ensures r == Failure(Io) || (r.Success? <==> ObjectsCountable(h, objects))
      ensures r.Success? ==> r.value == SumOver(objects.Keys, ObjectSize(objects))
      ensures reliable ==> r != Failure(Io)
    {
      ObjectsCountedIff(h, objects, names);
      var i: nat, bytes: nat := 0, 0;
      while i < |names|
        invariant 0 <= i <= |names| && CountObjects(h, objects, names, i, bytes) == CountObjects(h, objects, names, 0, 0)
      {
        var read := ReadObject(names[i]);
        if read.Failure? {
          return Failure(read.error);
        }
        if bytes + |read.value| > U64_MAX {
          return Failure(Limit);
        }
        i, bytes := i + 1, bytes + |read.value|;
      }
      r := Success(bytes);
    }

    /** The artifact half. */
    method CountBundleBytes(keys: seq<Text>) returns (r: Result<(nat, nat), CacheError>)
      requires Lists(keys, artifacts.Keys)
      ensures r == Failure(Io) || (r.Success? <==> BundlesCountable(artifacts))
      ensures r.Success? ==> r.value == (SumOver(artifacts.Keys, CiphertextSize(artifacts)), SumOver(artifacts.Keys, EnvelopeSize(artifacts)))
      ensures reliable ==> r != Failure(Io)
    {
      BundlesCountedIff(artifacts, keys);
      var j: nat, ciphertexts: nat, envelopes: nat := 0, 0, 0;
      while j < |keys|
        invariant 0 <= j <= |keys|
        invariant CountBundles(artifacts, keys, j, ciphertexts, envelopes) == CountBundles(artifacts, keys, 0, 0, 0)
      {
        ListedMember(keys, j, |keys|);
        var record := LoadArtifact(keys[j]);
        if record.Failure? {
          return Failure(record.error);
        }
        if ciphertexts + |record.value.ciphertext| > U64_MAX || envelopes + |record.value.envelope| > U64_MAX {
          return Failure(Limit);
        }
        j, ciphertexts, envelopes := j + 1, ciphertexts + |record.value.ciphertext|, envelopes + |record.value.envelope|;
      }
      r := Success((ciphertexts, envelopes));
    }

    /** inventory: every entry verified, and the totals; I/O aside it fails exactly when some entry does
        not verify or a total does not fit. */
    method TakeInventory() returns (r: Result<Inventory, CacheError>)
      ensures r.Success? ==> r.value == InventoryOf(objects, artifacts)
      ensures r == Failure(Io) || (r.Success? <==> ObjectsCountable(h, objects) && BundlesCountable(artifacts))
      ensures reliable ==> r != Failure(Io)
    {
      var names := ListDirectory(objects.Keys);
      var bytes := CountObjectBytes(names);
      if bytes.Failure? {
        return Failure(bytes.error);
      }
      var keys := ListDirectory(artifacts.Keys);
      var counted := CountBundleBytes(keys);
      if counted.Failure? {
        return Failure(counted.error);
      }
      ListedCount(names, |names|);
      ListedCount(keys, |keys|);
      r := Success(Inventory(|names|, bytes.value, |keys|, counted.value.0, counted.value.1));
    }
  }

  lemma UnreadableBlocks(h: HashFunction, from: Objects, fromArtifacts: Artifacts, to: Objects, toArtifacts: Artifacts)
    requires !Readable(fromArtifacts)
    ensures !Importable(h, from, fromArtifacts, to, toArtifacts)
  {
  }

  lemma PreflightMeaning(h: HashFunction, from: Objects, fromArtifacts: Artifacts, to: Objects, toArtifacts: Artifacts,
                         names: seq<Text>, keys: seq<Text>, m: nat, r: Option<CacheError>)
    requires Lists(names, from.Keys) && Lists(keys, fromArtifacts.Keys) && ObjectsPass(h, from, to, names, |names|)
    requires r.None? ==> BundlesPass(h, fromArtifacts, toArtifacts, keys, |keys|)
    requires r.Some? && r.value != Io ==>
      || KeysVerdict(keys, 0).Failure? || RecordsVerdict(fromArtifacts, keys, 0, 0).Failure?
      || (m < |keys| && !BundlePasses(h, fromArtifacts, toArtifacts, keys[m]))
    ensures WithinLimits(from, fromArtifacts) && r.None? ==> Importable(h, from, fromArtifacts, to, toArtifacts)
    ensures r.Some? && r.value != Io ==> !Importable(h, from, fromArtifacts, to, toArtifacts)
  {
    if r.None? {
      if WithinLimits(from, fromArtifacts) {
        ObjectsAllPass(h, from, to, names);
        BundlesAllPass(h, fromArtifacts, toArtifacts, keys);
        PassingIsImportable(h, from, fromArtifacts, to, toArtifacts);
      }
    } else if r.value != Io {
      if m < |keys| && !BundlePasses(h, fromArtifacts, toArtifacts, keys[m]) {
        ListedMember(keys, m, |keys|);
        BundleBlocks(h, from, fromArtifacts, to, toArtifacts, keys[m]);
      } else {
        RecordsVerdictExact(fromArtifacts, keys);
        UnreadableBlocks(h, from, fromArtifacts, to, toArtifacts);
      }
    }
  }
}
