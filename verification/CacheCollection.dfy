/** When a collection can complete, and what an interrupted one leaves behind. */
module CacheCollection {
  import opened Prelude
  import opened CacheAddress
  import opened CacheStore
  import opened CacheRetention

  // ---------- when a collection completes ----------

  /** An object reads exactly if its name is a digest, it is at most 70 MiB long, and it hashes to its name. */
  lemma ReadVerdictIff(h: HashFunction, objects: Objects, k: Text)
    ensures ReadVerdict(h, objects, k).Success? <==>
      IsDigest(k) && k in objects && |objects[k]| <= 73_400_320 && h(objects[k]) == k
    ensures ReadVerdict(h, objects, k).Success? ==> ReadVerdict(h, objects, k).value == objects[k]
  {
  }

  /** A cache is collectable exactly if the request names digests, every object and bundle reads, and the bytes
      of what is not retained fit 64 bits. */
  lemma CollectableIff(h: HashFunction, q: GcRequest, objects: Objects, artifacts: Artifacts)
    ensures Collectable(h, q, objects, artifacts) <==>
      && (forall k | k in q.retainedArtifacts + q.retainedObjects :: IsDigest(k))
      && (forall k | k in objects :: IsDigest(k) && |objects[k]| <= 73_400_320 && h(objects[k]) == k)
      && (forall k | k in artifacts :: IsDigest(k) && artifacts[k].Bundle?
            && |artifacts[k].ciphertext| <= 73_400_320 && |artifacts[k].envelope| <= 2_097_152)
      && GcReportOf(q, objects, artifacts).candidateBytes <= 0xFFFF_FFFF_FFFF_FFFF
  {
    forall k | k in objects
      ensures ReadVerdict(h, objects, k).Success? <==> IsDigest(k) && |objects[k]| <= 73_400_320 && h(objects[k]) == k
    {
      ReadVerdictIff(h, objects, k);
    }
  }

  ghost predicate ObjectsRead(h: HashFunction, objects: Objects)
  {
    forall k | k in objects :: ReadVerdict(h, objects, k).Success?
  }

  ghost predicate BundlesRead(artifacts: Artifacts)
  {
    forall k | k in artifacts :: IsDigest(k) && BundleReads(artifacts[k])
  }

  /** Every object reads, whether retained or not, and the candidates' bytes fit 64 bits. */
  ghost predicate ObjectsFit(h: HashFunction, retained: set<Text>, objects: Objects)
  {
    ObjectsRead(h, objects) && ObjectSplit(objects, retained).bytes <= U64_MAX
  }

  ghost predicate BundlesFit(retained: set<Text>, artifacts: Artifacts, base: nat)
  {
    BundlesRead(artifacts) && base + BundleSplit(artifacts, retained).bytes <= U64_MAX
  }

  /** Every entry reads, and the candidates' total fits. */
  ghost predicate EveryEntryReads(h: HashFunction, q: GcRequest, objects: Objects, artifacts: Artifacts)
  {
    match q
    case GcRequest(retainedArtifacts, retainedObjects, _) =>
      ObjectsFit(h, retainedObjects, objects) && BundlesFit(retainedArtifacts, artifacts, ObjectSplit(objects, retainedObjects).bytes)
  }

  /** The request names digests as well. */
  ghost predicate Collectable(h: HashFunction, q: GcRequest, objects: Objects, artifacts: Artifacts)
  {
    (forall k | k in q.retainedArtifacts + q.retainedObjects :: IsDigest(k)) && EveryEntryReads(h, q, objects, artifacts)
  }

  /** A complete object loop has read every listed object and its total fits. */
  lemma {:induction false} ObjectsCollected(h: HashFunction, objects: Objects, names: seq<Text>, retained: set<Text>, i: nat, kept: nat, bytes: nat, j: nat)
    requires i <= |names| && bytes <= U64_MAX && GcObjects(h, objects, names, retained, i, kept, bytes).Success?
    ensures GcObjects(h, objects, names, retained, i, kept, bytes).value.1 <= U64_MAX
    ensures i <= j < |names| ==> ReadVerdict(h, objects, names[j]).Success?
    decreases |names| - i
  {
    if i < |names| {
      ObjectsCollected(h, objects, names, retained, i + 1, Tally(kept, names[i], retained), GcObject(h, objects, names[i], retained, bytes).value, j);
    }
  }

  /** A failing object loop met an object that does not read, or a total that does not fit. */
  lemma {:induction false} ObjectsStuck(h: HashFunction, objects: Objects, names: seq<Text>, retained: set<Text>, i: nat, kept: nat, bytes: nat) returns (j: nat)
    requires i <= |names| && bytes == SumTo(names, i, Candidates(ObjectSize(objects), retained))
    requires GcObjects(h, objects, names, retained, i, kept, bytes).Failure?
    ensures j < |names|
    ensures ReadVerdict(h, objects, names[j]).Failure? || SumTo(names, |names|, Candidates(ObjectSize(objects), retained)) > U64_MAX
    decreases |names| - i
  {
    var turn := GcObject(h, objects, names[i], retained, bytes);
    if turn.Failure? {
      j := i;
      SumToGrows(names, i + 1, |names|, Candidates(ObjectSize(objects), retained));
    } else {
      GcObjectCounts(h, objects, names[i], retained, bytes);
      j := ObjectsStuck(h, objects, names, retained, i + 1, Tally(kept, names[i], retained), turn.value);
    }
  }

  lemma {:induction false} BundlesCollected(artifacts: Artifacts, names: seq<Text>, retained: set<Text>, i: nat, kept: nat, bytes: nat, j: nat)
    requires i <= |names| && bytes <= U64_MAX && GcBundles(artifacts, names, retained, i, kept, bytes).Success?
    ensures GcBundles(artifacts, names, retained, i, kept, bytes).value.1 <= U64_MAX
    ensures i <= j < |names| ==> names[j] in artifacts && IsDigest(names[j]) && BundleReads(artifacts[names[j]])
    decreases |names| - i
  {
    if i < |names| {
      BundlesCollected(artifacts, names, retained, i + 1, Tally(kept, names[i], retained), GcBundle(artifacts, names[i], retained, bytes).value, j);
    }
  }

  lemma {:induction false} BundlesStuck(artifacts: Artifacts, names: seq<Text>, retained: set<Text>, base: nat, i: nat, kept: nat, bytes: nat) returns (j: nat)
    requires i <= |names| && bytes == base + SumTo(names, i, Candidates(BundleSize(artifacts), retained))
    requires GcBundles(artifacts, names, retained, i, kept, bytes).Failure?
    ensures j < |names|
    ensures (names[j] in artifacts ==> !IsDigest(names[j]) || !BundleReads(artifacts[names[j]]))
      || base + SumTo(names, |names|, Candidates(BundleSize(artifacts), retained)) > U64_MAX
    decreases |names| - i
  {
    var turn := GcBundle(artifacts, names[i], retained, bytes);
    if turn.Failure? {
      j := i;
      SumToGrows(names, i + 1, |names|, Candidates(BundleSize(artifacts), retained));
    } else {
      GcBundleCounts(artifacts, names[i], retained, bytes);
      j := BundlesStuck(artifacts, names, retained, base, i + 1, Tally(kept, names[i], retained), turn.value);
    }
  }

  /** What a complete object loop knows. */
  lemma ObjectsCompleteDecide(h: HashFunction, retained: set<Text>, objects: Objects, names: seq<Text>, kept: nat, bytes: nat)
    requires Lists(names, objects.Keys) && GcObjects(h, objects, names, retained, 0, 0, 0) == Success((kept, bytes))
    ensures kept <= |names| && ObjectSplit(objects, retained) == Split(kept, |names| - kept, bytes) && ObjectsFit(h, retained, objects)
  {
    ObjectSplitExact(h, objects, names, retained, kept, bytes);
    ObjectsCollected(h, objects, names, retained, 0, 0, 0, 0);
    forall k | k in objects ensures ReadVerdict(h, objects, k).Success?
    {
      var j := ListedIndex(names, |names|, k);
      ObjectsCollected(h, objects, names, retained, 0, 0, 0, j);
    }
  }

  lemma BundlesCompleteDecide(retained: set<Text>, artifacts: Artifacts, keys: seq<Text>, base: nat, kept: nat, bytes: nat)
    requires Lists(keys, artifacts.Keys) && base <= U64_MAX && GcBundles(artifacts, keys, retained, 0, 0, base) == Success((kept, bytes))
    ensures kept <= |keys| && base <= bytes && BundleSplit(artifacts, retained) == Split(kept, |keys| - kept, bytes - base)
    ensures BundlesFit(retained, artifacts, base)
  {
    BundleSplitExact(artifacts, keys, retained, base, kept, bytes);
    BundlesCollected(artifacts, keys, retained, 0, 0, base, 0);
    forall k | k in artifacts ensures IsDigest(k) && BundleReads(artifacts[k])
    {
      var j := ListedIndex(keys, |keys|, k);
      BundlesCollected(artifacts, keys, retained, 0, 0, base, j);
    }
  }

  lemma ObjectsStuckDecide(h: HashFunction, retained: set<Text>, objects: Objects, names: seq<Text>)
    requires Lists(names, objects.Keys) && GcObjects(h, objects, names, retained, 0, 0, 0).Failure?
    ensures !ObjectsFit(h, retained, objects)
  {
    var j := ObjectsStuck(h, objects, names, retained, 0, 0, 0);
    ListedMember(names, j, |names|);
    SumWhole(names, objects.Keys, Candidates(ObjectSize(objects), retained));
  }

  lemma BundlesStuckDecide(retained: set<Text>, artifacts: Artifacts, keys: seq<Text>, base: nat)
    requires Lists(keys, artifacts.Keys) && GcBundles(artifacts, keys, retained, 0, 0, base).Failure?
    ensures !BundlesFit(retained, artifacts, base)
  {
    var j := BundlesStuck(artifacts, keys, retained, base, 0, 0, base);
    ListedMember(keys, j, |keys|);
    SumWhole(keys, artifacts.Keys, Candidates(BundleSize(artifacts), retained));
  }

  /** A dry run reports what the execution reports. */
  lemma AnnouncedIsDone(dry: GcRequest, done: GcRequest, objects: Objects, artifacts: Artifacts)
    requires !dry.execute && done == dry.(execute := true)
    ensures GcReportOf(done, objects, artifacts) == GcReportOf(dry, objects, artifacts).(executed := true)
  {
  }

  /** And it can do what the execution can do. */
  lemma AnnouncedCanBeDone(h: HashFunction, dry: GcRequest, done: GcRequest, objects: Objects, artifacts: Artifacts)
    requires done == dry.(execute := true)
    ensures Collectable(h, done, objects, artifacts) <==> Collectable(h, dry, objects, artifacts)
  {
  }

  /** What is announced and what is left add up to what was there. */
  lemma AnnouncedCounts(q: GcRequest, objects: Objects, artifacts: Artifacts)
    ensures |artifacts.Keys| == |Retained(artifacts, q.retainedArtifacts).Keys| + GcReportOf(q, objects, artifacts).candidateArtifacts
    ensures |objects.Keys| == |Retained(objects, q.retainedObjects).Keys| + GcReportOf(q, objects, artifacts).candidateObjects
  {
    SplitCounts(artifacts.Keys, q.retainedArtifacts, BundleSize(artifacts));
    SplitCounts(objects.Keys, q.retainedObjects, ObjectSize(objects));
    RetainedCount(artifacts, q.retainedArtifacts);
    RetainedCount(objects, q.retainedObjects);
  }

  // ---------- what a collection leaves ----------

  /** What goes wrong with one bundle: it cannot be read, or its removal fails before the first of its
      files is gone, or after. */
  datatype BundleFault = NoFault | ReadFails | RemovalFails | RemovalStops

  datatype Ending =
    | Goes(left: Artifacts, bytes: nat)
    | Stops(left: Artifacts, error: CacheError)

  /** One turn of garbage_collect's artifact loop. */
  function CollectTurn(q: GcRequest, artifacts: Artifacts, k: Text, bytes: nat, fault: BundleFault): (e: Ending)
  {
    if !IsDigest(k) || k !in artifacts then Stops(artifacts, UnsafeMetadata)
    else if fault.ReadFails? then Stops(artifacts, Io)
    else
      match GcBundle(artifacts, k, q.retainedArtifacts, bytes)
      case Failure(error) => Stops(artifacts, error)
      case Success(total) =>
        if !q.execute || k in q.retainedArtifacts then Goes(artifacts, total)
        else if fault.RemovalFails? then Stops(artifacts, Io)
        else if fault.RemovalStops? then Stops(artifacts[k := Malformed], Io)
        else Goes(artifacts - {k}, total)
  }

  /** A turn has ended as it should. */
  predicate Ended(e: Ending, artifacts: Artifacts, r: Result<nat, CacheError>)
  {
    match e
    case Goes(left, total) => artifacts == left && r == Success(total)
    case Stops(left, error) => artifacts == left && r == Failure(error)
  }

  lemma TurnTaken(q: GcRequest, artifacts: Artifacts, k: Text, bytes: nat, fault: BundleFault)
    ensures match CollectTurn(q, artifacts, k, bytes, fault)
      case Goes(left, total) =>
        && GcBundle(artifacts, k, q.retainedArtifacts, bytes) == Success(total)
        && left == if q.execute && k !in q.retainedArtifacts then artifacts - {k} else artifacts
      case Stops(left, error) =>
        && (error == Io || GcBundle(artifacts, k, q.retainedArtifacts, bytes) == Failure(error))
        && (left != artifacts ==> q.execute && k !in q.retainedArtifacts && error == Io && left == artifacts[k := Malformed])
  {
  }

  /** The artifact loop of garbage_collect from position `i`. */
  function CollectFrom(q: GcRequest, artifacts: Artifacts, keys: seq<Text>, i: nat, bytes: nat, faults: Text -> BundleFault): (e: Ending)
    requires i <= |keys|
    decreases |keys| - i
  {
    if i == |keys| then Goes(artifacts, bytes)
    else
      match CollectTurn(q, artifacts, keys[i], bytes, faults(keys[i]))
      case Stops(left, error) => Stops(left, error)
      case Goes(left, total) => CollectFrom(q, left, keys, i + 1, total, faults)
  }

  /** What a collection can leave of an artifact directory: nothing has happened, or the loop ran over
      some listing. */
  ghost predicate MayLeave(q: GcRequest, was: Artifacts, now: Artifacts)
  {
    now == was || exists keys, base, faults :: LeftBy(q, was, now, keys, base, faults)
  }

  ghost predicate LeftBy(q: GcRequest, was: Artifacts, now: Artifacts, keys: seq<Text>, base: nat, faults: Text -> BundleFault)
  {
    Lists(keys, was.Keys) && now == CollectFrom(q, was, keys, 0, base, faults).left
  }

  lemma LoopMayLeave(q: GcRequest, was: Artifacts, keys: seq<Text>, base: nat, faults: Text -> BundleFault)
    requires Lists(keys, was.Keys)
    ensures MayLeave(q, was, CollectFrom(q, was, keys, 0, base, faults).left)
  {
    assert LeftBy(q, was, CollectFrom(q, was, keys, 0, base, faults).left, keys, base, faults);
  }

  /** Where there is nothing to remove the loop changes nothing, whatever fails. */
  lemma {:induction false} NothingToRemove(q: GcRequest, was: Artifacts, keys: seq<Text>, i: nat, bytes: nat, faults: Text -> BundleFault)
    requires i <= |keys| && (!q.execute || was.Keys <= q.retainedArtifacts)
    ensures CollectFrom(q, was, keys, i, bytes, faults).left == was
    decreases |keys| - i
  {
    if i < |keys| {
      var turn := CollectTurn(q, was, keys[i], bytes, faults(keys[i]));
      if turn.Goes? {
        NothingToRemove(q, was, keys, i + 1, turn.bytes, faults);
      }
    }
  }

  /** The worst of file systems: every removal stops half-way. */
  function EveryRemovalStops(): (faults: Text -> BundleFault)
  {
    k => RemovalStops
  }

  lemma DamagingTurn(q: GcRequest, was: Artifacts, k: Text, bytes: nat)
    requires q.execute && k in was && IsDigest(k) && BundleReads(was[k]) && bytes + MAX_CIPHERTEXT + MAX_ENVELOPE <= U64_MAX
    ensures CollectTurn(q, was, k, bytes, RemovalStops) ==
      if k in q.retainedArtifacts then Goes(was, bytes) else Stops(was[k := Malformed], Io)
  {
  }

  lemma MarkedIsDamaged(was: Artifacts, k: Text)
    ensures SomeDamaged(was[k := Malformed])
  {
    var now: Artifacts := was[k := Malformed];
    assert k in now && now[k].Malformed?;
  }

  /** A damaging run: if every removal stops half-way, the first candidate is left half removed, for every
      directory that reads and has a candidate, and every listing of it. */
  lemma {:induction false} DamagingRun(q: GcRequest, was: Artifacts, keys: seq<Text>, i: nat, bytes: nat)
    requires q.execute && BundlesRead(was) && Lists(keys, was.Keys) && i <= |keys| && bytes + MAX_CIPHERTEXT + MAX_ENVELOPE <= U64_MAX
    requires exists k :: k in was && k !in q.retainedArtifacts && k !in Listed(keys, i)
    ensures var end := CollectFrom(q, was, keys, i, bytes, EveryRemovalStops());
      end.Stops? && end.error == Io && SomeDamaged(end.left)
    decreases |keys| - i
  {
    var k :| k in was && k !in q.retainedArtifacts && k !in Listed(keys, i);
    ListedMember(keys, i, |keys|);
    DamagingTurn(q, was, keys[i], bytes);
    if keys[i] in q.retainedArtifacts {
      assert k !in Listed(keys, i + 1);
      DamagingRun(q, was, keys, i + 1, bytes);
    } else {
      MarkedIsDamaged(was, keys[i]);
    }
  }

  lemma SafeWithoutCandidates(q: GcRequest, was: Artifacts, now: Artifacts)
    requires MayLeave(q, was, now) && (!q.execute || was.Keys <= q.retainedArtifacts)
    ensures now == was
  {
    if now != was {
      var keys, base, faults :| LeftBy(q, was, now, keys, base, faults);
      NothingToRemove(q, was, keys, 0, base, faults);
    }
  }

  lemma UnsafeWithCandidates(q: GcRequest, was: Artifacts) returns (now: Artifacts)
    requires Readable(was) && q.execute && !(was.Keys <= q.retainedArtifacts)
    ensures MayLeave(q, was, now) && !Readable(now)
  {
    ListingExists(was.Keys);
    var keys :| Lists(keys, was.Keys);
    var k :| k in was && k !in q.retainedArtifacts;
    assert k !in Listed(keys, 0);
    DamagingRun(q, was, keys, 0, 0);
    now := CollectFrom(q, was, keys, 0, 0, EveryRemovalStops()).left;
    assert LeftBy(q, was, now, keys, 0, EveryRemovalStops());
  }

  /** A collection cannot spoil a readable artifact directory if and only if it is a dry run or has no
      artifact candidate. */
  lemma SafeToCollectIff(q: GcRequest, was: Artifacts)
    requires Readable(was)
    ensures (forall now | MayLeave(q, was, now) :: Readable(now)) <==> !q.execute || was.Keys <= q.retainedArtifacts
  {
    if !q.execute || was.Keys <= q.retainedArtifacts {
      forall now | MayLeave(q, was, now) ensures Readable(now)
      {
        SafeWithoutCandidates(q, was, now);
      }
    } else {
      var now := UnsafeWithCandidates(q, was);
    }
  }

  /** Which is what a dry run tells beforehand. */
  lemma NoCandidatesIff(q: GcRequest, objects: Objects, artifacts: Artifacts)
    ensures GcReportOf(q, objects, artifacts).candidateArtifacts == 0 <==> artifacts.Keys <= q.retainedArtifacts
  {
    SplitCounts(artifacts.Keys, q.retainedArtifacts, BundleSize(artifacts));
    assert artifacts.Keys <= q.retainedArtifacts <==> artifacts.Keys - q.retainedArtifacts == {};
  }

  // ---------- what is left reads ----------

  /** Nothing is new, and what is left is as it was or half removed. */
  ghost predicate Shrunk(was: Artifacts, now: Artifacts)
  {
    forall k | k in now :: k in was && (now[k] == was[k] || now[k].Malformed?)
  }

  ghost predicate SomeDamaged(artifacts: Artifacts)
  {
    exists k :: k in artifacts && artifacts[k].Malformed?
  }

  lemma KeptShrinks(was: Artifacts, keys: seq<Text>, i: nat, retained: set<Text>, execute: bool)
    requires i <= |keys|
    ensures Shrunk(was, if execute then Kept(was, keys, i, retained) else was)
  {
    var now := Kept(was, keys, i, retained);
    forall k | k in now ensures k in was && now[k] == was[k]
    {
      KeptLookup(was, keys, i, retained, k);
    }
  }

  lemma DamagedShrinks(was: Artifacts, keys: seq<Text>, i: nat, retained: set<Text>)
    requires i < |keys| && Lists(keys, was.Keys)
    ensures Shrunk(was, Kept(was, keys, i, retained)[keys[i] := Malformed])
  {
    KeptShrinks(was, keys, i, retained, true);
    ListedMember(keys, i, |keys|);
  }

  /** What is left reads exactly if no bundle is half removed; afterwards, this can be seen. */
  lemma LeftReadableIff(was: Artifacts, now: Artifacts)
    requires Shrunk(was, now)
    ensures Readable(was) ==> (Readable(now) <==> !SomeDamaged(now))
  {
    if Readable(was) && !SomeDamaged(now) {
      forall k | k in now ensures now[k] == was[k] && k in was
      {
        assert !now[k].Malformed?;
      }
      PartReadable(was, now);
    }
  }

  lemma PartReadable(whole: Artifacts, part: Artifacts)
    requires Readable(whole) && PartOf(part, whole)
    ensures Readable(part)
  {
    var size := EnvelopeSize(part);
    assert part.Keys <= whole.Keys;
    SetsGrow(part.Keys, whole.Keys);
    ListingExists(part.Keys);
    ListingExists(whole.Keys);
    var rest, names := Enumerate(part.Keys), Enumerate(whole.Keys);
    SumOverSubset(names, rest, whole.Keys, part.Keys, size);
    SumToBelow(names, |names|, size, EnvelopeSize(whole));
  }

  lemma SetsGrow(part: set<Text>, whole: set<Text>)
    requires part <= whole
    ensures |part| <= |whole|
  {
    assert whole == part + (whole - part);
  }

  lemma {:induction false} SumToBelow(names: seq<Text>, i: nat, f: Text -> nat, g: Text -> nat)
    requires i <= |names| && forall k :: f(k) <= g(k)
    ensures SumTo(names, i, f) <= SumTo(names, i, g)
  {
    if i > 0 {
      SumToBelow(names, i - 1, f, g);
    }
  }
}
