/** The incremental limit checks accept exactly what the plain totals allow, in any listing order. */
module CacheLimits {
  import opened Prelude
  import opened CacheAddress
  import opened CacheStore

  /** After preflight every later check on the same directories passes too: each step of any
      running count or total, in any order. */
  lemma NoLaterObjectLimit(objects: Objects, artifacts: Artifacts, names: seq<Text>, i: nat)
    requires WithinLimits(objects, artifacts) && Lists(names, objects.Keys) && i < |names|
    ensures EntriesAllowed(i + 1, 0)
    ensures CheckedTransferBytes(SumTo(names, i, ObjectSize(objects)), ObjectSize(objects)(names[i])).Success?
  {
    ListedCount(names, |names|);
    RunningTotal(names, objects.Keys, i, ObjectSize(objects));
  }

  lemma NoLaterArtifactLimit(objects: Objects, artifacts: Artifacts, keys: seq<Text>, i: nat)
    requires WithinLimits(objects, artifacts) && Lists(keys, artifacts.Keys) && i < |keys|
    ensures EntriesAllowed(|objects.Keys|, i + 1)
    ensures SumOver(objects.Keys, ObjectSize(objects)) + SumTo(keys, i + 1, BundleSize(artifacts)) <= MAX_TRANSFER
    ensures SumTo(keys, i + 1, EnvelopeSize(artifacts)) <= MAX_ENVELOPES
  {
    ListedCount(keys, |keys|);
    RunningTotal(keys, artifacts.Keys, i, BundleSize(artifacts));
    RunningTotal(keys, artifacts.Keys, i, EnvelopeSize(artifacts));
  }

  // ---------- objects ----------

  predicate ObjectCounts(objects: Objects, k: Text, i: nat, bytes: nat)
  {
    && IsDigest(k) && k in objects && EntriesAllowed(i + 1, 0) && |objects[k]| <= MAX_CIPHERTEXT
    && bytes + |objects[k]| <= MAX_TRANSFER
  }

  lemma ObjectRefusedHere(objects: Objects, artifacts: Artifacts, names: seq<Text>, i: nat, bytes: nat)
    requires Lists(names, objects.Keys) && i < |names|
    requires bytes == SumTo(names, i, ObjectSize(objects))
    requires !ObjectCounts(objects, names[i], i, bytes)
    ensures !WithinLimits(objects, artifacts)
  {
    ListedMember(names, i, |names|);
    if WithinLimits(objects, artifacts) {
      NoLaterObjectLimit(objects, artifacts, names, i);
      assert false;
    }
  }

  lemma ObjectsStep(objects: Objects, names: seq<Text>, i: nat, bytes: nat, total: nat)
    requires i < |names| && ObjectCounts(objects, names[i], i, bytes) && total == bytes + |objects[names[i]]|
    ensures ObjectsVerdict(objects, names, i, bytes) == ObjectsVerdict(objects, names, i + 1, total)
  {
  }

  lemma {:induction false} ObjectsRefused(objects: Objects, artifacts: Artifacts, names: seq<Text>, i: nat, bytes: nat)
    requires Lists(names, objects.Keys) && i <= |names|
    requires bytes == SumTo(names, i, ObjectSize(objects))
    requires ObjectsVerdict(objects, names, i, bytes).Failure?
    ensures !WithinLimits(objects, artifacts)
    decreases |names| - i
  {
    if !ObjectCounts(objects, names[i], i, bytes) {
      ObjectRefusedHere(objects, artifacts, names, i, bytes);
    } else {
      var total := bytes + |objects[names[i]]|;
      ObjectsStep(objects, names, i, bytes, total);
      ObjectsRefused(objects, artifacts, names, i + 1, total);
    }
  }

  lemma {:induction false} ObjectsAccepted(objects: Objects, names: seq<Text>, i: nat, bytes: nat, j: nat)
    requires i <= |names| && bytes == SumTo(names, i, ObjectSize(objects)) <= MAX_TRANSFER && i <= MAX_ENTRIES
    requires ObjectsVerdict(objects, names, i, bytes).Success?
    ensures ObjectsVerdict(objects, names, i, bytes).value == SumTo(names, |names|, ObjectSize(objects)) <= MAX_TRANSFER
    ensures |names| <= MAX_ENTRIES
    ensures i <= j < |names| ==> names[j] in objects && IsDigest(names[j]) && |objects[names[j]]| <= MAX_CIPHERTEXT
    decreases |names| - i
  {
    if i < |names| {
      ObjectsAccepted(objects, names, i + 1, bytes + |objects[names[i]]|, j);
    }
  }

  // ---------- artifacts ----------

  lemma {:induction false} KeysRefused(artifacts: Artifacts, names: seq<Text>, i: nat)
    requires Lists(names, artifacts.Keys) && i <= |names| && KeysVerdict(names, i).Failure?
    ensures !Readable(artifacts)
    decreases |names| - i
  {
    ListedMember(names, i, |names|);
    ListedCount(names, |names|);
    if IsDigest(names[i]) && i + 1 <= MAX_ENTRIES {
      KeysRefused(artifacts, names, i + 1);
    }
  }

  lemma {:induction false} KeysAccepted(names: seq<Text>, i: nat, j: nat)
    requires i <= |names| && i <= MAX_ENTRIES && KeysVerdict(names, i).Success?
    ensures |names| <= MAX_ENTRIES && (i <= j < |names| ==> IsDigest(names[j]))
    decreases |names| - i
  {
    if i < |names| {
      KeysAccepted(names, i + 1, j);
    }
  }

  lemma BundlesStep(artifacts: Artifacts, names: seq<Text>, count: nat, i: nat, bytes: nat, envelopes: nat, total: nat, more: nat)
    requires i < |names| && EntriesAllowed(count, i + 1) && names[i] in artifacts && BundleReads(artifacts[names[i]])
    requires total == bytes + |artifacts[names[i]].ciphertext| + |artifacts[names[i]].envelope| <= MAX_TRANSFER
    requires more == envelopes + |artifacts[names[i]].envelope| <= MAX_ENVELOPES
    ensures BundlesVerdict(artifacts, names, count, i, bytes, envelopes) == BundlesVerdict(artifacts, names, count, i + 1, total, more)
  {
  }

  predicate BundleCounts(artifacts: Artifacts, k: Text, count: nat, i: nat, bytes: nat, envelopes: nat)
  {
    && EntriesAllowed(count, i + 1) && k in artifacts && BundleReads(artifacts[k])
    && bytes + |artifacts[k].ciphertext| + |artifacts[k].envelope| <= MAX_TRANSFER
    && envelopes + |artifacts[k].envelope| <= MAX_ENVELOPES
  }

  lemma BundleRefusedHere(objects: Objects, artifacts: Artifacts, names: seq<Text>, i: nat, bytes: nat, envelopes: nat)
    requires Lists(names, artifacts.Keys) && i < |names|
    requires bytes == SumOver(objects.Keys, ObjectSize(objects)) + SumTo(names, i, BundleSize(artifacts))
    requires envelopes == SumTo(names, i, EnvelopeSize(artifacts))
    requires !BundleCounts(artifacts, names[i], |objects.Keys|, i, bytes, envelopes)
    ensures !WithinLimits(objects, artifacts)
  {
    ListedMember(names, i, |names|);
    if WithinLimits(objects, artifacts) {
      NoLaterArtifactLimit(objects, artifacts, names, i);
      assert false;
    }
  }

  lemma {:induction false} BundlesRefused(objects: Objects, artifacts: Artifacts, names: seq<Text>, i: nat, bytes: nat, envelopes: nat)
    requires Lists(names, artifacts.Keys) && i <= |names|
    requires bytes == SumOver(objects.Keys, ObjectSize(objects)) + SumTo(names, i, BundleSize(artifacts))
    requires envelopes == SumTo(names, i, EnvelopeSize(artifacts))
    requires BundlesVerdict(artifacts, names, |objects.Keys|, i, bytes, envelopes).Failure?
    ensures !WithinLimits(objects, artifacts)
    decreases |names| - i
  {
    if !BundleCounts(artifacts, names[i], |objects.Keys|, i, bytes, envelopes) {
      BundleRefusedHere(objects, artifacts, names, i, bytes, envelopes);
    } else {
      var e := artifacts[names[i]];
      var total, more := bytes + |e.ciphertext| + |e.envelope|, envelopes + |e.envelope|;
      BundlesStep(artifacts, names, |objects.Keys|, i, bytes, envelopes, total, more);
      BundlesRefused(objects, artifacts, names, i + 1, total, more);
    }
  }

  lemma {:induction false} BundlesAccepted(artifacts: Artifacts, names: seq<Text>, count: nat, base: nat, i: nat, bytes: nat, envelopes: nat, j: nat)
    requires i <= |names| && count + i <= MAX_ENTRIES
    requires bytes == base + SumTo(names, i, BundleSize(artifacts)) <= MAX_TRANSFER
    requires envelopes == SumTo(names, i, EnvelopeSize(artifacts)) <= MAX_ENVELOPES
    requires BundlesVerdict(artifacts, names, count, i, bytes, envelopes).Success?
    ensures BundlesVerdict(artifacts, names, count, i, bytes, envelopes).value == base + SumTo(names, |names|, BundleSize(artifacts)) <= MAX_TRANSFER
    ensures SumTo(names, |names|, EnvelopeSize(artifacts)) <= MAX_ENVELOPES && count + |names| <= MAX_ENTRIES
    ensures i <= j < |names| ==> names[j] in artifacts && BundleReads(artifacts[names[j]])
    decreases |names| - i
  {
    if i < |names| {
      var e := artifacts[names[i]];
      assert BundleSize(artifacts)(names[i]) == |e.ciphertext| + |e.envelope| && EnvelopeSize(artifacts)(names[i]) == |e.envelope|;
      BundlesAccepted(artifacts, names, count, base, i + 1, bytes + |e.ciphertext| + |e.envelope|, envelopes + |e.envelope|, j);
    }
  }

  // ---------- the whole check ----------

  lemma ObjectsWithin(objects: Objects, names: seq<Text>)
    requires Lists(names, objects.Keys) && ObjectsVerdict(objects, names, 0, 0).Success?
    ensures forall k | k in objects :: IsDigest(k) && |objects[k]| <= MAX_CIPHERTEXT
    ensures ObjectsVerdict(objects, names, 0, 0).value == SumOver(objects.Keys, ObjectSize(objects)) <= MAX_TRANSFER
    ensures |names| == |objects.Keys| <= MAX_ENTRIES
  {
    ObjectsAccepted(objects, names, 0, 0, 0);
    SumWhole(names, objects.Keys, ObjectSize(objects));
    forall k | k in objects ensures IsDigest(k) && |objects[k]| <= MAX_CIPHERTEXT
    {
      var j := ListedIndex(names, |names|, k);
      ObjectsAccepted(objects, names, 0, 0, j);
    }
  }

  lemma BundlesWithin(artifacts: Artifacts, keys: seq<Text>, count: nat, bytes: nat)
    requires Lists(keys, artifacts.Keys) && count <= MAX_ENTRIES && bytes <= MAX_TRANSFER
    requires KeysVerdict(keys, 0).Success? && BundlesVerdict(artifacts, keys, count, 0, bytes, 0).Success?
    ensures Readable(artifacts) && count + |artifacts.Keys| <= MAX_ENTRIES
    ensures BundlesVerdict(artifacts, keys, count, 0, bytes, 0).value == bytes + SumOver(artifacts.Keys, BundleSize(artifacts)) <= MAX_TRANSFER
  {
    BundlesAccepted(artifacts, keys, count, bytes, 0, bytes, 0, 0);
    SumWhole(keys, artifacts.Keys, BundleSize(artifacts));
    SumWhole(keys, artifacts.Keys, EnvelopeSize(artifacts));
    forall k | k in artifacts ensures IsDigest(k) && BundleReads(artifacts[k])
    {
      var j := ListedIndex(keys, |keys|, k);
      KeysAccepted(keys, 0, j);
      BundlesAccepted(artifacts, keys, count, bytes, 0, bytes, 0, j);
    }
  }

  lemma AcceptedIsWithin(objects: Objects, artifacts: Artifacts, names: seq<Text>, keys: seq<Text>)
    requires Lists(names, objects.Keys) && Lists(keys, artifacts.Keys)
    requires LimitsVerdict(objects, artifacts, names, keys).Success?
    ensures WithinLimits(objects, artifacts)
  {
    ObjectsWithin(objects, names);
    BundlesWithin(artifacts, keys, |names|, ObjectsVerdict(objects, names, 0, 0).value);
  }

  lemma AcceptedIsTotal(objects: Objects, artifacts: Artifacts, names: seq<Text>, keys: seq<Text>)
    requires Lists(names, objects.Keys) && Lists(keys, artifacts.Keys)
    requires LimitsVerdict(objects, artifacts, names, keys).Success?
    ensures LimitsVerdict(objects, artifacts, names, keys).value == TotalBytes(objects, artifacts)
  {
    ObjectsAccepted(objects, names, 0, 0, 0);
    SumWhole(names, objects.Keys, ObjectSize(objects));
    var bytes := ObjectsVerdict(objects, names, 0, 0).value;
    BundlesAccepted(artifacts, keys, |names|, bytes, 0, bytes, 0, 0);
    SumWhole(keys, artifacts.Keys, BundleSize(artifacts));
  }

  lemma RefusedIsOver(objects: Objects, artifacts: Artifacts, names: seq<Text>, keys: seq<Text>)
    requires Lists(names, objects.Keys) && Lists(keys, artifacts.Keys)
    requires LimitsVerdict(objects, artifacts, names, keys).Failure?
    ensures !WithinLimits(objects, artifacts)
  {
    if ObjectsVerdict(objects, names, 0, 0).Failure? {
      ObjectsRefused(objects, artifacts, names, 0, 0);
    } else if KeysVerdict(keys, 0).Failure? {
      KeysRefused(artifacts, keys, 0);
    } else {
      var bytes := ObjectsVerdict(objects, names, 0, 0).value;
      ObjectsAccepted(objects, names, 0, 0, 0);
      SumWhole(names, objects.Keys, ObjectSize(objects));
      BundlesRefused(objects, artifacts, keys, 0, bytes, 0);
    }
  }

  /** Preflight refines the plain totals: for every listing order it accepts exactly the directories
      within the limits and then reports exactly their size, so no two listings disagree. */
  lemma LimitsVerdictExact(objects: Objects, artifacts: Artifacts, names: seq<Text>, keys: seq<Text>)
    requires Lists(names, objects.Keys) && Lists(keys, artifacts.Keys)
    ensures LimitsVerdict(objects, artifacts, names, keys).Success? <==> WithinLimits(objects, artifacts)
    ensures WithinLimits(objects, artifacts) ==> LimitsVerdict(objects, artifacts, names, keys) == Success(TotalBytes(objects, artifacts))
  {
    if LimitsVerdict(objects, artifacts, names, keys).Success? {
      AcceptedIsWithin(objects, artifacts, names, keys);
      AcceptedIsTotal(objects, artifacts, names, keys);
    } else {
      RefusedIsOver(objects, artifacts, names, keys);
    }
  }

  lemma ListingsAgree(objects: Objects, artifacts: Artifacts, names: seq<Text>, keys: seq<Text>, names': seq<Text>, keys': seq<Text>)
    requires Lists(names, objects.Keys) && Lists(keys, artifacts.Keys) && Lists(names', objects.Keys) && Lists(keys', artifacts.Keys)
    ensures LimitsVerdict(objects, artifacts, names, keys).Success? <==> LimitsVerdict(objects, artifacts, names', keys').Success?
  {
    LimitsVerdictExact(objects, artifacts, names, keys);
    LimitsVerdictExact(objects, artifacts, names', keys');
  }

  // ---------- the inventory reader ----------

  lemma {:induction false} DigestsAccepted(names: seq<Text>, i: nat)
    requires i <= |names| <= MAX_ENTRIES && forall j | 0 <= j < |names| :: IsDigest(names[j])
    ensures KeysVerdict(names, i).Success?
    decreases |names| - i
  {
    if i < |names| {
      DigestsAccepted(names, i + 1);
    }
  }

  /** Whether the names are accepted does not depend on their order. */
  lemma KeysListingsAgree(artifacts: Artifacts, names: seq<Text>, others: seq<Text>)
    requires Lists(names, artifacts.Keys) && Lists(others, artifacts.Keys) && KeysVerdict(names, 0).Success?
    ensures KeysVerdict(others, 0).Success?
  {
    KeysAccepted(names, 0, 0);
    ListedCount(names, |names|);
    ListedCount(others, |others|);
    forall j | 0 <= j < |others| ensures IsDigest(others[j])
    {
      ListedMember(others, j, |others|);
      var k := ListedIndex(names, |names|, others[j]);
      KeysAccepted(names, 0, k);
    }
    DigestsAccepted(others, 0);
  }

  lemma {:induction false} RecordsRefused(artifacts: Artifacts, names: seq<Text>, i: nat, envelopes: nat)
    requires Lists(names, artifacts.Keys) && i <= |names| && envelopes == SumTo(names, i, EnvelopeSize(artifacts))
    requires RecordsVerdict(artifacts, names, i, envelopes).Failure?
    ensures !Readable(artifacts)
    decreases |names| - i
  {
    ListedMember(names, i, |names|);
    var k := names[i];
    if BundleReads(artifacts[k]) {
      RunningTotal(names, artifacts.Keys, i, EnvelopeSize(artifacts));
      if envelopes + |artifacts[k].envelope| <= MAX_ENVELOPES {
        RecordsRefused(artifacts, names, i + 1, envelopes + |artifacts[k].envelope|);
      }
    }
  }

  lemma {:induction false} RecordsAccepted(artifacts: Artifacts, names: seq<Text>, i: nat, envelopes: nat, j: nat)
    requires i <= |names| && envelopes == SumTo(names, i, EnvelopeSize(artifacts)) <= MAX_ENVELOPES
    requires RecordsVerdict(artifacts, names, i, envelopes).Success?
    ensures SumTo(names, |names|, EnvelopeSize(artifacts)) <= MAX_ENVELOPES
    ensures i <= j < |names| ==> names[j] in artifacts && BundleReads(artifacts[names[j]])
    decreases |names| - i
  {
    if i < |names| {
      RecordsAccepted(artifacts, names, i + 1, envelopes + |artifacts[names[i]].envelope|, j);
    }
  }

  /** artifact_records succeeds exactly on a readable artifact directory, in any listing order. */
  lemma RecordsVerdictExact(artifacts: Artifacts, names: seq<Text>)
    requires Lists(names, artifacts.Keys)
    ensures KeysVerdict(names, 0).Success? && RecordsVerdict(artifacts, names, 0, 0).Success? <==> Readable(artifacts)
  {
    if KeysVerdict(names, 0).Failure? {
      KeysRefused(artifacts, names, 0);
    } else if RecordsVerdict(artifacts, names, 0, 0).Failure? {
      RecordsRefused(artifacts, names, 0, 0);
    } else {
      RecordsReadable(artifacts, names);
    }
  }

  lemma RecordsReadable(artifacts: Artifacts, names: seq<Text>)
    requires Lists(names, artifacts.Keys)
    requires KeysVerdict(names, 0).Success? && RecordsVerdict(artifacts, names, 0, 0).Success?
    ensures Readable(artifacts)
  {
    KeysAccepted(names, 0, 0);
    RecordsAccepted(artifacts, names, 0, 0, 0);
    SumWhole(names, artifacts.Keys, EnvelopeSize(artifacts));
    forall k | k in artifacts ensures IsDigest(k) && BundleReads(artifacts[k])
    {
      var j := ListedIndex(names, |names|, k);
      KeysAccepted(names, 0, j);
      RecordsAccepted(artifacts, names, 0, 0, j);
    }
  }
}
