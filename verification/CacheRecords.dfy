/** Verified bundles as artifact_records hands them to the policy layer. */
module CacheRecords {
  import opened Prelude
  import opened CacheAddress
  import opened CacheStore
  import opened CacheLimits

  /** A verified bundle as handed to the policy layer. */
  datatype Record = Record(key: Text, ciphertextHash: Text, envelope: Bytes, ciphertext: Bytes)

  function RecordOf(h: HashFunction, key: Text, e: Entry): (r: Record)
    requires e.Bundle?
  {
    Record(key, h(e.ciphertext), e.envelope, e.ciphertext)
  }

  function RecordFor(h: HashFunction, artifacts: Artifacts, k: Text): (r: Record)
    ensures r.key == k
  {
    if k in artifacts && artifacts[k].Bundle? then RecordOf(h, k, artifacts[k]) else Record(k, [], [], [])
  }

  /** One turn of artifact_records. */
  function RecordVerdict(h: HashFunction, artifacts: Artifacts, k: Text, envelopes: nat): (r: Result<Record, CacheError>)
  {
    if k !in artifacts || artifacts[k].Malformed? then Failure(UnsafeMetadata)
    else if !BundleReads(artifacts[k]) || envelopes + |artifacts[k].envelope| > MAX_ENVELOPES then Failure(Limit)
    else Success(RecordFor(h, artifacts, k))
  }

  /** The records of the first `i` listed bundles. */
  function RecordsUpTo(h: HashFunction, artifacts: Artifacts, keys: seq<Text>, i: nat): (r: seq<Record>)
    requires i <= |keys|
  {
    if i == 0 then [] else RecordsUpTo(h, artifacts, keys, i - 1) + [RecordFor(h, artifacts, keys[i - 1])]
  }

  lemma {:induction false} RecordsLength(h: HashFunction, artifacts: Artifacts, keys: seq<Text>, i: nat)
    requires i <= |keys|
    ensures |RecordsUpTo(h, artifacts, keys, i)| == i
  {
    if i > 0 {
      RecordsLength(h, artifacts, keys, i - 1);
    }
  }

  lemma {:induction false} RecordAt(h: HashFunction, artifacts: Artifacts, keys: seq<Text>, i: nat, j: nat)
    requires j < i <= |keys|
    ensures j < |RecordsUpTo(h, artifacts, keys, i)| && RecordsUpTo(h, artifacts, keys, i)[j] == RecordFor(h, artifacts, keys[j])
  {
    RecordsLength(h, artifacts, keys, i - 1);
    if j < i - 1 {
      RecordAt(h, artifacts, keys, i - 1, j);
    }
  }

  lemma RecordVerified(h: HashFunction, artifacts: Artifacts, keys: seq<Text>, j: nat)
    requires j < |keys| && KeysVerdict(keys, 0).Success? && RecordsVerdict(artifacts, keys, 0, 0).Success?
    ensures keys[j] in artifacts && IsDigest(keys[j]) && BundleReads(artifacts[keys[j]])
    ensures j < |RecordsUpTo(h, artifacts, keys, |keys|)|
    ensures RecordsUpTo(h, artifacts, keys, |keys|)[j] == RecordOf(h, keys[j], artifacts[keys[j]])
  {
    KeysAccepted(keys, 0, j);
    RecordsAccepted(artifacts, keys, 0, 0, j);
    RecordAt(h, artifacts, keys, |keys|, j);
  }
}
