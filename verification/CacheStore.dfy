/** Contents of a ciphertext cache, the limits it enforces and the meaning of transfers. */
module CacheStore {
  import opened Prelude
  import opened CacheAddress

  /** A directory under `artifacts`; anything but the two expected files is malformed. */
  datatype Entry = Bundle(ciphertext: Bytes, envelope: Bytes) | Malformed

  type Objects = map<Text, Bytes>
  type Artifacts = map<Text, Entry>

  datatype CacheError =
    | Io
    | HashMismatch
    | InvalidAddress
    | Limit
    | ArtifactExists
    | DestinationExists
    | Conflict
    | UnsafeMetadata

  const MAX_CIPHERTEXT: nat := 70 * 1024 * 1024
  const MAX_ENVELOPE: nat := 2 * 1024 * 1024
  const MAX_ENTRIES: nat := 10_000
  const MAX_TRANSFER: nat := 8 * 1024 * 1024 * 1024
  const MAX_ENVELOPES: nat := 64 * 1024 * 1024

  /** Reading an object recomputes its digest. */
  predicate ObjectReads(h: HashFunction, name: Text, bytes: Bytes)
  {
    |bytes| <= MAX_CIPHERTEXT && h(bytes) == name
  }

  predicate BundleReads(e: Entry)
  {
    e.Bundle? && |e.ciphertext| <= MAX_CIPHERTEXT && |e.envelope| <= MAX_ENVELOPE
  }

  // ---------- sums over a directory, in no particular order ----------

  function Listed(names: seq<Text>, i: nat): (r: set<Text>)
    requires i <= |names|
  {
    if i == 0 then {} else Listed(names, i - 1) + {names[i - 1]}
  }

  predicate NoRepeats(names: seq<Text>, i: nat)
    requires i <= |names|
  {
    i == 0 || (NoRepeats(names, i - 1) && names[i - 1] !in Listed(names, i - 1))
  }

  /** A directory listing: every entry once, in some order. */
  predicate Lists(names: seq<Text>, ks: set<Text>)
  {
    NoRepeats(names, |names|) && Listed(names, |names|) == ks
  }

  function SumTo(names: seq<Text>, i: nat, size: Text -> nat): (n: nat)
    requires i <= |names|
  {
    if i == 0 then 0 else SumTo(names, i - 1, size) + size(names[i - 1])
  }

  /** Some listing of a directory. */
  ghost function Enumerate(ks: set<Text>): (names: seq<Text>)
  {
    ListingExists(ks);
    var names :| Lists(names, ks);
    names
  }

  /** The total size of a directory; `SumWhole` shows that every listing gives it. */
  ghost function SumOver(ks: set<Text>, size: Text -> nat): (n: nat)
  {
    SumTo(Enumerate(ks), |Enumerate(ks)|, size)
  }

  function ObjectSize(m: Objects): (size: Text -> nat)
  {
    k => if k in m then |m[k]| else 0
  }

  function BundleSize(m: Artifacts): (size: Text -> nat)
  {
    k => if k in m && m[k].Bundle? then |m[k].ciphertext| + |m[k].envelope| else 0
  }

  function EnvelopeSize(m: Artifacts): (size: Text -> nat)
  {
    k => if k in m && m[k].Bundle? then |m[k].envelope| else 0
  }

  // ---------- listings ----------

  lemma {:induction false} ListedPrefix(names: seq<Text>, k: Text, i: nat)
    requires i <= |names|
    ensures Listed(names + [k], i) == Listed(names, i) && NoRepeats(names + [k], i) == NoRepeats(names, i)
  {
    if i > 0 {
      ListedPrefix(names, k, i - 1);
    }
  }

  lemma ListsExtend(names: seq<Text>, ks: set<Text>, k: Text)
    requires k in ks && Lists(names, ks - {k})
    ensures Lists(names + [k], ks)
  {
    ListedPrefix(names, k, |names|);
    var all := names + [k];
    assert all[|names|] == k && Listed(all, |all|) == Listed(names, |names|) + {k};
  }

  lemma {:induction false} ListingExists(ks: set<Text>)
    ensures exists names :: Lists(names, ks)
    decreases |ks|
  {
    if ks == {} {
      assert Lists([], ks);
    } else {
      var k :| k in ks;
      ListingExists(ks - {k});
      var names :| Lists(names, ks - {k});
      ListsExtend(names, ks, k);
    }
  }

  lemma {:induction false} ListedMember(names: seq<Text>, i: nat, n: nat)
    requires i < n <= |names|
    ensures names[i] in Listed(names, n)
  {
    if i < n - 1 {
      ListedMember(names, i, n - 1);
    }
  }

  lemma {:induction false} NotListedYet(names: seq<Text>, i: nat, n: nat)
    requires i < n <= |names| && NoRepeats(names, n)
    ensures names[i] !in Listed(names, i)
  {
    if i < n - 1 {
      NotListedYet(names, i, n - 1);
    }
  }

  lemma {:induction false} ListedIndex(names: seq<Text>, n: nat, k: Text) returns (i: nat)
    requires n <= |names| && k in Listed(names, n)
    ensures i < n && names[i] == k
  {
    if names[n - 1] == k {
      i := n - 1;
    } else {
      i := ListedIndex(names, n - 1, k);
    }
  }

  lemma {:induction false} ListedCount(names: seq<Text>, n: nat)
    requires n <= |names| && NoRepeats(names, n)
    ensures |Listed(names, n)| == n
  {
    if n > 0 {
      ListedCount(names, n - 1);
    }
  }

  // ---------- every listing gives the same total ----------

  ghost function SetSum(ks: set<Text>, size: Text -> nat): (n: nat)
    decreases |ks|
  {
    if ks == {} then 0 else
      var k :| k in ks;
      size(k) + SetSum(ks - {k}, size)
  }

  lemma {:induction false} SumTake(ks: set<Text>, size: Text -> nat, k: Text)
    requires k in ks
    ensures SetSum(ks, size) == size(k) + SetSum(ks - {k}, size)
    decreases |ks|
  {
    var first :| first in ks && SetSum(ks, size) == size(first) + SetSum(ks - {first}, size);
    if first != k {
      SumTake(ks - {first}, size, k);
      SumTake(ks - {k}, size, first);
      assert ks - {first} - {k} == ks - {k} - {first};
    }
  }

  lemma {:induction false} SumListed(names: seq<Text>, i: nat, size: Text -> nat)
    requires i <= |names| && NoRepeats(names, i)
    ensures SumTo(names, i, size) == SetSum(Listed(names, i), size)
  {
    if i > 0 {
      SumListed(names, i - 1, size);
      SumTake(Listed(names, i), size, names[i - 1]);
      assert Listed(names, i) - {names[i - 1]} == Listed(names, i - 1);
    }
  }

  lemma SumWhole(names: seq<Text>, ks: set<Text>, size: Text -> nat)
    requires Lists(names, ks)
    ensures SumTo(names, |names|, size) == SumOver(ks, size)
    ensures |names| == |ks|
  {
    ListingExists(ks);
    SumListed(names, |names|, size);
    SumListed(Enumerate(ks), |Enumerate(ks)|, size);
    ListedCount(names, |names|);
  }

  lemma {:induction false} SumToAgrees(names: seq<Text>, k: Text, i: nat, size: Text -> nat, other: Text -> nat)
    requires i <= |names| && forall j | j in Listed(names, i) :: other(j) == size(j)
    ensures SumTo(names + [k], i, other) == SumTo(names, i, size)
  {
    if i > 0 {
      SumToAgrees(names, k, i - 1, size, other);
      assert names[i - 1] in Listed(names, i);
    }
  }

  /** One more entry adds its own size. */
  lemma SumOverOneMore(ks: set<Text>, k: Text, size: Text -> nat, other: Text -> nat)
    requires k !in ks && forall j | j in ks :: other(j) == size(j)
    ensures SumOver(ks + {k}, other) == SumOver(ks, size) + other(k)
  {
    ListingExists(ks);
    var names :| Lists(names, ks);
    assert ks + {k} - {k} == ks;
    ListsExtend(names, ks + {k}, k);
    SumWhole(names, ks, size);
    SumWhole(names + [k], ks + {k}, other);
    SumToAgrees(names, k, |names|, size, other);
  }

  lemma {:induction false} SumToGrows(names: seq<Text>, i: nat, j: nat, size: Text -> nat)
    requires i <= j <= |names|
    ensures SumTo(names, i, size) <= SumTo(names, j, size)
  {
    if i < j {
      SumToGrows(names, i, j - 1, size);
    }
  }

  /** A running total never exceeds the whole. */
  lemma RunningTotal(names: seq<Text>, ks: set<Text>, i: nat, size: Text -> nat)
    requires Lists(names, ks) && i < |names|
    ensures SumTo(names, i + 1, size) == SumTo(names, i, size) + size(names[i]) <= SumOver(ks, size)
  {
    SumWhole(names, ks, size);
    SumToGrows(names, i + 1, |names|, size);
  }

  // ---------- limits ----------

  function CheckedTransferBytes(total: nat, additional: nat): (r: Result<nat, CacheError>)
  {
    if total + additional > U64_MAX || total + additional > MAX_TRANSFER then Failure(Limit)
    else Success(total + additional)
  }

  predicate EntriesAllowed(objects: nat, artifacts: nat)
  {
    objects + artifacts <= U64_MAX && objects + artifacts <= MAX_ENTRIES
  }

  /** The transfer limits as plain totals. */
  ghost predicate WithinLimits(objects: Objects, artifacts: Artifacts)
  {
    && (forall k | k in objects :: IsDigest(k) && |objects[k]| <= MAX_CIPHERTEXT)
    && (forall k | k in artifacts :: IsDigest(k) && BundleReads(artifacts[k]))
    && |objects.Keys| + |artifacts.Keys| <= MAX_ENTRIES
    && TotalBytes(objects, artifacts) <= MAX_TRANSFER
    && SumOver(artifacts.Keys, EnvelopeSize(artifacts)) <= MAX_ENVELOPES
  }

  ghost function TotalBytes(objects: Objects, artifacts: Artifacts): (n: nat)
  {
    SumOver(objects.Keys, ObjectSize(objects)) + SumOver(artifacts.Keys, BundleSize(artifacts))
  }

  /** Every bundle of one directory is in the other, unchanged. */
  ghost predicate PartOf(part: Artifacts, whole: Artifacts)
  {
    forall k | k in part :: k in whole && part[k] == whole[k]
  }

  /** Artifact bundles the inventory reader accepts. */
  ghost predicate Readable(artifacts: Artifacts)
  {
    && (forall k | k in artifacts :: IsDigest(k) && BundleReads(artifacts[k]))
    && |artifacts.Keys| <= MAX_ENTRIES
    && SumOver(artifacts.Keys, EnvelopeSize(artifacts)) <= MAX_ENVELOPES
  }

  /** An exchange that can be copied: within the limits and every object under its own digest. */
  ghost predicate Transferable(h: HashFunction, objects: Objects, artifacts: Artifacts)
  {
    WithinLimits(objects, artifacts) && forall k | k in objects :: h(objects[k]) == k
  }

  /** Entries present on both sides verify and agree. */
  ghost predicate Compatible(h: HashFunction, from: Objects, fromArtifacts: Artifacts, to: Objects, toArtifacts: Artifacts)
  {
    && (forall k | k in from && k in to :: ObjectReads(h, k, to[k]))
    && (forall k | k in fromArtifacts && k in toArtifacts :: Agrees(h, fromArtifacts[k], toArtifacts[k]))
  }

  predicate Agrees(h: HashFunction, from: Entry, to: Entry)
  {
    from.Bundle? && BundleReads(to) && h(to.ciphertext) == h(from.ciphertext) && to.envelope == from.envelope
  }

  // ---------- the incremental checks, over one listing ----------

  /** The object loop of preflight_transfer_limits from position `i` with `bytes` counted so far. */
  function ObjectsVerdict(objects: Objects, names: seq<Text>, i: nat, bytes: nat): (r: Result<nat, CacheError>)
    requires i <= |names|
    decreases |names| - i
  {
    if i == |names| then Success(bytes)
    else if !IsDigest(names[i]) || names[i] !in objects then Failure(UnsafeMetadata)
    else if !EntriesAllowed(i + 1, 0) || |objects[names[i]]| > MAX_CIPHERTEXT then Failure(Limit)
    else
      match CheckedTransferBytes(bytes, |objects[names[i]]|)
      case Failure(e) => Failure(e)
      case Success(total) => ObjectsVerdict(objects, names, i + 1, total)
  }

  function KeysVerdict(names: seq<Text>, i: nat): (r: Result<(), CacheError>)
    requires i <= |names|
    decreases |names| - i
  {
    if i == |names| then Success(())
    else if !IsDigest(names[i]) then Failure(UnsafeMetadata)
    else if i + 1 > MAX_ENTRIES then Failure(Limit)
    else KeysVerdict(names, i + 1)
  }

  /** One turn of the artifact loop, the `count`th entry: the byte total and the envelope total. */
  function BundleVerdict(artifacts: Artifacts, k: Text, count: nat, bytes: nat, envelopes: nat): (r: Result<(nat, nat), CacheError>)
  {
    if !EntriesAllowed(count, 0) then Failure(Limit)
    else if k !in artifacts || artifacts[k].Malformed? then Failure(UnsafeMetadata)
    else if !BundleReads(artifacts[k]) then Failure(Limit)
    else
      var e := artifacts[k];
      match CheckedTransferBytes(bytes, |e.ciphertext|)
      case Failure(error) => Failure(error)
      case Success(t) =>
        match CheckedTransferBytes(t, |e.envelope|)
        case Failure(error) => Failure(error)
        case Success(total) =>
          if envelopes + |e.envelope| > MAX_ENVELOPES then Failure(Limit) else Success((total, envelopes + |e.envelope|))
  }

  /** The artifact loop, continuing the entry count and byte total of the objects. */
  function BundlesVerdict(artifacts: Artifacts, names: seq<Text>, objectCount: nat, i: nat, bytes: nat, envelopes: nat): (r: Result<nat, CacheError>)
    requires i <= |names|
    decreases |names| - i
  {
    if i == |names| then Success(bytes)
    else
      match BundleVerdict(artifacts, names[i], objectCount + i + 1, bytes, envelopes)
      case Failure(error) => Failure(error)
      case Success(totals) => BundlesVerdict(artifacts, names, objectCount, i + 1, totals.0, totals.1)
  }

  lemma NextBundle(artifacts: Artifacts, names: seq<Text>, objectCount: nat, i: nat, bytes: nat, envelopes: nat)
    requires i < |names| && BundleVerdict(artifacts, names[i], objectCount + i + 1, bytes, envelopes).Success?
    ensures var totals := BundleVerdict(artifacts, names[i], objectCount + i + 1, bytes, envelopes).value;
      BundlesVerdict(artifacts, names, objectCount, i, bytes, envelopes) == BundlesVerdict(artifacts, names, objectCount, i + 1, totals.0, totals.1)
  {
  }

  /** The running envelope total of artifact_records. */
  function RecordsVerdict(artifacts: Artifacts, names: seq<Text>, i: nat, envelopes: nat): (r: Result<(), CacheError>)
    requires i <= |names|
    decreases |names| - i
  {
    if i == |names| then Success(())
    else if names[i] !in artifacts || artifacts[names[i]].Malformed? then Failure(UnsafeMetadata)
    else if !BundleReads(artifacts[names[i]]) then Failure(Limit)
    else if envelopes + |artifacts[names[i]].envelope| > MAX_ENVELOPES then Failure(Limit)
    else RecordsVerdict(artifacts, names, i + 1, envelopes + |artifacts[names[i]].envelope|)
  }

  function LimitsVerdict(objects: Objects, artifacts: Artifacts, names: seq<Text>, keys: seq<Text>): (r: Result<nat, CacheError>)
  {
    match ObjectsVerdict(objects, names, 0, 0)
    case Failure(e) => Failure(e)
    case Success(bytes) =>
      match KeysVerdict(keys, 0)
      case Failure(e) => Failure(e)
      case Success(_) => BundlesVerdict(artifacts, keys, |names|, 0, bytes, 0)
  }

  datatype TransferReport = TransferReport(objects: nat, artifacts: nat, bytes: nat)

  ghost function ReportOf(objects: Objects, artifacts: Artifacts): (r: TransferReport)
  {
    TransferReport(|objects.Keys|, |artifacts.Keys|, TotalBytes(objects, artifacts))
  }

  // ---------- copying ----------

  /** The destination after the first `i` listed entries were copied; existing entries stay. */
  function Copied<V>(source: map<Text, V>, names: seq<Text>, i: nat, to: map<Text, V>): (r: map<Text, V>)
    requires i <= |names|
  {
    if i == 0 then to
    else
      var t := Copied(source, names, i - 1, to);
      if names[i - 1] in t || names[i - 1] !in source then t else t[names[i - 1] := source[names[i - 1]]]
  }

  lemma {:induction false} CopiedLookup<V>(source: map<Text, V>, names: seq<Text>, i: nat, to: map<Text, V>, k: Text)
    requires i <= |names|
    ensures Lookup(Copied(source, names, i, to), k) ==
      if k in to then Some(to[k]) else if k in Listed(names, i) then Lookup(source, k) else None
  {
    if i > 0 {
      CopiedLookup(source, names, i - 1, to, k);
    }
  }

  /** A complete copy is the union, with the destination's own entries taking precedence. */
  lemma CopiedAll<V>(source: map<Text, V>, names: seq<Text>, to: map<Text, V>)
    requires Lists(names, source.Keys)
    ensures Copied(source, names, |names|, to) == source + to
  {
    forall k ensures Lookup(Copied(source, names, |names|, to), k) == Lookup(source + to, k)
    {
      CopiedLookup(source, names, |names|, to, k);
    }
    MapsEqual(Copied(source, names, |names|, to), source + to);
  }

  /** A destination that kept all its entries and gained some of the source's, unchanged. */
  ghost predicate Between<V>(was: map<Text, V>, now: map<Text, V>, source: map<Text, V>)
  {
    && (forall k | k in was :: k in now && now[k] == was[k])
    && (forall k | k in now && k !in was :: k in source && now[k] == source[k])
  }

  lemma CopiedBetween<V>(source: map<Text, V>, names: seq<Text>, i: nat, to: map<Text, V>)
    requires i <= |names|
    ensures Between(to, Copied(source, names, i, to), source)
  {
    var now := Copied(source, names, i, to);
    forall k | k in to ensures k in now && now[k] == to[k]
    {
      CopiedLookup(source, names, i, to, k);
    }
    forall k | k in now && k !in to ensures k in source && now[k] == source[k]
    {
      CopiedLookup(source, names, i, to, k);
    }
  }
}
