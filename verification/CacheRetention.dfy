/** Garbage collection and inventory of a cache: what they count and what they leave. */
module CacheRetention {
  import opened Prelude
  import opened CacheAddress
  import opened CacheStore

  datatype GcRequest = GcRequest(retainedArtifacts: set<Text>, retainedObjects: set<Text>, execute: bool)

  datatype GcReport = GcReport(
    executed: bool,
    retainedArtifacts: nat,
    retainedObjects: nat,
    candidateArtifacts: nat,
    candidateObjects: nat,
    candidateBytes: nat)

  datatype Inventory = Inventory(
    objectCount: nat,
    objectBytes: nat,
    artifactCount: nat,
    ciphertextBytes: nat,
    envelopeBytes: nat)

  /** The directory with the candidates among the first `i` listed entries removed. */
  function Kept<V>(m: map<Text, V>, names: seq<Text>, i: nat, retained: set<Text>): (r: map<Text, V>)
    requires i <= |names|
  {
    if i == 0 then m
    else if names[i - 1] in retained then Kept(m, names, i - 1, retained)
    else Kept(m, names, i - 1, retained) - {names[i - 1]}
  }

  function CountIn(names: seq<Text>, i: nat, retained: set<Text>): (n: nat)
    requires i <= |names|
    ensures n <= i
  {
    if i == 0 then 0 else CountIn(names, i - 1, retained) + if names[i - 1] in retained then 1 else 0
  }

  function Candidates(size: Text -> nat, retained: set<Text>): (r: Text -> nat)
  {
    k => if k in retained then 0 else size(k)
  }

  function CiphertextSize(m: Artifacts): (size: Text -> nat)
  {
    k => if k in m && m[k].Bundle? then |m[k].ciphertext| else 0
  }

  /** One for every name in the set. */
  function Marked(names: set<Text>): (size: Text -> nat)
  {
    k => if k in names then 1 else 0
  }

  function Unmarked(names: set<Text>): (size: Text -> nat)
  {
    k => if k in names then 0 else 1
  }

  /** How a directory splits into retained entries and candidates. */
  datatype Split = Split(retained: nat, candidates: nat, bytes: nat)

  ghost function SplitOf(ks: set<Text>, retained: set<Text>, size: Text -> nat): (r: Split)
  {
    Split(SumOver(ks, Marked(retained)), SumOver(ks, Unmarked(retained)), SumOver(ks, Candidates(size, retained)))
  }

  ghost function ObjectSplit(objects: Objects, retained: set<Text>): (r: Split)
  {
    SplitOf(objects.Keys, retained, ObjectSize(objects))
  }

  ghost function BundleSplit(artifacts: Artifacts, retained: set<Text>): (r: Split)
  {
    SplitOf(artifacts.Keys, retained, BundleSize(artifacts))
  }

  function ReportFrom(q: GcRequest, o: Split, a: Split): (r: GcReport)
  {
    GcReport(q.execute, a.retained, o.retained, a.candidates, o.candidates, o.bytes + a.bytes)
  }

  /** What a collection run reports, from the directories alone. */
  ghost function GcReportOf(q: GcRequest, objects: Objects, artifacts: Artifacts): (r: GcReport)
  {
    ReportFrom(q, ObjectSplit(objects, q.retainedObjects), BundleSplit(artifacts, q.retainedArtifacts))
  }

  ghost function InventoryOf(objects: Objects, artifacts: Artifacts): (r: Inventory)
  {
    Inventory(
      |objects.Keys|, SumOver(objects.Keys, ObjectSize(objects)),
      |artifacts.Keys|, SumOver(artifacts.Keys, CiphertextSize(artifacts)), SumOver(artifacts.Keys, EnvelopeSize(artifacts)))
  }

  /** Exactly the retained entries of a directory. */
  function Retained<V>(m: map<Text, V>, retained: set<Text>): (r: map<Text, V>)
  {
    m - (m.Keys - retained)
  }

  lemma {:induction false} KeptLookup<V>(m: map<Text, V>, names: seq<Text>, i: nat, retained: set<Text>, k: Text)
    requires i <= |names|
    ensures Lookup(Kept(m, names, i, retained), k) ==
      if k in Listed(names, i) && k !in retained then None else Lookup(m, k)
  {
    if i > 0 {
      KeptLookup(m, names, i - 1, retained, k);
    }
  }

  lemma KeptAll<V>(m: map<Text, V>, names: seq<Text>, retained: set<Text>)
    requires Lists(names, m.Keys)
    ensures Kept(m, names, |names|, retained) == Retained(m, retained)
  {
    forall k ensures Lookup(Kept(m, names, |names|, retained), k) == Lookup(Retained(m, retained), k)
    {
      KeptLookup(m, names, |names|, retained, k);
    }
    MapsEqual(Kept(m, names, |names|, retained), Retained(m, retained));
  }

  /** Every retained entry is as it was, and nothing is new. */
  ghost predicate Spares<V>(was: map<Text, V>, now: map<Text, V>, retained: set<Text>)
  {
    now.Keys <= was.Keys && forall k | k in retained :: Lookup(now, k) == Lookup(was, k)
  }

  /** A partly collected directory, even with the next candidate damaged, spares what is retained. */
  lemma KeptSpares<V>(m: map<Text, V>, names: seq<Text>, i: nat, retained: set<Text>)
    requires i <= |names| && Lists(names, m.Keys)
    ensures Spares(m, Kept(m, names, i, retained), retained)
  {
    var now := Kept(m, names, i, retained);
    forall k ensures k in retained ==> Lookup(now, k) == Lookup(m, k)
      ensures k in now ==> k in m
    {
      KeptLookup(m, names, i, retained, k);
    }
  }

  lemma DamagedSpares<V>(m: map<Text, V>, names: seq<Text>, i: nat, retained: set<Text>, v: V)
    requires i < |names| && Lists(names, m.Keys) && names[i] !in retained
    ensures Spares(m, Kept(m, names, i, retained)[names[i] := v], retained)
  {
    KeptSpares(m, names, i, retained);
    ListedMember(names, i, |names|);
    var now := Kept(m, names, i, retained);
    forall k | k in retained ensures Lookup(now[names[i] := v], k) == Lookup(m, k)
    {
      assert Lookup(now, k) == Lookup(m, k);
    }
  }

  /** What a run over a directory leaves: at most candidates are gone or damaged, and a complete
      executed run leaves exactly the retained entries. */
  ghost predicate Collected<V>(was: map<Text, V>, now: map<Text, V>, retained: set<Text>, execute: bool, complete: bool)
  {
    match execute
    case false => now == was
    case true => Spares(was, now, retained) && (complete ==> now == Retained(was, retained))
  }

  lemma NothingCollected<V>(m: map<Text, V>, retained: set<Text>, execute: bool)
    ensures Collected(m, m, retained, execute, false)
  {
  }

  lemma CollectedInPart<V>(was: map<Text, V>, now: map<Text, V>, retained: set<Text>, execute: bool)
    requires Collected(was, now, retained, execute, true)
    ensures Collected(was, now, retained, execute, false)
  {
  }

  lemma CollectedSoFar<V>(m: map<Text, V>, names: seq<Text>, i: nat, retained: set<Text>, execute: bool)
    requires i <= |names| && Lists(names, m.Keys)
    ensures Collected(m, if execute then Kept(m, names, i, retained) else m, retained, execute, i == |names|)
  {
    KeptSpares(m, names, i, retained);
    if i == |names| {
      KeptAll(m, names, retained);
    }
  }

  lemma CollectedDamaged<V>(m: map<Text, V>, names: seq<Text>, i: nat, retained: set<Text>, v: V)
    requires i < |names| && Lists(names, m.Keys) && names[i] !in retained
    ensures Collected(m, Kept(m, names, i, retained)[names[i] := v], retained, true, false)
  {
    DamagedSpares(m, names, i, retained, v);
  }

  /** An entry is still there when its turn comes. */
  lemma StillListed<V>(m: map<Text, V>, names: seq<Text>, i: nat, retained: set<Text>)
    requires i < |names| && Lists(names, m.Keys)
    ensures names[i] in m && Lookup(Kept(m, names, i, retained), names[i]) == Some(m[names[i]])
  {
    ListedMember(names, i, |names|);
    NotListedYet(names, i, |names|);
    KeptLookup(m, names, i, retained, names[i]);
  }

  lemma {:induction false} MarksListed(names: seq<Text>, i: nat, retained: set<Text>)
    requires i <= |names|
    ensures SumTo(names, i, Marked(retained)) == CountIn(names, i, retained)
    ensures SumTo(names, i, Unmarked(retained)) == i - CountIn(names, i, retained)
  {
    if i > 0 {
      MarksListed(names, i - 1, retained);
    }
  }

  /** The counts are those of the retained and of the other entries. */
  lemma SplitCounts(ks: set<Text>, retained: set<Text>, size: Text -> nat)
    ensures SplitOf(ks, retained, size).retained == |ks * retained|
    ensures SplitOf(ks, retained, size).candidates == |ks - retained|
  {
    ListingExists(ks);
    var names := Enumerate(ks);
    MarksListed(names, |names|, retained);
    CountListed(names, |names|, retained);
  }

  /** The counters of a full run, over any listing, are the split. */
  lemma SplitListed(ks: set<Text>, retained: set<Text>, names: seq<Text>, size: Text -> nat)
    requires Lists(names, ks)
    ensures SplitOf(ks, retained, size) ==
      Split(
        CountIn(names, |names|, retained),
        |names| - CountIn(names, |names|, retained),
        SumTo(names, |names|, Candidates(size, retained)))
  {
    MarksListed(names, |names|, retained);
    SumWhole(names, ks, Marked(retained));
    SumWhole(names, ks, Unmarked(retained));
    SumWhole(names, ks, Candidates(size, retained));
  }

  // ---------- the collection loops over one listing ----------

  function ReadVerdict(h: HashFunction, objects: Objects, k: Text): (r: Result<Bytes, CacheError>)
  {
    if !IsDigest(k) || k !in objects then Failure(UnsafeMetadata)
    else if |objects[k]| > MAX_CIPHERTEXT then Failure(Limit)
    else if h(objects[k]) != k then Failure(HashMismatch)
    else Success(objects[k])
  }

  /** One turn of garbage_collect's object loop: the candidate bytes afterwards. */
  function GcObject(h: HashFunction, objects: Objects, k: Text, retained: set<Text>, bytes: nat): (r: Result<nat, CacheError>)
  {
    match ReadVerdict(h, objects, k)
    case Failure(e) => Failure(e)
    case Success(found) =>
      if k in retained then Success(bytes)
      else if bytes + |found| > U64_MAX then Failure(Limit)
      else Success(bytes + |found|)
  }

  /** The object loop of garbage_collect from position `i`. */
  function GcObjects(h: HashFunction, objects: Objects, names: seq<Text>, retained: set<Text>, i: nat, kept: nat, bytes: nat): (r: Result<(nat, nat), CacheError>)
    requires i <= |names|
    decreases |names| - i
  {
    if i == |names| then Success((kept, bytes))
    else
      match GcObject(h, objects, names[i], retained, bytes)
      case Failure(e) => Failure(e)
      case Success(total) => GcObjects(h, objects, names, retained, i + 1, Tally(kept, names[i], retained), total)
  }

  function Tally(kept: nat, k: Text, retained: set<Text>): (r: nat)
  {
    if k in retained then kept + 1 else kept
  }

  /** One turn of garbage_collect's artifact loop. */
  function GcBundle(artifacts: Artifacts, k: Text, retained: set<Text>, bytes: nat): (r: Result<nat, CacheError>)
  {
    if !IsDigest(k) || k !in artifacts || artifacts[k].Malformed? then Failure(UnsafeMetadata)
    else if !BundleReads(artifacts[k]) then Failure(Limit)
    else if k in retained then Success(bytes)
    else
      var size := |artifacts[k].ciphertext| + |artifacts[k].envelope|;
      if bytes + size > U64_MAX then Failure(Limit) else Success(bytes + size)
  }

  /** The artifact loop of garbage_collect from position `i`. */
  function GcBundles(artifacts: Artifacts, names: seq<Text>, retained: set<Text>, i: nat, kept: nat, bytes: nat): (r: Result<(nat, nat), CacheError>)
    requires i <= |names|
    decreases |names| - i
  {
    if i == |names| then Success((kept, bytes))
    else
      match GcBundle(artifacts, names[i], retained, bytes)
      case Failure(e) => Failure(e)
      case Success(total) => GcBundles(artifacts, names, retained, i + 1, Tally(kept, names[i], retained), total)
  }

  /** A turn depends on nothing but the entry it is about. */
  lemma SameObject(h: HashFunction, a: Objects, b: Objects, k: Text, retained: set<Text>, bytes: nat)
    requires Lookup(a, k) == Lookup(b, k)
    ensures GcObject(h, a, k, retained, bytes) == GcObject(h, b, k, retained, bytes)
  {
  }

  lemma SameBundle(a: Artifacts, b: Artifacts, k: Text, retained: set<Text>, bytes: nat)
    requires Lookup(a, k) == Lookup(b, k)
    ensures GcBundle(a, k, retained, bytes) == GcBundle(b, k, retained, bytes)
  {
  }

  lemma GcObjectCounts(h: HashFunction, objects: Objects, k: Text, retained: set<Text>, bytes: nat)
    ensures var r := GcObject(h, objects, k, retained, bytes); r.Success? ==> r.value == bytes + Candidates(ObjectSize(objects), retained)(k)
  {
  }

  lemma GcBundleCounts(artifacts: Artifacts, k: Text, retained: set<Text>, bytes: nat)
    ensures var r := GcBundle(artifacts, k, retained, bytes); r.Success? ==> r.value == bytes + Candidates(BundleSize(artifacts), retained)(k)
  {
  }

  lemma {:induction false} GcObjectsCounts(h: HashFunction, objects: Objects, names: seq<Text>, retained: set<Text>, i: nat, kept: nat, bytes: nat)
    requires i <= |names| && kept == CountIn(names, i, retained) && bytes == SumTo(names, i, Candidates(ObjectSize(objects), retained))
    requires GcObjects(h, objects, names, retained, i, kept, bytes).Success?
    ensures GcObjects(h, objects, names, retained, i, kept, bytes).value ==
      (CountIn(names, |names|, retained), SumTo(names, |names|, Candidates(ObjectSize(objects), retained)))
    decreases |names| - i
  {
    if i < |names| {
      GcObjectCounts(h, objects, names[i], retained, bytes);
      GcObjectsCounts(h, objects, names, retained, i + 1, Tally(kept, names[i], retained), GcObject(h, objects, names[i], retained, bytes).value);
    }
  }

  lemma {:induction false} GcBundlesCounts(artifacts: Artifacts, names: seq<Text>, retained: set<Text>, base: nat, i: nat, kept: nat, bytes: nat)
    requires i <= |names| && kept == CountIn(names, i, retained) && bytes == base + SumTo(names, i, Candidates(BundleSize(artifacts), retained))
    requires GcBundles(artifacts, names, retained, i, kept, bytes).Success?
    ensures GcBundles(artifacts, names, retained, i, kept, bytes).value ==
      (CountIn(names, |names|, retained), base + SumTo(names, |names|, Candidates(BundleSize(artifacts), retained)))
    decreases |names| - i
  {
    if i < |names| {
      GcBundleCounts(artifacts, names[i], retained, bytes);
      GcBundlesCounts(artifacts, names, retained, base, i + 1, Tally(kept, names[i], retained), GcBundle(artifacts, names[i], retained, bytes).value);
    }
  }

  // ---------- the inventory loops over one listing ----------

  function CountObjects(h: HashFunction, objects: Objects, names: seq<Text>, i: nat, bytes: nat): (r: Result<nat, CacheError>)
    requires i <= |names|
    decreases |names| - i
  {
    if i == |names| then Success(bytes)
    else
      match ReadVerdict(h, objects, names[i])
      case Failure(e) => Failure(e)
      case Success(found) =>
        if bytes + |found| > U64_MAX then Failure(Limit)
        else CountObjects(h, objects, names, i + 1, bytes + |found|)
  }

  function CountBundles(artifacts: Artifacts, names: seq<Text>, i: nat, ciphertexts: nat, envelopes: nat): (r: Result<(nat, nat), CacheError>)
    requires i <= |names|
    decreases |names| - i
  {
    if i == |names| then Success((ciphertexts, envelopes))
    else if !IsDigest(names[i]) || names[i] !in artifacts || artifacts[names[i]].Malformed? then Failure(UnsafeMetadata)
    else if !BundleReads(artifacts[names[i]]) then Failure(Limit)
    else
      var e := artifacts[names[i]];
      if ciphertexts + |e.ciphertext| > U64_MAX || envelopes + |e.envelope| > U64_MAX then Failure(Limit)
      else CountBundles(artifacts, names, i + 1, ciphertexts + |e.ciphertext|, envelopes + |e.envelope|)
  }

  lemma {:induction false} CountObjectsTotals(h: HashFunction, objects: Objects, names: seq<Text>, i: nat, bytes: nat)
    requires i <= |names| && bytes == SumTo(names, i, ObjectSize(objects)) && CountObjects(h, objects, names, i, bytes).Success?
    ensures CountObjects(h, objects, names, i, bytes).value == SumTo(names, |names|, ObjectSize(objects))
    decreases |names| - i
  {
    if i < |names| {
      CountObjectsTotals(h, objects, names, i + 1, bytes + |objects[names[i]]|);
    }
  }

  lemma {:induction false} CountBundlesTotals(artifacts: Artifacts, names: seq<Text>, i: nat, ciphertexts: nat, envelopes: nat)
    requires i <= |names| && ciphertexts == SumTo(names, i, CiphertextSize(artifacts)) && envelopes == SumTo(names, i, EnvelopeSize(artifacts))
    requires CountBundles(artifacts, names, i, ciphertexts, envelopes).Success?
    ensures CountBundles(artifacts, names, i, ciphertexts, envelopes).value ==
      (SumTo(names, |names|, CiphertextSize(artifacts)), SumTo(names, |names|, EnvelopeSize(artifacts)))
    decreases |names| - i
  {
    if i < |names| {
      var e := artifacts[names[i]];
      CountBundlesTotals(artifacts, names, i + 1, ciphertexts + |e.ciphertext|, envelopes + |e.envelope|);
    }
  }

  lemma SplitGrows(ks: set<Text>, k: Text, retained: set<Text>)
    requires k !in ks
    ensures |(ks + {k}) * retained| == |ks * retained| + if k in retained then 1 else 0
    ensures |(ks + {k}) - retained| == |ks - retained| + if k in retained then 0 else 1
  {
    if k in retained {
      assert (ks + {k}) * retained == (ks * retained) + {k};
      assert (ks + {k}) - retained == ks - retained;
    } else {
      assert (ks + {k}) * retained == ks * retained;
      assert (ks + {k}) - retained == (ks - retained) + {k};
    }
  }

  lemma {:induction false} CountListed(names: seq<Text>, i: nat, retained: set<Text>)
    requires i <= |names| && NoRepeats(names, i)
    ensures CountIn(names, i, retained) == |Listed(names, i) * retained|
    ensures i - CountIn(names, i, retained) == |Listed(names, i) - retained|
  {
    if i > 0 {
      CountListed(names, i - 1, retained);
      SplitGrows(Listed(names, i - 1), names[i - 1], retained);
    }
  }

  lemma RetainedCount<V>(m: map<Text, V>, retained: set<Text>)
    ensures |m.Keys| == |Retained(m, retained).Keys| + |m.Keys - retained|
  {
    assert Retained(m, retained).Keys == m.Keys * retained;
    assert m.Keys == (m.Keys * retained) + (m.Keys - retained);
  }

  lemma SplitCovers(ks: set<Text>, retained: set<Text>, size: Text -> nat)
    ensures SplitOf(ks, retained, size).retained + SplitOf(ks, retained, size).candidates == |ks|
  {
    SplitCounts(ks, retained, size);
    assert ks == (ks * retained) + (ks - retained);
  }

  /** Retained and candidate entries together are the inventory. */
  lemma ReportCoversInventory(q: GcRequest, objects: Objects, artifacts: Artifacts)
    ensures var report, inventory := GcReportOf(q, objects, artifacts), InventoryOf(objects, artifacts);
      && report.retainedObjects + report.candidateObjects == inventory.objectCount
      && report.retainedArtifacts + report.candidateArtifacts == inventory.artifactCount
  {
    SplitCovers(objects.Keys, q.retainedObjects, ObjectSize(objects));
    SplitCovers(artifacts.Keys, q.retainedArtifacts, BundleSize(artifacts));
  }

  lemma {:induction false} SumToPoint(names: seq<Text>, i: nat, f: Text -> nat, g: Text -> nat, sum: Text -> nat)
    requires i <= |names| && forall k :: sum(k) == f(k) + g(k)
    ensures SumTo(names, i, sum) == SumTo(names, i, f) + SumTo(names, i, g)
  {
    if i > 0 {
      SumToPoint(names, i - 1, f, g, sum);
    }
  }

  lemma {:induction false} SumToSame(names: seq<Text>, i: nat, f: Text -> nat, g: Text -> nat)
    requires i <= |names| && forall j | 0 <= j < i :: f(names[j]) == g(names[j])
    ensures SumTo(names, i, f) == SumTo(names, i, g)
  {
    if i > 0 {
      SumToSame(names, i - 1, f, g);
    }
  }

  lemma SizeSplits(objects: Objects, retained: set<Text>, k: Text)
    ensures ObjectSize(objects)(k) == Candidates(ObjectSize(objects), retained)(k) + ObjectSize(Retained(objects, retained))(k)
    ensures k !in Retained(objects, retained) ==> ObjectSize(Retained(objects, retained))(k) == 0
  {
  }

  lemma ListedBytesConserved(objects: Objects, retained: set<Text>, names: seq<Text>, rest: seq<Text>)
    requires Lists(names, objects.Keys) && Lists(rest, Retained(objects, retained).Keys)
    ensures SumTo(names, |names|, ObjectSize(objects)) ==
      SumTo(names, |names|, Candidates(ObjectSize(objects), retained)) + SumTo(rest, |rest|, ObjectSize(Retained(objects, retained)))
  {
    var f, g, sum := Candidates(ObjectSize(objects), retained), ObjectSize(Retained(objects, retained)), ObjectSize(objects);
    forall k ensures sum(k) == f(k) + g(k) && (k !in Retained(objects, retained) ==> g(k) == 0)
    {
      SizeSplits(objects, retained, k);
    }
    SumToPoint(names, |names|, f, g, sum);
    SumOverSubset(names, rest, objects.Keys, Retained(objects, retained).Keys, g);
  }

  /** What is collected and what stays add up to what was there. */
  lemma BytesConserved(objects: Objects, retained: set<Text>)
    ensures SumOver(objects.Keys, ObjectSize(objects)) ==
      SumOver(objects.Keys, Candidates(ObjectSize(objects), retained))
      + SumOver(Retained(objects, retained).Keys, ObjectSize(Retained(objects, retained)))
  {
    var kept := Retained(objects, retained);
    ListingExists(objects.Keys);
    ListingExists(kept.Keys);
    ListedBytesConserved(objects, retained, Enumerate(objects.Keys), Enumerate(kept.Keys));
  }

  /** Entries that weigh nothing can be left out of a listing. */
  lemma SumOverSubset(names: seq<Text>, rest: seq<Text>, all: set<Text>, part: set<Text>, size: Text -> nat)
    requires Lists(names, all) && Lists(rest, part) && part <= all
    requires forall k | k !in part :: size(k) == 0
    ensures SumTo(names, |names|, size) == SumTo(rest, |rest|, size)
  {
    SumListed(names, |names|, size);
    SumListed(rest, |rest|, size);
    SetSumSubset(all, part, size);
  }

  lemma {:induction false} SetSumSubset(all: set<Text>, part: set<Text>, size: Text -> nat)
    requires part <= all && forall k | k !in part :: size(k) == 0
    ensures SetSum(all, size) == SetSum(part, size)
    decreases |all - part|
  {
    if all != part {
      var k :| k in all && k !in part;
      SumTake(all, size, k);
      assert all - {k} - part == all - part - {k};
      SetSumSubset(all - {k}, part, size);
    }
  }

  /** A complete object loop counted, over any listing, exactly what the directory holds. */
  lemma ObjectSplitExact(h: HashFunction, objects: Objects, names: seq<Text>, retained: set<Text>, kept: nat, bytes: nat)
    requires Lists(names, objects.Keys) && GcObjects(h, objects, names, retained, 0, 0, 0) == Success((kept, bytes))
    ensures kept <= |names| && ObjectSplit(objects, retained) == Split(kept, |names| - kept, bytes)
  {
    GcObjectsCounts(h, objects, names, retained, 0, 0, 0);
    SplitListed(objects.Keys, retained, names, ObjectSize(objects));
  }

  /** So did a complete artifact loop. */
  lemma BundleSplitExact(artifacts: Artifacts, keys: seq<Text>, retained: set<Text>, base: nat, kept: nat, bytes: nat)
    requires Lists(keys, artifacts.Keys) && GcBundles(artifacts, keys, retained, 0, 0, base) == Success((kept, bytes))
    ensures kept <= |keys| && base <= bytes && BundleSplit(artifacts, retained) == Split(kept, |keys| - kept, bytes - base)
  {
    GcBundlesCounts(artifacts, keys, retained, base, 0, 0, base);
    SplitListed(artifacts.Keys, retained, keys, BundleSize(artifacts));
    assert bytes == base + SumTo(keys, |keys|, Candidates(BundleSize(artifacts), retained));
  }
}
