/** Carrying a selection to another machine: bundle, stage, import. */
module Transport {
  import opened Prelude
  import opened CacheAddress
  import opened CacheStore
  import opened CacheRecords
  import opened CacheTransfer
  import opened ArtifactPolicy
  import opened ArtifactSelection
  import opened ArtifactInspection
  import opened FullSelection
  import opened Wire
  import Base64

  const ENTRY_LIMIT: nat := 10_000

  datatype StageError =
    | UnsupportedBundle
    | BadEncoding
    | BadEnvelope
    | BadAddress
    | StageCache(error: CacheError)

  // ---------- staging ----------

  /** A key and the two files that go under it. */
  type Unpacked = Result<(Text, Files), StageError>

  /** The address a manifest names for itself. */
  function ManifestAddress(m: Manifest): (a: Address)
  {
    AddressOf(m.artifactPolicyHash, m.sourceCiphertextHash, m.recipientFingerprint, m.targetId, m.secretId, m.generation)
  }

  /** One artifact of stage_bundle: its key and its bytes. */
  function Unpack(w: World, a: WireArtifact): (r: Unpacked)
  {
    match Base64.Decode(a.envelope)
    case None => Failure(BadEncoding)
    case Some(envelope) =>
      match w.envelope(envelope)
      case Unreadable => Failure(BadEnvelope)
      case Undecodable(_) => Failure(BadEnvelope)
      case Decoded(m) =>
        match Key(w.hash, ManifestAddress(m))
        case None => Failure(BadAddress)
        case Some(key) =>
          match Base64.Decode(a.ciphertext)
          case None => Failure(BadEncoding)
          case Some(ciphertext) => Success((key, Files(ciphertext, envelope)))
  }

  /** put_artifact into the staging cache. */
  function Store(staged: Artifacts, key: Text, f: Files): (r: Result<Artifacts, StageError>)
  {
    if !IsDigest(key) then Failure(StageCache(InvalidAddress))
    else if |f.envelope| > MAX_ENVELOPE then Failure(StageCache(Limit))
    else if key in staged then Failure(StageCache(ArtifactExists))
    else if |f.ciphertext| > MAX_CIPHERTEXT then Failure(StageCache(Limit))
    else Success(staged[key := Bundle(f.ciphertext, f.envelope)])
  }

  /** The staging cache after the first `i` unpacked artifacts. */
  function StoredTo(entries: seq<Unpacked>, i: nat): (r: Result<Artifacts, StageError>)
    requires i <= |entries|
  {
    if i == 0 then Success(map[])
    else
      match StoredTo(entries, i - 1)
      case Failure(e) => Failure(e)
      case Success(staged) =>
        match entries[i - 1]
        case Failure(e) => Failure(e)
        case Success(entry) => Store(staged, entry.0, entry.1)
  }

  function UnpackAll(w: World, wire: seq<WireArtifact>): (r: seq<Unpacked>)
    ensures |r| == |wire| && forall j | 0 <= j < |r| :: r[j] == Unpack(w, wire[j])
  {
    seq(|wire|, j requires 0 <= j < |wire| => Unpack(w, wire[j]))
  }

  /** The staging cache after the first `i` artifacts of a bundle. */
  function StagedTo(w: World, wire: seq<WireArtifact>, i: nat): (r: Result<Artifacts, StageError>)
    requires i <= |wire|
  {
    StoredTo(UnpackAll(w, wire), i)
  }

  /** An artifact unpacks to a key and two files exactly if both texts are strict encodings of the files and the
      envelope's manifest names a valid address with that key. */
  lemma UnpackIff(w: World, a: WireArtifact, key: Text, f: Files)
    ensures Unpack(w, a) == Success((key, f)) <==>
      && Base64.Decode(a.envelope) == Some(f.envelope) && Base64.Decode(a.ciphertext) == Some(f.ciphertext)
      && w.envelope(f.envelope).Decoded?
      && FiledUnderManifest(w, Record(key, w.hash(f.ciphertext), f.envelope, f.ciphertext), w.envelope(f.envelope).manifest)
  {
  }

  /** Storing adds exactly the bundle, under a digest that is free, within 70 MiB and 2 MiB. */
  lemma StoreIff(staged: Artifacts, key: Text, f: Files)
    ensures Store(staged, key, f).Success? <==>
      IsDigest(key) && key !in staged && |f.ciphertext| <= 73_400_320 && |f.envelope| <= 2_097_152
    ensures Store(staged, key, f).Success? ==> Store(staged, key, f).value == staged[key := Bundle(f.ciphertext, f.envelope)]
  {
  }

  /** The artifact was unpacked, and its two files are staged under its key. */
  ghost predicate StagedAs(staged: Artifacts, entry: Unpacked)
  {
    && entry.Success?
    && Lookup(staged, entry.value.0) == Some(Bundle(entry.value.1.ciphertext, entry.value.1.envelope))
  }

  /** What has been staged holds every unpacked artifact so far under its own key, and nothing else. */
  lemma {:induction false} StagedHolds(entries: seq<Unpacked>, i: nat, k: Text)
    requires i <= |entries| && StoredTo(entries, i).Success?
    ensures k in StoredTo(entries, i).value <==> exists j | 0 <= j < i :: entries[j].Success? && entries[j].value.0 == k
    ensures forall j | 0 <= j < i :: StagedAs(StoredTo(entries, i).value, entries[j])
    ensures forall m, j | 0 <= m < j < i :: entries[m].Success? && entries[j].Success? ==> entries[m].value.0 != entries[j].value.0
  {
    if i > 0 {
      StagedHolds(entries, i - 1, k);
      StagedHolds(entries, i - 1, entries[i - 1].value.0);
    }
  }

  // ---------- what a bundle carries ----------

  function FilesOf(e: Entry): (f: Files)
  {
    if e.Bundle? then Files(e.ciphertext, e.envelope) else Files([], [])
  }

  /** The bundle's own manifest names the key it is stored under. */
  predicate Portable(w: World, artifacts: Artifacts, k: Text)
  {
    && k in artifacts && IsDigest(k) && BundleReads(artifacts[k])
    && w.envelope(artifacts[k].envelope).Decoded?
    && Key(w.hash, ManifestAddress(w.envelope(artifacts[k].envelope).manifest)) == Some(k)
  }

  /** The target a bundle's manifest names. */
  function Owner(w: World, artifacts: Artifacts, k: Text): (t: Option<Text>)
  {
    if k in artifacts && artifacts[k].Bundle? && w.envelope(artifacts[k].envelope).Decoded? then
      Some(w.envelope(artifacts[k].envelope).manifest.targetId)
    else None
  }

  predicate Carried(w: World, artifacts: Artifacts, k: Text, a: WireArtifact)
  {
    Portable(w, artifacts, k) && a == EncodeFiles(FilesOf(artifacts[k]))
  }

  /** The wire artifacts are the encodings of the bundles under `keys`. */
  ghost predicate Carries(w: World, artifacts: Artifacts, keys: seq<Text>, wire: seq<WireArtifact>)
  {
    |keys| == |wire| && forall j | 0 <= j < |wire| :: Carried(w, artifacts, keys[j], wire[j])
  }

  /** The directory restricted to the first `i` keys. */
  function Picked(artifacts: Artifacts, keys: seq<Text>, i: nat): (r: Artifacts)
    requires i <= |keys|
  {
    if i == 0 then map[]
    else if keys[i - 1] in artifacts then Picked(artifacts, keys, i - 1)[keys[i - 1] := artifacts[keys[i - 1]]]
    else Picked(artifacts, keys, i - 1)
  }

  lemma {:induction false} PickedLookup(artifacts: Artifacts, keys: seq<Text>, i: nat, k: Text)
    requires i <= |keys|
    ensures Lookup(Picked(artifacts, keys, i), k) == if k in Listed(keys, i) then Lookup(artifacts, k) else None
  {
    if i > 0 {
      PickedLookup(artifacts, keys, i - 1, k);
    }
  }

  lemma UnpacksBack(w: World, artifacts: Artifacts, k: Text)
    requires Portable(w, artifacts, k)
    ensures Unpack(w, EncodeFiles(FilesOf(artifacts[k]))) == Success((k, FilesOf(artifacts[k])))
  {
    Base64.RoundTrip(artifacts[k].ciphertext);
    Base64.RoundTrip(artifacts[k].envelope);
  }

  lemma {:induction false} StoringReproduces(artifacts: Artifacts, keys: seq<Text>, entries: seq<Unpacked>, i: nat)
    requires i <= |keys| && i <= |entries| && NoRepeats(keys, i)
    requires forall j | 0 <= j < i ::
      keys[j] in artifacts && IsDigest(keys[j]) && BundleReads(artifacts[keys[j]]) && entries[j] == Success((keys[j], FilesOf(artifacts[keys[j]])))
    ensures StoredTo(entries, i) == Success(Picked(artifacts, keys, i))
  {
    if i > 0 {
      StoringReproduces(artifacts, keys, entries, i - 1);
      PickedLookup(artifacts, keys, i - 1, keys[i - 1]);
    }
  }

  /** Staging recomputes the same keys with the same bytes and never meets an existing artifact. */
  lemma StagingReproduces(w: World, artifacts: Artifacts, keys: seq<Text>, wire: seq<WireArtifact>)
    requires NoRepeats(keys, |keys|) && Carries(w, artifacts, keys, wire)
    ensures StagedTo(w, wire, |wire|) == Success(Picked(artifacts, keys, |keys|))
  {
    var entries := UnpackAll(w, wire);
    forall j | 0 <= j < |keys|
      ensures keys[j] in artifacts && IsDigest(keys[j]) && BundleReads(artifacts[keys[j]]) && entries[j] == Success((keys[j], FilesOf(artifacts[keys[j]])))
    {
      assert Carried(w, artifacts, keys[j], wire[j]);
      UnpacksBack(w, artifacts, keys[j]);
    }
    StoringReproduces(artifacts, keys, entries, |keys|);
  }

  // ---------- selecting from part of a cache ----------

  lemma PickedPart(artifacts: Artifacts, keys: seq<Text>, i: nat)
    requires i <= |keys|
    ensures PartOf(Picked(artifacts, keys, i), artifacts)
  {
    forall k | k in Picked(artifacts, keys, i) ensures k in artifacts && Picked(artifacts, keys, i)[k] == artifacts[k]
    {
      PickedLookup(artifacts, keys, i, k);
    }
  }

  /** Verification looks at one bundle only. */
  lemma VerifiesByEntry(v: View, a: Artifacts, b: Artifacts, k: Text, id: Text, g: nat)
    requires Lookup(a, k) == Lookup(b, k)
    ensures VerifiesIn(v, a, k, id, g) <==> VerifiesIn(v, b, k, id, g)
  {
  }

  /** A part of a cache that holds everything selected has the same selection. */
  lemma PartSelects(v: View, part: Artifacts, whole: Artifacts, selected: map<Text, Candidate>)
    requires IsFullSelection(v, whole, selected) && PartOf(part, whole)
    requires forall id | id in selected :: selected[id].key in part
    ensures IsFullSelection(v, part, selected)
  {
    forall id | id in selected ensures VerifiesIn(v, part, selected[id].key, id, selected[id].generation)
    {
      VerifiesByEntry(v, part, whole, selected[id].key, id, selected[id].generation);
    }
    forall k, id, g: nat | VerifiesIn(v, part, k, id, g)
      ensures id in selected && (selected[id] == Candidate(k, g) || g < selected[id].generation)
    {
      VerifiesByEntry(v, part, whole, k, id, g);
    }
  }

  /** Transport preserves selection: a bundle that carries at least the selected artifacts of a target
      stages without error, and selecting from the staged cache gives the administrator's selection. */
  lemma TransportKeepsSelection(v: View, artifacts: Artifacts, keys: seq<Text>, wire: seq<WireArtifact>, selected: map<Text, Candidate>)
    requires NoRepeats(keys, |keys|) && Carries(v.w, artifacts, keys, wire)
    requires IsFullSelection(v, artifacts, selected) && forall id | id in selected :: selected[id].key in Listed(keys, |keys|)
    ensures StagedTo(v.w, wire, |wire|).Success?
    ensures IsFullSelection(v, StagedTo(v.w, wire, |wire|).value, selected)
  {
    StagingReproduces(v.w, artifacts, keys, wire);
    var staged := Picked(artifacts, keys, |keys|);
    PickedPart(artifacts, keys, |keys|);
    forall id | id in selected ensures selected[id].key in staged
    {
      assert VerifiesIn(v, artifacts, selected[id].key, id, selected[id].generation);
      PickedLookup(artifacts, keys, |keys|, selected[id].key);
    }
    PartSelects(v, staged, artifacts, selected);
  }

  /** Every verified bundle can be carried. */
  lemma VerifiedIsPortable(v: View, artifacts: Artifacts, k: Text, id: Text, g: nat)
    requires VerifiesIn(v, artifacts, k, id, g) && IsDigest(k) && BundleReads(artifacts[k])
    ensures Portable(v.w, artifacts, k) && Owner(v.w, artifacts, k) == Some(v.policy.targetId)
  {
    var u, r := In(v, v.policy.secrets[id].phase), RecordFor(v.w.hash, artifacts, k);
    AcceptedBinding(u, r, id, g);
    AcceptedManifest(u, r, id, g);
  }

  // ---------- importing ----------

  /** Judgement depends on the key, the envelope and the digest of the ciphertext. */
  lemma JudgesAlike(v: View, r: Record, s: Record)
    requires r.key == s.key && r.envelope == s.envelope && r.ciphertextHash == s.ciphertextHash
    ensures Judge(v, r) == Judge(v, s)
  {
    if v.w.envelope(r.envelope).Decoded? {
      var m := v.w.envelope(r.envelope).manifest;
      if m.secretId in v.policy.secrets {
        JudgesManifestAlike(v, r, s, m);
      }
    }
  }

  lemma JudgesManifestAlike(v: View, r: Record, s: Record, m: Manifest)
    requires r.key == s.key && r.envelope == s.envelope && r.ciphertextHash == s.ciphertextHash && m.secretId in v.policy.secrets
    ensures JudgeManifest(v, r, m) == JudgeManifest(v, s, m)
  {
    forall hash ensures ExpectedFor(v, hash, r, m) == ExpectedFor(v, hash, s, m)
    {
    }
  }

  /** What verifies before an import still verifies after it, even where the destination already had an
      entry of that name. */
  lemma ImportKeepsVerified(v: View, staged: Artifacts, to: Artifacts, k: Text, id: Text, g: nat)
    requires VerifiesIn(v, staged, k, id, g) && staged[k].Bundle?
    requires k in to ==> Agrees(v.w.hash, staged[k], to[k])
    ensures VerifiesIn(v, staged + to, k, id, g)
  {
    var u := In(v, v.policy.secrets[id].phase);
    JudgesAlike(u, RecordFor(v.w.hash, staged, k), RecordFor(v.w.hash, staged + to, k));
  }

  /** Every secret of the target has a verified artifact. */
  ghost predicate Supplied(v: View, artifacts: Artifacts)
  {
    forall id | id in v.policy.secrets :: SuppliedWith(v, artifacts, id)
  }

  ghost predicate SuppliedWith(v: View, artifacts: Artifacts, id: Text)
  {
    exists k, g: nat :: VerifiesIn(v, artifacts, k, id, g)
  }

  /** Every secret of the target has a verified artifact at this clock. */
  ghost predicate Provided(w: World, policy: TargetPolicy, now: nat, artifacts: Artifacts)
  {
    ViewOf(w, policy, now).Some? && Supplied(ViewOf(w, policy, now).value, artifacts)
  }

  lemma CompleteIsSupplied(v: View, artifacts: Artifacts, selected: map<Text, Candidate>)
    requires IsFullSelection(v, artifacts, selected)
    ensures Supplied(v, artifacts) <==> selected.Keys == v.policy.secrets.Keys
  {
    if selected.Keys == v.policy.secrets.Keys {
      forall id | id in v.policy.secrets ensures SuppliedWith(v, artifacts, id)
      {
        assert VerifiesIn(v, artifacts, selected[id].key, id, selected[id].generation);
      }
    }
    if Supplied(v, artifacts) {
      SelectsOwnSecrets(v, artifacts, selected);
      forall id | id in v.policy.secrets ensures id in selected
      {
        assert SuppliedWith(v, artifacts, id);
      }
    }
  }

  lemma AcceptedPrecludesFatal(v: View, r: Record, s: Record, id: Text, g: nat)
    requires Judge(v, r) == Accepted(id, g) && Judge(v, s).Fatal?
    ensures v.w.envelope(s.envelope).Decoded? && v.w.envelope(s.envelope).manifest.secretId != id
  {
  }

  lemma FatalIsWanted(v: View, r: Record)
    requires Judge(v, r).Fatal?
    ensures v.w.envelope(r.envelope).Decoded? && Wanted(v, v.w.envelope(r.envelope).manifest.secretId)
  {
  }

  /** Where every secret is supplied, no record can make inspection fail. */
  lemma SuppliedNeverFatal(v: View, phase: Phase, artifacts: Artifacts, k: Text)
    requires Supplied(v, artifacts)
    ensures !JudgeAt(In(v, phase), artifacts, k).Fatal?
  {
    var u, r := In(v, phase), RecordFor(v.w.hash, artifacts, k);
    if Judge(u, r).Fatal? {
      FatalIsWanted(u, r);
      var id := v.w.envelope(r.envelope).manifest.secretId;
      assert SuppliedWith(v, artifacts, id);
      var j, g: nat :| VerifiesIn(v, artifacts, j, id, g);
      AcceptedPrecludesFatal(u, RecordFor(v.w.hash, artifacts, j), r, id, g);
    }
  }

  /** Importing a complete staged cache supplies the destination, whatever else it holds. */
  lemma ImportSupplies(v: View, staged: Artifacts, to: Artifacts)
    requires Supplied(v, staged) && forall k | k in staged :: staged[k].Bundle?
    requires forall k | k in staged && k in to :: Agrees(v.w.hash, staged[k], to[k])
    ensures Supplied(v, staged + to)
  {
    forall id | id in v.policy.secrets ensures SuppliedWith(v, staged + to, id)
    {
      assert SuppliedWith(v, staged, id);
      var k, g: nat :| VerifiesIn(v, staged, k, id, g);
      ImportKeepsVerified(v, staged, to, k, id, g);
    }
  }

  /** Records that only ever arrive never take a supplied target's artifacts away. */
  lemma GrowthKeepsSupplied(v: View, before: Artifacts, after: Artifacts)
    requires Supplied(v, before) && PartOf(before, after)
    ensures Supplied(v, after)
  {
    forall id | id in v.policy.secrets ensures SuppliedWith(v, after, id)
    {
      assert SuppliedWith(v, before, id);
      var k, g: nat :| VerifiesIn(v, before, k, id, g);
      VerifiesByEntry(v, before, after, k, id, g);
    }
  }
}
