/** Which artifact an activation uses: the newest verified one for every secret of the phase. */
module ArtifactSelection {
  import opened Prelude
  import opened CacheAddress
  import opened CacheStore
  import opened CacheRecords
  import opened ArtifactPolicy

  /** One activation: whose policy, which phase, and the clock. */
  datatype View = View(w: World, policy: TargetPolicy, fingerprint: Text, phase: Phase, now: nat, skew: nat)

  datatype Reason =
    | LegacyFormat
    | OtherPolicy
    | OtherSource
    | OtherRecipient
    | OtherAddress
    | Unverified
    | NoCandidate

  datatype InspectError =
    | CacheFailed(error: CacheError)
    | NoRecipient
    | NoPolicyHash
    | BadSignerKey
    | EquallyRecent(secret: Text)

  datatype Verdict =
    | Skipped
    | Rejected(secret: Text, reason: Reason)
    | Accepted(secret: Text, generation: nat)
    | Fatal(error: InspectError)

  datatype Candidate = Candidate(key: Text, generation: nat)

  predicate Wanted(v: View, id: Text)
  {
    id in v.policy.secrets && v.policy.secrets[id].phase == v.phase
  }

  function ExpectedFor(v: View, hash: Text, r: Record, m: Manifest): (e: Expected)
    requires m.secretId in v.policy.secrets
  {
    Expected(v.w.toolVersion, hash, v.policy.secrets[m.secretId].ciphertextHash, r.ciphertextHash, v.policy.targetId, m.secretId,
      v.fingerprint, m.generation, v.now, v.skew)
  }

  /** The comparisons made for a manifest of a wanted secret. */
  function JudgeManifest(v: View, r: Record, m: Manifest): (d: Verdict)
    requires m.secretId in v.policy.secrets
  {
    var secret := v.policy.secrets[m.secretId];
    match v.w.policyHash(v.policy, m.secretId)
    case None => Fatal(NoPolicyHash)
    case Some(hash) =>
      if m.artifactPolicyHash != hash then Rejected(m.secretId, OtherPolicy)
      else if m.sourceCiphertextHash != secret.ciphertextHash then Rejected(m.secretId, OtherSource)
      else if m.recipientFingerprint != v.fingerprint then Rejected(m.secretId, OtherRecipient)
      else
        var a := AddressOf(hash, secret.ciphertextHash, v.fingerprint, v.policy.targetId, m.secretId, m.generation);
        if !IsAddress(a) then Skipped
        else if Key(v.w.hash, a) != Some(r.key) then Rejected(m.secretId, OtherAddress)
        else if !KeysParse(v.w, secret.approval) then Fatal(BadSignerKey)
        else if !Verify(v.w, r.envelope, secret.approval, ExpectedFor(v, hash, r, m)) then Rejected(m.secretId, Unverified)
        else Accepted(m.secretId, m.generation)
  }

  /** One record of inspect_activation_artifacts. */
  function Judge(v: View, r: Record): (d: Verdict)
  {
    match v.w.envelope(r.envelope)
    case Unreadable => Skipped
    case Undecodable(legacy) =>
      if legacy.Some? && legacy.value.0 == v.policy.targetId && Wanted(v, legacy.value.1) then Rejected(legacy.value.1, LegacyFormat)
      else Skipped
    case Decoded(m) =>
      if !Wanted(v, m.secretId) || m.targetId != v.policy.targetId then Skipped else JudgeManifest(v, r, m)
  }

  // ---------- the loop ----------

  datatype Progress = Progress(selected: map<Text, Candidate>, rejected: map<Text, set<Reason>>)

  function Reasons(p: Progress, id: Text): (r: set<Reason>)
  {
    if id in p.rejected then p.rejected[id] else {}
  }

  function Take(p: Progress, d: Verdict, key: Text): (r: Result<Progress, InspectError>)
  {
    match d
    case Skipped => Success(p)
    case Rejected(id, reason) => Success(p.(rejected := p.rejected[id := Reasons(p, id) + {reason}]))
    case Fatal(e) => Failure(e)
    case Accepted(id, generation) =>
      if id in p.selected && p.selected[id].generation == generation then Failure(EquallyRecent(id))
      else if id in p.selected && p.selected[id].generation > generation then Success(p)
      else Success(p.(selected := p.selected[id := Candidate(key, generation)]))
  }

  /** The loop after the first `i` listed bundles. */
  function InspectTo(v: View, artifacts: Artifacts, keys: seq<Text>, i: nat): (r: Result<Progress, InspectError>)
    requires i <= |keys|
  {
    if i == 0 then Success(Progress(map[], map[]))
    else
      match InspectTo(v, artifacts, keys, i - 1)
      case Failure(e) => Failure(e)
      case Success(p) => Take(p, JudgeAt(v, artifacts, keys[i - 1]), keys[i - 1])
  }

  function JudgeAt(v: View, artifacts: Artifacts, k: Text): (d: Verdict)
  {
    Judge(v, RecordFor(v.w.hash, artifacts, k))
  }

  // ---------- what selection means ----------

  /** The bundle under `k` verifies as generation `g` of secret `id`. */
  predicate Verifies(v: View, artifacts: Artifacts, k: Text, id: Text, g: nat)
  {
    k in artifacts && JudgeAt(v, artifacts, k) == Accepted(id, g)
  }

  /** For every secret that has a verified artifact, the one of the greatest generation. */
  ghost predicate IsSelection(v: View, artifacts: Artifacts, selected: map<Text, Candidate>)
  {
    && (forall id | id in selected :: Verifies(v, artifacts, selected[id].key, id, selected[id].generation))
    && (forall k, id, g: nat | Verifies(v, artifacts, k, id, g) :: id in selected && (selected[id] == Candidate(k, g) || g < selected[id].generation))
  }

  /** There is only one selection, so the order in which bundles are listed cannot matter. */
  lemma SelectionUnique(v: View, artifacts: Artifacts, one: map<Text, Candidate>, two: map<Text, Candidate>)
    requires IsSelection(v, artifacts, one) && IsSelection(v, artifacts, two)
    ensures one == two
  {
    forall id ensures Lookup(one, id) == Lookup(two, id)
    {
      if id in one {
        assert Verifies(v, artifacts, one[id].key, id, one[id].generation);
      }
      if id in two {
        assert Verifies(v, artifacts, two[id].key, id, two[id].generation);
      }
    }
    MapsEqual(one, two);
  }

  /** What the manifest of an accepted record says. */
  lemma AcceptedManifest(v: View, r: Record, id: Text, g: nat)
    requires Judge(v, r) == Accepted(id, g)
    ensures v.w.envelope(r.envelope).Decoded?
    ensures var m := v.w.envelope(r.envelope).manifest;
      && m.secretId == id && m.targetId == v.policy.targetId && m.generation == g && Wanted(v, id)
      && v.w.policyHash(v.policy, id) == Some(m.artifactPolicyHash)
      && m.sourceCiphertextHash == v.policy.secrets[id].ciphertextHash
      && m.recipientFingerprint == v.fingerprint
      && InWindow(m, v.now, v.skew)
  {
  }

  // ---------- what acceptance and rejection mean ----------

  /** The manifest is about a secret that this activation wants. */
  ghost predicate Concerns(v: View, m: Manifest, id: Text)
  {
    && m.secretId == id && m.targetId == v.policy.targetId
    && id in v.policy.secrets && v.policy.secrets[id].phase == v.phase
  }

  /** It was made for the secret's present policy, source ciphertext and recipient. */
  ghost predicate MadeFor(v: View, m: Manifest, id: Text)
  {
    && id in v.policy.secrets
    && v.w.policyHash(v.policy, id) == Some(m.artifactPolicyHash)
    && m.sourceCiphertextHash == v.policy.secrets[id].ciphertextHash
    && m.recipientFingerprint == v.fingerprint
  }

  /** It is current, by this version of the tool, and about the record's own ciphertext. */
  ghost predicate Attests(v: View, r: Record, m: Manifest)
  {
    m.toolVersion == v.w.toolVersion && m.artifactCiphertextHash == r.ciphertextHash && CurrentAt(m, v.now, v.skew)
  }

  /** A record is accepted as generation `g` of a secret exactly when its decoded manifest is about that
      secret and generation, was made for its present policy, source and recipient, names the address the
      record is stored under and the digest of the record's ciphertext, is current, and is endorsed by
      the threshold of the secret's well-formed signers. */
  lemma AcceptedIff(v: View, r: Record, id: Text, g: nat)
    ensures Judge(v, r) == Accepted(id, g) <==>
      && v.w.envelope(r.envelope).Decoded?
      && var m := v.w.envelope(r.envelope).manifest;
      && Concerns(v, m, id) && m.generation == g && MadeFor(v, m, id) && FiledUnderManifest(v.w, r, m)
      && Attests(v, r, m) && Endorsed(v.w, r.envelope, v.policy.secrets[id].approval)
  {
  }

  ghost predicate AddressIsValid(m: Manifest)
  {
    IsAddress(Address(m.artifactPolicyHash, m.sourceCiphertextHash, m.recipientFingerprint, m.targetId, m.secretId, m.generation))
  }

  /** Why a record is rejected for a secret. */
  ghost predicate RejectedBecause(v: View, r: Record, m: Manifest, id: Text, reason: Reason)
  {
    && Concerns(v, m, id) && v.w.policyHash(v.policy, id).Some?
    && var secret := v.policy.secrets[id];
    match reason
    case OtherPolicy => v.w.policyHash(v.policy, id) != Some(m.artifactPolicyHash)
    case OtherSource =>
      v.w.policyHash(v.policy, id) == Some(m.artifactPolicyHash) && m.sourceCiphertextHash != secret.ciphertextHash
    case OtherRecipient =>
      && v.w.policyHash(v.policy, id) == Some(m.artifactPolicyHash) && m.sourceCiphertextHash == secret.ciphertextHash
      && m.recipientFingerprint != v.fingerprint
    case OtherAddress => MadeFor(v, m, id) && AddressIsValid(m) && !FiledUnderManifest(v.w, r, m)
    case Unverified =>
      && MadeFor(v, m, id) && FiledUnderManifest(v.w, r, m) && (forall s | s in secret.approval.signers :: v.w.keyParses(secret.approval.signers[s]))
      && !(Attests(v, r, m) && Endorsed(v.w, r.envelope, secret.approval))
    case _ => false
  }

  /** A decoded record is rejected for the first comparison that fails; an undecodable one only as a legacy
      record of a wanted secret. */
  lemma RejectedIff(v: View, r: Record, id: Text, reason: Reason)
    ensures Judge(v, r) == Rejected(id, reason) <==>
      match v.w.envelope(r.envelope)
      case Unreadable => false
      case Undecodable(legacy) =>
        && legacy == Some((v.policy.targetId, id)) && reason == LegacyFormat
        && id in v.policy.secrets && v.policy.secrets[id].phase == v.phase
      case Decoded(m) => RejectedBecause(v, r, m, id, reason)
  {
    match v.w.envelope(r.envelope)
    case Unreadable =>
    case Undecodable(_) =>
    case Decoded(m) =>
      if Concerns(v, m, m.secretId) {
        RejectedManifestIff(v, r, m, reason);
      }
  }

  lemma RejectedManifestIff(v: View, r: Record, m: Manifest, reason: Reason)
    requires v.w.envelope(r.envelope) == Decoded(m) && Concerns(v, m, m.secretId)
    ensures JudgeManifest(v, r, m) == Rejected(m.secretId, reason) <==> RejectedBecause(v, r, m, m.secretId, reason)
  {
  }

  /** A record is fatal to an inspection exactly when it is about a wanted secret whose policy hash cannot be
      computed, or would be verified next and one of the secret's signer keys is malformed. */
  lemma FatalIff(v: View, r: Record)
    ensures Judge(v, r).Fatal? <==>
      && v.w.envelope(r.envelope).Decoded?
      && var m := v.w.envelope(r.envelope).manifest;
      && Concerns(v, m, m.secretId)
      && (v.w.policyHash(v.policy, m.secretId) == None
          || (MadeFor(v, m, m.secretId) && FiledUnderManifest(v.w, r, m)
              && exists s :: s in v.policy.secrets[m.secretId].approval.signers && !v.w.keyParses(v.policy.secrets[m.secretId].approval.signers[s])))
  {
  }

  /** The bundle under `k` is a genuine artifact: generation `g` of the wanted secret `id`, as above. */
  ghost predicate Genuine(v: View, artifacts: Artifacts, k: Text, id: Text, g: nat)
  {
    && k in artifacts && artifacts[k].Bundle? && v.w.envelope(artifacts[k].envelope).Decoded?
    && var r, m := RecordOf(v.w.hash, k, artifacts[k]), v.w.envelope(artifacts[k].envelope).manifest;
    && Concerns(v, m, id) && m.generation == g && MadeFor(v, m, id) && FiledUnderManifest(v.w, r, m)
    && m.toolVersion == v.w.toolVersion && m.artifactCiphertextHash == v.w.hash(artifacts[k].ciphertext)
    && CurrentAt(m, v.now, v.skew) && Endorsed(v.w, artifacts[k].envelope, v.policy.secrets[id].approval)
  }

  lemma VerifiesIff(v: View, artifacts: Artifacts, k: Text, id: Text, g: nat)
    requires k in artifacts ==> artifacts[k].Bundle?
    ensures Verifies(v, artifacts, k, id, g) <==> Genuine(v, artifacts, k, id, g)
  {
    if k in artifacts {
      AcceptedIff(v, RecordFor(v.w.hash, artifacts, k), id, g);
    }
  }

  /** The selected artifacts are genuine, and no genuine one of any secret is newer than the selected one. */
  ghost predicate NewestGenuine(v: View, artifacts: Artifacts, selected: map<Text, Candidate>)
  {
    && (forall id | id in selected :: Genuine(v, artifacts, selected[id].key, id, selected[id].generation))
    && (forall k, id, g: nat | Genuine(v, artifacts, k, id, g) :: id in selected && g <= selected[id].generation)
  }

  lemma SelectionIsGenuine(v: View, artifacts: Artifacts, selected: map<Text, Candidate>)
    requires IsSelection(v, artifacts, selected) && forall k | k in artifacts :: artifacts[k].Bundle?
    ensures NewestGenuine(v, artifacts, selected)
  {
    forall id | id in selected ensures Genuine(v, artifacts, selected[id].key, id, selected[id].generation)
    {
      VerifiesIff(v, artifacts, selected[id].key, id, selected[id].generation);
    }
    forall k, id, g: nat | Genuine(v, artifacts, k, id, g) ensures id in selected && g <= selected[id].generation
    {
      VerifiesIff(v, artifacts, k, id, g);
    }
  }

  /** And where the record is stored. */
  lemma AcceptedBinding(v: View, r: Record, id: Text, g: nat)
    requires Judge(v, r) == Accepted(id, g)
    ensures Wanted(v, id) && v.w.policyHash(v.policy, id).Some?
    ensures var hash := v.w.policyHash(v.policy, id).value;
      Key(v.w.hash, AddressOf(hash, v.policy.secrets[id].ciphertextHash, v.fingerprint, v.policy.targetId, id, g)) == Some(r.key)
  {
  }

  /** One secret has one verified artifact per generation. */
  lemma OnePerGeneration(v: View, artifacts: Artifacts, j: Text, k: Text, id: Text, g: nat)
    requires Verifies(v, artifacts, j, id, g) && Verifies(v, artifacts, k, id, g)
    ensures j == k
  {
    AcceptedBinding(v, RecordFor(v.w.hash, artifacts, j), id, g);
    AcceptedBinding(v, RecordFor(v.w.hash, artifacts, k), id, g);
  }

  lemma {:induction false} SelectedSound(v: View, artifacts: Artifacts, keys: seq<Text>, i: nat, id: Text)
    requires i <= |keys| && Listed(keys, i) <= artifacts.Keys && InspectTo(v, artifacts, keys, i).Success?
    requires id in InspectTo(v, artifacts, keys, i).value.selected
    ensures var c := InspectTo(v, artifacts, keys, i).value.selected[id];
      c.key in Listed(keys, i) && Verifies(v, artifacts, c.key, id, c.generation)
  {
    var p := InspectTo(v, artifacts, keys, i - 1).value;
    if id in p.selected {
      SelectedSound(v, artifacts, keys, i - 1, id);
    }
  }

  /** Taking a verdict never lowers a generation, and takes in an accepted one. */
  lemma TakeGrows(p: Progress, d: Verdict, key: Text, id: Text, g: nat)
    requires Take(p, d, key).Success? && (d == Accepted(id, g) || (id in p.selected && g <= p.selected[id].generation))
    ensures var q := Take(p, d, key).value; id in q.selected && g <= q.selected[id].generation
  {
  }

  lemma {:induction false} SelectedMaximal(v: View, artifacts: Artifacts, keys: seq<Text>, i: nat, j: nat, id: Text, g: nat)
    requires j < i <= |keys| && InspectTo(v, artifacts, keys, i).Success? && JudgeAt(v, artifacts, keys[j]) == Accepted(id, g)
    ensures var p := InspectTo(v, artifacts, keys, i).value; id in p.selected && g <= p.selected[id].generation
  {
    if j < i - 1 {
      SelectedMaximal(v, artifacts, keys, i - 1, j, id, g);
    }
    TakeGrows(InspectTo(v, artifacts, keys, i - 1).value, JudgeAt(v, artifacts, keys[i - 1]), keys[i - 1], id, g);
  }

  /** The loop computes the selection. */
  lemma InspectExact(v: View, artifacts: Artifacts, keys: seq<Text>)
    requires Lists(keys, artifacts.Keys) && InspectTo(v, artifacts, keys, |keys|).Success?
    ensures IsSelection(v, artifacts, InspectTo(v, artifacts, keys, |keys|).value.selected)
  {
    var selected := InspectTo(v, artifacts, keys, |keys|).value.selected;
    forall id | id in selected ensures Verifies(v, artifacts, selected[id].key, id, selected[id].generation)
    {
      SelectedSound(v, artifacts, keys, |keys|, id);
    }
    forall k, id, g: nat | Verifies(v, artifacts, k, id, g)
      ensures id in selected && (selected[id] == Candidate(k, g) || g < selected[id].generation)
    {
      var j := ListedIndex(keys, |keys|, k);
      SelectedMaximal(v, artifacts, keys, |keys|, j, id, g);
      if g == selected[id].generation {
        SelectedSound(v, artifacts, keys, |keys|, id);
        OnePerGeneration(v, artifacts, k, selected[id].key, id, g);
      }
    }
  }

  /** The next record is not as recent as the one selected for its secret. */
  lemma NextIsNotEqual(v: View, artifacts: Artifacts, keys: seq<Text>, i: nat)
    requires i < |keys| && NoRepeats(keys, i + 1) && Listed(keys, i + 1) <= artifacts.Keys && InspectTo(v, artifacts, keys, i).Success?
    ensures var t := Take(InspectTo(v, artifacts, keys, i).value, JudgeAt(v, artifacts, keys[i]), keys[i]);
      t.Failure? ==> t.error in {NoPolicyHash, BadSignerKey}
  {
    var d, p := JudgeAt(v, artifacts, keys[i]), InspectTo(v, artifacts, keys, i).value;
    FatalReasons(v, RecordFor(v.w.hash, artifacts, keys[i]));
    if d.Accepted? && d.secret in p.selected && p.selected[d.secret].generation == d.generation {
      SelectedSound(v, artifacts, keys, i, d.secret);
      OnePerGeneration(v, artifacts, keys[i], p.selected[d.secret].key, d.secret, d.generation);
    }
  }

  /** "Multiple equally recent" never happens: one directory has one bundle per key. */
  lemma {:induction false} NeverEquallyRecent(v: View, artifacts: Artifacts, keys: seq<Text>, i: nat)
    requires i <= |keys| && NoRepeats(keys, i) && Listed(keys, i) <= artifacts.Keys
    ensures InspectTo(v, artifacts, keys, i).Failure? ==> InspectTo(v, artifacts, keys, i).error in {NoPolicyHash, BadSignerKey}
  {
    if i > 0 {
      NeverEquallyRecent(v, artifacts, keys, i - 1);
      if InspectTo(v, artifacts, keys, i - 1).Success? {
        NextIsNotEqual(v, artifacts, keys, i - 1);
      }
    }
  }

  lemma FatalReasons(v: View, r: Record)
    ensures Judge(v, r).Fatal? ==> Judge(v, r).error in {NoPolicyHash, BadSignerKey}
  {
  }

  /** Inspection fails exactly when some record is fatal, whatever the order. */
  lemma {:induction false} FailsIffFatal(v: View, artifacts: Artifacts, keys: seq<Text>, i: nat)
    requires i <= |keys| && NoRepeats(keys, i) && Listed(keys, i) <= artifacts.Keys
    ensures InspectTo(v, artifacts, keys, i).Failure? <==> exists k :: k in Listed(keys, i) && JudgeAt(v, artifacts, k).Fatal?
  {
    if i > 0 {
      FailsIffFatal(v, artifacts, keys, i - 1);
      NeverEquallyRecent(v, artifacts, keys, i);
      assert keys[i - 1] in Listed(keys, i);
    }
  }

  /** The reasons given for a secret are those of its rejected candidates. */
  lemma {:induction false} ReasonsExact(v: View, artifacts: Artifacts, keys: seq<Text>, i: nat, id: Text, reason: Reason)
    requires i <= |keys| && InspectTo(v, artifacts, keys, i).Success?
    ensures reason in Reasons(InspectTo(v, artifacts, keys, i).value, id) <==>
      exists k :: k in Listed(keys, i) && JudgeAt(v, artifacts, k) == Rejected(id, reason)
  {
    if i > 0 {
      ReasonsExact(v, artifacts, keys, i - 1, id, reason);
      assert keys[i - 1] in Listed(keys, i);
    }
  }
}
