/** Which artifacts garbage collection keeps, and why activation does not notice a collection. */
module ArtifactRetention {
  import opened Prelude
  import opened CacheAddress
  import opened CacheStore
  import opened CacheRecords
  import opened CacheRetention
  import opened CacheCollection
  import opened ArtifactPolicy
  import opened ArtifactSelection

  /** Digests of the canonical ciphertexts in the repository, by path, where they can be read. */
  type Repository = Text -> Option<Text>

  const GC_SKEW: nat := 300

  /** The target policy and policy hash a record has to match, if the plan knows its target and secret. */
  function PolicyFor(w: World, plan: Plan, m: Manifest): (r: Option<TargetPolicy>)
  {
    if m.targetId !in plan.targets || m.secretId !in plan.secrets then None
    else
      match TargetPolicyOf(w, plan, m.targetId)
      case None => None
      case Some(policy) =>
        if m.secretId in policy.secrets && w.policyHash(policy, m.secretId) == Some(m.artifactPolicyHash) then Some(policy) else None
  }

  /** The checks artifact_is_active makes once the policy and the source digest are at hand. */
  predicate ActiveUnder(w: World, policy: TargetPolicy, source: Text, now: nat, r: Record, m: Manifest)
    requires m.secretId in policy.secrets
  {
    match w.fingerprint(policy.recipient)
    case None => false
    case Some(fingerprint) =>
      var a := AddressOf(m.artifactPolicyHash, source, fingerprint, m.targetId, m.secretId, m.generation);
      && m.sourceCiphertextHash == source && m.recipientFingerprint == fingerprint
      && IsAddress(a) && Key(w.hash, a) == Some(r.key)
      && KeysParse(w, policy.secrets[m.secretId].approval)
      && Verify(w, r.envelope, policy.secrets[m.secretId].approval,
          Expected(m.toolVersion, m.artifactPolicyHash, source, r.ciphertextHash, m.targetId, m.secretId, fingerprint, m.generation, now, GC_SKEW))
  }

  /** artifact_is_active, recomputed from scratch. */
  predicate Active(w: World, plan: Plan, repository: Repository, now: nat, r: Record)
  {
    match w.envelope(r.envelope)
    case Unreadable => false
    case Undecodable(_) => false
    case Decoded(m) =>
      match PolicyFor(w, plan, m)
      case None => false
      case Some(policy) =>
        match repository(plan.secrets[m.secretId].source)
        case None => false
        case Some(source) => ActiveUnder(w, policy, source, now, r, m)
  }

  /** The secret whose canonical ciphertext a record makes artifact_is_active look up. */
  function Consulted(w: World, plan: Plan, r: Record): (id: Option<Text>)
  {
    match w.envelope(r.envelope)
    case Unreadable => None
    case Undecodable(_) => None
    case Decoded(m) => if PolicyFor(w, plan, m).Some? then Some(m.secretId) else None
  }

  /** Looked up, but not to be had. */
  predicate Unavailable(w: World, plan: Plan, repository: Repository, r: Record)
  {
    match Consulted(w, plan, r)
    case None => false
    case Some(id) => repository(plan.secrets[id].source).None?
  }

  // ---------- what the collector keeps ----------

  /** The present policy of the manifest's target still gives its secret the hash the manifest was made for. */
  ghost predicate UnderPresentPolicy(w: World, plan: Plan, m: Manifest)
  {
    && m.targetId in plan.targets && m.secretId in plan.secrets && TargetPolicyOf(w, plan, m.targetId).Some?
    && var policy := TargetPolicyOf(w, plan, m.targetId).value;
    m.secretId in policy.secrets && w.policyHash(policy, m.secretId) == Some(m.artifactPolicyHash)
  }

  /** A manifest that the collector keeps: made for the present policy, the ciphertext in the repository and
      the target's recipient, naming the record's address and ciphertext, endorsed, and current with
      five minutes of tolerance. Any version of the tool will do. */
  ghost predicate Justifies(w: World, plan: Plan, repository: Repository, now: nat, r: Record, m: Manifest)
  {
    && UnderPresentPolicy(w, plan, m)
    && var policy := TargetPolicyOf(w, plan, m.targetId).value;
    && repository(plan.secrets[m.secretId].source) == Some(m.sourceCiphertextHash)
    && w.fingerprint(policy.recipient) == Some(m.recipientFingerprint)
    && FiledUnderManifest(w, r, m) && m.artifactCiphertextHash == r.ciphertextHash
    && CurrentAt(m, now, 300) && Endorsed(w, r.envelope, policy.secrets[m.secretId].approval)
  }

  lemma ActiveIff(w: World, plan: Plan, repository: Repository, now: nat, r: Record)
    ensures Active(w, plan, repository, now, r) <==>
      w.envelope(r.envelope).Decoded? && Justifies(w, plan, repository, now, r, w.envelope(r.envelope).manifest)
  {
    match w.envelope(r.envelope)
    case Unreadable =>
    case Undecodable(_) =>
    case Decoded(m) =>
      assert PolicyFor(w, plan, m).Some? <==> UnderPresentPolicy(w, plan, m);
      if UnderPresentPolicy(w, plan, m) && repository(plan.secrets[m.secretId].source).Some? {
        ActiveUnderIff(w, TargetPolicyOf(w, plan, m.targetId).value, repository(plan.secrets[m.secretId].source).value, now, r, m);
      }
  }

  lemma ActiveUnderIff(w: World, policy: TargetPolicy, source: Text, now: nat, r: Record, m: Manifest)
    requires m.secretId in policy.secrets && w.envelope(r.envelope) == Decoded(m)
    ensures ActiveUnder(w, policy, source, now, r, m) <==>
      && source == m.sourceCiphertextHash && w.fingerprint(policy.recipient) == Some(m.recipientFingerprint)
      && FiledUnderManifest(w, r, m) && m.artifactCiphertextHash == r.ciphertextHash
      && CurrentAt(m, now, 300) && Endorsed(w, r.envelope, policy.secrets[m.secretId].approval)
  {
  }

  /** How an activation by a tool of the manifest's own version would see a record at the collector's clock. */
  function CollectorView(w: World, policy: TargetPolicy, m: Manifest, now: nat): (v: View)
    requires m.secretId in policy.secrets
  {
    View(w.(toolVersion := m.toolVersion), policy, m.recipientFingerprint, policy.secrets[m.secretId].phase, now, GC_SKEW)
  }

  /** Where the repository holds the pinned ciphertext, the collector keeps a record exactly when some
      activation of one of the plan's targets would accept it at the collector's clock. */
  lemma ActiveIffAcceptable(w: World, plan: Plan, repository: Repository, now: nat, r: Record, m: Manifest)
    requires w.envelope(r.envelope) == Decoded(m) && TargetPolicyOf(w, plan, m.targetId).Some?
    requires m.secretId in TargetPolicyOf(w, plan, m.targetId).value.secrets
    requires var policy := TargetPolicyOf(w, plan, m.targetId).value;
      repository(policy.secrets[m.secretId].source) == Some(policy.secrets[m.secretId].ciphertextHash)
    ensures var policy := TargetPolicyOf(w, plan, m.targetId).value;
      Active(w, plan, repository, now, r) <==>
        && w.fingerprint(policy.recipient) == Some(m.recipientFingerprint)
        && Judge(CollectorView(w, policy, m, now), r) == Accepted(m.secretId, m.generation)
  {
    var policy := TargetPolicyOf(w, plan, m.targetId).value;
    TargetPolicyIff(w, plan, m.targetId);
    ActiveIff(w, plan, repository, now, r);
    AcceptedIff(CollectorView(w, policy, m, now), r, m.secretId, m.generation);
  }

  /** The collector asks for a secret's canonical ciphertext exactly for decoded manifests made for its
      present policy. */
  lemma UnavailableIff(w: World, plan: Plan, repository: Repository, r: Record, id: Text)
    ensures Unavailable(w, plan, repository, r) && Consulted(w, plan, r) == Some(id) <==>
      && w.envelope(r.envelope).Decoded?
      && var m := w.envelope(r.envelope).manifest;
      m.secretId == id && UnderPresentPolicy(w, plan, m) && repository(plan.secrets[id].source) == None
  {
  }

  /** The bundle under `k` is one a collection keeps. */
  ghost predicate Justified(w: World, plan: Plan, repository: Repository, now: nat, artifacts: Artifacts, k: Text)
  {
    && k in artifacts && artifacts[k].Bundle? && w.envelope(artifacts[k].envelope).Decoded?
    && Justifies(w, plan, repository, now, RecordOf(w.hash, k, artifacts[k]), w.envelope(artifacts[k].envelope).manifest)
  }

  /** What is retained of a readable directory are the bundles whose manifests justify it. */
  lemma RetainedIffJustified(w: World, plan: Plan, repository: Repository, now: nat, artifacts: Artifacts)
    requires forall k | k in artifacts :: artifacts[k].Bundle?
    ensures forall k :: k in Retained(artifacts, ActiveKeys(w, plan, repository, now, artifacts)) <==>
      Justified(w, plan, repository, now, artifacts, k)
  {
    forall k ensures k in Retained(artifacts, ActiveKeys(w, plan, repository, now, artifacts)) <==>
      Justified(w, plan, repository, now, artifacts, k)
    {
      if k in artifacts {
        ActiveIff(w, plan, repository, now, RecordFor(w.hash, artifacts, k));
      }
    }
  }

  // ---------- the loop over one listing ----------

  /** The keys of the active records among the first `i` listed bundles. */
  function ActiveTo(w: World, plan: Plan, repository: Repository, now: nat, artifacts: Artifacts, keys: seq<Text>, i: nat): (r: set<Text>)
    requires i <= |keys|
  {
    if i == 0 then {}
    else
      var before := ActiveTo(w, plan, repository, now, artifacts, keys, i - 1);
      if Active(w, plan, repository, now, RecordFor(w.hash, artifacts, keys[i - 1])) then before + {keys[i - 1]} else before
  }

  function UnavailableTo(w: World, plan: Plan, repository: Repository, artifacts: Artifacts, keys: seq<Text>, i: nat): (r: set<Text>)
    requires i <= |keys|
  {
    if i == 0 then {}
    else
      var before, record := UnavailableTo(w, plan, repository, artifacts, keys, i - 1), RecordFor(w.hash, artifacts, keys[i - 1]);
      if Unavailable(w, plan, repository, record) then before + {Consulted(w, plan, record).value} else before
  }

  /** The keys of all active bundles of a directory. */
  function ActiveKeys(w: World, plan: Plan, repository: Repository, now: nat, artifacts: Artifacts): (r: set<Text>)
  {
    set k | k in artifacts && Active(w, plan, repository, now, RecordFor(w.hash, artifacts, k))
  }

  lemma {:induction false} ActiveToMember(w: World, plan: Plan, repository: Repository, now: nat, artifacts: Artifacts, keys: seq<Text>, i: nat, k: Text)
    requires i <= |keys|
    ensures k in ActiveTo(w, plan, repository, now, artifacts, keys, i) <==>
      k in Listed(keys, i) && Active(w, plan, repository, now, RecordFor(w.hash, artifacts, k))
  {
    if i > 0 {
      ActiveToMember(w, plan, repository, now, artifacts, keys, i - 1, k);
    }
  }

  /** Any listing order gives the same retained keys. */
  lemma ActiveToAll(w: World, plan: Plan, repository: Repository, now: nat, artifacts: Artifacts, keys: seq<Text>)
    requires Lists(keys, artifacts.Keys)
    ensures ActiveTo(w, plan, repository, now, artifacts, keys, |keys|) == ActiveKeys(w, plan, repository, now, artifacts)
  {
    forall k ensures k in ActiveTo(w, plan, repository, now, artifacts, keys, |keys|) <==> k in ActiveKeys(w, plan, repository, now, artifacts)
    {
      ActiveToMember(w, plan, repository, now, artifacts, keys, |keys|, k);
    }
  }

  // ---------- retention against activation ----------

  /** The view of an activation of one of the plan's targets. */
  ghost predicate IsViewOf(v: View, plan: Plan)
  {
    && TargetPolicyOf(v.w, plan, v.policy.targetId) == Some(v.policy)
    && v.w.fingerprint(v.policy.recipient) == Some(v.fingerprint)
  }

  lemma AcceptedChecks(v: View, r: Record, id: Text, g: nat)
    requires Judge(v, r) == Accepted(id, g)
    ensures var m, approval := v.w.envelope(r.envelope).manifest, v.policy.secrets[id].approval;
      && m.generation == g && KeysParse(v.w, approval)
      && IsAddress(AddressOf(m.artifactPolicyHash, v.policy.secrets[id].ciphertextHash, v.fingerprint, m.targetId, id, g))
      && Key(v.w.hash, AddressOf(m.artifactPolicyHash, v.policy.secrets[id].ciphertextHash, v.fingerprint, m.targetId, id, g)) == Some(r.key)
      && Verify(v.w, r.envelope, approval, ExpectedFor(v, m.artifactPolicyHash, r, m))
  {
    AcceptedManifest(v, r, id, g);
  }

  /** The two verifications differ in the tool version they expect and in the clock only. */
  lemma VerifiesAlike(v: View, r: Record, id: Text, g: nat, now: nat)
    requires Judge(v, r) == Accepted(id, g)
    ensures var m := v.w.envelope(r.envelope).manifest;
      Verify(v.w, r.envelope, v.policy.secrets[id].approval,
        Expected(m.toolVersion, m.artifactPolicyHash, v.policy.secrets[id].ciphertextHash, r.ciphertextHash, m.targetId, id, v.fingerprint, g, now, GC_SKEW))
      <==> InWindow(m, now, GC_SKEW)
  {
    AcceptedManifest(v, r, id, g);
    AcceptedChecks(v, r, id, g);
  }

  lemma ActiveUnderPinned(v: View, r: Record, id: Text, g: nat, source: Text, now: nat)
    requires Judge(v, r) == Accepted(id, g) && v.w.fingerprint(v.policy.recipient) == Some(v.fingerprint)
    ensures var m := v.w.envelope(r.envelope).manifest;
      id == m.secretId && id in v.policy.secrets &&
      (ActiveUnder(v.w, v.policy, source, now, r, m) <==> source == v.policy.secrets[id].ciphertextHash && InWindow(m, now, GC_SKEW))
  {
    AcceptedManifest(v, r, id, g);
    AcceptedChecks(v, r, id, g);
    if source == v.policy.secrets[id].ciphertextHash {
      VerifiesAlike(v, r, id, g, now);
    }
  }

  /** A record an activation accepts is retained if and only if the repository still holds the pinned
      ciphertext and the manifest is current for the collector's clock. */
  lemma AcceptedIsActiveIff(v: View, plan: Plan, repository: Repository, r: Record, id: Text, g: nat, now: nat)
    requires IsViewOf(v, plan) && Judge(v, r) == Accepted(id, g)
    ensures id in plan.secrets && id in v.policy.secrets
    ensures Active(v.w, plan, repository, now, r) <==>
      && repository(plan.secrets[id].source) == Some(v.policy.secrets[id].ciphertextHash)
      && InWindow(v.w.envelope(r.envelope).manifest, now, GC_SKEW)
  {
    AcceptedManifest(v, r, id, g);
    PolicyFollowsPlan(v.w, plan, v.policy.targetId, id);
    var source := repository(plan.secrets[id].source);
    assert PolicyFor(v.w, plan, v.w.envelope(r.envelope).manifest) == Some(v.policy);
    if source.Some? {
      ActiveUnderPinned(v, r, id, g, source.value, now);
    }
  }

  /** Every pinned digest is the digest of what the repository holds. */
  ghost predicate RepositoryMatches(policy: TargetPolicy, repository: Repository)
  {
    forall id | id in policy.secrets :: repository(policy.secrets[id].source) == Some(policy.secrets[id].ciphertextHash)
  }

  lemma AcceptedIsRetained(v: View, plan: Plan, repository: Repository, r: Record, id: Text, g: nat, now: nat)
    requires IsViewOf(v, plan) && Judge(v, r) == Accepted(id, g)
    requires RepositoryMatches(v.policy, repository) && Covers(now, GC_SKEW, v.now, v.skew)
    ensures Active(v.w, plan, repository, now, r)
  {
    AcceptedManifest(v, r, id, g);
    PolicyFollowsPlan(v.w, plan, v.policy.targetId, id);
    AcceptedIsActiveIff(v, plan, repository, r, id, g, now);
  }

  /** Collection does not change what verifies. */
  lemma GcKeepsVerified(v: View, plan: Plan, repository: Repository, now: nat, artifacts: Artifacts, k: Text, id: Text, g: nat)
    requires IsViewOf(v, plan) && RepositoryMatches(v.policy, repository) && Covers(now, GC_SKEW, v.now, v.skew)
    ensures Verifies(v, artifacts, k, id, g) <==> Verifies(v, Retained(artifacts, ActiveKeys(v.w, plan, repository, now, artifacts)), k, id, g)
  {
    var kept := Retained(artifacts, ActiveKeys(v.w, plan, repository, now, artifacts));
    if Verifies(v, artifacts, k, id, g) {
      AcceptedIsRetained(v, plan, repository, RecordFor(v.w.hash, artifacts, k), id, g, now);
      assert k in kept && kept[k] == artifacts[k];
    } else if k in kept {
      assert k in artifacts && kept[k] == artifacts[k];
    }
  }

  /** Garbage collection never changes what activation selects: for every target of the plan, phase and
      clock covered by the collector's, the selection before and after is the same. */
  lemma GcKeepsSelection(v: View, plan: Plan, repository: Repository, now: nat, artifacts: Artifacts, selected: map<Text, Candidate>)
    requires IsViewOf(v, plan) && RepositoryMatches(v.policy, repository) && Covers(now, GC_SKEW, v.now, v.skew)
    ensures IsSelection(v, artifacts, selected) <==> IsSelection(v, Retained(artifacts, ActiveKeys(v.w, plan, repository, now, artifacts)), selected)
  {
    var kept := Retained(artifacts, ActiveKeys(v.w, plan, repository, now, artifacts));
    forall k, id, g: nat ensures Verifies(v, artifacts, k, id, g) <==> Verifies(v, kept, k, id, g)
    {
      GcKeepsVerified(v, plan, repository, now, artifacts, k, id, g);
    }
  }

  /** Nor does a collection that was interrupted, if it left no bundle half removed. */
  lemma InterruptionKeepsSelection(v: View, plan: Plan, repository: Repository, now: nat, was: Artifacts, left: Artifacts, selected: map<Text, Candidate>)
    requires IsViewOf(v, plan) && RepositoryMatches(v.policy, repository) && Covers(now, GC_SKEW, v.now, v.skew)
    requires Spares(was, left, ActiveKeys(v.w, plan, repository, now, was)) && Shrunk(was, left) && !SomeDamaged(left)
    ensures IsSelection(v, was, selected) <==> IsSelection(v, left, selected)
  {
    forall k, id, g: nat ensures Verifies(v, was, k, id, g) <==> Verifies(v, left, k, id, g)
    {
      InterruptionKeepsVerified(v, plan, repository, now, was, left, k, id, g);
    }
  }

  lemma InterruptionKeepsVerified(v: View, plan: Plan, repository: Repository, now: nat, was: Artifacts, left: Artifacts, k: Text, id: Text, g: nat)
    requires IsViewOf(v, plan) && RepositoryMatches(v.policy, repository) && Covers(now, GC_SKEW, v.now, v.skew)
    requires Spares(was, left, ActiveKeys(v.w, plan, repository, now, was)) && Shrunk(was, left) && !SomeDamaged(left)
    ensures Verifies(v, was, k, id, g) <==> Verifies(v, left, k, id, g)
  {
    if Verifies(v, was, k, id, g) {
      AcceptedIsRetained(v, plan, repository, RecordFor(v.w.hash, was, k), id, g, now);
      assert k in ActiveKeys(v.w, plan, repository, now, was) && Lookup(left, k) == Lookup(was, k);
    } else if k in left {
      assert !left[k].Malformed?;
      assert k in was && left[k] == was[k];
    }
  }

  /** A collection makes no inspection fail that did not fail before. */
  lemma GcAddsNoFailure(v: View, artifacts: Artifacts, retained: set<Text>, keys: seq<Text>, rest: seq<Text>)
    requires Lists(keys, artifacts.Keys) && Lists(rest, Retained(artifacts, retained).Keys)
    requires InspectTo(v, artifacts, keys, |keys|).Success?
    ensures InspectTo(v, Retained(artifacts, retained), rest, |rest|).Success?
  {
    var kept := Retained(artifacts, retained);
    FailsIffFatal(v, artifacts, keys, |keys|);
    FailsIffFatal(v, kept, rest, |rest|);
    forall k | k in Listed(rest, |rest|) ensures !JudgeAt(v, kept, k).Fatal?
    {
      assert k in Listed(keys, |keys|) && kept[k] == artifacts[k];
    }
  }

  lemma LateIsCollected(v: View, plan: Plan, repository: Repository, now: nat, before: Artifacts, later: Artifacts, k: Text, id: Text, g: nat)
    requires Verifies(v, Retained(later, ActiveKeys(v.w, plan, repository, now, before)), k, id, g)
    ensures k in before && Verifies(v, later, k, id, g)
  {
  }

  /** What the collector asks of an accepted record: the repository still holds the pinned ciphertext and
      the manifest is current for the collector's clock. */
  predicate Retainable(v: View, plan: Plan, repository: Repository, now: nat, artifacts: Artifacts, k: Text, id: Text)
  {
    && id in plan.secrets && id in v.policy.secrets && v.w.envelope(RecordFor(v.w.hash, artifacts, k).envelope).Decoded?
    && repository(plan.secrets[id].source) == Some(v.policy.secrets[id].ciphertextHash)
    && InWindow(v.w.envelope(RecordFor(v.w.hash, artifacts, k).envelope).manifest, now, GC_SKEW)
  }

  /** A verified bundle survives a collection exactly when it was there when retention was computed and is
      retainable. */
  lemma SurvivesIff(v: View, plan: Plan, repository: Repository, now: nat, before: Artifacts, later: Artifacts, k: Text, id: Text, g: nat)
    requires IsViewOf(v, plan) && PartOf(before, later) && Verifies(v, later, k, id, g)
    ensures Verifies(v, Retained(later, ActiveKeys(v.w, plan, repository, now, before)), k, id, g)
      <==> k in before && Retainable(v, plan, repository, now, later, k, id)
  {
    var r := RecordFor(v.w.hash, later, k);
    AcceptedManifest(v, r, id, g);
    AcceptedIsActiveIff(v, plan, repository, r, id, g, now);
    if k in before {
      assert RecordFor(v.w.hash, before, k) == r;
    }
  }

  /** Garbage collection keeps a selection if and only if every selected artifact was there when retention
      was computed, its canonical ciphertext is still the pinned one, and its manifest is current for the
      collector's clock. Nothing is asked of the rest of the policy or of the clocks. */
  lemma GcKeepsSelectionIff(v: View, plan: Plan, repository: Repository, now: nat, before: Artifacts, later: Artifacts, selected: map<Text, Candidate>)
    requires IsViewOf(v, plan) && PartOf(before, later) && IsSelection(v, later, selected)
    ensures IsSelection(v, Retained(later, ActiveKeys(v.w, plan, repository, now, before)), selected)
      <==> forall id | id in selected :: selected[id].key in before && Retainable(v, plan, repository, now, later, selected[id].key, id)
  {
    var kept := Retained(later, ActiveKeys(v.w, plan, repository, now, before));
    forall id | id in selected
      ensures Verifies(v, kept, selected[id].key, id, selected[id].generation)
        <==> selected[id].key in before && Retainable(v, plan, repository, now, later, selected[id].key, id)
    {
      SurvivesIff(v, plan, repository, now, before, later, selected[id].key, id, selected[id].generation);
    }
    forall k, id, g: nat | Verifies(v, kept, k, id, g) ensures k in before && Verifies(v, later, k, id, g)
    {
      LateIsCollected(v, plan, repository, now, before, later, k, id, g);
    }
  }

  lemma CoveredIsRetainable(v: View, plan: Plan, repository: Repository, now: nat, artifacts: Artifacts, k: Text, id: Text, g: nat)
    requires IsViewOf(v, plan) && RepositoryMatches(v.policy, repository) && Covers(now, GC_SKEW, v.now, v.skew)
    requires Verifies(v, artifacts, k, id, g)
    ensures Retainable(v, plan, repository, now, artifacts, k, id)
  {
    AcceptedManifest(v, RecordFor(v.w.hash, artifacts, k), id, g);
    PolicyFollowsPlan(v.w, plan, v.policy.targetId, id);
  }

  /** Retention is computed before the collection takes the lock. If artifacts are published in between,
      the collection preserves the selection if and only if none of the selected ones is among them. */
  lemma LateArtifactsDecide(v: View, plan: Plan, repository: Repository, now: nat, before: Artifacts, later: Artifacts, selected: map<Text, Candidate>)
    requires IsViewOf(v, plan) && RepositoryMatches(v.policy, repository) && Covers(now, GC_SKEW, v.now, v.skew)
    requires PartOf(before, later) && IsSelection(v, later, selected)
    ensures IsSelection(v, Retained(later, ActiveKeys(v.w, plan, repository, now, before)), selected)
      <==> forall id | id in selected :: selected[id].key in before
  {
    GcKeepsSelectionIff(v, plan, repository, now, before, later, selected);
    forall id | id in selected ensures Retainable(v, plan, repository, now, later, selected[id].key, id)
    {
      CoveredIsRetainable(v, plan, repository, now, later, selected[id].key, id, selected[id].generation);
    }
  }
}
