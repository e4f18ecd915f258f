/** What authorizes an artifact: the plan, its projection for one target, and the signed manifest.
    The hash, signature and identity primitives are unknown functions collected in `World`. */
module ArtifactPolicy {
  import opened Prelude
  import opened CacheAddress
  import opened CacheRecords

  datatype Phase = Partitioning | Users | Activation | Services

  datatype Approval = Approval(signers: map<Text, Text>, threshold: nat)

  datatype PlanSecret = PlanSecret(source: Text, ciphertextHash: Text, phase: Phase, approvalPolicy: Option<Text>)

  /** `targets` names the identity of each target, `identities` the public key of each identity. */
  datatype Plan = Plan(targets: map<Text, Text>, identities: map<Text, Text>, secrets: map<Text, PlanSecret>)

  datatype SecretPolicy = SecretPolicy(source: Text, ciphertextHash: Text, phase: Phase, approval: Approval)

  datatype TargetPolicy = TargetPolicy(targetId: Text, recipient: Text, secrets: map<Text, SecretPolicy>)

  /** The signed fields that are compared with the policy. */
  datatype Manifest = Manifest(
    toolVersion: Text,
    artifactPolicyHash: Text,
    sourceCiphertextHash: Text,
    artifactCiphertextHash: Text,
    targetId: Text,
    secretId: Text,
    recipientFingerprint: Text,
    generation: nat,
    issuedAt: nat,
    expiresAt: Option<nat>)

  datatype Envelope =
    | Unreadable
    | Undecodable(legacy: Option<(Text, Text)>)
    | Decoded(manifest: Manifest)

  datatype World = World(
    hash: HashFunction,
    toolVersion: Text,
    envelope: Bytes -> Envelope,
    signed: (Bytes, set<Text>, nat) -> bool,
    keyParses: Text -> bool,
    fingerprint: Text -> Option<Text>,
    policyHash: (TargetPolicy, Text) -> Option<Text>,
    planValid: Plan -> bool,
    consumes: (Plan, Text, Text) -> bool,
    approval: (Plan, Option<Text>) -> Option<Approval>)

  // ---------- the target's share of the plan ----------

  function ConsumedSecrets(w: World, plan: Plan, target: Text): (r: set<Text>)
  {
    set id | id in plan.secrets && w.consumes(plan, id, target)
  }

  predicate ApprovalsResolve(w: World, plan: Plan, target: Text)
  {
    forall id | id in plan.secrets && w.consumes(plan, id, target) :: w.approval(plan, plan.secrets[id].approvalPolicy).Some?
  }

  function SecretPolicyOf(w: World, plan: Plan, id: Text): (r: SecretPolicy)
    requires id in plan.secrets && w.approval(plan, plan.secrets[id].approvalPolicy).Some?
  {
    var s := plan.secrets[id];
    SecretPolicy(s.source, s.ciphertextHash, s.phase, w.approval(plan, s.approvalPolicy).value)
  }

  /** target_policy */
  function TargetPolicyOf(w: World, plan: Plan, target: Text): (r: Option<TargetPolicy>)
  {
    if !w.planValid(plan) || target !in plan.targets || plan.targets[target] !in plan.identities then None
    else if !ApprovalsResolve(w, plan, target) then None
    else
      Some(TargetPolicy(target, plan.identities[plan.targets[target]],
        map id | id in ConsumedSecrets(w, plan, target) :: SecretPolicyOf(w, plan, id)))
  }

  /** A target policy says nothing about a secret that the plan does not say. */
  lemma PolicyFollowsPlan(w: World, plan: Plan, target: Text, id: Text)
    requires TargetPolicyOf(w, plan, target).Some?
    ensures var policy := TargetPolicyOf(w, plan, target).value;
      && policy.targetId == target && target in plan.targets
      && (id in policy.secrets <==> id in plan.secrets && w.consumes(plan, id, target))
      && (id in policy.secrets ==> policy.secrets[id].source == plan.secrets[id].source)
  {
  }

  /** A target has a policy exactly when the plan is valid, names the target and its identity, and resolves
      the approval of every secret the target consumes. The policy holds the identity's public key and, for
      each consumed secret and no other, what the plan says of it. */
  lemma TargetPolicyIff(w: World, plan: Plan, target: Text)
    ensures TargetPolicyOf(w, plan, target).Some? <==>
      && w.planValid(plan) && target in plan.targets && plan.targets[target] in plan.identities
      && forall id | id in plan.secrets && w.consumes(plan, id, target) ::
           w.approval(plan, plan.secrets[id].approvalPolicy).Some?
    ensures TargetPolicyOf(w, plan, target).Some? ==>
      var policy := TargetPolicyOf(w, plan, target).value;
      && policy.targetId == target && policy.recipient == plan.identities[plan.targets[target]]
      && (forall id :: id in policy.secrets <==> id in plan.secrets && w.consumes(plan, id, target))
      && forall id | id in policy.secrets :: DescribesSecret(w, plan, id, policy.secrets[id])
  {
  }

  ghost predicate DescribesSecret(w: World, plan: Plan, id: Text, s: SecretPolicy)
  {
    && id in plan.secrets
    && s.source == plan.secrets[id].source && s.ciphertextHash == plan.secrets[id].ciphertextHash
    && s.phase == plan.secrets[id].phase && Some(s.approval) == w.approval(plan, plan.secrets[id].approvalPolicy)
  }

  // ---------- verification of one manifest ----------

  /** What a verifier expects; everything but the clock is compared for equality. */
  datatype Expected = Expected(
    toolVersion: Text,
    artifactPolicyHash: Text,
    sourceCiphertextHash: Text,
    artifactCiphertextHash: Text,
    targetId: Text,
    secretId: Text,
    recipientFingerprint: Text,
    generation: nat,
    now: nat,
    allowedClockSkew: nat)

  /** Issued no later than the clock allows, and not expired. */
  predicate InWindow(m: Manifest, now: nat, skew: nat)
  {
    now + skew <= U64_MAX && m.issuedAt <= now + skew && (m.expiresAt.Some? ==> now < m.expiresAt.value)
  }

  /** validate_expected */
  predicate ValidateExpected(m: Manifest, e: Expected)
  {
    && InWindow(m, e.now, e.allowedClockSkew)
    && m.toolVersion == e.toolVersion
    && m.artifactPolicyHash == e.artifactPolicyHash
    && m.sourceCiphertextHash == e.sourceCiphertextHash
    && m.artifactCiphertextHash == e.artifactCiphertextHash
    && m.targetId == e.targetId
    && m.secretId == e.secretId
    && m.recipientFingerprint == e.recipientFingerprint
    && m.generation == e.generation
  }

  /** nix_seal_manifest::verify */
  predicate Verify(w: World, envelope: Bytes, approval: Approval, e: Expected)
  {
    && 0 < approval.threshold <= |approval.signers.Values|
    && w.envelope(envelope).Decoded?
    && ValidateExpected(w.envelope(envelope).manifest, e)
    && w.signed(envelope, approval.signers.Values, approval.threshold)
  }

  predicate KeysParse(w: World, approval: Approval)
  {
    forall id | id in approval.signers :: w.keyParses(approval.signers[id])
  }

  function AddressOf(policyHash: Text, sourceHash: Text, fingerprint: Text, target: Text, secret: Text, generation: nat): (a: Address)
  {
    Address(policyHash, sourceHash, fingerprint, target, secret, generation)
  }

  // ---------- what a verifier is entitled to conclude ----------

  /** Enough of the approval's signers signed the envelope, and every one of their keys is well formed. */
  ghost predicate Endorsed(w: World, envelope: Bytes, approval: Approval)
  {
    && (forall id | id in approval.signers :: w.keyParses(approval.signers[id]))
    && 1 <= approval.threshold <= |approval.signers.Values|
    && w.signed(envelope, approval.signers.Values, approval.threshold)
  }

  /** The record is stored under the key of the address its manifest names. */
  ghost predicate FiledUnderManifest(w: World, r: Record, m: Manifest)
  {
    var a := Address(m.artifactPolicyHash, m.sourceCiphertextHash, m.recipientFingerprint, m.targetId, m.secretId, m.generation);
    IsAddress(a) && Encodable(a) && r.key == w.hash(Preimage(a))
  }

  ghost predicate CurrentAt(m: Manifest, now: nat, skew: nat)
  {
    m.issuedAt <= now + skew <= U64_MAX && (m.expiresAt == None || m.expiresAt.value > now)
  }

  // ---------- the clock ----------

  /** Times a manifest can carry. */
  predicate Dated(m: Manifest)
  {
    m.issuedAt <= U64_MAX && (m.expiresAt.Some? ==> m.expiresAt.value <= U64_MAX)
  }

  predicate Covers(now: nat, skew: nat, later: nat, laterSkew: nat)
  {
    now <= later && later + laterSkew <= now + skew <= U64_MAX
  }

  /** A manifest that one verifier finds current is current for another as well, for every manifest, if
      and only if the other one's clock is not ahead and its latest accepted issue time not earlier. */
  lemma WindowCoveredIff(now: nat, skew: nat, later: nat, laterSkew: nat)
    requires now <= U64_MAX && later + laterSkew <= U64_MAX
    ensures Covers(now, skew, later, laterSkew) <==>
      forall m | Dated(m) && InWindow(m, later, laterSkew) :: InWindow(m, now, skew)
  {
    if !Covers(now, skew, later, laterSkew) {
      var m := Manifest([], [], [], [], [], [], [], 1, 0, None);
      if later < now {
        var expiring := m.(expiresAt := Some(later + 1));
        assert Dated(expiring) && InWindow(expiring, later, laterSkew) && !InWindow(expiring, now, skew);
      } else {
        var latest := m.(issuedAt := later + laterSkew);
        assert Dated(latest) && InWindow(latest, later, laterSkew) && !InWindow(latest, now, skew);
      }
    }
  }
}
