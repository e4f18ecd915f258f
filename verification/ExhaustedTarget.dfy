/** A concrete plan and cache in which every check passes and nothing is missing, yet no preparation can
    succeed. */
module ExhaustedTarget {
  import opened Prelude
  import opened CacheAddress
  import opened CacheStore
  import opened ArtifactPolicy
  import opened ArtifactSelection
  import opened FullSelection
  import opened CacheOperations
  import opened Ordering
  import opened Wire
  import opened Transport
  import opened Packing
  import opened Installation
  import opened PreparedResponse
  import opened PreparationRequest
  import opened TargetPreparation
  import opened PreparationReasons
  import opened Preparation

  function Zeros(n: nat): (t: Text)
  {
    if n == 0 then [] else Zeros(n - 1) + [48]
  }

  lemma {:induction false} ZerosAreHex(n: nat, i: nat)
    requires i <= n
    ensures |Zeros(n)| == n && IsHex(Zeros(n), i)
  {
    if i > 0 {
      ZerosAreHex(n, i - 1);
      ZeroAt(n, i - 1);
    } else if n > 0 {
      ZerosAreHex(n - 1, 0);
    }
  }

  lemma {:induction false} ZeroAt(n: nat, i: nat)
    requires i < n
    ensures |Zeros(n)| == n && Zeros(n)[i] == 48
  {
    if i < n - 1 {
      ZeroAt(n - 1, i);
    } else if n > 1 {
      ZeroAt(n - 1, 0);
    }
  }

  /** A hash without collisions that takes `x` to `y`. */
  function Exchange(x: Bytes, y: Bytes): (h: HashFunction)
  {
    (b: Bytes) => if b == x then y else if b == y then x else b
  }

  lemma ExchangeHasNoCollision(x: Bytes, y: Bytes)
    ensures !HasCollision(Exchange(x, y))
  {
  }

  const SOLE: Text := [97]

  lemma SoleIsId()
    ensures IsId(SOLE)
  {
    assert SegmentEnd(SOLE, 0) == 1 && SOLE[..1] == SOLE;
  }

  function SolePolicy(): (p: TargetPolicy)
  {
    TargetPolicy(SOLE, SOLE, map[SOLE := SecretPolicy(SOLE, Zeros(64), Activation, Approval(map[SOLE := SOLE], 1))])
  }

  function SolePlan(): (plan: Plan)
  {
    Plan(map[SOLE := SOLE], map[SOLE := SOLE], map[SOLE := PlanSecret(SOLE, Zeros(64), Activation, None)])
  }

  /** The policy is what the plan says of its target. */
  lemma SolePolicyFollows(a: Address)
    ensures TargetPolicyOf(SoleWorld(a), SolePlan(), SOLE) == Some(SolePolicy())
  {
    var w, plan := SoleWorld(a), SolePlan();
    assert plan.targets[SOLE] == SOLE && ConsumedSecrets(w, plan, SOLE) == {SOLE};
    var policy := TargetPolicyOf(w, plan, SOLE).value;
    assert policy.secrets == SolePolicy().secrets;
  }

  /** One target with one secret and every check passing, for an artifact of this address. */
  function SoleWorld(a: Address): (w: World)
  {
    World(Exchange(Preimage(a), Zeros(64)), [],
      _ => Decoded(Manifest([], Zeros(64), Zeros(64), Exchange(Preimage(a), Zeros(64))([]), SOLE, SOLE, Zeros(64), a.generation, 0, None)),
      (_, _, _) => true, _ => true, _ => Some(Zeros(64)), (_, _) => Some(Zeros(64)), _ => true, (_, _, _) => true,
      (_, _) => Some(Approval(map[SOLE := SOLE], 1)))
  }

  lemma OneEmptyBundleReads(k: Text)
    requires IsDigest(k)
    ensures Readable(map[k := Bundle([], [])])
  {
    var artifacts: Artifacts := map[k := Bundle([], [])];
    SumWhole([k], artifacts.Keys, EnvelopeSize(artifacts));
  }

  /** A cache that provides for the plan's target and reads, over a hash without collisions, yet exhausted:
      its one artifact has the last generation. */
  lemma ExhaustedExample() returns (w: World, artifacts: Artifacts)
    ensures TargetPolicyOf(w, SolePlan(), SOLE) == Some(SolePolicy())
    ensures Provided(w, SolePolicy(), 0, artifacts) && Readable(artifacts) && !HasCollision(w.hash)
    ensures Exhausted(w, SolePolicy(), 0, artifacts)
  {
    var a := AddressOf(Zeros(64), Zeros(64), Zeros(64), SOLE, SOLE, U64_MAX);
    w, artifacts := SoleWorld(a), map[Zeros(64) := Bundle([], [])];
    SoleIsAddress();
    SolePolicyFollows(a);
    ExchangeHasNoCollision(Preimage(a), Zeros(64));
    SoleVerifies(w, artifacts, a);
    OneEmptyBundleReads(Zeros(64));
    OnlySecretDecides(w, SolePolicy(), 0, artifacts, Zeros(64), SOLE);
  }

  lemma OnlySecretDecides(w: World, policy: TargetPolicy, now: nat, artifacts: Artifacts, k: Text, id: Text)
    requires policy.secrets.Keys == {id} && ViewOf(w, policy, now).Some? && VerifiesIn(ViewOf(w, policy, now).value, artifacts, k, id, U64_MAX)
    ensures Provided(w, policy, now, artifacts) && Exhausted(w, policy, now, artifacts)
  {
    var v := ViewOf(w, policy, now).value;
    forall other | other in v.policy.secrets ensures SuppliedWith(v, artifacts, other)
    {
      assert other == id;
    }
    assert VerifiesExhausted(v, artifacts);
  }

  lemma SoleIsAddress()
    ensures IsDigest(Zeros(64)) && IsAddress(AddressOf(Zeros(64), Zeros(64), Zeros(64), SOLE, SOLE, U64_MAX))
  {
    ZerosAreHex(64, 64);
    SoleIsId();
  }

  lemma SoleApproved(approval: Approval)
    requires approval == Approval(map[SOLE := SOLE], 1)
    ensures |approval.signers.Values| == 1
  {
    assert SOLE in approval.signers && approval.signers[SOLE] in approval.signers.Values;
    assert approval.signers.Values == {SOLE};
  }

  lemma SoleVerifies(w: World, artifacts: Artifacts, a: Address)
    requires a == AddressOf(Zeros(64), Zeros(64), Zeros(64), SOLE, SOLE, U64_MAX) && IsAddress(a)
    requires w == SoleWorld(a) && artifacts == map[Zeros(64) := Bundle([], [])]
    ensures ViewOf(w, SolePolicy(), 0).Some? && VerifiesIn(ViewOf(w, SolePolicy(), 0).value, artifacts, Zeros(64), SOLE, U64_MAX)
  {
    SoleApproved(Approval(map[SOLE := SOLE], 1));
  }

  // ---------- the request that fails ----------

  function SoleArtifacts(): (artifacts: Artifacts)
  {
    map[Zeros(64) := Bundle([], [])]
  }

  function SoleSelection(): (sel: Selection)
  {
    map[SOLE := Candidate(Zeros(64), U64_MAX)]
  }

  lemma SoleSelects(a: Address)
    requires a == AddressOf(Zeros(64), Zeros(64), Zeros(64), SOLE, SOLE, U64_MAX) && IsAddress(a)
    ensures Selects(SoleWorld(a), SolePolicy(), 0, SoleArtifacts(), SoleSelection())
  {
    var w, artifacts := SoleWorld(a), SoleArtifacts();
    SoleVerifies(w, artifacts, a);
    var v := ViewOf(w, SolePolicy(), 0).value;
    AnyPhase(Activation);
    forall k, id, g: nat | VerifiesIn(v, artifacts, k, id, g) ensures k == Zeros(64) && id == SOLE && g == U64_MAX
    {
      assert k in artifacts;
    }
  }

  lemma SoleFits()
    ensures PlanAdmitted(SoleArtifacts(), [SoleSelection()])
  {
    var artifacts, sel := SoleArtifacts(), SoleSelection();
    var ids, keys := InOrder(sel.Keys), PackedKeys(sel);
    InOrderLists(sel.Keys);
    ListedCount(ids, |ids|);
    assert sel.Keys == {SOLE} && |keys| == 1;
    ListedMember(ids, 0, 1);
    KeyAt(sel, ids, 1, 0);
    FilesAt(artifacts, keys, 1, 0);
    var files := SelectionFiles(artifacts, sel);
    assert Admitted(0, files, 0) && Estimate(files[0]) <= WIRE_LIMIT - SLACK;
    assert [sel][..0] == [] && WireSize(PlanWire(artifacts, [])) == 0;
  }

  lemma SoleSource()
    ensures SourcesOf(SolePolicy()) == {SOLE}
  {
    var policy := SolePolicy();
    assert SOLE in policy.secrets && policy.secrets[SOLE].source == SOLE;
    forall source ensures source in SourcesOf(policy) <==> source == SOLE
    {
      if source == SOLE {
        assert policy.secrets[SOLE].source in SourcesOf(policy);
      }
    }
  }

  lemma SoleAccounted(a: Address)
    ensures Accounted(SoleWorld(a), [TargetRequest(SOLE, SolePlan())], [SolePolicy()], {SOLE}, {SOLE})
    ensures TargetsTo([SolePolicy()], 1) == {SOLE}
  {
    SolePolicyFollows(a);
    var policies := [SolePolicy()];
    assert TargetsTo(policies, 0) == {} && DistinctTargets(policies, 0) && RequiredSources(policies, 0) == {};
    SoleSource();
  }

  lemma SoleTargets(a: Address)
    ensures !Unaccountable(SoleWorld(a), [TargetRequest(SOLE, SolePlan())], {SOLE})
  {
    SoleAccounted(a);
    assert |[SolePolicy()]| == |[TargetRequest(SOLE, SolePlan())]|;
  }

  lemma SoleResolved(a: Address, policies: seq<TargetPolicy>)
    requires |policies| == 1 && Accounted(SoleWorld(a), [TargetRequest(SOLE, SolePlan())], policies, TargetsTo(policies, 1), {SOLE})
    ensures policies == [SolePolicy()]
  {
    SoleAccounted(a);
    AccountedUnique(SoleWorld(a), [TargetRequest(SOLE, SolePlan())], {SOLE}, policies, [SolePolicy()]);
  }

  lemma SoleIsExhausted(a: Address)
    requires a == AddressOf(Zeros(64), Zeros(64), Zeros(64), SOLE, SOLE, U64_MAX) && IsAddress(a)
    ensures !NoneExhausted(SoleWorld(a), [SolePolicy()], 0, SoleArtifacts(), 1)
  {
    SoleVerifies(SoleWorld(a), SoleArtifacts(), a);
    OnlySecretDecides(SoleWorld(a), SolePolicy(), 0, SoleArtifacts(), Zeros(64), SOLE);
  }

  lemma SoleIsComplete(a: Address)
    requires a == AddressOf(Zeros(64), Zeros(64), Zeros(64), SOLE, SOLE, U64_MAX) && IsAddress(a)
    ensures Complete(SoleWorld(a), [SolePolicy()], 0, SoleArtifacts())
  {
    var w, artifacts := SoleWorld(a), SoleArtifacts();
    SoleIsAddress();
    SoleVerifies(w, artifacts, a);
    OnlySecretDecides(w, SolePolicy(), 0, artifacts, Zeros(64), SOLE);
    OneEmptyBundleReads(Zeros(64));
    assert AllWithin(w, [SolePolicy()], artifacts, 0, 0);
  }

  lemma SoleIsPlannable(a: Address)
    requires a == AddressOf(Zeros(64), Zeros(64), Zeros(64), SOLE, SOLE, U64_MAX) && IsAddress(a)
    ensures Plannable(SoleWorld(a), [SolePolicy()], 0, SoleArtifacts())
  {
    var w, policies, artifacts, plan := SoleWorld(a), [SolePolicy()], SoleArtifacts(), [SoleSelection()];
    SoleSelects(a);
    SoleFits();
    assert plan[..0] == [] && AllSelect(w, policies, 0, artifacts, []);
    assert IsPlan(w, policies, 0, artifacts, plan);
  }

  lemma OnlyExhaustion(a: Address, policies: seq<TargetPolicy>, e: PrepareError)
    requires a == AddressOf(Zeros(64), Zeros(64), Zeros(64), SOLE, SOLE, U64_MAX) && IsAddress(a)
    requires policies == [] || policies == [SolePolicy()]
    requires Excused(SoleWorld(a), policies, 0, SoleArtifacts(), e)
    ensures IsTransient(e) || e.GenerationExhausted?
  {
    if policies == [] {
      NothingToExcuse(SoleWorld(a), 0, SoleArtifacts(), e);
    } else {
      SoleIsComplete(a);
      SoleIsPlannable(a);
    }
  }

  /** Everything the request asks for is there and verifies, yet whoever executes it gets an error: I/O
      aside, that the generation is exhausted. */
  method ExhaustedRun(worker: Worker, reliable: bool) returns (r: Result<Response, PrepareError>)
    requires worker.execute
    ensures r.Failure? && (IsTransient(r.error) || r.error.GenerationExhausted?)
    ensures reliable ==> r == Failure(GenerationExhausted)
  {
    var a := AddressOf(Zeros(64), Zeros(64), Zeros(64), SOLE, SOLE, U64_MAX);
    var w := SoleWorld(a);
    SoleIsAddress();
    var cache := new Cache(w.hash, reliable);
    cache.artifacts := SoleArtifacts();
    var policies;
    ghost var sels;
    r, policies, sels := PrepareRequest(cache, w, worker, [TargetRequest(SOLE, SolePlan())], {SOLE}, 0);
    SoleTargets(a);
    if policies != [] || r.Success? {
      SoleResolved(a, policies);
    }
    SoleIsExhausted(a);
    if r.Failure? {
      OnlyExhaustion(a, policies, r.error);
    }
  }
}
