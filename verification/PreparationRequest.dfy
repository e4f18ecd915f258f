/** The request of a preparation: what it names, and everything checked before anything is written. */
module PreparationRequest {
  import opened Prelude
  import opened CacheAddress
  import opened CacheStore
  import opened CacheOperations
  import opened ArtifactPolicy
  import opened ArtifactSelection
  import opened ArtifactInspection
  import opened FullSelection
  import opened Wire
  import opened Transport
  import opened Installation
  import opened PreparedResponse

  datatype TargetRequest = TargetRequest(target: Text, plan: Plan)

  /** The administrator's side: which artifacts may be created, the canonical sources received with the
      request, and the options. */
  datatype Worker = Worker(mayCreate: (TargetPolicy, Text) -> bool, sources: Text -> Option<Text>, generation: Option<nat>, execute: bool)

  datatype Response = Response(prepared: bool, reused: nat, created: nat, wire: seq<WireArtifact>)

  datatype PrepareError =
    | DuplicateTarget(target: Text)
    | NoPolicy(target: Text)
    | WrongSources
    | NotInspected(inspect: InspectError)
    | NotAuthorized(secret: Text)
    | NeedsApprovals(target: Text)
    | SourceChanged(secret: Text)
    | GenerationExhausted
    | NotCreated(cache: CacheError)
    | NotVerified(target: Text)
    | NotPacked(wire: WireError)

  /** Errors that are raised before anything is written. */
  predicate IsRefusal(e: PrepareError)
  {
    e.DuplicateTarget? || e.NoPolicy? || e.WrongSources? || e.NotAuthorized? || e.NeedsApprovals? || e.SourceChanged?
  }

  /** Errors that say nothing about the request or the cache. */
  predicate IsTransient(e: PrepareError)
  {
    match e
    case NotInspected(inspect) => inspect == CacheFailed(Io)
    case NotCreated(cache) => cache.Io?
    case NotPacked(wire) => wire.WireIo?
    case _ => false
  }

  /** Errors over a secret that may not be created. */
  predicate IsDenial(e: PrepareError)
  {
    e.NotAuthorized? || e.NeedsApprovals? || e.SourceChanged?
  }

  // ---------- the request ----------

  /** The policies of the first `i` targets. */
  ghost predicate Resolves(w: World, targets: seq<TargetRequest>, policies: seq<TargetPolicy>, i: nat)
    requires i <= |targets| && i <= |policies|
  {
    i == 0 || (Resolves(w, targets, policies, i - 1) && TargetPolicyOf(w, targets[i - 1].plan, targets[i - 1].target) == Some(policies[i - 1]))
  }

  function SourcesOf(policy: TargetPolicy): (r: set<Text>)
  {
    set id | id in policy.secrets :: policy.secrets[id].source
  }

  function RequiredSources(policies: seq<TargetPolicy>, i: nat): (r: set<Text>)
    requires i <= |policies|
  {
    if i == 0 then {} else RequiredSources(policies, i - 1) + SourcesOf(policies[i - 1])
  }

  function SecretsIn(policies: seq<TargetPolicy>, i: nat): (n: nat)
    requires i <= |policies|
  {
    if i == 0 then 0 else SecretsIn(policies, i - 1) + |policies[i - 1].secrets|
  }

  lemma PrefixSame(policies: seq<TargetPolicy>, policy: TargetPolicy, i: nat)
    requires i <= |policies|
    ensures TargetsTo(policies + [policy], i) == TargetsTo(policies, i)
    ensures DistinctTargets(policies + [policy], i) == DistinctTargets(policies, i)
    ensures RequiredSources(policies + [policy], i) == RequiredSources(policies, i)
  {
    if i > 0 {
      PrefixSame(policies, policy, i - 1);
    }
  }

  lemma ResolvesPrefix(w: World, targets: seq<TargetRequest>, policies: seq<TargetPolicy>, policy: TargetPolicy, i: nat)
    requires i <= |targets| && i <= |policies|
    ensures Resolves(w, targets, policies + [policy], i) == Resolves(w, targets, policies, i)
  {
    if i > 0 {
      ResolvesPrefix(w, targets, policies, policy, i - 1);
    }
  }

  /** The next target of a request. */
  method ResolveTarget(w: World, t: TargetRequest, seen: set<Text>) returns (r: Result<TargetPolicy, PrepareError>)
    ensures r.Success? ==> TargetPolicyOf(w, t.plan, t.target) == Some(r.value) && r.value.targetId == t.target && t.target !in seen
    ensures r.Failure? ==> IsRefusal(r.error) && !IsDenial(r.error)
    ensures r.Failure? ==>
      || (t.target in seen && r.error == DuplicateTarget(t.target))
      || (TargetPolicyOf(w, t.plan, t.target).None? && r.error == NoPolicy(t.target))
  {
    if t.target in seen {
      return Failure(DuplicateTarget(t.target));
    }
    var policy := TargetPolicyOf(w, t.plan, t.target);
    if policy.None? {
      return Failure(NoPolicy(t.target));
    }
    PolicyFollowsPlan(w, t.plan, t.target, []);
    r := Success(policy.value);
  }

  /** The policies read so far, with the names and sources they account for. */
  ghost predicate Accounted(w: World, targets: seq<TargetRequest>, policies: seq<TargetPolicy>, seen: set<Text>, required: set<Text>)
  {
    && |policies| <= |targets| && Resolves(w, targets, policies, |policies|)
    && seen == TargetsTo(policies, |policies|) && DistinctTargets(policies, |policies|)
    && required == RequiredSources(policies, |policies|)
  }

  lemma AccountedNext(w: World, targets: seq<TargetRequest>, policies: seq<TargetPolicy>, seen: set<Text>, required: set<Text>, policy: TargetPolicy)
    requires Accounted(w, targets, policies, seen, required) && |policies| < |targets|
    requires TargetPolicyOf(w, targets[|policies|].plan, targets[|policies|].target) == Some(policy) && policy.targetId !in seen
    ensures Accounted(w, targets, policies + [policy], seen + {policy.targetId}, required + SourcesOf(policy))
  {
    PrefixSame(policies, policy, |policies|);
    ResolvesPrefix(w, targets, policies, policy, |policies|);
  }

  lemma {:induction false} PoliciesUnique(w: World, targets: seq<TargetRequest>, one: seq<TargetPolicy>, two: seq<TargetPolicy>, i: nat)
    requires i <= |targets| && i <= |one| && i <= |two| && Resolves(w, targets, one, i) && Resolves(w, targets, two, i)
    ensures one[..i] == two[..i]
  {
    if i > 0 {
      PoliciesUnique(w, targets, one, two, i - 1);
      assert one[..i] == one[..i - 1] + [one[i - 1]] && two[..i] == two[..i - 1] + [two[i - 1]];
    }
  }

  /** No reading of the request makes its targets distinct and its sources the required ones. */
  ghost predicate Unaccountable(w: World, targets: seq<TargetRequest>, sources: set<Text>)
  {
    forall policies | |policies| == |targets| :: !Accounted(w, targets, policies, TargetsTo(policies, |policies|), sources)
  }

  lemma {:induction false} ResolvesEarlier(w: World, targets: seq<TargetRequest>, policies: seq<TargetPolicy>, i: nat, n: nat)
    requires i <= n <= |targets| && n <= |policies| && Resolves(w, targets, policies, n) && DistinctTargets(policies, n)
    ensures Resolves(w, targets, policies, i) && DistinctTargets(policies, i)
  {
    if i < n {
      ResolvesEarlier(w, targets, policies, i, n - 1);
    }
  }

  lemma {:induction false} TargetsSame(one: seq<TargetPolicy>, two: seq<TargetPolicy>, i: nat)
    requires i <= |one| && i <= |two| && one[..i] == two[..i]
    ensures TargetsTo(one, i) == TargetsTo(two, i)
  {
    if i > 0 {
      assert one[..i - 1] == one[..i][..i - 1] && two[..i - 1] == two[..i][..i - 1];
      assert one[i - 1] == one[..i][i - 1] && two[i - 1] == two[..i][i - 1];
      TargetsSame(one, two, i - 1);
    }
  }

  /** A repeated target or one without a policy spoils the whole request. */
  lemma NextRefused(w: World, targets: seq<TargetRequest>, policies: seq<TargetPolicy>, seen: set<Text>, required: set<Text>, sources: set<Text>)
    requires Accounted(w, targets, policies, seen, required) && |policies| < |targets|
    requires var t := targets[|policies|]; t.target in seen || TargetPolicyOf(w, t.plan, t.target).None?
    ensures Unaccountable(w, targets, sources)
  {
    forall all | |all| == |targets| ensures !Accounted(w, targets, all, TargetsTo(all, |all|), sources)
    {
      if Accounted(w, targets, all, TargetsTo(all, |all|), sources) {
        NextResolved(w, targets, policies, seen, all);
      }
    }
  }

  lemma NextResolved(w: World, targets: seq<TargetRequest>, policies: seq<TargetPolicy>, seen: set<Text>, all: seq<TargetPolicy>)
    requires |policies| < |targets| == |all| && Resolves(w, targets, policies, |policies|) && seen == TargetsTo(policies, |policies|)
    requires Resolves(w, targets, all, |all|) && DistinctTargets(all, |all|)
    ensures var t := targets[|policies|]; t.target !in seen && TargetPolicyOf(w, t.plan, t.target).Some?
  {
    var i := |policies|;
    ResolvesEarlier(w, targets, all, i + 1, |all|);
    PoliciesUnique(w, targets, policies, all, i);
    TargetsSame(policies, all, i);
    PolicyFollowsPlan(w, targets[i].plan, targets[i].target, []);
  }

  lemma SourcesRefused(w: World, targets: seq<TargetRequest>, policies: seq<TargetPolicy>, seen: set<Text>, required: set<Text>, sources: set<Text>)
    requires Accounted(w, targets, policies, seen, required) && |policies| == |targets| && required != sources
    ensures Unaccountable(w, targets, sources)
  {
    forall all | |all| == |targets| ensures !Accounted(w, targets, all, TargetsTo(all, |all|), sources)
    {
      if Resolves(w, targets, all, |all|) {
        PoliciesUnique(w, targets, policies, all, |all|);
        assert policies == policies[..|all|] && all == all[..|all|];
      }
    }
  }

  // ---------- what an accounted request is ----------

  lemma {:induction false} ResolvesIff(w: World, targets: seq<TargetRequest>, policies: seq<TargetPolicy>, i: nat)
    requires i <= |targets| && i <= |policies|
    ensures Resolves(w, targets, policies, i) <==>
      forall j | 0 <= j < i :: TargetPolicyOf(w, targets[j].plan, targets[j].target) == Some(policies[j])
  {
    if i > 0 {
      ResolvesIff(w, targets, policies, i - 1);
    }
  }

  lemma {:induction false} TargetsMember(policies: seq<TargetPolicy>, i: nat, target: Text)
    requires i <= |policies|
    ensures target in TargetsTo(policies, i) <==> exists j | 0 <= j < i :: policies[j].targetId == target
  {
    if i > 0 {
      TargetsMember(policies, i - 1, target);
    }
  }

  lemma {:induction false} DistinctTargetsIff(policies: seq<TargetPolicy>, i: nat)
    requires i <= |policies|
    ensures DistinctTargets(policies, i) <==> forall j, k | 0 <= j < k < i :: policies[j].targetId != policies[k].targetId
  {
    if i > 0 {
      DistinctTargetsIff(policies, i - 1);
      TargetsMember(policies, i - 1, policies[i - 1].targetId);
    }
  }

  /** Some secret of one of the first `i` targets has its canonical ciphertext at `path`. */
  ghost predicate Needs(policies: seq<TargetPolicy>, i: nat, path: Text)
    requires i <= |policies|
  {
    exists j, id :: 0 <= j < i && id in policies[j].secrets && policies[j].secrets[id].source == path
  }

  lemma {:induction false} RequiredIff(policies: seq<TargetPolicy>, i: nat, path: Text)
    requires i <= |policies|
    ensures path in RequiredSources(policies, i) <==> Needs(policies, i, path)
  {
    if i > 0 {
      RequiredIff(policies, i - 1, path);
      if path in SourcesOf(policies[i - 1]) {
        var id :| id in policies[i - 1].secrets && policies[i - 1].secrets[id].source == path;
        assert Needs(policies, i, path);
      }
      if Needs(policies, i - 1, path) {
        var j, id :| 0 <= j < i - 1 && id in policies[j].secrets && policies[j].secrets[id].source == path;
        assert Needs(policies, i, path);
      }
    }
  }

  /** A request is accounted for by the policies that its plans give its targets, if no target is named
      twice and the sources that came with it are exactly those some secret needs. */
  lemma AccountedIff(w: World, targets: seq<TargetRequest>, policies: seq<TargetPolicy>, sources: set<Text>)
    requires |policies| == |targets|
    ensures Accounted(w, targets, policies, TargetsTo(policies, |policies|), sources) <==>
      && (forall i | 0 <= i < |targets| :: TargetPolicyOf(w, targets[i].plan, targets[i].target) == Some(policies[i]))
      && (forall i, j | 0 <= i < j < |targets| :: targets[i].target != targets[j].target)
      && (forall path :: path in sources <==> Needs(policies, |policies|, path))
  {
    var n := |policies|;
    ResolvesIff(w, targets, policies, n);
    if Resolves(w, targets, policies, n) {
      forall i | 0 <= i < n ensures policies[i].targetId == targets[i].target
      {
        PolicyFollowsPlan(w, targets[i].plan, targets[i].target, []);
      }
      DistinctTargetsIff(policies, n);
      forall path ensures path in RequiredSources(policies, n) <==> Needs(policies, n, path)
      {
        RequiredIff(policies, n, path);
      }
      assert RequiredSources(policies, n) == sources <==> forall path :: path in sources <==> path in RequiredSources(policies, n);
    }
  }

  /** What is wrong with a request that is refused before the cache is looked at. */
  ghost predicate RequestFault(w: World, targets: seq<TargetRequest>, sources: set<Text>, e: PrepareError)
  {
    match e
    case DuplicateTarget(t) => exists i, j | 0 <= i < j < |targets| :: targets[i].target == t && targets[j].target == t
    case NoPolicy(t) => exists i | 0 <= i < |targets| :: targets[i].target == t && TargetPolicyOf(w, targets[i].plan, t) == None
    case WrongSources =>
      exists policies, path | |policies| == |targets| ::
        && Resolves(w, targets, policies, |policies|)
        && (path in sources <==> !Needs(policies, |policies|, path))
    case _ => false
  }

  lemma TargetFault(w: World, targets: seq<TargetRequest>, policies: seq<TargetPolicy>, seen: set<Text>, sources: set<Text>, e: PrepareError)
    requires |policies| < |targets| && Resolves(w, targets, policies, |policies|) && seen == TargetsTo(policies, |policies|)
    requires var t := targets[|policies|];
      (t.target in seen && e == DuplicateTarget(t.target))
      || (TargetPolicyOf(w, t.plan, t.target).None? && e == NoPolicy(t.target))
    ensures RequestFault(w, targets, sources, e)
  {
    var i := |policies|;
    if e.DuplicateTarget? {
      TargetsMember(policies, i, targets[i].target);
      var j :| 0 <= j < i && policies[j].targetId == targets[i].target;
      ResolvesIff(w, targets, policies, i);
      PolicyFollowsPlan(w, targets[j].plan, targets[j].target, []);
    }
  }

  lemma SourcesFault(w: World, targets: seq<TargetRequest>, policies: seq<TargetPolicy>, sources: set<Text>)
    requires |policies| == |targets| && Resolves(w, targets, policies, |policies|) && RequiredSources(policies, |policies|) != sources
    ensures RequestFault(w, targets, sources, WrongSources)
  {
    var required := RequiredSources(policies, |policies|);
    var path :| path in sources <==> path !in required;
    RequiredIff(policies, |policies|, path);
  }

  /** materialize_sources: the targets are distinct and the sources are exactly those they need. */
  method CheckRequest(w: World, targets: seq<TargetRequest>, sources: set<Text>) returns (r: Result<seq<TargetPolicy>, PrepareError>)
    ensures r.Success? ==> |r.value| == |targets| && Accounted(w, targets, r.value, TargetsTo(r.value, |r.value|), sources)
    ensures r.Failure? ==> Unaccountable(w, targets, sources) && IsRefusal(r.error) && !IsDenial(r.error)
    ensures r.Failure? ==> RequestFault(w, targets, sources, r.error)
  {
    var policies: seq<TargetPolicy>, seen: set<Text>, required: set<Text> := [], {}, {};
    while |policies| < |targets|
      invariant Accounted(w, targets, policies, seen, required)
      decreases |targets| - |policies|
    {
      var policy := ResolveTarget(w, targets[|policies|], seen);
      if policy.Failure? {
        NextRefused(w, targets, policies, seen, required, sources);
        TargetFault(w, targets, policies, seen, sources, policy.error);
        return Failure(policy.error);
      }
      AccountedNext(w, targets, policies, seen, required, policy.value);
      policies, seen, required := policies + [policy.value], seen + {policy.value.targetId}, required + SourcesOf(policy.value);
    }
    if required != sources {
      SourcesRefused(w, targets, policies, seen, required, sources);
      SourcesFault(w, targets, policies, sources);
      return Failure(WrongSources);
    }
    r := Success(policies);
  }

  // ---------- before anything is written ----------

  /** A secret without an artifact may be given one. */
  predicate Creatable(worker: Worker, policy: TargetPolicy, id: Text)
    requires id in policy.secrets
  {
    && worker.mayCreate(policy, id) && policy.secrets[id].approval.threshold <= 1
    && worker.sources(policy.secrets[id].source) == Some(policy.secrets[id].ciphertextHash)
  }

  ghost predicate CanPrepare(w: World, worker: Worker, policy: TargetPolicy, now: nat, artifacts: Artifacts)
  {
    && ViewOf(w, policy, now).Some?
    && forall id | id in policy.secrets :: SuppliedWith(ViewOf(w, policy, now).value, artifacts, id) || Creatable(worker, policy, id)
  }

  ghost predicate AllPreparable(w: World, worker: Worker, policies: seq<TargetPolicy>, now: nat, artifacts: Artifacts, i: nat)
    requires i <= |policies|
  {
    i == 0 || (AllPreparable(w, worker, policies, now, artifacts, i - 1) && CanPrepare(w, worker, policies[i - 1], now, artifacts))
  }

  /** Why a secret may not be given an artifact: the error is the first reason there is. */
  ghost predicate Denied(worker: Worker, policy: TargetPolicy, id: Text, e: PrepareError)
    requires id in policy.secrets
  {
    var s := policy.secrets[id];
    match e
    case NotAuthorized(secret) => secret == id && !worker.mayCreate(policy, id)
    case NeedsApprovals(target) => target == policy.targetId && worker.mayCreate(policy, id) && s.approval.threshold >= 2
    case SourceChanged(secret) =>
      secret == id && worker.mayCreate(policy, id) && s.approval.threshold < 2 && worker.sources(s.source) != Some(s.ciphertextHash)
    case _ => false
  }

  ghost predicate Undeniable(worker: Worker, policy: TargetPolicy, id: Text)
    requires id in policy.secrets
  {
    forall e :: !Denied(worker, policy, id, e)
  }

  /** Every secret of every target has a verified artifact, or may be given one by a single approval from
      the ciphertext the policy pins. */
  lemma PreparableIff(w: World, worker: Worker, policies: seq<TargetPolicy>, now: nat, artifacts: Artifacts, i: nat)
    requires i <= |policies|
    ensures AllPreparable(w, worker, policies, now, artifacts, i) <==>
      forall j | 0 <= j < i ::
        && ViewOf(w, policies[j], now).Some?
        && forall id | id in policies[j].secrets ::
             || SuppliedWith(ViewOf(w, policies[j], now).value, artifacts, id)
             || Undeniable(worker, policies[j], id)
  {
    if i > 0 {
      PreparableIff(w, worker, policies, now, artifacts, i - 1);
      var policy := policies[i - 1];
      forall id | id in policy.secrets ensures Creatable(worker, policy, id) <==> Undeniable(worker, policy, id)
      {
        CreatableIff(worker, policy, id);
      }
    }
  }

  lemma CreatableIff(worker: Worker, policy: TargetPolicy, id: Text)
    requires id in policy.secrets
    ensures Creatable(worker, policy, id) <==> Undeniable(worker, policy, id)
  {
    assert Denied(worker, policy, id, NotAuthorized(id)) || Denied(worker, policy, id, NeedsApprovals(policy.targetId))
      || Denied(worker, policy, id, SourceChanged(id)) || Creatable(worker, policy, id);
  }

  /** One missing artifact: may it be created? */
  method CheckSecret(worker: Worker, policy: TargetPolicy, id: Text) returns (r: Option<PrepareError>)
    requires id in policy.secrets
    ensures r.None? <==> Creatable(worker, policy, id)
    ensures r.Some? ==> IsDenial(r.value) && Denied(worker, policy, id, r.value)
  {
    if !worker.mayCreate(policy, id) {
      return Some(NotAuthorized(id));
    }
    if policy.secrets[id].approval.threshold > 1 {
      return Some(NeedsApprovals(policy.targetId));
    }
    if worker.sources(policy.secrets[id].source) != Some(policy.secrets[id].ciphertextHash) {
      return Some(SourceChanged(id));
    }
    r := None;
  }

  method CheckSecrets(worker: Worker, policy: TargetPolicy, selected: map<Text, Candidate>) returns (r: Option<PrepareError>)
    ensures r.Some? ==> IsDenial(r.value)
    ensures r.Some? ==> exists id :: id in policy.secrets && id !in selected && Denied(worker, policy, id, r.value)
    ensures r.None? <==> forall id | id in policy.secrets :: id in selected || Creatable(worker, policy, id)
  {
    var todo := policy.secrets.Keys;
    while todo != {}
      invariant todo <= policy.secrets.Keys
      invariant forall id | id in policy.secrets && id !in todo :: id in selected || Creatable(worker, policy, id)
      decreases |todo|
    {
      var id :| id in todo;
      if id !in selected {
        r := CheckSecret(worker, policy, id);
        if r.Some? {
          return;
        }
      }
      todo := todo - {id};
    }
    r := None;
  }

  lemma SelectedIffSupplied(v: View, artifacts: Artifacts, selected: map<Text, Candidate>, id: Text)
    requires IsFullSelection(v, artifacts, selected)
    ensures id in selected <==> SuppliedWith(v, artifacts, id)
  {
    if id in selected {
      assert VerifiesIn(v, artifacts, selected[id].key, id, selected[id].generation);
    }
  }

  lemma SelectedOrCreatable(v: View, worker: Worker, artifacts: Artifacts, selected: map<Text, Candidate>)
    requires IsFullSelection(v, artifacts, selected)
    ensures (forall id | id in v.policy.secrets :: id in selected || Creatable(worker, v.policy, id))
      <==> (forall id | id in v.policy.secrets :: SuppliedWith(v, artifacts, id) || Creatable(worker, v.policy, id))
  {
    forall id ensures id in selected <==> SuppliedWith(v, artifacts, id)
    {
      SelectedIffSupplied(v, artifacts, selected, id);
    }
  }

  /** The error names a secret of this target that has no verified artifact and may not be given one. */
  ghost predicate TargetDenied(w: World, worker: Worker, policy: TargetPolicy, now: nat, artifacts: Artifacts, e: PrepareError)
  {
    && ViewOf(w, policy, now).Some?
    && exists id :: id in policy.secrets && !SuppliedWith(ViewOf(w, policy, now).value, artifacts, id) && Denied(worker, policy, id, e)
  }

  ghost predicate SomeDenied(w: World, worker: Worker, policies: seq<TargetPolicy>, now: nat, artifacts: Artifacts, e: PrepareError)
  {
    exists j | 0 <= j < |policies| :: TargetDenied(w, worker, policies[j], now, artifacts, e)
  }

  /** The first pass over one target: nothing is written while a target cannot be prepared. */
  method PassTarget(cache: Cache, w: World, worker: Worker, policy: TargetPolicy, now: nat) returns (r: Option<PrepareError>)
    requires cache.h == w.hash
    ensures r.None? ==> CanPrepare(w, worker, policy, now, cache.artifacts)
    ensures r.Some? ==> r.value.NotInspected? || IsDenial(r.value)
    ensures r.Some? && IsDenial(r.value) ==>
      !CanPrepare(w, worker, policy, now, cache.artifacts) && TargetDenied(w, worker, policy, now, cache.artifacts, r.value)
    ensures r.Some? && r.value.NotInspected? && !IsTransient(r.value) ==> Uninspectable(w, policy, now, cache.artifacts)
    ensures cache.reliable && r.Some? ==> !IsTransient(r.value)
  {
    var selected := InspectAll(cache, w, policy, now);
    if selected.Failure? {
      return Some(NotInspected(selected.error));
    }
    r := CheckSecrets(worker, policy, selected.value);
    SelectedOrCreatable(ViewOf(w, policy, now).value, worker, cache.artifacts, selected.value);
    if r.Some? {
      ghost var id :| id in policy.secrets && id !in selected.value && Denied(worker, policy, id, r.value);
      SelectedIffSupplied(ViewOf(w, policy, now).value, cache.artifacts, selected.value, id);
    }
  }

  ghost predicate SomeUninspectable(w: World, policies: seq<TargetPolicy>, now: nat, artifacts: Artifacts)
  {
    exists j | 0 <= j < |policies| :: Uninspectable(w, policies[j], now, artifacts)
  }

  lemma {:induction false} PreparableAt(w: World, worker: Worker, policies: seq<TargetPolicy>, now: nat, artifacts: Artifacts, i: nat, j: nat)
    requires j < i <= |policies| && AllPreparable(w, worker, policies, now, artifacts, i)
    ensures CanPrepare(w, worker, policies[j], now, artifacts)
  {
    if j < i - 1 {
      PreparableAt(w, worker, policies, now, artifacts, i - 1, j);
    }
  }

  method PassTargets(cache: Cache, w: World, worker: Worker, policies: seq<TargetPolicy>, now: nat) returns (r: Option<PrepareError>)
    requires cache.h == w.hash
    ensures r.None? ==> AllPreparable(w, worker, policies, now, cache.artifacts, |policies|)
    ensures r.Some? ==> r.value.NotInspected? || IsDenial(r.value)
    ensures r.Some? && IsDenial(r.value) ==> !AllPreparable(w, worker, policies, now, cache.artifacts, |policies|)
    ensures r.Some? && IsDenial(r.value) ==> SomeDenied(w, worker, policies, now, cache.artifacts, r.value)
    ensures r.Some? && r.value.NotInspected? && !IsTransient(r.value) ==> SomeUninspectable(w, policies, now, cache.artifacts)
    ensures cache.reliable && r.Some? ==> !IsTransient(r.value)
  {
    var i: nat := 0;
    while i < |policies|
      invariant 0 <= i <= |policies| && AllPreparable(w, worker, policies, now, cache.artifacts, i)
    {
      r := PassTarget(cache, w, worker, policies[i], now);
      if r.Some? {
        if AllPreparable(w, worker, policies, now, cache.artifacts, |policies|) {
          PreparableAt(w, worker, policies, now, cache.artifacts, |policies|, i);
        }
        return;
      }
      i := i + 1;
    }
    r := None;
  }

  /** Why the first pass failed; `policies` are those of an accounted request. */
  ghost predicate Justified(w: World, worker: Worker, targets: seq<TargetRequest>, sources: set<Text>, policies: seq<TargetPolicy>,
                            now: nat, artifacts: Artifacts, e: PrepareError)
  {
    if e.NotInspected? then IsTransient(e) || SomeUninspectable(w, policies, now, artifacts)
    else if IsDenial(e) then
      !AllPreparable(w, worker, policies, now, artifacts, |policies|) && SomeDenied(w, worker, policies, now, artifacts, e)
    else
      Unaccountable(w, targets, sources) && RequestFault(w, targets, sources, e)
  }

  /** Everything that is checked before anything is written. */
  method FirstPass(cache: Cache, w: World, worker: Worker, targets: seq<TargetRequest>, sources: set<Text>, now: nat)
    returns (r: Option<PrepareError>, policies: seq<TargetPolicy>)
    requires cache.h == w.hash
    ensures r.None? || policies != [] ==>
      |policies| == |targets| && Accounted(w, targets, policies, TargetsTo(policies, |policies|), sources)
    ensures r.None? ==> AllPreparable(w, worker, policies, now, cache.artifacts, |policies|)
    ensures r.Some? ==> IsRefusal(r.value) || r.value.NotInspected?
    ensures r.Some? ==> Justified(w, worker, targets, sources, policies, now, cache.artifacts, r.value)
    ensures cache.reliable && r.Some? ==> !IsTransient(r.value)
  {
    var checked := CheckRequest(w, targets, sources);
    if checked.Failure? {
      return Some(checked.error), [];
    }
    policies := checked.value;
    r := PassTargets(cache, w, worker, policies, now);
  }

  /** A cache in which nothing is left to do. */
  ghost predicate Complete(w: World, policies: seq<TargetPolicy>, now: nat, artifacts: Artifacts)
  {
    AllWithin(w, policies, artifacts, now, |policies|) && (policies == [] || Readable(artifacts))
  }

  /** Where every target is provided for and the cache reads, only I/O can stop the first pass. */
  lemma ProvidedPasses(w: World, worker: Worker, targets: seq<TargetRequest>, sources: set<Text>, policies: seq<TargetPolicy>,
                       now: nat, artifacts: Artifacts, e: PrepareError)
    requires Complete(w, policies, now, artifacts) && !Unaccountable(w, targets, sources)
    requires Justified(w, worker, targets, sources, policies, now, artifacts, e)
    ensures IsTransient(e)
  {
    if SomeUninspectable(w, policies, now, artifacts) {
      var j :| 0 <= j < |policies| && Uninspectable(w, policies[j], now, artifacts);
      AllWithinAt(w, policies, artifacts, now, |policies|, j);
      ProvidedIsInspectable(w, policies[j], now, artifacts);
    }
    ProvidedIsPreparable(w, worker, policies, now, artifacts, |policies|);
  }

  lemma {:induction false} ProvidedIsPreparable(w: World, worker: Worker, policies: seq<TargetPolicy>, now: nat, artifacts: Artifacts, i: nat)
    requires i <= |policies| && AllWithin(w, policies, artifacts, now, i)
    ensures AllPreparable(w, worker, policies, now, artifacts, i)
  {
    if i > 0 {
      ProvidedIsPreparable(w, worker, policies, now, artifacts, i - 1);
    }
  }
}
