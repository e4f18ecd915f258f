/** cache gc: retention recomputed with memo tables, then a collection of everything else. */
module ArtifactCollection {
  import opened Prelude
  import opened CacheAddress
  import opened CacheStore
  import opened CacheRecords
  import opened CacheRetention
  import opened CacheCollection
  import opened CacheOperations
  import opened ArtifactPolicy
  import opened ArtifactSelection
  import opened ArtifactInspection
  import opened ArtifactRetention

  ghost predicate PoliciesKnown(w: World, plan: Plan, policies: map<Text, TargetPolicy>)
  {
    forall t | t in policies :: TargetPolicyOf(w, plan, t) == Some(policies[t])
  }

  ghost predicate SourcesKnown(plan: Plan, repository: Repository, sources: map<Text, Option<Text>>)
  {
    forall id | id in sources :: id in plan.secrets && sources[id] == repository(plan.secrets[id].source)
  }

  ghost predicate AllUnavailable(sources: map<Text, Option<Text>>, unavailable: set<Text>)
  {
    forall id :: id in unavailable <==> id in sources && sources[id].None?
  }

  /** The tables artifact_is_active fills while the records are visited. */
  class RetentionTables {
    const w: World
    const plan: Plan
    const repository: Repository
    var policies: map<Text, TargetPolicy>
    var sources: map<Text, Option<Text>>
    var unavailable: set<Text>

    ghost predicate Valid()
      reads this
    {
      && PoliciesKnown(w, plan, policies)
      && SourcesKnown(plan, repository, sources)
      && AllUnavailable(sources, unavailable)
    }

    constructor (w: World, plan: Plan, repository: Repository)
      ensures Valid() && this.w == w && this.plan == plan && this.repository == repository && unavailable == {}
    {
      this.w, this.plan, this.repository := w, plan, repository;
      policies, sources, unavailable := map[], map[], {};
    }

    method Policy(target: Text) returns (r: Option<TargetPolicy>)
      requires Valid()
      modifies this`policies
      ensures Valid() && r == TargetPolicyOf(w, plan, target)
    {
      if target in policies {
        return Some(policies[target]);
      }
      r := TargetPolicyOf(w, plan, target);
      if r.Some? {
        policies := policies[target := r.value];
      }
    }

    method Source(id: Text, path: Text) returns (r: Option<Text>)
      requires Valid() && id in plan.secrets && path == plan.secrets[id].source
      modifies this`sources, this`unavailable
      ensures Valid() && r == repository(path)
      ensures unavailable == if r.None? then old(unavailable) + {id} else old(unavailable)
    {
      if id in sources {
        return sources[id];
      }
      r := repository(path);
      if r.None? {
        unavailable := unavailable + {id};
      }
      sources := sources[id := r];
    }

    /** The policy a record has to match. */
    method MatchingPolicy(m: Manifest) returns (r: Option<TargetPolicy>)
      requires Valid()
      modifies this`policies
      ensures Valid() && r == PolicyFor(w, plan, m)
    {
      if m.targetId !in plan.targets || m.secretId !in plan.secrets {
        return None;
      }
      r := Policy(m.targetId);
      if r.None? || m.secretId !in r.value.secrets {
        return None;
      }
      var hash := w.policyHash(r.value, m.secretId);
      if hash != Some(m.artifactPolicyHash) {
        return None;
      }
    }

    /** artifact_is_active: the tables change nothing about its answer, in whatever order records come. */
    method ArtifactIsActive(r: Record, m: Manifest, now: nat) returns (active: bool)
      requires Valid() && w.envelope(r.envelope) == Decoded(m)
      modifies this
      ensures Valid() && active == Active(w, plan, repository, now, r)
      ensures unavailable == if Unavailable(w, plan, repository, r) then old(unavailable) + {Consulted(w, plan, r).value} else old(unavailable)
    {
      var policy := MatchingPolicy(m);
      if policy.None? {
        return false;
      }
      PolicyFollowsPlan(w, plan, m.targetId, m.secretId);
      var source := Source(m.secretId, policy.value.secrets[m.secretId].source);
      if source.None? {
        return false;
      }
      active := ActiveUnder(w, policy.value, source.value, now, r, m);
    }
  }

  /** The secrets some record needs whose canonical ciphertext cannot be read. */
  ghost function UnavailableSecrets(w: World, plan: Plan, repository: Repository, artifacts: Artifacts): (r: set<Text>)
  {
    set id | id in plan.secrets && NeededInVain(w, plan, repository, artifacts, id)
  }

  ghost predicate NeededInVain(w: World, plan: Plan, repository: Repository, artifacts: Artifacts, id: Text)
  {
    exists k :: k in artifacts && UnavailableFor(w, plan, repository, artifacts, k, id)
  }

  predicate UnavailableFor(w: World, plan: Plan, repository: Repository, artifacts: Artifacts, k: Text, id: Text)
  {
    Unavailable(w, plan, repository, RecordFor(w.hash, artifacts, k)) && Consulted(w, plan, RecordFor(w.hash, artifacts, k)) == Some(id)
  }

  lemma {:induction false} UnavailableWitness(w: World, plan: Plan, repository: Repository, artifacts: Artifacts, keys: seq<Text>, i: nat, id: Text) returns (k: Text)
    requires i <= |keys| && id in UnavailableTo(w, plan, repository, artifacts, keys, i)
    ensures k in Listed(keys, i) && UnavailableFor(w, plan, repository, artifacts, k, id)
  {
    if id in UnavailableTo(w, plan, repository, artifacts, keys, i - 1) {
      k := UnavailableWitness(w, plan, repository, artifacts, keys, i - 1, id);
    } else {
      k := keys[i - 1];
    }
  }

  lemma {:induction false} UnavailableCounted(w: World, plan: Plan, repository: Repository, artifacts: Artifacts, keys: seq<Text>, i: nat, j: nat, id: Text)
    requires j < i <= |keys| && UnavailableFor(w, plan, repository, artifacts, keys[j], id)
    ensures id in UnavailableTo(w, plan, repository, artifacts, keys, i)
  {
    if j < i - 1 {
      UnavailableCounted(w, plan, repository, artifacts, keys, i - 1, j, id);
    }
  }

  lemma UnavailableToAll(w: World, plan: Plan, repository: Repository, artifacts: Artifacts, keys: seq<Text>)
    requires Lists(keys, artifacts.Keys)
    ensures UnavailableTo(w, plan, repository, artifacts, keys, |keys|) == UnavailableSecrets(w, plan, repository, artifacts)
  {
    var counted, needed := UnavailableTo(w, plan, repository, artifacts, keys, |keys|), UnavailableSecrets(w, plan, repository, artifacts);
    forall id | id in counted ensures id in needed
    {
      var k := UnavailableWitness(w, plan, repository, artifacts, keys, |keys|, id);
    }
    forall id | id in needed ensures id in counted
    {
      var k :| k in artifacts && UnavailableFor(w, plan, repository, artifacts, k, id);
      var j := ListedIndex(keys, |keys|, k);
      UnavailableCounted(w, plan, repository, artifacts, keys, |keys|, j, id);
    }
  }

  /** The loop of authenticated_gc_retention. */
  method VisitRecords(w: World, plan: Plan, repository: Repository, now: nat, ghost artifacts: Artifacts, ghost keys: seq<Text>, records: seq<Record>)
    returns (active: set<Text>, unavailable: set<Text>)
    requires |records| == |keys| && forall i | 0 <= i < |records| :: records[i] == RecordFor(w.hash, artifacts, keys[i])
    ensures active == ActiveTo(w, plan, repository, now, artifacts, keys, |keys|)
    ensures unavailable == UnavailableTo(w, plan, repository, artifacts, keys, |keys|)
  {
    var tables := new RetentionTables(w, plan, repository);
    active := {};
    var i: nat := 0;
    while i < |records|
      invariant 0 <= i <= |records| && tables.Valid()
      invariant active == ActiveTo(w, plan, repository, now, artifacts, keys, i)
      invariant tables.unavailable == UnavailableTo(w, plan, repository, artifacts, keys, i)
    {
      active := VisitRecord(tables, records[i], now, active, artifacts, keys, i);
      i := i + 1;
    }
    unavailable := tables.unavailable;
  }

  /** One turn of the loop. */
  method VisitRecord(tables: RetentionTables, record: Record, now: nat, active: set<Text>, ghost artifacts: Artifacts, ghost keys: seq<Text>, ghost i: nat)
    returns (next: set<Text>)
    requires tables.Valid() && i < |keys| && record == RecordFor(tables.w.hash, artifacts, keys[i])
    requires active == ActiveTo(tables.w, tables.plan, tables.repository, now, artifacts, keys, i)
    requires tables.unavailable == UnavailableTo(tables.w, tables.plan, tables.repository, artifacts, keys, i)
    modifies tables
    ensures tables.Valid() && next == ActiveTo(tables.w, tables.plan, tables.repository, now, artifacts, keys, i + 1)
    ensures tables.unavailable == UnavailableTo(tables.w, tables.plan, tables.repository, artifacts, keys, i + 1)
  {
    next := active;
    var envelope := tables.w.envelope(record.envelope);
    if envelope.Decoded? {
      var keep := tables.ArtifactIsActive(record, envelope.manifest, now);
      if keep {
        next := next + {record.key};
      }
    }
  }

  /** authenticated_gc_retention */
  method AuthenticatedGcRetention(cache: Cache, w: World, plan: Plan, repository: Repository, now: nat)
    returns (r: Result<(set<Text>, nat), CacheError>)
    requires cache.h == w.hash
    ensures r.Success? ==> r.value.0 == ActiveKeys(w, plan, repository, now, cache.artifacts) && Readable(cache.artifacts)
    ensures r.Success? ==> r.value.1 == |UnavailableSecrets(w, plan, repository, cache.artifacts)|
    ensures r.Failure? && r.error != Io ==> !Readable(cache.artifacts)
    ensures cache.reliable ==> r != Failure(Io)
  {
    var records, keys := ReadRecords(cache);
    if records.Failure? {
      return Failure(records.error);
    }
    var active, unavailable := VisitRecords(w, plan, repository, now, cache.artifacts, keys, records.value);
    ActiveToAll(w, plan, repository, now, cache.artifacts, keys);
    UnavailableToAll(w, plan, repository, cache.artifacts, keys);
    r := Success((active, |unavailable|));
  }

  /** Everything but the given artifacts is collected. */
  method CollectOthers(cache: Cache, active: set<Text>, execute: bool) returns (r: Result<GcReport, CacheError>)
    modifies cache
    ensures r.Success? ==> r.value == GcReportOf(GcRequest(active, {}, execute), old(cache.objects), old(cache.artifacts))
    ensures r.Success? && execute ==> cache.artifacts == Retained(old(cache.artifacts), active) && cache.objects == map[]
    ensures !execute ==> cache.objects == old(cache.objects) && cache.artifacts == old(cache.artifacts)
    ensures Spares(old(cache.artifacts), cache.artifacts, active)
    ensures r.Failure? && r.error != Io ==> !Collectable(cache.h, GcRequest(active, {}, execute), old(cache.objects), old(cache.artifacts))
    ensures Readable(old(cache.artifacts)) ==> (Readable(cache.artifacts) <==> !SomeDamaged(cache.artifacts))
    ensures MayLeave(GcRequest(active, {}, execute), old(cache.artifacts), cache.artifacts) && Shrunk(old(cache.artifacts), cache.artifacts)
    ensures cache.reliable ==> r != Failure(Io)
  {
    r := cache.GarbageCollect(GcRequest(active, {}, execute));
  }

  /** cache_gc: keeps exactly the active artifacts and no generic object; on every exit active
      artifacts are as they were and the others as they were, gone or, at most where the loop stopped,
      half removed. On a cache its reader refuses, be it for one bundle, every run fails. */
  method CacheGc(cache: Cache, w: World, plan: Plan, repository: Repository, now: nat, execute: bool)
    returns (r: Result<GcReport, CacheError>)
    requires cache.h == w.hash
    modifies cache
    ensures r.Success? ==> r.value == GcReportOf(GcRequest(ActiveKeys(w, plan, repository, now, old(cache.artifacts)), {}, execute), old(cache.objects), old(cache.artifacts))
    ensures r.Success? && execute ==> cache.artifacts == Retained(old(cache.artifacts), ActiveKeys(w, plan, repository, now, old(cache.artifacts)))
    ensures r.Success? && execute ==> cache.objects == map[]
    ensures r.Success? && execute ==>
      forall k :: k in cache.artifacts <==> Justified(w, plan, repository, now, old(cache.artifacts), k)
    ensures !execute ==> cache.objects == old(cache.objects) && cache.artifacts == old(cache.artifacts)
    ensures Spares(old(cache.artifacts), cache.artifacts, ActiveKeys(w, plan, repository, now, old(cache.artifacts)))
    ensures r.Failure? && r.error != Io ==>
      !Readable(old(cache.artifacts)) || !Collectable(w.hash, GcRequest(ActiveKeys(w, plan, repository, now, old(cache.artifacts)), {}, execute), old(cache.objects), old(cache.artifacts))
    ensures Readable(old(cache.artifacts)) ==> (Readable(cache.artifacts) <==> !SomeDamaged(cache.artifacts))
    ensures MayLeave(GcRequest(ActiveKeys(w, plan, repository, now, old(cache.artifacts)), {}, execute), old(cache.artifacts), cache.artifacts)
    ensures Shrunk(old(cache.artifacts), cache.artifacts)
    ensures !Readable(old(cache.artifacts)) ==> r.Failure? && cache.artifacts == old(cache.artifacts) && cache.objects == old(cache.objects)
    ensures cache.reliable ==> r != Failure(Io)
  {
    var retention := AuthenticatedGcRetention(cache, w, plan, repository, now);
    if retention.Failure? {
      return Failure(retention.error);
    }
    RetainedIffJustified(w, plan, repository, now, cache.artifacts);
    r := CollectOthers(cache, retention.value.0, execute);
  }
}
