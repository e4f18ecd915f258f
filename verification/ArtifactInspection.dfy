/** inspect_activation_artifacts: reads the cache, judges every bundle and reports readiness. */
module ArtifactInspection {
  import opened Prelude
  import opened CacheAddress
  import opened CacheStore
  import opened CacheLimits
  import opened CacheRecords
  import opened CacheOperations
  import opened ArtifactPolicy
  import opened ArtifactSelection

  datatype Inspection = Inspection(selected: map<Text, Candidate>, required: nat, verified: nat, missing: map<Text, set<Reason>>)

  predicate IsReady(i: Inspection)
  {
    |i.missing| == 0
  }

  function WantedSecrets(v: View): (r: set<Text>)
  {
    set id | id in v.policy.secrets && Wanted(v, id)
  }

  function MissingOf(v: View, p: Progress): (r: map<Text, set<Reason>>)
  {
    map id | id in WantedSecrets(v) - p.selected.Keys :: if id in p.rejected then p.rejected[id] else {NoCandidate}
  }

  function ReportOn(v: View, p: Progress): (r: Inspection)
  {
    Inspection(p.selected, |WantedSecrets(v)|, |p.selected|, MissingOf(v, p))
  }

  ghost function ArtifactsOf(cache: Cache?): (r: Artifacts)
    reads cache
  {
    if cache == null then map[] else cache.artifacts
  }

  lemma OnlyWantedSelected(v: View, artifacts: Artifacts, selected: map<Text, Candidate>)
    requires IsSelection(v, artifacts, selected)
    ensures selected.Keys <= WantedSecrets(v)
  {
    forall id | id in selected ensures id in WantedSecrets(v)
    {
      var c := selected[id];
      assert Verifies(v, artifacts, c.key, id, c.generation);
      AcceptedBinding(v, RecordFor(v.w.hash, artifacts, c.key), id, c.generation);
    }
  }

  lemma PartAndRest(part: set<Text>, whole: set<Text>)
    requires part <= whole
    ensures |whole| == |part| + |whole - part|
    ensures |whole - part| == 0 <==> part == whole
  {
    assert whole == part + (whole - part);
  }

  lemma MissingKeys(v: View, p: Progress)
    ensures MissingOf(v, p).Keys == WantedSecrets(v) - p.selected.Keys
    ensures |MissingOf(v, p)| == |WantedSecrets(v) - p.selected.Keys| && |p.selected| == |p.selected.Keys|
  {
    var missing := MissingOf(v, p);
    assert missing.Keys == WantedSecrets(v) - p.selected.Keys;
    assert |missing| == |missing.Keys| && |p.selected| == |p.selected.Keys|;
  }

  /** What a finished inspection tells about a cache. */
  ghost predicate Reports(v: View, artifacts: Artifacts, i: Inspection)
  {
    && IsSelection(v, artifacts, i.selected)
    && i.required == |WantedSecrets(v)| == i.verified + |i.missing|
    && i.verified == |i.selected|
    && (IsReady(i) <==> i.selected.Keys == WantedSecrets(v))
    && i.missing.Keys == WantedSecrets(v) - i.selected.Keys
  }

  /** Some bundle was rejected as a candidate for the secret for this reason. */
  ghost predicate Rejects(v: View, artifacts: Artifacts, id: Text, reason: Reason)
  {
    exists k :: k in artifacts && JudgeAt(v, artifacts, k) == Rejected(id, reason)
  }

  /** The reasons given for a missing secret: those of its rejected candidates, or that it has none. */
  ghost predicate Explains(v: View, artifacts: Artifacts, i: Inspection)
  {
    forall id, reason | id in i.missing ::
      reason in i.missing[id] <==> Rejects(v, artifacts, id, reason) || (reason.NoCandidate? && NeverRejected(v, artifacts, id))
  }

  ghost predicate NeverRejected(v: View, artifacts: Artifacts, id: Text)
  {
    forall reason :: !Rejects(v, artifacts, id, reason)
  }

  lemma {:induction false} RejectedHasReasons(v: View, artifacts: Artifacts, keys: seq<Text>, i: nat, id: Text)
    requires i <= |keys| && InspectTo(v, artifacts, keys, i).Success?
    ensures var p := InspectTo(v, artifacts, keys, i).value; id in p.rejected ==> exists reason :: reason in p.rejected[id]
  {
    if i > 0 {
      RejectedHasReasons(v, artifacts, keys, i - 1, id);
      var d, p := JudgeAt(v, artifacts, keys[i - 1]), InspectTo(v, artifacts, keys, i - 1).value;
      if d.Rejected? && d.secret == id {
        assert d.reason in InspectTo(v, artifacts, keys, i).value.rejected[id];
      }
    }
  }

  lemma ReasonsOf(v: View, artifacts: Artifacts, keys: seq<Text>, id: Text, reason: Reason)
    requires Lists(keys, artifacts.Keys) && InspectTo(v, artifacts, keys, |keys|).Success?
    ensures var p := InspectTo(v, artifacts, keys, |keys|).value;
      reason in Reasons(p, id) <==> Rejects(v, artifacts, id, reason)
  {
    ReasonsExact(v, artifacts, keys, |keys|, id, reason);
  }

  lemma ReasonGiven(v: View, artifacts: Artifacts, keys: seq<Text>, id: Text, reason: Reason)
    requires Lists(keys, artifacts.Keys) && InspectTo(v, artifacts, keys, |keys|).Success?
    ensures var p := InspectTo(v, artifacts, keys, |keys|).value;
      (reason in if id in p.rejected then p.rejected[id] else {NoCandidate})
      <==> Rejects(v, artifacts, id, reason) || (reason.NoCandidate? && NeverRejected(v, artifacts, id))
  {
    var p := InspectTo(v, artifacts, keys, |keys|).value;
    forall other ensures other in Reasons(p, id) <==> Rejects(v, artifacts, id, other)
    {
      ReasonsOf(v, artifacts, keys, id, other);
    }
    RejectedHasReasons(v, artifacts, keys, |keys|, id);
  }

  lemma InspectionExplains(v: View, artifacts: Artifacts, keys: seq<Text>)
    requires Lists(keys, artifacts.Keys) && InspectTo(v, artifacts, keys, |keys|).Success?
    ensures Explains(v, artifacts, ReportOn(v, InspectTo(v, artifacts, keys, |keys|).value))
  {
    var p := InspectTo(v, artifacts, keys, |keys|).value;
    forall id, reason | id in MissingOf(v, p)
      ensures reason in MissingOf(v, p)[id] <==> Rejects(v, artifacts, id, reason) || (reason.NoCandidate? && NeverRejected(v, artifacts, id))
    {
      ReasonGiven(v, artifacts, keys, id, reason);
    }
  }

  lemma InspectionReports(v: View, artifacts: Artifacts, keys: seq<Text>)
    requires Lists(keys, artifacts.Keys) && InspectTo(v, artifacts, keys, |keys|).Success?
    ensures Reports(v, artifacts, ReportOn(v, InspectTo(v, artifacts, keys, |keys|).value))
  {
    InspectExact(v, artifacts, keys);
    var p := InspectTo(v, artifacts, keys, |keys|).value;
    OnlyWantedSelected(v, artifacts, p.selected);
    MissingKeys(v, p);
    PartAndRest(p.selected.Keys, WantedSecrets(v));
  }

  /** Two inspections of the same bundles select the same artifacts. */
  lemma OrderIrrelevant(v: View, artifacts: Artifacts, one: Inspection, two: Inspection)
    requires Reports(v, artifacts, one) && Reports(v, artifacts, two)
    ensures one.selected == two.selected && one.missing.Keys == two.missing.Keys && (IsReady(one) <==> IsReady(two))
  {
    SelectionUnique(v, artifacts, one.selected, two.selected);
  }

  /** The judgements over a listing that was read from a cache. */
  method JudgeRecords(v: View, ghost artifacts: Artifacts, ghost keys: seq<Text>, records: seq<Record>) returns (r: Result<Progress, InspectError>)
    requires |records| == |keys| && forall i | 0 <= i < |records| :: records[i] == RecordFor(v.w.hash, artifacts, keys[i])
    ensures r == InspectTo(v, artifacts, keys, |keys|)
  {
    var p := Progress(map[], map[]);
    var i: nat := 0;
    while i < |records|
      invariant 0 <= i <= |records|
      invariant InspectTo(v, artifacts, keys, i) == Success(p)
    {
      var taken := Take(p, Judge(v, records[i]), records[i].key);
      assert InspectTo(v, artifacts, keys, i + 1) == taken;
      if taken.Failure? {
        FailureStays(v, artifacts, keys, i + 1, |keys|);
        return taken;
      }
      p, i := taken.value, i + 1;
    }
    r := Success(p);
  }

  lemma {:induction false} FailureStays(v: View, artifacts: Artifacts, keys: seq<Text>, i: nat, j: nat)
    requires i <= j <= |keys| && InspectTo(v, artifacts, keys, i).Failure?
    ensures InspectTo(v, artifacts, keys, j) == InspectTo(v, artifacts, keys, i)
  {
    if i < j {
      FailureStays(v, artifacts, keys, i, j - 1);
    }
  }

  lemma EmptyReads()
    ensures Readable(map[])
  {
    SumWhole([], {}, EnvelopeSize(map[]));
  }

  /** A cache that does not exist has no records. */
  method ReadRecords(cache: Cache?) returns (r: Result<seq<Record>, CacheError>, ghost keys: seq<Text>)
    ensures Lists(keys, ArtifactsOf(cache).Keys)
    ensures r.Success? ==> |r.value| == |keys| && Readable(ArtifactsOf(cache))
    ensures r.Failure? && r.error != Io ==> !Readable(ArtifactsOf(cache))
    ensures r.Success? && cache != null ==> forall i | 0 <= i < |keys| :: r.value[i] == RecordFor(cache.h, cache.artifacts, keys[i])
    ensures cache == null || cache.reliable ==> r != Failure(Io)
  {
    if cache == null {
      EmptyReads();
      return Success([]), [];
    }
    r, keys := cache.ArtifactRecords();
    RecordsVerdictExact(cache.artifacts, keys);
    if r.Success? {
      RecordsLength(cache.h, cache.artifacts, keys, |keys|);
      forall i | 0 <= i < |keys| ensures r.value[i] == RecordFor(cache.h, cache.artifacts, keys[i])
      {
        RecordAt(cache.h, cache.artifacts, keys, |keys|, i);
      }
    }
  }

  /** Some bundle makes every inspection fail: its policy hash or a signer key cannot be computed. */
  ghost predicate HasFatal(v: View, artifacts: Artifacts)
  {
    exists k :: k in artifacts && JudgeAt(v, artifacts, k).Fatal?
  }

  /** What the judgements over any listing amount to. */
  lemma JudgementsReport(v: View, artifacts: Artifacts, keys: seq<Text>)
    requires Lists(keys, artifacts.Keys)
    ensures var judged := InspectTo(v, artifacts, keys, |keys|);
      && (judged.Success? ==> Reports(v, artifacts, ReportOn(v, judged.value)) && Explains(v, artifacts, ReportOn(v, judged.value)))
      && (judged.Failure? ==> judged.error in {NoPolicyHash, BadSignerKey} && HasFatal(v, artifacts))
  {
    NeverEquallyRecent(v, artifacts, keys, |keys|);
    FailsIffFatal(v, artifacts, keys, |keys|);
    if InspectTo(v, artifacts, keys, |keys|).Success? {
      InspectionReports(v, artifacts, keys);
      InspectionExplains(v, artifacts, keys);
    }
  }

  /** The records of a cache, judged and reported on. */
  method InspectRecords(v: View, ghost artifacts: Artifacts, ghost keys: seq<Text>, records: seq<Record>) returns (r: Result<Inspection, InspectError>)
    requires Lists(keys, artifacts.Keys)
    requires |records| == |keys| && forall i | 0 <= i < |records| :: records[i] == RecordFor(v.w.hash, artifacts, keys[i])
    ensures r.Success? ==> Reports(v, artifacts, r.value) && Explains(v, artifacts, r.value)
    ensures r.Failure? ==> r.error in {NoPolicyHash, BadSignerKey} && HasFatal(v, artifacts)
  {
    var judged := JudgeRecords(v, artifacts, keys, records);
    JudgementsReport(v, artifacts, keys);
    r := if judged.Failure? then Failure(judged.error) else Success(ReportOn(v, judged.value));
  }

  /** inspect_activation_artifacts: selects the newest verified artifact of every secret of the phase and
      explains what is missing. It never fails over equally recent artifacts; I/O aside it fails only
      on an unreadable cache, an unknown recipient or a bundle that is fatal to every inspection. */
  method InspectActivationArtifacts(cache: Cache?, w: World, policy: TargetPolicy, phase: Phase, now: nat, skew: nat)
    returns (r: Result<Inspection, InspectError>)
    requires cache != null ==> cache.h == w.hash
    ensures r.Success? ==> w.fingerprint(policy.recipient).Some? && Readable(ArtifactsOf(cache))
    ensures r.Success? ==> Reports(View(w, policy, w.fingerprint(policy.recipient).value, phase, now, skew), ArtifactsOf(cache), r.value)
    ensures r.Success? ==> Explains(View(w, policy, w.fingerprint(policy.recipient).value, phase, now, skew), ArtifactsOf(cache), r.value)
    ensures r.Success? ==>
      NewestGenuine(View(w, policy, w.fingerprint(policy.recipient).value, phase, now, skew), ArtifactsOf(cache), r.value.selected)
    ensures r.Failure? ==> !r.error.EquallyRecent?
    ensures r.Failure? && r.error.CacheFailed? && r.error != CacheFailed(Io) ==> !Readable(ArtifactsOf(cache))
    ensures r.Failure? && !r.error.CacheFailed? ==>
      || w.fingerprint(policy.recipient).None?
      || HasFatal(View(w, policy, w.fingerprint(policy.recipient).value, phase, now, skew), ArtifactsOf(cache))
    ensures cache == null || cache.reliable ==> r != Failure(CacheFailed(Io))
  {
    var records, keys := ReadRecords(cache);
    if records.Failure? {
      return Failure(CacheFailed(records.error));
    }
    var fingerprint := w.fingerprint(policy.recipient);
    if fingerprint.None? {
      return Failure(NoRecipient);
    }
    r := InspectRecords(View(w, policy, fingerprint.value, phase, now, skew), ArtifactsOf(cache), keys, records.value);
    if r.Success? {
      SelectionIsGenuine(View(w, policy, fingerprint.value, phase, now, skew), ArtifactsOf(cache), r.value.selected);
    }
  }
}
