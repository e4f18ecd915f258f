/** What the response of a preparation carries while it is being filled, target by target. */
module PreparedResponse {
  import opened Prelude
  import opened CacheAddress
  import opened CacheStore
  import opened CacheRecords
  import opened CacheTransfer
  import opened CacheRoom
  import opened Ordering
  import opened ArtifactPolicy
  import opened ArtifactSelection
  import opened FullSelection
  import opened Wire
  import opened Transport
  import opened TransportLimits
  import opened Packing
  import opened Installation
  import opened ResponseInstallation

  // ---------- targets and what is packed for them ----------

  function TargetsTo(policies: seq<TargetPolicy>, i: nat): (r: set<Text>)
    requires i <= |policies|
  {
    if i == 0 then {} else TargetsTo(policies, i - 1) + {policies[i - 1].targetId}
  }

  /** The first `i` targets have different names. */
  predicate DistinctTargets(policies: seq<TargetPolicy>, i: nat)
    requires i <= |policies|
  {
    i == 0 || (DistinctTargets(policies, i - 1) && policies[i - 1].targetId !in TargetsTo(policies, i - 1))
  }

  lemma {:induction false} NextTarget(policies: seq<TargetPolicy>, i: nat, n: nat)
    requires i < n <= |policies| && DistinctTargets(policies, n)
    ensures policies[i].targetId !in TargetsTo(policies, i)
  {
    if i < n - 1 {
      NextTarget(policies, i, n - 1);
    }
  }

  lemma {:induction false} EarlierTarget(policies: seq<TargetPolicy>, j: nat, i: nat)
    requires j < i <= |policies|
    ensures policies[j].targetId in TargetsTo(policies, i)
  {
    if j < i - 1 {
      EarlierTarget(policies, j, i - 1);
    }
  }

  /** The keys packed for a list of selections. */
  ghost function TargetKeys(sels: seq<Selection>): (keys: seq<Text>)
  {
    if sels == [] then [] else TargetKeys(sels[..|sels| - 1]) + PackedKeys(sels[|sels| - 1])
  }

  /** Every packed bundle is portable and belongs to the target it was packed for. */
  ghost predicate EachFor(w: World, policies: seq<TargetPolicy>, artifacts: Artifacts, sels: seq<Selection>)
    requires |sels| <= |policies|
  {
    sels == [] ||
    (EachFor(w, policies, artifacts, sels[..|sels| - 1])
     && AllFor(w, artifacts, PackedKeys(sels[|sels| - 1]), policies[|sels| - 1].targetId, |PackedKeys(sels[|sels| - 1])|))
  }

  /** A selection that has a verified artifact for every secret of its target. */
  ghost predicate Serves(w: World, policy: TargetPolicy, now: nat, artifacts: Artifacts, sel: Selection)
  {
    && ViewOf(w, policy, now).Some? && sel.Keys == policy.secrets.Keys
    && forall id | id in sel :: VerifiesIn(ViewOf(w, policy, now).value, artifacts, sel[id].key, id, sel[id].generation)
  }

  ghost predicate AllServe(w: World, policies: seq<TargetPolicy>, now: nat, artifacts: Artifacts, sels: seq<Selection>)
    requires |sels| <= |policies|
  {
    sels == [] ||
    (AllServe(w, policies, now, artifacts, sels[..|sels| - 1]) && Serves(w, policies[|sels| - 1], now, artifacts, sels[|sels| - 1]))
  }

  /** The bundle that packing these selections in order produces. */
  ghost function PlanWire(artifacts: Artifacts, sels: seq<Selection>): (wire: seq<WireArtifact>)
  {
    if sels == [] then []
    else Appended(PlanWire(artifacts, sels[..|sels| - 1]), SelectionFiles(artifacts, sels[|sels| - 1]), |PackedKeys(sels[|sels| - 1])|)
  }

  /** Packing them in order never meets the limit. */
  ghost predicate PlanAdmitted(artifacts: Artifacts, sels: seq<Selection>)
  {
    sels == [] ||
    (PlanAdmitted(artifacts, sels[..|sels| - 1])
     && Admitted(WireSize(PlanWire(artifacts, sels[..|sels| - 1])), SelectionFiles(artifacts, sels[|sels| - 1]), |PackedKeys(sels[|sels| - 1])|))
  }

  /** The hash function has a collision. */
  ghost predicate HasCollision(h: HashFunction)
  {
    exists x, y :: Collides(h, x, y)
  }

  /** The state of a response after as many targets as there are selections: a bundle within the wire
      limit that carries, each once, artifacts serving those targets. Only a hash collision could let
      an artifact created for one target change the selection of another. */
  ghost predicate Filled(w: World, policies: seq<TargetPolicy>, now: nat, artifacts: Artifacts, sels: seq<Selection>, wire: seq<WireArtifact>)
    requires |sels| <= |policies|
  {
    match wire == PlanWire(artifacts, sels)
    case false => false
    case true =>
    && NoRepeats(TargetKeys(sels), |TargetKeys(sels)|) && Carries(w, artifacts, TargetKeys(sels), wire) && Fits(wire)
    && EachFor(w, policies, artifacts, sels) && AllServe(w, policies, now, artifacts, sels) && PlanAdmitted(artifacts, sels)
    && (AllSelect(w, policies, now, artifacts, sels) || HasCollision(w.hash))
  }

  // ---------- while the cache grows ----------

  lemma PortableStays(w: World, before: Artifacts, after: Artifacts, k: Text)
    requires PartOf(before, after) && Portable(w, before, k)
    ensures Portable(w, after, k) && after[k] == before[k] && Owner(w, after, k) == Owner(w, before, k)
  {
  }

  lemma CarriesStays(w: World, before: Artifacts, after: Artifacts, keys: seq<Text>, wire: seq<WireArtifact>)
    requires PartOf(before, after) && Carries(w, before, keys, wire)
    ensures Carries(w, after, keys, wire)
  {
    forall j | 0 <= j < |wire| ensures Carried(w, after, keys[j], wire[j])
    {
      assert Carried(w, before, keys[j], wire[j]);
      PortableStays(w, before, after, keys[j]);
    }
  }

  lemma {:induction false} AllForStays(w: World, before: Artifacts, after: Artifacts, keys: seq<Text>, target: Text, n: nat)
    requires n <= |keys| && PartOf(before, after) && AllFor(w, before, keys, target, n)
    ensures AllFor(w, after, keys, target, n) && FilesTo(after, keys, n) == FilesTo(before, keys, n)
  {
    if n > 0 {
      AllForStays(w, before, after, keys, target, n - 1);
      PortableStays(w, before, after, keys[n - 1]);
    }
  }

  lemma {:induction false} EachForStays(w: World, policies: seq<TargetPolicy>, before: Artifacts, after: Artifacts, sels: seq<Selection>)
    requires |sels| <= |policies| && PartOf(before, after) && EachFor(w, policies, before, sels)
    ensures EachFor(w, policies, after, sels)
    decreases |sels|
  {
    if sels != [] {
      EachForStays(w, policies, before, after, sels[..|sels| - 1]);
      var keys := PackedKeys(sels[|sels| - 1]);
      AllForStays(w, before, after, keys, policies[|sels| - 1].targetId, |keys|);
    }
  }

  lemma {:induction false} PlanStays(w: World, policies: seq<TargetPolicy>, before: Artifacts, after: Artifacts, sels: seq<Selection>)
    requires |sels| <= |policies| && PartOf(before, after) && EachFor(w, policies, before, sels)
    ensures PlanWire(after, sels) == PlanWire(before, sels)
    ensures PlanAdmitted(before, sels) ==> PlanAdmitted(after, sels)
    decreases |sels|
  {
    if sels != [] {
      PlanStays(w, policies, before, after, sels[..|sels| - 1]);
      var keys := PackedKeys(sels[|sels| - 1]);
      AllForStays(w, before, after, keys, policies[|sels| - 1].targetId, |keys|);
    }
  }

  lemma ServesStays(w: World, policy: TargetPolicy, now: nat, before: Artifacts, after: Artifacts, sel: Selection)
    requires PartOf(before, after) && Serves(w, policy, now, before, sel)
    ensures Serves(w, policy, now, after, sel)
  {
    var v := ViewOf(w, policy, now).value;
    forall id | id in sel ensures VerifiesIn(v, after, sel[id].key, id, sel[id].generation)
    {
      assert VerifiesIn(v, before, sel[id].key, id, sel[id].generation);
      VerifiesByEntry(v, before, after, sel[id].key, id, sel[id].generation);
    }
  }

  lemma {:induction false} AllServeStays(w: World, policies: seq<TargetPolicy>, now: nat, before: Artifacts, after: Artifacts, sels: seq<Selection>)
    requires |sels| <= |policies| && PartOf(before, after) && AllServe(w, policies, now, before, sels)
    ensures AllServe(w, policies, now, after, sels)
    decreases |sels|
  {
    if sels != [] {
      AllServeStays(w, policies, now, before, after, sels[..|sels| - 1]);
      ServesStays(w, policies[|sels| - 1], now, before, after, sels[|sels| - 1]);
    }
  }

  // ---------- selections under growth ----------

  /** The key of some address of this target. */
  ghost predicate KeyedFor(w: World, target: Text, k: Text)
  {
    exists a: Address :: a.targetId == target && Key(w.hash, a) == Some(k)
  }

  /** All new records read and are filed under addresses of one target. */
  ghost predicate NewFor(w: World, target: Text, before: Artifacts, after: Artifacts)
  {
    forall k | k in after && k !in before :: KeyedFor(w, target, k) && IsDigest(k) && BundleReads(after[k])
  }

  /** A record that verifies is filed under its own address and, collisions aside, under no other. */
  lemma FiledAsNamed(v: View, artifacts: Artifacts, k: Text, id: Text, g: nat, a: Address)
    requires VerifiesIn(v, artifacts, k, id, g) && Key(v.w.hash, a) == Some(k)
    ensures (a.targetId == v.policy.targetId && a.generation == g) || HasCollision(v.w.hash)
  {
    var u := In(v, v.policy.secrets[id].phase);
    AcceptedBinding(u, RecordFor(v.w.hash, artifacts, k), id, g);
    var own := AddressOf(v.w.policyHash(v.policy, id).value, v.policy.secrets[id].ciphertextHash, v.fingerprint, v.policy.targetId, id, g);
    if a != own {
      SharedKeyIsCollision(v.w.hash, a, own);
      assert Collides(v.w.hash, Preimage(a), Preimage(own));
    }
  }

  /** A record filed for one target that verifies for another takes a collision. */
  lemma ForeignKeyCollides(v: View, artifacts: Artifacts, target: Text, k: Text, id: Text, g: nat)
    requires VerifiesIn(v, artifacts, k, id, g) && KeyedFor(v.w, target, k) && target != v.policy.targetId
    ensures HasCollision(v.w.hash)
  {
    var a: Address :| a.targetId == target && Key(v.w.hash, a) == Some(k);
    FiledAsNamed(v, artifacts, k, id, g, a);
  }

  lemma SelectionStays(v: View, before: Artifacts, after: Artifacts, target: Text, sel: Selection)
    requires PartOf(before, after) && NewFor(v.w, target, before, after) && target != v.policy.targetId
    requires IsFullSelection(v, before, sel) && !HasCollision(v.w.hash)
    ensures IsFullSelection(v, after, sel)
  {
    forall id | id in sel ensures VerifiesIn(v, after, sel[id].key, id, sel[id].generation)
    {
      assert VerifiesIn(v, before, sel[id].key, id, sel[id].generation);
      VerifiesByEntry(v, before, after, sel[id].key, id, sel[id].generation);
    }
    forall k, id, g: nat | VerifiesIn(v, after, k, id, g)
      ensures id in sel && (sel[id] == Candidate(k, g) || g < sel[id].generation)
    {
      if k in before {
        VerifiesByEntry(v, before, after, k, id, g);
      } else {
        ForeignKeyCollides(v, after, target, k, id, g);
      }
    }
  }

  lemma {:induction false} AllSelectStays(w: World, policies: seq<TargetPolicy>, now: nat, before: Artifacts, after: Artifacts, sels: seq<Selection>, i: nat)
    requires |sels| <= i < |policies| && PartOf(before, after) && NewFor(w, policies[i].targetId, before, after)
    requires policies[i].targetId !in TargetsTo(policies, i) && AllSelect(w, policies, now, before, sels) && !HasCollision(w.hash)
    ensures AllSelect(w, policies, now, after, sels)
    decreases |sels|
  {
    if sels != [] {
      AllSelectStays(w, policies, now, before, after, sels[..|sels| - 1], i);
      EarlierTarget(policies, |sels| - 1, i);
      SelectionStays(ViewOf(w, policies[|sels| - 1], now).value, before, after, policies[i].targetId, sels[|sels| - 1]);
    }
  }

  /** A response stays filled while the next target's artifacts are created. */
  lemma FilledStays(w: World, policies: seq<TargetPolicy>, now: nat, before: Artifacts, after: Artifacts, sels: seq<Selection>, wire: seq<WireArtifact>)
    requires |sels| < |policies| && DistinctTargets(policies, |policies|) && Filled(w, policies, now, before, sels, wire)
    requires PartOf(before, after) && NewFor(w, policies[|sels|].targetId, before, after)
    ensures Filled(w, policies, now, after, sels, wire)
  {
    CarriesStays(w, before, after, TargetKeys(sels), wire);
    EachForStays(w, policies, before, after, sels);
    PlanStays(w, policies, before, after, sels);
    AllServeStays(w, policies, now, before, after, sels);
    NextTarget(policies, |sels|, |policies|);
    if !HasCollision(w.hash) {
      AllSelectStays(w, policies, now, before, after, sels, |sels|);
    }
  }

  // ---------- joining two lists of keys ----------

  lemma {:induction false} ListedExtends(keys: seq<Text>, more: seq<Text>, n: nat)
    requires n <= |keys|
    ensures Listed(keys + more, n) == Listed(keys, n) && NoRepeats(keys + more, n) == NoRepeats(keys, n)
  {
    if n > 0 {
      ListedExtends(keys, more, n - 1);
    }
  }

  lemma {:induction false} ListedJoin(keys: seq<Text>, more: seq<Text>, n: nat)
    requires n <= |more|
    ensures Listed(keys + more, |keys| + n) == Listed(keys, |keys|) + Listed(more, n)
  {
    if n > 0 {
      ListedJoin(keys, more, n - 1);
      assert (keys + more)[|keys| + n - 1] == more[n - 1];
    } else {
      ListedExtends(keys, more, |keys|);
    }
  }

  lemma {:induction false} NoRepeatsJoin(keys: seq<Text>, more: seq<Text>, n: nat)
    requires n <= |more| && NoRepeats(keys, |keys|) && NoRepeats(more, n)
    requires Listed(keys, |keys|) !! Listed(more, |more|)
    ensures NoRepeats(keys + more, |keys| + n)
  {
    if n > 0 {
      NoRepeatsJoin(keys, more, n - 1);
      ListedJoin(keys, more, n - 1);
      ListedMember(more, n - 1, |more|);
      assert (keys + more)[|keys| + n - 1] == more[n - 1];
    } else {
      ListedExtends(keys, more, |keys|);
    }
  }

  // ---------- one more target ----------

  /** A packed key was packed for the last target or for an earlier one. */
  lemma {:induction false} KeysSplit(sels: seq<Selection>, k: Text)
    requires sels != []
    ensures var m := |sels| - 1;
      k in Listed(TargetKeys(sels), |TargetKeys(sels)|) <==>
        k in Listed(PackedKeys(sels[m]), |PackedKeys(sels[m])|) || k in Listed(TargetKeys(sels[..m]), |TargetKeys(sels[..m])|)
  {
    var m := |sels| - 1;
    ListedJoin(TargetKeys(sels[..m]), PackedKeys(sels[m]), |PackedKeys(sels[m])|);
  }

  lemma {:induction false} OwnersKnown(w: World, policies: seq<TargetPolicy>, artifacts: Artifacts, sels: seq<Selection>, k: Text)
    requires |sels| <= |policies| && EachFor(w, policies, artifacts, sels) && k in Listed(TargetKeys(sels), |TargetKeys(sels)|)
    ensures Owner(w, artifacts, k).Some? && Owner(w, artifacts, k).value in TargetsTo(policies, |sels|)
    decreases |sels|
  {
    if sels != [] {
      var rest, keys := sels[..|sels| - 1], PackedKeys(sels[|sels| - 1]);
      KeysSplit(sels, k);
      if k in Listed(keys, |keys|) {
        OwnerOf(w, artifacts, keys, policies[|sels| - 1].targetId, k);
      } else {
        OwnersKnown(w, policies, artifacts, rest, k);
      }
    }
  }

  lemma OwnerOf(w: World, artifacts: Artifacts, keys: seq<Text>, target: Text, k: Text)
    requires AllFor(w, artifacts, keys, target, |keys|) && k in Listed(keys, |keys|)
    ensures Portable(w, artifacts, k) && Owner(w, artifacts, k) == Some(target)
  {
    var j := ListedIndex(keys, |keys|, k);
    AllForAt(w, artifacts, keys, target, |keys|, j);
  }

  lemma KeysApart(w: World, policies: seq<TargetPolicy>, artifacts: Artifacts, sels: seq<Selection>, more: seq<Text>)
    requires |sels| < |policies| && DistinctTargets(policies, |policies|) && EachFor(w, policies, artifacts, sels)
    requires AllFor(w, artifacts, more, policies[|sels|].targetId, |more|)
    ensures Listed(TargetKeys(sels), |TargetKeys(sels)|) !! Listed(more, |more|)
  {
    NextTarget(policies, |sels|, |policies|);
    forall k | k in Listed(more, |more|) ensures k !in Listed(TargetKeys(sels), |TargetKeys(sels)|)
    {
      OwnerOf(w, artifacts, more, policies[|sels|].targetId, k);
      if k in Listed(TargetKeys(sels), |TargetKeys(sels)|) {
        OwnersKnown(w, policies, artifacts, sels, k);
      }
    }
  }

  /** The next target's selection, packed behind what is there. */
  ghost predicate NextPacked(w: World, policy: TargetPolicy, now: nat, artifacts: Artifacts, sel: Selection, wire: seq<WireArtifact>, all: seq<WireArtifact>)
  {
    && ViewOf(w, policy, now).Some? && sel.Keys == policy.secrets.Keys
    && IsFullSelection(ViewOf(w, policy, now).value, artifacts, sel)
    && NoRepeats(PackedKeys(sel), |PackedKeys(sel)|) && AllFor(w, artifacts, PackedKeys(sel), policy.targetId, |PackedKeys(sel)|)
    && Admitted(WireSize(wire), SelectionFiles(artifacts, sel), |PackedKeys(sel)|)
    && all == Appended(wire, SelectionFiles(artifacts, sel), |PackedKeys(sel)|) && Fits(all)
  }

  lemma StillDistinct(keys: seq<Text>, more: seq<Text>)
    requires NoRepeats(keys, |keys|) && NoRepeats(more, |more|) && Listed(keys, |keys|) !! Listed(more, |more|)
    ensures NoRepeats(keys + more, |keys + more|)
  {
    NoRepeatsJoin(keys, more, |more|);
  }

  lemma NextCarried(w: World, artifacts: Artifacts, keys: seq<Text>, wire: seq<WireArtifact>, more: seq<Text>, target: Text)
    requires Carries(w, artifacts, keys, wire) && AllFor(w, artifacts, more, target, |more|)
    ensures Carries(w, artifacts, keys + more, Appended(wire, FilesTo(artifacts, more, |more|), |more|))
  {
    AllPortable(w, artifacts, more, target);
    CarriesMore(w, artifacts, keys, wire, more);
  }

  lemma SelectionServes(w: World, policy: TargetPolicy, now: nat, artifacts: Artifacts, sel: Selection)
    requires ViewOf(w, policy, now).Some? && sel.Keys == policy.secrets.Keys
    requires IsFullSelection(ViewOf(w, policy, now).value, artifacts, sel)
    ensures Serves(w, policy, now, artifacts, sel)
  {
  }

  lemma KeysGrow(w: World, policies: seq<TargetPolicy>, now: nat, artifacts: Artifacts, sels: seq<Selection>, wire: seq<WireArtifact>, sel: Selection, all: seq<WireArtifact>)
    requires |sels| < |policies| && DistinctTargets(policies, |policies|) && EachFor(w, policies, artifacts, sels)
    requires NoRepeats(TargetKeys(sels), |TargetKeys(sels)|) && Carries(w, artifacts, TargetKeys(sels), wire)
    requires NextPacked(w, policies[|sels|], now, artifacts, sel, wire, all)
    ensures var keys := TargetKeys(sels + [sel]); NoRepeats(keys, |keys|) && Carries(w, artifacts, keys, all)
  {
    assert (sels + [sel])[..|sels|] == sels;
    KeysApart(w, policies, artifacts, sels, PackedKeys(sel));
    StillDistinct(TargetKeys(sels), PackedKeys(sel));
    NextCarried(w, artifacts, TargetKeys(sels), wire, PackedKeys(sel), policies[|sels|].targetId);
  }

  lemma ServiceGrows(w: World, policies: seq<TargetPolicy>, now: nat, artifacts: Artifacts, sels: seq<Selection>, wire: seq<WireArtifact>, sel: Selection, all: seq<WireArtifact>)
    requires |sels| < |policies| && EachFor(w, policies, artifacts, sels) && AllServe(w, policies, now, artifacts, sels)
    requires NextPacked(w, policies[|sels|], now, artifacts, sel, wire, all)
    ensures EachFor(w, policies, artifacts, sels + [sel]) && AllServe(w, policies, now, artifacts, sels + [sel])
    ensures AllSelect(w, policies, now, artifacts, sels) ==> AllSelect(w, policies, now, artifacts, sels + [sel])
  {
    assert (sels + [sel])[..|sels|] == sels;
    SelectionServes(w, policies[|sels|], now, artifacts, sel);
  }

  lemma PlanGrows(w: World, policy: TargetPolicy, now: nat, artifacts: Artifacts, sels: seq<Selection>, wire: seq<WireArtifact>, sel: Selection, all: seq<WireArtifact>)
    requires wire == PlanWire(artifacts, sels) && PlanAdmitted(artifacts, sels) && NextPacked(w, policy, now, artifacts, sel, wire, all)
    ensures all == PlanWire(artifacts, sels + [sel]) && PlanAdmitted(artifacts, sels + [sel])
  {
    assert (sels + [sel])[..|sels|] == sels;
  }

  /** One more target has been packed. */
  lemma FilledGrows(w: World, policies: seq<TargetPolicy>, now: nat, artifacts: Artifacts, sels: seq<Selection>, wire: seq<WireArtifact>, sel: Selection, all: seq<WireArtifact>)
    requires |sels| < |policies| && DistinctTargets(policies, |policies|) && Filled(w, policies, now, artifacts, sels, wire)
    requires NextPacked(w, policies[|sels|], now, artifacts, sel, wire, all)
    ensures Filled(w, policies, now, artifacts, sels + [sel], all)
  {
    KeysGrow(w, policies, now, artifacts, sels, wire, sel, all);
    ServiceGrows(w, policies, now, artifacts, sels, wire, sel, all);
    PlanGrows(w, policies[|sels|], now, artifacts, sels, wire, sel, all);
  }

  // ---------- the response elsewhere ----------

  lemma SelectedIsPacked(sel: Selection, id: Text)
    requires id in sel
    ensures sel[id].key in Listed(PackedKeys(sel), |PackedKeys(sel)|)
  {
    InOrderLists(sel.Keys);
    SelectedIsListed(sel, InOrder(sel.Keys), id);
  }

  lemma PartServesOne(w: World, policy: TargetPolicy, now: nat, whole: Artifacts, part: Artifacts, sel: Selection)
    requires Serves(w, policy, now, whole, sel)
    requires forall k | k in Listed(PackedKeys(sel), |PackedKeys(sel)|) :: Lookup(part, k) == Lookup(whole, k)
    ensures Serves(w, policy, now, part, sel)
  {
    var v := ViewOf(w, policy, now).value;
    forall id | id in sel ensures VerifiesIn(v, part, sel[id].key, id, sel[id].generation)
    {
      SelectedIsPacked(sel, id);
      assert VerifiesIn(v, whole, sel[id].key, id, sel[id].generation);
      VerifiesByEntry(v, part, whole, sel[id].key, id, sel[id].generation);
    }
  }

  /** A directory that has every packed bundle serves the targets as well. */
  lemma {:induction false} PartServes(w: World, policies: seq<TargetPolicy>, now: nat, whole: Artifacts, part: Artifacts, sels: seq<Selection>)
    requires |sels| <= |policies| && AllServe(w, policies, now, whole, sels)
    requires forall k | k in Listed(TargetKeys(sels), |TargetKeys(sels)|) :: Lookup(part, k) == Lookup(whole, k)
    ensures AllServe(w, policies, now, part, sels)
    decreases |sels|
  {
    if sels != [] {
      var m := |sels| - 1;
      forall k | k in Listed(PackedKeys(sels[m]), |PackedKeys(sels[m])|) || k in Listed(TargetKeys(sels[..m]), |TargetKeys(sels[..m])|)
        ensures Lookup(part, k) == Lookup(whole, k)
      {
        KeysSplit(sels, k);
      }
      PartServes(w, policies, now, whole, part, sels[..m]);
      PartServesOne(w, policies[m], now, whole, part, sels[m]);
    }
  }

  lemma {:induction false} AllServeAt(w: World, policies: seq<TargetPolicy>, now: nat, artifacts: Artifacts, sels: seq<Selection>, j: nat)
    requires j < |sels| <= |policies| && AllServe(w, policies, now, artifacts, sels)
    ensures Serves(w, policies[j], now, artifacts, sels[j])
    decreases |sels|
  {
    if j < |sels| - 1 {
      AllServeAt(w, policies, now, artifacts, sels[..|sels| - 1], j);
    }
  }

  lemma ServesProvides(w: World, policy: TargetPolicy, now: nat, artifacts: Artifacts, sel: Selection)
    requires Serves(w, policy, now, artifacts, sel)
    ensures Provided(w, policy, now, artifacts)
  {
    var v := ViewOf(w, policy, now).value;
    forall id | id in policy.secrets ensures SuppliedWith(v, artifacts, id)
    {
      assert VerifiesIn(v, artifacts, sel[id].key, id, sel[id].generation);
    }
  }

  lemma {:induction false} AllServeProvides(w: World, policies: seq<TargetPolicy>, now: nat, artifacts: Artifacts, sels: seq<Selection>)
    requires |sels| <= |policies| && AllServe(w, policies, now, artifacts, sels)
    ensures AllWithin(w, policies, artifacts, now, |sels|)
    decreases |sels|
  {
    if sels != [] {
      AllServeProvides(w, policies, now, artifacts, sels[..|sels| - 1]);
      ServesProvides(w, policies[|sels| - 1], now, artifacts, sels[|sels| - 1]);
    }
  }

  lemma TargetsDiffer(policies: seq<TargetPolicy>, j: nat, m: nat)
    requires j < m < |policies| && DistinctTargets(policies, |policies|)
    ensures policies[j].targetId != policies[m].targetId
  {
    NextTarget(policies, m, |policies|);
    EarlierTarget(policies, j, m);
  }

  lemma LastPacked(w: World, policies: seq<TargetPolicy>, artifacts: Artifacts, keys: seq<Text>, m: nat, j: nat, k: Text)
    requires j <= m < |policies| && DistinctTargets(policies, |policies|) && AllFor(w, artifacts, keys, policies[m].targetId, |keys|)
    requires k in Listed(keys, |keys|) && Owner(w, artifacts, k) == Some(policies[j].targetId)
    ensures j == m
  {
    OwnerOf(w, artifacts, keys, policies[m].targetId, k);
    if j < m {
      TargetsDiffer(policies, j, m);
    }
  }

  lemma EarlierPacked(w: World, policies: seq<TargetPolicy>, artifacts: Artifacts, sels: seq<Selection>, j: nat, k: Text)
    requires j <= |sels| < |policies| && DistinctTargets(policies, |policies|) && EachFor(w, policies, artifacts, sels)
    requires k in Listed(TargetKeys(sels), |TargetKeys(sels)|) && Owner(w, artifacts, k) == Some(policies[j].targetId)
    ensures j < |sels|
  {
    OwnersKnown(w, policies, artifacts, sels, k);
    NextTarget(policies, |sels|, |policies|);
  }

  /** A packed key is one of those packed for its own target. */
  lemma {:induction false} KeyOfTarget(w: World, policies: seq<TargetPolicy>, artifacts: Artifacts, sels: seq<Selection>, j: nat, k: Text)
    requires j < |sels| <= |policies| && DistinctTargets(policies, |policies|) && EachFor(w, policies, artifacts, sels)
    requires k in Listed(TargetKeys(sels), |TargetKeys(sels)|) && Owner(w, artifacts, k) == Some(policies[j].targetId)
    ensures k in Listed(PackedKeys(sels[j]), |PackedKeys(sels[j])|)
    decreases |sels|
  {
    var m := |sels| - 1;
    var rest, keys := sels[..m], PackedKeys(sels[m]);
    KeysSplit(sels, k);
    if k in Listed(keys, |keys|) {
      LastPacked(w, policies, artifacts, keys, m, j, k);
    } else {
      EarlierPacked(w, policies, artifacts, rest, j, k);
      KeyOfTarget(w, policies, artifacts, rest, j, k);
    }
  }

  /** Nothing verifies for the target but what was selected. */
  ghost predicate OnlySelected(v: View, artifacts: Artifacts, sel: Selection)
  {
    forall k, id, g: nat | VerifiesIn(v, artifacts, k, id, g) :: id in sel && sel[id] == Candidate(k, g)
  }

  /** Staged on its own, a response has the same selections. */
  lemma StagedSelects(w: World, policies: seq<TargetPolicy>, now: nat, artifacts: Artifacts, sels: seq<Selection>, staged: Artifacts, j: nat)
    requires j < |sels| <= |policies| && DistinctTargets(policies, |policies|) && EachFor(w, policies, artifacts, sels)
    requires Serves(w, policies[j], now, staged, sels[j])
    requires staged == Picked(artifacts, TargetKeys(sels), |TargetKeys(sels)|)
    ensures OnlySelected(ViewOf(w, policies[j], now).value, staged, sels[j])
  {
    forall k, id, g: nat | VerifiesIn(ViewOf(w, policies[j], now).value, staged, k, id, g)
      ensures id in sels[j] && sels[j][id] == Candidate(k, g)
    {
      StagedIsSelected(w, policies, now, artifacts, sels, staged, j, k, id, g);
    }
  }

  lemma StagedIsSelected(w: World, policies: seq<TargetPolicy>, now: nat, artifacts: Artifacts, sels: seq<Selection>, staged: Artifacts, j: nat, k: Text, id: Text, g: nat)
    requires j < |sels| <= |policies| && DistinctTargets(policies, |policies|) && EachFor(w, policies, artifacts, sels)
    requires Serves(w, policies[j], now, staged, sels[j])
    requires staged == Picked(artifacts, TargetKeys(sels), |TargetKeys(sels)|)
    requires VerifiesIn(ViewOf(w, policies[j], now).value, staged, k, id, g)
    ensures id in sels[j] && sels[j][id] == Candidate(k, g)
  {
    var v, sel := ViewOf(w, policies[j], now).value, sels[j];
    PickedLookup(artifacts, TargetKeys(sels), |TargetKeys(sels)|, k);
    PackedIsPortable(w, policies, artifacts, sels, k);
    VerifiesByEntry(v, staged, artifacts, k, id, g);
    VerifiedIsPortable(v, artifacts, k, id, g);
    KeyOfTarget(w, policies, artifacts, sels, j, k);
    InOrderLists(sel.Keys);
    var own := ListedIsSelected(sel, InOrder(sel.Keys), k);
    assert VerifiesIn(v, staged, sel[own].key, own, sel[own].generation);
    OneOwner(v, v, staged, k, id, g, own, sel[own].generation);
  }

  lemma {:induction false} PackedIsPortable(w: World, policies: seq<TargetPolicy>, artifacts: Artifacts, sels: seq<Selection>, k: Text)
    requires |sels| <= |policies| && EachFor(w, policies, artifacts, sels) && k in Listed(TargetKeys(sels), |TargetKeys(sels)|)
    ensures Portable(w, artifacts, k)
    decreases |sels|
  {
    if sels != [] {
      var rest, keys := sels[..|sels| - 1], PackedKeys(sels[|sels| - 1]);
      KeysSplit(sels, k);
      if k in Listed(keys, |keys|) {
        OwnerOf(w, artifacts, keys, policies[|sels| - 1].targetId, k);
      } else {
        PackedIsPortable(w, policies, artifacts, rest, k);
      }
    }
  }

  // ---------- a filled response is acceptable ----------

  lemma {:induction false} AdmittedInPlan(artifacts: Artifacts, sels: seq<Selection>, j: nat)
    requires j < |sels| && PlanAdmitted(artifacts, sels)
    ensures Admitted(0, SelectionFiles(artifacts, sels[j]), |PackedKeys(sels[j])|)
    decreases |sels|
  {
    if j == |sels| - 1 {
      AdmittedAlone(WireSize(PlanWire(artifacts, sels[..j])), SelectionFiles(artifacts, sels[j]), |PackedKeys(sels[j])|);
    } else {
      AdmittedInPlan(artifacts, sels[..|sels| - 1], j);
    }
  }

  lemma {:induction false} EachForAt(w: World, policies: seq<TargetPolicy>, artifacts: Artifacts, sels: seq<Selection>, j: nat)
    requires j < |sels| <= |policies| && EachFor(w, policies, artifacts, sels)
    ensures AllFor(w, artifacts, PackedKeys(sels[j]), policies[j].targetId, |PackedKeys(sels[j])|)
    decreases |sels|
  {
    if j < |sels| - 1 {
      EachForAt(w, policies, artifacts, sels[..|sels| - 1], j);
    }
  }

  lemma {:induction false} FilesSame(one: Artifacts, two: Artifacts, keys: seq<Text>, n: nat)
    requires n <= |keys| && forall j | 0 <= j < n :: Lookup(one, keys[j]) == Lookup(two, keys[j])
    ensures FilesTo(one, keys, n) == FilesTo(two, keys, n)
  {
    if n > 0 {
      FilesSame(one, two, keys, n - 1);
    }
  }

  lemma {:induction false} PackedOfTarget(sels: seq<Selection>, j: nat, k: Text)
    requires j < |sels| && k in Listed(PackedKeys(sels[j]), |PackedKeys(sels[j])|)
    ensures k in Listed(TargetKeys(sels), |TargetKeys(sels)|)
    decreases |sels|
  {
    KeysSplit(sels, k);
    if j < |sels| - 1 {
      PackedOfTarget(sels[..|sels| - 1], j, k);
    }
  }

  /** Packing a target alone is no harder than packing it behind the others. */
  lemma StagedAdmits(artifacts: Artifacts, sels: seq<Selection>, staged: Artifacts, j: nat)
    requires j < |sels| && PlanAdmitted(artifacts, sels) && staged == Picked(artifacts, TargetKeys(sels), |TargetKeys(sels)|)
    ensures Admitted(0, SelectionFiles(staged, sels[j]), |PackedKeys(sels[j])|)
  {
    AdmittedInPlan(artifacts, sels, j);
    var keys := PackedKeys(sels[j]);
    forall i | 0 <= i < |keys| ensures Lookup(staged, keys[i]) == Lookup(artifacts, keys[i])
    {
      ListedMember(keys, i, |keys|);
      PackedOfTarget(sels, j, keys[i]);
      PickedLookup(artifacts, TargetKeys(sels), |TargetKeys(sels)|, keys[i]);
    }
    FilesSame(staged, artifacts, keys, |keys|);
  }

  lemma StagedPacks(w: World, policies: seq<TargetPolicy>, now: nat, artifacts: Artifacts, sels: seq<Selection>, staged: Artifacts, j: nat)
    requires j < |sels| <= |policies| && DistinctTargets(policies, |policies|) && EachFor(w, policies, artifacts, sels)
    requires Serves(w, policies[j], now, staged, sels[j]) && PlanAdmitted(artifacts, sels)
    requires staged == Picked(artifacts, TargetKeys(sels), |TargetKeys(sels)|)
    ensures Packable(w, policies[j], now, staged)
  {
    StagedSelects(w, policies, now, artifacts, sels, staged, j);
    OnlyVerified(ViewOf(w, policies[j], now).value, staged, sels[j]);
    StagedAdmits(artifacts, sels, staged, j);
    assert PacksWithin(ViewOf(w, policies[j], now).value, staged, sels[j]);
  }

  lemma {:induction false} AllStagedPack(w: World, policies: seq<TargetPolicy>, now: nat, artifacts: Artifacts, sels: seq<Selection>, staged: Artifacts, i: nat)
    requires i <= |sels| <= |policies| && DistinctTargets(policies, |policies|) && EachFor(w, policies, artifacts, sels)
    requires AllServe(w, policies, now, staged, sels) && PlanAdmitted(artifacts, sels)
    requires staged == Picked(artifacts, TargetKeys(sels), |TargetKeys(sels)|)
    ensures AllPackable(w, policies, staged, now, i)
  {
    if i > 0 {
      AllStagedPack(w, policies, now, artifacts, sels, staged, i - 1);
      AllServeAt(w, policies, now, staged, sels, i - 1);
      StagedPacks(w, policies, now, artifacts, sels, staged, i - 1);
    }
  }

  lemma StagedServes(w: World, policies: seq<TargetPolicy>, now: nat, artifacts: Artifacts, sels: seq<Selection>)
    requires |sels| <= |policies| && AllServe(w, policies, now, artifacts, sels)
    ensures AllServe(w, policies, now, Picked(artifacts, TargetKeys(sels), |TargetKeys(sels)|), sels)
  {
    var keys := TargetKeys(sels);
    forall k | k in Listed(keys, |keys|) ensures Lookup(Picked(artifacts, keys, |keys|), k) == Lookup(artifacts, k)
    {
      PickedLookup(artifacts, keys, |keys|, k);
    }
    PartServes(w, policies, now, artifacts, Picked(artifacts, keys, |keys|), sels);
  }

  /** A filled response can be staged anywhere; what is staged provides for every target, each target
      can be packed from it, and it is within every limit of an import. Nothing but I/O and the
      destinations themselves can refuse it. */
  lemma FilledIsAcceptable(w: World, policies: seq<TargetPolicy>, now: nat, artifacts: Artifacts, sels: seq<Selection>, wire: seq<WireArtifact>)
    requires |sels| == |policies| && DistinctTargets(policies, |policies|) && Filled(w, policies, now, artifacts, sels, wire) && Readable(artifacts)
    ensures Acceptable(w, wire, policies, now)
    ensures Transferable(w.hash, map[], StagedTo(w, wire, |wire|).value)
  {
    var keys := TargetKeys(sels);
    var staged := Picked(artifacts, keys, |keys|);
    StagingReproduces(w, artifacts, keys, wire);
    PackedCount(w, artifacts, keys, wire);
    StagedIsTransferable(w, artifacts, keys, wire);
    TransferableIsReadable(w.hash, map[], staged);
    StagedServes(w, policies, now, artifacts, sels);
    AllServeProvides(w, policies, now, staged, sels);
    AllStagedPack(w, policies, now, artifacts, sels, staged, |sels|);
  }
}
