/** What a transfer between two caches may meet entry by entry, and what its result means. */
module CacheTransfer {
  import opened Prelude
  import opened CacheAddress
  import opened CacheStore
  import opened CacheLimits

  /** The source entry verifies, and so does an entry the destination already has under its name. */
  predicate ObjectPasses(h: HashFunction, from: Objects, to: Objects, k: Text)
  {
    k in from && ObjectReads(h, k, from[k]) && (k in to ==> ObjectReads(h, k, to[k]))
  }

  predicate ObjectsPass(h: HashFunction, from: Objects, to: Objects, names: seq<Text>, i: nat)
    requires i <= |names|
  {
    i == 0 || (ObjectsPass(h, from, to, names, i - 1) && ObjectPasses(h, from, to, names[i - 1]))
  }

  predicate BundlePasses(h: HashFunction, from: Artifacts, to: Artifacts, k: Text)
  {
    k in from && IsDigest(k) && BundleReads(from[k]) && (k in to ==> Agrees(h, from[k], to[k]))
  }

  predicate BundlesPass(h: HashFunction, from: Artifacts, to: Artifacts, names: seq<Text>, i: nat)
    requires i <= |names|
  {
    i == 0 || (BundlesPass(h, from, to, names, i - 1) && BundlePasses(h, from, to, names[i - 1]))
  }

  /** When its turn comes, an entry is at the destination only if it was there before. */
  lemma NotYetCopied<V>(source: map<Text, V>, names: seq<Text>, i: nat, to: map<Text, V>)
    requires i < |names| && Lists(names, source.Keys)
    ensures Lookup(Copied(source, names, i, to), names[i]) == Lookup(to, names[i])
  {
    CopiedLookup(source, names, i, to, names[i]);
    NotListedYet(names, i, |names|);
  }

  lemma {:induction false} ObjectPassesAt(h: HashFunction, from: Objects, to: Objects, names: seq<Text>, i: nat, j: nat)
    requires j < i <= |names| && ObjectsPass(h, from, to, names, i)
    ensures ObjectPasses(h, from, to, names[j])
  {
    if j < i - 1 {
      ObjectPassesAt(h, from, to, names, i - 1, j);
    }
  }

  lemma {:induction false} BundlePassesAt(h: HashFunction, from: Artifacts, to: Artifacts, names: seq<Text>, i: nat, j: nat)
    requires j < i <= |names| && BundlesPass(h, from, to, names, i)
    ensures BundlePasses(h, from, to, names[j])
  {
    if j < i - 1 {
      BundlePassesAt(h, from, to, names, i - 1, j);
    }
  }

  lemma CopyObjectMeets(h: HashFunction, from: Objects, to: Objects, now: Objects, k: Text)
    requires Lookup(now, k) == Lookup(to, k)
    ensures ObjectPasses(h, from, now, k) <==> ObjectPasses(h, from, to, k)
  {
  }

  /** Whether a bundle passes depends on the destination's entry of that name only. */
  lemma CopyBundleMeets(h: HashFunction, from: Artifacts, to: Artifacts, now: Artifacts, k: Text)
    requires Lookup(now, k) == Lookup(to, k)
    ensures BundlePasses(h, from, now, k) <==> BundlePasses(h, from, to, k)
  {
  }

  // ---------- entry by entry is the same as all at once ----------

  /** The exchange can be copied and nothing at the destination contradicts it. */
  ghost predicate Importable(h: HashFunction, from: Objects, fromArtifacts: Artifacts, to: Objects, toArtifacts: Artifacts)
  {
    Transferable(h, from, fromArtifacts) && Compatible(h, from, fromArtifacts, to, toArtifacts)
  }

  /** A bundle of at most 70 MiB of ciphertext and 2 MiB of envelope. */
  predicate ReadableBundle(e: Entry)
  {
    e.Bundle? && |e.ciphertext| <= 73_400_320 && |e.envelope| <= 2_097_152
  }

  ghost predicate EntriesInOrder(from: Objects, fromArtifacts: Artifacts)
  {
    && (forall k | k in from :: IsDigest(k) && |from[k]| <= 73_400_320)
    && (forall k | k in fromArtifacts :: IsDigest(k) && ReadableBundle(fromArtifacts[k]))
  }

  /** At most 10 000 entries, 8 GiB in all and 64 MiB of envelopes. */
  ghost predicate SmallEnough(from: Objects, fromArtifacts: Artifacts)
  {
    && |from.Keys| + |fromArtifacts.Keys| <= 10_000 && SmallTotals(from, fromArtifacts)
  }

  ghost predicate SmallTotals(from: Objects, fromArtifacts: Artifacts)
  {
    && SumOver(from.Keys, ObjectSize(from)) + SumOver(fromArtifacts.Keys, BundleSize(fromArtifacts)) <= 8_589_934_592
    && SumOver(fromArtifacts.Keys, EnvelopeSize(fromArtifacts)) <= 67_108_864
  }

  ghost predicate NoConflict(h: HashFunction, from: Objects, fromArtifacts: Artifacts, to: Objects, toArtifacts: Artifacts)
  {
    && (forall k | k in from && k in to :: |to[k]| <= 73_400_320 && h(to[k]) == k)
    && (forall k | k in fromArtifacts && k in toArtifacts ::
          && fromArtifacts[k].Bundle? && ReadableBundle(toArtifacts[k]) && toArtifacts[k].envelope == fromArtifacts[k].envelope
          && h(toArtifacts[k].ciphertext) == h(fromArtifacts[k].ciphertext))
  }

  lemma LimitsIff(from: Objects, fromArtifacts: Artifacts)
    ensures WithinLimits(from, fromArtifacts) <==> EntriesInOrder(from, fromArtifacts) && SmallEnough(from, fromArtifacts)
  {
  }

  lemma AgreesIff(h: HashFunction, from: Entry, to: Entry)
    ensures Agrees(h, from, to) <==>
      from.Bundle? && ReadableBundle(to) && to.envelope == from.envelope && h(to.ciphertext) == h(from.ciphertext)
  {
  }

  lemma CompatibleIff(h: HashFunction, from: Objects, fromArtifacts: Artifacts, to: Objects, toArtifacts: Artifacts)
    ensures Compatible(h, from, fromArtifacts, to, toArtifacts) <==> NoConflict(h, from, fromArtifacts, to, toArtifacts)
  {
    forall k | k in fromArtifacts && k in toArtifacts
      ensures Agrees(h, fromArtifacts[k], toArtifacts[k]) <==>
        && fromArtifacts[k].Bundle? && ReadableBundle(toArtifacts[k]) && toArtifacts[k].envelope == fromArtifacts[k].envelope
        && h(toArtifacts[k].ciphertext) == h(fromArtifacts[k].ciphertext)
    {
      AgreesIff(h, fromArtifacts[k], toArtifacts[k]);
    }
  }

  /** An exchange is importable exactly if every object is small enough and named by its digest, every bundle is
      complete and small enough, the totals are within the limits, and whatever the destination already holds
      under the same name is sound: for a bundle, with the same envelope and the same ciphertext digest. */
  lemma ImportableIff(h: HashFunction, from: Objects, fromArtifacts: Artifacts, to: Objects, toArtifacts: Artifacts)
    ensures Importable(h, from, fromArtifacts, to, toArtifacts) <==>
      && EntriesInOrder(from, fromArtifacts) && SmallEnough(from, fromArtifacts)
      && (forall k | k in from :: h(from[k]) == k)
      && NoConflict(h, from, fromArtifacts, to, toArtifacts)
  {
    LimitsIff(from, fromArtifacts);
    CompatibleIff(h, from, fromArtifacts, to, toArtifacts);
  }

  lemma ObjectsAllPass(h: HashFunction, from: Objects, to: Objects, names: seq<Text>)
    requires Lists(names, from.Keys) && ObjectsPass(h, from, to, names, |names|)
    ensures forall k | k in from :: ObjectPasses(h, from, to, k)
  {
    forall k | k in from ensures ObjectPasses(h, from, to, k)
    {
      var j := ListedIndex(names, |names|, k);
      ObjectPassesAt(h, from, to, names, |names|, j);
    }
  }

  lemma BundlesAllPass(h: HashFunction, from: Artifacts, to: Artifacts, keys: seq<Text>)
    requires Lists(keys, from.Keys) && BundlesPass(h, from, to, keys, |keys|)
    ensures forall k | k in from :: BundlePasses(h, from, to, k)
  {
    forall k | k in from ensures BundlePasses(h, from, to, k)
    {
      var j := ListedIndex(keys, |keys|, k);
      BundlePassesAt(h, from, to, keys, |keys|, j);
    }
  }

  lemma PassingIsImportable(h: HashFunction, from: Objects, fromArtifacts: Artifacts, to: Objects, toArtifacts: Artifacts)
    requires WithinLimits(from, fromArtifacts)
    requires forall k | k in from :: ObjectPasses(h, from, to, k)
    requires forall k | k in fromArtifacts :: BundlePasses(h, fromArtifacts, toArtifacts, k)
    ensures Importable(h, from, fromArtifacts, to, toArtifacts)
  {
  }

  lemma ObjectBlocks(h: HashFunction, from: Objects, fromArtifacts: Artifacts, to: Objects, toArtifacts: Artifacts, k: Text)
    requires k in from && !ObjectPasses(h, from, to, k)
    ensures !Importable(h, from, fromArtifacts, to, toArtifacts)
  {
  }

  lemma BundleBlocks(h: HashFunction, from: Objects, fromArtifacts: Artifacts, to: Objects, toArtifacts: Artifacts, k: Text)
    requires k in fromArtifacts && !BundlePasses(h, fromArtifacts, toArtifacts, k)
    ensures !Importable(h, from, fromArtifacts, to, toArtifacts)
  {
  }

  /** Where a copy of `from` into `to`, over two listings, stopped: `n` objects and `m` bundles were
      in place. */
  datatype CopyEnd = OverLimits | AtObject(n: nat) | AtBundle(m: nat) | Interrupted(n: nat, m: nat) | Complete

  /** The listing-level account of a copy run and of what it left at the destination. */
  ghost predicate CopyRun(h: HashFunction, from: Objects, fromArtifacts: Artifacts, to: Objects, toArtifacts: Artifacts,
                          names: seq<Text>, keys: seq<Text>, end: CopyEnd, now: Objects, nowArtifacts: Artifacts)
  {
    && Lists(names, from.Keys) && Lists(keys, fromArtifacts.Keys)
    && match end
       case OverLimits => LimitsVerdict(from, fromArtifacts, names, keys).Failure? && now == to && nowArtifacts == toArtifacts
       case AtObject(n) =>
         && n < |names| && !ObjectPasses(h, from, to, names[n])
         && now == Copied(from, names, n, to) && nowArtifacts == toArtifacts
       case AtBundle(m) =>
         && m < |keys| && !BundlePasses(h, fromArtifacts, toArtifacts, keys[m])
         && now == Copied(from, names, |names|, to) && nowArtifacts == Copied(fromArtifacts, keys, m, toArtifacts)
       case Interrupted(n, m) =>
         && n <= |names| && m <= |keys|
         && now == Copied(from, names, n, to) && nowArtifacts == Copied(fromArtifacts, keys, m, toArtifacts)
       case Complete =>
         && LimitsVerdict(from, fromArtifacts, names, keys).Success?
         && ObjectsPass(h, from, to, names, |names|) && BundlesPass(h, fromArtifacts, toArtifacts, keys, |keys|)
         && now == Copied(from, names, |names|, to) && nowArtifacts == Copied(fromArtifacts, keys, |keys|, toArtifacts)
  }

  lemma CopyRunBetween(h: HashFunction, from: Objects, fromArtifacts: Artifacts, to: Objects, toArtifacts: Artifacts,
                       names: seq<Text>, keys: seq<Text>, end: CopyEnd, now: Objects, nowArtifacts: Artifacts)
    requires CopyRun(h, from, fromArtifacts, to, toArtifacts, names, keys, end, now, nowArtifacts)
    ensures Between(to, now, from) && Between(toArtifacts, nowArtifacts, fromArtifacts)
  {
    match end
    case OverLimits =>
    case AtObject(n) => CopiedBetween(from, names, n, to);
    case AtBundle(m) =>
      CopiedBetween(from, names, |names|, to);
      CopiedBetween(fromArtifacts, keys, m, toArtifacts);
    case Interrupted(n, m) =>
      CopiedBetween(from, names, n, to);
      CopiedBetween(fromArtifacts, keys, m, toArtifacts);
    case Complete =>
      CopiedBetween(from, names, |names|, to);
      CopiedBetween(fromArtifacts, keys, |keys|, toArtifacts);
  }

  lemma CopyRunRefused(h: HashFunction, from: Objects, fromArtifacts: Artifacts, to: Objects, toArtifacts: Artifacts,
                       names: seq<Text>, keys: seq<Text>, end: CopyEnd, now: Objects, nowArtifacts: Artifacts)
    requires CopyRun(h, from, fromArtifacts, to, toArtifacts, names, keys, end, now, nowArtifacts)
    requires end.OverLimits? || end.AtObject? || end.AtBundle?
    ensures !Importable(h, from, fromArtifacts, to, toArtifacts)
  {
    match end
    case OverLimits => RefusedIsOver(from, fromArtifacts, names, keys);
    case AtObject(n) =>
      ListedMember(names, n, |names|);
      ObjectBlocks(h, from, fromArtifacts, to, toArtifacts, names[n]);
    case AtBundle(m) =>
      ListedMember(keys, m, |keys|);
      BundleBlocks(h, from, fromArtifacts, to, toArtifacts, keys[m]);
  }

  lemma CopyRunComplete(h: HashFunction, from: Objects, fromArtifacts: Artifacts, to: Objects, toArtifacts: Artifacts,
                        names: seq<Text>, keys: seq<Text>, now: Objects, nowArtifacts: Artifacts)
    requires CopyRun(h, from, fromArtifacts, to, toArtifacts, names, keys, Complete, now, nowArtifacts)
    ensures Importable(h, from, fromArtifacts, to, toArtifacts)
  {
    AcceptedIsWithin(from, fromArtifacts, names, keys);
    ObjectsAllPass(h, from, to, names);
    BundlesAllPass(h, fromArtifacts, toArtifacts, keys);
    PassingIsImportable(h, from, fromArtifacts, to, toArtifacts);
  }

  lemma CopyRunUnion(h: HashFunction, from: Objects, fromArtifacts: Artifacts, to: Objects, toArtifacts: Artifacts,
                     names: seq<Text>, keys: seq<Text>, now: Objects, nowArtifacts: Artifacts)
    requires CopyRun(h, from, fromArtifacts, to, toArtifacts, names, keys, Complete, now, nowArtifacts)
    ensures now == from + to && nowArtifacts == fromArtifacts + toArtifacts
    ensures LimitsVerdict(from, fromArtifacts, names, keys) == Success(TotalBytes(from, fromArtifacts))
    ensures |names| == |from.Keys| && |keys| == |fromArtifacts.Keys|
  {
    AcceptedIsTotal(from, fromArtifacts, names, keys);
    CopiedAll(from, names, to);
    CopiedAll(fromArtifacts, keys, toArtifacts);
    ListedCount(names, |names|);
    ListedCount(keys, |keys|);
  }

  // ---------- laws of transfers ----------

  lemma TransferableReads(h: HashFunction, from: Objects, fromArtifacts: Artifacts)
    requires Transferable(h, from, fromArtifacts)
    ensures forall k | k in from :: ObjectReads(h, k, from[k])
    ensures forall k | k in fromArtifacts :: BundleReads(fromArtifacts[k])
  {
  }

  lemma UnionCompatible(h: HashFunction, from: Objects, fromArtifacts: Artifacts, to: Objects, toArtifacts: Artifacts)
    requires Compatible(h, from, fromArtifacts, to, toArtifacts)
    requires forall k | k in from :: ObjectReads(h, k, from[k])
    requires forall k | k in fromArtifacts :: BundleReads(fromArtifacts[k])
    ensures Compatible(h, from, fromArtifacts, from + to, fromArtifacts + toArtifacts)
  {
  }

  lemma UnionAbsorbs<V>(from: map<Text, V>, to: map<Text, V>)
    ensures from + (from + to) == from + to
  {
  }

  /** Between a union and what is already in it there is nothing. */
  lemma NothingBetween<V>(union: map<Text, V>, now: map<Text, V>, from: map<Text, V>, to: map<Text, V>)
    requires union == from + to && Between(union, now, from)
    ensures now == union
  {
  }

  /** Importing the same exchange again is possible and changes nothing. */
  lemma RepeatedImport(h: HashFunction, from: Objects, fromArtifacts: Artifacts, to: Objects, toArtifacts: Artifacts)
    requires Importable(h, from, fromArtifacts, to, toArtifacts)
    ensures Importable(h, from, fromArtifacts, from + to, fromArtifacts + toArtifacts)
    ensures from + (from + to) == from + to
    ensures fromArtifacts + (fromArtifacts + toArtifacts) == fromArtifacts + toArtifacts
  {
    TransferableReads(h, from, fromArtifacts);
    UnionCompatible(h, from, fromArtifacts, to, toArtifacts);
    UnionAbsorbs(from, to);
    UnionAbsorbs(fromArtifacts, toArtifacts);
  }

  /** Into an empty cache an exchange is copied exactly. */
  lemma IntoEmpty(h: HashFunction, from: Objects, fromArtifacts: Artifacts)
    ensures Importable(h, from, fromArtifacts, map[], map[]) <==> Transferable(h, from, fromArtifacts)
    ensures from + map[] == from && fromArtifacts + map[] == fromArtifacts
  {
  }
}
