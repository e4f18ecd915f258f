/** A staged bundle is always within the limits of an import. */
module TransportLimits {
  import opened Prelude
  import opened CacheAddress
  import opened CacheStore
  import opened CacheRetention
  import opened CacheCollection
  import opened CacheTransfer
  import opened ArtifactPolicy
  import opened Wire
  import opened Transport
  import Base64

  lemma EncodingIsLonger(b: Bytes)
    ensures |b| <= |Base64.Encode(b)|
  {
    Base64.EncodedLength(b);
  }

  lemma CarriedWeight(w: World, artifacts: Artifacts, k: Text, a: WireArtifact)
    requires Carried(w, artifacts, k, a)
    ensures BundleSize(artifacts)(k) <= EntrySize(a)
  {
    EncodingIsLonger(artifacts[k].ciphertext);
    EncodingIsLonger(artifacts[k].envelope);
  }

  lemma CarriedAt(w: World, artifacts: Artifacts, keys: seq<Text>, wire: seq<WireArtifact>, j: nat)
    requires Carries(w, artifacts, keys, wire) && j < |wire|
    ensures |keys| == |wire| && BundleSize(artifacts)(keys[j]) <= EntrySize(wire[j])
  {
    CarriedWeight(w, artifacts, keys[j], wire[j]);
  }

  lemma {:induction false} SumBelowSizes(keys: seq<Text>, wire: seq<WireArtifact>, size: Text -> nat, i: nat)
    requires i <= |keys| == |wire| && forall j | 0 <= j < |wire| :: size(keys[j]) <= EntrySize(wire[j])
    ensures SumTo(keys, i, size) <= SizeTo(wire, i)
  {
    if i > 0 {
      SumBelowSizes(keys, wire, size, i - 1);
    }
  }

  lemma CarriedBytes(w: World, artifacts: Artifacts, keys: seq<Text>, wire: seq<WireArtifact>)
    requires Carries(w, artifacts, keys, wire)
    ensures SumTo(keys, |keys|, BundleSize(artifacts)) <= WireSize(wire)
  {
    forall j | 0 <= j < |wire| ensures BundleSize(artifacts)(keys[j]) <= EntrySize(wire[j])
    {
      CarriedAt(w, artifacts, keys, wire, j);
    }
    SumBelowSizes(keys, wire, BundleSize(artifacts), |wire|);
  }

  /** Over keys that are there, a restricted directory weighs what the whole one does. */
  lemma PickedSizes(artifacts: Artifacts, keys: seq<Text>, k: Text)
    requires k in Listed(keys, |keys|)
    ensures BundleSize(Picked(artifacts, keys, |keys|))(k) == BundleSize(artifacts)(k)
    ensures EnvelopeSize(Picked(artifacts, keys, |keys|))(k) == EnvelopeSize(artifacts)(k)
  {
    PickedLookup(artifacts, keys, |keys|, k);
  }

  lemma PickedKeys(artifacts: Artifacts, keys: seq<Text>)
    requires Listed(keys, |keys|) <= artifacts.Keys
    ensures Picked(artifacts, keys, |keys|).Keys == Listed(keys, |keys|)
  {
    forall k ensures k in Picked(artifacts, keys, |keys|) <==> k in Listed(keys, |keys|)
    {
      PickedLookup(artifacts, keys, |keys|, k);
    }
  }

  lemma PickedSums(artifacts: Artifacts, keys: seq<Text>)
    ensures var picked := Picked(artifacts, keys, |keys|);
      && SumTo(keys, |keys|, BundleSize(picked)) == SumTo(keys, |keys|, BundleSize(artifacts))
      && SumTo(keys, |keys|, EnvelopeSize(picked)) == SumTo(keys, |keys|, EnvelopeSize(artifacts))
  {
    var picked := Picked(artifacts, keys, |keys|);
    forall j | 0 <= j < |keys|
      ensures BundleSize(picked)(keys[j]) == BundleSize(artifacts)(keys[j]) && EnvelopeSize(picked)(keys[j]) == EnvelopeSize(artifacts)(keys[j])
    {
      ListedMember(keys, j, |keys|);
      PickedSizes(artifacts, keys, keys[j]);
    }
    SumToSame(keys, |keys|, BundleSize(picked), BundleSize(artifacts));
    SumToSame(keys, |keys|, EnvelopeSize(picked), EnvelopeSize(artifacts));
  }

  lemma {:induction false} PartWeighsLess(part: set<Text>, whole: set<Text>, size: Text -> nat)
    requires part <= whole
    ensures SetSum(part, size) <= SetSum(whole, size)
    decreases |whole|
  {
    if k :| k in whole && k !in part {
      SumTake(whole, size, k);
      PartWeighsLess(part, whole - {k}, size);
    } else {
      assert part == whole;
    }
  }

  lemma PickedEnvelopes(artifacts: Artifacts, keys: seq<Text>)
    requires NoRepeats(keys, |keys|) && Listed(keys, |keys|) <= artifacts.Keys
    ensures SumTo(keys, |keys|, EnvelopeSize(artifacts)) <= SumOver(artifacts.Keys, EnvelopeSize(artifacts))
    ensures |keys| <= |artifacts.Keys|
  {
    var size := EnvelopeSize(artifacts);
    ListingExists(artifacts.Keys);
    SumListed(keys, |keys|, size);
    SumListed(Enumerate(artifacts.Keys), |Enumerate(artifacts.Keys)|, size);
    PartWeighsLess(Listed(keys, |keys|), artifacts.Keys, size);
    SetsGrow(Listed(keys, |keys|), artifacts.Keys);
    ListedCount(keys, |keys|);
  }

  lemma CarriedKeys(w: World, artifacts: Artifacts, keys: seq<Text>, wire: seq<WireArtifact>, k: Text)
    requires Carries(w, artifacts, keys, wire) && k in Listed(keys, |keys|)
    ensures k in artifacts && IsDigest(k) && BundleReads(artifacts[k])
    ensures Lookup(Picked(artifacts, keys, |keys|), k) == Some(artifacts[k])
  {
    var j := ListedIndex(keys, |keys|, k);
    assert Carried(w, artifacts, keys[j], wire[j]);
    PickedLookup(artifacts, keys, |keys|, k);
  }

  lemma PickedReads(w: World, artifacts: Artifacts, keys: seq<Text>, wire: seq<WireArtifact>)
    requires Carries(w, artifacts, keys, wire)
    ensures Picked(artifacts, keys, |keys|).Keys == Listed(keys, |keys|) <= artifacts.Keys
    ensures forall k | k in Picked(artifacts, keys, |keys|) :: IsDigest(k) && BundleReads(Picked(artifacts, keys, |keys|)[k])
  {
    forall k | k in Listed(keys, |keys|)
      ensures k in artifacts && IsDigest(k) && BundleReads(artifacts[k]) && Lookup(Picked(artifacts, keys, |keys|), k) == Some(artifacts[k])
    {
      CarriedKeys(w, artifacts, keys, wire, k);
    }
    PickedKeys(artifacts, keys);
  }

  lemma NoObjects(objects: Objects)
    requires objects == map[]
    ensures SumOver(objects.Keys, ObjectSize(objects)) == 0 && |objects.Keys| == 0
  {
    SumWhole([], objects.Keys, ObjectSize(objects));
  }

  lemma StagedBytes(w: World, artifacts: Artifacts, keys: seq<Text>, wire: seq<WireArtifact>)
    requires NoRepeats(keys, |keys|) && Carries(w, artifacts, keys, wire) && Fits(wire)
    ensures var staged := Picked(artifacts, keys, |keys|); SumOver(staged.Keys, BundleSize(staged)) <= WIRE_LIMIT
  {
    var staged := Picked(artifacts, keys, |keys|);
    PickedReads(w, artifacts, keys, wire);
    PickedSums(artifacts, keys);
    CarriedBytes(w, artifacts, keys, wire);
    SumWhole(keys, staged.Keys, BundleSize(staged));
  }

  lemma StagedEnvelopes(artifacts: Artifacts, keys: seq<Text>)
    requires NoRepeats(keys, |keys|) && Listed(keys, |keys|) <= artifacts.Keys
    ensures var staged := Picked(artifacts, keys, |keys|);
      && SumOver(staged.Keys, EnvelopeSize(staged)) <= SumOver(artifacts.Keys, EnvelopeSize(artifacts))
      && |staged.Keys| <= |artifacts.Keys|
  {
    var staged := Picked(artifacts, keys, |keys|);
    PickedKeys(artifacts, keys);
    PickedEnvelopes(artifacts, keys);
    PickedSums(artifacts, keys);
    SumWhole(keys, staged.Keys, EnvelopeSize(staged));
  }

  lemma LimitsMet(h: HashFunction, staged: Artifacts)
    requires forall k | k in staged :: IsDigest(k) && BundleReads(staged[k])
    requires |staged.Keys| <= MAX_ENTRIES
    requires SumOver(staged.Keys, BundleSize(staged)) <= WIRE_LIMIT && SumOver(staged.Keys, EnvelopeSize(staged)) <= MAX_ENVELOPES
    ensures Transferable(h, map[], staged)
  {
    NoObjects(map[]);
  }

  /** What a filled bundle carries from a readable cache passes every import limit once staged. */
  lemma StagedIsTransferable(w: World, artifacts: Artifacts, keys: seq<Text>, wire: seq<WireArtifact>)
    requires Readable(artifacts) && NoRepeats(keys, |keys|) && Carries(w, artifacts, keys, wire) && Fits(wire)
    ensures Transferable(w.hash, map[], Picked(artifacts, keys, |keys|))
  {
    PickedReads(w, artifacts, keys, wire);
    StagedBytes(w, artifacts, keys, wire);
    StagedEnvelopes(artifacts, keys);
    LimitsMet(w.hash, Picked(artifacts, keys, |keys|));
  }
}
