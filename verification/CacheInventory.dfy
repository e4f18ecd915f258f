/** When an inventory can be taken. */
module CacheInventory {
  import opened Prelude
  import opened CacheAddress
  import opened CacheStore
  import opened CacheRetention
  import opened CacheCollection

  /** Every object reads and their sizes add up within 64 bits. */
  ghost predicate ObjectsCountable(h: HashFunction, objects: Objects)
  {
    ObjectsRead(h, objects) && SumOver(objects.Keys, ObjectSize(objects)) <= U64_MAX
  }

  ghost predicate BundlesCountable(artifacts: Artifacts)
  {
    && BundlesRead(artifacts) && SumOver(artifacts.Keys, CiphertextSize(artifacts)) <= U64_MAX
    && SumOver(artifacts.Keys, EnvelopeSize(artifacts)) <= U64_MAX
  }

  // ---------- what an inventory counts ----------

  lemma NothingToCount()
    ensures InventoryOf(map[], map[]) == Inventory(0, 0, 0, 0, 0)
  {
    SumWhole([], {}, ObjectSize(map[]));
    SumWhole([], {}, CiphertextSize(map[]));
    SumWhole([], {}, EnvelopeSize(map[]));
  }

  lemma OneMoreKey<V>(m: map<Text, V>, k: Text, v: V)
    requires k !in m
    ensures m[k := v].Keys == m.Keys + {k} && |m[k := v].Keys| == |m.Keys| + 1
  {
    assert m[k := v].Keys == m.Keys + {k};
  }

  lemma OneMoreLength(objects: Objects, k: Text, bytes: Bytes)
    requires k !in objects
    ensures SumOver(objects.Keys + {k}, ObjectSize(objects[k := bytes])) == SumOver(objects.Keys, ObjectSize(objects)) + |bytes|
  {
    SumOverOneMore(objects.Keys, k, ObjectSize(objects), ObjectSize(objects[k := bytes]));
  }

  /** One more object adds one to the objects and its length to their bytes. */
  lemma OneMoreObject(objects: Objects, artifacts: Artifacts, k: Text, bytes: Bytes)
    requires k !in objects
    ensures var i := InventoryOf(objects, artifacts);
      InventoryOf(objects[k := bytes], artifacts) == i.(objectCount := i.objectCount + 1, objectBytes := i.objectBytes + |bytes|)
  {
    OneMoreKey(objects, k, bytes);
    OneMoreLength(objects, k, bytes);
  }

  lemma OneMoreCiphertext(artifacts: Artifacts, k: Text, ciphertext: Bytes, envelope: Bytes)
    requires k !in artifacts
    ensures var more := artifacts[k := Bundle(ciphertext, envelope)];
      SumOver(artifacts.Keys + {k}, CiphertextSize(more)) == SumOver(artifacts.Keys, CiphertextSize(artifacts)) + |ciphertext|
  {
    SumOverOneMore(artifacts.Keys, k, CiphertextSize(artifacts), CiphertextSize(artifacts[k := Bundle(ciphertext, envelope)]));
  }

  lemma OneMoreEnvelope(artifacts: Artifacts, k: Text, ciphertext: Bytes, envelope: Bytes)
    requires k !in artifacts
    ensures var more := artifacts[k := Bundle(ciphertext, envelope)];
      SumOver(artifacts.Keys + {k}, EnvelopeSize(more)) == SumOver(artifacts.Keys, EnvelopeSize(artifacts)) + |envelope|
  {
    SumOverOneMore(artifacts.Keys, k, EnvelopeSize(artifacts), EnvelopeSize(artifacts[k := Bundle(ciphertext, envelope)]));
  }

  /** One more bundle adds one to the artifacts, and the lengths of its two files to their totals. */
  lemma OneMoreBundle(objects: Objects, artifacts: Artifacts, k: Text, ciphertext: Bytes, envelope: Bytes)
    requires k !in artifacts
    ensures var i := InventoryOf(objects, artifacts);
      InventoryOf(objects, artifacts[k := Bundle(ciphertext, envelope)]) ==
        i.(artifactCount := i.artifactCount + 1, ciphertextBytes := i.ciphertextBytes + |ciphertext|, envelopeBytes := i.envelopeBytes + |envelope|)
  {
    OneMoreKey(artifacts, k, Bundle(ciphertext, envelope));
    OneMoreCiphertext(artifacts, k, ciphertext, envelope);
    OneMoreEnvelope(artifacts, k, ciphertext, envelope);
  }

  // ---------- when it can be taken ----------

  lemma {:induction false} ObjectsCounted(h: HashFunction, objects: Objects, names: seq<Text>, i: nat, bytes: nat, j: nat)
    requires i <= |names| && bytes <= U64_MAX && CountObjects(h, objects, names, i, bytes).Success?
    ensures CountObjects(h, objects, names, i, bytes).value <= U64_MAX
    ensures i <= j < |names| ==> ReadVerdict(h, objects, names[j]).Success?
    decreases |names| - i
  {
    if i < |names| {
      ObjectsCounted(h, objects, names, i + 1, bytes + |objects[names[i]]|, j);
    }
  }

  lemma {:induction false} ObjectsUncounted(h: HashFunction, objects: Objects, names: seq<Text>, i: nat, bytes: nat) returns (j: nat)
    requires i <= |names| && bytes == SumTo(names, i, ObjectSize(objects)) && CountObjects(h, objects, names, i, bytes).Failure?
    ensures j < |names| && (ReadVerdict(h, objects, names[j]).Failure? || SumTo(names, |names|, ObjectSize(objects)) > U64_MAX)
    decreases |names| - i
  {
    var found := ReadVerdict(h, objects, names[i]);
    if found.Failure? || bytes + |found.value| > U64_MAX {
      j := i;
      SumToGrows(names, i + 1, |names|, ObjectSize(objects));
    } else {
      j := ObjectsUncounted(h, objects, names, i + 1, bytes + |found.value|);
    }
  }

  lemma {:induction false} BundlesCounted(artifacts: Artifacts, names: seq<Text>, i: nat, ciphertexts: nat, envelopes: nat, j: nat)
    requires i <= |names| && ciphertexts <= U64_MAX && envelopes <= U64_MAX && CountBundles(artifacts, names, i, ciphertexts, envelopes).Success?
    ensures CountBundles(artifacts, names, i, ciphertexts, envelopes).value.0 <= U64_MAX
    ensures CountBundles(artifacts, names, i, ciphertexts, envelopes).value.1 <= U64_MAX
    ensures i <= j < |names| ==> names[j] in artifacts && IsDigest(names[j]) && BundleReads(artifacts[names[j]])
    decreases |names| - i
  {
    if i < |names| {
      var e := artifacts[names[i]];
      BundlesCounted(artifacts, names, i + 1, ciphertexts + |e.ciphertext|, envelopes + |e.envelope|, j);
    }
  }

  lemma {:induction false} BundlesUncounted(artifacts: Artifacts, names: seq<Text>, i: nat, ciphertexts: nat, envelopes: nat) returns (j: nat)
    requires i <= |names| && ciphertexts == SumTo(names, i, CiphertextSize(artifacts)) && envelopes == SumTo(names, i, EnvelopeSize(artifacts))
    requires CountBundles(artifacts, names, i, ciphertexts, envelopes).Failure?
    ensures j < |names|
    ensures (names[j] in artifacts ==> !IsDigest(names[j]) || !BundleReads(artifacts[names[j]]))
      || SumTo(names, |names|, CiphertextSize(artifacts)) > U64_MAX || SumTo(names, |names|, EnvelopeSize(artifacts)) > U64_MAX
    decreases |names| - i
  {
    j := i;
    if names[i] in artifacts && IsDigest(names[i]) && BundleReads(artifacts[names[i]]) {
      var e := artifacts[names[i]];
      if ciphertexts + |e.ciphertext| > U64_MAX || envelopes + |e.envelope| > U64_MAX {
        SumToGrows(names, i + 1, |names|, CiphertextSize(artifacts));
        SumToGrows(names, i + 1, |names|, EnvelopeSize(artifacts));
      } else {
        j := BundlesUncounted(artifacts, names, i + 1, ciphertexts + |e.ciphertext|, envelopes + |e.envelope|);
      }
    }
  }

  /** Counting the objects succeeds, over any listing, exactly where they are countable. */
  lemma ObjectsCountedIff(h: HashFunction, objects: Objects, names: seq<Text>)
    requires Lists(names, objects.Keys)
    ensures CountObjects(h, objects, names, 0, 0).Success? <==> ObjectsCountable(h, objects)
    ensures CountObjects(h, objects, names, 0, 0).Success? ==> CountObjects(h, objects, names, 0, 0).value == SumOver(objects.Keys, ObjectSize(objects))
  {
    SumWhole(names, objects.Keys, ObjectSize(objects));
    if CountObjects(h, objects, names, 0, 0).Success? {
      CountObjectsTotals(h, objects, names, 0, 0);
      ObjectsCounted(h, objects, names, 0, 0, 0);
      forall k | k in objects ensures ReadVerdict(h, objects, k).Success?
      {
        var j := ListedIndex(names, |names|, k);
        ObjectsCounted(h, objects, names, 0, 0, j);
      }
    } else {
      var j := ObjectsUncounted(h, objects, names, 0, 0);
      ListedMember(names, j, |names|);
    }
  }

  lemma BundlesCountedIff(artifacts: Artifacts, keys: seq<Text>)
    requires Lists(keys, artifacts.Keys)
    ensures CountBundles(artifacts, keys, 0, 0, 0).Success? <==> BundlesCountable(artifacts)
    ensures CountBundles(artifacts, keys, 0, 0, 0).Success? ==>
      CountBundles(artifacts, keys, 0, 0, 0).value == (SumOver(artifacts.Keys, CiphertextSize(artifacts)), SumOver(artifacts.Keys, EnvelopeSize(artifacts)))
  {
    SumWhole(keys, artifacts.Keys, CiphertextSize(artifacts));
    SumWhole(keys, artifacts.Keys, EnvelopeSize(artifacts));
    if CountBundles(artifacts, keys, 0, 0, 0).Success? {
      CountBundlesTotals(artifacts, keys, 0, 0, 0);
      BundlesCounted(artifacts, keys, 0, 0, 0, 0);
      forall k | k in artifacts ensures IsDigest(k) && BundleReads(artifacts[k])
      {
        var j := ListedIndex(keys, |keys|, k);
        BundlesCounted(artifacts, keys, 0, 0, 0, j);
      }
    } else {
      var j := BundlesUncounted(artifacts, keys, 0, 0, 0);
      ListedMember(keys, j, |keys|);
    }
  }
}
