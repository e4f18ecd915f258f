/** Packing a selection: the files of the selected artifacts, in the order of their secrets. */
module Packing {
  import opened Prelude
  import opened CacheAddress
  import opened CacheStore
  import opened CacheOperations
  import opened Ordering
  import opened ArtifactPolicy
  import opened ArtifactSelection
  import opened FullSelection
  import opened Wire
  import opened Transport

  /** The keys selected for the first `i` listed secrets. */
  function KeysTo(selected: map<Text, Candidate>, ids: seq<Text>, i: nat): (r: seq<Text>)
    requires i <= |ids|
    ensures |r| == i
  {
    if i == 0 then []
    else KeysTo(selected, ids, i - 1) + [if ids[i - 1] in selected then selected[ids[i - 1]].key else []]
  }

  function FilesTo(artifacts: Artifacts, keys: seq<Text>, i: nat): (r: seq<Files>)
    requires i <= |keys|
    ensures |r| == i
  {
    if i == 0 then []
    else FilesTo(artifacts, keys, i - 1) + [FilesOf(if keys[i - 1] in artifacts then artifacts[keys[i - 1]] else Malformed)]
  }

  lemma {:induction false} KeyAt(selected: map<Text, Candidate>, ids: seq<Text>, i: nat, j: nat)
    requires j < i <= |ids| && ids[j] in selected
    ensures KeysTo(selected, ids, i)[j] == selected[ids[j]].key
  {
    if j < i - 1 {
      KeyAt(selected, ids, i - 1, j);
    }
  }

  lemma {:induction false} FilesAt(artifacts: Artifacts, keys: seq<Text>, i: nat, j: nat)
    requires j < i <= |keys| && keys[j] in artifacts
    ensures FilesTo(artifacts, keys, i)[j] == FilesOf(artifacts[keys[j]])
  {
    if j < i - 1 {
      FilesAt(artifacts, keys, i - 1, j);
    }
  }

  lemma FilesPrefix(artifacts: Artifacts, keys: seq<Text>, k: Text, i: nat)
    requires i <= |keys|
    ensures FilesTo(artifacts, keys + [k], i) == FilesTo(artifacts, keys, i)
  {
    if i > 0 {
      FilesPrefix(artifacts, keys, k, i - 1);
    }
  }

  /** Different secrets have different artifacts selected. */
  lemma KeysDiffer(v: View, artifacts: Artifacts, selected: map<Text, Candidate>, one: Text, two: Text)
    requires IsFullSelection(v, artifacts, selected) && one in selected && two in selected && selected[one].key == selected[two].key
    ensures one == two
  {
    assert VerifiesIn(v, artifacts, selected[one].key, one, selected[one].generation);
    assert VerifiesIn(v, artifacts, selected[two].key, two, selected[two].generation);
    OneOwner(v, v, artifacts, selected[one].key, one, selected[one].generation, two, selected[two].generation);
  }

  lemma NextKeyIsNew(v: View, artifacts: Artifacts, selected: map<Text, Candidate>, ids: seq<Text>, i: nat)
    requires IsFullSelection(v, artifacts, selected) && i < |ids| && Lists(ids, selected.Keys)
    ensures ids[i] in selected && selected[ids[i]].key !in Listed(KeysTo(selected, ids, i), i)
  {
    ListedMember(ids, i, |ids|);
    var keys, k := KeysTo(selected, ids, i), selected[ids[i]].key;
    if k in Listed(keys, i) {
      var j := ListedIndex(keys, i, k);
      ListedMember(ids, j, |ids|);
      KeyAt(selected, ids, i, j);
      KeysDiffer(v, artifacts, selected, ids[j], ids[i]);
      NotListedYet(ids, i, |ids|);
      ListedMember(ids, j, i);
    }
  }

  lemma {:induction false} KeysDistinct(v: View, artifacts: Artifacts, selected: map<Text, Candidate>, ids: seq<Text>, i: nat)
    requires IsFullSelection(v, artifacts, selected) && i <= |ids| && Lists(ids, selected.Keys)
    ensures NoRepeats(KeysTo(selected, ids, i), i)
  {
    if i > 0 {
      KeysDistinct(v, artifacts, selected, ids, i - 1);
      NextKeyIsNew(v, artifacts, selected, ids, i - 1);
      ListedPrefix(KeysTo(selected, ids, i - 1), selected[ids[i - 1]].key, i - 1);
    }
  }

  lemma SelectedIsListed(selected: map<Text, Candidate>, ids: seq<Text>, id: Text)
    requires Lists(ids, selected.Keys) && id in selected
    ensures selected[id].key in Listed(KeysTo(selected, ids, |ids|), |ids|)
  {
    var j := ListedIndex(ids, |ids|, id);
    KeyAt(selected, ids, |ids|, j);
    ListedMember(KeysTo(selected, ids, |ids|), j, |ids|);
  }

  lemma ListedIsSelected(selected: map<Text, Candidate>, ids: seq<Text>, k: Text) returns (id: Text)
    requires Lists(ids, selected.Keys) && k in Listed(KeysTo(selected, ids, |ids|), |ids|)
    ensures id in selected && selected[id].key == k
  {
    var j := ListedIndex(KeysTo(selected, ids, |ids|), |ids|, k);
    ListedMember(ids, j, |ids|);
    KeyAt(selected, ids, |ids|, j);
    id := ids[j];
  }

  /** The first `n` keys have portable bundles of one target behind them. */
  predicate AllFor(w: World, artifacts: Artifacts, keys: seq<Text>, target: Text, n: nat)
    requires n <= |keys|
  {
    n == 0 ||
    (AllFor(w, artifacts, keys, target, n - 1) && Portable(w, artifacts, keys[n - 1]) && Owner(w, artifacts, keys[n - 1]) == Some(target))
  }

  lemma {:induction false} AllForAt(w: World, artifacts: Artifacts, keys: seq<Text>, target: Text, n: nat, j: nat)
    requires j < n <= |keys| && AllFor(w, artifacts, keys, target, n)
    ensures Portable(w, artifacts, keys[j]) && Owner(w, artifacts, keys[j]) == Some(target)
  {
    if j < n - 1 {
      AllForAt(w, artifacts, keys, target, n - 1, j);
    }
  }

  /** Packed keys are those of the selection, each once, with portable bundles behind them. */
  ghost predicate Packs(v: View, artifacts: Artifacts, selected: map<Text, Candidate>, keys: seq<Text>)
  {
    && NoRepeats(keys, |keys|)
    && (forall id | id in selected :: selected[id].key in Listed(keys, |keys|))
    && AllFor(v.w, artifacts, keys, v.policy.targetId, |keys|)
  }

  lemma SelectedIsPortable(v: View, artifacts: Artifacts, selected: map<Text, Candidate>, id: Text)
    requires IsFullSelection(v, artifacts, selected) && Readable(artifacts) && id in selected
    ensures Portable(v.w, artifacts, selected[id].key) && Owner(v.w, artifacts, selected[id].key) == Some(v.policy.targetId)
  {
    assert VerifiesIn(v, artifacts, selected[id].key, id, selected[id].generation);
    VerifiedIsPortable(v, artifacts, selected[id].key, id, selected[id].generation);
  }

  lemma KeyIsFor(v: View, artifacts: Artifacts, selected: map<Text, Candidate>, ids: seq<Text>, j: nat)
    requires IsFullSelection(v, artifacts, selected) && Readable(artifacts) && Lists(ids, selected.Keys) && j < |ids|
    ensures var k := KeysTo(selected, ids, |ids|)[j]; Portable(v.w, artifacts, k) && Owner(v.w, artifacts, k) == Some(v.policy.targetId)
  {
    ListedMember(ids, j, |ids|);
    KeyAt(selected, ids, |ids|, j);
    SelectedIsPortable(v, artifacts, selected, ids[j]);
  }

  lemma {:induction false} SelectionIsFor(v: View, artifacts: Artifacts, selected: map<Text, Candidate>, ids: seq<Text>, n: nat)
    requires IsFullSelection(v, artifacts, selected) && Readable(artifacts) && Lists(ids, selected.Keys) && n <= |ids|
    ensures AllFor(v.w, artifacts, KeysTo(selected, ids, |ids|), v.policy.targetId, n)
  {
    if n > 0 {
      SelectionIsFor(v, artifacts, selected, ids, n - 1);
      KeyIsFor(v, artifacts, selected, ids, n - 1);
    }
  }

  lemma SelectionPacks(v: View, artifacts: Artifacts, selected: map<Text, Candidate>, ids: seq<Text>, keys: seq<Text>)
    requires IsFullSelection(v, artifacts, selected) && Readable(artifacts) && Lists(ids, selected.Keys)
    requires keys == KeysTo(selected, ids, |ids|)
    ensures Packs(v, artifacts, selected, keys)
  {
    KeysDistinct(v, artifacts, selected, ids, |ids|);
    SelectionIsFor(v, artifacts, selected, ids, |ids|);
    forall id | id in selected ensures selected[id].key in Listed(keys, |keys|)
    {
      SelectedIsListed(selected, ids, id);
    }
  }

  /** The selected keys in the order of their secrets. */
  ghost function PackedKeys(selected: map<Text, Candidate>): (keys: seq<Text>)
  {
    KeysTo(selected, InOrder(selected.Keys), |InOrder(selected.Keys)|)
  }

  /** The files of a selection, in the order they are packed. */
  ghost function SelectionFiles(artifacts: Artifacts, selected: map<Text, Candidate>): (files: seq<Files>)
  {
    FilesTo(artifacts, PackedKeys(selected), |PackedKeys(selected)|)
  }

  /** The first packed key is the selected one of the least secret, and so on upwards. */
  lemma PackedInOrder(selected: map<Text, Candidate>, i: nat)
    requires i < |InOrder(selected.Keys)|
    ensures InOrder(selected.Keys)[i] in selected && |PackedKeys(selected)| == |InOrder(selected.Keys)|
    ensures PackedKeys(selected)[i] == selected[InOrder(selected.Keys)[i]].key
  {
    var ids := InOrder(selected.Keys);
    InOrderLists(selected.Keys);
    ListedMember(ids, i, |ids|);
    KeyAt(selected, ids, |ids|, i);
  }

  lemma SelectionPresent(v: View, artifacts: Artifacts, selected: map<Text, Candidate>)
    requires IsFullSelection(v, artifacts, selected)
    ensures forall id | id in selected :: selected[id].key in artifacts
  {
    forall id | id in selected ensures selected[id].key in artifacts
    {
      assert VerifiesIn(v, artifacts, selected[id].key, id, selected[id].generation);
    }
  }

  /** Reads the files of the listed secrets. */
  method ReadFiles(cache: Cache, selected: map<Text, Candidate>, ids: seq<Text>) returns (files: seq<Files>, ghost keys: seq<Text>)
    requires forall j | 0 <= j < |ids| :: ids[j] in selected && selected[ids[j]].key in cache.artifacts
    ensures keys == KeysTo(selected, ids, |ids|) && files == FilesTo(cache.artifacts, keys, |keys|)
  {
    files, keys := [], [];
    var i: nat := 0;
    while i < |ids|
      invariant 0 <= i <= |ids| && keys == KeysTo(selected, ids, i) && files == FilesTo(cache.artifacts, keys, i)
    {
      var k := selected[ids[i]].key;
      FilesPrefix(cache.artifacts, keys, k, i);
      keys := keys + [k];
      files := files + [FilesOf(cache.artifacts[k])];
      i := i + 1;
    }
  }

  /** Reads the files of a selection, in the order of the secrets. */
  method SelectedFiles(cache: Cache, ghost v: View, selected: map<Text, Candidate>) returns (files: seq<Files>)
    requires IsFullSelection(v, cache.artifacts, selected) && Readable(cache.artifacts) && v.w.hash == cache.h
    ensures Packs(v, cache.artifacts, selected, PackedKeys(selected))
    ensures files == SelectionFiles(cache.artifacts, selected)
  {
    var ids := SortedListing(selected.Keys);
    SelectionPresent(v, cache.artifacts, selected);
    forall j | 0 <= j < |ids| ensures ids[j] in selected
    {
      ListedMember(ids, j, |ids|);
    }
    ghost var keys;
    files, keys := ReadFiles(cache, selected, ids);
    SelectionPacks(v, cache.artifacts, selected, ids, keys);
  }

  /** Appending the files of portable bundles extends what a bundle carries. */
  lemma CarriesMore(w: World, artifacts: Artifacts, keys: seq<Text>, wire: seq<WireArtifact>, more: seq<Text>)
    requires Carries(w, artifacts, keys, wire) && forall j | 0 <= j < |more| :: Portable(w, artifacts, more[j])
    ensures Carries(w, artifacts, keys + more, Appended(wire, FilesTo(artifacts, more, |more|), |more|))
  {
    var files := FilesTo(artifacts, more, |more|);
    var all := Appended(wire, files, |more|);
    forall j | 0 <= j < |all| ensures Carried(w, artifacts, (keys + more)[j], all[j])
    {
      AppendedAt(wire, files, |more|, j);
      if j < |wire| {
        assert Carried(w, artifacts, keys[j], wire[j]);
      } else {
        FilesAt(artifacts, more, |more|, j - |wire|);
      }
    }
  }

  lemma AllPortable(w: World, artifacts: Artifacts, keys: seq<Text>, target: Text)
    requires AllFor(w, artifacts, keys, target, |keys|)
    ensures forall j | 0 <= j < |keys| :: Portable(w, artifacts, keys[j])
  {
    forall j | 0 <= j < |keys| ensures Portable(w, artifacts, keys[j])
    {
      AllForAt(w, artifacts, keys, target, |keys|, j);
    }
  }
}
