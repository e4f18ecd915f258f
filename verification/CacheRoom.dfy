/** What a cache can hold before its own reader refuses it. Neither storing nor importing asks. */
module CacheRoom {
  import opened Prelude
  import opened CacheAddress
  import opened CacheStore
  import opened CacheTransfer
  import opened CacheRetention
  import opened CacheCollection

  /** The reader's limits on a whole directory. */
  ghost predicate WithinReader(artifacts: Artifacts)
  {
    |artifacts.Keys| <= MAX_ENTRIES && SumOver(artifacts.Keys, EnvelopeSize(artifacts)) <= MAX_ENVELOPES
  }

  lemma ReadableIs(artifacts: Artifacts)
    ensures Readable(artifacts) <==> BundlesRead(artifacts) && WithinReader(artifacts)
  {
  }

  /** The limits still hold once these bundles have been added; what is there already stays as it is. */
  ghost predicate RoomFor(added: Artifacts, to: Artifacts)
  {
    && |added.Keys + to.Keys| <= MAX_ENTRIES
    && SumOver(added.Keys + to.Keys, EnvelopeSize(added + to)) <= MAX_ENVELOPES
  }

  /** A readable cache that gains bundles stays readable if and only if there is room for them. */
  lemma UnionReadsIff(added: Artifacts, to: Artifacts)
    requires BundlesRead(added) && Readable(to)
    ensures Readable(added + to) <==> RoomFor(added, to)
  {
    UnionReads(added, to);
    ReadableIs(added + to);
    RoomIsWithin(added, to);
  }

  lemma UnionReads(added: Artifacts, to: Artifacts)
    requires BundlesRead(added) && BundlesRead(to)
    ensures BundlesRead(added + to)
  {
  }

  lemma RoomIsWithin(added: Artifacts, to: Artifacts)
    ensures RoomFor(added, to) <==> WithinReader(added + to)
  {
    assert (added + to).Keys == added.Keys + to.Keys;
  }

  /** Everything new reads. */
  ghost predicate NewReads(before: Artifacts, after: Artifacts)
  {
    forall k | k in after && k !in before :: IsDigest(k) && BundleReads(after[k])
  }

  /** A cache that has only grown by bundles that read is still readable exactly within the limits. */
  lemma GrownReadsIff(before: Artifacts, after: Artifacts)
    requires PartOf(before, after) && NewReads(before, after) && Readable(before)
    ensures Readable(after) <==> WithinReader(after)
  {
    forall k | k in after ensures IsDigest(k) && BundleReads(after[k])
    {
      assert k in before ==> after[k] == before[k];
    }
    ReadableIs(after);
  }

  lemma TransferableIsReadable(h: HashFunction, objects: Objects, artifacts: Artifacts)
    requires Transferable(h, objects, artifacts)
    ensures Readable(artifacts)
  {
  }

  // ---------- the limit on entries ----------

  lemma SetsAdd(part: set<Text>, whole: set<Text>, k: Text)
    requires k in part && k !in whole
    ensures |part + whole| > |whole|
  {
    SetsGrow(whole + {k}, part + whole);
  }

  /** A full cache accepts one more bundle, and is then beyond its reader. */
  lemma FullAcceptsMore(h: HashFunction, from: Objects, added: Artifacts, objects: Objects, to: Artifacts, k: Text)
    requires Transferable(h, from, added) && Compatible(h, from, added, objects, to)
    requires Readable(to) && |to.Keys| == MAX_ENTRIES && k in added && k !in to
    ensures Importable(h, from, added, objects, to) && !Readable(added + to)
  {
    SetsAdd(added.Keys, to.Keys, k);
    assert (added + to).Keys == added.Keys + to.Keys;
  }

  // ---------- a full cache ----------

  /** The last `width` decimal digits of a number. */
  function Digits(n: nat, width: nat): (t: Text)
    ensures |t| == width
  {
    if width == 0 then [] else Digits(n / 10, width - 1) + [(48 + n % 10) as byte]
  }

  lemma {:induction false} DigitsAreHex(n: nat, width: nat, i: nat)
    requires i <= width
    ensures IsHex(Digits(n, width), i)
  {
    if i > 0 {
      DigitsAreHex(n, width, i - 1);
      DigitAt(n, width, i - 1);
    }
  }

  lemma {:induction false} DigitAt(n: nat, width: nat, i: nat)
    requires i < width
    ensures 48 <= Digits(n, width)[i] <= 57
  {
    if i < width - 1 {
      DigitAt(n / 10, width - 1, i);
    }
  }

  lemma {:induction false} DigitsDiffer(m: nat, n: nat, width: nat)
    requires m < n < Pow10(width)
    ensures Digits(m, width) != Digits(n, width)
  {
    if Digits(m, width) == Digits(n, width) {
      var a, b := Digits(m, width), Digits(n, width);
      assert a[width - 1] == b[width - 1];
      assert a[..width - 1] == Digits(m / 10, width - 1) && b[..width - 1] == Digits(n / 10, width - 1);
      DigitsDiffer(m / 10, n / 10, width - 1);
    }
  }

  lemma {:induction false} Pow10Grows(k: nat, n: nat)
    requires k <= n
    ensures Pow10(k) <= Pow10(n)
  {
    if k < n {
      Pow10Grows(k, n - 1);
    }
  }

  /** Different names for more bundles than a reader accepts. */
  function Numbered(n: nat): (k: Text)
  {
    Digits(n, 64)
  }

  lemma NumberedDiffer(m: nat, n: nat)
    requires m < n <= MAX_ENTRIES
    ensures Numbered(m) != Numbered(n)
  {
    assert Pow10(5) == 100_000;
    Pow10Grows(5, 64);
    DigitsDiffer(m, n, 64);
  }

  lemma NumberedIsDigest(n: nat)
    ensures IsDigest(Numbered(n))
  {
    DigitsAreHex(n, 64, 64);
  }

  /** A cache of this many empty bundles. */
  function FullOf(n: nat): (artifacts: Artifacts)
  {
    if n == 0 then map[] else FullOf(n - 1)[Numbered(n - 1) := Bundle([], [])]
  }

  lemma {:induction false} FullOfHas(n: nat, k: Text)
    requires k in FullOf(n)
    ensures FullOf(n)[k] == Bundle([], []) && exists i: nat | i < n :: k == Numbered(i)
  {
    if k != Numbered(n - 1) {
      FullOfHas(n - 1, k);
    }
  }

  lemma NextIsNew(n: nat)
    requires n <= MAX_ENTRIES
    ensures Numbered(n) !in FullOf(n)
  {
    if Numbered(n) in FullOf(n) {
      FullOfHas(n, Numbered(n));
      var i: nat :| i < n && Numbered(n) == Numbered(i);
      NumberedDiffer(i, n);
    }
  }

  lemma OneMoreKey(artifacts: Artifacts, k: Text)
    requires k !in artifacts
    ensures |artifacts[k := Bundle([], [])].Keys| == |artifacts.Keys| + 1
  {
    assert artifacts[k := Bundle([], [])].Keys == artifacts.Keys + {k};
  }

  lemma {:induction false} FullOfCount(n: nat)
    requires n <= MAX_ENTRIES
    ensures |FullOf(n).Keys| == n
  {
    if n > 0 {
      FullOfCount(n - 1);
      NextIsNew(n - 1);
      OneMoreKey(FullOf(n - 1), Numbered(n - 1));
    }
  }

  lemma {:induction false} WeightlessSum(names: seq<Text>, i: nat, size: Text -> nat)
    requires i <= |names| && forall k :: size(k) == 0
    ensures SumTo(names, i, size) == 0
  {
    if i > 0 {
      WeightlessSum(names, i - 1, size);
    }
  }

  lemma FullOfReads(n: nat)
    requires n <= MAX_ENTRIES
    ensures Readable(FullOf(n))
  {
    var artifacts := FullOf(n);
    forall k | k in artifacts ensures IsDigest(k) && artifacts[k] == Bundle([], [])
    {
      FullOfHas(n, k);
      var i: nat :| i < n && k == Numbered(i);
      NumberedIsDigest(i);
    }
    FullOfCount(n);
    ListingExists(artifacts.Keys);
    WeightlessSum(Enumerate(artifacts.Keys), |Enumerate(artifacts.Keys)|, EnvelopeSize(artifacts));
  }

  /** There is a full cache, and a bundle it does not have. */
  lemma FullCacheExists()
    ensures Readable(FullOf(MAX_ENTRIES)) && |FullOf(MAX_ENTRIES).Keys| == MAX_ENTRIES
    ensures IsDigest(Numbered(MAX_ENTRIES)) && Numbered(MAX_ENTRIES) !in FullOf(MAX_ENTRIES)
  {
    FullOfReads(MAX_ENTRIES);
    FullOfCount(MAX_ENTRIES);
    NumberedIsDigest(MAX_ENTRIES);
    NextIsNew(MAX_ENTRIES);
  }
}
