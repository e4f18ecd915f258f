/** Prepared artifacts on the wire: what append_artifacts admits always fits the exchange limit. JSON
    text is modelled as a string of ASCII characters, one byte each. */
module Wire {
  import opened Prelude
  import Base64

  const WIRE_LIMIT: nat := 128 * 1024 * 1024
  const SLACK: nat := 1024
  const ENTRY_COST: nat := 128

  /** The two files of an artifact. */
  datatype Files = Files(ciphertext: Bytes, envelope: Bytes)

  /** The same two files, encoded. */
  datatype WireArtifact = WireArtifact(ciphertext: Bytes, envelope: Bytes)

  datatype WireError = WireIo | TooLarge

  // ---------- the serialised forms ----------

  function Chars(b: Bytes): (s: string)
    ensures |s| == |b|
  {
    seq(|b|, i requires 0 <= i < |b| => b[i] as char)
  }

  function ArtifactJson(a: WireArtifact): (s: string)
  {
    "{\"ciphertext\":\"" + Chars(a.ciphertext) + "\",\"envelope\":\"" + Chars(a.envelope) + "\"}"
  }

  /** The first `i` artifacts, separated by commas. */
  function ListJson(artifacts: seq<WireArtifact>, i: nat): (s: string)
    requires i <= |artifacts|
  {
    if i == 0 then ""
    else if i == 1 then ArtifactJson(artifacts[0])
    else ListJson(artifacts, i - 1) + "," + ArtifactJson(artifacts[i - 1])
  }

  function BundleJson(artifacts: seq<WireArtifact>): (s: string)
  {
    "{\"schema\":\"nix-seal.prepared-artifacts.v1\",\"artifacts\":[" + ListJson(artifacts, |artifacts|) + "]}"
  }

  function ResponseJson(prepared: bool, reused: nat, created: nat, artifacts: seq<WireArtifact>): (s: string)
  {
    "{\"schema\":\"nix-seal.prepare-response.v2\",\"artifactSchema\":\"nix-seal.artifact.v3\",\"prepared\":"
    + (if prepared then "true" else "false")
    + ",\"reused\":" + Decimal(reused) + ",\"created\":" + Decimal(created)
    + ",\"bundle\":" + BundleJson(artifacts) + "}"
  }

  // ---------- sizes ----------

  function EntrySize(a: WireArtifact): (n: nat)
  {
    |a.ciphertext| + |a.envelope| + ENTRY_COST
  }

  function SizeTo(artifacts: seq<WireArtifact>, i: nat): (n: nat)
    requires i <= |artifacts|
  {
    if i == 0 then 0 else SizeTo(artifacts, i - 1) + EntrySize(artifacts[i - 1])
  }

  /** The running size append_artifacts keeps. */
  function WireSize(artifacts: seq<WireArtifact>): (n: nat)
  {
    SizeTo(artifacts, |artifacts|)
  }

  function Estimate(f: Files): (n: nat)
  {
    (|f.ciphertext| + |f.envelope|) * 2 + ENTRY_COST
  }

  function EncodeFiles(f: Files): (a: WireArtifact)
  {
    WireArtifact(Base64.Encode(f.ciphertext), Base64.Encode(f.envelope))
  }

  /** A bundle with the first `i` artifacts appended in order. */
  function Appended(start: seq<WireArtifact>, files: seq<Files>, i: nat): (r: seq<WireArtifact>)
    requires i <= |files|
    ensures |r| == |start| + i
  {
    if i == 0 then start else Appended(start, files, i - 1) + [EncodeFiles(files[i - 1])]
  }

  /** What the first `i` artifacts add to the running size. */
  function PackedSize(files: seq<Files>, i: nat): (n: nat)
    requires i <= |files|
  {
    if i == 0 then 0 else PackedSize(files, i - 1) + EntrySize(EncodeFiles(files[i - 1]))
  }

  /** Appending in this order to a bundle of size `base` never meets the limit. */
  predicate Admitted(base: nat, files: seq<Files>, i: nat)
    requires i <= |files|
  {
    i == 0 || (Admitted(base, files, i - 1) && base + PackedSize(files, i - 1) + Estimate(files[i - 1]) <= WIRE_LIMIT - SLACK)
  }

  lemma {:induction false} AdmittedEarlier(base: nat, files: seq<Files>, i: nat, n: nat)
    requires i <= n <= |files| && Admitted(base, files, n)
    ensures Admitted(base, files, i)
  {
    if i < n {
      AdmittedEarlier(base, files, i, n - 1);
    }
  }

  /** What was admitted behind something else is admitted on its own. */
  lemma {:induction false} AdmittedAlone(base: nat, files: seq<Files>, i: nat)
    requires i <= |files| && Admitted(base, files, i)
    ensures Admitted(0, files, i)
  {
    if i > 0 {
      AdmittedAlone(base, files, i - 1);
    }
  }

  /** What holds of every bundle append_artifacts has filled. */
  predicate Fits(artifacts: seq<WireArtifact>)
  {
    artifacts == [] || WireSize(artifacts) <= WIRE_LIMIT - SLACK + 4
  }

  /** Twice the size is an upper bound of the encoding of every file but a one-byte file. */
  lemma EstimateShortIff(b: Bytes)
    ensures |Base64.Encode(b)| > 2 * |b| <==> |b| == 1
    ensures |Base64.Encode(b)| <= 2 * |b| + 2
  {
    Base64.EncodedLength(b);
  }

  lemma EstimateNearlyBounds(f: Files)
    ensures EntrySize(EncodeFiles(f)) <= Estimate(f) + 4
  {
    EstimateShortIff(f.ciphertext);
    EstimateShortIff(f.envelope);
  }

  lemma {:induction false} SizePrefix(artifacts: seq<WireArtifact>, a: WireArtifact, i: nat)
    requires i <= |artifacts|
    ensures SizeTo(artifacts + [a], i) == SizeTo(artifacts, i)
  {
    if i > 0 {
      SizePrefix(artifacts, a, i - 1);
    }
  }

  lemma WireSizeGrows(artifacts: seq<WireArtifact>, a: WireArtifact)
    ensures WireSize(artifacts + [a]) == WireSize(artifacts) + EntrySize(a)
  {
    SizePrefix(artifacts, a, |artifacts|);
  }

  lemma {:induction false} ListFits(artifacts: seq<WireArtifact>, i: nat)
    requires i <= |artifacts|
    ensures |ListJson(artifacts, i)| <= SizeTo(artifacts, i)
  {
    if i > 0 {
      ListFits(artifacts, i - 1);
    }
  }

  lemma {:induction false} DecimalLength(n: nat, k: nat)
    requires k > 0 && n < Pow10(k)
    ensures |Decimal(n)| <= k
  {
    if n >= 10 {
      DecimalLength(n / 10, k - 1);
    }
  }

  lemma TwentyDigits(n: nat)
    requires n <= U64_MAX
    ensures |Decimal(n)| <= 20
  {
    assert Pow10(4) == 10_000 by {
      assert Pow10(2) == 100;
    }
    assert Pow10(6) == 1_000_000 && Pow10(8) == 100_000_000;
    assert Pow10(10) == 10_000_000_000 && Pow10(12) == 1_000_000_000_000;
    assert Pow10(14) == 100_000_000_000_000 && Pow10(16) == 10_000_000_000_000_000;
    assert Pow10(18) == 1_000_000_000_000_000_000 && Pow10(20) == 100_000_000_000_000_000_000;
    DecimalLength(n, 20);
  }

  lemma BundleLength(artifacts: seq<WireArtifact>)
    ensures |BundleJson(artifacts)| <= WireSize(artifacts) + 100
  {
    ListFits(artifacts, |artifacts|);
  }

  /** The wire bound: a filled bundle is never too long to be read back. */
  lemma BundleFits(artifacts: seq<WireArtifact>)
    requires Fits(artifacts)
    ensures |BundleJson(artifacts)| <= WIRE_LIMIT
  {
    BundleLength(artifacts);
  }

  /** Neither is a response that carries one. */
  lemma ResponseFits(prepared: bool, reused: nat, created: nat, artifacts: seq<WireArtifact>)
    requires Fits(artifacts) && reused <= U64_MAX && created <= U64_MAX
    ensures |ResponseJson(prepared, reused, created, artifacts)| <= WIRE_LIMIT
  {
    BundleLength(artifacts);
    TwentyDigits(reused);
    TwentyDigits(created);
  }

  lemma {:induction false} AppendedAt(start: seq<WireArtifact>, files: seq<Files>, i: nat, j: nat)
    requires i <= |files| && j < |start| + i
    ensures Appended(start, files, i)[j] == if j < |start| then start[j] else EncodeFiles(files[j - |start|])
  {
    if i > 0 && j < |start| + i - 1 {
      AppendedAt(start, files, i - 1, j);
    }
  }

  // ---------- filling a bundle ----------

  /** The first `i` files have been appended to what was there. */
  predicate Filling(start: seq<WireArtifact>, files: seq<Files>, i: nat, artifacts: seq<WireArtifact>, size: nat)
    requires i <= |files|
  {
    && artifacts == Appended(start, files, i) && size == WireSize(artifacts)
    && size == WireSize(start) + PackedSize(files, i) && Admitted(WireSize(start), files, i)
  }

  lemma FillingNext(start: seq<WireArtifact>, files: seq<Files>, i: nat, artifacts: seq<WireArtifact>, size: nat, total: nat)
    requires i < |files| && Filling(start, files, i, artifacts, size)
    requires total == size + EntrySize(EncodeFiles(files[i])) && size + Estimate(files[i]) <= WIRE_LIMIT - SLACK
    ensures Filling(start, files, i + 1, artifacts + [EncodeFiles(files[i])], total)
  {
    WireSizeGrows(artifacts, EncodeFiles(files[i]));
  }

  class PreparedBundle {
    const reliable: bool
    var artifacts: seq<WireArtifact>

    /** Whether the files to pack can be read is up to the storage they are on. */
    constructor (reliable: bool)
      ensures this.reliable == reliable && artifacts == []
    {
      this.reliable, artifacts := reliable, [];
    }

    /** The size a bundle starts with. */
    method CurrentSize() returns (size: nat)
      ensures size == WireSize(artifacts)
    {
      size := 0;
      var i := 0;
      while i < |artifacts|
        invariant 0 <= i <= |artifacts| && size == SizeTo(artifacts, i)
      {
        size, i := size + EntrySize(artifacts[i]), i + 1;
      }
    }

    /** One turn of append_artifacts. */
    method AppendOne(f: Files, size: nat) returns (r: Result<nat, WireError>)
      requires Fits(artifacts) && size == WireSize(artifacts)
      modifies this
      ensures r.Success? ==> artifacts == old(artifacts) + [EncodeFiles(f)] && r.value == WireSize(artifacts) && Fits(artifacts)
      ensures r.Failure? ==> artifacts == old(artifacts)
      ensures r.Success? ==> r.value == size + EntrySize(EncodeFiles(f)) && size + Estimate(f) <= WIRE_LIMIT - SLACK
      ensures r == Failure(TooLarge) ==> size + Estimate(f) > WIRE_LIMIT - SLACK
      ensures reliable ==> r != Failure(WireIo)
    {
      var unreadable: bool := *;
      if unreadable && !reliable {
        return Failure(WireIo);
      }
      var bound := Estimate(f);
      if size + bound > U64_MAX || size + bound > WIRE_LIMIT - SLACK {
        return Failure(TooLarge);
      }
      var artifact := EncodeFiles(f);
      EstimateNearlyBounds(f);
      WireSizeGrows(artifacts, artifact);
      artifacts := artifacts + [artifact];
      r := Success(size + EntrySize(artifact));
    }

    /** append_artifacts: adds encodings in order until one might not fit, I/O aside exactly if all are
        admitted; what it leaves always fits. */
    method AppendArtifacts(selected: seq<Files>) returns (r: Result<(), WireError>, ghost n: nat)
      requires Fits(artifacts)
      modifies this
      ensures n <= |selected| && artifacts == Appended(old(artifacts), selected, n) && Fits(artifacts)
      ensures r.Success? ==> n == |selected| && Admitted(WireSize(old(artifacts)), selected, |selected|)
      ensures r == Failure(TooLarge) ==> n < |selected| && !Admitted(WireSize(old(artifacts)), selected, |selected|)
      ensures reliable ==> r != Failure(WireIo)
    {
      var size := CurrentSize();
      n := 0;
      var i := 0;
      while i < |selected|
        invariant 0 <= i <= |selected| && n == i && Fits(artifacts)
        invariant Filling(old(artifacts), selected, i, artifacts, size)
      {
        ghost var before := artifacts;
        var added := AppendOne(selected[i], size);
        if added.Failure? {
          if added.error.TooLarge? {
            NotAdmitted(WireSize(old(artifacts)), selected, i, |selected|);
          }
          return Failure(added.error), n;
        }
        FillingNext(old(artifacts), selected, i, before, size, added.value);
        size, i, n := added.value, i + 1, n + 1;
      }
      r := Success(());
    }
  }

  lemma {:induction false} NotAdmitted(base: nat, files: seq<Files>, i: nat, n: nat)
    requires i < n <= |files| && base + PackedSize(files, i) + Estimate(files[i]) > WIRE_LIMIT - SLACK
    ensures !Admitted(base, files, n)
  {
    if i < n - 1 {
      NotAdmitted(base, files, i, n - 1);
    }
  }
}
