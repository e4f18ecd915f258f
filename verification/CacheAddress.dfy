/** Deterministic addresses of cached target artifacts. Text is modelled as its UTF-8 bytes. */
module CacheAddress {
  import opened Prelude

  type Text = Bytes

  function Ascii(s: string): (t: Text)
    requires forall c | c in s :: c as int < 128
    ensures |t| == |s|
  {
    seq(|s|, i requires 0 <= i < |s| => assert s[i] in s; s[i] as int as byte)
  }

  predicate IsHex(t: Text, n: nat)
    requires n <= |t|
  {
    n == 0 || ((48 <= t[n - 1] <= 57 || 97 <= t[n - 1] <= 102) && IsHex(t, n - 1))
  }

  predicate IsDigest(t: Text)
  {
    |t| == 64 && IsHex(t, 64)
  }

  /** A digest is 64 characters out of 0-9 and a-f. */
  lemma DigestIff(t: Text)
    ensures IsDigest(t) <==> |t| == 64 && forall i | 0 <= i < 64 :: 48 <= t[i] <= 57 || 97 <= t[i] <= 102
  {
    if |t| == 64 {
      HexIff(t, 64);
    }
  }

  lemma {:induction false} HexIff(t: Text, n: nat)
    requires n <= |t|
    ensures IsHex(t, n) <==> forall i | 0 <= i < n :: 48 <= t[i] <= 57 || 97 <= t[i] <= 102
  {
    if n > 0 {
      HexIff(t, n - 1);
    }
  }

  /** A hash function over byte strings, written as text. Nothing is known about it. */
  type HashFunction = Bytes -> Text

  const SLASH: byte := 47
  const DOT: byte := 46

  function SegmentEnd(t: Text, i: nat): (k: nat)
    requires i <= |t|
    ensures i <= k <= |t|
    decreases |t| - i
  {
    if i == |t| || t[i] == SLASH then i else SegmentEnd(t, i + 1)
  }

  predicate IsSegment(t: Text)
  {
    && t != [] && t != [DOT] && t != [DOT, DOT]
    && forall i | 0 <= i < |t| :: (97 <= t[i] <= 122) || (48 <= t[i] <= 57) || t[i] in {DOT, 95, 45}
  }

  predicate SegmentsValid(t: Text)
    decreases |t|
  {
    var k := SegmentEnd(t, 0);
    IsSegment(t[..k]) && (k == |t| || SegmentsValid(t[k + 1..]))
  }

  predicate IsId(t: Text)
  {
    t != [] && t[0] != SLASH && SegmentsValid(t)
  }

  lemma {:induction false} SegmentEndMeans(t: Text, i: nat)
    requires i <= |t|
    ensures forall m | i <= m < SegmentEnd(t, i) :: t[m] != SLASH
    ensures SegmentEnd(t, i) < |t| ==> t[SegmentEnd(t, i)] == SLASH
    decreases |t| - i
  {
    if i < |t| && t[i] != SLASH {
      SegmentEndMeans(t, i + 1);
    }
  }

  /** A stretch between two slashes, or between a slash and an end of the text. */
  ghost predicate IsPart(t: Text, i: int, j: int)
  {
    && 0 <= i <= j <= |t| && (i == 0 || t[i - 1] == SLASH) && (j == |t| || t[j] == SLASH)
    && forall m | i <= m < j :: t[m] != SLASH
  }

  /** Lower-case letters, digits, dots, underscores and hyphens, but neither "." nor "..". */
  ghost predicate IsName(s: Text)
  {
    && s != [] && s != [46] && s != [46, 46]
    && forall c | c in s :: 97 <= c <= 122 || 48 <= c <= 57 || c == 46 || c == 95 || c == 45
  }

  lemma SegmentIff(s: Text)
    ensures IsSegment(s) <==> IsName(s)
  {
    if IsName(s) {
      forall i | 0 <= i < |s| ensures 97 <= s[i] <= 122 || 48 <= s[i] <= 57 || s[i] in {DOT, 95, 45}
      {
        assert s[i] in s;
      }
    }
  }

  lemma LaterPart(t: Text, k: nat, i: int, j: int)
    requires k < |t| && t[k] == SLASH && k < i
    ensures IsPart(t, i, j) <==> j > k && IsPart(t[k + 1..], i - k - 1, j - k - 1)
    ensures IsPart(t, i, j) ==> t[i..j] == t[k + 1..][i - k - 1..j - k - 1]
  {
    var rest := t[k + 1..];
    assert forall m | 0 <= m < |rest| :: rest[m] == t[m + k + 1];
    if j > k && IsPart(rest, i - k - 1, j - k - 1) {
      forall m | i <= m < j ensures t[m] != SLASH
      {
        assert rest[m - k - 1] == t[m];
      }
    }
  }

  lemma FirstPart(t: Text, i: int, j: int)
    requires IsPart(t, i, j) && i <= SegmentEnd(t, 0)
    ensures i == 0 && j == SegmentEnd(t, 0)
  {
    SegmentEndMeans(t, 0);
  }

  lemma {:induction false} SegmentsValidIff(t: Text)
    ensures SegmentsValid(t) <==> forall i, j | IsPart(t, i, j) :: IsName(t[i..j])
    decreases |t|
  {
    var k := SegmentEnd(t, 0);
    SegmentEndMeans(t, 0);
    SegmentIff(t[..k]);
    assert IsPart(t, 0, k) && t[0..k] == t[..k];
    forall i, j | IsPart(t, i, j) && i <= k ensures i == 0 && j == k
    {
      FirstPart(t, i, j);
    }
    if k < |t| {
      var rest := t[k + 1..];
      SegmentsValidIff(rest);
      forall i, j | IsPart(t, i, j) && i > k ensures IsPart(rest, i - k - 1, j - k - 1) && t[i..j] == rest[i - k - 1..j - k - 1]
      {
        LaterPart(t, k, i, j);
      }
      forall i, j | IsPart(rest, i, j) ensures IsPart(t, i + k + 1, j + k + 1) && t[i + k + 1..j + k + 1] == rest[i..j]
      {
        LaterPart(t, k, i + k + 1, j + k + 1);
      }
    }
  }

  /** An identifier is a path of one or more such names, separated by single slashes. */
  lemma IdIff(t: Text)
    ensures IsId(t) <==> t != [] && forall i, j | IsPart(t, i, j) :: IsName(t[i..j])
  {
    SegmentsValidIff(t);
    if t != [] && t[0] == SLASH {
      assert IsPart(t, 0, 0) && t[0..0] == [];
    }
  }

  datatype Address = Address(
    artifactPolicyHash: Text,
    sourceCiphertextHash: Text,
    recipientFingerprint: Text,
    targetId: Text,
    secretId: Text,
    generation: nat)

  predicate IsAddress(a: Address)
  {
    && IsDigest(a.artifactPolicyHash) && IsDigest(a.sourceCiphertextHash) && IsDigest(a.recipientFingerprint)
    && IsId(a.targetId) && IsId(a.secretId)
    && 0 < a.generation <= U64_MAX
  }

  function BigEndian(n: nat, width: nat): (b: Bytes)
    ensures |b| == width
  {
    if width == 0 then [] else BigEndian(n / 256, width - 1) + [(n % 256) as byte]
  }

  function Field(t: Text): (b: Bytes)
  {
    BigEndian(|t|, 8) + t
  }

  const DOMAIN := Ascii("nix-seal.cache-address.v3") + [0]
  const FORMAT := Ascii("nix-seal.cache-artifact.v3")

  /** The bytes that are hashed into a cache key. */
  function Preimage(a: Address): (b: Bytes)
  {
    DOMAIN + (Field(FORMAT) + (Field(a.artifactPolicyHash) + (Field(a.sourceCiphertextHash) +
      (Field(a.recipientFingerprint) + (Field(a.targetId) + (Field(a.secretId) + BigEndian(a.generation, 8)))))))
  }

  /** Field lengths are written as 64-bit numbers. */
  predicate Encodable(a: Address)
  {
    && |a.artifactPolicyHash| <= U64_MAX && |a.sourceCiphertextHash| <= U64_MAX && |a.recipientFingerprint| <= U64_MAX
    && |a.targetId| <= U64_MAX && |a.secretId| <= U64_MAX && a.generation <= U64_MAX
  }

  /** ArtifactAddress::key */
  function Key(h: HashFunction, a: Address): (r: Option<Text>)
  {
    if IsAddress(a) && Encodable(a) then Some(h(Preimage(a))) else None
  }

  function Pow256(k: nat): (n: nat)
    ensures n > 0
  {
    if k == 0 then 1 else 256 * Pow256(k - 1)
  }

  lemma {:induction false} BigEndianInjective(m: nat, n: nat, width: nat)
    requires m < Pow256(width) && n < Pow256(width)
    requires BigEndian(m, width) == BigEndian(n, width)
    ensures m == n
  {
    if width > 0 {
      var a, b := BigEndian(m, width), BigEndian(n, width);
      assert a[width - 1] == b[width - 1];
      assert a[..width - 1] == BigEndian(m / 256, width - 1) && b[..width - 1] == BigEndian(n / 256, width - 1);
      BigEndianInjective(m / 256, n / 256, width - 1);
    }
  }

  lemma EightBytes()
    ensures Pow256(8) == U64_MAX + 1
  {
    assert Pow256(2) == 65536;
    assert Pow256(4) == 256 * Pow256(3) && Pow256(3) == 256 * Pow256(2);
    assert Pow256(6) == 256 * Pow256(5) && Pow256(5) == 256 * Pow256(4);
    assert Pow256(8) == 256 * Pow256(7) && Pow256(7) == 256 * Pow256(6);
  }

  /** A length-prefixed field can be read off the front of any byte string in one way only. */
  lemma FieldReadsBack(x: Text, y: Text, r: Bytes, s: Bytes)
    requires |x| <= U64_MAX && |y| <= U64_MAX
    requires Field(x) + r == Field(y) + s
    ensures x == y && r == s
  {
    var a, b := Field(x) + r, Field(y) + s;
    EightBytes();
    assert a[..8] == BigEndian(|x|, 8) && b[..8] == BigEndian(|y|, 8);
    BigEndianInjective(|x|, |y|, 8);
    assert a[8..8 + |x|] == x && b[8..8 + |y|] == y;
    assert a[8 + |x|..] == r && b[8 + |y|..] == s;
  }

  lemma PrefixReadsBack(p: Bytes, r: Bytes, s: Bytes)
    requires p + r == p + s
    ensures r == s
  {
    assert (p + r)[|p|..] == r && (p + s)[|p|..] == s;
  }

  /** Different addresses are hashed from different bytes. */
  lemma PreimageInjective(a: Address, b: Address)
    requires Encodable(a) && Encodable(b) && Preimage(a) == Preimage(b)
    ensures a == b
  {
    var a6, b6 := BigEndian(a.generation, 8), BigEndian(b.generation, 8);
    var a5, b5 := Field(a.secretId) + a6, Field(b.secretId) + b6;
    var a4, b4 := Field(a.targetId) + a5, Field(b.targetId) + b5;
    var a3, b3 := Field(a.recipientFingerprint) + a4, Field(b.recipientFingerprint) + b4;
    var a2, b2 := Field(a.sourceCiphertextHash) + a3, Field(b.sourceCiphertextHash) + b3;
    var a1, b1 := Field(a.artifactPolicyHash) + a2, Field(b.artifactPolicyHash) + b2;
    PrefixReadsBack(DOMAIN, Field(FORMAT) + a1, Field(FORMAT) + b1);
    PrefixReadsBack(Field(FORMAT), a1, b1);
    FieldReadsBack(a.artifactPolicyHash, b.artifactPolicyHash, a2, b2);
    FieldReadsBack(a.sourceCiphertextHash, b.sourceCiphertextHash, a3, b3);
    FieldReadsBack(a.recipientFingerprint, b.recipientFingerprint, a4, b4);
    FieldReadsBack(a.targetId, b.targetId, a5, b5);
    FieldReadsBack(a.secretId, b.secretId, a6, b6);
    EightBytes();
    BigEndianInjective(a.generation, b.generation, 8);
  }

  // ---------- reading an address back ----------

  function FromBigEndian(b: Bytes): (n: nat)
  {
    if b == [] then 0 else FromBigEndian(b[..|b| - 1]) * 256 + b[|b| - 1] as nat
  }

  lemma LastByte(b: Bytes, last: byte)
    ensures FromBigEndian(b + [last]) == FromBigEndian(b) * 256 + last as nat
  {
    assert (b + [last])[..|b|] == b;
  }

  lemma Divided(n: nat, bound: nat)
    requires n < 256 * bound
    ensures n / 256 < bound && n / 256 * 256 + n % 256 == n
  {
  }

  lemma {:induction false} BigEndianReadsBack(n: nat, width: nat)
    requires n < Pow256(width)
    ensures FromBigEndian(BigEndian(n, width)) == n
  {
    if width > 0 {
      Divided(n, Pow256(width - 1));
      BigEndianReadsBack(n / 256, width - 1);
      LastByte(BigEndian(n / 256, width - 1), (n % 256) as byte);
    }
  }

  /** A field with what follows it. */
  datatype Reading = Reading(fields: seq<Text>, rest: Bytes)

  /** `n` length-prefixed fields from the front of a byte string. */
  function ReadFields(b: Bytes, n: nat): (r: Option<Reading>)
  {
    if n == 0 then Some(Reading([], b))
    else if |b| < 8 || |b| - 8 < FromBigEndian(b[..8]) then None
    else
      var end := 8 + FromBigEndian(b[..8]);
      match ReadFields(b[end..], n - 1)
      case None => None
      case Some(more) => Some(Reading([b[8..end]] + more.fields, more.rest))
  }

  /** The address a byte string was made for: the domain, the format, five texts and the generation. */
  function ReadAddress(b: Bytes): (r: Option<Address>)
  {
    if |b| < 26 || b[..26] != Ascii("nix-seal.cache-address.v3") + [0] then None
    else
      match ReadFields(b[26..], 6)
      case None => None
      case Some(Reading(fields, generation)) =>
        if |fields| == 6 && fields[0] == Ascii("nix-seal.cache-artifact.v3") && |generation| == 8 then
          Some(Address(fields[1], fields[2], fields[3], fields[4], fields[5], FromBigEndian(generation)))
        else None
  }

  lemma ReadsOneMore(x: Text, b: Bytes, n: nat, fields: seq<Text>, rest: Bytes)
    requires |x| <= U64_MAX && ReadFields(b, n) == Some(Reading(fields, rest))
    ensures ReadFields(Field(x) + b, n + 1) == Some(Reading([x] + fields, rest))
  {
    var all := Field(x) + b;
    EightBytes();
    BigEndianReadsBack(|x|, 8);
    assert all[..8] == BigEndian(|x|, 8) && all[8..8 + |x|] == x && all[8 + |x|..] == b;
  }

  lemma ReadsThreeMore(x: Text, y: Text, z: Text, b: Bytes, n: nat, fields: seq<Text>, rest: Bytes)
    requires |x| <= U64_MAX && |y| <= U64_MAX && |z| <= U64_MAX && ReadFields(b, n) == Some(Reading(fields, rest))
    ensures ReadFields(Field(x) + (Field(y) + (Field(z) + b)), n + 3) == Some(Reading([x, y, z] + fields, rest))
  {
    ReadsOneMore(z, b, n, fields, rest);
    ReadsOneMore(y, Field(z) + b, n + 1, [z] + fields, rest);
    ReadsOneMore(x, Field(y) + (Field(z) + b), n + 2, [y] + ([z] + fields), rest);
    assert [x] + ([y] + ([z] + fields)) == [x, y, z] + fields;
  }

  lemma SplitsAfter(p: Bytes, r: Bytes)
    ensures (p + r)[..|p|] == p && (p + r)[|p|..] == r
  {
  }

  lemma DomainLength()
    ensures |DOMAIN| == 26
  {
    assert |Ascii("nix-seal.cache-address.v3")| == 25;
  }

  /** The part of a preimage from the recipient's fingerprint on. */
  function LastFields(a: Address): (b: Bytes)
  {
    Field(a.recipientFingerprint) + (Field(a.targetId) + (Field(a.secretId) + BigEndian(a.generation, 8)))
  }

  lemma LastFieldsRead(a: Address)
    requires Encodable(a)
    ensures ReadFields(LastFields(a), 3) == Some(Reading([a.recipientFingerprint, a.targetId, a.secretId], BigEndian(a.generation, 8)))
  {
    var end := BigEndian(a.generation, 8);
    ReadsThreeMore(a.recipientFingerprint, a.targetId, a.secretId, end, 0, [], end);
    assert [a.recipientFingerprint, a.targetId, a.secretId] + [] == [a.recipientFingerprint, a.targetId, a.secretId];
  }

  lemma PreimageFields(a: Address)
    requires Encodable(a)
    ensures Preimage(a)[..26] == DOMAIN
    ensures ReadFields(Preimage(a)[26..], 6) ==
      Some(Reading([FORMAT, a.artifactPolicyHash, a.sourceCiphertextHash] + [a.recipientFingerprint, a.targetId, a.secretId], BigEndian(a.generation, 8)))
  {
    LastFieldsRead(a);
    FormatLength();
    ReadsThreeMore(FORMAT, a.artifactPolicyHash, a.sourceCiphertextHash, LastFields(a), 3, [a.recipientFingerprint, a.targetId, a.secretId],
      BigEndian(a.generation, 8));
    SplitsAfter(DOMAIN, Field(FORMAT) + (Field(a.artifactPolicyHash) + (Field(a.sourceCiphertextHash) + LastFields(a))));
    DomainLength();
  }

  lemma FormatLength()
    ensures |FORMAT| == 26
  {
    assert |Ascii("nix-seal.cache-artifact.v3")| == 26;
  }

  /** The hashed bytes spell out the address: every field can be read back, each in its place. */
  lemma PreimageReadsBack(a: Address)
    requires Encodable(a)
    ensures ReadAddress(Preimage(a)) == Some(a)
  {
    EightBytes();
    BigEndianReadsBack(a.generation, 8);
    PreimageFields(a);
  }

  predicate Collides(h: HashFunction, x: Bytes, y: Bytes)
  {
    x != y && h(x) == h(y)
  }

  /** Two addresses share a key only through a collision of the hash function. */
  lemma SharedKeyIsCollision(h: HashFunction, a: Address, b: Address)
    requires Key(h, a).Some? && Key(h, a) == Key(h, b) && a != b
    ensures Collides(h, Preimage(a), Preimage(b))
  {
    if Preimage(a) == Preimage(b) {
      PreimageInjective(a, b);
    }
  }
}
