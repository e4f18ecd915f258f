/** Shared vocabulary: optional values, results, bytes and map lookup. */
module Prelude {

  datatype Option<+T> = None | Some(value: T)

  datatype Result<+T, +E> = Success(value: T) | Failure(error: E)

  newtype byte = x: int | 0 <= x < 256

  type Bytes = seq<byte>

  const U64_MAX: nat := 0xFFFF_FFFF_FFFF_FFFF

  function Lookup<K, V>(m: map<K, V>, k: K): (r: Option<V>)
  {
    if k in m then Some(m[k]) else None
  }

  /** Maps that agree on every lookup are equal. */
  lemma MapsEqual<K, V>(a: map<K, V>, b: map<K, V>)
    requires forall k :: Lookup(a, k) == Lookup(b, k)
    ensures a == b
  {
    forall k ensures k in a <==> k in b
    {
      assert Lookup(a, k) == Lookup(b, k);
    }
    forall k | k in a ensures a[k] == b[k]
    {
      assert Lookup(a, k) == Lookup(b, k);
    }
  }

  // ---------- decimal numbers ----------

  function Digit(d: nat): (c: char)
    requires d < 10
    ensures '0' <= c <= '9'
  {
    ('0' as int + d) as char
  }

  function Decimal(n: nat): (s: string)
    ensures s != [] && forall i | 0 <= i < |s| :: '0' <= s[i] <= '9'
    ensures s[0] == '0' <==> n == 0
    ensures |s| == 1 <==> n < 10
  {
    if n < 10 then [Digit(n)] else Decimal(n / 10) + [Digit(n % 10)]
  }

  function Pow10(k: nat): (n: nat)
    ensures n > 0
  {
    if k == 0 then 1 else 10 * Pow10(k - 1)
  }
}
