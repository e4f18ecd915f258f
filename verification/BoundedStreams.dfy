/** Bounded reading. A reader may hand out any number of bytes at a time. */
module BoundedStreams {
  import opened Prelude
  import opened CacheAddress

  /** An input stream; how many bytes each read returns is decided elsewhere. */
  class Reader {
    const data: Bytes
    var position: nat

    constructor (data: Bytes)
      ensures this.data == data && position == 0
    {
      this.data := data;
      position := 0;
    }

    ghost predicate Valid()
      reads this
    {
      position <= |data|
    }

    function Rest(): (r: Bytes)
      reads this
      requires Valid()
    {
      data[position..]
    }

    /** Returns nothing exactly at the end of the stream or for an empty buffer. */
    method Read(maximum: nat) returns (chunk: Bytes)
      requires Valid()
      modifies this
      ensures Valid() && |chunk| <= maximum && position == old(position) + |chunk|
      ensures old(Rest()) == chunk + Rest()
      ensures chunk == [] <==> maximum == 0 || old(Rest()) == []
    {
      var available := |data| - position;
      if maximum == 0 || available == 0 {
        return [];
      }
      var n :| 1 <= n <= maximum && n <= available;
      chunk := data[position..position + n];
      position := position + n;
    }
  }

  const BUFFER: nat := 16 * 1024

  /** copy_and_hash_bounded: the digest and the bytes written, or nothing over the limit. */
  method CopyAndHashBounded(h: HashFunction, input: Reader, limit: nat) returns (r: Option<(Text, Bytes)>)
    requires input.Valid()
    modifies input
    ensures input.Valid()
    ensures r.Some? <==> |old(input.Rest())| <= limit
    ensures r.Some? ==> r.value == (h(old(input.Rest())), old(input.Rest()))
    ensures input.position == old(input.position) + if r.Some? then |old(input.Rest())| else limit + 1
  {
    ghost var stream := input.Rest();
    var absorbed: Bytes, output: Bytes := [], [];
    var remaining: nat := limit;
    while true
      invariant input.Valid() && remaining <= limit
      invariant stream == absorbed + input.Rest() && output == absorbed
      invariant |absorbed| == limit - remaining
      invariant input.position == old(input.position) + |absorbed|
      decreases |input.Rest()|
    {
      var maximum := if remaining < BUFFER then remaining else BUFFER;
      if maximum == 0 {
        var overflow := input.Read(1);
        if overflow != [] {
          return None;
        }
        break;
      }
      var chunk := input.Read(maximum);
      if chunk == [] {
        break;
      }
      assert absorbed + (chunk + input.Rest()) == (absorbed + chunk) + input.Rest();
      output := output + chunk;
      absorbed := absorbed + chunk;
      remaining := remaining - |chunk|;
    }
    assert absorbed == stream;
    r := Some((h(absorbed), output));
  }

  /** read_bounded: the whole stream, or nothing over the limit. */
  method ReadBounded(input: Reader, limit: nat) returns (r: Option<Bytes>)
    requires input.Valid()
    modifies input
    ensures input.Valid()
    ensures r == if |old(input.Rest())| <= limit then Some(old(input.Rest())) else None
    ensures input.position <= old(input.position) + limit + 1
  {
    ghost var stream := input.Rest();
    var bytes: Bytes := [];
    while |bytes| < limit + 1
      invariant input.Valid() && |bytes| <= limit + 1
      invariant stream == bytes + input.Rest()
      invariant input.position == old(input.position) + |bytes|
      decreases limit + 1 - |bytes|
    {
      var chunk := input.Read(limit + 1 - |bytes|);
      if chunk == [] {
        assert bytes == stream;
        break;
      }
      assert bytes + (chunk + input.Rest()) == (bytes + chunk) + input.Rest();
      bytes := bytes + chunk;
    }
    r := if |bytes| > limit then None else Some(bytes);
  }

  /** The adapter that turns an over-long producer into an error instead of a truncation. */
  class BoundedReader {
    const inner: Reader
    var remaining: nat

    constructor (inner: Reader, limit: nat)
      ensures this.inner == inner && remaining == limit
    {
      this.inner := inner;
      remaining := limit;
    }

    /** An empty chunk for a nonempty buffer means the producer is exhausted. */
    method Read(maximum: nat) returns (r: Option<Bytes>)
      requires inner.Valid()
      modifies this, inner
      ensures inner.Valid()
      ensures r.None? <==> maximum > 0 && old(remaining) == 0 && old(inner.Rest()) != []
      ensures r.Some? ==> old(inner.Rest()) == r.value + inner.Rest()
      ensures r.Some? ==> |r.value| <= maximum && remaining + |r.value| == old(remaining)
      ensures r == Some([]) && maximum > 0 ==> old(inner.Rest()) == []
    {
      if maximum == 0 {
        return Some([]);
      }
      if remaining == 0 {
        var probe := inner.Read(1);
        if probe == [] {
          return Some([]);
        }
        return None;
      }
      var usable := if remaining < maximum then remaining else maximum;
      var chunk := inner.Read(usable);
      remaining := remaining - |chunk|;
      r := Some(chunk);
    }
  }

  /** A consumer that stops at the first error or end of stream gets the whole stream exactly when
      it fits, and an error otherwise: never a silent truncation. */
  method Drain(reader: BoundedReader, buffer: nat) returns (r: Option<Bytes>)
    requires reader.inner.Valid() && buffer > 0
    modifies reader, reader.inner
    ensures r == if |old(reader.inner.Rest())| <= old(reader.remaining) then Some(old(reader.inner.Rest())) else None
  {
    ghost var stream := reader.inner.Rest();
    var all: Bytes := [];
    while true
      invariant reader.inner.Valid()
      invariant stream == all + reader.inner.Rest()
      invariant |all| + reader.remaining == old(reader.remaining)
      decreases |reader.inner.Rest()|
    {
      var chunk := reader.Read(buffer);
      if chunk.None? {
        return None;
      }
      if chunk.value == [] {
        assert all == stream;
        return Some(all);
      }
      assert all + (chunk.value + reader.inner.Rest()) == (all + chunk.value) + reader.inner.Rest();
      all := all + chunk.value;
    }
  }
}
