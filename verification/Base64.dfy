/** The standard padded alphabet of section 4 of RFC 4648, decoded strictly. */
module Base64 {
  import opened Prelude

  const PAD: byte := 61

  function Symbol(n: nat): (c: byte)
    requires n < 64
    ensures c != PAD
  {
    if n < 26 then (65 + n) as byte
    else if n < 52 then (97 + n - 26) as byte
    else if n < 62 then (48 + n - 52) as byte
    else if n == 62 then 43
    else 47
  }

  function Value(c: byte): (n: Option<nat>)
    ensures n.Some? ==> n.value < 64
  {
    if 65 <= c <= 90 then Some(c as int - 65)
    else if 97 <= c <= 122 then Some(c as int - 97 + 26)
    else if 48 <= c <= 57 then Some(c as int - 48 + 52)
    else if c == 43 then Some(62)
    else if c == 47 then Some(63)
    else None
  }

  lemma SymbolsReadBack(n: nat)
    requires n < 64
    ensures Value(Symbol(n)) == Some(n)
  {
  }

  lemma SymbolsCanonical(c: byte)
    ensures Value(c).Some? ==> Symbol(Value(c).value) == c
  {
  }

  /** The four symbols of one, two or three bytes. */
  function Group(b: Bytes): (t: Bytes)
    requires 1 <= |b| <= 3
    ensures |t| == 4
  {
    var x, y, z := b[0] as int, if |b| > 1 then b[1] as int else 0, if |b| > 2 then b[2] as int else 0;
    [Symbol(x / 4), Symbol(x % 4 * 16 + y / 16),
     if |b| > 1 then Symbol(y % 16 * 4 + z / 64) else PAD,
     if |b| > 2 then Symbol(z % 64) else PAD]
  }

  function Encode(b: Bytes): (t: Bytes)
  {
    if b == [] then [] else if |b| <= 3 then Group(b) else Group(b[..3]) + Encode(b[3..])
  }

  /** The bytes of four symbols; left-over bits have to be zero. */
  function Ungroup(t: Bytes): (b: Option<Bytes>)
    requires |t| == 4
    ensures b.Some? ==> 1 <= |b.value| <= 3
  {
    var p, q, r, s := Value(t[0]), Value(t[1]), Value(t[2]), Value(t[3]);
    if p.None? || q.None? then None
    else
      var x := (p.value * 4 + q.value / 16) as byte;
      if t[2] == PAD then
        if t[3] == PAD && q.value % 16 == 0 then Some([x]) else None
      else if r.None? then None
      else
        var y := (q.value % 16 * 16 + r.value / 4) as byte;
        if t[3] == PAD then
          if r.value % 4 == 0 then Some([x, y]) else None
        else if s.None? then None
        else Some([x, y, (r.value % 4 * 64 + s.value) as byte])
  }

  /** Padding ends the text. */
  function Decode(t: Bytes): (b: Option<Bytes>)
  {
    if t == [] then Some([])
    else if |t| < 4 then None
    else if |t| == 4 then Ungroup(t)
    else
      match (Ungroup(t[..4]), Decode(t[4..]))
      case (Some(first), Some(rest)) => if |first| == 3 then Some(first + rest) else None
      case _ => None
  }

  /** The examples of section 10 of RFC 4648, and one for the last two symbols. */
  lemma ShortExamples()
    ensures Encode([]) == []
    ensures Encode([102]) == [90, 103, 61, 61]
    ensures Encode([102, 111]) == [90, 109, 56, 61]
    ensures Encode([102, 111, 111]) == [90, 109, 57, 118]
    ensures Encode([251, 255]) == [43, 47, 56, 61]
  {
  }

  lemma AfterFoo(b: Bytes)
    requires b != []
    ensures Encode([102, 111, 111] + b) == [90, 109, 57, 118] + Encode(b)
  {
    var all := [102, 111, 111] + b;
    assert all[..3] == [102, 111, 111] && all[3..] == b;
    assert Group([102, 111, 111]) == [90, 109, 57, 118];
  }

  lemma LongerExamples()
    ensures Encode([102, 111, 111] + [98]) == [90, 109, 57, 118] + [89, 103, 61, 61]
    ensures Encode([102, 111, 111] + [98, 97]) == [90, 109, 57, 118] + [89, 109, 69, 61]
    ensures Encode([102, 111, 111] + [98, 97, 114]) == [90, 109, 57, 118] + [89, 109, 70, 121]
  {
    AfterFoo([98]);
    AfterFoo([98, 97]);
    AfterFoo([98, 97, 114]);
    assert Group([98]) == [89, 103, 61, 61] && Group([98, 97]) == [89, 109, 69, 61] && Group([98, 97, 114]) == [89, 109, 70, 121];
  }

  /** The 64 symbols in order: capital letters, small letters, digits, plus and slash. */
  lemma Alphabet(n: nat)
    requires n < 64
    ensures Symbol(n) as char ==
      if n < 26 then 'A' + n as char
      else if n < 52 then 'a' + (n - 26) as char
      else if n < 62 then '0' + (n - 52) as char
      else if n == 62 then '+' else '/'
  {
  }

  /** Joining a high part and a low part keeps both. */
  lemma Join4(high: nat, low: nat)
    ensures low < 4 ==> (high * 4 + low) / 4 == high && (high * 4 + low) % 4 == low
  {
  }

  lemma Join16(high: nat, low: nat)
    ensures low < 16 ==> (high * 16 + low) / 16 == high && (high * 16 + low) % 16 == low
  {
  }

  lemma Join64(high: nat, low: nat)
    ensures low < 64 ==> (high * 64 + low) / 64 == high && (high * 64 + low) % 64 == low
  {
  }

  lemma GroupOneReadsBack(b: Bytes)
    requires |b| == 1
    ensures Ungroup(Group(b)) == Some(b)
  {
    var x := b[0] as int;
    SymbolsReadBack(x / 4);
    SymbolsReadBack(x % 4 * 16);
    Join16(x % 4, 0);
    assert Ungroup(Group(b)) == Some([(x / 4 * 4 + x % 4) as byte]);
    assert b == [b[0]];
  }

  lemma GroupTwoReadsBack(b: Bytes)
    requires |b| == 2
    ensures Ungroup(Group(b)) == Some(b)
  {
    var x, y := b[0] as int, b[1] as int;
    SymbolsReadBack(x / 4);
    SymbolsReadBack(x % 4 * 16 + y / 16);
    SymbolsReadBack(y % 16 * 4);
    Join16(x % 4, y / 16);
    Join4(y % 16, 0);
    assert Ungroup(Group(b)) == Some([(x / 4 * 4 + x % 4) as byte, (y / 16 * 16 + y % 16) as byte]);
    assert b == [b[0], b[1]];
  }

  lemma GroupThreeReadsBack(b: Bytes)
    requires |b| == 3
    ensures Ungroup(Group(b)) == Some(b)
  {
    var x, y, z := b[0] as int, b[1] as int, b[2] as int;
    SymbolsReadBack(x / 4);
    SymbolsReadBack(x % 4 * 16 + y / 16);
    SymbolsReadBack(y % 16 * 4 + z / 64);
    SymbolsReadBack(z % 64);
    Join16(x % 4, y / 16);
    Join4(y % 16, z / 64);
    assert Ungroup(Group(b)) == Some([(x / 4 * 4 + x % 4) as byte, (y / 16 * 16 + y % 16) as byte, (z / 64 * 64 + z % 64) as byte]);
    assert b == [b[0], b[1], b[2]];
  }

  lemma GroupReadsBack(b: Bytes)
    requires 1 <= |b| <= 3
    ensures Ungroup(Group(b)) == Some(b)
  {
    if |b| == 1 {
      GroupOneReadsBack(b);
    } else if |b| == 2 {
      GroupTwoReadsBack(b);
    } else {
      GroupThreeReadsBack(b);
    }
  }

  lemma UngroupOneCanonical(t: Bytes)
    requires |t| == 4 && t[2] == PAD && Ungroup(t).Some?
    ensures Group(Ungroup(t).value) == t
  {
    SymbolsCanonical(t[0]);
    SymbolsCanonical(t[1]);
    var p, q := Value(t[0]).value, Value(t[1]).value;
    Join4(p, q / 16);
  }

  lemma UngroupTwo(t: Bytes)
    requires |t| == 4 && t[2] != PAD && t[3] == PAD && Ungroup(t).Some?
    ensures Value(t[0]).Some? && Value(t[1]).Some? && Value(t[2]).Some? && Value(t[2]).value % 4 == 0
    ensures var p, q, r := Value(t[0]).value, Value(t[1]).value, Value(t[2]).value;
      Ungroup(t) == Some([(p * 4 + q / 16) as byte, (q % 16 * 16 + r / 4) as byte])
  {
  }

  lemma GroupTwo(x: nat, y: nat)
    requires x < 256 && y < 256
    ensures Group([x as byte, y as byte]) == [Symbol(x / 4), Symbol(x % 4 * 16 + y / 16), Symbol(y % 16 * 4), PAD]
  {
  }

  lemma UngroupThree(t: Bytes)
    requires |t| == 4 && t[2] != PAD && t[3] != PAD && Ungroup(t).Some?
    ensures Value(t[0]).Some? && Value(t[1]).Some? && Value(t[2]).Some? && Value(t[3]).Some?
    ensures var p, q, r, s := Value(t[0]).value, Value(t[1]).value, Value(t[2]).value, Value(t[3]).value;
      Ungroup(t) == Some([(p * 4 + q / 16) as byte, (q % 16 * 16 + r / 4) as byte, (r % 4 * 64 + s) as byte])
  {
  }

  lemma GroupThree(x: nat, y: nat, z: nat)
    requires x < 256 && y < 256 && z < 256
    ensures Group([x as byte, y as byte, z as byte]) == [Symbol(x / 4), Symbol(x % 4 * 16 + y / 16), Symbol(y % 16 * 4 + z / 64), Symbol(z % 64)]
  {
  }

  /** Four six-bit numbers, packed into three bytes and split again. */
  lemma Repacked(p: nat, q: nat, r: nat, s: nat)
    requires p < 64 && q < 64 && r < 64 && s < 64
    ensures var x, y, z := p * 4 + q / 16, q % 16 * 16 + r / 4, r % 4 * 64 + s;
      && x < 256 && y < 256 && z < 256
      && x / 4 == p && x % 4 * 16 + y / 16 == q && y % 16 * 4 + z / 64 == r && z % 64 == s
  {
    Join4(p, q / 16);
    Join16(q % 16, r / 4);
    Join64(r % 4, s);
  }

  lemma GroupOfSymbols(p: nat, q: nat, r: nat, s: nat)
    requires p < 64 && q < 64 && r < 64 && s < 64
    ensures p * 4 + q / 16 < 256 && q % 16 * 16 + r / 4 < 256 && r % 4 * 64 + s < 256
    ensures Group([(p * 4 + q / 16) as byte, (q % 16 * 16 + r / 4) as byte, (r % 4 * 64 + s) as byte]) == [Symbol(p), Symbol(q), Symbol(r), Symbol(s)]
  {
    Repacked(p, q, r, s);
    GroupThree(p * 4 + q / 16, q % 16 * 16 + r / 4, r % 4 * 64 + s);
  }

  lemma FourSymbols(t: Bytes)
    requires |t| == 4 && Value(t[0]).Some? && Value(t[1]).Some? && Value(t[2]).Some? && Value(t[3]).Some?
    ensures t == [Symbol(Value(t[0]).value), Symbol(Value(t[1]).value), Symbol(Value(t[2]).value), Symbol(Value(t[3]).value)]
  {
    SymbolsCanonical(t[0]);
    SymbolsCanonical(t[1]);
    SymbolsCanonical(t[2]);
    SymbolsCanonical(t[3]);
  }

  lemma GroupOfThreeSymbols(p: nat, q: nat, r: nat)
    requires p < 64 && q < 64 && r < 64 && r % 4 == 0
    ensures p * 4 + q / 16 < 256 && q % 16 * 16 + r / 4 < 256
    ensures Group([(p * 4 + q / 16) as byte, (q % 16 * 16 + r / 4) as byte]) == [Symbol(p), Symbol(q), Symbol(r), PAD]
  {
    Repacked(p, q, r, 0);
    GroupTwo(p * 4 + q / 16, q % 16 * 16 + r / 4);
  }

  lemma ThreeSymbols(t: Bytes)
    requires |t| == 4 && t[3] == PAD && Value(t[0]).Some? && Value(t[1]).Some? && Value(t[2]).Some?
    ensures t == [Symbol(Value(t[0]).value), Symbol(Value(t[1]).value), Symbol(Value(t[2]).value), PAD]
  {
    SymbolsCanonical(t[0]);
    SymbolsCanonical(t[1]);
    SymbolsCanonical(t[2]);
  }

  lemma UngroupTwoCanonical(t: Bytes)
    requires |t| == 4 && t[2] != PAD && t[3] == PAD && Ungroup(t).Some?
    ensures Group(Ungroup(t).value) == t
  {
    UngroupTwo(t);
    GroupOfThreeSymbols(Value(t[0]).value, Value(t[1]).value, Value(t[2]).value);
    ThreeSymbols(t);
  }

  lemma UngroupThreeCanonical(t: Bytes)
    requires |t| == 4 && t[2] != PAD && t[3] != PAD && Ungroup(t).Some?
    ensures Group(Ungroup(t).value) == t
  {
    UngroupThree(t);
    GroupOfSymbols(Value(t[0]).value, Value(t[1]).value, Value(t[2]).value, Value(t[3]).value);
    FourSymbols(t);
  }

  lemma UngroupCanonical(t: Bytes)
    requires |t| == 4 && Ungroup(t).Some?
    ensures Group(Ungroup(t).value) == t
  {
    if t[2] == PAD {
      UngroupOneCanonical(t);
    } else if t[3] == PAD {
      UngroupTwoCanonical(t);
    } else {
      UngroupThreeCanonical(t);
    }
  }

  lemma {:induction false} EncodedLength(b: Bytes)
    ensures |Encode(b)| == (|b| + 2) / 3 * 4
    decreases |b|
  {
    if |b| > 3 {
      EncodedLength(b[3..]);
      NextGroup(|b|);
    }
  }

  lemma NextGroup(n: nat)
    requires n > 3
    ensures 4 + (n - 3 + 2) / 3 * 4 == (n + 2) / 3 * 4
  {
  }

  /** Whatever was encoded is decoded. */
  lemma {:induction false} RoundTrip(b: Bytes)
    ensures Decode(Encode(b)) == Some(b)
    decreases |b|
  {
    if |b| > 3 {
      RoundTrip(b[3..]);
      GroupReadsBack(b[..3]);
      EncodedLength(b[3..]);
      var t := Encode(b);
      assert t[..4] == Group(b[..3]) && t[4..] == Encode(b[3..]);
      assert b[..3] + b[3..] == b;
    } else if b != [] {
      GroupReadsBack(b);
    }
  }

  /** Every accepted text is the encoding of what it decodes to. */
  lemma {:induction false} Canonical(t: Bytes)
    requires Decode(t).Some?
    ensures Encode(Decode(t).value) == t
    decreases |t|
  {
    if |t| > 4 {
      UngroupCanonical(t[..4]);
      Canonical(t[4..]);
      var first, rest := Ungroup(t[..4]).value, Decode(t[4..]).value;
      assert (first + rest)[..3] == first && (first + rest)[3..] == rest;
      NonEmptyDecodes(t[4..]);
      assert t[..4] + t[4..] == t;
    } else if t != [] {
      UngroupCanonical(t);
    }
  }

  lemma NonEmptyDecodes(t: Bytes)
    requires t != [] && Decode(t).Some?
    ensures Decode(t).value != []
  {
  }
}
