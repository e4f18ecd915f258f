/** Pairing of the numbered files an external generator writes with its declared outputs. The
    expected names are collected into an ordered set of strings and read back in that order. */
module OutputPairing {
  import opened Prelude

  /** Byte order of strings: a proper prefix comes first. */
  predicate Less(a: string, b: string)
  {
    b != [] && (a == [] || a[0] < b[0] || (a[0] == b[0] && Less(a[1..], b[1..])))
  }

  ghost predicate Sorted(s: seq<string>)
  {
    forall i, j | 0 <= i < j < |s| :: Less(s[i], s[j])
  }

  function Insert(s: seq<string>, x: string): (r: seq<string>)
  {
    if s == [] || Less(x, s[0]) then [x] + s
    else if s[0] == x then s
    else [s[0]] + Insert(s[1..], x)
  }

  function Expected(n: nat): (r: set<string>)
  {
    set i | 0 <= i < n :: Decimal(i)
  }

  /** The names "0", "1", ... below `n`, as the ordered set lists them. */
  function Names(n: nat): (r: seq<string>)
  {
    if n == 0 then [] else Insert(Names(n - 1), Decimal(n - 1))
  }

  /** Reading back an external generator's directory: refused unless the names are exactly the
      expected ones, otherwise the contents in name order, one per declared output. */
  function CollectOutputs(directory: map<string, Bytes>, n: nat): (r: Option<seq<Bytes>>)
  {
    if directory.Keys == Expected(n) then
      NamesAreTheExpected(n);
      Some(seq(|Names(n)|, k requires 0 <= k < |Names(n)| => directory[Names(n)[k]]))
    else None
  }

  // ---------- the order is a strict total order ----------

  lemma {:induction false} LessTrans(a: string, b: string, c: string)
    requires Less(a, b) && Less(b, c)
    ensures Less(a, c)
  {
    if a != [] && a[0] == b[0] == c[0] {
      LessTrans(a[1..], b[1..], c[1..]);
    }
  }

  lemma {:induction false} LessIrreflexive(a: string)
    ensures !Less(a, a)
  {
    if a != [] {
      LessIrreflexive(a[1..]);
    }
  }

  lemma {:induction false} LessTotal(a: string, b: string)
    ensures Less(a, b) || a == b || Less(b, a)
  {
    if a != [] && b != [] && a[0] == b[0] {
      LessTotal(a[1..], b[1..]);
      assert a == [a[0]] + a[1..] && b == [b[0]] + b[1..];
    }
  }

  lemma {:induction false} InsertKeepsOrder(s: seq<string>, x: string)
    requires Sorted(s)
    ensures Sorted(Insert(s, x))
    ensures forall y :: y in Insert(s, x) <==> y in s || y == x
    ensures |Insert(s, x)| == |s| + if x in s then 0 else 1
  {
    if s == [] {
    } else if Less(x, s[0]) {
      forall j | 0 <= j < |s| ensures Less(x, s[j]) && x != s[j]
      {
        if j > 0 {
          LessTrans(x, s[0], s[j]);
        }
        LessIrreflexive(x);
      }
    } else if s[0] != x {
      LessTotal(x, s[0]);
      InsertKeepsOrder(s[1..], x);
      var r := Insert(s[1..], x);
      forall j | 0 <= j < |r| ensures Less(s[0], r[j])
      {
        assert r[j] in s[1..] || r[j] == x;
      }
      assert s == [s[0]] + s[1..];
      assert x in s <==> x in s[1..];
    }
  }

  lemma {:induction false} DecimalInjective(a: nat, b: nat)
    requires Decimal(a) == Decimal(b)
    ensures a == b
  {
    var s, t := Decimal(a), Decimal(b);
    assert s[|s| - 1] == t[|t| - 1];
    if a >= 10 {
      assert s[..|s| - 1] == Decimal(a / 10) && t[..|t| - 1] == Decimal(b / 10);
      DecimalInjective(a / 10, b / 10);
    }
  }

  // ---------- the pairing ----------

  /** Whatever the count, the names are listed once each: the pairing is a bijection. */
  lemma {:induction false} NamesAreTheExpected(n: nat)
    ensures Sorted(Names(n)) && |Names(n)| == n
    ensures forall y :: y in Names(n) <==> y in Expected(n)
  {
    if n > 0 {
      NamesAreTheExpected(n - 1);
      InsertKeepsOrder(Names(n - 1), Decimal(n - 1));
      assert Expected(n) == Expected(n - 1) + {Decimal(n - 1)};
      if Decimal(n - 1) in Names(n - 1) {
        var i :| 0 <= i < n - 1 && Decimal(n - 1) == Decimal(i);
        DecimalInjective(n - 1, i);
      }
    }
  }

  lemma {:induction false} InsertLargest(s: seq<string>, x: string)
    requires forall i | 0 <= i < |s| :: Less(s[i], x)
    ensures Insert(s, x) == s + [x]
  {
    if s != [] {
      if Less(x, s[0]) {
        LessTrans(x, s[0], x);
      }
      LessIrreflexive(x);
      InsertLargest(s[1..], x);
    }
  }

  lemma OneMorePaired(n: nat, names: seq<string>)
    requires |names| == n && forall k | 0 <= k < n :: names[k] == Decimal(k)
    ensures var all := names + [Decimal(n)]; forall k | 0 <= k < n + 1 :: all[k] == Decimal(k)
  {
  }

  /** Up to ten outputs the numbered file `k` belongs to output `k`. */
  lemma {:induction false} SmallPairing(n: nat)
    requires n <= 10
    ensures |Names(n)| == n && forall k | 0 <= k < n :: Names(n)[k] == Decimal(k)
  {
    if n > 0 {
      SmallPairing(n - 1);
      InsertLargest(Names(n - 1), Decimal(n - 1));
      OneMorePaired(n - 1, Names(n - 1));
    }
  }

  /** The only decimal names before "10" are "0" and "1". */
  lemma BeforeTen(i: nat)
    requires Less(Decimal(i), "10")
    ensures i < 2
  {
    var s, ten := Decimal(i), "10";
    if i < 10 {
      assert s == [Digit(i)];
    } else {
      var t := s[1..];
      assert ten[1..] == "0" && t != [] && '0' <= t[0];
      assert !Less(t[1..], "0"[1..]);
      assert !Less(t, "0");
    }
  }

  lemma TenIsTen()
    ensures Decimal(10) == "10"
  {
    assert Decimal(1) == "1";
  }

  /** Everything listed before "10" is one of the two names that sort before it. */
  lemma BeforeTenInList(s: seq<string>, n: nat, j: nat, k: nat)
    requires Sorted(s) && (forall y :: y in s <==> y in Expected(n)) && k < j < |s| && s[j] == "10"
    ensures s[k] in {Decimal(0), Decimal(1)}
  {
    assert s[k] in s && s[k] in Expected(n);
    var i :| 0 <= i < n && s[k] == Decimal(i);
    assert Less(s[k], s[j]);
    BeforeTen(i);
  }

  lemma SortedNoRepeats(s: seq<string>, i: nat, j: nat)
    requires Sorted(s) && i < j < |s|
    ensures s[i] != s[j]
  {
    LessIrreflexive(s[i]);
  }

  /** From eleven outputs on, the third output receives the file numbered 10. */
  lemma LargePairing(n: nat)
    requires n >= 11
    ensures |Names(n)| == n && Names(n)[2] == Decimal(10)
  {
    NamesAreTheExpected(n);
    TenIsTen();
    var s := Names(n);
    assert Decimal(10) in Expected(n) && Decimal(0) in Expected(n) && Decimal(1) in Expected(n);
    var j :| 0 <= j < n && s[j] == Decimal(10);
    if j > 2 {
      BeforeTenInList(s, n, j, 0);
      BeforeTenInList(s, n, j, 1);
      BeforeTenInList(s, n, j, 2);
      SortedNoRepeats(s, 0, 1);
      SortedNoRepeats(s, 0, 2);
      SortedNoRepeats(s, 1, 2);
      assert false;
    }
    EarlyNamesComeFirst(s, j, 0);
    EarlyNamesComeFirst(s, j, 1);
    var a :| 0 <= a < j && s[a] == Decimal(0);
    var b :| 0 <= b < j && s[b] == Decimal(1);
    DecimalInjectiveAt(0, 1);
  }

  lemma DecimalInjectiveAt(a: nat, b: nat)
    requires a != b
    ensures Decimal(a) != Decimal(b)
  {
    if Decimal(a) == Decimal(b) {
      DecimalInjective(a, b);
    }
  }

  lemma EarlyNamesComeFirst(s: seq<string>, j: nat, i: nat)
    requires Sorted(s) && j < |s| && s[j] == "10" && Decimal(i) in s && i < 2
    ensures exists a :: 0 <= a < j && s[a] == Decimal(i)
  {
    var a :| 0 <= a < |s| && s[a] == Decimal(i);
    assert Less(Decimal(i), "10") by {
      assert Decimal(i) == [Digit(i)];
      assert "10"[1..] == "0" && Decimal(1)[1..] == [];
    }
    if a >= j {
      if a == j {
        LessIrreflexive("10");
      } else {
        LessTrans(Decimal(i), "10", Decimal(i));
        LessIrreflexive(Decimal(i));
      }
    }
  }

  /** The files reach the outputs they were written for exactly when there are at most ten. */
  lemma PairingIsIntendedIff(n: nat)
    ensures |Names(n)| == n
    ensures (forall k | 0 <= k < n :: Names(n)[k] == Decimal(k)) <==> n <= 10
  {
    if n <= 10 {
      SmallPairing(n);
    } else {
      LargePairing(n);
      DecimalInjectiveAt(2, 10);
    }
  }

  ghost predicate IsExpected(name: string, n: nat)
  {
    exists i :: 0 <= i < n && name == Decimal(i)
  }

  /** Exactly the directories with the expected names, no more and no less, are accepted. */
  lemma AcceptedIff(directory: map<string, Bytes>, n: nat)
    ensures CollectOutputs(directory, n).Some? <==> forall name :: name in directory <==> IsExpected(name, n)
  {
    forall name ensures name in Expected(n) <==> IsExpected(name, n)
    {
      if name in Expected(n) {
        var i :| 0 <= i < n && name == Decimal(i);
      }
      if i :| 0 <= i < n && name == Decimal(i) {
        assert Decimal(i) in Expected(n);
      }
    }
    if forall name :: name in directory <==> IsExpected(name, n) {
      forall name ensures name in directory.Keys <==> name in Expected(n)
      {
        assert name in directory <==> IsExpected(name, n);
      }
      assert directory.Keys == Expected(n);
    }
  }

  /** A complete directory is always accepted, every file reaches an output, and the k-th
      output gets the k-th file for every directory content exactly when there are at most ten. */
  lemma CollectedOutputs(directory: map<string, Bytes>, n: nat)
    requires directory.Keys == Expected(n)
    ensures CollectOutputs(directory, n).Some? && |CollectOutputs(directory, n).value| == n == |Names(n)|
    ensures forall k | 0 <= k < n :: Names(n)[k] in directory && CollectOutputs(directory, n).value[k] == directory[Names(n)[k]]
    ensures forall i | 0 <= i < n :: directory[Decimal(i)] in CollectOutputs(directory, n).value
    ensures n <= 10 ==> forall k | 0 <= k < n :: CollectOutputs(directory, n).value[k] == directory[Decimal(k)]
    ensures n >= 11 ==> CollectOutputs(directory, n).value[2] == directory[Decimal(10)]
  {
    NamesAreTheExpected(n);
    forall i | 0 <= i < n ensures directory[Decimal(i)] in CollectOutputs(directory, n).value
    {
      assert Decimal(i) in Expected(n);
      var k :| 0 <= k < n && Names(n)[k] == Decimal(i);
      assert CollectOutputs(directory, n).value[k] == directory[Decimal(i)];
    }
    if n <= 10 {
      SmallPairing(n);
    } else {
      LargePairing(n);
    }
  }
}
