/** The order in which sorted maps and sets of names are iterated: byte by byte. */
module Ordering {
  import opened Prelude
  import opened CacheAddress
  import opened CacheStore

  predicate BeforeFrom(a: Text, b: Text, i: nat)
    requires i <= |a| && i <= |b|
    decreases |b| - i
  {
    if i == |b| then false
    else if i == |a| then true
    else a[i] < b[i] || (a[i] == b[i] && BeforeFrom(a, b, i + 1))
  }

  predicate Before(a: Text, b: Text)
  {
    BeforeFrom(a, b, 0)
  }

  lemma {:induction false} BeforeTransitive(a: Text, b: Text, c: Text, i: nat)
    requires i <= |a| && i <= |b| && i <= |c| && BeforeFrom(a, b, i) && BeforeFrom(b, c, i)
    ensures BeforeFrom(a, c, i)
    decreases |b| - i
  {
    if i < |a| && a[i] == b[i] == c[i] {
      BeforeTransitive(a, b, c, i + 1);
    }
  }

  lemma {:induction false} BeforeAsymmetric(a: Text, b: Text, i: nat)
    requires i <= |a| && i <= |b| && BeforeFrom(a, b, i)
    ensures !BeforeFrom(b, a, i)
    decreases |b| - i
  {
    if i < |a| && a[i] == b[i] {
      BeforeAsymmetric(a, b, i + 1);
    }
  }

  lemma {:induction false} BeforeTotal(a: Text, b: Text, i: nat)
    requires i <= |a| && i <= |b| && a[..i] == b[..i] && a != b
    ensures BeforeFrom(a, b, i) || BeforeFrom(b, a, i)
    decreases |b| - i
  {
    if i == |a| || i == |b| {
      assert a[..|a|] == a && b[..|b|] == b;
    } else if a[i] == b[i] {
      assert a[..i + 1] == a[..i] + [a[i]] && b[..i + 1] == b[..i] + [b[i]];
      BeforeTotal(a, b, i + 1);
    }
  }

  // ---------- the sorted listing ----------

  ghost predicate IsLast(ks: set<Text>, k: Text)
  {
    k in ks && forall j | j in ks && j != k :: Before(j, k)
  }

  lemma {:induction false} LastExists(ks: set<Text>)
    requires ks != {}
    ensures exists k :: IsLast(ks, k)
    decreases |ks|
  {
    var some :| some in ks;
    if ks == {some} {
      assert IsLast(ks, some);
    } else {
      var rest := ks - {some};
      assert rest != {};
      LastExists(rest);
      var last :| IsLast(rest, last);
      BeforeTotal(some, last, 0);
      if Before(some, last) {
        assert IsLast(ks, last);
      } else {
        forall j | j in ks && j != some ensures Before(j, some)
        {
          if j != last {
            assert j in rest && Before(j, last);
            BeforeTransitive(j, last, some, 0);
          }
        }
        assert IsLast(ks, some);
      }
    }
  }

  lemma LastUnique(ks: set<Text>, one: Text, two: Text)
    requires IsLast(ks, one) && IsLast(ks, two)
    ensures one == two
  {
    if one != two {
      BeforeAsymmetric(one, two, 0);
    }
  }

  ghost function Last(ks: set<Text>): (k: Text)
    requires ks != {}
    ensures IsLast(ks, k)
  {
    LastExists(ks);
    var k :| IsLast(ks, k);
    k
  }

  /** Every name once, in order. */
  ghost function InOrder(ks: set<Text>): (names: seq<Text>)
    decreases |ks|
  {
    if ks == {} then [] else InOrder(ks - {Last(ks)}) + [Last(ks)]
  }

  lemma {:induction false} InOrderLists(ks: set<Text>)
    ensures Lists(InOrder(ks), ks)
    decreases |ks|
  {
    if ks != {} {
      InOrderLists(ks - {Last(ks)});
      ListsExtend(InOrder(ks - {Last(ks)}), ks, Last(ks));
    }
  }

  /** Earlier names come before later ones. */
  lemma {:induction false} InOrderAscends(ks: set<Text>, i: nat, j: nat)
    requires i < j < |InOrder(ks)|
    ensures Before(InOrder(ks)[i], InOrder(ks)[j])
    decreases |ks|
  {
    var rest := ks - {Last(ks)};
    if j < |InOrder(rest)| {
      InOrderAscends(rest, i, j);
    } else {
      InOrderLists(rest);
      ListedMember(InOrder(rest), i, |InOrder(rest)|);
    }
  }

  method FindLast(ks: set<Text>) returns (last: Text)
    requires ks != {}
    ensures last == Last(ks)
  {
    last :| last in ks;
    var todo := ks - {last};
    while todo != {}
      invariant todo <= ks && last in ks && last !in todo
      invariant forall j | j in ks && j !in todo && j != last :: Before(j, last)
      decreases |todo|
    {
      var k :| k in todo;
      BeforeTotal(k, last, 0);
      if Before(last, k) {
        forall j | j in ks && j !in todo && j != last ensures Before(j, k)
        {
          BeforeTransitive(j, last, k, 0);
        }
        last := k;
      }
      todo := todo - {k};
    }
    LastUnique(ks, last, Last(ks));
  }

  /** Iteration over a sorted set. */
  method SortedListing(ks: set<Text>) returns (names: seq<Text>)
    ensures names == InOrder(ks) && Lists(names, ks)
  {
    names := [];
    var todo := ks;
    while todo != {}
      invariant InOrder(ks) == InOrder(todo) + names
      decreases |todo|
    {
      var k := FindLast(todo);
      names, todo := [k] + names, todo - {k};
    }
    InOrderLists(ks);
  }
}
