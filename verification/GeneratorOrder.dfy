/** Dependency order of generators: a depth-first walk that shares one visited set. */
module GeneratorOrder {
  import opened Prelude

  type Id = string

  /** Generator identifiers with their declared dependencies, in declaration order. */
  type Graph = map<Id, seq<Id>>

  ghost predicate IsPath(g: Graph, p: seq<Id>)
  {
    && |p| > 0
    && forall i | 0 <= i < |p| - 1 :: p[i] in g && p[i + 1] in g[p[i]]
  }

  /** `b` is `a` or a direct or indirect dependency of it. */
  ghost predicate Reaches(g: Graph, a: Id, b: Id)
  {
    exists p :: IsPath(g, p) && p[0] == a && p[|p| - 1] == b
  }

  /** Some dependency of `a` leads back to `a`. */
  ghost predicate OnCycle(g: Graph, a: Id)
  {
    a in g && exists d | d in g[a] :: Reaches(g, d, a)
  }

  lemma ReachesSelf(g: Graph, a: Id)
    ensures Reaches(g, a, a)
  {
    assert IsPath(g, [a]);
  }

  lemma ReachesTrans(g: Graph, a: Id, b: Id, c: Id)
    requires Reaches(g, a, b) && Reaches(g, b, c)
    ensures Reaches(g, a, c)
  {
    var p :| IsPath(g, p) && p[0] == a && p[|p| - 1] == b;
    var q :| IsPath(g, q) && q[0] == b && q[|q| - 1] == c;
    var r := p + q[1..];
    forall i | 0 <= i < |r| - 1 ensures r[i] in g && r[i + 1] in g[r[i]]
    {
      if i >= |p| - 1 {
        var k := i - (|p| - 1);
        assert r[i] == q[k] && r[i + 1] == q[k + 1];
      }
    }
    assert IsPath(g, r);
  }

  lemma ReachesStep(g: Graph, a: Id, d: Id)
    requires a in g && d in g[a]
    ensures Reaches(g, a, d)
  {
    var p := [a, d];
    assert IsPath(g, p) && p[0] == a && p[|p| - 1] == d;
  }

  /** A set closed under dependencies contains everything its members reach. */
  lemma {:induction false} ClosedContainsPath(g: Graph, s: set<Id>, p: seq<Id>)
    requires IsPath(g, p) && p[0] in s
    requires forall x, d | x in s && x in g && d in g[x] :: d in s
    ensures p[|p| - 1] in s
    decreases |p|
  {
    if |p| > 1 {
      assert p[1] in g[p[0]];
      ClosedContainsPath(g, s, p[1..]);
    }
  }

  ghost predicate NoDuplicates(s: seq<Id>)
  {
    forall i, j | 0 <= i < j < |s| :: s[i] != s[j]
  }

  /** Each dependency comes earlier, except along a cycle back to it. */
  ghost predicate Ordered(g: Graph, order: seq<Id>, from: nat)
  {
    forall i | from <= i < |order| :: order[i] in g && forall d | d in g[order[i]] :: d in order[..i] || Reaches(g, d, order[i])
  }

  /** Entered but not yet listed generators all lead to the one being visited. */
  ghost predicate OpenReach(g: Graph, visited: set<Id>, order: seq<Id>, id: Id)
  {
    forall x | x in visited && x !in order :: Reaches(g, x, id)
  }

  function Open(visited: set<Id>, order: seq<Id>): (r: set<Id>)
  {
    set x | x in visited && x !in order
  }

  /** What visiting `root` did between two moments, while `open` was entered and not yet listed:
      the list grew, everything new is known, reachable and closed under dependencies, and the new
      part of the list is ordered. */
  ghost predicate Progress(g: Graph, root: Id, v0: set<Id>, o0: seq<Id>, v: set<Id>, o: seq<Id>, open: set<Id>)
  {
    && v0 <= v
    && NoDuplicates(o) && (forall x | x in o :: x in v)
    && |o0| <= |o| && o[..|o0|] == o0
    && Open(v, o) == Open(v0, o0) + open
    && (forall x | x in v - v0 :: x in g && Reaches(g, root, x))
    && (forall x, d | x in v - v0 - open && d in g[x] :: d in v)
    && Ordered(g, o, |o0|)
  }

  lemma EnterProgress(g: Graph, id: Id, v0: set<Id>, o0: seq<Id>)
    requires NoDuplicates(o0) && (forall x | x in o0 :: x in v0)
    requires id !in v0 && id in g
    ensures Progress(g, id, v0, o0, v0 + {id}, o0, {id})
  {
    ReachesSelf(g, id);
  }

  lemma ProgressOpensTowards(g: Graph, id: Id, d: Id, v0: set<Id>, o0: seq<Id>, v: set<Id>, o: seq<Id>)
    requires Progress(g, id, v0, o0, v, o, {id}) && OpenReach(g, v0, o0, id) && Reaches(g, id, d)
    ensures OpenReach(g, v, o, d)
  {
    forall x | x in v && x !in o ensures Reaches(g, x, d)
    {
      assert x in Open(v0, o0) + {id};
      ReachesSelf(g, id);
      ReachesTrans(g, x, id, d);
    }
  }

  lemma ProgressThenDependency(g: Graph, id: Id, d: Id, v0: set<Id>, o0: seq<Id>, v1: set<Id>, o1: seq<Id>, v2: set<Id>, o2: seq<Id>)
    requires Progress(g, id, v0, o0, v1, o1, {id}) && Progress(g, d, v1, o1, v2, o2, {}) && Reaches(g, id, d)
    ensures Progress(g, id, v0, o0, v2, o2, {id})
  {
    forall x | x in v2 - v1 ensures Reaches(g, id, x)
    {
      ReachesTrans(g, id, d, x);
    }
    assert o2[..|o0|] == o2[..|o1|][..|o0|];
    OrderedExtends(g, o1, o2, |o0|);
  }

  lemma LeaveProgress(g: Graph, id: Id, v0: set<Id>, o0: seq<Id>, v: set<Id>, o: seq<Id>)
    requires Progress(g, id, v0, o0, v, o, {id}) && OpenReach(g, v0, o0, id)
    requires id !in v0 && id in v && id in g && forall d | d in g[id] :: d in v
    ensures Progress(g, id, v0, o0, v, o + [id], {})
  {
    var now := o + [id];
    assert id in Open(v, o) && id !in o;
    forall d | d in g[id] ensures d in o || Reaches(g, d, id)
    {
      if d !in o {
        assert d in Open(v0, o0) + {id};
        ReachesSelf(g, id);
      }
    }
    assert Ordered(g, now, |o|) by {
      assert now[|o|] == id && now[..|o|] == o;
    }
    OrderedExtends(g, o, now, |o0|);
    assert now[..|o0|] == o[..|o0|];
    assert id !in Open(v0, o0);
    assert Open(v, now) == Open(v, o) - {id};
  }

  lemma OrderedExtends(g: Graph, was: seq<Id>, now: seq<Id>, from: nat)
    requires Ordered(g, was, from) && |was| <= |now| && now[..|was|] == was && Ordered(g, now, |was|)
    ensures Ordered(g, now, from)
  {
    forall i | from <= i < |was| ensures now[i] == was[i] && now[..i] == was[..i]
    {
      assert now[..i] == now[..|was|][..i];
    }
  }

  lemma OneMoreVisited(dependencies: seq<Id>, k: nat, seen: set<Id>, visited: set<Id>)
    requires k < |dependencies| && seen <= visited && dependencies[k] in visited
    requires forall i | 0 <= i < k :: dependencies[i] in seen
    ensures forall i | 0 <= i < k + 1 :: dependencies[i] in visited
  {
  }

  lemma UndeclaredFurther(g: Graph, id: Id, d: Id)
    requires Reaches(g, id, d) && exists x :: x !in g && Reaches(g, d, x)
    ensures exists x :: x !in g && Reaches(g, id, x)
  {
    var x :| x !in g && Reaches(g, d, x);
    ReachesTrans(g, id, d, x);
  }

  class Collector {
    var visited: set<Id>
    var order: seq<Id>

    constructor ()
      ensures visited == {} && order == []
    {
      visited, order := {}, [];
    }

    ghost predicate Valid()
      reads this
    {
      NoDuplicates(order) && forall x | x in order :: x in visited
    }

    /** collect_generator_order */
    method Collect(g: Graph, id: Id) returns (ok: bool)
      requires Valid() && OpenReach(g, visited, order, id)
      modifies this
      decreases g.Keys - visited
      ensures old(visited) <= visited && id in visited
      ensures ok ==> Valid() && Progress(g, id, old(visited), old(order), visited, order, {})
      ensures ok && id !in old(visited) ==> order != [] && order[|order| - 1] == id
      ensures !ok ==> exists x :: x !in g && Reaches(g, id, x)
    {
      if id in visited {
        return true;
      }
      visited := visited + {id};
      if id !in g {
        ReachesSelf(g, id);
        return false;
      }
      EnterProgress(g, id, old(visited), order);
      var dependencies := g[id];
      var k := 0;
      while k < |dependencies|
        invariant 0 <= k <= |dependencies|
        invariant id in visited
        invariant Progress(g, id, old(visited), old(order), visited, order, {id})
        invariant forall i | 0 <= i < k :: dependencies[i] in visited
      {
        var d := dependencies[k];
        ReachesStep(g, id, d);
        ghost var seen, done := visited, order;
        ProgressOpensTowards(g, id, d, old(visited), old(order), visited, order);
        ok := Collect(g, d);
        if !ok {
          UndeclaredFurther(g, id, d);
          return;
        }
        ProgressThenDependency(g, id, d, old(visited), old(order), seen, done, visited, order);
        OneMoreVisited(dependencies, k, seen, visited);
        k := k + 1;
      }
      LeaveProgress(g, id, old(visited), old(order), visited, order);
      order := order + [id];
      ok := true;
    }
  }

  /** The order `run_generate` works through, for one requested generator. It exists exactly when
      every reachable generator is declared; then it lists each of them once, the requested one
      last, and no generator before a dependency unless the two are on a cycle. */
  method OrderFor(g: Graph, root: Id) returns (r: Option<seq<Id>>)
    ensures r.Some? <==> forall x | Reaches(g, root, x) :: x in g
    ensures r.Some? ==> NoDuplicates(r.value) && forall x :: x in r.value <==> Reaches(g, root, x)
    ensures r.Some? ==> r.value != [] && r.value[|r.value| - 1] == root
    ensures r.Some? ==> Ordered(g, r.value, 0)
    ensures r.Some? && (forall x | x in r.value :: !OnCycle(g, x)) ==>
      forall i | 0 <= i < |r.value| :: forall d | d in g[r.value[i]] :: d in r.value[..i]
  {
    var c := new Collector();
    ReachesSelf(g, root);
    var ok := c.Collect(g, root);
    if !ok {
      return None;
    }
    r := Some(c.order);
    forall x ensures x in c.order <==> Reaches(g, root, x)
    {
      assert x in c.order <==> x in c.visited by {
        assert x in c.visited && x !in c.order <==> x in Open(c.visited, c.order);
      }
      if Reaches(g, root, x) {
        var p :| IsPath(g, p) && p[0] == root && p[|p| - 1] == x;
        ClosedContainsPath(g, c.visited, p);
      }
    }
    if forall x | x in c.order :: !OnCycle(g, x) {
      forall i, d | 0 <= i < |c.order| && d in g[c.order[i]] ensures d in c.order[..i]
      {
        assert !OnCycle(g, c.order[i]);
      }
    }
  }
}
