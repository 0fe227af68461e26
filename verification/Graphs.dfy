/** Finite reference graphs: each name maps to the names it refers to, in document order. */
module Graphs {

  type Graph<N> = map<N, seq<N>>

  /** The direct references of `n`; a name the graph does not define has none. */
  function Next<N>(g: Graph<N>, n: N): seq<N> {
    if n in g then g[n] else []
  }

  function Members<N>(s: seq<N>): set<N> {
    set n | n in s
  }

  ghost predicate Walk<N>(g: Graph<N>, p: seq<N>) {
    && p != []
    && forall i :: 0 < i < |p| ==> p[i] in Next(g, p[i - 1])
  }

  ghost predicate WalkBetween<N>(g: Graph<N>, a: N, b: N, p: seq<N>) {
    Walk(g, p) && p[0] == a && p[|p| - 1] == b
  }

  ghost predicate Reaches<N(!new)>(g: Graph<N>, a: N, b: N) {
    exists p :: WalkBetween(g, a, b, p)
  }

  ghost predicate OnCycle<N(!new)>(g: Graph<N>, n: N) {
    exists m :: m in Next(g, n) && Reaches(g, m, n)
  }

  ghost predicate CycleFrom<N(!new)>(g: Graph<N>, n: N) {
    exists m :: Reaches(g, n, m) && OnCycle(g, m)
  }

  ghost predicate Distinct<N>(s: seq<N>) {
    forall i, j :: 0 <= i < j < |s| ==> s[i] != s[j]
  }

  /** Every reference of every element comes earlier in `order`. */
  ghost predicate DependenciesFirst<N>(g: Graph<N>, order: seq<N>) {
    forall i, m :: 0 <= i < |order| && m in Next(g, order[i]) ==> m in order[..i]
  }

  lemma ReachesSelf<N(!new)>(g: Graph<N>, a: N)
    ensures Reaches(g, a, a)
  {
    assert WalkBetween(g, a, a, [a]);
  }

  lemma ReachesNext<N(!new)>(g: Graph<N>, a: N, b: N)
    requires b in Next(g, a)
    ensures Reaches(g, a, b)
  {
    assert WalkBetween(g, a, b, [a, b]);
  }

  lemma ReachesTransitive<N(!new)>(g: Graph<N>, a: N, b: N, c: N)
    requires Reaches(g, a, b) && Reaches(g, b, c)
    ensures Reaches(g, a, c)
  {
    var p :| WalkBetween(g, a, b, p);
    var q :| WalkBetween(g, b, c, q);
    var r := p + q[1..];
    forall i | 0 < i < |r|
      ensures r[i] in Next(g, r[i - 1])
    {
      if i >= |p| {
        assert r[i] == q[i - |p| + 1] && r[i - 1] == q[i - |p|];
      }
    }
    assert WalkBetween(g, a, c, r);
  }

  lemma ReachesStep<N(!new)>(g: Graph<N>, a: N, b: N, c: N)
    requires Reaches(g, a, b) && c in Next(g, b)
    ensures Reaches(g, a, c)
  {
    ReachesNext(g, b, c);
    ReachesTransitive(g, a, b, c);
  }

  lemma CycleFromNext<N(!new)>(g: Graph<N>, a: N, b: N)
    requires b in Next(g, a) && CycleFrom(g, b)
    ensures CycleFrom(g, a)
  {
    var m :| Reaches(g, b, m) && OnCycle(g, m);
    ReachesNext(g, a, b);
    ReachesTransitive(g, a, b, m);
  }

  /** A walk that comes back to one of its own members closes a cycle. */
  lemma WalkClosesCycle<N(!new)>(g: Graph<N>, path: seq<N>, n: N)
    requires Walk(g, path + [n]) && n in path
    ensures OnCycle(g, n)
  {
    var k :| 0 <= k < |path| && path[k] == n;
    var walk := path + [n];
    var p := walk[k + 1..];
    assert walk[k + 1] in Next(g, walk[k]);
    forall i | 0 < i < |p|
      ensures p[i] in Next(g, p[i - 1])
    {
      assert p[i] == walk[k + 1 + i] && p[i - 1] == walk[k + i];
    }
    assert WalkBetween(g, p[0], n, p);
  }

  lemma WalkExtends<N>(g: Graph<N>, path: seq<N>, n: N)
    requires path != [] ==> Walk(g, path) && n in Next(g, path[|path| - 1])
    ensures Walk(g, path + [n])
  {
    forall i | 0 < i < |path + [n]|
      ensures (path + [n])[i] in Next(g, (path + [n])[i - 1])
    {
      if i < |path| {
        assert path[i] in Next(g, path[i - 1]);
      }
    }
  }

  /** Every member of a walk reaches its last one. */
  lemma WalkReachesLast<N(!new)>(g: Graph<N>, path: seq<N>, n: N)
    requires Walk(g, path) && n in path
    ensures Reaches(g, n, path[|path| - 1])
  {
    var k :| 0 <= k < |path| && path[k] == n;
    var p := path[k..];
    forall i | 0 < i < |p|
      ensures p[i] in Next(g, p[i - 1])
    {
      assert p[i] == path[k + i] && p[i - 1] == path[k + i - 1];
    }
    assert WalkBetween(g, n, path[|path| - 1], p);
  }

  /** A set closed under references holds everything its members reach. */
  lemma ClosedHoldsReachable<N(!new)>(g: Graph<N>, s: set<N>, a: N, b: N)
    requires a in s && Reaches(g, a, b)
    requires forall n, m :: n in s && m in Next(g, n) ==> m in s
    ensures b in s
  {
    var p :| WalkBetween(g, a, b, p);
    for i := 1 to |p|
      invariant p[i - 1] in s
    {
      assert p[i] in Next(g, p[i - 1]);
    }
  }

  /** Members of a dependencies-first order reach only themselves and earlier members. */
  lemma OrderHoldsReachable<N(!new)>(g: Graph<N>, order: seq<N>, a: N, b: N)
    requires DependenciesFirst(g, order) && a in order && Reaches(g, a, b)
    ensures b in order
  {
    ClosedHoldsReachable(g, (set x | x in order), a, b);
  }

  lemma OrderHasNoCycle<N(!new)>(g: Graph<N>, order: seq<N>, n: N)
    requires Distinct(order) && DependenciesFirst(g, order) && n in order
    ensures !OnCycle(g, n)
  {
    if OnCycle(g, n) {
      var m :| m in Next(g, n) && Reaches(g, m, n);
      var i :| 0 <= i < |order| && order[i] == n;
      var before := order[..i];
      forall k, x | 0 <= k < |before| && x in Next(g, before[k])
        ensures x in before[..k]
      {
        assert before[k] == order[k] && before[..k] == order[..k];
      }
      OrderHoldsReachable(g, before, m, n);
    }
  }

  /** Two names that reach each other are on a cycle. */
  lemma ThereAndBack<N(!new)>(g: Graph<N>, a: N, b: N)
    requires a != b && Reaches(g, a, b) && Reaches(g, b, a)
    ensures OnCycle(g, a)
  {
    var p :| WalkBetween(g, a, b, p);
    forall i | 0 < i < |p[1..]|
      ensures p[1..][i] in Next(g, p[1..][i - 1])
    {
      assert p[1..][i] == p[i + 1] && p[1..][i - 1] == p[i];
    }
    assert WalkBetween(g, p[1], b, p[1..]);
    ReachesTransitive(g, p[1], b, a);
  }

  /** Ranks that fall along every reference leave no room for a cycle. */
  lemma RankedHasNoCycle<N(!new)>(g: Graph<N>, rank: map<N, int>, a: N)
    requires a in rank && forall x, y :: x in rank && y in Next(g, x) ==> y in rank && rank[y] < rank[x]
    ensures !CycleFrom(g, a)
  {
    forall x, y | x in rank && Reaches(g, x, y)
      ensures y in rank && rank[y] <= rank[x]
    {
      RankFalls(g, rank, x, y);
    }
  }

  lemma RankFalls<N(!new)>(g: Graph<N>, rank: map<N, int>, a: N, b: N)
    requires a in rank && forall x, y :: x in rank && y in Next(g, x) ==> y in rank && rank[y] < rank[x]
    requires Reaches(g, a, b)
    ensures b in rank && rank[b] <= rank[a]
  {
    var p :| WalkBetween(g, a, b, p);
    for i := 1 to |p|
      invariant p[i - 1] in rank && rank[p[i - 1]] <= rank[a]
    {
      assert p[i] in Next(g, p[i - 1]);
    }
  }
}
