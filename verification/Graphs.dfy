/** Finite dependency graphs: `b in g[a]` says that `a` depends on `b`.
    Dependencies that are not nodes of the graph are not edges. */
module Graphs {

  type Graph<T> = map<T, set<T>>

  ghost predicate Edge<T>(g: Graph<T>, a: T, b: T) {
    a in g && b in g && b in g[a]
  }

  ghost predicate Walk<T>(g: Graph<T>, p: seq<T>) {
    && p != []
    && (forall i | 0 <= i < |p| :: p[i] in g)
    && (forall i | 0 <= i < |p| - 1 :: Edge(g, p[i], p[i+1]))
  }

  ghost predicate Cycle<T>(g: Graph<T>, p: seq<T>) {
    |p| >= 2 && Walk(g, p) && p[0] == p[|p|-1]
  }

  ghost predicate Acyclic<T(!new)>(g: Graph<T>) {
    forall p: seq<T> :: !Cycle(g, p)
  }

  ghost predicate Distinct<T>(s: seq<T>) {
    forall i, j | 0 <= i < j < |s| :: s[i] != s[j]
  }

  /** Everything the k-th node depends on comes before it. */
  ghost predicate ReadyAt<T(!new)>(g: Graph<T>, order: seq<T>, k: nat) {
    k < |order| && order[k] in g && g[order[k]] * g.Keys <= Elements(order[..k])
  }

  ghost predicate DependenciesFirst<T(!new)>(g: Graph<T>, order: seq<T>) {
    forall k | 0 <= k < |order| :: ReadyAt(g, order, k)
  }

  /** Every node exactly once, after everything it depends on. */
  ghost predicate Topological<T(!new)>(g: Graph<T>, order: seq<T>) {
    Distinct(order) && Elements(order) == g.Keys && DependenciesFirst(g, order)
  }

  function Elements<T>(s: seq<T>): set<T> {
    set x | x in s
  }

  function UpTo(n: nat): (r: set<nat>)
    ensures |r| == n
    ensures forall x :: x in r <==> 0 <= x < n
  {
    if n == 0 then {} else UpTo(n - 1) + {n - 1}
  }

  lemma SubsetCount<T>(a: set<T>, b: set<T>)
    requires a <= b
    ensures |a| <= |b|
    ensures |a| == |b| ==> a == b
  {
    if a == {} {
    } else {
      var x :| x in a;
      SubsetCount(a - {x}, b - {x});
    }
  }

  lemma DistinctJoined<T(!new)>(a: seq<T>, b: seq<T>)
    requires Distinct(a) && Distinct(b) && Elements(a) !! Elements(b)
    ensures Distinct(a + b) && Elements(a + b) == Elements(a) + Elements(b)
  {
    forall x | x in Elements(a) + Elements(b) ensures x in Elements(a + b) {
      assert x in a || x in b;
    }
    forall i, j | 0 <= i < j < |a + b| ensures (a + b)[i] != (a + b)[j] {
      if i < |a| <= j { assert a[i] in Elements(a) && b[j - |a|] in Elements(b); }
    }
  }

  lemma InElements<T(!new)>(s: seq<T>, x: T)
    ensures x in s <==> x in Elements(s)
  {
  }

  lemma ElementsNone<T(!new)>(s: seq<T>)
    ensures Elements(s[..0]) == {}
  {
  }

  lemma ElementsNext<T(!new)>(s: seq<T>, i: nat)
    requires i < |s|
    ensures Elements(s[..i+1]) == Elements(s[..i]) + {s[i]}
  {
  }

  lemma DistinctElements<T(!new)>(s: seq<T>)
    ensures |Elements(s)| <= |s|
    ensures Distinct(s) ==> |Elements(s)| == |s|
  {
    if s != [] {
      var rest := s[..|s|-1];
      DistinctElements(rest);
      assert s == rest + [s[|s|-1]];
      assert Elements(s) == Elements(rest) + {s[|s|-1]};
    }
  }

  lemma {:induction false} WalkDescends<T(!new)>(g: Graph<T>, order: seq<T>, p: seq<T>, last: nat) returns (i: nat, j: nat)
    requires Topological(g, order) && Walk(g, p) && last < |p|
    ensures i <= j < |order| && order[j] == p[0] && order[i] == p[last]
    ensures last > 0 ==> i < j
  {
    if last == 0 {
      assert p[0] in Elements(order);
      j :| 0 <= j < |order| && order[j] == p[0];
      i := j;
    } else {
      var k;
      k, j := WalkDescends(g, order, p, last - 1);
      assert Edge(g, p[last-1], p[last-1+1]);
      assert ReadyAt(g, order, k);
      assert p[last] in g[order[k]] && p[last] in Elements(order[..k]);
      i :| 0 <= i < k && order[i] == p[last];
    }
  }

  /** A graph with a topological order has no cycle. */
  lemma TopologicalAcyclic<T(!new)>(g: Graph<T>, order: seq<T>)
    requires Topological(g, order)
    ensures Acyclic(g)
  {
    forall p: seq<T> ensures !Cycle(g, p) {
      if Cycle(g, p) {
        var i, j := WalkDescends(g, order, p, |p| - 1);
      }
    }
  }

  ghost predicate DependsInto<T(!new)>(g: Graph<T>, a: T, s: set<T>) {
    exists b :: b in s && Edge(g, a, b)
  }

  /** A nonempty set of nodes each depending on a member of the set. */
  ghost predicate Stuck<T(!new)>(g: Graph<T>, s: set<T>) {
    s != {} && forall a | a in s :: DependsInto(g, a, s)
  }

  lemma DistinctBound<T(!new)>(p: seq<T>, s: set<T>)
    requires Distinct(p) && forall i | 0 <= i < |p| :: p[i] in s
    ensures |p| <= |s|
    ensures |p| == |s| ==> Elements(p) == s
  {
    DistinctElements(p);
    SubsetCount(Elements(p), s);
  }

  lemma WalkAppend<T>(g: Graph<T>, p: seq<T>, b: T)
    requires Walk(g, p) && Edge(g, p[|p|-1], b)
    ensures Walk(g, p + [b])
  {
    var q := p + [b];
    forall i | 0 <= i < |q| - 1 ensures Edge(g, q[i], q[i+1]) {
      if i < |p| - 1 { assert Edge(g, p[i], p[i+1]); }
    }
  }

  lemma WalkDrop<T>(g: Graph<T>, p: seq<T>, i: nat)
    requires Walk(g, p) && i < |p|
    ensures Walk(g, p[i..])
  {
    var q := p[i..];
    forall k | 0 <= k < |q| - 1 ensures Edge(g, q[k], q[k+1]) {
      assert Edge(g, p[i+k], p[i+k+1]);
    }
  }

  lemma {:induction false} WalkUntilRepeat<T(!new)>(g: Graph<T>, s: set<T>, p: seq<T>)
    requires Stuck(g, s)
    requires Walk(g, p) && Distinct(p) && forall i | 0 <= i < |p| :: p[i] in s
    ensures !Acyclic(g)
    decreases |s| - |p|
  {
    var a := p[|p|-1];
    assert DependsInto(g, a, s);
    var b :| b in s && Edge(g, a, b);
    WalkAppend(g, p, b);
    if i :| 0 <= i < |p| && p[i] == b {
      WalkDrop(g, p + [b], i);
      assert Cycle(g, (p + [b])[i..]);
    } else {
      DistinctBound(p + [b], s);
      WalkUntilRepeat(g, s, p + [b]);
    }
  }

  /** A stuck set contains a cycle. */
  lemma StuckCyclic<T(!new)>(g: Graph<T>, s: set<T>)
    requires Stuck(g, s)
    ensures !Acyclic(g)
  {
    var a :| a in s;
    assert DependsInto(g, a, s);
    assert Walk(g, [a]);
    WalkUntilRepeat(g, s, [a]);
  }

  lemma {:induction false} CompleteOrder<T(!new)>(g: Graph<T>, partial: seq<T>) returns (order: seq<T>)
    requires Acyclic(g)
    requires Distinct(partial) && Elements(partial) <= g.Keys && DependenciesFirst(g, partial)
    ensures Topological(g, order) && partial <= order
    decreases |g.Keys| - |partial|
  {
    DistinctBound(partial, g.Keys);
    var left := g.Keys - Elements(partial);
    if left == {} {
      forall a | a in g.Keys ensures a in Elements(partial) { assert a !in left; }
      order := partial;
    } else if a :| a in left && g[a] * g.Keys <= Elements(partial) {
      AppendReady(g, partial, a);
      DistinctBound(partial + [a], g.Keys);
      order := CompleteOrder(g, partial + [a]);
    } else {
      forall a | a in left ensures DependsInto(g, a, left) {
        var b :| b in g[a] * g.Keys && b !in Elements(partial);
        assert Edge(g, a, b);
      }
      StuckCyclic(g, left);
      order := partial;
    }
  }

  lemma AppendReady<T(!new)>(g: Graph<T>, order: seq<T>, a: T)
    requires DependenciesFirst(g, order)
    requires a in g && g[a] * g.Keys <= Elements(order)
    ensures DependenciesFirst(g, order + [a])
    ensures Elements(order + [a]) == Elements(order) + {a}
  {
    var order' := order + [a];
    forall k | 0 <= k < |order'| ensures ReadyAt(g, order', k) {
      if k < |order| {
        assert ReadyAt(g, order, k);
        assert order'[..k] == order[..k];
      } else {
        assert order'[..k] == order;
      }
    }
  }

  /** A finite graph without cycles has a topological order. */
  lemma AcyclicOrder<T(!new)>(g: Graph<T>) returns (order: seq<T>)
    requires Acyclic(g)
    ensures Topological(g, order)
  {
    order := CompleteOrder(g, []);
  }
}
