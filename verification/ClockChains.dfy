/** The clocks whose ticks have to be counted, listed parents first. */
module ClockChains {
  import opened Lustre
  import opened Graphs
  import opened Clocks

  // ---------------------------------------------------------------- the order of keys

  /** Lexicographic order. */
  predicate Before(a: string, b: string) {
    b != [] && (a == [] || a[0] < b[0] || (a[0] == b[0] && Before(a[1..], b[1..])))
  }

  lemma {:induction false} NotBoth(a: string, b: string)
    requires Before(a, b)
    ensures !Before(b, a)
  {
    if a != [] && a[0] == b[0] { NotBoth(a[1..], b[1..]); }
  }

  /** What comes before `b` comes before everything that does not. */
  lemma {:induction false} BeforeNotEarlier(a: string, b: string, c: string)
    requires Before(a, b) && !Before(c, b)
    ensures Before(a, c)
  {
    if a != [] && c != [] && a[0] == b[0] == c[0] { BeforeNotEarlier(a[1..], b[1..], c[1..]); }
  }

  lemma {:induction false} PrefixBefore(a: string, more: string)
    requires more != []
    ensures Before(a, a + more)
  {
    if a != [] {
      assert (a + more)[1..] == a[1..] + more;
      PrefixBefore(a[1..], more);
    }
  }

  // ---------------------------------------------------------------- sorting

  ghost predicate SortedByKey(chains: seq<Clock>) {
    forall i, j | 0 <= i < j < |chains| :: !Before(Key(chains[j]), Key(chains[i]))
  }

  method Insert(chains: seq<Clock>, ck: Clock) returns (more: seq<Clock>)
    requires SortedByKey(chains) && Distinct(chains) && ck !in chains
    ensures SortedByKey(more) && Distinct(more) && Elements(more) == Elements(chains) + {ck}
  {
    var p := 0;
    while p < |chains| && !Before(Key(ck), Key(chains[p]))
      invariant p <= |chains|
      invariant forall i | 0 <= i < p :: !Before(Key(ck), Key(chains[i]))
    {
      p := p + 1;
    }
    more := chains[..p] + [ck] + chains[p..];
    Inserted(chains, ck, p);
  }

  lemma Inserted(chains: seq<Clock>, ck: Clock, p: nat)
    requires SortedByKey(chains) && Distinct(chains) && ck !in chains && p <= |chains|
    requires forall i | 0 <= i < p :: !Before(Key(ck), Key(chains[i]))
    requires p < |chains| ==> Before(Key(ck), Key(chains[p]))
    ensures var more := chains[..p] + [ck] + chains[p..];
      SortedByKey(more) && Distinct(more) && Elements(more) == Elements(chains) + {ck}
  {
    hide SortedByKey, Distinct;
    InsertedSorted(chains, ck, p);
    InsertedOnce(chains, ck, p);
  }

  lemma InsertedSorted(chains: seq<Clock>, ck: Clock, p: nat)
    requires SortedByKey(chains) && p <= |chains| && forall i | 0 <= i < p :: !Before(Key(ck), Key(chains[i]))
    requires p < |chains| ==> Before(Key(ck), Key(chains[p]))
    ensures SortedByKey(chains[..p] + [ck] + chains[p..])
  {
    hide Key, Before;
    var more := chains[..p] + [ck] + chains[p..];
    assert forall i | 0 <= i < |more| :: more[i] == if i < p then chains[i] else if i == p then ck else chains[i-1];
    forall j | p <= j < |chains| ensures !Before(Key(chains[j]), Key(ck)) {
      if p < j { BeforeNotEarlier(Key(ck), Key(chains[p]), Key(chains[j])); }
      NotBoth(Key(ck), Key(chains[j]));
    }
  }

  lemma InsertedOnce(chains: seq<Clock>, ck: Clock, p: nat)
    requires Distinct(chains) && ck !in chains && p <= |chains|
    ensures Distinct(chains[..p] + [ck] + chains[p..])
    ensures Elements(chains[..p] + [ck] + chains[p..]) == Elements(chains) + {ck}
  {
    var more := chains[..p] + [ck] + chains[p..];
    assert forall i | 0 <= i < |more| :: more[i] == if i < p then chains[i] else if i == p then ck else chains[i-1];
    forall x | x in chains ensures x in more {
      var i :| 0 <= i < |chains| && chains[i] == x;
      assert more[if i < p then i else i + 1] == x;
    }
    assert more[p] == ck;
  }

  /** The clocks by key. */
  method SortChains(found: set<Clock>) returns (chains: seq<Clock>)
    ensures Elements(chains) == found && Distinct(chains) && SortedByKey(chains)
  {
    hide Distinct, SortedByKey;
    chains := [];
    NothingSorted();
    var left := found;
    while left != {}
      invariant left <= found && Elements(chains) == found - left
      invariant Distinct(chains) && SortedByKey(chains)
    {
      var ck :| ck in left;
      InElements(chains, ck);
      left := left - {ck};
      chains := Insert(chains, ck);
    }
  }

  lemma NothingSorted()
    ensures Distinct<Clock>([]) && SortedByKey([]) && Elements<Clock>([]) == {}
  {
  }

  // ---------------------------------------------------------------- parents precede children

  predicate Above(a: Clock, b: Clock) {
    b.On? && (a == b.parent || Above(a, b.parent))
  }

  lemma {:induction false} KeyAbove(a: Clock, b: Clock) returns (more: string)
    requires Above(a, b)
    ensures more != [] && Key(b) == Key(a) + more
  {
    var last := "/" + b.clock + (if b.on then "+" else "-");
    assert Key(b) == Key(b.parent) + last;
    if a == b.parent {
      more := last;
    } else {
      more := KeyAbove(a, b.parent);
      assert Key(a) + more + last == Key(a) + (more + last);
      more := more + last;
    }
  }

  /** Listed by key, a clock comes after every clock it samples. */
  lemma ParentsPrecede(chains: seq<Clock>, i: nat, j: nat)
    requires SortedByKey(chains) && i < |chains| && j < |chains| && Above(chains[i], chains[j])
    ensures i < j
  {
    hide Key, Before;
    var more := KeyAbove(chains[i], chains[j]);
    PrefixBefore(Key(chains[i]), more);
    NotBoth(Key(chains[i]), Key(chains[j]));
  }

  // ---------------------------------------------------------------- the chains of a node

  /** The sampled clocks that host a `pre` or a `->`. */
  function Chains(node: Node, vc: ClockMap, n: nat): set<Clock>
    requires n <= |node.equations|
  {
    if n == 0 then {} else
    var eq := node.equations[n-1];
    Chains(node, vc, n-1) + set ck | ck in SiteClocks(eq.rhs, EquationClock(eq, vc), vc) && ck.On?
  }
}
