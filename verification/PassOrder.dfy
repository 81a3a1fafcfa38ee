/** The ready-list passes in closed form: each equation has a pass number that
    can be read off the dependency graph beforehand, the passes list the
    equations by pass number and then by declaration, and so it is decided
    which equations are overtaken although they are ready. */
module PassOrder {
  import opened Graphs

  ghost predicate WellFormed(g: Graph<nat>, n: nat) {
    g.Keys == UpTo(n) && forall i | i in g :: forall d | d in g[i] :: d < n
  }

  /** One pass once the first `i` equations have had their turn. */
  function OnePass(g: Graph<nat>, start: seq<nat>, i: nat): seq<nat> {
    if i == 0 then start else
    var before := OnePass(g, start, i-1);
    if i-1 !in before && i-1 in g && g[i-1] <= Elements(before) then before + [i-1] else before
  }

  function AfterPasses(g: Graph<nat>, n: nat, k: nat): seq<nat> {
    if k == 0 then [] else OnePass(g, AfterPasses(g, n, k-1), n)
  }

  // ---------------------------------------------------------------- pass numbers

  /** The first pass in which `x` can be listed when `d` is listed in pass `p`:
      the same one if `d` has its turn before `x`, else the next. */
  function AfterTurn(p: nat, d: nat, x: nat): nat {
    if d < x then p else p + 1
  }

  /** The latest pass the dependencies `ds` make `x` wait for, or the first. */
  ghost predicate LatestIs(ds: set<nat>, pass: seq<nat>, x: nat, p: nat)
    requires forall d | d in ds :: d < |pass|
  {
    && p >= 1 && (forall d | d in ds :: AfterTurn(pass[d], d, x) <= p)
    && if ds == {} then p == 1 else exists d :: d in ds && AfterTurn(pass[d], d, x) == p
  }

  /** `pass[x]` is 1 if `x` depends on nothing, else the latest pass that a
      dependency makes `x` wait for. */
  ghost predicate NumberAt(g: Graph<nat>, pass: seq<nat>, x: nat)
    requires x in g && WellFormed(g, |pass|)
  {
    LatestIs(g[x], pass, x, pass[x])
  }

  ghost predicate Numbered(g: Graph<nat>, pass: seq<nat>) {
    WellFormed(g, |pass|) && forall x | x in g :: NumberAt(g, pass, x)
  }

  /** The least number `x` can have once its dependencies have theirs. */
  lemma {:induction false} LatestTurn(ds: set<nat>, pass: seq<nat>, x: nat) returns (p: nat)
    requires forall d | d in ds :: d < |pass| && pass[d] >= 1
    ensures LatestIs(ds, pass, x, p)
    decreases |ds|
  {
    p := 1;
    if d :| d in ds {
      var q := LatestTurn(ds - {d}, pass, x);
      p := if AfterTurn(pass[d], d, x) >= q || ds == {d} then AfterTurn(pass[d], d, x) else q;
      forall e | e in ds ensures AfterTurn(pass[e], e, x) <= p { assert e == d || e in ds - {d}; }
    }
  }

  /** The first `m` equations of a topological order have their numbers. */
  ghost predicate NumberedUpTo(g: Graph<nat>, order: seq<nat>, pass: seq<nat>, m: nat) {
    && WellFormed(g, |pass|) && m <= |order|
    && (forall x | x in g :: pass[x] >= 1)
    && forall i | 0 <= i < m :: order[i] in g && NumberAt(g, pass, order[i])
  }

  lemma NumberFrame(g: Graph<nat>, pass: seq<nat>, pass': seq<nat>, x: nat)
    requires WellFormed(g, |pass|) && |pass'| == |pass| && x in g && NumberAt(g, pass, x)
    requires pass'[x] == pass[x] && forall d | d in g[x] :: pass'[d] == pass[d]
    ensures NumberAt(g, pass', x)
  {
    if d :| d in g[x] && AfterTurn(pass[d], d, x) == pass[x] { assert AfterTurn(pass'[d], d, x) == pass'[x]; }
  }

  lemma EarlierApart(g: Graph<nat>, order: seq<nat>, i: nat, m: nat)
    requires Topological(g, order) && i <= m < |order|
    ensures order[i] in g && forall d | d in g[order[i]] && d in g :: d != order[m]
  {
    assert ReadyAt(g, order, i);
    forall d | d in g[order[i]] && d in g ensures d != order[m] { assert d in Elements(order[..i]); }
  }

  lemma NumberNext(g: Graph<nat>, order: seq<nat>, pass: seq<nat>, m: nat, p: nat)
    requires Topological(g, order) && NumberedUpTo(g, order, pass, m) && m < |order|
    requires order[m] in g && LatestIs(g[order[m]], pass, order[m], p)
    ensures NumberedUpTo(g, order, pass[order[m] := p], m+1)
  {
    hide NumberAt, LatestIs, DependenciesFirst;
    var pass' := pass[order[m] := p];
    LatestPositive(g[order[m]], pass, order[m], p);
    forall i | 0 <= i <= m ensures order[i] in g && NumberAt(g, pass', order[i]) {
      EarlierApart(g, order, i, m);
      if i == m { LatestNumbers(g, pass, order[m], p); } else { NumberFrame(g, pass, pass', order[i]); }
    }
  }

  lemma LatestPositive(ds: set<nat>, pass: seq<nat>, x: nat, p: nat)
    requires (forall d | d in ds :: d < |pass|) && LatestIs(ds, pass, x, p)
    ensures p >= 1
  {
  }

  lemma LatestNumbers(g: Graph<nat>, pass: seq<nat>, x: nat, p: nat)
    requires WellFormed(g, |pass|) && x in g && x !in g[x] && LatestIs(g[x], pass, x, p)
    ensures NumberAt(g, pass[x := p], x)
  {
    var pass' := pass[x := p];
    if d :| d in g[x] && AfterTurn(pass[d], d, x) == p { assert AfterTurn(pass'[d], d, x) == pass'[x]; }
  }

  /** An acyclic graph has pass numbers. */
  lemma Numbering(g: Graph<nat>, n: nat) returns (pass: seq<nat>)
    requires WellFormed(g, n) && Acyclic(g)
    ensures |pass| == n && Numbered(g, pass)
  {
    var order := AcyclicOrder(g);
    pass := seq(n, _ => 1);
    for m := 0 to |order|
      invariant |pass| == n && NumberedUpTo(g, order, pass, m)
    {
      assert ReadyAt(g, order, m);
      var p := LatestTurn(g[order[m]], pass, order[m]);
      NumberNext(g, order, pass, m, p);
      pass := pass[order[m] := p];
    }
    forall x | x in g ensures NumberAt(g, pass, x) { assert x in Elements(order); }
  }

  /** The pass numbers of an acyclic graph; there are no others (`PassesUnique`). */
  ghost function Passes(g: Graph<nat>, n: nat): (pass: seq<nat>)
    requires WellFormed(g, n) && Acyclic(g)
    ensures |pass| == n && Numbered(g, pass)
  {
    NumberingExists(g, n);
    var pass :| |pass| == n && Numbered(g, pass);
    pass
  }

  lemma NumberingExists(g: Graph<nat>, n: nat)
    requires WellFormed(g, n) && Acyclic(g)
    ensures exists pass :: |pass| == n && Numbered(g, pass)
  {
    var pass := Numbering(g, n);
  }

  // ---------------------------------------------------------------- what the passes list

  /** The order of pass numbers, with declaration order inside a pass. */
  ghost predicate Before(pass: seq<nat>, x: nat, y: nat) {
    x < |pass| && y < |pass| && (pass[x] < pass[y] || (pass[x] == pass[y] && x < y))
  }

  ghost predicate InPassOrder(pass: seq<nat>, order: seq<nat>) {
    forall p, q | 0 <= p < q < |order| :: Before(pass, order[p], order[q])
  }

  /** Listed in the first `k-1` passes, or in pass `k` up to its turn `i`. */
  ghost predicate HadTurn(pass: seq<nat>, k: nat, i: nat, x: nat) {
    x < |pass| && (pass[x] < k || (pass[x] == k && x < i))
  }

  ghost predicate ListsUpTo(pass: seq<nat>, order: seq<nat>, k: nat, i: nat) {
    && InPassOrder(pass, order)
    && (forall x: nat :: x in order <==> HadTurn(pass, k, i, x))
  }

  /** The passes list `x` at its turn in pass `k` if `k` is its number. */
  lemma TurnReady(g: Graph<nat>, pass: seq<nat>, before: seq<nat>, k: nat, x: nat)
    requires Numbered(g, pass) && k >= 1 && x < |pass| && ListsUpTo(pass, before, k, x)
    ensures x in g && (x !in before ==> (g[x] <= Elements(before) <==> pass[x] == k))
  {
    assert NumberAt(g, pass, x);
    forall d | d in g[x] ensures d in before <==> AfterTurn(pass[d], d, x) <= k {}
    if d :| d in g[x] && AfterTurn(pass[d], d, x) == pass[x] && pass[x] > k { assert d !in before; }
    if pass[x] == k {
      forall d | d in g[x] ensures d in Elements(before) { assert AfterTurn(pass[d], d, x) <= k; }
    }
  }

  lemma TurnTaken(g: Graph<nat>, pass: seq<nat>, before: seq<nat>, k: nat, x: nat)
    requires Numbered(g, pass) && k >= 1 && x < |pass| && ListsUpTo(pass, before, k, x)
    ensures ListsUpTo(pass, if x !in before && x in g && g[x] <= Elements(before) then before + [x] else before, k, x+1)
  {
    TurnReady(g, pass, before, k, x);
    ListsNext(pass, before, k, x);
  }

  lemma ListsNext(pass: seq<nat>, before: seq<nat>, k: nat, x: nat)
    requires x < |pass| && ListsUpTo(pass, before, k, x)
    ensures x in before ==> ListsUpTo(pass, before, k, x+1)
    ensures x !in before ==> ListsUpTo(pass, if pass[x] == k then before + [x] else before, k, x+1)
  {
    if x !in before && pass[x] == k {
      forall p | 0 <= p < |before| ensures Before(pass, before[p], x) { assert before[p] in before; }
      InPassOrderNext(pass, before, x);
    }
  }

  lemma InPassOrderNext(pass: seq<nat>, before: seq<nat>, x: nat)
    requires InPassOrder(pass, before) && forall p | 0 <= p < |before| :: Before(pass, before[p], x)
    ensures InPassOrder(pass, before + [x])
  {
  }

  lemma {:induction false} OnePassLists(g: Graph<nat>, pass: seq<nat>, start: seq<nat>, k: nat, i: nat)
    requires Numbered(g, pass) && k >= 1 && i <= |pass| && ListsUpTo(pass, start, k, 0)
    ensures ListsUpTo(pass, OnePass(g, start, i), k, i)
  {
    hide ListsUpTo, Numbered;
    if i > 0 {
      OnePassLists(g, pass, start, k, i-1);
      TurnTaken(g, pass, OnePass(g, start, i-1), k, i-1);
    }
  }

  /** `k` passes list exactly the equations with numbers up to `k`, in the order
      of their numbers and in declaration order for each number. */
  lemma {:induction false} PassesList(g: Graph<nat>, pass: seq<nat>, k: nat)
    requires Numbered(g, pass)
    ensures InPassOrder(pass, AfterPasses(g, |pass|, k))
    ensures forall x: nat :: x in AfterPasses(g, |pass|, k) <==> x < |pass| && pass[x] <= k
  {
    if k == 0 {
      forall x: nat | x < |pass| ensures pass[x] > 0 { assert NumberAt(g, pass, x); }
    } else {
      PassesList(g, pass, k-1);
      OnePassLists(g, pass, AfterPasses(g, |pass|, k-1), k, |pass|);
    }
  }

  /** Pass numbers are what the passes do, so there is only one numbering. */
  lemma PassesUnique(g: Graph<nat>, pass: seq<nat>, other: seq<nat>)
    requires Numbered(g, pass) && Numbered(g, other) && |pass| == |other|
    ensures pass == other
  {
    forall x | 0 <= x < |pass| ensures pass[x] == other[x] {
      PassesList(g, pass, pass[x]);
      PassesList(g, other, pass[x]);
      PassesList(g, pass, other[x]);
      PassesList(g, other, other[x]);
      assert x in AfterPasses(g, |pass|, pass[x]) && x in AfterPasses(g, |pass|, other[x]);
    }
  }

  // ---------------------------------------------------------------- who wins among the ready

  /** Among equations that are ready at the same time the one declared first
      comes first. */
  ghost predicate DeclarationWins(g: Graph<nat>, order: seq<nat>) {
    forall p, q | 0 <= p < q < |order| && order[q] in g && g[order[q]] <= Elements(order[..p]) :: order[p] < order[q]
  }

  /** The last equation declared among those of the pass before `k`. */
  ghost predicate LastBefore(pass: seq<nat>, k: nat, d: nat) {
    d < |pass| && pass[d] + 1 == k && forall y: nat | y < |pass| && pass[y] + 1 == k :: y <= d
  }

  /** Something keeps `x` from being ready before its own pass: an equation of
      that pass, or the last one of the pass before. */
  ghost predicate KeptWaiting(g: Graph<nat>, pass: seq<nat>, x: nat)
    requires x in g && WellFormed(g, |pass|)
  {
    exists d :: d in g[x] && (pass[d] == pass[x] || LastBefore(pass, pass[x], d))
  }

  ghost predicate NoneReadyEarly(g: Graph<nat>, pass: seq<nat>)
    requires WellFormed(g, |pass|)
  {
    forall x | x in g && pass[x] > 1 :: KeptWaiting(g, pass, x)
  }

  lemma {:induction false} LastExists(pass: seq<nat>, k: nat, d: nat, i: nat) returns (z: nat)
    requires i < |pass| && pass[i] + 1 == k && d == |pass| - i
    ensures LastBefore(pass, k, z)
    decreases d
  {
    if j :| i < j < |pass| && pass[j] + 1 == k {
      z := LastExists(pass, k, |pass| - j, j);
    } else {
      z := i;
    }
  }

  lemma KeptWaitingLate(g: Graph<nat>, pass: seq<nat>, order: seq<nat>, p: nat, x: nat)
    requires Numbered(g, pass) && InPassOrder(pass, order) && p < |order| && order[p] < |pass|
    requires x in g && KeptWaiting(g, pass, x) && g[x] <= Elements(order[..p])
    ensures pass[order[p]] >= pass[x]
  {
    var d :| d in g[x] && (pass[d] == pass[x] || LastBefore(pass, pass[x], d));
    assert d in Elements(order[..p]);
    var r :| 0 <= r < p && order[r] == d;
    assert Before(pass, order[r], order[p]);
  }

  /** An equation kept waiting is not overtaken once it is ready. */
  lemma KeptInPlace(g: Graph<nat>, pass: seq<nat>, order: seq<nat>, p: nat, q: nat)
    requires Numbered(g, pass) && InPassOrder(pass, order) && NoneReadyEarly(g, pass)
    requires p < q < |order| && order[q] in g && g[order[q]] <= Elements(order[..p])
    ensures order[p] < order[q]
  {
    assert Before(pass, order[p], order[q]);
    assert NumberAt(g, pass, order[p]);
    if pass[order[q]] > 1 { KeptWaitingLate(g, pass, order, p, order[q]); }
  }

  lemma Positions(pass: seq<nat>, order: seq<nat>, p: nat, q: nat)
    requires InPassOrder(pass, order) && p < |order| && q < |order| && Before(pass, order[p], order[q])
    ensures p < q
  {
  }

  /** An equation ready before its own pass is overtaken by the last equation
      of the pass before. */
  lemma ReadyEarlyOvertaken(g: Graph<nat>, pass: seq<nat>, order: seq<nat>, x: nat) returns (p: nat, q: nat)
    requires Numbered(g, pass) && InPassOrder(pass, order) && Elements(order) == g.Keys
    requires x in g && pass[x] > 1 && !KeptWaiting(g, pass, x)
    ensures p < q < |order| && order[q] == x && g[x] <= Elements(order[..p]) && order[p] > x
  {
    assert NumberAt(g, pass, x);
    var d :| d in g[x] && AfterTurn(pass[d], d, x) == pass[x];
    var z := LastExists(pass, pass[x], |pass| - d, d);
    assert x in Elements(order) && z in Elements(order);
    p :| 0 <= p < |order| && order[p] == z;
    q :| 0 <= q < |order| && order[q] == x;
    Positions(pass, order, p, q);
    forall e | e in g[x] ensures e in Elements(order[..p]) {
      assert e in Elements(order) && AfterTurn(pass[e], e, x) <= pass[x];
      var r :| 0 <= r < |order| && order[r] == e;
      Positions(pass, order, r, p);
    }
  }

  /** All that `x` depends on, directly or not, is declared before its reader. */
  ghost predicate Backward(g: Graph<nat>, x: nat)
    decreases x
  {
    x in g && forall d | d in g[x] :: d < x && Backward(g, d)
  }

  /** The equations of the first pass are those that depend on earlier ones only. */
  lemma {:induction false} FirstPassBackward(g: Graph<nat>, pass: seq<nat>, x: nat)
    requires Numbered(g, pass) && x < |pass|
    ensures pass[x] == 1 <==> Backward(g, x)
    decreases x
  {
    assert NumberAt(g, pass, x);
    forall d | d in g[x] && d < x ensures pass[d] == 1 <==> Backward(g, d) { FirstPassBackward(g, pass, d); }
    forall d | d in g[x] ensures pass[d] >= 1 { assert NumberAt(g, pass, d); }
  }

  /** No equation that depends on earlier ones only is overtaken by a later one. */
  ghost predicate KeepsDeclared(g: Graph<nat>, order: seq<nat>) {
    forall p, q | 0 <= p < q < |order| && Backward(g, order[q]) :: order[p] < order[q]
  }

  lemma FirstPassKeeps(g: Graph<nat>, pass: seq<nat>, order: seq<nat>)
    requires Numbered(g, pass) && InPassOrder(pass, order)
    ensures KeepsDeclared(g, order)
  {
    forall p, q | 0 <= p < q < |order| && Backward(g, order[q]) ensures order[p] < order[q] {
      assert Before(pass, order[p], order[q]);
      FirstPassBackward(g, pass, order[q]);
      assert NumberAt(g, pass, order[p]);
    }
  }

  /** The exact condition of the tie-break: declaration order wins among the
      ready exactly when no equation is ready before its own pass. */
  lemma TieBreakWhen(g: Graph<nat>, pass: seq<nat>, k: nat)
    requires Numbered(g, pass) && Elements(AfterPasses(g, |pass|, k)) == g.Keys
    ensures InPassOrder(pass, AfterPasses(g, |pass|, k)) && KeepsDeclared(g, AfterPasses(g, |pass|, k))
    ensures DeclarationWins(g, AfterPasses(g, |pass|, k)) <==> NoneReadyEarly(g, pass)
  {
    var order := AfterPasses(g, |pass|, k);
    PassesList(g, pass, k);
    FirstPassKeeps(g, pass, order);
    if NoneReadyEarly(g, pass) {
      forall p, q | 0 <= p < q < |order| && order[q] in g && g[order[q]] <= Elements(order[..p]) ensures order[p] < order[q] {
        KeptInPlace(g, pass, order, p, q);
      }
    } else {
      var x :| x in g && pass[x] > 1 && !KeptWaiting(g, pass, x);
      var p, q := ReadyEarlyOvertaken(g, pass, order, x);
    }
  }
}
