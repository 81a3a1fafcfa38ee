/** Same-cycle evaluation order: which equation must run before which, the
    ready-list scheduler that finds such an order, and why walking the order
    computes the one solution of the equations. */
module Order {
  import opened Lustre
  import opened Graphs
  import opened PassOrder

  // ---------------------------------------------------------------- dependencies

  /** The equation defining each variable; a later definition replaces an earlier one. */
  function DefinedBy(eqs: seq<Equation>): (m: map<string, nat>)
    ensures forall x | x in m :: m[x] < |eqs| && eqs[m[x]].lhs == x
    ensures forall i | 0 <= i < |eqs| :: eqs[i].lhs in m
  {
    if eqs == [] then map[]
    else DefinedBy(eqs[..|eqs|-1])[eqs[|eqs|-1].lhs := |eqs|-1]
  }

  /** For each equation, the equations defining the variables `needs[i]`. */
  function Dependencies(eqs: seq<Equation>, needs: seq<set<string>>): (g: Graph<nat>)
    requires |needs| == |eqs|
    ensures g.Keys == UpTo(|eqs|)
    ensures forall i, d | i in g && d in g[i] :: d < |eqs|
  {
    var def := DefinedBy(eqs);
    map i | i in UpTo(|eqs|) :: set x | x in needs[i] && x in def :: def[x]
  }

  function SameCycleReads(eqs: seq<Equation>): (r: seq<set<string>>)
    ensures |r| == |eqs|
  {
    seq(|eqs|, i requires 0 <= i < |eqs| => Reads(eqs[i].rhs))
  }

  /** The graph the scheduler works on. */
  function ReadGraph(eqs: seq<Equation>): Graph<nat> {
    Dependencies(eqs, SameCycleReads(eqs))
  }

  // ---------------------------------------------------------------- the scheduler

  ghost predicate Scheduled(g: Graph<nat>, done: seq<bool>, order: seq<nat>) {
    && g.Keys == UpTo(|done|)
    && Distinct(order)
    && (forall x: nat | x < |done| :: x in order <==> done[x])
    && Elements(order) <= g.Keys
    && DependenciesFirst(g, order)
  }

  lemma ScheduleOne(g: Graph<nat>, done: seq<bool>, order: seq<nat>, i: nat)
    requires Scheduled(g, done, order)
    requires i < |done| && !done[i] && g[i] * g.Keys <= Elements(order)
    ensures Scheduled(g, done[i := true], order + [i])
  {
    AppendReady(g, order, i);
  }

  lemma OrderLength(g: Graph<nat>, done: seq<bool>, order: seq<nat>)
    requires Scheduled(g, done, order)
    ensures |order| <= |done|
    ensures |order| == |done| ==> Topological(g, order)
    ensures |order| < |done| ==> exists j: nat :: j < |done| && !done[j]
  {
    DistinctBound(order, UpTo(|done|));
    DistinctElements(order);
    if |order| < |done| && forall j: nat | j < |done| :: done[j] {
      SubsetCount(UpTo(|done|), Elements(order));
    }
  }

  ghost predicate Waiting(g: Graph<nat>, done: seq<bool>, i: nat)
    requires i in g && forall d | d in g[i] :: d < |done|
  {
    exists d :: d in g[i] && !done[d]
  }

  /** A pass that schedules nothing although something is left: the rest is stuck. */
  lemma NoProgress(g: Graph<nat>, done: seq<bool>, order: seq<nat>)
    requires Scheduled(g, done, order) && |order| < |done|
    requires forall i, d | i in g && d in g[i] :: d < |done|
    requires forall j | 0 <= j < |done| && !done[j] :: Waiting(g, done, j)
    ensures !Acyclic(g)
  {
    OrderLength(g, done, order);
    var stuck := set j | j in UpTo(|done|) && !done[j];
    forall a | a in stuck ensures DependsInto(g, a, stuck) {
      assert Waiting(g, done, a);
      var d :| d in g[a] && !done[d];
      assert Edge(g, a, d) && d in stuck;
    }
    StuckCyclic(g, stuck);
  }

  /** One pass: each equation in turn is scheduled if its dependencies are done. */
  method SchedulePass(deps: Graph<nat>, n: nat, start: seq<bool>, scheduled: seq<nat>)
      returns (done: seq<bool>, order: seq<nat>, progressed: bool)
    requires WellFormed(deps, n) && |start| == n && Scheduled(deps, start, scheduled)
    ensures |done| == n && Scheduled(deps, done, order) && scheduled <= order
    ensures progressed <==> |order| > |scheduled|
    ensures !progressed ==> forall j | 0 <= j < n && !done[j] :: Waiting(deps, done, j)
    ensures order == OnePass(deps, scheduled, n)
  {
    hide DependenciesFirst, Distinct;
    done, order, progressed := start, scheduled, false;
    for i := 0 to n
      invariant |done| == n && Scheduled(deps, done, order) && scheduled <= order
      invariant progressed <==> |order| > |scheduled|
      invariant !progressed ==> forall j | 0 <= j < i && !done[j] :: Waiting(deps, done, j)
      invariant order == OnePass(deps, scheduled, i)
    {
      if !done[i] && forall d | d in deps[i] :: done[d] {
        assert forall d | d in deps[i] :: d in order;
        ScheduleOne(deps, done, order, i);
        order, done, progressed := order + [i], done[i := true], true;
      } else if !done[i] {
        assert Waiting(deps, done, i);
      }
    }
  }

  /** Passes over the equations in declaration order, each scheduling every
      equation whose dependencies are done, until a pass schedules nothing. */
  method Schedule(deps: Graph<nat>, n: nat) returns (ok: bool, order: seq<nat>)
    requires WellFormed(deps, n)
    ensures ok <==> Acyclic(deps)
    ensures exists k :: order == AfterPasses(deps, n, k)
    ensures ok ==> Topological(deps, order) && InPassOrder(Passes(deps, n), order) && KeepsDeclared(deps, order)
    ensures ok ==> (DeclarationWins(deps, order) <==> NoneReadyEarly(deps, Passes(deps, n)))
  {
    hide Acyclic, DependenciesFirst, InPassOrder, KeepsDeclared, DeclarationWins, NoneReadyEarly;
    order := [];
    var done := seq(n, _ => false);
    NothingScheduled(deps, done);
    ghost var passes := 0;
    assert order == AfterPasses(deps, n, passes);
    while |order| < n
      invariant |done| == n && Scheduled(deps, done, order)
      invariant order == AfterPasses(deps, n, passes)
      decreases n - |order|
    {
      var progressed;
      done, order, progressed := SchedulePass(deps, n, done, order);
      passes := passes + 1;
      OrderLength(deps, done, order);
      if !progressed {
        NoProgress(deps, done, order);
        return false, order;
      }
    }
    OrderLength(deps, done, order);
    TopologicalAcyclic(deps, order);
    TieBreakWhen(deps, Passes(deps, n), passes);
    return true, order;
  }

  lemma NothingScheduled(g: Graph<nat>, done: seq<bool>)
    requires g.Keys == UpTo(|done|) && forall x | 0 <= x < |done| :: !done[x]
    ensures Scheduled(g, done, [])
  {
  }

  // ---------------------------------------------------------------- ready and still overtaken

  /** `x = y`, `y = a`, `z = b`. */
  function ForwardRead(): seq<Equation> {
    [Equation("x", Var("y")), Equation("y", Var("a")), Equation("z", Var("b"))]
  }

  lemma ForwardReadDefines()
    ensures var def := DefinedBy(ForwardRead()); "a" !in def && "b" !in def && "y" in def && def["y"] == 1
  {
    assert "x"[0] == 'x' && "y"[0] == 'y' && "z"[0] == 'z' && "a"[0] == 'a' && "b"[0] == 'b';
    var eqs := ForwardRead();
    assert eqs[..2][..1] == eqs[..1] && eqs[..1][..0] == [];
    assert DefinedBy(eqs[..1]) == map["x" := 0];
    assert DefinedBy(eqs[..2]) == DefinedBy(eqs[..1])["y" := 1];
    assert DefinedBy(eqs) == map["x" := 0, "y" := 1, "z" := 2];
  }

  lemma ReadsOne(eqs: seq<Equation>, i: nat, x: string)
    requires i < |eqs| && eqs[i].rhs == Var(x)
    ensures ReadGraph(eqs)[i] == if x in DefinedBy(eqs) then {DefinedBy(eqs)[x]} else {}
  {
    hide Dependencies, DefinedBy;
    assert SameCycleReads(eqs)[i] == {x};
    DependsOnOne(eqs, SameCycleReads(eqs), i, x);
  }

  lemma DependsOnOne(eqs: seq<Equation>, needs: seq<set<string>>, i: nat, x: string)
    requires i < |eqs| == |needs| && needs[i] == {x}
    ensures Dependencies(eqs, needs)[i] == if x in DefinedBy(eqs) then {DefinedBy(eqs)[x]} else {}
  {
    hide DefinedBy;
  }

  lemma ForwardReadGraph()
    ensures ReadGraph(ForwardRead()) == map[0 := {1}, 1 := {}, 2 := {}]
  {
    hide DefinedBy, ReadGraph;
    ForwardReadDefines();
    var eqs, g := ForwardRead(), ReadGraph(ForwardRead());
    ReadsOne(eqs, 0, "y");
    ReadsOne(eqs, 1, "a");
    ReadsOne(eqs, 2, "b");
    ReadGraphKeys(eqs);
    assert g.Keys == {0, 1, 2};
  }

  lemma ReadGraphKeys(eqs: seq<Equation>)
    ensures ReadGraph(eqs).Keys == UpTo(|eqs|)
  {
  }

  lemma OvertakingPasses(g: Graph<nat>, k: nat)
    requires g == map[0 := {1}, 1 := {}, 2 := {}] && k >= 2
    ensures AfterPasses(g, 3, k) == [1, 2, 0]
    decreases k
  {
    if k == 2 {
      OnePassShape(g, []);
      assert AfterPasses(g, 3, 1) == OnePass(g, AfterPasses(g, 3, 0), 3);
      OnePassShape(g, [1, 2]);
    } else {
      OvertakingPasses(g, k-1);
      OnePassShape(g, [1, 2, 0]);
    }
  }

  /** `x` is ready once `y` is placed, and still `z` comes before it: `y` and
      `z` make up the first pass, and `x` reads neither an equation of its own
      pass nor the last one of the first. */
  lemma ReadyYetOvertaken(k: nat)
    requires k >= 2
    ensures AfterPasses(ReadGraph(ForwardRead()), 3, k) == [1, 2, 0]
    ensures !DeclarationWins(ReadGraph(ForwardRead()), [1, 2, 0])
  {
    ForwardReadGraph();
    hide ReadGraph, ForwardRead, AfterPasses;
    OvertakingPasses(ReadGraph(ForwardRead()), k);
    var order: seq<nat> := [1, 2, 0];
    assert order[2] == 0 && order[..1] == [1] && order[1] == 2;
  }

  lemma OnePassShape(g: Graph<nat>, start: seq<nat>)
    requires g == map[0 := {1}, 1 := {}, 2 := {}]
    ensures start == [] ==> OnePass(g, start, 3) == [1, 2]
    ensures start == [1, 2] ==> OnePass(g, start, 3) == [1, 2, 0]
    ensures start == [1, 2, 0] ==> OnePass(g, start, 3) == [1, 2, 0]
  {
    var a := OnePass(g, start, 1);
    var b := OnePass(g, start, 2);
    assert OnePass(g, start, 0) == start;
    if start == [] { assert a == [] && b == [1]; }
    if start == [1, 2] { assert a == [1, 2, 0] && b == [1, 2, 0]; }
    if start == [1, 2, 0] { assert a == start && b == start; }
  }

  /** The order in which equations execute so that every same-cycle read of a
      defined variable sees this cycle's value; fails exactly on a combinational cycle. */
  method EvaluationOrder(eqs: seq<Equation>) returns (ok: bool, order: seq<nat>)
    ensures ok <==> Acyclic(ReadGraph(eqs))
    ensures exists k :: order == AfterPasses(ReadGraph(eqs), |eqs|, k)
    ensures ok ==>
      var g := ReadGraph(eqs);
      Topological(g, order) && InPassOrder(Passes(g, |eqs|), order) && KeepsDeclared(g, order)
    ensures ok ==>
      var g := ReadGraph(eqs);
      DeclarationWins(g, order) <==> NoneReadyEarly(g, Passes(g, |eqs|))
  {
    ok, order := Schedule(ReadGraph(eqs), |eqs|);
  }

}
