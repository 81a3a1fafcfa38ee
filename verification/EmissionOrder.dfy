/** The order in which equations are emitted: sorting them by their same-cycle
    reads is enough exactly when every gate is reached by reads, and what the
    emitted C does with a gate that comes too late. */
module EmissionOrder {
  import opened Lustre
  import opened Graphs
  import opened PassOrder
  import opened Order
  import opened Execution
  import opened Causality
  import opened StepMachine
  import opened EmittedStep

  // ---------------------------------------------------------------- gates reached by reads

  ghost predicate Reached<T(!new)>(g: Graph<T>, a: T, b: T) {
    exists w: seq<T> :: Leads(g, w, a, b)
  }

  ghost predicate Leads<T(!new)>(g: Graph<T>, w: seq<T>, a: T, b: T) {
    |w| >= 2 && Walk(g, w) && w[0] == a && w[|w|-1] == b
  }

  /** Whatever gates an equation is read by it in the same cycle, perhaps through others. */
  ghost predicate GatesReached(sys: seq<Clocked>) {
    forall i: nat, j: nat | i < |sys| && j < |sys| && sys[j].eq.lhs in Conditions(sys[i].ck) ::
      Reached(ReadGraph(Equations(sys)), i, j)
  }

  /** Every order that puts reads first puts gates first, too. */
  ghost predicate ReadsOrderGates(sys: seq<Clocked>) {
    forall order: seq<nat> | Topological(ReadGraph(Equations(sys)), order) :: Topological(NeedGraph(sys), order)
  }

  lemma ReachedBefore(sys: seq<Clocked>, order: seq<nat>, k: nat, j: nat)
    requires Topological(ReadGraph(Equations(sys)), order) && k < |order|
    requires Reached(ReadGraph(Equations(sys)), order[k], j)
    ensures j in Elements(order[..k])
  {
    var g := ReadGraph(Equations(sys));
    var w :| Leads(g, w, order[k], j);
    var at, from := WalkDescends(g, order, w, |w| - 1);
    assert from == k;
    assert order[..k][at] == j;
  }

  lemma ReachedGatesFirst(sys: seq<Clocked>, order: seq<nat>)
    requires UniqueDefinitions(Equations(sys)) && GatesReached(sys)
    requires Topological(ReadGraph(Equations(sys)), order)
    ensures Topological(NeedGraph(sys), order)
  {
    var eqs, g, needs := Equations(sys), ReadGraph(Equations(sys)), NeedGraph(sys);
    forall k | 0 <= k < |order| ensures ReadyAt(needs, order, k) {
      assert ReadyAt(g, order, k);
      assert order[k] in Elements(order);
      forall j | j in needs[order[k]] * needs.Keys ensures j in Elements(order[..k]) {
        assert Edge(needs, order[k], j);
        NeedGraphEdge(sys, order[k], j);
        ReadGraphEdge(eqs, order[k], j);
        if sys[j].eq.lhs in Conditions(sys[order[k]].ck) {
          ReachedBefore(sys, order, k, j);
        } else {
          assert Edge(g, order[k], j);
        }
      }
    }
  }

  /** The nodes at or below `a`. */
  ghost function Below(g: Graph<nat>, a: nat): set<nat> {
    set b | b in g.Keys && (b == a || Reached(g, a, b))
  }

  lemma BelowClosed(g: Graph<nat>, a: nat, b: nat, c: nat)
    requires b in Below(g, a) && Edge(g, b, c)
    ensures c in Below(g, a)
  {
    if b == a {
      assert Leads(g, [b, c], a, c);
    } else {
      var w :| Leads(g, w, a, b);
      WalkAppend(g, w, c);
      assert Leads(g, w + [c], a, c);
    }
  }

  /** An order can start with everything below `a` and nothing else. */
  lemma OrderFromBelow(g: Graph<nat>, a: nat) returns (order: seq<nat>, n: nat)
    requires Acyclic(g) && a in g
    ensures Topological(g, order) && n <= |order| && Elements(order[..n]) == Below(g, a)
  {
    var below := Below(g, a);
    var part: Graph<nat> := map x | x in below :: g[x];
    forall p: seq<nat> ensures !Cycle(part, p) {
      if Cycle(part, p) {
        forall i | 0 <= i < |p| - 1 ensures Edge(g, p[i], p[i+1]) { assert Edge(part, p[i], p[i+1]); }
        assert Cycle(g, p);
      }
    }
    var first := AcyclicOrder(part);
    forall k | 0 <= k < |first| ensures ReadyAt(g, first, k) {
      assert ReadyAt(part, first, k);
      assert first[k] in Elements(first);
      forall c | c in g[first[k]] * g.Keys ensures c in Elements(first[..k]) {
        assert Edge(g, first[k], c);
        BelowClosed(g, a, first[k], c);
      }
    }
    order := CompleteOrder(g, first);
    n := |first|;
    assert order[..n] == first;
  }

  lemma UnreachedGateLate(sys: seq<Clocked>, i: nat, j: nat)
    requires UniqueDefinitions(Equations(sys)) && Acyclic(ReadGraph(Equations(sys)))
    requires i < |sys| && j < |sys| && sys[j].eq.lhs in Conditions(sys[i].ck)
    requires !Reached(ReadGraph(Equations(sys)), i, j)
    ensures !ReadsOrderGates(sys)
  {
    var g := ReadGraph(Equations(sys));
    var order, n := OrderFromBelow(g, i);
    NeedGraphEdge(sys, i, j);
    if Topological(NeedGraph(sys), order) { NeededEarlier(NeedGraph(sys), order, n, i, j); }
  }

  lemma NeededEarlier(g: Graph<nat>, order: seq<nat>, n: nat, i: nat, j: nat)
    requires Topological(g, order) && n <= |order| && i in Elements(order[..n]) && Edge(g, i, j)
    ensures j in Elements(order[..n]) && j != i
  {
    var k :| 0 <= k < n && order[k] == i;
    assert ReadyAt(g, order, k);
    assert j in Elements(order[..k]);
    var l :| 0 <= l < k && order[l] == j;
    assert order[..n][l] == j;
  }

  /** Ordering by reads alone is good enough for the gates exactly when each
      gate is reached by reads from what it gates. */
  lemma ReadsOrderGatesWhen(sys: seq<Clocked>)
    requires UniqueDefinitions(Equations(sys)) && Acyclic(ReadGraph(Equations(sys)))
    ensures ReadsOrderGates(sys) <==> GatesReached(sys)
  {
    if GatesReached(sys) {
      forall order: seq<nat> | Topological(ReadGraph(Equations(sys)), order)
        ensures Topological(NeedGraph(sys), order)
      {
        ReachedGatesFirst(sys, order);
      }
    } else {
      var i: nat, j: nat :| i < |sys| && j < |sys| && sys[j].eq.lhs in Conditions(sys[i].ck)
                            && !Reached(ReadGraph(Equations(sys)), i, j);
      UnreachedGateLate(sys, i, j);
    }
  }

  function Declared(n: nat): (order: seq<nat>)
    ensures |order| == n && Distinct(order) && forall i | 0 <= i < n :: order[i] == i
  {
    seq(n, i => i)
  }

  /** The order in which equations are emitted: evaluation order, or declaration
      order on a combinational cycle. If gates are reached by reads, the listing
      is causal exactly if there is no such cycle. */
  method EmissionOrder(sys: seq<Clocked>) returns (order: seq<nat>)
    requires UniqueDefinitions(Equations(sys))
    ensures InRange(order, |sys|) && Distinct(order) && |order| == |sys|
    ensures Acyclic(ReadGraph(Equations(sys))) ==>
      && Topological(ReadGraph(Equations(sys)), order)
      && exists k :: order == AfterPasses(ReadGraph(Equations(sys)), |sys|, k)
    ensures !Acyclic(ReadGraph(Equations(sys))) ==> order == Declared(|sys|)
    ensures GatesReached(sys) ==> (Acyclic(ReadGraph(Equations(sys))) <==> Topological(NeedGraph(sys), order))
    ensures GatesReached(sys) && Acyclic(ReadGraph(Equations(sys))) ==> Causal(Arrange(sys, order))
  {
    hide DependenciesFirst, Acyclic, GatesReached, ReadGraph, NeedGraph, AfterPasses, Causal, UniqueDefinitions;
    var ok;
    ok, order := EvaluationOrder(Equations(sys));
    if ok {
      EachOnce(sys, order);
      if GatesReached(sys) {
        ReachedGatesFirst(sys, order);
        ArrangeCausal(sys, order);
      }
    } else {
      order := Declared(|sys|);
      if Topological(NeedGraph(sys), order) { NeedsReads(sys, order); }
    }
  }

  lemma EachOnce(sys: seq<Clocked>, order: seq<nat>)
    requires Topological(ReadGraph(Equations(sys)), order)
    ensures InRange(order, |sys|) && Distinct(order) && |order| == |sys|
  {
    DistinctElements(order);
    forall i | 0 <= i < |order| ensures order[i] < |sys| { assert order[i] in Elements(order); }
  }

  /** Only acyclic reads have an order of reads and gates. */
  lemma NeedsReads(sys: seq<Clocked>, order: seq<nat>)
    requires UniqueDefinitions(Equations(sys)) && Topological(NeedGraph(sys), order)
    ensures Acyclic(ReadGraph(Equations(sys)))
  {
    TopologicalAcyclic(NeedGraph(sys), order);
    forall p: seq<nat> ensures !Cycle(ReadGraph(Equations(sys)), p) {
      if Cycle(ReadGraph(Equations(sys)), p) { ReadCycleNeeds(sys, p); }
    }
  }

  /** Emitted in any order the scheduler may give, a node whose gates are
      reached by reads computes the dataflow on every run. */
  lemma ScheduledRefines(cx: Context, sys: seq<Clocked>, order: seq<nat>, names: set<string>,
                         env: nat -> map<string, Value>, t: Trace, n: nat)
    requires UniqueDefinitions(Equations(sys)) && GatesReached(sys) && Topological(ReadGraph(Equations(sys)), order)
    requires cx.nil.Undef? && EmittableSystem(cx.functions, sys) && Mentions(sys, names)
    requires Run(cx, sys, t) && Driven(sys, names, env, t)
    ensures InRange(order, |sys|)
    ensures
      var emitted := Arrange(sys, order);
      ShowsCycle(names, Ran(cx, emitted, StateAfter(cx, emitted, env, n), env(n)).env, t, n)
  {
    ReachedGatesFirst(sys, order);
    ArrangeCausal(sys, order);
    EmittedRefines(cx, sys, order, names, env, t, n);
  }

  // ---------------------------------------------------------------- a gate that comes too late

  /** Some condition of the clock wants `d` to hold. */
  predicate WantsTrue(ck: Clock, d: string) {
    ck.On? && ((ck.clock == d && ck.on) || WantsTrue(ck.parent, d))
  }

  /** The clock without its conditions on `d`. */
  function Without(ck: Clock, d: string): Clock {
    match ck
    case Base => Base
    case On(c, on, p) => if c == d then Without(p, d) else On(c, on, Without(p, d))
  }

  lemma {:induction false} ZeroGuard(ck: Clock, env: map<string, Value>, d: string)
    requires Field(env, d) == Bool(false)
    ensures Guard(ck, env) <==> !WantsTrue(ck, d) && Guard(Without(ck, d), env)
  {
    if ck.On? { ZeroGuard(ck.parent, env, d); }
  }

  lemma {:induction false} Untouched(cx: Context, sys: seq<Clocked>, s: State, f: Frame, x: string)
    requires forall j | 0 <= j < |sys| :: sys[j].eq.lhs != x
    ensures Field(RunEquations(cx, sys, s, f).env, x) == Field(f.env, x)
    ensures Field(RunEquations(cx, sys, s, f).held, x) == Field(f.held, x)
  {
    if sys != [] { Untouched(cx, sys[..|sys|-1], s, f, x); }
  }

  /** An equation emitted before the equation of its gate `d` tests a zeroed
      local: it runs as if `d` were false, whatever `d` is. */
  lemma LateGateTest(cx: Context, sys: seq<Clocked>, s: State, env: map<string, Value>, k: nat, d: string)
    requires k < |sys| && Field(env, d) == Bool(false)
    requires forall j | 0 <= j < k :: sys[j].eq.lhs != d
    ensures
      var f := RunEquations(cx, sys[..k], s, Begin(s, env));
      Guard(sys[k].ck, f.env) <==> !WantsTrue(sys[k].ck, d) && Guard(Without(sys[k].ck, d), f.env)
  {
    var f := RunEquations(cx, sys[..k], s, Begin(s, env));
    Untouched(cx, sys[..k], s, Begin(s, env), d);
    ZeroGuard(sys[k].ck, f.env, d);
  }

  lemma {:induction false} LateGateStep(cx: Context, sys: seq<Clocked>, s: State, env: map<string, Value>, k: nat, d: string, n: nat)
    requires k < n <= |sys| && Field(env, d) == Bool(false) && WantsTrue(sys[k].ck, d)
    requires forall j | 0 <= j < k :: sys[j].eq.lhs != d
    requires forall j | 0 <= j < |sys| && j != k :: sys[j].eq.lhs != sys[k].eq.lhs
    ensures
      var f := RunEquations(cx, sys[..n], s, Begin(s, env));
      Field(f.env, sys[k].eq.lhs) == Field(f.held, sys[k].eq.lhs) == Field(s.held, sys[k].eq.lhs)
  {
    hide LowerAnf, RunCalls, CValue, WantsTrue, Guard;
    assert sys[..n][..n-1] == sys[..n-1] && sys[..n][n-1] == sys[n-1];
    if n == k + 1 {
      LateGateTest(cx, sys, s, env, k, d);
      Untouched(cx, sys[..k], s, Begin(s, env), sys[k].eq.lhs);
    } else {
      LateGateStep(cx, sys, s, env, k, d, n-1);
    }
  }

  /** Wherever it stands, an equation that wants a later gate true never runs:
      its variable keeps its default on every run. */
  lemma {:induction false} LateGateNeverRuns(cx: Context, sys: seq<Clocked>, env: nat -> map<string, Value>, k: nat, d: string, n: nat)
    requires k < |sys| && WantsTrue(sys[k].ck, d) && forall m: nat :: Field(env(m), d) == Bool(false)
    requires forall j | 0 <= j < k :: sys[j].eq.lhs != d
    requires forall j | 0 <= j < |sys| && j != k :: sys[j].eq.lhs != sys[k].eq.lhs
    ensures Field(StateAfter(cx, sys, env, n).held, sys[k].eq.lhs) == sys[k].default
    ensures Field(Ran(cx, sys, StateAfter(cx, sys, env, n), env(n)).env, sys[k].eq.lhs) == sys[k].default
    decreases n
  {
    hide RunEquations, WantsTrue, HeldFields, AllInstances, PreFields, TickFields;
    assert sys[..|sys|] == sys;
    if n == 0 {
      InitialHeld(sys, k);
    } else {
      LateGateNeverRuns(cx, sys, env, k, d, n-1);
      LateGateStep(cx, sys, StateAfter(cx, sys, env, n-1), env(n-1), k, d, |sys|);
    }
    LateGateStep(cx, sys, StateAfter(cx, sys, env, n), env(n), k, d, |sys|);
  }

  // ---------------------------------------------------------------- an example

  /** `x = 5 -> pre y` with `y = a when d` or `a when not d`, and `d = b`, in
      declaration order. */
  function LateGate(on: bool): seq<Clocked> {
    var ck := On("d", on, Base);
    [ Clocked(Equation("x", Arrow(Const(Int(5)), Pre(Var("y")))), ck, Int(0)),
      Clocked(Equation("d", Var("b")), Base, Bool(false)),
      Clocked(Equation("y", When(Var("a"), "d", on)), ck, Int(0)) ]
  }

  lemma LateGateShape(on: bool)
    ensures
      var sys := LateGate(on);
      && |sys| == 3 && sys[0].ck == On("d", on, Base) && sys[0].default == Int(0)
      && sys[0].eq.lhs == "x" && sys[1].eq.lhs == "d" && sys[2].eq.lhs == "y"
      && sys[0].eq.lhs != sys[1].eq.lhs && sys[0].eq.lhs != sys[2].eq.lhs && sys[1].eq.lhs != sys[2].eq.lhs
  {
    assert "x"[0] == 'x' && "d"[0] == 'd' && "y"[0] == 'y';
  }

  /** Reads under `pre` do not order equations, so the passes give declaration
      order, yet it runs `x` before the `d` that gates it. With `d`
      true the node starts `x` exactly if `x` wants `d` true, and the emitted C
      exactly if it does not. */
  lemma GateReadTooEarly(cx: Context, on: bool, env: nat -> map<string, Value>, t: Trace)
    requires Run(cx, LateGate(on), t) && t(0, "b") == Bool(true)
    requires Field(env(0), "d") == Bool(false) && Field(env(0), "b") == Bool(true)
    ensures AfterPasses(ReadGraph(Equations(LateGate(on))), 3, 1) == [0, 1, 2]
    ensures Topological(ReadGraph(Equations(LateGate(on))), [0, 1, 2]) && !GatesReached(LateGate(on))
    ensures t(0, "x") == Int(if on then 5 else 0)
    ensures Field(Ran(cx, LateGate(on), StateAfter(cx, LateGate(on), env, 0), env(0)).env, "x") == Int(if on then 0 else 5)
  {
    hide ReadGraph, NeedGraph, GatesReached, LateGate, Topological, AfterPasses;
    LateGateOrder(on);
    LateGateUnreached(on);
    LateGateNode(cx, on, t);
    LateGateEmitted(cx, on, env(0));
  }

  lemma LateGateNode(cx: Context, on: bool, t: Trace)
    requires Run(cx, LateGate(on), t) && t(0, "b") == Bool(true)
    ensures t(0, "x") == Int(if on then 5 else 0)
  {
    var sys := LateGate(on);
    LateGateShape(on);
    assert StepOk(cx, sys, t, 0);
    assert t(0, sys[1].eq.lhs) == Held(cx, sys[1].eq, sys[1].ck, sys[1].default, t, 0);
    assert t(0, sys[0].eq.lhs) == Held(cx, sys[0].eq, sys[0].ck, sys[0].default, t, 0);
  }

  lemma LateGateUnreached(on: bool)
    ensures !GatesReached(LateGate(on))
  {
    LateGateOrder(on);
    LateGateNeeds(on);
    hide LateGate, NeedGraph, ReadGraph, GatesReached, UniqueDefinitions, Topological;
    if GatesReached(LateGate(on)) {
      ReachedGatesFirst(LateGate(on), [0, 1, 2]);
      FirstNeedsNothing(NeedGraph(LateGate(on)), [0, 1, 2], 1);
    }
  }

  lemma LateGateNeeds(on: bool)
    ensures UniqueDefinitions(Equations(LateGate(on))) && Edge(NeedGraph(LateGate(on)), 0, 1)
  {
    var sys := LateGate(on);
    LateGateShape(on);
    assert sys[1].eq.lhs in Conditions(sys[0].ck);
    var eqs := Equations(sys);
    assert eqs[0].lhs == "x" && eqs[1].lhs == "d" && eqs[2].lhs == "y";
    hide LateGate, NeedGraph;
    NeedGraphEdge(sys, 0, 1);
  }

  lemma FirstNeedsNothing(g: Graph<nat>, order: seq<nat>, j: nat)
    requires order != [] && Edge(g, order[0], j)
    ensures !Topological(g, order)
  {
    assert order[..0] == [];
    assert ReadyAt(g, order, 0) ==> j in Elements(order[..0]);
  }

  lemma LateGateEmitted(cx: Context, on: bool, env: map<string, Value>)
    requires Field(env, "d") == Bool(false)
    ensures Field(Ran(cx, LateGate(on), Initial(cx, LateGate(on)), env).env, "x") == Int(if on then 0 else 5)
  {
    hide LateGate, Initial, RunEquation, RunEquations;
    var sys := LateGate(on);
    var s := Initial(cx, sys);
    LateGateFirst(cx, on, env);
    LateGateShape(on);
    AfterFirst(cx, sys, s, Begin(s, env), 3);
    assert sys[..3] == sys;
  }

  lemma LateGateFirst(cx: Context, on: bool, env: map<string, Value>)
    requires Field(env, "d") == Bool(false)
    ensures var s := Initial(cx, LateGate(on));
      Field(RunEquation(cx, LateGate(on)[0], s, Begin(s, env)).env, "x") == Int(if on then 0 else 5)
  {
    hide LowerAnf, HeldFields, AllInstances;
    var sys := LateGate(on);
    LateGateShape(on);
    InitialHeld(sys, 0);
    var s := Initial(cx, sys);
    StartsWith5(cx, On("d", on, Base), s, Begin(s, env));
    assert Guard(On("d", on, Base), env) <==> !on;
  }

  /** Later equations leave the first one's variable alone. */
  lemma {:induction false} AfterFirst(cx: Context, sys: seq<Clocked>, s: State, f: Frame, n: nat)
    requires 0 < n <= |sys| && forall j | 0 < j < |sys| :: sys[j].eq.lhs != sys[0].eq.lhs
    ensures Field(RunEquations(cx, sys[..n], s, f).env, sys[0].eq.lhs) == Field(RunEquation(cx, sys[0], s, f).env, sys[0].eq.lhs)
  {
    assert sys[..n][..n-1] == sys[..n-1] && sys[..n][n-1] == sys[n-1];
    if n > 1 { AfterFirst(cx, sys, s, f, n-1); } else { assert sys[..0] == []; }
  }

  lemma StartsWith5(cx: Context, ck: Clock, s: State, f: Frame)
    requires ck.On? && s.ticked == {}
    ensures
      var code := LowerAnf(Arrow(Const(Int(5)), Pre(Var("y"))), ck);
      code.calls == [] && forall outs: map<nat, Value> :: CValue(code.values[0], Seen(s, f), outs) == Int(5)
  {
    var init, body := LowerAnf(Const(Int(5)), ck), LowerAnf(Pre(Var("y")), ck);
    assert init == Code([], [Literal(Int(5))]) && body == Code([], [Prev("y")]);
    var e := Arrow(Const(Int(5)), Pre(Var("y")));
    var parts := Parts(e, ck);
    assert parts[1..] == [parts[1]] && parts[1..][1..] == [];
    assert LowerAll(e, parts[1..]) == body;
    assert LowerAll(e, parts) == Code([], [Literal(Int(5)), Prev("y")]);
    assert LowerAnf(e, ck).values[0] == Ternary(First(ck), Literal(Int(5)), Prev("y"));
  }

  lemma DependencyDefines(eqs: seq<Equation>, needs: seq<set<string>>, k: nat, d: nat)
    requires |needs| == |eqs| && k < |eqs| && d in Dependencies(eqs, needs)[k]
    ensures d < |eqs| && eqs[d].lhs in needs[k]
  {
  }

  /** Only `y` reads a defined variable in the same cycle: `d`. */
  lemma LateGateReads(on: bool, k: nat, i: nat)
    requires k < 3 && i < 3 && LateGate(on)[i].eq.lhs in Reads(LateGate(on)[k].eq.rhs)
    ensures k == 2 && i == 1
  {
    assert "x"[0] == 'x' && "d"[0] == 'd' && "y"[0] == 'y' && "a"[0] == 'a' && "b"[0] == 'b';
  }

  lemma LateGateDependency(on: bool, k: nat, i: nat)
    requires k < 3 && i in ReadGraph(Equations(LateGate(on)))[k]
    ensures k == 2 && i == 1
  {
    var eqs := Equations(LateGate(on));
    DependencyDefines(eqs, SameCycleReads(eqs), k, i);
    LateGateReads(on, k, i);
  }

  lemma LateGateOrder(on: bool)
    ensures Topological(ReadGraph(Equations(LateGate(on))), [0, 1, 2])
    ensures AfterPasses(ReadGraph(Equations(LateGate(on))), 3, 1) == [0, 1, 2]
  {
    var g := ReadGraph(Equations(LateGate(on)));
    forall k: nat, i | k < 3 && i in g[k] ensures k == 2 && i == 1 {
      LateGateDependency(on, k, i);
    }
    OneDependency(g);
  }

  lemma OneDependency(g: Graph<nat>)
    requires g.Keys == UpTo(3) && forall k: nat, i | k < 3 && i in g[k] :: k == 2 && i == 1
    ensures Topological(g, [0, 1, 2]) && AfterPasses(g, 3, 1) == [0, 1, 2]
  {
    var order: seq<nat> := [0, 1, 2];
    assert AfterPasses(g, 3, 0) == [] && OnePass(g, [], 0) == [];
    assert OnePass(g, [], 1) == [0] && OnePass(g, [], 2) == [0, 1];
    assert order[..0] == [] && order[..1] == [0] && order[..2] == [0, 1];
    forall k: nat | k < 3 ensures ReadyAt(g, order, k) {
    }
  }
}
