/** Executing equations in order: what an expression's value depends on, the
    executor that walks an order cycle by cycle, and why it computes the only
    run the equations have. */
module Execution {
  import opened Lustre
  import opened Graphs
  import opened Order

  ghost predicate AgreeAt(names: set<string>, t: Trace, u: Trace, n: nat) {
    forall x | x in names :: t(n, x) == u(n, x)
  }

  ghost predicate AgreeBefore(names: set<string>, t: Trace, u: Trace, n: nat) {
    forall m: nat | m < n :: AgreeAt(names, t, u, m)
  }

  // ---------------------------------------------------------------- locality

  lemma ActiveLocal(ck: Clock, t: Trace, u: Trace, n: nat)
    requires AgreeAt(Conditions(ck), t, u, n)
    ensures Active(ck, t, n) == Active(ck, u, n)
  {
    match ck
    case Base =>
    case On(c, on, p) => ActiveLocal(p, t, u, n);
  }

  lemma TickedLocal(ck: Clock, t: Trace, u: Trace, n: nat)
    requires AgreeBefore(Conditions(ck), t, u, n)
    ensures Ticked(ck, t, n) == Ticked(ck, u, n)
    ensures Ticked(ck, t, n) ==> LastTick(ck, t, n) == LastTick(ck, u, n)
  {
    if n > 0 {
      ActiveLocal(ck, t, u, n-1);
      TickedLocal(ck, t, u, n-1);
    }
  }

  lemma AgreeSubset(small: set<string>, large: set<string>, t: Trace, u: Trace, n: nat)
    requires small <= large && AgreeBefore(large, t, u, n)
    ensures AgreeBefore(small, t, u, n)
  {
    forall m: nat | m < n ensures AgreeAt(small, t, u, m) {
      assert AgreeAt(large, t, u, m);
    }
  }

  /** The value of `e` at cycle `n` is decided by its same-cycle reads, the
      conditions of its clock, and the past. */
  lemma {:induction false} EvalLocal(cx: Context, names: set<string>, e: Expr, ck: Clock, t: Trace, u: Trace, n: nat)
    requires Names(e) + Conditions(ck) <= names
    requires AgreeBefore(names, t, u, n)
    requires AgreeAt(Reads(e) + Conditions(ck), t, u, n)
    ensures Eval(cx, e, ck, t, n) == Eval(cx, e, ck, u, n)
    decreases e, 2, 0
  {
    match e
    case Const(_) =>
    case Var(_) =>
    case Unary(_, a) => EvalLocal(cx, names, a, ck, t, u, n);
    case Binary(_, a, b) =>
      EvalLocal(cx, names, a, ck, t, u, n);
      EvalLocal(cx, names, b, ck, t, u, n);
    case If(c, a, b) =>
      EvalLocal(cx, names, c, ck, t, u, n);
      EvalLocal(cx, names, a, ck, t, u, n);
      EvalLocal(cx, names, b, ck, t, u, n);
    case Pre(a) =>
      AgreeSubset(Conditions(ck), names, t, u, n);
      TickedLocal(ck, t, u, n);
      if Ticked(ck, t, n) {
        assert AgreeAt(names, t, u, n-1);
        var m := LastTick(ck, t, n);
        assert AgreeAt(names, t, u, m);
        ReadsNames(a);
        EvalLocal(cx, names, a, ck, t, u, m);
      }
    case Arrow(a, b) =>
      AgreeSubset(Conditions(ck), names, t, u, n);
      TickedLocal(ck, t, u, n);
      EvalLocal(cx, names, a, ck, t, u, n);
      EvalLocal(cx, names, b, ck, t, u, n);
    case When(a, _, _) => EvalLocal(cx, names, a, Parent(ck), t, u, n);
    case Merge(c, a, b) =>
      EvalLocal(cx, names, a, On(c, true, ck), t, u, n);
      EvalLocal(cx, names, b, On(c, false, ck), t, u, n);
    case Call(_, _, args) =>
      EvalAllLocal(cx, names, args, ck, t, u, n);
      HistoryLocal(cx, names, args, ck, t, u, n);
    case Condact(_, _, _, _, _) => CondactLocal(cx, names, e, t, u, n);
  }

  /** A `pre` looks at the past only, so it reads nothing in its own cycle. */
  lemma PreIsPast(cx: Context, names: set<string>, a: Expr, ck: Clock, t: Trace, u: Trace, n: nat)
    requires Names(a) + Conditions(ck) <= names && AgreeBefore(names, t, u, n)
    ensures Reads(Pre(a)) == {} && Eval(cx, Pre(a), ck, t, n) == Eval(cx, Pre(a), ck, u, n)
  {
    AgreeSubset(Conditions(ck), names, t, u, n);
    TickedLocal(ck, t, u, n);
    if Ticked(ck, t, n) {
      var m := if a.Var? then n - 1 else LastTick(ck, t, n);
      assert AgreeAt(names, t, u, m);
      if !a.Var? {
        ReadsNames(a);
        EvalLocal(cx, names, a, ck, t, u, m);
      }
    }
  }

  lemma {:induction false} EvalAllLocal(cx: Context, names: set<string>, args: seq<Expr>, ck: Clock, t: Trace, u: Trace, n: nat)
    requires NamesAll(args) + Conditions(ck) <= names
    requires AgreeBefore(names, t, u, n)
    requires AgreeAt(ReadsAll(args) + Conditions(ck), t, u, n)
    ensures EvalAll(cx, args, ck, t, n) == EvalAll(cx, args, ck, u, n)
    decreases args, 0, 0
  {
    forall i | 0 <= i < |args| ensures Eval(cx, args[i], ck, t, n) == Eval(cx, args[i], ck, u, n) {
      EvalLocal(cx, names, args[i], ck, t, u, n);
    }
  }

  lemma {:induction false} HistoryLocal(cx: Context, names: set<string>, args: seq<Expr>, ck: Clock, t: Trace, u: Trace, n: nat)
    requires NamesAll(args) + Conditions(ck) <= names
    requires AgreeBefore(names, t, u, n)
    requires AgreeAt(ReadsAll(args) + Conditions(ck), t, u, n)
    ensures History(cx, args, ck, t, n) == History(cx, args, ck, u, n)
    decreases args, 1, n
  {
    ActiveLocal(ck, t, u, n);
    EvalAllLocal(cx, names, args, ck, t, u, n);
    if n > 0 {
      assert AgreeAt(names, t, u, n-1);
      ReadsNamesAll(args);
      HistoryLocal(cx, names, args, ck, t, u, n-1);
    }
  }

  lemma {:induction false} CondactLocal(cx: Context, names: set<string>, e: Expr, t: Trace, u: Trace, n: nat)
    requires e.Condact? && Names(e) <= names
    requires AgreeBefore(names, t, u, n)
    requires AgreeAt(Reads(e), t, u, n)
    ensures CondactRun(cx, e, t, n) == CondactRun(cx, e, u, n)
    decreases e, 1, n
  {
    EvalLocal(cx, names, e.act, Base, t, u, n);
    EvalAllLocal(cx, names, e.args, Base, t, u, n);
    EvalLocal(cx, names, e.init, Base, t, u, n);
    if n > 0 {
      assert AgreeAt(names, t, u, n-1);
      ReadsNames(e);
      CondactLocal(cx, names, e, t, u, n-1);
    }
  }

  lemma {:induction false} ReadsNames(e: Expr)
    ensures Reads(e) <= Names(e)
    decreases e
  {
    match e
    case Const(_) =>
    case Var(_) =>
    case Pre(_) =>
    case Unary(_, a) => ReadsNames(a);
    case Binary(_, a, b) => ReadsNames(a); ReadsNames(b);
    case If(c, a, b) => ReadsNames(c); ReadsNames(a); ReadsNames(b);
    case Arrow(a, b) => ReadsNames(a); ReadsNames(b);
    case When(a, _, _) => ReadsNames(a);
    case Merge(_, a, b) => ReadsNames(a); ReadsNames(b);
    case Call(_, _, args) => ReadsNamesAll(args);
    case Condact(a, _, _, args, i) => ReadsNames(a); ReadsNamesAll(args); ReadsNames(i);
  }

  lemma {:induction false} ReadsNamesAll(args: seq<Expr>)
    ensures ReadsAll(args) <= NamesAll(args)
    decreases args
  {
    if args != [] {
      ReadsNames(args[0]);
      ReadsNamesAll(args[1..]);
    }
  }

  // ---------------------------------------------------------------- systems

  /** What must have this cycle's value before an equation runs: its same-cycle
      reads, and the variables gating it. */
  function Needs(c: Clocked): set<string> {
    Reads(c.eq.rhs) + Conditions(c.ck)
  }

  /** Listed in an order in which every equation finds what it needs. */
  ghost predicate Causal(sys: seq<Clocked>) {
    && (forall i, j | 0 <= i < j < |sys| :: sys[i].eq.lhs != sys[j].eq.lhs)
    && (forall k | 0 <= k < |sys| :: Needs(sys[k]) * DefinedVars(sys) <= DefinedVars(sys[..k]))
  }

  ghost predicate Mentions(sys: seq<Clocked>, names: set<string>) {
    forall i | 0 <= i < |sys| ::
      Names(sys[i].eq.rhs) + Conditions(sys[i].ck) + {sys[i].eq.lhs} <= names
  }

  // ---------------------------------------------------------------- uniqueness

  lemma HeldLocal(cx: Context, names: set<string>, c: Clocked, t: Trace, u: Trace, n: nat)
    requires Names(c.eq.rhs) + Conditions(c.ck) + {c.eq.lhs} <= names
    requires AgreeBefore(names, t, u, n) && AgreeAt(Needs(c), t, u, n)
    ensures Held(cx, c.eq, c.ck, c.default, t, n) == Held(cx, c.eq, c.ck, c.default, u, n)
  {
    ActiveLocal(c.ck, t, u, n);
    EvalLocal(cx, names, c.eq.rhs, c.ck, t, u, n);
    if n > 0 { assert AgreeAt(names, t, u, n-1); }
  }

  lemma {:induction false} SameCycleUnique(cx: Context, sys: seq<Clocked>, names: set<string>,
                                           t: Trace, u: Trace, n: nat, k: nat)
    requires Causal(sys) && Mentions(sys, names) && k <= |sys|
    requires StepOk(cx, sys, t, n) && StepOk(cx, sys, u, n)
    requires AgreeBefore(names, t, u, n) && AgreeAt(names - DefinedVars(sys), t, u, n)
    ensures AgreeAt(DefinedVars(sys[..k]), t, u, n)
  {
    if k > 0 {
      SameCycleUnique(cx, sys, names, t, u, n, k-1);
      var c := sys[k-1];
      assert DefinedVars(sys[..k]) == DefinedVars(sys[..k-1]) + {c.eq.lhs};
      ReadsNames(c.eq.rhs);
      forall x | x in Needs(c) ensures t(n, x) == u(n, x) {
        assert x in DefinedVars(sys) ==> x in Needs(c) * DefinedVars(sys);
        assert x in names;
      }
      HeldLocal(cx, names, c, t, u, n);
    }
  }

  /** Two runs on the same inputs are the same run: causal equations have at
      most one solution. */
  lemma {:induction false} UniqueRun(cx: Context, sys: seq<Clocked>, names: set<string>, t: Trace, u: Trace, n: nat)
    requires Causal(sys) && Mentions(sys, names)
    requires Run(cx, sys, t) && Run(cx, sys, u)
    requires forall m: nat :: AgreeAt(names - DefinedVars(sys), t, u, m)
    ensures AgreeAt(names, t, u, n)
    ensures AgreeBefore(names, t, u, n)
  {
    forall m: nat | m < n ensures AgreeAt(names, t, u, m) {
      UniqueRun(cx, sys, names, t, u, m);
    }
    assert StepOk(cx, sys, t, n) && StepOk(cx, sys, u, n);
    assert AgreeAt(names - DefinedVars(sys), t, u, n);
    assert sys[..|sys|] == sys;
    SameCycleUnique(cx, sys, names, t, u, n, |sys|);
  }

  // ---------------------------------------------------------------- the executor

  function Assign(t: Trace, n: nat, x: string, v: Value): Trace {
    (m: nat, y: string) => if m == n && y == x then v else t(m, y)
  }

  /** The trace after the equations of `sys` ran, one after the other, in cycle `n`. */
  function ExecuteCycle(cx: Context, sys: seq<Clocked>, t: Trace, n: nat): Trace {
    if sys == [] then t else
    var u := ExecuteCycle(cx, sys[..|sys|-1], t, n);
    var c := sys[|sys|-1];
    Assign(u, n, c.eq.lhs, Held(cx, c.eq, c.ck, c.default, u, n))
  }

  /** The trace after `n` cycles on the inputs of `t`. */
  function Execute(cx: Context, sys: seq<Clocked>, t: Trace, n: nat): Trace {
    if n == 0 then t else ExecuteCycle(cx, sys, Execute(cx, sys, t, n-1), n-1)
  }

  /** The values the executor gives, cycle by cycle. */
  function Executed(cx: Context, sys: seq<Clocked>, t: Trace): Trace {
    (n: nat, x: string) => Execute(cx, sys, t, n+1)(n, x)
  }

  lemma {:induction false} CycleFrame(cx: Context, sys: seq<Clocked>, t: Trace, n: nat, m: nat, x: string)
    requires m != n || x !in DefinedVars(sys)
    ensures ExecuteCycle(cx, sys, t, n)(m, x) == t(m, x)
  {
    if sys != [] {
      var rest := sys[..|sys|-1];
      assert DefinedVars(sys) == DefinedVars(rest) + {sys[|sys|-1].eq.lhs};
      CycleFrame(cx, rest, t, n, m, x);
    }
  }

  /** Once assigned in a cycle a variable keeps its value to the end of it. */
  lemma {:induction false} CycleStable(cx: Context, sys: seq<Clocked>, j: nat, k: nat, t: Trace, n: nat, x: string)
    requires j <= k <= |sys| && Causal(sys)
    requires x in DefinedVars(sys[..j]) || x !in DefinedVars(sys)
    ensures ExecuteCycle(cx, sys[..k], t, n)(n, x) == ExecuteCycle(cx, sys[..j], t, n)(n, x)
  {
    if j < k {
      CycleStable(cx, sys, j, k-1, t, n, x);
      assert sys[..k][..k-1] == sys[..k-1] && sys[..k][k-1] == sys[k-1];
      assert x != sys[k-1].eq.lhs by {
        if x in DefinedVars(sys[..j]) {
          var i :| 0 <= i < |sys[..j]| && sys[..j][i].eq.lhs == x;
          assert sys[i].eq.lhs != sys[k-1].eq.lhs;
        }
      }
    }
  }

  lemma {:induction false} ExecuteFrame(cx: Context, sys: seq<Clocked>, t: Trace, n: nat, m: nat, x: string)
    requires m < n
    ensures Execute(cx, sys, t, n)(m, x) == Executed(cx, sys, t)(m, x)
    decreases n
  {
    if m < n - 1 {
      CycleFrame(cx, sys, Execute(cx, sys, t, n-1), n-1, m, x);
      ExecuteFrame(cx, sys, t, n-1, m, x);
    }
  }

  lemma {:induction false} ExecuteInputs(cx: Context, sys: seq<Clocked>, t: Trace, n: nat, m: nat, x: string)
    requires x !in DefinedVars(sys)
    ensures Execute(cx, sys, t, n)(m, x) == t(m, x)
  {
    if n > 0 {
      ExecuteInputs(cx, sys, t, n-1, m, x);
      CycleFrame(cx, sys, Execute(cx, sys, t, n-1), n-1, m, x);
    }
  }

  /** Walking the list solves every equation of the cycle. */
  lemma {:induction false} CycleSolves(cx: Context, sys: seq<Clocked>, names: set<string>, t: Trace, n: nat, i: nat)
    requires Causal(sys) && Mentions(sys, names) && i < |sys|
    ensures
      var u := ExecuteCycle(cx, sys, t, n);
      u(n, sys[i].eq.lhs) == Held(cx, sys[i].eq, sys[i].ck, sys[i].default, u, n)
  {
    var c := sys[i];
    var before := ExecuteCycle(cx, sys[..i], t, n);
    var after := ExecuteCycle(cx, sys, t, n);
    assert sys[..i+1][..i] == sys[..i] && sys[..|sys|] == sys;
    CycleStable(cx, sys, i+1, |sys|, t, n, c.eq.lhs);
    forall x | x in Needs(c) ensures before(n, x) == after(n, x) {
      CycleStable(cx, sys, i, |sys|, t, n, x);
    }
    forall m: nat | m < n ensures AgreeAt(names, before, after, m) {
      forall x | x in names ensures before(m, x) == after(m, x) {
        CycleFrame(cx, sys[..i], t, n, m, x);
        CycleFrame(cx, sys, t, n, m, x);
      }
    }
    HeldLocal(cx, names, c, before, after, n);
  }

  lemma ExecutedInputs(cx: Context, sys: seq<Clocked>, t: Trace)
    ensures forall n: nat, x | x !in DefinedVars(sys) :: Executed(cx, sys, t)(n, x) == t(n, x)
  {
    forall n: nat, x | x !in DefinedVars(sys) ensures Executed(cx, sys, t)(n, x) == t(n, x) {
      ExecuteInputs(cx, sys, t, n+1, n, x);
    }
  }

  /** Executing causal equations in order, on whatever inputs, is a run: reads,
      gates and memories all see the right cycle. */
  lemma {:induction false} ExecutedRuns(cx: Context, sys: seq<Clocked>, names: set<string>, t: Trace)
    requires Causal(sys) && Mentions(sys, names)
    ensures Run(cx, sys, Executed(cx, sys, t))
  {
    forall n: nat ensures StepOk(cx, sys, Executed(cx, sys, t), n) {
      ExecutedStep(cx, sys, names, t, n);
    }
  }

  lemma ExecutedStep(cx: Context, sys: seq<Clocked>, names: set<string>, t: Trace, n: nat)
    requires Causal(sys) && Mentions(sys, names)
    ensures StepOk(cx, sys, Executed(cx, sys, t), n)
  {
    var u := Executed(cx, sys, t);
    var w := Execute(cx, sys, t, n+1);
    forall m: nat | m <= n ensures AgreeAt(names, w, u, m) {
      forall x | x in names ensures w(m, x) == u(m, x) {
        ExecuteFrame(cx, sys, t, n+1, m, x);
      }
    }
    forall i | 0 <= i < |sys|
      ensures u(n, sys[i].eq.lhs) == Held(cx, sys[i].eq, sys[i].ck, sys[i].default, u, n)
    {
      CycleSolves(cx, sys, names, Execute(cx, sys, t, n), n, i);
      assert AgreeAt(names, w, u, n);
      ReadsNames(sys[i].eq.rhs);
      HeldLocal(cx, names, sys[i], w, u, n);
    }
  }

  // ---------------------------------------------------------------- orders of equations

  function Equations(sys: seq<Clocked>): (eqs: seq<Equation>)
    ensures |eqs| == |sys|
  {
    seq(|sys|, i requires 0 <= i < |sys| => sys[i].eq)
  }

  function AllNeeds(sys: seq<Clocked>): (r: seq<set<string>>)
    ensures |r| == |sys|
  {
    seq(|sys|, i requires 0 <= i < |sys| => Needs(sys[i]))
  }

  /** Same-cycle reads and gating variables. */
  function NeedGraph(sys: seq<Clocked>): (g: Graph<nat>)
    ensures g.Keys == UpTo(|sys|)
  {
    Dependencies(Equations(sys), AllNeeds(sys))
  }

  ghost predicate InRange(order: seq<nat>, n: nat) {
    forall k | 0 <= k < |order| :: order[k] < n
  }

  function Arrange(sys: seq<Clocked>, order: seq<nat>): (r: seq<Clocked>)
    requires InRange(order, |sys|)
    ensures |r| == |order|
  {
    seq(|order|, k requires 0 <= k < |order| => sys[order[k]])
  }

  /** Listing equations in a topological order of their needs makes them causal. */
  lemma ArrangeCausal(sys: seq<Clocked>, order: seq<nat>)
    requires UniqueDefinitions(Equations(sys)) && Topological(NeedGraph(sys), order)
    ensures InRange(order, |sys|) && Causal(Arrange(sys, order))
  {
    forall k | 0 <= k < |order| ensures order[k] < |sys| {
      assert order[k] in Elements(order);
    }
    var r := Arrange(sys, order);
    var eqs := Equations(sys);
    forall i, j | 0 <= i < j < |r| ensures r[i].eq.lhs != r[j].eq.lhs {
      assert order[i] != order[j];
      assert eqs[order[i]].lhs != eqs[order[j]].lhs;
    }
    forall k, x | 0 <= k < |r| && x in Needs(r[k]) * DefinedVars(r) ensures x in DefinedVars(r[..k]) {
      NeedArranged(sys, order, k, x);
    }
  }

  lemma NeedArranged(sys: seq<Clocked>, order: seq<nat>, k: nat, x: string)
    requires UniqueDefinitions(Equations(sys)) && Topological(NeedGraph(sys), order)
    requires InRange(order, |sys|) && k < |order|
    requires x in Needs(sys[order[k]]) && x in DefinedVars(Arrange(sys, order))
    ensures x in DefinedVars(Arrange(sys, order)[..k])
  {
    var r := Arrange(sys, order);
    var i :| 0 <= i < |r| && r[i].eq.lhs == x;
    var eqs := Equations(sys);
    assert eqs[order[i]].lhs == x;
    var d := DefinedBy(eqs)[x];
    var g := NeedGraph(sys);
    assert x in AllNeeds(sys)[order[k]];
    assert d in g[order[k]];
    assert ReadyAt(g, order, k);
    assert d in Elements(order[..k]);
    var j :| 0 <= j < k && order[j] == d;
    assert sys[d].eq.lhs == eqs[d].lhs == x;
    assert r[..k][j].eq.lhs == x;
  }

  /** The order of the equations does not change what they mean. */
  lemma ArrangeRun(cx: Context, sys: seq<Clocked>, order: seq<nat>, t: Trace)
    requires Topological(NeedGraph(sys), order) && InRange(order, |sys|)
    ensures Run(cx, sys, t) <==> Run(cx, Arrange(sys, order), t)
  {
    var r := Arrange(sys, order);
    forall n: nat ensures StepOk(cx, sys, t, n) <==> StepOk(cx, r, t, n) {
      if StepOk(cx, sys, t, n) {
        forall k | 0 <= k < |r|
          ensures t(n, r[k].eq.lhs) == Held(cx, r[k].eq, r[k].ck, r[k].default, t, n)
        {
          assert r[k] == sys[order[k]];
        }
      }
      if StepOk(cx, r, t, n) {
        forall i | 0 <= i < |sys|
          ensures t(n, sys[i].eq.lhs) == Held(cx, sys[i].eq, sys[i].ck, sys[i].default, t, n)
        {
          assert i in Elements(order);
          var k :| 0 <= k < |order| && order[k] == i;
          assert r[k] == sys[i];
        }
      }
    }
  }

  lemma ArrangeDefined(sys: seq<Clocked>, order: seq<nat>)
    requires InRange(order, |sys|) && Elements(order) == UpTo(|sys|)
    ensures DefinedVars(Arrange(sys, order)) == DefinedVars(sys)
  {
    var r := Arrange(sys, order);
    forall x | x in DefinedVars(sys) ensures x in DefinedVars(r) {
      var i :| 0 <= i < |sys| && sys[i].eq.lhs == x;
      assert i in Elements(order);
      var k :| 0 <= k < |order| && order[k] == i;
      assert r[k].eq.lhs == x;
    }
    forall x | x in DefinedVars(r) ensures x in DefinedVars(sys) {
      var k :| 0 <= k < |r| && r[k].eq.lhs == x;
      assert sys[order[k]].eq.lhs == x;
    }
  }

  /** A topological order of reads and gates computes the run of the equations:
      one exists on any inputs, and it is the only one. */
  lemma OrderComputesTheRun(cx: Context, sys: seq<Clocked>, order: seq<nat>, names: set<string>, t: Trace)
    requires UniqueDefinitions(Equations(sys)) && Topological(NeedGraph(sys), order)
    requires Mentions(sys, names)
    ensures InRange(order, |sys|)
    ensures
      var u := Executed(cx, Arrange(sys, order), t);
      && Run(cx, sys, u)
      && (forall n: nat, x | x !in DefinedVars(sys) :: u(n, x) == t(n, x))
      && (Run(cx, sys, t) ==> forall n: nat, x | x in names :: t(n, x) == u(n, x))
  {
    ArrangeCausal(sys, order);
    var r := Arrange(sys, order);
    assert Mentions(r, names);
    ExecutedRuns(cx, r, names, t);
    ExecutedInputs(cx, r, t);
    var u := Executed(cx, r, t);
    ArrangeRun(cx, sys, order, u);
    ArrangeRun(cx, sys, order, t);
    ArrangeDefined(sys, order);
    if Run(cx, sys, t) {
      forall n: nat, x | x in names ensures t(n, x) == u(n, x) {
        UniqueRun(cx, r, names, t, u, n);
      }
    }
  }
}
