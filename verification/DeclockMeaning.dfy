/** Clock elimination preserves meaning: every run of the base-clock program on
    the same inputs gives each original variable the value it has in the held
    run, whatever an uninitialized `pre` is taken to be. */
module DeclockMeaning {
  import opened Lustre
  import opened Declock

  /** The base-clock program as a system. */
  function BaseSystem(out: seq<Equation>): (sys: seq<Clocked>)
    ensures |sys| == |out|
  {
    seq(|out|, i requires 0 <= i < |out| => Clocked(out[i], Base, Undef))
  }

  /** The two runs compared: `t` of the clocked node, `u` of its rewriting. */
  datatype Pair = Pair(cx: Context, nil: Value, vars: set<string>, T: Tables, t: Trace, u: Trace)

  function Rewritten(p: Pair): Context {
    p.cx.(nil := p.nil)
  }

  // ---------------------------------------------------------------- the correspondence

  ghost predicate VarAgrees(p: Pair, n: nat, y: string) {
    y in p.vars ==> p.u(n, y) == p.t(n, y)
  }

  predicate IsFlag(v: Value, b: bool) {
    !v.Undef? && Truth(v) == b
  }

  /** `act_C` is the conjunction of the conditions of `C`. */
  ghost predicate ActAgrees(p: Pair, n: nat, ck: Clock) {
    ck in p.T.act ==> IsFlag(p.u(n, p.T.act[ck]), Active(ck, p.t, n))
  }

  /** `first_C` says that `C` has never ticked before. */
  ghost predicate FirstAgrees(p: Pair, n: nat, ck: Clock) {
    ck in p.T.first ==> IsFlag(p.u(n, p.T.first[ck]), !Ticked(ck, p.t, n))
  }

  /** A hold has its operand's value at the latest tick, if that is defined. */
  ghost predicate HoldAgrees(p: Pair, n: nat, j: nat) {
    j < |p.T.holds| ==>
      var h := p.T.holds[j];
      (Active(h.ck, p.t, n) || Ticked(h.ck, p.t, n)) ==>
        var m := if Active(h.ck, p.t, n) then n else LastTick(h.ck, p.t, n);
        Refines(Eval(p.cx, h.operand, h.ck, p.t, m), p.u(n, h.name))
  }

  /** `w` is `v`, unless `v` is undefined. */
  ghost predicate Refines(v: Value, w: Value) {
    !v.Undef? ==> w == v
  }

  ghost predicate NameAgrees(p: Pair, n: nat, y: string) {
    && VarAgrees(p, n, y)
    && (forall ck | ck in p.T.act && p.T.act[ck] == y :: ActAgrees(p, n, ck))
    && (forall ck | ck in p.T.first && p.T.first[ck] == y :: FirstAgrees(p, n, ck))
    && (forall j | 0 <= j < |p.T.holds| && p.T.holds[j].name == y :: HoldAgrees(p, n, j))
  }

  ghost predicate NamesAgree(p: Pair, n: nat, names: set<string>) {
    forall y | y in names :: NameAgrees(p, n, y)
  }

  ghost predicate AllAgree(p: Pair, n: nat) {
    forall y :: NameAgrees(p, n, y)
  }

  ghost predicate PastAgrees(p: Pair, n: nat) {
    forall m: nat | m < n :: AllAgree(p, m)
  }

  // ---------------------------------------------------------------- expressions

  lemma VarRead(p: Pair, x: string, n: nat)
    requires NameAgrees(p, n, x) && x in p.vars
    ensures p.u(n, x) == p.t(n, x)
  {
  }

  lemma FirstRead(p: Pair, n: nat, ck: Clock, e: Expr)
    requires ck in p.T.first && e == Var(p.T.first[ck]) && NamesAgree(p, n, Reads(e))
    ensures !Eval(Rewritten(p), e, Base, p.u, n).Undef? && Truth(Eval(Rewritten(p), e, Base, p.u, n)) == !Ticked(ck, p.t, n)
  {
    assert p.T.first[ck] in Reads(e);
    assert NameAgrees(p, n, p.T.first[ck]) && FirstAgrees(p, n, ck);
  }

  /** A rewritten expression has the original's value wherever that is defined. */
  lemma {:induction false} RewrittenEval(p: Pair, e: Expr, ck: Clock, r: Expr, n: nat)
    requires Rewrites(e, ck, r, p.T, p.cx.functions) && Names(e) <= p.vars
    requires p.cx.nil == Undef && PastAgrees(p, n) && NamesAgree(p, n, Reads(r))
    ensures Refines(Eval(p.cx, e, ck, p.t, n), Eval(Rewritten(p), r, Base, p.u, n))
    decreases e, 2, 0
  {
    hide NameAgrees, PastAgrees, IsFlag, AllDefined;
    match e
    case Const(_) =>
    case Var(x) => VarRead(p, x, n);
    case Unary(_, a) => RewrittenEval(p, a, ck, r.arg, n);
    case Binary(_, a, b) =>
      RewrittenEval(p, a, ck, r.lhs, n);
      RewrittenEval(p, b, ck, r.rhs, n);
    case If(c, a, b) =>
      RewrittenEval(p, c, ck, r.cond, n);
      RewrittenEval(p, a, ck, r.thn, n);
      RewrittenEval(p, b, ck, r.els, n);
    case Pre(a) => RewrittenPre(p, e, ck, r, n);
    case Arrow(a, b) =>
      if ck.Base? {
        AlwaysTicks(p.t, n);
        AlwaysTicks(p.u, n);
        RewrittenEval(p, a, ck, r.init, n);
        RewrittenEval(p, b, ck, r.body, n);
      } else {
        FirstRead(p, n, ck, r.cond);
        RewrittenEval(p, a, ck, r.thn, n);
        RewrittenEval(p, b, ck, r.els, n);
      }
    case When(a, _, _) => RewrittenEval(p, a, Parent(ck), r, n);
    case Merge(c, a, b) =>
      assert c in Reads(r.cond);
      VarRead(p, c, n);
      RewrittenEval(p, a, On(c, true, ck), r.thn, n);
      RewrittenEval(p, b, On(c, false, ck), r.els, n);
    case Call(_, f, args) =>
      if f in p.cx.functions {
        RewrittenArgs(p, args, ck, r.args, n);
      } else if ck.Base? {
        RewrittenHistory(p, args, r.args, n);
      } else {
        RewrittenCondact(p, e, ck, r, n);
      }
    case Condact(_, _, _, _, _) =>
  }

  lemma AlwaysTicks(t: Trace, n: nat)
    ensures Ticked(Base, t, n) == (n > 0)
    ensures n > 0 ==> LastTick(Base, t, n) == n - 1
  {
  }

  lemma {:induction false} RewrittenPre(p: Pair, e: Expr, ck: Clock, r: Expr, n: nat)
    requires e.Pre? && Rewrites(e, ck, r, p.T, p.cx.functions) && Names(e) <= p.vars
    requires p.cx.nil == Undef && PastAgrees(p, n)
    ensures Refines(Eval(p.cx, e, ck, p.t, n), Eval(Rewritten(p), r, Base, p.u, n))
    decreases e, 1, 0
  {
    var a := e.arg;
    AlwaysTicks(p.t, n);
    AlwaysTicks(p.u, n);
    if Ticked(ck, p.t, n) {
      assert AllAgree(p, n-1);
      if a.Var? {
        assert NameAgrees(p, n-1, a.x);
      } else if ck.Base? {
        assert NamesAgree(p, n-1, Reads(r.arg));
        RewrittenEval(p, a, ck, r.arg, n-1);
      } else {
        var j :| 0 <= j < |p.T.holds| && IsHold(p.T.holds[j], ck, a, r);
        assert NameAgrees(p, n-1, p.T.holds[j].name);
        assert HoldAgrees(p, n-1, j);
      }
    }
  }

  lemma {:induction false} RewrittenArgs(p: Pair, args: seq<Expr>, ck: Clock, rs: seq<Expr>, n: nat)
    requires RewritesAll(args, ck, rs, p.T, p.cx.functions) && NamesAll(args) <= p.vars
    requires p.cx.nil == Undef && PastAgrees(p, n) && NamesAgree(p, n, ReadsAll(rs))
    ensures
      var vs := EvalAll(p.cx, args, ck, p.t, n);
      AllDefined(vs) ==> EvalAll(Rewritten(p), rs, Base, p.u, n) == vs
    decreases args, 0, 0
  {
    forall i | 0 <= i < |args|
      ensures Refines(Eval(p.cx, args[i], ck, p.t, n), Eval(Rewritten(p), rs[i], Base, p.u, n))
    {
      RewrittenEval(p, args[i], ck, rs[i], n);
    }
  }

  lemma {:induction false} RewrittenHistory(p: Pair, args: seq<Expr>, rs: seq<Expr>, n: nat)
    requires RewritesAll(args, Base, rs, p.T, p.cx.functions) && NamesAll(args) <= p.vars
    requires p.cx.nil == Undef && PastAgrees(p, n) && NamesAgree(p, n, ReadsAll(rs))
    ensures
      var h := History(p.cx, args, Base, p.t, n);
      HistoryDefined(h) ==> History(Rewritten(p), rs, Base, p.u, n) == h
    decreases args, 1, n
  {
    var h := History(p.cx, args, Base, p.t, n);
    if HistoryDefined(h) {
      assert h[|h|-1] == EvalAll(p.cx, args, Base, p.t, n);
      RewrittenArgs(p, args, Base, rs, n);
      if n > 0 {
        var before := History(p.cx, args, Base, p.t, n-1);
        assert forall i | 0 <= i < |before| :: h[i] == before[i];
        assert AllAgree(p, n-1);
        RewrittenHistory(p, args, rs, n-1);
      }
    }
  }

  /** What an instance shows that has been stepped on `history`: its last
      answer, or the default before the first. */
  function Shown(m: Machine, history: seq<seq<Value>>, default: Value): Value {
    if history == [] then default else Output(m, history)
  }

  /** The conditionally activated instance has run on exactly the arguments of
      the ticks of its clock, and shows its answer to the latest of them, or the
      default before the first. */
  lemma {:induction false} RewrittenCondact(p: Pair, e: Expr, ck: Clock, r: Expr, n: nat)
    requires e.Call? && r.Condact? && ck in p.T.act && r.act == Var(p.T.act[ck]) && r.node == e.node && r.init == Const(Default(p.T.outputs(e.node)))
    requires RewritesAll(e.args, ck, r.args, p.T, p.cx.functions) && NamesAll(e.args) <= p.vars
    requires p.cx.nil == Undef && PastAgrees(p, n) && NamesAgree(p, n, Reads(r))
    ensures
      var m := p.cx.callees(e.node);
      var h := History(p.cx, e.args, ck, p.t, n);
      var run := CondactRun(Rewritten(p), r, p.u, n);
      HistoryDefined(h) ==> run.0 == MemoryAfter(m, h) && run.1 == Shown(m, h, Default(p.T.outputs(e.node)))
    decreases e.args, 1, n
  {
    var h := History(p.cx, e.args, ck, p.t, n);
    if HistoryDefined(h) {
      FlagRead(p, n, ck, r.act);
      if n > 0 {
        assert AllAgree(p, n-1);
        HistoryPrefix(p.cx, e.args, ck, p.t, n);
        RewrittenCondact(p, e, ck, r, n-1);
      }
      if Active(ck, p.t, n) {
        assert AllDefined(h[|h|-1]);
        RewrittenArgs(p, e.args, ck, r.args, n);
        assert h[..|h|-1] == if n == 0 then [] else History(p.cx, e.args, ck, p.t, n-1);
      } else {
        assert h == if n == 0 then [] else History(p.cx, e.args, ck, p.t, n-1);
      }
    }
  }

  /** The run of the base-clock program solves `eq` at cycle `n`. */
  ghost predicate Solves(p: Pair, eq: Equation, n: nat) {
    p.u(n, eq.lhs) == Eval(Rewritten(p), eq.rhs, Base, p.u, n)
  }

  lemma FlagRead(p: Pair, n: nat, ck: Clock, e: Expr)
    requires ck in p.T.act && e == Var(p.T.act[ck]) && NamesAgree(p, n, Reads(e))
    ensures IsFlag(Eval(Rewritten(p), e, Base, p.u, n), Active(ck, p.t, n))
  {
    assert p.T.act[ck] in Reads(e);
    assert NameAgrees(p, n, p.T.act[ck]) && ActAgrees(p, n, ck);
  }

  lemma ConditionRead(p: Pair, n: nat, ck: Clock, e: Expr)
    requires ck.On? && e == if ck.on then Var(ck.clock) else Unary(Not, Var(ck.clock))
    requires ck.clock in p.vars && !p.t(n, ck.clock).Undef? && NamesAgree(p, n, Reads(e))
    ensures IsFlag(Eval(Rewritten(p), e, Base, p.u, n), Truth(p.t(n, ck.clock)) == ck.on)
  {
    assert ck.clock in Reads(e);
    assert NameAgrees(p, n, ck.clock) && VarAgrees(p, n, ck.clock);
  }

  lemma ActStep(p: Pair, ck: Clock, n: nat)
    requires ck in p.T.act && ck.On? && (ck.parent.On? ==> ck.parent in p.T.act)
    requires ck.clock in p.vars && !p.t(n, ck.clock).Undef?
    requires Solves(p, ActEquation(p.T, ck), n) && NamesAgree(p, n, Reads(ActEquation(p.T, ck).rhs))
    ensures ActAgrees(p, n, ck)
  {
    var e := ActEquation(p.T, ck).rhs;
    if ck.parent in p.T.act {
      FlagRead(p, n, ck.parent, e.lhs);
      ConditionRead(p, n, ck, e.rhs);
    } else {
      ConditionRead(p, n, ck, e);
    }
  }

  lemma PreRead(p: Pair, x: string, n: nat)
    ensures Eval(Rewritten(p), Pre(Var(x)), Base, p.u, n) == if n == 0 then p.nil else p.u(n-1, x)
  {
    AlwaysTicks(p.u, n);
  }

  lemma FirstStep(p: Pair, ck: Clock, n: nat)
    requires ck in p.T.act && ck in p.T.first && PastAgrees(p, n)
    requires Solves(p, FirstEquation(p.T, ck), n)
    ensures FirstAgrees(p, n, ck)
  {
    var e := FirstEquation(p.T, ck).rhs;
    AlwaysTicks(p.u, n);
    assert Eval(Rewritten(p), e, Base, p.u, n) ==
           if n > 0 then Eval(Rewritten(p), e.body, Base, p.u, n) else Eval(Rewritten(p), e.init, Base, p.u, n);
    if n > 0 {
      assert AllAgree(p, n-1);
      assert NameAgrees(p, n-1, p.T.act[ck]) && ActAgrees(p, n-1, ck);
      assert NameAgrees(p, n-1, p.T.first[ck]) && FirstAgrees(p, n-1, ck);
      PreRead(p, p.T.first[ck], n);
      PreRead(p, p.T.act[ck], n);
      var first, notAct := e.body.lhs, e.body.rhs;
      assert IsFlag(Eval(Rewritten(p), first, Base, p.u, n), !Ticked(ck, p.t, n-1));
      assert IsFlag(Eval(Rewritten(p), notAct, Base, p.u, n), !Active(ck, p.t, n-1));
      assert IsFlag(Eval(Rewritten(p), e.body, Base, p.u, n), !Ticked(ck, p.t, n));
    }
  }

  lemma HoldStep(p: Pair, j: nat, n: nat)
    requires j < |p.T.holds| && p.T.holds[j].ck in p.T.act
    requires
      var h := p.T.holds[j];
      Rewrites(h.operand, h.ck, h.inner, p.T, p.cx.functions) && Names(h.operand) <= p.vars
    requires p.cx.nil == Undef && PastAgrees(p, n)
    requires Solves(p, HoldEquation(p.T, p.T.holds[j]), n)
    requires NamesAgree(p, n, Reads(HoldEquation(p.T, p.T.holds[j]).rhs))
    ensures HoldAgrees(p, n, j)
  {
    var h := p.T.holds[j];
    var e := HoldEquation(p.T, h).rhs;
    FlagRead(p, n, h.ck, e.cond);
    RewrittenEval(p, h.operand, h.ck, h.inner, n);
    PreRead(p, h.name, n);
    if !Active(h.ck, p.t, n) && Ticked(h.ck, p.t, n) {
      assert AllAgree(p, n-1);
      assert NameAgrees(p, n-1, h.name) && HoldAgrees(p, n-1, j);
    }
  }

  lemma ImageStep(p: Pair, c: Clocked, r: Equation, n: nat)
    requires EquationRewrites(c, r, p.T, p.cx.functions) && Names(c.eq.rhs) + {c.eq.lhs} <= p.vars
    requires p.cx.nil == Undef && PastAgrees(p, n)
    requires Solves(p, r, n) && NamesAgree(p, n, Reads(r.rhs))
    requires p.t(n, c.eq.lhs) == Held(p.cx, c.eq, c.ck, c.default, p.t, n) && !p.t(n, c.eq.lhs).Undef?
    ensures p.u(n, r.lhs) == p.t(n, r.lhs)
  {
    if c.ck.Base? {
      RewrittenEval(p, c.eq.rhs, c.ck, r.rhs, n);
    } else {
      FlagRead(p, n, c.ck, r.rhs.cond);
      RewrittenEval(p, c.eq.rhs, c.ck, r.rhs.thn, n);
      AlwaysTicks(p.u, n);
      PreRead(p, c.eq.lhs, n);
      if n > 0 {
        assert AllAgree(p, n-1) && NameAgrees(p, n-1, c.eq.lhs);
      }
      assert Eval(Rewritten(p), r.rhs.els, Base, p.u, n) == if n > 0 then p.u(n-1, c.eq.lhs) else c.default;
    }
  }

  // ---------------------------------------------------------------- runs

  /** `p.t` is an error-free run of the clocked system, `p.u` a run on the same
      inputs of its rewriting. */
  ghost predicate Compared(p: Pair, sys: seq<Clocked>, out: seq<Equation>) {
    && p.cx.nil == Undef
    && Declocked(sys, out, p.T, p.cx.functions)
    && Run(p.cx, sys, p.t) && Run(Rewritten(p), BaseSystem(out), p.u)
    && (forall n: nat, x | x in p.vars :: !p.t(n, x).Undef?)
    && (forall i | 0 <= i < |sys| :: Names(sys[i].eq.rhs) + {sys[i].eq.lhs} <= p.vars)
    && (forall ck | ck in p.T.act :: ck.clock in p.vars)
    && (forall j | 0 <= j < |p.T.holds| :: Names(p.T.holds[j].operand) <= p.vars)
    && (forall n: nat, x | x in p.vars && x !in DefinedVars(sys) :: p.u(n, x) == p.t(n, x))
  }

  lemma ImageExists(sys: seq<Clocked>, out: seq<Equation>, T: Tables, functions: set<string>, i: nat) returns (r: Equation)
    requires Declocked(sys, out, T, functions) && i < |sys|
    ensures r in out && EquationRewrites(sys[i], r, T, functions)
  {
    assert HasImage(sys[i], out, T, functions);
    r :| r in out && EquationRewrites(sys[i], r, T, functions);
  }

  lemma BaseStep(p: Pair, sys: seq<Clocked>, out: seq<Equation>, eq: Equation, n: nat)
    requires Compared(p, sys, out) && eq in out
    ensures Solves(p, eq, n)
  {
    var k :| 0 <= k < |out| && out[k] == eq;
    assert StepOk(Rewritten(p), BaseSystem(out), p.u, n);
    assert BaseSystem(out)[k].eq == eq;
  }

  lemma HeldStep(p: Pair, sys: seq<Clocked>, out: seq<Equation>, i: nat, n: nat)
    requires Compared(p, sys, out) && i < |sys|
    ensures p.t(n, sys[i].eq.lhs) == Held(p.cx, sys[i].eq, sys[i].ck, sys[i].default, p.t, n)
    ensures !p.t(n, sys[i].eq.lhs).Undef?
  {
    assert StepOk(p.cx, sys, p.t, n);
  }

  /** Ranks witness that the base-clock program has no combinational cycle. */
  ghost predicate Ranked(out: seq<Equation>, rank: string -> nat) {
    forall k, x | 0 <= k < |out| && x in Reads(out[k].rhs) && x in Defined(out) :: rank(x) < rank(out[k].lhs)
  }

  lemma RankedReads(out: seq<Equation>, rank: string -> nat, eq: Equation, x: string)
    requires Ranked(out, rank) && eq in out && x in Reads(eq.rhs) && x in Defined(out)
    ensures rank(x) < rank(eq.lhs)
  {
    var k :| 0 <= k < |out| && out[k] == eq;
  }

  lemma {:induction false} ReadsAgree(p: Pair, sys: seq<Clocked>, out: seq<Equation>, rank: string -> nat, eq: Equation, n: nat)
    requires Compared(p, sys, out) && PastAgrees(p, n) && Ranked(out, rank) && eq in out
    ensures Solves(p, eq, n) && NamesAgree(p, n, Reads(eq.rhs))
    decreases rank(eq.lhs), 0
  {
    BaseStep(p, sys, out, eq, n);
    forall x | x in Reads(eq.rhs) ensures NameAgrees(p, n, x) {
      if x in Defined(out) {
        RankedReads(out, rank, eq, x);
        SameCycleAgrees(p, sys, out, rank, x, n);
      } else {
        InputAgrees(p, sys, out, x, n);
      }
    }
  }

  /** What the base-clock program does not define is an input. */
  lemma InputAgrees(p: Pair, sys: seq<Clocked>, out: seq<Equation>, x: string, n: nat)
    requires Compared(p, sys, out) && x !in Defined(out)
    ensures NameAgrees(p, n, x)
  {
    forall eq | eq in out ensures eq.lhs in Defined(out) {
      var k :| 0 <= k < |out| && out[k] == eq;
    }
    forall i | 0 <= i < |sys| ensures sys[i].eq.lhs in Defined(out) {
      var r := ImageExists(sys, out, p.T, p.cx.functions, i);
    }
    assert forall ck | ck in p.T.act :: ActEquation(p.T, ck) in out;
    assert forall ck | ck in p.T.first :: FirstEquation(p.T, ck) in out;
    assert forall j | 0 <= j < |p.T.holds| :: HoldEquation(p.T, p.T.holds[j]) in out;
  }

  lemma {:induction false} SameCycleAgrees(p: Pair, sys: seq<Clocked>, out: seq<Equation>, rank: string -> nat, y: string, n: nat)
    requires Compared(p, sys, out) && PastAgrees(p, n) && Ranked(out, rank)
    ensures NameAgrees(p, n, y)
    decreases rank(y), 1
  {
    forall eq | eq in out && eq.lhs == y ensures Solves(p, eq, n) && NamesAgree(p, n, Reads(eq.rhs)) {
      ReadsAgree(p, sys, out, rank, eq, n);
    }
    forall ck | ck in p.T.act && p.T.act[ck] == y ensures ActAgrees(p, n, ck) {
      assert ActEquation(p.T, ck) in out;
      ActStep(p, ck, n);
    }
    forall ck | ck in p.T.first && p.T.first[ck] == y ensures FirstAgrees(p, n, ck) {
      assert FirstEquation(p.T, ck) in out;
      FirstStep(p, ck, n);
    }
    forall j | 0 <= j < |p.T.holds| && p.T.holds[j].name == y ensures HoldAgrees(p, n, j) {
      assert HoldEquation(p.T, p.T.holds[j]) in out;
      HoldStep(p, j, n);
    }
    if y in p.vars && y in DefinedVars(sys) {
      var i :| 0 <= i < |sys| && sys[i].eq.lhs == y;
      var r := ImageExists(sys, out, p.T, p.cx.functions, i);
      HeldStep(p, sys, out, i, n);
      ImageStep(p, sys[i], r, n);
    }
  }

  /** Declocking preserves meaning: at every cycle every original variable has
      the same value in both runs, every activation flag is its clock's
      activity, and every first-tick flag says that its clock has not ticked. */
  lemma {:induction false} DeclockPreserves(p: Pair, sys: seq<Clocked>, out: seq<Equation>, rank: string -> nat, n: nat)
    requires Compared(p, sys, out) && Ranked(out, rank)
    ensures forall x | x in p.vars :: p.u(n, x) == p.t(n, x)
    ensures forall ck | ck in p.T.act :: ActAgrees(p, n, ck)
    ensures forall ck | ck in p.T.first :: FirstAgrees(p, n, ck)
    ensures AllAgree(p, n)
  {
    forall m: nat | m < n ensures AllAgree(p, m) {
      DeclockPreserves(p, sys, out, rank, m);
    }
    forall y ensures NameAgrees(p, n, y) {
      SameCycleAgrees(p, sys, out, rank, y, n);
    }
    forall x | x in p.vars ensures p.u(n, x) == p.t(n, x) {
      assert NameAgrees(p, n, x);
    }
    forall ck | ck in p.T.act ensures ActAgrees(p, n, ck) {
      assert NameAgrees(p, n, p.T.act[ck]);
    }
    forall ck | ck in p.T.first ensures FirstAgrees(p, n, ck) {
      assert NameAgrees(p, n, p.T.first[ck]);
    }
  }
}
