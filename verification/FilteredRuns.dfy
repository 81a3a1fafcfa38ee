/** Running an expression on a sampled clock is running it, unsampled, on the
    stream of that clock's ticks: the reason a frozen scope keeps its own time. */
module FilteredRuns {
  import opened Lustre
  import opened Clocks
  import opened Options
  import opened Activation
  import opened Lowering
  import opened ActivationClocks

  ghost predicate FollowsAt(ck: Clock, t: Trace, tau: Trace, n: nat) {
    forall v :: tau(Ticks(ck, t, n), v) == t(n, v)
  }

  /** `tau` lists the cycles of `t` in which `ck` ticks, one after the other. */
  ghost predicate Follows(ck: Clock, t: Trace, tau: Trace) {
    forall n: nat | Active(ck, t, n) :: FollowsAt(ck, t, tau, n)
  }

  ghost predicate TickAt(ck: Clock, t: Trace, j: nat, n: nat) {
    Active(ck, t, n) && Ticks(ck, t, n) == j
  }

  ghost function FilteredValue(ck: Clock, t: Trace, j: nat, v: string): Value {
    if n: nat :| TickAt(ck, t, j, n) then t(n, v) else Undef
  }

  /** The stream of the ticks of `ck`. */
  ghost function Filtered(ck: Clock, t: Trace): Trace {
    (j: nat, v: string) => FilteredValue(ck, t, j, v)
  }

  lemma FilteredFollows(ck: Clock, t: Trace)
    ensures Follows(ck, t, Filtered(ck, t))
  {
    forall n: nat | Active(ck, t, n) ensures FollowsAt(ck, t, Filtered(ck, t), n) {
      forall v ensures Filtered(ck, t)(Ticks(ck, t, n), v) == t(n, v) {
        var j := Ticks(ck, t, n);
        assert TickAt(ck, t, j, n);
        forall m: nat | TickAt(ck, t, j, m) ensures m == n {
          if m < n { TicksGrow(ck, t, m, n); } else if n < m { TicksGrow(ck, t, n, m); }
        }
      }
    }
  }

  // ---------------------------------------------------------------- sampled variables

  /** `s` holds `v` as it was at the latest tick of `ck`. */
  ghost predicate HoldsSample(ck: Clock, t: Trace, v: string, s: string) {
    forall n: nat :: HoldsSampleAt(ck, t, v, s, n)
  }

  ghost predicate HoldsSampleAt(ck: Clock, t: Trace, v: string, s: string, n: nat) {
    && (Active(ck, t, n) ==> t(n, s) == t(n, v))
    && (!Active(ck, t, n) && n > 0 ==> t(n, s) == t(n-1, s))
  }

  ghost predicate SampledIn(tree: Tree, k: nat, vars: set<string>, t: Trace) {
    forall v | v in vars :: HoldsSample(ScopeClock(tree, k), t, v, Spell(tree, Sample(k, v)))
  }

  lemma SampleShows(tree: Tree, k: nat, vars: set<string>, t: Trace, v: string, n: nat)
    requires SampledIn(tree, k, vars, t) && v in vars && Active(ScopeClock(tree, k), t, n)
    ensures t(n, Spell(tree, Sample(k, v))) == t(n, v)
  {
    hide Spell, ScopeClock;
    assert HoldsSample(ScopeClock(tree, k), t, v, Spell(tree, Sample(k, v)));
    assert HoldsSampleAt(ScopeClock(tree, k), t, v, Spell(tree, Sample(k, v)), n);
  }

  lemma {:induction false} SnapshotOf(tree: Tree, k: nat, vars: set<string>, t: Trace, tau: Trace, v: string, n: nat)
    requires SampledIn(tree, k, vars, t) && v in vars && Follows(ScopeClock(tree, k), t, tau)
    requires Ticks(ScopeClock(tree, k), t, n) > 0
    ensures n > 0 && t(n-1, Spell(tree, Sample(k, v))) == tau(Ticks(ScopeClock(tree, k), t, n) - 1, v)
    decreases n
  {
    hide Spell, ScopeClock;
    var ck := ScopeClock(tree, k);
    assert HoldsSample(ck, t, v, Spell(tree, Sample(k, v)));
    assert n > 0 && HoldsSampleAt(ck, t, v, Spell(tree, Sample(k, v)), n-1);
    if Active(ck, t, n-1) {
      assert FollowsAt(ck, t, tau, n-1);
    } else {
      SnapshotOf(tree, k, vars, t, tau, v, n-1);
    }
  }

  // ---------------------------------------------------------------- clocks inside a scope

  lemma {:induction false} LiftInactive(tree: Tree, k: nat, vars: set<string>, ck: Clock, t: Trace, n: nat)
    requires !Active(ScopeClock(tree, k), t, n)
    ensures !Active(Lift(tree, k, vars, ck), t, n)
    decreases ck
  {
    hide Spell, ScopeClock;
    if ck.On? { LiftInactive(tree, k, vars, ck.parent, t, n); }
  }

  lemma {:induction false} LiftActive(tree: Tree, k: nat, vars: set<string>, ck: Clock, t: Trace, tau: Trace, n: nat)
    requires SampledIn(tree, k, vars, t) && Follows(ScopeClock(tree, k), t, tau)
    requires Active(ScopeClock(tree, k), t, n) && Conditions(ck) <= vars
    ensures Active(Lift(tree, k, vars, ck), t, n) == Active(ck, tau, Ticks(ScopeClock(tree, k), t, n))
    decreases ck
  {
    hide Spell, ScopeClock;
    if ck.On? {
      LiftActive(tree, k, vars, ck.parent, t, tau, n);
      assert HoldsSample(ScopeClock(tree, k), t, ck.clock, Spell(tree, Sample(k, ck.clock)));
      assert HoldsSampleAt(ScopeClock(tree, k), t, ck.clock, Spell(tree, Sample(k, ck.clock)), n);
      assert FollowsAt(ScopeClock(tree, k), t, tau, n);
    }
  }

  /** The scope's own history of ticks is the filtered one. */
  lemma {:induction false} LiftTicked(tree: Tree, k: nat, vars: set<string>, ck: Clock, t: Trace, tau: Trace, n: nat)
    requires SampledIn(tree, k, vars, t) && Follows(ScopeClock(tree, k), t, tau) && Conditions(ck) <= vars
    ensures
      var j := Ticks(ScopeClock(tree, k), t, n);
      && Ticked(Lift(tree, k, vars, ck), t, n) == Ticked(ck, tau, j)
      && (Ticked(ck, tau, j) ==>
            var m := LastTick(Lift(tree, k, vars, ck), t, n);
            Active(ScopeClock(tree, k), t, m) && Ticks(ScopeClock(tree, k), t, m) == LastTick(ck, tau, j))
    decreases n
  {
    hide Spell, ScopeClock;
    if n > 0 {
      LiftTicked(tree, k, vars, ck, t, tau, n-1);
      if Active(ScopeClock(tree, k), t, n-1) {
        LiftActive(tree, k, vars, ck, t, tau, n-1);
      } else {
        LiftInactive(tree, k, vars, ck, t, n-1);
      }
    }
  }

  // ---------------------------------------------------------------- expressions inside a scope

  lemma {:induction false} UnderConst(cx: Context, tree: Tree, j: nat, v: Value, ck: Clock, t: Trace, n: nat)
    ensures Eval(cx, Under(tree, j, Const(v)), ck, t, n) == v
    decreases j
  {
    hide Spell;
    if j > 0 { UnderConst(cx, tree, j-1, v, Parent(ck), t, n); }
  }

  lemma OntoConst(cx: Context, tree: Tree, k: nat, v: Value, ck: Clock, t: Trace, n: nat)
    ensures Eval(cx, Onto(tree, k, Const(v)), ck, t, n) == v
  {
    hide Spell;
    if k < |tree.branches| {
      UnderConst(cx, tree, k, v, Parent(ck), t, n);
    } else {
      UnderConst(cx, tree, |tree.branches|, v, ck, t, n);
    }
  }

  /** What is asked of an expression run in scope `k`: base-clocked variables
      that are sampled there, used as the clock rules allow under `bc`. */
  ghost predicate Local(tree: Tree, k: nat, vars: set<string>, bc: ClockMap, e: Expr, ck: Clock, t: Trace, tau: Trace) {
    && SampledIn(tree, k, vars, t) && Follows(ScopeClock(tree, k), t, tau)
    && Names(e) + Conditions(ck) <= vars
    && Disciplined(e, ck, bc)
  }

  ghost predicate LocalAll(tree: Tree, k: nat, vars: set<string>, bc: ClockMap, args: seq<Expr>, ck: Clock, t: Trace, tau: Trace) {
    forall i | 0 <= i < |args| :: Local(tree, k, vars, bc, args[i], ck, t, tau)
  }

  function SubstituteAll(tree: Tree, k: nat, vars: set<string>, pin: bool, args: seq<Expr>): (rs: seq<Expr>)
    ensures |rs| == |args|
  {
    seq(|args|, i requires 0 <= i < |args| => Substitute(tree, k, vars, pin, args[i]))
  }

  /** An expression moved onto a scope's clock has, at each of its activations,
      the value it has when run unsampled on the stream of activations alone:
      `pre`, `->` and instances see nothing of the cycles in between. */
  lemma {:induction false} FilteredEval(cx: Context, tree: Tree, k: nat, vars: set<string>, bc: ClockMap, pin: bool, e: Expr, ck: Clock,
                                        t: Trace, tau: Trace, n: nat)
    requires Local(tree, k, vars, bc, e, ck, t, tau) && Active(ScopeClock(tree, k), t, n)
    ensures Eval(cx, Substitute(tree, k, vars, pin, e), Lift(tree, k, vars, ck), t, n)
            == Eval(cx, e, ck, tau, Ticks(ScopeClock(tree, k), t, n))
    decreases e, 2, 0
  {
    hide Spell, ScopeClock, Onto, Ticks, Ticked, Active;
    assert FollowsAt(ScopeClock(tree, k), t, tau, n);
    match e
    case Const(v) => OntoConst(cx, tree, k, v, Lift(tree, k, vars, ck), t, n);
    case Var(x) => SampleShows(tree, k, vars, t, x, n);
    case Unary(_, a) => FilteredEval(cx, tree, k, vars, bc, pin, a, ck, t, tau, n);
    case Binary(_, a, b) =>
      FilteredEval(cx, tree, k, vars, bc, pin, a, ck, t, tau, n);
      FilteredEval(cx, tree, k, vars, bc, pin, b, ck, t, tau, n);
    case If(c, a, b) =>
      FilteredEval(cx, tree, k, vars, bc, pin, c, ck, t, tau, n);
      FilteredEval(cx, tree, k, vars, bc, pin, a, ck, t, tau, n);
      FilteredEval(cx, tree, k, vars, bc, pin, b, ck, t, tau, n);
    case Pre(a) => FilteredPre(cx, tree, k, vars, bc, pin, a, ck, t, tau, n);
    case Arrow(a, b) =>
      LiftTicked(tree, k, vars, ck, t, tau, n);
      FilteredEval(cx, tree, k, vars, bc, pin, a, ck, t, tau, n);
      FilteredEval(cx, tree, k, vars, bc, pin, b, ck, t, tau, n);
    case When(a, _, _) => FilteredEval(cx, tree, k, vars, bc, pin, a, ck.parent, t, tau, n);
    case Merge(c, a, b) =>
      SampleShows(tree, k, vars, t, c, n);
      FilteredEval(cx, tree, k, vars, bc, pin, a, On(c, true, ck), t, tau, n);
      FilteredEval(cx, tree, k, vars, bc, pin, b, On(c, false, ck), t, tau, n);
    case Call(_, _, _) => FilteredCall(cx, tree, k, vars, bc, pin, e, ck, t, tau, n);
    case Condact(_, _, _, _, _) =>
  }

  lemma {:induction false} FilteredCall(cx: Context, tree: Tree, k: nat, vars: set<string>, bc: ClockMap, pin: bool, e: Expr, ck: Clock,
                                        t: Trace, tau: Trace, n: nat)
    requires e.Call? && Local(tree, k, vars, bc, e, ck, t, tau) && Active(ScopeClock(tree, k), t, n)
    ensures Eval(cx, Substitute(tree, k, vars, pin, e), Lift(tree, k, vars, ck), t, n)
            == Eval(cx, e, ck, tau, Ticks(ScopeClock(tree, k), t, n))
    decreases e, 1, 0
  {
    hide Spell, ScopeClock, Onto, Ticked, Active, Disciplined, EvalAll, Lift, SubstituteAll;
    LocalArgs(tree, k, vars, bc, e, ck, t, tau);
    FilteredArgs(cx, tree, k, vars, bc, pin, e.args, ck, t, tau, n);
    FilteredHistory(cx, tree, k, vars, bc, pin, e.args, ck, t, tau, n+1);
    SubstituteCall(tree, k, vars, pin, e);
  }

  lemma SubstituteCall(tree: Tree, k: nat, vars: set<string>, pin: bool, e: Expr)
    requires e.Call?
    ensures Substitute(tree, k, vars, pin, e) == Call(e.site, e.node, SubstituteAll(tree, k, vars, pin, e.args))
  {
  }

  lemma LocalArgs(tree: Tree, k: nat, vars: set<string>, bc: ClockMap, e: Expr, ck: Clock, t: Trace, tau: Trace)
    requires e.Call? && Local(tree, k, vars, bc, e, ck, t, tau)
    ensures LocalAll(tree, k, vars, bc, e.args, ck, t, tau)
  {
    hide Spell, ScopeClock, Onto;
    DisciplinedArgs(e.args, ck, bc);
  }

  lemma {:induction false} FilteredPre(cx: Context, tree: Tree, k: nat, vars: set<string>, bc: ClockMap, pin: bool, a: Expr, ck: Clock,
                                       t: Trace, tau: Trace, n: nat)
    requires Local(tree, k, vars, bc, a, ck, t, tau) && Active(ScopeClock(tree, k), t, n)
    ensures Eval(cx, Pre(Substitute(tree, k, vars, pin, a)), Lift(tree, k, vars, ck), t, n)
            == Eval(cx, Pre(a), ck, tau, Ticks(ScopeClock(tree, k), t, n))
    decreases a, 3, 0
  {
    hide Spell, ScopeClock, Onto;
    LiftTicked(tree, k, vars, ck, t, tau, n);
    if Ticked(Lift(tree, k, vars, ck), t, n) {
      if a.Var? {
        TicksBefore(tree, k, vars, ck, t, n);
        SnapshotOf(tree, k, vars, t, tau, a.x, n);
      } else {
        FilteredEval(cx, tree, k, vars, bc, pin, a, ck, t, tau, LastTick(Lift(tree, k, vars, ck), t, n));
        SubstituteNotVar(tree, k, vars, pin, a);
      }
    }
  }

  lemma SubstituteNotVar(tree: Tree, k: nat, vars: set<string>, pin: bool, a: Expr)
    requires !a.Var?
    ensures !Substitute(tree, k, vars, pin, a).Var?
  {
    if a.Const? { UnderNotVar(tree, k, a); UnderNotVar(tree, |tree.branches|, a); }
  }

  lemma UnderNotVar(tree: Tree, j: nat, a: Expr)
    requires !a.Var?
    ensures !Under(tree, j, a).Var?
  {
  }

  lemma {:induction false} TicksBefore(tree: Tree, k: nat, vars: set<string>, ck: Clock, t: Trace, n: nat)
    requires Ticked(Lift(tree, k, vars, ck), t, n)
    ensures Ticks(ScopeClock(tree, k), t, n) > 0
    decreases n
  {
    hide Spell, ScopeClock;
    if !Active(ScopeClock(tree, k), t, n-1) {
      LiftInactive(tree, k, vars, ck, t, n-1);
      TicksBefore(tree, k, vars, ck, t, n-1);
    }
  }

  lemma {:induction false} FilteredArgs(cx: Context, tree: Tree, k: nat, vars: set<string>, bc: ClockMap, pin: bool, args: seq<Expr>, ck: Clock,
                                        t: Trace, tau: Trace, n: nat)
    requires LocalAll(tree, k, vars, bc, args, ck, t, tau) && Active(ScopeClock(tree, k), t, n)
    ensures EvalAll(cx, SubstituteAll(tree, k, vars, pin, args), Lift(tree, k, vars, ck), t, n)
            == EvalAll(cx, args, ck, tau, Ticks(ScopeClock(tree, k), t, n))
    decreases args, 0, 0
  {
    hide Spell, ScopeClock, Onto, Substitute;
    forall i | 0 <= i < |args|
      ensures Eval(cx, Substitute(tree, k, vars, pin, args[i]), Lift(tree, k, vars, ck), t, n)
              == Eval(cx, args[i], ck, tau, Ticks(ScopeClock(tree, k), t, n))
    {
      assert Local(tree, k, vars, bc, args[i], ck, t, tau);
      FilteredEval(cx, tree, k, vars, bc, pin, args[i], ck, t, tau, n);
    }
  }

  /** The arguments of the cycles before `n`, none before the first tick. */
  function HistoryBefore(cx: Context, args: seq<Expr>, ck: Clock, t: Trace, n: nat): seq<seq<Value>> {
    if n == 0 then [] else History(cx, args, ck, t, n-1)
  }

  lemma {:induction false} FilteredHistory(cx: Context, tree: Tree, k: nat, vars: set<string>, bc: ClockMap, pin: bool, args: seq<Expr>, ck: Clock,
                                           t: Trace, tau: Trace, n: nat)
    requires LocalAll(tree, k, vars, bc, args, ck, t, tau)
    requires SampledIn(tree, k, vars, t) && Follows(ScopeClock(tree, k), t, tau) && Conditions(ck) <= vars
    ensures HistoryBefore(cx, SubstituteAll(tree, k, vars, pin, args), Lift(tree, k, vars, ck), t, n)
            == HistoryBefore(cx, args, ck, tau, Ticks(ScopeClock(tree, k), t, n))
    decreases args, 1, n
  {
    hide Spell, ScopeClock, Onto, Substitute, EvalAll, Lift, SubstituteAll, Disciplined;
    if n > 0 {
      FilteredHistory(cx, tree, k, vars, bc, pin, args, ck, t, tau, n-1);
      if Active(ScopeClock(tree, k), t, n-1) {
        LiftActive(tree, k, vars, ck, t, tau, n-1);
        FilteredArgs(cx, tree, k, vars, bc, pin, args, ck, t, tau, n-1);
      } else {
        LiftInactive(tree, k, vars, ck, t, n-1);
      }
    }
  }
}
