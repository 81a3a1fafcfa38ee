/** Clock elimination: the rewriting of a clocked node onto the base clock,
    with its naming tables, and the equations the rewritten node consists of. */
module Declock {
  import opened Lustre
  import opened Clocks
  import opened Options

  /** A local holding the operand of a clocked `pre` between ticks. */
  datatype Hold = Hold(name: string, ck: Clock, operand: Expr, inner: Expr)

  /** The activation flag of each clock, its first-tick flag, and the hold
      locals; and, given beforehand, the output type of each callee. */
  datatype Tables = Tables(act: map<Clock, string>, first: map<Clock, string>, holds: seq<Hold>, outputs: string -> Type)

  // ---------------------------------------------------------------- the rewriting, as a relation

  predicate IsHold(h: Hold, ck: Clock, operand: Expr, r: Expr) {
    h.ck == ck && h.operand == operand && r == Pre(Var(h.name))
  }

  /** `r` is `e`, which runs on `ck`, rewritten onto the base clock under the tables `T`. */
  predicate Rewrites(e: Expr, ck: Clock, r: Expr, T: Tables, functions: set<string>)
    decreases e
  {
    match e
    case Const(_) => r == e
    case Var(_) => r == e
    case Unary(op, a) => r.Unary? && r.uop == op && Rewrites(a, ck, r.arg, T, functions)
    case Binary(op, a, b) =>
      r.Binary? && r.bop == op && Rewrites(a, ck, r.lhs, T, functions) && Rewrites(b, ck, r.rhs, T, functions)
    case If(c, a, b) =>
      && r.If? && Rewrites(c, ck, r.cond, T, functions)
      && Rewrites(a, ck, r.thn, T, functions) && Rewrites(b, ck, r.els, T, functions)
    case Pre(a) =>
      if a.Var? || ck.Base? then r.Pre? && Rewrites(a, ck, r.arg, T, functions)
      else exists j :: 0 <= j < |T.holds| && IsHold(T.holds[j], ck, a, r)
    case Arrow(a, b) =>
      if ck.Base? then
        r.Arrow? && Rewrites(a, ck, r.init, T, functions) && Rewrites(b, ck, r.body, T, functions)
      else
        && r.If? && ck in T.first && r.cond == Var(T.first[ck])
        && Rewrites(a, ck, r.thn, T, functions) && Rewrites(b, ck, r.els, T, functions)
    case When(a, _, _) => Rewrites(a, Parent(ck), r, T, functions)
    case Merge(c, a, b) =>
      && r.If? && r.cond == Var(c)
      && Rewrites(a, On(c, true, ck), r.thn, T, functions) && Rewrites(b, On(c, false, ck), r.els, T, functions)
    case Call(site, f, args) =>
      if ck.Base? || f in functions then
        r.Call? && r.site == site && r.node == f && RewritesAll(args, ck, r.args, T, functions)
      else
        && r.Condact? && ck in T.act && r.act == Var(T.act[ck])
        && r.site == site && r.node == f && RewritesAll(args, ck, r.args, T, functions)
        && r.init == Const(Default(T.outputs(f)))
    case Condact(_, _, _, _, _) => false
  }

  predicate RewritesAll(args: seq<Expr>, ck: Clock, rs: seq<Expr>, T: Tables, functions: set<string>)
    decreases args
  {
    |rs| == |args| && forall i | 0 <= i < |args| :: Rewrites(args[i], ck, rs[i], T, functions)
  }

  // ---------------------------------------------------------------- the equations it produces

  function ActEquation(T: Tables, ck: Clock): Equation
    requires ck.On? && ck in T.act
  {
    var cond := if ck.on then Var(ck.clock) else Unary(Not, Var(ck.clock));
    Equation(T.act[ck], if ck.parent in T.act then Binary(And, Var(T.act[ck.parent]), cond) else cond)
  }

  /** True until the clock's first active cycle has passed. */
  function FirstEquation(T: Tables, ck: Clock): Equation
    requires ck in T.act && ck in T.first
  {
    Equation(T.first[ck],
      Arrow(Const(Bool(true)), Binary(And, Pre(Var(T.first[ck])), Unary(Not, Pre(Var(T.act[ck]))))))
  }

  function HoldEquation(T: Tables, h: Hold): Equation
    requires h.ck in T.act
  {
    Equation(h.name, If(Var(T.act[h.ck]), h.inner, Pre(Var(h.name))))
  }

  /** The image of an equation: gated by its clock's flag, holding otherwise. */
  predicate EquationRewrites(c: Clocked, r: Equation, T: Tables, functions: set<string>) {
    && r.lhs == c.eq.lhs
    && if c.ck.Base? then Rewrites(c.eq.rhs, c.ck, r.rhs, T, functions) else
       && c.ck in T.act
       && r.rhs.If? && r.rhs.cond == Var(T.act[c.ck])
       && Rewrites(c.eq.rhs, c.ck, r.rhs.thn, T, functions)
       && r.rhs.els == Arrow(Const(c.default), Pre(Var(c.eq.lhs)))
  }

  /** Flags exist for every clock that needs one, parents included. */
  ghost predicate Closed(T: Tables, functions: set<string>) {
    && (forall ck | ck in T.act :: ck.On? && (ck.parent.On? ==> ck.parent in T.act))
    && (forall ck | ck in T.first :: ck in T.act)
    && (forall j | 0 <= j < |T.holds| ::
          && T.holds[j].ck in T.act
          && Rewrites(T.holds[j].operand, T.holds[j].ck, T.holds[j].inner, T, functions))
  }

  /** `out` contains exactly the flags, the holds, and the images of the equations of `sys`. */
  ghost predicate Declocked(sys: seq<Clocked>, out: seq<Equation>, T: Tables, functions: set<string>) {
    && Closed(T, functions)
    && (forall ck | ck in T.act :: ActEquation(T, ck) in out)
    && (forall ck | ck in T.first :: FirstEquation(T, ck) in out)
    && (forall j | 0 <= j < |T.holds| :: HoldEquation(T, T.holds[j]) in out)
    && (forall i | 0 <= i < |sys| :: HasImage(sys[i], out, T, functions))
    && (forall k | 0 <= k < |out| :: Accounted(sys, out[k], T, functions))
  }

  ghost predicate HasImage(c: Clocked, out: seq<Equation>, T: Tables, functions: set<string>) {
    exists r :: r in out && EquationRewrites(c, r, T, functions)
  }

  /** Every equation of the result is a flag, a hold or an image. */
  ghost predicate Accounted(sys: seq<Clocked>, r: Equation, T: Tables, functions: set<string>)
    requires Closed(T, functions)
  {
    || (exists ck :: ck in T.act && r == ActEquation(T, ck))
    || (exists ck :: ck in T.first && r == FirstEquation(T, ck))
    || (exists j :: 0 <= j < |T.holds| && r == HoldEquation(T, T.holds[j]))
    || (exists i :: 0 <= i < |sys| && EquationRewrites(sys[i], r, T, functions))
  }

  // ---------------------------------------------------------------- growing tables

  ghost predicate Extends(T: Tables, U: Tables) {
    && (forall ck | ck in T.act :: ck in U.act && U.act[ck] == T.act[ck])
    && (forall ck | ck in T.first :: ck in U.first && U.first[ck] == T.first[ck])
    && T.holds <= U.holds && U.outputs == T.outputs
  }

  /** What was rewritten stays a rewriting when the tables grow. */
  lemma {:induction false} RewritesMonotone(e: Expr, ck: Clock, r: Expr, T: Tables, U: Tables, functions: set<string>)
    requires Rewrites(e, ck, r, T, functions) && Extends(T, U)
    ensures Rewrites(e, ck, r, U, functions)
    decreases e
  {
    match e
    case Const(_) =>
    case Var(_) =>
    case Unary(_, a) => RewritesMonotone(a, ck, r.arg, T, U, functions);
    case Binary(_, a, b) =>
      RewritesMonotone(a, ck, r.lhs, T, U, functions);
      RewritesMonotone(b, ck, r.rhs, T, U, functions);
    case If(c, a, b) =>
      RewritesMonotone(c, ck, r.cond, T, U, functions);
      RewritesMonotone(a, ck, r.thn, T, U, functions);
      RewritesMonotone(b, ck, r.els, T, U, functions);
    case Pre(a) =>
      if a.Var? || ck.Base? {
        RewritesMonotone(a, ck, r.arg, T, U, functions);
      } else {
        var j :| 0 <= j < |T.holds| && IsHold(T.holds[j], ck, a, r);
        assert IsHold(U.holds[j], ck, a, r);
      }
    case Arrow(a, b) =>
      if ck.Base? {
        RewritesMonotone(a, ck, r.init, T, U, functions);
        RewritesMonotone(b, ck, r.body, T, U, functions);
      } else {
        RewritesMonotone(a, ck, r.thn, T, U, functions);
        RewritesMonotone(b, ck, r.els, T, U, functions);
      }
    case When(a, _, _) => RewritesMonotone(a, Parent(ck), r, T, U, functions);
    case Merge(c, a, b) =>
      RewritesMonotone(a, On(c, true, ck), r.thn, T, U, functions);
      RewritesMonotone(b, On(c, false, ck), r.els, T, U, functions);
    case Call(_, _, args) =>
      forall i | 0 <= i < |args| ensures Rewrites(args[i], ck, r.args[i], U, functions) {
        RewritesMonotone(args[i], ck, r.args[i], T, U, functions);
      }
    case Condact(_, _, _, _, _) =>
  }
}
