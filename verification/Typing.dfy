/** Types of clocked expressions: in a run whose variables have their declared
    types, every expression has its type, and so have the holds, the condact
    defaults and the locals that clock elimination adds. */
module Typing {
  import opened Lustre
  import opened Clocks
  import opened Options
  import opened Declock
  import opened Declocker
  import opened StepMachine

  /** An undefined value is of every type. */
  predicate OfType(v: Value, ty: Type) {
    match v
    case Undef => true
    case Bool(_) => ty == BoolType
    case Int(_) => ty == IntType
  }

  /** The default of a type is of that type, and is what C holds in zeroed memory. */
  lemma DefaultIsZero(ty: Type)
    ensures OfType(Default(ty), ty) && !Default(ty).Undef? && AsNumber(Default(ty)) == 0
  {
  }

  function UnaryType(op: UnaryOp, a: Option<Type>): Option<Type> {
    if a == Some(if op == Not then BoolType else IntType) then a else None
  }

  function BinaryType(op: BinaryOp, a: Option<Type>, b: Option<Type>): Option<Type> {
    if a.None? || a != b then None else
    match op
    case And => if a.value == BoolType then Some(BoolType) else None
    case Or => if a.value == BoolType then Some(BoolType) else None
    case Xor => if a.value == BoolType then Some(BoolType) else None
    case Implies => if a.value == BoolType then Some(BoolType) else None
    case Eq => Some(BoolType)
    case Neq => Some(BoolType)
    case Lt => if a.value == IntType then Some(BoolType) else None
    case Le => if a.value == IntType then Some(BoolType) else None
    case Gt => if a.value == IntType then Some(BoolType) else None
    case Ge => if a.value == IntType then Some(BoolType) else None
    case _ => if a.value == IntType then Some(IntType) else None
  }

  function SameType(a: Option<Type>, b: Option<Type>): Option<Type> {
    if a == b then a else None
  }

  /** The type of an expression over typed variables and callees; none if it is ill typed. */
  function TypeIn(e: Expr, types: map<string, Type>, outputs: string -> Type): Option<Type> {
    match e
    case Const(v) => if v.Bool? then Some(BoolType) else if v.Int? then Some(IntType) else None
    case Var(x) => if x in types then Some(types[x]) else None
    case Unary(op, a) => UnaryType(op, TypeIn(a, types, outputs))
    case Binary(op, a, b) => BinaryType(op, TypeIn(a, types, outputs), TypeIn(b, types, outputs))
    case If(c, a, b) =>
      if TypeIn(c, types, outputs) == Some(BoolType) then SameType(TypeIn(a, types, outputs), TypeIn(b, types, outputs)) else None
    case Pre(a) => TypeIn(a, types, outputs)
    case Arrow(a, b) => SameType(TypeIn(a, types, outputs), TypeIn(b, types, outputs))
    case When(a, _, _) => TypeIn(a, types, outputs)
    case Merge(_, a, b) => SameType(TypeIn(a, types, outputs), TypeIn(b, types, outputs))
    case Call(_, f, _) => Some(outputs(f))
    case Condact(_, _, f, _, init) => if TypeIn(init, types, outputs) == Some(outputs(f)) then Some(outputs(f)) else None
  }

  // ---------------------------------------------------------------- typed runs

  ghost predicate TypedCycle(types: map<string, Type>, t: Trace, n: nat) {
    forall x | x in types :: OfType(t(n, x), types[x])
  }

  /** The variables have their declared types up to cycle `n`. */
  ghost predicate TypedUpTo(types: map<string, Type>, t: Trace, n: nat) {
    forall m: nat | m <= n :: TypedCycle(types, t, m)
  }

  ghost predicate TypedCallee(m: Machine, ty: Type) {
    forall memory: Memory, args: seq<Value> :: OfType(m.step(memory, args).1, ty)
  }

  /** Callees answer values of their output types. */
  ghost predicate TypedCallees(cx: Context, outputs: string -> Type) {
    cx.nil.Undef? && forall f :: TypedCallee(cx.callees(f), outputs(f))
  }

  lemma UnaryTyped(op: UnaryOp, v: Value, a: Option<Type>)
    requires a.Some? && OfType(v, a.value) && UnaryType(op, a).Some?
    ensures OfType(ApplyUnary(op, v), UnaryType(op, a).value)
  {
  }

  lemma BinaryTyped(op: BinaryOp, v: Value, w: Value, a: Option<Type>, b: Option<Type>)
    requires a.Some? && b.Some? && OfType(v, a.value) && OfType(w, b.value) && BinaryType(op, a, b).Some?
    ensures OfType(ApplyBinary(op, v, w), BinaryType(op, a, b).value)
  {
  }

  /** An expression has values of its type only. */
  lemma {:induction false} ValueTyped(cx: Context, e: Expr, ck: Clock, types: map<string, Type>, outputs: string -> Type, t: Trace, n: nat)
    requires TypedCallees(cx, outputs) && TypedUpTo(types, t, n) && TypeIn(e, types, outputs).Some?
    ensures OfType(Eval(cx, e, ck, t, n), TypeIn(e, types, outputs).value)
    decreases e, 1, 0
  {
    hide BinaryType, UnaryType, ApplyBinary, ApplyUnary, TypedUpTo, TypedCallees;
    NilTyped(cx, outputs);
    match e
    case Const(_) =>
    case Var(x) => VariableTyped(types, t, n, n, x);
    case Unary(op, a) =>
      TypedOperands(e, types, outputs);
      ValueTyped(cx, a, ck, types, outputs, t, n);
      UnaryTyped(op, Eval(cx, a, ck, t, n), TypeIn(a, types, outputs));
    case Binary(op, a, b) =>
      TypedOperands(e, types, outputs);
      ValueTyped(cx, a, ck, types, outputs, t, n);
      ValueTyped(cx, b, ck, types, outputs, t, n);
      BinaryTyped(op, Eval(cx, a, ck, t, n), Eval(cx, b, ck, t, n), TypeIn(a, types, outputs), TypeIn(b, types, outputs));
    case If(_, a, b) =>
      ValueTyped(cx, a, ck, types, outputs, t, n);
      ValueTyped(cx, b, ck, types, outputs, t, n);
    case Pre(a) =>
      if Ticked(ck, t, n) {
        if a.Var? {
          VariableTyped(types, t, n, n-1, a.x);
        } else {
          TypedEarlier(types, t, n, LastTick(ck, t, n));
          ValueTyped(cx, a, ck, types, outputs, t, LastTick(ck, t, n));
        }
      }
    case Arrow(a, b) =>
      ValueTyped(cx, a, ck, types, outputs, t, n);
      ValueTyped(cx, b, ck, types, outputs, t, n);
    case When(a, _, _) => ValueTyped(cx, a, Parent(ck), types, outputs, t, n);
    case Merge(c, a, b) =>
      ValueTyped(cx, a, On(c, true, ck), types, outputs, t, n);
      ValueTyped(cx, b, On(c, false, ck), types, outputs, t, n);
    case Call(_, f, _) => CallTyped(cx, e, ck, outputs, t, n);
    case Condact(_, _, _, _, init) => CondactTyped(cx, e, types, outputs, t, n, n);
  }

  lemma NilTyped(cx: Context, outputs: string -> Type)
    requires TypedCallees(cx, outputs)
    ensures cx.nil.Undef?
  {
  }

  lemma TypedOperands(e: Expr, types: map<string, Type>, outputs: string -> Type)
    requires (e.Unary? || e.Binary?) && TypeIn(e, types, outputs).Some?
    ensures e.Unary? ==> TypeIn(e.arg, types, outputs).Some?
    ensures e.Binary? ==> TypeIn(e.lhs, types, outputs).Some? && TypeIn(e.rhs, types, outputs).Some?
  {
  }

  lemma VariableTyped(types: map<string, Type>, t: Trace, n: nat, m: nat, x: string)
    requires TypedUpTo(types, t, n) && m <= n && x in types
    ensures OfType(t(m, x), types[x])
  {
    assert TypedCycle(types, t, m);
  }

  lemma TypedEarlier(types: map<string, Type>, t: Trace, n: nat, m: nat)
    requires TypedUpTo(types, t, n) && m <= n
    ensures TypedUpTo(types, t, m)
  {
  }

  lemma CallTyped(cx: Context, e: Expr, ck: Clock, outputs: string -> Type, t: Trace, n: nat)
    requires e.Call? && TypedCallees(cx, outputs)
    ensures OfType(Eval(cx, e, ck, t, n), outputs(e.node))
  {
    hide EvalAll, History;
    assert TypedCallee(cx.callees(e.node), outputs(e.node));
  }

  lemma {:induction false} CondactTyped(cx: Context, e: Expr, types: map<string, Type>, outputs: string -> Type, t: Trace, n: nat, m: nat)
    requires e.Condact? && m <= n && TypedCallees(cx, outputs) && TypedUpTo(types, t, n) && TypeIn(e, types, outputs).Some?
    ensures OfType(CondactRun(cx, e, t, m).1, outputs(e.node))
    decreases e, 0, m
  {
    assert TypedCallee(cx.callees(e.node), outputs(e.node));
    TypedEarlier(types, t, n, 0);
    ValueTyped(cx, e.init, Base, types, outputs, t, 0);
    if m > 0 { CondactTyped(cx, e, types, outputs, t, n, m-1); }
  }

  // ---------------------------------------------------------------- what clock elimination declares

  /** The type that is evident from an operand is its type. */
  lemma {:induction false} EvidentType(e: Expr, types: map<string, Type>, outputs: string -> Type)
    requires TypeIn(e, types, outputs).Some? && OperandType(e, types).Some?
    ensures OperandType(e, types) == TypeIn(e, types, outputs)
    decreases e
  {
    match e
    case When(a, _, _) => EvidentType(a, types, outputs);
    case Pre(a) => EvidentType(a, types, outputs);
    case Arrow(a, b) =>
      if OperandType(b, types).Some? { EvidentType(b, types, outputs); } else { EvidentType(a, types, outputs); }
    case _ =>
  }

  /** A hold is declared with the type of every value its operand takes. */
  lemma HoldsWellTyped(cx: Context, node: Node, vc: ClockMap, out: Node, T: Tables, outputs: string -> Type, j: nat, t: Trace, n: nat)
    requires DeclockedNode(node, vc, out, T, cx.functions) && j < |T.holds|
    requires TypedCallees(cx, outputs) && TypedUpTo(DeclaredTypes(node), t, n)
    requires TypeIn(T.holds[j].operand, DeclaredTypes(node), outputs).Some?
    ensures
      var h := T.holds[j];
      h.name in out.locals && OfType(Eval(cx, h.operand, h.ck, t, n), out.locals[h.name])
      && out.locals[h.name] == TypeIn(h.operand, DeclaredTypes(node), outputs).value
  {
    hide Declocked, UniqueDefinitions, Defined, TablesOk, TypeIn, OperandType;
    var h := T.holds[j];
    assert HoldTyped(h, out.locals, DeclaredTypes(node));
    EvidentType(h.operand, DeclaredTypes(node), outputs);
    ValueTyped(cx, h.operand, h.ck, DeclaredTypes(node), outputs, t, n);
  }

  /** A rewritten expression has the type of the original, condacts and their
      defaults included, if holds and flags have theirs. */
  ghost predicate TablesTyped(T: Tables, types: map<string, Type>, more: map<string, Type>) {
    && (forall x | x in types :: x in more && more[x] == types[x])
    && (forall ck | ck in T.act :: T.act[ck] in more && more[T.act[ck]] == BoolType)
    && (forall ck | ck in T.first :: T.first[ck] in more && more[T.first[ck]] == BoolType)
    && (forall j | 0 <= j < |T.holds| :: HoldDeclared(T.holds[j], types, more, T.outputs))
  }

  ghost predicate HoldDeclared(h: Hold, types: map<string, Type>, more: map<string, Type>, outputs: string -> Type) {
    var ty := TypeIn(h.operand, types, outputs);
    ty.Some? ==> h.name in more && more[h.name] == ty.value
  }

  lemma {:induction false} RewriteTyped(e: Expr, ck: Clock, r: Expr, T: Tables, functions: set<string>, types: map<string, Type>, more: map<string, Type>)
    requires Rewrites(e, ck, r, T, functions) && TablesTyped(T, types, more) && TypeIn(e, types, T.outputs).Some?
    requires Conditioned(e, types)
    ensures TypeIn(r, more, T.outputs) == TypeIn(e, types, T.outputs)
    decreases e
  {
    hide BinaryType, UnaryType;
    match e
    case Const(_) =>
    case Var(_) =>
    case Unary(_, a) =>
      TypedOperands(e, types, T.outputs);
      RewriteTyped(a, ck, r.arg, T, functions, types, more);
    case Binary(_, a, b) =>
      TypedOperands(e, types, T.outputs);
      RewriteTyped(a, ck, r.lhs, T, functions, types, more);
      RewriteTyped(b, ck, r.rhs, T, functions, types, more);
    case If(c, a, b) =>
      RewriteTyped(c, ck, r.cond, T, functions, types, more);
      RewriteTyped(a, ck, r.thn, T, functions, types, more);
      RewriteTyped(b, ck, r.els, T, functions, types, more);
    case Pre(a) =>
      if a.Var? || ck.Base? {
        RewriteTyped(a, ck, r.arg, T, functions, types, more);
      } else {
        var j :| 0 <= j < |T.holds| && IsHold(T.holds[j], ck, a, r);
        assert HoldDeclared(T.holds[j], types, more, T.outputs);
      }
    case Arrow(a, b) =>
      RewriteTyped(a, ck, if ck.Base? then r.init else r.thn, T, functions, types, more);
      RewriteTyped(b, ck, if ck.Base? then r.body else r.els, T, functions, types, more);
    case When(a, _, _) => RewriteTyped(a, Parent(ck), r, T, functions, types, more);
    case Merge(c, a, b) =>
      RewriteTyped(a, On(c, true, ck), r.thn, T, functions, types, more);
      RewriteTyped(b, On(c, false, ck), r.els, T, functions, types, more);
    case Call(_, f, _) => DefaultTyped(T.outputs(f), more, T.outputs);
  }

  lemma DefaultTyped(ty: Type, more: map<string, Type>, outputs: string -> Type)
    ensures TypeIn(Const(Default(ty)), more, outputs) == Some(ty)
  {
  }

  /** `merge`s are on Boolean variables. */
  predicate Conditioned(e: Expr, types: map<string, Type>) {
    match e
    case Const(_) => true
    case Var(_) => true
    case Unary(_, a) => Conditioned(a, types)
    case Binary(_, a, b) => Conditioned(a, types) && Conditioned(b, types)
    case If(c, a, b) => Conditioned(c, types) && Conditioned(a, types) && Conditioned(b, types)
    case Pre(a) => Conditioned(a, types)
    case Arrow(a, b) => Conditioned(a, types) && Conditioned(b, types)
    case When(a, _, _) => Conditioned(a, types)
    case Merge(c, a, b) => c in types && types[c] == BoolType && Conditioned(a, types) && Conditioned(b, types)
    case Call(_, _, args) => forall i | 0 <= i < |args| :: Conditioned(args[i], types)
    case Condact(_, _, _, _, _) => false
  }

  /** Well-typed equations; the conditions of clocks are Boolean variables, and
      the held operands are well typed. */
  ghost predicate TypedNode(node: Node, T: Tables) {
    var types := DeclaredTypes(node);
    && (forall i | 0 <= i < |node.equations| :: TypedEquation(node.equations[i], types, T.outputs) && Conditioned(node.equations[i].rhs, types))
    && (forall ck | ck in T.act :: ck.On? && ck.clock in types && types[ck.clock] == BoolType)
    && (forall j | 0 <= j < |T.holds| :: TypeIn(T.holds[j].operand, types, T.outputs).Some? && Conditioned(T.holds[j].operand, types))
  }

  predicate TypedEquation(eq: Equation, types: map<string, Type>, outputs: string -> Type) {
    eq.lhs in types && TypeIn(eq.rhs, types, outputs) == Some(types[eq.lhs])
  }

  lemma LocalsMakeTables(node: Node, vc: ClockMap, out: Node, T: Tables, functions: set<string>)
    requires DeclockedNode(node, vc, out, T, functions) && TypedNode(node, T)
    ensures TablesTyped(T, DeclaredTypes(node), DeclaredTypes(out))
  {
    hide Declocked, UniqueDefinitions, TypeIn, OperandType, Closed, DistinctNames, NamesOf;
    var types, more := DeclaredTypes(node), DeclaredTypes(out);
    NamesListed(T);
    forall x | x in types ensures x in more && more[x] == types[x] {
      assert x !in NamesOf(T);
    }
    forall ck | ck in T.act ensures T.act[ck] in more && more[T.act[ck]] == BoolType { assert T.act[ck] in T.act.Values; }
    forall ck | ck in T.first ensures T.first[ck] in more && more[T.first[ck]] == BoolType { assert T.first[ck] in T.first.Values; }
    forall j | 0 <= j < |T.holds| ensures HoldDeclared(T.holds[j], types, more, T.outputs) {
      assert HoldTyped(T.holds[j], out.locals, types);
      EvidentType(T.holds[j].operand, types, T.outputs);
    }
  }

  /** Clock elimination keeps nodes well typed: flags are Boolean, holds and
      images have the types of what they stand for, and defaults fit. */
  lemma DeclockedWellTyped(node: Node, vc: ClockMap, out: Node, T: Tables, functions: set<string>, k: nat)
    requires DeclockedNode(node, vc, out, T, functions) && TypedNode(node, T) && k < |out.equations|
    ensures TypedEquation(out.equations[k], DeclaredTypes(out), T.outputs)
  {
    hide TypeIn, UniqueDefinitions, OperandType, Rewrites, DistinctNames, Conditioned, LocalsTyped;
    LocalsMakeTables(node, vc, out, T, functions);
    var sys, r := ClockedEquations(node, vc), out.equations[k];
    var types, more := DeclaredTypes(node), DeclaredTypes(out);
    assert Accounted(sys, r, T, functions);
    if ck :| ck in T.act && r == ActEquation(T, ck) {
      FlagTyped(T, ck, types, more);
    } else if ck :| ck in T.first && r == FirstEquation(T, ck) {
      FirstTyped(T, ck, types, more);
    } else if j :| 0 <= j < |T.holds| && r == HoldEquation(T, T.holds[j]) {
      HoldTypes(T, T.holds[j], functions, types, more);
    } else {
      var i :| 0 <= i < |sys| && EquationRewrites(sys[i], r, T, functions);
      assert sys[i].eq == node.equations[i] && TypedEquation(node.equations[i], types, T.outputs);
      assert sys[i].default == Default(VarType(node, sys[i].eq.lhs));
      DefaultAgrees(node, sys[i].eq.lhs);
      ImageTyped(sys[i], r, T, functions, types, more);
    }
  }

  lemma FlagTyped(T: Tables, ck: Clock, types: map<string, Type>, more: map<string, Type>)
    requires TablesTyped(T, types, more) && ck in T.act && ck.On? && ck.clock in types && types[ck.clock] == BoolType
    ensures TypedEquation(ActEquation(T, ck), more, T.outputs)
  {
    assert TypeIn(Var(ck.clock), more, T.outputs) == Some(BoolType);
    assert TypeIn(Unary(Not, Var(ck.clock)), more, T.outputs) == Some(BoolType);
  }

  lemma FirstTyped(T: Tables, ck: Clock, types: map<string, Type>, more: map<string, Type>)
    requires TablesTyped(T, types, more) && ck in T.act && ck in T.first
    ensures TypedEquation(FirstEquation(T, ck), more, T.outputs)
  {
    assert TypeIn(Pre(Var(T.first[ck])), more, T.outputs) == Some(BoolType);
    assert TypeIn(Pre(Var(T.act[ck])), more, T.outputs) == Some(BoolType);
    assert TypeIn(Unary(Not, Pre(Var(T.act[ck]))), more, T.outputs) == Some(BoolType);
    DefaultTyped(BoolType, more, T.outputs);
  }

  lemma HoldTypes(T: Tables, h: Hold, functions: set<string>, types: map<string, Type>, more: map<string, Type>)
    requires TablesTyped(T, types, more) && h.ck in T.act && HoldDeclared(h, types, more, T.outputs)
    requires TypeIn(h.operand, types, T.outputs).Some? && Conditioned(h.operand, types)
    requires Rewrites(h.operand, h.ck, h.inner, T, functions)
    ensures TypedEquation(HoldEquation(T, h), more, T.outputs)
  {
    RewriteTyped(h.operand, h.ck, h.inner, T, functions, types, more);
    assert TypeIn(Pre(Var(h.name)), more, T.outputs) == Some(more[h.name]);
    assert TypeIn(Var(T.act[h.ck]), more, T.outputs) == Some(BoolType);
  }

  lemma ImageTyped(c: Clocked, r: Equation, T: Tables, functions: set<string>, types: map<string, Type>, more: map<string, Type>)
    requires TablesTyped(T, types, more) && EquationRewrites(c, r, T, functions)
    requires TypedEquation(c.eq, types, T.outputs) && Conditioned(c.eq.rhs, types) && c.default == Default(types[c.eq.lhs])
    ensures TypedEquation(r, more, T.outputs)
  {
    RewriteTyped(c.eq.rhs, c.ck, if c.ck.Base? then r.rhs else r.rhs.thn, T, functions, types, more);
    if c.ck.On? {
      var hold := Arrow(Const(c.default), Pre(Var(c.eq.lhs)));
      DefaultTyped(types[c.eq.lhs], more, T.outputs);
      assert TypeIn(Pre(Var(c.eq.lhs)), more, T.outputs) == Some(types[c.eq.lhs]);
      assert TypeIn(hold, more, T.outputs) == Some(types[c.eq.lhs]);
      assert TypeIn(Var(T.act[c.ck]), more, T.outputs) == Some(BoolType);
    }
  }
}
