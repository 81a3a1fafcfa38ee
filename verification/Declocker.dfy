/** The pass that performs clock elimination: fresh names, naming tables that
    grow as expressions are rewritten, and the rewritten node. */
module Declocker {
  import opened Lustre
  import opened Clocks
  import opened Inference
  import opened Options
  import opened Declock
  import opened FreshNames

  // ---------------------------------------------------------------- names

  /** All the names the tables introduced. */
  ghost function NamesOf(T: Tables): set<string> {
    T.act.Values + T.first.Values + set j | 0 <= j < |T.holds| :: T.holds[j].name
  }

  /** No name stands for two things. */
  ghost predicate DistinctNames(T: Tables) {
    && (forall c, d | c in T.act && d in T.act && c != d :: T.act[c] != T.act[d])
    && (forall c, d | c in T.first && d in T.first && c != d :: T.first[c] != T.first[d])
    && (forall i, j | 0 <= i < j < |T.holds| :: T.holds[i].name != T.holds[j].name)
    && (forall c, d | c in T.act && d in T.first :: T.act[c] != T.first[d])
    && (forall c, j | c in T.act && 0 <= j < |T.holds| :: T.act[c] != T.holds[j].name)
    && (forall c, j | c in T.first && 0 <= j < |T.holds| :: T.first[c] != T.holds[j].name)
  }

  // ---------------------------------------------------------------- what the pass accepts

  /** The type of a simple operand: enough for the holds of clocked `pre`s. */
  function OperandType(e: Expr, types: map<string, Type>): Option<Type> {
    match e
    case Var(x) => if x in types then Some(types[x]) else None
    case When(a, _, _) => OperandType(a, types)
    case Pre(a) => OperandType(a, types)
    case Arrow(a, b) => OrElse(OperandType(b, types), OperandType(a, types))
    case Const(Bool(_)) => Some(BoolType)
    case Const(Int(_)) => Some(IntType)
    case _ => None
  }

  /** Every clocked `pre` of a compound operand has an operand whose type is evident. */
  predicate Supported(e: Expr, ck: Clock, types: map<string, Type>)
    decreases e
  {
    match e
    case Const(_) => true
    case Var(_) => true
    case Unary(_, a) => Supported(a, ck, types)
    case Binary(_, a, b) => Supported(a, ck, types) && Supported(b, ck, types)
    case If(c, a, b) => Supported(c, ck, types) && Supported(a, ck, types) && Supported(b, ck, types)
    case Pre(a) => Supported(a, ck, types) && (a.Var? || ck.Base? || OperandType(a, types).Some?)
    case Arrow(a, b) => Supported(a, ck, types) && Supported(b, ck, types)
    case When(a, _, _) => Supported(a, Parent(ck), types)
    case Merge(c, a, b) => Supported(a, On(c, true, ck), types) && Supported(b, On(c, false, ck), types)
    case Call(_, _, args) => SupportedAll(args, ck, types)
    case Condact(_, _, _, _, _) => false
  }

  predicate SupportedAll(args: seq<Expr>, ck: Clock, types: map<string, Type>)
    decreases args
  {
    args == [] || (Supported(args[0], ck, types) && SupportedAll(args[1..], ck, types))
  }

  // ---------------------------------------------------------------- growing the tables

  /** The tables are closed, introduce new and distinct names only, and speak of the node's variables. */
  ghost predicate TablesOk(T: Tables, functions: set<string>, vars: set<string>) {
    && Closed(T, functions)
    && DistinctNames(T) && NamesOf(T) !! vars
    && (forall ck | ck in T.act :: ck.clock in vars)
    && (forall j | 0 <= j < |T.holds| :: Names(T.holds[j].operand) <= vars)
  }

  lemma NamesListed(T: Tables)
    ensures forall c | c in T.act :: T.act[c] in NamesOf(T)
    ensures forall c | c in T.first :: T.first[c] in NamesOf(T)
    ensures forall j | 0 <= j < |T.holds| :: T.holds[j].name in NamesOf(T)
  {
    forall c | c in T.act ensures T.act[c] in NamesOf(T) { assert T.act[c] in T.act.Values; }
    forall c | c in T.first ensures T.first[c] in NamesOf(T) { assert T.first[c] in T.first.Values; }
  }

  lemma HoldsKept(T: Tables, U: Tables, functions: set<string>)
    requires Closed(T, functions) && Extends(T, U)
    ensures forall j | 0 <= j < |T.holds| ::
              Rewrites(T.holds[j].operand, T.holds[j].ck, T.holds[j].inner, U, functions)
  {
    forall j | 0 <= j < |T.holds|
      ensures Rewrites(T.holds[j].operand, T.holds[j].ck, T.holds[j].inner, U, functions)
    {
      RewritesMonotone(T.holds[j].operand, T.holds[j].ck, T.holds[j].inner, T, U, functions);
    }
  }

  lemma ActDistinct(T: Tables, ck: Clock, name: string)
    requires DistinctNames(T) && name !in NamesOf(T) && ck !in T.act
    ensures
      var U := T.(act := T.act[ck := name]);
      DistinctNames(U) && NamesOf(U) <= NamesOf(T) + {name}
  {
    NamesListed(T);
  }

  lemma FirstDistinct(T: Tables, ck: Clock, name: string)
    requires DistinctNames(T) && name !in NamesOf(T) && ck !in T.first
    ensures
      var U := T.(first := T.first[ck := name]);
      DistinctNames(U) && NamesOf(U) <= NamesOf(T) + {name}
  {
    NamesListed(T);
  }

  lemma AddAct(T: Tables, functions: set<string>, vars: set<string>, ck: Clock, name: string)
    requires TablesOk(T, functions, vars) && name !in NamesOf(T) + vars
    requires ck.On? && ck.clock in vars && ck !in T.act && (ck.parent.On? ==> ck.parent in T.act)
    ensures
      var U := T.(act := T.act[ck := name]);
      TablesOk(U, functions, vars) && Extends(T, U) && NamesOf(U) <= NamesOf(T) + {name}
  {
    hide Rewrites, DistinctNames, NamesOf;
    ActDistinct(T, ck, name);
    HoldsKept(T, T.(act := T.act[ck := name]), functions);
  }

  lemma AddFirst(T: Tables, functions: set<string>, vars: set<string>, ck: Clock, name: string)
    requires TablesOk(T, functions, vars) && name !in NamesOf(T) + vars
    requires ck in T.act && ck !in T.first
    ensures
      var U := T.(first := T.first[ck := name]);
      TablesOk(U, functions, vars) && Extends(T, U) && NamesOf(U) <= NamesOf(T) + {name}
  {
    hide Rewrites, DistinctNames, NamesOf;
    FirstDistinct(T, ck, name);
    HoldsKept(T, T.(first := T.first[ck := name]), functions);
  }

  lemma HoldNames(T: Tables, h: Hold)
    ensures NamesOf(T.(holds := T.holds + [h])) == NamesOf(T) + {h.name}
  {
    var U := T.(holds := T.holds + [h]);
    var before := set j | 0 <= j < |T.holds| :: T.holds[j].name;
    var after := set j | 0 <= j < |U.holds| :: U.holds[j].name;
    assert forall j | 0 <= j < |T.holds| :: U.holds[j] == T.holds[j];
    assert U.holds[|T.holds|] == h;
    assert after == before + {h.name};
  }

  lemma HoldDistinct(T: Tables, h: Hold)
    requires DistinctNames(T) && h.name !in NamesOf(T)
    ensures DistinctNames(T.(holds := T.holds + [h]))
  {
    NamesListed(T);
    var U := T.(holds := T.holds + [h]);
    assert forall j | 0 <= j < |U.holds| :: j == |T.holds| || U.holds[j] == T.holds[j];
  }

  lemma AddHold(T: Tables, functions: set<string>, vars: set<string>, h: Hold)
    requires TablesOk(T, functions, vars) && h.name !in NamesOf(T) + vars
    requires h.ck in T.act && Names(h.operand) <= vars && Rewrites(h.operand, h.ck, h.inner, T, functions)
    ensures
      var U := T.(holds := T.holds + [h]);
      TablesOk(U, functions, vars) && Extends(T, U) && NamesOf(U) <= NamesOf(T) + {h.name}
  {
    var U := T.(holds := T.holds + [h]);
    hide Rewrites, DistinctNames, NamesOf;
    HoldDistinct(T, h);
    HoldsKept(T, U, functions);
    RewritesMonotone(h.operand, h.ck, h.inner, T, U, functions);
    HoldNames(T, h);
    assert forall j | 0 <= j < |U.holds| :: j == |T.holds| || U.holds[j] == T.holds[j];
  }

  lemma HoldRewrites(e: Expr, h: Hold, T: Tables, functions: set<string>)
    requires e.Pre? && !e.arg.Var? && h.ck.On? && h.operand == e.arg
    ensures Rewrites(e, h.ck, Pre(Var(h.name)), T.(holds := T.holds + [h]), functions)
  {
    assert IsHold((T.holds + [h])[|T.holds|], h.ck, e.arg, Pre(Var(h.name)));
  }

  lemma ExtendsTransitive(T: Tables, U: Tables, V: Tables)
    requires Extends(T, U) && Extends(U, V)
    ensures Extends(T, V)
  {
  }

  predicate EquationSupported(eq: Equation, ck: Clock, types: map<string, Type>) {
    Supported(eq.rhs, ck, types) && (ck.Base? || eq.lhs in types)
  }

  lemma EvidentMore(holds: seq<Hold>, h: Hold, types: map<string, Type>)
    requires HoldsEvident(holds, types) && OperandType(h.operand, types).Some?
    ensures HoldsEvident(holds + [h], types)
  {
  }

  class Rewriter {
    const types: map<string, Type>
    const functions: set<string>
    const outputs: string -> Type
    ghost const vars: set<string>
    var taken: set<string>
    var tables: Tables

    ghost predicate Valid()
      reads this
    {
      TablesOk(tables, functions, vars) && NamesOf(tables) + vars <= taken && tables.outputs == outputs
      && HoldsEvident(tables.holds, types)
    }

    constructor (types: map<string, Type>, functions: set<string>, outputs: string -> Type)
      ensures Valid() && fresh(this)
      ensures this.types == types && this.functions == functions && vars == types.Keys
      ensures tables == Tables(map[], map[], [], outputs) && this.outputs == outputs
    {
      this.types := types;
      this.functions := functions;
      this.outputs := outputs;
      vars := types.Keys;
      taken := types.Keys;
      tables := Tables(map[], map[], [], outputs);
    }

    /** The first unused name `__stem0`, `__stem1`, ... */
    method Fresh(stem: string) returns (name: string)
      modifies `taken
      ensures name !in old(taken) && taken == old(taken) + {name}
    {
      name := PickFresh(stem, taken);
      taken := taken + {name};
    }

    /** The activation flag of a clock, registered with its parents first. */
    method ActExpr(ck: Clock) returns (flag: Option<Expr>)
      requires Valid() && Conditions(ck) <= vars
      modifies `taken, `tables
      ensures Valid() && Extends(old(tables), tables)
      ensures ck.Base? ==> flag == None
      ensures ck.On? ==> ck in tables.act && flag == Some(Var(tables.act[ck]))
      decreases ck
    {
      if ck.Base? { return None; }
      var _ := ActExpr(ck.parent);
      if ck !in tables.act {
        var name := Fresh("ck");
        AddAct(tables, functions, vars, ck, name);
        tables := tables.(act := tables.act[ck := name]);
      }
      flag := Some(Var(tables.act[ck]));
    }

    /** The first-tick flag of a sampled clock. */
    method FirstExpr(ck: Clock) returns (flag: Expr)
      requires Valid() && ck.On? && Conditions(ck) <= vars
      modifies `taken, `tables
      ensures Valid() && Extends(old(tables), tables)
      ensures ck in tables.first && flag == Var(tables.first[ck])
    {
      var _ := ActExpr(ck);
      if ck !in tables.first {
        var name := Fresh("first");
        AddFirst(tables, functions, vars, ck, name);
        tables := tables.(first := tables.first[ck := name]);
      }
      flag := Var(tables.first[ck]);
    }

    /** `e`, running on `ck`, rewritten onto the base clock; none when the type
        of a clocked `pre` operand cannot be determined. */
    method Rewrite(e: Expr, ck: Clock) returns (r: Option<Expr>)
      requires Valid() && Names(e) + Conditions(ck) <= vars
      modifies `taken, `tables
      ensures Valid() && Extends(old(tables), tables)
      ensures r.Some? <==> Supported(e, ck, types)
      ensures r.Some? ==> Rewrites(e, ck, r.value, tables, functions)
      decreases e, 2
    {
      match e
      case Const(_) => r := Some(e);
      case Var(_) => r := Some(e);
      case Unary(op, a) =>
        var x := Rewrite(a, ck);
        r := if x.Some? then Some(Unary(op, x.value)) else None;
      case Binary(op, a, b) =>
        var x, y := RewriteTwo(a, ck, b, ck, e);
        r := if x.Some? && y.Some? then Some(Binary(op, x.value, y.value)) else None;
      case If(c, a, b) => r := RewriteIf(e, ck);
      case Pre(a) => r := RewritePre(e, ck);
      case Arrow(a, b) => r := RewriteArrow(e, ck);
      case When(a, _, _) => r := Rewrite(a, Parent(ck));
      case Merge(c, a, b) =>
        var x, y := RewriteTwo(a, On(c, true, ck), b, On(c, false, ck), e);
        r := if x.Some? && y.Some? then Some(If(Var(c), x.value, y.value)) else None;
      case Call(site, f, args) => r := RewriteCall(e, ck);
      case Condact(_, _, _, _, _) => r := None;
    }

    method RewriteTwo(a: Expr, ca: Clock, b: Expr, cb: Clock, ghost whole: Expr) returns (x: Option<Expr>, y: Option<Expr>)
      requires Valid() && Names(a) + Conditions(ca) + Names(b) + Conditions(cb) <= vars
      requires a < whole && b < whole
      modifies `taken, `tables
      ensures Valid() && Extends(old(tables), tables)
      ensures x.Some? <==> Supported(a, ca, types)
      ensures y.Some? <==> Supported(b, cb, types)
      ensures x.Some? ==> Rewrites(a, ca, x.value, tables, functions)
      ensures y.Some? ==> Rewrites(b, cb, y.value, tables, functions)
      decreases whole, 0
    {
      x := Rewrite(a, ca);
      ghost var T1 := tables;
      y := Rewrite(b, cb);
      if x.Some? { RewritesMonotone(a, ca, x.value, T1, tables, functions); }
    }

    method RewriteIf(e: Expr, ck: Clock) returns (r: Option<Expr>)
      requires e.If? && Valid() && Names(e) + Conditions(ck) <= vars
      modifies `taken, `tables
      ensures Valid() && Extends(old(tables), tables)
      ensures r.Some? <==> Supported(e, ck, types)
      ensures r.Some? ==> Rewrites(e, ck, r.value, tables, functions)
      decreases e, 1
    {
      var z := Rewrite(e.cond, ck);
      ghost var T1 := tables;
      var x, y := RewriteTwo(e.thn, ck, e.els, ck, e);
      if z.Some? { RewritesMonotone(e.cond, ck, z.value, T1, tables, functions); }
      r := if z.Some? && x.Some? && y.Some? then Some(If(z.value, x.value, y.value)) else None;
    }

    /** `->` on a sampled clock consults the clock's first-tick flag. */
    method RewriteArrow(e: Expr, ck: Clock) returns (r: Option<Expr>)
      requires e.Arrow? && Valid() && Names(e) + Conditions(ck) <= vars
      modifies `taken, `tables
      ensures Valid() && Extends(old(tables), tables)
      ensures r.Some? <==> Supported(e, ck, types)
      ensures r.Some? ==> Rewrites(e, ck, r.value, tables, functions)
      decreases e, 1
    {
      var x, y := RewriteTwo(e.init, ck, e.body, ck, e);
      if x.None? || y.None? {
        r := None;
      } else if ck.Base? {
        r := Some(Arrow(x.value, y.value));
      } else {
        ghost var T1 := tables;
        var flag := FirstExpr(ck);
        RewritesMonotone(e.init, ck, x.value, T1, tables, functions);
        RewritesMonotone(e.body, ck, y.value, T1, tables, functions);
        r := Some(If(flag, x.value, y.value));
      }
    }

    /** A stateful call on a sampled clock is conditionally activated. */
    method RewriteCall(e: Expr, ck: Clock) returns (r: Option<Expr>)
      requires e.Call? && Valid() && Names(e) + Conditions(ck) <= vars
      modifies `taken, `tables
      ensures Valid() && Extends(old(tables), tables)
      ensures r.Some? <==> Supported(e, ck, types)
      ensures r.Some? ==> Rewrites(e, ck, r.value, tables, functions)
      decreases e, 1
    {
      var xs := RewriteAll(e.args, ck);
      if xs.None? {
        r := None;
      } else if ck.Base? || e.node in functions {
        r := Some(Call(e.site, e.node, xs.value));
      } else {
        ghost var T1 := tables;
        var flag := ActExpr(ck);
        RewritesAllMonotone(e.args, ck, xs.value, T1, tables, functions);
        r := Some(Condact(flag.value, e.site, e.node, xs.value, Const(Default(outputs(e.node)))));
      }
    }

    /** `pre` of a variable, or on the base clock, stays a `pre`; otherwise the
        operand is held across inactive cycles in a fresh local. */
    method RewritePre(e: Expr, ck: Clock) returns (r: Option<Expr>)
      requires e.Pre? && Valid() && Names(e) + Conditions(ck) <= vars
      modifies `taken, `tables
      ensures Valid() && Extends(old(tables), tables)
      ensures r.Some? <==> Supported(e, ck, types)
      ensures r.Some? ==> Rewrites(e, ck, r.value, tables, functions)
      decreases e, 1
    {
      var inner := Rewrite(e.arg, ck);
      if inner.None? {
        r := None;
      } else if e.arg.Var? || ck.Base? {
        r := Some(Pre(inner.value));
      } else {
        r := HoldOperand(e, ck, inner.value);
      }
    }

    method HoldOperand(e: Expr, ck: Clock, inner: Expr) returns (r: Option<Expr>)
      requires e.Pre? && !e.arg.Var? && ck.On? && Valid() && Names(e.arg) + Conditions(ck) <= vars
      requires Rewrites(e.arg, ck, inner, tables, functions)
      modifies `taken, `tables
      ensures Valid() && Extends(old(tables), tables)
      ensures r.Some? <==> OperandType(e.arg, types).Some?
      ensures r.Some? ==> Rewrites(e, ck, r.value, tables, functions)
    {
      hide TablesOk, NamesOf, HoldsEvident, OperandType, Closed, Rewrites;
      ghost var T1 := tables;
      var _ := ActExpr(ck);
      var name := Fresh("hold");
      if OperandType(e.arg, types).None? {
        r := None;
      } else {
        RewritesMonotone(e.arg, ck, inner, T1, tables, functions);
        ghost var T2 := tables;
        var h := Hold(name, ck, e.arg, inner);
        AddHold(tables, functions, vars, h);
        EvidentMore(tables.holds, h, types);
        tables := tables.(holds := tables.holds + [h]);
        ExtendsTransitive(T1, T2, tables);
        r := Some(Pre(Var(name)));
        HoldRewrites(e, h, T2, functions);
      }
    }

    /** The equation's image; a clocked left-hand side must be declared, for its default. */
    method RewriteEquation(eq: Equation, ck: Clock) returns (r: Option<Equation>)
      requires Valid() && Names(eq.rhs) + Conditions(ck) <= vars
      modifies `taken, `tables
      ensures Valid() && Extends(old(tables), tables)
      ensures r.Some? <==> EquationSupported(eq, ck, types)
      ensures r.Some? && eq.lhs in types ==>
                EquationRewrites(Clocked(eq, ck, Default(types[eq.lhs])), r.value, tables, functions)
      ensures r.Some? ==> ck.Base? || eq.lhs in types
      ensures r.Some? && ck.Base? ==> EquationRewrites(Clocked(eq, ck, Undef), r.value, tables, functions)
    {
      var rhs := Rewrite(eq.rhs, ck);
      if rhs.None? { return None; }
      ghost var T1 := tables;
      var act := ActExpr(ck);
      RewritesMonotone(eq.rhs, ck, rhs.value, T1, tables, functions);
      if act.None? { return Some(Equation(eq.lhs, rhs.value)); }
      if eq.lhs !in types { return None; }
      var hold := Arrow(Const(Default(types[eq.lhs])), Pre(Var(eq.lhs)));
      r := Some(Equation(eq.lhs, If(act.value, rhs.value, hold)));
    }

    method RewriteAll(args: seq<Expr>, ck: Clock) returns (rs: Option<seq<Expr>>)
      requires Valid() && NamesAll(args) + Conditions(ck) <= vars
      modifies `taken, `tables
      ensures Valid() && Extends(old(tables), tables)
      ensures rs.Some? <==> SupportedAll(args, ck, types)
      ensures rs.Some? ==> RewritesAll(args, ck, rs.value, tables, functions)
      decreases args, 0
    {
      if args == [] { return Some([]); }
      var x := Rewrite(args[0], ck);
      ghost var T1 := tables;
      var xs := RewriteAll(args[1..], ck);
      if x.None? || xs.None? { return None; }
      RewritesMonotone(args[0], ck, x.value, T1, tables, functions);
      rs := Some([x.value] + xs.value);
      RewritesCons(args, ck, x.value, xs.value, tables, functions);
    }
  }

  lemma RewritesCons(args: seq<Expr>, ck: Clock, x: Expr, xs: seq<Expr>, T: Tables, functions: set<string>)
    requires args != [] && Rewrites(args[0], ck, x, T, functions) && RewritesAll(args[1..], ck, xs, T, functions)
    ensures RewritesAll(args, ck, [x] + xs, T, functions)
  {
    forall i | 0 <= i < |args| ensures Rewrites(args[i], ck, ([x] + xs)[i], T, functions) {
      if i > 0 { assert Rewrites(args[1..][i-1], ck, xs[i-1], T, functions); }
    }
  }

  // ---------------------------------------------------------------- nodes

  /** `when` or `merge` occurs somewhere. */
  predicate UsesWhen(e: Expr) {
    match e
    case Const(_) => false
    case Var(_) => false
    case Unary(_, a) => UsesWhen(a)
    case Binary(_, a, b) => UsesWhen(a) || UsesWhen(b)
    case If(c, a, b) => UsesWhen(c) || UsesWhen(a) || UsesWhen(b)
    case Pre(a) => UsesWhen(a)
    case Arrow(a, b) => UsesWhen(a) || UsesWhen(b)
    case When(_, _, _) => true
    case Merge(_, _, _) => true
    case Call(_, _, args) => exists i :: 0 <= i < |args| && UsesWhen(args[i])
    case Condact(_, _, _, args, _) => exists i :: 0 <= i < |args| && UsesWhen(args[i])
  }

  predicate UsesClocks(node: Node) {
    exists i :: 0 <= i < |node.equations| && UsesWhen(node.equations[i].rhs)
  }

  function DeclaredTypes(node: Node): map<string, Type> {
    node.inputs + node.outputs + node.locals
  }

  /** Well-typed input: expressions mention declared variables only. */
  ghost predicate Scoped(node: Node) {
    Mentioned(node.equations) <= DeclaredTypes(node).Keys
  }

  /** The images of the first equations of `sys`, in order. */
  ghost predicate Images(sys: seq<Clocked>, images: seq<Equation>, T: Tables, functions: set<string>) {
    images == [] ||
    (var n := |images| - 1;
     n < |sys| && EquationRewrites(sys[n], images[n], T, functions) && Images(sys, images[..n], T, functions))
  }

  lemma {:induction false} ImageAt(sys: seq<Clocked>, images: seq<Equation>, T: Tables, functions: set<string>, i: nat)
    requires Images(sys, images, T, functions) && i < |images|
    ensures |images| <= |sys| && EquationRewrites(sys[i], images[i], T, functions)
  {
    var n := |images| - 1;
    if i < n { ImageAt(sys, images[..n], T, functions, i); }
  }

  lemma {:induction false} ImagesMonotone(sys: seq<Clocked>, images: seq<Equation>, T: Tables, U: Tables, functions: set<string>)
    requires Images(sys, images, T, functions) && Extends(T, U)
    ensures Images(sys, images, U, functions)
  {
    if images != [] {
      var n := |images| - 1;
      var r := images[n].rhs;
      RewritesMonotone(sys[n].eq.rhs, sys[n].ck, if sys[n].ck.Base? then r else r.thn, T, U, functions);
      ImagesMonotone(sys, images[..n], T, U, functions);
    }
  }

  lemma ImagesAppended(sys: seq<Clocked>, images: seq<Equation>, r: Equation, T: Tables, U: Tables, functions: set<string>)
    requires Images(sys, images, T, functions) && Extends(T, U)
    requires |images| < |sys| && EquationRewrites(sys[|images|], r, U, functions)
    ensures Images(sys, images + [r], U, functions)
  {
    ImagesMonotone(sys, images, T, U, functions);
    assert (images + [r])[..|images|] == images;
  }

  /** The flag and hold equations, each once. */
  ghost predicate Prelude(T: Tables, functions: set<string>, eqs: seq<Equation>)
    requires Closed(T, functions)
  {
    && (forall ck | ck in T.act :: ActEquation(T, ck) in eqs)
    && (forall ck | ck in T.first :: FirstEquation(T, ck) in eqs)
    && (forall j | 0 <= j < |T.holds| :: HoldEquation(T, T.holds[j]) in eqs)
    && (forall k | 0 <= k < |eqs| :: Accounted([], eqs[k], T, functions))
    && UniqueDefinitions(eqs) && Defined(eqs) <= NamesOf(T)
  }

  lemma RewritesAllMonotone(args: seq<Expr>, ck: Clock, rs: seq<Expr>, T: Tables, U: Tables, functions: set<string>)
    requires RewritesAll(args, ck, rs, T, functions) && Extends(T, U)
    ensures RewritesAll(args, ck, rs, U, functions)
  {
    forall i | 0 <= i < |args| ensures Rewrites(args[i], ck, rs[i], U, functions) {
      RewritesMonotone(args[i], ck, rs[i], T, U, functions);
    }
  }

  lemma ConcatUnique(a: seq<Equation>, b: seq<Equation>)
    ensures Defined(a + b) == Defined(a) + Defined(b)
    ensures UniqueDefinitions(a) && UniqueDefinitions(b) && Defined(a) !! Defined(b) ==> UniqueDefinitions(a + b)
  {
    var c := a + b;
    forall i | 0 <= i < |a| ensures a[i].lhs in Defined(c) { assert c[i] == a[i]; }
    forall i | 0 <= i < |b| ensures b[i].lhs in Defined(c) { assert c[|a|+i] == b[i]; }
    if UniqueDefinitions(a) && UniqueDefinitions(b) && Defined(a) !! Defined(b) {
      forall i, j | 0 <= i < j < |c| ensures c[i].lhs != c[j].lhs {
        if i < |a| && j >= |a| { assert c[i].lhs in Defined(a) && c[j].lhs in Defined(b); }
      }
    }
  }

  /** The clocks of a table, each once. */
  method ListClocks(clocks: set<Clock>) returns (cs: seq<Clock>)
    ensures Lists(cs, clocks)
  {
    cs := [];
    var left := clocks;
    while left != {}
      invariant left <= clocks
      invariant forall i, j | 0 <= i < j < |cs| :: cs[i] != cs[j]
      invariant forall ck :: ck in cs <==> ck in clocks - left
      decreases left
    {
      var ck :| ck in left;
      assert ck !in cs;
      left := left - {ck};
      cs := cs + [ck];
    }
    assert forall i | 0 <= i < |cs| :: cs[i] in cs;
  }

  /** One flag equation per sampled clock. */
  function ActEquations(T: Tables, cs: seq<Clock>, functions: set<string>): (eqs: seq<Equation>)
    requires Closed(T, functions) && forall i | 0 <= i < |cs| :: cs[i] in T.act
    ensures |eqs| == |cs|
  {
    seq(|cs|, k requires 0 <= k < |cs| => ActEquation(T, cs[k]))
  }

  function FirstEquations(T: Tables, cs: seq<Clock>, functions: set<string>): (eqs: seq<Equation>)
    requires Closed(T, functions) && forall i | 0 <= i < |cs| :: cs[i] in T.first
    ensures |eqs| == |cs|
  {
    seq(|cs|, k requires 0 <= k < |cs| => FirstEquation(T, cs[k]))
  }

  ghost predicate Lists(cs: seq<Clock>, clocks: set<Clock>) {
    && (forall i, j | 0 <= i < j < |cs| :: cs[i] != cs[j])
    && (forall i | 0 <= i < |cs| :: cs[i] in clocks)
    && (forall ck | ck in clocks :: ck in cs)
  }

  /** One equation for each clock, defining the name given to it. */
  lemma ImagesListed(names: map<Clock, string>, cs: seq<Clock>, eqs: seq<Equation>)
    requires Lists(cs, names.Keys) && |eqs| == |cs|
    requires forall c, d | c in names && d in names && c != d :: names[c] != names[d]
    requires forall k | 0 <= k < |cs| :: eqs[k].lhs == names[cs[k]]
    ensures UniqueDefinitions(eqs) && Defined(eqs) == names.Values
  {
    forall ck | ck in names ensures names[ck] in Defined(eqs) {
      var k :| 0 <= k < |cs| && cs[k] == ck;
      assert eqs[k].lhs == names[ck];
    }
    forall k | 0 <= k < |eqs| ensures eqs[k].lhs in names.Values { assert names[cs[k]] in names.Values; }
  }

  lemma ActsListed(T: Tables, cs: seq<Clock>, functions: set<string>)
    requires Closed(T, functions) && DistinctNames(T) && Lists(cs, T.act.Keys)
    ensures
      var eqs := ActEquations(T, cs, functions);
      && UniqueDefinitions(eqs) && Defined(eqs) == T.act.Values
      && forall ck | ck in T.act :: ActEquation(T, ck) in eqs
  {
    var eqs := ActEquations(T, cs, functions);
    ImagesListed(T.act, cs, eqs);
    forall ck | ck in T.act ensures ActEquation(T, ck) in eqs {
      var k :| 0 <= k < |cs| && cs[k] == ck;
      assert eqs[k] == ActEquation(T, ck);
    }
  }

  lemma FirstsListed(T: Tables, cs: seq<Clock>, functions: set<string>)
    requires Closed(T, functions) && DistinctNames(T) && Lists(cs, T.first.Keys)
    ensures
      var eqs := FirstEquations(T, cs, functions);
      && UniqueDefinitions(eqs) && Defined(eqs) == T.first.Values
      && forall ck | ck in T.first :: FirstEquation(T, ck) in eqs
  {
    var eqs := FirstEquations(T, cs, functions);
    ImagesListed(T.first, cs, eqs);
    forall ck | ck in T.first ensures FirstEquation(T, ck) in eqs {
      var k :| 0 <= k < |cs| && cs[k] == ck;
      assert eqs[k] == FirstEquation(T, ck);
    }
  }

  function HoldEquations(T: Tables, functions: set<string>): (eqs: seq<Equation>)
    requires Closed(T, functions)
    ensures |eqs| == |T.holds|
  {
    seq(|T.holds|, j requires 0 <= j < |T.holds| => HoldEquation(T, T.holds[j]))
  }

  /** Clock bookkeeping first, so a reader sees what gates the rest. */
  method EmitPrelude(T: Tables, functions: set<string>) returns (eqs: seq<Equation>)
    requires Closed(T, functions) && DistinctNames(T)
    ensures Prelude(T, functions, eqs)
  {
    var acts := ListClocks(T.act.Keys);
    var firsts := ListClocks(T.first.Keys);
    eqs := ActEquations(T, acts, functions) + FirstEquations(T, firsts, functions) + HoldEquations(T, functions);
    PreludeComplete(T, acts, firsts, functions);
  }

  lemma PreludeComplete(T: Tables, acts: seq<Clock>, firsts: seq<Clock>, functions: set<string>)
    requires Closed(T, functions) && DistinctNames(T) && Lists(acts, T.act.Keys) && Lists(firsts, T.first.Keys)
    ensures Prelude(T, functions,
              ActEquations(T, acts, functions) + FirstEquations(T, firsts, functions) + HoldEquations(T, functions))
  {
    hide ActEquation, FirstEquation, HoldEquation, UniqueDefinitions, DistinctNames, Rewrites, EquationRewrites, NamesOf, Defined;
    ActsListed(T, acts, functions);
    FirstsListed(T, firsts, functions);
    var a, f, h := ActEquations(T, acts, functions), FirstEquations(T, firsts, functions), HoldEquations(T, functions);
    PreludeUnique(T, functions, a, f);
    forall j | 0 <= j < |T.holds| ensures HoldEquation(T, T.holds[j]) in h { assert h[j] in h; }
    forall k | 0 <= k < |a| ensures Accounted([], a[k], T, functions) {
      assert a[k] == ActEquation(T, acts[k]);
    }
    forall k | 0 <= k < |f| ensures Accounted([], f[k], T, functions) {
      assert f[k] == FirstEquation(T, firsts[k]);
    }
    forall k | 0 <= k < |h| ensures Accounted([], h[k], T, functions) {
      assert h[k] == HoldEquation(T, T.holds[k]);
    }
  }

  lemma PreludeUnique(T: Tables, functions: set<string>, acts: seq<Equation>, firsts: seq<Equation>)
    requires Closed(T, functions) && DistinctNames(T)
    requires UniqueDefinitions(acts) && Defined(acts) == T.act.Values
    requires UniqueDefinitions(firsts) && Defined(firsts) == T.first.Values
    ensures
      var eqs := acts + firsts + HoldEquations(T, functions);
      UniqueDefinitions(eqs) && Defined(eqs) <= NamesOf(T)
  {
    var holds := HoldEquations(T, functions);
    forall x | x in T.act.Values ensures x !in T.first.Values && x !in Defined(holds) {
      var ck :| ck in T.act && T.act[ck] == x;
    }
    forall x | x in T.first.Values ensures x !in Defined(holds) {
      var ck :| ck in T.first && T.first[ck] == x;
    }
    forall i, j | 0 <= i < j < |holds| ensures holds[i].lhs != holds[j].lhs {
      assert T.holds[i].name != T.holds[j].name;
    }
    ConcatUnique(acts, firsts);
    ConcatUnique(acts + firsts, holds);
    forall x | x in Defined(holds) ensures x in NamesOf(T) {
      var j :| 0 <= j < |holds| && holds[j].lhs == x;
      assert T.holds[j].name == x;
    }
  }

  // ---------------------------------------------------------------- the pass

  lemma MentionedNames(eqs: seq<Equation>, i: nat)
    requires i < |eqs|
    ensures Names(eqs[i].rhs) <= Mentioned(eqs)
  {
  }

  /** The clock of every equation samples on declared variables. */
  lemma ClocksScoped(node: Node, vc: ClockMap, i: nat)
    requires Scoped(node) && ConditionsMentioned(node.equations, vc) && i < |node.equations|
    ensures Names(node.equations[i].rhs) + Conditions(EquationClock(node.equations[i], vc)) <= DeclaredTypes(node).Keys
  {
    MentionedNames(node.equations, i);
    NaturalConditions(node.equations[i].rhs, vc, Mentioned(node.equations));
  }

  /** The node's locals with a Boolean for each flag and, for each hold, a local
      of its operand's type, and nothing else. */
  ghost predicate LocalsTyped(node: Node, locals: map<string, Type>, T: Tables) {
    && (forall x | x in node.locals :: x in locals && locals[x] == node.locals[x])
    && (forall x | x in T.act.Values + T.first.Values :: x in locals && locals[x] == BoolType)
    && (forall j | 0 <= j < |T.holds| :: HoldTyped(T.holds[j], locals, DeclaredTypes(node)))
    && locals.Keys <= node.locals.Keys + NamesOf(T)
  }

  predicate HoldTyped(h: Hold, locals: map<string, Type>, types: map<string, Type>) {
    var ty := OperandType(h.operand, types);
    ty.Some? && h.name in locals && locals[h.name] == ty.value
  }

  /** The types of the operands held are evident. */
  predicate HoldsEvident(holds: seq<Hold>, types: map<string, Type>) {
    forall j | 0 <= j < |holds| :: OperandType(holds[j].operand, types).Some?
  }

  /** `out` is the node's base-clock program under the tables `T`. */
  ghost predicate DeclockedNode(node: Node, vc: ClockMap, out: Node, T: Tables, functions: set<string>) {
    && out.inputs == node.inputs && out.outputs == node.outputs && LocalsTyped(node, out.locals, T)
    && TablesOk(T, functions, DeclaredTypes(node).Keys)
    && Declocked(ClockedEquations(node, vc), out.equations, T, functions)
    && (UniqueDefinitions(node.equations) && Defined(node.equations) <= DeclaredTypes(node).Keys ==>
          UniqueDefinitions(out.equations))
  }

  lemma ImageAccounted(sys: seq<Clocked>, images: seq<Equation>, T: Tables, functions: set<string>, i: nat)
    requires Closed(T, functions) && Images(sys, images, T, functions) && i < |images|
    ensures Accounted(sys, images[i], T, functions)
  {
    ImageAt(sys, images, T, functions, i);
  }

  lemma AccountedMore(sys: seq<Clocked>, r: Equation, T: Tables, functions: set<string>)
    requires Closed(T, functions) && Accounted([], r, T, functions)
    ensures Accounted(sys, r, T, functions)
  {
  }

  lemma ImagesDefine(node: Node, vc: ClockMap, images: seq<Equation>, T: Tables, functions: set<string>)
    requires |images| == |node.equations| && Images(ClockedEquations(node, vc), images, T, functions)
    ensures Defined(images) == Defined(node.equations)
    ensures UniqueDefinitions(node.equations) ==> UniqueDefinitions(images)
  {
    forall i | 0 <= i < |images| ensures images[i].lhs == node.equations[i].lhs {
      ImageAt(ClockedEquations(node, vc), images, T, functions, i);
    }
    forall i | 0 <= i < |images| ensures images[i].lhs in Defined(node.equations) {}
    forall i | 0 <= i < |images| ensures node.equations[i].lhs in Defined(images) {}
  }

  lemma AllImages(sys: seq<Clocked>, prelude: seq<Equation>, images: seq<Equation>, T: Tables, functions: set<string>)
    requires Closed(T, functions)
    requires |images| == |sys| && Images(sys, images, T, functions)
    ensures forall i | 0 <= i < |sys| :: HasImage(sys[i], prelude + images, T, functions)
  {
    hide EquationRewrites, Images;
    forall i | 0 <= i < |sys| ensures HasImage(sys[i], prelude + images, T, functions) {
      assert (prelude + images)[|prelude| + i] == images[i];
      ImageAt(sys, images, T, functions, i);
    }
  }

  lemma AllAccounted(sys: seq<Clocked>, prelude: seq<Equation>, images: seq<Equation>, T: Tables, functions: set<string>)
    requires Closed(T, functions)
    requires |images| == |sys| && Images(sys, images, T, functions)
    requires forall k | 0 <= k < |prelude| :: Accounted([], prelude[k], T, functions)
    ensures forall k | 0 <= k < |prelude + images| :: Accounted(sys, (prelude + images)[k], T, functions)
  {
    hide Accounted, Images;
    var out := prelude + images;
    forall k | 0 <= k < |out| ensures Accounted(sys, out[k], T, functions) {
      if k < |prelude| {
        AccountedMore(sys, prelude[k], T, functions);
      } else {
        ImageAccounted(sys, images, T, functions, k - |prelude|);
      }
    }
  }

  lemma Assemble(node: Node, vc: ClockMap, prelude: seq<Equation>, images: seq<Equation>, T: Tables, functions: set<string>)
    requires TablesOk(T, functions, DeclaredTypes(node).Keys) && Prelude(T, functions, prelude)
    requires |images| == |node.equations| && Images(ClockedEquations(node, vc), images, T, functions)
    ensures Declocked(ClockedEquations(node, vc), prelude + images, T, functions)
    ensures UniqueDefinitions(node.equations) && Defined(node.equations) <= DeclaredTypes(node).Keys ==>
              UniqueDefinitions(prelude + images)
  {
    hide Images, Accounted, HasImage;
    var sys := ClockedEquations(node, vc);
    AllImages(sys, prelude, images, T, functions);
    AllAccounted(sys, prelude, images, T, functions);
    ImagesDefine(node, vc, images, T, functions);
    ConcatUnique(prelude, images);
  }

  ghost predicate AllSupported(node: Node, vc: ClockMap, n: nat)
    requires n <= |node.equations|
  {
    forall i | 0 <= i < n :: NextSupported(node, vc, i)
  }

  ghost predicate NextSupported(node: Node, vc: ClockMap, i: nat)
    requires i < |node.equations|
  {
    EquationSupported(node.equations[i], EquationClock(node.equations[i], vc), DeclaredTypes(node))
  }

  lemma DefaultAgrees(node: Node, x: string)
    ensures x in DeclaredTypes(node) ==> DeclaredTypes(node)[x] == VarType(node, x)
  {
  }

  lemma ImageOf(node: Node, vc: ClockMap, i: nat, r: Equation, T: Tables, functions: set<string>)
    requires i < |node.equations|
    requires
      var eq := node.equations[i];
      var ck := EquationClock(eq, vc);
      && (eq.lhs in DeclaredTypes(node) ==>
            EquationRewrites(Clocked(eq, ck, Default(DeclaredTypes(node)[eq.lhs])), r, T, functions))
      && (ck.Base? || eq.lhs in DeclaredTypes(node))
      && (ck.Base? ==> EquationRewrites(Clocked(eq, ck, Undef), r, T, functions))
    ensures EquationRewrites(ClockedEquations(node, vc)[i], r, T, functions)
  {
    DefaultAgrees(node, node.equations[i].lhs);
  }

  /** One more image, or none if the next equation is not supported. */
  method RewriteNext(node: Node, vc: ClockMap, cx: Rewriter, images: seq<Equation>) returns (longer: Option<seq<Equation>>)
    requires Scoped(node) && ConditionsMentioned(node.equations, vc) && |images| < |node.equations|
    requires cx.Valid() && cx.types == DeclaredTypes(node) && cx.vars == DeclaredTypes(node).Keys
    requires Images(ClockedEquations(node, vc), images, cx.tables, cx.functions)
    modifies cx
    ensures cx.Valid()
    ensures longer.Some? <==> NextSupported(node, vc, |images|)
    ensures longer.Some? ==> |longer.value| == |images| + 1
    ensures longer.Some? ==> Images(ClockedEquations(node, vc), longer.value, cx.tables, cx.functions)
  {
    ghost var T1 := cx.tables;
    var i := |images|;
    ClocksScoped(node, vc, i);
    var image := cx.RewriteEquation(node.equations[i], EquationClock(node.equations[i], vc));
    if image.None? { return None; }
    ImageOf(node, vc, i, image.value, cx.tables, cx.functions);
    ImagesAppended(ClockedEquations(node, vc), images, image.value, T1, cx.tables, cx.functions);
    longer := Some(images + [image.value]);
  }

  /** The images of all the equations, in declaration order. */
  method RewriteEquations(node: Node, vc: ClockMap, cx: Rewriter) returns (images: Option<seq<Equation>>)
    requires Scoped(node) && ConditionsMentioned(node.equations, vc)
    requires cx.Valid() && cx.types == DeclaredTypes(node) && cx.vars == DeclaredTypes(node).Keys
    modifies cx
    ensures cx.Valid()
    ensures images.Some? <==> AllSupported(node, vc, |node.equations|)
    ensures images.Some? ==> |images.value| == |node.equations|
    ensures images.Some? ==> Images(ClockedEquations(node, vc), images.value, cx.tables, cx.functions)
  {
    images := Some([]);
    var i := 0;
    while i < |node.equations|
      invariant cx.Valid() && i <= |node.equations|
      invariant images.Some? && |images.value| == i
      invariant Images(ClockedEquations(node, vc), images.value, cx.tables, cx.functions)
      invariant AllSupported(node, vc, i)
    {
      images := RewriteNext(node, vc, cx, images.value);
      if images.None? { return; }
      i := i + 1;
    }
  }

  /** The declared types of the hold locals. */
  function HoldLocals(holds: seq<Hold>, types: map<string, Type>): map<string, Type> {
    if holds == [] then map[] else
    var h := holds[|holds|-1];
    var rest := HoldLocals(holds[..|holds|-1], types);
    var ty := OperandType(h.operand, types);
    if ty.Some? then rest[h.name := ty.value] else rest
  }

  lemma {:induction false} HoldLocalsAt(holds: seq<Hold>, types: map<string, Type>)
    requires HoldsEvident(holds, types) && forall i, j | 0 <= i < j < |holds| :: holds[i].name != holds[j].name
    ensures forall j | 0 <= j < |holds| :: HoldTyped(holds[j], HoldLocals(holds, types), types)
    ensures forall x | x in HoldLocals(holds, types) :: exists j :: 0 <= j < |holds| && holds[j].name == x
  {
    hide OperandType;
    if holds != [] {
      var rest := holds[..|holds|-1];
      HoldLocalsAt(rest, types);
      forall x | x in HoldLocals(holds, types) ensures exists j :: 0 <= j < |holds| && holds[j].name == x {
        if x in HoldLocals(rest, types) {
          var j :| 0 <= j < |rest| && rest[j].name == x;
          assert holds[j].name == x;
        } else {
          assert holds[|holds|-1].name == x;
        }
      }
    }
  }

  lemma LocalsComplete(node: Node, flags: map<string, Type>, T: Tables)
    requires DistinctNames(T) && NamesOf(T) !! DeclaredTypes(node).Keys && HoldsEvident(T.holds, DeclaredTypes(node))
    requires flags.Keys == T.act.Values + T.first.Values && forall x | x in flags :: flags[x] == BoolType
    ensures LocalsTyped(node, node.locals + flags + HoldLocals(T.holds, DeclaredTypes(node)), T)
  {
    hide OperandType, HoldTyped, DistinctNames, NamesOf, HoldLocals;
    var types := DeclaredTypes(node);
    var holds := HoldLocals(T.holds, types);
    var all := node.locals + flags + holds;
    HoldLocalsRight(T, types);
    FlagsNamed(T);
    assert forall x | x in node.locals :: x in types;
    forall j | 0 <= j < |T.holds| ensures HoldTyped(T.holds[j], all, types) {
      TypedInMore(T.holds[j], holds, all, types);
    }
  }

  lemma TypedInMore(h: Hold, locals: map<string, Type>, more: map<string, Type>, types: map<string, Type>)
    requires HoldTyped(h, locals, types) && forall x | x in locals :: x in more && more[x] == locals[x]
    ensures HoldTyped(h, more, types)
  {
    hide OperandType;
  }

  lemma FlagsNamed(T: Tables)
    ensures T.act.Values + T.first.Values <= NamesOf(T)
  {
  }

  lemma HoldLocalsRight(T: Tables, types: map<string, Type>)
    requires DistinctNames(T) && HoldsEvident(T.holds, types)
    ensures forall j | 0 <= j < |T.holds| :: HoldTyped(T.holds[j], HoldLocals(T.holds, types), types)
    ensures forall x | x in HoldLocals(T.holds, types) :: x in NamesOf(T) && x !in T.act.Values && x !in T.first.Values
  {
    hide HoldLocals, HoldTyped;
    HoldLocalsAt(T.holds, types);
    forall x | x in HoldLocals(T.holds, types) ensures x in NamesOf(T) && x !in T.act.Values && x !in T.first.Values {
      var j :| 0 <= j < |T.holds| && T.holds[j].name == x;
      HoldIsNew(T, j);
    }
  }

  /** No hold has the name of a flag. */
  lemma HoldIsNew(T: Tables, j: nat)
    requires DistinctNames(T) && j < |T.holds|
    ensures T.holds[j].name !in T.act.Values && T.holds[j].name !in T.first.Values
  {
  }

  /** One node rewritten onto the base clock. A node without `when` or `merge`
      is returned as it is; a clock error, an operand whose type is not evident,
      or a clocked equation of an undeclared variable makes it fail. */
  method DeclockNode(node: Node, functions: set<string>, outputs: string -> Type)
      returns (r: Option<Node>, info: ClockInfo, ghost T: Tables)
    requires Scoped(node)
    ensures !UsesClocks(node) ==> r == Some(node)
    ensures UsesClocks(node) ==> info.varClocks == Inferred(node)
    ensures UsesClocks(node) ==>
      (r.Some? <==>
        && AllSupported(node, info.varClocks, |node.equations|)
        && forall i | 0 <= i < |node.equations| :: EquationErrors(node.equations[i], info.varClocks) == [])
    ensures UsesClocks(node) && r.Some? ==> DeclockedNode(node, info.varClocks, r.value, T, functions) && T.outputs == outputs
  {
    hide LocalsTyped, Declocked, UsesClocks, Images, DistinctNames, NamesOf, Prelude, Closed, HoldLocals;
    T := Tables(map[], map[], [], outputs);
    info := ClockInfo(map[], [], [], []);
    if !UsesClocks(node) { return Some(node), info, T; }
    info := InferClocks(node);
    if info.errors != [] { return None, info, T; }
    var cx := new Rewriter(DeclaredTypes(node), functions, outputs);
    var images := RewriteEquations(node, info.varClocks, cx);
    if images.None? { return None, info, T; }
    T := cx.tables;
    var prelude := EmitPrelude(cx.tables, functions);
    Assemble(node, info.varClocks, prelude, images.value, T, functions);
    var flags := map x | x in cx.tables.act.Values + cx.tables.first.Values :: BoolType;
    var holds := HoldLocals(cx.tables.holds, DeclaredTypes(node));
    LocalsComplete(node, flags, cx.tables);
    r := Some(Node(node.inputs, node.outputs, node.locals + flags + holds, prelude + images.value));
  }
}
