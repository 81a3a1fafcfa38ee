/** Moving nested calls to equations of their own, where C steps their instances
    and where their checks are passed up: values and memories stay the same. */
module RteHoist {
  import opened Options
  import opened FreshNames
  import opened CIntegers
  import opened Rte
  import opened RteSound
  import opened RteNode

  /** An operand of a `pre` before and after, with the clocks it is remembered under. */
  datatype Remembered = Remembered(operand: Expr, hoisted: Expr, clocks: seq<Expr>)

  /** The expression left, the equations of the calls taken out of it, and the
      operands it remembers. */
  datatype Hoisted = Hoisted(e: Expr, eqs: seq<Equation>, pres: seq<Remembered>)

  datatype HoistedAll = HoistedAll(es: seq<Expr>, eqs: seq<Equation>, pres: seq<Remembered>)

  function Conjunction(clocks: seq<Expr>): Expr
    requires clocks != []
  {
    if |clocks| == 1 then clocks[0] else Logic(And, Conjunction(clocks[..|clocks|-1]), clocks[|clocks|-1])
  }

  function DefaultOf(t: Ty): Expr {
    if t.BoolTy? then Bool(false) else Lit(0)
  }

  /** A call under a clock stays under it. */
  function UnderClocks(env: Env, clocks: seq<Expr>, site: nat, f: string, args: seq<Expr>): (r: Expr)
    requires Callable(env, f, |args|)
    ensures (r.Call? || r.Condact?) && r.f == f
  {
    if clocks == [] then Call(site, f, args)
    else Condact(Conjunction(clocks), site, f, args, DefaultOf(env.callees[f].result))
  }

  function Bind(h: HoistedAll, call: Expr, name: string): Hoisted {
    Hoisted(Var(name), h.eqs + [Equation(name, call)], h.pres)
  }

  function BranchClocks(cond: Expr, clocks: seq<Expr>): seq<Expr> {
    if IsClock(cond) then clocks + [cond] else clocks
  }

  function Join(a: Hoisted, b: Hoisted, e: Expr): Hoisted {
    Hoisted(e, a.eqs + b.eqs, a.pres + b.pres)
  }

  /** Takes the calls out of `e`; the i-th call taken out gets the name `names(i)`,
      counting from `k`. A call at the top of its equation stays. */
  function Hoist(env: Env, e: Expr, top: bool, clocks: seq<Expr>, names: nat -> string, k: nat): Hoisted
    decreases e, 1
  {
    match e
    case Lit(_) => Hoisted(e, [], [])
    case Bool(_) => Hoisted(e, [], [])
    case Var(_) => Hoisted(e, [], [])
    case Neg(a) =>
      var x := Hoist(env, a, false, clocks, names, k);
      x.(e := Neg(x.e))
    case Not(a) =>
      var x := Hoist(env, a, false, clocks, names, k);
      x.(e := Not(x.e))
    case Arith(op, a, b) =>
      var x := Hoist(env, a, false, clocks, names, k);
      var y := Hoist(env, b, false, clocks, names, k + |x.eqs|);
      Join(x, y, Arith(op, x.e, y.e))
    case Compare(op, a, b) =>
      var x := Hoist(env, a, false, clocks, names, k);
      var y := Hoist(env, b, false, clocks, names, k + |x.eqs|);
      Join(x, y, Compare(op, x.e, y.e))
    case Logic(op, a, b) =>
      var x := Hoist(env, a, false, clocks, names, k);
      var y := Hoist(env, b, false, clocks, names, k + |x.eqs|);
      Join(x, y, Logic(op, x.e, y.e))
    case If(c, a, b) =>
      var x := Hoist(env, c, false, clocks, names, k);
      var y := Hoist(env, a, false, BranchClocks(x.e, clocks), names, k + |x.eqs|);
      var z := Hoist(env, b, false, clocks, names, k + |x.eqs| + |y.eqs|);
      Join(Join(x, y, x.e), z, If(x.e, y.e, z.e))
    case Arrow(a, b) =>
      var x := Hoist(env, a, false, clocks, names, k);
      var y := Hoist(env, b, false, clocks, names, k + |x.eqs|);
      Join(x, y, Arrow(x.e, y.e))
    case Pre(a) =>
      var x := Hoist(env, a, false, clocks, names, k);
      Hoisted(Pre(x.e), x.eqs, [Remembered(a, x.e, clocks)] + x.pres)
    case Index(x, i) =>
      var y := Hoist(env, i, false, clocks, names, k);
      y.(e := Index(x, y.e))
    case Cast(to, a) =>
      var x := Hoist(env, a, false, clocks, names, k);
      x.(e := Cast(to, x.e))
    case Call(site, f, args) =>
      var h := HoistAll(env, args, clocks, names, k);
      if top || !Callable(env, f, |args|) then Hoisted(Call(site, f, h.es), h.eqs, h.pres)
      else Bind(h, UnderClocks(env, clocks, site, f, h.es), names(k + |h.eqs|))
    case Condact(act, site, f, args, d) =>
      var x := Hoist(env, act, false, clocks, names, k);
      var h := HoistAll(env, args, clocks + [x.e], names, k + |x.eqs|);
      var y := Hoist(env, d, false, clocks, names, k + |x.eqs| + |h.eqs|);
      var all := HoistedAll(h.es, x.eqs + h.eqs + y.eqs, x.pres + h.pres + y.pres);
      var call := Condact(x.e, site, f, h.es, y.e);
      if top || !Callable(env, f, |args|) then Hoisted(call, all.eqs, all.pres) else Bind(all, call, names(k + |all.eqs|))
  }

  function HoistAll(env: Env, args: seq<Expr>, clocks: seq<Expr>, names: nat -> string, k: nat): (h: HoistedAll)
    ensures |h.es| == |args|
    decreases args, 0
  {
    if args == [] then HoistedAll([], [], []) else
    var h := HoistAll(env, args[..|args|-1], clocks, names, k);
    var x := Hoist(env, args[|args|-1], false, clocks, names, k + |h.eqs|);
    HoistedAll(h.es + [x.e], h.eqs + x.eqs, h.pres + x.pres)
  }

  // ---------------------------------------------------------------- no call is left inside

  /** No call of a node of the project. */
  predicate CallFree(env: Env, e: Expr) {
    match e
    case Lit(_) => true
    case Bool(_) => true
    case Var(_) => true
    case Neg(a) => CallFree(env, a)
    case Not(a) => CallFree(env, a)
    case Arith(_, a, b) => CallFree(env, a) && CallFree(env, b)
    case Compare(_, a, b) => CallFree(env, a) && CallFree(env, b)
    case Logic(_, a, b) => CallFree(env, a) && CallFree(env, b)
    case If(c, a, b) => CallFree(env, c) && CallFree(env, a) && CallFree(env, b)
    case Arrow(a, b) => CallFree(env, a) && CallFree(env, b)
    case Pre(a) => CallFree(env, a)
    case Index(_, i) => CallFree(env, i)
    case Cast(_, a) => CallFree(env, a)
    case Call(_, f, args) => !Callable(env, f, |args|) && CallFreeArguments(env, args)
    case Condact(act, _, f, args, d) =>
      !Callable(env, f, |args|) && CallFree(env, act) && CallFreeArguments(env, args) && CallFree(env, d)
  }

  predicate CallFreeArguments(env: Env, args: seq<Expr>) {
    forall i | 0 <= i < |args| :: CallFree(env, args[i])
  }

  /** A call stands at the top of its equation, if anywhere. */
  predicate TopCall(env: Env, e: Expr) {
    match e
    case Call(_, _, args) => CallFreeArguments(env, args)
    case Condact(act, _, _, args, d) => CallFree(env, act) && CallFreeArguments(env, args) && CallFree(env, d)
    case _ => CallFree(env, e)
  }

  predicate Flat(env: Env, e: Expr, top: bool) {
    if top then TopCall(env, e) else CallFree(env, e)
  }

  predicate TopCalls(env: Env, eqs: seq<Equation>) {
    forall i | 0 <= i < |eqs| :: eqs[i].Equation? && TopCall(env, eqs[i].rhs)
  }

  lemma {:induction false} ConjunctionCallFree(env: Env, clocks: seq<Expr>)
    requires clocks != [] && CallFreeArguments(env, clocks)
    ensures CallFree(env, Conjunction(clocks))
  {
    if |clocks| > 1 { ConjunctionCallFree(env, clocks[..|clocks|-1]); }
  }

  /** What is left has no call inside, nor have the new equations. */
  lemma {:induction false} HoistFlattens(env: Env, e: Expr, top: bool, clocks: seq<Expr>, names: nat -> string, k: nat)
    requires CallFreeArguments(env, clocks)
    ensures
      var h := Hoist(env, e, top, clocks, names, k);
      TopCalls(env, h.eqs) && Flat(env, h.e, top)
    decreases e, 2
  {
    hide TopCalls, CallFreeArguments, HoistAll, Conjunction, UnderClocks, BranchClocks, Callable, Bind;
    NoCalls(env);
    if e.If? {
      IfFlattens(env, e, clocks, names, k);
    } else if e.Call? {
      CallFlattens(env, e, top, clocks, names, k);
    } else if e.Condact? {
      CondactFlattens(env, e, top, clocks, names, k);
    } else {
      if IsPair(e) { OperatorFlattens(env, e, top, clocks, names, k); } else { UnaryFlattens(env, e, top, clocks, names, k); }
      FreeIsTop(env, Hoist(env, e, top, clocks, names, k).e);
    }
  }

  lemma FreeIsTop(env: Env, e: Expr)
    requires CallFree(env, e) && !e.Call? && !e.Condact?
    ensures TopCall(env, e)
  {
  }

  /** The operators and the choice between two operands that are hoisted in turn. */
  predicate IsPair(e: Expr) {
    e.Arith? || e.Compare? || e.Logic? || e.Arrow?
  }

  lemma {:induction false} OperatorFlattens(env: Env, e: Expr, top: bool, clocks: seq<Expr>, names: nat -> string, k: nat)
    requires CallFreeArguments(env, clocks) && IsPair(e)
    ensures var h := Hoist(env, e, top, clocks, names, k); TopCalls(env, h.eqs) && CallFree(env, h.e) && !h.e.Call? && !h.e.Condact?
    decreases e, 1
  {
    hide TopCalls, CallFreeArguments, Hoist, CallFree;
    PairShape(env, e, top, clocks, names, k);
    PairFlattens(env, e, Left(e), Right(e), clocks, names, k);
  }

  function Left(e: Expr): Expr
    requires IsPair(e)
  {
    if e.Arrow? then e.init else e.lhs
  }

  function Right(e: Expr): Expr
    requires IsPair(e)
  {
    if e.Arrow? then e.body else e.rhs
  }

  lemma PairShape(env: Env, e: Expr, top: bool, clocks: seq<Expr>, names: nat -> string, k: nat)
    requires IsPair(e)
    ensures
      var h, x := Hoist(env, e, top, clocks, names, k), Hoist(env, Left(e), false, clocks, names, k);
      var y := Hoist(env, Right(e), false, clocks, names, k + |x.eqs|);
      && h.eqs == x.eqs + y.eqs && h.pres == x.pres + y.pres && IsPair(h.e)
      && (CallFree(env, x.e) && CallFree(env, y.e) ==> CallFree(env, h.e))
      && forall s: State | Math(x.e, s) == Math(Left(e), s) && Math(y.e, s) == Math(Right(e), s) :: Math(h.e, s) == Math(e, s)
  {
    hide Wrap;
  }

  lemma {:induction false} UnaryFlattens(env: Env, e: Expr, top: bool, clocks: seq<Expr>, names: nat -> string, k: nat)
    requires CallFreeArguments(env, clocks) && !IsPair(e) && !e.If? && !e.Call? && !e.Condact?
    ensures var h := Hoist(env, e, top, clocks, names, k); TopCalls(env, h.eqs) && CallFree(env, h.e) && !h.e.Call? && !h.e.Condact?
    decreases e, 1
  {
    hide TopCalls, CallFreeArguments, HoistAll;
    NoCalls(env);
    match e
    case Lit(_) =>
    case Bool(_) =>
    case Var(_) =>
    case Neg(a) => HoistFlattens(env, a, false, clocks, names, k);
    case Not(a) => HoistFlattens(env, a, false, clocks, names, k);
    case Pre(a) => HoistFlattens(env, a, false, clocks, names, k);
    case Index(_, i) => HoistFlattens(env, i, false, clocks, names, k);
    case Cast(_, a) => HoistFlattens(env, a, false, clocks, names, k);
  }

  lemma NoCalls(env: Env)
    ensures TopCalls(env, [])
  {
  }

  lemma TopCallsJoin(env: Env, a: seq<Equation>, b: seq<Equation>)
    requires TopCalls(env, a) && TopCalls(env, b)
    ensures TopCalls(env, a + b)
  {
    hide TopCall;
  }

  lemma TopCallsMore(env: Env, a: seq<Equation>, x: string, call: Expr)
    requires TopCalls(env, a) && TopCall(env, call)
    ensures TopCalls(env, a + [Equation(x, call)])
  {
    hide TopCall;
  }

  lemma CallFreeCons(env: Env, e: Expr, rest: seq<Expr>)
    requires CallFree(env, e) && CallFreeArguments(env, rest)
    ensures CallFreeArguments(env, [e] + rest) && CallFreeArguments(env, rest + [e])
  {
    hide CallFree;
  }

  /** What hoisting makes of an `if`. */
  lemma IfShape(env: Env, e: Expr, top: bool, clocks: seq<Expr>, names: nat -> string, k: nat)
    requires e.If?
    ensures
      var x := Hoist(env, e.cond, false, clocks, names, k);
      var y := Hoist(env, e.thn, false, BranchClocks(x.e, clocks), names, k + |x.eqs|);
      var z := Hoist(env, e.els, false, clocks, names, k + |x.eqs| + |y.eqs|);
      Hoist(env, e, top, clocks, names, k) == Hoisted(If(x.e, y.e, z.e), x.eqs + y.eqs + z.eqs, x.pres + y.pres + z.pres)
  {
  }

  /** A conditional activation with its parts hoisted. */
  function CondactParts(env: Env, e: Expr, clocks: seq<Expr>, names: nat -> string, k: nat): Hoisted
    requires e.Condact?
  {
    var x := Hoist(env, e.act, false, clocks, names, k);
    var h := HoistAll(env, e.args, clocks + [x.e], names, k + |x.eqs|);
    var y := Hoist(env, e.default, false, clocks, names, k + |x.eqs| + |h.eqs|);
    Hoisted(Condact(x.e, e.site, e.f, h.es, y.e), x.eqs + h.eqs + y.eqs, x.pres + h.pres + y.pres)
  }

  lemma CondactShape(env: Env, e: Expr, top: bool, clocks: seq<Expr>, names: nat -> string, k: nat)
    requires e.Condact?
    ensures
      var h := CondactParts(env, e, clocks, names, k);
      Hoist(env, e, top, clocks, names, k) ==
        if top || !Callable(env, e.f, |e.args|) then h
        else Hoisted(Var(names(k + |h.eqs|)), h.eqs + [Equation(names(k + |h.eqs|), h.e)], h.pres)
  {
    hide HoistAll, UnderClocks, Callable;
  }

  lemma BranchCallFree(env: Env, c: Expr, clocks: seq<Expr>)
    requires CallFree(env, c) && CallFreeArguments(env, clocks)
    ensures CallFreeArguments(env, BranchClocks(c, clocks))
  {
    CallFreeCons(env, c, clocks);
  }

  lemma IfCallFree(env: Env, c: Expr, a: Expr, b: Expr)
    requires CallFree(env, c) && CallFree(env, a) && CallFree(env, b)
    ensures CallFree(env, If(c, a, b))
  {
  }

  lemma CondactCallFree(env: Env, act: Expr, site: nat, f: string, args: seq<Expr>, d: Expr)
    requires CallFree(env, act) && CallFreeArguments(env, args) && CallFree(env, d)
    ensures TopCall(env, Condact(act, site, f, args, d))
    ensures !Callable(env, f, |args|) ==> CallFree(env, Condact(act, site, f, args, d))
  {
  }

  lemma VarCallFree(env: Env, x: string)
    ensures CallFree(env, Var(x))
  {
  }

  lemma {:induction false} IfFlattens(env: Env, e: Expr, clocks: seq<Expr>, names: nat -> string, k: nat)
    requires e.If? && CallFreeArguments(env, clocks)
    ensures var h := Hoist(env, e, false, clocks, names, k); TopCalls(env, h.eqs) && Flat(env, h.e, false)
    decreases e, 0
  {
    hide TopCalls, CallFreeArguments, Hoist, CallFree, BranchClocks, TopCall;
    IfShape(env, e, false, clocks, names, k);
    var x := Hoist(env, e.cond, false, clocks, names, k);
    var inner := BranchClocks(x.e, clocks);
    var y := Hoist(env, e.thn, false, inner, names, k + |x.eqs|);
    var z := Hoist(env, e.els, false, clocks, names, k + |x.eqs| + |y.eqs|);
    HoistFlattens(env, e.cond, false, clocks, names, k);
    BranchCallFree(env, x.e, clocks);
    HoistFlattens(env, e.thn, false, inner, names, k + |x.eqs|);
    HoistFlattens(env, e.els, false, clocks, names, k + |x.eqs| + |y.eqs|);
    TopCallsJoin(env, x.eqs, y.eqs);
    TopCallsJoin(env, x.eqs + y.eqs, z.eqs);
    IfCallFree(env, x.e, y.e, z.e);
  }

  lemma {:induction false} CallFlattens(env: Env, e: Expr, top: bool, clocks: seq<Expr>, names: nat -> string, k: nat)
    requires e.Call? && CallFreeArguments(env, clocks)
    ensures var h := Hoist(env, e, top, clocks, names, k);
      TopCalls(env, h.eqs) && Flat(env, h.e, top)
    decreases e, 0
  {
    hide TopCalls, CallFreeArguments;
    var h := HoistAll(env, e.args, clocks, names, k);
    ArgumentsFlatten(env, e.args, clocks, names, k);
    if !(top || !Callable(env, e.f, |e.args|)) {
      if clocks != [] { ConjunctionCallFree(env, clocks); }
      TopCallsMore(env, h.eqs, names(k + |h.eqs|), UnderClocks(env, clocks, e.site, e.f, h.es));
    }
  }

  lemma {:induction false} CondactFlattens(env: Env, e: Expr, top: bool, clocks: seq<Expr>, names: nat -> string, k: nat)
    requires e.Condact? && CallFreeArguments(env, clocks)
    ensures var h := Hoist(env, e, top, clocks, names, k);
      TopCalls(env, h.eqs) && Flat(env, h.e, top)
    decreases e, 0
  {
    hide TopCalls, CallFreeArguments, Hoist, HoistAll, CallFree, TopCall;
    CondactShape(env, e, top, clocks, names, k);
    var x := Hoist(env, e.act, false, clocks, names, k);
    var h := HoistAll(env, e.args, clocks + [x.e], names, k + |x.eqs|);
    var y := Hoist(env, e.default, false, clocks, names, k + |x.eqs| + |h.eqs|);
    HoistFlattens(env, e.act, false, clocks, names, k);
    CallFreeCons(env, x.e, clocks);
    ArgumentsFlatten(env, e.args, clocks + [x.e], names, k + |x.eqs|);
    HoistFlattens(env, e.default, false, clocks, names, k + |x.eqs| + |h.eqs|);
    TopCallsJoin(env, x.eqs, h.eqs);
    TopCallsJoin(env, x.eqs + h.eqs, y.eqs);
    var eqs := x.eqs + h.eqs + y.eqs;
    CondactCallFree(env, x.e, e.site, e.f, h.es, y.e);
    if !(top || !Callable(env, e.f, |e.args|)) {
      VarCallFree(env, names(k + |eqs|));
      TopCallsMore(env, eqs, names(k + |eqs|), Condact(x.e, e.site, e.f, h.es, y.e));
    }
  }

  lemma {:induction false} PairFlattens(env: Env, e: Expr, a: Expr, b: Expr, clocks: seq<Expr>, names: nat -> string, k: nat)
    requires CallFreeArguments(env, clocks) && a < e && b < e
    ensures
      var x := Hoist(env, a, false, clocks, names, k);
      var y := Hoist(env, b, false, clocks, names, k + |x.eqs|);
      CallFree(env, x.e) && CallFree(env, y.e) && TopCalls(env, x.eqs + y.eqs)
    decreases e, 0
  {
    hide TopCalls, CallFreeArguments, Hoist, CallFree;
    var x := Hoist(env, a, false, clocks, names, k);
    HoistFlattens(env, a, false, clocks, names, k);
    HoistFlattens(env, b, false, clocks, names, k + |x.eqs|);
    TopCallsJoin(env, x.eqs, Hoist(env, b, false, clocks, names, k + |x.eqs|).eqs);
  }

  lemma {:induction false} ArgumentsFlatten(env: Env, args: seq<Expr>, clocks: seq<Expr>, names: nat -> string, k: nat)
    requires CallFreeArguments(env, clocks)
    ensures var h := HoistAll(env, args, clocks, names, k); TopCalls(env, h.eqs) && CallFreeArguments(env, h.es)
    decreases args, 0
  {
    hide TopCalls, Hoist, CallFree;
    NoCalls(env);
    if args != [] {
      var n := |args| - 1;
      var h := HoistAll(env, args[..n], clocks, names, k);
      var x := Hoist(env, args[n], false, clocks, names, k + |h.eqs|);
      ArgumentsFlatten(env, args[..n], clocks, names, k);
      HoistFlattens(env, args[n], false, clocks, names, k + |h.eqs|);
      TopCallsJoin(env, h.eqs, x.eqs);
      CallFreeCons(env, x.e, h.es);
    }
  }

  // ---------------------------------------------------------------- nothing changes

  ghost predicate ClocksTick(clocks: seq<Expr>, s: State) {
    forall i | 0 <= i < |clocks| :: Math(clocks[i], s) != 0
  }

  /** The memories of the operands taken along hold what they held before. */
  ghost predicate SameMemories(pres: seq<Remembered>, s: State) {
    forall i | 0 <= i < |pres| :: s.memory(pres[i].hoisted) == s.memory(pres[i].operand)
  }

  /** And where their clocks tick they are given the same values. */
  ghost predicate SameWrites(pres: seq<Remembered>, s: State) {
    forall i | 0 <= i < |pres| :: ClocksTick(pres[i].clocks, s) ==> Math(pres[i].hoisted, s) == Math(pres[i].operand, s)
  }

  lemma {:induction false} ConjunctionTicks(clocks: seq<Expr>, s: State)
    requires clocks != []
    ensures Math(Conjunction(clocks), s) != 0 <==> ClocksTick(clocks, s)
  {
    if |clocks| > 1 {
      ConjunctionTicks(clocks[..|clocks|-1], s);
      TicksMore(clocks[..|clocks|-1], clocks[|clocks|-1], s);
      assert clocks[..|clocks|-1] + [clocks[|clocks|-1]] == clocks;
    }
  }

  lemma SolvesSplit(a: seq<Equation>, b: seq<Equation>, s: State)
    requires Solves(a + b, s)
    ensures Solves(a, s) && Solves(b, s)
  {
    forall i | 0 <= i < |a| ensures SolvesAt(a[i], s) { assert (a + b)[i] == a[i]; }
    forall i | 0 <= i < |b| ensures SolvesAt(b[i], s) { assert (a + b)[|a| + i] == b[i]; }
  }

  lemma MemoriesSplit(a: seq<Remembered>, b: seq<Remembered>, s: State)
    requires SameMemories(a + b, s)
    ensures SameMemories(a, s) && SameMemories(b, s)
  {
    forall i | 0 <= i < |a| ensures s.memory(a[i].hoisted) == s.memory(a[i].operand) { assert (a + b)[i] == a[i]; }
    forall i | 0 <= i < |b| ensures s.memory(b[i].hoisted) == s.memory(b[i].operand) { assert (a + b)[|a| + i] == b[i]; }
  }

  lemma WritesJoin(a: seq<Remembered>, b: seq<Remembered>, s: State)
    requires SameWrites(a, s) && SameWrites(b, s)
    ensures SameWrites(a + b, s)
  {
  }

  /** The equations of `h` are solved and its memories the same. */
  ghost predicate Follows(eqs: seq<Equation>, pres: seq<Remembered>, s: State) {
    Solves(eqs, s) && SameMemories(pres, s)
  }

  lemma FollowsBoth(a: Hoisted, b: Hoisted, s: State)
    requires Follows(a.eqs + b.eqs, a.pres + b.pres, s)
    ensures Follows(a.eqs, a.pres, s) && Follows(b.eqs, b.pres, s)
  {
    SolvesSplit(a.eqs, b.eqs, s);
    MemoriesSplit(a.pres, b.pres, s);
  }

  /** Hoisting keeps values: where the clocks around `e` tick, what is left of it
      has its value, and everything it remembers is written as before. */
  lemma {:induction false} HoistMeans(env: Env, e: Expr, top: bool, clocks: seq<Expr>, names: nat -> string, k: nat, s: State)
    requires var h := Hoist(env, e, top, clocks, names, k); Follows(h.eqs, h.pres, s)
    ensures var h := Hoist(env, e, top, clocks, names, k);
      (ClocksTick(clocks, s) ==> Math(h.e, s) == Math(e, s)) && SameWrites(h.pres, s)
    decreases e, 1
  {
    hide Follows, ClocksTick, SameWrites, SameMemories, Solves, HoistAll, Conjunction, UnderClocks, BranchClocks, MathAll, Callable, Bind;
    if IsPair(e) {
      PairShape(env, e, top, clocks, names, k);
      PairMeans(env, e, Left(e), Right(e), clocks, names, k, s);
    } else if e.If? {
      IfMeans(env, e, clocks, names, k, s);
    } else if e.Pre? {
      PreMeans(env, e, clocks, names, k, s);
    } else if e.Call? {
      CallMeans(env, e, top, clocks, names, k, s);
    } else if e.Condact? {
      CondactMeans(env, e, top, clocks, names, k, s);
    } else {
      UnaryMeans(env, e, top, clocks, names, k, s);
    }
  }

  lemma {:induction false} UnaryMeans(env: Env, e: Expr, top: bool, clocks: seq<Expr>, names: nat -> string, k: nat, s: State)
    requires e.Lit? || e.Bool? || e.Var? || e.Neg? || e.Not? || e.Index? || e.Cast?
    requires var h := Hoist(env, e, top, clocks, names, k); Follows(h.eqs, h.pres, s)
    ensures var h := Hoist(env, e, top, clocks, names, k);
      (ClocksTick(clocks, s) ==> Math(h.e, s) == Math(e, s)) && SameWrites(h.pres, s)
    decreases e, 0
  {
    hide Follows, ClocksTick, SameWrites, SameMemories, Solves;
    match e
    case Neg(a) => HoistMeans(env, a, false, clocks, names, k, s);
    case Not(a) => HoistMeans(env, a, false, clocks, names, k, s);
    case Index(_, i) => HoistMeans(env, i, false, clocks, names, k, s);
    case Cast(_, a) => HoistMeans(env, a, false, clocks, names, k, s);
    case _ => NothingWritten(s);
  }

  lemma NothingWritten(s: State)
    ensures SameWrites([], s)
  {
  }

  lemma {:induction false} PairMeans(env: Env, e: Expr, a: Expr, b: Expr, clocks: seq<Expr>, names: nat -> string, k: nat, s: State)
    requires a < e && b < e
    requires
      var x := Hoist(env, a, false, clocks, names, k);
      var y := Hoist(env, b, false, clocks, names, k + |x.eqs|);
      Follows(x.eqs + y.eqs, x.pres + y.pres, s)
    ensures
      var x := Hoist(env, a, false, clocks, names, k);
      var y := Hoist(env, b, false, clocks, names, k + |x.eqs|);
      && (ClocksTick(clocks, s) ==> Math(x.e, s) == Math(a, s) && Math(y.e, s) == Math(b, s))
      && SameWrites(x.pres + y.pres, s)
    decreases e, 0
  {
    hide Follows, ClocksTick, SameWrites, Hoist, Math;
    var x := Hoist(env, a, false, clocks, names, k);
    var y := Hoist(env, b, false, clocks, names, k + |x.eqs|);
    FollowsBoth(x, y, s);
    HoistMeans(env, a, false, clocks, names, k, s);
    HoistMeans(env, b, false, clocks, names, k + |x.eqs|, s);
    WritesJoin(x.pres, y.pres, s);
  }

  lemma BranchTicks(c: Expr, clocks: seq<Expr>, s: State)
    requires ClocksTick(clocks, s) && Math(c, s) != 0
    ensures ClocksTick(BranchClocks(c, clocks), s)
  {
  }

  lemma {:induction false} IfMeans(env: Env, e: Expr, clocks: seq<Expr>, names: nat -> string, k: nat, s: State)
    requires e.If?
    requires var h := Hoist(env, e, false, clocks, names, k); Follows(h.eqs, h.pres, s)
    ensures var h := Hoist(env, e, false, clocks, names, k);
      (ClocksTick(clocks, s) ==> Math(h.e, s) == Math(e, s)) && SameWrites(h.pres, s)
    decreases e, 0
  {
    hide Follows, ClocksTick, SameWrites, BranchClocks;
    var x := Hoist(env, e.cond, false, clocks, names, k);
    var inner := BranchClocks(x.e, clocks);
    var y := Hoist(env, e.thn, false, inner, names, k + |x.eqs|);
    var z := Hoist(env, e.els, false, clocks, names, k + |x.eqs| + |y.eqs|);
    FollowsBoth(Join(x, y, x.e), z, s);
    FollowsBoth(x, y, s);
    HoistMeans(env, e.cond, false, clocks, names, k, s);
    HoistMeans(env, e.thn, false, inner, names, k + |x.eqs|, s);
    HoistMeans(env, e.els, false, clocks, names, k + |x.eqs| + |y.eqs|, s);
    WritesJoin(x.pres, y.pres, s);
    WritesJoin(x.pres + y.pres, z.pres, s);
    if ClocksTick(clocks, s) && Math(x.e, s) != 0 { BranchTicks(x.e, clocks, s); }
  }

  lemma {:induction false} PreMeans(env: Env, e: Expr, clocks: seq<Expr>, names: nat -> string, k: nat, s: State)
    requires e.Pre?
    requires var h := Hoist(env, e, false, clocks, names, k); Follows(h.eqs, h.pres, s)
    ensures var h := Hoist(env, e, false, clocks, names, k);
      (ClocksTick(clocks, s) ==> Math(h.e, s) == Math(e, s)) && SameWrites(h.pres, s)
    decreases e, 0
  {
    var x := Hoist(env, e.arg, false, clocks, names, k);
    var own := Remembered(e.arg, x.e, clocks);
    MemoriesSplit([own], x.pres, s);
    HoistMeans(env, e.arg, false, clocks, names, k, s);
    assert [own][0] == own;
    WritesJoin([own], x.pres, s);
  }

  lemma {:induction false} ArgumentsMean(env: Env, args: seq<Expr>, clocks: seq<Expr>, names: nat -> string, k: nat, s: State)
    requires var h := HoistAll(env, args, clocks, names, k); Follows(h.eqs, h.pres, s)
    ensures var h := HoistAll(env, args, clocks, names, k);
      (ClocksTick(clocks, s) ==> MathAll(h.es, s) == MathAll(args, s)) && SameWrites(h.pres, s)
    decreases args, 0
  {
    hide Follows, ClocksTick, SameWrites, Hoist, Math;
    if args == [] {
      NothingWritten(s);
    } else {
      var n := |args| - 1;
      var h := HoistAll(env, args[..n], clocks, names, k);
      var x := Hoist(env, args[n], false, clocks, names, k + |h.eqs|);
      FollowsBoth(Hoisted(x.e, h.eqs, h.pres), x, s);
      ArgumentsMean(env, args[..n], clocks, names, k, s);
      HoistMeans(env, args[n], false, clocks, names, k + |h.eqs|, s);
      WritesJoin(h.pres, x.pres, s);
      MathSnoc(h.es, x.e, s);
      MathSnoc(args[..n], args[n], s);
      assert args[..n] + [args[n]] == args;
    }
  }

  lemma MathSnoc(first: seq<Expr>, e: Expr, s: State)
    ensures MathAll(first + [e], s) == MathAll(first, s) + [Math(e, s)]
  {
    hide Math;
    var all := first + [e];
    forall i | 0 <= i < |all| ensures MathAll(all, s)[i] == (MathAll(first, s) + [Math(e, s)])[i] {
      if i < |first| { assert all[i] == first[i]; }
    }
  }

  lemma LastSolved(eqs: seq<Equation>, eq: Equation, s: State)
    requires Solves(eqs + [eq], s)
    ensures Solves(eqs, s) && SolvesAt(eq, s)
  {
    SolvesSplit(eqs, [eq], s);
    assert SolvesAt([eq][0], s);
  }

  lemma {:induction false} CallMeans(env: Env, e: Expr, top: bool, clocks: seq<Expr>, names: nat -> string, k: nat, s: State)
    requires e.Call?
    requires var h := Hoist(env, e, top, clocks, names, k); Follows(h.eqs, h.pres, s)
    ensures var h := Hoist(env, e, top, clocks, names, k);
      (ClocksTick(clocks, s) ==> Math(h.e, s) == Math(e, s)) && SameWrites(h.pres, s)
    decreases e, 0
  {
    hide ClocksTick, SameWrites, SameMemories, Solves;
    var h := HoistAll(env, e.args, clocks, names, k);
    if top || !Callable(env, e.f, |e.args|) {
      ArgumentsMean(env, e.args, clocks, names, k, s);
    } else {
      var name := names(k + |h.eqs|);
      LastSolved(h.eqs, Equation(name, UnderClocks(env, clocks, e.site, e.f, h.es)), s);
      ArgumentsMean(env, e.args, clocks, names, k, s);
      if ClocksTick(clocks, s) && clocks != [] { ConjunctionTicks(clocks, s); }
    }
  }

  lemma TicksMore(clocks: seq<Expr>, c: Expr, s: State)
    ensures ClocksTick(clocks + [c], s) <==> ClocksTick(clocks, s) && Math(c, s) != 0
  {
    var all := clocks + [c];
    if ClocksTick(all, s) {
      forall i | 0 <= i < |clocks| ensures Math(clocks[i], s) != 0 { assert all[i] == clocks[i]; }
      assert Math(all[|clocks|], s) != 0;
    }
  }

  lemma {:induction false} CondactMeans(env: Env, e: Expr, top: bool, clocks: seq<Expr>, names: nat -> string, k: nat, s: State)
    requires e.Condact?
    requires var h := Hoist(env, e, top, clocks, names, k); Follows(h.eqs, h.pres, s)
    ensures var h := Hoist(env, e, top, clocks, names, k);
      (ClocksTick(clocks, s) ==> Math(h.e, s) == Math(e, s)) && SameWrites(h.pres, s)
    decreases e, 0
  {
    hide ClocksTick, SameWrites, SameMemories, Solves, Hoist, HoistAll;
    CondactShape(env, e, top, clocks, names, k);
    var x := Hoist(env, e.act, false, clocks, names, k);
    var h := HoistAll(env, e.args, clocks + [x.e], names, k + |x.eqs|);
    var y := Hoist(env, e.default, false, clocks, names, k + |x.eqs| + |h.eqs|);
    var eqs := x.eqs + h.eqs + y.eqs;
    if !(top || !Callable(env, e.f, |e.args|)) {
      LastSolved(eqs, Equation(names(k + |eqs|), Condact(x.e, e.site, e.f, h.es, y.e)), s);
    }
    FollowsBoth(Hoisted(x.e, x.eqs + h.eqs, x.pres + h.pres), y, s);
    FollowsBoth(x, Hoisted(x.e, h.eqs, h.pres), s);
    HoistMeans(env, e.act, false, clocks, names, k, s);
    ArgumentsMean(env, e.args, clocks + [x.e], names, k + |x.eqs|, s);
    HoistMeans(env, e.default, false, clocks, names, k + |x.eqs| + |h.eqs|, s);
    WritesJoin(x.pres, h.pres, s);
    WritesJoin(x.pres + h.pres, y.pres, s);
    if ClocksTick(clocks, s) && Math(x.e, s) != 0 { TicksMore(clocks, x.e, s); }
  }

  // ---------------------------------------------------------------- whole nodes

  /** The equations rewritten, those added for calls, and what is remembered. */
  datatype HoistedNode = HoistedNode(eqs: seq<Equation>, added: seq<Equation>, pres: seq<Remembered>)

  /** A call that is all of an equation stays; elements are hoisted one by one. */
  function HoistEquation(env: Env, eq: Equation, names: nat -> string, k: nat): HoistedNode {
    if eq.Equation? then
      var h := Hoist(env, eq.rhs, true, [], names, k);
      HoistedNode([Equation(eq.x, h.e)], h.eqs, h.pres)
    else
      var h := HoistAll(env, eq.items, [], names, k);
      HoistedNode([Filled(eq.x, h.es)], h.eqs, h.pres)
  }

  function HoistNode(env: Env, eqs: seq<Equation>, names: nat -> string): HoistedNode {
    if eqs == [] then HoistedNode([], [], []) else
    var p := HoistNode(env, eqs[..|eqs|-1], names);
    var h := HoistEquation(env, eqs[|eqs|-1], names, |p.added|);
    HoistedNode(p.eqs + h.eqs, p.added + h.added, p.pres + h.pres)
  }

  lemma EquationMeans(env: Env, eq: Equation, names: nat -> string, k: nat, s: State)
    requires var h := HoistEquation(env, eq, names, k); Solves(h.eqs, s) && Follows(h.added, h.pres, s)
    ensures SolvesAt(eq, s) && SameWrites(HoistEquation(env, eq, names, k).pres, s)
  {
    hide Hoist, HoistAll, Follows, SameWrites, Math;
    var h := HoistEquation(env, eq, names, k);
    assert SolvesAt(h.eqs[0], s);
    if eq.Equation? {
      HoistMeans(env, eq.rhs, true, [], names, k, s);
    } else {
      ArgumentsMean(env, eq.items, [], names, k, s);
      var es := HoistAll(env, eq.items, [], names, k).es;
      forall i | 0 <= i < |eq.items| ensures s.arrays(eq.x, i) == Math(eq.items[i], s) {
        assert MathAll(es, s)[i] == MathAll(eq.items, s)[i];
      }
    }
  }

  /** Hoisting keeps what a node means: whatever solves the rewritten and the
      added equations, with the same memories, solves the node's own, and is
      remembered as before. */
  lemma {:induction false} HoistNodeMeans(env: Env, eqs: seq<Equation>, names: nat -> string, s: State)
    requires var h := HoistNode(env, eqs, names); Solves(h.eqs + h.added, s) && SameMemories(h.pres, s)
    ensures Solves(eqs, s) && SameWrites(HoistNode(env, eqs, names).pres, s)
  {
    hide HoistEquation, SameMemories, SameWrites, Solves, SolvesAt;
    if eqs == [] {
      NothingSolved(s);
      NothingWritten(s);
    } else {
      var first, last := eqs[..|eqs|-1], eqs[|eqs|-1];
      var p := HoistNode(env, first, names);
      var h := HoistEquation(env, last, names, |p.added|);
      SolvesSplit(p.eqs + h.eqs, p.added + h.added, s);
      SolvesSplit(p.eqs, h.eqs, s);
      SolvesSplit(p.added, h.added, s);
      SolvesJoin(p.eqs, p.added, s);
      MemoriesSplit(p.pres, h.pres, s);
      HoistNodeMeans(env, first, names, s);
      EquationMeans(env, last, names, |p.added|, s);
      WritesJoin(p.pres, h.pres, s);
      SolvesOne(last, s);
      SolvesJoin(first, [last], s);
      assert first + [last] == eqs;
    }
  }

  lemma NothingSolved(s: State)
    ensures Solves([], s)
  {
  }

  lemma SolvesOne(eq: Equation, s: State)
    requires SolvesAt(eq, s)
    ensures Solves([eq], s)
  {
  }

  lemma SolvesJoin(a: seq<Equation>, b: seq<Equation>, s: State)
    requires Solves(a, s) && Solves(b, s)
    ensures Solves(a + b, s)
  {
    hide SolvesAt;
  }

  // ---------------------------------------------------------------- doing it

  ghost predicate GivesNames(g: nat -> string, names: seq<string>) {
    forall i | 0 <= i < |names| :: g(i) == names[i]
  }

  lemma GivesBefore(g: nat -> string, before: seq<string>, names: seq<string>)
    requires GivesNames(g, names) && before <= names
    ensures GivesNames(g, before)
  {
    forall i | 0 <= i < |before| ensures g(i) == before[i] { assert before[i] == names[i]; }
  }

  lemma NotAClock(name: string)
    requires exists n: nat :: name == FreshName("rtc", n)
    ensures !IsClock(Var(name))
  {
    var n: nat :| name == FreshName("rtc", n);
    assert ("__rtc" + Numeral(n))[2] == 'r' && "__ck"[2] == 'c';
    assert name == "__rtc" + Numeral(n);
  }

  /** What was left and added is what hoisting says. */
  ghost predicate Took(h: Hoisted, r: Expr, before: seq<Equation>, after: seq<Equation>) {
    r == h.e && after == before + h.eqs
  }

  /** A new local has the type of what its callee gives. */
  predicate LocalTyped(env: Env, eq: Equation, locals: map<string, Ty>) {
    && eq.Equation? && (eq.rhs.Call? || eq.rhs.Condact?)
    && eq.x in locals && eq.rhs.f in env.callees && locals[eq.x] == env.callees[eq.rhs.f].result
  }

  /** The default of a call put under its clocks is of its type, and zero. */
  lemma DefaultFits(env: Env, t: Ty, s: State)
    ensures SteadyAt(env, DefaultOf(t), t) && Math(DefaultOf(t), s) == 0
  {
  }

  class Hoister {
    const env: Env
    var taken: set<string>
    /** The types of the new locals. */
    var locals: map<string, Ty>
    var newEqs: seq<Equation>
    /** Their names, in the order of the calls taken out. */
    ghost var names: seq<string>

    ghost predicate Valid()
      reads this
    {
      && (forall i | 0 <= i < |names| :: names[i] in locals && names[i] in taken && !IsClock(Var(names[i])))
      && (forall i, j | 0 <= i < j < |names| :: names[i] != names[j])
      && (forall i | 0 <= i < |newEqs| :: newEqs[i].x in taken && LocalTyped(env, newEqs[i], locals))
    }

    constructor (env: Env, taken: set<string>)
      ensures Valid() && this.env == env && this.taken == taken && names == [] && newEqs == [] && locals == map[]
    {
      this.env := env;
      this.taken := taken;
      locals, newEqs, names := map[], [], [];
    }

    /** One name for each new equation, none of them taken before. */
    twostate predicate GoneOn()
      reads this
    {
      && Valid() && old(names) <= names && old(taken) <= taken
      && (forall x | x in names :: x in old(names) || x !in old(taken))
      && |names| - |old(names)| == |newEqs| - |old(newEqs)|
    }

    /** One call becomes an equation with a fresh local. */
    method BindCall(call: Expr, t: Ty) returns (r: Expr)
      requires Valid() && (call.Call? || call.Condact?) && call.f in env.callees && t == env.callees[call.f].result
      modifies this
      ensures GoneOn() && |names| == |old(names)| + 1
      ensures r == Var(names[|old(names)|]) && newEqs == old(newEqs) + [Equation(names[|old(names)|], call)]
    {
      var name := PickFresh("rtc", taken);
      NotAClock(name);
      taken, locals := taken + {name}, locals[name := t];
      newEqs, names := newEqs + [Equation(name, call)], names + [name];
      r := Var(name);
    }

    /** Takes the calls out of `e`. */
    method HoistExpr(e: Expr, top: bool, clocks: seq<Expr>) returns (r: Expr)
      requires Valid()
      modifies this
      ensures GoneOn()
      ensures forall g: nat -> string | GivesNames(g, names) ::
                Took(Hoist(env, e, top, clocks, g, |old(names)|), r, old(newEqs), newEqs)
      decreases e, 2
    {
      hide Hoist, HoistAll;
      if e.If? {
        r := HoistIf(e, top, clocks);
      } else if e.Call? {
        r := HoistCall(e, top, clocks);
      } else if e.Condact? {
        r := HoistCondact(e, top, clocks);
      } else if IsPair(e) {
        r := HoistPair(e, top, clocks);
      } else {
        r := HoistUnary(e, top, clocks);
      }
    }

    method HoistUnary(e: Expr, top: bool, clocks: seq<Expr>) returns (r: Expr)
      requires Valid() && !IsPair(e) && !e.If? && !e.Call? && !e.Condact?
      modifies this
      ensures GoneOn()
      ensures forall g: nat -> string | GivesNames(g, names) ::
                Took(Hoist(env, e, top, clocks, g, |old(names)|), r, old(newEqs), newEqs)
      decreases e, 0
    {
      match e
      case Lit(_) => r := e;
      case Bool(_) => r := e;
      case Var(_) => r := e;
      case Neg(a) =>
        var x := HoistExpr(a, false, clocks);
        r := Neg(x);
      case Not(a) =>
        var x := HoistExpr(a, false, clocks);
        r := Not(x);
      case Pre(a) =>
        var x := HoistExpr(a, false, clocks);
        r := Pre(x);
      case Index(base, i) =>
        var x := HoistExpr(i, false, clocks);
        r := Index(base, x);
      case Cast(to, a) =>
        var x := HoistExpr(a, false, clocks);
        r := Cast(to, x);
    }

    method HoistPair(e: Expr, top: bool, clocks: seq<Expr>) returns (r: Expr)
      requires Valid() && IsPair(e)
      modifies this
      ensures GoneOn()
      ensures forall g: nat -> string | GivesNames(g, names) ::
                Took(Hoist(env, e, top, clocks, g, |old(names)|), r, old(newEqs), newEqs)
      decreases e, 0
    {
      hide Hoist, HoistAll, GivesNames;
      var x := HoistExpr(Left(e), false, clocks);
      ghost var first := names;
      var y := HoistExpr(Right(e), false, clocks);
      r := Rebuilt(e, x, y);
      forall g: nat -> string | GivesNames(g, names)
        ensures Took(Hoist(env, e, top, clocks, g, |old(names)|), r, old(newEqs), newEqs)
      {
        GivesBefore(g, first, names);
        RebuiltShape(env, e, top, clocks, g, |old(names)|);
      }
    }

    method HoistIf(e: Expr, top: bool, clocks: seq<Expr>) returns (r: Expr)
      requires Valid() && e.If?
      modifies this
      ensures GoneOn()
      ensures forall g: nat -> string | GivesNames(g, names) ::
                Took(Hoist(env, e, top, clocks, g, |old(names)|), r, old(newEqs), newEqs)
      decreases e, 0
    {
      hide Hoist, HoistAll, GivesNames, BranchClocks;
      var x := HoistExpr(e.cond, false, clocks);
      ghost var first := names;
      var y := HoistExpr(e.thn, false, BranchClocks(x, clocks));
      ghost var second := names;
      var z := HoistExpr(e.els, false, clocks);
      r := If(x, y, z);
      forall g: nat -> string | GivesNames(g, names)
        ensures Took(Hoist(env, e, top, clocks, g, |old(names)|), r, old(newEqs), newEqs)
      {
        GivesBefore(g, first, names);
        GivesBefore(g, second, names);
        IfShape(env, e, top, clocks, g, |old(names)|);
      }
    }

    method HoistArguments(args: seq<Expr>, clocks: seq<Expr>) returns (rs: seq<Expr>)
      requires Valid()
      modifies this
      ensures GoneOn() && |rs| == |args|
      ensures forall g: nat -> string | GivesNames(g, names) ::
                TookAll(HoistAll(env, args, clocks, g, |old(names)|), rs, old(newEqs), newEqs)
      decreases args, 0
    {
      hide Hoist, HoistAll, GivesNames;
      rs := [];
      NoArguments(env, clocks);
      for i := 0 to |args|
        invariant GoneOn() && |rs| == i
        invariant forall g: nat -> string | GivesNames(g, names) ::
                    TookAll(HoistAll(env, args[..i], clocks, g, |old(names)|), rs, old(newEqs), newEqs)
      {
        ghost var before := names;
        var r := HoistExpr(args[i], false, clocks);
        rs := rs + [r];
        forall g: nat -> string | GivesNames(g, names)
          ensures TookAll(HoistAll(env, args[..i+1], clocks, g, |old(names)|), rs, old(newEqs), newEqs)
        {
          GivesBefore(g, before, names);
          ArgumentsShape(env, args, clocks, g, |old(names)|, i);
        }
      }
      assert args[..|args|] == args;
    }

    method HoistCall(e: Expr, top: bool, clocks: seq<Expr>) returns (r: Expr)
      requires Valid() && e.Call?
      modifies this
      ensures GoneOn()
      ensures forall g: nat -> string | GivesNames(g, names) ::
                Took(Hoist(env, e, top, clocks, g, |old(names)|), r, old(newEqs), newEqs)
      decreases e, 0
    {
      hide Hoist, HoistAll, GivesNames, UnderClocks;
      var rs := HoistArguments(e.args, clocks);
      ghost var before := names;
      var bound := !top && Callable(env, e.f, |e.args|);
      r := Call(e.site, e.f, rs);
      if bound { r := BindCall(UnderClocks(env, clocks, e.site, e.f, rs), env.callees[e.f].result); }
      forall g: nat -> string | GivesNames(g, names)
        ensures Took(Hoist(env, e, top, clocks, g, |old(names)|), r, old(newEqs), newEqs)
      {
        GivesBefore(g, before, names);
        if bound { GivesAt(g, names, |before|); }
        CallShape(env, e, top, clocks, g, |old(names)|);
      }
    }

    method HoistCondactParts(e: Expr, clocks: seq<Expr>) returns (r: Expr)
      requires Valid() && e.Condact?
      modifies this
      ensures GoneOn() && r.Condact? && r.site == e.site && r.f == e.f && |r.args| == |e.args|
      ensures forall g: nat -> string | GivesNames(g, names) ::
                Took(CondactParts(env, e, clocks, g, |old(names)|), r, old(newEqs), newEqs)
      decreases e, 0
    {
      hide Hoist, HoistAll, GivesNames;
      var x := HoistExpr(e.act, false, clocks);
      ghost var first := names;
      var rs := HoistArguments(e.args, clocks + [x]);
      ghost var second := names;
      var y := HoistExpr(e.default, false, clocks);
      r := Condact(x, e.site, e.f, rs, y);
      forall g: nat -> string | GivesNames(g, names)
        ensures Took(CondactParts(env, e, clocks, g, |old(names)|), r, old(newEqs), newEqs)
      {
        GivesBefore(g, first, names);
        GivesBefore(g, second, names);
      }
    }

    method HoistCondact(e: Expr, top: bool, clocks: seq<Expr>) returns (r: Expr)
      requires Valid() && e.Condact?
      modifies this
      ensures GoneOn()
      ensures forall g: nat -> string | GivesNames(g, names) ::
                Took(Hoist(env, e, top, clocks, g, |old(names)|), r, old(newEqs), newEqs)
      decreases e, 1
    {
      hide Hoist, CondactParts, GivesNames;
      r := HoistCondactParts(e, clocks);
      ghost var before := names;
      var bound := !top && Callable(env, e.f, |e.args|);
      if bound { r := BindCall(r, env.callees[e.f].result); }
      forall g: nat -> string | GivesNames(g, names)
        ensures Took(Hoist(env, e, top, clocks, g, |old(names)|), r, old(newEqs), newEqs)
      {
        GivesBefore(g, before, names);
        if bound { GivesAt(g, names, |before|); }
        CondactShape(env, e, top, clocks, g, |old(names)|);
      }
    }

    method HoistOne(eq: Equation) returns (r: Equation)
      requires Valid()
      modifies this
      ensures GoneOn()
      ensures forall g: nat -> string | GivesNames(g, names) ::
                TookNode(HoistEquation(env, eq, g, |old(names)|), [r], old(newEqs), newEqs)
    {
      hide Hoist, HoistAll, GivesNames;
      if eq.Equation? {
        var e := HoistExpr(eq.rhs, true, []);
        r := Equation(eq.x, e);
      } else {
        var es := HoistArguments(eq.items, []);
        r := Filled(eq.x, es);
      }
    }

    /** Every call of a node's equations to an equation of its own. */
    method HoistEquations(eqs: seq<Equation>) returns (rs: seq<Equation>)
      requires Valid() && names == [] && newEqs == []
      modifies this
      ensures Valid() && (forall x | x in names :: x !in old(taken))
      ensures forall g: nat -> string | GivesNames(g, names) :: TookNode(HoistNode(env, eqs, g), rs, [], newEqs)
    {
      hide HoistNode, HoistEquation, GivesNames;
      rs := [];
      NoEquations(env);
      for i := 0 to |eqs|
        invariant GoneOn()
        invariant forall g: nat -> string | GivesNames(g, names) :: TookNode(HoistNode(env, eqs[..i], g), rs, [], newEqs)
      {
        ghost var before := names;
        var r := HoistOne(eqs[i]);
        rs := rs + [r];
        forall g: nat -> string | GivesNames(g, names) ensures TookNode(HoistNode(env, eqs[..i+1], g), rs, [], newEqs) {
          GivesBefore(g, before, names);
          NodeShape(env, eqs, g, i);
        }
      }
      assert eqs[..|eqs|] == eqs;
    }
  }

  ghost predicate TookNode(h: HoistedNode, rs: seq<Equation>, before: seq<Equation>, after: seq<Equation>) {
    rs == h.eqs && after == before + h.added
  }

  lemma NodeShape(env: Env, eqs: seq<Equation>, names: nat -> string, i: nat)
    requires i < |eqs|
    ensures
      var p := HoistNode(env, eqs[..i], names);
      var h := HoistEquation(env, eqs[i], names, |p.added|);
      HoistNode(env, eqs[..i+1], names) == HoistedNode(p.eqs + h.eqs, p.added + h.added, p.pres + h.pres)
  {
    assert eqs[..i+1][..i] == eqs[..i];
  }

  lemma NoEquations(env: Env)
    ensures forall g: nat -> string :: HoistNode(env, [], g) == HoistedNode([], [], [])
  {
  }

  ghost predicate TookAll(h: HoistedAll, rs: seq<Expr>, before: seq<Equation>, after: seq<Equation>) {
    rs == h.es && after == before + h.eqs
  }

  lemma GivesAt(g: nat -> string, names: seq<string>, i: nat)
    requires GivesNames(g, names) && i < |names|
    ensures g(i) == names[i]
  {
  }

  lemma NoArguments(env: Env, clocks: seq<Expr>)
    ensures forall g: nat -> string, k: nat :: HoistAll(env, [], clocks, g, k) == HoistedAll([], [], [])
  {
  }

  lemma ArgumentsShape(env: Env, args: seq<Expr>, clocks: seq<Expr>, names: nat -> string, k: nat, i: nat)
    requires i < |args|
    ensures
      var h := HoistAll(env, args[..i], clocks, names, k);
      var x := Hoist(env, args[i], false, clocks, names, k + |h.eqs|);
      HoistAll(env, args[..i+1], clocks, names, k) == HoistedAll(h.es + [x.e], h.eqs + x.eqs, h.pres + x.pres)
  {
    assert args[..i+1][..i] == args[..i];
  }

  lemma CallShape(env: Env, e: Expr, top: bool, clocks: seq<Expr>, names: nat -> string, k: nat)
    requires e.Call?
    ensures
      var h := HoistAll(env, e.args, clocks, names, k);
      Hoist(env, e, top, clocks, names, k) ==
        if top || !Callable(env, e.f, |e.args|) then Hoisted(Call(e.site, e.f, h.es), h.eqs, h.pres)
        else Bind(h, UnderClocks(env, clocks, e.site, e.f, h.es), names(k + |h.eqs|))
  {
  }

  function Rebuilt(e: Expr, a: Expr, b: Expr): Expr
    requires IsPair(e)
  {
    match e
    case Arith(op, _, _) => Arith(op, a, b)
    case Compare(op, _, _) => Compare(op, a, b)
    case Logic(op, _, _) => Logic(op, a, b)
    case Arrow(_, _) => Arrow(a, b)
  }

  lemma RebuiltShape(env: Env, e: Expr, top: bool, clocks: seq<Expr>, names: nat -> string, k: nat)
    requires IsPair(e)
    ensures
      var h, x := Hoist(env, e, top, clocks, names, k), Hoist(env, Left(e), false, clocks, names, k);
      var y := Hoist(env, Right(e), false, clocks, names, k + |x.eqs|);
      h.e == Rebuilt(e, x.e, y.e) && h.eqs == x.eqs + y.eqs
  {
  }
}
