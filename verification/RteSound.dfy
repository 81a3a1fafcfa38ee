/** Why the runtime-error checks are enough: where they all hold, C's promoted
    fixed-width evaluation is defined and equals evaluation over the integers. */
module RteSound {
  import opened Options
  import opened CIntegers
  import opened Intervals
  import opened Rte
  import opened COperators

  // ---------------------------------------------------------------- C's evaluation

  predicate IsLiteral(e: Expr) {
    e.Lit? || (e.Neg? && e.arg.Lit?)
  }

  function LiteralValue(e: Expr): int
    requires IsLiteral(e)
  {
    if e.Lit? then e.v else -e.arg.v
  }

  /** The C type of an expression: its declared type, or the one its operation
      is evaluated in; an unsuffixed literal is `int`, else `long`. */
  function CType(env: Env, e: Expr): IntType {
    match e
    case Lit(v) => if In(v, Int32) then Int32 else Int64
    case Var(x) => if x in env.vars && env.vars[x].IntTy? then env.vars[x].t else Int32
    case Neg(a) => Promoted(CType(env, a))
    case Arith(_, a, b) => Usual(Promoted(CType(env, a)), Promoted(CType(env, b)))
    case If(_, a, b) => Usual(Promoted(CType(env, a)), Promoted(CType(env, b)))
    case Arrow(a, b) => Usual(Promoted(CType(env, a)), Promoted(CType(env, b)))
    case Pre(a) => var t := IntTypeOf(env, a); if t.Some? then t.value else Int32
    case Index(x, _) => if x in env.arrays then env.arrays[x].1 else Int32
    case Cast(to, _) => to
    case Call(_, f, args) => ResultType(env, f, |args|)
    case Condact(_, _, f, args, _) => ResultType(env, f, |args|)
    case _ => Int32
  }

  function ResultType(env: Env, f: string, n: nat): IntType {
    var t := CallType(env, f, n);
    if t.Some? && t.value.IntTy? then t.value.t else Int32
  }

  /** A result in a signed type must fit; in an unsigned one it wraps. */
  function Representable(w: IntType, v: int): Option<int> {
    if Signed(w) && !In(v, w) then None else Some(Wrap(w, v))
  }

  /** What C's operator gives on numbers, before it has to fit. */
  function CExact(op: ArithOp, x: int, y: int): int {
    match op
    case Add => CNumber(Plus, x, y)
    case Sub => CNumber(Dash, x, y)
    case Mul => CNumber(Star, x, y)
    case Div => Quotient(x, y)
    case Mod => Remainder(x, y)
  }

  function CompareSymbol(op: CompareOp): CBinaryOp {
    match op
    case Eq => EqualEqual
    case Neq => BangEqual
    case Lt => Less
    case Le => LessEqual
    case Gt => Greater
    case Ge => GreaterEqual
  }

  /** An operation in type `w`; `None` is undefined behaviour. */
  function CArith(op: ArithOp, w: IntType, x: int, y: int): Option<int> {
    var a, b := Wrap(w, x), Wrap(w, y);
    if op == Div || op == Mod then
      if b == 0 || (Signed(w) && !In(Quotient(a, b), w)) then None else Some(Wrap(w, CExact(op, a, b)))
    else Representable(w, CExact(op, a, b))
  }

  function Both(a: Option<int>, b: Option<int>, f: (int, int) -> Option<int>): Option<int> {
    if a.Some? && b.Some? then f(a.value, b.value) else None
  }

  /** A value as a variable of type `t` keeps it. */
  function AsStored(t: Ty, v: int): int {
    if t.IntTy? then Wrap(t.t, v) else v
  }

  /** The callee answers to what its parameters keep of the arguments. */
  function CCall(env: Env, site: nat, f: string, args: seq<Expr>, s: State): Option<int>
    decreases args, 0
  {
    if Callable(env, f, |args|) && forall i | 0 <= i < |args| :: CEval(env, args[i], s).Some? then
      var ps := env.callees[f].params;
      Some(s.results(site, seq(|args|, i requires 0 <= i < |args| => AsStored(ps[i], CEval(env, args[i], s).value))))
    else None
  }

  /** C's evaluation; only the taken side of a choice is evaluated. */
  function CEval(env: Env, e: Expr, s: State): Option<int>
    decreases e, 1
  {
    match e
    case Lit(v) => Some(v)
    case Bool(b) => Some(Flag(b))
    case Var(x) => Some(s.vars(x))
    case Neg(a) =>
      var v := CEval(env, a, s);
      if v.Some? then Representable(CType(env, e), -Wrap(CType(env, e), v.value)) else None
    case Not(a) =>
      var v := CEval(env, a, s);
      if v.Some? then Some(Flag(v.value == 0)) else None
    case Arith(op, a, b) =>
      Both(CEval(env, a, s), CEval(env, b, s), (x, y) => CArith(op, CType(env, e), x, y))
    case Compare(op, a, b) =>
      var w := Usual(Promoted(CType(env, a)), Promoted(CType(env, b)));
      Both(CEval(env, a, s), CEval(env, b, s), (x, y) => Some(CNumber(CompareSymbol(op), Wrap(w, x), Wrap(w, y))))
    case Logic(op, a, b) =>
      var x := CEval(env, a, s);
      if x.None? then None
      else if op == And && x.value == 0 then Some(0)
      else if (op == Or && x.value != 0) || (op == Implies && x.value == 0) then Some(1)
      else
        var y := CEval(env, b, s);
        if y.None? then None else Some(if op == Xor then CNumber(Caret, x.value, y.value) else if y.value != 0 then 1 else 0)
    case If(c, a, b) =>
      var x := CEval(env, c, s);
      if x.None? then None else
      var v := if x.value != 0 then CEval(env, a, s) else CEval(env, b, s);
      if v.Some? then Some(Wrap(CType(env, e), v.value)) else None
    case Arrow(a, b) =>
      var v := if s.first then CEval(env, a, s) else CEval(env, b, s);
      if v.Some? then Some(Wrap(CType(env, e), v.value)) else None
    case Pre(a) => Some(s.memory(a))
    case Index(x, i) =>
      var v := CEval(env, i, s);
      if v.None? || x !in env.arrays || !(0 <= v.value < env.arrays[x].0) then None else Some(s.arrays(x, v.value))
    case Cast(to, a) =>
      var v := CEval(env, a, s);
      if v.Some? then Some(Wrap(to, v.value)) else None
    case Call(site, f, args) => CCall(env, site, f, args, s)
    case Condact(act, site, f, args, d) =>
      var x := CEval(env, act, s);
      if x.None? || CEval(env, d, s).None? then None
      else if x.value != 0 then CCall(env, site, f, args, s)
      else Some(s.shown(site))
  }

  // ---------------------------------------------------------------- premises

  predicate InTy(v: int, t: Ty) {
    match t
    case BoolTy => 0 <= v <= 1
    case IntTy(i) => In(v, i)
  }

  /** The variables and arrays an expression reads in the current cycle. */
  function Reads(e: Expr): set<string> {
    match e
    case Lit(_) => {}
    case Bool(_) => {}
    case Var(x) => {x}
    case Neg(a) => Reads(a)
    case Not(a) => Reads(a)
    case Arith(_, a, b) => Reads(a) + Reads(b)
    case Compare(_, a, b) => Reads(a) + Reads(b)
    case Logic(_, a, b) => Reads(a) + Reads(b)
    case If(c, a, b) => Reads(c) + Reads(a) + Reads(b)
    case Arrow(a, b) => Reads(a) + Reads(b)
    case Pre(_) => {}
    case Index(x, i) => Reads(i) + {x}
    case Cast(_, a) => Reads(a)
    case Call(_, _, args) => ReadsAll(args)
    case Condact(act, _, _, args, d) => Reads(act) + ReadsAll(args) + Reads(d)
  }

  function ReadsAll(args: seq<Expr>): (r: set<string>)
    ensures forall i | 0 <= i < |args| :: Reads(args[i]) <= r
  {
    if args == [] then {} else
    var rest := ReadsAll(args[1..]);
    assert forall i | 0 < i < |args| :: args[i] == args[1..][i-1];
    Reads(args[0]) + rest
  }

  /** The operands of `pre` in an expression, nested ones included. */
  function Pres(e: Expr): set<Expr> {
    match e
    case Lit(_) => {}
    case Bool(_) => {}
    case Var(_) => {}
    case Neg(a) => Pres(a)
    case Not(a) => Pres(a)
    case Arith(_, a, b) => Pres(a) + Pres(b)
    case Compare(_, a, b) => Pres(a) + Pres(b)
    case Logic(_, a, b) => Pres(a) + Pres(b)
    case If(c, a, b) => Pres(c) + Pres(a) + Pres(b)
    case Arrow(a, b) => Pres(a) + Pres(b)
    case Pre(a) => Pres(a) + {a}
    case Index(_, i) => Pres(i)
    case Cast(_, a) => Pres(a)
    case Call(_, _, args) => PresAll(args)
    case Condact(act, _, _, args, d) => Pres(act) + PresAll(args) + Pres(d)
  }

  function PresAll(args: seq<Expr>): (r: set<Expr>)
    ensures forall i | 0 <= i < |args| :: Pres(args[i]) <= r
  {
    if args == [] then {} else
    var rest := PresAll(args[1..]);
    assert forall i | 0 < i < |args| :: args[i] == args[1..][i-1];
    Pres(args[0]) + rest
  }

  /** Variables and array elements are in the range of their types. */
  ghost predicate NamesIn(env: Env, names: set<string>, s: State) {
    && (forall x | x in names && x in env.vars :: InTy(s.vars(x), env.vars[x]))
    && (forall x | x in names && x in env.arrays :: ElementsIn(env, x, s))
  }

  ghost predicate ElementsIn(env: Env, x: string, s: State)
    requires x in env.arrays
  {
    forall i: int | 0 <= i < env.arrays[x].0 :: In(s.arrays(x, i), env.arrays[x].1)
  }

  /** The call sites of an expression with their callees. */
  function Calls(e: Expr): set<(nat, string)> {
    match e
    case Lit(_) => {}
    case Bool(_) => {}
    case Var(_) => {}
    case Neg(a) => Calls(a)
    case Not(a) => Calls(a)
    case Arith(_, a, b) => Calls(a) + Calls(b)
    case Compare(_, a, b) => Calls(a) + Calls(b)
    case Logic(_, a, b) => Calls(a) + Calls(b)
    case If(c, a, b) => Calls(c) + Calls(a) + Calls(b)
    case Arrow(a, b) => Calls(a) + Calls(b)
    case Pre(a) => Calls(a)
    case Index(_, i) => Calls(i)
    case Cast(_, a) => Calls(a)
    case Call(site, f, args) => CallsAll(args) + {(site, f)}
    case Condact(act, site, f, args, d) => Calls(act) + CallsAll(args) + {(site, f)} + Calls(d)
  }

  function CallsAll(args: seq<Expr>): (r: set<(nat, string)>)
    ensures forall i | 0 <= i < |args| :: Calls(args[i]) <= r
  {
    if args == [] then {} else
    var rest := CallsAll(args[1..]);
    assert forall i | 0 < i < |args| :: args[i] == args[1..][i-1];
    Calls(args[0]) + rest
  }

  /** An instance answers, and shows, values of its callee's type. */
  ghost predicate AnswersIn(env: Env, call: (nat, string), s: State) {
    call.1 in env.callees ==>
      InTy(s.shown(call.0), env.callees[call.1].result) && AllResultsIn(call.0, env.callees[call.1].result, s)
  }

  ghost predicate AllResultsIn(site: nat, t: Ty, s: State) {
    forall vs: seq<int> :: InTy(s.results(site, vs), t)
  }

  ghost predicate MemoryIn(env: Env, a: Expr, s: State) {
    var t := TypeOf(env, a, None);
    t.Some? ==> InTy(s.memory(a), t.value)
  }

  ghost predicate MemoriesIn(env: Env, pres: set<Expr>, s: State) {
    forall a | a in pres :: MemoryIn(env, a, s)
  }

  /** What `e` looks at is in the range of its type: variables, array elements,
      the memories of its `pre`s and the answers of its calls. */
  ghost predicate InRange(env: Env, e: Expr, s: State) {
    && NamesIn(env, Reads(e), s) && MemoriesIn(env, Pres(e), s)
    && forall c | c in Calls(e) :: AnswersIn(env, c, s)
  }

  /** A store at a narrow type is checked only if its value types so by itself;
      otherwise its interval must fit. */
  predicate StoreSeen(env: Env, e: Expr, t: Ty) {
    t.IntTy? && Narrow(t.t) ==> TypeOf(env, e, None) == Some(t) || Fits(Bounds(env, e), RangeOf(t.t))
  }

  /** A literal of type `t`, possibly negated. */
  predicate LiteralAt(e: Expr, t: Ty) {
    && IsLiteral(e) && t.IntTy? && In(LiteralValue(e), t.t)
    && (if e.Lit? then In(e.v, Int64) else In(e.arg.v, Int32) && In(-e.arg.v, Int32))
  }

  /** `e` is used at type `t`, and no operation owes its type to a hint from
      outside: every operation types by itself. Literals and choices need not. */
  predicate SteadyAt(env: Env, e: Expr, t: Ty)
    decreases e, 1
  {
    match e
    case Lit(_) => LiteralAt(e, t)
    case Bool(_) => t == BoolTy
    case Var(x) => x in env.vars && env.vars[x] == t
    case Neg(a) =>
      if a.Lit? then LiteralAt(e, t) else t.IntTy? && TypeOf(env, e, None) == Some(t) && SteadyAt(env, a, t)
    case Not(a) => t == BoolTy && SteadyAt(env, a, t)
    case Arith(_, a, b) => t.IntTy? && TypeOf(env, e, None) == Some(t) && SteadyAt(env, a, t) && SteadyAt(env, b, t)
    case Compare(_, a, b) =>
      var u := TypeOf(env, a, None);
      t == BoolTy && u.Some? && SteadyAt(env, a, u.value) && SteadyAt(env, b, u.value)
    case Logic(_, a, b) => t == BoolTy && SteadyAt(env, a, t) && SteadyAt(env, b, t)
    case If(c, a, b) => SteadyAt(env, c, BoolTy) && SteadyAt(env, a, t) && SteadyAt(env, b, t)
    case Arrow(a, b) => SteadyAt(env, a, t) && SteadyAt(env, b, t)
    case Pre(a) => TypeOf(env, a, None) == Some(t) && SteadyAt(env, a, t)
    case Index(x, i) =>
      var u := TypeOf(env, i, None);
      x in env.arrays && t == IntTy(env.arrays[x].1) && u.Some? && u.value.IntTy? && SteadyAt(env, i, u.value)
    case Cast(to, a) =>
      var u := TypeOf(env, a, None);
      t == IntTy(to) && u.Some? && u.value.IntTy? && SteadyAt(env, a, u.value)
    case Call(_, f, args) => SteadyCall(env, f, args, t)
    case Condact(act, _, f, args, d) => SteadyAt(env, act, BoolTy) && SteadyCall(env, f, args, t) && SteadyAt(env, d, t)
  }

  /** Each argument is steady at its parameter's type, and its store is seen. */
  predicate SteadyCall(env: Env, f: string, args: seq<Expr>, t: Ty)
    decreases args, 0
  {
    && Callable(env, f, |args|) && env.callees[f].result == t
    && forall i | 0 <= i < |args| :: SteadyAt(env, args[i], env.callees[f].params[i]) && StoreSeen(env, args[i], env.callees[f].params[i])
  }

  // ---------------------------------------------------------------- agreement

  /** The C types an expression that types at `t` by itself may be evaluated in. */
  predicate Kin(t: IntType, c: IntType) {
    match t
    case Int64 => c == Int64
    case Uint64 => c == Uint64
    case Uint32 => c == Uint32 || c == Int64
    case _ => Promoted(c) == Int32 || c == Int64
  }

  /** And those of an expression used at `t`, literals included. */
  predicate KinOperand(t: IntType, c: IntType) {
    Kin(t, c) || c == Int32 || c == Int64
  }

  predicate Bounded(env: Env, e: Expr, v: int) {
    Bounds(env, e).Some? && Inside(v, Bounds(env, e).value)
  }

  /** C computes the mathematical value of `e`, which goes with type `t`. */
  predicate AgreesAt(env: Env, e: Expr, t: Ty, s: State) {
    var v := Math(e, s);
    && CEval(env, e, s) == Some(v)
    && match t
       case BoolTy => 0 <= v <= 1
       case IntTy(i) => In(v, Promoted(i)) && In(v, CType(env, e)) && Bounded(env, e, v)
  }

  /** What is known of an expression used at `t` without evaluating it. */
  predicate Placed(env: Env, e: Expr, t: Ty) {
    match t
    case BoolTy => CType(env, e) == Int32
    case IntTy(i) => KinOperand(i, CType(env, e)) && Bounds(env, e).Some?
  }

  /** The common type of two operands, one of which types by itself, holds
      whatever the check lets through. */
  lemma CommonType(t: IntType, ca: IntType, cb: IntType)
    requires Kin(t, ca) && KinOperand(t, cb)
    ensures
      var w := Usual(Promoted(ca), Promoted(cb));
      && Kin(t, w) && Covers(RangeOf(w), RangeOf(Promoted(t)))
      && forall v | In(v, Promoted(t)) :: In(v, w) && Wrap(w, v) == v
  {
    var w := Usual(Promoted(ca), Promoted(cb));
    forall v | In(v, Promoted(t)) ensures In(v, w) && Wrap(w, v) == v {
      WrapKeeps(w, v);
    }
  }

  /** In any case converting to the common type keeps the operands' values. */
  lemma CommonKeeps(t: IntType, ca: IntType, cb: IntType, v: int)
    requires KinOperand(t, ca) && KinOperand(t, cb) && In(v, Promoted(t)) && (In(v, ca) || In(v, cb))
    ensures
      var w := Usual(Promoted(ca), Promoted(cb));
      In(v, w) && Wrap(w, v) == v && KinOperand(t, w)
  {
    WrapKeeps(Usual(Promoted(ca), Promoted(cb)), v);
  }

  /** An operation whose checked value fits is defined in C, with that value. */
  lemma ArithAgrees(op: ArithOp, t: IntType, w: IntType, x: int, y: int)
    requires In(x, w) && In(y, w) && Covers(RangeOf(w), RangeOf(Promoted(t)))
    requires op == Div || op == Mod ==> y != 0 && In(Quotient(x, y), Promoted(t))
    requires op == Mod ==> In(x, Promoted(t))
    requires op != Mod ==> In(ApplyArith(op, x, y), Promoted(t))
    ensures CArith(op, w, x, y) == Some(ApplyArith(op, x, y))
    ensures In(ApplyArith(op, x, y), Promoted(t)) && In(ApplyArith(op, x, y), w)
  {
    WrapKeeps(w, x);
    WrapKeeps(w, y);
    if op == Mod { RemainderIn(x, y, Promoted(t)); }
    WrapKeeps(w, ApplyArith(op, x, y));
  }

  /** A remainder lies between zero and its dividend. */
  lemma RemainderIn(x: int, y: int, t: IntType)
    requires y != 0 && In(x, t)
    ensures In(Remainder(x, y), t)
  {
    HelpersTruncate(x, y);
    RemainderSmall(x, y);
  }

  // ---------------------------------------------------------------- what the checks say

  lemma CheckHolds(checks: seq<Check>, kind: Kind, guards: seq<Guard>, cond: Expr, s: State)
    requires checks == [Check(kind, Guarded(guards, cond))] && AllHold(checks, s) && GuardsHold(guards, s)
    ensures Holds(cond, s)
  {
    assert Holds(checks[0].body, s);
    GuardedMeans(guards, cond, s);
  }

  /** Checked or proved statically, the subject fits. */
  lemma OverflowChecked(env: Env, e: Expr, t: IntType, guards: seq<Guard>, s: State)
    requires AllHold(OverflowCheck(env, e, t, guards), s) && GuardsHold(guards, s)
    requires RawBounds(env, Subject(e)).Some? ==> Inside(Math(Subject(e), s), RawBounds(env, Subject(e)).value)
    ensures In(Math(Subject(e), s), Promoted(t))
  {
    var r := RangeOf(Promoted(t));
    if !Fits(RawBounds(env, Subject(e)), r) {
      CheckHolds(OverflowCheck(env, e, t, guards), Overflow, guards, Within(Subject(e), r), s);
      WithinMeans(Subject(e), r, s);
    }
  }

  lemma GuardsMore(guards: seq<Guard>, g: Guard, s: State)
    ensures GuardsHold(guards + [g], s) <==> GuardsHold(guards, s) && Holds(g.cond, s)
  {
    var all := guards + [g];
    if GuardsHold(all, s) {
      assert Holds(all[|guards|].cond, s);
      forall i | 0 <= i < |guards| ensures Holds(guards[i].cond, s) { assert all[i] == guards[i]; }
    }
  }

  /** The raw interval of an operation holds its value when its operands' do. */
  lemma RawSound(env: Env, op: ArithOp, a: Expr, b: Expr, s: State)
    requires Bounded(env, a, Math(a, s)) && Bounded(env, b, Math(b, s))
    requires op == Div || op == Mod ==> Math(b, s) != 0
    ensures RawBounds(env, Arith(op, a, b)).Some?
    ensures Inside(ApplyArith(op, Math(a, s), Math(b, s)), RawBounds(env, Arith(op, a, b)).value)
  {
    var x, y := Bounds(env, a).value, Bounds(env, b).value;
    match op
    case Add =>
    case Sub =>
    case Mul => MulSound(Math(a, s), Math(b, s), x, y);
    case Div => DivSound(Math(a, s), Math(b, s), x, y);
    case Mod => ModSound(Math(a, s), Math(b, s), x, y);
  }

  /** A divisor is not zero: by its interval, or by its check. */
  lemma DivisorChecked(env: Env, e: Expr, guards: seq<Guard>, s: State)
    requires e.Arith? && (e.op == Div || e.op == Mod) && IntTypeOf(env, e).Some?
    requires AllHold(ArithChecks(env, e, guards), s) && GuardsHold(guards, s) && Bounded(env, e.rhs, Math(e.rhs, s))
    ensures Math(e.rhs, s) != 0
  {
    if MayBeZero(env, e.rhs) {
      var nonzero := Compare(Neq, e.rhs, Lit(0));
      var first := [Check(DivisionByZero, Guarded(guards, nonzero))];
      AllHoldSplit(first, OverflowCheck(env, e, IntTypeOf(env, e).value, guards + [Guard(nonzero, false)]), s);
      CheckHolds(first, DivisionByZero, guards, nonzero, s);
      assert Math(nonzero, s) == Flag(Math(e.rhs, s) != 0);
    }
  }

  lemma ArithChecked(env: Env, e: Expr, guards: seq<Guard>, s: State)
    requires e.Arith? && IntTypeOf(env, e).Some?
    requires AllHold(ArithChecks(env, e, guards), s) && GuardsHold(guards, s)
    requires Bounded(env, e.lhs, Math(e.lhs, s)) && Bounded(env, e.rhs, Math(e.rhs, s))
    ensures e.op == Div || e.op == Mod ==> Math(e.rhs, s) != 0
    ensures In(Math(Subject(e), s), Promoted(IntTypeOf(env, e).value))
  {
    var t := IntTypeOf(env, e).value;
    if e.op == Div || e.op == Mod {
      DivisorChecked(env, e, guards, s);
      RawSound(env, Div, e.lhs, e.rhs, s);
      var nonzero := Compare(Neq, e.rhs, Lit(0));
      if MayBeZero(env, e.rhs) {
        assert Math(nonzero, s) == Flag(Math(e.rhs, s) != 0);
        GuardsMore(guards, Guard(nonzero, false), s);
        var more := guards + [Guard(nonzero, false)];
        AllHoldSplit([Check(DivisionByZero, Guarded(guards, nonzero))], OverflowCheck(env, e, t, more), s);
        OverflowChecked(env, e, t, more, s);
      } else {
        OverflowChecked(env, e, t, guards, s);
      }
    } else {
      RawSound(env, e.op, e.lhs, e.rhs, s);
      OverflowChecked(env, e, t, guards, s);
    }
  }

  /** A stored value keeps its value: the type of its variable holds it. */
  lemma StoreSuffices(env: Env, rhs: Expr, t: Ty, guards: seq<Guard>, into: Option<string>, s: State)
    requires SteadyAt(env, rhs, t) && AgreesAt(env, rhs, t, s) && GuardsHold(guards, s)
    requires AllHold(Store(env, rhs, into, guards), s) && StoreSeen(env, rhs, t)
    requires into.Some? ==> s.vars(into.value) == Math(rhs, s)
    ensures InTy(Math(rhs, s), t)
    ensures t.IntTy? ==> Wrap(t.t, Math(rhs, s)) == Math(rhs, s)
  {
    if t.IntTy? {
      var r := RangeOf(t.t);
      if Narrow(t.t) && !Fits(Bounds(env, rhs), r) {
        var subject := if into.Some? then Var(into.value) else rhs;
        CheckHolds(Store(env, rhs, into, guards), Narrowing, guards, Within(subject, r), s);
        WithinMeans(subject, r, s);
        assert Math(subject, s) == Math(rhs, s);
      }
      WrapKeeps(t.t, Math(rhs, s));
    }
  }

  // ---------------------------------------------------------------- types, statically

  lemma LiteralPlaced(env: Env, e: Expr, t: Ty)
    requires LiteralAt(e, t)
    ensures Placed(env, e, t) && CType(env, e) == if e.Lit? && !In(e.v, Int32) then Int64 else Int32
    ensures TypeOf(env, e, None) == Some(IntTy(Int32))
  {
    if e.Neg? {
      assert CType(env, e) == Promoted(CType(env, e.arg));
      assert Bounds(env, e.arg) == Some(Interval(e.arg.v, e.arg.v));
    }
  }

  lemma {:induction false} SteadyPlaced(env: Env, e: Expr, t: Ty)
    requires SteadyAt(env, e, t)
    ensures Placed(env, e, t)
    ensures t.IntTy? && TypeOf(env, e, None) == Some(t) ==> Kin(t.t, CType(env, e))
    decreases e, 0
  {
    match e
    case Lit(_) => LiteralPlaced(env, e, t);
    case Bool(_) =>
    case Var(_) =>
    case Neg(a) => if a.Lit? { LiteralPlaced(env, e, t); } else { SteadyPlaced(env, a, t); }
    case Not(_) =>
    case Arith(_, a, b) => PairPlaced(env, a, b, t);
    case Compare(_, _, _) =>
    case Logic(_, _, _) =>
    case If(_, a, b) => PairPlaced(env, a, b, t);
    case Arrow(a, b) => PairPlaced(env, a, b, t);
    case Pre(a) => SteadyPlaced(env, a, t);
    case Index(_, _) =>
    case Cast(_, _) =>
    case Call(_, _, _) =>
    case Condact(_, _, _, _, _) =>
  }

  lemma {:induction false} PairPlaced(env: Env, a: Expr, b: Expr, t: Ty)
    requires SteadyAt(env, a, t) && SteadyAt(env, b, t)
    ensures Placed(env, a, t) && Placed(env, b, t)
    ensures
      var w := Usual(Promoted(CType(env, a)), Promoted(CType(env, b)));
      if t.BoolTy? then w == Int32
      else KinOperand(t.t, w) && (TypeOf(env, a, None) == Some(t) ==> Kin(t.t, CType(env, a)) && Kin(t.t, w))
    decreases if a < b then b else a, 1
  {
    SteadyPlaced(env, a, t);
    SteadyPlaced(env, b, t);
    if t.IntTy? && TypeOf(env, a, None) == Some(t) { CommonType(t.t, CType(env, a), CType(env, b)); }
  }

  // ---------------------------------------------------------------- the theorem, operator by operator

  lemma LiteralAgrees(env: Env, e: Expr, t: Ty, s: State)
    requires LiteralAt(e, t)
    ensures AgreesAt(env, e, t, s)
  {
    LiteralPlaced(env, e, t);
    if e.Neg? {
      assert Bounds(env, e.arg) == Some(Interval(e.arg.v, e.arg.v));
      assert Bounds(env, e) == Some(Meet(Interval(-e.arg.v, -e.arg.v), RangeOf(Int32)));
      assert CEval(env, e.arg, s) == Some(e.arg.v);
      WrapKeeps(Int32, e.arg.v);
      WrapKeeps(Int32, -e.arg.v);
    }
    PromotionKeeps(t.t, LiteralValue(e));
  }

  lemma NegAgrees(env: Env, e: Expr, t: Ty, guards: seq<Guard>, s: State)
    requires e.Neg? && !e.arg.Lit? && SteadyAt(env, e, t) && AgreesAt(env, e.arg, t, s)
    requires GuardsHold(guards, s) && AllHold(OverflowCheck(env, e, t.t, guards), s)
    ensures AgreesAt(env, e, t, s)
  {
    assert TypeOf(env, e.arg, None) == Some(t);
    SteadyPlaced(env, e.arg, t);
    OverflowChecked(env, e, t.t, guards, s);
    CommonType(t.t, CType(env, e.arg), CType(env, e.arg));
    assert CType(env, e) == Usual(Promoted(CType(env, e.arg)), Promoted(CType(env, e.arg)));
  }

  lemma ArithmeticAgrees(env: Env, e: Expr, t: Ty, guards: seq<Guard>, s: State)
    requires e.Arith? && SteadyAt(env, e, t) && GuardsHold(guards, s)
    requires AllHold(ArithChecks(env, e, guards), s)
    requires AgreesAt(env, e.lhs, t, s) && AgreesAt(env, e.rhs, t, s)
    ensures AgreesAt(env, e, t, s)
  {
    assert TypeOf(env, e.lhs, None) == Some(t) && IntTypeOf(env, e) == Some(t.t);
    PairPlaced(env, e.lhs, e.rhs, t);
    CommonType(t.t, CType(env, e.lhs), CType(env, e.rhs));
    ArithChecked(env, e, guards, s);
    ArithmeticInC(env, e, t.t, s);
    RawSound(env, e.op, e.lhs, e.rhs, s);
  }

  lemma ArithmeticInC(env: Env, e: Expr, t: IntType, s: State)
    requires e.Arith? && CEval(env, e.lhs, s) == Some(Math(e.lhs, s)) && CEval(env, e.rhs, s) == Some(Math(e.rhs, s))
    requires In(Math(e.lhs, s), Promoted(t)) && In(Math(e.rhs, s), Promoted(t))
    requires Covers(RangeOf(CType(env, e)), RangeOf(Promoted(t)))
    requires e.op == Div || e.op == Mod ==> Math(e.rhs, s) != 0
    requires In(Math(Subject(e), s), Promoted(t))
    ensures CEval(env, e, s) == Some(Math(e, s)) && In(Math(e, s), Promoted(t)) && In(Math(e, s), CType(env, e))
  {
    var x, y := Math(e.lhs, s), Math(e.rhs, s);
    ArithAgrees(e.op, t, CType(env, e), x, y);
    assert CEval(env, e, s) == CArith(e.op, CType(env, e), x, y);
  }

  /** Converting to the common type keeps every value of the operands. */
  lemma CommonValue(env: Env, a: Expr, b: Expr, t: Ty, s: State, left: bool)
    requires SteadyAt(env, a, t) && SteadyAt(env, b, t) && AgreesAt(env, if left then a else b, t, s)
    ensures
      var w := Usual(Promoted(CType(env, a)), Promoted(CType(env, b)));
      var v := Math(if left then a else b, s);
      Wrap(w, v) == v && In(v, w)
  {
    PairPlaced(env, a, b, t);
    var v := Math(if left then a else b, s);
    if t.BoolTy? { WrapKeeps(Int32, v); } else { CommonKeeps(t.t, CType(env, a), CType(env, b), v); }
  }

  lemma ComparisonAgrees(env: Env, e: Expr, u: Ty, s: State)
    requires e.Compare? && SteadyAt(env, e.lhs, u) && SteadyAt(env, e.rhs, u)
    requires AgreesAt(env, e.lhs, u, s) && AgreesAt(env, e.rhs, u, s)
    ensures AgreesAt(env, e, BoolTy, s)
  {
    var w := Usual(Promoted(CType(env, e.lhs)), Promoted(CType(env, e.rhs)));
    CommonValue(env, e.lhs, e.rhs, u, s, true);
    CommonValue(env, e.lhs, e.rhs, u, s, false);
    assert CEval(env, e, s) == Some(CNumber(CompareSymbol(e.cop), Wrap(w, Math(e.lhs, s)), Wrap(w, Math(e.rhs, s))));
  }

  /** `e` chooses between `a` and `b`. */
  predicate ChoosesBetween(e: Expr, a: Expr, b: Expr) {
    (e.If? && a == e.thn && b == e.els) || (e.Arrow? && a == e.init && b == e.body)
  }

  predicate TakesLeft(e: Expr, s: State)
    requires e.If? || e.Arrow?
  {
    if e.If? then Math(e.cond, s) != 0 else s.first
  }

  lemma ChoiceShape(env: Env, e: Expr, a: Expr, b: Expr, t: Ty, s: State)
    requires ChoosesBetween(e, a, b) && (e.If? ==> AgreesAt(env, e.cond, BoolTy, s))
    ensures
      var taken := if TakesLeft(e, s) then a else b;
      var v := CEval(env, taken, s);
      && CType(env, e) == Usual(Promoted(CType(env, a)), Promoted(CType(env, b)))
      && Math(e, s) == Math(taken, s)
      && CEval(env, e, s) == (if v.Some? then Some(Wrap(CType(env, e), v.value)) else None)
      && (Bounds(env, a).Some? && Bounds(env, b).Some? ==> Bounds(env, e) == Some(Hull(Bounds(env, a).value, Bounds(env, b).value)))
  {
  }

  /** A choice between operands used at one type: the side taken decides. */
  lemma ChoiceAgrees(env: Env, e: Expr, a: Expr, b: Expr, t: Ty, s: State)
    requires ChoosesBetween(e, a, b) && SteadyAt(env, a, t) && SteadyAt(env, b, t)
    requires e.If? ==> AgreesAt(env, e.cond, BoolTy, s)
    requires AgreesAt(env, if TakesLeft(e, s) then a else b, t, s)
    ensures AgreesAt(env, e, t, s)
  {
    ChoiceShape(env, e, a, b, t, s);
    hide CEval, Math, CType, Bounds, SteadyAt;
    PairPlaced(env, a, b, t);
    CommonValue(env, a, b, t, s, TakesLeft(e, s));
  }

  lemma LogicAgrees(env: Env, e: Expr, s: State)
    requires e.Logic? && AgreesAt(env, e.lhs, BoolTy, s) && AgreesAt(env, e.rhs, BoolTy, s)
    ensures AgreesAt(env, e, BoolTy, s)
  {
    assert CEval(env, e.lhs, s) == Some(Math(e.lhs, s)) && CEval(env, e.rhs, s) == Some(Math(e.rhs, s));
  }

  lemma IndexAgrees(env: Env, e: Expr, t: Ty, u: Ty, guards: seq<Guard>, s: State)
    requires e.Index? && SteadyAt(env, e, t) && ElementsIn(env, e.base, s) && GuardsHold(guards, s)
    requires AllHold(IndexChecks(env, e, guards), s) && u.IntTy? && AgreesAt(env, e.index, u, s)
    ensures AgreesAt(env, e, t, s)
  {
    var length: int := env.arrays[e.base].0;
    var r := Interval(0, length - 1);
    if !Fits(Bounds(env, e.index), r) {
      CheckHolds(IndexChecks(env, e, guards), IndexOutOfBounds, guards, Within(e.index, r), s);
      WithinMeans(e.index, r, s);
    }
    PromotionKeeps(env.arrays[e.base].1, Math(e, s));
  }

  lemma CastAgrees(env: Env, e: Expr, u: Ty, s: State)
    requires e.Cast? && u.IntTy? && AgreesAt(env, e.arg, u, s) && TypeOf(env, e.arg, None) == Some(u)
    ensures AgreesAt(env, e, IntTy(e.to), s)
  {
    WrapIsConversion(e.to, Math(e.arg, s));
    PromotionKeeps(e.to, Wrap(e.to, Math(e.arg, s)));
  }

  // ---------------------------------------------------------------- the theorem

  /** Where all the checks of an expression hold, and the conditions it is
      evaluated under, C evaluates it without undefined behaviour to its
      mathematical value, which lies in its interval. */
  lemma {:induction false} ChecksSuffice(env: Env, e: Expr, t: Ty, guards: seq<Guard>, s: State)
    requires SteadyAt(env, e, t) && InRange(env, e, s) && GuardsHold(guards, s)
    requires AllHold(Walk(env, e, guards), s)
    ensures AgreesAt(env, e, t, s)
    decreases e, 2
  {
    InRangeBelow(env, e, s);
    hide InRange, ElementsIn, ArithChecks, IndexChecks, OverflowCheck, RawBounds, CallChecks, SteadyCall, Store, AnswersIn, CEval, Math, AgreesAt, ClocksOf;
    match e
    case Lit(_) => LiteralAgrees(env, e, t, s);
    case Bool(_) => BoolAgrees(env, e, s);
    case Var(x) => VarAgrees(env, e, t, s);
    case Neg(a) =>
      if a.Lit? {
        LiteralAgrees(env, e, t, s);
      } else {
        AllHoldSplit(OverflowCheck(env, e, t.t, guards), Walk(env, a, guards), s);
        ChecksSuffice(env, a, t, guards, s);
        NegAgrees(env, e, t, guards, s);
      }
    case Not(a) =>
      ChecksSuffice(env, a, t, guards, s);
      BoolAgrees(env, e, s);
    case Arith(_, a, b) =>
      AllHoldSplit(ArithChecks(env, e, guards) + Walk(env, a, guards), Walk(env, b, guards), s);
      AllHoldSplit(ArithChecks(env, e, guards), Walk(env, a, guards), s);
      ChecksSuffice(env, a, t, guards, s);
      ChecksSuffice(env, b, t, guards, s);
      ArithmeticAgrees(env, e, t, guards, s);
    case Compare(_, a, b) =>
      var u := TypeOf(env, a, None).value;
      AllHoldSplit(Walk(env, a, guards), Walk(env, b, guards), s);
      ChecksSuffice(env, a, u, guards, s);
      ChecksSuffice(env, b, u, guards, s);
      ComparisonAgrees(env, e, u, s);
    case Logic(_, a, b) =>
      AllHoldSplit(Walk(env, a, guards), Walk(env, b, guards), s);
      ChecksSuffice(env, a, t, guards, s);
      ChecksSuffice(env, b, t, guards, s);
      LogicAgrees(env, e, s);
    case If(_, _, _) => IfSuffices(env, e, t, guards, s);
    case Arrow(_, _) => ArrowSuffices(env, e, t, guards, s);
    case Pre(a) => PreAgrees(env, e, t, s);
    case Index(_, i) =>
      var u := TypeOf(env, i, None).value;
      AllHoldSplit(IndexChecks(env, e, guards), Walk(env, i, guards), s);
      ChecksSuffice(env, i, u, guards, s);
      IndexAgrees(env, e, t, u, guards, s);
    case Cast(to, a) =>
      var u := TypeOf(env, a, None).value;
      ChecksSuffice(env, a, u, guards, s);
      CastAgrees(env, e, u, s);
    case Call(_, _, _) => CallSuffices(env, e, t, guards, s);
    case Condact(_, _, _, _, _) => CondactSuffices(env, e, t, guards, s);
  }

  lemma {:induction false} IfSuffices(env: Env, e: Expr, t: Ty, guards: seq<Guard>, s: State)
    requires e.If? && SteadyAt(env, e, t) && InRange(env, e, s) && GuardsHold(guards, s)
    requires AllHold(Walk(env, e, guards), s)
    ensures AgreesAt(env, e, t, s)
    decreases e, 1
  {
    InRangeBelow(env, e, s);
    hide InRange, CEval, Math, AgreesAt;
    var c, a, b := e.cond, e.thn, e.els;
    var ga, gb := guards + [Guard(c, IsClock(c))], guards + [Guard(Not(c), false)];
    AllHoldSplit(Walk(env, c, guards) + Walk(env, a, ga), Walk(env, b, gb), s);
    AllHoldSplit(Walk(env, c, guards), Walk(env, a, ga), s);
    ChecksSuffice(env, c, BoolTy, guards, s);
    ConditionMeans(c, guards, s);
    TakenSuffices(env, a, b, t, ga, gb, Math(c, s) != 0, s);
    ChoiceAgrees(env, e, a, b, t, s);
  }

  lemma {:induction false} ArrowSuffices(env: Env, e: Expr, t: Ty, guards: seq<Guard>, s: State)
    requires e.Arrow? && SteadyAt(env, e, t) && InRange(env, e, s) && GuardsHold(guards, s)
    requires AllHold(Walk(env, e, guards), s)
    ensures AgreesAt(env, e, t, s)
    decreases e, 1
  {
    InRangeBelow(env, e, s);
    hide InRange, CEval, Math, AgreesAt;
    var a, b := e.init, e.body;
    var ga, gb := guards + [Guard(FirstCycle(), false)], guards + [Guard(Not(FirstCycle()), false)];
    AllHoldSplit(Walk(env, a, ga), Walk(env, b, gb), s);
    FirstCycleMeans(guards, s);
    TakenSuffices(env, a, b, t, ga, gb, s.first, s);
    ChoiceAgrees(env, e, a, b, t, s);
  }

  lemma {:induction false} CallSuffices(env: Env, e: Expr, t: Ty, guards: seq<Guard>, s: State)
    requires e.Call? && SteadyAt(env, e, t) && InRange(env, e, s) && GuardsHold(guards, s)
    requires AllHold(Walk(env, e, guards), s)
    ensures AgreesAt(env, e, t, s)
    decreases e, 1
  {
    hide AgreesAt, MemoriesIn, NamesIn, SteadyCall, ArgumentsExact;
    InRangeArguments(env, e, e.args, s);
    SteadyResult(env, e.f, e.args, t);
    CallAgrees(env, e, e.site, e.f, e.args, guards, s);
    assert AnswersIn(env, (e.site, e.f), s);
    AnswerAgrees(env, e, t, e.site, e.f, s);
  }

  lemma {:induction false} CondactSuffices(env: Env, e: Expr, t: Ty, guards: seq<Guard>, s: State)
    requires e.Condact? && SteadyAt(env, e, t) && InRange(env, e, s) && GuardsHold(guards, s)
    requires AllHold(Walk(env, e, guards), s)
    ensures AgreesAt(env, e, t, s)
    decreases e, 1
  {
    hide MemoriesIn, NamesIn, SteadyCall, ArgumentsExact, CallChecks, AllHold, Walk, AgreesAt;
    var inner := CallGuards(e.act, guards);
    CondactChecks(env, e, guards, s);
    InRangeArguments(env, e, e.args, s);
    InRangeOperands(env, e, s);
    ChecksSuffice(env, e.act, BoolTy, guards, s);
    ChecksSuffice(env, e.default, t, guards, s);
    AgreesValue(env, e.act, BoolTy, s);
    AgreesValue(env, e.default, t, s);
    SteadyResult(env, e.f, e.args, t);
    if Math(e.act, s) != 0 {
      ClocksHold(guards, s);
      GuardsMore(ClocksOf(guards), Guard(e.act, true), s);
      CallAgrees(env, e, e.site, e.f, e.args, inner, s);
    }
    assert AnswersIn(env, (e.site, e.f), s);
    AnswerAgrees(env, e, t, e.site, e.f, s);
  }

  lemma AgreesValue(env: Env, e: Expr, t: Ty, s: State)
    requires AgreesAt(env, e, t, s)
    ensures CEval(env, e, s) == Some(Math(e, s))
  {
  }

  lemma SteadyResult(env: Env, f: string, args: seq<Expr>, t: Ty)
    requires SteadyCall(env, f, args, t)
    ensures Callable(env, f, |args|) && env.callees[f].result == t
  {
  }

  lemma CondactChecks(env: Env, e: Expr, guards: seq<Guard>, s: State)
    requires e.Condact? && AllHold(Walk(env, e, guards), s)
    ensures AllHold(Walk(env, e.act, guards), s) && AllHold(Walk(env, e.default, guards), s)
    ensures AllHold(CallChecks(env, e.f, e.args, CallGuards(e.act, guards)), s)
  {
    hide AllHold, CallChecks;
    var inner := CallGuards(e.act, guards);
    AllHoldSplit(Walk(env, e.act, guards) + CallChecks(env, e.f, e.args, inner), Walk(env, e.default, guards), s);
    AllHoldSplit(Walk(env, e.act, guards), CallChecks(env, e.f, e.args, inner), s);
  }

  /** What is in range for `e` is for its operands. */
  lemma InRangeBelow(env: Env, e: Expr, s: State)
    requires InRange(env, e, s)
    ensures match e
      case Neg(a) => InRange(env, a, s)
      case Not(a) => InRange(env, a, s)
      case Arith(_, a, b) => InRange(env, a, s) && InRange(env, b, s)
      case Compare(_, a, b) => InRange(env, a, s) && InRange(env, b, s)
      case Logic(_, a, b) => InRange(env, a, s) && InRange(env, b, s)
      case If(c, a, b) => InRange(env, c, s) && InRange(env, a, s) && InRange(env, b, s)
      case Arrow(a, b) => InRange(env, a, s) && InRange(env, b, s)
      case Index(x, i) => InRange(env, i, s) && (x in env.arrays ==> ElementsIn(env, x, s))
      case Cast(_, a) => InRange(env, a, s)
      case _ => true
  {
    hide InTy, ElementsIn, MemoryIn, AnswersIn;
  }

  lemma InRangeArguments(env: Env, e: Expr, args: seq<Expr>, s: State)
    requires InRange(env, e, s) && ((e.Call? && e.args == args) || (e.Condact? && e.args == args))
    ensures forall i | 0 <= i < |args| :: args[i] < e && InRange(env, args[i], s)
  {
    forall i | 0 <= i < |args| ensures args[i] < e && InRange(env, args[i], s) {
      assert Reads(args[i]) <= ReadsAll(args) && Pres(args[i]) <= PresAll(args) && Calls(args[i]) <= CallsAll(args);
    }
  }

  lemma InRangeOperands(env: Env, e: Expr, s: State)
    requires e.Condact? && InRange(env, e, s)
    ensures InRange(env, e.act, s) && InRange(env, e.default, s)
  {
  }

  /** The arguments reach the callee as the integers have them. */
  lemma {:induction false} CallAgrees(env: Env, whole: Expr, site: nat, f: string, args: seq<Expr>, guards: seq<Guard>, s: State)
    requires (forall i | 0 <= i < |args| :: args[i] < whole && InRange(env, args[i], s)) && GuardsHold(guards, s)
    requires Callable(env, f, |args|) && SteadyCall(env, f, args, env.callees[f].result)
    requires AllHold(CallChecks(env, f, args, guards), s)
    ensures CCall(env, site, f, args, s) == Some(s.results(site, MathAll(args, s)))
    ensures ArgumentsExact(env, f, args, s)
    decreases whole, 0
  {
    hide Store, Walk, SteadyAt, StoreSeen, InRange;
    var ps := env.callees[f].params;
    AllHoldSplit(ArgumentStores(env, args, guards), WalkAll(env, args, guards), s);
    forall i | 0 <= i < |args| ensures StoredExactly(env, args[i], ps[i], s) {
      ArgumentChecks(env, args, guards, i, s);
      ChecksSuffice(env, args[i], ps[i], guards, s);
      StoreSuffices(env, args[i], ps[i], guards, None, s);
    }
    var stored := seq(|args|, i requires 0 <= i < |args| => AsStored(ps[i], CEval(env, args[i], s).value));
    assert stored == MathAll(args, s);
  }

  /** Computed exactly, and kept unchanged by its parameter. */
  ghost predicate StoredExactly(env: Env, a: Expr, t: Ty, s: State) {
    CEval(env, a, s) == Some(Math(a, s)) && AsStored(t, Math(a, s)) == Math(a, s) && InTy(Math(a, s), t)
  }

  ghost predicate ArgumentsExact(env: Env, f: string, args: seq<Expr>, s: State)
    requires Callable(env, f, |args|)
  {
    forall i | 0 <= i < |args| :: StoredExactly(env, args[i], env.callees[f].params[i], s)
  }

  lemma {:induction false} ArgumentChecks(env: Env, args: seq<Expr>, guards: seq<Guard>, i: nat, s: State)
    requires i < |args| && AllHold(ArgumentStores(env, args, guards), s) && AllHold(WalkAll(env, args, guards), s)
    ensures AllHold(Store(env, args[i], None, guards), s) && AllHold(Walk(env, args[i], guards), s)
    decreases i
  {
    hide Store, Walk, AllHold;
    AllHoldSplit(Store(env, args[0], None, guards), ArgumentStores(env, args[1..], guards), s);
    AllHoldSplit(Walk(env, args[0], guards), WalkAll(env, args[1..], guards), s);
    if i > 0 { ArgumentChecks(env, args[1..], guards, i - 1, s); }
  }

  lemma AnswerAgrees(env: Env, e: Expr, t: Ty, site: nat, f: string, s: State)
    requires (e.Call? && e.site == site && e.f == f) || (e.Condact? && e.site == site && e.f == f)
    requires TypeOf(env, e, None) == Some(t) && f in env.callees && env.callees[f].result == t && AnswersIn(env, (site, f), s)
    requires CEval(env, e, s) == Some(Math(e, s))
    ensures AgreesAt(env, e, t, s)
  {
    assert AllResultsIn(site, t, s);
    var v := Math(e, s);
    assert InTy(v, t);
    if t.IntTy? { PromotionKeeps(t.t, v); }
  }

  lemma BoolAgrees(env: Env, e: Expr, s: State)
    requires e.Bool? || (e.Not? && AgreesAt(env, e.arg, BoolTy, s))
    ensures AgreesAt(env, e, BoolTy, s)
  {
  }

  lemma ConditionMeans(c: Expr, guards: seq<Guard>, s: State)
    ensures GuardsHold(guards + [Guard(c, IsClock(c))], s) <==> GuardsHold(guards, s) && Math(c, s) != 0
    ensures GuardsHold(guards + [Guard(Not(c), false)], s) <==> GuardsHold(guards, s) && Math(c, s) == 0
  {
    GuardsMore(guards, Guard(c, IsClock(c)), s);
    GuardsMore(guards, Guard(Not(c), false), s);
  }

  lemma VarAgrees(env: Env, e: Expr, t: Ty, s: State)
    requires e.Var? && SteadyAt(env, e, t) && InRange(env, e, s)
    ensures AgreesAt(env, e, t, s)
  {
    assert InTy(s.vars(e.x), t);
    if t.IntTy? { PromotionKeeps(t.t, s.vars(e.x)); }
  }

  lemma PreAgrees(env: Env, e: Expr, t: Ty, s: State)
    requires e.Pre? && SteadyAt(env, e, t) && InRange(env, e, s)
    ensures AgreesAt(env, e, t, s)
  {
    assert MemoryIn(env, e.arg, s);
    if t.IntTy? { PromotionKeeps(t.t, s.memory(e.arg)); }
  }

  lemma FirstCycleMeans(guards: seq<Guard>, s: State)
    ensures GuardsHold(guards + [Guard(FirstCycle(), false)], s) <==> GuardsHold(guards, s) && s.first
    ensures GuardsHold(guards + [Guard(Not(FirstCycle()), false)], s) <==> GuardsHold(guards, s) && !s.first
  {
    assert Math(FirstCycle(), s) == Flag(s.first);
    GuardsMore(guards, Guard(FirstCycle(), false), s);
    GuardsMore(guards, Guard(Not(FirstCycle()), false), s);
  }

  /** Of two alternatives, the one whose conditions hold. */
  lemma {:induction false} TakenSuffices(env: Env, a: Expr, b: Expr, t: Ty, ga: seq<Guard>, gb: seq<Guard>, left: bool, s: State)
    requires SteadyAt(env, a, t) && SteadyAt(env, b, t) && InRange(env, a, s) && InRange(env, b, s)
    requires GuardsHold(if left then ga else gb, s)
    requires AllHold(Walk(env, a, ga), s) && AllHold(Walk(env, b, gb), s)
    ensures AgreesAt(env, if left then a else b, t, s)
    decreases if a < b then b else a, 3
  {
    if left { ChecksSuffice(env, a, t, ga, s); } else { ChecksSuffice(env, b, t, gb, s); }
  }
}
