/** Runtime-error checks: from an expression over machine integers, the boolean
    conditions that make C's evaluation of it the mathematical one. */
module Rte {
  import opened Options
  import opened CIntegers
  import opened Intervals

  datatype Ty = BoolTy | IntTy(t: IntType)

  datatype ArithOp = Add | Sub | Mul | Div | Mod

  datatype CompareOp = Eq | Neq | Lt | Le | Gt | Ge

  datatype LogicOp = And | Or | Xor | Implies

  /** A clock-free expression; booleans are C's 0 and 1. A call's `site` is its
      instance; `Condact` steps it only where `act` holds. */
  datatype Expr =
    | Lit(v: int)
    | Bool(b: bool)
    | Var(x: string)
    | Neg(arg: Expr)
    | Not(arg: Expr)
    | Arith(op: ArithOp, lhs: Expr, rhs: Expr)
    | Compare(cop: CompareOp, lhs: Expr, rhs: Expr)
    | Logic(lop: LogicOp, lhs: Expr, rhs: Expr)
    | If(cond: Expr, thn: Expr, els: Expr)
    | Arrow(init: Expr, body: Expr)
    | Pre(arg: Expr)
    | Index(base: string, index: Expr)
    | Cast(to: IntType, arg: Expr)
    | Call(site: nat, f: string, args: seq<Expr>)
    | Condact(act: Expr, site: nat, f: string, args: seq<Expr>, default: Expr)

  datatype Signature = Signature(params: seq<Ty>, result: Ty)

  /** Declared types of variables, lengths and element types of arrays, and
      what the nodes that can be called take and give. */
  datatype Env = Env(vars: map<string, Ty>, arrays: map<string, (nat, IntType)>, callees: map<string, Signature>)

  /** One cycle: variables, array elements, whether it is the first, what each
      `pre`'s memory holds, what each instance answers to arguments, and what it
      shows when it is not stepped. */
  datatype State = State(vars: string -> int, arrays: (string, int) -> int, first: bool, memory: Expr -> int,
                         results: (nat, seq<int>) -> int, shown: nat -> int)

  // ---------------------------------------------------------------- evaluation over the integers

  function Flag(b: bool): int {
    if b then 1 else 0
  }

  function ApplyArith(op: ArithOp, x: int, y: int): int {
    match op
    case Add => x + y
    case Sub => x - y
    case Mul => x * y
    case Div => Quotient(x, y)
    case Mod => Remainder(x, y)
  }

  function ApplyCompare(op: CompareOp, x: int, y: int): int {
    match op
    case Eq => Flag(x == y)
    case Neq => Flag(x != y)
    case Lt => Flag(x < y)
    case Le => Flag(x <= y)
    case Gt => Flag(x > y)
    case Ge => Flag(x >= y)
  }

  function ApplyLogic(op: LogicOp, x: int, y: int): int {
    match op
    case And => Flag(x != 0 && y != 0)
    case Or => Flag(x != 0 || y != 0)
    case Xor => Flag((x != 0) != (y != 0))
    case Implies => Flag(x == 0 || y != 0)
  }

  function Math(e: Expr, s: State): int
    decreases e, 1
  {
    match e
    case Lit(v) => v
    case Bool(b) => Flag(b)
    case Var(x) => s.vars(x)
    case Neg(a) => -Math(a, s)
    case Not(a) => Flag(Math(a, s) == 0)
    case Arith(op, a, b) => ApplyArith(op, Math(a, s), Math(b, s))
    case Compare(op, a, b) => ApplyCompare(op, Math(a, s), Math(b, s))
    case Logic(op, a, b) => ApplyLogic(op, Math(a, s), Math(b, s))
    case If(c, a, b) => if Math(c, s) != 0 then Math(a, s) else Math(b, s)
    case Arrow(a, b) => if s.first then Math(a, s) else Math(b, s)
    case Pre(a) => s.memory(a)
    case Index(x, i) => s.arrays(x, Math(i, s))
    case Cast(to, a) => Wrap(to, Math(a, s))
    case Call(site, _, args) => s.results(site, MathAll(args, s))
    case Condact(act, site, _, args, _) =>
      if Math(act, s) != 0 then s.results(site, MathAll(args, s)) else s.shown(site)
  }

  function MathAll(args: seq<Expr>, s: State): (vs: seq<int>)
    ensures |vs| == |args|
    decreases args, 0
  {
    seq(|args|, i requires 0 <= i < |args| => Math(args[i], s))
  }

  // ---------------------------------------------------------------- types

  /** Literals run to 64 bits; the unsigned 64-bit type takes every natural one. */
  predicate FitsLiteral(v: int, t: IntType) {
    match t
    case Int64 => true
    case Uint64 => v >= 0
    case _ => In(v, t)
  }

  function LiteralType(v: int, hint: Option<Ty>): IntType {
    if hint.Some? && hint.value.IntTy? && FitsLiteral(v, hint.value.t) then hint.value.t else Int32
  }

  function OnlyInt(t: Option<Ty>): Option<Ty> {
    if t.Some? && t.value.IntTy? then t else None
  }

  function OnlyBool(t: Option<Ty>): Option<Ty> {
    if t == Some(BoolTy) then t else None
  }

  function Same(a: Option<Ty>, b: Option<Ty>): Option<Ty> {
    if a.Some? && a == b then a else None
  }

  /** A typed integer on the left is the hint for the right. */
  function RightHint(left: Option<Ty>, hint: Option<Ty>): Option<Ty> {
    if left.Some? && left.value.IntTy? then left else hint
  }

  function Else(hint: Option<Ty>, first: Option<Ty>): Option<Ty> {
    if hint.Some? then hint else first
  }

  /** The inferred type, under the type the context hints at; `None` is ill typed. */
  function TypeOf(env: Env, e: Expr, hint: Option<Ty>): Option<Ty> {
    match e
    case Lit(v) => Some(IntTy(LiteralType(v, hint)))
    case Bool(_) => Some(BoolTy)
    case Var(x) => if x in env.vars then Some(env.vars[x]) else None
    case Neg(a) => if a.Lit? then Some(IntTy(LiteralType(-a.v, hint))) else OnlyInt(TypeOf(env, a, hint))
    case Not(a) => OnlyBool(TypeOf(env, a, hint))
    case Arith(_, a, b) =>
      var l := TypeOf(env, a, hint);
      OnlyInt(Same(l, TypeOf(env, b, RightHint(l, hint))))
    case Compare(op, a, b) =>
      var l := TypeOf(env, a, None);
      var both := Same(l, TypeOf(env, b, RightHint(l, None)));
      if both.None? || (op != Eq && op != Neq && both.value.BoolTy?) then None else Some(BoolTy)
    case Logic(_, a, b) =>
      var l := TypeOf(env, a, None);
      OnlyBool(Same(l, TypeOf(env, b, RightHint(l, None))))
    case If(c, a, b) =>
      var l := TypeOf(env, a, hint);
      if OnlyBool(TypeOf(env, c, Some(BoolTy))).None? then None else Same(l, TypeOf(env, b, Else(hint, l)))
    case Arrow(a, b) =>
      var l := TypeOf(env, a, hint);
      Same(l, TypeOf(env, b, Else(hint, l)))
    case Pre(a) => TypeOf(env, a, hint)
    case Index(x, i) =>
      if x in env.arrays && OnlyInt(TypeOf(env, i, None)).Some? then Some(IntTy(env.arrays[x].1)) else None
    case Cast(to, a) => if OnlyInt(TypeOf(env, a, None)).Some? then Some(IntTy(to)) else None
    case Call(_, f, args) => CallType(env, f, |args|)
    case Condact(_, _, f, args, _) => CallType(env, f, |args|)
  }

  predicate Callable(env: Env, f: string, n: nat) {
    f in env.callees && |env.callees[f].params| == n
  }

  function CallType(env: Env, f: string, n: nat): Option<Ty> {
    if Callable(env, f, n) then Some(env.callees[f].result) else None
  }

  /** The type the checks see: inferred without any hint from the context. */
  function IntTypeOf(env: Env, e: Expr): Option<IntType> {
    var t := TypeOf(env, e, None);
    if t.Some? && t.value.IntTy? then Some(t.value.t) else None
  }

  // ---------------------------------------------------------------- intervals

  function RangeIf(t: Option<IntType>): Option<Interval> {
    if t.Some? then Some(RangeOf(t.value)) else None
  }

  predicate IsOperation(e: Expr) {
    e.Neg? || e.Arith?
  }

  function ClampIf(raw: Option<Interval>, range: Option<Interval>): Option<Interval> {
    if raw.Some? && range.Some? then Some(Meet(raw.value, range.value)) else OrElse(raw, range)
  }

  /** A sound interval for an integer expression; `None` when it has none. */
  function Bounds(env: Env, e: Expr): Option<Interval>
    decreases e, 1
  {
    var raw := RawBounds(env, e);
    if !IsOperation(e) then raw else
    var t := IntTypeOf(env, e);
    ClampIf(raw, if t.Some? then Some(RangeOf(Promoted(t.value))) else None)
  }

  function ArithBounds(op: ArithOp, a: Interval, b: Interval): Interval {
    match op
    case Add => AddBounds(a, b)
    case Sub => SubBounds(a, b)
    case Mul => MulBounds(a, b)
    case Div => DivBounds(a, b)
    case Mod => ModBounds(a, b)
  }

  /** The interval of an operation itself, before its own check. */
  function RawBounds(env: Env, e: Expr): Option<Interval>
    decreases e, 0
  {
    match e
    case Lit(v) => Some(Interval(v, v))
    case Neg(a) =>
      var r := Bounds(env, a);
      if r.Some? then Some(Interval(-r.value.hi, -r.value.lo)) else None
    case Arith(op, a, b) =>
      var x, y := Bounds(env, a), Bounds(env, b);
      if x.Some? && y.Some? then Some(ArithBounds(op, x.value, y.value)) else RangeIf(IntTypeOf(env, e))
    case If(_, a, b) =>
      var x, y := Bounds(env, a), Bounds(env, b);
      if x.Some? && y.Some? then Some(Hull(x.value, y.value)) else RangeIf(IntTypeOf(env, e))
    case Arrow(a, b) =>
      var x, y := Bounds(env, a), Bounds(env, b);
      if x.Some? && y.Some? then Some(Hull(x.value, y.value)) else RangeIf(IntTypeOf(env, e))
    case _ => RangeIf(IntTypeOf(env, e))
  }

  predicate Fits(r: Option<Interval>, range: Interval) {
    r.Some? && Covers(range, r.value)
  }

  // ---------------------------------------------------------------- the checks

  datatype Kind = Overflow | Narrowing | DivisionByZero | IndexOutOfBounds

  datatype Check = Check(kind: Kind, body: Expr)

  /** A condition the expression is evaluated under; `clock` when it is a clock's. */
  datatype Guard = Guard(cond: Expr, clock: bool)

  /** A literal in source form: negative ones negated, ones beyond signed 64 bits a sum. */
  function IntLit(v: int): Expr
    decreases Abs(v), v < 0
  {
    if v < 0 then Neg(IntLit(-v))
    else if v > Hi(Int64) then Arith(Add, Lit(Hi(Int64)), IntLit(v - Hi(Int64)))
    else Lit(v)
  }

  function Within(e: Expr, r: Interval): Expr {
    Logic(And, Compare(Le, IntLit(r.lo), e), Compare(Le, e, IntLit(r.hi)))
  }

  function Guarded(guards: seq<Guard>, cond: Expr): Expr {
    if guards == [] then cond else Logic(Implies, guards[0].cond, Guarded(guards[1..], cond))
  }

  function ClocksOf(guards: seq<Guard>): seq<Guard> {
    if guards == [] then []
    else (if guards[0].clock then [guards[0]] else []) + ClocksOf(guards[1..])
  }

  /** A clock condition introduced by clock elimination. */
  predicate IsClock(e: Expr) {
    e.Var? && |e.x| >= 4 && e.x[..4] == "__ck"
  }

  function FirstCycle(): Expr {
    Arrow(Bool(true), Bool(false))
  }

  /** A narrow value stored must fit its type. */
  function Store(env: Env, e: Expr, into: Option<string>, guards: seq<Guard>): seq<Check> {
    var t := IntTypeOf(env, e);
    if t.None? || !Narrow(t.value) || Fits(Bounds(env, e), RangeOf(t.value)) then []
    else [Check(Narrowing, Guarded(guards, Within(if into.Some? then Var(into.value) else e, RangeOf(t.value))))]
  }

  predicate MayBeZero(env: Env, e: Expr) {
    var r := Bounds(env, e);
    r.None? || r.value.lo <= 0 <= r.value.hi
  }

  /** What an operation is checked for; `a % b` overflows exactly when `a / b` does. */
  function Subject(e: Expr): Expr {
    if e.Arith? && e.op == Mod then Arith(Div, e.lhs, e.rhs) else e
  }

  function OverflowCheck(env: Env, e: Expr, t: IntType, guards: seq<Guard>): seq<Check> {
    var r := RangeOf(Promoted(t));
    if Fits(RawBounds(env, Subject(e)), r) then [] else [Check(Overflow, Guarded(guards, Within(Subject(e), r)))]
  }

  function ArithChecks(env: Env, e: Expr, guards: seq<Guard>): seq<Check>
    requires e.Arith?
  {
    var t := IntTypeOf(env, e);
    if t.None? then []
    else if (e.op == Div || e.op == Mod) && MayBeZero(env, e.rhs) then
      var nonzero := Compare(Neq, e.rhs, Lit(0));
      [Check(DivisionByZero, Guarded(guards, nonzero))]
      + OverflowCheck(env, e, t.value, guards + [Guard(nonzero, false)])
    else OverflowCheck(env, e, t.value, guards)
  }

  function IndexChecks(env: Env, e: Expr, guards: seq<Guard>): seq<Check>
    requires e.Index?
  {
    if e.base !in env.arrays then [] else
    var length: int := env.arrays[e.base].0;
    var r := Interval(0, length - 1);
    if Fits(Bounds(env, e.index), r) then [] else [Check(IndexOutOfBounds, Guarded(guards, Within(e.index, r)))]
  }

  /** The arguments of a hoisted call are evaluated on every tick of its clock. */
  function CallGuards(act: Expr, guards: seq<Guard>): seq<Guard> {
    ClocksOf(guards) + [Guard(act, true)]
  }

  /** Arguments are stored at their type. */
  function ArgumentStores(env: Env, args: seq<Expr>, guards: seq<Guard>): seq<Check> {
    if args == [] then [] else Store(env, args[0], None, guards) + ArgumentStores(env, args[1..], guards)
  }

  function CallChecks(env: Env, f: string, args: seq<Expr>, guards: seq<Guard>): seq<Check>
    decreases args, 1
  {
    (if f in env.callees then ArgumentStores(env, args, guards) else []) + WalkAll(env, args, guards)
  }

  function WalkAll(env: Env, args: seq<Expr>, guards: seq<Guard>): seq<Check>
    decreases args, 0
  {
    if args == [] then [] else Walk(env, args[0], guards) + WalkAll(env, args[1..], guards)
  }

  /** Every check of `e`, each under the conditions C evaluates it under. */
  function Walk(env: Env, e: Expr, guards: seq<Guard>): seq<Check>
    decreases e
  {
    match e
    case Lit(_) => []
    case Bool(_) => []
    case Var(_) => []
    case Neg(a) =>
      var t := IntTypeOf(env, e);
      (if t.Some? then OverflowCheck(env, e, t.value, guards) else []) + Walk(env, a, guards)
    case Not(a) => Walk(env, a, guards)
    case Arith(_, a, b) => ArithChecks(env, e, guards) + Walk(env, a, guards) + Walk(env, b, guards)
    case Compare(_, a, b) => Walk(env, a, guards) + Walk(env, b, guards)
    case Logic(_, a, b) => Walk(env, a, guards) + Walk(env, b, guards)
    case If(c, a, b) =>
      Walk(env, c, guards)
      + Walk(env, a, guards + [Guard(c, IsClock(c))])
      + Walk(env, b, guards + [Guard(Not(c), false)])
    case Arrow(a, b) =>
      Walk(env, a, guards + [Guard(FirstCycle(), false)])
      + Walk(env, b, guards + [Guard(Not(FirstCycle()), false)])
    case Pre(a) => Walk(env, a, ClocksOf(guards)) + Store(env, a, None, ClocksOf(guards))
    case Index(_, i) => IndexChecks(env, e, guards) + Walk(env, i, guards)
    case Cast(_, a) => Walk(env, a, guards)
    case Call(_, f, args) => CallChecks(env, f, args, guards)
    case Condact(act, _, f, args, d) =>
      Walk(env, act, guards) + CallChecks(env, f, args, CallGuards(act, guards)) + Walk(env, d, guards)
  }

  /** The checks of one equation: its operations, and the store of its value. */
  function EquationChecks(env: Env, x: string, rhs: Expr): seq<Check> {
    Walk(env, rhs, []) + Store(env, rhs, Some(x), [])
  }

  // ---------------------------------------------------------------- when checks hold

  predicate Holds(c: Expr, s: State) {
    Math(c, s) != 0
  }

  predicate AllHold(checks: seq<Check>, s: State) {
    forall i | 0 <= i < |checks| :: Holds(checks[i].body, s)
  }

  predicate GuardsHold(guards: seq<Guard>, s: State) {
    forall i | 0 <= i < |guards| :: Holds(guards[i].cond, s)
  }

  lemma AllHoldSplit(a: seq<Check>, b: seq<Check>, s: State)
    ensures AllHold(a + b, s) <==> AllHold(a, s) && AllHold(b, s)
  {
    if AllHold(a + b, s) {
      forall i | 0 <= i < |a| ensures Holds(a[i].body, s) { assert (a + b)[i] == a[i]; }
      forall i | 0 <= i < |b| ensures Holds(b[i].body, s) { assert (a + b)[|a| + i] == b[i]; }
    }
  }

  lemma {:induction false} IntLitValue(v: int, s: State)
    ensures Math(IntLit(v), s) == v
    decreases Abs(v), v < 0
  {
    if v < 0 { IntLitValue(-v, s); } else if v > Hi(Int64) { IntLitValue(v - Hi(Int64), s); }
  }

  /** A range check says what it should. */
  lemma WithinMeans(e: Expr, r: Interval, s: State)
    ensures Holds(Within(e, r), s) <==> Inside(Math(e, s), r)
  {
    IntLitValue(r.lo, s);
    IntLitValue(r.hi, s);
    assert Math(Compare(Le, IntLit(r.lo), e), s) == Flag(r.lo <= Math(e, s));
    assert Math(Compare(Le, e, IntLit(r.hi)), s) == Flag(Math(e, s) <= r.hi);
  }

  /** A guarded condition is only asked for where its guards hold. */
  lemma {:induction false} GuardedMeans(guards: seq<Guard>, cond: Expr, s: State)
    ensures Holds(Guarded(guards, cond), s) <==> (GuardsHold(guards, s) ==> Holds(cond, s))
    decreases |guards|
  {
    if guards != [] {
      GuardedMeans(guards[1..], cond, s);
      assert GuardsHold(guards, s) <==> Holds(guards[0].cond, s) && GuardsHold(guards[1..], s) by {
        if GuardsHold(guards, s) {
          forall i | 0 <= i < |guards[1..]| ensures Holds(guards[1..][i].cond, s) { assert guards[i+1] == guards[1..][i]; }
        }
        if Holds(guards[0].cond, s) && GuardsHold(guards[1..], s) {
          forall i | 0 <= i < |guards| ensures Holds(guards[i].cond, s) { if i > 0 { assert guards[i] == guards[1..][i-1]; } }
        }
      }
    }
  }

  lemma {:induction false} ClocksHold(guards: seq<Guard>, s: State)
    requires GuardsHold(guards, s)
    ensures GuardsHold(ClocksOf(guards), s)
    decreases |guards|
  {
    if guards != [] {
      assert GuardsHold(guards[1..], s) by {
        forall i | 0 <= i < |guards[1..]| ensures Holds(guards[1..][i].cond, s) { assert guards[i+1] == guards[1..][i]; }
      }
      ClocksHold(guards[1..], s);
      assert Holds(guards[0].cond, s);
    }
  }
}
