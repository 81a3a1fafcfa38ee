/** The clocked dataflow language and its held-value semantics: what one run of
    a node's equations means when every signal has exactly one value per cycle. */
module Lustre {

  /** `Undef` is what an uninitialized `pre` yields; every operator is strict in it. */
  datatype Value = Undef | Bool(b: bool) | Int(i: int)

  datatype Type = BoolType | IntType

  /** What a clocked variable of this type holds before its first activation. */
  function Default(ty: Type): Value {
    match ty
    case BoolType => Bool(false)
    case IntType => Int(0)
  }

  predicate Truth(v: Value) {
    match v
    case Undef => false
    case Bool(b) => b
    case Int(i) => i != 0
  }

  function Number(v: Value): int {
    match v
    case Undef => 0
    case Bool(b) => if b then 1 else 0
    case Int(i) => i
  }

  datatype UnaryOp = Not | Neg

  datatype BinaryOp = And | Or | Xor | Implies | Eq | Neq | Lt | Le | Gt | Ge | Add | Sub | Mul

  function ApplyUnary(op: UnaryOp, v: Value): Value {
    if v.Undef? then Undef else
    match op
    case Not => Bool(!Truth(v))
    case Neg => Int(-Number(v))
  }

  function ApplyBinary(op: BinaryOp, v: Value, w: Value): Value {
    if v.Undef? || w.Undef? then Undef else
    match op
    case And => Bool(Truth(v) && Truth(w))
    case Or => Bool(Truth(v) || Truth(w))
    case Xor => if v.Bool? && w.Bool? then Bool(v.b != w.b) else Undef
    case Implies => Bool(!Truth(v) || Truth(w))
    case Eq => Bool(Number(v) == Number(w))
    case Neq => Bool(Number(v) != Number(w))
    case Lt => Bool(Number(v) < Number(w))
    case Le => Bool(Number(v) <= Number(w))
    case Gt => Bool(Number(v) > Number(w))
    case Ge => Bool(Number(v) >= Number(w))
    case Add => Int(Number(v) + Number(w))
    case Sub => Int(Number(v) - Number(w))
    case Mul => Int(Number(v) * Number(w))
  }

  /** Arithmetic, each operator by what it undoes or adds up. */
  lemma ArithmeticLaws(x: int, y: int)
    ensures ApplyBinary(Add, ApplyBinary(Sub, Int(x), Int(y)), Int(y)) == Int(x)
    ensures ApplyBinary(Add, Int(x), ApplyUnary(Neg, Int(x))) == Int(0)
    ensures ApplyBinary(Add, Int(x), Int(0)) == Int(x) && ApplyBinary(Add, Int(x), Int(1)) == Int(x + 1)
    ensures ApplyBinary(Mul, Int(x), Int(0)) == Int(0)
    ensures ApplyBinary(Mul, Int(x), Int(y + 1)) == ApplyBinary(Add, ApplyBinary(Mul, Int(x), Int(y)), Int(x))
  {
    assert x * (y + 1) == x * y + x;
  }

  /** Order and equality, each by the others. */
  lemma OrderLaws(x: int, y: int)
    ensures ApplyBinary(Eq, Int(x), Int(y)) == Bool(true) <==> x == y
    ensures ApplyBinary(Neq, Int(x), Int(y)) == ApplyUnary(Not, ApplyBinary(Eq, Int(x), Int(y)))
    ensures ApplyBinary(Lt, Int(x), Int(x + 1)) == Bool(true)
    ensures ApplyBinary(Le, Int(x), Int(y)) == ApplyBinary(Or, ApplyBinary(Lt, Int(x), Int(y)), ApplyBinary(Eq, Int(x), Int(y)))
    ensures ApplyBinary(Gt, Int(x), Int(y)) == ApplyBinary(Lt, Int(y), Int(x)) == ApplyUnary(Not, ApplyBinary(Le, Int(x), Int(y)))
    ensures ApplyBinary(Ge, Int(x), Int(y)) == ApplyBinary(Le, Int(y), Int(x))
  {
  }

  /** Logic, each operator by `not` and `or`, and these by the truth values. */
  lemma LogicLaws(p: bool, q: bool)
    ensures ApplyUnary(Not, Bool(p)) == Bool(true) <==> p == false
    ensures ApplyBinary(Or, Bool(p), Bool(q)) == Bool(false) <==> p == q == false
    ensures ApplyUnary(Not, ApplyBinary(And, Bool(p), Bool(q))) == ApplyBinary(Or, ApplyUnary(Not, Bool(p)), ApplyUnary(Not, Bool(q)))
    ensures ApplyBinary(Implies, Bool(p), Bool(q)) == ApplyBinary(Or, ApplyUnary(Not, Bool(p)), Bool(q))
    ensures ApplyBinary(Xor, Bool(p), Bool(q)) == ApplyBinary(Neq, Bool(p), Bool(q)) == ApplyUnary(Not, ApplyBinary(Eq, Bool(p), Bool(q)))
    ensures ApplyBinary(Eq, Bool(p), Bool(q)) == Bool(true) <==> p == q
  {
  }

  /** A choice is strict in its condition and lazy in its branches. */
  function Choose(c: Value, a: Value, b: Value): Value {
    if c.Undef? then Undef else if Truth(c) then a else b
  }

  /** The base clock, or a parent clock sampled by a boolean variable. */
  datatype Clock = Base | On(clock: string, on: bool, parent: Clock)

  function Parent(ck: Clock): Clock {
    if ck.On? then ck.parent else Base
  }

  /** The variables whose values decide whether a clock is active. */
  function Conditions(ck: Clock): set<string> {
    match ck
    case Base => {}
    case On(c, _, p) => Conditions(p) + {c}
  }

  /** `site` identifies a call occurrence: each occurrence owns its own instance. */
  datatype Expr =
    | Const(v: Value)
    | Var(x: string)
    | Unary(uop: UnaryOp, arg: Expr)
    | Binary(bop: BinaryOp, lhs: Expr, rhs: Expr)
    | If(cond: Expr, thn: Expr, els: Expr)
    | Pre(arg: Expr)
    | Arrow(init: Expr, body: Expr)
    | When(arg: Expr, clock: string, on: bool)
    | Merge(clock: string, onTrue: Expr, onFalse: Expr)
    | Call(site: nat, node: string, args: seq<Expr>)
    | Condact(act: Expr, site: nat, node: string, args: seq<Expr>, init: Expr)

  /** The operands of an expression, in reading order. */
  function Operands(e: Expr): seq<Expr> {
    match e
    case Unary(_, a) => [a]
    case Binary(_, a, b) => [a, b]
    case If(c, a, b) => [c, a, b]
    case Pre(a) => [a]
    case Arrow(a, b) => [a, b]
    case When(a, _, _) => [a]
    case Merge(_, a, b) => [a, b]
    case Call(_, _, args) => args
    case _ => []
  }

  /** An equation binds one variable. */
  datatype Equation = Equation(lhs: string, rhs: Expr)

  datatype Node = Node(
    inputs: map<string, Type>,
    outputs: map<string, Type>,
    locals: map<string, Type>,
    equations: seq<Equation>)

  function Defined(eqs: seq<Equation>): set<string> {
    set i | 0 <= i < |eqs| :: eqs[i].lhs
  }

  /** Each variable has one definition. */
  ghost predicate UniqueDefinitions(eqs: seq<Equation>) {
    forall i, j | 0 <= i < j < |eqs| :: eqs[i].lhs != eqs[j].lhs
  }

  function VarType(node: Node, x: string): Type {
    if x in node.locals then node.locals[x]
    else if x in node.outputs then node.outputs[x]
    else if x in node.inputs then node.inputs[x]
    else BoolType
  }

  // ---------------------------------------------------------------- callees

  type Memory = seq<Value>

  /** A stateful callee: the memory an instance starts from, and one step of it. */
  datatype Machine = Machine(init: Memory, step: (Memory, seq<Value>) -> (Memory, Value))

  function MemoryAfter(m: Machine, history: seq<seq<Value>>): Memory {
    if history == [] then m.init
    else m.step(MemoryAfter(m, history[..|history|-1]), history[|history|-1]).0
  }

  function Output(m: Machine, history: seq<seq<Value>>): Value
    requires history != []
  {
    m.step(MemoryAfter(m, history[..|history|-1]), history[|history|-1]).1
  }

  predicate AllDefined(vs: seq<Value>) {
    forall i | 0 <= i < |vs| :: !vs[i].Undef?
  }

  predicate HistoryDefined(history: seq<seq<Value>>) {
    forall i | 0 <= i < |history| :: AllDefined(history[i])
  }

  /** What an instance answers after being stepped on `history`. */
  function Respond(m: Machine, history: seq<seq<Value>>): Value {
    if history != [] && HistoryDefined(history) then Output(m, history) else Undef
  }

  /** What a stateless function answers: only this cycle's arguments matter. */
  function Apply(m: Machine, args: seq<Value>): Value {
    if AllDefined(args) then m.step(m.init, args).1 else Undef
  }

  /** The callees by name, which of them are stateless functions, and the value
      an uninitialized `pre` happens to have. */
  datatype Context = Context(callees: string -> Machine, functions: set<string>, nil: Value)

  // ---------------------------------------------------------------- clocks in time

  /** The value of every variable at every cycle. */
  type Trace = (nat, string) -> Value

  predicate Active(ck: Clock, t: Trace, n: nat) {
    match ck
    case Base => true
    case On(c, on, p) => Active(p, t, n) && Truth(t(n, c)) == on
  }

  /** Some cycle before `n` was a tick of `ck`. */
  predicate Ticked(ck: Clock, t: Trace, n: nat) {
    n > 0 && (Active(ck, t, n-1) || Ticked(ck, t, n-1))
  }

  /** The latest tick of `ck` before `n`. */
  function LastTick(ck: Clock, t: Trace, n: nat): (m: nat)
    requires Ticked(ck, t, n)
    ensures m < n && Active(ck, t, m)
    ensures forall k | m < k < n :: !Active(ck, t, k)
  {
    if Active(ck, t, n-1) then n-1 else LastTick(ck, t, n-1)
  }

  /** How often `ck` ticked before cycle `n`. */
  function Ticks(ck: Clock, t: Trace, n: nat): nat {
    if n == 0 then 0 else Ticks(ck, t, n-1) + if Active(ck, t, n-1) then 1 else 0
  }

  lemma {:induction false} TicksGrow(ck: Clock, t: Trace, m: nat, n: nat)
    requires m <= n
    ensures Ticks(ck, t, m) <= Ticks(ck, t, n)
    ensures m < n && Active(ck, t, m) ==> Ticks(ck, t, m) < Ticks(ck, t, n)
    decreases n
  {
    if m < n { TicksGrow(ck, t, m, n-1); }
  }

  // ---------------------------------------------------------------- expressions in time

  /** The value of `e`, running on clock `ck`, at cycle `n`. A variable under
      `pre` is read from the previous cycle's snapshot: it holds its value
      between ticks. `->` takes `init` until its clock has ticked. */
  function Eval(cx: Context, e: Expr, ck: Clock, t: Trace, n: nat): Value
    decreases e, 2, 0
  {
    match e
    case Const(v) => v
    case Var(x) => t(n, x)
    case Unary(op, a) => ApplyUnary(op, Eval(cx, a, ck, t, n))
    case Binary(op, a, b) => ApplyBinary(op, Eval(cx, a, ck, t, n), Eval(cx, b, ck, t, n))
    case If(c, a, b) => Choose(Eval(cx, c, ck, t, n), Eval(cx, a, ck, t, n), Eval(cx, b, ck, t, n))
    case Pre(a) =>
      if !Ticked(ck, t, n) then cx.nil
      else if a.Var? then t(n-1, a.x)
      else Eval(cx, a, ck, t, LastTick(ck, t, n))
    case Arrow(a, b) => if Ticked(ck, t, n) then Eval(cx, b, ck, t, n) else Eval(cx, a, ck, t, n)
    case When(a, _, _) => Eval(cx, a, Parent(ck), t, n)
    case Merge(c, a, b) =>
      Choose(t(n, c), Eval(cx, a, On(c, true, ck), t, n), Eval(cx, b, On(c, false, ck), t, n))
    case Call(_, f, args) =>
      if f in cx.functions then Apply(cx.callees(f), EvalAll(cx, args, ck, t, n))
      else Respond(cx.callees(f), History(cx, args, ck, t, n))
    case Condact(_, _, _, _, _) => CondactRun(cx, e, t, n).1
  }

  function EvalAll(cx: Context, args: seq<Expr>, ck: Clock, t: Trace, n: nat): (vs: seq<Value>)
    ensures |vs| == |args|
    decreases args, 0, 0
  {
    seq(|args|, i requires 0 <= i < |args| => Eval(cx, args[i], ck, t, n))
  }

  /** The argument tuples of a call on `ck`, one per tick up to and including cycle `n`. */
  function History(cx: Context, args: seq<Expr>, ck: Clock, t: Trace, n: nat): seq<seq<Value>>
    decreases args, 1, n
  {
    (if n == 0 then [] else History(cx, args, ck, t, n-1)) +
    (if Active(ck, t, n) then [EvalAll(cx, args, ck, t, n)] else [])
  }

  /** Conditional activation, on the base clock: the instance's memory and the
      output it shows after cycle `n`. The callee steps only on the cycles
      where `act` holds; otherwise its last output (at first `init`) repeats. */
  function CondactRun(cx: Context, e: Expr, t: Trace, n: nat): (Memory, Value)
    requires e.Condact?
    decreases e, 1, n
  {
    var m := cx.callees(e.node);
    var before :=
      if n == 0 then (m.init, Eval(cx, e.init, Base, t, 0)) else CondactRun(cx, e, t, n-1);
    if Truth(Eval(cx, e.act, Base, t, n))
    then m.step(before.0, EvalAll(cx, e.args, Base, t, n))
    else before
  }

  lemma HistoryPrefix(cx: Context, args: seq<Expr>, ck: Clock, t: Trace, n: nat)
    requires n > 0 && HistoryDefined(History(cx, args, ck, t, n))
    ensures HistoryDefined(History(cx, args, ck, t, n-1))
  {
    var h, before := History(cx, args, ck, t, n), History(cx, args, ck, t, n-1);
    assert forall i | 0 <= i < |before| :: h[i] == before[i];
  }

  // ---------------------------------------------------------------- runs

  /** The value an equation on clock `ck` gives its variable: its right-hand side
      on active cycles, otherwise the value it already had. */
  function Held(cx: Context, eq: Equation, ck: Clock, d: Value, t: Trace, n: nat): Value {
    if Active(ck, t, n) then Eval(cx, eq.rhs, ck, t, n)
    else if n == 0 then d
    else t(n-1, eq.lhs)
  }

  /** Equations together with the clock each runs on and the default of its variable. */
  datatype Clocked = Clocked(eq: Equation, ck: Clock, default: Value)

  function DefinedVars(sys: seq<Clocked>): set<string> {
    set i | 0 <= i < |sys| :: sys[i].eq.lhs
  }

  ghost predicate StepOk(cx: Context, sys: seq<Clocked>, t: Trace, n: nat) {
    forall i | 0 <= i < |sys| ::
      t(n, sys[i].eq.lhs) == Held(cx, sys[i].eq, sys[i].ck, sys[i].default, t, n)
  }

  /** `t` solves every equation at every cycle. */
  ghost predicate Run(cx: Context, sys: seq<Clocked>, t: Trace) {
    forall n: nat :: StepOk(cx, sys, t, n)
  }


  // ---------------------------------------------------------------- reads

  /** Variables an expression reads in the current cycle: every variable not
      under a `pre`, clock conditions included. */
  function Reads(e: Expr): set<string> {
    match e
    case Const(_) => {}
    case Var(x) => {x}
    case Unary(_, a) => Reads(a)
    case Binary(_, a, b) => Reads(a) + Reads(b)
    case If(c, a, b) => Reads(c) + Reads(a) + Reads(b)
    case Pre(_) => {}
    case Arrow(a, b) => Reads(a) + Reads(b)
    case When(a, c, _) => Reads(a) + {c}
    case Merge(c, a, b) => Reads(a) + Reads(b) + {c}
    case Call(_, _, args) => ReadsAll(args)
    case Condact(act, _, _, args, init) => Reads(act) + ReadsAll(args) + Reads(init)
  }

  function ReadsAll(args: seq<Expr>): (r: set<string>)
    ensures forall i | 0 <= i < |args| :: Reads(args[i]) <= r
  {
    if args == [] then {} else
    var rest := ReadsAll(args[1..]);
    assert forall i | 0 < i < |args| :: args[i] == args[1..][i-1];
    Reads(args[0]) + rest
  }

  /** Every variable an expression mentions, under a `pre` or not. */
  function Names(e: Expr): set<string> {
    match e
    case Const(_) => {}
    case Var(x) => {x}
    case Unary(_, a) => Names(a)
    case Binary(_, a, b) => Names(a) + Names(b)
    case If(c, a, b) => Names(c) + Names(a) + Names(b)
    case Pre(a) => Names(a)
    case Arrow(a, b) => Names(a) + Names(b)
    case When(a, c, _) => Names(a) + {c}
    case Merge(c, a, b) => Names(a) + Names(b) + {c}
    case Call(_, _, args) => NamesAll(args)
    case Condact(act, _, _, args, init) => Names(act) + NamesAll(args) + Names(init)
  }

  function NamesAll(args: seq<Expr>): (r: set<string>)
    ensures forall i | 0 <= i < |args| :: Names(args[i]) <= r
  {
    if args == [] then {} else
    var rest := NamesAll(args[1..]);
    assert forall i | 0 < i < |args| :: args[i] == args[1..][i-1];
    Names(args[0]) + rest
  }
}
