/** The C step machine a node is emitted as: the lowering of clocked expressions
    to C, and the emitted program running on its own state. */
module StepMachine {
  import opened Lustre
  import opened Execution
  import opened COperators

  // ---------------------------------------------------------------- emitted code

  /** A C expression. `First` is the flag an emitted `->` consults: not
      `initialized` on the base clock, not `clkN_ticked` on any other. */
  datatype CExpr =
    | Literal(v: Value)
    | Ref(x: string)
    | Prev(x: string)
    | First(ck: Clock)
    | Out(site: nat)
    | CUnary(uop: CUnaryOp, arg: CExpr)
    | CBinary(bop: CBinaryOp, lhs: CExpr, rhs: CExpr)
    | Ternary(cond: CExpr, thn: CExpr, els: CExpr)

  /** A hoisted call: the callee steps on its own instance and fills `Out(site)`. */
  datatype CCall = CCall(site: nat, callee: string, args: seq<CExpr>)

  /** Statements to run first, then the expression. */
  datatype Code = Code(calls: seq<CCall>, values: seq<CExpr>)

  /** A subexpression with the clock it runs on. */
  datatype Part = Part(e: Expr, ck: Clock)

  /** The operands that are lowered in place, in emission order. */
  function Parts(e: Expr, ck: Clock): (ps: seq<Part>)
    ensures forall i | 0 <= i < |ps| :: ps[i].e < e
  {
    match e
    case Const(_) => []
    case Var(_) => []
    case Unary(_, a) => [Part(a, ck)]
    case Binary(_, a, b) => [Part(a, ck), Part(b, ck)]
    case If(c, a, b) => [Part(c, ck), Part(a, ck), Part(b, ck)]
    case Pre(_) => []
    case Arrow(a, b) => [Part(a, ck), Part(b, ck)]
    case When(a, _, _) => [Part(a, Parent(ck))]
    case Merge(c, a, b) => [Part(a, On(c, true, ck)), Part(b, On(c, false, ck))]
    case Call(_, _, args) => seq(|args|, i requires 0 <= i < |args| => Part(args[i], ck))
    case Condact(_, _, _, _, _) => []
  }

  /** The C operator printed for an operator; `=>` has none of its own. */
  function Symbol(op: BinaryOp): CBinaryOp
    requires op != Implies
  {
    match op
    case And => AndAnd
    case Or => OrOr
    case Xor => Caret
    case Eq => EqualEqual
    case Neq => BangEqual
    case Lt => Less
    case Le => LessEqual
    case Gt => Greater
    case Ge => GreaterEqual
    case Add => Plus
    case Sub => Dash
    case Mul => Star
  }

  /** `l => r` is printed `((!l) || (r))`. */
  function PrintBinary(op: BinaryOp, l: CExpr, r: CExpr): CExpr {
    if op == Implies then CBinary(OrOr, CUnary(Bang, l), r) else CBinary(Symbol(op), l, r)
  }

  function PrintUnary(op: UnaryOp, a: CExpr): CExpr {
    CUnary(if op == Not then Bang else Minus, a)
  }

  /** The C expression for `e`, given those of its operands. */
  function Combine(e: Expr, ck: Clock, vs: seq<CExpr>): CExpr
    requires |vs| == |Parts(e, ck)|
  {
    match e
    case Const(v) => Literal(v)
    case Var(x) => Ref(x)
    case Unary(op, _) => PrintUnary(op, vs[0])
    case Binary(op, _, _) => PrintBinary(op, vs[0], vs[1])
    case If(_, _, _) => Ternary(vs[0], vs[1], vs[2])
    case Pre(a) => if a.Var? then Prev(a.x) else Literal(Int(0))
    case Arrow(_, _) => Ternary(First(ck), vs[0], vs[1])
    case When(_, _, _) => vs[0]
    case Merge(c, _, _) => Ternary(Ref(c), vs[0], vs[1])
    case Call(site, _, _) => Out(site)
    case Condact(_, _, _, _, _) => Literal(Int(0))
  }

  function LowerAnf(e: Expr, ck: Clock): (code: Code)
    ensures |code.values| == 1
    decreases e, 1, 0
  {
    var below := LowerAll(e, Parts(e, ck));
    Code(below.calls + (if e.Call? then [CCall(e.site, e.node, below.values)] else []),
         [Combine(e, ck, below.values)])
  }

  function LowerAll(ghost whole: Expr, ps: seq<Part>): (code: Code)
    requires forall i | 0 <= i < |ps| :: ps[i].e < whole
    ensures |code.values| == |ps|
    decreases whole, 0, |ps|
  {
    if ps == [] then Code([], []) else
    var first := LowerAnf(ps[0].e, ps[0].ck);
    var rest := LowerAll(whole, ps[1..]);
    Code(first.calls + rest.calls, first.values + rest.values)
  }

  // ---------------------------------------------------------------- running it

  /** What an emitted expression can see besides the results of calls. */
  datatype View = View(env: map<string, Value>, prev: map<string, Value>, initialized: bool, ticked: set<Clock>)

  /** The instances a node owns, and the results of this cycle's calls. */
  datatype Bank = Bank(subs: map<nat, Memory>, outs: map<nat, Value>)

  function Field<K>(m: map<K, Value>, x: K): Value {
    if x in m then m[x] else Undef
  }

  predicate IsFirst(ck: Clock, w: View) {
    if ck.Base? then !w.initialized else ck !in w.ticked
  }

  /** A Boolean or integer as the number C holds. */
  function AsNumber(v: Value): int {
    match v
    case Bool(true) => 1
    case Int(i) => i
    case _ => 0
  }

  predicate IsArithmetic(op: CBinaryOp) {
    op.Plus? || op.Dash? || op.Star?
  }

  /** The number as a value of the type the expression is stored at. */
  function AsValue(arithmetic: bool, n: int): Value {
    if arithmetic then Int(n) else Bool(n != 0)
  }

  function COperate(op: CBinaryOp, v: Value, w: Value): Value {
    if v.Undef? || w.Undef? then Undef else AsValue(IsArithmetic(op), CNumber(op, AsNumber(v), AsNumber(w)))
  }

  function COperateOne(op: CUnaryOp, v: Value): Value {
    if v.Undef? then Undef else AsValue(op.Minus?, CUnaryNumber(op, AsNumber(v)))
  }

  function CChoose(c: Value, a: Value, b: Value): Value {
    if c.Undef? then Undef else if AsNumber(c) == 0 then b else a
  }

  /** What is printed for an operator computes it. */
  lemma PrintedOperator(op: BinaryOp, v: Value, w: Value)
    ensures
      var c := if op == Implies then COperate(OrOr, COperateOne(Bang, v), w) else COperate(Symbol(op), v, w);
      ApplyBinary(op, v, w).Undef? || c == ApplyBinary(op, v, w)
  {
    if op == Xor { BitXorOfFlags(); }
  }

  lemma PrintedUnary(op: UnaryOp, v: Value)
    ensures COperateOne(if op == Not then Bang else Minus, v) == ApplyUnary(op, v)
  {
  }

  function CValue(c: CExpr, w: View, outs: map<nat, Value>): Value {
    match c
    case Literal(v) => v
    case Ref(x) => Field(w.env, x)
    case Prev(x) => Field(w.prev, x)
    case First(ck) => Bool(IsFirst(ck, w))
    case Out(site) => Field(outs, site)
    case CUnary(op, a) => COperateOne(op, CValue(a, w, outs))
    case CBinary(op, a, b) => COperate(op, CValue(a, w, outs), CValue(b, w, outs))
    case Ternary(c, a, b) => CChoose(CValue(c, w, outs), CValue(a, w, outs), CValue(b, w, outs))
  }

  function CValues(cs: seq<CExpr>, w: View, outs: map<nat, Value>): (vs: seq<Value>)
    ensures |vs| == |cs|
  {
    seq(|cs|, i requires 0 <= i < |cs| => CValue(cs[i], w, outs))
  }

  function RunCall(cx: Context, c: CCall, w: View, b: Bank): Bank {
    var args := CValues(c.args, w, b.outs);
    var m := cx.callees(c.callee);
    if c.callee in cx.functions then b.(outs := b.outs[c.site := m.step(m.init, args).1])
    else
      var (after, v) := m.step(if c.site in b.subs then b.subs[c.site] else [], args);
      Bank(b.subs[c.site := after], b.outs[c.site := v])
  }

  function RunCalls(cx: Context, calls: seq<CCall>, w: View, b: Bank): Bank {
    if calls == [] then b
    else RunCall(cx, calls[|calls|-1], w, RunCalls(cx, calls[..|calls|-1], w, b))
  }

  lemma {:induction false} RunAppend(cx: Context, first: seq<CCall>, rest: seq<CCall>, w: View, b: Bank)
    ensures RunCalls(cx, first + rest, w, b) == RunCalls(cx, rest, w, RunCalls(cx, first, w, b))
    decreases rest
  {
    if rest == [] {
      assert first + rest == first;
    } else {
      var k := |rest| - 1;
      assert (first + rest)[..|first| + k] == first + rest[..k];
      assert (first + rest)[|first| + k] == rest[k];
      RunAppend(cx, first, rest[..k], w, b);
    }
  }

  lemma RunLast(cx: Context, calls: seq<CCall>, c: CCall, w: View, b: Bank)
    ensures RunCalls(cx, calls + [c], w, b) == RunCall(cx, c, w, RunCalls(cx, calls, w, b))
  {
    assert (calls + [c])[..|calls|] == calls;
  }

  // ---------------------------------------------------------------- what an expression uses

  function Sites(e: Expr, ck: Clock): set<nat>
    decreases e, 1, 0
  {
    (if e.Call? then {e.site} else {}) + SitesAll(e, Parts(e, ck))
  }

  function SitesAll(ghost whole: Expr, ps: seq<Part>): set<nat>
    requires forall i | 0 <= i < |ps| :: ps[i].e < whole
    decreases whole, 0, |ps|
  {
    if ps == [] then {} else Sites(ps[0].e, ps[0].ck) + SitesAll(whole, ps[1..])
  }

  /** The variables that need a `prev_` field. */
  function PreVars(e: Expr, ck: Clock): set<string>
    decreases e, 1, 0
  {
    (if e.Pre? && e.arg.Var? then {e.arg.x} else {}) + PreVarsAll(e, Parts(e, ck))
  }

  function PreVarsAll(ghost whole: Expr, ps: seq<Part>): set<string>
    requires forall i | 0 <= i < |ps| :: ps[i].e < whole
    decreases whole, 0, |ps|
  {
    if ps == [] then {} else PreVars(ps[0].e, ps[0].ck) + PreVarsAll(whole, ps[1..])
  }

  /** The clocks hosting a `pre` or `->`: those whose ticks are recorded. */
  function Chains(e: Expr, ck: Clock): set<Clock>
    decreases e, 1, 0
  {
    (if e.Pre? || e.Arrow? then {ck} else {}) + ChainsAll(e, Parts(e, ck))
  }

  function ChainsAll(ghost whole: Expr, ps: seq<Part>): set<Clock>
    requires forall i | 0 <= i < |ps| :: ps[i].e < whole
    decreases whole, 0, |ps|
  {
    if ps == [] then {} else Chains(ps[0].e, ps[0].ck) + ChainsAll(whole, ps[1..])
  }

  /** What the emitter supports: `pre` of a variable only, every call site its
      own, and every stateful call on the clock `gate` of its equation, since
      calls are hoisted to the front of the guarded statement. */
  predicate Emittable(functions: set<string>, e: Expr, ck: Clock, gate: Clock)
    decreases e, 1, 0
  {
    && !e.Condact?
    && (e.Pre? ==> e.arg.Var?)
    && (e.Call? ==> (e.node in functions || ck == gate) && e.site !in SitesAll(e, Parts(e, ck)))
    && EmittableAll(functions, e, Parts(e, ck), gate)
  }

  predicate EmittableAll(functions: set<string>, ghost whole: Expr, ps: seq<Part>, gate: Clock)
    requires forall i | 0 <= i < |ps| :: ps[i].e < whole
    decreases whole, 0, |ps|
  {
    ps == [] ||
    (&& Emittable(functions, ps[0].e, ps[0].ck, gate)
     && Sites(ps[0].e, ps[0].ck) !! SitesAll(whole, ps[1..])
     && EmittableAll(functions, whole, ps[1..], gate))
  }

  // ---------------------------------------------------------------- agreement with the dataflow

  /** The view shows cycle `n` of `t`: this cycle's variables, the previous
      cycle's snapshots, and which clocks have ticked. */
  ghost predicate Shows(w: View, names: set<string>, pres: set<string>, chains: set<Clock>, t: Trace, n: nat) {
    && (forall x | x in names :: Field(w.env, x) == t(n, x))
    && (n > 0 ==> forall x | x in pres :: Field(w.prev, x) == t(n-1, x))
    && (forall ck | ck in chains :: IsFirst(ck, w) == !Ticked(ck, t, n))
  }

  /** The argument tuples of a call on the ticks of cycles before `n`. */
  function Before(cx: Context, args: seq<Expr>, ck: Clock, t: Trace, n: nat): seq<seq<Value>> {
    if n == 0 then [] else History(cx, args, ck, t, n-1)
  }

  /** The instance of a call has consumed exactly the arguments of the ticks before `n`. */
  ghost predicate SubOk(cx: Context, e: Expr, ck: Clock, t: Trace, n: nat, subs: map<nat, Memory>)
    requires e.Call?
  {
    var past := Before(cx, e.args, ck, t, n);
    e.node in cx.functions ||
    (e.site in subs && (HistoryDefined(past) ==> subs[e.site] == MemoryAfter(cx.callees(e.node), past)))
  }

  ghost predicate OutOk(cx: Context, e: Expr, ck: Clock, t: Trace, n: nat, outs: map<nat, Value>)
    requires e.Call?
  {
    var v := Eval(cx, e, ck, t, n);
    v.Undef? || Field(outs, e.site) == v
  }

  ghost predicate SubsOk(cx: Context, e: Expr, ck: Clock, t: Trace, n: nat, subs: map<nat, Memory>)
    decreases e, 1, 0
  {
    (e.Call? ==> SubOk(cx, e, ck, t, n, subs)) && SubsOkAll(cx, e, Parts(e, ck), t, n, subs)
  }

  ghost predicate SubsOkAll(cx: Context, whole: Expr, ps: seq<Part>, t: Trace, n: nat, subs: map<nat, Memory>)
    requires forall i | 0 <= i < |ps| :: ps[i].e < whole
    decreases whole, 0, |ps|
  {
    ps == [] || (SubsOk(cx, ps[0].e, ps[0].ck, t, n, subs) && SubsOkAll(cx, whole, ps[1..], t, n, subs))
  }

  ghost predicate OutsOk(cx: Context, e: Expr, ck: Clock, t: Trace, n: nat, outs: map<nat, Value>)
    decreases e, 1, 0
  {
    (e.Call? ==> OutOk(cx, e, ck, t, n, outs)) && OutsOkAll(cx, e, Parts(e, ck), t, n, outs)
  }

  ghost predicate OutsOkAll(cx: Context, whole: Expr, ps: seq<Part>, t: Trace, n: nat, outs: map<nat, Value>)
    requires forall i | 0 <= i < |ps| :: ps[i].e < whole
    decreases whole, 0, |ps|
  {
    ps == [] || (OutsOk(cx, ps[0].e, ps[0].ck, t, n, outs) && OutsOkAll(cx, whole, ps[1..], t, n, outs))
  }

  /** The instances `_init` sets up, one per stateful call site. */
  function Instances(cx: Context, e: Expr, ck: Clock): map<nat, Memory>
    decreases e, 1, 0
  {
    InstancesAll(cx, e, Parts(e, ck)) +
    (if e.Call? && e.node !in cx.functions then map[e.site := cx.callees(e.node).init] else map[])
  }

  function InstancesAll(cx: Context, ghost whole: Expr, ps: seq<Part>): map<nat, Memory>
    requires forall i | 0 <= i < |ps| :: ps[i].e < whole
    decreases whole, 0, |ps|
  {
    if ps == [] then map[] else Instances(cx, ps[0].e, ps[0].ck) + InstancesAll(cx, whole, ps[1..])
  }

  // ---------------------------------------------------------------- frames

  ghost predicate SameSubs(sites: set<nat>, a: map<nat, Memory>, b: map<nat, Memory>) {
    forall s | s in sites :: (s in a <==> s in b) && (s in a ==> a[s] == b[s])
  }

  ghost predicate SameOuts(sites: set<nat>, a: map<nat, Value>, b: map<nat, Value>) {
    forall s | s in sites :: Field(a, s) == Field(b, s)
  }

  /** Only the instances and results of `sites` differ. */
  ghost predicate Touches(sites: set<nat>, a: Bank, b: Bank) {
    && (forall s | s !in sites :: (s in a.subs <==> s in b.subs) && (s in a.subs ==> a.subs[s] == b.subs[s]))
    && (forall s | s !in sites :: Field(a.outs, s) == Field(b.outs, s))
  }

  lemma {:induction false} SubsFrame(cx: Context, e: Expr, ck: Clock, t: Trace, n: nat,
                                     a: map<nat, Memory>, b: map<nat, Memory>)
    requires SubsOk(cx, e, ck, t, n, a) && SameSubs(Sites(e, ck), a, b)
    ensures SubsOk(cx, e, ck, t, n, b)
    decreases e, 1, 0
  {
    SubsFrameAll(cx, e, Parts(e, ck), t, n, a, b);
  }

  lemma {:induction false} SubsFrameAll(cx: Context, whole: Expr, ps: seq<Part>, t: Trace, n: nat,
                                        a: map<nat, Memory>, b: map<nat, Memory>)
    requires forall i | 0 <= i < |ps| :: ps[i].e < whole
    requires SubsOkAll(cx, whole, ps, t, n, a) && SameSubs(SitesAll(whole, ps), a, b)
    ensures SubsOkAll(cx, whole, ps, t, n, b)
    decreases whole, 0, |ps|
  {
    if ps != [] {
      SubsFrame(cx, ps[0].e, ps[0].ck, t, n, a, b);
      SubsFrameAll(cx, whole, ps[1..], t, n, a, b);
    }
  }

  lemma {:induction false} OutsFrame(cx: Context, e: Expr, ck: Clock, t: Trace, n: nat,
                                     a: map<nat, Value>, b: map<nat, Value>)
    requires OutsOk(cx, e, ck, t, n, a) && SameOuts(Sites(e, ck), a, b)
    ensures OutsOk(cx, e, ck, t, n, b)
    decreases e, 1, 0
  {
    OutsFrameAll(cx, e, Parts(e, ck), t, n, a, b);
  }

  lemma {:induction false} OutsFrameAll(cx: Context, whole: Expr, ps: seq<Part>, t: Trace, n: nat,
                                        a: map<nat, Value>, b: map<nat, Value>)
    requires forall i | 0 <= i < |ps| :: ps[i].e < whole
    requires OutsOkAll(cx, whole, ps, t, n, a) && SameOuts(SitesAll(whole, ps), a, b)
    ensures OutsOkAll(cx, whole, ps, t, n, b)
    decreases whole, 0, |ps|
  {
    if ps != [] {
      OutsFrame(cx, ps[0].e, ps[0].ck, t, n, a, b);
      OutsFrameAll(cx, whole, ps[1..], t, n, a, b);
    }
  }

  // ---------------------------------------------------------------- expressions

  lemma PartsShown(e: Expr, ck: Clock, w: View, t: Trace, n: nat)
    requires Shows(w, Reads(e), PreVars(e, ck), Chains(e, ck), t, n)
    ensures ShowsAll(e, Parts(e, ck), w, t, n)
  {
    var ps := Parts(e, ck);
    forall i | 0 <= i < |ps| ensures Reads(ps[i].e) <= Reads(e) {
    }
    ShowsList(e, ps, Reads(e), w, t, n);
  }

  ghost predicate ShowsAll(whole: Expr, ps: seq<Part>, w: View, t: Trace, n: nat)
    requires forall i | 0 <= i < |ps| :: ps[i].e < whole
  {
    forall i | 0 <= i < |ps| ::
      Shows(w, Reads(ps[i].e), PreVars(ps[i].e, ps[i].ck), Chains(ps[i].e, ps[i].ck), t, n)
  }

  lemma {:induction false} ShowsList(whole: Expr, ps: seq<Part>, names: set<string>, w: View, t: Trace, n: nat)
    requires forall i | 0 <= i < |ps| :: ps[i].e < whole
    requires forall i | 0 <= i < |ps| :: Reads(ps[i].e) <= names
    requires Shows(w, names, PreVarsAll(whole, ps), ChainsAll(whole, ps), t, n)
    ensures ShowsAll(whole, ps, w, t, n)
    decreases |ps|
  {
    if ps != [] {
      ShowsList(whole, ps[1..], names, w, t, n);
      assert Reads(ps[0].e) <= names;
      forall i | 0 <= i < |ps|
        ensures Shows(w, Reads(ps[i].e), PreVars(ps[i].e, ps[i].ck), Chains(ps[i].e, ps[i].ck), t, n)
      {
        if i > 0 { assert ps[i] == ps[1..][i-1]; }
      }
    }
  }

  /** What an operand of the dataflow and its C expression have in common. */
  ghost predicate Agrees(cx: Context, p: Part, c: CExpr, w: View, outs: map<nat, Value>, t: Trace, n: nat) {
    var v := Eval(cx, p.e, p.ck, t, n);
    v.Undef? || CValue(c, w, outs) == v
  }

  /** Composing the C expressions of the operands composes their values. */
  lemma CombinedValue(cx: Context, e: Expr, ck: Clock, vs: seq<CExpr>, w: View, outs: map<nat, Value>, t: Trace, n: nat)
    requires cx.nil.Undef? && |vs| == |Parts(e, ck)|
    requires forall i | 0 <= i < |vs| :: Agrees(cx, Parts(e, ck)[i], vs[i], w, outs, t, n)
    requires Shows(w, Reads(e), PreVars(e, ck), Chains(e, ck), t, n)
    requires !e.Condact? && (e.Pre? ==> e.arg.Var?) && (e.Call? ==> OutOk(cx, e, ck, t, n, outs))
    ensures Agrees(cx, Part(e, ck), Combine(e, ck, vs), w, outs, t, n)
  {
    hide Eval, CValue, Combine, Reads, PreVars, Shows, OutOk;
    if e.If? {
      CombinedIf(cx, e, ck, vs, w, outs, t, n);
    } else if e.Arrow? || e.Merge? {
      assert Agrees(cx, Parts(e, ck)[0], vs[0], w, outs, t, n) && Agrees(cx, Parts(e, ck)[1], vs[1], w, outs, t, n);
      if e.Merge? {
        ClockShown(e, ck, w, t, n);
        CombinedMerge(cx, e, ck, vs, w, outs, t, n);
      } else {
        FirstShown(e, ck, w, t, n);
        CombinedArrow(cx, e, ck, vs, w, outs, t, n);
      }
    } else if e.Unary? || e.Binary? || e.When? {
      CombinedOperator(cx, e, ck, vs, w, outs, t, n);
    } else {
      CombinedLeaf(cx, e, ck, vs, w, outs, t, n);
    }
  }

  lemma ClockShown(e: Expr, ck: Clock, w: View, t: Trace, n: nat)
    requires e.Merge? && Shows(w, Reads(e), PreVars(e, ck), Chains(e, ck), t, n)
    ensures Field(w.env, e.clock) == t(n, e.clock)
  {
    assert e.clock in Reads(e);
  }

  lemma FirstShown(e: Expr, ck: Clock, w: View, t: Trace, n: nat)
    requires e.Arrow? && Shows(w, Reads(e), PreVars(e, ck), Chains(e, ck), t, n)
    ensures IsFirst(ck, w) == !Ticked(ck, t, n)
  {
    assert ck in Chains(e, ck);
  }

  lemma CombinedLeaf(cx: Context, e: Expr, ck: Clock, vs: seq<CExpr>, w: View, outs: map<nat, Value>, t: Trace, n: nat)
    requires cx.nil.Undef? && |vs| == |Parts(e, ck)|
    requires e.Const? || e.Var? || (e.Pre? && e.arg.Var?) || (e.Call? && OutOk(cx, e, ck, t, n, outs))
    requires Shows(w, Reads(e), PreVars(e, ck), Chains(e, ck), t, n)
    ensures Agrees(cx, Part(e, ck), Combine(e, ck, vs), w, outs, t, n)
  {
    if e.Pre? { assert ck in Chains(e, ck); }
  }

  lemma CombinedOperator(cx: Context, e: Expr, ck: Clock, vs: seq<CExpr>, w: View, outs: map<nat, Value>, t: Trace, n: nat)
    requires cx.nil.Undef? && |vs| == |Parts(e, ck)|
    requires forall i | 0 <= i < |vs| :: Agrees(cx, Parts(e, ck)[i], vs[i], w, outs, t, n)
    requires e.Unary? || e.Binary? || e.When?
    ensures Agrees(cx, Part(e, ck), Combine(e, ck, vs), w, outs, t, n)
  {
    assert Agrees(cx, Parts(e, ck)[0], vs[0], w, outs, t, n);
    if e.Binary? {
      assert Agrees(cx, Parts(e, ck)[1], vs[1], w, outs, t, n);
      CombinedBinary(e.bop, vs[0], vs[1], w, outs);
    } else if e.Unary? {
      PrintedUnary(e.uop, CValue(vs[0], w, outs));
    }
  }

  lemma CombinedBinary(op: BinaryOp, l: CExpr, r: CExpr, w: View, outs: map<nat, Value>)
    ensures var v := ApplyBinary(op, CValue(l, w, outs), CValue(r, w, outs));
      v.Undef? || CValue(PrintBinary(op, l, r), w, outs) == v
  {
    hide COperate, COperateOne, ApplyBinary;
    PrintedOperator(op, CValue(l, w, outs), CValue(r, w, outs));
  }

  lemma CombinedIf(cx: Context, e: Expr, ck: Clock, vs: seq<CExpr>, w: View, outs: map<nat, Value>, t: Trace, n: nat)
    requires e.If? && |vs| == 3
    requires forall i | 0 <= i < 3 :: Agrees(cx, Parts(e, ck)[i], vs[i], w, outs, t, n)
    ensures Agrees(cx, Part(e, ck), Combine(e, ck, vs), w, outs, t, n)
  {
    assert Agrees(cx, Part(e.cond, ck), vs[0], w, outs, t, n);
    assert Agrees(cx, Part(e.thn, ck), vs[1], w, outs, t, n);
    assert Agrees(cx, Part(e.els, ck), vs[2], w, outs, t, n);
  }

  /** `->`: the tick flag of its clock selects as the dataflow does. */
  lemma CombinedArrow(cx: Context, e: Expr, ck: Clock, vs: seq<CExpr>, w: View, outs: map<nat, Value>, t: Trace, n: nat)
    requires e.Arrow? && |vs| == 2 && IsFirst(ck, w) == !Ticked(ck, t, n)
    requires Agrees(cx, Part(e.init, ck), vs[0], w, outs, t, n) && Agrees(cx, Part(e.body, ck), vs[1], w, outs, t, n)
    ensures Agrees(cx, Part(e, ck), Combine(e, ck, vs), w, outs, t, n)
  {
    assert Eval(cx, e, ck, t, n) == if Ticked(ck, t, n) then Eval(cx, e.body, ck, t, n) else Eval(cx, e.init, ck, t, n);
    assert CValue(First(ck), w, outs) == Bool(!Ticked(ck, t, n));
  }

  lemma CombinedMerge(cx: Context, e: Expr, ck: Clock, vs: seq<CExpr>, w: View, outs: map<nat, Value>, t: Trace, n: nat)
    requires e.Merge? && |vs| == 2 && Field(w.env, e.clock) == t(n, e.clock)
    requires Agrees(cx, Part(e.onTrue, On(e.clock, true, ck)), vs[0], w, outs, t, n)
    requires Agrees(cx, Part(e.onFalse, On(e.clock, false, ck)), vs[1], w, outs, t, n)
    ensures Agrees(cx, Part(e, ck), Combine(e, ck, vs), w, outs, t, n)
  {
    assert CValue(Ref(e.clock), w, outs) == t(n, e.clock);
  }

  /** Once its calls have run, the C expression of `e` has the dataflow value,
      whenever that value is defined. */
  lemma {:induction false} LoweredValue(cx: Context, e: Expr, ck: Clock, gate: Clock, w: View, outs: map<nat, Value>, t: Trace, n: nat)
    requires cx.nil.Undef? && Emittable(cx.functions, e, ck, gate)
    requires Shows(w, Reads(e), PreVars(e, ck), Chains(e, ck), t, n)
    requires OutsOk(cx, e, ck, t, n, outs)
    ensures Agrees(cx, Part(e, ck), LowerAnf(e, ck).values[0], w, outs, t, n)
    decreases e, 1, 0
  {
    var ps := Parts(e, ck);
    PartsShown(e, ck, w, t, n);
    LoweredValues(cx, e, ps, gate, w, outs, t, n);
    CombinedValue(cx, e, ck, LowerAll(e, ps).values, w, outs, t, n);
  }

  lemma {:induction false} LoweredValues(cx: Context, whole: Expr, ps: seq<Part>, gate: Clock, w: View,
                                         outs: map<nat, Value>, t: Trace, n: nat)
    requires forall i | 0 <= i < |ps| :: ps[i].e < whole
    requires cx.nil.Undef? && EmittableAll(cx.functions, whole, ps, gate)
    requires ShowsAll(whole, ps, w, t, n) && OutsOkAll(cx, whole, ps, t, n, outs)
    ensures forall i | 0 <= i < |ps| :: Agrees(cx, ps[i], LowerAll(whole, ps).values[i], w, outs, t, n)
    decreases whole, 0, |ps|
  {
    if ps != [] {
      LoweredValue(cx, ps[0].e, ps[0].ck, gate, w, outs, t, n);
      ShowsTail(whole, ps, w, t, n);
      LoweredValues(cx, whole, ps[1..], gate, w, outs, t, n);
      var vs := LowerAll(whole, ps).values;
      var rest := LowerAll(whole, ps[1..]).values;
      forall i | 0 <= i < |ps| ensures Agrees(cx, ps[i], vs[i], w, outs, t, n) {
        if i > 0 { assert ps[i] == ps[1..][i-1] && vs[i] == rest[i-1]; }
      }
    }
  }

  lemma ShowsTail(whole: Expr, ps: seq<Part>, w: View, t: Trace, n: nat)
    requires forall i | 0 <= i < |ps| :: ps[i].e < whole
    requires ps != [] && ShowsAll(whole, ps, w, t, n)
    ensures ShowsAll(whole, ps[1..], w, t, n)
  {
    var rest := ps[1..];
    forall i | 0 <= i < |rest|
      ensures Shows(w, Reads(rest[i].e), PreVars(rest[i].e, rest[i].ck), Chains(rest[i].e, rest[i].ck), t, n)
    {
      assert rest[i] == ps[i+1];
    }
  }

  // ---------------------------------------------------------------- calls

  /** Running the calls hoisted out of `e`, in a cycle where its equation is
      active, steps every instance once on the dataflow's arguments. */
  lemma {:induction false} CallsRun(cx: Context, e: Expr, ck: Clock, gate: Clock, w: View, b: Bank, t: Trace, n: nat)
    requires cx.nil.Undef? && Emittable(cx.functions, e, ck, gate) && Active(gate, t, n)
    requires Shows(w, Reads(e), PreVars(e, ck), Chains(e, ck), t, n)
    requires SubsOk(cx, e, ck, t, n, b.subs)
    ensures
      var after := RunCalls(cx, LowerAnf(e, ck).calls, w, b);
      && SubsOk(cx, e, ck, t, n+1, after.subs)
      && OutsOk(cx, e, ck, t, n, after.outs)
      && Touches(Sites(e, ck), b, after)
    decreases e, 1, 0
  {
    var ps := Parts(e, ck);
    PartsShown(e, ck, w, t, n);
    CallsRunAll(cx, e, ps, gate, w, b, t, n);
    var below := LowerAll(e, ps);
    var mid := RunCalls(cx, below.calls, w, b);
    if e.Call? {
      LoweredValues(cx, e, ps, gate, w, mid.outs, t, n);
      RunLast(cx, below.calls, CCall(e.site, e.node, below.values), w, b);
      CallRuns(cx, e, ck, gate, below.values, w, b, mid, t, n);
    } else {
      assert below.calls + [] == below.calls;
    }
  }

  lemma {:induction false} CallsRunAll(cx: Context, whole: Expr, ps: seq<Part>, gate: Clock, w: View, b: Bank, t: Trace, n: nat)
    requires forall i | 0 <= i < |ps| :: ps[i].e < whole
    requires cx.nil.Undef? && EmittableAll(cx.functions, whole, ps, gate) && Active(gate, t, n)
    requires ShowsAll(whole, ps, w, t, n) && SubsOkAll(cx, whole, ps, t, n, b.subs)
    ensures
      var after := RunCalls(cx, LowerAll(whole, ps).calls, w, b);
      && SubsOkAll(cx, whole, ps, t, n+1, after.subs)
      && OutsOkAll(cx, whole, ps, t, n, after.outs)
      && Touches(SitesAll(whole, ps), b, after)
    decreases whole, 0, |ps|
  {
    if ps != [] {
      var p := ps[0];
      var first := LowerAnf(p.e, p.ck).calls;
      var rest := LowerAll(whole, ps[1..]).calls;
      RunAppend(cx, first, rest, w, b);
      CallsRun(cx, p.e, p.ck, gate, w, b, t, n);
      var mid := RunCalls(cx, first, w, b);
      SubsFrameAll(cx, whole, ps[1..], t, n, b.subs, mid.subs);
      ShowsTail(whole, ps, w, t, n);
      CallsRunAll(cx, whole, ps[1..], gate, w, mid, t, n);
      var after := RunCalls(cx, rest, w, mid);
      SubsFrame(cx, p.e, p.ck, t, n+1, mid.subs, after.subs);
      OutsFrame(cx, p.e, p.ck, t, n, mid.outs, after.outs);
    }
  }

  /** The hoisted call itself, once the calls in its arguments have run. */
  lemma CallRuns(cx: Context, e: Expr, ck: Clock, gate: Clock, values: seq<CExpr>, w: View, b: Bank, mid: Bank, t: Trace, n: nat)
    requires e.Call? && (e.node in cx.functions || ck == gate) && Active(gate, t, n)
    requires e.site !in SitesAll(e, Parts(e, ck)) && Touches(SitesAll(e, Parts(e, ck)), b, mid)
    requires SubsOk(cx, e, ck, t, n, b.subs)
    requires SubsOkAll(cx, e, Parts(e, ck), t, n+1, mid.subs) && OutsOkAll(cx, e, Parts(e, ck), t, n, mid.outs)
    requires |values| == |e.args|
    requires forall i | 0 <= i < |values| :: Agrees(cx, Part(e.args[i], ck), values[i], w, mid.outs, t, n)
    ensures
      var after := RunCall(cx, CCall(e.site, e.node, values), w, mid);
      && SubsOk(cx, e, ck, t, n+1, after.subs)
      && OutsOk(cx, e, ck, t, n, after.outs)
      && Touches(Sites(e, ck), b, after)
  {
    var after := RunCall(cx, CCall(e.site, e.node, values), w, mid);
    ArgumentsAgree(cx, e.args, ck, values, w, mid.outs, t, n);
    if e.node in cx.functions {
      FunctionRuns(cx, e, ck, values, w, mid, t, n);
    } else {
      InstanceRuns(cx, e, ck, values, w, mid, t, n);
    }
    SubsFrameAll(cx, e, Parts(e, ck), t, n+1, mid.subs, after.subs);
    OutsFrameAll(cx, e, Parts(e, ck), t, n, mid.outs, after.outs);
  }

  lemma FunctionRuns(cx: Context, e: Expr, ck: Clock, values: seq<CExpr>, w: View, mid: Bank, t: Trace, n: nat)
    requires e.Call? && e.node in cx.functions
    requires
      var vs := EvalAll(cx, e.args, ck, t, n);
      AllDefined(vs) ==> CValues(values, w, mid.outs) == vs
    ensures
      var after := RunCall(cx, CCall(e.site, e.node, values), w, mid);
      && SubOk(cx, e, ck, t, n+1, after.subs)
      && OutOk(cx, e, ck, t, n, after.outs)
      && Touches({e.site}, mid, after)
  {
    assert Eval(cx, e, ck, t, n) == Apply(cx.callees(e.node), EvalAll(cx, e.args, ck, t, n));
  }

  lemma InstanceRuns(cx: Context, e: Expr, ck: Clock, values: seq<CExpr>, w: View, mid: Bank, t: Trace, n: nat)
    requires e.Call? && e.node !in cx.functions && Active(ck, t, n)
    requires SubOk(cx, e, ck, t, n, mid.subs)
    requires
      var vs := EvalAll(cx, e.args, ck, t, n);
      AllDefined(vs) ==> CValues(values, w, mid.outs) == vs
    ensures
      var after := RunCall(cx, CCall(e.site, e.node, values), w, mid);
      && SubOk(cx, e, ck, t, n+1, after.subs)
      && OutOk(cx, e, ck, t, n, after.outs)
      && Touches({e.site}, mid, after)
  {
    HistoryGrows(cx, e.args, ck, t, n);
    var history := History(cx, e.args, ck, t, n);
    assert Eval(cx, e, ck, t, n) == Respond(cx.callees(e.node), history);
    assert Before(cx, e.args, ck, t, n+1) == history;
  }

  lemma ArgumentsAgree(cx: Context, args: seq<Expr>, ck: Clock, values: seq<CExpr>, w: View, outs: map<nat, Value>, t: Trace, n: nat)
    requires |values| == |args|
    requires forall i | 0 <= i < |values| :: Agrees(cx, Part(args[i], ck), values[i], w, outs, t, n)
    ensures AllDefined(EvalAll(cx, args, ck, t, n)) ==> CValues(values, w, outs) == EvalAll(cx, args, ck, t, n)
  {
    var vs := EvalAll(cx, args, ck, t, n);
    var cs := CValues(values, w, outs);
    if AllDefined(vs) {
      forall i | 0 <= i < |vs| ensures vs[i] == cs[i] {
        assert Agrees(cx, Part(args[i], ck), values[i], w, outs, t, n);
      }
      assert vs == cs;
    }
  }

  lemma HistoryGrows(cx: Context, args: seq<Expr>, ck: Clock, t: Trace, n: nat)
    requires Active(ck, t, n)
    ensures
      var history := History(cx, args, ck, t, n);
      && |history| > 0 && history[..|history|-1] == Before(cx, args, ck, t, n)
      && history[|history|-1] == EvalAll(cx, args, ck, t, n)
      && (HistoryDefined(history) ==>
            HistoryDefined(Before(cx, args, ck, t, n)) && AllDefined(EvalAll(cx, args, ck, t, n)))
  {
    var past := Before(cx, args, ck, t, n);
    var vs := EvalAll(cx, args, ck, t, n);
    var history := History(cx, args, ck, t, n);
    assert history == past + [vs];
    if HistoryDefined(history) {
      HistoryParts(past, vs);
    }
  }

  lemma HistoryParts(past: seq<seq<Value>>, vs: seq<Value>)
    requires HistoryDefined(past + [vs])
    ensures HistoryDefined(past) && AllDefined(vs)
  {
    var h := past + [vs];
    assert h[|past|] == vs && AllDefined(h[|past|]);
    forall i | 0 <= i < |past| ensures AllDefined(past[i]) {
      assert h[i] == past[i];
    }
  }

  /** An instance whose equation is inactive keeps its memory. */
  lemma {:induction false} SubsSkip(cx: Context, e: Expr, ck: Clock, gate: Clock, t: Trace, n: nat, subs: map<nat, Memory>)
    requires Emittable(cx.functions, e, ck, gate) && !Active(gate, t, n)
    requires SubsOk(cx, e, ck, t, n, subs)
    ensures SubsOk(cx, e, ck, t, n+1, subs)
    decreases e, 1, 0
  {
    SubsSkipAll(cx, e, Parts(e, ck), gate, t, n, subs);
    if e.Call? && e.node !in cx.functions {
      assert Before(cx, e.args, ck, t, n+1) == Before(cx, e.args, ck, t, n);
    }
  }

  lemma {:induction false} SubsSkipAll(cx: Context, whole: Expr, ps: seq<Part>, gate: Clock, t: Trace, n: nat, subs: map<nat, Memory>)
    requires forall i | 0 <= i < |ps| :: ps[i].e < whole
    requires EmittableAll(cx.functions, whole, ps, gate) && !Active(gate, t, n)
    requires SubsOkAll(cx, whole, ps, t, n, subs)
    ensures SubsOkAll(cx, whole, ps, t, n+1, subs)
    decreases whole, 0, |ps|
  {
    if ps != [] {
      SubsSkip(cx, ps[0].e, ps[0].ck, gate, t, n, subs);
      SubsSkipAll(cx, whole, ps[1..], gate, t, n, subs);
    }
  }

  // ---------------------------------------------------------------- initialization

  /** Freshly initialized instances have consumed nothing. */
  lemma {:induction false} InstancesStart(cx: Context, e: Expr, ck: Clock, gate: Clock, t: Trace)
    requires Emittable(cx.functions, e, ck, gate)
    ensures SubsOk(cx, e, ck, t, 0, Instances(cx, e, ck))
    ensures Instances(cx, e, ck).Keys <= Sites(e, ck)
    decreases e, 1, 0
  {
    var ps := Parts(e, ck);
    InstancesStartAll(cx, e, ps, gate, t);
    SubsFrameAll(cx, e, ps, t, 0, InstancesAll(cx, e, ps), Instances(cx, e, ck));
  }

  lemma {:induction false} InstancesStartAll(cx: Context, whole: Expr, ps: seq<Part>, gate: Clock, t: Trace)
    requires forall i | 0 <= i < |ps| :: ps[i].e < whole
    requires EmittableAll(cx.functions, whole, ps, gate)
    ensures SubsOkAll(cx, whole, ps, t, 0, InstancesAll(cx, whole, ps))
    ensures InstancesAll(cx, whole, ps).Keys <= SitesAll(whole, ps)
    decreases whole, 0, |ps|
  {
    if ps != [] {
      var p := ps[0];
      InstancesStart(cx, p.e, p.ck, gate, t);
      InstancesStartAll(cx, whole, ps[1..], gate, t);
      var all := InstancesAll(cx, whole, ps);
      SubsFrame(cx, p.e, p.ck, t, 0, Instances(cx, p.e, p.ck), all);
      SubsFrameAll(cx, whole, ps[1..], t, 0, InstancesAll(cx, whole, ps[1..]), all);
    }
  }

  // ---------------------------------------------------------------- names

  /** The clocks recorded sample on variables the expression reads or its clock uses. */
  lemma {:induction false} ChainNames(e: Expr, ck: Clock, k: Clock)
    requires k in Chains(e, ck)
    ensures Conditions(k) <= Reads(e) + Conditions(ck)
    decreases e, 1, 0
  {
    if k in ChainsAll(e, Parts(e, ck)) {
      var i := ChainPart(e, Parts(e, ck), k);
      var p := Parts(e, ck)[i];
      ChainNames(p.e, p.ck, k);
      assert Reads(p.e) <= Reads(e);
      assert Conditions(p.ck) <= Reads(e) + Conditions(ck);
    }
  }

  lemma {:induction false} ChainPart(whole: Expr, ps: seq<Part>, k: Clock) returns (i: nat)
    requires forall j | 0 <= j < |ps| :: ps[j].e < whole
    requires k in ChainsAll(whole, ps)
    ensures i < |ps| && k in Chains(ps[i].e, ps[i].ck)
    decreases |ps|
  {
    if k in Chains(ps[0].e, ps[0].ck) {
      i := 0;
    } else {
      i := ChainPart(whole, ps[1..], k);
      i := i + 1;
    }
  }

  lemma {:induction false} PreNames(e: Expr, ck: Clock, x: string)
    requires x in PreVars(e, ck)
    ensures x in Names(e)
    decreases e, 1, 0
  {
    if x in PreVarsAll(e, Parts(e, ck)) {
      var i := PrePart(e, Parts(e, ck), x);
      var p := Parts(e, ck)[i];
      PreNames(p.e, p.ck, x);
      assert Names(p.e) <= Names(e);
    }
  }

  lemma {:induction false} PrePart(whole: Expr, ps: seq<Part>, x: string) returns (i: nat)
    requires forall j | 0 <= j < |ps| :: ps[j].e < whole
    requires x in PreVarsAll(whole, ps)
    ensures i < |ps| && x in PreVars(ps[i].e, ps[i].ck)
    decreases |ps|
  {
    if x in PreVars(ps[0].e, ps[0].ck) {
      i := 0;
    } else {
      i := PrePart(whole, ps[1..], x);
      i := i + 1;
    }
  }
}
