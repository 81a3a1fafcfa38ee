/** Lustre's own semantics, in which a sampled stream is absent between its
    ticks, and the proof that the held-value runs compute exactly it. */
module Absence {
  import opened Lustre
  import opened Clocks
  import opened Inference
  import opened Options

  /** What a stream carries in one cycle; operands present on different cycles clash. */
  datatype Signal = Absent | Present(v: Value) | Clash

  type Stream = (nat, string) -> Signal

  /** All the conditions of `ck` are present and hold. */
  predicate OnTime(ck: Clock, s: Stream, n: nat) {
    match ck
    case Base => true
    case On(c, on, p) => OnTime(p, s, n) && s(n, c).Present? && Truth(s(n, c).v) == on
  }

  predicate SamePresence(a: Signal, b: Signal) {
    !a.Clash? && !b.Clash? && (a.Present? <==> b.Present?)
  }

  function Join(a: Signal, b: Signal, f: (Value, Value) -> Value): Signal {
    if !SamePresence(a, b) then Clash else if a.Absent? then Absent else Present(f(a.v, b.v))
  }

  function JoinIf(c: Signal, a: Signal, b: Signal): Signal {
    if !SamePresence(c, a) || !SamePresence(c, b) then Clash
    else if c.Absent? then Absent
    else Present(Choose(c.v, a.v, b.v))
  }

  function Sample(a: Signal, c: Signal, on: bool): Signal {
    if !SamePresence(a, c) then Clash
    else if c.Absent? || Truth(c.v) != on then Absent
    else a
  }

  /** Exactly one branch is present, the one the clock selects. */
  function Combine(c: Signal, a: Signal, b: Signal): Signal {
    match c
    case Clash => Clash
    case Absent => if a.Absent? && b.Absent? then Absent else Clash
    case Present(v) =>
      if v.Undef? then Clash
      else if Truth(v) then (if a.Present? && b.Absent? then a else Clash)
      else (if b.Present? && a.Absent? then b else Clash)
  }

  /** The stream of `e` at cycle `n`. `pre` is the previous value its operand
      had, `->` takes `init` the first time its operand is present: both count
      presences, never cycles. Only a constant needs the clock around it. */
  function Sense(cx: Context, e: Expr, ck: Clock, s: Stream, n: nat): Signal
    decreases e, 2, 0
  {
    match e
    case Const(v) => if OnTime(ck, s, n) then Present(v) else Absent
    case Var(x) => s(n, x)
    case Unary(op, a) =>
      var x := Sense(cx, a, ck, s, n);
      if x.Present? then Present(ApplyUnary(op, x.v)) else x
    case Binary(op, a, b) =>
      Join(Sense(cx, a, ck, s, n), Sense(cx, b, ck, s, n), (v, w) => ApplyBinary(op, v, w))
    case If(c, a, b) => JoinIf(Sense(cx, c, ck, s, n), Sense(cx, a, ck, s, n), Sense(cx, b, ck, s, n))
    case Pre(a) =>
      var x := Sense(cx, a, ck, s, n);
      if x.Present? then Present(Previous(cx, a, ck, s, n)) else x
    case Arrow(a, b) =>
      var first := !Earlier(cx, a, ck, s, n);
      Join(Sense(cx, a, ck, s, n), Sense(cx, b, ck, s, n), (v, w) => if first then v else w)
    case When(a, c, on) => Sample(Sense(cx, a, Parent(ck), s, n), s(n, c), on)
    case Merge(c, a, b) =>
      Combine(s(n, c), Sense(cx, a, On(c, true, ck), s, n), Sense(cx, b, On(c, false, ck), s, n))
    case Call(_, f, args) =>
      if AllPresent(cx, args, ck, s, n) then
        if f in cx.functions then Present(Apply(cx.callees(f), PresentValues(cx, args, ck, s, n)))
        else Present(Respond(cx.callees(f), PresentHistory(cx, args, ck, s, n)))
      else if AllAbsent(cx, args, ck, s, n) then Absent
      else Clash
    case Condact(_, _, _, _, _) => Clash
  }

  /** The value of `e` the last time before cycle `n` that it was present. */
  function Previous(cx: Context, e: Expr, ck: Clock, s: Stream, n: nat): Value
    decreases e, 3, n
  {
    if n == 0 then cx.nil else
    var x := Sense(cx, e, ck, s, n-1);
    if x.Present? then x.v else Previous(cx, e, ck, s, n-1)
  }

  predicate Earlier(cx: Context, e: Expr, ck: Clock, s: Stream, n: nat)
    decreases e, 3, n
  {
    n > 0 && (Sense(cx, e, ck, s, n-1).Present? || Earlier(cx, e, ck, s, n-1))
  }

  /** A call is present when its arguments are; without any, on its clock. */
  predicate AllPresent(cx: Context, args: seq<Expr>, ck: Clock, s: Stream, n: nat)
    decreases args, 0, 0
  {
    if args == [] then OnTime(ck, s, n)
    else forall i | 0 <= i < |args| :: Sense(cx, args[i], ck, s, n).Present?
  }

  predicate AllAbsent(cx: Context, args: seq<Expr>, ck: Clock, s: Stream, n: nat)
    decreases args, 0, 0
  {
    if args == [] then !OnTime(ck, s, n)
    else forall i | 0 <= i < |args| :: Sense(cx, args[i], ck, s, n).Absent?
  }

  function PresentHistory(cx: Context, args: seq<Expr>, ck: Clock, s: Stream, n: nat): seq<seq<Value>>
    decreases args, 1, n
  {
    (if n == 0 then [] else PresentHistory(cx, args, ck, s, n-1)) +
    (if AllPresent(cx, args, ck, s, n) then [PresentValues(cx, args, ck, s, n)] else [])
  }

  function PresentValues(cx: Context, args: seq<Expr>, ck: Clock, s: Stream, n: nat): seq<Value>
    requires AllPresent(cx, args, ck, s, n)
    decreases args, 0, 1
  {
    seq(|args|, i requires 0 <= i < |args| => Sense(cx, args[i], ck, s, n).v)
  }

  // ---------------------------------------------------------------- well-clocked systems

  /** Every equation obeys the clock rules, on a clock that is itself well formed. */
  ghost predicate WellClocked(sys: seq<Clocked>, vc: ClockMap) {
    && (forall i | 0 <= i < |sys| ::
          && sys[i].eq.lhs in vc && vc[sys[i].eq.lhs] == sys[i].ck
          && Disciplined(sys[i].eq.rhs, sys[i].ck, vc))
    && (forall x | x in vc :: GroundedClock(vc[x], vc))
  }

  /** Variables no equation defines (the inputs) are on the base clock. */
  ghost predicate InputsOnBase(sys: seq<Clocked>, vc: ClockMap) {
    forall x | x in vc :: vc[x] == Base || exists i :: 0 <= i < |sys| && sys[i].eq.lhs == x
  }

  // ---------------------------------------------------------------- presence of a held trace

  /** The absence-based reading of a held trace: a variable is present on its ticks. */
  function Presence(vc: ClockMap, t: Trace): Stream {
    (n: nat, x: string) => if x in vc && Active(vc[x], t, n) then Present(t(n, x)) else Absent
  }

  /** `s` is the absence-based reading of `t`. */
  ghost predicate Samples(vc: ClockMap, t: Trace, s: Stream) {
    forall n: nat, x :: s(n, x) == Presence(vc, t)(n, x)
  }

  /** No variable is ever undefined. */
  ghost predicate Clean(vc: ClockMap, t: Trace) {
    forall n: nat, x | x in vc :: !t(n, x).Undef?
  }

  /** Between the ticks of its clock, a variable keeps its value. */
  ghost predicate Holds(vc: ClockMap, t: Trace) {
    forall n: nat, x | n > 0 && x in vc && !Active(vc[x], t, n) :: t(n, x) == t(n-1, x)
  }

  lemma {:induction false} OnTimeActive(ck: Clock, vc: ClockMap, t: Trace, s: Stream, n: nat)
    requires GroundedClock(ck, vc) && Samples(vc, t, s)
    ensures OnTime(ck, s, n) == Active(ck, t, n)
  {
    match ck
    case Base =>
    case On(c, on, p) => OnTimeActive(p, vc, t, s, n);
  }

  /** The previous cycle's snapshot of a held variable is its value at the last tick. */
  lemma {:induction false} SnapshotIsLastTick(ck: Clock, vc: ClockMap, t: Trace, n: nat, x: string)
    requires Holds(vc, t) && x in vc && vc[x] == ck
    requires Ticked(ck, t, n)
    ensures t(n-1, x) == t(LastTick(ck, t, n), x)
  {
    if !Active(ck, t, n-1) {
      SnapshotIsLastTick(ck, vc, t, n-1, x);
    }
  }

  function Sensed(cx: Context, e: Expr, ck: Clock, t: Trace, n: nat): Signal {
    if Active(ck, t, n) then Present(Eval(cx, e, ck, t, n)) else Absent
  }

  /** A disciplined expression is present exactly on the ticks of its clock, with
      its held value: in particular its operands never clash, so no active
      equation reads a variable that is inactive in the current cycle. */
  lemma {:induction false} SenseEval(cx: Context, e: Expr, ck: Clock, vc: ClockMap, t: Trace, s: Stream, n: nat)
    requires Disciplined(e, ck, vc) && GroundedClock(ck, vc) && Holds(vc, t)
    requires Samples(vc, t, s) && Clean(vc, t)
    ensures Sense(cx, e, ck, s, n) == Sensed(cx, e, ck, t, n)
    decreases e, 2, 0
  {
    OnTimeActive(ck, vc, t, s, n);
    match e
    case Const(_) =>
    case Var(_) =>
    case Unary(_, a) => SenseEval(cx, a, ck, vc, t, s, n);
    case Binary(_, a, b) =>
      SenseEval(cx, a, ck, vc, t, s, n);
      SenseEval(cx, b, ck, vc, t, s, n);
    case If(c, a, b) =>
      SenseEval(cx, c, ck, vc, t, s, n);
      SenseEval(cx, a, ck, vc, t, s, n);
      SenseEval(cx, b, ck, vc, t, s, n);
    case Pre(a) =>
      SenseEval(cx, a, ck, vc, t, s, n);
      PreviousEval(cx, a, ck, vc, t, s, n);
      if Ticked(ck, t, n) && a.Var? {
        SnapshotIsLastTick(ck, vc, t, n, a.x);
      }
    case Arrow(a, b) =>
      SenseEval(cx, a, ck, vc, t, s, n);
      SenseEval(cx, b, ck, vc, t, s, n);
      EarlierTicked(cx, a, ck, vc, t, s, n);
    case When(a, c, _) =>
      SenseEval(cx, a, ck.parent, vc, t, s, n);
    case Merge(c, a, b) =>
      SenseEval(cx, a, On(c, true, ck), vc, t, s, n);
      SenseEval(cx, b, On(c, false, ck), vc, t, s, n);
    case Call(_, _, args) =>
      PresentArgs(cx, args, ck, vc, t, s, n);
      HistoryEval(cx, args, ck, vc, t, s, n);
    case Condact(_, _, _, _, _) =>
  }

  lemma {:induction false} PreviousEval(cx: Context, e: Expr, ck: Clock, vc: ClockMap, t: Trace, s: Stream, n: nat)
    requires Disciplined(e, ck, vc) && GroundedClock(ck, vc) && Holds(vc, t)
    requires Samples(vc, t, s) && Clean(vc, t)
    ensures Previous(cx, e, ck, s, n) ==
            if Ticked(ck, t, n) then Eval(cx, e, ck, t, LastTick(ck, t, n)) else cx.nil
    decreases e, 3, n
  {
    if n > 0 {
      SenseEval(cx, e, ck, vc, t, s, n-1);
      PreviousEval(cx, e, ck, vc, t, s, n-1);
    }
  }

  lemma {:induction false} EarlierTicked(cx: Context, e: Expr, ck: Clock, vc: ClockMap, t: Trace, s: Stream, n: nat)
    requires Disciplined(e, ck, vc) && GroundedClock(ck, vc) && Holds(vc, t)
    requires Samples(vc, t, s) && Clean(vc, t)
    ensures Earlier(cx, e, ck, s, n) == Ticked(ck, t, n)
    decreases e, 3, n
  {
    if n > 0 {
      SenseEval(cx, e, ck, vc, t, s, n-1);
      EarlierTicked(cx, e, ck, vc, t, s, n-1);
    }
  }

  lemma {:induction false} PresentArgs(cx: Context, args: seq<Expr>, ck: Clock, vc: ClockMap, t: Trace, s: Stream, n: nat)
    requires DisciplinedAll(args, ck, vc) && GroundedClock(ck, vc) && Holds(vc, t)
    requires Samples(vc, t, s) && Clean(vc, t)
    ensures AllPresent(cx, args, ck, s, n) == Active(ck, t, n)
    ensures AllAbsent(cx, args, ck, s, n) == !Active(ck, t, n)
    ensures Active(ck, t, n) ==> PresentValues(cx, args, ck, s, n) == EvalAll(cx, args, ck, t, n)
    decreases args, 0, 0
  {
    OnTimeActive(ck, vc, t, s, n);
    DisciplinedArgs(args, ck, vc);
    forall i | 0 <= i < |args|
      ensures Sense(cx, args[i], ck, s, n) == Sensed(cx, args[i], ck, t, n)
    {
      SenseEval(cx, args[i], ck, vc, t, s, n);
    }
    if args != [] {
      assert Sense(cx, args[0], ck, s, n) == Sensed(cx, args[0], ck, t, n);
    }
  }

  lemma {:induction false} HistoryEval(cx: Context, args: seq<Expr>, ck: Clock, vc: ClockMap, t: Trace, s: Stream, n: nat)
    requires DisciplinedAll(args, ck, vc) && GroundedClock(ck, vc) && Holds(vc, t)
    requires Samples(vc, t, s) && Clean(vc, t)
    ensures PresentHistory(cx, args, ck, s, n) == History(cx, args, ck, t, n)
    decreases args, 1, n
  {
    PresentArgs(cx, args, ck, vc, t, s, n);
    if n > 0 {
      HistoryEval(cx, args, ck, vc, t, s, n-1);
    }
  }

  // ---------------------------------------------------------------- runs

  /** `s` solves every equation in the absence-based semantics. */
  ghost predicate AbsenceRun(cx: Context, sys: seq<Clocked>, s: Stream) {
    forall n: nat, i | 0 <= i < |sys| ::
      s(n, sys[i].eq.lhs) == Sense(cx, sys[i].eq.rhs, sys[i].ck, s, n) && !s(n, sys[i].eq.lhs).Clash?
  }

  /** Every variable is present exactly on its clock. */
  ghost predicate Respects(vc: ClockMap, s: Stream) {
    forall n: nat, x :: if x in vc then SamePresence(s(n, x), if OnTime(vc[x], s, n) then Present(Undef) else Absent)
                        else s(n, x).Absent?
  }

  lemma RunHolds(cx: Context, sys: seq<Clocked>, vc: ClockMap, t: Trace)
    requires WellClocked(sys, vc) && InputsOnBase(sys, vc) && Run(cx, sys, t)
    ensures Holds(vc, t)
  {
    forall n: nat, x | n > 0 && x in vc && !Active(vc[x], t, n) ensures t(n, x) == t(n-1, x) {
      assert StepOk(cx, sys, t, n);
      var i :| 0 <= i < |sys| && sys[i].eq.lhs == x;
    }
  }

  /** Held execution is faithful: reading each variable only on its ticks turns an
      error-free held run into a run of the absence-based semantics. */
  lemma {:induction false} HeldIsFaithful(cx: Context, sys: seq<Clocked>, vc: ClockMap, t: Trace)
    requires WellClocked(sys, vc) && InputsOnBase(sys, vc)
    requires Run(cx, sys, t) && Clean(vc, t)
    ensures AbsenceRun(cx, sys, Presence(vc, t))
    ensures Respects(vc, Presence(vc, t))
  {
    var s := Presence(vc, t);
    RunHolds(cx, sys, vc, t);
    forall n: nat, i | 0 <= i < |sys|
      ensures s(n, sys[i].eq.lhs) == Sense(cx, sys[i].eq.rhs, sys[i].ck, s, n) && !s(n, sys[i].eq.lhs).Clash?
    {
      assert StepOk(cx, sys, t, n);
      assert GroundedClock(vc[sys[i].eq.lhs], vc);
      SenseEval(cx, sys[i].eq.rhs, sys[i].ck, vc, t, s, n);
    }
    forall n: nat, x | x in vc
      ensures SamePresence(s(n, x), if OnTime(vc[x], s, n) then Present(Undef) else Absent)
    {
      OnTimeActive(vc[x], vc, t, s, n);
    }
  }

  /** A stream with its last value held between presences, a default before the first. */
  function Hold(s: Stream, d: string -> Value): Trace {
    (n: nat, x: string) => HeldValue(s, d(x), n, x)
  }

  function HeldValue(s: Stream, d: Value, n: nat, x: string): Value {
    if s(n, x).Present? then s(n, x).v else if n == 0 then d else HeldValue(s, d, n-1, x)
  }

  lemma {:induction false} HoldOnTime(ck: Clock, vc: ClockMap, s: Stream, d: string -> Value, n: nat)
    requires GroundedClock(ck, vc) && Respects(vc, s)
    ensures Active(ck, Hold(s, d), n) == OnTime(ck, s, n)
  {
    match ck
    case Base =>
    case On(c, on, p) =>
      HoldOnTime(p, vc, s, d, n);
      assert SamePresence(s(n, c), if OnTime(p, s, n) then Present(Undef) else Absent);
  }

  /** Holding loses nothing: the absence-based stream is read back from the held trace. */
  lemma {:induction false} HoldPresence(vc: ClockMap, s: Stream, d: string -> Value, n: nat, x: string)
    requires Respects(vc, s) && forall y | y in vc :: GroundedClock(vc[y], vc)
    ensures Presence(vc, Hold(s, d))(n, x) == s(n, x)
  {
    if x in vc {
      HoldOnTime(vc[x], vc, s, d, n);
      assert SamePresence(s(n, x), if OnTime(vc[x], s, n) then Present(Undef) else Absent);
    } else {
      assert s(n, x).Absent?;
    }
  }

  lemma {:induction false} HoldDefined(s: Stream, d: Value, n: nat, x: string)
    requires !d.Undef? && forall m: nat :: s(m, x) != Present(Undef)
    ensures !HeldValue(s, d, n, x).Undef?
  {
    if !s(n, x).Present? && n > 0 { HoldDefined(s, d, n-1, x); }
  }

  /** Conversely, holding every variable of an absence-based run gives the held
      run: at every cycle each variable has its value at the latest tick of its
      clock, and its default before the first. */
  lemma {:induction false} AbsenceIsHeld(cx: Context, sys: seq<Clocked>, vc: ClockMap, s: Stream, d: string -> Value)
    requires WellClocked(sys, vc) && InputsOnBase(sys, vc)
    requires AbsenceRun(cx, sys, s) && Respects(vc, s)
    requires forall i | 0 <= i < |sys| :: d(sys[i].eq.lhs) == sys[i].default
    requires forall x :: !d(x).Undef?
    requires forall m: nat, x :: s(m, x) != Present(Undef)
    ensures Run(cx, sys, Hold(s, d))
  {
    var t := Hold(s, d);
    forall n: nat, x | n > 0 && x in vc && !Active(vc[x], t, n) ensures t(n, x) == t(n-1, x) {
      HoldPresence(vc, s, d, n, x);
    }
    forall n: nat, x ensures s(n, x) == Presence(vc, t)(n, x) {
      HoldPresence(vc, s, d, n, x);
    }
    forall n: nat, x | x in vc ensures !t(n, x).Undef? {
      HoldDefined(s, d(x), n, x);
    }
    forall n: nat, i | 0 <= i < |sys|
      ensures t(n, sys[i].eq.lhs) == Held(cx, sys[i].eq, sys[i].ck, sys[i].default, t, n)
    {
      assert GroundedClock(vc[sys[i].eq.lhs], vc);
      SenseEval(cx, sys[i].eq.rhs, sys[i].ck, vc, t, s, n);
    }
    forall n: nat ensures StepOk(cx, sys, t, n) {
    }
  }

  // ---------------------------------------------------------------- what inference establishes

  /** Every variable the equations define or mention has a clock. */
  ghost predicate AllClocked(node: Node, vc: ClockMap) {
    forall i | 0 <= i < |node.equations| :: node.equations[i].lhs in vc && Names(node.equations[i].rhs) <= vc.Keys
  }

  /** The clocks found make the node well clocked exactly when nothing is
      reported and every variable defined or mentioned got a clock. */
  lemma InferredIsWellClocked(node: Node)
    ensures WellClocked(ClockedEquations(node, Inferred(node)), Inferred(node))
            <==> NoErrors(node, Inferred(node)) && AllClocked(node, Inferred(node))
    ensures InputsOnBase(ClockedEquations(node, Inferred(node)), Inferred(node))
  {
    var vc := Inferred(node);
    AfterDeclared(node, |node.equations| + 1);
    DeclaredOnBase(node, vc);
    if NoErrors(node, vc) && AllClocked(node, vc) {
      forall i | 0 <= i < |node.equations| ensures EquationSuits(node, vc, i) { QuietSuits(node, vc, i); }
      assert Ideal(node, vc) by { SuitedIdeal(node, vc); }
      InferredGrounded(node);
      assert WellClocked(ClockedEquations(node, vc), vc);
    }
    if WellClocked(ClockedEquations(node, vc), vc) {
      forall i | 0 <= i < |node.equations|
        ensures EquationErrors(node.equations[i], vc) == [] && node.equations[i].lhs in vc && Names(node.equations[i].rhs) <= vc.Keys
      {
        assert ClockedEquations(node, vc)[i].eq == node.equations[i];
        DisciplinedNames(node.equations[i].rhs, EquationClock(node.equations[i], vc), vc);
        ViolationFree(node.equations[i].rhs, EquationClock(node.equations[i], vc), vc);
      }
    }
  }

  ghost predicate EquationSuits(node: Node, vc: ClockMap, i: nat)
    requires i < |node.equations|
  {
    var eq := node.equations[i];
    eq.lhs in vc && vc[eq.lhs] == EquationClock(eq, vc) && Disciplined(eq.rhs, vc[eq.lhs], vc)
  }

  lemma QuietSuits(node: Node, vc: ClockMap, i: nat)
    requires NoErrors(node, vc) && AllClocked(node, vc) && i < |node.equations|
    ensures EquationSuits(node, vc, i)
  {
    var eq := node.equations[i];
    assert EquationErrors(eq, vc) == [];
    ViolationFree(eq.rhs, EquationClock(eq, vc), vc);
  }

  lemma SuitedIdeal(node: Node, vc: ClockMap)
    requires Declared(node, vc) && forall i | 0 <= i < |node.equations| :: EquationSuits(node, vc, i)
    ensures Ideal(node, vc)
  {
    forall k | 0 <= k < |node.equations| ensures Suits(node.equations[k], vc) {
      assert EquationSuits(node, vc, k);
    }
  }

  lemma DeclaredOnBase(node: Node, vc: ClockMap)
    requires Declared(node, vc)
    ensures InputsOnBase(ClockedEquations(node, vc), vc)
  {
    var sys := ClockedEquations(node, vc);
    forall x | x in vc ensures vc[x] == Base || exists i :: 0 <= i < |sys| && sys[i].eq.lhs == x {
      if x !in Ports(node) {
        var i :| 0 <= i < |node.equations| && node.equations[i].lhs == x;
        assert sys[i].eq.lhs == x;
      }
    }
  }

  /** A counter without any clock of its own, read beside `a when c`. */
  function CounterNode(): Node {
    var k := Equation("k", Arrow(Const(Int(0)), Binary(Add, Pre(Var("k")), Const(Int(1)))));
    var y := Equation("y", Binary(Add, When(Var("a"), "c", true), Var("k")));
    Node(map["a" := IntType, "c" := BoolType], map[], map["k" := IntType, "y" := IntType], [k, y])
  }

  function CounterClocks(): ClockMap {
    map["a" := Base, "c" := Base, "y" := On("c", true, Base)]
  }

  lemma CounterPass(vc: ClockMap)
    requires vc == CounterClocks() || vc == CounterClocks() - {"y"}
    ensures Pass(CounterNode(), vc, 2) == CounterClocks()
  {
    var node := CounterNode();
    var k, y := node.equations[0], node.equations[1];
    assert NaturalClock(Pre(Var("k")), vc) == None && NaturalClock(Const(Int(1)), vc) == None;
    assert NaturalClock(k.rhs, vc) == None;
    assert NaturalClock(When(Var("a"), "c", true), vc) == Some(On("c", true, Base));
    assert NaturalClock(y.rhs, vc) == Some(On("c", true, Base));
    assert "y" !in Ports(node);
    assert Pass(node, vc, 0) == vc;
    assert Pass(node, vc, 1) == vc;
    assert vc["y" := On("c", true, Base)] == CounterClocks();
  }

  lemma CounterInferred()
    ensures Inferred(CounterNode()) == CounterClocks()
  {
    var node := CounterNode();
    var start := PortClocks(node);
    assert start == CounterClocks() - {"y"};
    CounterPass(start);
    CounterPass(CounterClocks());
    assert After(node, start, 1) == Pass(node, After(node, start, 0), 2);
    Settled(node, start, 1, 3);
  }

  /** Nothing reported is not enough. The counter `k = 0 -> pre k + 1` gets no
      clock; reading it beside `a when c` is not reported, yet in the
      absence-based semantics the two operands clash wherever `c` is false. */
  lemma UndeterminedLocalClashes(cx: Context, s: Stream)
    requires forall n: nat :: s(n, "a").Present? && s(n, "k").Present? && s(n, "c") == Present(Bool(false))
    ensures NoErrors(CounterNode(), Inferred(CounterNode()))
    ensures !AllClocked(CounterNode(), Inferred(CounterNode()))
    ensures Sense(cx, CounterNode().equations[1].rhs, On("c", true, Base), s, 0).Clash?
  {
    CounterInferred();
    CounterQuiet();
    assert CounterNode().equations[0].lhs == "k";
    assert Sample(s(0, "a"), s(0, "c"), true) == Absent;
  }

  lemma CounterQuiet()
    ensures NoErrors(CounterNode(), CounterClocks())
  {
    var vc := CounterClocks();
    var k, y := CounterNode().equations[0], CounterNode().equations[1];
    var next := Binary(Add, Pre(Var("k")), Const(Int(1)));
    assert NaturalClock(next, vc) == None && Violations(next, Base, vc) == [];
    assert EquationErrors(k, vc) == [];
    var sampled := When(Var("a"), "c", true);
    assert NaturalClock(sampled, vc) == Some(On("c", true, Base)) && Violations(sampled, On("c", true, Base), vc) == [];
    assert EquationErrors(y, vc) == [];
  }
}
