/** No false alarms: a check that fails is failed by an operation C executes, or
    a store it makes, that is at fault in the way the check's kind says. */
module RteAlarms {
  import opened Options
  import opened FreshNames
  import opened CIntegers
  import opened Intervals
  import opened Rte
  import opened RteSound
  import opened RteNode

  // ---------------------------------------------------------------- faults

  /** What an operation would give without any width; the remainder is there
      when the quotient is. */
  function Unbounded(e: Expr, s: State): int
    requires IsOperation(e)
  {
    if e.Neg? then 0 - Math(e.arg, s)
    else
      var x, y := Math(e.lhs, s), Math(e.rhs, s);
      match e.op
      case Add => x + y
      case Sub => x - y
      case Mul => x * y
      case _ => Quotient(x, y)
  }

  /** An operation of a type leaves the width it is evaluated in. */
  predicate Overflows(env: Env, e: Expr, s: State)
    requires IsOperation(e)
  {
    var t := IntTypeOf(env, e);
    t.Some? && !In(Unbounded(e, s), Promoted(t.value))
  }

  predicate DividesByZero(e: Expr, s: State) {
    e.Arith? && (e.op == Div || e.op == Mod) && Math(e.rhs, s) == 0
  }

  /** A narrow value that its type cannot keep. */
  predicate Narrows(env: Env, e: Expr, s: State) {
    var t := IntTypeOf(env, e);
    t.Some? && Narrow(t.value) && !In(Math(e, s), t.value)
  }

  predicate IndexesOutside(env: Env, e: Expr, s: State)
    requires e.Index?
  {
    e.base in env.arrays && !(0 <= Math(e.index, s) < env.arrays[e.base].0)
  }

  /** Nothing `e` makes C do is at fault in the way of `kind`. `runs` says that
      it is evaluated in this cycle, `ticks` that the clocks around it hold: under
      these a `pre` is written, taken or not. */
  predicate Faultless(kind: Kind, env: Env, e: Expr, s: State, runs: bool, ticks: bool)
    decreases e, 1
  {
    match e
    case Lit(_) => true
    case Bool(_) => true
    case Var(_) => true
    case Neg(a) => (kind == Overflow && runs ==> !Overflows(env, e, s)) && Faultless(kind, env, a, s, runs, ticks)
    case Not(a) => Faultless(kind, env, a, s, runs, ticks)
    case Arith(_, a, b) =>
      && (kind == Overflow && runs ==> !Overflows(env, e, s)) && (kind == DivisionByZero && runs ==> !DividesByZero(e, s))
      && Faultless(kind, env, a, s, runs, ticks) && Faultless(kind, env, b, s, runs, ticks)
    case Compare(_, a, b) => Faultless(kind, env, a, s, runs, ticks) && Faultless(kind, env, b, s, runs, ticks)
    case Logic(_, a, b) => Faultless(kind, env, a, s, runs, ticks) && Faultless(kind, env, b, s, runs, ticks)
    case If(c, a, b) =>
      var yes := Math(c, s) != 0;
      && Faultless(kind, env, c, s, runs, ticks)
      && Faultless(kind, env, a, s, runs && yes, ticks && (IsClock(c) ==> yes))
      && Faultless(kind, env, b, s, runs && !yes, ticks)
    case Arrow(a, b) =>
      Faultless(kind, env, a, s, runs && s.first, ticks) && Faultless(kind, env, b, s, runs && !s.first, ticks)
    case Pre(a) => (kind == Narrowing && ticks ==> !Narrows(env, a, s)) && Faultless(kind, env, a, s, ticks, ticks)
    case Index(_, i) =>
      (kind == IndexOutOfBounds && runs ==> !IndexesOutside(env, e, s)) && Faultless(kind, env, i, s, runs, ticks)
    case Cast(_, a) => Faultless(kind, env, a, s, runs, ticks)
    case Call(_, f, args) => FaultlessCall(kind, env, f, args, s, runs, ticks)
    case Condact(act, _, f, args, d) =>
      var stepped := ticks && Math(act, s) != 0;
      && Faultless(kind, env, act, s, runs, ticks) && FaultlessCall(kind, env, f, args, s, stepped, stepped)
      && Faultless(kind, env, d, s, runs, ticks)
  }

  /** Arguments are evaluated and stored where the callee runs. */
  predicate FaultlessCall(kind: Kind, env: Env, f: string, args: seq<Expr>, s: State, runs: bool, ticks: bool)
    decreases args, 1
  {
    (f in env.callees ==> FaultlessStores(kind, env, args, s, runs)) && FaultlessAll(kind, env, args, s, runs, ticks)
  }

  predicate FaultlessStores(kind: Kind, env: Env, args: seq<Expr>, s: State, runs: bool) {
    kind == Narrowing && runs ==> forall i | 0 <= i < |args| :: !Narrows(env, args[i], s)
  }

  predicate FaultlessAll(kind: Kind, env: Env, args: seq<Expr>, s: State, runs: bool, ticks: bool)
    decreases args, 0
  {
    forall i | 0 <= i < |args| :: Faultless(kind, env, args[i], s, runs, ticks)
  }

  /** An equation's value is stored, and evaluated in every cycle. */
  predicate FaultlessEquation(kind: Kind, env: Env, eq: Equation, s: State) {
    FaultlessStores(kind, env, Operands(eq), s, true) && FaultlessAll(kind, env, Operands(eq), s, true, true)
  }

  // ---------------------------------------------------------------- checks that hold

  /** The checks of one kind hold. */
  ghost predicate KindHolds(checks: seq<Check>, kind: Kind, s: State) {
    forall i | 0 <= i < |checks| && checks[i].kind == kind :: Holds(checks[i].body, s)
  }

  lemma NoneHold(kind: Kind, s: State)
    ensures KindHolds([], kind, s)
  {
  }

  lemma KindHoldsJoin(a: seq<Check>, b: seq<Check>, kind: Kind, s: State)
    requires KindHolds(a, kind, s) && KindHolds(b, kind, s)
    ensures KindHolds(a + b, kind, s)
  {
    var all := a + b;
    forall i | 0 <= i < |all| && all[i].kind == kind ensures Holds(all[i].body, s) {
      if i < |a| { assert all[i] == a[i]; } else { assert all[i] == b[i - |a|]; }
    }
  }

  lemma OneHolds(found: Kind, guards: seq<Guard>, cond: Expr, kind: Kind, s: State)
    requires kind == found && GuardsHold(guards, s) ==> Holds(cond, s)
    ensures KindHolds([Check(found, Guarded(guards, cond))], kind, s)
  {
    GuardedMeans(guards, cond, s);
  }

  lemma StoreHolds(env: Env, e: Expr, into: Option<string>, guards: seq<Guard>, kind: Kind, s: State)
    requires kind == Narrowing && GuardsHold(guards, s) ==> !Narrows(env, e, s)
    requires into.Some? ==> s.vars(into.value) == Math(e, s)
    ensures KindHolds(Store(env, e, into, guards), kind, s)
  {
    hide Bounds, IntTypeOf, Within, Guarded, Holds;
    var t := IntTypeOf(env, e);
    if t.None? || !Narrow(t.value) || Fits(Bounds(env, e), RangeOf(t.value)) {
      NoneHold(kind, s);
    } else {
      var subject := if into.Some? then Var(into.value) else e;
      WithinMeans(subject, RangeOf(t.value), s);
      OneHolds(Narrowing, guards, Within(subject, RangeOf(t.value)), kind, s);
    }
  }

  lemma OverflowHolds(env: Env, e: Expr, t: IntType, guards: seq<Guard>, kind: Kind, s: State)
    requires IsOperation(e) && IntTypeOf(env, e) == Some(t)
    requires kind == Overflow && GuardsHold(guards, s) ==> !Overflows(env, e, s)
    ensures KindHolds(OverflowCheck(env, e, t, guards), kind, s)
  {
    hide RawBounds, IntTypeOf, Within, Guarded, Holds;
    var r := RangeOf(Promoted(t));
    if Fits(RawBounds(env, Subject(e)), r) {
      NoneHold(kind, s);
    } else {
      SubjectValue(e, s);
      WithinMeans(Subject(e), r, s);
      OneHolds(Overflow, guards, Within(Subject(e), r), kind, s);
    }
  }

  lemma SubjectValue(e: Expr, s: State)
    requires IsOperation(e)
    ensures Math(Subject(e), s) == Unbounded(e, s)
  {
  }

  lemma ArithHolds(env: Env, e: Expr, guards: seq<Guard>, kind: Kind, s: State)
    requires e.Arith? && (GuardsHold(guards, s) ==> !DividesByZero(e, s))
    requires kind == Overflow && GuardsHold(guards, s) ==> !Overflows(env, e, s)
    ensures KindHolds(ArithChecks(env, e, guards), kind, s)
  {
    hide IntTypeOf, Guarded, OverflowCheck, MayBeZero, Overflows;
    var t := IntTypeOf(env, e);
    if t.None? {
      NoneHold(kind, s);
    } else if (e.op == Div || e.op == Mod) && MayBeZero(env, e.rhs) {
      var nonzero := Compare(Neq, e.rhs, Lit(0));
      assert Math(nonzero, s) == Flag(Math(e.rhs, s) != 0);
      OneHolds(DivisionByZero, guards, nonzero, kind, s);
      GuardsMore(guards, Guard(nonzero, false), s);
      OverflowHolds(env, e, t.value, guards + [Guard(nonzero, false)], kind, s);
      KindHoldsJoin([Check(DivisionByZero, Guarded(guards, nonzero))],
                    OverflowCheck(env, e, t.value, guards + [Guard(nonzero, false)]), kind, s);
    } else {
      OverflowHolds(env, e, t.value, guards, kind, s);
    }
  }

  lemma IndexHolds(env: Env, e: Expr, guards: seq<Guard>, kind: Kind, s: State)
    requires e.Index? && (kind == IndexOutOfBounds && GuardsHold(guards, s) ==> !IndexesOutside(env, e, s))
    ensures KindHolds(IndexChecks(env, e, guards), kind, s)
  {
    hide Bounds, Within, Guarded, Holds;
    if e.base in env.arrays && !Fits(Bounds(env, e.index), Interval(0, env.arrays[e.base].0 as int - 1)) {
      var r := Interval(0, env.arrays[e.base].0 as int - 1);
      WithinMeans(e.index, r, s);
      OneHolds(IndexOutOfBounds, guards, Within(e.index, r), kind, s);
    } else {
      NoneHold(kind, s);
    }
  }

  /** `runs` and `ticks` are what the guards say. */
  ghost predicate Said(guards: seq<Guard>, s: State, runs: bool, ticks: bool) {
    (runs <==> GuardsHold(guards, s)) && (ticks <==> GuardsHold(ClocksOf(guards), s))
  }

  lemma SaidMore(guards: seq<Guard>, g: Guard, s: State, runs: bool, ticks: bool)
    requires Said(guards, s, runs, ticks)
    ensures Said(guards + [g], s, runs && Holds(g.cond, s), ticks && (g.clock ==> Holds(g.cond, s)))
  {
    hide GuardsHold;
    GuardsMore(guards, g, s);
    ClocksMore(guards, g);
    GuardsMore(ClocksOf(guards), g, s);
  }

  lemma {:induction false} ClocksMore(guards: seq<Guard>, g: Guard)
    ensures ClocksOf(guards + [g]) == if g.clock then ClocksOf(guards) + [g] else ClocksOf(guards)
    decreases |guards|
  {
    if guards == [] {
      assert guards + [g] == [g] && [g][1..] == [];
    } else {
      ClocksMore(guards[1..], g);
      assert (guards + [g])[1..] == guards[1..] + [g];
    }
  }

  lemma {:induction false} ClocksAgain(guards: seq<Guard>)
    ensures ClocksOf(ClocksOf(guards)) == ClocksOf(guards)
    decreases |guards|
  {
    if guards != [] {
      ClocksAgain(guards[1..]);
      var rest := ClocksOf(guards[1..]);
      if guards[0].clock { assert ([guards[0]] + rest)[1..] == rest; } else { assert [] + rest == rest; }
    }
  }

  lemma SaidClocks(guards: seq<Guard>, s: State, runs: bool, ticks: bool)
    requires Said(guards, s, runs, ticks)
    ensures Said(ClocksOf(guards), s, ticks, ticks)
  {
    ClocksAgain(guards);
  }

  /** Without a division by zero, every check of a kind holds where nothing is
      at fault in its way. */
  lemma {:induction false} NoFalseAlarm(kind: Kind, env: Env, e: Expr, guards: seq<Guard>, s: State, runs: bool, ticks: bool)
    requires Said(guards, s, runs, ticks)
    requires Faultless(kind, env, e, s, runs, ticks) && Faultless(DivisionByZero, env, e, s, runs, ticks)
    ensures KindHolds(Walk(env, e, guards), kind, s)
    decreases e, 1
  {
    hide Said, KindHolds, IntTypeOf, Overflows, Narrows, Store, OverflowCheck, ArithChecks, IndexChecks, GuardsHold;
    NoneHold(kind, s);
    if e.If? || e.Arrow? {
      ChoiceAlarm(kind, env, e, guards, s, runs, ticks);
    } else if e.Pre? {
      PreAlarm(kind, env, e, guards, s, runs, ticks);
    } else if e.Call? || e.Condact? {
      CallAlarm(kind, env, e, guards, s, runs, ticks);
    } else if e.Neg? || e.Arith? || e.Index? {
      OperationAlarm(kind, env, e, guards, s, runs, ticks);
    } else {
      match e
      case Not(a) => NoFalseAlarm(kind, env, a, guards, s, runs, ticks);
      case Compare(_, a, b) =>
        NoFalseAlarm(kind, env, a, guards, s, runs, ticks);
        NoFalseAlarm(kind, env, b, guards, s, runs, ticks);
        KindHoldsJoin(Walk(env, a, guards), Walk(env, b, guards), kind, s);
      case Logic(_, a, b) =>
        NoFalseAlarm(kind, env, a, guards, s, runs, ticks);
        NoFalseAlarm(kind, env, b, guards, s, runs, ticks);
        KindHoldsJoin(Walk(env, a, guards), Walk(env, b, guards), kind, s);
      case Cast(_, a) => NoFalseAlarm(kind, env, a, guards, s, runs, ticks);
      case _ =>
    }
  }

  lemma SaidRuns(guards: seq<Guard>, s: State, runs: bool, ticks: bool)
    requires Said(guards, s, runs, ticks)
    ensures (runs <==> GuardsHold(guards, s)) && (ticks <==> GuardsHold(ClocksOf(guards), s))
  {
  }

  lemma {:induction false} OperationAlarm(kind: Kind, env: Env, e: Expr, guards: seq<Guard>, s: State, runs: bool, ticks: bool)
    requires (e.Neg? || e.Arith? || e.Index?) && Said(guards, s, runs, ticks)
    requires Faultless(kind, env, e, s, runs, ticks) && Faultless(DivisionByZero, env, e, s, runs, ticks)
    ensures KindHolds(Walk(env, e, guards), kind, s)
    decreases e, 0
  {
    hide Said, KindHolds, Overflows, DividesByZero, OverflowCheck, ArithChecks, IndexChecks, GuardsHold, IndexesOutside;
    SaidRuns(guards, s, runs, ticks);
    match e
    case Neg(a) =>
      var t := IntTypeOf(env, e);
      var own := if t.Some? then OverflowCheck(env, e, t.value, guards) else [];
      if t.Some? { OverflowHolds(env, e, t.value, guards, kind, s); } else { NoneHold(kind, s); }
      NoFalseAlarm(kind, env, a, guards, s, runs, ticks);
      KindHoldsJoin(own, Walk(env, a, guards), kind, s);
    case Arith(_, a, b) =>
      ArithHolds(env, e, guards, kind, s);
      NoFalseAlarm(kind, env, a, guards, s, runs, ticks);
      NoFalseAlarm(kind, env, b, guards, s, runs, ticks);
      KindHoldsJoin(ArithChecks(env, e, guards), Walk(env, a, guards), kind, s);
      KindHoldsJoin(ArithChecks(env, e, guards) + Walk(env, a, guards), Walk(env, b, guards), kind, s);
    case Index(_, i) =>
      IndexHolds(env, e, guards, kind, s);
      NoFalseAlarm(kind, env, i, guards, s, runs, ticks);
      KindHoldsJoin(IndexChecks(env, e, guards), Walk(env, i, guards), kind, s);
  }

  lemma FirstHolds(s: State)
    ensures Holds(FirstCycle(), s) <==> s.first
    ensures Holds(Not(FirstCycle()), s) <==> !s.first
  {
  }

  lemma {:induction false} ChoiceAlarm(kind: Kind, env: Env, e: Expr, guards: seq<Guard>, s: State, runs: bool, ticks: bool)
    requires (e.If? || e.Arrow?) && Said(guards, s, runs, ticks)
    requires Faultless(kind, env, e, s, runs, ticks) && Faultless(DivisionByZero, env, e, s, runs, ticks)
    ensures KindHolds(Walk(env, e, guards), kind, s)
    decreases e, 0
  {
    hide Said, KindHolds, GuardsHold, FirstCycle, IsClock;
    match e
    case If(c, a, b) =>
      var then_, else_ := Guard(c, IsClock(c)), Guard(Not(c), false);
      SaidMore(guards, then_, s, runs, ticks);
      SaidMore(guards, else_, s, runs, ticks);
      NoFalseAlarm(kind, env, c, guards, s, runs, ticks);
      NoFalseAlarm(kind, env, a, guards + [then_], s, runs && Holds(c, s), ticks && (IsClock(c) ==> Holds(c, s)));
      NoFalseAlarm(kind, env, b, guards + [else_], s, runs && Holds(Not(c), s), ticks);
      KindHoldsJoin(Walk(env, c, guards), Walk(env, a, guards + [then_]), kind, s);
      KindHoldsJoin(Walk(env, c, guards) + Walk(env, a, guards + [then_]), Walk(env, b, guards + [else_]), kind, s);
    case Arrow(a, b) =>
      var first, later := Guard(FirstCycle(), false), Guard(Not(FirstCycle()), false);
      FirstHolds(s);
      SaidMore(guards, first, s, runs, ticks);
      SaidMore(guards, later, s, runs, ticks);
      NoFalseAlarm(kind, env, a, guards + [first], s, runs && s.first, ticks);
      NoFalseAlarm(kind, env, b, guards + [later], s, runs && !s.first, ticks);
      KindHoldsJoin(Walk(env, a, guards + [first]), Walk(env, b, guards + [later]), kind, s);
  }

  lemma {:induction false} PreAlarm(kind: Kind, env: Env, e: Expr, guards: seq<Guard>, s: State, runs: bool, ticks: bool)
    requires e.Pre? && Said(guards, s, runs, ticks)
    requires Faultless(kind, env, e, s, runs, ticks) && Faultless(DivisionByZero, env, e, s, runs, ticks)
    ensures KindHolds(Walk(env, e, guards), kind, s)
    decreases e, 0
  {
    hide Said, KindHolds, GuardsHold, Narrows, Store;
    var clocks := ClocksOf(guards);
    SaidClocks(guards, s, runs, ticks);
    SaidRuns(guards, s, runs, ticks);
    NoFalseAlarm(kind, env, e.arg, clocks, s, ticks, ticks);
    StoreHolds(env, e.arg, None, clocks, kind, s);
    KindHoldsJoin(Walk(env, e.arg, clocks), Store(env, e.arg, None, clocks), kind, s);
  }

  lemma {:induction false} StoresHold(kind: Kind, env: Env, args: seq<Expr>, guards: seq<Guard>, s: State)
    requires FaultlessStores(kind, env, args, s, GuardsHold(guards, s))
    ensures KindHolds(ArgumentStores(env, args, guards), kind, s)
    decreases |args|
  {
    hide KindHolds, GuardsHold, Narrows, Store;
    if args == [] {
      NoneHold(kind, s);
    } else {
      assert forall i | 0 <= i < |args[1..]| :: args[1..][i] == args[i+1];
      StoreHolds(env, args[0], None, guards, kind, s);
      StoresHold(kind, env, args[1..], guards, s);
      KindHoldsJoin(Store(env, args[0], None, guards), ArgumentStores(env, args[1..], guards), kind, s);
    }
  }

  lemma {:induction false} AllAlarms(kind: Kind, env: Env, args: seq<Expr>, guards: seq<Guard>, s: State, runs: bool, ticks: bool)
    requires Said(guards, s, runs, ticks)
    requires FaultlessAll(kind, env, args, s, runs, ticks) && FaultlessAll(DivisionByZero, env, args, s, runs, ticks)
    ensures KindHolds(WalkAll(env, args, guards), kind, s)
    decreases args, 0
  {
    hide Said, KindHolds, GuardsHold, Faultless, Walk;
    if args == [] {
      NoneHold(kind, s);
    } else {
      assert forall i | 0 <= i < |args[1..]| :: args[1..][i] == args[i+1];
      NoFalseAlarm(kind, env, args[0], guards, s, runs, ticks);
      AllAlarms(kind, env, args[1..], guards, s, runs, ticks);
      KindHoldsJoin(Walk(env, args[0], guards), WalkAll(env, args[1..], guards), kind, s);
    }
  }

  lemma {:induction false} ArgumentAlarms(kind: Kind, env: Env, f: string, args: seq<Expr>, guards: seq<Guard>, s: State, runs: bool, ticks: bool)
    requires Said(guards, s, runs, ticks)
    requires FaultlessCall(kind, env, f, args, s, runs, ticks) && FaultlessCall(DivisionByZero, env, f, args, s, runs, ticks)
    ensures KindHolds(CallChecks(env, f, args, guards), kind, s)
    decreases args, 1
  {
    hide Said, KindHolds, GuardsHold, FaultlessAll, FaultlessStores, ArgumentStores, WalkAll;
    SaidRuns(guards, s, runs, ticks);
    AllAlarms(kind, env, args, guards, s, runs, ticks);
    var stores := if f in env.callees then ArgumentStores(env, args, guards) else [];
    if f in env.callees { StoresHold(kind, env, args, guards, s); } else { NoneHold(kind, s); }
    KindHoldsJoin(stores, WalkAll(env, args, guards), kind, s);
  }

  lemma {:induction false} CallAlarm(kind: Kind, env: Env, e: Expr, guards: seq<Guard>, s: State, runs: bool, ticks: bool)
    requires (e.Call? || e.Condact?) && Said(guards, s, runs, ticks)
    requires Faultless(kind, env, e, s, runs, ticks) && Faultless(DivisionByZero, env, e, s, runs, ticks)
    ensures KindHolds(Walk(env, e, guards), kind, s)
    decreases e, 0
  {
    hide Said, KindHolds, GuardsHold, FaultlessCall, CallChecks;
    match e
    case Call(_, f, args) => ArgumentAlarms(kind, env, f, args, guards, s, runs, ticks);
    case Condact(act, _, f, args, d) =>
      var inner := CallGuards(act, guards);
      var stepped := ticks && Math(act, s) != 0;
      SaidClocks(guards, s, runs, ticks);
      SaidMore(ClocksOf(guards), Guard(act, true), s, ticks, ticks);
      NoFalseAlarm(kind, env, act, guards, s, runs, ticks);
      ArgumentAlarms(kind, env, f, args, inner, s, stepped, stepped);
      NoFalseAlarm(kind, env, d, guards, s, runs, ticks);
      KindHoldsJoin(Walk(env, act, guards), CallChecks(env, f, args, inner), kind, s);
      KindHoldsJoin(Walk(env, act, guards) + CallChecks(env, f, args, inner), Walk(env, d, guards), kind, s);
  }

  // ---------------------------------------------------------------- equations and nodes

  lemma SaidNothing(s: State)
    ensures Said([], s, true, true)
  {
  }

  lemma EquationAlarm(kind: Kind, env: Env, eq: Equation, s: State)
    requires SolvesAt(eq, s) && FaultlessEquation(kind, env, eq, s) && FaultlessEquation(DivisionByZero, env, eq, s)
    ensures KindHolds(NodeChecks(env, eq), kind, s)
  {
    hide Said, KindHolds, GuardsHold, Faultless, Walk, Store, ArgumentStores, Narrows, WalkAll;
    SaidNothing(s);
    SaidRuns([], s, true, true);
    if eq.Equation? {
      assert Operands(eq)[0] == eq.rhs;
      NoFalseAlarm(kind, env, eq.rhs, [], s, true, true);
      StoreHolds(env, eq.rhs, Some(eq.x), [], kind, s);
      KindHoldsJoin(Walk(env, eq.rhs, []), Store(env, eq.rhs, Some(eq.x), []), kind, s);
    } else {
      StoresHold(kind, env, eq.items, [], s);
      AllAlarms(kind, env, eq.items, [], s, true, true);
      KindHoldsJoin(ArgumentStores(env, eq.items, []), WalkAll(env, eq.items, []), kind, s);
    }
  }

  ghost predicate FaultlessNode(kind: Kind, env: Env, eqs: seq<Equation>, s: State) {
    forall i | 0 <= i < |eqs| :: FaultlessEquation(kind, env, eqs[i], s)
  }

  /** In a cycle in which nothing is divided by zero, every check of a kind
      holds if nothing is at fault in its way. */
  lemma {:induction false} NodeAlarm(kind: Kind, env: Env, eqs: seq<Equation>, s: State, n: nat)
    requires n <= |eqs| && Solves(eqs, s)
    requires FaultlessNode(kind, env, eqs, s) && FaultlessNode(DivisionByZero, env, eqs, s)
    ensures KindHolds(AllChecks(env, eqs, n), kind, s)
    decreases n
  {
    hide KindHolds, NodeChecks, FaultlessEquation, SolvesAt;
    if n == 0 {
      NoneHold(kind, s);
    } else {
      NodeAlarm(kind, env, eqs, s, n-1);
      EquationAlarm(kind, env, eqs[n-1], s);
      KindHoldsJoin(AllChecks(env, eqs, n-1), NodeChecks(env, eqs[n-1]), kind, s);
    }
  }

  /** A cycle without any fault fails no check. */
  lemma FaultlessCycleQuiet(env: Env, eqs: seq<Equation>, s: State)
    requires Solves(eqs, s) && forall kind: Kind :: FaultlessNode(kind, env, eqs, s)
    ensures AllHold(AllChecks(env, eqs, |eqs|), s)
  {
    hide AllChecks, FaultlessNode, Solves;
    var checks := AllChecks(env, eqs, |eqs|);
    forall i | 0 <= i < |checks| ensures Holds(checks[i].body, s) {
      NodeAlarm(checks[i].kind, env, eqs, s, |eqs|);
    }
  }
}
