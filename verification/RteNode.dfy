/** Runtime-error checks over whole nodes and runs: the check locals an
    instrumented node gets, and what it means that they are always true. */
module RteNode {
  import opened Options
  import opened FreshNames
  import opened CIntegers
  import opened Intervals
  import opened Rte
  import opened RteSound

  /** A variable with its value, possibly a call; or an array with its elements. */
  datatype Equation = Equation(x: string, rhs: Expr) | Filled(x: string, items: seq<Expr>)

  function Defined(eqs: seq<Equation>): set<string> {
    set i | 0 <= i < |eqs| :: eqs[i].x
  }

  function Operands(eq: Equation): seq<Expr> {
    if eq.Equation? then [eq.rhs] else eq.items
  }

  /** Elements are stored at their type, like arguments. */
  function NodeChecks(env: Env, eq: Equation): seq<Check> {
    if eq.Equation? then EquationChecks(env, eq.x, eq.rhs)
    else ArgumentStores(env, eq.items, []) + WalkAll(env, eq.items, [])
  }

  function AllChecks(env: Env, eqs: seq<Equation>, n: nat): seq<Check>
    requires n <= |eqs|
  {
    if n == 0 then [] else AllChecks(env, eqs, n-1) + NodeChecks(env, eqs[n-1])
  }

  // ---------------------------------------------------------------- instrumenting

  function Bodies(eqs: seq<Equation>): (bs: seq<Expr>)
    requires forall i | 0 <= i < |eqs| :: eqs[i].Equation?
    ensures |bs| == |eqs|
  {
    seq(|eqs|, i requires 0 <= i < |eqs| => eqs[i].rhs)
  }

  function CheckBodies(checks: seq<Check>): (bs: seq<Expr>)
    ensures |bs| == |checks|
  {
    seq(|checks|, i requires 0 <= i < |checks| => checks[i].body)
  }

  function CheckKinds(checks: seq<Check>): (ks: seq<Kind>)
    ensures |ks| == |checks|
  {
    seq(|checks|, i requires 0 <= i < |checks| => checks[i].kind)
  }

  class Instrumenter {
    var taken: set<string>
    var locals: seq<string>
    var kinds: seq<Kind>
    var newEqs: seq<Equation>

    /** One equation and one kind per check local, the locals distinct and their own. */
    ghost predicate Valid()
      reads this
    {
      && |locals| == |kinds| == |newEqs|
      && (forall i | 0 <= i < |locals| :: newEqs[i].Equation? && newEqs[i].x == locals[i] && locals[i] in taken)
      && (forall i, j | 0 <= i < j < |locals| :: locals[i] != locals[j])
    }

    constructor (names: set<string>)
      ensures Valid() && taken == names && locals == [] && kinds == [] && newEqs == []
    {
      taken := names;
      locals := [];
      kinds := [];
      newEqs := [];
    }

    method Fresh() returns (name: string)
      modifies this`taken
      ensures name !in old(taken) && taken == old(taken) + {name}
    {
      name := PickFresh("rte", taken);
      taken := taken + {name};
    }

    /** One more check: a fresh local defined by its guarded condition. */
    method AddCheck(check: Check)
      requires Valid()
      modifies this
      ensures Valid() && old(taken) <= taken && (forall x | x in locals :: x in old(locals) || x !in old(taken))
      ensures Bodies(newEqs) == old(Bodies(newEqs)) + [check.body] && kinds == old(kinds) + [check.kind]
    {
      var local := Fresh();
      locals := locals + [local];
      kinds := kinds + [check.kind];
      newEqs := newEqs + [Equation(local, check.body)];
      assert Bodies(newEqs) == old(Bodies(newEqs)) + [check.body];
    }

    method AddChecks(checks: seq<Check>)
      requires Valid()
      modifies this
      ensures Valid() && old(taken) <= taken && (forall x | x in locals :: x in old(locals) || x !in old(taken))
      ensures Bodies(newEqs) == old(Bodies(newEqs)) + CheckBodies(checks) && kinds == old(kinds) + CheckKinds(checks)
    {
      for i := 0 to |checks|
        invariant Valid() && old(taken) <= taken && (forall x | x in locals :: x in old(locals) || x !in old(taken))
        invariant Bodies(newEqs) == old(Bodies(newEqs)) + CheckBodies(checks[..i]) && kinds == old(kinds) + CheckKinds(checks[..i])
      {
        AddCheck(checks[i]);
        assert CheckKinds(checks[..i+1]) == CheckKinds(checks[..i]) + [checks[i].kind];
        assert CheckBodies(checks[..i+1]) == CheckBodies(checks[..i]) + [checks[i].body];
      }
      assert checks[..|checks|] == checks;
    }

    /** Every operation and every store of a node's equations. */
    method Run(env: Env, eqs: seq<Equation>)
      requires Valid() && newEqs == []
      modifies this
      ensures Valid() && (forall x | x in locals :: x !in old(taken))
      ensures Bodies(newEqs) == CheckBodies(AllChecks(env, eqs, |eqs|)) && kinds == CheckKinds(AllChecks(env, eqs, |eqs|))
    {
      hide NodeChecks;
      assert locals == [] && kinds == [];
      for i := 0 to |eqs|
        invariant Valid() && old(taken) <= taken && (forall x | x in locals :: x !in old(taken))
        invariant Bodies(newEqs) == CheckBodies(AllChecks(env, eqs, i)) && kinds == CheckKinds(AllChecks(env, eqs, i))
      {
        var more := NodeChecks(env, eqs[i]);
        AddChecks(more);
        assert CheckBodies(AllChecks(env, eqs, i+1)) == CheckBodies(AllChecks(env, eqs, i)) + CheckBodies(more);
        assert CheckKinds(AllChecks(env, eqs, i+1)) == CheckKinds(AllChecks(env, eqs, i)) + CheckKinds(more);
      }
    }
  }

  /** `s` gives every equation's variable its value, and every array its elements. */
  ghost predicate Solves(eqs: seq<Equation>, s: State) {
    forall i | 0 <= i < |eqs| :: SolvesAt(eqs[i], s)
  }

  ghost predicate SolvesAt(eq: Equation, s: State) {
    if eq.Equation? then s.vars(eq.x) == Math(eq.rhs, s)
    else forall k | 0 <= k < |eq.items| :: s.arrays(eq.x, k) == Math(eq.items[k], s)
  }

  /** The check locals are all true exactly when all the checks hold. */
  lemma LocalsSayChecks(checks: seq<Check>, newEqs: seq<Equation>, s: State)
    requires (forall i | 0 <= i < |newEqs| :: newEqs[i].Equation?) && Bodies(newEqs) == CheckBodies(checks) && Solves(newEqs, s)
    ensures (forall i | 0 <= i < |newEqs| :: s.vars(newEqs[i].x) != 0) <==> AllHold(checks, s)
  {
    forall i | 0 <= i < |newEqs| ensures s.vars(newEqs[i].x) == Math(checks[i].body, s) {
      assert SolvesAt(newEqs[i], s) && Bodies(newEqs)[i] == CheckBodies(checks)[i];
    }
  }

  // ---------------------------------------------------------------- memories

  /** An operand of `pre`, with the clock conditions its memory is written under. */
  datatype Site = Site(operand: Expr, guards: seq<Guard>)

  function Sites(e: Expr, guards: seq<Guard>): seq<Site> {
    match e
    case Lit(_) => []
    case Bool(_) => []
    case Var(_) => []
    case Neg(a) => Sites(a, guards)
    case Not(a) => Sites(a, guards)
    case Arith(_, a, b) => Sites(a, guards) + Sites(b, guards)
    case Compare(_, a, b) => Sites(a, guards) + Sites(b, guards)
    case Logic(_, a, b) => Sites(a, guards) + Sites(b, guards)
    case If(c, a, b) =>
      Sites(c, guards) + Sites(a, guards + [Guard(c, IsClock(c))]) + Sites(b, guards + [Guard(Not(c), false)])
    case Arrow(a, b) =>
      Sites(a, guards + [Guard(FirstCycle(), false)]) + Sites(b, guards + [Guard(Not(FirstCycle()), false)])
    case Pre(a) => [Site(a, ClocksOf(guards))] + Sites(a, ClocksOf(guards))
    case Index(_, i) => Sites(i, guards)
    case Cast(_, a) => Sites(a, guards)
    case Call(_, _, args) => SitesAll(args, guards)
    case Condact(act, _, _, args, d) => Sites(act, guards) + SitesAll(args, CallGuards(act, guards)) + Sites(d, guards)
  }

  function SitesAll(args: seq<Expr>, guards: seq<Guard>): seq<Site> {
    if args == [] then [] else Sites(args[0], guards) + SitesAll(args[1..], guards)
  }

  /** The operand is checked, and stored, wherever its clock ticks. */
  ghost predicate Checked(env: Env, site: Site, s: State) {
    && TypeOf(env, site.operand, None).Some?
    && SteadyAt(env, site.operand, TypeOf(env, site.operand, None).value)
    && AllHold(Walk(env, site.operand, site.guards), s)
    && AllHold(Store(env, site.operand, None, site.guards), s)
  }

  ghost predicate AllChecked(env: Env, sites: seq<Site>, s: State) {
    forall i | 0 <= i < |sites| :: Checked(env, sites[i], s)
  }

  lemma CheckedSplit(env: Env, a: seq<Site>, b: seq<Site>, s: State)
    requires AllChecked(env, a, s) && AllChecked(env, b, s)
    ensures AllChecked(env, a + b, s)
  {
  }

  /** The checks of an expression include those of everything its `pre`s remember. */
  lemma {:induction false} SitesChecked(env: Env, e: Expr, t: Ty, guards: seq<Guard>, s: State)
    requires SteadyAt(env, e, t) && AllHold(Walk(env, e, guards), s)
    ensures AllChecked(env, Sites(e, guards), s)
    decreases e
  {
    hide ArithChecks, OverflowCheck, IndexChecks, AllHold, Store;
    match e
    case Lit(_) =>
    case Bool(_) =>
    case Var(_) =>
    case Neg(a) =>
      if !a.Lit? {
        AllHoldSplit(OverflowCheck(env, e, t.t, guards), Walk(env, a, guards), s);
        SitesChecked(env, a, t, guards, s);
      }
    case Not(a) => SitesChecked(env, a, t, guards, s);
    case Arith(_, a, b) =>
      AllHoldSplit(ArithChecks(env, e, guards) + Walk(env, a, guards), Walk(env, b, guards), s);
      AllHoldSplit(ArithChecks(env, e, guards), Walk(env, a, guards), s);
      SitesChecked(env, a, t, guards, s);
      SitesChecked(env, b, t, guards, s);
    case Compare(_, a, b) =>
      AllHoldSplit(Walk(env, a, guards), Walk(env, b, guards), s);
      SitesChecked(env, a, TypeOf(env, a, None).value, guards, s);
      SitesChecked(env, b, TypeOf(env, a, None).value, guards, s);
    case Logic(_, a, b) =>
      AllHoldSplit(Walk(env, a, guards), Walk(env, b, guards), s);
      SitesChecked(env, a, t, guards, s);
      SitesChecked(env, b, t, guards, s);
    case If(c, a, b) =>
      var ga, gb := guards + [Guard(c, IsClock(c))], guards + [Guard(Not(c), false)];
      AllHoldSplit(Walk(env, c, guards) + Walk(env, a, ga), Walk(env, b, gb), s);
      AllHoldSplit(Walk(env, c, guards), Walk(env, a, ga), s);
      SitesChecked(env, c, BoolTy, guards, s);
      SitesChecked(env, a, t, ga, s);
      SitesChecked(env, b, t, gb, s);
      CheckedSplit(env, Sites(c, guards), Sites(a, ga), s);
      CheckedSplit(env, Sites(c, guards) + Sites(a, ga), Sites(b, gb), s);
    case Arrow(a, b) =>
      var ga, gb := guards + [Guard(FirstCycle(), false)], guards + [Guard(Not(FirstCycle()), false)];
      AllHoldSplit(Walk(env, a, ga), Walk(env, b, gb), s);
      SitesChecked(env, a, t, ga, s);
      SitesChecked(env, b, t, gb, s);
    case Pre(a) =>
      AllHoldSplit(Walk(env, a, ClocksOf(guards)), Store(env, a, None, ClocksOf(guards)), s);
      SitesChecked(env, a, t, ClocksOf(guards), s);
    case Index(_, i) =>
      AllHoldSplit(IndexChecks(env, e, guards), Walk(env, i, guards), s);
      SitesChecked(env, i, TypeOf(env, i, None).value, guards, s);
    case Cast(_, a) => SitesChecked(env, a, TypeOf(env, a, None).value, guards, s);
    case Call(_, f, args) =>
      CallWalked(env, f, args, guards, s);
      SitesAllChecked(env, args, env.callees[f].params, guards, s);
    case Condact(act, _, f, args, d) =>
      var inner := CallGuards(act, guards);
      CondactChecks(env, e, guards, s);
      CallWalked(env, f, args, inner, s);
      SitesChecked(env, act, BoolTy, guards, s);
      SitesAllChecked(env, args, env.callees[f].params, inner, s);
      SitesChecked(env, d, t, guards, s);
      CheckedSplit(env, Sites(act, guards), SitesAll(args, inner), s);
      CheckedSplit(env, Sites(act, guards) + SitesAll(args, inner), Sites(d, guards), s);
  }

  lemma CallWalked(env: Env, f: string, args: seq<Expr>, guards: seq<Guard>, s: State)
    requires f in env.callees && AllHold(CallChecks(env, f, args, guards), s)
    ensures AllHold(WalkAll(env, args, guards), s)
  {
    AllHoldSplit(ArgumentStores(env, args, guards), WalkAll(env, args, guards), s);
  }

  lemma {:induction false} SitesAllChecked(env: Env, args: seq<Expr>, ts: seq<Ty>, guards: seq<Guard>, s: State)
    requires |ts| == |args| && (forall i | 0 <= i < |args| :: SteadyAt(env, args[i], ts[i])) && AllHold(WalkAll(env, args, guards), s)
    ensures AllChecked(env, SitesAll(args, guards), s)
    decreases args
  {
    hide AllHold, Checked, SteadyAt, Walk;
    if args != [] {
      AllHoldSplit(Walk(env, args[0], guards), WalkAll(env, args[1..], guards), s);
      SitesChecked(env, args[0], ts[0], guards, s);
      SitesAllChecked(env, args[1..], ts[1..], guards, s);
      CheckedSplit(env, Sites(args[0], guards), SitesAll(args[1..], guards), s);
    }
  }

  // ---------------------------------------------------------------- one cycle

  predicate Declared(env: Env, eq: Equation) {
    if eq.Equation? then eq.x in env.vars else eq.x in env.arrays && |eq.items| == env.arrays[eq.x].0
  }

  /** The type the operands of an equation are stored at. */
  function StoredAt(env: Env, eq: Equation): Ty
    requires Declared(env, eq)
  {
    if eq.Equation? then env.vars[eq.x] else IntTy(env.arrays[eq.x].1)
  }

  ghost predicate SteadyOperand(env: Env, e: Expr, t: Ty) {
    SteadyAt(env, e, t) && StoreSeen(env, e, t)
  }

  /** A node whose checks are complete: no operation and no narrow store owes its
      type to a hint, and the equations are listed so that each reads inputs and
      names defined before it. */
  ghost predicate Complete(env: Env, inputs: set<string>, eqs: seq<Equation>) {
    && inputs <= env.vars.Keys + env.arrays.Keys && env.vars.Keys !! env.arrays.Keys
    && forall i | 0 <= i < |eqs| :: CompleteAt(env, inputs, eqs, i)
  }

  ghost predicate CompleteAt(env: Env, inputs: set<string>, eqs: seq<Equation>, i: nat) {
    i < |eqs| &&
    var ops := Operands(eqs[i]);
    && Declared(env, eqs[i])
    && (forall k | 0 <= k < |ops| :: SteadyOperand(env, ops[k], StoredAt(env, eqs[i])))
    && ReadsAll(ops) <= inputs + Defined(eqs[..i])
    && forall a | a in PresAll(ops) :: Reads(a) <= inputs + Defined(eqs)
  }

  function AllPres(eqs: seq<Equation>): set<Expr> {
    set i, a | 0 <= i < |eqs| && a in PresAll(Operands(eqs[i])) :: a
  }

  function AllCalls(eqs: seq<Equation>): set<(nat, string)> {
    set i, c | 0 <= i < |eqs| && c in CallsAll(Operands(eqs[i])) :: c
  }

  ghost predicate Answers(env: Env, eqs: seq<Equation>, s: State) {
    forall c | c in AllCalls(eqs) :: AnswersIn(env, c, s)
  }

  /** Inputs, memories and the answers of callees are in the range of their types. */
  ghost predicate Starts(env: Env, inputs: set<string>, eqs: seq<Equation>, s: State) {
    NamesIn(env, inputs, s) && MemoriesIn(env, AllPres(eqs), s) && Answers(env, eqs, s)
  }

  /** C computes what the integers do, stores it unchanged, passes it unchanged
      to callees, and remembers it unchanged. */
  ghost predicate Exact(env: Env, eqs: seq<Equation>, s: State) {
    forall i | 0 <= i < |eqs| :: ExactAt(env, eqs[i], s)
  }

  ghost predicate ExactAt(env: Env, eq: Equation, s: State) {
    && Declared(env, eq) && OperandsExact(env, eq, s) && SolvesAt(eq, s)
    && (eq.Equation? ==> CallExact(env, eq.rhs, s))
    && forall j | 0 <= j < |SitesAll(Operands(eq), [])| :: SiteExact(env, SitesAll(Operands(eq), [])[j], s)
  }

  ghost predicate OperandsExact(env: Env, eq: Equation, s: State)
    requires Declared(env, eq)
  {
    forall k | 0 <= k < |Operands(eq)| :: StoredExactly(env, Operands(eq)[k], StoredAt(env, eq), s)
  }

  /** When its instance is stepped, a call passes its arguments unchanged. */
  ghost predicate CallExact(env: Env, e: Expr, s: State) {
    && (e.Call? ==> Callable(env, e.f, |e.args|) && ArgumentsExact(env, e.f, e.args, s))
    && (e.Condact? && Math(e.act, s) != 0 ==> Callable(env, e.f, |e.args|) && ArgumentsExact(env, e.f, e.args, s))
  }

  /** Where its clock ticks, the operand is computed exactly and fits its memory. */
  ghost predicate SiteExact(env: Env, site: Site, s: State) {
    GuardsHold(site.guards, s) ==>
    var t := TypeOf(env, site.operand, None);
    && t.Some? && CEval(env, site.operand, s) == Some(Math(site.operand, s))
    && InTy(Math(site.operand, s), t.value)
  }

  lemma {:induction false} ChecksOf(env: Env, eqs: seq<Equation>, i: nat, n: nat, s: State)
    requires i < n <= |eqs| && AllHold(AllChecks(env, eqs, n), s)
    ensures AllHold(NodeChecks(env, eqs[i]), s)
    decreases n
  {
    hide NodeChecks;
    AllHoldSplit(AllChecks(env, eqs, n-1), NodeChecks(env, eqs[n-1]), s);
    if i < n - 1 { ChecksOf(env, eqs, i, n-1, s); }
  }

  lemma OperandChecks(env: Env, eq: Equation, k: nat, s: State)
    requires k < |Operands(eq)| && AllHold(NodeChecks(env, eq), s)
    ensures AllHold(Walk(env, Operands(eq)[k], []), s)
    ensures AllHold(Store(env, Operands(eq)[k], if eq.Equation? then Some(eq.x) else None, []), s)
    ensures AllHold(WalkAll(env, Operands(eq), []), s)
  {
    hide Walk, Store, AllHold;
    if eq.Equation? {
      AllHoldSplit(Walk(env, eq.rhs, []), Store(env, eq.rhs, Some(eq.x), []), s);
      assert Operands(eq)[1..] == [];
      assert WalkAll(env, Operands(eq)[1..], []) == [];
      assert WalkAll(env, Operands(eq), []) == Walk(env, eq.rhs, []);
    } else {
      AllHoldSplit(ArgumentStores(env, eq.items, []), WalkAll(env, eq.items, []), s);
      ArgumentChecks(env, eq.items, [], k, s);
    }
  }

  lemma OperandInRange(env: Env, inputs: set<string>, eqs: seq<Equation>, i: nat, k: nat, s: State)
    requires i < |eqs| && k < |Operands(eqs[i])| && Starts(env, inputs, eqs, s)
    requires NamesIn(env, inputs + Defined(eqs[..i]), s) && ReadsAll(Operands(eqs[i])) <= inputs + Defined(eqs[..i])
    ensures InRange(env, Operands(eqs[i])[k], s)
  {
    hide InTy, ElementsIn, MemoryIn, AnswersIn;
    var e := Operands(eqs[i])[k];
    assert Reads(e) <= ReadsAll(Operands(eqs[i])) && Pres(e) <= PresAll(Operands(eqs[i])) && Calls(e) <= CallsAll(Operands(eqs[i]));
    forall a | a in Pres(e) ensures MemoryIn(env, a, s) { assert a in AllPres(eqs); }
    forall c | c in Calls(e) ensures AnswersIn(env, c, s) { assert c in AllCalls(eqs); }
  }

  lemma OperandExact(env: Env, eq: Equation, k: nat, s: State)
    requires Declared(env, eq) && k < |Operands(eq)| && SteadyOperand(env, Operands(eq)[k], StoredAt(env, eq))
    requires InRange(env, Operands(eq)[k], s) && AllHold(NodeChecks(env, eq), s) && SolvesAt(eq, s)
    ensures StoredExactly(env, Operands(eq)[k], StoredAt(env, eq), s)
  {
    hide Walk, Store, InRange, SteadyAt, StoreSeen, NodeChecks;
    var e, t := Operands(eq)[k], StoredAt(env, eq);
    OperandChecks(env, eq, k, s);
    ChecksSuffice(env, e, t, [], s);
    StoreSuffices(env, e, t, [], if eq.Equation? then Some(eq.x) else None, s);
  }

  /** What an equation defines is in range. */
  lemma DefinedInRange(env: Env, eq: Equation, names: set<string>, s: State)
    requires Declared(env, eq) && OperandsExact(env, eq, s) && SolvesAt(eq, s) && NamesIn(env, names, s)
    requires env.vars.Keys !! env.arrays.Keys
    ensures NamesIn(env, names + {eq.x}, s)
  {
    hide CEval, Math;
    if eq.Equation? {
      assert StoredExactly(env, Operands(eq)[0], StoredAt(env, eq), s);
    } else {
      forall k: int | 0 <= k < env.arrays[eq.x].0 ensures In(s.arrays(eq.x, k), env.arrays[eq.x].1) {
        assert StoredExactly(env, Operands(eq)[k], StoredAt(env, eq), s);
      }
    }
  }

  lemma EquationOperandsExact(env: Env, inputs: set<string>, eqs: seq<Equation>, i: nat, s: State)
    requires Complete(env, inputs, eqs) && Starts(env, inputs, eqs, s) && Solves(eqs, s)
    requires AllHold(AllChecks(env, eqs, |eqs|), s) && i < |eqs| && NamesIn(env, inputs + Defined(eqs[..i]), s)
    ensures Declared(env, eqs[i]) && OperandsExact(env, eqs[i], s)
  {
    hide Starts, NamesIn, AllChecks, NodeChecks, ReadsAll, PresAll, SteadyOperand, StoredExactly, AllHold, SolvesAt, Reads;
    assert CompleteAt(env, inputs, eqs, i);
    assert SolvesAt(eqs[i], s);
    ChecksOf(env, eqs, i, |eqs|, s);
    forall k | 0 <= k < |Operands(eqs[i])| ensures StoredExactly(env, Operands(eqs[i])[k], StoredAt(env, eqs[i]), s) {
      OperandInRange(env, inputs, eqs, i, k, s);
      OperandExact(env, eqs[i], k, s);
    }
  }

  /** Equation by equation: computed exactly and stored in range. */
  lemma {:induction false} EquationsExact(env: Env, inputs: set<string>, eqs: seq<Equation>, s: State, n: nat)
    requires Complete(env, inputs, eqs) && Starts(env, inputs, eqs, s) && Solves(eqs, s)
    requires AllHold(AllChecks(env, eqs, |eqs|), s) && n <= |eqs|
    ensures NamesIn(env, inputs + Defined(eqs[..n]), s)
    ensures forall i | 0 <= i < n :: Declared(env, eqs[i]) && OperandsExact(env, eqs[i], s)
    decreases n
  {
    hide NamesIn, AllChecks, CompleteAt, OperandsExact, AllHold, SolvesAt, MemoriesIn, Answers;
    if n == 0 {
      assert inputs + Defined(eqs[..0]) == inputs;
    } else {
      EquationsExact(env, inputs, eqs, s, n-1);
      EquationOperandsExact(env, inputs, eqs, n-1, s);
      assert SolvesAt(eqs[n-1], s);
      DefinedInRange(env, eqs[n-1], inputs + Defined(eqs[..n-1]), s);
      assert Defined(eqs[..n]) == Defined(eqs[..n-1]) + {eqs[n-1].x};
      assert inputs + Defined(eqs[..n]) == inputs + Defined(eqs[..n-1]) + {eqs[n-1].x};
    }
  }

  lemma SiteIsExact(env: Env, inputs: set<string>, eqs: seq<Equation>, site: Site, s: State)
    requires NamesIn(env, inputs + Defined(eqs), s) && Starts(env, inputs, eqs, s)
    requires Checked(env, site, s) && Reads(site.operand) <= inputs + Defined(eqs)
    requires Pres(site.operand) <= AllPres(eqs) && Calls(site.operand) <= AllCalls(eqs)
    ensures SiteExact(env, site, s)
  {
    hide AllPres, AllCalls, Walk, Store;
    if GuardsHold(site.guards, s) {
      var a := site.operand;
      var t := TypeOf(env, a, None).value;
      SiteInRange(env, inputs, eqs, a, s);
      ChecksSuffice(env, a, t, site.guards, s);
      StoreSuffices(env, a, t, site.guards, None, s);
    }
  }

  lemma SiteInRange(env: Env, inputs: set<string>, eqs: seq<Equation>, a: Expr, s: State)
    requires NamesIn(env, inputs + Defined(eqs), s) && Starts(env, inputs, eqs, s)
    requires Reads(a) <= inputs + Defined(eqs) && Pres(a) <= AllPres(eqs) && Calls(a) <= AllCalls(eqs)
    ensures InRange(env, a, s)
  {
    hide AllPres, AllCalls, Reads, Pres, Calls, InTy, ElementsIn, MemoryIn, AnswersIn;
  }

  /** The site is an operand of a `pre` in `e`, and so are those in it. */
  predicate PartOf(site: Site, pres: set<Expr>, calls: set<(nat, string)>) {
    site.operand in pres && Pres(site.operand) <= pres && Calls(site.operand) <= calls
  }

  lemma {:induction false} SitesArePres(e: Expr, guards: seq<Guard>)
    ensures forall j | 0 <= j < |Sites(e, guards)| :: PartOf(Sites(e, guards)[j], Pres(e), Calls(e))
    decreases e, 1
  {
    match e
    case Lit(_) =>
    case Bool(_) =>
    case Var(_) =>
    case Neg(a) => SitesArePres(a, guards);
    case Not(a) => SitesArePres(a, guards);
    case Arith(_, a, b) => SitesArePres(a, guards); SitesArePres(b, guards);
    case Compare(_, a, b) => SitesArePres(a, guards); SitesArePres(b, guards);
    case Logic(_, a, b) => SitesArePres(a, guards); SitesArePres(b, guards);
    case If(c, a, b) =>
      SitesArePres(c, guards);
      SitesArePres(a, guards + [Guard(c, IsClock(c))]);
      SitesArePres(b, guards + [Guard(Not(c), false)]);
    case Arrow(a, b) =>
      SitesArePres(a, guards + [Guard(FirstCycle(), false)]);
      SitesArePres(b, guards + [Guard(Not(FirstCycle()), false)]);
    case Pre(a) => SitesArePres(a, ClocksOf(guards));
    case Index(_, i) => SitesArePres(i, guards);
    case Cast(_, a) => SitesArePres(a, guards);
    case Call(_, _, args) => SitesAllArePres(args, guards);
    case Condact(act, _, _, args, d) =>
      SitesArePres(act, guards);
      SitesAllArePres(args, CallGuards(act, guards));
      SitesArePres(d, guards);
  }

  lemma {:induction false} SitesAllArePres(args: seq<Expr>, guards: seq<Guard>)
    ensures forall j | 0 <= j < |SitesAll(args, guards)| :: PartOf(SitesAll(args, guards)[j], PresAll(args), CallsAll(args))
    decreases args, 0
  {
    if args != [] {
      SitesArePres(args[0], guards);
      SitesAllArePres(args[1..], guards);
    }
  }

  /** A call passes its arguments unchanged when its checks hold. */
  lemma CallIsExact(env: Env, e: Expr, t: Ty, s: State)
    requires SteadyAt(env, e, t) && InRange(env, e, s) && AllHold(Walk(env, e, []), s)
    ensures CallExact(env, e, s)
  {
    hide SteadyCall, CallChecks, ArgumentsExact, CEval, AllHold;
    if e.Call? {
      InRangeArguments(env, e, e.args, s);
      SteadyResult(env, e.f, e.args, t);
      CallAgrees(env, e, e.site, e.f, e.args, [], s);
    } else if e.Condact? && Math(e.act, s) != 0 {
      InRangeArguments(env, e, e.args, s);
      SteadyResult(env, e.f, e.args, t);
      CondactChecks(env, e, [], s);
      assert CallGuards(e.act, []) == [] + [Guard(e.act, true)];
      GuardsMore([], Guard(e.act, true), s);
      CallAgrees(env, e, e.site, e.f, e.args, CallGuards(e.act, []), s);
    }
  }

  /** In a cycle that starts in range and in which every check holds, C does
      exactly what the integers do. */
  lemma CycleExact(env: Env, inputs: set<string>, eqs: seq<Equation>, s: State)
    requires Complete(env, inputs, eqs) && Starts(env, inputs, eqs, s) && Solves(eqs, s)
    requires AllHold(AllChecks(env, eqs, |eqs|), s)
    ensures Exact(env, eqs, s)
  {
    hide ExactAt, Starts, Complete, Solves, NamesIn, AllHold, AllChecks;
    assert eqs[..|eqs|] == eqs;
    EquationsExact(env, inputs, eqs, s, |eqs|);
    forall i | 0 <= i < |eqs| ensures ExactAt(env, eqs[i], s) {
      EquationExact(env, inputs, eqs, i, s);
    }
  }

  lemma EquationExact(env: Env, inputs: set<string>, eqs: seq<Equation>, i: nat, s: State)
    requires Complete(env, inputs, eqs) && Starts(env, inputs, eqs, s) && Solves(eqs, s) && i < |eqs|
    requires AllHold(AllChecks(env, eqs, |eqs|), s) && NamesIn(env, inputs + Defined(eqs), s)
    requires Declared(env, eqs[i]) && OperandsExact(env, eqs[i], s)
    ensures ExactAt(env, eqs[i], s)
  {
    hide Starts, NamesIn, AllHold, AllChecks, NodeChecks, OperandsExact, Solves, SitesAll, Reads, ReadsAll, PresAll, CallExact, SiteExact;
    assert CompleteAt(env, inputs, eqs, i);
    assert SolvesAt(eqs[i], s) by { SolvedAt(eqs, i, s); }
    ChecksOf(env, eqs, i, |eqs|, s);
    if eqs[i].Equation? { EquationCall(env, inputs, eqs, i, s); }
    EquationSites(env, inputs, eqs, i, s);
  }

  lemma SolvedAt(eqs: seq<Equation>, i: nat, s: State)
    requires Solves(eqs, s) && i < |eqs|
    ensures SolvesAt(eqs[i], s)
  {
  }

  lemma NamesInFewer(env: Env, more: set<string>, fewer: set<string>, s: State)
    requires NamesIn(env, more, s) && fewer <= more
    ensures NamesIn(env, fewer, s)
  {
  }

  lemma EquationCall(env: Env, inputs: set<string>, eqs: seq<Equation>, i: nat, s: State)
    requires i < |eqs| && eqs[i].Equation? && CompleteAt(env, inputs, eqs, i) && Starts(env, inputs, eqs, s)
    requires AllHold(NodeChecks(env, eqs[i]), s) && NamesIn(env, inputs + Defined(eqs), s)
    ensures CallExact(env, eqs[i].rhs, s)
  {
    hide Starts, NamesIn, AllHold, NodeChecks, Reads, ReadsAll, PresAll, CallExact;
    var e := Operands(eqs[i])[0];
    assert SteadyOperand(env, e, StoredAt(env, eqs[i]));
    assert Defined(eqs[..i]) <= Defined(eqs);
    NamesInFewer(env, inputs + Defined(eqs), inputs + Defined(eqs[..i]), s);
    OperandInRange(env, inputs, eqs, i, 0, s);
    OperandChecks(env, eqs[i], 0, s);
    CallIsExact(env, e, StoredAt(env, eqs[i]), s);
  }

  lemma EquationSites(env: Env, inputs: set<string>, eqs: seq<Equation>, i: nat, s: State)
    requires i < |eqs| && CompleteAt(env, inputs, eqs, i) && Starts(env, inputs, eqs, s)
    requires AllHold(NodeChecks(env, eqs[i]), s) && NamesIn(env, inputs + Defined(eqs), s)
    ensures forall j | 0 <= j < |SitesAll(Operands(eqs[i]), [])| :: SiteExact(env, SitesAll(Operands(eqs[i]), [])[j], s)
  {
    hide Starts, NamesIn, AllHold, NodeChecks, SitesAll, Reads, ReadsAll, PresAll, SiteExact, AllPres, AllCalls, CallsAll, Checked, Pres, Calls;
    var ops := Operands(eqs[i]);
    if ops != [] {
      OperandChecks(env, eqs[i], 0, s);
      var ts := seq(|ops|, k requires 0 <= k < |ops| => StoredAt(env, eqs[i]));
      forall k | 0 <= k < |ops| ensures SteadyAt(env, ops[k], ts[k]) { assert SteadyOperand(env, ops[k], ts[k]); }
      SitesAllChecked(env, ops, ts, [], s);
      SitesAllArePres(ops, []);
      PartsWithin(eqs, i);
      forall j | 0 <= j < |SitesAll(ops, [])| ensures SiteExact(env, SitesAll(ops, [])[j], s) {
        var site := SitesAll(ops, [])[j];
        assert Checked(env, site, s) && PartOf(site, PresAll(ops), CallsAll(ops));
        SiteIsExact(env, inputs, eqs, site, s);
      }
    } else {
      NoSites();
    }
  }

  lemma NoSites()
    ensures SitesAll([], []) == []
  {
  }

  lemma PartsWithin(eqs: seq<Equation>, i: nat)
    requires i < |eqs|
    ensures PresAll(Operands(eqs[i])) <= AllPres(eqs) && CallsAll(Operands(eqs[i])) <= AllCalls(eqs)
  {
    hide PresAll, CallsAll;
  }

  // ---------------------------------------------------------------- runs

  function SitesOf(eq: Equation): set<Site> {
    set z | z in SitesAll(Operands(eq), [])
  }

  function NodeSites(eqs: seq<Equation>): set<Site> {
    set eq, z | eq in eqs && z in SitesOf(eq) :: z
  }

  lemma SiteFound(eqs: seq<Equation>, z: Site) returns (i: nat, j: nat)
    requires z in NodeSites(eqs)
    ensures i < |eqs| && j < |SitesAll(Operands(eqs[i]), [])| && SitesAll(Operands(eqs[i]), [])[j] == z
  {
    var eq :| eq in eqs && z in SitesOf(eq);
    i :| 0 <= i < |eqs| && eqs[i] == eq;
    j :| 0 <= j < |SitesAll(Operands(eq), [])| && SitesAll(Operands(eq), [])[j] == z;
  }

  /** A clock of some `pre` over `a` ticks. */
  ghost predicate Written(sites: set<Site>, a: Expr, s: State) {
    exists z :: z in sites && z.operand == a && GuardsHold(z.guards, s)
  }

  /** A memory is written on every tick of its clock, and kept otherwise. */
  ghost predicate Remembers(sites: set<Site>, a: Expr, s: State, next: State) {
    next.memory(a) == if Written(sites, a, s) then Math(a, s) else s.memory(a)
  }

  ghost predicate Evolves(eqs: seq<Equation>, s: State, next: State) {
    forall a | a in AllPres(eqs) :: Remembers(NodeSites(eqs), a, s, next)
  }

  lemma MemoriesStay(env: Env, eqs: seq<Equation>, s: State, next: State)
    requires MemoriesIn(env, AllPres(eqs), s) && Exact(env, eqs, s) && Evolves(eqs, s, next)
    ensures MemoriesIn(env, AllPres(eqs), next)
  {
    hide AllPres, SitesAll, NodeSites;
    forall a | a in AllPres(eqs) ensures MemoryIn(env, a, next) {
      assert Remembers(NodeSites(eqs), a, s, next) && MemoryIn(env, a, s);
      if Written(NodeSites(eqs), a, s) {
        var z :| z in NodeSites(eqs) && z.operand == a && GuardsHold(z.guards, s);
        var i, j := SiteFound(eqs, z);
        assert ExactAt(env, eqs[i], s);
        assert SiteExact(env, SitesAll(Operands(eqs[i]), [])[j], s);
      }
    }
  }

  /** The inputs, and the answers of callees, are in range in every cycle, every
      check holds in every cycle, and memories start in range and evolve as written. */
  ghost predicate CheckedRun(env: Env, inputs: set<string>, eqs: seq<Equation>, run: nat -> State) {
    && MemoriesIn(env, AllPres(eqs), run(0))
    && forall n: nat :: CheckedCycle(env, inputs, eqs, run, n)
  }

  ghost predicate CheckedCycle(env: Env, inputs: set<string>, eqs: seq<Equation>, run: nat -> State, n: nat) {
    && NamesIn(env, inputs, run(n)) && Answers(env, eqs, run(n)) && Solves(eqs, run(n))
    && AllHold(AllChecks(env, eqs, |eqs|), run(n)) && Evolves(eqs, run(n), run(n+1))
  }

  /** No runtime error, ever: when the checks are always true, C computes,
      stores, passes and remembers in every cycle exactly what the integers do. */
  lemma {:induction false} RunExact(env: Env, inputs: set<string>, eqs: seq<Equation>, run: nat -> State, n: nat)
    requires Complete(env, inputs, eqs) && CheckedRun(env, inputs, eqs, run)
    ensures MemoriesIn(env, AllPres(eqs), run(n)) && Exact(env, eqs, run(n))
    decreases n
  {
    hide AllPres, Complete, AllChecks, Exact, Solves, NamesIn, Answers, MemoriesIn, Evolves, AllHold;
    assert CheckedCycle(env, inputs, eqs, run, n);
    if n > 0 {
      RunExact(env, inputs, eqs, run, n-1);
      assert CheckedCycle(env, inputs, eqs, run, n-1);
      MemoriesStay(env, eqs, run(n-1), run(n));
    }
    CycleExact(env, inputs, eqs, run(n));
  }
}
