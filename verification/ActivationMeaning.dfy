/** A lowered activation computes what the decision tree says: the first branch
    whose condition holds, run on its own activations, the others frozen. */
module ActivationMeaning {
  import opened Lustre
  import opened Clocks
  import opened Inference
  import opened Options
  import opened Graphs
  import opened Execution
  import opened Activation
  import opened Lowering
  import opened ActivationClocks
  import opened ActivationRuns
  import opened FilteredRuns
  import opened LastMeaning

  // ---------------------------------------------------------------- the value one cycle ago

  /** The type a holder is given. */
  ghost function LastType(tree: Tree, owner: map<string, Type>, v: string): Type {
    if i: nat :| i < |Holders(tree)| && Holders(tree)[i].v == v
    then TypeOf(WithHolders(tree, Holders(tree), Variables(tree, owner), i), v) else BoolType
  }

  /** What `last(v)` is at first: the first initial value given for `v`, or the
      default of its type. */
  ghost function Initial(cx: Context, tree: Tree, owner: map<string, Type>, t: Trace, v: string): Value {
    var init := FirstInit(Occurrences(tree), v);
    if init.Some? then Eval(cx, init.value, Base, t, 0) else Default(LastType(tree, owner, v))
  }

  /** The value of each variable one cycle ago. */
  ghost function Prior(cx: Context, tree: Tree, owner: map<string, Type>, t: Trace): Trace {
    (n, v) => if n > 0 then t(n-1, v) else Initial(cx, tree, owner, t, v)
  }

  /** Branch `i`'s condition, as it was written. */
  ghost function ConditionValue(cx: Context, tree: Tree, owner: map<string, Type>, t: Trace, n: nat, i: nat): Value
    requires i < |tree.branches|
  {
    Recall(cx, tree.branches[i].condition, Base, t, Prior(cx, tree, owner, t), n)
  }

  /** The variables `last` asks for are known. */
  ghost predicate HoldersIn(tree: Tree, names: set<string>) {
    forall i | 0 <= i < |Holders(tree)| :: Holders(tree)[i].v in names
  }

  // ---------------------------------------------------------------- the reference machine

  /** The first branch from `i` on whose condition holds; the else scope if none does. */
  ghost function SelectedFrom(cx: Context, tree: Tree, owner: map<string, Type>, t: Trace, n: nat, i: nat): (k: nat)
    requires i <= |tree.branches|
    ensures i <= k <= |tree.branches|
    decreases |tree.branches| - i
  {
    if i == |tree.branches| || Truth(ConditionValue(cx, tree, owner, t, n, i)) then i
    else SelectedFrom(cx, tree, owner, t, n, i+1)
  }

  ghost function Selected(cx: Context, tree: Tree, owner: map<string, Type>, t: Trace, n: nat): (k: nat)
    ensures k <= |tree.branches|
  {
    SelectedFrom(cx, tree, owner, t, n, 0)
  }

  /** How often scope `k` was selected before cycle `n`. */
  ghost function Turns(cx: Context, tree: Tree, owner: map<string, Type>, t: Trace, k: nat, n: nat): nat {
    if n == 0 then 0 else Turns(cx, tree, owner, t, k, n-1) + if Selected(cx, tree, owner, t, n-1) == k then 1 else 0
  }

  ghost predicate TurnAt(cx: Context, tree: Tree, owner: map<string, Type>, t: Trace, k: nat, tau: Trace, n: nat) {
    forall v :: tau(Turns(cx, tree, owner, t, k, n), v) == t(n, v)
  }

  /** `tau` is what scope `k` sees: the cycles in which it is selected, one after the other. */
  ghost predicate Stream(cx: Context, tree: Tree, owner: map<string, Type>, t: Trace, k: nat, tau: Trace) {
    forall n: nat | Selected(cx, tree, owner, t, n) == k :: TurnAt(cx, tree, owner, t, k, tau, n)
  }

  /** Every condition has a value in every cycle. */
  ghost predicate Decided(cx: Context, tree: Tree, owner: map<string, Type>, t: Trace) {
    forall n: nat :: DecidedAt(cx, tree, owner, t, n)
  }

  ghost predicate DecidedAt(cx: Context, tree: Tree, owner: map<string, Type>, t: Trace, n: nat) {
    forall i | 0 <= i < |tree.branches| :: !ConditionValue(cx, tree, owner, t, n, i).Undef?
  }

  // ---------------------------------------------------------------- runs of the lowered equations

  function ClockIn(ideal: ClockMap, x: string): Clock {
    if x in ideal then ideal[x] else Base
  }

  /** `t` gives the variable of `eq`, which runs on `ck`, its value at every cycle. */
  ghost predicate Solved(cx: Context, eq: Equation, ck: Clock, d: Value, t: Trace) {
    forall n: nat :: SolvedAt(cx, eq, ck, d, t, n)
  }

  ghost predicate SolvedAt(cx: Context, eq: Equation, ck: Clock, d: Value, t: Trace, n: nat) {
    t(n, eq.lhs) == Held(cx, eq, ck, d, t, n)
  }

  ghost predicate SolvesDefinition(cx: Context, ideal: ClockMap, defaults: string -> Value, t: Trace, d: Definition) {
    Solved(cx, Equation(d.name, d.rhs), ClockIn(ideal, d.name), defaults(d.name), t)
  }

  /** `t` solves every lowered equation, each on its intended clock. */
  ghost predicate Solves(cx: Context, tree: Tree, owner: map<string, Type>, ideal: ClockMap, defaults: string -> Value, t: Trace) {
    && (forall d | d in Definitions(tree, owner) :: SolvesDefinition(cx, ideal, defaults, t, d))
    && (forall i | 0 <= i < |tree.outputs| ::
          var p := tree.outputs[i];
          Solved(cx, OutputEquation(tree, p), ClockIn(ideal, p.name), defaults(p.name), t))
  }

  /** Equations with the clocks `ideal` gives them. */
  function System(eqs: seq<Equation>, ideal: ClockMap, defaults: string -> Value): (sys: seq<Clocked>)
    ensures |sys| == |eqs|
  {
    seq(|eqs|, i requires 0 <= i < |eqs| => Clocked(eqs[i], ClockIn(ideal, eqs[i].lhs), defaults(eqs[i].lhs)))
  }

  lemma RunSolves(cx: Context, eqs: seq<Equation>, tree: Tree, owner: map<string, Type>, ideal: ClockMap,
                  defaults: string -> Value, t: Trace)
    requires Run(cx, System(eqs, ideal, defaults), t)
    requires forall eq | eq in LoweredTree(tree, owner).equations :: eq in eqs
    ensures Solves(cx, tree, owner, ideal, defaults, t)
  {
    hide Definitions, MergeChain;
    var ds := Definitions(tree, owner);
    var low := LoweredTree(tree, owner).equations;
    forall d | d in ds ensures SolvesDefinition(cx, ideal, defaults, t, d) {
      var i :| 0 <= i < |ds| && ds[i] == d;
      assert low[i] == Equation(d.name, d.rhs);
      EquationSolved(cx, eqs, ideal, defaults, t, low[i]);
    }
    forall i | 0 <= i < |tree.outputs|
      ensures Solved(cx, OutputEquation(tree, tree.outputs[i]), ClockIn(ideal, tree.outputs[i].name), defaults(tree.outputs[i].name), t)
    {
      assert low[|ds| + i] == OutputEquation(tree, tree.outputs[i]);
      EquationSolved(cx, eqs, ideal, defaults, t, low[|ds| + i]);
    }
  }

  /** Inference reports nothing on the lowered equations, and runs on the clocks
      it finds solve them. */
  lemma InferredRunSolves(cx: Context, node: Node, own: seq<Equation>, tree: Tree, owner: map<string, Type>, names: set<string>,
                          ideal: ClockMap, t: Trace)
    requires node.equations == own + LoweredTree(tree, owner).equations
    requires Ports(node) <= names && Intended(tree, names, ideal) && Fresh(tree, names)
    requires Acceptable(tree, owner) && BaseTree(tree, owner, names) && BaseEquations(own, ideal)
    requires Run(cx, ClockedEquations(node, Inferred(node)), t)
    ensures NoErrors(node, Inferred(node))
    ensures Solves(cx, tree, owner, ideal, x => Default(VarType(node, x)), t)
  {
    hide Definitions, Acceptable, BaseTree, Intended, Fresh, Knows, LoweredTree, Inferred;
    LoweredClocking(node, own, tree, owner, names, ideal);
    InOrderFound(node, ideal);
    var vc := Inferred(node);
    var defaults := x => Default(VarType(node, x));
    var sys := System(node.equations, ideal, defaults);
    forall i | 0 <= i < |sys| ensures sys[i] == ClockedEquations(node, vc)[i] {
      FoundClock(node, ideal, vc, i);
      var x := node.equations[i].lhs;
      assert sys[i].default == defaults(x) == Default(VarType(node, x));
      assert sys[i].ck == EquationClock(node.equations[i], vc);
    }
    assert sys == ClockedEquations(node, vc);
    RunSolves(cx, node.equations, tree, owner, ideal, defaults, t);
  }

  lemma EquationSolved(cx: Context, eqs: seq<Equation>, ideal: ClockMap, defaults: string -> Value, t: Trace, eq: Equation)
    requires Run(cx, System(eqs, ideal, defaults), t) && eq in eqs
    ensures Solved(cx, eq, ClockIn(ideal, eq.lhs), defaults(eq.lhs), t)
  {
    var sys := System(eqs, ideal, defaults);
    var i :| 0 <= i < |eqs| && eqs[i] == eq;
    forall n: nat ensures SolvedAt(cx, eq, ClockIn(ideal, eq.lhs), defaults(eq.lhs), t, n) {
      assert StepOk(cx, sys, t, n);
      assert sys[i].eq == eq;
    }
  }

  // ---------------------------------------------------------------- selection

  lemma {:induction false} SelectedStep(cx: Context, tree: Tree, owner: map<string, Type>, t: Trace, n: nat, j: nat, i: nat)
    requires j <= i < |tree.branches|
    ensures
      var k := SelectedFrom(cx, tree, owner, t, n, j);
      var holds := Truth(ConditionValue(cx, tree, owner, t, n, i));
      (k == i <==> k >= i && holds) && (k > i <==> k >= i && !holds)
    decreases i - j
  {
    hide ConditionValue;
    if j < i { SelectedStep(cx, tree, owner, t, n, j+1, i); }
  }

  /** A holder starts from the first initial value given. */
  lemma HolderKept(tree: Tree)
    ensures Apart(Holders(tree)) && Remembered(Holders(tree)) == Remembered(Occurrences(tree))
    ensures forall i | 0 <= i < |Holders(tree)| :: Holders(tree)[i].init == FirstInit(Occurrences(tree), Holders(tree)[i].v)
  {
    hide ConditionLasts, ScopeLasts, Remembered, Apart, Collect, FirstInit;
    CollectRight(Occurrences(tree));
    assert forall i | 0 <= i < |Holders(tree)| :: Holders(tree)[i] in Holders(tree);
  }

  lemma SameHolder(found: seq<Holder>, i: nat, j: nat)
    requires Apart(found) && i < |found| && j < |found| && found[i].v == found[j].v
    ensures i == j
  {
  }

  lemma OneHolder(tree: Tree, owner: map<string, Type>, i: nat)
    requires i < |Holders(tree)| && Apart(Holders(tree))
    ensures LastType(tree, owner, Holders(tree)[i].v) == TypeOf(WithHolders(tree, Holders(tree), Variables(tree, owner), i), Holders(tree)[i].v)
  {
    hide Holders, WithHolders, Variables, Apart;
    forall j: nat | j < |Holders(tree)| && Holders(tree)[j].v == Holders(tree)[i].v ensures j == i {
      SameHolder(Holders(tree), i, j);
    }
  }

  lemma PriorIs(cx: Context, tree: Tree, owner: map<string, Type>, t: Trace, n: nat, v: string)
    ensures Prior(cx, tree, owner, t)(n, v) == if n > 0 then t(n-1, v) else Initial(cx, tree, owner, t, v)
  {
    hide Initial;
  }

  lemma HolderShown(cx: Context, tree: Tree, owner: map<string, Type>, names: set<string>, ideal: ClockMap,
                    defaults: string -> Value, t: Trace, n: nat, i: nat)
    requires Intended(tree, names, ideal) && Solves(cx, tree, owner, ideal, defaults, t)
    requires i < |Holders(tree)| && Holders(tree)[i].v in names
    ensures t(n, Spell(tree, Last(Holders(tree)[i].v))) == Prior(cx, tree, owner, t)(n, Holders(tree)[i].v)
  {
    hide Spell, Intended, Solves, Occurrences, WithHolders, Variables, Holders, Apart, Remembered, LastType, FirstInit, Prior;
    HolderKept(tree);
    LastIsPrevious(cx, tree, owner, names, ideal, defaults, t, n, i);
    OneHolder(tree, owner, i);
    var h := Holders(tree)[i];
    assert h.init == FirstInit(Occurrences(tree), h.v);
    PriorIs(cx, tree, owner, t, n, h.v);
  }

  lemma HolderOf(tree: Tree, v: string) returns (i: nat)
    requires v in Remembered(Holders(tree))
    ensures i < |Holders(tree)| && Holders(tree)[i].v == v
  {
    hide Holders;
    i :| 0 <= i < |Holders(tree)| && Holders(tree)[i].v == v;
  }

  lemma HolderListed(tree: Tree, names: set<string>, i: nat)
    requires HoldersIn(tree, names) && i < |Holders(tree)|
    ensures Holders(tree)[i].v in names
  {
    hide Holders;
  }

  /** The holders show the values of one cycle ago. */
  lemma HoldersShown(cx: Context, tree: Tree, owner: map<string, Type>, names: set<string>, ideal: ClockMap,
                     defaults: string -> Value, t: Trace, n: nat)
    requires Intended(tree, names, ideal) && Solves(cx, tree, owner, ideal, defaults, t) && HoldersIn(tree, names)
    ensures HoldersShow(tree, Remembered(Occurrences(tree)), t, Prior(cx, tree, owner, t), n)
  {
    hide Spell, Intended, Solves, Occurrences, Remembered, HoldersIn, Prior, Holders, Apart, FirstInit;
    forall m: nat | m <= n ensures HoldersShowAt(tree, Remembered(Occurrences(tree)), t, Prior(cx, tree, owner, t), m) {
      forall v | v in Remembered(Occurrences(tree)) ensures t(m, Spell(tree, Last(v))) == Prior(cx, tree, owner, t)(m, v) {
        HolderKept(tree);
        var i := HolderOf(tree, v);
        HolderListed(tree, names, i);
        HolderShown(cx, tree, owner, names, ideal, defaults, t, m, i);
      }
    }
  }

  /** A lowered condition has the value of the condition as it was written. */
  lemma ConditionMeans(cx: Context, tree: Tree, owner: map<string, Type>, names: set<string>, ideal: ClockMap,
                       defaults: string -> Value, t: Trace, n: nat, i: nat)
    requires Intended(tree, names, ideal) && Solves(cx, tree, owner, ideal, defaults, t)
    requires HoldersIn(tree, names) && i < |tree.branches|
    ensures Eval(cx, Condition(tree, i), Base, t, n) == ConditionValue(cx, tree, owner, t, n, i)
  {
    hide Spell, Intended, Solves, Remembered, Occurrences, HoldersIn, Prior, HoldersShow, Relast;
    HoldersShown(cx, tree, owner, names, ideal, defaults, t, n);
    ConditionAsked(tree, i);
    RelastMeans(cx, tree, tree.branches[i].condition, Remembered(Occurrences(tree)), Base, t, Prior(cx, tree, owner, t), n);
  }

  /** What the flags of branch `i` show in cycle `n`. */
  ghost predicate FlagsShow(cx: Context, tree: Tree, owner: map<string, Type>, t: Trace, n: nat, i: nat) {
    var b := t(n, Spell(tree, Flag(i)));
    var none := t(n, Spell(tree, NoneUpTo(i)));
    && !b.Undef? && Truth(b) == (Selected(cx, tree, owner, t, n) == i)
    && (i + 1 < |tree.branches| ==> !none.Undef? && Truth(none) == (Selected(cx, tree, owner, t, n) > i))
  }

  lemma BaseSolved(cx: Context, tree: Tree, owner: map<string, Type>, names: set<string>, ideal: ClockMap,
                   defaults: string -> Value, t: Trace, n: nat, g: Generated, d: Definition)
    requires Intended(tree, names, ideal) && Solves(cx, tree, owner, ideal, defaults, t)
    requires Relevant(|tree.branches|, names, g) && ClockOf(tree, g) == Base
    requires d in Definitions(tree, owner) && d.name == Spell(tree, g)
    ensures t(n, Spell(tree, g)) == Eval(cx, d.rhs, Base, t, n)
  {
    hide Definitions, Spell;
    assert SolvesDefinition(cx, ideal, defaults, t, d);
    assert SolvedAt(cx, Equation(d.name, d.rhs), ClockIn(ideal, d.name), defaults(d.name), t, n);
  }

  /** The flags of branch `i` have the values of their defining equations. */
  lemma FlagValues(cx: Context, tree: Tree, owner: map<string, Type>, names: set<string>, ideal: ClockMap,
                   defaults: string -> Value, t: Trace, n: nat, i: nat)
    requires Intended(tree, names, ideal) && Solves(cx, tree, owner, ideal, defaults, t) && i < |tree.branches|
    ensures t(n, Spell(tree, Flag(i))) == Eval(cx, Decision(tree, i, Condition(tree, i)), Base, t, n)
    ensures i + 1 < |tree.branches| ==>
              t(n, Spell(tree, NoneUpTo(i))) == Eval(cx, Decision(tree, i, Unary(Not, Condition(tree, i))), Base, t, n)
  {
    hide Definitions, Spell, Condition, Intended, Solves, Decision;
    var c := Condition(tree, i);
    var d := Definition(Spell(tree, Flag(i)), BoolType, Decision(tree, i, c));
    assert d == FlagDefinition(tree, i)[0];
    Contains(tree, owner, d);
    BaseSolved(cx, tree, owner, names, ideal, defaults, t, n, Flag(i), d);
    if i + 1 < |tree.branches| {
      var e := Definition(Spell(tree, NoneUpTo(i)), BoolType, Decision(tree, i, Unary(Not, c)));
      assert e == FlagDefinition(tree, i)[1];
      Contains(tree, owner, e);
      BaseSolved(cx, tree, owner, names, ideal, defaults, t, n, NoneUpTo(i), e);
    }
  }

  lemma {:induction false} FlagsRight(cx: Context, tree: Tree, owner: map<string, Type>, names: set<string>, ideal: ClockMap,
                                      defaults: string -> Value, t: Trace, n: nat, i: nat)
    requires Intended(tree, names, ideal) && Solves(cx, tree, owner, ideal, defaults, t)
    requires HoldersIn(tree, names)
    requires DecidedAt(cx, tree, owner, t, n) && i < |tree.branches|
    ensures FlagsShow(cx, tree, owner, t, n, i)
    decreases i
  {
    hide Definitions, Spell, Condition, Selected, Intended, Solves;
    if i > 0 { FlagsRight(cx, tree, owner, names, ideal, defaults, t, n, i-1); }
    FlagValues(cx, tree, owner, names, ideal, defaults, t, n, i);
    SelectedAt(cx, tree, owner, t, n, i);
    ConditionMeans(cx, tree, owner, names, ideal, defaults, t, n, i);
    assert !ConditionValue(cx, tree, owner, t, n, i).Undef?;
  }

  lemma SelectedAt(cx: Context, tree: Tree, owner: map<string, Type>, t: Trace, n: nat, i: nat)
    requires i < |tree.branches|
    ensures
      var k := Selected(cx, tree, owner, t, n);
      var holds := Truth(ConditionValue(cx, tree, owner, t, n, i));
      (k == i <==> k >= i && holds) && (k > i <==> k >= i && !holds) && k <= |tree.branches|
  {
    hide ConditionValue;
    SelectedStep(cx, tree, owner, t, n, 0, i);
  }

  // ---------------------------------------------------------------- the clocks of the scopes

  lemma {:induction false} UnderEval(cx: Context, tree: Tree, k: nat, e: Expr, t: Trace, n: nat)
    ensures Eval(cx, Under(tree, k, e), UnderClock(tree, k), t, n) == Eval(cx, e, Base, t, n)
    decreases k
  {
    hide Spell;
    if k > 0 { UnderEval(cx, tree, k-1, e, t, n); }
  }

  lemma OntoEval(cx: Context, tree: Tree, k: nat, e: Expr, t: Trace, n: nat)
    requires k <= |tree.branches|
    ensures Eval(cx, Onto(tree, k, e), ScopeClock(tree, k), t, n) == Eval(cx, e, Base, t, n)
  {
    hide Spell;
    UnderEval(cx, tree, k, e, t, n);
  }

  /** Where the first `k` branches failed, the clock variable of branch `k` says
      whether it is the one selected; so its clock ticks when it is. */
  lemma {:induction false} GatesRight(cx: Context, tree: Tree, owner: map<string, Type>, names: set<string>, ideal: ClockMap,
                                      defaults: string -> Value, t: Trace, n: nat, k: nat)
    requires Intended(tree, names, ideal) && Solves(cx, tree, owner, ideal, defaults, t)
    requires HoldersIn(tree, names)
    requires DecidedAt(cx, tree, owner, t, n) && k <= |tree.branches|
    ensures Active(UnderClock(tree, k), t, n) <==> Selected(cx, tree, owner, t, n) >= k
    decreases k
  {
    hide Definitions, Spell, Selected, Intended, Solves, DecidedAt;
    if k > 0 {
      GatesRight(cx, tree, owner, names, ideal, defaults, t, n, k-1);
      if Selected(cx, tree, owner, t, n) >= k-1 {
        GateShows(cx, tree, owner, names, ideal, defaults, t, n, k-1);
      }
    }
  }

  lemma GateShows(cx: Context, tree: Tree, owner: map<string, Type>, names: set<string>, ideal: ClockMap,
                  defaults: string -> Value, t: Trace, n: nat, k: nat)
    requires Intended(tree, names, ideal) && Solves(cx, tree, owner, ideal, defaults, t)
    requires HoldersIn(tree, names)
    requires DecidedAt(cx, tree, owner, t, n) && k < |tree.branches| && Active(UnderClock(tree, k), t, n)
    ensures !t(n, ClockVar(tree, k)).Undef? && Truth(t(n, ClockVar(tree, k))) == (Selected(cx, tree, owner, t, n) == k)
  {
    hide Definitions, Spell, Selected, UnderClock, Under;
    FlagsRight(cx, tree, owner, names, ideal, defaults, t, n, k);
    if k > 0 {
      var d := GuardDefinition(tree, k);
      Contains(tree, owner, d);
      assert Relevant(|tree.branches|, names, Guard(k));
      assert SolvesDefinition(cx, ideal, defaults, t, d);
      assert SolvedAt(cx, Equation(d.name, d.rhs), ClockIn(ideal, d.name), defaults(d.name), t, n);
      UnderEval(cx, tree, k, Var(Spell(tree, Flag(k))), t, n);
    }
  }

  /** Branch `k`'s clock ticks exactly when its condition is the first to hold,
      and the else scope's when none does: one scope runs in each cycle. */
  lemma OneScope(cx: Context, tree: Tree, owner: map<string, Type>, names: set<string>, ideal: ClockMap,
                 defaults: string -> Value, t: Trace, n: nat, k: nat)
    requires Intended(tree, names, ideal) && Solves(cx, tree, owner, ideal, defaults, t)
    requires HoldersIn(tree, names)
    requires DecidedAt(cx, tree, owner, t, n) && k <= |tree.branches|
    ensures Active(ScopeClock(tree, k), t, n) <==> Selected(cx, tree, owner, t, n) == k
  {
    hide Definitions, Spell, Condition, Intended, Solves, DecidedAt, Selected;
    GatesRight(cx, tree, owner, names, ideal, defaults, t, n, k);
    if k < |tree.branches| && Selected(cx, tree, owner, t, n) >= k {
      GateShows(cx, tree, owner, names, ideal, defaults, t, n, k);
    }
  }

  // ---------------------------------------------------------------- outputs

  lemma {:induction false} ChainPicks(cx: Context, tree: Tree, owner: map<string, Type>, names: set<string>, ideal: ClockMap,
                                      defaults: string -> Value, t: Trace, n: nat, o: string, k: nat)
    requires Intended(tree, names, ideal) && Solves(cx, tree, owner, ideal, defaults, t)
    requires HoldersIn(tree, names)
    requires DecidedAt(cx, tree, owner, t, n) && k <= Selected(cx, tree, owner, t, n)
    ensures Eval(cx, MergeChain(tree, o, k), UnderClock(tree, k), t, n)
            == t(n, Spell(tree, Value(Selected(cx, tree, owner, t, n), o)))
    decreases |tree.branches| - k
  {
    hide Definitions, Spell, Condition, Intended, Solves, DecidedAt, Selected, Under, ClockVar;
    if k < |tree.branches| {
      GatesRight(cx, tree, owner, names, ideal, defaults, t, n, k);
      GateShows(cx, tree, owner, names, ideal, defaults, t, n, k);
      if k < Selected(cx, tree, owner, t, n) {
        ChainPicks(cx, tree, owner, names, ideal, defaults, t, n, o, k+1);
      }
    }
  }

  /** An output is the selected scope's value. */
  lemma OutputPicks(cx: Context, tree: Tree, owner: map<string, Type>, names: set<string>, ideal: ClockMap,
                    defaults: string -> Value, t: Trace, n: nat, i: nat)
    requires Intended(tree, names, ideal) && Solves(cx, tree, owner, ideal, defaults, t)
    requires HoldersIn(tree, names)
    requires DecidedAt(cx, tree, owner, t, n) && i < |tree.outputs| && tree.outputs[i].name in names
    ensures t(n, tree.outputs[i].name) == t(n, Spell(tree, Value(Selected(cx, tree, owner, t, n), tree.outputs[i].name)))
  {
    hide Definitions, Spell, Condition, DecidedAt, Selected, Relevant, MergeChain;
    var p := tree.outputs[i];
    assert SolvedAt(cx, OutputEquation(tree, p), ClockIn(ideal, p.name), defaults(p.name), t, n);
    ChainPicks(cx, tree, owner, names, ideal, defaults, t, n, p.name, 0);
  }

  // ---------------------------------------------------------------- scope values

  /** No `pre`, `->` or stateful call: the value does not depend on when it runs. */
  predicate Timeless(functions: set<string>, e: Expr) {
    match e
    case Const(_) => true
    case Var(_) => true
    case Unary(_, a) => Timeless(functions, a)
    case Binary(_, a, b) => Timeless(functions, a) && Timeless(functions, b)
    case If(c, a, b) => Timeless(functions, c) && Timeless(functions, a) && Timeless(functions, b)
    case Pre(_) => false
    case Arrow(_, _) => false
    case When(a, _, _) => Timeless(functions, a)
    case Merge(_, a, b) => Timeless(functions, a) && Timeless(functions, b)
    case Call(_, f, args) => f in functions && forall i | 0 <= i < |args| :: Timeless(functions, args[i])
    case Condact(_, _, _, _, _) => false
  }

  /** The scope value has something to sample, or nothing to do with time. */
  predicate Anchored(functions: set<string>, rhs: Expr) {
    Names(rhs) != {} || HasConst(rhs) || Timeless(functions, rhs)
  }

  lemma {:induction false} TimelessEval(cx: Context, e: Expr, t: Trace, n: nat, u: Trace, m: nat)
    requires Timeless(cx.functions, e) && Names(e) == {}
    ensures Eval(cx, e, Base, t, n) == Eval(cx, e, Base, u, m)
    decreases e
  {
    match e
    case Const(_) =>
    case Var(_) =>
    case Unary(_, a) => TimelessEval(cx, a, t, n, u, m);
    case Binary(_, a, b) => TimelessEval(cx, a, t, n, u, m); TimelessEval(cx, b, t, n, u, m);
    case If(c, a, b) =>
      TimelessEval(cx, c, t, n, u, m);
      TimelessEval(cx, a, t, n, u, m);
      TimelessEval(cx, b, t, n, u, m);
    case Pre(_) =>
    case Arrow(_, _) =>
    case When(_, _, _) => assert false;
    case Merge(_, _, _) => assert false;
    case Call(_, _, args) =>
      forall i | 0 <= i < |args| ensures Eval(cx, args[i], Base, t, n) == Eval(cx, args[i], Base, u, m) {
        assert Names(args[i]) <= NamesAll(args);
        TimelessEval(cx, args[i], t, n, u, m);
      }
      assert EvalAll(cx, args, Base, t, n) == EvalAll(cx, args, Base, u, m);
    case Condact(_, _, _, _, _) =>
  }

  lemma SamplesHeld(cx: Context, tree: Tree, owner: map<string, Type>, names: set<string>, ideal: ClockMap,
                    defaults: string -> Value, t: Trace, k: nat, eqs: seq<Equation>, j: nat)
    requires Intended(tree, names, ideal) && Solves(cx, tree, owner, ideal, defaults, t)
    requires k <= |tree.branches| && eqs == Scope(tree, k) && j < |eqs| && Readable(tree, owner).Keys <= names
    ensures SampledIn(tree, k, Names(Relast(tree, eqs[j].rhs)) * Readable(tree, owner).Keys, t)
  {
    hide Definitions, Spell, ScopeDefinitions, Solves, Readable, Relast, ScopeClock, Onto, Intended, Scope;
    var types := Readable(tree, owner);
    ScopeSamplesIn(tree, k, types, eqs, |eqs|);
    ScopeReadsIn(tree, eqs, types.Keys, j, |eqs|);
    forall v | v in Names(Relast(tree, eqs[j].rhs)) * types.Keys
      ensures HoldsSample(ScopeClock(tree, k), t, v, Spell(tree, Sample(k, v)))
    {
      var d := SampleDefinition(tree, k, types, v);
      assert v in ScopeReads(tree, eqs, types.Keys, |eqs|);
      assert d in ScopeDefinitions(tree, k, types, eqs, |eqs|);
      SampleDefined(cx, tree, owner, names, ideal, defaults, t, k, v);
    }
  }

  lemma SampleDefined(cx: Context, tree: Tree, owner: map<string, Type>, names: set<string>, ideal: ClockMap,
                      defaults: string -> Value, t: Trace, k: nat, v: string)
    requires Intended(tree, names, ideal) && Solves(cx, tree, owner, ideal, defaults, t)
    requires k <= |tree.branches| && v in names
    requires SampleDefinition(tree, k, Readable(tree, owner), v) in
               ScopeDefinitions(tree, k, Readable(tree, owner), Scope(tree, k), |Scope(tree, k)|)
    ensures HoldsSample(ScopeClock(tree, k), t, v, Spell(tree, Sample(k, v)))
  {
    hide Definitions, Spell, ScopeDefinitions, Readable, Relast, ScopeClock, Onto, Scope;
    var d := SampleDefinition(tree, k, Readable(tree, owner), v);
    Contains(tree, owner, d);
    assert Relevant(|tree.branches|, names, Sample(k, v));
    assert SolvesDefinition(cx, ideal, defaults, t, d);
    forall n: nat ensures HoldsSampleAt(ScopeClock(tree, k), t, v, Spell(tree, Sample(k, v)), n) {
      assert SolvedAt(cx, Equation(d.name, d.rhs), ClockIn(ideal, d.name), defaults(d.name), t, n);
      OntoEval(cx, tree, k, Var(v), t, n);
    }
  }

  /** The local holding a scope's value for an output, when the scope runs. */
  lemma ValueShows(cx: Context, tree: Tree, owner: map<string, Type>, names: set<string>, ideal: ClockMap,
                   defaults: string -> Value, t: Trace, n: nat, k: nat, eqs: seq<Equation>, j: nat)
    requires Intended(tree, names, ideal) && Solves(cx, tree, owner, ideal, defaults, t)
    requires k <= |tree.branches| && eqs == Scope(tree, k) && j < |eqs| && eqs[j].lhs in names
    requires Active(ScopeClock(tree, k), t, n)
    ensures t(n, Spell(tree, Value(k, eqs[j].lhs)))
            == Eval(cx, ScopeValue(tree, k, Readable(tree, owner).Keys, Relast(tree, eqs[j].rhs)), ScopeClock(tree, k), t, n)
  {
    hide Definitions, Spell, ScopeDefinitions, Readable, Relast, ScopeClock, ScopeValue, OutputType, Scope;
    var d := ValueDefinition(tree, k, Readable(tree, owner), eqs[j]);
    ValueIn(tree, k, Readable(tree, owner), eqs, j, |eqs|);
    Contains(tree, owner, d);
    assert Relevant(|tree.branches|, names, Value(k, eqs[j].lhs));
    assert SolvesDefinition(cx, ideal, defaults, t, d);
    assert SolvedAt(cx, Equation(d.name, d.rhs), ClockIn(ideal, d.name), defaults(d.name), t, n);
  }

  lemma NoElements(xs: seq<string>)
    ensures Elements(xs) == {} <==> xs == []
  {
    assert xs != [] ==> xs[0] in Elements(xs);
  }

  /** A scope value, at an activation, is its right-hand side run on the
      activations alone. */
  lemma ScopeValueFiltered(cx: Context, tree: Tree, names: set<string>, vars: set<string>, t: Trace, tau: Trace, n: nat,
                           k: nat, rhs: Expr)
    requires Fresh(tree, names) && k <= |tree.branches| && vars <= names && BaseExpr(rhs, names) && Names(rhs) <= vars
    requires SampledIn(tree, k, Names(rhs), t) && Follows(ScopeClock(tree, k), t, tau)
    requires Active(ScopeClock(tree, k), t, n) && Anchored(cx.functions, rhs)
    ensures Eval(cx, ScopeValue(tree, k, vars, rhs), ScopeClock(tree, k), t, n)
            == Eval(cx, rhs, Base, tau, Ticks(ScopeClock(tree, k), t, n))
  {
    hide Spell, ScopeClock, Onto, Substitute, Pin, Ticks, Follows, SampledIn, Fresh;
    var reading := FreeVars(rhs, vars);
    if Names(rhs) != {} {
      ScopeValueSubstitutes(tree, names, k, vars, rhs);
      FilteredEval(cx, tree, k, Names(rhs), AllBase(names), false, rhs, Base, t, tau, n);
    } else if HasConst(rhs) {
      NoElements(reading);
      PinSubstitutes(tree, k, rhs);
      FilteredEval(cx, tree, k, {}, AllBase(names), true, rhs, Base, t, tau, n);
    } else {
      NoElements(reading);
      OntoEval(cx, tree, k, rhs, t, n);
      TimelessEval(cx, rhs, t, n, tau, Ticks(ScopeClock(tree, k), t, n));
    }
  }

  // ---------------------------------------------------------------- the refinement

  lemma {:induction false} TurnsAreTicks(cx: Context, tree: Tree, owner: map<string, Type>, names: set<string>, ideal: ClockMap,
                                         defaults: string -> Value, t: Trace, k: nat, n: nat)
    requires Intended(tree, names, ideal) && Solves(cx, tree, owner, ideal, defaults, t)
    requires HoldersIn(tree, names)
    requires Decided(cx, tree, owner, t) && k <= |tree.branches|
    ensures Turns(cx, tree, owner, t, k, n) == Ticks(ScopeClock(tree, k), t, n)
    decreases n
  {
    hide Definitions, Spell, Condition, Intended, Solves, DecidedAt, Selected, ScopeClock;
    if n > 0 {
      TurnsAreTicks(cx, tree, owner, names, ideal, defaults, t, k, n-1);
      assert DecidedAt(cx, tree, owner, t, n-1);
      OneScope(cx, tree, owner, names, ideal, defaults, t, n-1, k);
    }
  }

  lemma StreamFollows(cx: Context, tree: Tree, owner: map<string, Type>, names: set<string>, ideal: ClockMap,
                      defaults: string -> Value, t: Trace, k: nat, tau: Trace)
    requires Intended(tree, names, ideal) && Solves(cx, tree, owner, ideal, defaults, t)
    requires HoldersIn(tree, names)
    requires Decided(cx, tree, owner, t) && k <= |tree.branches|
    ensures Stream(cx, tree, owner, t, k, tau) <==> Follows(ScopeClock(tree, k), t, tau)
  {
    hide Definitions, Spell, Condition, Intended, Solves, DecidedAt, Selected, ScopeClock, Ticks, Turns;
    forall n: nat
      ensures Active(ScopeClock(tree, k), t, n) <==> Selected(cx, tree, owner, t, n) == k
      ensures FollowsAt(ScopeClock(tree, k), t, tau, n) <==> TurnAt(cx, tree, owner, t, k, tau, n)
    {
      assert DecidedAt(cx, tree, owner, t, n);
      OneScope(cx, tree, owner, names, ideal, defaults, t, n, k);
      TurnsAreTicks(cx, tree, owner, names, ideal, defaults, t, k, n);
    }
  }

  /** What each scope sees exists. */
  lemma StreamExists(cx: Context, tree: Tree, owner: map<string, Type>, names: set<string>, ideal: ClockMap,
                     defaults: string -> Value, t: Trace, k: nat)
    requires Intended(tree, names, ideal) && Solves(cx, tree, owner, ideal, defaults, t)
    requires HoldersIn(tree, names)
    requires Decided(cx, tree, owner, t) && k <= |tree.branches|
    ensures Stream(cx, tree, owner, t, k, Filtered(ScopeClock(tree, k), t))
  {
    FilteredFollows(ScopeClock(tree, k), t);
    StreamFollows(cx, tree, owner, names, ideal, defaults, t, k, Filtered(ScopeClock(tree, k), t));
  }

  ghost predicate PriorAt(cx: Context, tree: Tree, owner: map<string, Type>, t: Trace, k: nat, sigma: Trace, n: nat) {
    forall v :: sigma(Turns(cx, tree, owner, t, k, n), v) == Prior(cx, tree, owner, t)(n, v)
  }

  /** `sigma` is what scope `k` sees of the cycle before each of its own. */
  ghost predicate PriorStream(cx: Context, tree: Tree, owner: map<string, Type>, t: Trace, k: nat, sigma: Trace) {
    forall n: nat | Selected(cx, tree, owner, t, n) == k :: PriorAt(cx, tree, owner, t, k, sigma, n)
  }

  lemma {:induction false} TurnsGrow(cx: Context, tree: Tree, owner: map<string, Type>, t: Trace, k: nat, m: nat, n: nat)
    requires m <= n
    ensures Turns(cx, tree, owner, t, k, m) <= Turns(cx, tree, owner, t, k, n)
    ensures m < n && Selected(cx, tree, owner, t, m) == k ==> Turns(cx, tree, owner, t, k, m) < Turns(cx, tree, owner, t, k, n)
    decreases n
  {
    hide Selected;
    if m < n { TurnsGrow(cx, tree, owner, t, k, m, n-1); }
  }

  ghost predicate TurnIs(cx: Context, tree: Tree, owner: map<string, Type>, t: Trace, k: nat, j: nat, n: nat) {
    Selected(cx, tree, owner, t, n) == k && Turns(cx, tree, owner, t, k, n) == j
  }

  ghost function PriorValue(cx: Context, tree: Tree, owner: map<string, Type>, t: Trace, k: nat, j: nat, v: string): Value {
    if n: nat :| TurnIs(cx, tree, owner, t, k, j, n) then Prior(cx, tree, owner, t)(n, v) else Undef
  }

  /** That stream exists, too. */
  lemma PriorStreamExists(cx: Context, tree: Tree, owner: map<string, Type>, t: Trace, k: nat) returns (sigma: Trace)
    ensures PriorStream(cx, tree, owner, t, k, sigma)
  {
    hide Selected, Turns, Prior;
    sigma := (j: nat, v: string) => PriorValue(cx, tree, owner, t, k, j, v);
    forall n: nat | Selected(cx, tree, owner, t, n) == k ensures PriorAt(cx, tree, owner, t, k, sigma, n) {
      var j := Turns(cx, tree, owner, t, k, n);
      assert TurnIs(cx, tree, owner, t, k, j, n);
      forall m: nat | TurnIs(cx, tree, owner, t, k, j, m) ensures m == n {
        if m < n { TurnsGrow(cx, tree, owner, t, k, m, n); } else if n < m { TurnsGrow(cx, tree, owner, t, k, n, m); }
      }
    }
  }

  lemma {:induction false} TurnFound(cx: Context, tree: Tree, owner: map<string, Type>, t: Trace, k: nat, n: nat, j: nat) returns (m: nat)
    requires j < Turns(cx, tree, owner, t, k, n)
    ensures m < n && TurnIs(cx, tree, owner, t, k, j, m)
    decreases n
  {
    hide Selected;
    if Selected(cx, tree, owner, t, n-1) == k && Turns(cx, tree, owner, t, k, n-1) == j {
      m := n-1;
    } else {
      m := TurnFound(cx, tree, owner, t, k, n-1, j);
    }
  }

  /** On the stream of a scope its holders show the values of the cycles before. */
  lemma StreamShown(cx: Context, tree: Tree, owner: map<string, Type>, asked: set<string>, t: Trace, k: nat, tau: Trace, sigma: Trace, n: nat)
    requires HoldersShow(tree, asked, t, Prior(cx, tree, owner, t), n) && Selected(cx, tree, owner, t, n) == k
    requires Stream(cx, tree, owner, t, k, tau) && PriorStream(cx, tree, owner, t, k, sigma)
    ensures HoldersShow(tree, asked, tau, sigma, Turns(cx, tree, owner, t, k, n))
  {
    hide Selected, Turns, Prior, Spell, HoldersShowAt;
    var last := Turns(cx, tree, owner, t, k, n);
    forall j: nat | j <= last ensures HoldersShowAt(tree, asked, tau, sigma, j) {
      var m := n;
      if j < last { m := TurnFound(cx, tree, owner, t, k, n, j); }
      assert TurnAt(cx, tree, owner, t, k, tau, m) && PriorAt(cx, tree, owner, t, k, sigma, m);
      SameShown(tree, asked, t, Prior(cx, tree, owner, t), m, tau, sigma, j);
    }
  }

  lemma SameShown(tree: Tree, asked: set<string>, t: Trace, prior: Trace, m: nat, tau: Trace, sigma: Trace, j: nat)
    requires HoldersShowAt(tree, asked, t, prior, m)
    requires (forall v :: tau(j, v) == t(m, v)) && (forall v :: sigma(j, v) == prior(m, v))
    ensures HoldersShowAt(tree, asked, tau, sigma, j)
  {
    hide Spell;
  }

  /** The lowered value of a scope, run on its activations. */
  lemma LoweredRefines(cx: Context, tree: Tree, owner: map<string, Type>, names: set<string>, ideal: ClockMap,
                       defaults: string -> Value, t: Trace, n: nat, i: nat, eqs: seq<Equation>, j: nat, tau: Trace)
    requires Intended(tree, names, ideal) && Fresh(tree, names) && BaseTree(tree, owner, names)
    requires Solves(cx, tree, owner, ideal, defaults, t) && Decided(cx, tree, owner, t) && HoldersIn(tree, names)
    requires i < |tree.outputs| && eqs == Scope(tree, Selected(cx, tree, owner, t, n)) && j < |eqs|
    requires eqs[j].lhs == tree.outputs[i].name && Anchored(cx.functions, Relast(tree, eqs[j].rhs))
    requires Stream(cx, tree, owner, t, Selected(cx, tree, owner, t, n), tau)
    ensures t(n, tree.outputs[i].name)
            == Eval(cx, Relast(tree, eqs[j].rhs), Base, tau, Turns(cx, tree, owner, t, Selected(cx, tree, owner, t, n), n))
  {
    hide Definitions, Spell, Condition, Intended, Solves, Selected, ScopeClock, Ticks, Turns, Readable, ScopeValue, Relast, Fresh, Stream, HoldersIn;
    var k := Selected(cx, tree, owner, t, n);
    var rhs := Relast(tree, eqs[j].rhs);
    assert DecidedAt(cx, tree, owner, t, n);
    assert BaseScope(tree, owner, names, Scope(tree, k));
    assert BaseEquation(tree, owner, names, eqs[j]);
    OutputPicks(cx, tree, owner, names, ideal, defaults, t, n, i);
    OneScope(cx, tree, owner, names, ideal, defaults, t, n, k);
    ValueShows(cx, tree, owner, names, ideal, defaults, t, n, k, eqs, j);
    SamplesHeld(cx, tree, owner, names, ideal, defaults, t, k, eqs, j);
    assert Names(rhs) * Readable(tree, owner).Keys == Names(rhs);
    StreamFollows(cx, tree, owner, names, ideal, defaults, t, k, tau);
    ScopeValueFiltered(cx, tree, names, Readable(tree, owner).Keys, t, tau, n, k, rhs);
    TurnsAreTicks(cx, tree, owner, names, ideal, defaults, t, k, n);
  }

  lemma BaseHolders(tree: Tree, owner: map<string, Type>, names: set<string>)
    requires BaseTree(tree, owner, names)
    ensures HoldersIn(tree, names)
  {
    hide Holders, BaseExpr;
    forall i | 0 <= i < |Holders(tree)| ensures Holders(tree)[i].v in names { HolderBase(tree, owner, names, i); }
  }

  /** Every run of the lowered equations is a run of the reference machine: in
      each cycle every output is the value its equation in the selected scope,
      as it was written, has on the stream of that scope's own activations,
      `last` being the value one cycle, not one activation, ago. */
  lemma ActivationRefines(cx: Context, tree: Tree, owner: map<string, Type>, names: set<string>, ideal: ClockMap,
                          defaults: string -> Value, t: Trace, n: nat, i: nat, eqs: seq<Equation>, j: nat, tau: Trace, sigma: Trace)
    requires Intended(tree, names, ideal) && Fresh(tree, names) && BaseTree(tree, owner, names)
    requires Solves(cx, tree, owner, ideal, defaults, t) && Decided(cx, tree, owner, t)
    requires i < |tree.outputs| && eqs == Scope(tree, Selected(cx, tree, owner, t, n)) && j < |eqs|
    requires eqs[j].lhs == tree.outputs[i].name && Anchored(cx.functions, Relast(tree, eqs[j].rhs))
    requires Stream(cx, tree, owner, t, Selected(cx, tree, owner, t, n), tau)
    requires PriorStream(cx, tree, owner, t, Selected(cx, tree, owner, t, n), sigma)
    ensures t(n, tree.outputs[i].name)
            == Recall(cx, eqs[j].rhs, Base, tau, sigma, Turns(cx, tree, owner, t, Selected(cx, tree, owner, t, n), n))
  {
    hide Intended, Solves, Selected, Turns, Relast, Fresh, Stream, PriorStream, BaseTree, Decided, Anchored, Remembered, Occurrences, HoldersShow, HoldersIn, Scope;
    var k := Selected(cx, tree, owner, t, n);
    var asked := Remembered(Occurrences(tree));
    BaseHolders(tree, owner, names);
    LoweredRefines(cx, tree, owner, names, ideal, defaults, t, n, i, eqs, j, tau);
    HoldersShown(cx, tree, owner, names, ideal, defaults, t, n);
    StreamShown(cx, tree, owner, asked, t, k, tau, sigma, n);
    ValueAsked(tree, k, j);
    RelastMeans(cx, tree, eqs[j].rhs, asked, Base, tau, sigma, Turns(cx, tree, owner, t, k, n));
  }

  /** `last(v)` is `v` one cycle ago, whichever scope ran; its initial value in the first cycle. */
  lemma LastIsPrevious(cx: Context, tree: Tree, owner: map<string, Type>, names: set<string>, ideal: ClockMap,
                       defaults: string -> Value, t: Trace, n: nat, i: nat)
    requires Intended(tree, names, ideal) && Solves(cx, tree, owner, ideal, defaults, t)
    requires i < |Holders(tree)| && Holders(tree)[i].v in names
    ensures
      var h := Holders(tree)[i];
      var types := WithHolders(tree, Holders(tree), Variables(tree, owner), i);
      t(n, Spell(tree, Last(h.v))) ==
        if n > 0 then t(n-1, h.v)
        else if h.init.Some? then Eval(cx, h.init.value, Base, t, 0)
        else Default(TypeOf(types, h.v))
  {
    hide Spell, Holders, WithHolders, Variables, FlagDefinitions, GuardDefinitions, ScopesDefinitions, Solves, Relevant;
    var found := Holders(tree);
    var types := Variables(tree, owner);
    var d := LastDefinition(tree, found[i], WithHolders(tree, found, types, i));
    LastIn(tree, found, types, i, |found|);
    LastRelevant(tree, names, found[i].v);
    BaseSolved(cx, tree, owner, names, ideal, defaults, t, n, Last(found[i].v), d);
    assert Ticked(Base, t, n) == (n > 0);
  }

  lemma LastRelevant(tree: Tree, names: set<string>, v: string)
    requires v in names
    ensures Relevant(|tree.branches|, names, Last(v)) && ClockOf(tree, Last(v)) == Base
  {
  }

  // ---------------------------------------------------------------- scope values with nothing to sample

  /** What a closed expression is worth in cycle `n` depends on nothing else. */
  lemma ClosedEval(cx: Context, e: Expr, t: Trace, u: Trace, n: nat)
    requires Names(e) == {}
    ensures Eval(cx, e, Base, t, n) == Eval(cx, e, Base, u, n)
  {
    ReadsNames(e);
    EvalLocal(cx, {}, e, Base, t, u, n);
  }

  /** A scope value with nothing to sample, made of stateful calls without
      arguments, runs on the base clock: whatever the callees do, an output
      shows what it is after all cycles, not after the turns of its scope. It
      is right in any cycle before which the scope never paused. */
  lemma UnanchoredRefines(cx: Context, tree: Tree, owner: map<string, Type>, names: set<string>, ideal: ClockMap,
                          defaults: string -> Value, t: Trace, n: nat, i: nat, eqs: seq<Equation>, j: nat, tau: Trace, sigma: Trace)
    requires Intended(tree, names, ideal) && Fresh(tree, names) && BaseTree(tree, owner, names)
    requires Solves(cx, tree, owner, ideal, defaults, t) && Decided(cx, tree, owner, t)
    requires i < |tree.outputs| && eqs == Scope(tree, Selected(cx, tree, owner, t, n)) && j < |eqs|
    requires eqs[j].lhs == tree.outputs[i].name && !Anchored(cx.functions, Relast(tree, eqs[j].rhs))
    ensures t(n, tree.outputs[i].name) == Recall(cx, eqs[j].rhs, Base, tau, sigma, n)
    ensures (forall m: nat | m < n :: Selected(cx, tree, owner, t, m) == Selected(cx, tree, owner, t, n)) ==>
      t(n, tree.outputs[i].name)
        == Recall(cx, eqs[j].rhs, Base, tau, sigma, Turns(cx, tree, owner, t, Selected(cx, tree, owner, t, n), n))
  {
    hide Definitions, Spell, Condition, Intended, Solves, Selected, ScopeClock, Turns, Readable, Relast, Fresh, Onto, Timeless, HoldersIn;
    var k := Selected(cx, tree, owner, t, n);
    var rhs := Relast(tree, eqs[j].rhs);
    assert DecidedAt(cx, tree, owner, t, n);
    assert BaseScope(tree, owner, names, Scope(tree, k));
    assert BaseEquation(tree, owner, names, eqs[j]);
    BaseHolders(tree, owner, names);
    OutputPicks(cx, tree, owner, names, ideal, defaults, t, n, i);
    OneScope(cx, tree, owner, names, ideal, defaults, t, n, k);
    ValueShows(cx, tree, owner, names, ideal, defaults, t, n, k, eqs, j);
    NoElements(FreeVars(rhs, Readable(tree, owner).Keys));
    OntoEval(cx, tree, k, rhs, t, n);
    ClosedEval(cx, rhs, t, tau, n);
    ClosedMeans(cx, tree, eqs[j].rhs, tau, sigma, n);
    AllTurns(cx, tree, owner, t, k, n);
  }

  /** An expression whose image names nothing asks for nothing. */
  lemma ClosedMeans(cx: Context, tree: Tree, e: Expr, tau: Trace, sigma: Trace, n: nat)
    requires Names(Relast(tree, e)) == {}
    ensures Eval(cx, Relast(tree, e), Base, tau, n) == Recall(cx, e, Base, tau, sigma, n)
  {
    hide Spell, Remembered, Relast;
    forall v | v in Remembered(Lasts(e)) ensures false { AskedNamed(tree, e, v); }
    RelastMeans(cx, tree, e, {}, Base, tau, sigma, n);
  }

  lemma {:induction false} AllTurns(cx: Context, tree: Tree, owner: map<string, Type>, t: Trace, k: nat, n: nat)
    ensures (forall m: nat | m < n :: Selected(cx, tree, owner, t, m) == k) ==> Turns(cx, tree, owner, t, k, n) == n
  {
    hide Selected;
    if n > 0 { AllTurns(cx, tree, owner, t, k, n-1); }
  }

  // ---------------------------------------------------------------- the argument-less call

  /** A callee that counts its steps. */
  function Counter(): Machine {
    Machine([Int(0)], (m: Memory, args: seq<Value>) =>
      if |m| == 1 && m[0].Int? then ([Int(m[0].i + 1)], Int(m[0].i + 1)) else (m, Undef))
  }

  function Empties(n: nat): (h: seq<seq<Value>>)
    ensures |h| == n
  {
    seq(n, i => [])
  }

  lemma {:induction false} CounterMemory(n: nat)
    ensures MemoryAfter(Counter(), Empties(n)) == [Int(n)]
  {
    if n > 0 {
      CounterMemory(n-1);
      assert Empties(n)[..n-1] == Empties(n-1);
    }
  }

  lemma {:induction false} EmptyHistory(cx: Context, t: Trace, n: nat)
    ensures History(cx, [], Base, t, n) == Empties(n + 1)
  {
    assert EvalAll(cx, [], Base, t, n) == [];
    if n > 0 { EmptyHistory(cx, t, n-1); }
  }

  lemma CountedCall(cx: Context, site: nat, f: string, t: Trace, n: nat)
    requires f !in cx.functions && cx.callees(f) == Counter()
    ensures Eval(cx, Call(site, f, []), Base, t, n) == Int(n + 1)
  {
    EmptyHistory(cx, t, n);
    CounterMemory(n);
    assert Empties(n+1)[..n] == Empties(n);
    assert HistoryDefined(Empties(n+1));
  }

  /** The proviso on scope values is needed: a value made of a stateful call
      without arguments is sampled as a whole, which leaves the call on the base
      clock. It keeps stepping while its scope is frozen, so what the scope sees
      is right exactly when the scope has been active in every cycle before. */
  lemma ArglessCallKeepsRunning(cx: Context, tree: Tree, vars: set<string>, k: nat, site: nat, f: string,
                                t: Trace, tau: Trace, n: nat)
    requires k <= |tree.branches| && f !in cx.functions && cx.callees(f) == Counter()
    requires Active(ScopeClock(tree, k), t, n)
    ensures
      var rhs := Call(site, f, []);
      Eval(cx, ScopeValue(tree, k, vars, rhs), ScopeClock(tree, k), t, n)
        == Eval(cx, rhs, Base, tau, Ticks(ScopeClock(tree, k), t, n))
      <==> forall m: nat | m < n :: Active(ScopeClock(tree, k), t, m)
  {
    hide Spell, ScopeClock, Onto;
    var rhs := Call(site, f, []);
    NoElements(FreeVars(rhs, vars));
    assert rhs.args == [] && Names(rhs) == {};
    OntoEval(cx, tree, k, rhs, t, n);
    CountedCall(cx, site, f, t, n);
    CountedCall(cx, site, f, tau, Ticks(ScopeClock(tree, k), t, n));
    AllTicks(ScopeClock(tree, k), t, n);
  }

  lemma {:induction false} AllTicks(ck: Clock, t: Trace, n: nat)
    ensures Ticks(ck, t, n) <= n
    ensures Ticks(ck, t, n) == n <==> forall m: nat | m < n :: Active(ck, t, m)
  {
    hide Active;
    if n > 0 {
      AllTicks(ck, t, n-1);
      if Ticks(ck, t, n) == n {
        forall m: nat | m < n ensures Active(ck, t, m) {
          assert m == n-1 || m < n-1;
        }
      } else if Active(ck, t, n-1) {
        assert !forall m: nat | m < n-1 :: Active(ck, t, m);
      } else {
        var last: nat := n-1;
        assert last < n && !Active(ck, t, last);
      }
    }
  }
}
