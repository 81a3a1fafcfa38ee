/** A lowered activation is well typed: every new local is declared with the
    type of what defines it. */
module ActivationTyping {
  import opened Lustre
  import opened Options
  import opened Graphs
  import opened Activation
  import opened Lowering
  import opened ActivationRuns
  import opened Typing

  ghost predicate DeclaredAs(all: map<string, Type>, d: Definition) {
    d.name in all && all[d.name] == d.ty
  }

  /** `all` has the owner's variables and the new locals with their types. */
  ghost predicate Declares(tree: Tree, owner: map<string, Type>, all: map<string, Type>) {
    && (forall x | x in Variables(tree, owner) :: x in all && all[x] == Variables(tree, owner)[x])
    && (forall d | d in Definitions(tree, owner) :: DeclaredAs(all, d))
  }

  ghost predicate TypedDefinition(d: Definition, all: map<string, Type>, outputs: string -> Type) {
    TypeIn(d.rhs, all, outputs) == Some(d.ty)
  }

  ghost predicate AllTyped(ds: seq<Definition>, all: map<string, Type>, outputs: string -> Type) {
    forall d | d in ds :: TypedDefinition(d, all, outputs)
  }

  /** Conditions are Boolean, scopes give outputs values of their types, and
      initial values have the types of their variables. */
  ghost predicate TypedTree(tree: Tree, owner: map<string, Type>, all: map<string, Type>, outputs: string -> Type) {
    && (forall i | 0 <= i < |tree.branches| :: TypeIn(Condition(tree, i), all, outputs) == Some(BoolType))
    && (forall k | 0 <= k < |tree.branches| + 1 :: TypedScope(tree, owner, Scope(tree, k), all, outputs))
    && (forall i | 0 <= i < |Holders(tree)| :: TypedHolder(tree, owner, i, all, outputs))
  }

  ghost predicate TypedScope(tree: Tree, owner: map<string, Type>, eqs: seq<Equation>, all: map<string, Type>, outputs: string -> Type) {
    forall j | 0 <= j < |eqs| ::
      TypeIn(Relast(tree, eqs[j].rhs), all, outputs) == Some(OutputType(tree, Readable(tree, owner), eqs[j].lhs))
  }

  ghost predicate TypedHolder(tree: Tree, owner: map<string, Type>, i: nat, all: map<string, Type>, outputs: string -> Type)
    requires i < |Holders(tree)|
  {
    var h, types := Holders(tree)[i], WithHolders(tree, Holders(tree), Variables(tree, owner), i);
    h.v in types && (h.init.Some? ==> TypeIn(h.init.value, all, outputs) == Some(types[h.v]))
  }

  lemma TypedJoin(a: seq<Definition>, b: seq<Definition>, all: map<string, Type>, outputs: string -> Type)
    requires AllTyped(a, all, outputs) && AllTyped(b, all, outputs)
    ensures AllTyped(a + b, all, outputs)
  {
    hide TypedDefinition;
  }

  lemma NoneTyped(all: map<string, Type>, outputs: string -> Type)
    ensures AllTyped([], all, outputs)
  {
  }

  lemma OneTyped(d: Definition, all: map<string, Type>, outputs: string -> Type)
    requires TypedDefinition(d, all, outputs)
    ensures AllTyped([d], all, outputs)
  {
  }

  // ---------------------------------------------------------------- expressions moved onto a scope

  lemma {:induction false} UnderTyped(tree: Tree, k: nat, e: Expr, all: map<string, Type>, outputs: string -> Type)
    ensures TypeIn(Under(tree, k, e), all, outputs) == TypeIn(e, all, outputs)
    decreases k
  {
    hide Spell;
    if k > 0 { UnderTyped(tree, k-1, e, all, outputs); }
  }

  lemma OntoTyped(tree: Tree, k: nat, e: Expr, all: map<string, Type>, outputs: string -> Type)
    ensures TypeIn(Onto(tree, k, e), all, outputs) == TypeIn(e, all, outputs)
  {
    hide Spell;
    UnderTyped(tree, k, e, all, outputs);
    UnderTyped(tree, |tree.branches|, e, all, outputs);
  }

  lemma {:induction false} RenameTyped(e: Expr, from: string, to: string, all: map<string, Type>, outputs: string -> Type)
    requires from in all && to in all && all[from] == all[to]
    ensures TypeIn(Rename(e, from, to), all, outputs) == TypeIn(e, all, outputs)
    decreases e
  {
    hide BinaryType, UnaryType;
    match e
    case Const(_) =>
    case Var(_) =>
    case Unary(_, a) => RenameTyped(a, from, to, all, outputs);
    case Binary(_, a, b) => RenameTyped(a, from, to, all, outputs); RenameTyped(b, from, to, all, outputs);
    case If(c, a, b) =>
      RenameTyped(c, from, to, all, outputs); RenameTyped(a, from, to, all, outputs); RenameTyped(b, from, to, all, outputs);
    case Pre(a) => RenameTyped(a, from, to, all, outputs);
    case Arrow(a, b) => RenameTyped(a, from, to, all, outputs); RenameTyped(b, from, to, all, outputs);
    case When(a, _, _) => RenameTyped(a, from, to, all, outputs);
    case Merge(_, a, b) => RenameTyped(a, from, to, all, outputs); RenameTyped(b, from, to, all, outputs);
    case Call(_, _, _) =>
    case Condact(_, _, _, _, _) =>
  }

  /** Each variable of `vs` has a sample of its own type. */
  ghost predicate SamplesTyped(tree: Tree, k: nat, vs: seq<string>, all: map<string, Type>) {
    forall i | 0 <= i < |vs| :: vs[i] in all && Spell(tree, Sample(k, vs[i])) in all && all[Spell(tree, Sample(k, vs[i]))] == all[vs[i]]
  }

  lemma {:induction false} RenameAllTyped(tree: Tree, k: nat, e: Expr, vs: seq<string>, i: nat, all: map<string, Type>, outputs: string -> Type)
    requires i <= |vs| && SamplesTyped(tree, k, vs, all)
    ensures TypeIn(RenameAll(tree, k, e, vs, i), all, outputs) == TypeIn(e, all, outputs)
    decreases i
  {
    hide Spell, Rename, TypeIn;
    if i > 0 {
      RenameAllTyped(tree, k, e, vs, i-1, all, outputs);
      RenameTyped(RenameAll(tree, k, e, vs, i-1), vs[i-1], Spell(tree, Sample(k, vs[i-1])), all, outputs);
    }
  }

  lemma {:induction false} PinTyped(tree: Tree, k: nat, e: Expr, all: map<string, Type>, outputs: string -> Type)
    ensures TypeIn(Pin(tree, k, e), all, outputs) == TypeIn(e, all, outputs)
    decreases e
  {
    hide BinaryType, UnaryType, Onto;
    match e
    case Const(_) => OntoTyped(tree, k, e, all, outputs);
    case Var(_) =>
    case Unary(_, a) => PinTyped(tree, k, a, all, outputs);
    case Binary(_, a, b) => PinTyped(tree, k, a, all, outputs); PinTyped(tree, k, b, all, outputs);
    case If(c, a, b) =>
      PinTyped(tree, k, c, all, outputs); PinTyped(tree, k, a, all, outputs); PinTyped(tree, k, b, all, outputs);
    case Pre(a) => PinTyped(tree, k, a, all, outputs);
    case Arrow(a, b) => PinTyped(tree, k, a, all, outputs); PinTyped(tree, k, b, all, outputs);
    case When(a, _, _) => PinTyped(tree, k, a, all, outputs);
    case Merge(_, a, b) => PinTyped(tree, k, a, all, outputs); PinTyped(tree, k, b, all, outputs);
    case Call(_, _, _) =>
    case Condact(_, _, _, _, _) =>
  }

  lemma ScopeValueTyped(tree: Tree, k: nat, vars: set<string>, rhs: Expr, all: map<string, Type>, outputs: string -> Type)
    requires SamplesTyped(tree, k, FreeVars(rhs, vars), all)
    ensures TypeIn(ScopeValue(tree, k, vars, rhs), all, outputs) == TypeIn(rhs, all, outputs)
  {
    hide Spell, RenameAll, Pin, Onto, TypeIn, FreeVars, HasConst;
    var reading := FreeVars(rhs, vars);
    RenameAllTyped(tree, k, rhs, reading, |reading|, all, outputs);
    PinTyped(tree, k, rhs, all, outputs);
    OntoTyped(tree, k, rhs, all, outputs);
  }

  // ---------------------------------------------------------------- the definitions, section by section

  lemma SectionIn(tree: Tree, owner: map<string, Type>, d: Definition)
    requires d in LastDefinitions(tree, Holders(tree), Variables(tree, owner), |Holders(tree)|)
    ensures d in Definitions(tree, owner)
  {
    hide LastDefinitions, FlagDefinitions, GuardDefinitions, ScopesDefinitions, Readable, Variables, Holders;
  }

  /** The holders are declared with the types they are known by. */
  lemma {:induction false} ReadableDeclared(tree: Tree, owner: map<string, Type>, all: map<string, Type>, i: nat)
    requires Declares(tree, owner, all) && i <= |Holders(tree)|
    ensures forall x | x in WithHolders(tree, Holders(tree), Variables(tree, owner), i) ::
              x in all && all[x] == WithHolders(tree, Holders(tree), Variables(tree, owner), i)[x]
    decreases i
  {
    hide Spell, Holders, Variables, Definitions, LastDefinitions;
    if i > 0 {
      ReadableDeclared(tree, owner, all, i-1);
      LastIn(tree, Holders(tree), Variables(tree, owner), i-1, |Holders(tree)|);
      var d := LastDefinition(tree, Holders(tree)[i-1], WithHolders(tree, Holders(tree), Variables(tree, owner), i-1));
      SectionIn(tree, owner, d);
      assert DeclaredAs(all, d);
    }
  }

  lemma LastTyped(tree: Tree, owner: map<string, Type>, all: map<string, Type>, outputs: string -> Type, i: nat)
    requires Declares(tree, owner, all) && i < |Holders(tree)| && TypedHolder(tree, owner, i, all, outputs)
    ensures TypedDefinition(LastDefinition(tree, Holders(tree)[i], WithHolders(tree, Holders(tree), Variables(tree, owner), i)), all, outputs)
  {
    hide Spell, Holders, Variables, Definitions, WithHolders, Declares;
    ReadableDeclared(tree, owner, all, i);
    var h, types := Holders(tree)[i], WithHolders(tree, Holders(tree), Variables(tree, owner), i);
    DefaultTyped(types[h.v], all, outputs);
    assert TypeIn(Pre(Var(h.v)), all, outputs) == Some(types[h.v]);
  }

  lemma {:induction false} LastsTyped(tree: Tree, owner: map<string, Type>, all: map<string, Type>, outputs: string -> Type, i: nat)
    requires Declares(tree, owner, all) && TypedTree(tree, owner, all, outputs) && i <= |Holders(tree)|
    ensures AllTyped(LastDefinitions(tree, Holders(tree), Variables(tree, owner), i), all, outputs)
    decreases i
  {
    hide Declares, LastDefinition, Holders, Variables, WithHolders, AllTyped, TypedScope, Condition, TypeIn, Scope;
    NoneTyped(all, outputs);
    if i > 0 {
      LastsTyped(tree, owner, all, outputs, i-1);
      assert TypedHolder(tree, owner, i-1, all, outputs);
      LastTyped(tree, owner, all, outputs, i-1);
      var d := LastDefinition(tree, Holders(tree)[i-1], WithHolders(tree, Holders(tree), Variables(tree, owner), i-1));
      OneTyped(d, all, outputs);
      TypedJoin(LastDefinitions(tree, Holders(tree), Variables(tree, owner), i-1), [d], all, outputs);
    }
  }

  /** The flags of branch `i` are declared Boolean. */
  lemma FlagsDeclared(tree: Tree, owner: map<string, Type>, all: map<string, Type>, i: nat)
    requires Declares(tree, owner, all) && i < |tree.branches|
    ensures Spell(tree, Flag(i)) in all && all[Spell(tree, Flag(i))] == BoolType
    ensures i + 1 < |tree.branches| ==> Spell(tree, NoneUpTo(i)) in all && all[Spell(tree, NoneUpTo(i))] == BoolType
  {
    hide Spell, Definitions, Variables, Decision, Condition;
    var ds := FlagDefinition(tree, i);
    Contains(tree, owner, ds[0]);
    assert DeclaredAs(all, ds[0]);
    if i + 1 < |tree.branches| {
      Contains(tree, owner, ds[1]);
      assert DeclaredAs(all, ds[1]);
    }
  }

  lemma FlagTyped(tree: Tree, owner: map<string, Type>, all: map<string, Type>, outputs: string -> Type, i: nat)
    requires Declares(tree, owner, all) && i < |tree.branches| && TypeIn(Condition(tree, i), all, outputs) == Some(BoolType)
    ensures AllTyped(FlagDefinition(tree, i), all, outputs)
  {
    hide Spell, Declares, Condition;
    if i > 0 { FlagsDeclared(tree, owner, all, i-1); }
    var c := Condition(tree, i);
    assert TypeIn(Unary(Not, c), all, outputs) == Some(BoolType);
    DecisionTyped(tree, i, c, all, outputs);
    DecisionTyped(tree, i, Unary(Not, c), all, outputs);
  }

  lemma DecisionTyped(tree: Tree, i: nat, e: Expr, all: map<string, Type>, outputs: string -> Type)
    requires TypeIn(e, all, outputs) == Some(BoolType)
    requires i > 0 ==> Spell(tree, NoneUpTo(i-1)) in all && all[Spell(tree, NoneUpTo(i-1))] == BoolType
    ensures TypeIn(Decision(tree, i, e), all, outputs) == Some(BoolType)
  {
    hide Spell;
  }

  lemma {:induction false} FlagsTyped(tree: Tree, owner: map<string, Type>, all: map<string, Type>, outputs: string -> Type, m: nat)
    requires Declares(tree, owner, all) && TypedTree(tree, owner, all, outputs) && m <= |tree.branches|
    ensures AllTyped(FlagDefinitions(tree, m), all, outputs)
    decreases m
  {
    hide Declares, FlagDefinition, AllTyped, TypedScope, Condition, TypeIn, Scope, TypedHolder, Holders;
    NoneTyped(all, outputs);
    if m > 0 {
      FlagsTyped(tree, owner, all, outputs, m-1);
      FlagTyped(tree, owner, all, outputs, m-1);
      TypedJoin(FlagDefinitions(tree, m-1), FlagDefinition(tree, m-1), all, outputs);
    }
  }

  lemma {:induction false} GuardsTyped(tree: Tree, owner: map<string, Type>, all: map<string, Type>, outputs: string -> Type, m: nat)
    requires Declares(tree, owner, all) && m <= |tree.branches|
    ensures AllTyped(GuardDefinitions(tree, m), all, outputs)
    decreases m
  {
    hide Declares, AllTyped, Spell, Under;
    NoneTyped(all, outputs);
    if m > 1 {
      GuardsTyped(tree, owner, all, outputs, m-1);
      FlagsDeclared(tree, owner, all, m-1);
      UnderTyped(tree, m-1, Var(Spell(tree, Flag(m-1))), all, outputs);
      OneTyped(GuardDefinition(tree, m-1), all, outputs);
      TypedJoin(GuardDefinitions(tree, m-1), [GuardDefinition(tree, m-1)], all, outputs);
    }
  }

  lemma SampleTyped(tree: Tree, owner: map<string, Type>, all: map<string, Type>, outputs: string -> Type, k: nat, v: string)
    requires Declares(tree, owner, all) && v in Readable(tree, owner)
    ensures TypedDefinition(SampleDefinition(tree, k, Readable(tree, owner), v), all, outputs)
  {
    hide Declares, Spell, Onto, WithHolders, Holders, Variables;
    ReadableDeclared(tree, owner, all, |Holders(tree)|);
    OntoTyped(tree, k, Var(v), all, outputs);
  }

  lemma {:induction false} NewSamplesTyped(tree: Tree, owner: map<string, Type>, all: map<string, Type>, outputs: string -> Type, k: nat,
                                           already: set<string>, vs: seq<string>, i: nat)
    requires Declares(tree, owner, all) && i <= |vs| && Elements(vs) <= Readable(tree, owner).Keys
    ensures AllTyped(NewSamples(tree, k, Readable(tree, owner), already, vs, i), all, outputs)
    decreases i
  {
    hide Declares, AllTyped, SampleDefinition, Readable;
    NoneTyped(all, outputs);
    if i > 0 {
      NewSamplesTyped(tree, owner, all, outputs, k, already, vs, i-1);
      assert vs[i-1] in Elements(vs);
      SampleTyped(tree, owner, all, outputs, k, vs[i-1]);
      OneTyped(SampleDefinition(tree, k, Readable(tree, owner), vs[i-1]), all, outputs);
      TypedJoin(NewSamples(tree, k, Readable(tree, owner), already, vs, i-1),
                NewSample(tree, k, Readable(tree, owner), already, vs, i-1), all, outputs);
    }
  }

  /** What a scope's value reads has samples of its type. */
  lemma SamplesDeclared(tree: Tree, owner: map<string, Type>, all: map<string, Type>, k: nat, eqs: seq<Equation>, j: nat)
    requires Declares(tree, owner, all) && k <= |tree.branches| && eqs == Scope(tree, k) && j < |eqs|
    ensures SamplesTyped(tree, k, FreeVars(Relast(tree, eqs[j].rhs), Readable(tree, owner).Keys), all)
  {
    hide Spell, Readable, Relast, FreeVars, ScopeDefinitions, Scope, Definitions, Variables, Onto;
    var types := Readable(tree, owner);
    var vs := FreeVars(Relast(tree, eqs[j].rhs), types.Keys);
    ScopeSamplesIn(tree, k, types, eqs, |eqs|);
    ScopeReadsIn(tree, eqs, types.Keys, j, |eqs|);
    ReadableTypes(tree, owner, all);
    forall i | 0 <= i < |vs|
      ensures vs[i] in all && Spell(tree, Sample(k, vs[i])) in all && all[Spell(tree, Sample(k, vs[i]))] == all[vs[i]]
    {
      assert vs[i] in Elements(vs);
      var d := SampleDefinition(tree, k, types, vs[i]);
      assert vs[i] in ScopeReads(tree, eqs, types.Keys, |eqs|);
      Contains(tree, owner, d);
      assert DeclaredAs(all, d);
    }
  }

  lemma ReadableTypes(tree: Tree, owner: map<string, Type>, all: map<string, Type>)
    requires Declares(tree, owner, all)
    ensures forall x | x in Readable(tree, owner) :: x in all && all[x] == Readable(tree, owner)[x]
  {
    hide Declares, WithHolders, Holders, Variables;
    ReadableDeclared(tree, owner, all, |Holders(tree)|);
  }

  lemma ValueTyped(tree: Tree, owner: map<string, Type>, all: map<string, Type>, outputs: string -> Type, k: nat, eqs: seq<Equation>, j: nat)
    requires Declares(tree, owner, all) && k <= |tree.branches| && eqs == Scope(tree, k) && j < |eqs|
    requires TypedScope(tree, owner, eqs, all, outputs)
    ensures TypedDefinition(ValueDefinition(tree, k, Readable(tree, owner), eqs[j]), all, outputs)
  {
    hide Declares, Spell, Readable, Relast, ScopeValue, SamplesTyped, OutputType, TypeIn, FreeVars, Scope;
    SamplesDeclared(tree, owner, all, k, eqs, j);
    ScopeValueTyped(tree, k, Readable(tree, owner).Keys, Relast(tree, eqs[j].rhs), all, outputs);
  }

  lemma {:induction false} ScopeTyped(tree: Tree, owner: map<string, Type>, all: map<string, Type>, outputs: string -> Type, k: nat,
                                      eqs: seq<Equation>, i: nat)
    requires Declares(tree, owner, all) && k <= |tree.branches| && eqs == Scope(tree, k) && i <= |eqs|
    requires TypedScope(tree, owner, eqs, all, outputs)
    ensures AllTyped(ScopeDefinitions(tree, k, Readable(tree, owner), eqs, i), all, outputs)
    decreases i
  {
    hide Declares, AllTyped, Readable, TypedScope, Scope, NewSamples, ScopeValue, OutputType, Relast, FreeVars, Spell;
    NoneTyped(all, outputs);
    if i > 0 {
      ScopeTyped(tree, owner, all, outputs, k, eqs, i-1);
      var types, d := Readable(tree, owner), ValueDefinition(tree, k, Readable(tree, owner), eqs[i-1]);
      var vs, already := FreeVars(Relast(tree, eqs[i-1].rhs), types.Keys), ScopeReads(tree, eqs, types.Keys, i-1);
      NewSamplesTyped(tree, owner, all, outputs, k, already, vs, |vs|);
      ValueTyped(tree, owner, all, outputs, k, eqs, i-1);
      OneTyped(d, all, outputs);
      TypedJoin(NewSamples(tree, k, types, already, vs, |vs|), [d], all, outputs);
      TypedJoin(ScopeDefinitions(tree, k, types, eqs, i-1), EquationDefinitions(tree, k, types, already, eqs[i-1]), all, outputs);
    }
  }

  lemma {:induction false} ScopesTyped(tree: Tree, owner: map<string, Type>, all: map<string, Type>, outputs: string -> Type, m: nat)
    requires Declares(tree, owner, all) && TypedTree(tree, owner, all, outputs) && m <= |tree.branches| + 1
    ensures AllTyped(ScopesDefinitions(tree, Readable(tree, owner), m), all, outputs)
    decreases m
  {
    hide Declares, AllTyped, Readable, TypedScope, Scope, ScopeDefinitions, Condition, TypedHolder, Holders, TypeIn;
    NoneTyped(all, outputs);
    if m > 0 {
      ScopesTyped(tree, owner, all, outputs, m-1);
      var eqs := Scope(tree, m-1);
      assert TypedScope(tree, owner, Scope(tree, m-1), all, outputs);
      ScopeTyped(tree, owner, all, outputs, m-1, eqs, |eqs|);
      TypedJoin(ScopesDefinitions(tree, Readable(tree, owner), m-1),
                ScopeDefinitions(tree, m-1, Readable(tree, owner), eqs, |eqs|), all, outputs);
    }
  }

  /** Every new local is declared with the type of its defining expression. */
  lemma LoweredWellTyped(tree: Tree, owner: map<string, Type>, all: map<string, Type>, outputs: string -> Type)
    requires Declares(tree, owner, all) && TypedTree(tree, owner, all, outputs)
    ensures AllTyped(Definitions(tree, owner), all, outputs)
  {
    hide Declares, TypedTree, AllTyped, Readable, LastDefinitions, FlagDefinitions, GuardDefinitions, ScopesDefinitions, Variables, Holders;
    var n := |tree.branches|;
    var lasts := LastDefinitions(tree, Holders(tree), Variables(tree, owner), |Holders(tree)|);
    LastsTyped(tree, owner, all, outputs, |Holders(tree)|);
    FlagsTyped(tree, owner, all, outputs, n);
    GuardsTyped(tree, owner, all, outputs, n);
    ScopesTyped(tree, owner, all, outputs, n + 1);
    TypedJoin(lasts, FlagDefinitions(tree, n), all, outputs);
    TypedJoin(lasts + FlagDefinitions(tree, n), GuardDefinitions(tree, n), all, outputs);
    TypedJoin(lasts + FlagDefinitions(tree, n) + GuardDefinitions(tree, n), ScopesDefinitions(tree, Readable(tree, owner), n + 1), all, outputs);
  }

  // ---------------------------------------------------------------- outputs

  lemma ValueDeclared(tree: Tree, owner: map<string, Type>, all: map<string, Type>, k: nat, o: string)
    requires Declares(tree, owner, all) && k <= |tree.branches| && Assigns(Scope(tree, k), o)
    ensures Spell(tree, Value(k, o)) in all && all[Spell(tree, Value(k, o))] == OutputType(tree, Readable(tree, owner), o)
  {
    hide Spell, Readable, ScopeDefinitions, Scope, Definitions, Variables, ScopeValue, OutputType, Relast;
    var eqs := Scope(tree, k);
    var j :| 0 <= j < |eqs| && eqs[j].lhs == o;
    var d := ValueDefinition(tree, k, Readable(tree, owner), eqs[j]);
    ValueIn(tree, k, Readable(tree, owner), eqs, j, |eqs|);
    Contains(tree, owner, d);
    assert DeclaredAs(all, d);
  }

  lemma {:induction false} ChainTyped(tree: Tree, owner: map<string, Type>, all: map<string, Type>, outputs: string -> Type, o: string, k: nat)
    requires Declares(tree, owner, all) && k <= |tree.branches|
    requires forall j: nat | j <= |tree.branches| :: Assigns(Scope(tree, j), o)
    ensures TypeIn(MergeChain(tree, o, k), all, outputs) == Some(OutputType(tree, Readable(tree, owner), o))
    decreases |tree.branches| - k
  {
    hide Declares, Spell, Readable, OutputType, Assigns, Scope, ClockVar;
    ValueDeclared(tree, owner, all, k, o);
    if k < |tree.branches| { ChainTyped(tree, owner, all, outputs, o, k+1); }
  }

  /** An output's equation has the type the output is declared with by the
      activation, whatever scope runs. */
  lemma OutputWellTyped(tree: Tree, owner: map<string, Type>, all: map<string, Type>, outputs: string -> Type, i: nat)
    requires Declares(tree, owner, all) && Valid(tree) && i < |tree.outputs|
    ensures TypeIn(OutputEquation(tree, tree.outputs[i]).rhs, all, outputs) == Some(OutputTypes(tree.outputs)[tree.outputs[i].name])
  {
    hide Declares, Assigns, MergeChain, Readable;
    var o := tree.outputs[i].name;
    assert AllAssign(tree, o, |tree.branches|) && Assigns(tree.otherwise, o);
    forall j: nat | j <= |tree.branches| ensures Assigns(Scope(tree, j), o) {}
    ChainTyped(tree, owner, all, outputs, o, 0);
  }
}
