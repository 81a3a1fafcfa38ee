/** What a lowered activation means: inference accepts it, exactly one scope is
    active in each cycle, and each output is the value of the selected scope
    run on nothing but its own activations. */
module ActivationRuns {
  import opened Lustre
  import opened Clocks
  import opened Inference
  import opened Options
  import opened Graphs
  import opened Activation
  import opened Lowering
  import opened ActivationClocks

  // ---------------------------------------------------------------- what the lowering contains

  lemma {:induction false} GuardIn(tree: Tree, k: nat, m: nat)
    requires 1 <= k < m
    ensures GuardDefinition(tree, k) in GuardDefinitions(tree, m)
    decreases m
  {
    if k < m - 1 { GuardIn(tree, k, m-1); }
  }

  lemma {:induction false} FlagIn(tree: Tree, i: nat, m: nat)
    requires i < m <= |tree.branches|
    ensures forall d | d in FlagDefinition(tree, i) :: d in FlagDefinitions(tree, m)
    decreases m
  {
    hide FlagDefinition;
    if i < m - 1 { FlagIn(tree, i, m-1); }
  }

  lemma {:induction false} LastIn(tree: Tree, found: seq<Holder>, types: map<string, Type>, i: nat, m: nat)
    requires i < m <= |found|
    ensures LastDefinition(tree, found[i], WithHolders(tree, found, types, i)) in LastDefinitions(tree, found, types, m)
    decreases m
  {
    hide LastDefinition;
    if i < m - 1 { LastIn(tree, found, types, i, m-1); }
  }

  lemma {:induction false} SampleIn(tree: Tree, k: nat, types: map<string, Type>, already: set<string>, vs: seq<string>, i: nat, v: string)
    requires i <= |vs| && v in vs[..i] && v !in already
    ensures SampleDefinition(tree, k, types, v) in NewSamples(tree, k, types, already, vs, i)
    decreases i
  {
    hide SampleDefinition;
    assert vs[..i] == vs[..i-1] + [vs[i-1]];
    if v in vs[..i-1] { SampleIn(tree, k, types, already, vs, i-1, v); }
  }

  ghost predicate SamplesIn(tree: Tree, k: nat, types: map<string, Type>, vars: set<string>, ds: seq<Definition>) {
    forall v | v in vars :: SampleDefinition(tree, k, types, v) in ds
  }

  lemma EquationSamplesIn(tree: Tree, k: nat, types: map<string, Type>, already: set<string>, eq: Equation, rest: seq<Definition>)
    requires SamplesIn(tree, k, types, already, rest)
    ensures
      var ds := rest + EquationDefinitions(tree, k, types, already, eq);
      SamplesIn(tree, k, types, already + Names(Relast(tree, eq.rhs)) * types.Keys, ds)
  {
    hide SampleDefinition, ScopeValue;
    var reading := FreeVars(Relast(tree, eq.rhs), types.Keys);
    assert reading[..|reading|] == reading;
    forall v | v in Elements(reading) && v !in already
      ensures SampleDefinition(tree, k, types, v) in NewSamples(tree, k, types, already, reading, |reading|)
    {
      SampleIn(tree, k, types, already, reading, |reading|, v);
    }
  }

  /** Every read of a scope is sampled in it. */
  lemma {:induction false} ScopeSamplesIn(tree: Tree, k: nat, types: map<string, Type>, eqs: seq<Equation>, i: nat)
    requires i <= |eqs|
    ensures SamplesIn(tree, k, types, ScopeReads(tree, eqs, types.Keys, i), ScopeDefinitions(tree, k, types, eqs, i))
    decreases i
  {
    hide EquationDefinitions;
    if i > 0 {
      ScopeSamplesIn(tree, k, types, eqs, i-1);
      EquationSamplesIn(tree, k, types, ScopeReads(tree, eqs, types.Keys, i-1), eqs[i-1], ScopeDefinitions(tree, k, types, eqs, i-1));
    }
  }

  lemma {:induction false} ScopeReadsIn(tree: Tree, eqs: seq<Equation>, vars: set<string>, j: nat, i: nat)
    requires j < i <= |eqs|
    ensures Names(Relast(tree, eqs[j].rhs)) * vars <= ScopeReads(tree, eqs, vars, i)
    decreases i
  {
    if j < i - 1 { ScopeReadsIn(tree, eqs, vars, j, i-1); }
  }

  function ValueDefinition(tree: Tree, k: nat, types: map<string, Type>, eq: Equation): Definition {
    Definition(Spell(tree, Value(k, eq.lhs)), OutputType(tree, types, eq.lhs),
               ScopeValue(tree, k, types.Keys, Relast(tree, eq.rhs)))
  }

  lemma {:induction false} ValueIn(tree: Tree, k: nat, types: map<string, Type>, eqs: seq<Equation>, j: nat, i: nat)
    requires j < i <= |eqs|
    ensures ValueDefinition(tree, k, types, eqs[j]) in ScopeDefinitions(tree, k, types, eqs, i)
    decreases i
  {
    hide NewSamples, OutputType, ScopeValue, Spell;
    if j < i - 1 { ValueIn(tree, k, types, eqs, j, i-1); }
  }

  lemma {:induction false} ScopeIn(tree: Tree, types: map<string, Type>, k: nat, m: nat, d: Definition)
    requires k < m && d in ScopeDefinitions(tree, k, types, Scope(tree, k), |Scope(tree, k)|)
    ensures d in ScopesDefinitions(tree, types, m)
    decreases m
  {
    hide ScopeDefinitions;
    if k < m - 1 { ScopeIn(tree, types, k, m-1, d); }
  }

  /** The locals of the lowering, found among its definitions. */
  lemma Contains(tree: Tree, owner: map<string, Type>, d: Definition)
    requires
      || (exists i: nat :: i < |tree.branches| && d in FlagDefinition(tree, i))
      || (exists k: nat :: 1 <= k < |tree.branches| && d == GuardDefinition(tree, k))
      || (exists k: nat :: k <= |tree.branches| && d in ScopeDefinitions(tree, k, Readable(tree, owner), Scope(tree, k), |Scope(tree, k)|))
    ensures d in Definitions(tree, owner)
  {
    hide FlagDefinition, GuardDefinition, ScopeDefinitions, LastDefinitions, Readable, Scope, Spell;
    if i: nat :| i < |tree.branches| && d in FlagDefinition(tree, i) {
      FlagIn(tree, i, |tree.branches|);
    } else if k: nat :| 1 <= k < |tree.branches| && d == GuardDefinition(tree, k) {
      GuardIn(tree, k, |tree.branches|);
    } else {
      var k: nat :| k <= |tree.branches| && d in ScopeDefinitions(tree, k, Readable(tree, owner), Scope(tree, k), |Scope(tree, k)|);
      ScopeIn(tree, Readable(tree, owner), k, |tree.branches| + 1, d);
    }
  }

  lemma {:induction false} NamedIn(ds: seq<Definition>, d: Definition)
    requires d in ds
    ensures d.name in DefinedNames(ds)
    decreases |ds|
  {
    if d != ds[|ds|-1] { NamedIn(ds[..|ds|-1], d); }
  }

  lemma {:induction false} NameOf(ds: seq<Definition>, x: string) returns (i: nat)
    requires x in DefinedNames(ds)
    ensures i < |ds| && ds[i].name == x
    decreases |ds|
  {
    i := |ds| - 1;
    if x != ds[i].name { i := NameOf(ds[..i], x); }
  }

  lemma {:induction false} ListedAt(ideal: ClockMap, known: set<string>, ds: seq<Definition>, i: nat)
    requires Listed(ideal, known, ds) && i < |ds|
    ensures DefinitionOk(ideal, known + DefinedNames(ds[..i]), ds[i])
    decreases |ds|
  {
    hide DefinitionOk;
    if i < |ds| - 1 {
      ListedAt(ideal, known, ds[..|ds|-1], i);
      assert ds[..|ds|-1][..i] == ds[..i];
    }
  }

  // ---------------------------------------------------------------- inference accepts it

  /** Equations on the base clock, over base-clocked variables only. */
  ghost predicate BaseEquations(eqs: seq<Equation>, ideal: ClockMap) {
    forall i | 0 <= i < |eqs| ::
      && Obeys(eqs[i], ideal) && forall x | x in Names(eqs[i].rhs) && x in ideal :: ideal[x] == Base
  }

  lemma {:induction false} ChainNames(tree: Tree, o: string, k: nat, x: string)
    requires k <= |tree.branches| && x in Names(MergeChain(tree, o, k))
    ensures IsClockVar(tree, x) || exists j: nat :: j <= |tree.branches| && x == Spell(tree, Value(j, o))
    decreases |tree.branches| - k
  {
    hide Spell;
    if k < |tree.branches| && x != ClockVar(tree, k) && x != Spell(tree, Value(k, o)) {
      ChainNames(tree, o, k+1, x);
    }
  }

  lemma ValueDefined(tree: Tree, owner: map<string, Type>, k: nat, o: string)
    requires k <= |tree.branches| && Assigns(Scope(tree, k), o)
    ensures Spell(tree, Value(k, o)) in DefinedNames(Definitions(tree, owner))
  {
    hide ScopeDefinitions, Definitions, ScopeValue, OutputType, Spell;
    var eqs := Scope(tree, k);
    var j :| 0 <= j < |eqs| && eqs[j].lhs == o;
    var d := ValueDefinition(tree, k, Readable(tree, owner), eqs[j]);
    ValueIn(tree, k, Readable(tree, owner), eqs, j, |eqs|);
    Contains(tree, owner, d);
    NamedIn(Definitions(tree, owner), d);
  }

  lemma ClockVarDefined(tree: Tree, owner: map<string, Type>, names: set<string>, ideal: ClockMap, x: string)
    requires Intended(tree, names, ideal) && IsClockVar(tree, x) && x in ideal && ideal[x] != Base
    ensures x in DefinedNames(Definitions(tree, owner))
  {
    hide Definitions, Spell;
    var j: nat :| j < |tree.branches| && x == ClockVar(tree, j);
    ClockVarClock(tree, names, ideal, j);
    var d := GuardDefinition(tree, j);
    Contains(tree, owner, d);
    NamedIn(Definitions(tree, owner), d);
  }

  lemma OutputOk(tree: Tree, owner: map<string, Type>, names: set<string>, ideal: ClockMap, p: Port)
    requires Intended(tree, names, ideal) && p.name in names
    requires forall k: nat | k <= |tree.branches| :: Assigns(Scope(tree, k), p.name)
    ensures DefinitionOk(ideal, DefinedNames(Definitions(tree, owner)), Definition(p.name, p.ty, OutputEquation(tree, p).rhs))
  {
    hide Definitions, Spell;
    var chain := MergeChain(tree, p.name, 0);
    ChainDisciplined(tree, names, ideal, p.name, 0);
    DisciplinedNames(chain, Base, ideal);
    forall x | x in Names(chain) && ideal[x] != Base ensures x in DefinedNames(Definitions(tree, owner)) {
      ChainNames(tree, p.name, 0, x);
      if IsClockVar(tree, x) {
        ClockVarDefined(tree, owner, names, ideal, x);
      } else {
        var j: nat :| j <= |tree.branches| && x == Spell(tree, Value(j, p.name));
        ValueDefined(tree, owner, j, p.name);
      }
    }
  }

  lemma StrictAssigns(tree: Tree, i: nat, k: nat)
    requires Strict(tree) && i < |tree.outputs| && k <= |tree.branches|
    ensures Assigns(Scope(tree, k), tree.outputs[i].name)
  {
    assert AllAssign(tree, tree.outputs[i].name, |tree.branches|) && Assigns(tree.otherwise, tree.outputs[i].name);
  }

  /** The owner's equations followed by the lowered ones are rightly clocked by
      the intended clocks, so inference reports no error on them. */
  lemma LoweredClocking(node: Node, own: seq<Equation>, tree: Tree, owner: map<string, Type>, names: set<string>, ideal: ClockMap)
    requires node.equations == own + LoweredTree(tree, owner).equations
    requires Ports(node) <= names && Intended(tree, names, ideal) && Fresh(tree, names)
    requires Acceptable(tree, owner) && BaseTree(tree, owner, names) && BaseEquations(own, ideal)
    ensures Clocking(node, ideal)
  {
    hide Definitions, Spell, WellFormedLasts, Readable;
    DefinitionsListed(tree, owner, names, ideal);
    var ds := Definitions(tree, owner);
    var outs := OutputEquations(tree);
    forall i | 0 <= i < |outs|
      ensures DefinitionOk(ideal, DefinedNames(ds), Definition(outs[i].lhs, tree.outputs[i].ty, outs[i].rhs))
    {
      forall k: nat | k <= |tree.branches| ensures Assigns(Scope(tree, k), tree.outputs[i].name) {
        StrictAssigns(tree, i, k);
      }
      OutputOk(tree, owner, names, ideal, tree.outputs[i]);
    }
    ListedClocking(node, own, ds, outs, tree.outputs, ideal);
  }

  lemma ListedClocking(node: Node, own: seq<Equation>, ds: seq<Definition>, outs: seq<Equation>, ports: seq<Port>, ideal: ClockMap)
    requires node.equations == own + (EquationsOf(ds) + outs) && |ports| == |outs|
    requires forall x | x in Ports(node) :: x in ideal && ideal[x] == Base
    requires BaseEquations(own, ideal) && Listed(ideal, {}, ds)
    requires forall i | 0 <= i < |outs| :: DefinitionOk(ideal, DefinedNames(ds), Definition(outs[i].lhs, ports[i].ty, outs[i].rhs))
    ensures Clocking(node, ideal)
  {
    var eqs := node.equations;
    forall k | 0 <= k < |eqs| ensures Obeys(eqs[k], ideal) && SampledBefore(eqs, ideal, k) {
      if k < |own| {
        assert eqs[k] == own[k];
      } else if k < |own| + |ds| {
        var j := k - |own|;
        ListedAt(ideal, {}, ds, j);
        assert eqs[k] == Equation(ds[j].name, ds[j].rhs);
        NamesBefore(eqs, own, ds, j, k);
      } else {
        var j := k - |own| - |ds|;
        assert eqs[k] == outs[j];
        assert ds[..|ds|] == ds;
        NamesBefore(eqs, own, ds, |ds|, k);
      }
    }
  }

  lemma NamesBefore(eqs: seq<Equation>, own: seq<Equation>, ds: seq<Definition>, j: nat, k: nat)
    requires j <= |ds| && |own| + j <= k <= |eqs|
    requires forall i | 0 <= i < j :: eqs[|own| + i].lhs == ds[i].name
    ensures DefinedNames(ds[..j]) <= Defined(eqs[..k])
  {
    forall x | x in DefinedNames(ds[..j]) ensures x in Defined(eqs[..k]) {
      var i := NameOf(ds[..j], x);
      assert eqs[..k][|own| + i].lhs == x;
    }
  }
}
