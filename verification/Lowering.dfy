/** Lowering an activation tree: the equations it becomes, as a specification,
    and the procedure that builds them one definition at a time. */
module Lowering {
  import opened Lustre
  import opened Clocks
  import opened Options
  import opened Graphs
  import opened Activation

  function Scope(tree: Tree, k: nat): seq<Equation> {
    if k < |tree.branches| then tree.branches[k].equations else tree.otherwise
  }

  /** The variable that decides whether branch `k` runs, once all before it did not. */
  function ClockVar(tree: Tree, k: nat): string {
    Spell(tree, if k == 0 then Flag(0) else Guard(k))
  }

  /** `e` sampled onto the cycles where the first `k` branches all failed. */
  function Under(tree: Tree, k: nat, e: Expr): Expr {
    if k == 0 then e else When(Under(tree, k-1, e), ClockVar(tree, k-1), false)
  }

  /** `e` sampled onto the cycles where scope `k` runs. */
  function Onto(tree: Tree, k: nat, e: Expr): Expr {
    if k < |tree.branches| then When(Under(tree, k, e), ClockVar(tree, k), true)
    else Under(tree, |tree.branches|, e)
  }

  // ---------------------------------------------------------------- variables of an expression

  /** The variables and clock names of `e`, in the order they are visited. */
  function Visited(e: Expr): (r: seq<string>)
    ensures Elements(r) == Names(e)
  {
    match e
    case Const(_) => []
    case Var(x) => [x]
    case Unary(_, a) => Visited(a)
    case Binary(_, a, b) => Visited(a) + Visited(b)
    case If(c, a, b) => Visited(c) + Visited(a) + Visited(b)
    case Pre(a) => Visited(a)
    case Arrow(a, b) => Visited(a) + Visited(b)
    case When(a, c, _) => [c] + Visited(a)
    case Merge(c, a, b) => [c] + Visited(a) + Visited(b)
    case Call(_, _, args) => VisitedAll(args)
    case Condact(act, _, _, args, init) => Visited(act) + VisitedAll(args) + Visited(init)
  }

  function VisitedAll(args: seq<Expr>): (r: seq<string>)
    ensures Elements(r) == NamesAll(args)
  {
    if args == [] then [] else Visited(args[0]) + VisitedAll(args[1..])
  }

  /** `xs` with only the first occurrence of each element of `keep`. */
  function FirstOf(xs: seq<string>, keep: set<string>): (r: seq<string>)
    ensures Elements(r) == Elements(xs) * keep
  {
    if xs == [] then [] else
    var k := |xs| - 1;
    var rest := FirstOf(xs[..k], keep);
    assert xs == xs[..k] + [xs[k]];
    assert Elements(rest + [xs[k]]) == Elements(rest) + {xs[k]};
    if xs[k] in keep && xs[k] !in rest then rest + [xs[k]] else rest
  }

  /** The owner's variables an expression mentions. */
  function FreeVars(e: Expr, vars: set<string>): (r: seq<string>)
    ensures Elements(r) == Names(e) * vars
  {
    FirstOf(Visited(e), vars)
  }

  function RenameName(x: string, from: string, to: string): string {
    if x == from then to else x
  }

  function Rename(e: Expr, from: string, to: string): Expr {
    match e
    case Const(_) => e
    case Var(x) => Var(RenameName(x, from, to))
    case Unary(op, a) => Unary(op, Rename(a, from, to))
    case Binary(op, a, b) => Binary(op, Rename(a, from, to), Rename(b, from, to))
    case If(c, a, b) => If(Rename(c, from, to), Rename(a, from, to), Rename(b, from, to))
    case Pre(a) => Pre(Rename(a, from, to))
    case Arrow(a, b) => Arrow(Rename(a, from, to), Rename(b, from, to))
    case When(a, c, on) => When(Rename(a, from, to), RenameName(c, from, to), on)
    case Merge(c, a, b) => Merge(RenameName(c, from, to), Rename(a, from, to), Rename(b, from, to))
    case Call(site, f, args) =>
      Call(site, f, seq(|args|, i requires 0 <= i < |args| => Rename(args[i], from, to)))
    case Condact(_, _, _, _, _) => e
  }

  /** The first `i` of `vs` replaced by their samples in scope `k`, one after the other. */
  function RenameAll(tree: Tree, k: nat, e: Expr, vs: seq<string>, i: nat): Expr
    requires i <= |vs|
  {
    if i == 0 then e
    else Rename(RenameAll(tree, k, e, vs, i-1), vs[i-1], Spell(tree, Sample(k, vs[i-1])))
  }

  predicate HasConst(e: Expr) {
    match e
    case Const(_) => true
    case Var(_) => false
    case Unary(_, a) => HasConst(a)
    case Binary(_, a, b) => HasConst(a) || HasConst(b)
    case If(c, a, b) => HasConst(c) || HasConst(a) || HasConst(b)
    case Pre(a) => HasConst(a)
    case Arrow(a, b) => HasConst(a) || HasConst(b)
    case When(a, _, _) => HasConst(a)
    case Merge(_, a, b) => HasConst(a) || HasConst(b)
    case Call(_, _, args) => exists i :: 0 <= i < |args| && HasConst(args[i])
    case Condact(_, _, _, _, _) => false
  }

  /** Every constant of `e` sampled onto scope `k`. */
  function Pin(tree: Tree, k: nat, e: Expr): Expr {
    match e
    case Const(_) => Onto(tree, k, e)
    case Var(_) => e
    case Unary(op, a) => Unary(op, Pin(tree, k, a))
    case Binary(op, a, b) => Binary(op, Pin(tree, k, a), Pin(tree, k, b))
    case If(c, a, b) => If(Pin(tree, k, c), Pin(tree, k, a), Pin(tree, k, b))
    case Pre(a) => Pre(Pin(tree, k, a))
    case Arrow(a, b) => Arrow(Pin(tree, k, a), Pin(tree, k, b))
    case When(a, c, on) => When(Pin(tree, k, a), c, on)
    case Merge(c, a, b) => Merge(c, Pin(tree, k, a), Pin(tree, k, b))
    case Call(site, f, args) => Call(site, f, seq(|args|, i requires 0 <= i < |args| => Pin(tree, k, args[i])))
    case Condact(_, _, _, _, _) => e
  }

  /** A scope's right-hand side, moved onto the scope's clock: its reads sampled;
      failing reads its constants; failing both the whole value. */
  function ScopeValue(tree: Tree, k: nat, vars: set<string>, rhs: Expr): Expr {
    var reading := FreeVars(rhs, vars);
    if reading != [] then RenameAll(tree, k, rhs, reading, |reading|)
    else if HasConst(rhs) then Pin(tree, k, rhs)
    else Onto(tree, k, rhs)
  }

  // ---------------------------------------------------------------- the equations

  function OutputTypes(outputs: seq<Port>): (m: map<string, Type>)
    ensures forall i | 0 <= i < |outputs| :: outputs[i].name in m
    ensures forall i | 0 <= i < |outputs| && (forall j | 0 <= j < i :: outputs[j].name != outputs[i].name) :: m[outputs[i].name] == outputs[i].ty
  {
    if outputs == [] then map[] else
    var rest := OutputTypes(outputs[1..]);
    assert forall i | 0 < i < |outputs| :: outputs[i] == outputs[1..][i-1];
    rest[outputs[0].name := outputs[0].ty]
  }

  /** What a scope may read: the owner's variables and the activation's outputs. */
  function Variables(tree: Tree, owner: map<string, Type>): map<string, Type> {
    OutputTypes(tree.outputs) + owner
  }

  function EquationLasts(eqs: seq<Equation>, i: nat): seq<Holder>
    requires i <= |eqs|
  {
    if i == 0 then [] else EquationLasts(eqs, i-1) + Lasts(eqs[i-1].rhs)
  }

  function ConditionLasts(tree: Tree, m: nat): seq<Holder>
    requires m <= |tree.branches|
  {
    if m == 0 then [] else ConditionLasts(tree, m-1) + Lasts(tree.branches[m-1].condition)
  }

  function ScopeLasts(tree: Tree, m: nat): seq<Holder> {
    if m == 0 then [] else ScopeLasts(tree, m-1) + EquationLasts(Scope(tree, m-1), |Scope(tree, m-1)|)
  }

  function Holders(tree: Tree): seq<Holder> {
    Collect(ConditionLasts(tree, |tree.branches|) + ScopeLasts(tree, |tree.branches| + 1))
  }

  function TypeOf(types: map<string, Type>, x: string): Type {
    if x in types then types[x] else BoolType
  }

  function LastDefinition(tree: Tree, h: Holder, types: map<string, Type>): Definition {
    var ty := TypeOf(types, h.v);
    var init := if h.init.Some? then h.init.value else Const(Default(ty));
    Definition(Spell(tree, Last(h.v)), ty, Arrow(init, Pre(Var(h.v))))
  }

  /** The types with those of the first `i` holders added, one by one. */
  function WithHolders(tree: Tree, found: seq<Holder>, types: map<string, Type>, i: nat): map<string, Type>
    requires i <= |found|
  {
    if i == 0 then types else
    var before := WithHolders(tree, found, types, i-1);
    before[Spell(tree, Last(found[i-1].v)) := TypeOf(before, found[i-1].v)]
  }

  /** The first `i` `last`s ask for variables of the owner, or for earlier holders. */
  predicate HoldersKnown(tree: Tree, found: seq<Holder>, types: map<string, Type>, i: nat)
    requires i <= |found|
  {
    i == 0 || (HoldersKnown(tree, found, types, i-1) && found[i-1].v in WithHolders(tree, found, types, i-1))
  }

  lemma {:induction false} HoldersUnknown(tree: Tree, found: seq<Holder>, types: map<string, Type>, i: nat, j: nat)
    requires i <= j <= |found| && !HoldersKnown(tree, found, types, i)
    ensures !HoldersKnown(tree, found, types, j)
  {
    if i < j { HoldersUnknown(tree, found, types, i, j-1); }
  }

  function LastDefinitions(tree: Tree, found: seq<Holder>, types: map<string, Type>, i: nat): seq<Definition>
    requires i <= |found|
  {
    if i == 0 then []
    else LastDefinitions(tree, found, types, i-1)
         + [LastDefinition(tree, found[i-1], WithHolders(tree, found, types, i-1))]
  }

  /** The owner's variables and the holders. */
  function Readable(tree: Tree, owner: map<string, Type>): map<string, Type> {
    WithHolders(tree, Holders(tree), Variables(tree, owner), |Holders(tree)|)
  }

  function Condition(tree: Tree, i: nat): Expr
    requires i < |tree.branches|
  {
    Relast(tree, tree.branches[i].condition)
  }

  /** No branch before `i` was taken, and this one (is not). */
  function Decision(tree: Tree, i: nat, e: Expr): Expr {
    if i == 0 then e else Binary(And, Var(Spell(tree, NoneUpTo(i-1))), e)
  }

  /** Branch `i` is selected; and, unless it is the last, nothing up to it is. */
  function FlagDefinition(tree: Tree, i: nat): seq<Definition>
    requires i < |tree.branches|
  {
    var c := Condition(tree, i);
    [Definition(Spell(tree, Flag(i)), BoolType, Decision(tree, i, c))]
    + if i + 1 < |tree.branches|
      then [Definition(Spell(tree, NoneUpTo(i)), BoolType, Decision(tree, i, Unary(Not, c)))]
      else []
  }

  function FlagDefinitions(tree: Tree, m: nat): seq<Definition>
    requires m <= |tree.branches|
  {
    if m == 0 then [] else FlagDefinitions(tree, m-1) + FlagDefinition(tree, m-1)
  }

  function GuardDefinition(tree: Tree, k: nat): Definition {
    Definition(Spell(tree, Guard(k)), BoolType, Under(tree, k, Var(Spell(tree, Flag(k)))))
  }

  /** The guards of branches 1 up to `m`. */
  function GuardDefinitions(tree: Tree, m: nat): seq<Definition> {
    if m <= 1 then [] else GuardDefinitions(tree, m-1) + [GuardDefinition(tree, m-1)]
  }

  function SampleDefinition(tree: Tree, k: nat, types: map<string, Type>, v: string): Definition {
    Definition(Spell(tree, Sample(k, v)), TypeOf(types, v), Onto(tree, k, Var(v)))
  }

  function NewSample(tree: Tree, k: nat, types: map<string, Type>, already: set<string>, vs: seq<string>, i: nat): seq<Definition>
    requires i < |vs|
  {
    if vs[i] in already || vs[i] in vs[..i] then [] else [SampleDefinition(tree, k, types, vs[i])]
  }

  /** Samples of the first `i` variables of `vs`, those sampled `already` left out. */
  function NewSamples(tree: Tree, k: nat, types: map<string, Type>, already: set<string>, vs: seq<string>, i: nat): seq<Definition>
    requires i <= |vs|
  {
    if i == 0 then []
    else NewSamples(tree, k, types, already, vs, i-1) + NewSample(tree, k, types, already, vs, i-1)
  }

  /** What the first `i` equations of a scope read. */
  function ScopeReads(tree: Tree, eqs: seq<Equation>, vars: set<string>, i: nat): set<string>
    requires i <= |eqs|
  {
    if i == 0 then {} else ScopeReads(tree, eqs, vars, i-1) + Names(Relast(tree, eqs[i-1].rhs)) * vars
  }

  function OutputType(tree: Tree, types: map<string, Type>, o: string): Type {
    var ports := OutputTypes(tree.outputs);
    if o in ports then ports[o] else TypeOf(types, o)
  }

  /** One scope equation: samples of what it reads for the first time, then its value. */
  function EquationDefinitions(tree: Tree, k: nat, types: map<string, Type>, sampled: set<string>, eq: Equation): seq<Definition> {
    var rhs := Relast(tree, eq.rhs);
    var reading := FreeVars(rhs, types.Keys);
    NewSamples(tree, k, types, sampled, reading, |reading|)
    + [Definition(Spell(tree, Value(k, eq.lhs)), OutputType(tree, types, eq.lhs), ScopeValue(tree, k, types.Keys, rhs))]
  }

  function ScopeDefinitions(tree: Tree, k: nat, types: map<string, Type>, eqs: seq<Equation>, i: nat): seq<Definition>
    requires i <= |eqs|
  {
    if i == 0 then []
    else ScopeDefinitions(tree, k, types, eqs, i-1)
         + EquationDefinitions(tree, k, types, ScopeReads(tree, eqs, types.Keys, i-1), eqs[i-1])
  }

  function ScopesDefinitions(tree: Tree, types: map<string, Type>, m: nat): seq<Definition> {
    if m == 0 then [] else
    var eqs := Scope(tree, m-1);
    ScopesDefinitions(tree, types, m-1) + ScopeDefinitions(tree, m-1, types, eqs, |eqs|)
  }

  function Definitions(tree: Tree, owner: map<string, Type>): seq<Definition> {
    var n := |tree.branches|;
    LastDefinitions(tree, Holders(tree), Variables(tree, owner), |Holders(tree)|)
    + FlagDefinitions(tree, n)
    + GuardDefinitions(tree, n)
    + ScopesDefinitions(tree, Readable(tree, owner), n + 1)
  }

  /** The value of `o` in the scope that runs, of those from `k` on. */
  function MergeChain(tree: Tree, o: string, k: nat): Expr
    decreases |tree.branches| - k
  {
    if k >= |tree.branches| then Var(Spell(tree, Value(|tree.branches|, o)))
    else Merge(ClockVar(tree, k), Var(Spell(tree, Value(k, o))), MergeChain(tree, o, k+1))
  }

  function OutputEquation(tree: Tree, p: Port): Equation {
    Equation(p.name, MergeChain(tree, p.name, 0))
  }

  function OutputEquations(tree: Tree): (eqs: seq<Equation>)
    ensures |eqs| == |tree.outputs|
  {
    seq(|tree.outputs|, i requires 0 <= i < |tree.outputs| => OutputEquation(tree, tree.outputs[i]))
  }

  function LocalsOf(ds: seq<Definition>): (ps: seq<Port>)
    ensures |ps| == |ds|
  {
    seq(|ds|, i requires 0 <= i < |ds| => Port(ds[i].name, ds[i].ty))
  }

  function EquationsOf(ds: seq<Definition>): (eqs: seq<Equation>)
    ensures |eqs| == |ds|
  {
    seq(|ds|, i requires 0 <= i < |ds| => Equation(ds[i].name, ds[i].rhs))
  }

  function LoweredTree(tree: Tree, owner: map<string, Type>): Lowered {
    var ds := Definitions(tree, owner);
    Lowered(LocalsOf(ds), EquationsOf(ds) + OutputEquations(tree))
  }

  // ---------------------------------------------------------------- what is accepted

  predicate Assigns(eqs: seq<Equation>, o: string) {
    exists i :: 0 <= i < |eqs| && eqs[i].lhs == o
  }

  ghost predicate DistinctBranches(tree: Tree, m: nat)
    requires m <= |tree.branches|
  {
    forall i, j | 0 <= i < j < m :: tree.branches[i].name != tree.branches[j].name
  }

  ghost predicate AllAssign(tree: Tree, o: string, m: nat)
    requires m <= |tree.branches|
  {
    forall k | 0 <= k < m :: Assigns(tree.branches[k].equations, o)
  }

  /** Every branch and the else scope assign every output. */
  ghost predicate Strict(tree: Tree) {
    forall i | 0 <= i < |tree.outputs| ::
      AllAssign(tree, tree.outputs[i].name, |tree.branches|) && Assigns(tree.otherwise, tree.outputs[i].name)
  }

  ghost predicate WellFormedLasts(tree: Tree) {
    && (forall k | 0 <= k < |tree.branches| :: LastsOk(tree.branches[k].condition))
    && (forall k | 0 <= k < |tree.branches| + 1 :: ScopeLastsOk(Scope(tree, k)))
  }

  ghost predicate ScopeLastsOk(eqs: seq<Equation>) {
    forall i | 0 <= i < |eqs| :: LastsOk(eqs[i].rhs)
  }

  ghost predicate Valid(tree: Tree) {
    && tree.branches != [] && tree.outputs != []
    && DistinctBranches(tree, |tree.branches|)
    && Strict(tree)
  }

  ghost predicate Acceptable(tree: Tree, owner: map<string, Type>) {
    Valid(tree) && WellFormedLasts(tree) && HoldersKnown(tree, Holders(tree), Variables(tree, owner), |Holders(tree)|)
  }

  method Assigned(eqs: seq<Equation>, o: string) returns (yes: bool)
    ensures yes <==> Assigns(eqs, o)
  {
    for i := 0 to |eqs|
      invariant !Assigns(eqs[..i], o)
    {
      if eqs[i].lhs == o { return true; }
      assert forall j | 0 <= j <= i :: eqs[..i+1][j] == if j < i then eqs[..i][j] else eqs[i];
    }
    assert eqs[..|eqs|] == eqs;
    return false;
  }

  function ScopeLabel(tree: Tree, k: nat): string {
    if k < |tree.branches| then tree.branches[k].name else "else"
  }

  ghost predicate RepeatedAt(tree: Tree, name: string, j: nat) {
    && j < |tree.branches| && DistinctBranches(tree, j) && tree.branches[j].name == name
    && exists i: nat :: i < j && tree.branches[i].name == name
  }

  /** Scope `k` misses output `o`, the i-th; earlier scopes have it, and all have earlier outputs. */
  ghost predicate MissingAt(tree: Tree, o: string, scope: string, i: nat, k: nat) {
    && i < |tree.outputs| && tree.outputs[i].name == o && k <= |tree.branches| && ScopeLabel(tree, k) == scope
    && !Assigns(Scope(tree, k), o) && AllAssign(tree, o, k)
    && forall j | 0 <= j < i ::
         AllAssign(tree, tree.outputs[j].name, |tree.branches|) && Assigns(tree.otherwise, tree.outputs[j].name)
  }

  /** The first thing that is wrong, by its own name. */
  ghost predicate FirstFault(tree: Tree, failure: Failure) {
    match failure
    case NoBranches => tree.branches == []
    case NoOutputs => tree.branches != [] && tree.outputs == []
    case DuplicateBranch(name) =>
      tree.branches != [] && tree.outputs != [] && exists j :: RepeatedAt(tree, name, j)
    case OutputUnassigned(o, scope) =>
      tree.branches != [] && DistinctBranches(tree, |tree.branches|) && exists i, k :: MissingAt(tree, o, scope, i, k)
    case _ => false
  }

  /** The structural checks; a failure names what is wrong first. */
  method Validate(tree: Tree) returns (failure: Option<Failure>)
    ensures failure.None? <==> Valid(tree)
    ensures failure.Some? ==> FirstFault(tree, failure.value)
  {
    if tree.branches == [] { return Some(NoBranches); }
    if tree.outputs == [] { return Some(NoOutputs); }
    var seen: set<string> := {};
    for j := 0 to |tree.branches|
      invariant DistinctBranches(tree, j)
      invariant forall x :: x in seen <==> exists i :: 0 <= i < j && tree.branches[i].name == x
    {
      if tree.branches[j].name in seen {
        assert RepeatedAt(tree, tree.branches[j].name, j);
        return Some(DuplicateBranch(tree.branches[j].name));
      }
      seen := seen + {tree.branches[j].name};
    }
    for i := 0 to |tree.outputs|
      invariant forall j | 0 <= j < i ::
                  AllAssign(tree, tree.outputs[j].name, |tree.branches|) && Assigns(tree.otherwise, tree.outputs[j].name)
    {
      var o := tree.outputs[i].name;
      for k := 0 to |tree.branches|
        invariant AllAssign(tree, o, k)
      {
        var yes := Assigned(tree.branches[k].equations, o);
        if !yes {
          assert MissingAt(tree, o, ScopeLabel(tree, k), i, k);
          return Some(OutputUnassigned(o, tree.branches[k].name));
        }
      }
      var yes := Assigned(tree.otherwise, o);
      if !yes {
        assert MissingAt(tree, o, "else", i, |tree.branches|);
        return Some(OutputUnassigned(o, "else"));
      }
    }
    return None;
  }

  // ---------------------------------------------------------------- `last` holders

  /** The holders needed for everything asked for so far. */
  class LastHolders {
    var found: seq<Holder>
    ghost var asked: seq<Holder>

    ghost predicate Right()
      reads this
    {
      found == Collect(asked)
    }

    constructor ()
      ensures Right() && asked == []
    {
      found := [];
      asked := [];
    }

    method Add(h: Holder)
      requires Right()
      modifies this
      ensures Right() && asked == old(asked) + [h]
    {
      var i := 0;
      while i < |found| && found[i].v != h.v
        invariant 0 <= i <= |found|
        invariant forall j | 0 <= j < i :: found[j].v != h.v
      {
        i := i + 1;
      }
      NoteAt(found, h, i);
      CollectNext(asked, h);
      if i == |found| {
        found := found + [h];
      } else if found[i].init.None? {
        found := found[i := h];
      }
      asked := asked + [h];
    }

    /** `e` read from holders; `None` for a malformed `last`. */
    method Rewrite(tree: Tree, e: Expr) returns (r: Option<Expr>)
      requires Right()
      modifies this
      ensures Right() && asked == old(asked) + Lasts(e)
      ensures r == if LastsOk(e) then Some(Relast(tree, e)) else None
    {
      var occurrences := Lasts(e);
      for i := 0 to |occurrences|
        invariant Right() && asked == old(asked) + occurrences[..i]
      {
        Add(occurrences[i]);
      }
      r := if LastsOk(e) then Some(Relast(tree, e)) else None;
    }

    method RewriteScope(tree: Tree, eqs: seq<Equation>) returns (ok: bool)
      requires Right()
      modifies this
      ensures Right()
      ensures ok <==> ScopeLastsOk(eqs)
      ensures ok ==> asked == old(asked) + EquationLasts(eqs, |eqs|)
    {
      hide Lasts, LastsOk;
      for i := 0 to |eqs|
        invariant Right() && asked == old(asked) + EquationLasts(eqs, i)
        invariant forall j | 0 <= j < i :: LastsOk(eqs[j].rhs)
      {
        var r := Rewrite(tree, eqs[i].rhs);
        Longer(old(asked), EquationLasts(eqs, i), Lasts(eqs[i].rhs), EquationLasts(eqs, i+1));
        if r.None? { return false; }
      }
      return true;
    }

    method RewriteScopes(tree: Tree) returns (ok: bool)
      requires Right()
      modifies this
      ensures Right()
      ensures ok <==> forall k | 0 <= k < |tree.branches| + 1 :: ScopeLastsOk(Scope(tree, k))
      ensures ok ==> asked == old(asked) + ScopeLasts(tree, |tree.branches| + 1)
    {
      hide EquationLasts, Scope;
      for k := 0 to |tree.branches| + 1
        invariant Right() && asked == old(asked) + ScopeLasts(tree, k)
        invariant forall j | 0 <= j < k :: ScopeLastsOk(Scope(tree, j))
      {
        var eqs := Scope(tree, k);
        var fine := RewriteScope(tree, eqs);
        Longer(old(asked), ScopeLasts(tree, k), EquationLasts(eqs, |eqs|), ScopeLasts(tree, k+1));
        if !fine { return false; }
      }
      return true;
    }

    method RewriteConditions(tree: Tree) returns (ok: bool)
      requires Right() && asked == []
      modifies this
      ensures Right()
      ensures ok <==> forall k | 0 <= k < |tree.branches| :: LastsOk(tree.branches[k].condition)
      ensures ok ==> asked == ConditionLasts(tree, |tree.branches|)
    {
      for k := 0 to |tree.branches|
        invariant Right() && asked == ConditionLasts(tree, k)
        invariant forall j | 0 <= j < k :: LastsOk(tree.branches[j].condition)
      {
        var r := Rewrite(tree, tree.branches[k].condition);
        if r.None? { return false; }
      }
      return true;
    }
  }

  lemma {:induction false} NoteAt(found: seq<Holder>, h: Holder, i: nat)
    requires i <= |found| && forall j | 0 <= j < i :: found[j].v != h.v
    requires i < |found| ==> found[i].v == h.v
    ensures Note(found, h) ==
            if i == |found| then found + [h] else if found[i].init.None? then found[i := h] else found
    decreases i
  {
    if i > 0 {
      var rest := found[1..];
      assert forall j | 0 <= j < i-1 :: rest[j] == found[j+1];
      NoteAt(rest, h, i-1);
      assert found == [found[0]] + rest;
    } else if found != [] {
      assert found == [found[0]] + found[1..];
    }
  }

  lemma CollectNext(asked: seq<Holder>, h: Holder)
    ensures Collect(asked + [h]) == Note(Collect(asked), h)
  {
    assert (asked + [h])[..|asked|] == asked;
  }

  /** Rewrites the conditions and scopes, collecting the holders they need. */
  method CollectHolders(tree: Tree) returns (ok: bool, found: seq<Holder>)
    ensures ok <==> WellFormedLasts(tree)
    ensures ok ==> found == Holders(tree)
  {
    var lasts := new LastHolders();
    ok := lasts.RewriteConditions(tree);
    if ok { ok := lasts.RewriteScopes(tree); }
    found := lasts.found;
  }

  // ---------------------------------------------------------------- building

  lemma Longer<T>(start: seq<T>, before: seq<T>, more: seq<T>, after: seq<T>)
    requires after == before + more
    ensures start + before + more == start + after
  {
  }

  /** The locals built so far, each with its equation. */
  class Lowerer {
    const tree: Tree
    var defs: seq<Definition>

    constructor (tree: Tree)
      ensures this.tree == tree && defs == []
    {
      this.tree := tree;
      defs := [];
    }

    method Define(d: Definition)
      modifies this
      ensures defs == old(defs) + [d]
    {
      defs := defs + [d];
    }

    /** The holder of one `last`, if what it asks for is known. */
    method DefineLast(found: seq<Holder>, i: nat, ghost start: map<string, Type>, types: map<string, Type>)
      returns (ok: bool, more: map<string, Type>)
      requires i < |found| && types == WithHolders(tree, found, start, i)
      requires defs == LastDefinitions(tree, found, start, i)
      modifies this
      ensures ok <==> found[i].v in types
      ensures ok ==> defs == LastDefinitions(tree, found, start, i+1) && more == WithHolders(tree, found, start, i+1)
    {
      if found[i].v !in types { return false, types; }
      var d := LastDefinition(tree, found[i], types);
      Define(d);
      return true, types[d.name := d.ty];
    }

    method DefineLasts(found: seq<Holder>, start: map<string, Type>) returns (unknown: Option<string>, types: map<string, Type>)
      requires defs == []
      modifies this
      ensures unknown.None? <==> HoldersKnown(tree, found, start, |found|)
      ensures unknown.None? ==>
                && defs == LastDefinitions(tree, found, start, |found|)
                && types == WithHolders(tree, found, start, |found|)
    {
      types := start;
      for i := 0 to |found|
        invariant types == WithHolders(tree, found, start, i)
        invariant defs == LastDefinitions(tree, found, start, i)
        invariant HoldersKnown(tree, found, start, i)
      {
        var ok;
        ok, types := DefineLast(found, i, start, types);
        if !ok {
          HoldersUnknown(tree, found, start, i+1, |found|);
          return Some(found[i].v), types;
        }
      }
      return None, types;
    }

    method DefineFlag(i: nat)
      requires i < |tree.branches|
      modifies this
      ensures defs == old(defs) + FlagDefinition(tree, i)
    {
      var c := Condition(tree, i);
      Define(Definition(Spell(tree, Flag(i)), BoolType, Decision(tree, i, c)));
      if i + 1 < |tree.branches| {
        Define(Definition(Spell(tree, NoneUpTo(i)), BoolType, Decision(tree, i, Unary(Not, c))));
      }
    }

    method DefineFlags()
      modifies this
      ensures defs == old(defs) + FlagDefinitions(tree, |tree.branches|)
    {
      for i := 0 to |tree.branches|
        invariant defs == old(defs) + FlagDefinitions(tree, i)
      {
        DefineFlag(i);
        Longer(old(defs), FlagDefinitions(tree, i), FlagDefinition(tree, i), FlagDefinitions(tree, i+1));
      }
    }

    method DefineGuards()
      requires tree.branches != []
      modifies this
      ensures defs == old(defs) + GuardDefinitions(tree, |tree.branches|)
    {
      for k := 1 to |tree.branches|
        invariant defs == old(defs) + GuardDefinitions(tree, k)
      {
        Define(GuardDefinition(tree, k));
        Longer(old(defs), GuardDefinitions(tree, k), [GuardDefinition(tree, k)], GuardDefinitions(tree, k+1));
      }
    }

    /** Samples one variable of those read, unless it already is, and renames it. */
    method DefineSample(k: nat, types: map<string, Type>, ghost already: set<string>, vs: seq<string>, i: nat,
                        ghost rhs: Expr, sampled: set<string>, renamed: Expr) returns (sampled': set<string>, renamed': Expr)
      requires i < |vs| && sampled == already + Elements(vs[..i]) && renamed == RenameAll(tree, k, rhs, vs, i)
      modifies this
      ensures defs == old(defs) + NewSample(tree, k, types, already, vs, i)
      ensures sampled' == already + Elements(vs[..i+1]) && renamed' == RenameAll(tree, k, rhs, vs, i+1)
    {
      if vs[i] !in sampled {
        Define(SampleDefinition(tree, k, types, vs[i]));
      }
      ElementsNext(vs, i);
      sampled' := sampled + {vs[i]};
      renamed' := Rename(renamed, vs[i], Spell(tree, Sample(k, vs[i])));
    }

    /** Samples what the right-hand side reads, renaming it on the way. */
    method DefineSamples(k: nat, types: map<string, Type>, already: set<string>, rhs: Expr, reading: seq<string>)
      returns (sampled: set<string>, renamed: Expr)
      modifies this
      ensures defs == old(defs) + NewSamples(tree, k, types, already, reading, |reading|)
      ensures sampled == already + Elements(reading)
      ensures renamed == RenameAll(tree, k, rhs, reading, |reading|)
    {
      sampled := already;
      renamed := rhs;
      for i := 0 to |reading|
        invariant defs == old(defs) + NewSamples(tree, k, types, already, reading, i)
        invariant sampled == already + Elements(reading[..i])
        invariant renamed == RenameAll(tree, k, rhs, reading, i)
      {
        sampled, renamed := DefineSample(k, types, already, reading, i, rhs, sampled, renamed);
        Longer(old(defs), NewSamples(tree, k, types, already, reading, i),
               NewSample(tree, k, types, already, reading, i), NewSamples(tree, k, types, already, reading, i+1));
      }
      assert reading[..|reading|] == reading;
    }

    /** One equation of a scope, the first `i` being done since `start`. */
    method DefineEquation(k: nat, types: map<string, Type>, eqs: seq<Equation>, i: nat, already: set<string>,
                          ghost start: seq<Definition>) returns (sampled: set<string>)
      requires i < |eqs| && already == ScopeReads(tree, eqs, types.Keys, i)
      requires defs == start + ScopeDefinitions(tree, k, types, eqs, i)
      modifies this
      ensures defs == start + ScopeDefinitions(tree, k, types, eqs, i+1)
      ensures sampled == ScopeReads(tree, eqs, types.Keys, i+1)
    {
      var rhs := Relast(tree, eqs[i].rhs);
      var reading := FreeVars(rhs, types.Keys);
      var value;
      sampled, value := DefineSamples(k, types, already, rhs, reading);
      if reading == [] {
        value := if HasConst(rhs) then Pin(tree, k, rhs) else Onto(tree, k, rhs);
      }
      var o := eqs[i].lhs;
      var d := Definition(Spell(tree, Value(k, o)), OutputType(tree, types, o), value);
      Define(d);
      ghost var more := EquationDefinitions(tree, k, types, already, eqs[i]);
      Longer(old(defs), NewSamples(tree, k, types, already, reading, |reading|), [d], more);
      Longer(start, ScopeDefinitions(tree, k, types, eqs, i), more, ScopeDefinitions(tree, k, types, eqs, i+1));
    }

    method DefineScope(k: nat, types: map<string, Type>, eqs: seq<Equation>)
      modifies this
      ensures defs == old(defs) + ScopeDefinitions(tree, k, types, eqs, |eqs|)
    {
      var sampled: set<string> := {};
      for i := 0 to |eqs|
        invariant defs == old(defs) + ScopeDefinitions(tree, k, types, eqs, i)
        invariant sampled == ScopeReads(tree, eqs, types.Keys, i)
      {
        sampled := DefineEquation(k, types, eqs, i, sampled, old(defs));
      }
    }

    method DefineScopes(types: map<string, Type>)
      modifies this
      ensures defs == old(defs) + ScopesDefinitions(tree, types, |tree.branches| + 1)
    {
      for k := 0 to |tree.branches| + 1
        invariant defs == old(defs) + ScopesDefinitions(tree, types, k)
      {
        var eqs := Scope(tree, k);
        DefineScope(k, types, eqs);
        Longer(old(defs), ScopesDefinitions(tree, types, k), ScopeDefinitions(tree, k, types, eqs, |eqs|),
               ScopesDefinitions(tree, types, k+1));
      }
    }
  }

  /** Each output: the values of the scopes merged, from the last scope up. */
  method MergeOutputs(tree: Tree) returns (equations: seq<Equation>)
    ensures equations == OutputEquations(tree)
  {
    equations := [];
    for i := 0 to |tree.outputs|
      invariant |equations| == i && forall j | 0 <= j < i :: equations[j] == OutputEquation(tree, tree.outputs[j])
    {
      var o := tree.outputs[i].name;
      var chain := Var(Spell(tree, Value(|tree.branches|, o)));
      var k := |tree.branches|;
      while k > 0
        invariant 0 <= k <= |tree.branches| && chain == MergeChain(tree, o, k)
      {
        k := k - 1;
        chain := Merge(ClockVar(tree, k), Var(Spell(tree, Value(k, o))), chain);
      }
      equations := equations + [Equation(o, chain)];
    }
  }

  /** Lowers a tree over the variables of its owner; fails exactly when the
      tree is not acceptable. */
  method Lower(tree: Tree, owner: map<string, Type>) returns (r: Result<Lowered, Failure>)
    ensures r.Ok? <==> Acceptable(tree, owner)
    ensures r.Ok? ==> r.value == LoweredTree(tree, owner)
    ensures r == Err(LastArgs) <==> Valid(tree) && !WellFormedLasts(tree)
    ensures r.Err? && r.error.LastUnknown? ==> Valid(tree) && WellFormedLasts(tree)
    ensures r.Err? && !Valid(tree) ==> FirstFault(tree, r.error)
  {
    var failure := Validate(tree);
    if failure.Some? { return Err(failure.value); }
    var ok, found := CollectHolders(tree);
    if !ok { return Err(LastArgs); }
    var b := new Lowerer(tree);
    var unknown, types := b.DefineLasts(found, Variables(tree, owner));
    if unknown.Some? { return Err(LastUnknown(unknown.value)); }
    b.DefineFlags();
    b.DefineGuards();
    b.DefineScopes(types);
    assert b.defs == Definitions(tree, owner);
    var outputs := MergeOutputs(tree);
    return Ok(Lowered(LocalsOf(b.defs), EquationsOf(b.defs) + outputs));
  }
}
