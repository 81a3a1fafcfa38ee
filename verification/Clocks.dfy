/** Clock inference and the clock discipline: which clock every variable and
    every equation runs on, and what is reported when streams on different
    clocks are mixed. */
module Clocks {
  import opened Lustre
  import opened Options

  type ClockMap = map<string, Clock>

  function Lookup(vc: ClockMap, x: string): Option<Clock> {
    if x in vc then Some(vc[x]) else None
  }

  /** The clock an expression naturally produces; `None` is clock-polymorphic. */
  function NaturalClock(e: Expr, vc: ClockMap): Option<Clock> {
    match e
    case Const(_) => None
    case Var(x) => Lookup(vc, x)
    case Unary(_, a) => NaturalClock(a, vc)
    case Binary(_, a, b) => OrElse(NaturalClock(a, vc), NaturalClock(b, vc))
    case If(c, a, b) => OrElse(NaturalClock(c, vc), OrElse(NaturalClock(a, vc), NaturalClock(b, vc)))
    case Pre(a) => NaturalClock(a, vc)
    case Arrow(a, b) => OrElse(NaturalClock(a, vc), NaturalClock(b, vc))
    case When(a, c, on) =>
      var parent := OrElse(NaturalClock(a, vc), Lookup(vc, c));
      Some(On(c, on, if parent.Some? then parent.value else Base))
    case Merge(c, a, b) =>
      OrElse(Lookup(vc, c), OrElse(StripLevel(NaturalClock(a, vc)), StripLevel(NaturalClock(b, vc))))
    case Call(_, _, args) => FirstNaturalClock(args, vc)
    case Condact(_, _, _, _, _) => None
  }

  function FirstNaturalClock(args: seq<Expr>, vc: ClockMap): Option<Clock> {
    if args == [] then None else OrElse(NaturalClock(args[0], vc), FirstNaturalClock(args[1..], vc))
  }

  function StripLevel(ck: Option<Clock>): Option<Clock> {
    if ck.Some? && ck.value.On? then Some(ck.value.parent) else None
  }

  /** `r` is the first clock known among those of the operands. */
  ghost predicate FirstKnown(known: seq<Option<Clock>>, r: Option<Clock>) {
    if r.None? then forall i | 0 <= i < |known| :: known[i].None?
    else exists i: nat :: FirstKnownAt(known, r, i)
  }

  ghost predicate FirstKnownAt(known: seq<Option<Clock>>, r: Option<Clock>, i: nat) {
    i < |known| && known[i] == r && forall j | 0 <= j < i :: known[j].None?
  }

  function OperandClocks(es: seq<Expr>, vc: ClockMap, strip: bool): (known: seq<Option<Clock>>)
    ensures |known| == |es|
  {
    seq(|es|, i requires 0 <= i < |es| => if strip then StripLevel(NaturalClock(es[i], vc)) else NaturalClock(es[i], vc))
  }

  /** An expression takes the clock of its first operand, in reading order, that
      has one; a `merge` takes that of its condition before. */
  lemma NaturalIsFirst(e: Expr, vc: ClockMap)
    ensures !e.Var? && !e.When? && !e.Merge? && !e.Condact? ==> FirstKnown(OperandClocks(Operands(e), vc, false), NaturalClock(e, vc))
    ensures e.Merge? && e.clock !in vc ==> FirstKnown(OperandClocks(Operands(e), vc, true), NaturalClock(e, vc))
  {
    var known := OperandClocks(Operands(e), vc, e.Merge?);
    var r := NaturalClock(e, vc);
    if e.Call? {
      FirstArgument(e.args, vc);
    } else if r.Some? && (e.Unary? || e.Pre? || e.Binary? || e.Arrow? || e.If? || (e.Merge? && e.clock !in vc)) {
      var i := if known[0].Some? then 0 else if known[1].Some? then 1 else 2;
      assert FirstKnownAt(known, r, i);
    }
  }

  lemma {:induction false} FirstArgument(args: seq<Expr>, vc: ClockMap)
    ensures FirstKnown(OperandClocks(args, vc, false), FirstNaturalClock(args, vc))
    decreases |args|
  {
    hide NaturalClock;
    if args != [] {
      var known, rest, r := OperandClocks(args, vc, false), OperandClocks(args[1..], vc, false), FirstNaturalClock(args, vc);
      FirstArgument(args[1..], vc);
      assert forall i | 0 <= i < |rest| :: rest[i] == known[i+1];
      if known[0].Some? {
        assert FirstKnownAt(known, r, 0);
      } else if r.Some? {
        var i: nat :| FirstKnownAt(rest, r, i);
        assert forall j | 0 < j < i + 1 :: known[j] == rest[j-1];
        assert FirstKnownAt(known, r, i + 1);
      } else {
        assert forall j | 0 < j < |known| :: known[j] == rest[j-1];
      }
    }
  }

  datatype ClockError =
    | OnAnotherClock(x: string)
    | SampledWhere(clock: string, on: bool)
    | ClockVariableElsewhere(clock: string)
    | DefinedOnAnotherClock(x: string)
    | NotSurfaceSyntax

  /** A clock variable must itself live on the parent clock it samples. */
  function ClockVariableErrors(c: string, parent: Clock, vc: ClockMap): seq<ClockError> {
    if c in vc && vc[c] != parent then [ClockVariableElsewhere(c)] else []
  }

  /** What the top-down check reports when `e` must run on `expected`. */
  function Violations(e: Expr, expected: Clock, vc: ClockMap): seq<ClockError> {
    match e
    case Const(_) => []
    case Var(x) => if x in vc && vc[x] != expected then [OnAnotherClock(x)] else []
    case Unary(_, a) => Violations(a, expected, vc)
    case Binary(_, a, b) => Violations(a, expected, vc) + Violations(b, expected, vc)
    case If(c, a, b) => Violations(c, expected, vc) + Violations(a, expected, vc) + Violations(b, expected, vc)
    case Pre(a) => Violations(a, expected, vc)
    case Arrow(a, b) => Violations(a, expected, vc) + Violations(b, expected, vc)
    case When(a, c, on) =>
      if expected.On? && expected.clock == c && expected.on == on then
        ClockVariableErrors(c, expected.parent, vc) + Violations(a, expected.parent, vc)
      else
        var natural := NaturalClock(a, vc);
        [SampledWhere(c, on)] + Violations(a, if natural.Some? then natural.value else Base, vc)
    case Merge(c, a, b) =>
      ClockVariableErrors(c, expected, vc)
      + Violations(a, On(c, true, expected), vc)
      + Violations(b, On(c, false, expected), vc)
    case Call(_, _, args) => ViolationsAll(args, expected, vc)
    case Condact(_, _, _, _, _) => [NotSurfaceSyntax]
  }

  function ViolationsAll(args: seq<Expr>, expected: Clock, vc: ClockMap): seq<ClockError> {
    if args == [] then [] else Violations(args[0], expected, vc) + ViolationsAll(args[1..], expected, vc)
  }

  /** The clocks of the `pre`s and `->`s the same check meets. */
  function SiteClocks(e: Expr, expected: Clock, vc: ClockMap): set<Clock> {
    match e
    case Const(_) => {}
    case Var(_) => {}
    case Unary(_, a) => SiteClocks(a, expected, vc)
    case Binary(_, a, b) => SiteClocks(a, expected, vc) + SiteClocks(b, expected, vc)
    case If(c, a, b) => SiteClocks(c, expected, vc) + SiteClocks(a, expected, vc) + SiteClocks(b, expected, vc)
    case Pre(a) => SiteClocks(a, expected, vc) + {expected}
    case Arrow(a, b) => SiteClocks(a, expected, vc) + SiteClocks(b, expected, vc) + {expected}
    case When(a, c, on) =>
      if expected.On? && expected.clock == c && expected.on == on then SiteClocks(a, expected.parent, vc)
      else
        var natural := NaturalClock(a, vc);
        SiteClocks(a, if natural.Some? then natural.value else Base, vc)
    case Merge(c, a, b) => SiteClocks(a, On(c, true, expected), vc) + SiteClocks(b, On(c, false, expected), vc)
    case Call(_, _, args) => SiteClocksAll(args, expected, vc)
    case Condact(_, _, _, _, _) => {}
  }

  function SiteClocksAll(args: seq<Expr>, expected: Clock, vc: ClockMap): set<Clock> {
    if args == [] then {} else SiteClocks(args[0], expected, vc) + SiteClocksAll(args[1..], expected, vc)
  }

  // ---------------------------------------------------------------- inference

  function Ports(node: Node): set<string> {
    node.inputs.Keys + node.outputs.Keys
  }

  /** The clock an equation runs on, given the clocks of the variables. */
  function EquationClock(eq: Equation, vc: ClockMap): Clock {
    var natural := NaturalClock(eq.rhs, vc);
    if natural.Some? then natural.value else Base
  }

  function EquationErrors(eq: Equation, vc: ClockMap): seq<ClockError> {
    var ck := EquationClock(eq, vc);
    (if eq.lhs in vc && vc[eq.lhs] != ck then [DefinedOnAnotherClock(eq.lhs)] else [])
    + Violations(eq.rhs, ck, vc)
  }

  datatype ClockInfo = ClockInfo(varClocks: ClockMap, equationClocks: seq<Clock>, chains: seq<Clock>, errors: seq<ClockError>)

  /** Inputs and outputs are on the base clock and only defined variables have another. */
  ghost predicate Declared(node: Node, vc: ClockMap) {
    && (forall x | x in Ports(node) :: x in vc && vc[x] == Base)
    && (forall x | x in vc :: x in Ports(node) || x in Defined(node.equations))
  }

  /** Every name the equations mention. */
  function Mentioned(eqs: seq<Equation>): set<string> {
    set i, x | 0 <= i < |eqs| && x in Names(eqs[i].rhs) :: x
  }

  /** Every clock found samples on variables the equations mention. */
  ghost predicate ConditionsMentioned(eqs: seq<Equation>, vc: ClockMap) {
    forall x | x in vc :: Conditions(vc[x]) <= Mentioned(eqs)
  }

  lemma {:induction false} NaturalConditions(e: Expr, vc: ClockMap, names: set<string>)
    requires Names(e) <= names && forall x | x in vc :: Conditions(vc[x]) <= names
    ensures NaturalClock(e, vc).Some? ==> Conditions(NaturalClock(e, vc).value) <= names
    decreases e
  {
    match e
    case Const(_) =>
    case Var(_) =>
    case Unary(_, a) => NaturalConditions(a, vc, names);
    case Binary(_, a, b) => NaturalConditions(a, vc, names); NaturalConditions(b, vc, names);
    case If(c, a, b) =>
      NaturalConditions(c, vc, names); NaturalConditions(a, vc, names); NaturalConditions(b, vc, names);
    case Pre(a) => NaturalConditions(a, vc, names);
    case Arrow(a, b) => NaturalConditions(a, vc, names); NaturalConditions(b, vc, names);
    case When(a, _, _) => NaturalConditions(a, vc, names);
    case Merge(_, a, b) => NaturalConditions(a, vc, names); NaturalConditions(b, vc, names);
    case Call(_, _, args) => FirstNaturalConditions(args, vc, names);
    case Condact(_, _, _, _, _) =>
  }

  lemma {:induction false} FirstNaturalConditions(args: seq<Expr>, vc: ClockMap, names: set<string>)
    requires NamesAll(args) <= names && forall x | x in vc :: Conditions(vc[x]) <= names
    ensures FirstNaturalClock(args, vc).Some? ==> Conditions(FirstNaturalClock(args, vc).value) <= names
    decreases args
  {
    if args != [] {
      NaturalConditions(args[0], vc, names);
      FirstNaturalConditions(args[1..], vc, names);
    }
  }

  /** The node's equations with the clocks they run on. */
  function ClockedEquations(node: Node, vc: ClockMap): (sys: seq<Clocked>)
    ensures |sys| == |node.equations|
  {
    seq(|node.equations|, i requires 0 <= i < |node.equations| =>
      var eq := node.equations[i];
      Clocked(eq, EquationClock(eq, vc), Default(VarType(node, eq.lhs))))
  }

  // ---------------------------------------------------------------- the discipline

  /** Every condition variable of the clock lives on the clock it samples. */
  predicate GroundedClock(ck: Clock, vc: ClockMap) {
    match ck
    case Base => true
    case On(c, _, p) => c in vc && vc[c] == p && GroundedClock(p, vc)
  }

  /** `e` runs on `ck`: Lustre's clock rules, every variable having a clock. */
  predicate Disciplined(e: Expr, ck: Clock, vc: ClockMap) {
    match e
    case Const(_) => true
    case Var(x) => x in vc && vc[x] == ck
    case Unary(_, a) => Disciplined(a, ck, vc)
    case Binary(_, a, b) => Disciplined(a, ck, vc) && Disciplined(b, ck, vc)
    case If(c, a, b) => Disciplined(c, ck, vc) && Disciplined(a, ck, vc) && Disciplined(b, ck, vc)
    case Pre(a) => Disciplined(a, ck, vc)
    case Arrow(a, b) => Disciplined(a, ck, vc) && Disciplined(b, ck, vc)
    case When(a, c, on) =>
      ck.On? && ck.clock == c && ck.on == on && c in vc && vc[c] == ck.parent && Disciplined(a, ck.parent, vc)
    case Merge(c, a, b) =>
      c in vc && vc[c] == ck && Disciplined(a, On(c, true, ck), vc) && Disciplined(b, On(c, false, ck), vc)
    case Call(_, _, args) => DisciplinedAll(args, ck, vc)
    case Condact(_, _, _, _, _) => false
  }

  predicate DisciplinedAll(args: seq<Expr>, ck: Clock, vc: ClockMap) {
    args == [] || (Disciplined(args[0], ck, vc) && DisciplinedAll(args[1..], ck, vc))
  }

  lemma DisciplinedArgs(args: seq<Expr>, ck: Clock, vc: ClockMap)
    requires DisciplinedAll(args, ck, vc)
    ensures forall i | 0 <= i < |args| :: Disciplined(args[i], ck, vc)
  {
    if args != [] {
      DisciplinedArgs(args[1..], ck, vc);
      assert forall i | 0 < i < |args| :: args[i] == args[1..][i-1];
    }
  }

  lemma {:induction false} DisciplinedNames(e: Expr, ck: Clock, vc: ClockMap)
    requires Disciplined(e, ck, vc)
    ensures Names(e) <= vc.Keys
    decreases e
  {
    match e
    case Const(_) =>
    case Var(_) =>
    case Unary(_, a) => DisciplinedNames(a, ck, vc);
    case Binary(_, a, b) => DisciplinedNames(a, ck, vc); DisciplinedNames(b, ck, vc);
    case If(c, a, b) => DisciplinedNames(c, ck, vc); DisciplinedNames(a, ck, vc); DisciplinedNames(b, ck, vc);
    case Pre(a) => DisciplinedNames(a, ck, vc);
    case Arrow(a, b) => DisciplinedNames(a, ck, vc); DisciplinedNames(b, ck, vc);
    case When(a, _, _) => DisciplinedNames(a, ck.parent, vc);
    case Merge(c, a, b) => DisciplinedNames(a, On(c, true, ck), vc); DisciplinedNames(b, On(c, false, ck), vc);
    case Call(_, _, args) => DisciplinedAllNames(args, ck, vc);
    case Condact(_, _, _, _, _) =>
  }

  lemma {:induction false} DisciplinedAllNames(args: seq<Expr>, ck: Clock, vc: ClockMap)
    requires DisciplinedAll(args, ck, vc)
    ensures NamesAll(args) <= vc.Keys
    decreases args
  {
    if args != [] {
      DisciplinedNames(args[0], ck, vc);
      DisciplinedAllNames(args[1..], ck, vc);
    }
  }

  lemma {:induction false} KnownViolationFree(e: Expr, ck: Clock, vc: ClockMap)
    requires Names(e) <= vc.Keys
    ensures Violations(e, ck, vc) == [] <==> Disciplined(e, ck, vc)
    decreases e
  {
    match e
    case Const(_) =>
    case Var(_) =>
    case Unary(_, a) => KnownViolationFree(a, ck, vc);
    case Binary(_, a, b) => KnownViolationFree(a, ck, vc); KnownViolationFree(b, ck, vc);
    case If(c, a, b) => KnownViolationFree(c, ck, vc); KnownViolationFree(a, ck, vc); KnownViolationFree(b, ck, vc);
    case Pre(a) => KnownViolationFree(a, ck, vc);
    case Arrow(a, b) => KnownViolationFree(a, ck, vc); KnownViolationFree(b, ck, vc);
    case When(a, _, _) => KnownViolationFree(a, Parent(ck), vc);
    case Merge(c, a, b) => KnownViolationFree(a, On(c, true, ck), vc); KnownViolationFree(b, On(c, false, ck), vc);
    case Call(_, _, args) => KnownViolationFreeAll(args, ck, vc);
    case Condact(_, _, _, _, _) =>
  }

  lemma {:induction false} KnownViolationFreeAll(args: seq<Expr>, ck: Clock, vc: ClockMap)
    requires NamesAll(args) <= vc.Keys
    ensures ViolationsAll(args, ck, vc) == [] <==> DisciplinedAll(args, ck, vc)
    decreases args
  {
    if args != [] {
      KnownViolationFree(args[0], ck, vc);
      KnownViolationFreeAll(args[1..], ck, vc);
    }
  }

  /** An expression obeys the clock rules exactly when the check reports nothing
      and every name has a clock, for the check accepts names without one. */
  lemma ViolationFree(e: Expr, ck: Clock, vc: ClockMap)
    ensures Disciplined(e, ck, vc) <==> Violations(e, ck, vc) == [] && Names(e) <= vc.Keys
  {
    if Names(e) <= vc.Keys {
      KnownViolationFree(e, ck, vc);
    } else if Disciplined(e, ck, vc) {
      DisciplinedNames(e, ck, vc);
    }
  }

  // ---------------------------------------------------------------- keys

  /** The identity under which a clock's state is stored. */
  function Key(ck: Clock): string {
    match ck
    case Base => "base"
    case On(c, on, p) => Key(p) + "/" + c + (if on then "+" else "-")
  }

  ghost predicate Identifiers(ck: Clock) {
    ck.On? ==> '/' !in ck.clock && Identifiers(ck.parent)
  }

  lemma {:induction false} LastSlash(a: string, b: string, c: string, d: string)
    requires a + "/" + c == b + "/" + d
    requires '/' !in c && '/' !in d
    ensures a == b && c == d
  {
    var s := a + "/" + c;
    assert s[|a|] == '/' && s[|b|] == (b + "/" + d)[|b|] == '/';
    if |a| == |b| {
      assert s[..|a|] == a && (b + "/" + d)[..|a|] == b;
      assert s[|a|+1..] == c && (b + "/" + d)[|a|+1..] == d;
    }
  }

  lemma SampledKey(ck: Clock)
    requires ck.On?
    ensures '/' in Key(ck)
  {
    assert Key(ck)[|Key(ck.parent)|] == '/';
  }

  lemma BaseKey(ck: Clock)
    ensures Key(ck) == "base" <==> ck == Base
  {
    if ck.On? { SampledKey(ck); }
  }

  /** Clocks with the same key are the same clock: state is never shared by two. */
  lemma {:induction false} KeyInjective(a: Clock, b: Clock)
    requires Identifiers(a) && Identifiers(b) && Key(a) == Key(b)
    ensures a == b
    decreases a
  {
    BaseKey(a);
    BaseKey(b);
    if a.On? && b.On? {
      var x := Key(a.parent) + "/" + a.clock;
      var y := Key(b.parent) + "/" + b.clock;
      assert Key(a)[|Key(a)|-1] == (if a.on then '+' else '-');
      assert Key(b)[|Key(b)|-1] == (if b.on then '+' else '-');
      assert Key(a)[..|Key(a)|-1] == x && Key(b)[..|Key(b)|-1] == y;
      LastSlash(Key(a.parent), Key(b.parent), a.clock, b.clock);
      KeyInjective(a.parent, b.parent);
    }
  }
}
