/** Finding the clocks of a node's variables: natural clocks by repeated passes
    over the equations, what the result is worth when nothing is reported, and
    when the right clocks are found. */
module Inference {
  import opened Lustre
  import opened Options
  import opened Graphs
  import opened Clocks
  import opened ClockChains

  // ---------------------------------------------------------------- the passes

  /** A local takes the natural clock of its equation, once it has one. */
  function Learn(node: Node, vc: ClockMap, eq: Equation): ClockMap {
    var natural := NaturalClock(eq.rhs, vc);
    if natural.Some? && eq.lhs !in Ports(node) then vc[eq.lhs := natural.value] else vc
  }

  function Pass(node: Node, vc: ClockMap, i: nat): ClockMap
    requires i <= |node.equations|
  {
    if i == 0 then vc else Learn(node, Pass(node, vc, i-1), node.equations[i-1])
  }

  /** What is known after `p` passes. */
  function After(node: Node, start: ClockMap, p: nat): ClockMap {
    if p == 0 then start else Pass(node, After(node, start, p-1), |node.equations|)
  }

  function PortClocks(node: Node): ClockMap {
    map x | x in Ports(node) :: Base
  }

  function Inferred(node: Node): ClockMap {
    After(node, PortClocks(node), |node.equations| + 1)
  }

  lemma {:induction false} Settled(node: Node, start: ClockMap, p: nat, q: nat)
    requires p <= q && Pass(node, After(node, start, p), |node.equations|) == After(node, start, p)
    ensures After(node, start, q) == After(node, start, p)
    decreases q
  {
    if p < q { Settled(node, start, p, q-1); }
  }

  lemma LearnDeclared(node: Node, vc: ClockMap, i: nat)
    requires Declared(node, vc) && ConditionsMentioned(node.equations, vc) && i < |node.equations|
    ensures Declared(node, Learn(node, vc, node.equations[i]))
    ensures ConditionsMentioned(node.equations, Learn(node, vc, node.equations[i]))
  {
    NaturalConditions(node.equations[i].rhs, vc, Mentioned(node.equations));
  }

  lemma {:induction false} PassDeclared(node: Node, vc: ClockMap, i: nat)
    requires Declared(node, vc) && ConditionsMentioned(node.equations, vc) && i <= |node.equations|
    ensures Declared(node, Pass(node, vc, i)) && ConditionsMentioned(node.equations, Pass(node, vc, i))
  {
    if i > 0 {
      PassDeclared(node, vc, i-1);
      LearnDeclared(node, Pass(node, vc, i-1), i-1);
    }
  }

  lemma {:induction false} AfterDeclared(node: Node, p: nat)
    ensures Declared(node, After(node, PortClocks(node), p)) && ConditionsMentioned(node.equations, After(node, PortClocks(node), p))
  {
    if p > 0 {
      AfterDeclared(node, p-1);
      PassDeclared(node, After(node, PortClocks(node), p-1), |node.equations|);
    }
  }

  ghost predicate NoErrors(node: Node, vc: ClockMap) {
    forall i | 0 <= i < |node.equations| :: EquationErrors(node.equations[i], vc) == []
  }

  /** The chains are the sampled clocks of temporal operators, each once, by key. */
  ghost predicate ChainsListed(node: Node, info: ClockInfo) {
    Elements(info.chains) == Chains(node, info.varClocks, |node.equations|) && Distinct(info.chains) && SortedByKey(info.chains)
  }

  /** The second phase: each equation's clock, and what is wrong with it. */
  method CheckEquations(node: Node, vc: ClockMap) returns (info: ClockInfo)
    ensures info.varClocks == vc && |info.equationClocks| == |node.equations|
    ensures forall i | 0 <= i < |node.equations| :: info.equationClocks[i] == EquationClock(node.equations[i], vc)
    ensures info.errors == [] <==> NoErrors(node, vc)
    ensures ChainsListed(node, info)
  {
    var clocks: seq<Clock> := [];
    var errors: seq<ClockError> := [];
    var found: set<Clock> := {};
    for i := 0 to |node.equations|
      invariant |clocks| == i
      invariant forall j | 0 <= j < i :: clocks[j] == EquationClock(node.equations[j], vc)
      invariant errors == [] <==> forall j | 0 <= j < i :: EquationErrors(node.equations[j], vc) == []
      invariant found == Chains(node, vc, i)
    {
      errors := errors + EquationErrors(node.equations[i], vc);
      clocks := clocks + [EquationClock(node.equations[i], vc)];
      found := found + set ck | ck in SiteClocks(node.equations[i].rhs, EquationClock(node.equations[i], vc), vc) && ck.On?;
    }
    var chains := SortChains(found);
    info := ClockInfo(vc, clocks, chains, errors);
  }

  /** Natural clocks by passes until one changes nothing, at most one more than
      there are equations; then the check of every equation. */
  method InferClocks(node: Node) returns (info: ClockInfo)
    ensures info.varClocks == Inferred(node)
    ensures Declared(node, info.varClocks) && ConditionsMentioned(node.equations, info.varClocks)
    ensures |info.equationClocks| == |node.equations|
    ensures forall i | 0 <= i < |node.equations| ::
              info.equationClocks[i] == EquationClock(node.equations[i], info.varClocks)
    ensures info.errors == [] <==> NoErrors(node, info.varClocks)
    ensures ChainsListed(node, info)
  {
    var vc: ClockMap := PortClocks(node);
    var n := |node.equations|;
    var pass := 0;
    var changed := true;
    while pass <= n && changed
      invariant pass <= n + 1 && vc == After(node, PortClocks(node), pass)
      invariant !changed ==> pass > 0 && After(node, PortClocks(node), pass-1) == vc
    {
      vc, changed := InferPass(node, vc);
      pass := pass + 1;
    }
    if !changed { Settled(node, PortClocks(node), pass-1, n+1); }
    AfterDeclared(node, n+1);
    info := CheckEquations(node, vc);
  }

  /** One pass over the equations. */
  method InferPass(node: Node, start: ClockMap) returns (vc: ClockMap, changed: bool)
    ensures vc == Pass(node, start, |node.equations|)
    ensures !changed ==> vc == start
  {
    vc := start;
    changed := false;
    for i := 0 to |node.equations|
      invariant vc == Pass(node, start, i)
      invariant !changed ==> vc == start
    {
      var eq := node.equations[i];
      var natural := NaturalClock(eq.rhs, vc);
      if natural.Some? && eq.lhs !in Ports(node) && Lookup(vc, eq.lhs) != natural {
        vc := vc[eq.lhs := natural.value];
        changed := true;
      }
    }
  }

  // ---------------------------------------------------------------- what is found cuts the right clock short

  /** `k` is `ck`, or a piece of it next to the stream: below some condition it
      goes on as if on the base clock. Its conditions are where `vc` says. */
  predicate Truncates(k: Clock, ck: Clock, vc: ClockMap) {
    match k
    case Base => true
    case On(c, on, p) =>
      ck.On? && ck.clock == c && ck.on == on && c in vc && vc[c] == ck.parent && Truncates(p, ck.parent, vc)
  }

  lemma {:induction false} TruncatesItself(ck: Clock, vc: ClockMap)
    ensures Truncates(ck, ck, vc) <==> GroundedClock(ck, vc)
  {
    if ck.On? { TruncatesItself(ck.parent, vc); }
  }

  ghost predicate Truncated(vc: ClockMap, ideal: ClockMap) {
    forall x | x in vc && x in ideal :: Truncates(vc[x], ideal[x], ideal)
  }

  /** `ideal` gives every variable a clock on which its equation obeys the rules. */
  ghost predicate Ideal(node: Node, ideal: ClockMap) {
    && (forall x | x in Ports(node) :: x in ideal && ideal[x] == Base)
    && (forall k | 0 <= k < |node.equations| :: Suits(node.equations[k], ideal))
  }

  predicate Suits(eq: Equation, ideal: ClockMap) {
    eq.lhs in ideal && Disciplined(eq.rhs, ideal[eq.lhs], ideal)
  }

  lemma {:induction false} NaturalTruncates(e: Expr, ck: Clock, vc: ClockMap, ideal: ClockMap)
    requires Disciplined(e, ck, ideal) && Truncated(vc, ideal)
    ensures NaturalClock(e, vc).Some? ==> Truncates(NaturalClock(e, vc).value, ck, ideal)
    decreases e
  {
    match e
    case Const(_) =>
    case Var(_) =>
    case Unary(_, a) => NaturalTruncates(a, ck, vc, ideal);
    case Binary(_, a, b) => NaturalTruncates(a, ck, vc, ideal); NaturalTruncates(b, ck, vc, ideal);
    case If(c, a, b) =>
      NaturalTruncates(c, ck, vc, ideal); NaturalTruncates(a, ck, vc, ideal); NaturalTruncates(b, ck, vc, ideal);
    case Pre(a) => NaturalTruncates(a, ck, vc, ideal);
    case Arrow(a, b) => NaturalTruncates(a, ck, vc, ideal); NaturalTruncates(b, ck, vc, ideal);
    case When(a, _, _) => NaturalTruncates(a, ck.parent, vc, ideal);
    case Merge(c, a, b) =>
      NaturalTruncates(a, On(c, true, ck), vc, ideal);
      NaturalTruncates(b, On(c, false, ck), vc, ideal);
    case Call(_, _, args) => FirstNaturalTruncates(args, ck, vc, ideal);
    case Condact(_, _, _, _, _) =>
  }

  lemma {:induction false} FirstNaturalTruncates(args: seq<Expr>, ck: Clock, vc: ClockMap, ideal: ClockMap)
    requires DisciplinedAll(args, ck, ideal) && Truncated(vc, ideal)
    ensures FirstNaturalClock(args, vc).Some? ==> Truncates(FirstNaturalClock(args, vc).value, ck, ideal)
    decreases args
  {
    if args != [] {
      NaturalTruncates(args[0], ck, vc, ideal);
      FirstNaturalTruncates(args[1..], ck, vc, ideal);
    }
  }

  lemma {:induction false} PassTruncated(node: Node, ideal: ClockMap, vc: ClockMap, i: nat)
    requires Ideal(node, ideal) && Truncated(vc, ideal) && i <= |node.equations|
    ensures Truncated(Pass(node, vc, i), ideal)
  {
    if i > 0 {
      PassTruncated(node, ideal, vc, i-1);
      assert Suits(node.equations[i-1], ideal);
      NaturalTruncates(node.equations[i-1].rhs, ideal[node.equations[i-1].lhs], Pass(node, vc, i-1), ideal);
    }
  }

  /** Whatever right assignment of clocks there is, the passes never find a
      clock that is not a truncation of the right one. */
  lemma {:induction false} AfterTruncated(node: Node, ideal: ClockMap, start: ClockMap, p: nat)
    requires Ideal(node, ideal) && Truncated(start, ideal)
    ensures Truncated(After(node, start, p), ideal)
  {
    if p > 0 {
      AfterTruncated(node, ideal, start, p-1);
      PassTruncated(node, ideal, After(node, start, p-1), |node.equations|);
    }
  }

  lemma PortsTruncated(node: Node, ideal: ClockMap)
    requires Ideal(node, ideal)
    ensures Truncated(PortClocks(node), ideal)
  {
  }

  /** If the clocks found suit the equations, each samples where its condition is. */
  lemma InferredGrounded(node: Node)
    requires Ideal(node, Inferred(node))
    ensures forall x | x in Inferred(node) :: GroundedClock(Inferred(node)[x], Inferred(node))
  {
    var vc := Inferred(node);
    AfterTruncated(node, vc, PortClocks(node), |node.equations| + 1);
    forall x | x in vc ensures GroundedClock(vc[x], vc) {
      TruncatesItself(vc[x], vc);
    }
  }

  // ---------------------------------------------------------------- completeness of inference

  /** What inference knows is right, and it misses only base-clocked variables of `names`. */
  ghost predicate Knows(names: set<string>, vc: ClockMap, ideal: ClockMap) {
    && (forall x | x in vc && x in ideal :: vc[x] == ideal[x])
    && (forall x | x in names && x in ideal && ideal[x] != Base :: x in vc)
  }

  /** The natural clock of a disciplined expression is its clock, or undetermined
      where only base-clocked variables and constants occur. */
  lemma {:induction false} NaturalOfDisciplined(e: Expr, ck: Clock, vc: ClockMap, ideal: ClockMap)
    requires Disciplined(e, ck, ideal) && Knows(Names(e), vc, ideal)
    ensures NaturalClock(e, vc).Some? ==> NaturalClock(e, vc).value == ck
    ensures ck != Base && Names(e) != {} ==> NaturalClock(e, vc).Some?
    decreases e
  {
    match e
    case Const(_) =>
    case Var(_) =>
    case Unary(_, a) => NaturalOfDisciplined(a, ck, vc, ideal);
    case Binary(_, a, b) =>
      NaturalOfDisciplined(a, ck, vc, ideal);
      NaturalOfDisciplined(b, ck, vc, ideal);
    case If(c, a, b) =>
      NaturalOfDisciplined(c, ck, vc, ideal);
      NaturalOfDisciplined(a, ck, vc, ideal);
      NaturalOfDisciplined(b, ck, vc, ideal);
    case Pre(a) => NaturalOfDisciplined(a, ck, vc, ideal);
    case Arrow(a, b) =>
      NaturalOfDisciplined(a, ck, vc, ideal);
      NaturalOfDisciplined(b, ck, vc, ideal);
    case When(a, _, _) => NaturalOfDisciplined(a, ck.parent, vc, ideal);
    case Merge(c, a, b) =>
      NaturalOfDisciplined(a, On(c, true, ck), vc, ideal);
      NaturalOfDisciplined(b, On(c, false, ck), vc, ideal);
    case Call(_, _, args) => FirstNaturalOfDisciplined(args, ck, vc, ideal);
    case Condact(_, _, _, _, _) =>
  }

  lemma {:induction false} FirstNaturalOfDisciplined(args: seq<Expr>, ck: Clock, vc: ClockMap, ideal: ClockMap)
    requires DisciplinedAll(args, ck, ideal) && Knows(NamesAll(args), vc, ideal)
    ensures FirstNaturalClock(args, vc).Some? ==> FirstNaturalClock(args, vc).value == ck
    ensures ck != Base && NamesAll(args) != {} ==> FirstNaturalClock(args, vc).Some?
    decreases args
  {
    if args != [] {
      NaturalOfDisciplined(args[0], ck, vc, ideal);
      FirstNaturalOfDisciplined(args[1..], ck, vc, ideal);
    }
  }

  /** Nothing is reported where everything known is right. */
  lemma {:induction false} DisciplinedIsQuiet(e: Expr, ck: Clock, vc: ClockMap, ideal: ClockMap)
    requires Disciplined(e, ck, ideal) && Knows({}, vc, ideal)
    ensures Violations(e, ck, vc) == []
    decreases e
  {
    match e
    case Const(_) =>
    case Var(_) =>
    case Unary(_, a) => DisciplinedIsQuiet(a, ck, vc, ideal);
    case Binary(_, a, b) => DisciplinedIsQuiet(a, ck, vc, ideal); DisciplinedIsQuiet(b, ck, vc, ideal);
    case If(c, a, b) =>
      DisciplinedIsQuiet(c, ck, vc, ideal); DisciplinedIsQuiet(a, ck, vc, ideal); DisciplinedIsQuiet(b, ck, vc, ideal);
    case Pre(a) => DisciplinedIsQuiet(a, ck, vc, ideal);
    case Arrow(a, b) => DisciplinedIsQuiet(a, ck, vc, ideal); DisciplinedIsQuiet(b, ck, vc, ideal);
    case When(a, _, _) => DisciplinedIsQuiet(a, ck.parent, vc, ideal);
    case Merge(c, a, b) =>
      DisciplinedIsQuiet(a, On(c, true, ck), vc, ideal); DisciplinedIsQuiet(b, On(c, false, ck), vc, ideal);
    case Call(_, _, args) => DisciplinedAllQuiet(args, ck, vc, ideal);
    case Condact(_, _, _, _, _) =>
  }

  lemma {:induction false} DisciplinedAllQuiet(args: seq<Expr>, ck: Clock, vc: ClockMap, ideal: ClockMap)
    requires DisciplinedAll(args, ck, ideal) && Knows({}, vc, ideal)
    ensures ViolationsAll(args, ck, vc) == []
    decreases args
  {
    if args != [] {
      DisciplinedIsQuiet(args[0], ck, vc, ideal);
      DisciplinedAllQuiet(args[1..], ck, vc, ideal);
    }
  }

  /** The equation obeys the rules on the clock `ideal` gives its variable, and
      mentions a variable unless that is the base clock. */
  predicate Obeys(eq: Equation, ideal: ClockMap) {
    && eq.lhs in ideal && Names(eq.rhs) <= ideal.Keys
    && Disciplined(eq.rhs, ideal[eq.lhs], ideal)
    && (ideal[eq.lhs] != Base ==> Names(eq.rhs) != {})
  }

  /** Every sampled variable mentioned by the k-th equation is defined before it. */
  ghost predicate SampledBefore(eqs: seq<Equation>, ideal: ClockMap, k: nat)
    requires k < |eqs|
  {
    forall x | x in Names(eqs[k].rhs) && x in ideal && ideal[x] != Base :: x in Defined(eqs[..k])
  }

  /** `ideal` is a right assignment of clocks to the node's variables, the
      equations of sampled variables coming before their uses. */
  ghost predicate Clocking(node: Node, ideal: ClockMap) {
    && (forall x | x in Ports(node) :: x in ideal && ideal[x] == Base)
    && (forall k | 0 <= k < |node.equations| ::
          Obeys(node.equations[k], ideal) && SampledBefore(node.equations, ideal, k))
  }

  /** Everything sampled that the first `k` equations define is known. */
  ghost predicate KnowsUpTo(node: Node, ideal: ClockMap, vc: ClockMap, k: nat)
    requires k <= |node.equations|
  {
    Knows(Defined(node.equations[..k]), vc, ideal)
  }

  lemma LearnKnows(node: Node, ideal: ClockMap, vc: ClockMap, k: nat)
    requires k < |node.equations| && Clocking(node, ideal) && KnowsUpTo(node, ideal, vc, k)
    ensures KnowsUpTo(node, ideal, Learn(node, vc, node.equations[k]), k+1)
  {
    var eq := node.equations[k];
    assert Obeys(eq, ideal) && SampledBefore(node.equations, ideal, k);
    NaturalOfDisciplined(eq.rhs, ideal[eq.lhs], vc, ideal);
    forall x | x in Defined(node.equations[..k+1]) ensures x in Defined(node.equations[..k]) || x == eq.lhs {
      var i :| 0 <= i <= k && node.equations[..k+1][i].lhs == x;
      assert i < k ==> node.equations[..k][i].lhs == x;
    }
  }

  lemma ForgetKnown(node: Node, ideal: ClockMap, vc: ClockMap, k: nat)
    requires k <= |node.equations| && KnowsUpTo(node, ideal, vc, k)
    ensures KnowsUpTo(node, ideal, vc, 0)
  {
  }

  lemma KnownIsQuiet(node: Node, ideal: ClockMap, vc: ClockMap)
    requires Clocking(node, ideal) && KnowsUpTo(node, ideal, vc, |node.equations|)
    ensures NoErrors(node, vc)
  {
    var eqs := node.equations;
    forall k | 0 <= k < |eqs| ensures EquationErrors(eqs[k], vc) == [] {
      assert Obeys(eqs[k], ideal) && SampledBefore(eqs, ideal, k);
      assert Defined(eqs[..k]) <= Defined(eqs) && eqs[..|eqs|] == eqs;
      NaturalOfDisciplined(eqs[k].rhs, ideal[eqs[k].lhs], vc, ideal);
      DisciplinedIsQuiet(eqs[k].rhs, ideal[eqs[k].lhs], vc, ideal);
    }
  }

  /** The clock found for an equation is the right one. */
  lemma FoundClock(node: Node, ideal: ClockMap, vc: ClockMap, k: nat)
    requires Clocking(node, ideal) && KnowsUpTo(node, ideal, vc, |node.equations|) && k < |node.equations|
    ensures node.equations[k].lhs in ideal && EquationClock(node.equations[k], vc) == ideal[node.equations[k].lhs]
  {
    var eqs := node.equations;
    assert Obeys(eqs[k], ideal) && SampledBefore(eqs, ideal, k);
    assert Defined(eqs[..k]) <= Defined(eqs) && eqs[..|eqs|] == eqs;
    NaturalOfDisciplined(eqs[k].rhs, ideal[eqs[k].lhs], vc, ideal);
  }


  lemma {:induction false} PassKnows(node: Node, ideal: ClockMap, vc: ClockMap, i: nat)
    requires Clocking(node, ideal) && i <= |node.equations| && KnowsUpTo(node, ideal, vc, 0)
    ensures KnowsUpTo(node, ideal, Pass(node, vc, i), i)
  {
    hide Clocking, KnowsUpTo;
    if i > 0 {
      PassKnows(node, ideal, vc, i-1);
      LearnKnows(node, ideal, Pass(node, vc, i-1), i-1);
    }
  }

  lemma {:induction false} AfterKnows(node: Node, ideal: ClockMap, p: nat)
    requires Clocking(node, ideal)
    ensures KnowsUpTo(node, ideal, After(node, PortClocks(node), p), if p == 0 then 0 else |node.equations|)
  {
    if p > 0 {
      AfterKnows(node, ideal, p-1);
      ForgetKnown(node, ideal, After(node, PortClocks(node), p-1), if p == 1 then 0 else |node.equations|);
      PassKnows(node, ideal, After(node, PortClocks(node), p-1), |node.equations|);
    }
  }

  /** A node with a right assignment of clocks, sampled variables first, is not
      reported, and the clocks found are right. */
  lemma InOrderFound(node: Node, ideal: ClockMap)
    requires Clocking(node, ideal)
    ensures KnowsUpTo(node, ideal, Inferred(node), |node.equations|) && NoErrors(node, Inferred(node))
  {
    AfterKnows(node, ideal, |node.equations| + 1);
    KnownIsQuiet(node, ideal, Inferred(node));
  }

  // ---------------------------------------------------------------- any order of equations

  /** Some operand has a natural clock although the variables of `skip` have none yet. */
  predicate Determined(e: Expr, skip: set<string>) {
    match e
    case Const(_) => false
    case Var(x) => x !in skip
    case Unary(_, a) => Determined(a, skip)
    case Binary(_, a, b) => Determined(a, skip) || Determined(b, skip)
    case If(c, a, b) => Determined(c, skip) || Determined(a, skip) || Determined(b, skip)
    case Pre(a) => Determined(a, skip)
    case Arrow(a, b) => Determined(a, skip) || Determined(b, skip)
    case When(_, _, _) => true
    case Merge(_, _, _) => true
    case Call(_, _, args) => DeterminedAny(args, skip)
    case Condact(_, _, _, _, _) => false
  }

  predicate DeterminedAny(args: seq<Expr>, skip: set<string>) {
    args != [] && (Determined(args[0], skip) || DeterminedAny(args[1..], skip))
  }

  /** The variable whose clock decides the natural clock of `e`, which runs on
      `ck`: that of the first determined operand. None is needed for an operand
      sampled from the base clock. */
  function Lead(e: Expr, ck: Clock, skip: set<string>): Option<string> {
    match e
    case Const(_) => None
    case Var(x) => if x in skip then None else Some(x)
    case Unary(_, a) => Lead(a, ck, skip)
    case Binary(_, a, b) => if Determined(a, skip) then Lead(a, ck, skip) else Lead(b, ck, skip)
    case If(c, a, b) =>
      if Determined(c, skip) then Lead(c, ck, skip)
      else if Determined(a, skip) then Lead(a, ck, skip)
      else Lead(b, ck, skip)
    case Pre(a) => Lead(a, ck, skip)
    case Arrow(a, b) => if Determined(a, skip) then Lead(a, ck, skip) else Lead(b, ck, skip)
    case When(a, c, _) =>
      if Parent(ck) == Base then None
      else if Determined(a, skip) then Lead(a, Parent(ck), skip)
      else Some(c)
    case Merge(c, _, _) => Some(c)
    case Call(_, _, args) => LeadAny(args, ck, skip)
    case Condact(_, _, _, _, _) => None
  }

  function LeadAny(args: seq<Expr>, ck: Clock, skip: set<string>): Option<string> {
    if args == [] then None
    else if Determined(args[0], skip) then Lead(args[0], ck, skip)
    else LeadAny(args[1..], ck, skip)
  }

  ghost predicate RightAt(vc: ClockMap, ideal: ClockMap, x: string) {
    x in vc && x in ideal && vc[x] == ideal[x]
  }

  ghost predicate LeadRight(lead: Option<string>, vc: ClockMap, ideal: ClockMap) {
    lead.Some? ==> RightAt(vc, ideal, lead.value)
  }

  ghost predicate SkipRight(skip: set<string>, vc: ClockMap, ideal: ClockMap) {
    forall x | x in skip && x in vc :: RightAt(vc, ideal, x)
  }

  lemma {:induction false} UndeterminedLead(e: Expr, ck: Clock, skip: set<string>)
    ensures !Determined(e, skip) ==> Lead(e, ck, skip) == None
    decreases e
  {
    match e
    case Const(_) =>
    case Var(_) =>
    case Unary(_, a) => UndeterminedLead(a, ck, skip);
    case Binary(_, a, b) => UndeterminedLead(a, ck, skip); UndeterminedLead(b, ck, skip);
    case If(c, a, b) =>
      UndeterminedLead(c, ck, skip); UndeterminedLead(a, ck, skip); UndeterminedLead(b, ck, skip);
    case Pre(a) => UndeterminedLead(a, ck, skip);
    case Arrow(a, b) => UndeterminedLead(a, ck, skip); UndeterminedLead(b, ck, skip);
    case When(_, _, _) =>
    case Merge(_, _, _) =>
    case Call(_, _, args) => UndeterminedLeadAny(args, ck, skip);
    case Condact(_, _, _, _, _) =>
  }

  lemma {:induction false} UndeterminedLeadAny(args: seq<Expr>, ck: Clock, skip: set<string>)
    ensures !DeterminedAny(args, skip) ==> LeadAny(args, ck, skip) == None
    decreases args
  {
    if args != [] {
      UndeterminedLead(args[0], ck, skip);
      UndeterminedLeadAny(args[1..], ck, skip);
    }
  }

  /** Where the lead has its right clock, the natural clock is the right one,
      whatever is wrong or unknown elsewhere. */
  lemma {:induction false} LeadDecides(e: Expr, ck: Clock, vc: ClockMap, ideal: ClockMap, skip: set<string>)
    requires Disciplined(e, ck, ideal) && Truncated(vc, ideal) && ck != Base
    requires LeadRight(Lead(e, ck, skip), vc, ideal) && SkipRight(skip, vc, ideal)
    ensures NaturalClock(e, vc).Some? ==> NaturalClock(e, vc).value == ck
    ensures Determined(e, skip) ==> NaturalClock(e, vc).Some?
    decreases e
  {
    match e
    case Const(_) =>
    case Var(_) =>
    case Unary(_, a) => LeadDecides(a, ck, vc, ideal, skip);
    case Binary(_, a, b) =>
      UndeterminedLead(a, ck, skip);
      LeadDecides(a, ck, vc, ideal, skip);
      if !Determined(a, skip) { LeadDecides(b, ck, vc, ideal, skip); }
    case If(c, a, b) =>
      UndeterminedLead(c, ck, skip);
      LeadDecides(c, ck, vc, ideal, skip);
      if !Determined(c, skip) {
        UndeterminedLead(a, ck, skip);
        LeadDecides(a, ck, vc, ideal, skip);
        if !Determined(a, skip) { LeadDecides(b, ck, vc, ideal, skip); }
      }
    case Pre(a) => LeadDecides(a, ck, vc, ideal, skip);
    case Arrow(a, b) =>
      UndeterminedLead(a, ck, skip);
      LeadDecides(a, ck, vc, ideal, skip);
      if !Determined(a, skip) { LeadDecides(b, ck, vc, ideal, skip); }
    case When(a, _, _) =>
      if ck.parent == Base {
        NaturalTruncates(a, Base, vc, ideal);
      } else {
        UndeterminedLead(a, ck.parent, skip);
        LeadDecides(a, ck.parent, vc, ideal, skip);
      }
    case Merge(_, _, _) =>
    case Call(_, _, args) => LeadAnyDecides(args, ck, vc, ideal, skip);
    case Condact(_, _, _, _, _) =>
  }

  lemma {:induction false} LeadAnyDecides(args: seq<Expr>, ck: Clock, vc: ClockMap, ideal: ClockMap, skip: set<string>)
    requires DisciplinedAll(args, ck, ideal) && Truncated(vc, ideal) && ck != Base
    requires LeadRight(LeadAny(args, ck, skip), vc, ideal) && SkipRight(skip, vc, ideal)
    ensures FirstNaturalClock(args, vc).Some? ==> FirstNaturalClock(args, vc).value == ck
    ensures DeterminedAny(args, skip) ==> FirstNaturalClock(args, vc).Some?
    decreases args
  {
    if args != [] {
      UndeterminedLead(args[0], ck, skip);
      LeadDecides(args[0], ck, vc, ideal, skip);
      if !Determined(args[0], skip) { LeadAnyDecides(args[1..], ck, vc, ideal, skip); }
    }
  }

  // ---------------------------------------------------------------- operands that are never wrong

  /** If `e` is given a clock it is the right one, `ck`, provided the variables of
      `sure` that are known have theirs. */
  predicate Sure(e: Expr, ck: Clock, sure: set<string>) {
    match e
    case Const(_) => true
    case Var(x) => x in sure
    case Unary(_, a) => Sure(a, ck, sure)
    case Binary(_, a, b) => Sure(a, ck, sure) && Sure(b, ck, sure)
    case If(c, a, b) => Sure(c, ck, sure) && Sure(a, ck, sure) && Sure(b, ck, sure)
    case Pre(a) => Sure(a, ck, sure)
    case Arrow(a, b) => Sure(a, ck, sure) && Sure(b, ck, sure)
    case When(_, _, _) => Parent(ck) == Base
    case Merge(c, a, b) => c in sure && Sure(a, On(c, true, ck), sure) && Sure(b, On(c, false, ck), sure)
    case Call(_, _, args) => SureAll(args, ck, sure)
    case Condact(_, _, _, _, _) => true
  }

  predicate SureAll(args: seq<Expr>, ck: Clock, sure: set<string>) {
    args == [] || (Sure(args[0], ck, sure) && SureAll(args[1..], ck, sure))
  }

  /** `e` is given a clock once the variables of `known` have one. */
  predicate Seen(e: Expr, known: set<string>) {
    match e
    case Const(_) => false
    case Var(x) => x in known
    case Unary(_, a) => Seen(a, known)
    case Binary(_, a, b) => Seen(a, known) || Seen(b, known)
    case If(c, a, b) => Seen(c, known) || Seen(a, known) || Seen(b, known)
    case Pre(a) => Seen(a, known)
    case Arrow(a, b) => Seen(a, known) || Seen(b, known)
    case When(_, _, _) => true
    case Merge(c, a, b) => c in known || Seen(a, known) || Seen(b, known)
    case Call(_, _, args) => SeenAny(args, known)
    case Condact(_, _, _, _, _) => false
  }

  predicate SeenAny(args: seq<Expr>, known: set<string>) {
    args != [] && (Seen(args[0], known) || SeenAny(args[1..], known))
  }

  lemma {:induction false} SureDecides(e: Expr, ck: Clock, vc: ClockMap, ideal: ClockMap, sure: set<string>)
    requires Disciplined(e, ck, ideal) && Truncated(vc, ideal) && ck != Base
    requires Sure(e, ck, sure) && SkipRight(sure, vc, ideal)
    ensures NaturalClock(e, vc).Some? ==> NaturalClock(e, vc).value == ck
    ensures Seen(e, vc.Keys) ==> NaturalClock(e, vc).Some?
    decreases e
  {
    match e
    case Const(_) =>
    case Var(_) =>
    case Unary(_, a) => SureDecides(a, ck, vc, ideal, sure);
    case Binary(_, a, b) => SureDecides(a, ck, vc, ideal, sure); SureDecides(b, ck, vc, ideal, sure);
    case If(c, a, b) =>
      SureDecides(c, ck, vc, ideal, sure); SureDecides(a, ck, vc, ideal, sure); SureDecides(b, ck, vc, ideal, sure);
    case Pre(a) => SureDecides(a, ck, vc, ideal, sure);
    case Arrow(a, b) => SureDecides(a, ck, vc, ideal, sure); SureDecides(b, ck, vc, ideal, sure);
    case When(a, _, _) => NaturalTruncates(a, Base, vc, ideal);
    case Merge(c, a, b) =>
      SureDecides(a, On(c, true, ck), vc, ideal, sure);
      SureDecides(b, On(c, false, ck), vc, ideal, sure);
    case Call(_, _, args) => SureAllDecide(args, ck, vc, ideal, sure);
    case Condact(_, _, _, _, _) =>
  }

  lemma {:induction false} SureAllDecide(args: seq<Expr>, ck: Clock, vc: ClockMap, ideal: ClockMap, sure: set<string>)
    requires DisciplinedAll(args, ck, ideal) && Truncated(vc, ideal) && ck != Base
    requires SureAll(args, ck, sure) && SkipRight(sure, vc, ideal)
    ensures FirstNaturalClock(args, vc).Some? ==> FirstNaturalClock(args, vc).value == ck
    ensures SeenAny(args, vc.Keys) ==> FirstNaturalClock(args, vc).Some?
    decreases args
  {
    if args != [] {
      SureDecides(args[0], ck, vc, ideal, sure);
      SureAllDecide(args[1..], ck, vc, ideal, sure);
    }
  }

  lemma {:induction false} SeenMore(e: Expr, few: set<string>, more: set<string>)
    requires few <= more && Seen(e, few)
    ensures Seen(e, more)
    decreases e
  {
    match e
    case Const(_) =>
    case Var(_) =>
    case Unary(_, a) => SeenMore(a, few, more);
    case Binary(_, a, b) => if Seen(a, few) { SeenMore(a, few, more); } else { SeenMore(b, few, more); }
    case If(c, a, b) =>
      if Seen(c, few) { SeenMore(c, few, more); } else if Seen(a, few) { SeenMore(a, few, more); } else { SeenMore(b, few, more); }
    case Pre(a) => SeenMore(a, few, more);
    case Arrow(a, b) => if Seen(a, few) { SeenMore(a, few, more); } else { SeenMore(b, few, more); }
    case When(_, _, _) =>
    case Merge(c, a, b) =>
      if Seen(a, few) { SeenMore(a, few, more); } else if Seen(b, few) { SeenMore(b, few, more); }
    case Call(_, _, args) => SeenAnyMore(args, few, more);
    case Condact(_, _, _, _, _) =>
  }

  lemma {:induction false} SeenAnyMore(args: seq<Expr>, few: set<string>, more: set<string>)
    requires few <= more && SeenAny(args, few)
    ensures SeenAny(args, more)
    decreases args
  {
    if Seen(args[0], few) { SeenMore(args[0], few, more); } else { SeenAnyMore(args[1..], few, more); }
  }

  // ---------------------------------------------------------------- when every lead is found

  ghost predicate Sampled(eqs: seq<Equation>, ideal: ClockMap, k: nat)
    requires k < |eqs|
  {
    eqs[k].lhs in ideal && ideal[eqs[k].lhs] != Base
  }

  /** The right clock is found the first time the equation is looked at: passing
      over its own variable, its lead is found promptly by an earlier equation. */
  ghost predicate Prompt(eqs: seq<Equation>, ideal: ClockMap, k: nat)
    requires k < |eqs|
    decreases k
  {
    var eq := eqs[k];
    && Sampled(eqs, ideal, k)
    && Determined(eq.rhs, {eq.lhs})
    && var lead := Lead(eq.rhs, ideal[eq.lhs], {eq.lhs});
       (lead.Some? ==> exists j: nat | j < k :: eqs[j].lhs == lead.value && Prompt(eqs, ideal, j))
  }

  /** A sampled equation waits for the equation of its lead, unless it is prompt
      and nothing was known `atFirst` but the ports. */
  ghost function Awaited(eqs: seq<Equation>, ideal: ClockMap, atFirst: bool, k: nat): set<nat>
    requires k < |eqs|
  {
    if !Sampled(eqs, ideal, k) || (atFirst && Prompt(eqs, ideal, k)) then {}
    else set j | j in UpTo(|eqs|) && Lead(eqs[k].rhs, ideal[eqs[k].lhs], {}) == Some(eqs[j].lhs)
  }

  ghost function LeadGraph(eqs: seq<Equation>, ideal: ClockMap, atFirst: bool): (g: Graph<nat>)
    ensures g.Keys == UpTo(|eqs|)
  {
    map k | k in UpTo(|eqs|) :: Awaited(eqs, ideal, atFirst, k)
  }

  ghost predicate AllDetermined(eqs: seq<Equation>, ideal: ClockMap) {
    forall k | 0 <= k < |eqs| && Sampled(eqs, ideal, k) :: Determined(eqs[k].rhs, {})
  }

  /** `ideal` is right for the node; each variable has one definition, and the
      sampled ones do have one. */
  ghost predicate Right(node: Node, ideal: ClockMap) {
    && Ideal(node, ideal) && UniqueDefinitions(node.equations)
    && (forall x | x in ideal && ideal[x] != Base :: x in Defined(node.equations))
  }

  /** The definitions of sampled variables mention a variable, and none waits
      for itself. */
  ghost predicate NoneWaits(node: Node, ideal: ClockMap, atFirst: bool) {
    && Right(node, ideal)
    && AllDetermined(node.equations, ideal) && Acyclic(LeadGraph(node.equations, ideal, atFirst))
  }

  /** The variables of `sure` are sampled and never have a wrong clock. */
  ghost predicate NeverWrong(eqs: seq<Equation>, ideal: ClockMap, sure: set<string>) {
    && (forall x | x in sure :: x in ideal && ideal[x] != Base)
    && (forall k | 0 <= k < |eqs| && eqs[k].lhs in sure :: Sure(eqs[k].rhs, ideal[eqs[k].lhs], sure))
  }

  /** The sampled variables that the first `q` equations of `order` define. */
  ghost function KnownBy(eqs: seq<Equation>, ideal: ClockMap, order: seq<nat>, q: nat): set<string> {
    set r | 0 <= r < q && r < |order| && order[r] < |eqs| && Sampled(eqs, ideal, order[r]) :: eqs[order[r]].lhs
  }

  ghost predicate LeadBefore(eqs: seq<Equation>, ideal: ClockMap, order: seq<nat>, q: nat)
    requires q < |order| && order[q] < |eqs| && Sampled(eqs, ideal, order[q])
  {
    var eq := eqs[order[q]];
    var lead := Lead(eq.rhs, ideal[eq.lhs], {});
    lead.Some? ==> lead.value in KnownBy(eqs, ideal, order, q)
  }

  /** The q-th equation in `order` finds its clock when those before it have:
      it is prompt, its lead is among them, or it is never wrong and they are
      enough for it to be given a clock. */
  ghost predicate SettlesAt(eqs: seq<Equation>, ideal: ClockMap, atFirst: bool, sure: set<string>, order: seq<nat>, q: nat)
    requires q < |order|
  {
    order[q] < |eqs| &&
    (Sampled(eqs, ideal, order[q]) ==>
      || (atFirst && Prompt(eqs, ideal, order[q]))
      || LeadBefore(eqs, ideal, order, q)
      || (eqs[order[q]].lhs in sure && Seen(eqs[order[q]].rhs, KnownBy(eqs, ideal, order, q))))
  }

  ghost predicate Settles(eqs: seq<Equation>, ideal: ClockMap, atFirst: bool, sure: set<string>, order: seq<nat>) {
    && Distinct(order) && Elements(order) == UpTo(|eqs|)
    && (atFirst || sure == {}) && NeverWrong(eqs, ideal, sure)
    && forall q | 0 <= q < |order| :: SettlesAt(eqs, ideal, atFirst, sure, order, q)
  }

  /** Some order of the equations and some set of never wrong variables settle
      the clocks one after the other. */
  ghost predicate Findable(node: Node, ideal: ClockMap) {
    && Right(node, ideal) && AllDetermined(node.equations, ideal)
    && exists sure, order :: Settles(node.equations, ideal, true, sure, order)
  }

  /** The k-th equation's variable has its right clock, unless it is the base clock. */
  ghost predicate Found(eqs: seq<Equation>, ideal: ClockMap, vc: ClockMap, k: nat)
    requires k < |eqs|
  {
    Sampled(eqs, ideal, k) ==> RightAt(vc, ideal, eqs[k].lhs)
  }

  ghost predicate AllRight(node: Node, ideal: ClockMap, vc: ClockMap) {
    forall k | 0 <= k < |node.equations| :: Found(node.equations, ideal, vc, k)
  }

  /** The k-th equation has been looked at `p` times, or once more, when its turn
      in `order` has come. */
  ghost predicate Due(eqs: seq<Equation>, ideal: ClockMap, atFirst: bool, order: seq<nat>, p: nat, i: nat, k: nat)
    requires k < |eqs|
  {
    || (atFirst && Prompt(eqs, ideal, k) && (p > 0 || k < i))
    || exists q: nat | q < |order| :: order[q] == k && (q < p || (q == p && k < i))
  }

  ghost predicate Underway(node: Node, ideal: ClockMap, atFirst: bool, sure: set<string>, order: seq<nat>, p: nat, i: nat, vc: ClockMap) {
    && Truncated(vc, ideal) && SkipRight(sure, vc, ideal)
    && (forall k: nat | k < |node.equations| && Due(node.equations, ideal, atFirst, order, p, i, k) ::
          Found(node.equations, ideal, vc, k))
    && (atFirst && p == 0 ==> forall k: nat | i <= k < |node.equations| && Sampled(node.equations, ideal, k) ::
          node.equations[k].lhs !in vc)
  }

  lemma {:induction false} LeadSampled(e: Expr, ck: Clock, skip: set<string>, ideal: ClockMap)
    requires Disciplined(e, ck, ideal) && ck != Base
    ensures var lead := Lead(e, ck, skip); lead.Some? ==> lead.value in ideal && ideal[lead.value] != Base
    decreases e
  {
    match e
    case Const(_) =>
    case Var(_) =>
    case Unary(_, a) => LeadSampled(a, ck, skip, ideal);
    case Binary(_, a, b) => LeadSampled(a, ck, skip, ideal); LeadSampled(b, ck, skip, ideal);
    case If(c, a, b) =>
      LeadSampled(c, ck, skip, ideal); LeadSampled(a, ck, skip, ideal); LeadSampled(b, ck, skip, ideal);
    case Pre(a) => LeadSampled(a, ck, skip, ideal);
    case Arrow(a, b) => LeadSampled(a, ck, skip, ideal); LeadSampled(b, ck, skip, ideal);
    case When(a, _, _) => if ck.parent != Base { LeadSampled(a, ck.parent, skip, ideal); }
    case Merge(_, _, _) =>
    case Call(_, _, args) => LeadAnySampled(args, ck, skip, ideal);
    case Condact(_, _, _, _, _) =>
  }

  lemma {:induction false} LeadAnySampled(args: seq<Expr>, ck: Clock, skip: set<string>, ideal: ClockMap)
    requires DisciplinedAll(args, ck, ideal) && ck != Base
    ensures var lead := LeadAny(args, ck, skip); lead.Some? ==> lead.value in ideal && ideal[lead.value] != Base
    decreases args
  {
    if args != [] {
      LeadSampled(args[0], ck, skip, ideal);
      LeadAnySampled(args[1..], ck, skip, ideal);
    }
  }

  lemma PromptFinds(node: Node, ideal: ClockMap, sure: set<string>, order: seq<nat>, p: nat, i: nat, vc: ClockMap)
    requires Right(node, ideal) && Underway(node, ideal, true, sure, order, p, i, vc) && i < |node.equations|
    requires Prompt(node.equations, ideal, i)
    ensures NaturalClock(node.equations[i].rhs, vc) == Some(ideal[node.equations[i].lhs])
  {
    hide UniqueDefinitions;
    var eqs := node.equations;
    var eq := eqs[i];
    var ck := ideal[eq.lhs];
    assert Suits(eq, ideal);
    var lead := Lead(eq.rhs, ck, {eq.lhs});
    if lead.Some? {
      var j: nat :| j < i && eqs[j].lhs == lead.value && Prompt(eqs, ideal, j);
      assert Due(eqs, ideal, true, order, p, i, j);
      assert Found(eqs, ideal, vc, j);
    }
    if p > 0 {
      assert Due(eqs, ideal, true, order, p, i, i);
      assert Found(eqs, ideal, vc, i);
    }
    LeadDecides(eq.rhs, ck, vc, ideal, {eq.lhs});
  }

  /** Those before the q-th equation have their clocks when its turn comes. */
  lemma KnownFound(node: Node, ideal: ClockMap, atFirst: bool, sure: set<string>, order: seq<nat>, p: nat, i: nat, vc: ClockMap, q: nat, x: string)
    requires Underway(node, ideal, atFirst, sure, order, p, i, vc)
    requires q <= p && x in KnownBy(node.equations, ideal, order, q)
    ensures RightAt(vc, ideal, x)
  {
    var eqs := node.equations;
    var r :| 0 <= r < q && r < |order| && order[r] < |eqs| && Sampled(eqs, ideal, order[r]) && eqs[order[r]].lhs == x;
    assert Due(eqs, ideal, atFirst, order, p, i, order[r]);
    assert Found(eqs, ideal, vc, order[r]);
  }

  lemma SettledFinds(node: Node, ideal: ClockMap, atFirst: bool, sure: set<string>, order: seq<nat>, p: nat, i: nat, vc: ClockMap, q: nat)
    requires Right(node, ideal) && AllDetermined(node.equations, ideal) && NeverWrong(node.equations, ideal, sure)
    requires Underway(node, ideal, atFirst, sure, order, p, i, vc) && i < |node.equations|
    requires Sampled(node.equations, ideal, i) && !(atFirst && Prompt(node.equations, ideal, i))
    requires q < |order| && order[q] == i && q <= p && SettlesAt(node.equations, ideal, atFirst, sure, order, q)
    ensures NaturalClock(node.equations[i].rhs, vc) == Some(ideal[node.equations[i].lhs])
  {
    hide UniqueDefinitions, Distinct, Disciplined, NaturalClock, Determined, Lead, Prompt, Sure, Seen, Underway, KnownBy;
    var eqs := node.equations;
    var eq := eqs[i];
    var ck := ideal[eq.lhs];
    UnderwayRight(node, ideal, atFirst, sure, order, p, i, vc);
    assert Suits(eq, ideal);
    var known := KnownBy(eqs, ideal, order, q);
    forall x | x in known ensures RightAt(vc, ideal, x) { KnownFound(node, ideal, atFirst, sure, order, p, i, vc, q, x); }
    if LeadBefore(eqs, ideal, order, q) {
      LeadDecides(eq.rhs, ck, vc, ideal, {});
    } else {
      SeenMore(eq.rhs, known, vc.Keys);
      SureDecides(eq.rhs, ck, vc, ideal, sure);
    }
  }

  lemma UnderwayRight(node: Node, ideal: ClockMap, atFirst: bool, sure: set<string>, order: seq<nat>, p: nat, i: nat, vc: ClockMap)
    requires Underway(node, ideal, atFirst, sure, order, p, i, vc)
    ensures Truncated(vc, ideal) && SkipRight(sure, vc, ideal)
  {
  }

  /** What settles the clocks of a node. */
  ghost predicate Settling(node: Node, ideal: ClockMap, atFirst: bool, sure: set<string>, order: seq<nat>) {
    Right(node, ideal) && AllDetermined(node.equations, ideal) && Settles(node.equations, ideal, atFirst, sure, order)
  }

  lemma TurnFinds(node: Node, ideal: ClockMap, atFirst: bool, sure: set<string>, order: seq<nat>, p: nat, i: nat, vc: ClockMap)
    requires Settling(node, ideal, atFirst, sure, order)
    requires Underway(node, ideal, atFirst, sure, order, p, i, vc) && i < |node.equations|
    requires Due(node.equations, ideal, atFirst, order, p, i+1, i)
    ensures Found(node.equations, ideal, Learn(node, vc, node.equations[i]), i)
  {
    hide Right, AllDetermined, Underway, SettlesAt, NeverWrong, Distinct;
    var eqs := node.equations;
    if Sampled(eqs, ideal, i) {
      if atFirst && Prompt(eqs, ideal, i) {
        PromptFinds(node, ideal, sure, order, p, i, vc);
      } else {
        var q: nat :| q < |order| && order[q] == i && q <= p;
        SettledFinds(node, ideal, atFirst, sure, order, p, i, vc, q);
      }
      NotPort(node, ideal, eqs[i].lhs);
    }
  }

  lemma NotPort(node: Node, ideal: ClockMap, x: string)
    requires Right(node, ideal) && x in ideal && ideal[x] != Base
    ensures x !in Ports(node)
  {
  }

  lemma Turn(node: Node, ideal: ClockMap, atFirst: bool, sure: set<string>, order: seq<nat>, p: nat, i: nat, vc: ClockMap)
    requires Settling(node, ideal, atFirst, sure, order)
    requires Underway(node, ideal, atFirst, sure, order, p, i, vc) && i < |node.equations|
    ensures Underway(node, ideal, atFirst, sure, order, p, i+1, Learn(node, vc, node.equations[i]))
  {
    hide Disciplined, Due, Prompt, NaturalClock, Sure, SettlesAt, Distinct;
    var eqs := node.equations;
    var more := Learn(node, vc, eqs[i]);
    assert Suits(eqs[i], ideal);
    NaturalTruncates(eqs[i].rhs, ideal[eqs[i].lhs], vc, ideal);
    if eqs[i].lhs in sure { SureDecides(eqs[i].rhs, ideal[eqs[i].lhs], vc, ideal, sure); }
    forall k: nat | k < |eqs| && Due(eqs, ideal, atFirst, order, p, i+1, k) ensures Found(eqs, ideal, more, k) {
      if k == i {
        TurnFinds(node, ideal, atFirst, sure, order, p, i, vc);
      } else {
        StillDue(eqs, ideal, atFirst, order, p, i, k);
        assert Found(eqs, ideal, vc, k);
      }
    }
  }

  lemma StillDue(eqs: seq<Equation>, ideal: ClockMap, atFirst: bool, order: seq<nat>, p: nat, i: nat, k: nat)
    requires k < |eqs| && k != i && Due(eqs, ideal, atFirst, order, p, i+1, k)
    ensures Due(eqs, ideal, atFirst, order, p, i, k)
  {
    if !(atFirst && Prompt(eqs, ideal, k)) || (p == 0 && k >= i+1) {
      var q: nat :| q < |order| && order[q] == k && (q < p || (q == p && k < i+1));
      assert q < p || (q == p && k < i);
    }
  }

  lemma {:induction false} PassUnderway(node: Node, ideal: ClockMap, atFirst: bool, sure: set<string>, order: seq<nat>, p: nat, vc: ClockMap, i: nat)
    requires Settling(node, ideal, atFirst, sure, order)
    requires Underway(node, ideal, atFirst, sure, order, p, 0, vc) && i <= |node.equations|
    ensures Underway(node, ideal, atFirst, sure, order, p, i, Pass(node, vc, i))
    decreases i
  {
    hide Settling, Underway;
    if i > 0 {
      PassUnderway(node, ideal, atFirst, sure, order, p, vc, i-1);
      Turn(node, ideal, atFirst, sure, order, p, i-1, Pass(node, vc, i-1));
    }
  }

  lemma NextPass(node: Node, ideal: ClockMap, atFirst: bool, sure: set<string>, order: seq<nat>, p: nat, vc: ClockMap)
    requires Underway(node, ideal, atFirst, sure, order, p, |node.equations|, vc)
    ensures Underway(node, ideal, atFirst, sure, order, p+1, 0, vc)
  {
    var eqs := node.equations;
    forall k: nat | k < |eqs| && Due(eqs, ideal, atFirst, order, p+1, 0, k) ensures Found(eqs, ideal, vc, k) {
      if !(atFirst && Prompt(eqs, ideal, k)) {
        var q: nat :| q < |order| && order[q] == k && q < p+1;
      }
      assert Due(eqs, ideal, atFirst, order, p, |eqs|, k);
    }
  }

  lemma FirstPass(node: Node, ideal: ClockMap, atFirst: bool, sure: set<string>, order: seq<nat>, start: ClockMap)
    requires Settling(node, ideal, atFirst, sure, order) && Truncated(start, ideal) && (atFirst ==> start == PortClocks(node))
    ensures Underway(node, ideal, atFirst, sure, order, 0, 0, start)
  {
    hide SettlesAt;
    var eqs := node.equations;
    forall x | x in sure ensures x !in start { NotPort(node, ideal, x); }
    forall k: nat | atFirst && k < |eqs| && Sampled(eqs, ideal, k) ensures eqs[k].lhs !in start {
      NotPort(node, ideal, eqs[k].lhs);
    }
    forall k: nat | k < |eqs| ensures !Due(eqs, ideal, atFirst, order, 0, 0, k) {}
  }

  lemma {:induction false} AfterUnderway(node: Node, ideal: ClockMap, atFirst: bool, sure: set<string>, order: seq<nat>, start: ClockMap, p: nat)
    requires Settling(node, ideal, atFirst, sure, order)
    requires Truncated(start, ideal) && (atFirst ==> start == PortClocks(node))
    ensures Underway(node, ideal, atFirst, sure, order, p, 0, After(node, start, p))
    decreases p
  {
    hide Settling, Underway;
    if p == 0 {
      FirstPass(node, ideal, atFirst, sure, order, start);
    } else {
      AfterUnderway(node, ideal, atFirst, sure, order, start, p-1);
      PassUnderway(node, ideal, atFirst, sure, order, p-1, After(node, start, p-1), |node.equations|);
      NextPass(node, ideal, atFirst, sure, order, p-1, After(node, start, p));
    }
  }

  /** After one pass more than there are equations, every clock has settled. */
  lemma AllInTime(node: Node, ideal: ClockMap, atFirst: bool, sure: set<string>, order: seq<nat>, start: ClockMap)
    requires Settling(node, ideal, atFirst, sure, order)
    requires Truncated(start, ideal) && (atFirst ==> start == PortClocks(node))
    ensures AllRight(node, ideal, After(node, start, |node.equations| + 1))
  {
    hide Right, AllDetermined, SettlesAt, NeverWrong;
    var eqs := node.equations;
    var n := |eqs|;
    DistinctBound(order, UpTo(n));
    AfterUnderway(node, ideal, atFirst, sure, order, start, n + 1);
    var vc := After(node, start, n + 1);
    forall k | 0 <= k < n ensures Found(eqs, ideal, vc, k) {
      assert k in Elements(order);
      var q :| 0 <= q < |order| && order[q] == k;
      assert Due(eqs, ideal, atFirst, order, n + 1, 0, k);
    }
  }

  /** An order in which every equation comes after its lead settles the clocks. */
  lemma LeadOrderSettles(node: Node, ideal: ClockMap, atFirst: bool, order: seq<nat>)
    requires Right(node, ideal) && Topological(LeadGraph(node.equations, ideal, atFirst), order)
    ensures Settles(node.equations, ideal, atFirst, {}, order)
  {
    hide Prompt, Lead, Determined, Distinct;
    var eqs := node.equations;
    forall q | 0 <= q < |order| ensures SettlesAt(eqs, ideal, atFirst, {}, order, q) {
      assert ReadyAt(LeadGraph(eqs, ideal, atFirst), order, q);
      var i := order[q];
      if Sampled(eqs, ideal, i) && !(atFirst && Prompt(eqs, ideal, i)) {
        var lead := Lead(eqs[i].rhs, ideal[eqs[i].lhs], {});
        if lead.Some? { AwaitedKnown(node, ideal, atFirst, order, q); }
      }
    }
  }

  lemma AwaitedKnown(node: Node, ideal: ClockMap, atFirst: bool, order: seq<nat>, q: nat)
    requires Right(node, ideal) && q < |order| && ReadyAt(LeadGraph(node.equations, ideal, atFirst), order, q)
    requires order[q] < |node.equations| && Sampled(node.equations, ideal, order[q]) && !(atFirst && Prompt(node.equations, ideal, order[q]))
    requires Lead(node.equations[order[q]].rhs, ideal[node.equations[order[q]].lhs], {}).Some?
    ensures Lead(node.equations[order[q]].rhs, ideal[node.equations[order[q]].lhs], {}).value in KnownBy(node.equations, ideal, order, q)
  {
    hide Prompt, Lead, Determined, UniqueDefinitions, Disciplined;
    var eqs, i := node.equations, order[q];
    var lead := Lead(eqs[i].rhs, ideal[eqs[i].lhs], {}).value;
    assert Suits(eqs[i], ideal);
    LeadSampled(eqs[i].rhs, ideal[eqs[i].lhs], {}, ideal);
    assert lead in Defined(eqs);
    var j :| 0 <= j < |eqs| && eqs[j].lhs == lead;
    assert j in Awaited(eqs, ideal, atFirst, i);
    assert j in LeadGraph(eqs, ideal, atFirst)[i];
    assert j in Elements(order[..q]);
    var r :| 0 <= r < q && order[r] == j;
    assert Sampled(eqs, ideal, order[r]);
  }

  /** In particular clocks settle if no equation waits for itself. */
  lemma NoneWaitsFindable(node: Node, ideal: ClockMap)
    requires NoneWaits(node, ideal, true)
    ensures Findable(node, ideal)
  {
    var order := AcyclicOrder(LeadGraph(node.equations, ideal, true));
    LeadOrderSettles(node, ideal, true, order);
  }

  /** Whatever the order of the equations, the right clocks are found, and
      nothing is reported, if the clocks settle one after the other. */
  lemma AnyOrderFound(node: Node, ideal: ClockMap)
    requires Findable(node, ideal)
    ensures Knows(Defined(node.equations), Inferred(node), ideal) && NoErrors(node, Inferred(node))
  {
    hide Settles;
    var sure, order :| Settles(node.equations, ideal, true, sure, order);
    PortsTruncated(node, ideal);
    AllInTime(node, ideal, true, sure, order, PortClocks(node));
    AfterTruncated(node, ideal, PortClocks(node), |node.equations| + 1);
    AllFound(node, ideal, Inferred(node));
  }

  /** With every sampled variable right, the base-clocked ones are right or unknown. */
  lemma AllFound(node: Node, ideal: ClockMap, vc: ClockMap)
    requires Right(node, ideal) && AllDetermined(node.equations, ideal) && Truncated(vc, ideal) && AllRight(node, ideal, vc)
    ensures Knows(Defined(node.equations), vc, ideal) && NoErrors(node, vc)
  {
    var eqs := node.equations;
    forall x | x in ideal && ideal[x] != Base ensures RightAt(vc, ideal, x) {
      assert x in Defined(eqs);
      var k :| 0 <= k < |eqs| && eqs[k].lhs == x;
      assert Found(eqs, ideal, vc, k);
    }
    forall k | 0 <= k < |eqs| ensures EquationErrors(eqs[k], vc) == [] {
      assert Suits(eqs[k], ideal);
      NaturalOfDisciplined(eqs[k].rhs, ideal[eqs[k].lhs], vc, ideal);
      DeterminedNames(eqs[k].rhs);
      DisciplinedIsQuiet(eqs[k].rhs, ideal[eqs[k].lhs], vc, ideal);
    }
  }

  lemma {:induction false} DeterminedNames(e: Expr)
    ensures Determined(e, {}) ==> Names(e) != {}
    decreases e
  {
    match e
    case Const(_) =>
    case Var(x) => assert x in Names(e);
    case Unary(_, a) => DeterminedNames(a);
    case Binary(_, a, b) => DeterminedNames(a); DeterminedNames(b);
    case If(c, a, b) => DeterminedNames(c); DeterminedNames(a); DeterminedNames(b);
    case Pre(a) => DeterminedNames(a);
    case Arrow(a, b) => DeterminedNames(a); DeterminedNames(b);
    case When(_, c, _) => assert c in Names(e);
    case Merge(c, _, _) => assert c in Names(e);
    case Call(_, _, args) => DeterminedNamesAny(args);
    case Condact(_, _, _, _, _) =>
  }

  lemma {:induction false} DeterminedNamesAny(args: seq<Expr>)
    ensures DeterminedAny(args, {}) ==> NamesAll(args) != {}
    decreases args
  {
    if args != [] {
      DeterminedNames(args[0]);
      DeterminedNamesAny(args[1..]);
    }
  }
}
