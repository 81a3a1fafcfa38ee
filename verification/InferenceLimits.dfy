/** When the passes do not find the right clocks: a wrong clock that equations
    pass on among themselves stays wrong, and a node where that happens. */
module InferenceLimits {
  import opened Lustre
  import opened Options
  import opened Graphs
  import opened Clocks
  import opened Inference

  // ---------------------------------------------------------------- when a lead is wrong

  lemma {:induction false} UndeterminedNatural(e: Expr, vc: ClockMap)
    ensures !Determined(e, {}) ==> NaturalClock(e, vc) == None
    decreases e
  {
    match e
    case Const(_) =>
    case Var(_) =>
    case Unary(_, a) => UndeterminedNatural(a, vc);
    case Binary(_, a, b) => UndeterminedNatural(a, vc); UndeterminedNatural(b, vc);
    case If(c, a, b) => UndeterminedNatural(c, vc); UndeterminedNatural(a, vc); UndeterminedNatural(b, vc);
    case Pre(a) => UndeterminedNatural(a, vc);
    case Arrow(a, b) => UndeterminedNatural(a, vc); UndeterminedNatural(b, vc);
    case When(_, _, _) =>
    case Merge(_, _, _) =>
    case Call(_, _, args) => UndeterminedFirst(args, vc);
    case Condact(_, _, _, _, _) =>
  }

  lemma {:induction false} UndeterminedFirst(args: seq<Expr>, vc: ClockMap)
    ensures !DeterminedAny(args, {}) ==> FirstNaturalClock(args, vc) == None
    decreases args
  {
    if args != [] {
      UndeterminedNatural(args[0], vc);
      UndeterminedFirst(args[1..], vc);
    }
  }

  ghost predicate WrongAt(vc: ClockMap, ideal: ClockMap, x: string) {
    x in vc && x in ideal && vc[x] != ideal[x]
  }

  /** A lead with a wrong clock gives the expression a wrong natural clock. */
  lemma {:induction false} LeadMisleads(e: Expr, ck: Clock, vc: ClockMap, ideal: ClockMap)
    requires Disciplined(e, ck, ideal) && ck != Base
    requires Lead(e, ck, {}).Some? && WrongAt(vc, ideal, Lead(e, ck, {}).value)
    ensures NaturalClock(e, vc).Some? && NaturalClock(e, vc).value != ck
    decreases e
  {
    match e
    case Const(_) =>
    case Var(_) =>
    case Unary(_, a) => LeadMisleads(a, ck, vc, ideal);
    case Binary(_, a, b) =>
      UndeterminedNatural(a, vc);
      if Determined(a, {}) { LeadMisleads(a, ck, vc, ideal); } else { LeadMisleads(b, ck, vc, ideal); }
    case If(c, a, b) =>
      UndeterminedNatural(c, vc);
      UndeterminedNatural(a, vc);
      if Determined(c, {}) { LeadMisleads(c, ck, vc, ideal); }
      else if Determined(a, {}) { LeadMisleads(a, ck, vc, ideal); }
      else { LeadMisleads(b, ck, vc, ideal); }
    case Pre(a) => LeadMisleads(a, ck, vc, ideal);
    case Arrow(a, b) =>
      UndeterminedNatural(a, vc);
      if Determined(a, {}) { LeadMisleads(a, ck, vc, ideal); } else { LeadMisleads(b, ck, vc, ideal); }
    case When(a, _, _) =>
      UndeterminedNatural(a, vc);
      if Determined(a, {}) { LeadMisleads(a, ck.parent, vc, ideal); }
    case Merge(_, _, _) =>
    case Call(_, _, args) => LeadAnyMisleads(args, ck, vc, ideal);
  }

  lemma {:induction false} LeadAnyMisleads(args: seq<Expr>, ck: Clock, vc: ClockMap, ideal: ClockMap)
    requires DisciplinedAll(args, ck, ideal) && ck != Base
    requires LeadAny(args, ck, {}).Some? && WrongAt(vc, ideal, LeadAny(args, ck, {}).value)
    ensures FirstNaturalClock(args, vc).Some? && FirstNaturalClock(args, vc).value != ck
    decreases args
  {
    UndeterminedNatural(args[0], vc);
    if Determined(args[0], {}) { LeadMisleads(args[0], ck, vc, ideal); } else { LeadAnyMisleads(args[1..], ck, vc, ideal); }
  }

  /** The equation never gets a natural clock, or gets it from one of `s`. */
  ghost predicate MisledBy(eqs: seq<Equation>, ideal: ClockMap, s: set<nat>, k: nat)
    requires k < |eqs| && eqs[k].lhs in ideal
  {
    !Determined(eqs[k].rhs, {}) ||
    exists j: nat :: j in s && j < |eqs| && Lead(eqs[k].rhs, ideal[eqs[k].lhs], {}) == Some(eqs[j].lhs)
  }

  /** Equations of sampled variables that only follow each other, all wrong. */
  ghost predicate Misled(eqs: seq<Equation>, ideal: ClockMap, s: set<nat>, vc: ClockMap) {
    forall k | k in s ::
      k < |eqs| && Sampled(eqs, ideal, k) && MisledBy(eqs, ideal, s, k) && WrongAt(vc, ideal, eqs[k].lhs)
  }

  lemma MisledTurn(node: Node, ideal: ClockMap, s: set<nat>, vc: ClockMap, i: nat)
    requires Right(node, ideal) && Misled(node.equations, ideal, s, vc) && i < |node.equations|
    ensures Misled(node.equations, ideal, s, Learn(node, vc, node.equations[i]))
  {
    var eqs := node.equations;
    var more := Learn(node, vc, eqs[i]);
    forall k | k in s ensures WrongAt(more, ideal, eqs[k].lhs) {
      if eqs[k].lhs == eqs[i].lhs {
        assert k == i;
        assert Suits(eqs[k], ideal);
        UndeterminedNatural(eqs[k].rhs, vc);
        if Determined(eqs[k].rhs, {}) { LeadMisleads(eqs[k].rhs, ideal[eqs[k].lhs], vc, ideal); }
      }
    }
  }

  lemma {:induction false} MisledPass(node: Node, ideal: ClockMap, s: set<nat>, vc: ClockMap, i: nat)
    requires Right(node, ideal) && Misled(node.equations, ideal, s, vc) && i <= |node.equations|
    ensures Misled(node.equations, ideal, s, Pass(node, vc, i))
  {
    hide Right, Misled;
    if i > 0 {
      MisledPass(node, ideal, s, vc, i-1);
      MisledTurn(node, ideal, s, Pass(node, vc, i-1), i-1);
    }
  }

  /** Equations that follow each other and are wrong stay wrong. */
  lemma {:induction false} MisledForever(node: Node, ideal: ClockMap, s: set<nat>, start: ClockMap, p: nat)
    requires Right(node, ideal) && Misled(node.equations, ideal, s, start)
    ensures Misled(node.equations, ideal, s, After(node, start, p))
  {
    hide Right, Misled;
    if p > 0 {
      MisledForever(node, ideal, s, start, p-1);
      MisledPass(node, ideal, s, After(node, start, p-1), |node.equations|);
    }
  }

  /** From whatever truncated clocks the passes start, they end with the right ones. */
  ghost predicate SelfCorrecting(node: Node, ideal: ClockMap) {
    forall start: ClockMap | Truncated(start, ideal) ::
      AllRight(node, ideal, After(node, start, |node.equations| + 1))
  }

  function AllOnBase(ideal: ClockMap): ClockMap {
    map x | x in ideal :: Base
  }

  lemma NotCorrected(node: Node, ideal: ClockMap, s: set<nat>, k: nat)
    requires Right(node, ideal) && k in s && Misled(node.equations, ideal, s, AllOnBase(ideal))
    ensures !SelfCorrecting(node, ideal)
  {
    var n := |node.equations|;
    assert Truncated(AllOnBase(ideal), ideal);
    MisledForever(node, ideal, s, AllOnBase(ideal), n + 1);
    assert !Found(node.equations, ideal, After(node, AllOnBase(ideal), n + 1), k);
  }

  lemma CycleMisleads(eqs: seq<Equation>, ideal: ClockMap, p: seq<nat>)
    requires Cycle(LeadGraph(eqs, ideal, false), p)
    ensures Misled(eqs, ideal, Elements(p), AllOnBase(ideal))
  {
    var g := LeadGraph(eqs, ideal, false);
    forall k | k in Elements(p) ensures k < |eqs| && Sampled(eqs, ideal, k) && MisledBy(eqs, ideal, Elements(p), k) {
      var i :| 0 <= i < |p| && p[i] == k;
      var next := if i < |p| - 1 then i else 0;
      assert Edge(g, p[next], p[next+1]);
      if i < |p| - 1 { assert Edge(g, k, p[i+1]); } else { assert Edge(g, k, p[1]); }
    }
  }

  /** The passes repair any clocks cut short exactly when the definition of each
      sampled variable mentions a variable and none waits for itself. */
  lemma SelfCorrectingWhen(node: Node, ideal: ClockMap)
    requires Right(node, ideal)
    ensures SelfCorrecting(node, ideal) <==> NoneWaits(node, ideal, false)
  {
    hide Right, AllDetermined, Acyclic, AllRight, LeadGraph;
    if NoneWaits(node, ideal, false) {
      forall start: ClockMap | Truncated(start, ideal)
        ensures AllRight(node, ideal, After(node, start, |node.equations| + 1))
      {
        var order := AcyclicOrder(LeadGraph(node.equations, ideal, false));
        LeadOrderSettles(node, ideal, false, order);
        AllInTime(node, ideal, false, {}, order, start);
      }
    } else {
      WaitingMisleads(node, ideal);
    }
  }

  lemma WaitingMisleads(node: Node, ideal: ClockMap)
    requires Right(node, ideal) && !NoneWaits(node, ideal, false)
    ensures !SelfCorrecting(node, ideal)
  {
    hide Right, SelfCorrecting, LeadGraph;
    var eqs := node.equations;
    if !AllDetermined(eqs, ideal) {
      var k: nat :| k < |eqs| && Sampled(eqs, ideal, k) && !Determined(eqs[k].rhs, {});
      assert MisledBy(eqs, ideal, {k}, k);
      NotCorrected(node, ideal, {k}, k);
    } else {
      var p: seq<nat> :| Cycle(LeadGraph(eqs, ideal, false), p);
      CycleMisleads(eqs, ideal, p);
      assert p[0] in Elements(p);
      NotCorrected(node, ideal, Elements(p), p[0]);
    }
  }

  // ---------------------------------------------------------------- when no clock is ever wrong

  /** The sampled variables. */
  ghost function SampledVars(ideal: ClockMap): set<string> {
    set x | x in ideal && ideal[x] != Base
  }

  /** The sampled variables that have some clock. */
  ghost function KnownSampled(vc: ClockMap, ideal: ClockMap): set<string> {
    set x | x in vc && x in ideal && ideal[x] != Base
  }

  /** What is given a clock owes it to sampled variables that have one. */
  lemma {:induction false} NaturalSeen(e: Expr, ck: Clock, vc: ClockMap, ideal: ClockMap)
    requires Disciplined(e, ck, ideal) && ck != Base && NaturalClock(e, vc).Some?
    ensures Seen(e, KnownSampled(vc, ideal))
    decreases e
  {
    match e
    case Var(_) =>
    case Unary(_, a) => NaturalSeen(a, ck, vc, ideal);
    case Binary(_, a, b) =>
      if NaturalClock(a, vc).Some? { NaturalSeen(a, ck, vc, ideal); } else { NaturalSeen(b, ck, vc, ideal); }
    case If(c, a, b) =>
      if NaturalClock(c, vc).Some? { NaturalSeen(c, ck, vc, ideal); }
      else if NaturalClock(a, vc).Some? { NaturalSeen(a, ck, vc, ideal); }
      else { NaturalSeen(b, ck, vc, ideal); }
    case Pre(a) => NaturalSeen(a, ck, vc, ideal);
    case Arrow(a, b) =>
      if NaturalClock(a, vc).Some? { NaturalSeen(a, ck, vc, ideal); } else { NaturalSeen(b, ck, vc, ideal); }
    case When(_, _, _) =>
    case Merge(c, a, b) =>
      if c !in vc {
        if NaturalClock(a, vc).Some? { NaturalSeen(a, On(c, true, ck), vc, ideal); }
        else { NaturalSeen(b, On(c, false, ck), vc, ideal); }
      }
    case Call(_, _, args) => FirstNaturalSeen(args, ck, vc, ideal);
  }

  lemma {:induction false} FirstNaturalSeen(args: seq<Expr>, ck: Clock, vc: ClockMap, ideal: ClockMap)
    requires DisciplinedAll(args, ck, ideal) && ck != Base && FirstNaturalClock(args, vc).Some?
    ensures SeenAny(args, KnownSampled(vc, ideal))
    decreases args
  {
    if NaturalClock(args[0], vc).Some? { NaturalSeen(args[0], ck, vc, ideal); } else { FirstNaturalSeen(args[1..], ck, vc, ideal); }
  }

  /** The k-th equation is given a clock by what `order` has settled, or needs none. */
  ghost predicate NextSettles(eqs: seq<Equation>, ideal: ClockMap, order: seq<nat>, k: nat)
    requires k < |eqs|
  {
    Sampled(eqs, ideal, k) ==> Seen(eqs[k].rhs, KnownBy(eqs, ideal, order, |order|))
  }

  ghost predicate SettledSoFar(eqs: seq<Equation>, ideal: ClockMap, sure: set<string>, order: seq<nat>) {
    && Distinct(order) && Elements(order) <= UpTo(|eqs|)
    && forall q | 0 <= q < |order| :: SettlesAt(eqs, ideal, true, sure, order, q)
  }

  lemma SettlesStill(eqs: seq<Equation>, ideal: ClockMap, sure: set<string>, order: seq<nat>, k: nat, q: nat)
    requires q < |order| && SettlesAt(eqs, ideal, true, sure, order, q)
    ensures SettlesAt(eqs, ideal, true, sure, order + [k], q)
  {
    hide Prompt, Lead, Seen;
    SameKnown(eqs, ideal, order, k, q);
  }

  lemma SameKnown(eqs: seq<Equation>, ideal: ClockMap, order: seq<nat>, k: nat, q: nat)
    requires q <= |order|
    ensures KnownBy(eqs, ideal, order + [k], q) == KnownBy(eqs, ideal, order, q)
  {
    var more := order + [k];
    assert forall r | 0 <= r < |order| :: more[r] == order[r];
    forall x | x in KnownBy(eqs, ideal, order, q) ensures x in KnownBy(eqs, ideal, more, q) {
      var r :| 0 <= r < q && order[r] < |eqs| && Sampled(eqs, ideal, order[r]) && eqs[order[r]].lhs == x;
      assert more[r] == order[r];
    }
  }

  lemma SettleNext(eqs: seq<Equation>, ideal: ClockMap, sure: set<string>, order: seq<nat>, k: nat)
    requires SettledSoFar(eqs, ideal, sure, order) && k < |eqs| && k !in order && NextSettles(eqs, ideal, order, k)
    requires Sampled(eqs, ideal, k) ==> eqs[k].lhs in sure
    ensures SettledSoFar(eqs, ideal, sure, order + [k]) && |order| < |eqs|
  {
    hide KnownBy, Seen;
    DistinctBound(order, UpTo(|eqs|));
    assert k !in Elements(order);
    var more := order + [k];
    forall q | 0 <= q < |more| ensures SettlesAt(eqs, ideal, true, sure, more, q) {
      if q < |order| { SettlesStill(eqs, ideal, sure, order, k, q); } else { SameKnown(eqs, ideal, order, k, q); }
    }
    DistinctJoined(order, [k]);
  }

  /** Settling equations as long as one can be settled. */
  lemma {:induction false} SettleAll(eqs: seq<Equation>, ideal: ClockMap, sure: set<string>, start: seq<nat>) returns (order: seq<nat>)
    requires SettledSoFar(eqs, ideal, sure, start)
    requires forall k | 0 <= k < |eqs| && Sampled(eqs, ideal, k) :: eqs[k].lhs in sure
    ensures SettledSoFar(eqs, ideal, sure, order)
    ensures forall k | 0 <= k < |eqs| && k !in order :: !NextSettles(eqs, ideal, order, k)
    decreases |eqs| - |start|
  {
    hide SettlesAt, NextSettles;
    if k: nat :| k < |eqs| && k !in start && NextSettles(eqs, ideal, start, k) {
      SettleNext(eqs, ideal, sure, start, k);
      order := SettleAll(eqs, ideal, sure, start + [k]);
    } else {
      order := start;
    }
  }

  /** What is not settled by others never gets a clock. */
  ghost predicate OnlySettled(eqs: seq<Equation>, ideal: ClockMap, order: seq<nat>, vc: ClockMap) {
    KnownSampled(vc, ideal) <= KnownBy(eqs, ideal, order, |order|)
  }

  lemma OnlySettledTurn(node: Node, ideal: ClockMap, order: seq<nat>, vc: ClockMap, i: nat)
    requires Right(node, ideal) && i < |node.equations| && OnlySettled(node.equations, ideal, order, vc)
    requires forall k | 0 <= k < |node.equations| && k !in order :: !NextSettles(node.equations, ideal, order, k)
    ensures OnlySettled(node.equations, ideal, order, Learn(node, vc, node.equations[i]))
  {
    hide UniqueDefinitions, Seen;
    var eqs := node.equations;
    if Sampled(eqs, ideal, i) && NaturalClock(eqs[i].rhs, vc).Some? {
      assert Suits(eqs[i], ideal);
      NaturalSeen(eqs[i].rhs, ideal[eqs[i].lhs], vc, ideal);
      SeenMore(eqs[i].rhs, KnownSampled(vc, ideal), KnownBy(eqs, ideal, order, |order|));
      assert NextSettles(eqs, ideal, order, i);
      var r :| 0 <= r < |order| && order[r] == i;
      assert eqs[i].lhs in KnownBy(eqs, ideal, order, |order|);
    }
  }

  lemma {:induction false} OnlySettledPass(node: Node, ideal: ClockMap, order: seq<nat>, vc: ClockMap, i: nat)
    requires Right(node, ideal) && i <= |node.equations| && OnlySettled(node.equations, ideal, order, vc)
    requires forall k | 0 <= k < |node.equations| && k !in order :: !NextSettles(node.equations, ideal, order, k)
    ensures OnlySettled(node.equations, ideal, order, Pass(node, vc, i))
  {
    hide Right, OnlySettled, NextSettles;
    if i > 0 {
      OnlySettledPass(node, ideal, order, vc, i-1);
      OnlySettledTurn(node, ideal, order, Pass(node, vc, i-1), i-1);
    }
  }

  lemma {:induction false} OnlySettledAfter(node: Node, ideal: ClockMap, order: seq<nat>, p: nat)
    requires Right(node, ideal)
    requires forall k | 0 <= k < |node.equations| && k !in order :: !NextSettles(node.equations, ideal, order, k)
    ensures OnlySettled(node.equations, ideal, order, After(node, PortClocks(node), p))
  {
    hide NextSettles, UniqueDefinitions;
    if p > 0 {
      OnlySettledAfter(node, ideal, order, p-1);
      OnlySettledPass(node, ideal, order, After(node, PortClocks(node), p-1), |node.equations|);
    }
  }

  /** The sampled variables are defined by equations that never give a wrong clock. */
  ghost predicate NoneWrong(node: Node, ideal: ClockMap) {
    Right(node, ideal) && AllDetermined(node.equations, ideal) && NeverWrong(node.equations, ideal, SampledVars(ideal))
  }

  /** Where no equation can be given a wrong clock, inference finds the right
      ones exactly when they settle one after the other. */
  lemma NoneWrongFoundWhen(node: Node, ideal: ClockMap)
    requires NoneWrong(node, ideal)
    ensures AllRight(node, ideal, Inferred(node)) <==> Findable(node, ideal)
  {
    hide Right, AllDetermined, NeverWrong, NextSettles, SettlesAt, Sampled;
    var eqs, sure := node.equations, SampledVars(ideal);
    if Findable(node, ideal) {
      var found, turns :| Settles(eqs, ideal, true, found, turns);
      PortsRight(node, ideal);
      AllInTime(node, ideal, true, found, turns, PortClocks(node));
    }
    SampledIn(eqs, ideal);
    var order := SettleAll(eqs, ideal, sure, []);
    if k: nat :| k < |eqs| && k !in order {
      OnlySettledAfter(node, ideal, order, |eqs| + 1);
      LeftUnknown(node, ideal, order, k);
    } else {
      forall k | k in UpTo(|eqs|) ensures k in Elements(order) { assert k in order; }
      assert Settles(eqs, ideal, true, sure, order);
    }
  }

  lemma PortsRight(node: Node, ideal: ClockMap)
    requires Right(node, ideal)
    ensures Truncated(PortClocks(node), ideal)
  {
    PortsTruncated(node, ideal);
  }

  lemma SampledIn(eqs: seq<Equation>, ideal: ClockMap)
    ensures forall k | 0 <= k < |eqs| && Sampled(eqs, ideal, k) :: eqs[k].lhs in SampledVars(ideal)
  {
  }

  /** An equation left over has no clock, as its variable is defined nowhere else. */
  lemma LeftUnknown(node: Node, ideal: ClockMap, order: seq<nat>, k: nat)
    requires Right(node, ideal) && k < |node.equations| && k !in order && !NextSettles(node.equations, ideal, order, k)
    requires OnlySettled(node.equations, ideal, order, Inferred(node))
    ensures !AllRight(node, ideal, Inferred(node))
  {
    hide Inferred, Seen, Ideal;
    var eqs := node.equations;
    forall r | 0 <= r < |order| && order[r] < |eqs| ensures eqs[order[r]].lhs != eqs[k].lhs {
      assert order[r] in order && order[r] != k;
    }
    assert eqs[k].lhs !in KnownSampled(Inferred(node), ideal);
    assert !Found(eqs, ideal, Inferred(node), k);
  }

  /** No `merge` above the sampling. */
  predicate MergeFree(e: Expr) {
    match e
    case Const(_) => true
    case Var(_) => true
    case Unary(_, a) => MergeFree(a)
    case Binary(_, a, b) => MergeFree(a) && MergeFree(b)
    case If(c, a, b) => MergeFree(c) && MergeFree(a) && MergeFree(b)
    case Pre(a) => MergeFree(a)
    case Arrow(a, b) => MergeFree(a) && MergeFree(b)
    case When(_, _, _) => true
    case Merge(_, _, _) => false
    case Call(_, _, args) => forall i | 0 <= i < |args| :: MergeFree(args[i])
    case Condact(_, _, _, _, _) => true
  }

  lemma {:induction false} OneLevelSure(e: Expr, ck: Clock, ideal: ClockMap)
    requires Disciplined(e, ck, ideal) && ck != Base && Parent(ck) == Base && MergeFree(e)
    ensures Sure(e, ck, SampledVars(ideal))
    decreases e
  {
    match e
    case Const(_) =>
    case Var(_) =>
    case Unary(_, a) => OneLevelSure(a, ck, ideal);
    case Binary(_, a, b) => OneLevelSure(a, ck, ideal); OneLevelSure(b, ck, ideal);
    case If(c, a, b) => OneLevelSure(c, ck, ideal); OneLevelSure(a, ck, ideal); OneLevelSure(b, ck, ideal);
    case Pre(a) => OneLevelSure(a, ck, ideal);
    case Arrow(a, b) => OneLevelSure(a, ck, ideal); OneLevelSure(b, ck, ideal);
    case When(_, _, _) =>
    case Call(_, _, args) => OneLevelSureAll(args, ck, ideal);
  }

  lemma {:induction false} OneLevelSureAll(args: seq<Expr>, ck: Clock, ideal: ClockMap)
    requires DisciplinedAll(args, ck, ideal) && ck != Base && Parent(ck) == Base && forall i | 0 <= i < |args| :: MergeFree(args[i])
    ensures SureAll(args, ck, SampledVars(ideal))
    decreases args
  {
    if args != [] {
      OneLevelSure(args[0], ck, ideal);
      assert forall i | 0 <= i < |args[1..]| :: args[1..][i] == args[i+1];
      OneLevelSureAll(args[1..], ck, ideal);
    }
  }

  /** Sampled variables live one level below the base clock and are not defined by merges. */
  ghost predicate OneLevel(node: Node, ideal: ClockMap) {
    forall k | 0 <= k < |node.equations| && Sampled(node.equations, ideal, k) ::
      Parent(ideal[node.equations[k].lhs]) == Base && MergeFree(node.equations[k].rhs)
  }

  /** Variables sampled from the base clock are right whenever they are found. */
  lemma OneLevelNeverWrong(node: Node, ideal: ClockMap)
    requires Right(node, ideal) && AllDetermined(node.equations, ideal) && OneLevel(node, ideal)
    ensures NoneWrong(node, ideal)
  {
    hide Disciplined, MergeFree, Determined, UniqueDefinitions;
    var eqs := node.equations;
    forall k | 0 <= k < |eqs| && eqs[k].lhs in SampledVars(ideal)
      ensures Sure(eqs[k].rhs, ideal[eqs[k].lhs], SampledVars(ideal))
    {
      assert Suits(eqs[k], ideal) && Sampled(eqs, ideal, k);
      OneLevelSure(eqs[k].rhs, ideal[eqs[k].lhs], ideal);
    }
  }

  // ---------------------------------------------------------------- examples

  /** An equation that remembers its own past, sampled from the base clock, is
      prompt: passing over itself, it samples on a port. */
  lemma OwnMemoryIsPrompt(eqs: seq<Equation>, ideal: ClockMap, k: nat, init: Value, op: BinaryOp, a: string, c: string)
    requires k < |eqs| && a != eqs[k].lhs && eqs[k].lhs in ideal && ideal[eqs[k].lhs] == On(c, true, Base)
    requires eqs[k].rhs == Arrow(Const(init), Binary(op, Pre(Var(eqs[k].lhs)), When(Var(a), c, true)))
    ensures Prompt(eqs, ideal, k)
  {
    var x := eqs[k].lhs;
    var later := When(Var(a), c, true);
    assert Lead(later, On(c, true, Base), {x}) == None;
    assert !Determined(Pre(Var(x)), {x}) && Determined(later, {x});
  }

  /** `y = 0 -> pre x` and `x = (0 -> pre y) + (a when c)`: two streams on
      `when c` that remember each other. */
  function TwinNode(): Node {
    var y := Equation("y", Arrow(Const(Int(0)), Pre(Var("x"))));
    var x := Equation("x", Binary(Add, Arrow(Const(Int(0)), Pre(Var("y"))), When(Var("a"), "c", true)));
    Node(map["a" := IntType, "c" := BoolType], map[], map["y" := IntType, "x" := IntType], [y, x])
  }

  function TwinClocks(): ClockMap {
    map["a" := Base, "c" := Base, "x" := On("c", true, Base), "y" := On("c", true, Base)]
  }

  lemma TwinSuits()
    ensures var eqs := TwinNode().equations; Suits(eqs[0], TwinClocks()) && Suits(eqs[1], TwinClocks())
    ensures var eqs := TwinNode().equations; Determined(eqs[0].rhs, {}) && Determined(eqs[1].rhs, {})
  {
    assert TwinNode().equations[0].lhs in TwinClocks() && TwinNode().equations[1].lhs in TwinClocks();
  }

  lemma TwinRight()
    ensures Right(TwinNode(), TwinClocks()) && AllDetermined(TwinNode().equations, TwinClocks())
    ensures var eqs := TwinNode().equations;
      eqs[0].lhs == "y" && eqs[1].lhs == "x" && "y" != "x" && Sampled(eqs, TwinClocks(), 0) && Sampled(eqs, TwinClocks(), 1)
  {
    hide Disciplined, Determined;
    TwinSuits();
    var eqs := TwinNode().equations;
    assert eqs[0].lhs == "y" && eqs[1].lhs == "x" && "y"[0] != "x"[0];
    assert "x" in Defined(eqs) && "y" in Defined(eqs);
    assert forall x | x in TwinClocks() && TwinClocks()[x] != Base :: x == "x" || x == "y";
  }

  lemma TwinLeads()
    ensures var eqs, ck := TwinNode().equations, On("c", true, Base);
      && Lead(eqs[0].rhs, ck, {}) == Lead(eqs[0].rhs, ck, {"y"}) == Some("x")
      && Lead(eqs[1].rhs, ck, {}) == Lead(eqs[1].rhs, ck, {"x"}) == Some("y")
  {
    assert "y"[0] != "x"[0];
    assert !Determined(Const(Int(0)), {}) && !Determined(Const(Int(0)), {"x"}) && !Determined(Const(Int(0)), {"y"});
    var fromX, fromY := Arrow(Const(Int(0)), Pre(Var("x"))), Arrow(Const(Int(0)), Pre(Var("y")));
    assert Determined(fromY, {}) && Determined(fromY, {"x"});
    assert Lead(fromY, On("c", true, Base), {}) == Some("y") && Lead(fromY, On("c", true, Base), {"x"}) == Some("y");
  }

  lemma TwinSure()
    ensures NeverWrong(TwinNode().equations, TwinClocks(), {"x", "y"})
    ensures var eqs := TwinNode().equations; Seen(eqs[1].rhs, {}) && Seen(eqs[0].rhs, {"x"})
  {
    var eqs, ck, both := TwinNode().equations, On("c", true, Base), {"x", "y"};
    assert Sure(Arrow(Const(Int(0)), Pre(Var("x"))), ck, both) && Sure(Arrow(Const(Int(0)), Pre(Var("y"))), ck, both);
    assert Sure(When(Var("a"), "c", true), ck, both);
    assert Sure(eqs[0].rhs, ck, both) && Sure(eqs[1].rhs, ck, both);
    assert Seen(When(Var("a"), "c", true), {}) && Seen(Pre(Var("x")), {"x"});
  }

  /** Each of the two waits for the other and neither is prompt, and still the
      right clocks are found: the first pass looks past `pre y`. */
  lemma TwinFound()
    ensures Findable(TwinNode(), TwinClocks()) && !NoneWaits(TwinNode(), TwinClocks(), true)
    ensures NoErrors(TwinNode(), Inferred(TwinNode()))
  {
    hide Inferred, NeverWrong, Seen, Lead, Determined, Acyclic, NoErrors, Right, AllDetermined;
    var eqs, ideal := TwinNode().equations, TwinClocks();
    TwinRight();
    TwinLeads();
    TwinSure();
    TwinSettles();
    AnyOrderFound(TwinNode(), ideal);
    assert !Prompt(eqs, ideal, 0);
    assert !Prompt(eqs, ideal, 1);
    TwinWaits();
  }

  lemma TwinSettles()
    ensures Settles(TwinNode().equations, TwinClocks(), true, {"x", "y"}, [1, 0])
  {
    hide NeverWrong, Seen, Lead, Determined;
    var eqs, ideal, order := TwinNode().equations, TwinClocks(), [1, 0];
    TwinRight();
    TwinSure();
    assert KnownBy(eqs, ideal, order, 0) == {};
    assert KnownBy(eqs, ideal, order, 1) == {"x"} by { assert order[0] == 1; }
    assert Elements(order) == UpTo(2) by { assert order[0] == 1 && order[1] == 0; }
    assert SettlesAt(eqs, ideal, true, {"x", "y"}, order, 0) && SettlesAt(eqs, ideal, true, {"x", "y"}, order, 1);
  }

  lemma TwinWaits()
    requires !Prompt(TwinNode().equations, TwinClocks(), 0) && !Prompt(TwinNode().equations, TwinClocks(), 1)
    ensures !Acyclic(LeadGraph(TwinNode().equations, TwinClocks(), true))
  {
    hide Prompt, Lead, Determined;
    var eqs, ideal := TwinNode().equations, TwinClocks();
    var g := LeadGraph(eqs, ideal, true);
    TwinRight();
    TwinLeads();
    assert 1 in Awaited(eqs, ideal, true, 0) && 0 in Awaited(eqs, ideal, true, 1);
    EachOther(g, 0, 1);
  }

  lemma EachOther<T(!new)>(g: Graph<T>, a: T, b: T)
    requires Edge(g, a, b) && Edge(g, b, a)
    ensures !Acyclic(g)
  {
    assert Cycle(g, [a, b, a]);
  }

  /** Two streams on `when c when d` that remember each other, one of them
      also reading `u when c`, with `u` and `c` defined below them. */
  function EchoNode(): Node {
    var y := Equation("y", Arrow(Const(Int(0)), Pre(Var("x"))));
    var x := Equation("x", Binary(Add, Arrow(Const(Int(0)), Pre(Var("y"))), When(Var("u"), "c", true)));
    var u := Equation("u", When(Var("a"), "d", true));
    var c := Equation("c", When(Var("b"), "d", true));
    Node(map["a" := IntType, "b" := BoolType, "d" := BoolType], map[], map["y" := IntType, "x" := IntType, "u" := IntType, "c" := BoolType],
      [y, x, u, c])
  }

  function EchoClocks(): ClockMap {
    var d := On("d", true, Base);
    map["a" := Base, "b" := Base, "d" := Base, "u" := d, "c" := d, "x" := On("c", true, d), "y" := On("c", true, d)]
  }

  /** What the passes settle on: `x` was first seen before the clock of `c` was known. */
  function EchoFound(): ClockMap {
    var d := On("d", true, Base);
    map["a" := Base, "b" := Base, "d" := Base, "u" := d, "c" := d, "x" := On("c", true, Base), "y" := On("c", true, Base)]
  }

  /** What each equation of the echo learns. */
  lemma EchoNaturals(vc: ClockMap)
    requires "a" in vc && vc["a"] == Base && "b" in vc && vc["b"] == Base
    ensures var eqs := EchoNode().equations;
      && NaturalClock(eqs[0].rhs, vc) == Lookup(vc, "x")
      && NaturalClock(eqs[1].rhs, vc) == (if "y" in vc then Some(vc["y"]) else NaturalClock(When(Var("u"), "c", true), vc))
      && NaturalClock(eqs[2].rhs, vc) == Some(On("d", true, Base))
      && NaturalClock(eqs[3].rhs, vc) == Some(On("d", true, Base))
  {
    EchoRemembers("x", vc);
    EchoRemembers("y", vc);
  }

  lemma EchoRemembers(x: string, vc: ClockMap)
    ensures NaturalClock(Arrow(Const(Int(0)), Pre(Var(x))), vc) == Lookup(vc, x)
  {
    assert NaturalClock(Const(Int(0)), vc) == None;
    assert NaturalClock(Pre(Var(x)), vc) == Lookup(vc, x);
  }

  lemma EchoTurn(vc: ClockMap, i: nat, ck: Clock)
    requires i < 4 && NaturalClock(EchoNode().equations[i].rhs, vc) == Some(ck)
    ensures Learn(EchoNode(), vc, EchoNode().equations[i]) == vc[EchoNode().equations[i].lhs := ck]
  {
    EchoPorts();
    EchoDefined();
    assert EchoNode().equations[i].lhs in Defined(EchoNode().equations);
  }

  lemma EchoPass(vc: ClockMap, m1: ClockMap, m2: ClockMap, m3: ClockMap, m4: ClockMap)
    requires Learn(EchoNode(), vc, EchoNode().equations[0]) == m1 && Learn(EchoNode(), m1, EchoNode().equations[1]) == m2
    requires Learn(EchoNode(), m2, EchoNode().equations[2]) == m3 && Learn(EchoNode(), m3, EchoNode().equations[3]) == m4
    ensures Pass(EchoNode(), vc, 4) == m4
  {
    var node := EchoNode();
    hide Learn;
    assert Pass(node, vc, 0) == vc;
    assert Pass(node, vc, 1) == m1;
    assert Pass(node, vc, 2) == m2;
    assert Pass(node, vc, 3) == m3;
  }

  lemma EchoPasses()
    ensures Inferred(EchoNode()) == EchoFound()
  {
    hide Pass, Inferred;
    var d, cut := On("d", true, Base), On("c", true, Base);
    var m0 := PortClocks(EchoNode());
    assert m0 == map["a" := Base, "b" := Base, "d" := Base];
    var m1 := m0["x" := cut];
    var m2 := m1["u" := d];
    var m3 := m2["c" := d];
    EchoFirst(m0);
    var full := m3["y" := cut];
    assert full == EchoFound();
    EchoAgain(m3);
    EchoAgain(full);
    EchoEnds(m0, m3);
  }

  lemma EchoEnds(m0: ClockMap, m1: ClockMap)
    requires m0 == PortClocks(EchoNode()) && Pass(EchoNode(), m0, 4) == m1 && Pass(EchoNode(), m1, 4) == EchoFound()
    requires Pass(EchoNode(), EchoFound(), 4) == EchoFound()
    ensures Inferred(EchoNode()) == EchoFound()
  {
    var node := EchoNode();
    hide Pass, EchoFound;
    assert After(node, m0, 1) == Pass(node, After(node, m0, 0), 4);
    assert After(node, m0, 2) == Pass(node, After(node, m0, 1), 4);
    Settled(node, m0, 2, 5);
  }

  lemma EchoFirst(m0: ClockMap)
    requires m0 == map["a" := Base, "b" := Base, "d" := Base]
    ensures Pass(EchoNode(), m0, 4) == m0["x" := On("c", true, Base)]["u" := On("d", true, Base)]["c" := On("d", true, Base)]
  {
    var d, cut := On("d", true, Base), On("c", true, Base);
    var m1 := m0["x" := cut];
    var m2 := m1["u" := d];
    EchoNaturals(m0);
    EchoNaturals(m1);
    EchoNaturals(m2);
    assert NaturalClock(When(Var("u"), "c", true), m0) == Some(cut);
    assert NaturalClock(EchoNode().equations[0].rhs, m0) == None;
    EchoTurn(m0, 1, cut);
    EchoTurn(m1, 2, d);
    EchoTurn(m2, 3, d);
    EchoPass(m0, m0, m1, m2, m2["c" := d]);
  }

  lemma EchoAgain(vc: ClockMap)
    requires vc == EchoFound() || vc == EchoFound() - {"y"}
    ensures Pass(EchoNode(), vc, 4) == EchoFound()
  {
    var full := EchoFound();
    EchoNaturals(vc);
    EchoNaturals(full);
    EchoTurn(vc, 0, On("c", true, Base));
    EchoTurn(full, 1, On("c", true, Base));
    EchoTurn(full, 2, On("d", true, Base));
    EchoTurn(full, 3, On("d", true, Base));
    assert vc["y" := On("c", true, Base)] == full;
    assert full["x" := On("c", true, Base)] == full && full["u" := On("d", true, Base)] == full;
    EchoPass(vc, full, full, full, full);
  }

  lemma EchoSuits()
    ensures forall k | 0 <= k < 4 :: Suits(EchoNode().equations[k], EchoClocks())
    ensures forall x | x in EchoClocks() :: GroundedClock(EchoClocks()[x], EchoClocks())
    ensures forall k | 0 <= k < 4 :: Determined(EchoNode().equations[k].rhs, {})
  {
    var eqs := EchoNode().equations;
    assert Suits(eqs[0], EchoClocks());
    assert Suits(eqs[1], EchoClocks());
    assert Suits(eqs[2], EchoClocks());
    assert Suits(eqs[3], EchoClocks());
    assert Determined(eqs[0].rhs, {}) && Determined(eqs[1].rhs, {});
  }

  lemma EchoReported()
    ensures EquationErrors(EchoNode().equations[1], EchoFound()) != []
  {
    var vc, x := EchoFound(), EchoNode().equations[1];
    var sampled := When(Var("u"), "c", true);
    EchoNaturals(vc);
    assert EquationClock(x, vc) == On("c", true, Base);
    assert ClockVariableErrors("c", Base, vc) != [];
    assert Violations(sampled, On("c", true, Base), vc) != [];
  }

  /** Inference is not complete: this node obeys the rules on clocks that sample
      where their conditions are, and yet an error is reported. Its two streams
      wait for each other and neither is prompt. */
  lemma WellClockedNodeReported()
    ensures Right(EchoNode(), EchoClocks())
    ensures forall x | x in EchoClocks() :: GroundedClock(EchoClocks()[x], EchoClocks())
    ensures AllDetermined(EchoNode().equations, EchoClocks())
    ensures !NoErrors(EchoNode(), Inferred(EchoNode()))
    ensures !Findable(EchoNode(), EchoClocks())
  {
    hide Right, AllDetermined, EquationErrors, GroundedClock, Findable, Inferred, EchoFound;
    EchoPasses();
    EchoSuits();
    EchoRight();
    EchoReported();
    if Findable(EchoNode(), EchoClocks()) { AnyOrderFound(EchoNode(), EchoClocks()); }
  }

  lemma EchoRight()
    ensures Right(EchoNode(), EchoClocks()) && AllDetermined(EchoNode().equations, EchoClocks())
  {
    hide Suits, Determined;
    EchoSuits();
    EchoDefined();
    EchoPorts();
  }

  lemma EchoPorts()
    ensures Ports(EchoNode()) == {"a", "b", "d"}
  {
  }

  lemma EchoDefined()
    ensures UniqueDefinitions(EchoNode().equations)
    ensures Defined(EchoNode().equations) == {"y", "x", "u", "c"}
  {
    var eqs := EchoNode().equations;
    assert eqs[0].lhs == "y" && eqs[1].lhs == "x" && eqs[2].lhs == "u" && eqs[3].lhs == "c";
  }
}
