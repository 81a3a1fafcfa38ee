/** The base-clock program can be scheduled whenever the clocked node can, and
    the whole of clock elimination put together. */
module DeclockCausality {
  import opened Lustre
  import opened Graphs
  import opened Order
  import opened Execution
  import opened Clocks
  import opened Inference
  import opened Options
  import opened Absence
  import opened Declock
  import opened DeclockMeaning
  import opened Declocker
  import opened Causality

  // ---------------------------------------------------------------- what images read

  /** The reads a rewriting adds to those of the original: activation flags of
      clocks whose conditions are at hand, and first-tick flags. */
  ghost predicate ReadAllowed(T: Tables, vars: set<string>, x: string) {
    || x in vars
    || (exists ck :: ck in T.act && T.act[ck] == x && Conditions(ck) <= vars)
    || (exists ck :: ck in T.first && T.first[ck] == x)
  }

  lemma AllowedMore(T: Tables, small: set<string>, large: set<string>, x: string)
    requires ReadAllowed(T, small, x) && small <= large
    ensures ReadAllowed(T, large, x)
  {
  }

  lemma {:induction false} RewrittenReads(e: Expr, ck: Clock, r: Expr, T: Tables, functions: set<string>, x: string)
    requires Rewrites(e, ck, r, T, functions) && x in Reads(r)
    ensures ReadAllowed(T, Reads(e) + Conditions(ck), x)
    decreases e
  {
    var vars := Reads(e) + Conditions(ck);
    match e
    case Const(_) =>
    case Var(_) =>
    case Unary(_, a) => RewrittenReads(a, ck, r.arg, T, functions, x);
    case Binary(_, a, b) => RewrittenReadsTwo(a, ck, r.lhs, b, ck, r.rhs, e, T, functions, vars, x);
    case If(c, a, b) =>
      if x in Reads(r.cond) {
        RewrittenReads(c, ck, r.cond, T, functions, x);
        AllowedMore(T, Reads(c) + Conditions(ck), vars, x);
      } else {
        RewrittenReadsTwo(a, ck, r.thn, b, ck, r.els, e, T, functions, vars, x);
      }
    case Pre(_) =>
    case Arrow(a, b) =>
      if ck.Base? {
        RewrittenReadsTwo(a, ck, r.init, b, ck, r.body, e, T, functions, vars, x);
      } else if x in Reads(r.thn) + Reads(r.els) {
        RewrittenReadsTwo(a, ck, r.thn, b, ck, r.els, e, T, functions, vars, x);
      }
    case When(a, _, _) =>
      RewrittenReads(a, Parent(ck), r, T, functions, x);
      AllowedMore(T, Reads(a) + Conditions(Parent(ck)), vars, x);
    case Merge(c, a, b) =>
      if x in Reads(r.thn) + Reads(r.els) {
        RewrittenReadsTwo(a, On(c, true, ck), r.thn, b, On(c, false, ck), r.els, e, T, functions, vars, x);
      }
    case Call(_, _, args) =>
      if x in ReadsAll(r.args) {
        RewrittenReadsArgs(args, ck, r.args, T, functions, x);
      } else {
        assert r.Condact? && x in Reads(r.act);
        assert T.act[ck] == x && Conditions(ck) <= vars;
      }
    case Condact(_, _, _, _, _) =>
  }

  lemma {:induction false} RewrittenReadsTwo(a: Expr, ca: Clock, r: Expr, b: Expr, cb: Clock, s: Expr, whole: Expr,
                                             T: Tables, functions: set<string>, vars: set<string>, x: string)
    requires a < whole && b < whole
    requires Rewrites(a, ca, r, T, functions) && Rewrites(b, cb, s, T, functions) && x in Reads(r) + Reads(s)
    requires Reads(a) + Conditions(ca) + Reads(b) + Conditions(cb) <= vars
    ensures ReadAllowed(T, vars, x)
    decreases whole, 0
  {
    if x in Reads(r) {
      RewrittenReads(a, ca, r, T, functions, x);
      AllowedMore(T, Reads(a) + Conditions(ca), vars, x);
    } else {
      RewrittenReads(b, cb, s, T, functions, x);
      AllowedMore(T, Reads(b) + Conditions(cb), vars, x);
    }
  }

  lemma {:induction false} RewrittenReadsArgs(args: seq<Expr>, ck: Clock, rs: seq<Expr>, T: Tables, functions: set<string>, x: string)
    requires RewritesAll(args, ck, rs, T, functions) && x in ReadsAll(rs)
    ensures ReadAllowed(T, ReadsAll(args) + Conditions(ck), x)
    decreases args
  {
    if x in Reads(rs[0]) {
      RewrittenReads(args[0], ck, rs[0], T, functions, x);
      AllowedMore(T, Reads(args[0]) + Conditions(ck), ReadsAll(args) + Conditions(ck), x);
    } else {
      assert forall i | 0 <= i < |args[1..]| :: args[1..][i] == args[i+1] && rs[1..][i] == rs[i+1];
      RewrittenReadsArgs(args[1..], ck, rs[1..], T, functions, x);
      AllowedMore(T, ReadsAll(args[1..]) + Conditions(ck), ReadsAll(args) + Conditions(ck), x);
    }
  }

  // ---------------------------------------------------------------- ranks

  /** Positions of the node's variables in an order of its gated equations. */
  ghost predicate Placed(sys: seq<Clocked>, place: map<string, nat>) {
    && place.Keys == DefinedVars(sys)
    && (forall x | x in place :: place[x] < |sys|)
    && (forall i, y | 0 <= i < |sys| && y in Needs(sys[i]) && y in place :: place[y] < place[sys[i].eq.lhs])
  }

  /** One more than the latest position among the variables, 0 if all are inputs. */
  ghost predicate Bounds(place: map<string, nat>, vars: set<string>, m: nat) {
    && (forall x | x in vars && x in place :: place[x] < m)
    && (m == 0 || exists x :: x in vars && x in place && place[x] + 1 == m)
  }

  ghost function Bound(place: map<string, nat>, vars: set<string>): (m: nat)
    ensures Bounds(place, vars, m)
  {
    if vars == {} then 0 else
    var x :| x in vars;
    var m := Bound(place, vars - {x});
    if x in place && place[x] + 1 > m then place[x] + 1 else m
  }

  ghost function MaxDepth(clocks: set<Clock>): (m: nat)
    ensures forall ck | ck in clocks :: Depth(ck) <= m
  {
    if clocks == {} then 0 else
    var ck :| ck in clocks;
    var m := MaxDepth(clocks - {ck});
    if Depth(ck) > m then Depth(ck) else m
  }

  ghost function Unit(T: Tables): nat {
    MaxDepth(T.act.Keys) + 1
  }

  ghost function ActRank(place: map<string, nat>, T: Tables, ck: Clock): nat {
    Bound(place, Conditions(ck)) * Unit(T) + Depth(ck)
  }

  ghost predicate IsAct(T: Tables, y: string, ck: Clock) {
    ck in T.act && T.act[ck] == y
  }

  ghost predicate IsFirst(T: Tables, y: string, ck: Clock) {
    ck in T.first && T.first[ck] == y
  }

  /** Variables by position; each flag just after the last of its conditions,
      below its parent's flag; holds last. */
  ghost function RankOf(place: map<string, nat>, T: Tables, n: nat, y: string): nat {
    if y in place then (place[y] + 1) * Unit(T)
    else if ck :| IsAct(T, y, ck) then ActRank(place, T, ck)
    else if exists ck :: IsFirst(T, y, ck) then 0
    else (n + 2) * Unit(T)
  }

  lemma Scale(a: nat, b: nat, k: nat, d: nat)
    requires a < b && d < k
    ensures a * k + d < b * k
  {
    assert (a + 1) * k <= b * k;
  }

  lemma ActRankOf(place: map<string, nat>, T: Tables, n: nat, ck: Clock)
    requires DistinctNames(T) && ck in T.act && T.act[ck] !in place
    ensures RankOf(place, T, n, T.act[ck]) == ActRank(place, T, ck)
  {
    assert IsAct(T, T.act[ck], ck);
    assert forall c | IsAct(T, T.act[ck], c) :: c == ck;
  }

  lemma FirstRankOf(place: map<string, nat>, T: Tables, n: nat, ck: Clock)
    requires DistinctNames(T) && ck in T.first && T.first[ck] !in place
    ensures RankOf(place, T, n, T.first[ck]) == 0
  {
    assert forall c :: !IsAct(T, T.first[ck], c);
    assert IsFirst(T, T.first[ck], ck);
  }

  lemma HoldRankOf(place: map<string, nat>, T: Tables, n: nat, j: nat)
    requires DistinctNames(T) && j < |T.holds| && T.holds[j].name !in place
    ensures RankOf(place, T, n, T.holds[j].name) == (n + 2) * Unit(T)
  {
    assert forall c :: !IsAct(T, T.holds[j].name, c);
    assert forall c :: !IsFirst(T, T.holds[j].name, c);
  }

  /** A flag ranks below a variable placed after all the flag's conditions. */
  lemma FlagBelow(place: map<string, nat>, T: Tables, ck: Clock, m: nat)
    requires ck in T.act && forall x | x in Conditions(ck) && x in place :: place[x] < m
    ensures ActRank(place, T, ck) < (m + 1) * Unit(T)
  {
    Scale(Bound(place, Conditions(ck)), m + 1, Unit(T), Depth(ck));
  }

  /** Names the tables introduced are not variables of the node. */
  ghost predicate Separate(T: Tables, place: map<string, nat>) {
    DistinctNames(T) && NamesOf(T) !! place.Keys
  }

  lemma ReadRank(place: map<string, nat>, T: Tables, n: nat, vars: set<string>, m: nat, x: string)
    requires Separate(T, place) && ReadAllowed(T, vars, x)
    requires forall y | y in vars && y in place :: place[y] < m
    requires NamesOf(T) !! vars && (x in place || x in NamesOf(T))
    ensures RankOf(place, T, n, x) < (m + 1) * Unit(T)
  {
    NamesListed(T);
    if x in vars && x in place {
      Scale(place[x] + 1, m + 1, Unit(T), 0);
    } else if ck :| ck in T.act && T.act[ck] == x && Conditions(ck) <= vars {
      ActRankOf(place, T, n, ck);
      FlagBelow(place, T, ck, m);
    } else if ck :| ck in T.first && T.first[ck] == x {
      FirstRankOf(place, T, n, ck);
      Scale(0, m + 1, Unit(T), 0);
    }
  }

  // ---------------------------------------------------------------- the program is ranked

  ghost predicate Setup(sys: seq<Clocked>, T: Tables, functions: set<string>, vars: set<string>, place: map<string, nat>) {
    && TablesOk(T, functions, vars) && Placed(sys, place)
    && (forall i | 0 <= i < |sys| :: Needs(sys[i]) + {sys[i].eq.lhs} <= vars)
  }

  lemma SetupSeparate(sys: seq<Clocked>, T: Tables, functions: set<string>, vars: set<string>, place: map<string, nat>)
    requires Setup(sys, T, functions, vars, place)
    ensures Separate(T, place) && place.Keys <= vars
  {
  }

  lemma Monotone(a: nat, b: nat, k: nat)
    requires a <= b
    ensures a * k <= b * k
  {
  }

  lemma ActReads(T: Tables, ck: Clock, x: string)
    requires ck.On? && ck in T.act && x in Reads(ActEquation(T, ck).rhs)
    ensures x == ck.clock || (ck.parent in T.act && x == T.act[ck.parent])
  {
    var cond := if ck.on then Var(ck.clock) else Unary(Not, Var(ck.clock));
    assert Reads(cond) == {ck.clock};
  }

  lemma ClockBelow(place: map<string, nat>, T: Tables, ck: Clock)
    requires ck.On? && ck.clock in place
    ensures (place[ck.clock] + 1) * Unit(T) < ActRank(place, T, ck)
  {
    var b := Bound(place, Conditions(ck));
    assert ck.clock in Conditions(ck);
    Monotone(place[ck.clock] + 1, b, Unit(T));
  }

  lemma ParentBelow(place: map<string, nat>, T: Tables, ck: Clock)
    requires ck.On?
    ensures ActRank(place, T, ck.parent) < ActRank(place, T, ck)
  {
    var a, b := Bound(place, Conditions(ck.parent)), Bound(place, Conditions(ck));
    if a > 0 {
      var x :| x in Conditions(ck.parent) && x in place && place[x] + 1 == a;
      assert x in Conditions(ck);
    }
    Monotone(a, b, Unit(T));
  }

  lemma ActRanked(T: Tables, place: map<string, nat>, n: nat, ck: Clock, x: string)
    requires Separate(T, place) && ck in T.act && ck.On? && ck.clock !in NamesOf(T)
    requires x in Reads(ActEquation(T, ck).rhs) && (x in place || x in NamesOf(T))
    ensures RankOf(place, T, n, x) < RankOf(place, T, n, T.act[ck])
  {
    ActReads(T, ck, x);
    assert T.act[ck] !in place by { NamesListed(T); }
    ActRankOf(place, T, n, ck);
    if x == ck.clock {
      ClockBelow(place, T, ck);
    } else {
      assert x !in place by { NamesListed(T); }
      ActRankOf(place, T, n, ck.parent);
      ParentBelow(place, T, ck);
    }
  }

  lemma FirstRanked(T: Tables, ck: Clock)
    requires ck in T.act && ck in T.first
    ensures Reads(FirstEquation(T, ck).rhs) == {}
  {
    var rhs := FirstEquation(T, ck).rhs;
    assert Reads(rhs.body.lhs) == {} && Reads(rhs.body.rhs) == {};
  }

  lemma HoldReads(T: Tables, functions: set<string>, vars: set<string>, j: nat, x: string)
    requires TablesOk(T, functions, vars) && j < |T.holds|
    requires x in Reads(HoldEquation(T, T.holds[j]).rhs)
    ensures
      var needs := Reads(T.holds[j].operand) + Conditions(T.holds[j].ck);
      ReadAllowed(T, needs, x) && needs <= vars
  {
    var h := T.holds[j];
    ReadsNames(h.operand);
    ClosedConditions(T, functions, vars, h.ck);
    if x in Reads(h.inner) {
      RewrittenReads(h.operand, h.ck, h.inner, T, functions, x);
    } else {
      assert x == T.act[h.ck];
    }
  }

  lemma ImageReads(c: Clocked, T: Tables, functions: set<string>, r: Equation, x: string)
    requires EquationRewrites(c, r, T, functions) && x in Reads(r.rhs)
    ensures ReadAllowed(T, Needs(c), x)
  {
    var body := if c.ck.Base? then r.rhs else r.rhs.thn;
    if x in Reads(body) {
      RewrittenReads(c.eq.rhs, c.ck, body, T, functions, x);
    } else {
      assert Reads(r.rhs.els) == {};
      assert x in Reads(r.rhs.cond) && x == T.act[c.ck];
    }
  }

  lemma HoldRanked(T: Tables, functions: set<string>, vars: set<string>, place: map<string, nat>, n: nat, j: nat, x: string)
    requires TablesOk(T, functions, vars) && place.Keys <= vars && j < |T.holds|
    requires forall y | y in place :: place[y] < n
    requires x in Reads(HoldEquation(T, T.holds[j]).rhs) && (x in place || x in NamesOf(T))
    ensures RankOf(place, T, n, x) < RankOf(place, T, n, T.holds[j].name)
  {
    assert T.holds[j].name !in place by { NamesListed(T); }
    HoldRankOf(place, T, n, j);
    HoldReads(T, functions, vars, j, x);
    var h := T.holds[j];
    ReadRank(place, T, n, Reads(h.operand) + Conditions(h.ck), n, x);
    Scale(n + 1, n + 2, Unit(T), 0);
  }

  /** The conditions of a clock with a flag are variables of the node. */
  lemma {:induction false} ClosedConditions(T: Tables, functions: set<string>, vars: set<string>, ck: Clock)
    requires TablesOk(T, functions, vars) && ck in T.act
    ensures Conditions(ck) <= vars
    decreases ck
  {
    if ck.parent.On? { ClosedConditions(T, functions, vars, ck.parent); }
  }

  lemma ImageRanked(sys: seq<Clocked>, T: Tables, functions: set<string>, vars: set<string>, place: map<string, nat>, i: nat, r: Equation, x: string)
    requires Setup(sys, T, functions, vars, place) && i < |sys| && EquationRewrites(sys[i], r, T, functions)
    requires x in Reads(r.rhs) && (x in place || x in NamesOf(T))
    ensures RankOf(place, T, |sys|, x) < RankOf(place, T, |sys|, r.lhs)
  {
    hide Rewrites, Closed, DistinctNames, NamesOf, Separate, ReadAllowed, Reads;
    SetupSeparate(sys, T, functions, vars, place);
    ImageReads(sys[i], T, functions, r, x);
    ReadRank(place, T, |sys|, Needs(sys[i]), place[r.lhs], x);
  }

  lemma AccountedRanked(sys: seq<Clocked>, T: Tables, functions: set<string>, vars: set<string>, place: map<string, nat>, r: Equation, x: string)
    requires Setup(sys, T, functions, vars, place) && Accounted(sys, r, T, functions)
    requires x in Reads(r.rhs) && (x in place || x in NamesOf(T))
    ensures RankOf(place, T, |sys|, x) < RankOf(place, T, |sys|, r.lhs)
  {
    if ck :| ck in T.act && r == ActEquation(T, ck) {
      SetupSeparate(sys, T, functions, vars, place);
      ActRanked(T, place, |sys|, ck, x);
    } else if ck :| ck in T.first && r == FirstEquation(T, ck) {
      FirstRanked(T, ck);
    } else if j :| 0 <= j < |T.holds| && r == HoldEquation(T, T.holds[j]) {
      SetupSeparate(sys, T, functions, vars, place);
      HoldRanked(T, functions, vars, place, |sys|, j, x);
    } else {
      var i :| 0 <= i < |sys| && EquationRewrites(sys[i], r, T, functions);
      ImageRanked(sys, T, functions, vars, place, i, r, x);
    }
  }

  lemma DefinedNames(sys: seq<Clocked>, out: seq<Equation>, T: Tables, functions: set<string>, x: string)
    requires Declocked(sys, out, T, functions) && x in Defined(out)
    ensures x in DefinedVars(sys) || x in NamesOf(T)
  {
    NamesListed(T);
    var k :| 0 <= k < |out| && out[k].lhs == x;
    assert Accounted(sys, out[k], T, functions);
  }

  /** The base-clock program reads, in each cycle, only what ranks below. */
  lemma DeclockedRanked(sys: seq<Clocked>, out: seq<Equation>, T: Tables, functions: set<string>, vars: set<string>, place: map<string, nat>)
    requires Setup(sys, T, functions, vars, place) && Declocked(sys, out, T, functions)
    ensures Ranked(out, y => RankOf(place, T, |sys|, y))
  {
    forall k, x | 0 <= k < |out| && x in Reads(out[k].rhs) && x in Defined(out)
      ensures RankOf(place, T, |sys|, x) < RankOf(place, T, |sys|, out[k].lhs)
    {
      DefinedNames(sys, out, T, functions, x);
      assert Accounted(sys, out[k], T, functions);
      AccountedRanked(sys, T, functions, vars, place, out[k], x);
    }
  }

  // ---------------------------------------------------------------- clock elimination, whole

  ghost function Place(r: seq<Clocked>): map<string, nat> {
    map x | x in DefinedVars(r) :: var k: nat :| k < |r| && r[k].eq.lhs == x; k
  }

  lemma PlaceArranged(sys: seq<Clocked>, order: seq<nat>)
    requires UniqueDefinitions(Equations(sys)) && Topological(NeedGraph(sys), order)
    ensures InRange(order, |sys|) && Placed(sys, Place(Arrange(sys, order)))
  {
    ArrangeCausal(sys, order);
    ArrangeDefined(sys, order);
    var r := Arrange(sys, order);
    assert Place(r).Keys == DefinedVars(sys);
    forall i, y | 0 <= i < |sys| && y in Needs(sys[i]) && y in Place(r)
      ensures sys[i].eq.lhs in Place(r) && Place(r)[y] < Place(r)[sys[i].eq.lhs]
    {
      PlacedAt(sys, order, i, y);
    }
    forall x | x in Place(r) ensures Place(r)[x] < |sys| {
      DistinctBound(order, UpTo(|sys|));
    }
  }

  lemma PlacedAt(sys: seq<Clocked>, order: seq<nat>, i: nat, y: string)
    requires InRange(order, |sys|) && Elements(order) == UpTo(|sys|) && Causal(Arrange(sys, order))
    requires i < |sys| && y in Needs(sys[i]) && y in Place(Arrange(sys, order))
    ensures
      var place := Place(Arrange(sys, order));
      sys[i].eq.lhs in place && place[y] < place[sys[i].eq.lhs]
  {
    var r := Arrange(sys, order);
    assert i in Elements(order);
    var k :| 0 <= k < |order| && order[k] == i;
    assert r[k] == sys[i];
    PlaceBefore(r, k, y);
  }

  lemma PlaceBefore(r: seq<Clocked>, k: nat, y: string)
    requires Causal(r) && k < |r| && y in Needs(r[k]) && y in Place(r)
    ensures r[k].eq.lhs in Place(r) && Place(r)[y] < Place(r)[r[k].eq.lhs]
  {
    PlaceAt(r, k);
    assert y in Needs(r[k]) * DefinedVars(r);
    assert y in DefinedVars(r[..k]);
    var j :| 0 <= j < |r[..k]| && r[..k][j].eq.lhs == y;
    PlaceAt(r, j);
  }

  lemma PlaceAt(r: seq<Clocked>, k: nat)
    requires Causal(r) && k < |r|
    ensures r[k].eq.lhs in Place(r) && Place(r)[r[k].eq.lhs] == k
  {
    var x := r[k].eq.lhs;
    assert x in DefinedVars(r);
    var j := Place(r)[x];
    assert j < |r| && r[j].eq.lhs == x;
    assert !(j < k) && !(k < j);
  }

  lemma {:induction false} RankedWalk(out: seq<Equation>, rank: string -> nat, p: seq<nat>, last: nat)
    requires UniqueDefinitions(out) && Ranked(out, rank) && Walk(ReadGraph(out), p) && last < |p|
    ensures p[0] < |out| && p[last] < |out|
    ensures last > 0 ==> rank(out[p[last]].lhs) < rank(out[p[0]].lhs)
  {
    WalkRange(ReadGraph(out), |out|, p);
    if last > 0 {
      RankedWalk(out, rank, p, last - 1);
      assert Edge(ReadGraph(out), p[last-1], p[last-1+1]);
      ReadGraphEdge(out, p[last-1], p[last]);
      assert out[p[last]].lhs in Defined(out);
    }
  }

  lemma RankedAcyclic(out: seq<Equation>, rank: string -> nat)
    requires UniqueDefinitions(out) && Ranked(out, rank)
    ensures Acyclic(ReadGraph(out))
  {
    forall p: seq<nat> ensures !Cycle(ReadGraph(out), p) {
      if Cycle(ReadGraph(out), p) {
        RankedWalk(out, rank, p, |p| - 1);
      }
    }
  }

  /** A node that clock inference accepts and whose reads can be ordered, with its rewriting. */
  ghost predicate Accepted(node: Node, vc: ClockMap, out: Node, T: Tables, functions: set<string>) {
    && Scoped(node) && UniqueDefinitions(node.equations) && Defined(node.equations) <= DeclaredTypes(node).Keys
    && ConditionsMentioned(node.equations, vc)
    && WellClocked(ClockedEquations(node, vc), vc)
    && Acyclic(ReadGraph(node.equations))
    && DeclockedNode(node, vc, out, T, functions)
  }

  /** What the pass makes of a node is accepted, if every variable got a clock
      and the node admits an evaluation order. */
  lemma DeclockedAccepted(node: Node, out: Node, T: Tables, functions: set<string>)
    requires Scoped(node) && UniqueDefinitions(node.equations) && Defined(node.equations) <= DeclaredTypes(node).Keys
    requires NoErrors(node, Inferred(node)) && AllClocked(node, Inferred(node)) && Acyclic(ReadGraph(node.equations))
    requires DeclockedNode(node, Inferred(node), out, T, functions)
    ensures Accepted(node, Inferred(node), out, T, functions)
  {
    InferredIsWellClocked(node);
    AfterDeclared(node, |node.equations| + 1);
  }

  lemma SystemDefined(node: Node, vc: ClockMap)
    ensures DefinedVars(ClockedEquations(node, vc)) == Defined(node.equations)
  {
    var sys := ClockedEquations(node, vc);
    forall x | x in Defined(node.equations) ensures x in DefinedVars(sys) {
      var i :| 0 <= i < |node.equations| && node.equations[i].lhs == x;
      assert sys[i].eq.lhs == x;
    }
    forall x | x in DefinedVars(sys) ensures x in Defined(node.equations) {
      var i :| 0 <= i < |sys| && sys[i].eq.lhs == x;
      assert node.equations[i].lhs == x;
    }
  }

  lemma SystemScoped(node: Node, vc: ClockMap, i: nat)
    requires Scoped(node) && Defined(node.equations) <= DeclaredTypes(node).Keys
    requires ConditionsMentioned(node.equations, vc) && i < |node.equations|
    ensures
      var c := ClockedEquations(node, vc)[i];
      Needs(c) + Names(c.eq.rhs) + {c.eq.lhs} <= DeclaredTypes(node).Keys
  {
    ClocksScoped(node, vc, i);
    ReadsNames(node.equations[i].rhs);
    assert node.equations[i].lhs in Defined(node.equations);
  }

  lemma AcceptedPlace(node: Node, vc: ClockMap) returns (place: map<string, nat>)
    requires UniqueDefinitions(node.equations) && WellClocked(ClockedEquations(node, vc), vc)
    requires Acyclic(ReadGraph(node.equations))
    ensures Placed(ClockedEquations(node, vc), place)
  {
    var sys := ClockedEquations(node, vc);
    assert Equations(sys) == node.equations;
    GatesCloseNoCycle(sys, vc);
    var order := AcyclicOrder(NeedGraph(sys));
    PlaceArranged(sys, order);
    place := Place(Arrange(sys, order));
  }

  lemma AcceptedRanked(node: Node, vc: ClockMap, out: Node, T: Tables, functions: set<string>) returns (rank: string -> nat)
    requires Accepted(node, vc, out, T, functions)
    ensures Ranked(out.equations, rank)
  {
    var sys := ClockedEquations(node, vc);
    var vars := DeclaredTypes(node).Keys;
    var place := AcceptedPlace(node, vc);
    forall i | 0 <= i < |sys| ensures Needs(sys[i]) + {sys[i].eq.lhs} <= vars {
      SystemScoped(node, vc, i);
    }
    DeclockedRanked(sys, out.equations, T, functions, vars, place);
    rank := y => RankOf(place, T, |sys|, y);
  }

  /** If the clocked node admits an evaluation order, so does its base-clock program. */
  lemma DeclockedAcyclic(node: Node, vc: ClockMap, out: Node, T: Tables, functions: set<string>)
    requires Accepted(node, vc, out, T, functions)
    ensures Acyclic(ReadGraph(out.equations))
  {
    var rank := AcceptedRanked(node, vc, out, T, functions);
    RankedAcyclic(out.equations, rank);
  }

  /** `t` is an error-free held run of the node. */
  ghost predicate HeldRun(cx: Context, node: Node, vc: ClockMap, t: Trace) {
    && cx.nil == Undef && Run(cx, ClockedEquations(node, vc), t)
    && forall n: nat, x | x in DeclaredTypes(node) :: !t(n, x).Undef?
  }

  ghost predicate SameInputs(node: Node, t: Trace, u: Trace) {
    forall n: nat, x | x in DeclaredTypes(node) && x !in Defined(node.equations) :: u(n, x) == t(n, x)
  }

  /** Every run of the base-clock program on the node's inputs, whatever an
      uninitialized `pre` gives, agrees with the held run on every variable of
      the node at every cycle. */
  lemma DeclockEveryRun(cx: Context, nil: Value, node: Node, vc: ClockMap, out: Node, T: Tables, t: Trace, u: Trace, n: nat)
    requires Accepted(node, vc, out, T, cx.functions) && HeldRun(cx, node, vc, t)
    requires Run(cx.(nil := nil), BaseSystem(out.equations), u) && SameInputs(node, t, u)
    ensures forall x | x in DeclaredTypes(node) :: u(n, x) == t(n, x)
    ensures forall ck | ck in T.act :: IsFlag(u(n, T.act[ck]), Active(ck, t, n))
    ensures forall ck | ck in T.first :: IsFlag(u(n, T.first[ck]), !Ticked(ck, t, n))
  {
    var sys := ClockedEquations(node, vc);
    var rank := AcceptedRanked(node, vc, out, T, cx.functions);
    var p := Pair(cx, nil, DeclaredTypes(node).Keys, T, t, u);
    SystemDefined(node, vc);
    forall i | 0 <= i < |sys| ensures Names(sys[i].eq.rhs) + {sys[i].eq.lhs} <= p.vars {
      SystemScoped(node, vc, i);
    }
    assert Compared(p, sys, out.equations);
    DeclockPreserves(p, sys, out.equations, rank, n);
    assert forall ck | ck in T.act :: ActAgrees(p, n, ck);
    assert forall ck | ck in T.first :: FirstAgrees(p, n, ck);
  }

  /** The base-clock program does run on the node's inputs. */
  lemma DeclockSomeRun(cx: Context, nil: Value, node: Node, vc: ClockMap, out: Node, T: Tables, t: Trace) returns (u: Trace)
    requires Accepted(node, vc, out, T, cx.functions)
    ensures Run(cx.(nil := nil), BaseSystem(out.equations), u) && SameInputs(node, t, u)
  {
    DeclockedAcyclic(node, vc, out, T, cx.functions);
    u := BaseSomeRun(cx.(nil := nil), out.equations, t);
    forall n: nat, x | x in DeclaredTypes(node) && x !in Defined(node.equations) ensures u(n, x) == t(n, x) {
      InputsUndefined(node, vc, out, T, cx.functions, x);
    }
  }

  /** On the base clock, reads are the only needs. */
  lemma BaseNeeds(eqs: seq<Equation>)
    ensures NeedGraph(BaseSystem(eqs)) == ReadGraph(eqs) && Equations(BaseSystem(eqs)) == eqs
  {
    var sys := BaseSystem(eqs);
    assert Equations(sys) == eqs;
    forall i | 0 <= i < |sys| ensures AllNeeds(sys)[i] == SameCycleReads(eqs)[i] {
      assert Needs(sys[i]) == Reads(eqs[i].rhs);
    }
    assert AllNeeds(sys) == SameCycleReads(eqs);
  }

  lemma BaseMentions(eqs: seq<Equation>)
    ensures Mentions(BaseSystem(eqs), Mentioned(eqs) + Defined(eqs))
  {
    hide Names;
  }

  lemma BaseSomeRun(cx: Context, eqs: seq<Equation>, t: Trace) returns (u: Trace)
    requires UniqueDefinitions(eqs) && Acyclic(ReadGraph(eqs))
    ensures Run(cx, BaseSystem(eqs), u)
    ensures forall n: nat, x | x !in DefinedVars(BaseSystem(eqs)) :: u(n, x) == t(n, x)
  {
    hide ReadGraph, NeedGraph, Acyclic, UniqueDefinitions, Mentions, Run, Topological, Executed, Arrange;
    var sys := BaseSystem(eqs);
    BaseNeeds(eqs);
    var order := AcyclicOrder(NeedGraph(sys));
    var names := Mentioned(eqs) + Defined(eqs);
    BaseMentions(eqs);
    OrderComputesTheRun(cx, sys, order, names, t);
    u := Executed(cx, Arrange(sys, order), t);
  }

  lemma InputsUndefined(node: Node, vc: ClockMap, out: Node, T: Tables, functions: set<string>, x: string)
    requires Accepted(node, vc, out, T, functions)
    requires x in DeclaredTypes(node) && x !in Defined(node.equations)
    ensures x !in DefinedVars(BaseSystem(out.equations))
  {
    var sys := ClockedEquations(node, vc);
    SystemDefined(node, vc);
    if x in DefinedVars(BaseSystem(out.equations)) {
      var k :| 0 <= k < |out.equations| && BaseSystem(out.equations)[k].eq.lhs == x;
      assert out.equations[k].lhs in Defined(out.equations);
      DefinedNames(sys, out.equations, T, functions, x);
    }
  }
}
