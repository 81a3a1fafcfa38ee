/** What a node remembers when its calls are moved out: each `pre` is written on
    the same ticks before and after, so equal memories stay equal on every run. */
module RteMemories {
  import opened FreshNames
  import opened CIntegers
  import opened Rte
  import opened RteSound
  import opened RteNode
  import opened RteHoist

  /** Conditional activations as clock elimination makes them: on a variable
      that holds only where the clocks around it tick, with constant defaults. */
  ghost predicate Gated(e: Expr, clocks: seq<Expr>, s: State)
    decreases e, 1
  {
    match e
    case Lit(_) => true
    case Bool(_) => true
    case Var(_) => true
    case Neg(a) => Gated(a, clocks, s)
    case Not(a) => Gated(a, clocks, s)
    case Arith(_, a, b) => Gated(a, clocks, s) && Gated(b, clocks, s)
    case Compare(_, a, b) => Gated(a, clocks, s) && Gated(b, clocks, s)
    case Logic(_, a, b) => Gated(a, clocks, s) && Gated(b, clocks, s)
    case If(c, a, b) => Gated(c, clocks, s) && Gated(a, BranchClocks(c, clocks), s) && Gated(b, clocks, s)
    case Arrow(a, b) => Gated(a, clocks, s) && Gated(b, clocks, s)
    case Pre(a) => Gated(a, clocks, s)
    case Index(_, i) => Gated(i, clocks, s)
    case Cast(_, a) => Gated(a, clocks, s)
    case Call(_, _, args) => GatedAll(args, clocks, s)
    case Condact(act, _, _, args, d) =>
      && act.Var? && (d.Lit? || d.Bool?) && (Math(act, s) != 0 ==> ClocksTick(clocks, s))
      && GatedAll(args, clocks + [act], s)
  }

  ghost predicate GatedAll(args: seq<Expr>, clocks: seq<Expr>, s: State)
    decreases args, 0
  {
    forall i | 0 <= i < |args| :: Gated(args[i], clocks, s)
  }

  /** No new local is named like a clock. */
  ghost predicate PlainLocals(names: nat -> string) {
    forall i: nat :: !IsClock(Var(names(i)))
  }

  predicate AllVars(clocks: seq<Expr>) {
    forall i | 0 <= i < |clocks| :: clocks[i].Var?
  }

  // ---------------------------------------------------------------- clocks as guards

  function AsGuards(clocks: seq<Expr>): (g: seq<Guard>)
    ensures |g| == |clocks|
  {
    seq(|clocks|, i requires 0 <= i < |clocks| => Guard(clocks[i], true))
  }

  lemma AsGuardsMore(clocks: seq<Expr>, c: Expr)
    ensures AsGuards(clocks + [c]) == AsGuards(clocks) + [Guard(c, true)]
  {
  }

  lemma {:induction false} ClocksOfMore(guards: seq<Guard>, g: Guard)
    ensures ClocksOf(guards + [g]) == ClocksOf(guards) + if g.clock then [g] else []
    decreases |guards|
  {
    if guards == [] {
      assert guards + [g] == [g] && [g][1..] == [];
    } else {
      ClocksOfMore(guards[1..], g);
      assert (guards + [g])[1..] == guards[1..] + [g];
    }
  }

  lemma {:induction false} ClocksOfClocks(guards: seq<Guard>)
    ensures ClocksOf(ClocksOf(guards)) == ClocksOf(guards)
    decreases |guards|
  {
    if guards != [] {
      ClocksOfClocks(guards[1..]);
      var rest := ClocksOf(guards[1..]);
      if guards[0].clock { assert ([guards[0]] + rest)[1..] == rest; } else { assert [] + rest == rest; }
    }
  }

  lemma TicksAsGuards(clocks: seq<Expr>, s: State)
    ensures GuardsHold(AsGuards(clocks), s) <==> ClocksTick(clocks, s)
  {
    if GuardsHold(AsGuards(clocks), s) {
      forall i | 0 <= i < |clocks| ensures Math(clocks[i], s) != 0 { assert Holds(AsGuards(clocks)[i].cond, s); }
    }
  }

  /** Hoisting leaves clock conditions alone and makes no new ones. */
  lemma BranchKept(env: Env, c: Expr, clocks: seq<Expr>, names: nat -> string, k: nat)
    requires PlainLocals(names)
    ensures var x := Hoist(env, c, false, clocks, names, k).e;
      IsClock(x) == IsClock(c) && (IsClock(c) ==> x == c) && BranchClocks(x, clocks) == BranchClocks(c, clocks)
  {
    hide HoistAll, UnderClocks;
    assert forall i: nat :: !IsClock(Var(names(i)));
  }

  // ---------------------------------------------------------------- sites before

  /** The sites of the operands taken along, under the clocks they are remembered under. */
  function SitesBefore(pres: seq<Remembered>): (sites: seq<Site>)
    ensures |sites| == |pres|
  {
    seq(|pres|, i requires 0 <= i < |pres| => Site(pres[i].operand, AsGuards(pres[i].clocks)))
  }

  lemma BeforeJoin(a: seq<Remembered>, b: seq<Remembered>)
    ensures SitesBefore(a + b) == SitesBefore(a) + SitesBefore(b)
  {
  }

  function LeftGuards(e: Expr, guards: seq<Guard>): seq<Guard> {
    if e.Arrow? then guards + [Guard(FirstCycle(), false)] else guards
  }

  function RightGuards(e: Expr, guards: seq<Guard>): seq<Guard> {
    if e.Arrow? then guards + [Guard(Not(FirstCycle()), false)] else guards
  }

  lemma PairSites(e: Expr, guards: seq<Guard>)
    requires IsPair(e)
    ensures Sites(e, guards) == Sites(Left(e), LeftGuards(e, guards)) + Sites(Right(e), RightGuards(e, guards))
    ensures ClocksOf(LeftGuards(e, guards)) == ClocksOf(RightGuards(e, guards)) == ClocksOf(guards)
  {
    ClocksOfMore(guards, Guard(FirstCycle(), false));
    ClocksOfMore(guards, Guard(Not(FirstCycle()), false));
  }

  lemma {:induction false} SitesAllMore(args: seq<Expr>, e: Expr, guards: seq<Guard>)
    ensures SitesAll(args + [e], guards) == SitesAll(args, guards) + Sites(e, guards)
  {
    hide Sites;
    if args == [] {
      assert (args + [e])[1..] == [];
    } else {
      SitesAllMore(args[1..], e, guards);
      assert (args + [e])[1..] == args[1..] + [e];
    }
  }

  /** The sites of an expression are those of what hoisting says it remembers. */
  lemma {:induction false} SitesKept(env: Env, e: Expr, top: bool, clocks: seq<Expr>, names: nat -> string, k: nat, guards: seq<Guard>, s: State)
    requires PlainLocals(names) && Gated(e, clocks, s) && ClocksOf(guards) == AsGuards(clocks)
    ensures Sites(e, guards) == SitesBefore(Hoist(env, e, top, clocks, names, k).pres)
    decreases e, 1
  {
    hide Hoist, HoistAll, PlainLocals, GatedAll, SitesBefore, AsGuards, ClocksOf;
    if IsPair(e) {
      PairKept(env, e, top, clocks, names, k, guards, s);
    } else if e.If? {
      IfKept(env, e, top, clocks, names, k, guards, s);
    } else if e.Call? {
      CallShape(env, e, top, clocks, names, k);
      SitesKeptAll(env, e.args, clocks, names, k, guards, s);
    } else if e.Condact? {
      CondactKept(env, e, top, clocks, names, k, guards, s);
    } else {
      UnaryKept(env, e, top, clocks, names, k, guards, s);
    }
  }

  lemma {:induction false} UnaryKept(env: Env, e: Expr, top: bool, clocks: seq<Expr>, names: nat -> string, k: nat, guards: seq<Guard>, s: State)
    requires !IsPair(e) && !e.If? && !e.Call? && !e.Condact?
    requires PlainLocals(names) && Gated(e, clocks, s) && ClocksOf(guards) == AsGuards(clocks)
    ensures Sites(e, guards) == SitesBefore(Hoist(env, e, top, clocks, names, k).pres)
    decreases e, 0
  {
    hide HoistAll, PlainLocals, GatedAll, ClocksOf;
    match e
    case Neg(a) => SitesKept(env, a, false, clocks, names, k, guards, s);
    case Not(a) => SitesKept(env, a, false, clocks, names, k, guards, s);
    case Index(_, i) => SitesKept(env, i, false, clocks, names, k, guards, s);
    case Cast(_, a) => SitesKept(env, a, false, clocks, names, k, guards, s);
    case Pre(a) =>
      ClocksOfClocks(guards);
      SitesKept(env, a, false, clocks, names, k, ClocksOf(guards), s);
      var x := Hoist(env, a, false, clocks, names, k);
      BeforeJoin([Remembered(a, x.e, clocks)], x.pres);
      assert SitesBefore([Remembered(a, x.e, clocks)]) == [Site(a, AsGuards(clocks))];
    case _ => NothingBefore();
  }

  lemma NothingBefore()
    ensures SitesBefore([]) == []
  {
  }

  lemma {:induction false} PairKept(env: Env, e: Expr, top: bool, clocks: seq<Expr>, names: nat -> string, k: nat, guards: seq<Guard>, s: State)
    requires IsPair(e) && PlainLocals(names) && Gated(e, clocks, s) && ClocksOf(guards) == AsGuards(clocks)
    ensures Sites(e, guards) == SitesBefore(Hoist(env, e, top, clocks, names, k).pres)
    decreases e, 0
  {
    hide Hoist, PlainLocals, SitesBefore, AsGuards, ClocksOf, Sites, LeftGuards, RightGuards, FirstCycle;
    PairShape(env, e, top, clocks, names, k);
    var x := Hoist(env, Left(e), false, clocks, names, k);
    PairSites(e, guards);
    SitesKept(env, Left(e), false, clocks, names, k, LeftGuards(e, guards), s);
    SitesKept(env, Right(e), false, clocks, names, k + |x.eqs|, RightGuards(e, guards), s);
    BeforeJoin(x.pres, Hoist(env, Right(e), false, clocks, names, k + |x.eqs|).pres);
  }

  lemma IfSites(e: Expr, guards: seq<Guard>)
    requires e.If?
    ensures Sites(e, guards) == Sites(e.cond, guards) + Sites(e.thn, guards + [Guard(e.cond, IsClock(e.cond))])
                              + Sites(e.els, guards + [Guard(Not(e.cond), false)])
    ensures ClocksOf(guards + [Guard(e.cond, IsClock(e.cond))])
              == ClocksOf(guards) + if IsClock(e.cond) then [Guard(e.cond, true)] else []
    ensures ClocksOf(guards + [Guard(Not(e.cond), false)]) == ClocksOf(guards)
  {
    ClocksOfMore(guards, Guard(e.cond, IsClock(e.cond)));
    ClocksOfMore(guards, Guard(Not(e.cond), false));
  }

  lemma {:induction false} IfKept(env: Env, e: Expr, top: bool, clocks: seq<Expr>, names: nat -> string, k: nat, guards: seq<Guard>, s: State)
    requires e.If? && PlainLocals(names) && Gated(e, clocks, s) && ClocksOf(guards) == AsGuards(clocks)
    ensures Sites(e, guards) == SitesBefore(Hoist(env, e, top, clocks, names, k).pres)
    decreases e, 0
  {
    hide Hoist, PlainLocals, SitesBefore, AsGuards, ClocksOf, Sites, IsClock;
    IfShape(env, e, top, clocks, names, k);
    IfSites(e, guards);
    BranchKept(env, e.cond, clocks, names, k);
    AsGuardsMore(clocks, e.cond);
    var inner := BranchClocks(e.cond, clocks);
    var x := Hoist(env, e.cond, false, clocks, names, k);
    var y := Hoist(env, e.thn, false, inner, names, k + |x.eqs|);
    var z := Hoist(env, e.els, false, clocks, names, k + |x.eqs| + |y.eqs|);
    SitesKept(env, e.cond, false, clocks, names, k, guards, s);
    SitesKept(env, e.thn, false, inner, names, k + |x.eqs|, guards + [Guard(e.cond, IsClock(e.cond))], s);
    SitesKept(env, e.els, false, clocks, names, k + |x.eqs| + |y.eqs|, guards + [Guard(Not(e.cond), false)], s);
    BeforeJoin(x.pres, y.pres);
    BeforeJoin(x.pres + y.pres, z.pres);
  }

  /** A variable, or a constant, stays and remembers nothing. */
  lemma AtomStays(env: Env, e: Expr, top: bool, clocks: seq<Expr>, names: nat -> string, k: nat, guards: seq<Guard>)
    requires e.Var? || e.Lit? || e.Bool?
    ensures Hoist(env, e, top, clocks, names, k) == Hoisted(e, [], []) && Sites(e, guards) == []
  {
  }

  /** The sites of a conditional activation are those of its arguments. */
  lemma CondactSites(e: Expr, guards: seq<Guard>)
    requires e.Condact? && e.act.Var? && (e.default.Lit? || e.default.Bool?)
    ensures Sites(e, guards) == SitesAll(e.args, CallGuards(e.act, guards))
    ensures ClocksOf(CallGuards(e.act, guards)) == CallGuards(e.act, guards) == ClocksOf(guards) + [Guard(e.act, true)]
  {
    ClocksOfMore(ClocksOf(guards), Guard(e.act, true));
    ClocksOfClocks(guards);
  }

  /** A gated activation with its arguments hoisted. */
  lemma GatedParts(env: Env, e: Expr, clocks: seq<Expr>, names: nat -> string, k: nat)
    requires e.Condact? && e.act.Var? && (e.default.Lit? || e.default.Bool?)
    ensures var h := HoistAll(env, e.args, clocks + [e.act], names, k);
      CondactParts(env, e, clocks, names, k) == Hoisted(Condact(e.act, e.site, e.f, h.es, e.default), h.eqs, h.pres)
  {
    hide Hoist, HoistAll;
    AtomStays(env, e.act, false, clocks, names, k, []);
    AtomStays(env, e.default, false, clocks, names, k + |HoistAll(env, e.args, clocks + [e.act], names, k).eqs|, []);
  }

  lemma {:induction false} CondactKept(env: Env, e: Expr, top: bool, clocks: seq<Expr>, names: nat -> string, k: nat, guards: seq<Guard>, s: State)
    requires e.Condact? && PlainLocals(names) && Gated(e, clocks, s) && ClocksOf(guards) == AsGuards(clocks)
    ensures Sites(e, guards) == SitesBefore(Hoist(env, e, top, clocks, names, k).pres)
    decreases e, 0
  {
    hide Hoist, HoistAll, CondactParts, PlainLocals, SitesBefore, AsGuards, ClocksOf, Sites, SitesAll, GatedAll, CallGuards;
    CondactShape(env, e, top, clocks, names, k);
    GatedParts(env, e, clocks, names, k);
    CondactSites(e, guards);
    AsGuardsMore(clocks, e.act);
    SitesKeptAll(env, e.args, clocks + [e.act], names, k, CallGuards(e.act, guards), s);
  }

  lemma {:induction false} SitesKeptAll(env: Env, args: seq<Expr>, clocks: seq<Expr>, names: nat -> string, k: nat, guards: seq<Guard>, s: State)
    requires PlainLocals(names) && GatedAll(args, clocks, s) && ClocksOf(guards) == AsGuards(clocks)
    ensures SitesAll(args, guards) == SitesBefore(HoistAll(env, args, clocks, names, k).pres)
    decreases args, 0
  {
    hide Hoist, PlainLocals, SitesBefore, AsGuards, ClocksOf, Sites, Gated;
    if args == [] {
      NothingBefore();
    } else {
      var n := |args| - 1;
      var h := HoistAll(env, args[..n], clocks, names, k);
      SitesKeptAll(env, args[..n], clocks, names, k, guards, s);
      SitesKept(env, args[n], false, clocks, names, k + |h.eqs|, guards, s);
      SitesAllMore(args[..n], args[n], guards);
      assert args[..n] + [args[n]] == args;
      BeforeJoin(h.pres, Hoist(env, args[n], false, clocks, names, k + |h.eqs|).pres);
    }
  }

  // ---------------------------------------------------------------- sites after

  function SiteSet(e: Expr, guards: seq<Guard>): set<Site> {
    set z | z in Sites(e, guards)
  }

  function SiteSetAll(args: seq<Expr>, guards: seq<Guard>): set<Site> {
    set z | z in SitesAll(args, guards)
  }

  /** What is remembered is now remembered at `z`, on the same ticks. */
  ghost predicate Lands(p: Remembered, z: Site, s: State) {
    z.operand == p.hoisted && (GuardsHold(z.guards, s) <==> ClocksTick(p.clocks, s))
  }

  ghost predicate LandsIn(p: Remembered, sites: set<Site>, s: State) {
    exists z :: z in sites && Lands(p, z, s)
  }

  ghost predicate ComesFrom(pres: seq<Remembered>, z: Site, s: State) {
    exists p :: p in pres && Lands(p, z, s)
  }

  ghost predicate Covered(pres: seq<Remembered>, sites: set<Site>, s: State) {
    (forall p | p in pres :: LandsIn(p, sites, s)) && (forall z | z in sites :: ComesFrom(pres, z, s))
  }

  lemma CoveredJoin(a: seq<Remembered>, x: set<Site>, b: seq<Remembered>, y: set<Site>, s: State)
    requires Covered(a, x, s) && Covered(b, y, s)
    ensures Covered(a + b, x + y, s)
  {
    hide Lands;
    forall p | p in a + b ensures LandsIn(p, x + y, s) {
      assert p in a ==> LandsIn(p, x, s);
      assert p in b ==> LandsIn(p, y, s);
    }
    forall z | z in x + y ensures ComesFrom(a + b, z, s) {
      assert z in x ==> ComesFrom(a, z, s);
      assert z in y ==> ComesFrom(b, z, s);
    }
  }

  lemma NothingCovered(s: State)
    ensures Covered([], {}, s)
  {
  }

  lemma NodeSitesJoin(a: seq<Equation>, b: seq<Equation>)
    ensures NodeSites(a + b) == NodeSites(a) + NodeSites(b)
  {
    hide SitesOf;
  }

  lemma NodeSitesOne(eq: Equation)
    ensures NodeSites([eq]) == SiteSetAll(Operands(eq), [])
    ensures eq.Equation? ==> NodeSites([eq]) == SiteSet(eq.rhs, [])
  {
    hide Sites;
    assert NodeSites([eq]) == SitesOf(eq) by { assert eq in [eq]; }
    if eq.Equation? { assert SitesAll([eq.rhs], []) == Sites(eq.rhs, []) + SitesAll([eq.rhs][1..], []); }
  }

  lemma NoNodeSites()
    ensures NodeSites([]) == {}
  {
  }

  /** The clocks around an expression are variables that all hold exactly where
      the clocks among its guards do. */
  ghost predicate Around(clocks: seq<Expr>, guards: seq<Guard>, s: State) {
    AllVars(clocks) && (ClocksTick(clocks, s) <==> GuardsHold(ClocksOf(guards), s))
  }

  /** The sites of what is left, and of the equations made of its calls, are
      those of what hoisting says it remembers, on the same ticks. */
  lemma {:induction false} SitesLand(env: Env, e: Expr, top: bool, clocks: seq<Expr>, names: nat -> string, k: nat, guards: seq<Guard>, s: State)
    requires PlainLocals(names) && Gated(e, clocks, s) && Around(clocks, guards, s)
    ensures var h := Hoist(env, e, top, clocks, names, k); Covered(h.pres, SiteSet(h.e, guards) + NodeSites(h.eqs), s)
    decreases e, 1
  {
    hide Hoist, HoistAll, PlainLocals, GatedAll, Around, Covered, SiteSet, NodeSites;
    if IsPair(e) {
      PairLands(env, e, top, clocks, names, k, guards, s);
    } else if e.If? {
      IfLands(env, e, top, clocks, names, k, guards, s);
    } else if e.Call? {
      CallLands(env, e, top, clocks, names, k, guards, s);
    } else if e.Condact? {
      CondactLands(env, e, top, clocks, names, k, guards, s);
    } else if e.Pre? {
      PreLands(env, e, top, clocks, names, k, guards, s);
    } else {
      UnaryLands(env, e, top, clocks, names, k, guards, s);
    }
  }

  lemma {:induction false} UnaryLands(env: Env, e: Expr, top: bool, clocks: seq<Expr>, names: nat -> string, k: nat, guards: seq<Guard>, s: State)
    requires !IsPair(e) && !e.If? && !e.Call? && !e.Condact? && !e.Pre?
    requires PlainLocals(names) && Gated(e, clocks, s) && Around(clocks, guards, s)
    ensures var h := Hoist(env, e, top, clocks, names, k); Covered(h.pres, SiteSet(h.e, guards) + NodeSites(h.eqs), s)
    decreases e, 0
  {
    hide HoistAll, PlainLocals, GatedAll, Around, Covered, NodeSites;
    match e
    case Neg(a) => SitesLand(env, a, false, clocks, names, k, guards, s);
    case Not(a) => SitesLand(env, a, false, clocks, names, k, guards, s);
    case Index(_, i) => SitesLand(env, i, false, clocks, names, k, guards, s);
    case Cast(_, a) => SitesLand(env, a, false, clocks, names, k, guards, s);
    case _ => AtomLands(env, e, top, clocks, names, k, guards, s);
  }

  lemma AtomLands(env: Env, e: Expr, top: bool, clocks: seq<Expr>, names: nat -> string, k: nat, guards: seq<Guard>, s: State)
    requires e.Var? || e.Lit? || e.Bool?
    ensures var h := Hoist(env, e, top, clocks, names, k); Covered(h.pres, SiteSet(h.e, guards) + NodeSites(h.eqs), s)
  {
    AtomStays(env, e, top, clocks, names, k, guards);
    NoNodeSites();
    NothingCovered(s);
    assert SiteSet(e, guards) + NodeSites([]) == {};
  }

  lemma {:induction false} PreLands(env: Env, e: Expr, top: bool, clocks: seq<Expr>, names: nat -> string, k: nat, guards: seq<Guard>, s: State)
    requires e.Pre? && PlainLocals(names) && Gated(e, clocks, s) && Around(clocks, guards, s)
    ensures var h := Hoist(env, e, top, clocks, names, k); Covered(h.pres, SiteSet(h.e, guards) + NodeSites(h.eqs), s)
    decreases e, 0
  {
    hide PlainLocals, Covered, NodeSites, ClocksOf, ClocksTick;
    var x := Hoist(env, e.arg, false, clocks, names, k);
    ClocksOfClocks(guards);
    SitesLand(env, e.arg, false, clocks, names, k, ClocksOf(guards), s);
    var own, site := Remembered(e.arg, x.e, clocks), Site(x.e, ClocksOf(guards));
    OneCovered(own, site, s);
    CoveredJoin([own], {site}, x.pres, SiteSet(x.e, ClocksOf(guards)) + NodeSites(x.eqs), s);
    assert SiteSet(Pre(x.e), guards) == {site} + SiteSet(x.e, ClocksOf(guards));
    assert {site} + (SiteSet(x.e, ClocksOf(guards)) + NodeSites(x.eqs)) == SiteSet(Pre(x.e), guards) + NodeSites(x.eqs);
  }

  lemma OneCovered(p: Remembered, z: Site, s: State)
    requires Lands(p, z, s)
    ensures Covered([p], {z}, s)
  {
    assert p in [p];
  }

  /** Two parts hoisted in turn. */
  lemma JoinLands(x: Hoisted, gx: seq<Guard>, y: Hoisted, gy: seq<Guard>, left: set<Site>, s: State)
    requires Covered(x.pres, SiteSet(x.e, gx) + NodeSites(x.eqs), s) && Covered(y.pres, SiteSet(y.e, gy) + NodeSites(y.eqs), s)
    requires left == SiteSet(x.e, gx) + SiteSet(y.e, gy)
    ensures Covered(x.pres + y.pres, left + NodeSites(x.eqs + y.eqs), s)
  {
    hide Covered, NodeSites, SiteSet;
    CoveredJoin(x.pres, SiteSet(x.e, gx) + NodeSites(x.eqs), y.pres, SiteSet(y.e, gy) + NodeSites(y.eqs), s);
    NodeSitesJoin(x.eqs, y.eqs);
    assert (SiteSet(x.e, gx) + NodeSites(x.eqs)) + (SiteSet(y.e, gy) + NodeSites(y.eqs)) == left + NodeSites(x.eqs + y.eqs);
  }

  lemma AroundSame(clocks: seq<Expr>, guards: seq<Guard>, same: seq<Guard>, s: State)
    requires Around(clocks, guards, s) && ClocksOf(same) == ClocksOf(guards)
    ensures Around(clocks, same, s)
  {
  }

  lemma PairSiteSet(e: Expr, guards: seq<Guard>)
    requires IsPair(e)
    ensures SiteSet(e, guards) == SiteSet(Left(e), LeftGuards(e, guards)) + SiteSet(Right(e), RightGuards(e, guards))
    ensures ClocksOf(LeftGuards(e, guards)) == ClocksOf(RightGuards(e, guards)) == ClocksOf(guards)
  {
    hide Sites, LeftGuards, RightGuards;
    PairSites(e, guards);
  }

  lemma {:induction false} PairLands(env: Env, e: Expr, top: bool, clocks: seq<Expr>, names: nat -> string, k: nat, guards: seq<Guard>, s: State)
    requires IsPair(e) && PlainLocals(names) && Gated(e, clocks, s) && Around(clocks, guards, s)
    ensures var h := Hoist(env, e, top, clocks, names, k); Covered(h.pres, SiteSet(h.e, guards) + NodeSites(h.eqs), s)
    decreases e, 0
  {
    hide Hoist, PlainLocals, Covered, NodeSites, ClocksOf, Sites, LeftGuards, RightGuards, FirstCycle, Around, SiteSet;
    PairShape(env, e, top, clocks, names, k);
    RebuiltShape(env, e, top, clocks, names, k);
    var h, x := Hoist(env, e, top, clocks, names, k), Hoist(env, Left(e), false, clocks, names, k);
    var y := Hoist(env, Right(e), false, clocks, names, k + |x.eqs|);
    PairSiteSet(h.e, guards);
    AroundSame(clocks, guards, LeftGuards(h.e, guards), s);
    AroundSame(clocks, guards, RightGuards(h.e, guards), s);
    SitesLand(env, Left(e), false, clocks, names, k, LeftGuards(h.e, guards), s);
    SitesLand(env, Right(e), false, clocks, names, k + |x.eqs|, RightGuards(h.e, guards), s);
    JoinLands(x, LeftGuards(h.e, guards), y, RightGuards(h.e, guards), SiteSet(h.e, guards), s);
  }

  lemma IfSiteSet(e: Expr, guards: seq<Guard>)
    requires e.If?
    ensures SiteSet(e, guards) == SiteSet(e.cond, guards) + SiteSet(e.thn, guards + [Guard(e.cond, IsClock(e.cond))])
                                + SiteSet(e.els, guards + [Guard(Not(e.cond), false)])
  {
    hide Sites, IsClock;
    IfSites(e, guards);
  }

  lemma BranchAround(c: Expr, clocks: seq<Expr>, guards: seq<Guard>, s: State)
    requires Around(clocks, guards, s)
    ensures Around(BranchClocks(c, clocks), guards + [Guard(c, IsClock(c))], s)
    ensures Around(clocks, guards + [Guard(Not(c), false)], s)
  {
    hide ClocksTick, GuardsHold;
    assert ClocksOf(guards) + [] == ClocksOf(guards);
    ClocksOfMore(guards, Guard(c, IsClock(c)));
    ClocksOfMore(guards, Guard(Not(c), false));
    GuardsMore(ClocksOf(guards), Guard(c, true), s);
    TicksMore(clocks, c, s);
  }

  lemma {:induction false} IfLands(env: Env, e: Expr, top: bool, clocks: seq<Expr>, names: nat -> string, k: nat, guards: seq<Guard>, s: State)
    requires e.If? && PlainLocals(names) && Gated(e, clocks, s) && Around(clocks, guards, s)
    ensures var h := Hoist(env, e, top, clocks, names, k); Covered(h.pres, SiteSet(h.e, guards) + NodeSites(h.eqs), s)
    decreases e, 0
  {
    hide Hoist, PlainLocals, Covered, NodeSites, ClocksOf, Sites, IsClock, Around, SiteSet, BranchClocks;
    IfShape(env, e, top, clocks, names, k);
    BranchKept(env, e.cond, clocks, names, k);
    var inner := BranchClocks(e.cond, clocks);
    var x := Hoist(env, e.cond, false, clocks, names, k);
    var y := Hoist(env, e.thn, false, inner, names, k + |x.eqs|);
    var z := Hoist(env, e.els, false, clocks, names, k + |x.eqs| + |y.eqs|);
    var gy, gz := guards + [Guard(x.e, IsClock(x.e))], guards + [Guard(Not(x.e), false)];
    BranchAround(x.e, clocks, guards, s);
    SitesLand(env, e.cond, false, clocks, names, k, guards, s);
    SitesLand(env, e.thn, false, inner, names, k + |x.eqs|, gy, s);
    SitesLand(env, e.els, false, clocks, names, k + |x.eqs| + |y.eqs|, gz, s);
    IfSiteSet(If(x.e, y.e, z.e), guards);
    ThreeLand(x, guards, y, gy, z, gz, SiteSet(If(x.e, y.e, z.e), guards), s);
  }

  lemma ThreeLand(x: Hoisted, gx: seq<Guard>, y: Hoisted, gy: seq<Guard>, z: Hoisted, gz: seq<Guard>, left: set<Site>, s: State)
    requires Covered(x.pres, SiteSet(x.e, gx) + NodeSites(x.eqs), s) && Covered(y.pres, SiteSet(y.e, gy) + NodeSites(y.eqs), s)
    requires Covered(z.pres, SiteSet(z.e, gz) + NodeSites(z.eqs), s)
    requires left == SiteSet(x.e, gx) + SiteSet(y.e, gy) + SiteSet(z.e, gz)
    ensures Covered(x.pres + y.pres + z.pres, left + NodeSites(x.eqs + y.eqs + z.eqs), s)
  {
    hide Covered, NodeSites, SiteSet;
    var both := SiteSet(x.e, gx) + SiteSet(y.e, gy);
    JoinLands(x, gx, y, gy, both, s);
    CoveredJoin(x.pres + y.pres, both + NodeSites(x.eqs + y.eqs), z.pres, SiteSet(z.e, gz) + NodeSites(z.eqs), s);
    NodeSitesJoin(x.eqs + y.eqs, z.eqs);
    assert (both + NodeSites(x.eqs + y.eqs)) + (SiteSet(z.e, gz) + NodeSites(z.eqs)) == left + NodeSites(x.eqs + y.eqs + z.eqs);
  }

  /** The guard of a call that was taken out from under clocks. */
  function TakenGuards(clocks: seq<Expr>): seq<Guard> {
    if clocks == [] then [] else [Guard(Conjunction(clocks), true)]
  }

  lemma TakenAround(clocks: seq<Expr>, s: State)
    requires AllVars(clocks)
    ensures Around(clocks, TakenGuards(clocks), s)
  {
    var guards := TakenGuards(clocks);
    if clocks != [] {
      assert guards[1..] == [];
      assert ClocksOf(guards) == guards;
      ConjunctionTicks(clocks, s);
      GuardsMore([], guards[0], s);
      assert [] + [guards[0]] == guards;
    }
  }

  lemma {:induction false} ConjunctionSites(clocks: seq<Expr>)
    requires clocks != [] && AllVars(clocks)
    ensures Sites(Conjunction(clocks), []) == []
  {
    if |clocks| > 1 { ConjunctionSites(clocks[..|clocks|-1]); }
  }

  /** The sites of a call taken out are those of its arguments. */
  lemma TakenSites(env: Env, clocks: seq<Expr>, site: nat, f: string, args: seq<Expr>)
    requires AllVars(clocks) && Callable(env, f, |args|)
    ensures SiteSet(UnderClocks(env, clocks, site, f, args), []) == SiteSetAll(args, TakenGuards(clocks))
  {
    hide SitesAll, AllVars;
    if clocks != [] {
      ConjunctionSites(clocks);
      var e := UnderClocks(env, clocks, site, f, args);
      assert Sites(e.default, []) == [];
      assert CallGuards(e.act, []) == TakenGuards(clocks);
    }
  }

  lemma {:induction false} CallLands(env: Env, e: Expr, top: bool, clocks: seq<Expr>, names: nat -> string, k: nat, guards: seq<Guard>, s: State)
    requires e.Call? && PlainLocals(names) && Gated(e, clocks, s) && Around(clocks, guards, s)
    ensures var h := Hoist(env, e, top, clocks, names, k); Covered(h.pres, SiteSet(h.e, guards) + NodeSites(h.eqs), s)
    decreases e, 0
  {
    hide Hoist, HoistAll, PlainLocals, Covered, NodeSites, ClocksOf, SitesAll, GatedAll, ClocksTick, AllVars, UnderClocks, TakenGuards;
    CallShape(env, e, top, clocks, names, k);
    var h := HoistAll(env, e.args, clocks, names, k);
    if top || !Callable(env, e.f, |e.args|) {
      SitesLandAll(env, e.args, clocks, names, k, guards, s);
    } else {
      TakenAround(clocks, s);
      SitesLandAll(env, e.args, clocks, names, k, TakenGuards(clocks), s);
      TakenSites(env, clocks, e.site, e.f, h.es);
      MovedOut(h, UnderClocks(env, clocks, e.site, e.f, h.es), names(k + |h.eqs|), TakenGuards(clocks), s);
    }
  }

  /** A call that becomes an equation keeps the sites of its arguments. */
  lemma MovedOut(h: HoistedAll, call: Expr, name: string, guards: seq<Guard>, s: State)
    requires Covered(h.pres, SiteSetAll(h.es, guards) + NodeSites(h.eqs), s)
    requires SiteSet(call, []) == SiteSetAll(h.es, guards)
    ensures forall g: seq<Guard> :: Covered(h.pres, SiteSet(Var(name), g) + NodeSites(h.eqs + [Equation(name, call)]), s)
  {
    hide Covered, NodeSites, SiteSetAll;
    NodeSitesJoin(h.eqs, [Equation(name, call)]);
    NodeSitesOne(Equation(name, call));
    forall g: seq<Guard>
      ensures Covered(h.pres, SiteSet(Var(name), g) + NodeSites(h.eqs + [Equation(name, call)]), s)
    {
      assert SiteSet(Var(name), g) + NodeSites(h.eqs + [Equation(name, call)]) == SiteSetAll(h.es, guards) + NodeSites(h.eqs);
    }
  }

  lemma {:induction false} CondactLands(env: Env, e: Expr, top: bool, clocks: seq<Expr>, names: nat -> string, k: nat, guards: seq<Guard>, s: State)
    requires e.Condact? && PlainLocals(names) && Gated(e, clocks, s) && Around(clocks, guards, s)
    ensures var h := Hoist(env, e, top, clocks, names, k); Covered(h.pres, SiteSet(h.e, guards) + NodeSites(h.eqs), s)
    decreases e, 0
  {
    hide Hoist, HoistAll, CondactParts, PlainLocals, Covered, NodeSites, ClocksOf, Sites, SitesAll, GatedAll, CallGuards, ClocksTick, Around;
    CondactShape(env, e, top, clocks, names, k);
    GatedParts(env, e, clocks, names, k);
    var h := HoistAll(env, e.args, clocks + [e.act], names, k);
    var call := Condact(e.act, e.site, e.f, h.es, e.default);
    ActAround(e.act, clocks, guards, s);
    if top || !Callable(env, e.f, |e.args|) {
      CondactSites(call, guards);
      SitesLandAll(env, e.args, clocks + [e.act], names, k, CallGuards(e.act, guards), s);
    } else {
      CondactSites(call, []);
      SitesLandAll(env, e.args, clocks + [e.act], names, k, CallGuards(e.act, []), s);
      MovedOut(h, call, names(k + |h.eqs|), CallGuards(e.act, []), s);
    }
  }

  /** Where the condition holds its clocks tick, so it alone guards as well. */
  lemma ActAround(act: Expr, clocks: seq<Expr>, guards: seq<Guard>, s: State)
    requires Around(clocks, guards, s) && act.Var? && (Math(act, s) != 0 ==> ClocksTick(clocks, s))
    ensures Around(clocks + [act], CallGuards(act, guards), s)
    ensures Around(clocks + [act], CallGuards(act, []), s)
  {
    hide ClocksTick, GuardsHold;
    ClocksOfMore(ClocksOf(guards), Guard(act, true));
    ClocksOfClocks(guards);
    ClocksOfMore([], Guard(act, true));
    GuardsMore(ClocksOf(guards), Guard(act, true), s);
    GuardsMore([], Guard(act, true), s);
    NoGuards(s);
    TicksMore(clocks, act, s);
  }

  lemma NoGuards(s: State)
    ensures GuardsHold([], s)
  {
  }

  lemma {:induction false} SitesLandAll(env: Env, args: seq<Expr>, clocks: seq<Expr>, names: nat -> string, k: nat, guards: seq<Guard>, s: State)
    requires PlainLocals(names) && GatedAll(args, clocks, s) && Around(clocks, guards, s)
    ensures var h := HoistAll(env, args, clocks, names, k); Covered(h.pres, SiteSetAll(h.es, guards) + NodeSites(h.eqs), s)
    decreases args, 0
  {
    hide Hoist, PlainLocals, Covered, NodeSites, SiteSetAll, SiteSet, Gated, Around;
    if args == [] {
      NoNodeSites();
      NothingCovered(s);
      NoSiteSet(guards);
      assert SiteSetAll([], guards) + NodeSites([]) == {};
    } else {
      var n := |args| - 1;
      var h := HoistAll(env, args[..n], clocks, names, k);
      var x := Hoist(env, args[n], false, clocks, names, k + |h.eqs|);
      SitesLandAll(env, args[..n], clocks, names, k, guards, s);
      SitesLand(env, args[n], false, clocks, names, k + |h.eqs|, guards, s);
      CoveredJoin(h.pres, SiteSetAll(h.es, guards) + NodeSites(h.eqs), x.pres, SiteSet(x.e, guards) + NodeSites(x.eqs), s);
      NodeSitesJoin(h.eqs, x.eqs);
      SiteSetMore(h.es, x.e, guards);
      assert (SiteSetAll(h.es, guards) + NodeSites(h.eqs)) + (SiteSet(x.e, guards) + NodeSites(x.eqs))
          == SiteSetAll(h.es + [x.e], guards) + NodeSites(h.eqs + x.eqs);
    }
  }

  lemma NoSiteSet(guards: seq<Guard>)
    ensures SiteSetAll([], guards) == {}
  {
  }

  lemma SiteSetMore(args: seq<Expr>, e: Expr, guards: seq<Guard>)
    ensures SiteSetAll(args + [e], guards) == SiteSetAll(args, guards) + SiteSet(e, guards)
  {
    hide Sites, SitesAll;
    SitesAllMore(args, e, guards);
  }

  // ---------------------------------------------------------------- whole nodes

  ghost predicate GatedNode(eqs: seq<Equation>, s: State) {
    forall eq | eq in eqs :: GatedAll(Operands(eq), [], s)
  }

  ghost predicate AlikeBefore(pres: seq<Remembered>, sites: set<Site>) {
    forall z :: z in sites <==> z in SitesBefore(pres)
  }

  /** The sites of a node, before its calls are moved out and after. */
  ghost predicate SitesMatch(pres: seq<Remembered>, before: set<Site>, after: set<Site>, s: State) {
    AlikeBefore(pres, before) && Covered(pres, after, s)
  }

  lemma AlikeJoin(a: seq<Remembered>, x: set<Site>, b: seq<Remembered>, y: set<Site>)
    requires AlikeBefore(a, x) && AlikeBefore(b, y)
    ensures AlikeBefore(a + b, x + y)
  {
    hide SitesBefore;
    BeforeJoin(a, b);
  }

  lemma AroundNothing(s: State)
    ensures Around([], [], s) && ClocksOf([]) == AsGuards([])
  {
  }

  lemma EquationMatch(env: Env, eq: Equation, names: nat -> string, k: nat, s: State)
    requires PlainLocals(names) && GatedAll(Operands(eq), [], s)
    ensures var h := HoistEquation(env, eq, names, k); SitesMatch(h.pres, NodeSites([eq]), NodeSites(h.eqs + h.added), s)
  {
    hide Hoist, HoistAll, PlainLocals, Covered, SitesBefore, Around, Gated, Sites, SitesAll, NodeSites, SiteSet, SiteSetAll;
    var h := HoistEquation(env, eq, names, k);
    AroundNothing(s);
    NodeSitesOne(eq);
    NodeSitesOne(h.eqs[0]);
    NodeSitesJoin(h.eqs, h.added);
    assert h.eqs == [h.eqs[0]];
    if eq.Equation? {
      assert Operands(eq)[0] == eq.rhs;
      SitesKept(env, eq.rhs, true, [], names, k, [], s);
      SitesLand(env, eq.rhs, true, [], names, k, [], s);
      SiteSetMeans(eq.rhs, []);
    } else {
      SitesKeptAll(env, eq.items, [], names, k, [], s);
      SitesLandAll(env, eq.items, [], names, k, [], s);
      SiteSetAllMeans(eq.items, []);
    }
  }

  lemma SiteSetMeans(e: Expr, guards: seq<Guard>)
    ensures forall z :: z in SiteSet(e, guards) <==> z in Sites(e, guards)
  {
    hide Sites;
  }

  lemma SiteSetAllMeans(args: seq<Expr>, guards: seq<Guard>)
    ensures forall z :: z in SiteSetAll(args, guards) <==> z in SitesAll(args, guards)
  {
    hide SitesAll;
  }

  /** Every `pre` of a node has one place before its calls are moved out and
      one after, written on the same ticks; there are no others. */
  lemma {:induction false} NodeMatch(env: Env, eqs: seq<Equation>, names: nat -> string, s: State)
    requires PlainLocals(names) && GatedNode(eqs, s)
    ensures var h := HoistNode(env, eqs, names); SitesMatch(h.pres, NodeSites(eqs), NodeSites(h.eqs + h.added), s)
  {
    hide PlainLocals, Covered, AlikeBefore, GatedAll, HoistEquation, NodeSites;
    NoNodeSites();
    if eqs == [] {
      NothingCovered(s);
      NothingAlike();
      assert HoistNode(env, eqs, names).eqs + HoistNode(env, eqs, names).added == [];
    } else {
      var first, last := eqs[..|eqs|-1], eqs[|eqs|-1];
      var p := HoistNode(env, first, names);
      var h := HoistEquation(env, last, names, |p.added|);
      NodeMatch(env, first, names, s);
      EquationMatch(env, last, names, |p.added|, s);
      CoveredJoin(p.pres, NodeSites(p.eqs + p.added), h.pres, NodeSites(h.eqs + h.added), s);
      AlikeJoin(p.pres, NodeSites(first), h.pres, NodeSites([last]));
      NodeSitesJoin(first, [last]);
      assert first + [last] == eqs;
      FourSites(p.eqs, h.eqs, p.added, h.added);
    }
  }

  lemma NothingAlike()
    ensures AlikeBefore([], {})
  {
  }

  lemma FourSites(a: seq<Equation>, b: seq<Equation>, c: seq<Equation>, d: seq<Equation>)
    ensures NodeSites((a + b) + (c + d)) == NodeSites(a + c) + NodeSites(b + d)
  {
    hide NodeSites;
    NodeSitesJoin(a + b, c + d);
    NodeSitesJoin(a, b);
    NodeSitesJoin(c, d);
    NodeSitesJoin(a, c);
    NodeSitesJoin(b, d);
  }

  // ---------------------------------------------------------------- runs

  /** The same equations in another order. */
  ghost predicate SameEquations(a: seq<Equation>, b: seq<Equation>) {
    forall eq :: eq in a <==> eq in b
  }

  /** No two operands become one when calls are moved out, and none becomes two:
      each call has its own instance, so operands with calls occur once. */
  ghost predicate Paired(pres: seq<Remembered>) {
    forall p, q | p in pres && q in pres :: p.operand == q.operand <==> p.hoisted == q.hoisted
  }

  ghost predicate Ticking(pres: seq<Remembered>, p: Remembered, s: State) {
    exists q :: q in pres && q.operand == p.operand && q.hoisted == p.hoisted && ClocksTick(q.clocks, s)
  }

  lemma WrittenBefore(pres: seq<Remembered>, sites: set<Site>, p: Remembered, s: State)
    requires AlikeBefore(pres, sites) && Paired(pres) && p in pres
    ensures Written(sites, p.operand, s) <==> Ticking(pres, p, s)
  {
    hide ClocksTick, GuardsHold, AsGuards;
    if Written(sites, p.operand, s) {
      var z :| z in sites && z.operand == p.operand && GuardsHold(z.guards, s);
      var i :| 0 <= i < |pres| && SitesBefore(pres)[i] == z;
      TicksAsGuards(pres[i].clocks, s);
      assert pres[i] in pres && pres[i].operand == p.operand;
    }
    if Ticking(pres, p, s) {
      var q :| q in pres && q.operand == p.operand && q.hoisted == p.hoisted && ClocksTick(q.clocks, s);
      var i :| 0 <= i < |pres| && pres[i] == q;
      TicksAsGuards(q.clocks, s);
      assert SitesBefore(pres)[i] in sites;
    }
  }

  lemma WrittenAfter(pres: seq<Remembered>, sites: set<Site>, p: Remembered, s: State)
    requires Covered(pres, sites, s) && Paired(pres) && p in pres
    ensures Written(sites, p.hoisted, s) <==> Ticking(pres, p, s)
  {
    hide ClocksTick, GuardsHold;
    if Written(sites, p.hoisted, s) {
      var z :| z in sites && z.operand == p.hoisted && GuardsHold(z.guards, s);
      assert ComesFrom(pres, z, s);
      var q :| q in pres && Lands(q, z, s);
    }
    if Ticking(pres, p, s) {
      var q :| q in pres && q.operand == p.operand && q.hoisted == p.hoisted && ClocksTick(q.clocks, s);
      assert LandsIn(q, sites, s);
    }
  }

  /** What a node's sites remember is among its `pre`s. */
  lemma SitePre(eqs: seq<Equation>, z: Site)
    requires z in NodeSites(eqs)
    ensures z.operand in AllPres(eqs)
  {
    hide SitesAll, PresAll, CallsAll, NodeSites, SitesOf;
    var i, j := SiteFound(eqs, z);
    SitesAllArePres(Operands(eqs[i]), []);
    assert PartOf(SitesAll(Operands(eqs[i]), [])[j], PresAll(Operands(eqs[i])), CallsAll(Operands(eqs[i])));
  }

  /** Equal memories stay equal through a cycle. */
  lemma MemoriesFollow(eqs: seq<Equation>, all: seq<Equation>, pres: seq<Remembered>, s: State, next: State)
    requires SitesMatch(pres, NodeSites(eqs), NodeSites(all), s) && Paired(pres)
    requires SameMemories(pres, s) && SameWrites(pres, s) && Evolves(eqs, s, next) && Evolves(all, s, next)
    ensures SameMemories(pres, next)
  {
    hide NodeSites, AllPres, Paired, ClocksTick, Written, Lands;
    forall i | 0 <= i < |pres| ensures next.memory(pres[i].hoisted) == next.memory(pres[i].operand) {
      var p := pres[i];
      assert SitesBefore(pres)[i] in NodeSites(eqs);
      SitePre(eqs, SitesBefore(pres)[i]);
      assert Remembers(NodeSites(eqs), p.operand, s, next);
      HoistedPre(all, pres, p, s);
      assert Remembers(NodeSites(all), p.hoisted, s, next);
      WrittenBefore(pres, NodeSites(eqs), p, s);
      WrittenAfter(pres, NodeSites(all), p, s);
      if Ticking(pres, p, s) { SameWritten(pres, p, s); }
    }
  }

  lemma HoistedPre(all: seq<Equation>, pres: seq<Remembered>, p: Remembered, s: State)
    requires Covered(pres, NodeSites(all), s) && p in pres
    ensures p.hoisted in AllPres(all)
  {
    hide NodeSites, AllPres;
    assert LandsIn(p, NodeSites(all), s);
    var z :| z in NodeSites(all) && Lands(p, z, s);
    SitePre(all, z);
  }

  lemma SameWritten(pres: seq<Remembered>, p: Remembered, s: State)
    requires SameWrites(pres, s) && Ticking(pres, p, s)
    ensures Math(p.hoisted, s) == Math(p.operand, s)
  {
    hide ClocksTick;
    var q :| q in pres && q.operand == p.operand && q.hoisted == p.hoisted && ClocksTick(q.clocks, s);
    var i :| 0 <= i < |pres| && pres[i] == q;
  }

  /** The node's own memories are written as it says, in every cycle, and the
      conditions of its activations hold only where their clocks tick. */
  ghost predicate RemembersAsWritten(eqs: seq<Equation>, run: nat -> State) {
    forall n: nat :: GatedNode(eqs, run(n)) && Evolves(eqs, run(n), run(n+1))
  }

  lemma SameSolved(all: seq<Equation>, eqs: seq<Equation>, s: State)
    requires SameEquations(all, eqs) && Solves(all, s)
    ensures Solves(eqs, s)
  {
    hide SolvesAt;
    forall i | 0 <= i < |eqs| ensures SolvesAt(eqs[i], s) {
      assert eqs[i] in all;
      var j :| 0 <= j < |all| && all[j] == eqs[i];
    }
  }

  lemma SameSites(all: seq<Equation>, eqs: seq<Equation>)
    requires SameEquations(all, eqs)
    ensures NodeSites(all) == NodeSites(eqs)
  {
    hide SitesOf;
  }

  /** No runtime error in a node with calls: when all checks of its hoisted form,
      in some order of evaluation, are always true, C computes, stores, passes on
      and remembers in every cycle exactly what the integers do, the node's own
      equations hold, and its memories are those of the hoisted operands. */
  lemma {:induction false} HoistedRunExact(env: Env, inputs: set<string>, eqs: seq<Equation>, names: nat -> string,
                                           all: seq<Equation>, run: nat -> State, n: nat)
    requires var h := HoistNode(env, eqs, names);
      SameEquations(all, h.eqs + h.added) && Paired(h.pres) && SameMemories(h.pres, run(0))
    requires Complete(env, inputs, all) && CheckedRun(env, inputs, all, run)
    requires PlainLocals(names) && RemembersAsWritten(eqs, run)
    ensures Exact(env, all, run(n)) && Solves(eqs, run(n))
    ensures SameMemories(HoistNode(env, eqs, names).pres, run(n)) && SameWrites(HoistNode(env, eqs, names).pres, run(n))
    decreases n
  {
    hide HoistNode, Complete, Exact, SameWrites, Solves, SameMemories, SitesMatch, Paired, PlainLocals, SameEquations, GatedNode, Evolves, NodeSites;
    var h := HoistNode(env, eqs, names);
    if n > 0 {
      HoistedRunExact(env, inputs, eqs, names, all, run, n-1);
      assert CheckedCycle(env, inputs, all, run, n-1);
      assert GatedNode(eqs, run(n-1)) && Evolves(eqs, run(n-1), run(n-1+1));
      NodeMatch(env, eqs, names, run(n-1));
      SameSites(all, h.eqs + h.added);
      MemoriesFollow(eqs, all, h.pres, run(n-1), run(n));
    }
    assert CheckedCycle(env, inputs, all, run, n);
    RunExact(env, inputs, all, run, n);
    SameSolved(all, h.eqs + h.added, run(n));
    HoistNodeMeans(env, eqs, names, run(n));
  }
}
