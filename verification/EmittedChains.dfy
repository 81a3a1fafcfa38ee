/** The tick flags of the emitted state are those of the chains that clock
    inference lists. */
module EmittedChains {
  import opened Lustre
  import opened Clocks
  import opened Absence
  import opened StepMachine
  import opened EmittedStep
  import ClockChains

  function SitesOf(ps: seq<Part>, vc: ClockMap): set<Clock> {
    if ps == [] then {} else SiteClocks(ps[0].e, ps[0].ck, vc) + SitesOf(ps[1..], vc)
  }

  lemma SitesOfFew(p: Part, q: Part, r: Part, vc: ClockMap)
    ensures SitesOf([p], vc) == SiteClocks(p.e, p.ck, vc)
    ensures SitesOf([p, q], vc) == SiteClocks(p.e, p.ck, vc) + SiteClocks(q.e, q.ck, vc)
    ensures SitesOf([p, q, r], vc) == SiteClocks(p.e, p.ck, vc) + SiteClocks(q.e, q.ck, vc) + SiteClocks(r.e, r.ck, vc)
  {
    hide SiteClocks;
    assert [p][1..] == [] && [p, q][1..] == [q] && [q][1..] == [] && [r][1..] == [];
    assert [p, q, r][1..] == [q, r] && [q, r][1..] == [r];
    assert SitesOf([r], vc) == SiteClocks(r.e, r.ck, vc);
    assert SitesOf([q, r], vc) == SiteClocks(q.e, q.ck, vc) + SiteClocks(r.e, r.ck, vc);
  }

  lemma {:induction false} SitesOfArgs(args: seq<Expr>, ck: Clock, vc: ClockMap)
    ensures SitesOf(seq(|args|, i requires 0 <= i < |args| => Part(args[i], ck)), vc) == SiteClocksAll(args, ck, vc)
  {
    hide SiteClocks;
    if args != [] {
      var rest := args[1..];
      SitesOfArgs(rest, ck, vc);
      assert seq(|args|, i requires 0 <= i < |args| => Part(args[i], ck))[1..]
             == seq(|rest|, i requires 0 <= i < |rest| => Part(rest[i], ck));
    }
  }

  /** The check meets the sites of the parts of `e`, and `e` itself if it is one. */
  lemma SitesOfParts(e: Expr, ck: Clock, vc: ClockMap)
    requires Disciplined(e, ck, vc) && (e.Pre? ==> e.arg.Var?)
    ensures SiteClocks(e, ck, vc) == (if e.Pre? || e.Arrow? then {ck} else {}) + SitesOf(Parts(e, ck), vc)
  {
    match e
    case Unary(_, a) => SitesOfFew(Part(a, ck), Part(a, ck), Part(a, ck), vc);
    case Binary(_, a, b) => SitesOfFew(Part(a, ck), Part(b, ck), Part(b, ck), vc);
    case If(c, a, b) => SitesOfFew(Part(c, ck), Part(a, ck), Part(b, ck), vc);
    case Arrow(a, b) => SitesOfFew(Part(a, ck), Part(b, ck), Part(b, ck), vc);
    case When(a, _, _) => SitesOfFew(Part(a, ck.parent), Part(a, ck), Part(a, ck), vc);
    case Merge(c, a, b) => SitesOfFew(Part(a, On(c, true, ck)), Part(b, On(c, false, ck)), Part(b, ck), vc);
    case Call(_, _, args) => SitesOfArgs(args, ck, vc);
    case _ =>
  }

  lemma DisciplinedParts(e: Expr, ck: Clock, vc: ClockMap)
    requires Disciplined(e, ck, vc)
    ensures forall i | 0 <= i < |Parts(e, ck)| :: Disciplined(Parts(e, ck)[i].e, Parts(e, ck)[i].ck, vc)
  {
    if e.Call? { DisciplinedArgs(e.args, ck, vc); }
  }

  /** Where the clock rules hold, the check and the emitter meet the same sites. */
  lemma {:induction false} SameSites(functions: set<string>, e: Expr, ck: Clock, gate: Clock, vc: ClockMap)
    requires Disciplined(e, ck, vc) && Emittable(functions, e, ck, gate)
    ensures SiteClocks(e, ck, vc) == Chains(e, ck)
    decreases e, 1, 0
  {
    SitesOfParts(e, ck, vc);
    DisciplinedParts(e, ck, vc);
    SameSitesAll(functions, e, Parts(e, ck), gate, vc);
  }

  lemma {:induction false} SameSitesAll(functions: set<string>, whole: Expr, ps: seq<Part>, gate: Clock, vc: ClockMap)
    requires forall i | 0 <= i < |ps| :: ps[i].e < whole && Disciplined(ps[i].e, ps[i].ck, vc)
    requires EmittableAll(functions, whole, ps, gate)
    ensures SitesOf(ps, vc) == ChainsAll(whole, ps)
    decreases whole, 0, |ps|
  {
    hide Disciplined, Emittable, SiteClocks, Chains;
    if ps != [] {
      SameSites(functions, ps[0].e, ps[0].ck, gate, vc);
      SameSitesAll(functions, whole, ps[1..], gate, vc);
    }
  }

  /** Exactly the chains listed for a well-clocked node get a tick flag. */
  lemma TickFlagsAreChains(functions: set<string>, node: Node, vc: ClockMap)
    requires WellClocked(ClockedEquations(node, vc), vc) && EmittableSystem(functions, ClockedEquations(node, vc))
    ensures TickFields(ClockedEquations(node, vc)) == ClockChains.Chains(node, vc, |node.equations|)
  {
    var sys := ClockedEquations(node, vc);
    forall ck ensures ck in TickFields(sys) <==> ck in ClockChains.Chains(node, vc, |node.equations|) {
      ChainMembers(functions, node, vc, |node.equations|, ck);
      FieldMembers(node, vc, ck);
    }
  }

  ghost predicate ChainOf(node: Node, vc: ClockMap, ck: Clock, i: nat) {
    i < |node.equations| && ck.On? && ck in Chains(node.equations[i].rhs, EquationClock(node.equations[i], vc))
  }

  lemma FieldMembers(node: Node, vc: ClockMap, ck: Clock)
    ensures ck in TickFields(ClockedEquations(node, vc)) <==> exists i: nat :: i < |node.equations| && ChainOf(node, vc, ck, i)
  {
    hide Chains;
    var sys := ClockedEquations(node, vc);
    if i: nat :| i < |node.equations| && ChainOf(node, vc, ck, i) {
      assert sys[i].eq == node.equations[i];
    }
    if ck in TickFields(sys) {
      var i :| 0 <= i < |sys| && ck in Chains(sys[i].eq.rhs, sys[i].ck) && ck.On?;
      assert ChainOf(node, vc, ck, i);
    }
  }

  lemma {:induction false} ChainMembers(functions: set<string>, node: Node, vc: ClockMap, n: nat, ck: Clock)
    requires WellClocked(ClockedEquations(node, vc), vc) && EmittableSystem(functions, ClockedEquations(node, vc))
    requires n <= |node.equations|
    ensures ck in ClockChains.Chains(node, vc, n) <==> exists i: nat :: i < n && ChainOf(node, vc, ck, i)
    decreases n
  {
    if n > 0 {
      ChainMembers(functions, node, vc, n-1, ck);
      var c := ClockedEquations(node, vc)[n-1];
      assert Disciplined(c.eq.rhs, c.ck, vc) && Emittable(functions, c.eq.rhs, c.ck, c.ck);
      SameSites(functions, c.eq.rhs, c.ck, c.ck, vc);
      assert ck in ClockChains.Chains(node, vc, n) <==> ck in ClockChains.Chains(node, vc, n-1) || ChainOf(node, vc, ck, n-1);
    }
  }
}
