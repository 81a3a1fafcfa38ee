/** Gating an equation by its clock adds no dependency cycle to a well-clocked
    node: the clocked node and its base-clock rewriting can be scheduled
    whenever the reads alone can. */
module Causality {
  import opened Lustre
  import opened Graphs
  import opened Order
  import opened Execution
  import opened Clocks
  import opened Options
  import opened Absence

  function Depth(ck: Clock): nat {
    if ck.Base? then 0 else 1 + Depth(ck.parent)
  }

  // ---------------------------------------------------------------- clocks of condition variables

  /** A condition variable of a grounded clock lives strictly above it, on part of its conditions. */
  lemma {:induction false} ConditionAbove(ck: Clock, vc: ClockMap, d: string)
    requires GroundedClock(ck, vc) && d in Conditions(ck)
    ensures d in vc && GroundedClock(vc[d], vc)
    ensures Conditions(vc[d]) <= Conditions(ck) && Depth(vc[d]) < Depth(ck)
  {
    if d != ck.clock {
      ConditionAbove(ck.parent, vc, d);
    }
  }

  /** No clock samples on a variable that lives on that clock or below it. */
  lemma NotItsOwnCondition(ck: Clock, vc: ClockMap, d: string)
    requires GroundedClock(ck, vc) && d in Conditions(ck)
    ensures d in vc && d !in Conditions(vc[d])
  {
    ConditionAbove(ck, vc, d);
    if d in Conditions(vc[d]) {
      ConditionAbove(vc[d], vc, d);
    }
  }

  /** Reading something gated by `d` from outside `d` takes a `merge` on `d`,
      which reads `d` itself. */
  lemma {:induction false} ReadThroughMerge(e: Expr, ck: Clock, vc: ClockMap, x: string, d: string)
    requires Disciplined(e, ck, vc) && x in Reads(e)
    requires x in vc && d in Conditions(vc[x]) && d !in Conditions(ck)
    ensures d in Reads(e)
    decreases e
  {
    match e
    case Const(_) =>
    case Var(_) =>
    case Unary(_, a) => ReadThroughMerge(a, ck, vc, x, d);
    case Binary(_, a, b) => ReadThroughMerge(if x in Reads(a) then a else b, ck, vc, x, d);
    case If(c, a, b) =>
      ReadThroughMerge(if x in Reads(c) then c else if x in Reads(a) then a else b, ck, vc, x, d);
    case Pre(_) =>
    case Arrow(a, b) => ReadThroughMerge(if x in Reads(a) then a else b, ck, vc, x, d);
    case When(a, c, _) => if x in Reads(a) { ReadThroughMerge(a, ck.parent, vc, x, d); }
    case Merge(c, a, b) =>
      if d != c {
        if x in Reads(a) {
          ReadThroughMerge(a, On(c, true, ck), vc, x, d);
        } else if x in Reads(b) {
          ReadThroughMerge(b, On(c, false, ck), vc, x, d);
        }
      }
    case Call(_, _, args) => ReadThroughArgs(args, ck, vc, x, d);
    case Condact(_, _, _, _, _) =>
  }

  lemma {:induction false} ReadThroughArgs(args: seq<Expr>, ck: Clock, vc: ClockMap, x: string, d: string)
    requires DisciplinedAll(args, ck, vc) && x in ReadsAll(args)
    requires x in vc && d in Conditions(vc[x]) && d !in Conditions(ck)
    ensures d in ReadsAll(args)
    decreases args
  {
    if x in Reads(args[0]) {
      ReadThroughMerge(args[0], ck, vc, x, d);
    } else {
      ReadThroughArgs(args[1..], ck, vc, x, d);
    }
  }

  // ---------------------------------------------------------------- edges

  lemma ReadGraphEdge(eqs: seq<Equation>, i: nat, j: nat)
    requires UniqueDefinitions(eqs) && i < |eqs| && j < |eqs|
    ensures Edge(ReadGraph(eqs), i, j) <==> eqs[j].lhs in Reads(eqs[i].rhs)
  {
    var def := DefinedBy(eqs);
    assert def[eqs[j].lhs] == j;
    assert SameCycleReads(eqs)[i] == Reads(eqs[i].rhs);
  }

  lemma NeedGraphEdge(sys: seq<Clocked>, i: nat, j: nat)
    requires UniqueDefinitions(Equations(sys)) && i < |sys| && j < |sys|
    ensures Edge(NeedGraph(sys), i, j) <==> sys[j].eq.lhs in Needs(sys[i])
  {
    var eqs := Equations(sys);
    var def := DefinedBy(eqs);
    assert eqs[j].lhs == sys[j].eq.lhs;
    assert def[eqs[j].lhs] == j;
    assert AllNeeds(sys)[i] == Needs(sys[i]);
  }

  /** An edge into the scope of `d` from outside it starts at an equation reading `d`. */
  lemma EdgeIntoScope(sys: seq<Clocked>, vc: ClockMap, i: nat, j: nat, d: string)
    requires WellClocked(sys, vc) && UniqueDefinitions(Equations(sys)) && i < |sys| && j < |sys|
    requires Edge(NeedGraph(sys), i, j)
    requires d in Conditions(sys[j].ck) && d !in Conditions(sys[i].ck)
    ensures d in Reads(sys[i].eq.rhs)
  {
    NeedGraphEdge(sys, i, j);
    var x := sys[j].eq.lhs;
    assert vc[x] == sys[j].ck;
    assert Disciplined(sys[i].eq.rhs, sys[i].ck, vc);
    assert vc[sys[i].eq.lhs] == sys[i].ck && GroundedClock(sys[i].ck, vc);
    if x in Conditions(sys[i].ck) {
      ConditionAbove(sys[i].ck, vc, x);
    } else {
      ReadThroughMerge(sys[i].eq.rhs, sys[i].ck, vc, x, d);
    }
  }

  // ---------------------------------------------------------------- no new cycle

  /** The first step of a walk into the scope of `d`. */
  lemma {:induction false} FirstStepInto(sys: seq<Clocked>, w: seq<nat>, d: string) returns (i: nat)
    requires |w| >= 2 && forall k | 0 <= k < |w| :: w[k] < |sys|
    requires d !in Conditions(sys[w[0]].ck) && d in Conditions(sys[w[|w|-1]].ck)
    ensures i + 1 < |w| && d !in Conditions(sys[w[i]].ck) && d in Conditions(sys[w[i+1]].ck)
  {
    if d in Conditions(sys[w[1]].ck) {
      i := 0;
    } else {
      i := FirstStepInto(sys, w[1..], d);
      i := i + 1;
    }
  }

  lemma WalkRange(g: Graph<nat>, n: nat, p: seq<nat>)
    requires Walk(g, p) && g.Keys == UpTo(n)
    ensures forall k | 0 <= k < |p| :: p[k] < n
  {
  }

  lemma WalkSlice<T>(g: Graph<T>, p: seq<T>, i: nat, j: nat)
    requires Walk(g, p) && i < j <= |p|
    ensures Walk(g, p[i..j])
  {
    var q := p[i..j];
    forall k | 0 <= k < |q| - 1 ensures Edge(g, q[k], q[k+1]) {
      assert Edge(g, p[i+k], p[i+k+1]);
    }
  }

  lemma WalkJoin<T>(g: Graph<T>, p: seq<T>, q: seq<T>)
    requires Walk(g, p) && Walk(g, q) && Edge(g, p[|p|-1], q[0])
    ensures Walk(g, p + q)
  {
    var r := p + q;
    forall k | 0 <= k < |r| - 1 ensures Edge(g, r[k], r[k+1]) {
      if k + 1 < |p| {
        assert Edge(g, p[k], p[k+1]);
      } else if k >= |p| {
        assert Edge(g, q[k-|p|], q[k-|p|+1]);
      }
    }
  }

  /** A cycle seen from its k-th edge: the walk from the edge's end back to its start. */
  lemma Rotate<T>(g: Graph<T>, p: seq<T>, k: nat) returns (w: seq<T>)
    requires Cycle(g, p) && k + 1 < |p|
    ensures Walk(g, w) && |w| == |p| - 1 && w[0] == p[k+1] && w[|w|-1] == p[k]
  {
    WalkSlice(g, p, k + 1, |p|);
    if k == 0 {
      w := p[1..];
    } else {
      WalkSlice(g, p, 1, k + 1);
      assert Edge(g, p[0], p[1]);
      WalkJoin(g, p[k+1..|p|], p[1..k+1]);
      w := p[k+1..|p|] + p[1..k+1];
    }
  }

  /** From a cycle through a gating edge, a strictly shorter cycle. */
  lemma Shortcut(sys: seq<Clocked>, vc: ClockMap, p: seq<nat>, k: nat) returns (c: seq<nat>)
    requires WellClocked(sys, vc) && UniqueDefinitions(Equations(sys))
    requires Cycle(NeedGraph(sys), p) && k + 1 < |p| && p[k] < |sys| && p[k+1] < |sys|
    requires sys[p[k+1]].eq.lhs in Conditions(sys[p[k]].ck)
    ensures Cycle(NeedGraph(sys), c) && |c| < |p|
  {
    var g := NeedGraph(sys);
    var d := sys[p[k+1]].eq.lhs;
    var w := Rotate(g, p, k);
    WalkRange(g, |sys|, w);
    assert vc[sys[p[k]].eq.lhs] == sys[p[k]].ck && GroundedClock(sys[p[k]].ck, vc);
    NotItsOwnCondition(sys[p[k]].ck, vc, d);
    assert vc[d] == sys[w[0]].ck;
    var i := FirstStepInto(sys, w, d);
    assert Edge(g, w[i], w[i+1]);
    EdgeIntoScope(sys, vc, w[i], w[i+1], d);
    NeedGraphEdge(sys, w[i], w[0]);
    WalkSlice(g, w, 0, i + 1);
    WalkAppend(g, w[0..i+1], w[0]);
    c := w[0..i+1] + [w[0]];
  }

  /** Every cycle of reads and gates yields a cycle of reads alone. */
  lemma {:induction false} ReadCycle(sys: seq<Clocked>, vc: ClockMap, p: seq<nat>) returns (c: seq<nat>)
    requires WellClocked(sys, vc) && UniqueDefinitions(Equations(sys))
    requires Cycle(NeedGraph(sys), p)
    ensures Cycle(ReadGraph(Equations(sys)), c)
    decreases |p|
  {
    var g := NeedGraph(sys);
    WalkRange(g, |sys|, p);
    if k :| 0 <= k < |p| - 1 && sys[p[k+1]].eq.lhs !in Reads(sys[p[k]].eq.rhs) {
      assert Edge(g, p[k], p[k+1]);
      NeedGraphEdge(sys, p[k], p[k+1]);
      var q := Shortcut(sys, vc, p, k);
      c := ReadCycle(sys, vc, q);
    } else {
      c := p;
      OnlyReads(Equations(sys), p);
    }
  }

  lemma OnlyReads(eqs: seq<Equation>, p: seq<nat>)
    requires UniqueDefinitions(eqs) && |p| >= 2 && p[0] == p[|p|-1]
    requires forall k | 0 <= k < |p| :: p[k] < |eqs|
    requires forall k | 0 <= k < |p| - 1 :: eqs[p[k+1]].lhs in Reads(eqs[p[k]].rhs)
    ensures Cycle(ReadGraph(eqs), p)
  {
    forall k | 0 <= k < |p| - 1 ensures Edge(ReadGraph(eqs), p[k], p[k+1]) {
      ReadGraphEdge(eqs, p[k], p[k+1]);
    }
  }

  /** Declocking preserves causality: gating every equation of a well-clocked
      node by the conditions of its clock closes no dependency cycle, so the
      gated equations can be ordered exactly when the reads can. */
  lemma GatesCloseNoCycle(sys: seq<Clocked>, vc: ClockMap)
    requires WellClocked(sys, vc) && UniqueDefinitions(Equations(sys))
    ensures Acyclic(NeedGraph(sys)) <==> Acyclic(ReadGraph(Equations(sys)))
  {
    var eqs := Equations(sys);
    if Acyclic(ReadGraph(eqs)) {
      forall p: seq<nat> ensures !Cycle(NeedGraph(sys), p) {
        if Cycle(NeedGraph(sys), p) {
          var c := ReadCycle(sys, vc, p);
        }
      }
    }
    if Acyclic(NeedGraph(sys)) {
      forall p: seq<nat> ensures !Cycle(ReadGraph(eqs), p) {
        if Cycle(ReadGraph(eqs), p) { ReadCycleNeeds(sys, p); }
      }
    }
  }

  lemma ReadCycleNeeds(sys: seq<Clocked>, p: seq<nat>)
    requires UniqueDefinitions(Equations(sys)) && Cycle(ReadGraph(Equations(sys)), p)
    ensures Cycle(NeedGraph(sys), p)
  {
    var eqs := Equations(sys);
    WalkRange(ReadGraph(eqs), |eqs|, p);
    forall k | 0 <= k < |p| - 1 ensures Edge(NeedGraph(sys), p[k], p[k+1]) {
      assert Edge(ReadGraph(eqs), p[k], p[k+1]);
      ReadGraphEdge(eqs, p[k], p[k+1]);
      NeedGraphEdge(sys, p[k], p[k+1]);
    }
  }
}
