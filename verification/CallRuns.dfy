/** Stateful callees under a clock: an instance runs on the stream of its
    arguments at the ticks of its clock, shows its last answer in between and a
    default before the first, both conditionally activated and in the emitted C. */
module CallRuns {
  import opened Lustre
  import opened Declock
  import opened DeclockMeaning
  import opened Execution
  import opened StepMachine
  import opened EmittedStep

  // ---------------------------------------------------------------- the filtered stream

  /** The history of a call lists its arguments at the ticks of its clock, each
      at the place of its tick, and nothing else. */
  lemma {:induction false} HistoryFilters(cx: Context, args: seq<Expr>, ck: Clock, t: Trace, n: nat)
    ensures |History(cx, args, ck, t, n)| == Ticks(ck, t, n + 1)
    ensures forall m: nat | m <= n && Active(ck, t, m) :: ArgumentsAt(cx, args, ck, t, n, m)
  {
    hide EvalAll, Active;
    if n > 0 {
      HistoryFilters(cx, args, ck, t, n - 1);
      forall m: nat | m < n && Active(ck, t, m) ensures ArgumentsAt(cx, args, ck, t, n, m) {
        assert ArgumentsAt(cx, args, ck, t, n - 1, m);
      }
    }
    assert Active(ck, t, n) ==> ArgumentsAt(cx, args, ck, t, n, n);
  }

  ghost predicate ArgumentsAt(cx: Context, args: seq<Expr>, ck: Clock, t: Trace, n: nat, m: nat) {
    var h, k := History(cx, args, ck, t, n), Ticks(ck, t, m);
    k < |h| && h[k] == EvalAll(cx, args, ck, t, m)
  }

  /** Between ticks the stream does not grow. */
  lemma HistoryHolds(cx: Context, args: seq<Expr>, ck: Clock, t: Trace, n: nat)
    requires !Active(ck, t, n)
    ensures History(cx, args, ck, t, n) == if n == 0 then [] else History(cx, args, ck, t, n - 1)
  {
  }

  // ---------------------------------------------------------------- conditional activation

  /** A clocked call of the original node, declocked into a `condact`: its
      instance has run on the filtered stream, and the call shows the last
      answer, or the default of the callee's output type before the first tick. */
  lemma CondactFilters(p: Pair, sys: seq<Clocked>, out: seq<Equation>, rank: string -> nat, e: Expr, ck: Clock, r: Expr, n: nat)
    requires Compared(p, sys, out) && Ranked(out, rank)
    requires e.Call? && e.node !in p.cx.functions && ck.On? && Rewrites(e, ck, r, p.T, p.cx.functions) && Names(e) <= p.vars
    requires HistoryDefined(History(p.cx, e.args, ck, p.t, n))
    ensures
      var m := p.cx.callees(e.node);
      var h := History(p.cx, e.args, ck, p.t, n);
      r.Condact? && CondactRun(Rewritten(p), r, p.u, n) == (MemoryAfter(m, h), Shown(m, h, Default(p.T.outputs(e.node))))
  {
    forall k: nat ensures AllAgree(p, k) { DeclockPreserves(p, sys, out, rank, k); }
    assert NamesAgree(p, n, Reads(r)) by {
      forall x | x in Reads(r) ensures NameAgrees(p, n, x) { assert AllAgree(p, n); }
    }
    RewrittenCondact(p, e, ck, r, n);
  }

  // ---------------------------------------------------------------- the guarded call

  /** The variable of a clocked call: the last answer, or the default. */
  lemma {:induction false} HeldCall(cx: Context, c: Clocked, t: Trace, n: nat)
    requires c.eq.rhs.Call? && c.eq.rhs.node !in cx.functions
    requires forall k: nat | k <= n :: t(k, c.eq.lhs) == Held(cx, c.eq, c.ck, c.default, t, k)
    requires HistoryDefined(History(cx, c.eq.rhs.args, c.ck, t, n))
    ensures t(n, c.eq.lhs) == Shown(cx.callees(c.eq.rhs.node), History(cx, c.eq.rhs.args, c.ck, t, n), c.default)
  {
    if !Active(c.ck, t, n) {
      HistoryHolds(cx, c.eq.rhs.args, c.ck, t, n);
      if n > 0 { HeldCall(cx, c, t, n - 1); }
    }
  }

  /** The same call guarded in the emitted C: its instance has run on the
      filtered stream of the past, and its variable shows the last answer, or
      the default before the first tick. */
  lemma GuardedCallFilters(cx: Context, sys: seq<Clocked>, names: set<string>, env: nat -> map<string, Value>, t: Trace, i: nat, n: nat)
    requires Emitted(cx, sys, names) && Run(cx, sys, t) && Driven(sys, names, env, t)
    requires i < |sys| && sys[i].eq.rhs.Call? && sys[i].eq.rhs.node !in cx.functions
    requires HistoryDefined(History(cx, sys[i].eq.rhs.args, sys[i].ck, t, n))
    ensures
      var c, s := sys[i], StateAfter(cx, sys, env, n);
      var m := cx.callees(c.eq.rhs.node);
      && c.eq.rhs.site in s.subs
      && s.subs[c.eq.rhs.site] == MemoryAfter(m, Before(cx, c.eq.rhs.args, c.ck, t, n))
      && Field(Ran(cx, sys, s, env(n)).env, c.eq.lhs) == Shown(m, History(cx, c.eq.rhs.args, c.ck, t, n), c.default)
  {
    var c := sys[i];
    MachineSimulates(cx, sys, names, env, t, n);
    MachineStep(cx, sys, names, env, t, n);
    assert SubsAt(cx, c, StateAfter(cx, sys, env, n).subs, t, n);
    if n > 0 { HistoryPrefix(cx, c.eq.rhs.args, c.ck, t, n); }
    forall k: nat | k <= n ensures t(k, c.eq.lhs) == Held(cx, c.eq, c.ck, c.default, t, k) { assert StepOk(cx, sys, t, k); }
    HeldCall(cx, c, t, n);
    assert c.eq.lhs in names;
  }
}
