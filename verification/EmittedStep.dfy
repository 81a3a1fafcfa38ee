/** The emitted node: its state, one step of it, and the proof that on every run
    it computes what the clocked dataflow means. */
module EmittedStep {
  import opened Lustre
  import opened Graphs
  import opened Order
  import opened Execution
  import opened StepMachine

  /** The fields of the emitted state struct. */
  datatype State = State(initialized: bool, prev: map<string, Value>, held: map<string, Value>,
                         ticked: set<Clock>, subs: map<nat, Memory>)

  /** What one step changes while its equations run. */
  datatype Frame = Frame(env: map<string, Value>, held: map<string, Value>, bank: Bank)

  function PreFields(sys: seq<Clocked>): set<string> {
    set i, x | 0 <= i < |sys| && x in PreVars(sys[i].eq.rhs, sys[i].ck) :: x
  }

  function TickFields(sys: seq<Clocked>): set<Clock> {
    set i, ck | 0 <= i < |sys| && ck in Chains(sys[i].eq.rhs, sys[i].ck) && ck.On? :: ck
  }

  function AllInstances(cx: Context, sys: seq<Clocked>): map<nat, Memory> {
    if sys == [] then map[]
    else AllInstances(cx, sys[..|sys|-1]) + Instances(cx, sys[|sys|-1].eq.rhs, sys[|sys|-1].ck)
  }

  function HeldFields(sys: seq<Clocked>): (m: map<string, Value>)
    ensures forall x | x in m :: x in DefinedVars(sys)
  {
    if sys == [] then map[] else
    var c := sys[|sys|-1];
    assert forall x | x in DefinedVars(sys[..|sys|-1]) :: x in DefinedVars(sys);
    HeldFields(sys[..|sys|-1])[c.eq.lhs := c.default]
  }

  /** The state `_init` leaves: zeroed fields and initialized instances. */
  function Initial(cx: Context, sys: seq<Clocked>): State {
    State(false, map[], HeldFields(sys), {}, AllInstances(cx, sys))
  }

  /** The C condition for "this clock is active": its variables as they stand. */
  predicate Guard(ck: Clock, env: map<string, Value>) {
    ck.On? ==> Guard(ck.parent, env) && Truth(Field(env, ck.clock)) == ck.on
  }

  function Seen(s: State, f: Frame): View {
    View(f.env, s.prev, s.initialized, s.ticked)
  }

  /** One emitted equation: guarded by its clock, holding its variable otherwise. */
  function RunEquation(cx: Context, c: Clocked, s: State, f: Frame): Frame {
    var x := c.eq.lhs;
    if Guard(c.ck, f.env) then
      var code := LowerAnf(c.eq.rhs, c.ck);
      var bank := RunCalls(cx, code.calls, Seen(s, f), f.bank);
      var v := CValue(code.values[0], Seen(s, f), bank.outs);
      Frame(f.env[x := v], if c.ck.On? then f.held[x := v] else f.held, bank)
    else f.(env := f.env[x := Field(f.held, x)])
  }

  function RunEquations(cx: Context, sys: seq<Clocked>, s: State, f: Frame): Frame {
    if sys == [] then f
    else RunEquation(cx, sys[|sys|-1], s, RunEquations(cx, sys[..|sys|-1], s, f))
  }

  /** The end of a step: snapshots for `pre`, tick flags, `initialized`. */
  function Finish(sys: seq<Clocked>, s: State, f: Frame): State {
    State(true,
          map x | x in PreFields(sys) :: Field(f.env, x),
          f.held,
          s.ticked + (set ck | ck in TickFields(sys) && Guard(ck, f.env)),
          f.bank.subs)
  }

  /** The variables as a step finds them: inputs, and whatever the others hold. */
  function Begin(s: State, env: map<string, Value>): Frame {
    Frame(env, s.held, Bank(s.subs, map[]))
  }

  function Ran(cx: Context, sys: seq<Clocked>, s: State, env: map<string, Value>): Frame {
    RunEquations(cx, sys, s, Begin(s, env))
  }

  function Next(cx: Context, sys: seq<Clocked>, s: State, env: map<string, Value>): State {
    Finish(sys, s, Ran(cx, sys, s, env))
  }

  /** The state after `n` steps, `env(m)` being what step `m` starts from. */
  function StateAfter(cx: Context, sys: seq<Clocked>, env: nat -> map<string, Value>, n: nat): State {
    if n == 0 then Initial(cx, sys) else Next(cx, sys, StateAfter(cx, sys, env, n-1), env(n-1))
  }

  // ---------------------------------------------------------------- the emitted functions

  /** An instance of the emitted node, with the equations in emission order. */
  class Instance {
    const cx: Context
    const sys: seq<Clocked>
    var initialized: bool
    var prev: map<string, Value>
    var held: map<string, Value>
    var ticked: set<Clock>
    var subs: map<nat, Memory>

    function Snapshot(): State
      reads this
    {
      State(initialized, prev, held, ticked, subs)
    }

    constructor (cx: Context, sys: seq<Clocked>)
      ensures this.cx == cx && this.sys == sys
      ensures Snapshot() == Initial(cx, sys)
    {
      this.cx := cx;
      this.sys := sys;
      initialized := false;
      prev := map[];
      held := HeldFields(sys);
      ticked := {};
      subs := AllInstances(cx, sys);
    }

    method RunHoisted(calls: seq<CCall>, w: View, results: map<nat, Value>) returns (outs: map<nat, Value>)
      modifies this`subs
      ensures Bank(subs, outs) == RunCalls(cx, calls, w, Bank(old(subs), results))
    {
      outs := results;
      for i := 0 to |calls|
        invariant Bank(subs, outs) == RunCalls(cx, calls[..i], w, Bank(old(subs), results))
      {
        var c := calls[i];
        var m := cx.callees(c.callee);
        var args := CValues(c.args, w, outs);
        assert calls[..i+1][..i] == calls[..i];
        if c.callee in cx.functions {
          outs := outs[c.site := m.step(m.init, args).1];
        } else {
          var (after, v) := m.step(if c.site in subs then subs[c.site] else [], args);
          subs := subs[c.site := after];
          outs := outs[c.site := v];
        }
      }
      assert calls[..|calls|] == calls;
    }

    /** `_step`: equations top to bottom, then the state updates. `env` holds the
        inputs, the zeroed locals and whatever the output struct held before. */
    method Step(env: map<string, Value>) returns (out: map<string, Value>)
      modifies this
      ensures Snapshot() == Next(cx, sys, old(Snapshot()), env)
      ensures out == Ran(cx, sys, old(Snapshot()), env).env
    {
      ghost var s := Snapshot();
      ghost var f := Begin(s, env);
      var outs: map<nat, Value> := map[];
      out := env;
      for i := 0 to |sys|
        invariant s == Snapshot().(held := s.held, subs := s.subs)
        invariant Frame(out, held, Bank(subs, outs)) == RunEquations(cx, sys[..i], s, f)
      {
        var c := sys[i];
        assert sys[..i+1][..i] == sys[..i];
        if Guard(c.ck, out) {
          var code := LowerAnf(c.eq.rhs, c.ck);
          var w := View(out, prev, initialized, ticked);
          outs := RunHoisted(code.calls, w, outs);
          var v := CValue(code.values[0], w, outs);
          out := out[c.eq.lhs := v];
          if c.ck.On? { held := held[c.eq.lhs := v]; }
        } else {
          out := out[c.eq.lhs := Field(held, c.eq.lhs)];
        }
      }
      assert sys[..|sys|] == sys;
      prev := map x | x in PreFields(sys) :: Field(out, x);
      ticked := ticked + (set ck | ck in TickFields(sys) && Guard(ck, out));
      initialized := true;
    }
  }

  // ---------------------------------------------------------------- the simulation invariant

  ghost predicate HeldAt(c: Clocked, held: map<string, Value>, t: Trace, n: nat) {
    c.ck.On? ==> Field(held, c.eq.lhs) == if n == 0 then c.default else t(n-1, c.eq.lhs)
  }

  ghost predicate SubsAt(cx: Context, c: Clocked, subs: map<nat, Memory>, t: Trace, n: nat) {
    SubsOk(cx, c.eq.rhs, c.ck, t, n, subs)
  }

  /** What the state says about the past: the part of the invariant equations only read. */
  ghost predicate Recalls(sys: seq<Clocked>, s: State, t: Trace, n: nat) {
    && s.initialized == (n > 0)
    && (n > 0 ==> forall x | x in PreFields(sys) :: Field(s.prev, x) == t(n-1, x))
    && (forall ck | ck in TickFields(sys) :: ck in s.ticked <==> Ticked(ck, t, n))
  }

  /** Between steps: `prev_` fields hold the previous cycle's values, `held_`
      fields the variables' last values, tick flags say which clocks have ever
      been active, and every instance has consumed exactly the arguments of the
      ticks of its call. */
  ghost predicate Simulates(cx: Context, sys: seq<Clocked>, s: State, t: Trace, n: nat) {
    && Recalls(sys, s, t, n)
    && (forall i | 0 <= i < |sys| :: HeldAt(sys[i], s.held, t, n))
    && (forall i | 0 <= i < |sys| :: SubsAt(cx, sys[i], s.subs, t, n))
  }

  function CallSites(c: Clocked): set<nat> {
    Sites(c.eq.rhs, c.ck)
  }

  ghost predicate EmittableSystem(functions: set<string>, sys: seq<Clocked>) {
    && (forall i | 0 <= i < |sys| :: Emittable(functions, sys[i].eq.rhs, sys[i].ck, sys[i].ck))
    && (forall i, j | 0 <= i < j < |sys| :: CallSites(sys[i]) !! CallSites(sys[j]))
  }

  ghost predicate DefinedAt(names: set<string>, t: Trace, n: nat) {
    forall x | x in names :: !t(n, x).Undef?
  }

  /** The cycle reached by equation `i` once the first `k` have run in cycle `n`. */
  function Since(i: nat, k: nat, n: nat): nat {
    if i < k then n+1 else n
  }

  ghost predicate EnvProgress(sys: seq<Clocked>, names: set<string>, env: map<string, Value>, t: Trace, n: nat, k: nat)
    requires k <= |sys|
  {
    forall x | x in names && (x in DefinedVars(sys[..k]) || x !in DefinedVars(sys)) :: Field(env, x) == t(n, x)
  }

  ghost predicate HeldProgress(sys: seq<Clocked>, held: map<string, Value>, t: Trace, n: nat, k: nat) {
    forall i | 0 <= i < |sys| :: HeldAt(sys[i], held, t, Since(i, k, n))
  }

  ghost predicate SubsProgress(cx: Context, sys: seq<Clocked>, subs: map<nat, Memory>, t: Trace, n: nat, k: nat) {
    forall i | 0 <= i < |sys| :: SubsAt(cx, sys[i], subs, t, Since(i, k, n))
  }

  /** After `k` equations of the step. */
  ghost predicate Progress(cx: Context, sys: seq<Clocked>, names: set<string>, f: Frame, t: Trace, n: nat, k: nat)
    requires k <= |sys|
  {
    && EnvProgress(sys, names, f.env, t, n, k)
    && HeldProgress(sys, f.held, t, n, k)
    && SubsProgress(cx, sys, f.bank.subs, t, n, k)
  }

  lemma {:induction false} GuardActive(ck: Clock, env: map<string, Value>, t: Trace, n: nat)
    requires forall x | x in Conditions(ck) :: Field(env, x) == t(n, x)
    ensures Guard(ck, env) == Active(ck, t, n)
  {
    if ck.On? { GuardActive(ck.parent, env, t, n); }
  }

  /** What the C theorem asks of the emitted equations: supported expressions,
      in an order that computes reads and gates first. */
  ghost predicate Emitted(cx: Context, sys: seq<Clocked>, names: set<string>) {
    cx.nil.Undef? && EmittableSystem(cx.functions, sys) && Causal(sys) && Mentions(sys, names)
  }

  /** Running one equation gives its variable the dataflow value. */
  lemma EquationRuns(cx: Context, c: Clocked, s: State, f: Frame, t: Trace, n: nat)
    requires cx.nil.Undef? && Emittable(cx.functions, c.eq.rhs, c.ck, c.ck)
    requires forall x | x in Needs(c) :: Field(f.env, x) == t(n, x)
    requires Shows(Seen(s, f), Reads(c.eq.rhs), PreVars(c.eq.rhs, c.ck), Chains(c.eq.rhs, c.ck), t, n)
    requires HeldAt(c, f.held, t, n) && SubsAt(cx, c, f.bank.subs, t, n)
    requires t(n, c.eq.lhs) == Held(cx, c.eq, c.ck, c.default, t, n) && !t(n, c.eq.lhs).Undef?
    ensures
      var g := RunEquation(cx, c, s, f);
      && g.env == f.env[c.eq.lhs := t(n, c.eq.lhs)]
      && HeldAt(c, g.held, t, n+1)
      && (forall x | x != c.eq.lhs :: Field(g.held, x) == Field(f.held, x))
      && SubsAt(cx, c, g.bank.subs, t, n+1)
      && Touches(CallSites(c), f.bank, g.bank)
  {
    GuardActive(c.ck, f.env, t, n);
    if Active(c.ck, t, n) {
      var w := Seen(s, f);
      CallsRun(cx, c.eq.rhs, c.ck, c.ck, w, f.bank, t, n);
      var bank := RunCalls(cx, LowerAnf(c.eq.rhs, c.ck).calls, w, f.bank);
      LoweredValue(cx, c.eq.rhs, c.ck, c.ck, w, bank.outs, t, n);
    } else {
      SubsSkip(cx, c.eq.rhs, c.ck, c.ck, t, n, f.bank.subs);
    }
  }

  lemma NeedsShown(sys: seq<Clocked>, names: set<string>, env: map<string, Value>, t: Trace, n: nat, k: nat)
    requires Causal(sys) && Mentions(sys, names) && k < |sys| && EnvProgress(sys, names, env, t, n, k)
    ensures forall x | x in Needs(sys[k]) :: Field(env, x) == t(n, x)
  {
    var c := sys[k];
    ReadsNames(c.eq.rhs);
    forall x | x in Needs(c) ensures Field(env, x) == t(n, x) {
      assert x in DefinedVars(sys) ==> x in Needs(c) * DefinedVars(sys);
      assert x in names;
    }
  }

  lemma ShowsEquation(sys: seq<Clocked>, s: State, f: Frame, t: Trace, n: nat, k: nat)
    requires k < |sys| && Recalls(sys, s, t, n)
    requires forall x | x in Needs(sys[k]) :: Field(f.env, x) == t(n, x)
    ensures Shows(Seen(s, f), Reads(sys[k].eq.rhs), PreVars(sys[k].eq.rhs, sys[k].ck),
                  Chains(sys[k].eq.rhs, sys[k].ck), t, n)
  {
    var c := sys[k];
    forall x | x in PreVars(c.eq.rhs, c.ck) ensures x in PreFields(sys) {
    }
    forall ck | ck in Chains(c.eq.rhs, c.ck) ensures IsFirst(ck, Seen(s, f)) == !Ticked(ck, t, n) {
      if ck.On? {
        assert ck in TickFields(sys);
      } else {
        BaseTicks(t, n);
      }
    }
  }

  lemma BaseTicks(t: Trace, n: nat)
    ensures Ticked(Base, t, n) == (n > 0)
  {
  }

  lemma {:induction false} EquationsRun(cx: Context, sys: seq<Clocked>, names: set<string>, s: State, f: Frame, t: Trace, n: nat, k: nat)
    requires Emitted(cx, sys, names) && StepOk(cx, sys, t, n) && DefinedAt(names, t, n)
    requires Recalls(sys, s, t, n) && k <= |sys|
    requires Progress(cx, sys, names, f, t, n, 0)
    ensures Progress(cx, sys, names, RunEquations(cx, sys[..k], s, f), t, n, k)
  {
    if k > 0 {
      EquationsRun(cx, sys, names, s, f, t, n, k-1);
      var before := RunEquations(cx, sys[..k-1], s, f);
      assert sys[..k][..k-1] == sys[..k-1] && sys[..k][k-1] == sys[k-1];
      EquationProgress(cx, sys, names, s, before, t, n, k);
    }
  }

  lemma EquationProgress(cx: Context, sys: seq<Clocked>, names: set<string>, s: State, f: Frame, t: Trace, n: nat, k: nat)
    requires Emitted(cx, sys, names) && StepOk(cx, sys, t, n) && DefinedAt(names, t, n)
    requires 0 < k <= |sys| && Recalls(sys, s, t, n) && Progress(cx, sys, names, f, t, n, k-1)
    ensures Progress(cx, sys, names, RunEquation(cx, sys[k-1], s, f), t, n, k)
  {
    var c := sys[k-1];
    NeedsShown(sys, names, f.env, t, n, k-1);
    ShowsEquation(sys, s, f, t, n, k-1);
    assert HeldAt(c, f.held, t, Since(k-1, k-1, n)) && SubsAt(cx, c, f.bank.subs, t, Since(k-1, k-1, n));
    assert c.eq.lhs in names;
    EquationRuns(cx, c, s, f, t, n);
    var g := RunEquation(cx, c, s, f);
    EnvOne(sys, names, f.env, t, n, k);
    HeldOne(sys, f.held, g.held, t, n, k);
    SubsOne(cx, sys, f.bank, g.bank, t, n, k);
  }

  lemma EnvOne(sys: seq<Clocked>, names: set<string>, env: map<string, Value>, t: Trace, n: nat, k: nat)
    requires 0 < k <= |sys| && EnvProgress(sys, names, env, t, n, k-1)
    ensures EnvProgress(sys, names, env[sys[k-1].eq.lhs := t(n, sys[k-1].eq.lhs)], t, n, k)
  {
    assert DefinedVars(sys[..k]) == DefinedVars(sys[..k-1]) + {sys[k-1].eq.lhs};
  }

  lemma HeldOne(sys: seq<Clocked>, before: map<string, Value>, after: map<string, Value>, t: Trace, n: nat, k: nat)
    requires 0 < k <= |sys| && Causal(sys)
    requires HeldProgress(sys, before, t, n, k-1) && HeldAt(sys[k-1], after, t, n+1)
    requires forall x | x != sys[k-1].eq.lhs :: Field(after, x) == Field(before, x)
    ensures HeldProgress(sys, after, t, n, k)
  {
    forall i | 0 <= i < |sys| ensures HeldAt(sys[i], after, t, Since(i, k, n)) {
      if i != k-1 {
        assert HeldAt(sys[i], before, t, Since(i, k-1, n));
        assert sys[i].eq.lhs != sys[k-1].eq.lhs;
      }
    }
  }

  lemma SubsOne(cx: Context, sys: seq<Clocked>, before: Bank, after: Bank, t: Trace, n: nat, k: nat)
    requires 0 < k <= |sys| && forall i, j | 0 <= i < j < |sys| :: CallSites(sys[i]) !! CallSites(sys[j])
    requires SubsProgress(cx, sys, before.subs, t, n, k-1) && SubsAt(cx, sys[k-1], after.subs, t, n+1)
    requires Touches(CallSites(sys[k-1]), before, after)
    ensures SubsProgress(cx, sys, after.subs, t, n, k)
  {
    forall i | 0 <= i < |sys| ensures SubsAt(cx, sys[i], after.subs, t, Since(i, k, n)) {
      if i != k-1 {
        assert SubsAt(cx, sys[i], before.subs, t, Since(i, k-1, n));
        assert CallSites(sys[i]) !! CallSites(sys[k-1]);
        SubsFrame(cx, sys[i].eq.rhs, sys[i].ck, t, Since(i, k, n), before.subs, after.subs);
      }
    }
  }

  lemma FieldsNamed(sys: seq<Clocked>, names: set<string>)
    requires Mentions(sys, names)
    ensures PreFields(sys) <= names
    ensures forall ck | ck in TickFields(sys) :: Conditions(ck) <= names
  {
    forall x | x in PreFields(sys) ensures x in names {
      var i :| 0 <= i < |sys| && x in PreVars(sys[i].eq.rhs, sys[i].ck);
      PreNames(sys[i].eq.rhs, sys[i].ck, x);
    }
    forall ck | ck in TickFields(sys) ensures Conditions(ck) <= names {
      var i :| 0 <= i < |sys| && ck in Chains(sys[i].eq.rhs, sys[i].ck);
      ChainNames(sys[i].eq.rhs, sys[i].ck, ck);
      ReadsNames(sys[i].eq.rhs);
    }
  }

  /** Every variable shows cycle `n` of `t`. */
  ghost predicate ShowsCycle(names: set<string>, env: map<string, Value>, t: Trace, n: nat) {
    forall x | x in names :: Field(env, x) == t(n, x)
  }

  lemma FinishRecalls(sys: seq<Clocked>, names: set<string>, s: State, f: Frame, t: Trace, n: nat)
    requires Mentions(sys, names) && Recalls(sys, s, t, n) && ShowsCycle(names, f.env, t, n)
    ensures Recalls(sys, Finish(sys, s, f), t, n+1)
  {
    FieldsNamed(sys, names);
    forall ck | ck in TickFields(sys) ensures Guard(ck, f.env) == Active(ck, t, n) {
      GuardActive(ck, f.env, t, n);
    }
  }

  /** The state updates at the end of a step move the invariant to the next cycle. */
  lemma FinishSimulates(cx: Context, sys: seq<Clocked>, names: set<string>, s: State, f: Frame, t: Trace, n: nat)
    requires Mentions(sys, names) && Recalls(sys, s, t, n)
    requires Progress(cx, sys, names, f, t, n, |sys|) && ShowsCycle(names, f.env, t, n)
    ensures Simulates(cx, sys, Finish(sys, s, f), t, n+1)
  {
    FinishRecalls(sys, names, s, f, t, n);
    forall i | 0 <= i < |sys| ensures HeldAt(sys[i], f.held, t, n+1) && SubsAt(cx, sys[i], f.bank.subs, t, n+1) {
      assert HeldAt(sys[i], f.held, t, Since(i, |sys|, n)) && SubsAt(cx, sys[i], f.bank.subs, t, Since(i, |sys|, n));
    }
  }

  /** The inputs of cycle `n` are in place. */
  ghost predicate FedAt(sys: seq<Clocked>, names: set<string>, env: map<string, Value>, t: Trace, n: nat) {
    forall x | x in names && x !in DefinedVars(sys) :: Field(env, x) == t(n, x)
  }

  lemma BeginProgress(cx: Context, sys: seq<Clocked>, names: set<string>, s: State, env: map<string, Value>, t: Trace, n: nat)
    requires Simulates(cx, sys, s, t, n) && FedAt(sys, names, env, t, n)
    ensures Progress(cx, sys, names, Begin(s, env), t, n, 0)
  {
    var f := Begin(s, env);
    forall i | 0 <= i < |sys| ensures HeldAt(sys[i], f.held, t, Since(i, 0, n)) {
      assert HeldAt(sys[i], s.held, t, n);
    }
    forall i | 0 <= i < |sys| ensures SubsAt(cx, sys[i], f.bank.subs, t, Since(i, 0, n)) {
      assert SubsAt(cx, sys[i], s.subs, t, n);
    }
  }

  /** One step: every variable gets its dataflow value, and the invariant holds again. */
  lemma StepSimulates(cx: Context, sys: seq<Clocked>, names: set<string>, s: State, env: map<string, Value>, t: Trace, n: nat)
    requires Emitted(cx, sys, names) && StepOk(cx, sys, t, n) && DefinedAt(names, t, n)
    requires FedAt(sys, names, env, t, n) && Simulates(cx, sys, s, t, n)
    ensures Simulates(cx, sys, Next(cx, sys, s, env), t, n+1)
    ensures ShowsCycle(names, Ran(cx, sys, s, env).env, t, n)
  {
    var f := Ran(cx, sys, s, env);
    assert sys[..|sys|] == sys;
    BeginProgress(cx, sys, names, s, env, t, n);
    EquationsRun(cx, sys, names, s, Begin(s, env), t, n, |sys|);
    FinishSimulates(cx, sys, names, s, f, t, n);
  }

  lemma {:induction false} InitialHeld(sys: seq<Clocked>, i: nat)
    requires i < |sys| && forall j | i < j < |sys| :: sys[j].eq.lhs != sys[i].eq.lhs
    ensures Field(HeldFields(sys), sys[i].eq.lhs) == sys[i].default
    decreases |sys|
  {
    if i < |sys| - 1 { InitialHeld(sys[..|sys|-1], i); }
  }

  lemma {:induction false} InitialSubs(cx: Context, sys: seq<Clocked>, t: Trace, i: nat)
    requires EmittableSystem(cx.functions, sys) && i < |sys|
    ensures SubsAt(cx, sys[i], AllInstances(cx, sys), t, 0)
    decreases |sys|
  {
    var k := |sys| - 1;
    var rest := AllInstances(cx, sys[..k]);
    var last := Instances(cx, sys[k].eq.rhs, sys[k].ck);
    assert AllInstances(cx, sys) == rest + last;
    InstancesStart(cx, sys[k].eq.rhs, sys[k].ck, sys[k].ck, t);
    if i < k {
      InitialSubs(cx, sys[..k], t, i);
      assert CallSites(sys[i]) !! CallSites(sys[k]);
      MergedSubs(cx, sys[i], rest, last, t);
    } else {
      ForeignSites(cx, sys[..k], t, CallSites(sys[k]));
      MergedLast(cx, sys[k], rest, last, t);
    }
  }

  lemma MergedLast(cx: Context, c: Clocked, rest: map<nat, Memory>, last: map<nat, Memory>, t: Trace)
    requires SubsAt(cx, c, last, t, 0) && rest.Keys !! CallSites(c)
    ensures SubsAt(cx, c, rest + last, t, 0)
  {
    SubsFrame(cx, c.eq.rhs, c.ck, t, 0, last, rest + last);
  }

  lemma MergedSubs(cx: Context, c: Clocked, rest: map<nat, Memory>, last: map<nat, Memory>, t: Trace)
    requires SubsAt(cx, c, rest, t, 0) && CallSites(c) !! last.Keys
    ensures SubsAt(cx, c, rest + last, t, 0)
  {
    SubsFrame(cx, c.eq.rhs, c.ck, t, 0, rest, rest + last);
  }

  lemma {:induction false} ForeignSites(cx: Context, sys: seq<Clocked>, t: Trace, sites: set<nat>)
    requires forall i | 0 <= i < |sys| :: Emittable(cx.functions, sys[i].eq.rhs, sys[i].ck, sys[i].ck)
    requires forall i | 0 <= i < |sys| :: CallSites(sys[i]) !! sites
    ensures AllInstances(cx, sys).Keys !! sites
    decreases |sys|
  {
    if sys != [] {
      var k := |sys| - 1;
      ForeignSites(cx, sys[..k], t, sites);
      InstancesStart(cx, sys[k].eq.rhs, sys[k].ck, sys[k].ck, t);
      assert CallSites(sys[k]) !! sites;
    }
  }

  lemma InitialSimulates(cx: Context, sys: seq<Clocked>, t: Trace)
    requires EmittableSystem(cx.functions, sys) && Causal(sys)
    ensures Simulates(cx, sys, Initial(cx, sys), t, 0)
  {
    forall i | 0 <= i < |sys| ensures HeldAt(sys[i], HeldFields(sys), t, 0) {
      InitialHeld(sys, i);
    }
    forall i | 0 <= i < |sys| ensures SubsAt(cx, sys[i], AllInstances(cx, sys), t, 0) {
      InitialSubs(cx, sys, t, i);
    }
  }

  /** The run never has an undefined value, and the steps start from its inputs. */
  ghost predicate Driven(sys: seq<Clocked>, names: set<string>, env: nat -> map<string, Value>, t: Trace) {
    forall n: nat :: DefinedAt(names, t, n) && FedAt(sys, names, env(n), t, n)
  }

  /** On every run without undefined values, the emitted machine and the clocked
      dataflow go together cycle by cycle, forever. */
  lemma {:induction false} MachineSimulates(cx: Context, sys: seq<Clocked>, names: set<string>, env: nat -> map<string, Value>, t: Trace, n: nat)
    requires Emitted(cx, sys, names) && Run(cx, sys, t) && Driven(sys, names, env, t)
    ensures Simulates(cx, sys, StateAfter(cx, sys, env, n), t, n)
  {
    if n == 0 {
      InitialSimulates(cx, sys, t);
    } else {
      MachineSimulates(cx, sys, names, env, t, n-1);
      MachineStep(cx, sys, names, env, t, n-1);
    }
  }

  lemma MachineStep(cx: Context, sys: seq<Clocked>, names: set<string>, env: nat -> map<string, Value>, t: Trace, n: nat)
    requires Emitted(cx, sys, names) && Run(cx, sys, t) && Driven(sys, names, env, t)
    requires Simulates(cx, sys, StateAfter(cx, sys, env, n), t, n)
    ensures Simulates(cx, sys, StateAfter(cx, sys, env, n+1), t, n+1)
    ensures ShowsCycle(names, Ran(cx, sys, StateAfter(cx, sys, env, n), env(n)).env, t, n)
  {
    var s := StateAfter(cx, sys, env, n);
    assert StepOk(cx, sys, t, n);
    StepSimulates(cx, sys, names, s, env(n), t, n);
    assert StateAfter(cx, sys, env, n+1) == Next(cx, sys, s, env(n));
  }

  /** The emitted C refines the node it was emitted from: listed in an order that
      puts reads and gates first, every variable of every run, outputs among
      them, has the dataflow value at every cycle. */
  lemma EmittedRefines(cx: Context, sys: seq<Clocked>, order: seq<nat>, names: set<string>,
                       env: nat -> map<string, Value>, t: Trace, n: nat)
    requires UniqueDefinitions(Equations(sys)) && Topological(NeedGraph(sys), order) && InRange(order, |sys|)
    requires cx.nil.Undef? && EmittableSystem(cx.functions, sys) && Mentions(sys, names)
    requires Run(cx, sys, t) && Driven(sys, names, env, t)
    ensures
      var emitted := Arrange(sys, order);
      ShowsCycle(names, Ran(cx, emitted, StateAfter(cx, emitted, env, n), env(n)).env, t, n)
  {
    var emitted := Arrange(sys, order);
    ArrangeCausal(sys, order);
    ArrangeRun(cx, sys, order, t);
    ArrangeDefined(sys, order);
    ArrangeEmittable(cx.functions, sys, order);
    assert Mentions(emitted, names) by {
      forall i | 0 <= i < |emitted|
        ensures Names(emitted[i].eq.rhs) + Conditions(emitted[i].ck) + {emitted[i].eq.lhs} <= names
      {
        assert emitted[i] == sys[order[i]];
      }
    }
    assert Driven(emitted, names, env, t) by {
      forall m: nat ensures DefinedAt(names, t, m) && FedAt(emitted, names, env(m), t, m) {
        assert FedAt(sys, names, env(m), t, m);
      }
    }
    MachineSimulates(cx, emitted, names, env, t, n);
    MachineStep(cx, emitted, names, env, t, n);
  }

  lemma ArrangeEmittable(functions: set<string>, sys: seq<Clocked>, order: seq<nat>)
    requires Distinct(order) && InRange(order, |sys|) && EmittableSystem(functions, sys)
    ensures EmittableSystem(functions, Arrange(sys, order))
  {
    var r := Arrange(sys, order);
    forall i, j | 0 <= i < j < |r| ensures CallSites(r[i]) !! CallSites(r[j]) {
      assert order[i] != order[j];
      assert r[i] == sys[order[i]] && r[j] == sys[order[j]];
    }
  }
}
