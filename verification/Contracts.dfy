/** Contracts as observers: one Boolean signal for each clause, and the reading
    of one cycle's signals as active modes and violated clauses. */
module Contracts {
  import opened Lustre
  import opened Options
  import opened FreshNames
  import opened Positions

  datatype Clause = Clause(name: Option<string>, formula: Expr)

  datatype Mode = Mode(name: string, needs: seq<Expr>, gives: seq<Expr>)

  datatype Contract = Contract(inputs: seq<string>, outputs: seq<string>, ghosts: seq<Equation>,
                               assumptions: seq<Clause>, guarantees: seq<Clause>, modes: seq<Mode>)

  /** What an observer's output stands for; a mode is active when all its
      `Require`s hold, and then owes its `Ensure`s. */
  datatype Signal =
    | Assumption(index: nat, text: string)
    | Guarantee(index: nat, text: string)
    | Require(mode: nat, index: nat)
    | Ensure(mode: nat, index: nat)

  datatype Observer = Observer(inputs: seq<string>, locals: seq<string>, equations: seq<Equation>,
                               outputs: seq<string>, signals: seq<Signal>, ghostCount: nat)

  /** The truth of each formula in one cycle. */
  type Truth = Expr -> bool

  function LabelOf(clause: Clause, stem: string, i: nat): string {
    if clause.name.Some? then clause.name.value else stem + "#" + Numeral(i)
  }

  function EnsureLabel(mode: string, k: nat): string {
    mode + "::ensure#" + Numeral(k)
  }

  // ---------------------------------------------------------------- the meaning of a contract

  /** The labels of the first `n` clauses that fail. */
  function Failing(clauses: seq<Clause>, stem: string, n: nat, holds: Truth): seq<string>
    requires n <= |clauses|
  {
    if n == 0 then [] else
    Failing(clauses, stem, n - 1, holds) + if holds(clauses[n-1].formula) then [] else [LabelOf(clauses[n-1], stem, n - 1)]
  }

  function FailingEnsures(mode: Mode, n: nat, holds: Truth): seq<string>
    requires n <= |mode.gives|
  {
    if n == 0 then [] else
    FailingEnsures(mode, n - 1, holds) + if holds(mode.gives[n-1]) then [] else [EnsureLabel(mode.name, n - 1)]
  }

  function Active(mode: Mode, holds: Truth): bool {
    forall k | 0 <= k < |mode.needs| :: holds(mode.needs[k])
  }

  function ActiveModes(modes: seq<Mode>, n: nat, holds: Truth): seq<string>
    requires n <= |modes|
  {
    if n == 0 then [] else
    ActiveModes(modes, n - 1, holds) + if Active(modes[n-1], holds) then [modes[n-1].name] else []
  }

  function FailingModes(modes: seq<Mode>, n: nat, holds: Truth): seq<string>
    requires n <= |modes|
  {
    if n == 0 then [] else
    FailingModes(modes, n - 1, holds) +
    if Active(modes[n-1], holds) then FailingEnsures(modes[n-1], |modes[n-1].gives|, holds) else []
  }

  function ModeNames(c: Contract, holds: Truth): seq<string> {
    ActiveModes(c.modes, |c.modes|, holds)
  }

  function FailedClauses(c: Contract, holds: Truth): seq<string> {
    Failing(c.assumptions, "assumption", |c.assumptions|, holds) + Failing(c.guarantees, "guarantee", |c.guarantees|, holds)
  }

  /** Failing assumptions, then guarantees, then what the active modes owe. */
  function Violations(c: Contract, holds: Truth): seq<string> {
    FailedClauses(c, holds) + FailingModes(c.modes, |c.modes|, holds)
  }

  ghost predicate AllHold(clauses: seq<Clause>, holds: Truth) {
    forall i | 0 <= i < |clauses| :: holds(clauses[i].formula)
  }

  ghost predicate Kept(mode: Mode, holds: Truth) {
    Active(mode, holds) ==> forall k | 0 <= k < |mode.gives| :: holds(mode.gives[k])
  }

  ghost predicate Satisfied(c: Contract, holds: Truth) {
    && AllHold(c.assumptions, holds) && AllHold(c.guarantees, holds)
    && forall m | 0 <= m < |c.modes| :: Kept(c.modes[m], holds)
  }

  lemma {:induction false} FailingNone(clauses: seq<Clause>, stem: string, n: nat, holds: Truth)
    requires n <= |clauses|
    ensures Failing(clauses, stem, n, holds) == [] <==> forall i | 0 <= i < n :: holds(clauses[i].formula)
  {
    if n > 0 { FailingNone(clauses, stem, n - 1, holds); }
  }

  lemma {:induction false} FailingEnsuresNone(mode: Mode, n: nat, holds: Truth)
    requires n <= |mode.gives|
    ensures FailingEnsures(mode, n, holds) == [] <==> forall i | 0 <= i < n :: holds(mode.gives[i])
  {
    if n > 0 { FailingEnsuresNone(mode, n - 1, holds); }
  }

  lemma KeptMeans(mode: Mode, holds: Truth)
    ensures Kept(mode, holds) <==> (Active(mode, holds) ==> FailingEnsures(mode, |mode.gives|, holds) == [])
  {
    FailingEnsuresNone(mode, |mode.gives|, holds);
  }

  lemma {:induction false} FailingModesNone(modes: seq<Mode>, n: nat, holds: Truth)
    requires n <= |modes|
    ensures FailingModes(modes, n, holds) == [] <==> forall m | 0 <= m < n :: Kept(modes[m], holds)
  {
    hide Kept, Active, FailingEnsures;
    if n > 0 {
      FailingModesNone(modes, n - 1, holds);
      KeptMeans(modes[n-1], holds);
    }
  }

  /** No clause is reported exactly when the contract holds. */
  lemma NoViolations(c: Contract, holds: Truth)
    ensures Violations(c, holds) == [] <==> Satisfied(c, holds)
  {
    FailingNone(c.assumptions, "assumption", |c.assumptions|, holds);
    FailingNone(c.guarantees, "guarantee", |c.guarantees|, holds);
    FailingModesNone(c.modes, |c.modes|, holds);
  }

  // ---------------------------------------------------------------- the order of the reports

  /** The clause at a position fails: an assumption at `[0, i]`, a guarantee at
      `[1, i]`, an ensure of an active mode at `[2 + mode, k]`. */
  ghost predicate FailsAt(c: Contract, holds: Truth, p: Position) {
    |p| == 2 &&
    if p[0] == 0 then p[1] < |c.assumptions| && !holds(c.assumptions[p[1]].formula)
    else if p[0] == 1 then p[1] < |c.guarantees| && !holds(c.guarantees[p[1]].formula)
    else
      var m := p[0] - 2;
      m < |c.modes| && p[1] < |c.modes[m].gives| && !holds(c.modes[m].gives[p[1]]) && Active(c.modes[m], holds)
  }

  /** What is reported of the clause at a position: its name, or its number. */
  function ReportAt(c: Contract, p: Position): string {
    if |p| != 2 then ""
    else if p[0] == 0 then (if p[1] < |c.assumptions| then LabelOf(c.assumptions[p[1]], "assumption", p[1]) else "")
    else if p[0] == 1 then (if p[1] < |c.guarantees| then LabelOf(c.guarantees[p[1]], "guarantee", p[1]) else "")
    else if p[0] - 2 < |c.modes| then EnsureLabel(c.modes[p[0] - 2].name, p[1]) else ""
  }

  /** The failing clauses before `here`, one after the other. */
  ghost predicate Reported(c: Contract, holds: Truth, labels: seq<string>, ps: seq<Position>, here: Position) {
    && |labels| == |ps|
    && (forall i | 0 <= i < |ps| :: FailsAt(c, holds, ps[i]) && Precedes(ps[i], here) && labels[i] == ReportAt(c, ps[i]))
    && (forall i, j | 0 <= i < j < |ps| :: Precedes(ps[i], ps[j]))
    && (forall p: Position | FailsAt(c, holds, p) && Precedes(p, here) :: p in ps)
  }

  lemma ReportStep(c: Contract, holds: Truth, labels: seq<string>, ps: seq<Position>, a: nat, k: nat) returns (more: seq<Position>)
    requires Reported(c, holds, labels, ps, [a, k])
    ensures Reported(c, holds, labels + if FailsAt(c, holds, [a, k]) then [ReportAt(c, [a, k])] else [], more, [a, k + 1])
  {
    hide FailsAt, ReportAt, Precedes;
    forall p: Position | FailsAt(c, holds, p) ensures Precedes(p, [a, k + 1]) <==> Precedes(p, [a, k]) || p == [a, k] {
      StepBefore(c, holds, p, a, k);
    }
    StepItself(a, k);
    more := ps + if FailsAt(c, holds, [a, k]) then [[a, k]] else [];
  }

  lemma StepItself(a: nat, k: nat)
    ensures Precedes([a, k], [a, k + 1])
  {
    BeforeNext([a, k], [a], k);
    assert [a] + [k] == [a, k] && [a] + [k + 1] == [a, k + 1];
  }

  lemma StepBefore(c: Contract, holds: Truth, p: Position, a: nat, k: nat)
    requires FailsAt(c, holds, p)
    ensures Precedes(p, [a, k + 1]) <==> Precedes(p, [a, k]) || p == [a, k]
  {
    BeforeNext(p, [a], k);
    assert [a] + [k] == [a, k] && [a] + [k + 1] == [a, k + 1];
  }

  lemma TwoPrecedes(p: Position, a: nat, k: nat)
    requires |p| == 2
    ensures Precedes(p, [a, k]) <==> p[0] < a || (p[0] == a && p[1] < k)
  {
    assert p[1..] == [p[1]] && [a, k][1..] == [k];
    assert [p[1]][1..] == [] && [k][1..] == [];
    assert Precedes([p[1]], [k]) <==> p[1] < k;
  }

  /** From the end of one list of clauses to the start of the next. */
  lemma ReportNext(c: Contract, holds: Truth, labels: seq<string>, ps: seq<Position>, a: nat, n: nat)
    requires Reported(c, holds, labels, ps, [a, n]) && forall p: Position | FailsAt(c, holds, p) && p[0] == a :: p[1] < n
    ensures Reported(c, holds, labels, ps, [a + 1, 0])
  {
    hide ReportAt;
    forall p: Position | FailsAt(c, holds, p) ensures Precedes(p, [a + 1, 0]) <==> Precedes(p, [a, n]) {
      TwoPrecedes(p, a + 1, 0);
      TwoPrecedes(p, a, n);
    }
  }

  lemma NothingReported(c: Contract, holds: Truth)
    ensures Reported(c, holds, [], [], [0, 0])
  {
    forall p: Position | FailsAt(c, holds, p) ensures !Precedes(p, [0, 0]) {
      TwoPrecedes(p, 0, 0);
    }
  }

  lemma {:induction false} AssumptionsReported(c: Contract, holds: Truth, n: nat) returns (ps: seq<Position>)
    requires n <= |c.assumptions|
    ensures Reported(c, holds, Failing(c.assumptions, "assumption", n, holds), ps, [0, n])
  {
    hide Reported;
    if n == 0 {
      ps := [];
      NothingReported(c, holds);
    } else {
      ps := AssumptionsReported(c, holds, n - 1);
      ps := ReportStep(c, holds, Failing(c.assumptions, "assumption", n - 1, holds), ps, 0, n - 1);
    }
  }

  lemma {:induction false} GuaranteesReported(c: Contract, holds: Truth, n: nat) returns (ps: seq<Position>)
    requires n <= |c.guarantees|
    ensures Reported(c, holds, Failing(c.assumptions, "assumption", |c.assumptions|, holds) + Failing(c.guarantees, "guarantee", n, holds), ps, [1, n])
  {
    hide Reported;
    var before := Failing(c.assumptions, "assumption", |c.assumptions|, holds);
    if n == 0 {
      ps := AssumptionsReported(c, holds, |c.assumptions|);
      ReportNext(c, holds, before, ps, 0, |c.assumptions|);
      assert before + [] == before;
    } else {
      ps := GuaranteesReported(c, holds, n - 1);
      var own := Failing(c.guarantees, "guarantee", n - 1, holds);
      ps := ReportStep(c, holds, before + own, ps, 1, n - 1);
      var one := if FailsAt(c, holds, [1, n - 1]) then [ReportAt(c, [1, n - 1])] else [];
      assert before + own + one == before + (own + one);
    }
  }

  /** What the clauses and the first `m` modes report, and `n` ensures of the next. */
  function ReportsUpTo(c: Contract, holds: Truth, m: nat, n: nat): seq<string>
    requires m < |c.modes| && n <= |c.modes[m].gives|
  {
    FailedClauses(c, holds) + FailingModes(c.modes, m, holds)
    + if Active(c.modes[m], holds) then FailingEnsures(c.modes[m], n, holds) else []
  }

  lemma {:induction false} EnsuresReported(c: Contract, holds: Truth, m: nat, n: nat, start: seq<Position>) returns (ps: seq<Position>)
    requires m < |c.modes| && n <= |c.modes[m].gives|
    requires Reported(c, holds, FailedClauses(c, holds) + FailingModes(c.modes, m, holds), start, [2 + m, 0])
    ensures Reported(c, holds, ReportsUpTo(c, holds, m, n), ps, [2 + m, n])
  {
    hide Reported, Active, FailedClauses, FailingModes;
    var before := FailedClauses(c, holds) + FailingModes(c.modes, m, holds);
    if n == 0 {
      ps := start;
      assert before + [] == before;
    } else {
      ps := EnsuresReported(c, holds, m, n - 1, start);
      ps := ReportStep(c, holds, ReportsUpTo(c, holds, m, n - 1), ps, 2 + m, n - 1);
      var one := if FailsAt(c, holds, [2 + m, n - 1]) then [ReportAt(c, [2 + m, n - 1])] else [];
      if Active(c.modes[m], holds) {
        assert before + FailingEnsures(c.modes[m], n - 1, holds) + one == before + (FailingEnsures(c.modes[m], n - 1, holds) + one);
      } else {
        assert ReportsUpTo(c, holds, m, n - 1) + [] == ReportsUpTo(c, holds, m, n - 1);
      }
    }
  }

  lemma {:induction false} ModesReported(c: Contract, holds: Truth, m: nat) returns (ps: seq<Position>)
    requires m <= |c.modes|
    ensures Reported(c, holds, FailedClauses(c, holds) + FailingModes(c.modes, m, holds), ps, [2 + m, 0])
  {
    hide Reported, Active, Failing, FailingEnsures;
    if m == 0 {
      ps := GuaranteesReported(c, holds, |c.guarantees|);
      ReportNext(c, holds, FailedClauses(c, holds), ps, 1, |c.guarantees|);
      assert FailedClauses(c, holds) + [] == FailedClauses(c, holds);
    } else {
      ps := ModesReported(c, holds, m - 1);
      ps := EnsuresReported(c, holds, m - 1, |c.modes[m-1].gives|, ps);
      ReportNext(c, holds, ReportsUpTo(c, holds, m - 1, |c.modes[m-1].gives|), ps, 2 + (m - 1), |c.modes[m-1].gives|);
      var own := if Active(c.modes[m-1], holds) then FailingEnsures(c.modes[m-1], |c.modes[m-1].gives|, holds) else [];
      assert FailedClauses(c, holds) + FailingModes(c.modes, m - 1, holds) + own
          == FailedClauses(c, holds) + (FailingModes(c.modes, m - 1, holds) + own);
    }
  }

  /** Exactly the failing clauses are reported, each by its own label:
      assumptions, then guarantees, then the ensures of active modes. */
  lemma ViolationsReported(c: Contract, holds: Truth) returns (ps: seq<Position>)
    ensures Reported(c, holds, Violations(c, holds), ps, [2 + |c.modes|, 0])
    ensures forall p: Position | FailsAt(c, holds, p) :: p in ps
  {
    hide Failing, FailingModes, ReportAt;
    ps := ModesReported(c, holds, |c.modes|);
  }

  /** A clause without a name, and an ensure, is known by its number. */
  lemma LabelTellsNumber(mode: string, stem: string, i: nat, j: nat)
    ensures EnsureLabel(mode, i) == EnsureLabel(mode, j) ==> i == j
    ensures forall a: Clause, b: Clause | a.name.None? && b.name.None? && LabelOf(a, stem, i) == LabelOf(b, stem, j) :: i == j
    ensures EnsureLabel(mode, i) == mode + "::ensure#" + Numeral(i)
    ensures forall a: Clause :: LabelOf(a, stem, i) == if a.name == None then stem + "#" + Numeral(i) else a.name.value
  {
    if EnsureLabel(mode, i) == EnsureLabel(mode, j) { NumeralPort(mode + "::ensure#", i, j); }
    if stem + "#" + Numeral(i) == stem + "#" + Numeral(j) { NumeralPort(stem + "#", i, j); }
  }

  // ---------------------------------------------------------------- the observer

  predicate IsSignal(c: Contract, s: Signal) {
    match s
    case Assumption(i, text) => i < |c.assumptions| && text == LabelOf(c.assumptions[i], "assumption", i)
    case Guarantee(i, text) => i < |c.guarantees| && text == LabelOf(c.guarantees[i], "guarantee", i)
    case Require(m, k) => m < |c.modes| && k < |c.modes[m].needs|
    case Ensure(m, k) => m < |c.modes| && k < |c.modes[m].gives|
  }

  function FormulaOf(c: Contract, s: Signal): Expr
    requires IsSignal(c, s)
  {
    match s
    case Assumption(i, _) => c.assumptions[i].formula
    case Guarantee(i, _) => c.guarantees[i].formula
    case Require(m, k) => c.modes[m].needs[k]
    case Ensure(m, k) => c.modes[m].gives[k]
  }

  /** Where the signals of mode `m` start. */
  function Start(c: Contract, m: nat): (n: nat)
    requires m <= |c.modes|
    ensures n >= |c.assumptions| + |c.guarantees|
  {
    if m == 0 then |c.assumptions| + |c.guarantees|
    else Start(c, m - 1) + |c.modes[m-1].needs| + |c.modes[m-1].gives|
  }

  function Position(c: Contract, s: Signal): nat
    requires IsSignal(c, s)
  {
    match s
    case Assumption(i, _) => i
    case Guarantee(i, _) => |c.assumptions| + i
    case Require(m, k) => Start(c, m) + k
    case Ensure(m, k) => Start(c, m) + |c.modes[m].needs| + k
  }

  lemma {:induction false} StartGrows(c: Contract, m: nat, n: nat)
    requires m < n <= |c.modes|
    ensures Start(c, m) + |c.modes[m].needs| + |c.modes[m].gives| <= Start(c, n)
  {
    if m < n - 1 { StartGrows(c, m, n - 1); }
  }

  lemma PositionInjective(c: Contract, s: Signal, z: Signal)
    requires IsSignal(c, s) && IsSignal(c, z) && Position(c, s) == Position(c, z)
    ensures s == z
  {
    if (s.Require? || s.Ensure?) && (z.Require? || z.Ensure?) {
      if s.mode < z.mode { StartGrows(c, s.mode, z.mode); }
      if z.mode < s.mode { StartGrows(c, z.mode, s.mode); }
    }
  }

  /** The output that carries a signal. */
  function PortOf(s: Signal): string {
    match s
    case Assumption(i, _) => "ol_a" + Numeral(i)
    case Guarantee(i, _) => "ol_g" + Numeral(i)
    case Require(m, k) => "ol_m" + Numeral(m) + "_r" + Numeral(k)
    case Ensure(m, k) => "ol_m" + Numeral(m) + "_e" + Numeral(k)
  }

  lemma SameStem(stem: string, s: string, z: string)
    requires stem + s == stem + z
    ensures s == z
  {
    assert (stem + s)[|stem|..] == s && (stem + z)[|stem|..] == z;
  }

  lemma NumeralPort(stem: string, i: nat, j: nat)
    requires stem + Numeral(i) == stem + Numeral(j)
    ensures i == j
  {
    SameStem(stem, Numeral(i), Numeral(j));
    NumeralInjective(i, j);
  }

  lemma SameSplit(a: string, t: char, b: string, c: string, u: char, d: string)
    requires a + "_" + [t] + b == c + "_" + [u] + d && '_' !in a && '_' !in c
    ensures a == c && t == u && b == d
  {
    assert a + "_" + [t] + b == a + ['_'] + ([t] + b);
    assert c + "_" + [u] + d == c + ['_'] + ([u] + d);
    SplitFirst('_', a, [t] + b, c, [u] + d);
    assert ([t] + b)[0] == t && ([u] + d)[0] == u;
    assert ([t] + b)[1..] == b && ([u] + d)[1..] == d;
  }

  lemma PlainDigits(n: nat)
    ensures '_' !in Numeral(n)
  {
    assert '_' !in DIGITS;
  }

  /** No two clauses share an output. */
  lemma PortInjective(c: Contract, s: Signal, z: Signal)
    requires IsSignal(c, s) && IsSignal(c, z) && PortOf(s) == PortOf(z)
    ensures s == z
  {
    hide Numeral;
    assert PortOf(s)[3] == PortOf(z)[3];
    match s
    case Assumption(i, _) => NumeralPort("ol_a", i, z.index);
    case Guarantee(i, _) => NumeralPort("ol_g", i, z.index);
    case Require(_, _) => ModePorts(s, z);
    case Ensure(_, _) => ModePorts(s, z);
  }

  function ModeTail(s: Signal): string
    requires s.Require? || s.Ensure?
  {
    Numeral(s.mode) + "_" + [if s.Require? then 'r' else 'e'] + Numeral(s.index)
  }

  lemma ModePortTail(s: Signal)
    requires s.Require? || s.Ensure?
    ensures PortOf(s) == "ol_m" + ModeTail(s)
  {
    hide Numeral;
  }

  lemma ModePorts(s: Signal, z: Signal)
    requires (s.Require? || s.Ensure?) && (z.Require? || z.Ensure?) && PortOf(s) == PortOf(z)
    ensures s == z
  {
    hide Numeral, PortOf;
    ModePortTail(s);
    ModePortTail(z);
    SameStem("ol_m", ModeTail(s), ModeTail(z));
    PlainDigits(s.mode);
    PlainDigits(z.mode);
    SameSplit(Numeral(s.mode), if s.Require? then 'r' else 'e', Numeral(s.index),
              Numeral(z.mode), if z.Require? then 'r' else 'e', Numeral(z.index));
    NumeralInjective(s.mode, z.mode);
    NumeralInjective(s.index, z.index);
  }

  /** The i-th signal is at its own position and the equation after the ghosts
      at that place defines its port by its clause. */
  ghost predicate SignalAt(c: Contract, o: Observer, i: nat)
    requires i < |o.signals|
  {
    && IsSignal(c, o.signals[i]) && Position(c, o.signals[i]) == i
    && i < |o.outputs| && o.outputs[i] == PortOf(o.signals[i]) && o.ghostCount + i < |o.equations|
    && o.equations[o.ghostCount + i] == Equation(o.outputs[i], FormulaOf(c, o.signals[i]))
  }

  function GhostNames(c: Contract): (r: seq<string>)
    ensures |r| == |c.ghosts|
  {
    seq(|c.ghosts|, i requires 0 <= i < |c.ghosts| => c.ghosts[i].lhs)
  }

  ghost predicate Listed(c: Contract, o: Observer, n: nat) {
    && o.inputs == c.inputs + c.outputs && o.locals == GhostNames(c)
    && |o.signals| == |o.outputs| == n
    && o.ghostCount == |c.ghosts| && |o.equations| == |c.ghosts| + n && o.equations[..o.ghostCount] == c.ghosts
    && forall i | 0 <= i < n :: SignalAt(c, o, i)
  }

  /** The ghost definitions, then one equation for each clause. */
  ghost predicate Observes(c: Contract, o: Observer) {
    Listed(c, o, Start(c, |c.modes|))
  }

  /** Every clause has its signal, where its position says. */
  lemma SignalFound(c: Contract, o: Observer, s: Signal)
    requires Observes(c, o) && IsSignal(c, s)
    ensures Position(c, s) < |o.signals| && o.signals[Position(c, s)] == s
  {
    if s.Require? || s.Ensure? {
      StartGrows(c, s.mode, |c.modes|);
    } else if c.modes != [] {
      StartGrows(c, 0, |c.modes|);
    }
    assert SignalAt(c, o, Position(c, s));
    PositionInjective(c, s, o.signals[Position(c, s)]);
  }

  /** Adds a clause's output, equation and signal. */
  function WithSignal(o: Observer, s: Signal, formula: Expr): Observer {
    o.(signals := o.signals + [s], outputs := o.outputs + [PortOf(s)], equations := o.equations + [Equation(PortOf(s), formula)])
  }

  lemma ListedNext(c: Contract, o: Observer, s: Signal)
    requires Listed(c, o, |o.signals|) && IsSignal(c, s) && Position(c, s) == |o.signals|
    ensures Listed(c, WithSignal(o, s, FormulaOf(c, s)), |o.signals| + 1)
  {
    hide PortOf, GhostNames;
    var more := WithSignal(o, s, FormulaOf(c, s));
    forall i | 0 <= i < |more.signals| ensures SignalAt(c, more, i) {
      if i < |o.signals| { assert SignalAt(c, o, i); }
    }
  }

  method Observe(c: Contract) returns (o: Observer)
    ensures Observes(c, o)
  {
    hide PortOf, GhostNames;
    o := Observer(c.inputs + c.outputs, GhostNames(c), c.ghosts, [], [], |c.ghosts|);
    for i := 0 to |c.assumptions|
      invariant Listed(c, o, i)
    {
      var s := Assumption(i, LabelOf(c.assumptions[i], "assumption", i));
      ListedNext(c, o, s);
      o := WithSignal(o, s, c.assumptions[i].formula);
    }
    for i := 0 to |c.guarantees|
      invariant Listed(c, o, |c.assumptions| + i)
    {
      var s := Guarantee(i, LabelOf(c.guarantees[i], "guarantee", i));
      ListedNext(c, o, s);
      o := WithSignal(o, s, c.guarantees[i].formula);
    }
    for m := 0 to |c.modes|
      invariant Listed(c, o, Start(c, m))
    {
      for k := 0 to |c.modes[m].needs|
        invariant Listed(c, o, Start(c, m) + k)
      {
        ListedNext(c, o, Require(m, k));
        o := WithSignal(o, Require(m, k), c.modes[m].needs[k]);
      }
      for k := 0 to |c.modes[m].gives|
        invariant Listed(c, o, Start(c, m) + |c.modes[m].needs| + k)
      {
        ListedNext(c, o, Ensure(m, k));
        o := WithSignal(o, Ensure(m, k), c.modes[m].gives[k]);
      }
    }
  }

  lemma PortsApart(c: Contract, o: Observer, i: nat, j: nat)
    requires Observes(c, o) && i < j < |o.signals|
    ensures o.outputs[i] != o.outputs[j]
  {
    hide PortOf;
    assert SignalAt(c, o, i) && SignalAt(c, o, j);
    if o.outputs[i] == o.outputs[j] { PortInjective(c, o.signals[i], o.signals[j]); }
  }

  /** Of the observer's variables only ghosts can be defined twice, by other
      ghosts or by a port of the same name. */
  lemma DefinedOnce(c: Contract, o: Observer)
    requires Observes(c, o)
    ensures UniqueDefinitions(o.equations) <==>
      UniqueDefinitions(c.ghosts) && forall i, j | 0 <= i < |c.ghosts| && 0 <= j < |o.outputs| :: c.ghosts[i].lhs != o.outputs[j]
  {
    hide PortOf, IsSignal, Position, FormulaOf, Start;
    var g := |c.ghosts|;
    forall j | 0 <= j < |o.outputs| ensures o.equations[g + j].lhs == o.outputs[j] { assert SignalAt(c, o, j); }
    forall i | 0 <= i < g ensures o.equations[i] == c.ghosts[i] { assert o.equations[..g][i] == c.ghosts[i]; }
    forall j | g <= j < |o.equations| ensures o.equations[j].lhs == o.outputs[j - g] {
      assert o.equations[g + (j - g)].lhs == o.outputs[j - g];
    }
    forall i, j | 0 <= i < j < |o.outputs| ensures o.outputs[i] != o.outputs[j] { PortsApart(c, o, i, j); }
    if UniqueDefinitions(o.equations) {
      forall i, j | 0 <= i < g && 0 <= j < |o.outputs| ensures c.ghosts[i].lhs != o.outputs[j] {
        assert o.equations[i].lhs != o.equations[g + j].lhs;
      }
    }
  }

  // ---------------------------------------------------------------- reading the signals

  /** The observer's outputs: the truth of each signal's formula. */
  ghost predicate Outputs(c: Contract, o: Observer, holds: Truth, values: seq<bool>) {
    Observes(c, o) && |values| == |o.signals| && forall i | 0 <= i < |values| :: ValueAt(c, o, holds, values, i)
  }

  ghost predicate ValueAt(c: Contract, o: Observer, holds: Truth, values: seq<bool>, i: nat)
    requires i < |values| == |o.signals|
  {
    IsSignal(c, o.signals[i]) && values[i] == holds(FormulaOf(c, o.signals[i]))
  }

  lemma OutputsOf(c: Contract, o: Observer, holds: Truth, values: seq<bool>)
    requires Outputs(c, o, holds, values)
    ensures Observes(c, o) && |values| == |o.signals|
  {
  }

  function Clamp(n: int, bound: nat): (r: nat)
    ensures r <= bound
  {
    if n < 0 then 0 else if n > bound then bound else n
  }

  /** The failing assumptions and guarantees among the first `n` signals. */
  function FailedBefore(c: Contract, holds: Truth, n: nat): seq<string> {
    Failing(c.assumptions, "assumption", Clamp(n, |c.assumptions|), holds) +
    Failing(c.guarantees, "guarantee", Clamp(n - |c.assumptions|, |c.guarantees|), holds)
  }

  /** The label a signal reports by itself when it is false. */
  function Reports(s: Signal, value: bool): seq<string> {
    if (s.Assumption? || s.Guarantee?) && !value then [s.text] else []
  }

  lemma SignalPlace(c: Contract, o: Observer, i: nat)
    requires Observes(c, o) && i < |o.signals|
    ensures IsSignal(c, o.signals[i]) && Position(c, o.signals[i]) == i
    ensures o.signals[i].Assumption? <==> i < |c.assumptions|
    ensures o.signals[i].Guarantee? <==> |c.assumptions| <= i < |c.assumptions| + |c.guarantees|
  {
    assert SignalAt(c, o, i);
    if i < |c.assumptions| {
      SignalFound(c, o, Assumption(i, LabelOf(c.assumptions[i], "assumption", i)));
    } else if i < |c.assumptions| + |c.guarantees| {
      var k := i - |c.assumptions|;
      SignalFound(c, o, Guarantee(k, LabelOf(c.guarantees[k], "guarantee", k)));
    }
  }

  lemma FailedNext(c: Contract, o: Observer, holds: Truth, values: seq<bool>, i: nat)
    requires Outputs(c, o, holds, values) && i < |values|
    ensures FailedBefore(c, holds, i + 1) == FailedBefore(c, holds, i) + Reports(o.signals[i], values[i])
  {
    hide Observes;
    SignalPlace(c, o, i);
    assert ValueAt(c, o, holds, values, i);
  }

  /** Whether the requires of mode `m` among the first `n` signals hold. */
  ghost predicate NeedsBefore(c: Contract, m: nat, holds: Truth, n: nat)
    requires m < |c.modes|
  {
    forall k | 0 <= k < Clamp(n - Start(c, m), |c.modes[m].needs|) :: holds(c.modes[m].needs[k])
  }

  function OwedBefore(c: Contract, m: nat, holds: Truth, n: nat): seq<string>
    requires m < |c.modes|
  {
    FailingEnsures(c.modes[m], Clamp(n - Start(c, m) - |c.modes[m].needs|, |c.modes[m].gives|), holds)
  }

  lemma NeedsNext(c: Contract, o: Observer, holds: Truth, values: seq<bool>, m: nat, i: nat)
    requires Outputs(c, o, holds, values) && i < |values| && m < |c.modes|
    ensures NeedsBefore(c, m, holds, i + 1) <==>
      NeedsBefore(c, m, holds, i) && (o.signals[i].Require? && o.signals[i].mode == m ==> values[i])
  {
    SignalPlace(c, o, i);
    assert ValueAt(c, o, holds, values, i);
    var k := i - Start(c, m);
    if 0 <= k < |c.modes[m].needs| { SignalFound(c, o, Require(m, k)); }
  }

  lemma OwedNext(c: Contract, o: Observer, holds: Truth, values: seq<bool>, m: nat, i: nat)
    requires Outputs(c, o, holds, values) && i < |values| && m < |c.modes|
    ensures OwedBefore(c, m, holds, i + 1) == OwedBefore(c, m, holds, i) +
      if o.signals[i].Ensure? && o.signals[i].mode == m && !values[i] then [EnsureLabel(c.modes[m].name, o.signals[i].index)] else []
  {
    SignalPlace(c, o, i);
    assert ValueAt(c, o, holds, values, i);
    var k := i - Start(c, m) - |c.modes[m].needs|;
    if 0 <= k < |c.modes[m].gives| { SignalFound(c, o, Ensure(m, k)); }
  }

  /** Past the last signal everything has been seen. */
  lemma AllSeen(c: Contract, o: Observer, holds: Truth)
    requires Observes(c, o)
    ensures FailedBefore(c, holds, |o.signals|) == FailedClauses(c, holds)
    ensures forall m | 0 <= m < |c.modes| ::
      && NeedsBefore(c, m, holds, |o.signals|) == Active(c.modes[m], holds)
      && OwedBefore(c, m, holds, |o.signals|) == FailingEnsures(c.modes[m], |c.modes[m].gives|, holds)
  {
    forall m | 0 <= m < |c.modes|
      ensures NeedsBefore(c, m, holds, |o.signals|) == Active(c.modes[m], holds)
      ensures OwedBefore(c, m, holds, |o.signals|) == FailingEnsures(c.modes[m], |c.modes[m].gives|, holds)
    {
      StartGrows(c, m, |c.modes|);
    }
  }

  /** A mode is active when all its requires hold. */
  method IsActive(c: Contract, o: Observer, values: seq<bool>, m: nat, ghost holds: Truth) returns (met: bool)
    requires Outputs(c, o, holds, values) && m < |c.modes|
    ensures met == Active(c.modes[m], holds)
  {
    hide Observes, Outputs, NeedsBefore, Active;
    OutputsOf(c, o, holds, values);
    NothingSeen(c, holds);
    AllSeen(c, o, holds);
    met := true;
    for i := 0 to |values|
      invariant met == NeedsBefore(c, m, holds, i)
    {
      NeedsNext(c, o, holds, values, m, i);
      if o.signals[i].Require? && o.signals[i].mode == m && !values[i] { met := false; }
    }
  }

  /** One cycle's active modes and violated clauses. */
  method Verdict(c: Contract, o: Observer, values: seq<bool>, ghost holds: Truth)
      returns (active: seq<string>, violations: seq<string>)
    requires Outputs(c, o, holds, values)
    ensures active == ModeNames(c, holds) && violations == Violations(c, holds)
    ensures violations == [] <==> Satisfied(c, holds)
  {
    hide Observes, Outputs, Failing, FailingEnsures, Satisfied, FailedBefore, NeedsBefore, OwedBefore, Active;
    violations, active := [], [];
    OutputsOf(c, o, holds, values);
    NothingSeen(c, holds);
    for i := 0 to |values|
      invariant violations == FailedBefore(c, holds, i)
    {
      FailedNext(c, o, holds, values, i);
      if (o.signals[i].Assumption? || o.signals[i].Guarantee?) && !values[i] {
        violations := violations + [o.signals[i].text];
      }
    }
    AllSeen(c, o, holds);
    ghost var clauses := violations;
    for m := 0 to |c.modes|
      invariant active == ActiveModes(c.modes, m, holds)
      invariant violations == clauses + FailingModes(c.modes, m, holds)
    {
      var met := IsActive(c, o, values, m, holds);
      if met {
        active := active + [c.modes[m].name];
        ghost var others := violations;
        for i := 0 to |values|
          invariant violations == others + OwedBefore(c, m, holds, i)
        {
          OwedNext(c, o, holds, values, m, i);
          if o.signals[i].Ensure? && o.signals[i].mode == m && !values[i] {
            violations := violations + [EnsureLabel(c.modes[m].name, o.signals[i].index)];
          }
        }
      }
    }
    NoViolations(c, holds);
  }

  lemma NothingSeen(c: Contract, holds: Truth)
    ensures FailedBefore(c, holds, 0) == []
    ensures forall m | 0 <= m < |c.modes| :: OwedBefore(c, m, holds, 0) == [] && NeedsBefore(c, m, holds, 0)
  {
  }
}
