/** The clocks of a lowered activation: every lowered equation is well clocked,
    so inference reports nothing, and exactly one scope runs in each cycle. */
module ActivationClocks {
  import opened Lustre
  import opened Clocks
  import opened Inference
  import opened Options
  import opened Graphs
  import opened Order
  import opened Activation
  import opened Lowering

  // ---------------------------------------------------------------- intended clocks

  function UnderClock(tree: Tree, k: nat): Clock {
    if k == 0 then Base else On(ClockVar(tree, k-1), false, UnderClock(tree, k-1))
  }

  function ScopeClock(tree: Tree, k: nat): Clock {
    if k < |tree.branches| then On(ClockVar(tree, k), true, UnderClock(tree, k))
    else UnderClock(tree, |tree.branches|)
  }

  function ClockOf(tree: Tree, g: Generated): Clock {
    match g
    case Flag(_) => Base
    case NoneUpTo(_) => Base
    case Last(_) => Base
    case Guard(k) => UnderClock(tree, k)
    case Sample(k, _) => ScopeClock(tree, k)
    case Value(k, _) => ScopeClock(tree, k)
  }

  /** The locals a lowering over the variables `names` may introduce. */
  predicate Relevant(n: nat, names: set<string>, g: Generated) {
    match g
    case Flag(k) => k < n
    case NoneUpTo(k) => k < n
    case Guard(k) => k < n
    case Sample(k, v) => k <= n && v in names
    case Value(k, o) => k <= n && o in names
    case Last(v) => v in names
  }

  /** The owner's variables are on the base clock and every generated local on its own. */
  ghost predicate Intended(tree: Tree, names: set<string>, ideal: ClockMap) {
    && (forall x | x in names :: x in ideal && ideal[x] == Base)
    && (forall g | Relevant(|tree.branches|, names, g) ::
          Spell(tree, g) in ideal && ideal[Spell(tree, g)] == ClockOf(tree, g))
  }

  /** No variable of the owner is spelled like a generated local, except the
      holders, which scopes may read. */
  ghost predicate Fresh(tree: Tree, names: set<string>) {
    forall g: Generated | !g.Last? && Relevant(|tree.branches|, names, g) :: Spell(tree, g) !in names
  }

  function RelevantNames(tree: Tree, names: set<string>): (r: set<string>)
    ensures forall g | Relevant(|tree.branches|, names, g) :: Spell(tree, g) in r
  {
    var n := |tree.branches|;
    (set k | k in UpTo(n + 1) :: Spell(tree, Flag(k)))
    + (set k | k in UpTo(n + 1) :: Spell(tree, NoneUpTo(k)))
    + (set k | k in UpTo(n + 1) :: Spell(tree, Guard(k)))
    + (set k, v | k in UpTo(n + 1) && v in names :: Spell(tree, Sample(k, v)))
    + (set k, v | k in UpTo(n + 1) && v in names :: Spell(tree, Value(k, v)))
    + (set v | v in names :: Spell(tree, Last(v)))
  }

  ghost predicate Spells(tree: Tree, names: set<string>, x: string, g: Generated) {
    Relevant(|tree.branches|, names, g) && Spell(tree, g) == x
  }

  ghost function ClockOfName(tree: Tree, names: set<string>, x: string): Clock {
    if g: Generated :| Spells(tree, names, x, g) && !g.Last? then ClockOf(tree, g) else Base
  }

  /** An intended assignment exists: no two generated locals share a name. */
  lemma IntendedExists(tree: Tree, names: set<string>) returns (ideal: ClockMap)
    requires Fresh(tree, names)
    ensures Intended(tree, names, ideal)
  {
    ideal := map x | x in names + RelevantNames(tree, names) :: ClockOfName(tree, names, x);
    forall x | x in names ensures ideal[x] == Base {
      forall g: Generated ensures !(Spells(tree, names, x, g) && !g.Last?) {
      }
    }
    forall g | Relevant(|tree.branches|, names, g) ensures ideal[Spell(tree, g)] == ClockOf(tree, g) {
      var x := Spell(tree, g);
      forall h | Spells(tree, names, x, h) ensures h == g {
        SpellInjective(tree, g, h);
      }
      assert Spells(tree, names, x, g);
    }
  }

  ghost predicate IsClockVar(tree: Tree, x: string) {
    exists j: nat :: j < |tree.branches| && x == ClockVar(tree, j)
  }

  ghost predicate IsSample(tree: Tree, k: nat, vars: set<string>, x: string) {
    exists v :: v in vars && x == Spell(tree, Sample(k, v))
  }

  // ---------------------------------------------------------------- discipline of the pieces

  lemma {:induction false} DisciplinedMore(e: Expr, ck: Clock, small: ClockMap, large: ClockMap)
    requires Disciplined(e, ck, small)
    requires forall x | x in small :: x in large && large[x] == small[x]
    ensures Disciplined(e, ck, large)
    decreases e
  {
    match e
    case Const(_) =>
    case Var(_) =>
    case Unary(_, a) => DisciplinedMore(a, ck, small, large);
    case Binary(_, a, b) => DisciplinedMore(a, ck, small, large); DisciplinedMore(b, ck, small, large);
    case If(c, a, b) =>
      DisciplinedMore(c, ck, small, large); DisciplinedMore(a, ck, small, large); DisciplinedMore(b, ck, small, large);
    case Pre(a) => DisciplinedMore(a, ck, small, large);
    case Arrow(a, b) => DisciplinedMore(a, ck, small, large); DisciplinedMore(b, ck, small, large);
    case When(a, _, _) => DisciplinedMore(a, ck.parent, small, large);
    case Merge(c, a, b) =>
      DisciplinedMore(a, On(c, true, ck), small, large); DisciplinedMore(b, On(c, false, ck), small, large);
    case Call(_, _, args) => DisciplinedAllMore(args, ck, small, large);
    case Condact(_, _, _, _, _) =>
  }

  lemma {:induction false} DisciplinedAllMore(args: seq<Expr>, ck: Clock, small: ClockMap, large: ClockMap)
    requires DisciplinedAll(args, ck, small)
    requires forall x | x in small :: x in large && large[x] == small[x]
    ensures DisciplinedAll(args, ck, large)
    decreases args
  {
    if args != [] {
      DisciplinedMore(args[0], ck, small, large);
      DisciplinedAllMore(args[1..], ck, small, large);
    }
  }

  lemma ClockVarClock(tree: Tree, names: set<string>, ideal: ClockMap, k: nat)
    requires Intended(tree, names, ideal) && k < |tree.branches|
    ensures ClockVar(tree, k) in ideal && ideal[ClockVar(tree, k)] == UnderClock(tree, k)
  {
    assert Relevant(|tree.branches|, names, if k == 0 then Flag(0) else Guard(k));
  }

  lemma {:induction false} UnderDisciplined(tree: Tree, names: set<string>, ideal: ClockMap, k: nat, e: Expr)
    requires Intended(tree, names, ideal) && k <= |tree.branches| && Disciplined(e, Base, ideal)
    ensures Disciplined(Under(tree, k, e), UnderClock(tree, k), ideal)
    ensures forall x | x in Names(Under(tree, k, e)) :: x in Names(e) || IsClockVar(tree, x)
    ensures k > 0 ==> ClockVar(tree, k-1) in Names(Under(tree, k, e))
    decreases k
  {
    hide Intended, Spell, ClockVar, IsClockVar;
    if k > 0 {
      UnderDisciplined(tree, names, ideal, k-1, e);
      ClockVarClock(tree, names, ideal, k-1);
      ClockVarNamed(tree, k-1);
    }
  }

  lemma ClockVarNamed(tree: Tree, k: nat)
    requires k < |tree.branches|
    ensures IsClockVar(tree, ClockVar(tree, k))
  {
  }

  lemma OntoDisciplined(tree: Tree, names: set<string>, ideal: ClockMap, k: nat, e: Expr)
    requires Intended(tree, names, ideal) && k <= |tree.branches| && tree.branches != [] && Disciplined(e, Base, ideal)
    ensures Disciplined(Onto(tree, k, e), ScopeClock(tree, k), ideal)
    ensures forall x | x in Names(Onto(tree, k, e)) :: x in Names(e) || IsClockVar(tree, x)
    ensures Names(Onto(tree, k, e)) != {}
  {
    UnderDisciplined(tree, names, ideal, k, e);
    if k < |tree.branches| {
      ClockVarClock(tree, names, ideal, k);
      assert ClockVar(tree, k) in Names(Onto(tree, k, e));
    } else {
      assert ClockVar(tree, k-1) in Names(Onto(tree, k, e));
    }
  }

  /** A merge chain brings the scope values back to the clock it starts on. */
  lemma {:induction false} ChainDisciplined(tree: Tree, names: set<string>, ideal: ClockMap, o: string, k: nat)
    requires Intended(tree, names, ideal) && k <= |tree.branches| && o in names
    ensures Disciplined(MergeChain(tree, o, k), UnderClock(tree, k), ideal)
    decreases |tree.branches| - k
  {
    assert Relevant(|tree.branches|, names, Value(k, o));
    if k < |tree.branches| {
      ClockVarClock(tree, names, ideal, k);
      ChainDisciplined(tree, names, ideal, o, k+1);
    }
  }

  // ---------------------------------------------------------------- scope values

  function SubstName(tree: Tree, k: nat, vars: set<string>, x: string): string {
    if x in vars then Spell(tree, Sample(k, x)) else x
  }

  /** Every variable of `vars` replaced by its sample in scope `k`, at once;
      with `pin`, every constant sampled onto the scope's clock. */
  function Substitute(tree: Tree, k: nat, vars: set<string>, pin: bool, e: Expr): Expr {
    match e
    case Const(_) => if pin then Onto(tree, k, e) else e
    case Var(x) => Var(SubstName(tree, k, vars, x))
    case Unary(op, a) => Unary(op, Substitute(tree, k, vars, pin, a))
    case Binary(op, a, b) => Binary(op, Substitute(tree, k, vars, pin, a), Substitute(tree, k, vars, pin, b))
    case If(c, a, b) =>
      If(Substitute(tree, k, vars, pin, c), Substitute(tree, k, vars, pin, a), Substitute(tree, k, vars, pin, b))
    case Pre(a) => Pre(Substitute(tree, k, vars, pin, a))
    case Arrow(a, b) => Arrow(Substitute(tree, k, vars, pin, a), Substitute(tree, k, vars, pin, b))
    case When(a, c, on) => When(Substitute(tree, k, vars, pin, a), SubstName(tree, k, vars, c), on)
    case Merge(c, a, b) =>
      Merge(SubstName(tree, k, vars, c), Substitute(tree, k, vars, pin, a), Substitute(tree, k, vars, pin, b))
    case Call(site, f, args) =>
      Call(site, f, seq(|args|, i requires 0 <= i < |args| => Substitute(tree, k, vars, pin, args[i])))
    case Condact(_, _, _, _, _) => e
  }

  /** Pinning is substituting nothing but constants. */
  lemma {:induction false} PinSubstitutes(tree: Tree, k: nat, e: Expr)
    ensures Pin(tree, k, e) == Substitute(tree, k, {}, true, e)
    decreases e
  {
    hide Onto;
    match e
    case Const(_) =>
    case Var(_) =>
    case Unary(_, a) => PinSubstitutes(tree, k, a);
    case Binary(_, a, b) => PinSubstitutes(tree, k, a); PinSubstitutes(tree, k, b);
    case If(c, a, b) => PinSubstitutes(tree, k, c); PinSubstitutes(tree, k, a); PinSubstitutes(tree, k, b);
    case Pre(a) => PinSubstitutes(tree, k, a);
    case Arrow(a, b) => PinSubstitutes(tree, k, a); PinSubstitutes(tree, k, b);
    case When(a, _, _) => PinSubstitutes(tree, k, a);
    case Merge(_, a, b) => PinSubstitutes(tree, k, a); PinSubstitutes(tree, k, b);
    case Call(_, _, args) =>
      forall i | 0 <= i < |args| ensures Pin(tree, k, args[i]) == Substitute(tree, k, {}, true, args[i]) {
        PinSubstitutes(tree, k, args[i]);
      }
    case Condact(_, _, _, _, _) =>
  }

  /** `v` is not itself the name of a sample in scope `k`. */
  ghost predicate NoSample(tree: Tree, k: nat, vars: set<string>, v: string) {
    forall x | x in vars :: v != Spell(tree, Sample(k, x))
  }

  lemma {:induction false} RenameSubstituted(tree: Tree, k: nat, vars: set<string>, v: string, e: Expr)
    requires NoSample(tree, k, vars, v)
    ensures Rename(Substitute(tree, k, vars, false, e), v, Spell(tree, Sample(k, v))) == Substitute(tree, k, vars + {v}, false, e)
    decreases e
  {
    match e
    case Const(_) =>
    case Var(_) =>
    case Unary(_, a) => RenameSubstituted(tree, k, vars, v, a);
    case Binary(_, a, b) => RenameSubstituted(tree, k, vars, v, a); RenameSubstituted(tree, k, vars, v, b);
    case If(c, a, b) =>
      RenameSubstituted(tree, k, vars, v, c); RenameSubstituted(tree, k, vars, v, a); RenameSubstituted(tree, k, vars, v, b);
    case Pre(a) => RenameSubstituted(tree, k, vars, v, a);
    case Arrow(a, b) => RenameSubstituted(tree, k, vars, v, a); RenameSubstituted(tree, k, vars, v, b);
    case When(a, _, _) => RenameSubstituted(tree, k, vars, v, a);
    case Merge(_, a, b) => RenameSubstituted(tree, k, vars, v, a); RenameSubstituted(tree, k, vars, v, b);
    case Call(_, _, args) =>
      forall i | 0 <= i < |args|
        ensures Rename(Substitute(tree, k, vars, false, args[i]), v, Spell(tree, Sample(k, v))) == Substitute(tree, k, vars + {v}, false, args[i])
      {
        RenameSubstituted(tree, k, vars, v, args[i]);
      }
    case Condact(_, _, _, _, _) =>
  }

  lemma {:induction false} SubstituteNothing(tree: Tree, k: nat, e: Expr)
    ensures Substitute(tree, k, {}, false, e) == e
    decreases e
  {
    match e
    case Const(_) =>
    case Var(_) =>
    case Unary(_, a) => SubstituteNothing(tree, k, a);
    case Binary(_, a, b) => SubstituteNothing(tree, k, a); SubstituteNothing(tree, k, b);
    case If(c, a, b) => SubstituteNothing(tree, k, c); SubstituteNothing(tree, k, a); SubstituteNothing(tree, k, b);
    case Pre(a) => SubstituteNothing(tree, k, a);
    case Arrow(a, b) => SubstituteNothing(tree, k, a); SubstituteNothing(tree, k, b);
    case When(a, _, _) => SubstituteNothing(tree, k, a);
    case Merge(_, a, b) => SubstituteNothing(tree, k, a); SubstituteNothing(tree, k, b);
    case Call(site, f, args) =>
      forall i | 0 <= i < |args| ensures Substitute(tree, k, {}, false, args[i]) == args[i] {
        SubstituteNothing(tree, k, args[i]);
      }
      assert Substitute(tree, k, {}, false, e).args == args;
    case Condact(_, _, _, _, _) =>
  }

  /** Renaming the reads one after the other replaces them all at once. */
  lemma FirstElements(vs: seq<string>, i: nat)
    requires i <= |vs|
    ensures Elements(vs[..i]) <= Elements(vs)
  {
  }

  lemma {:induction false} RenameAllSubstitutes(tree: Tree, k: nat, e: Expr, vs: seq<string>, i: nat)
    requires i <= |vs| && forall j | 0 <= j < |vs| :: NoSample(tree, k, Elements(vs), vs[j])
    ensures RenameAll(tree, k, e, vs, i) == Substitute(tree, k, Elements(vs[..i]), false, e)
    decreases i
  {
    if i == 0 {
      SubstituteNothing(tree, k, e);
      assert Elements(vs[..0]) == {};
    } else {
      hide Substitute, Rename, Elements, Spell;
      RenameAllSubstitutes(tree, k, e, vs, i-1);
      ElementsNext(vs, i-1);
      FirstElements(vs, i-1);
      assert NoSample(tree, k, Elements(vs), vs[i-1]);
      RenameSubstituted(tree, k, Elements(vs[..i-1]), vs[i-1], e);
    }
  }

  /** A clock over a scope's variables, as seen from outside the scope. */
  function Lift(tree: Tree, k: nat, vars: set<string>, ck: Clock): Clock {
    match ck
    case Base => ScopeClock(tree, k)
    case On(c, on, p) => On(SubstName(tree, k, vars, c), on, Lift(tree, k, vars, p))
  }

  function AllBase(names: set<string>): ClockMap {
    map x | x in names :: Base
  }

  lemma SubstSampled(tree: Tree, names: set<string>, ideal: ClockMap, k: nat, vars: set<string>, x: string)
    requires Intended(tree, names, ideal) && k <= |tree.branches| && vars <= names && x in vars
    ensures var y := SubstName(tree, k, vars, x); y in ideal && ideal[y] == ScopeClock(tree, k) && IsSample(tree, k, vars, y)
  {
    hide Spell;
    assert Relevant(|tree.branches|, names, Sample(k, x));
  }

  lemma BaseClocks(names: set<string>)
    ensures AllBase(names).Keys == names && forall x | x in names :: AllBase(names)[x] == Base
  {
  }

  lemma {:induction false} SubstituteDisciplined(tree: Tree, names: set<string>, ideal: ClockMap, k: nat, vars: set<string>, e: Expr, ck: Clock)
    requires Intended(tree, names, ideal) && k <= |tree.branches| && vars <= names
    requires Disciplined(e, ck, AllBase(names)) && Names(e) <= vars
    ensures Disciplined(Substitute(tree, k, vars, false, e), Lift(tree, k, vars, ck), ideal)
    ensures forall x | x in Names(Substitute(tree, k, vars, false, e)) :: IsSample(tree, k, vars, x)
    ensures Names(e) != {} ==> Names(Substitute(tree, k, vars, false, e)) != {}
    decreases e
  {
    hide Intended, Spell, SubstName, AllBase, IsSample;
    BaseClocks(names);
    match e
    case Const(_) =>
    case Var(x) => SubstSampled(tree, names, ideal, k, vars, x);
    case Unary(_, a) => SubstituteDisciplined(tree, names, ideal, k, vars, a, ck);
    case Binary(_, a, b) =>
      SubstituteDisciplined(tree, names, ideal, k, vars, a, ck);
      SubstituteDisciplined(tree, names, ideal, k, vars, b, ck);
    case If(c, a, b) =>
      SubstituteDisciplined(tree, names, ideal, k, vars, c, ck);
      SubstituteDisciplined(tree, names, ideal, k, vars, a, ck);
      SubstituteDisciplined(tree, names, ideal, k, vars, b, ck);
    case Pre(a) => SubstituteDisciplined(tree, names, ideal, k, vars, a, ck);
    case Arrow(a, b) =>
      SubstituteDisciplined(tree, names, ideal, k, vars, a, ck);
      SubstituteDisciplined(tree, names, ideal, k, vars, b, ck);
    case When(a, c, _) =>
      SubstSampled(tree, names, ideal, k, vars, c);
      SubstituteDisciplined(tree, names, ideal, k, vars, a, ck.parent);
    case Merge(c, a, b) =>
      SubstSampled(tree, names, ideal, k, vars, c);
      SubstituteDisciplined(tree, names, ideal, k, vars, a, On(c, true, ck));
      SubstituteDisciplined(tree, names, ideal, k, vars, b, On(c, false, ck));
    case Call(_, _, args) => SubstituteArgsDisciplined(tree, names, ideal, k, vars, args, ck);
    case Condact(_, _, _, _, _) =>
  }

  lemma {:induction false} SubstituteArgsDisciplined(tree: Tree, names: set<string>, ideal: ClockMap, k: nat, vars: set<string>,
                                                     args: seq<Expr>, ck: Clock)
    requires Intended(tree, names, ideal) && k <= |tree.branches| && vars <= names
    requires DisciplinedAll(args, ck, AllBase(names)) && NamesAll(args) <= vars
    ensures
      var rs := seq(|args|, i requires 0 <= i < |args| => Substitute(tree, k, vars, false, args[i]));
      && DisciplinedAll(rs, Lift(tree, k, vars, ck), ideal)
      && (forall x | x in NamesAll(rs) :: IsSample(tree, k, vars, x))
      && (NamesAll(args) != {} ==> NamesAll(rs) != {})
    decreases args
  {
    if args != [] {
      SubstituteDisciplined(tree, names, ideal, k, vars, args[0], ck);
      SubstituteArgsDisciplined(tree, names, ideal, k, vars, args[1..], ck);
      var rs := seq(|args|, i requires 0 <= i < |args| => Substitute(tree, k, vars, false, args[i]));
      var rest := args[1..];
      assert rs[1..] == seq(|rest|, i requires 0 <= i < |rest| => Substitute(tree, k, vars, false, rest[i]));
    }
  }

  lemma {:induction false} PinDisciplined(tree: Tree, names: set<string>, ideal: ClockMap, k: nat, e: Expr)
    requires Intended(tree, names, ideal) && k <= |tree.branches| && tree.branches != []
    requires Disciplined(e, Base, AllBase(names)) && Names(e) == {}
    ensures Disciplined(Pin(tree, k, e), ScopeClock(tree, k), ideal)
    ensures forall x | x in Names(Pin(tree, k, e)) :: IsClockVar(tree, x)
    ensures HasConst(e) ==> Names(Pin(tree, k, e)) != {}
    decreases e
  {
    match e
    case Const(_) => OntoDisciplined(tree, names, ideal, k, e);
    case Var(_) =>
    case Unary(_, a) => PinDisciplined(tree, names, ideal, k, a);
    case Binary(_, a, b) =>
      PinDisciplined(tree, names, ideal, k, a);
      PinDisciplined(tree, names, ideal, k, b);
    case If(c, a, b) =>
      PinDisciplined(tree, names, ideal, k, c);
      PinDisciplined(tree, names, ideal, k, a);
      PinDisciplined(tree, names, ideal, k, b);
    case Pre(a) => PinDisciplined(tree, names, ideal, k, a);
    case Arrow(a, b) =>
      PinDisciplined(tree, names, ideal, k, a);
      PinDisciplined(tree, names, ideal, k, b);
    case When(_, _, _) => assert false;
    case Merge(_, _, _) => assert false;
    case Call(_, _, args) => PinAllDisciplined(tree, names, ideal, k, args);
    case Condact(_, _, _, _, _) =>
  }

  lemma {:induction false} PinAllDisciplined(tree: Tree, names: set<string>, ideal: ClockMap, k: nat, args: seq<Expr>)
    requires Intended(tree, names, ideal) && k <= |tree.branches| && tree.branches != []
    requires DisciplinedAll(args, Base, AllBase(names)) && NamesAll(args) == {}
    ensures
      var rs := seq(|args|, i requires 0 <= i < |args| => Pin(tree, k, args[i]));
      && DisciplinedAll(rs, ScopeClock(tree, k), ideal)
      && (forall x | x in NamesAll(rs) :: IsClockVar(tree, x))
      && ((exists i :: 0 <= i < |args| && HasConst(args[i])) ==> NamesAll(rs) != {})
    decreases args
  {
    if args != [] {
      PinDisciplined(tree, names, ideal, k, args[0]);
      PinAllDisciplined(tree, names, ideal, k, args[1..]);
      var rs := seq(|args|, i requires 0 <= i < |args| => Pin(tree, k, args[i]));
      var rest := args[1..];
      assert rs[1..] == seq(|rest|, i requires 0 <= i < |rest| => Pin(tree, k, rest[i]));
      if i :| 0 <= i < |args| && HasConst(args[i]) && i > 0 {
        assert HasConst(rest[i-1]);
      }
    }
  }

  // ---------------------------------------------------------------- one definition after the other

  function DefinedNames(ds: seq<Definition>): set<string> {
    if ds == [] then {} else DefinedNames(ds[..|ds|-1]) + {ds[|ds|-1].name}
  }

  /** The definition obeys the clock rules and mentions no sampled variable outside `known`. */
  ghost predicate DefinitionOk(ideal: ClockMap, known: set<string>, d: Definition) {
    && Obeys(Equation(d.name, d.rhs), ideal)
    && forall x | x in Names(d.rhs) && x in ideal && ideal[x] != Base :: x in known
  }

  /** Every definition finds the sampled variables it mentions in `known` or before it. */
  ghost predicate Listed(ideal: ClockMap, known: set<string>, ds: seq<Definition>) {
    ds == [] ||
    (&& Listed(ideal, known, ds[..|ds|-1])
     && DefinitionOk(ideal, known + DefinedNames(ds[..|ds|-1]), ds[|ds|-1]))
  }

  lemma {:induction false} DefinedAppend(a: seq<Definition>, b: seq<Definition>)
    ensures DefinedNames(a + b) == DefinedNames(a) + DefinedNames(b)
    decreases |b|
  {
    if b == [] {
      assert a + b == a;
    } else {
      var k := |b| - 1;
      DefinedAppend(a, b[..k]);
      assert (a + b)[..|a| + k] == a + b[..k];
    }
  }

  lemma ListedSnoc(ideal: ClockMap, known: set<string>, ds: seq<Definition>, d: Definition)
    requires Listed(ideal, known, ds) && DefinitionOk(ideal, known + DefinedNames(ds), d)
    ensures Listed(ideal, known, ds + [d]) && DefinedNames(ds + [d]) == DefinedNames(ds) + {d.name}
  {
    assert (ds + [d])[..|ds|] == ds;
  }

  lemma KnownAppend(known: set<string>, a: seq<Definition>, b: seq<Definition>)
    ensures known + DefinedNames(a) + DefinedNames(b) == known + DefinedNames(a + b)
  {
    DefinedAppend(a, b);
  }

  lemma SeqSnoc<T>(a: seq<T>, b: seq<T>)
    requires b != []
    ensures a + b[..|b|-1] + [b[|b|-1]] == a + b
  {
  }

  lemma {:induction false} ListedAppend(ideal: ClockMap, known: set<string>, a: seq<Definition>, b: seq<Definition>)
    requires Listed(ideal, known, a) && Listed(ideal, known + DefinedNames(a), b)
    ensures Listed(ideal, known, a + b)
    decreases |b|
  {
    if b == [] {
      assert a + b == a;
    } else {
      var k := |b| - 1;
      ListedAppend(ideal, known, a, b[..k]);
      KnownAppend(known, a, b[..k]);
      ListedSnoc(ideal, known, a + b[..k], b[k]);
      SeqSnoc(a, b);
    }
  }

  lemma {:induction false} ListedMore(ideal: ClockMap, small: set<string>, large: set<string>, ds: seq<Definition>)
    requires Listed(ideal, small, ds) && small <= large
    ensures Listed(ideal, large, ds)
    decreases |ds|
  {
    if ds != [] { ListedMore(ideal, small, large, ds[..|ds|-1]); }
  }

  // ---------------------------------------------------------------- what is assumed of the tree

  /** Conditions, scopes and explicit initial values are over base-clocked
      variables of `names`; scopes assign variables of `names`. */
  ghost predicate BaseTree(tree: Tree, owner: map<string, Type>, names: set<string>) {
    && tree.branches != [] && Readable(tree, owner).Keys <= names
    && (forall i | 0 <= i < |tree.branches| :: BaseExpr(Condition(tree, i), names))
    && (forall k | 0 <= k < |tree.branches| + 1 :: BaseScope(tree, owner, names, Scope(tree, k)))
    && (forall i | 0 <= i < |Holders(tree)| :: BaseHolder(Holders(tree)[i], names))
    && (forall i | 0 <= i < |tree.outputs| :: tree.outputs[i].name in names)
  }

  ghost predicate BaseExpr(e: Expr, names: set<string>) {
    Disciplined(e, Base, AllBase(names))
  }

  ghost predicate BaseEquation(tree: Tree, owner: map<string, Type>, names: set<string>, eq: Equation) {
    var rhs := Relast(tree, eq.rhs);
    eq.lhs in names && BaseExpr(rhs, names) && Names(rhs) <= Readable(tree, owner).Keys
  }

  ghost predicate BaseHolder(h: Holder, names: set<string>) {
    h.v in names && (h.init.Some? ==> BaseExpr(h.init.value, names))
  }

  // ---------------------------------------------------------------- the definitions, section by section

  lemma BaseOk(names: set<string>, tree: Tree, ideal: ClockMap, g: Generated, ty: Type, rhs: Expr, known: set<string>)
    requires Intended(tree, names, ideal) && Relevant(|tree.branches|, names, g) && ClockOf(tree, g) == Base
    requires Disciplined(rhs, Base, ideal) && forall x | x in Names(rhs) :: x in ideal && ideal[x] == Base
    ensures DefinitionOk(ideal, known, Definition(Spell(tree, g), ty, rhs))
  {
  }

  lemma NothingListed(ideal: ClockMap, known: set<string>)
    ensures Listed(ideal, known, [])
  {
  }

  lemma HolderBase(tree: Tree, owner: map<string, Type>, names: set<string>, i: nat)
    requires BaseTree(tree, owner, names) && i < |Holders(tree)|
    ensures BaseHolder(Holders(tree)[i], names)
  {
  }

  lemma {:induction false} LastsListed(tree: Tree, owner: map<string, Type>, names: set<string>, ideal: ClockMap,
                                       types: map<string, Type>, i: nat)
    requires Intended(tree, names, ideal) && BaseTree(tree, owner, names) && i <= |Holders(tree)|
    ensures Listed(ideal, {}, LastDefinitions(tree, Holders(tree), types, i))
    decreases i
  {
    hide LastDefinition, WithHolders, Listed, BaseTree, BaseHolder, Intended, Holders;
    NothingListed(ideal, {});
    if i > 0 {
      LastsListed(tree, owner, names, ideal, types, i-1);
      var h := Holders(tree)[i-1];
      HolderBase(tree, owner, names, i-1);
      LastListed(tree, names, ideal, h, WithHolders(tree, Holders(tree), types, i-1),
                 LastDefinitions(tree, Holders(tree), types, i-1));
    }
  }

  lemma LastListed(tree: Tree, names: set<string>, ideal: ClockMap, h: Holder, types: map<string, Type>, rest: seq<Definition>)
    requires Intended(tree, names, ideal) && BaseHolder(h, names) && Listed(ideal, {}, rest)
    ensures Listed(ideal, {}, rest + [LastDefinition(tree, h, types)])
  {
    var d := LastDefinition(tree, h, types);
    LastOk(tree, names, ideal, h, d, {} + DefinedNames(rest));
    ListedSnoc(ideal, {}, rest, d);
  }

  lemma LastOk(tree: Tree, names: set<string>, ideal: ClockMap, h: Holder, d: Definition, known: set<string>)
    requires Intended(tree, names, ideal) && BaseHolder(h, names)
    requires d.name == Spell(tree, Last(h.v)) && d.rhs.Arrow? && d.rhs.body == Pre(Var(h.v))
    requires d.rhs.init.Const? || (h.init.Some? && d.rhs.init == h.init.value)
    ensures DefinitionOk(ideal, known, d)
  {
    if h.init.Some? && d.rhs.init == h.init.value { BaseDisciplined(tree, names, ideal, h.init.value); }
    assert Names(d.rhs.body) == {h.v};
    BaseOk(names, tree, ideal, Last(h.v), d.ty, d.rhs, known);
  }

  lemma BaseDisciplined(tree: Tree, names: set<string>, ideal: ClockMap, e: Expr)
    requires Intended(tree, names, ideal) && BaseExpr(e, names)
    ensures Disciplined(e, Base, ideal) && Names(e) <= names
  {
    DisciplinedMore(e, Base, AllBase(names), ideal);
    DisciplinedNames(e, Base, AllBase(names));
  }

  lemma FlagOk(tree: Tree, names: set<string>, ideal: ClockMap, i: nat, known: set<string>)
    requires Intended(tree, names, ideal) && i < |tree.branches| && BaseExpr(Condition(tree, i), names)
    ensures Listed(ideal, known, FlagDefinition(tree, i))
  {
    var c := Condition(tree, i);
    BaseDisciplined(tree, names, ideal, c);
    assert i > 0 ==> Relevant(|tree.branches|, names, NoneUpTo(i-1));
    BaseOk(names, tree, ideal, Flag(i), BoolType, Decision(tree, i, c), known);
    var d := Definition(Spell(tree, Flag(i)), BoolType, Decision(tree, i, c));
    ListedSnoc(ideal, known, [], d);
    assert [] + [d] == [d];
    if i + 1 < |tree.branches| {
      var e := Definition(Spell(tree, NoneUpTo(i)), BoolType, Decision(tree, i, Unary(Not, c)));
      BaseOk(names, tree, ideal, NoneUpTo(i), BoolType, e.rhs, known + DefinedNames([d]));
      ListedSnoc(ideal, known, [d], e);
    } else {
      assert [d] + [] == [d];
    }
  }

  lemma {:induction false} FlagsListed(tree: Tree, names: set<string>, ideal: ClockMap, known: set<string>, m: nat)
    requires Intended(tree, names, ideal) && m <= |tree.branches|
    requires forall i | 0 <= i < |tree.branches| :: BaseExpr(Condition(tree, i), names)
    ensures Listed(ideal, known, FlagDefinitions(tree, m))
    decreases m
  {
    if m > 0 {
      FlagsListed(tree, names, ideal, known, m-1);
      FlagOk(tree, names, ideal, m-1, known + DefinedNames(FlagDefinitions(tree, m-1)));
      ListedAppend(ideal, known, FlagDefinitions(tree, m-1), FlagDefinition(tree, m-1));
    }
  }

  /** The guards of branches 1 up to `m`. */
  ghost predicate GuardsKnown(tree: Tree, known: set<string>, m: nat) {
    forall k: nat | 1 <= k < m :: Spell(tree, Guard(k)) in known
  }

  lemma {:induction false} UnderNames(tree: Tree, k: nat, e: Expr, x: string) returns (j: nat)
    requires x in Names(Under(tree, k, e)) && x !in Names(e)
    ensures j < k && x == ClockVar(tree, j)
  {
    if x == ClockVar(tree, k-1) { j := k-1; } else { j := UnderNames(tree, k-1, e, x); }
  }

  lemma GuardOk(tree: Tree, names: set<string>, ideal: ClockMap, known: set<string>, k: nat)
    requires Intended(tree, names, ideal) && 1 <= k < |tree.branches| && GuardsKnown(tree, known, k)
    ensures DefinitionOk(ideal, known, GuardDefinition(tree, k))
  {
    var flag := Var(Spell(tree, Flag(k)));
    assert Relevant(|tree.branches|, names, Flag(k)) && Relevant(|tree.branches|, names, Guard(k));
    UnderDisciplined(tree, names, ideal, k, flag);
    DisciplinedNames(Under(tree, k, flag), UnderClock(tree, k), ideal);
    forall x | x in Names(Under(tree, k, flag)) && ideal[x] != Base ensures x in known {
      var j := UnderNames(tree, k, flag, x);
      ClockVarClock(tree, names, ideal, j);
    }
  }

  lemma {:induction false} GuardsListed(tree: Tree, names: set<string>, ideal: ClockMap, known: set<string>, m: nat)
    requires Intended(tree, names, ideal) && m <= |tree.branches|
    ensures Listed(ideal, known, GuardDefinitions(tree, m))
    ensures GuardsKnown(tree, DefinedNames(GuardDefinitions(tree, m)), m)
    decreases m
  {
    if m > 1 {
      GuardsListed(tree, names, ideal, known, m-1);
      GuardListed(tree, names, ideal, known, m-1, GuardDefinitions(tree, m-1));
    }
  }

  lemma GuardListed(tree: Tree, names: set<string>, ideal: ClockMap, known: set<string>, k: nat, rest: seq<Definition>)
    requires Intended(tree, names, ideal) && 1 <= k < |tree.branches|
    requires Listed(ideal, known, rest) && GuardsKnown(tree, DefinedNames(rest), k)
    ensures Listed(ideal, known, rest + [GuardDefinition(tree, k)])
    ensures GuardsKnown(tree, DefinedNames(rest + [GuardDefinition(tree, k)]), k+1)
  {
    hide Listed, DefinitionOk, Names;
    GuardOk(tree, names, ideal, known + DefinedNames(rest), k);
    ListedSnoc(ideal, known, rest, GuardDefinition(tree, k));
  }

  lemma ClockVarKnown(tree: Tree, names: set<string>, ideal: ClockMap, known: set<string>, x: string)
    requires Intended(tree, names, ideal) && GuardsKnown(tree, known, |tree.branches|)
    requires IsClockVar(tree, x)
    ensures x in ideal && (ideal[x] != Base ==> x in known)
  {
    var j: nat :| j < |tree.branches| && x == ClockVar(tree, j);
    ClockVarClock(tree, names, ideal, j);
  }

  lemma SampleOk(tree: Tree, names: set<string>, ideal: ClockMap, known: set<string>, k: nat, types: map<string, Type>, v: string)
    requires Intended(tree, names, ideal) && k <= |tree.branches| && tree.branches != [] && v in names
    requires GuardsKnown(tree, known, |tree.branches|)
    ensures DefinitionOk(ideal, known, SampleDefinition(tree, k, types, v))
  {
    assert Relevant(|tree.branches|, names, Sample(k, v));
    OntoDisciplined(tree, names, ideal, k, Var(v));
    DisciplinedNames(Onto(tree, k, Var(v)), ScopeClock(tree, k), ideal);
    forall x | x in Names(Onto(tree, k, Var(v))) && ideal[x] != Base ensures x in known {
      ClockVarKnown(tree, names, ideal, known, x);
    }
  }

  ghost predicate SamplesKnown(tree: Tree, k: nat, vars: set<string>, known: set<string>) {
    forall v | v in vars :: Spell(tree, Sample(k, v)) in known
  }

  lemma NothingSampled(tree: Tree, k: nat, already: set<string>, vs: seq<string>, known: set<string>)
    requires SamplesKnown(tree, k, already, known)
    ensures SamplesKnown(tree, k, already + Elements(vs[..0]), known + DefinedNames([]))
  {
    hide Spell;
  }

  lemma {:induction false} SamplesListed(tree: Tree, names: set<string>, ideal: ClockMap, known: set<string>, k: nat,
                                         types: map<string, Type>, already: set<string>, vs: seq<string>, i: nat)
    requires Intended(tree, names, ideal) && k <= |tree.branches| && tree.branches != [] && Elements(vs) <= names
    requires GuardsKnown(tree, known, |tree.branches|) && SamplesKnown(tree, k, already, known) && i <= |vs|
    ensures Listed(ideal, known, NewSamples(tree, k, types, already, vs, i))
    ensures SamplesKnown(tree, k, already + Elements(vs[..i]), known + DefinedNames(NewSamples(tree, k, types, already, vs, i)))
    decreases i
  {
    hide Intended, Listed, SamplesKnown, GuardsKnown, NewSample, Elements, Spell;
    if i == 0 {
      NothingListed(ideal, known);
      NothingSampled(tree, k, already, vs, known);
    } else {
      SamplesListed(tree, names, ideal, known, k, types, already, vs, i-1);
      var rest := NewSamples(tree, k, types, already, vs, i-1);
      SampleListed(tree, names, ideal, known, k, types, already, vs, i-1, rest);
      assert NewSamples(tree, k, types, already, vs, i) == rest + NewSample(tree, k, types, already, vs, i-1);
    }
  }

  lemma SampleListed(tree: Tree, names: set<string>, ideal: ClockMap, known: set<string>, k: nat,
                     types: map<string, Type>, already: set<string>, vs: seq<string>, i: nat, rest: seq<Definition>)
    requires Intended(tree, names, ideal) && k <= |tree.branches| && tree.branches != [] && Elements(vs) <= names
    requires GuardsKnown(tree, known, |tree.branches|) && SamplesKnown(tree, k, already, known) && i < |vs|
    requires Listed(ideal, known, rest) && SamplesKnown(tree, k, already + Elements(vs[..i]), known + DefinedNames(rest))
    ensures
      var ds := rest + NewSample(tree, k, types, already, vs, i);
      Listed(ideal, known, ds) && SamplesKnown(tree, k, already + Elements(vs[..i+1]), known + DefinedNames(ds))
  {
    ElementsNext(vs, i);
    if vs[i] in already + Elements(vs[..i]) {
      assert rest + [] == rest;
    } else {
      assert vs[i] in Elements(vs);
      SampleOk(tree, names, ideal, known + DefinedNames(rest), k, types, vs[i]);
      ListedSnoc(ideal, known, rest, SampleDefinition(tree, k, types, vs[i]));
    }
  }

  lemma ScopeValueOk(tree: Tree, owner: map<string, Type>, names: set<string>, ideal: ClockMap, known: set<string>, k: nat, ty: Type, eq: Equation)
    requires Intended(tree, names, ideal) && Fresh(tree, names) && BaseEquation(tree, owner, names, eq)
    requires k <= |tree.branches| && tree.branches != [] && Readable(tree, owner).Keys <= names
    requires GuardsKnown(tree, known, |tree.branches|)
    requires SamplesKnown(tree, k, Names(Relast(tree, eq.rhs)), known)
    ensures
      DefinitionOk(ideal, known, Definition(Spell(tree, Value(k, eq.lhs)), ty,
                                            ScopeValue(tree, k, Readable(tree, owner).Keys, Relast(tree, eq.rhs))))
  {
    var rhs := Relast(tree, eq.rhs);
    var vars := Readable(tree, owner).Keys;
    assert Relevant(|tree.branches|, names, Value(k, eq.lhs));
    ScopeValueDisciplined(tree, names, ideal, k, vars, rhs);
    var value := ScopeValue(tree, k, vars, rhs);
    DisciplinedNames(value, ScopeClock(tree, k), ideal);
    forall x | x in Names(value) && ideal[x] != Base ensures x in known {
      if IsClockVar(tree, x) {
        ClockVarKnown(tree, names, ideal, known, x);
      }
    }
  }

  /** A scope value lives on the scope's clock and mentions only its samples and clock variables. */
  lemma ScopeValueDisciplined(tree: Tree, names: set<string>, ideal: ClockMap, k: nat, vars: set<string>, rhs: Expr)
    requires Intended(tree, names, ideal) && Fresh(tree, names) && BaseExpr(rhs, names)
    requires k <= |tree.branches| && tree.branches != [] && vars <= names && Names(rhs) <= vars
    ensures Disciplined(ScopeValue(tree, k, vars, rhs), ScopeClock(tree, k), ideal)
    ensures Names(ScopeValue(tree, k, vars, rhs)) != {}
    ensures forall x | x in Names(ScopeValue(tree, k, vars, rhs)) :: IsClockVar(tree, x) || IsSample(tree, k, Names(rhs), x)
  {
    var reading := FreeVars(rhs, vars);
    assert Elements(reading) == Names(rhs);
    if reading != [] {
      assert reading[0] in Elements(reading);
      ScopeValueSubstitutes(tree, names, k, vars, rhs);
      SubstituteDisciplined(tree, names, ideal, k, Names(rhs), rhs, Base);
    } else if HasConst(rhs) {
      PinDisciplined(tree, names, ideal, k, rhs);
    } else {
      BaseDisciplined(tree, names, ideal, rhs);
      OntoDisciplined(tree, names, ideal, k, rhs);
    }
  }

  lemma ScopeValueSubstitutes(tree: Tree, names: set<string>, k: nat, vars: set<string>, rhs: Expr)
    requires Fresh(tree, names) && k <= |tree.branches| && vars <= names && Names(rhs) <= vars && Names(rhs) != {}
    ensures ScopeValue(tree, k, vars, rhs) == Substitute(tree, k, Names(rhs), false, rhs)
  {
    var reading := FreeVars(rhs, vars);
    assert Elements(reading) == Names(rhs);
    assert reading != [];
    forall j | 0 <= j < |reading| ensures NoSample(tree, k, Elements(reading), reading[j]) {
      assert reading[j] in Elements(reading);
      assert forall x | x in Elements(reading) :: Relevant(|tree.branches|, names, Sample(k, x));
    }
    RenameAllSubstitutes(tree, k, rhs, reading, |reading|);
    assert reading[..|reading|] == reading;
  }

  // ---------------------------------------------------------------- scopes

  ghost predicate BaseScope(tree: Tree, owner: map<string, Type>, names: set<string>, eqs: seq<Equation>) {
    forall i | 0 <= i < |eqs| :: BaseEquation(tree, owner, names, eqs[i])
  }

  /** The first `i` equations of scope `k` are listed, and their reads sampled. */
  ghost predicate ScopeOk(tree: Tree, types: map<string, Type>, ideal: ClockMap, known: set<string>, k: nat, eqs: seq<Equation>, i: nat)
    requires i <= |eqs|
  {
    var ds := ScopeDefinitions(tree, k, types, eqs, i);
    Listed(ideal, known, ds) && SamplesKnown(tree, k, ScopeReads(tree, eqs, types.Keys, i), known + DefinedNames(ds))
  }

  lemma {:induction false} ScopeListed(tree: Tree, owner: map<string, Type>, names: set<string>, ideal: ClockMap, known: set<string>,
                                       k: nat, eqs: seq<Equation>, i: nat)
    requires Intended(tree, names, ideal) && Fresh(tree, names)
    requires tree.branches != [] && Readable(tree, owner).Keys <= names && BaseScope(tree, owner, names, eqs)
    requires k <= |tree.branches| && GuardsKnown(tree, known, |tree.branches|) && i <= |eqs|
    ensures ScopeOk(tree, Readable(tree, owner), ideal, known, k, eqs, i)
    decreases i
  {
    hide EquationDefinitions;
    if i > 0 {
      ScopeListed(tree, owner, names, ideal, known, k, eqs, i-1);
      assert BaseEquation(tree, owner, names, eqs[i-1]);
      ScopeStep(tree, owner, names, ideal, known, k, eqs, i-1);
    }
  }

  lemma ScopeStep(tree: Tree, owner: map<string, Type>, names: set<string>, ideal: ClockMap, known: set<string>,
                  k: nat, eqs: seq<Equation>, i: nat)
    requires Intended(tree, names, ideal) && Fresh(tree, names) && i < |eqs| && BaseEquation(tree, owner, names, eqs[i])
    requires k <= |tree.branches| && tree.branches != [] && Readable(tree, owner).Keys <= names
    requires GuardsKnown(tree, known, |tree.branches|)
    requires ScopeOk(tree, Readable(tree, owner), ideal, known, k, eqs, i)
    ensures ScopeOk(tree, Readable(tree, owner), ideal, known, k, eqs, i+1)
  {
    var types := Readable(tree, owner);
    EquationAppended(tree, owner, names, ideal, known, k, ScopeReads(tree, eqs, types.Keys, i), eqs[i],
                     ScopeDefinitions(tree, k, types, eqs, i));
  }

  lemma EquationAppended(tree: Tree, owner: map<string, Type>, names: set<string>, ideal: ClockMap, known: set<string>,
                         k: nat, already: set<string>, eq: Equation, rest: seq<Definition>)
    requires Intended(tree, names, ideal) && Fresh(tree, names) && BaseEquation(tree, owner, names, eq)
    requires k <= |tree.branches| && tree.branches != [] && Readable(tree, owner).Keys <= names
    requires GuardsKnown(tree, known, |tree.branches|)
    requires Listed(ideal, known, rest) && SamplesKnown(tree, k, already, known + DefinedNames(rest))
    ensures
      var types := Readable(tree, owner);
      var ds := rest + EquationDefinitions(tree, k, types, already, eq);
      && Listed(ideal, known, ds)
      && SamplesKnown(tree, k, already + Names(Relast(tree, eq.rhs)) * types.Keys, known + DefinedNames(ds))
  {
    var more := EquationDefinitions(tree, k, Readable(tree, owner), already, eq);
    EquationListed(tree, owner, names, ideal, known + DefinedNames(rest), k, already, eq);
    ListedAppend(ideal, known, rest, more);
    KnownAppend(known, rest, more);
  }

  lemma EquationListed(tree: Tree, owner: map<string, Type>, names: set<string>, ideal: ClockMap, known: set<string>,
                       k: nat, already: set<string>, eq: Equation)
    requires Intended(tree, names, ideal) && Fresh(tree, names) && BaseEquation(tree, owner, names, eq)
    requires k <= |tree.branches| && tree.branches != [] && Readable(tree, owner).Keys <= names
    requires GuardsKnown(tree, known, |tree.branches|) && SamplesKnown(tree, k, already, known)
    ensures
      var types := Readable(tree, owner);
      var ds := EquationDefinitions(tree, k, types, already, eq);
      && Listed(ideal, known, ds)
      && SamplesKnown(tree, k, already + Names(Relast(tree, eq.rhs)) * types.Keys, known + DefinedNames(ds))
  {
    var types := Readable(tree, owner);
    var rhs := Relast(tree, eq.rhs);
    var reading := FreeVars(rhs, types.Keys);
    assert reading[..|reading|] == reading;
    SamplesListed(tree, names, ideal, known, k, types, already, reading, |reading|);
    var samples := NewSamples(tree, k, types, already, reading, |reading|);
    var ty := OutputType(tree, types, eq.lhs);
    ScopeValueOk(tree, owner, names, ideal, known + DefinedNames(samples), k, ty, eq);
    ListedSnoc(ideal, known, samples, Definition(Spell(tree, Value(k, eq.lhs)), ty, ScopeValue(tree, k, types.Keys, rhs)));
  }

  lemma ScopeBase(tree: Tree, owner: map<string, Type>, names: set<string>, k: nat)
    requires BaseTree(tree, owner, names) && k <= |tree.branches|
    ensures tree.branches != [] && Readable(tree, owner).Keys <= names
    ensures BaseScope(tree, owner, names, Scope(tree, k))
  {
  }

  lemma MoreGuardsKnown(tree: Tree, known: set<string>, more: set<string>)
    requires GuardsKnown(tree, known, |tree.branches|)
    ensures GuardsKnown(tree, known + more, |tree.branches|)
  {
  }

  lemma ScopesStep(tree: Tree, owner: map<string, Type>, names: set<string>, ideal: ClockMap, known: set<string>, k: nat,
                   rest: seq<Definition>)
    requires Intended(tree, names, ideal) && Fresh(tree, names) && BaseTree(tree, owner, names)
    requires GuardsKnown(tree, known, |tree.branches|) && k <= |tree.branches| && Listed(ideal, known, rest)
    ensures Listed(ideal, known, rest + ScopeDefinitions(tree, k, Readable(tree, owner), Scope(tree, k), |Scope(tree, k)|))
  {
    hide ScopeDefinitions, Listed, Intended, Fresh, BaseTree, Scope, Readable, GuardsKnown;
    var eqs := Scope(tree, k);
    ScopeBase(tree, owner, names, k);
    MoreGuardsKnown(tree, known, DefinedNames(rest));
    ScopeListed(tree, owner, names, ideal, known + DefinedNames(rest), k, eqs, |eqs|);
    ListedAppend(ideal, known, rest, ScopeDefinitions(tree, k, Readable(tree, owner), eqs, |eqs|));
  }

  lemma {:induction false} ScopesListed(tree: Tree, owner: map<string, Type>, names: set<string>, ideal: ClockMap, known: set<string>, m: nat)
    requires Intended(tree, names, ideal) && Fresh(tree, names) && BaseTree(tree, owner, names)
    requires GuardsKnown(tree, known, |tree.branches|) && m <= |tree.branches| + 1
    ensures Listed(ideal, known, ScopesDefinitions(tree, Readable(tree, owner), m))
    decreases m
  {
    hide ScopeDefinitions, Listed, Intended, Fresh, BaseTree, Scope, Readable, GuardsKnown;
    NothingListed(ideal, known);
    if m > 0 {
      ScopesListed(tree, owner, names, ideal, known, m-1);
      ScopesStep(tree, owner, names, ideal, known, m-1, ScopesDefinitions(tree, Readable(tree, owner), m-1));
    }
  }

  /** All the definitions of a lowering, in order. */
  lemma DefinitionsListed(tree: Tree, owner: map<string, Type>, names: set<string>, ideal: ClockMap)
    requires Intended(tree, names, ideal) && Fresh(tree, names) && BaseTree(tree, owner, names)
    ensures Listed(ideal, {}, Definitions(tree, owner))
  {
    hide LastDefinitions, FlagDefinitions, GuardDefinitions, ScopesDefinitions;
    var n := |tree.branches|;
    var lasts := LastDefinitions(tree, Holders(tree), Variables(tree, owner), |Holders(tree)|);
    var flags := FlagDefinitions(tree, n);
    var guards := GuardDefinitions(tree, n);
    var scopes := ScopesDefinitions(tree, Readable(tree, owner), n + 1);
    LastsListed(tree, owner, names, ideal, Variables(tree, owner), |Holders(tree)|);
    FlagsListed(tree, names, ideal, DefinedNames(lasts), n);
    GuardsListed(tree, names, ideal, DefinedNames(lasts + flags), n);
    DefinedAppend(lasts + flags, guards);
    ScopesListed(tree, owner, names, ideal, DefinedNames(lasts + flags + guards), n + 1);
    ListedFour(ideal, lasts, flags, guards, scopes);
  }

  lemma ListedFour(ideal: ClockMap, a: seq<Definition>, b: seq<Definition>, c: seq<Definition>, d: seq<Definition>)
    requires Listed(ideal, {}, a) && Listed(ideal, DefinedNames(a), b)
    requires Listed(ideal, DefinedNames(a + b), c) && Listed(ideal, DefinedNames(a + b + c), d)
    ensures Listed(ideal, {}, a + b + c + d)
  {
    assert forall s: set<string> :: {} + s == s;
    ListedAppend(ideal, {}, a, b);
    ListedAppend(ideal, {}, a + b, c);
    ListedAppend(ideal, {}, a + b + c, d);
  }
}
